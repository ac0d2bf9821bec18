/** The submit requests on the wire: what the client encodes, the server decodes to the same lists.

    The server refuses counts that cannot fit in the unread bytes before it sizes anything, and
    handles that name nothing; neither refusal ever hits what a client encodes from live handles.
  */
module SubmitCodec {
  import opened Limits
  import opened Options
  import opened Wire
  import opened PNextChain
  import opened ChainStreams

  /** The handles the server's tables know. */
  datatype Live = Live(queues: set<U64>, fences: set<U64>, semaphores: set<U64>, commandBuffers: set<U64>)

  // ---------------------------------------------------------------------------
  // The first version
  // ---------------------------------------------------------------------------

  datatype Wait = Wait(semaphore: U64, stage: U32)

  datatype Submission = Submission(chain: seq<Node>, waits: seq<Wait>, commandBuffers: seq<U64>, signals: seq<U64>)

  datatype Request<T> = Request(queue: U64, fence: U64, submits: seq<T>)

  function EncodeWait(w: Wait): (bs: Bytes)
    ensures |bs| == 12
  {
    EncodeU64(w.semaphore) + EncodeU32(w.stage)
  }

  function ParseWait(live: Live): Bytes -> Parsed<Wait> {
    (input: Bytes) =>
      match ParseU64(input)
      case None => None
      case Some((id, r1)) =>
        match ParseU32(r1)
        case None => None
        case Some((stage, r2)) => if id !in live.semaphores then None else Some((Wait(id, stage), r2))
  }

  /** A handle that must name something. */
  function ParseLive(handles: set<U64>): Bytes -> Parsed<U64> {
    (input: Bytes) =>
      match ParseU64(input)
      case None => None
      case Some((id, rest)) => if id !in handles then None else Some((id, rest))
  }

  predicate InBounds(s: Submission) {
    && |s.waits| <= MAX_ARRAY_ELEMENTS && |s.commandBuffers| <= MAX_ARRAY_ELEMENTS && |s.signals| <= MAX_ARRAY_ELEMENTS
    && EncodeChain(Submit, s.chain, 0).Some?
  }

  function EncodeSubmission(s: Submission): Bytes {
    if !InBounds(s) then []
    else
      EncodeChain(Submit, s.chain, 0).value
      + (EncodeArray(EncodeWait, s.waits)
         + (EncodeArray(EncodeU64, s.commandBuffers) + EncodeArray(EncodeU64, s.signals)))
  }

  function ParseSubmission(live: Live): Bytes -> Parsed<Submission> {
    (input: Bytes) =>
      match ParseChain({}, Submit, 0, input)
      case None => None
      case Some((chain, r1)) =>
        match ParseArray(ParseWait(live), 12, r1)
        case None => None
        case Some((waits, r2)) =>
          match ParseArray(ParseLive(live.commandBuffers), 8, r2)
          case None => None
          case Some((commandBuffers, r3)) =>
            match ParseArray(ParseLive(live.semaphores), 8, r3)
            case None => None
            case Some((signals, r4)) => Some((Submission(chain, waits, commandBuffers, signals), r4))
  }

  function EncodeRequest(r: Request<Submission>): Bytes
    requires |r.submits| <= MAX_ARRAY_ELEMENTS
  {
    EncodeU64(r.queue) + (EncodeU64(r.fence) + EncodeArray(EncodeSubmission, r.submits))
  }

  function ParseIds(input: Bytes): Parsed<(U64, U64)> {
    match ParseU64(input)
    case None => None
    case Some((queue, r1)) =>
      match ParseU64(r1)
      case None => None
      case Some((fence, r2)) => Some(((queue, fence), r2))
  }

  predicate IdsLive(live: Live, queue: U64, fence: U64) {
    queue in live.queues && (fence == 0 || fence in live.fences)
  }

  /** A request is taken only for a known queue and fence, and only if nothing is left over. */
  function Accept<T>(live: Live, queue: U64, fence: U64, parsed: Parsed<seq<T>>): Option<Request<T>> {
    match parsed
    case None => None
    case Some((submits, rest)) =>
      if !IdsLive(live, queue, fence) || rest != [] then None else Some(Request(queue, fence, submits))
  }

  function ParseRequest(live: Live, input: Bytes): Option<Request<Submission>> {
    match ParseIds(input)
    case None => None
    case Some(((queue, fence), rest)) => Accept(live, queue, fence, ParseArray(ParseSubmission(live), 16, rest))
  }

  lemma IdsRoundTrip(queue: U64, fence: U64, rest: Bytes)
    ensures ParseIds(EncodeU64(queue) + (EncodeU64(fence) + rest)) == Some(((queue, fence), rest))
  {
    U64RoundTrip(queue, EncodeU64(fence) + rest);
    U64RoundTrip(fence, rest);
  }

  /** A list a client may send: in bounds, with a readable chain and handles the server knows. */
  predicate Sendable(live: Live, s: Submission) {
    && InBounds(s) && NodesReadable(s.chain)
    && (forall i | 0 <= i < |s.waits| :: s.waits[i].semaphore in live.semaphores)
    && (forall i | 0 <= i < |s.commandBuffers| :: s.commandBuffers[i] in live.commandBuffers)
    && (forall i | 0 <= i < |s.signals| :: s.signals[i] in live.semaphores)
  }

  lemma WaitsRoundTrip(live: Live, xs: seq<Wait>, rest: Bytes)
    requires |xs| <= MAX_ARRAY_ELEMENTS && forall i | 0 <= i < |xs| :: xs[i].semaphore in live.semaphores
    ensures ParseArray(ParseWait(live), 12, EncodeArray(EncodeWait, xs) + rest) == Some((xs, rest))
  {
    var parse := ParseWait(live);
    forall x, more | x in Elements(xs) ensures parse(EncodeWait(x) + more) == Some((x, more)) {
      Peel(EncodeU64(x.semaphore), EncodeU32(x.stage), more);
      U64RoundTrip(x.semaphore, EncodeU32(x.stage) + more);
      U32RoundTrip(x.stage, more);
    }
    ArrayRoundTrip(EncodeWait, parse, 12, xs, rest);
  }

  lemma HandlesRoundTrip(handles: set<U64>, xs: seq<U64>, rest: Bytes)
    requires |xs| <= MAX_ARRAY_ELEMENTS && forall i | 0 <= i < |xs| :: xs[i] in handles
    ensures ParseArray(ParseLive(handles), 8, EncodeArray(EncodeU64, xs) + rest) == Some((xs, rest))
  {
    var parse := ParseLive(handles);
    forall x: U64, more | x in Elements(xs) ensures parse(EncodeU64(x) + more) == Some((x, more)) {
      U64RoundTrip(x, more);
    }
    ArrayRoundTrip(EncodeU64, parse, 8, xs, rest);
  }

  lemma TimelineOnly(n: Node)
    requires Shaped(n) && Allowed(Submit, TypeOf(n))
    ensures n.TimelineSubmit?
  {
  }

  /** The nodes a submission may carry have nothing the other side would change. */
  lemma SubmitChainKept(chain: seq<Node>)
    requires EncodeChain(Submit, chain, 0).Some? && NodesReadable(chain)
    ensures AllReceived({}, Kept(Submit, chain)) == chain
  {
    NothingSkipped(Submit, chain);
    WrittenAcceptable(Submit, chain, 0);
    var received := AllReceived({}, chain);
    forall i | 0 <= i < |chain| ensures received[i] == chain[i] {
      TimelineOnly(chain[i]);
    }
  }

  lemma SubmissionRoundTrip(live: Live, s: Submission, rest: Bytes)
    requires Sendable(live, s)
    ensures ParseSubmission(live)(EncodeSubmission(s) + rest) == Some((s, rest))
  {
    var t3 := EncodeArray(EncodeU64, s.signals);
    var t2 := EncodeArray(EncodeU64, s.commandBuffers) + t3;
    var t1 := EncodeArray(EncodeWait, s.waits) + t2;
    Peel(EncodeChain(Submit, s.chain, 0).value, t1, rest);
    Peel(EncodeArray(EncodeWait, s.waits), t2, rest);
    Peel(EncodeArray(EncodeU64, s.commandBuffers), t3, rest);
    ChainRoundTrip({}, Submit, s.chain, 0, t1 + rest);
    SubmitChainKept(s.chain);
    WaitsRoundTrip(live, s.waits, t2 + rest);
    HandlesRoundTrip(live.commandBuffers, s.commandBuffers, t3 + rest);
    HandlesRoundTrip(live.semaphores, s.signals, rest);
  }

  lemma SubmissionLong(s: Submission)
    requires InBounds(s)
    ensures |EncodeSubmission(s)| >= 16
  {
  }

  lemma SubmissionsRoundTrip(live: Live, xs: seq<Submission>)
    requires |xs| <= MAX_ARRAY_ELEMENTS && forall i | 0 <= i < |xs| :: Sendable(live, xs[i])
    ensures ParseArray(ParseSubmission(live), 16, EncodeArray(EncodeSubmission, xs)) == Some((xs, []))
  {
    var parse := ParseSubmission(live);
    forall x, more | x in Elements(xs) ensures parse(EncodeSubmission(x) + more) == Some((x, more)) {
      SubmissionRoundTrip(live, x, more);
    }
    forall i | 0 <= i < |xs| ensures |EncodeSubmission(xs[i])| >= 16 {
      SubmissionLong(xs[i]);
    }
    ArrayRoundTrip(EncodeSubmission, parse, 16, xs, []);
    assert EncodeArray(EncodeSubmission, xs) + [] == EncodeArray(EncodeSubmission, xs);
  }

  /** Whatever list a client encodes from live handles, the server decodes to the same list, with
      nothing left over and no count refused. */
  lemma RequestRoundTrip(live: Live, r: Request<Submission>)
    requires IdsLive(live, r.queue, r.fence)
    requires |r.submits| <= MAX_ARRAY_ELEMENTS && forall i | 0 <= i < |r.submits| :: Sendable(live, r.submits[i])
    ensures ParseRequest(live, EncodeRequest(r)) == Some(r)
  {
    var b2 := EncodeArray(EncodeSubmission, r.submits);
    IdsRoundTrip(r.queue, r.fence, b2);
    SubmissionsRoundTrip(live, r.submits);
  }

  // ---------------------------------------------------------------------------
  // Only such lists are taken
  // ---------------------------------------------------------------------------

  lemma ParsedWaits(live: Live, input: Bytes)
    requires ParseArray(ParseWait(live), 12, input).Some?
    ensures var (xs, rest) := ParseArray(ParseWait(live), 12, input).value;
            && |xs| <= MAX_ARRAY_ELEMENTS && input == EncodeArray(EncodeWait, xs) + rest
            && forall i | 0 <= i < |xs| :: xs[i].semaphore in live.semaphores
  {
    var parse, ok := ParseWait(live), (w: Wait) => w.semaphore in live.semaphores;
    forall i | parse(i).Some? ensures ok(parse(i).value.0) && i == EncodeWait(parse(i).value.0) + parse(i).value.1 {
      ParsedU64(i);
      var (id, r1) := ParseU64(i).value;
      ParsedU32(r1);
      Peel(EncodeU64(id), EncodeU32(ParseU32(r1).value.0), ParseU32(r1).value.1);
    }
    ArrayCanonical(EncodeWait, ok, parse, 12, input);
    var (xs, rest) := ParseArray(parse, 12, input).value;
    assert forall i | 0 <= i < |xs| :: ok(xs[i]);
  }

  lemma ParsedHandles(handles: set<U64>, input: Bytes)
    requires ParseArray(ParseLive(handles), 8, input).Some?
    ensures var (xs, rest) := ParseArray(ParseLive(handles), 8, input).value;
            && |xs| <= MAX_ARRAY_ELEMENTS && input == EncodeArray(EncodeU64, xs) + rest
            && forall i | 0 <= i < |xs| :: xs[i] in handles
  {
    var parse, ok := ParseLive(handles), (x: U64) => x in handles;
    forall i | parse(i).Some? ensures ok(parse(i).value.0) && i == EncodeU64(parse(i).value.0) + parse(i).value.1 {
      ParsedU64(i);
    }
    ArrayCanonical(EncodeU64, ok, parse, 8, input);
    var (xs, rest) := ParseArray(parse, 8, input).value;
    assert forall i | 0 <= i < |xs| :: ok(xs[i]);
  }

  lemma ParsedSubmission(live: Live, input: Bytes)
    requires ParseSubmission(live)(input).Some?
    ensures var (s, rest) := ParseSubmission(live)(input).value; Sendable(live, s) && input == EncodeSubmission(s) + rest
  {
    hide ParseChain, EncodeChain, NodesReadable, ParseArray, EncodeArray;
    var (chain, r1) := ParseChain({}, Submit, 0, input).value;
    ChainReadExactly({}, Submit, 0, input, chain, r1);
    ParsedWaits(live, r1);
    var (waits, r2) := ParseArray(ParseWait(live), 12, r1).value;
    ParsedHandles(live.commandBuffers, r2);
    var (commandBuffers, r3) := ParseArray(ParseLive(live.commandBuffers), 8, r2).value;
    ParsedHandles(live.semaphores, r3);
    var (signals, r4) := ParseArray(ParseLive(live.semaphores), 8, r3).value;
    var t3 := EncodeArray(EncodeU64, signals);
    var t2 := EncodeArray(EncodeU64, commandBuffers) + t3;
    Peel(EncodeArray(EncodeU64, commandBuffers), t3, r4);
    Peel(EncodeArray(EncodeWait, waits), t2, r4);
    Peel(EncodeChain(Submit, chain, 0).value, EncodeArray(EncodeWait, waits) + t2, r4);
  }

  lemma ParsedIds(input: Bytes)
    requires ParseIds(input).Some?
    ensures var ((queue, fence), rest) := ParseIds(input).value; input == EncodeU64(queue) + (EncodeU64(fence) + rest)
  {
    ParsedU64(input);
    ParsedU64(ParseU64(input).value.1);
  }

  /** The handler takes a message if and only if it is the encoding of a list a client may send: a known
      queue, no fence or a known one, at most the allowed number of lists, each sendable, and nothing
      after them. */
  lemma RequestReadExactly(live: Live, input: Bytes, r: Request<Submission>)
    ensures ParseRequest(live, input) == Some(r)
            <==> r.queue in live.queues && (r.fence == 0 || r.fence in live.fences)
                 && |r.submits| <= MAX_ARRAY_ELEMENTS && (forall i | 0 <= i < |r.submits| :: Sendable(live, r.submits[i]))
                 && input == EncodeRequest(r)
  {
    if ParseRequest(live, input) == Some(r) {
      ParsedIds(input);
      var (_, body) := ParseIds(input).value;
      ParsedSubmissions(live, body);
      var (xs, rest) := ParseArray(ParseSubmission(live), 16, body).value;
      assert EncodeArray(EncodeSubmission, xs) + [] == EncodeArray(EncodeSubmission, xs);
    } else if r.queue in live.queues && (r.fence == 0 || r.fence in live.fences)
              && |r.submits| <= MAX_ARRAY_ELEMENTS && (forall i | 0 <= i < |r.submits| :: Sendable(live, r.submits[i])) {
      RequestRoundTrip(live, r);
    }
  }

  lemma ParsedSubmissions(live: Live, input: Bytes)
    requires ParseArray(ParseSubmission(live), 16, input).Some?
    ensures var (xs, rest) := ParseArray(ParseSubmission(live), 16, input).value;
            && |xs| <= MAX_ARRAY_ELEMENTS && input == EncodeArray(EncodeSubmission, xs) + rest
            && forall i | 0 <= i < |xs| :: Sendable(live, xs[i])
  {
    var parse, ok := ParseSubmission(live), (s: Submission) => Sendable(live, s);
    hide Sendable, EncodeSubmission;
    forall i | parse(i).Some?
      ensures ok(parse(i).value.0) && i == EncodeSubmission(parse(i).value.0) + parse(i).value.1
    {
      ParsedSubmission(live, i);
    }
    ArrayCanonical(EncodeSubmission, ok, parse, 16, input);
    var (xs, rest) := ParseArray(parse, 16, input).value;
    assert forall i | 0 <= i < |xs| :: ok(xs[i]);
  }

  // ---------------------------------------------------------------------------
  // The second version
  // ---------------------------------------------------------------------------

  const SUBMIT_INFO_2: I32 := 1000314004
  const SEMAPHORE_SUBMIT_INFO: I32 := 1000314005
  const COMMAND_BUFFER_SUBMIT_INFO: I32 := 1000314006

  /** `extended` says whether anything hangs off the structure. */
  datatype SemaphoreInfo = SemaphoreInfo(
    type_: I32, extended: bool, semaphore: U64, value: U64, stages: U64, device: U32)

  datatype CommandBufferInfo = CommandBufferInfo(type_: I32, extended: bool, commandBuffer: U64, mask: U32)

  datatype Submission2 = Submission2(
    type_: I32, extended: bool, flags: U32, waits: seq<SemaphoreInfo>, commandBuffers: seq<CommandBufferInfo>,
    signals: seq<SemaphoreInfo>)

  predicate SemaphoreInfoOk(s: SemaphoreInfo) {
    s.type_ == SEMAPHORE_SUBMIT_INFO && !s.extended
  }

  predicate CommandBufferInfoOk(c: CommandBufferInfo) {
    c.type_ == COMMAND_BUFFER_SUBMIT_INFO && !c.extended
  }

  predicate SemaphoreInfosOk(xs: seq<SemaphoreInfo>) {
    |xs| <= MAX_ARRAY_ELEMENTS && forall i | 0 <= i < |xs| :: SemaphoreInfoOk(xs[i])
  }

  predicate CommandBufferInfosOk(xs: seq<CommandBufferInfo>) {
    |xs| <= MAX_ARRAY_ELEMENTS && forall i | 0 <= i < |xs| :: CommandBufferInfoOk(xs[i])
  }

  function EncodeSemaphoreInfo(s: SemaphoreInfo): (bs: Bytes)
    ensures |bs| == 28
  {
    EncodeU64(s.semaphore) + (EncodeU64(s.value) + (EncodeU64(s.stages) + EncodeU32(s.device)))
  }

  function ParseSemaphoreInfo(live: Live): Bytes -> Parsed<SemaphoreInfo> {
    (input: Bytes) =>
      match ParseU64(input)
      case None => None
      case Some((id, r1)) =>
        match ParseU64(r1)
        case None => None
        case Some((value, r2)) =>
          match ParseU64(r2)
          case None => None
          case Some((stages, r3)) =>
            match ParseU32(r3)
            case None => None
            case Some((device, r4)) =>
              if id != 0 && id !in live.semaphores then None
              else Some((SemaphoreInfo(SEMAPHORE_SUBMIT_INFO, false, id, value, stages, device), r4))
  }

  function EncodeCommandBufferInfo(c: CommandBufferInfo): (bs: Bytes)
    ensures |bs| == 12
  {
    EncodeU64(c.commandBuffer) + EncodeU32(c.mask)
  }

  function ParseCommandBufferInfo(live: Live): Bytes -> Parsed<CommandBufferInfo> {
    (input: Bytes) =>
      match ParseU64(input)
      case None => None
      case Some((id, r1)) =>
        match ParseU32(r1)
        case None => None
        case Some((mask, r2)) =>
          if id != 0 && id !in live.commandBuffers then None
          else Some((CommandBufferInfo(COMMAND_BUFFER_SUBMIT_INFO, false, id, mask), r2))
  }

  /** What the encoder takes. */
  predicate Encodable2(s: Submission2) {
    && s.type_ == SUBMIT_INFO_2 && !s.extended
    && SemaphoreInfosOk(s.waits) && CommandBufferInfosOk(s.commandBuffers) && SemaphoreInfosOk(s.signals)
  }

  function EncodeSubmission2(s: Submission2): Bytes {
    if !Encodable2(s) then []
    else
      EncodeU32(s.flags)
      + (EncodeArray(EncodeSemaphoreInfo, s.waits)
         + (EncodeArray(EncodeCommandBufferInfo, s.commandBuffers) + EncodeArray(EncodeSemaphoreInfo, s.signals)))
  }

  function ParseSubmission2(live: Live): Bytes -> Parsed<Submission2> {
    (input: Bytes) =>
      match ParseU32(input)
      case None => None
      case Some((flags, r1)) =>
        match ParseArray(ParseSemaphoreInfo(live), 28, r1)
        case None => None
        case Some((waits, r2)) =>
          match ParseArray(ParseCommandBufferInfo(live), 12, r2)
          case None => None
          case Some((commandBuffers, r3)) =>
            match ParseArray(ParseSemaphoreInfo(live), 28, r3)
            case None => None
            case Some((signals, r4)) => Some((Submission2(SUBMIT_INFO_2, false, flags, waits, commandBuffers, signals), r4))
  }

  function EncodeRequest2(r: Request<Submission2>): Bytes
    requires |r.submits| <= MAX_ARRAY_ELEMENTS
  {
    EncodeU64(r.queue) + (EncodeU64(r.fence) + EncodeArray(EncodeSubmission2, r.submits))
  }

  function ParseRequest2(live: Live, input: Bytes): Option<Request<Submission2>> {
    match ParseIds(input)
    case None => None
    case Some(((queue, fence), rest)) => Accept(live, queue, fence, ParseArray(ParseSubmission2(live), 16, rest))
  }

  predicate Sendable2(live: Live, s: Submission2) {
    && Encodable2(s)
    && (forall i | 0 <= i < |s.waits| :: s.waits[i].semaphore == 0 || s.waits[i].semaphore in live.semaphores)
    && (forall i | 0 <= i < |s.commandBuffers| ::
          s.commandBuffers[i].commandBuffer == 0 || s.commandBuffers[i].commandBuffer in live.commandBuffers)
    && (forall i | 0 <= i < |s.signals| :: s.signals[i].semaphore == 0 || s.signals[i].semaphore in live.semaphores)
  }

  lemma SemaphoreInfoRoundTrip(live: Live, x: SemaphoreInfo, rest: Bytes)
    requires (x.semaphore == 0 || x.semaphore in live.semaphores) && SemaphoreInfoOk(x)
    ensures ParseSemaphoreInfo(live)(EncodeSemaphoreInfo(x) + rest) == Some((x, rest))
  {
    var t3 := EncodeU32(x.device);
    var t2 := EncodeU64(x.stages) + t3;
    var t1 := EncodeU64(x.value) + t2;
    Peel(EncodeU64(x.semaphore), t1, rest);
    Peel(EncodeU64(x.value), t2, rest);
    Peel(EncodeU64(x.stages), t3, rest);
    U64RoundTrip(x.semaphore, t1 + rest);
    U64RoundTrip(x.value, t2 + rest);
    U64RoundTrip(x.stages, t3 + rest);
    U32RoundTrip(x.device, rest);
  }

  lemma SemaphoreInfosRoundTrip(live: Live, xs: seq<SemaphoreInfo>, rest: Bytes)
    requires SemaphoreInfosOk(xs)
    requires forall i | 0 <= i < |xs| :: xs[i].semaphore == 0 || xs[i].semaphore in live.semaphores
    ensures ParseArray(ParseSemaphoreInfo(live), 28, EncodeArray(EncodeSemaphoreInfo, xs) + rest) == Some((xs, rest))
  {
    var parse := ParseSemaphoreInfo(live);
    forall x, more | x in Elements(xs) ensures parse(EncodeSemaphoreInfo(x) + more) == Some((x, more)) {
      SemaphoreInfoRoundTrip(live, x, more);
    }
    ArrayRoundTrip(EncodeSemaphoreInfo, parse, 28, xs, rest);
  }

  lemma CommandBufferInfosRoundTrip(live: Live, xs: seq<CommandBufferInfo>, rest: Bytes)
    requires CommandBufferInfosOk(xs)
    requires forall i | 0 <= i < |xs| :: xs[i].commandBuffer == 0 || xs[i].commandBuffer in live.commandBuffers
    ensures ParseArray(ParseCommandBufferInfo(live), 12, EncodeArray(EncodeCommandBufferInfo, xs) + rest) == Some((xs, rest))
  {
    var parse := ParseCommandBufferInfo(live);
    forall x, more | x in Elements(xs) ensures parse(EncodeCommandBufferInfo(x) + more) == Some((x, more)) {
      Peel(EncodeU64(x.commandBuffer), EncodeU32(x.mask), more);
      U64RoundTrip(x.commandBuffer, EncodeU32(x.mask) + more);
      U32RoundTrip(x.mask, more);
    }
    ArrayRoundTrip(EncodeCommandBufferInfo, parse, 12, xs, rest);
  }

  lemma Submission2RoundTrip(live: Live, s: Submission2, rest: Bytes)
    requires Sendable2(live, s)
    ensures ParseSubmission2(live)(EncodeSubmission2(s) + rest) == Some((s, rest))
  {
    var t3 := EncodeArray(EncodeSemaphoreInfo, s.signals);
    var t2 := EncodeArray(EncodeCommandBufferInfo, s.commandBuffers) + t3;
    var t1 := EncodeArray(EncodeSemaphoreInfo, s.waits) + t2;
    Peel(EncodeU32(s.flags), t1, rest);
    Peel(EncodeArray(EncodeSemaphoreInfo, s.waits), t2, rest);
    Peel(EncodeArray(EncodeCommandBufferInfo, s.commandBuffers), t3, rest);
    U32RoundTrip(s.flags, t1 + rest);
    SemaphoreInfosRoundTrip(live, s.waits, t2 + rest);
    CommandBufferInfosRoundTrip(live, s.commandBuffers, t3 + rest);
    SemaphoreInfosRoundTrip(live, s.signals, rest);
  }

  lemma Submission2Long(s: Submission2)
    requires Encodable2(s)
    ensures |EncodeSubmission2(s)| >= 16
  {
  }

  lemma Submissions2RoundTrip(live: Live, xs: seq<Submission2>)
    requires |xs| <= MAX_ARRAY_ELEMENTS && forall i | 0 <= i < |xs| :: Sendable2(live, xs[i])
    ensures ParseArray(ParseSubmission2(live), 16, EncodeArray(EncodeSubmission2, xs)) == Some((xs, []))
  {
    var parse := ParseSubmission2(live);
    forall x, more | x in Elements(xs) ensures parse(EncodeSubmission2(x) + more) == Some((x, more)) {
      Submission2RoundTrip(live, x, more);
    }
    forall i | 0 <= i < |xs| ensures |EncodeSubmission2(xs[i])| >= 16 {
      Submission2Long(xs[i]);
    }
    ArrayRoundTrip(EncodeSubmission2, parse, 16, xs, []);
    assert EncodeArray(EncodeSubmission2, xs) + [] == EncodeArray(EncodeSubmission2, xs);
  }

  /** The same for the second version. */
  lemma Request2RoundTrip(live: Live, r: Request<Submission2>)
    requires IdsLive(live, r.queue, r.fence)
    requires |r.submits| <= MAX_ARRAY_ELEMENTS && forall i | 0 <= i < |r.submits| :: Sendable2(live, r.submits[i])
    ensures ParseRequest2(live, EncodeRequest2(r)) == Some(r)
  {
    var b2 := EncodeArray(EncodeSubmission2, r.submits);
    IdsRoundTrip(r.queue, r.fence, b2);
    Submissions2RoundTrip(live, r.submits);
  }

  lemma ParsedSemaphoreInfos(live: Live, input: Bytes)
    requires ParseArray(ParseSemaphoreInfo(live), 28, input).Some?
    ensures var (xs, rest) := ParseArray(ParseSemaphoreInfo(live), 28, input).value;
            && SemaphoreInfosOk(xs) && input == EncodeArray(EncodeSemaphoreInfo, xs) + rest
            && forall i | 0 <= i < |xs| :: xs[i].semaphore == 0 || xs[i].semaphore in live.semaphores
  {
    var parse := ParseSemaphoreInfo(live);
    var ok := (s: SemaphoreInfo) => SemaphoreInfoOk(s) && (s.semaphore == 0 || s.semaphore in live.semaphores);
    forall i | parse(i).Some?
      ensures ok(parse(i).value.0) && i == EncodeSemaphoreInfo(parse(i).value.0) + parse(i).value.1
    {
      ParsedSemaphoreInfo(live, i);
    }
    ArrayCanonical(EncodeSemaphoreInfo, ok, parse, 28, input);
    var (xs, rest) := ParseArray(parse, 28, input).value;
    assert forall i | 0 <= i < |xs| :: ok(xs[i]);
  }

  lemma ParsedSemaphoreInfo(live: Live, input: Bytes)
    requires ParseSemaphoreInfo(live)(input).Some?
    ensures var (s, rest) := ParseSemaphoreInfo(live)(input).value;
            && SemaphoreInfoOk(s) && (s.semaphore == 0 || s.semaphore in live.semaphores)
            && input == EncodeSemaphoreInfo(s) + rest
  {
    ParsedU64(input);
    var (id, r1) := ParseU64(input).value;
    ParsedU64(r1);
    var (value, r2) := ParseU64(r1).value;
    ParsedU64(r2);
    var (stages, r3) := ParseU64(r2).value;
    ParsedU32(r3);
    var (device, r4) := ParseU32(r3).value;
    var t3 := EncodeU32(device);
    var t2 := EncodeU64(stages) + t3;
    Peel(EncodeU64(stages), t3, r4);
    Peel(EncodeU64(value), t2, r4);
    Peel(EncodeU64(id), EncodeU64(value) + t2, r4);
  }

  lemma ParsedCommandBufferInfos(live: Live, input: Bytes)
    requires ParseArray(ParseCommandBufferInfo(live), 12, input).Some?
    ensures var (xs, rest) := ParseArray(ParseCommandBufferInfo(live), 12, input).value;
            && CommandBufferInfosOk(xs) && input == EncodeArray(EncodeCommandBufferInfo, xs) + rest
            && forall i | 0 <= i < |xs| :: xs[i].commandBuffer == 0 || xs[i].commandBuffer in live.commandBuffers
  {
    var parse := ParseCommandBufferInfo(live);
    var ok := (c: CommandBufferInfo) => CommandBufferInfoOk(c) && (c.commandBuffer == 0 || c.commandBuffer in live.commandBuffers);
    forall i | parse(i).Some?
      ensures ok(parse(i).value.0) && i == EncodeCommandBufferInfo(parse(i).value.0) + parse(i).value.1
    {
      ParsedU64(i);
      var (id, r1) := ParseU64(i).value;
      ParsedU32(r1);
      Peel(EncodeU64(id), EncodeU32(ParseU32(r1).value.0), ParseU32(r1).value.1);
    }
    ArrayCanonical(EncodeCommandBufferInfo, ok, parse, 12, input);
    var (xs, rest) := ParseArray(parse, 12, input).value;
    assert forall i | 0 <= i < |xs| :: ok(xs[i]);
  }

  lemma ParsedSubmission2(live: Live, input: Bytes)
    requires ParseSubmission2(live)(input).Some?
    ensures var (s, rest) := ParseSubmission2(live)(input).value; Sendable2(live, s) && input == EncodeSubmission2(s) + rest
  {
    ParsedU32(input);
    var (flags, r1) := ParseU32(input).value;
    ParsedSemaphoreInfos(live, r1);
    var (waits, r2) := ParseArray(ParseSemaphoreInfo(live), 28, r1).value;
    ParsedCommandBufferInfos(live, r2);
    var (commandBuffers, r3) := ParseArray(ParseCommandBufferInfo(live), 12, r2).value;
    ParsedSemaphoreInfos(live, r3);
    var (signals, r4) := ParseArray(ParseSemaphoreInfo(live), 28, r3).value;
    var t3 := EncodeArray(EncodeSemaphoreInfo, signals);
    var t2 := EncodeArray(EncodeCommandBufferInfo, commandBuffers) + t3;
    Peel(EncodeArray(EncodeCommandBufferInfo, commandBuffers), t3, r4);
    Peel(EncodeArray(EncodeSemaphoreInfo, waits), t2, r4);
    Peel(EncodeU32(flags), EncodeArray(EncodeSemaphoreInfo, waits) + t2, r4);
  }

  lemma ParsedSubmissions2(live: Live, input: Bytes)
    requires ParseArray(ParseSubmission2(live), 16, input).Some?
    ensures var (xs, rest) := ParseArray(ParseSubmission2(live), 16, input).value;
            && |xs| <= MAX_ARRAY_ELEMENTS && input == EncodeArray(EncodeSubmission2, xs) + rest
            && forall i | 0 <= i < |xs| :: Sendable2(live, xs[i])
  {
    var parse, ok := ParseSubmission2(live), (s: Submission2) => Sendable2(live, s);
    hide Sendable2, EncodeSubmission2;
    forall i | parse(i).Some?
      ensures ok(parse(i).value.0) && i == EncodeSubmission2(parse(i).value.0) + parse(i).value.1
    {
      ParsedSubmission2(live, i);
    }
    ArrayCanonical(EncodeSubmission2, ok, parse, 16, input);
    var (xs, rest) := ParseArray(parse, 16, input).value;
    assert forall i | 0 <= i < |xs| :: ok(xs[i]);
  }

  /** And so for the second version, where null handles are taken too. */
  lemma Request2ReadExactly(live: Live, input: Bytes, r: Request<Submission2>)
    ensures ParseRequest2(live, input) == Some(r)
            <==> r.queue in live.queues && (r.fence == 0 || r.fence in live.fences)
                 && |r.submits| <= MAX_ARRAY_ELEMENTS && (forall i | 0 <= i < |r.submits| :: Sendable2(live, r.submits[i]))
                 && input == EncodeRequest2(r)
  {
    if ParseRequest2(live, input) == Some(r) {
      ParsedIds(input);
      var (_, body) := ParseIds(input).value;
      ParsedSubmissions2(live, body);
      var (xs, rest) := ParseArray(ParseSubmission2(live), 16, body).value;
      assert EncodeArray(EncodeSubmission2, xs) + [] == EncodeArray(EncodeSubmission2, xs);
    } else if r.queue in live.queues && (r.fence == 0 || r.fence in live.fences)
              && |r.submits| <= MAX_ARRAY_ELEMENTS && (forall i | 0 <= i < |r.submits| :: Sendable2(live, r.submits[i])) {
      Request2RoundTrip(live, r);
    }
  }
}
