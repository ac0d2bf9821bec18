/** Render pass descriptions of the second version on the wire.

    Nested arrays, optional references and chains are written only when every structure has its
    own type and nothing unexpected hangs off it; the reader bounds every count by what is left.
  */
module RenderPassCodec {
  import opened Limits
  import opened Options
  import opened Wire
  import opened PNextChain

  const ATTACHMENT_DESCRIPTION_2: I32 := 1000109000
  const SUBPASS_DESCRIPTION_2: I32 := 1000109002
  const SUBPASS_DEPENDENCY_2: I32 := 1000109003
  const RENDER_PASS_CREATE_INFO_2: I32 := 1000109004

  /** `fields` are the format, the samples, the load and store operations of colour and stencil, and
      the initial and final layouts, in this order. */
  datatype AttachmentDescription = AttachmentDescription(type_: I32, extended: bool, flags: U32, fields: seq<I32>)

  /** `fields` are the source and destination subpass, stages and accesses and the flags. */
  datatype Dependency = Dependency(type_: I32, extended: bool, fields: seq<U32>, viewOffset: I32)

  /** `resolves`, when present, has one reference for each colour attachment. */
  datatype Subpass = Subpass(
    type_: I32, flags: U32, bindPoint: I32, viewMask: U32, chain: seq<Node>,
    inputs: seq<AttachmentReference>, colors: seq<AttachmentReference>, resolves: Option<seq<AttachmentReference>>,
    depth: Option<AttachmentReference>, preserves: seq<U32>)

  datatype CreateInfo = CreateInfo(
    type_: I32, flags: U32, chain: seq<Node>, attachments: seq<AttachmentDescription>, subpasses: seq<Subpass>,
    dependencies: seq<Dependency>, masks: seq<U32>)

  // ---------------------------------------------------------------------------
  // Attachments and dependencies
  // ---------------------------------------------------------------------------

  predicate AttachmentOk(a: AttachmentDescription) {
    a.type_ == ATTACHMENT_DESCRIPTION_2 && !a.extended && |a.fields| == 8
  }

  function EncodeAttachment(a: AttachmentDescription): Bytes {
    EncodeI32(a.type_) + (EncodeU32(a.flags) + EncodeAll(EncodeI32, a.fields))
  }

  function ParseAttachment(input: Bytes): Parsed<AttachmentDescription> {
    match ParseI32(input)
    case None => None
    case Some((type_, r1)) =>
      match ParseU32(r1)
      case None => None
      case Some((flags, r2)) =>
        match ParseAll(ParseI32, 8, r2)
        case None => None
        case Some((fields, r3)) =>
          if type_ != ATTACHMENT_DESCRIPTION_2 then None else Some((AttachmentDescription(type_, false, flags, fields), r3))
  }

  lemma FieldsRoundTrip(xs: seq<I32>, rest: Bytes)
    ensures ParseAll(ParseI32, |xs|, EncodeAll(EncodeI32, xs) + rest) == Some((xs, rest))
    ensures |EncodeAll(EncodeI32, xs)| >= 4 * |xs|
  {
    forall x: I32, more | x in Elements(xs) ensures ParseI32(EncodeI32(x) + more) == Some((x, more)) {
      I32RoundTrip(x, more);
    }
    AllRoundTrip(EncodeI32, ParseI32, xs, rest);
    AllLong(EncodeI32, xs, 4);
  }

  lemma WordsRoundTrip(xs: seq<U32>, rest: Bytes)
    ensures ParseAll(ParseU32, |xs|, EncodeAll(EncodeU32, xs) + rest) == Some((xs, rest))
    ensures |EncodeAll(EncodeU32, xs)| >= 4 * |xs|
  {
    FeaturesRoundTrip(xs, rest);
    AllLong(EncodeU32, xs, 4);
  }

  lemma AttachmentRoundTrip(a: AttachmentDescription, rest: Bytes)
    requires AttachmentOk(a)
    ensures ParseAttachment(EncodeAttachment(a) + rest) == Some((a, rest)) && |EncodeAttachment(a)| >= 40
  {
    var t2 := EncodeAll(EncodeI32, a.fields);
    var t1 := EncodeU32(a.flags) + t2;
    Peel(EncodeI32(a.type_), t1, rest);
    Peel(EncodeU32(a.flags), t2, rest);
    I32RoundTrip(a.type_, t1 + rest);
    U32RoundTrip(a.flags, t2 + rest);
    FieldsRoundTrip(a.fields, rest);
  }

  predicate DependencyOk(d: Dependency) {
    d.type_ == SUBPASS_DEPENDENCY_2 && !d.extended && |d.fields| == 7
  }

  function EncodeDependency(d: Dependency): Bytes {
    EncodeI32(d.type_) + (EncodeAll(EncodeU32, d.fields) + EncodeI32(d.viewOffset))
  }

  function ParseDependency(input: Bytes): Parsed<Dependency> {
    match ParseI32(input)
    case None => None
    case Some((type_, r1)) =>
      match ParseAll(ParseU32, 7, r1)
      case None => None
      case Some((fields, r2)) =>
        match ParseI32(r2)
        case None => None
        case Some((viewOffset, r3)) =>
          if type_ != SUBPASS_DEPENDENCY_2 then None else Some((Dependency(type_, false, fields, viewOffset), r3))
  }

  lemma DependencyRoundTrip(d: Dependency, rest: Bytes)
    requires DependencyOk(d)
    ensures ParseDependency(EncodeDependency(d) + rest) == Some((d, rest)) && |EncodeDependency(d)| >= 36
  {
    var t2 := EncodeI32(d.viewOffset);
    var t1 := EncodeAll(EncodeU32, d.fields) + t2;
    Peel(EncodeI32(d.type_), t1, rest);
    Peel(EncodeAll(EncodeU32, d.fields), t2, rest);
    I32RoundTrip(d.type_, t1 + rest);
    WordsRoundTrip(d.fields, t2 + rest);
    I32RoundTrip(d.viewOffset, rest);
  }

  // ---------------------------------------------------------------------------
  // Subpasses
  // ---------------------------------------------------------------------------

  predicate ReferencesOk(xs: seq<AttachmentReference>) {
    |xs| <= MAX_ARRAY_ELEMENTS && forall i | 0 <= i < |xs| :: ReferenceOk(xs[i])
  }

  predicate SubpassOk(s: Subpass) {
    && s.type_ == SUBPASS_DESCRIPTION_2 && ReferencesOk(s.inputs) && ReferencesOk(s.colors)
    && (s.resolves.Some? ==> |s.resolves.value| == |s.colors| && ReferencesOk(s.resolves.value))
    && (s.depth.Some? ==> ReferenceOk(s.depth.value)) && |s.preserves| <= MAX_ARRAY_ELEMENTS
    && EncodeChain(RenderPass2, s.chain, 0).Some?
  }

  function EncodeResolves(resolves: Option<seq<AttachmentReference>>): Bytes {
    if resolves.Some? then EncodeU32(1) + EncodeAll(EncodeReference, resolves.value) else EncodeU32(0)
  }

  function EncodeDepth(depth: Option<AttachmentReference>): Bytes {
    if depth.Some? then EncodeU32(1) + EncodeReference(depth.value) else EncodeU32(0)
  }

  function EncodeSubpassTail(s: Subpass): Bytes
    requires SubpassOk(s)
  {
    EncodeArray(EncodeReference, s.inputs) + (EncodeArray(EncodeReference, s.colors)
      + (EncodeResolves(s.resolves) + (EncodeDepth(s.depth) + EncodeArray(EncodeU32, s.preserves))))
  }

  function EncodeSubpass(s: Subpass): Bytes {
    if !SubpassOk(s) then []
    else
      EncodeI32(s.type_) + (EncodeU32(s.flags) + (EncodeI32(s.bindPoint) + (EncodeU32(s.viewMask)
        + (EncodeChain(RenderPass2, s.chain, 0).value + EncodeSubpassTail(s)))))
  }

  /** An empty array of resolve attachments reads back as none. */
  function ParseResolves(n: nat, input: Bytes): Parsed<Option<seq<AttachmentReference>>> {
    match ParseU32(input)
    case None => None
    case Some((present, r1)) =>
      if present > 1 then None
      else if present == 0 then Some((None, r1))
      else
        match ParseAll(ParseReference, n, r1)
        case None => None
        case Some((xs, r2)) => Some((if n == 0 then None else Some(xs), r2))
  }

  function ParseDepth(input: Bytes): Parsed<Option<AttachmentReference>> {
    match ParseU32(input)
    case None => None
    case Some((present, r1)) =>
      if present > 1 then None
      else if present == 0 then Some((None, r1))
      else
        match ParseReference(r1)
        case None => None
        case Some((a, r2)) => Some((Some(a), r2))
  }

  /** The arrays and references of a subpass. */
  datatype Tail = Tail(inputs: seq<AttachmentReference>, colors: seq<AttachmentReference>,
                       resolves: Option<seq<AttachmentReference>>, depth: Option<AttachmentReference>, preserves: seq<U32>)

  function ParseTail(input: Bytes): Parsed<Tail> {
    match ParseArray(ParseReference, 16, input)
    case None => None
    case Some((inputs, r1)) =>
      match ParseArray(ParseReference, 16, r1)
      case None => None
      case Some((colors, r2)) =>
        match ParseResolves(|colors|, r2)
        case None => None
        case Some((resolves, r3)) =>
          match ParseDepth(r3)
          case None => None
          case Some((depth, r4)) =>
            match ParseArray(ParseU32, 4, r4)
            case None => None
            case Some((preserves, r5)) => Some((Tail(inputs, colors, resolves, depth, preserves), r5))
  }

  /** The words before a subpass's chain. */
  datatype Head = Head(type_: I32, flags: U32, bindPoint: I32, viewMask: U32)

  function ParseHead(input: Bytes): Parsed<Head> {
    match ParseI32(input)
    case None => None
    case Some((type_, r1)) =>
      match ParseU32(r1)
      case None => None
      case Some((flags, r2)) =>
        match ParseI32(r2)
        case None => None
        case Some((bindPoint, r3)) =>
          match ParseU32(r3)
          case None => None
          case Some((viewMask, r4)) => Some((Head(type_, flags, bindPoint, viewMask), r4))
  }

  function ParseSubpass(input: Bytes): Parsed<Subpass> {
    match ParseHead(input)
    case None => None
    case Some((h, r1)) =>
      if h.type_ != SUBPASS_DESCRIPTION_2 then None
      else
        match ParseChain({}, RenderPass2, 0, r1)
        case None => None
        case Some((chain, r2)) =>
          match ParseTail(r2)
          case None => None
          case Some((t, r3)) =>
            Some((Subpass(h.type_, h.flags, h.bindPoint, h.viewMask, chain, t.inputs, t.colors, t.resolves, t.depth,
                          t.preserves), r3))
  }

  lemma ReferencesRoundTrip(xs: seq<AttachmentReference>, rest: Bytes)
    requires ReferencesOk(xs)
    ensures ParseArray(ParseReference, 16, EncodeArray(EncodeReference, xs) + rest) == Some((xs, rest))
    ensures ParseAll(ParseReference, |xs|, EncodeAll(EncodeReference, xs) + rest) == Some((xs, rest))
  {
    forall x, more | x in Elements(xs) ensures ParseReference(EncodeReference(x) + more) == Some((x, more)) {
      ReferenceRoundTrip(x, more);
    }
    ArrayRoundTrip(EncodeReference, ParseReference, 16, xs, rest);
    AllRoundTrip(EncodeReference, ParseReference, xs, rest);
  }

  /** What reading gives back for an array of resolve attachments. */
  function Normal(resolves: Option<seq<AttachmentReference>>): Option<seq<AttachmentReference>> {
    if resolves == Some([]) then None else resolves
  }

  lemma ResolvesRoundTrip(resolves: Option<seq<AttachmentReference>>, n: nat, rest: Bytes)
    requires resolves.Some? ==> |resolves.value| == n && ReferencesOk(resolves.value)
    ensures ParseResolves(n, EncodeResolves(resolves) + rest) == Some((Normal(resolves), rest))
  {
    if resolves.Some? {
      var body := EncodeAll(EncodeReference, resolves.value);
      Peel(EncodeU32(1), body, rest);
      U32RoundTrip(1, body + rest);
      ReferencesRoundTrip(resolves.value, rest);
    } else {
      U32RoundTrip(0, rest);
    }
  }

  lemma DepthRoundTrip(depth: Option<AttachmentReference>, rest: Bytes)
    requires depth.Some? ==> ReferenceOk(depth.value)
    ensures ParseDepth(EncodeDepth(depth) + rest) == Some((depth, rest))
  {
    if depth.Some? {
      Peel(EncodeU32(1), EncodeReference(depth.value), rest);
      U32RoundTrip(1, EncodeReference(depth.value) + rest);
      ReferenceRoundTrip(depth.value, rest);
    } else {
      U32RoundTrip(0, rest);
    }
  }

  lemma U32ArrayRoundTrip(xs: seq<U32>, rest: Bytes)
    requires |xs| <= MAX_ARRAY_ELEMENTS
    ensures ParseArray(ParseU32, 4, EncodeArray(EncodeU32, xs) + rest) == Some((xs, rest))
  {
    forall x: U32, more | x in Elements(xs) ensures ParseU32(EncodeU32(x) + more) == Some((x, more)) {
      U32RoundTrip(x, more);
    }
    ArrayRoundTrip(EncodeU32, ParseU32, 4, xs, rest);
  }

  lemma TailRoundTrip(s: Subpass, rest: Bytes)
    requires SubpassOk(s)
    ensures ParseTail(EncodeSubpassTail(s) + rest)
            == Some((Tail(s.inputs, s.colors, Normal(s.resolves), s.depth, s.preserves), rest))
  {
    var t4 := EncodeArray(EncodeU32, s.preserves);
    var t3 := EncodeDepth(s.depth) + t4;
    var t2 := EncodeResolves(s.resolves) + t3;
    var t1 := EncodeArray(EncodeReference, s.colors) + t2;
    Peel(EncodeArray(EncodeReference, s.inputs), t1, rest);
    Peel(EncodeArray(EncodeReference, s.colors), t2, rest);
    Peel(EncodeResolves(s.resolves), t3, rest);
    Peel(EncodeDepth(s.depth), t4, rest);
    ReferencesRoundTrip(s.inputs, t1 + rest);
    ReferencesRoundTrip(s.colors, t2 + rest);
    ResolvesRoundTrip(s.resolves, |s.colors|, t3 + rest);
    DepthRoundTrip(s.depth, t4 + rest);
    U32ArrayRoundTrip(s.preserves, rest);
  }

  lemma HeadRoundTrip(h: Head, rest: Bytes)
    ensures ParseHead(EncodeI32(h.type_) + (EncodeU32(h.flags) + (EncodeI32(h.bindPoint) + (EncodeU32(h.viewMask) + rest))))
            == Some((h, rest))
  {
    var b3 := EncodeU32(h.viewMask) + rest;
    var b2 := EncodeI32(h.bindPoint) + b3;
    var b1 := EncodeU32(h.flags) + b2;
    I32RoundTrip(h.type_, b1);
    U32RoundTrip(h.flags, b2);
    I32RoundTrip(h.bindPoint, b3);
    U32RoundTrip(h.viewMask, rest);
  }

  /** Chains of a render pass or subpass carry nothing the reader changes. */
  lemma RenderPassChainKept(context: Context, chain: seq<Node>)
    requires context.RenderPass? || context.RenderPass2?
    requires EncodeChain(context, chain, 0).Some? && NodesReadable(chain)
    ensures AllReceived({}, Kept(context, chain)) == chain
  {
    NothingSkipped(context, chain);
    WrittenAcceptable(context, chain, 0);
    var received := AllReceived({}, chain);
    forall i | 0 <= i < |chain| ensures received[i] == chain[i] {
      Unchanged(context, chain[i]);
    }
  }

  lemma Unchanged(context: Context, n: Node)
    requires context.RenderPass? || context.RenderPass2?
    requires Shaped(n) && Allowed(context, TypeOf(n))
    ensures Received({}, n) == n
  {
  }

  function ReceivedSubpass(s: Subpass): Subpass {
    s.(resolves := Normal(s.resolves))
  }

  lemma SubpassRoundTrip(s: Subpass, rest: Bytes)
    requires SubpassOk(s) && NodesReadable(s.chain)
    ensures ParseSubpass(EncodeSubpass(s) + rest) == Some((ReceivedSubpass(s), rest))
  {
    var t5 := EncodeSubpassTail(s);
    var t4 := EncodeChain(RenderPass2, s.chain, 0).value + t5;
    var t3 := EncodeU32(s.viewMask) + t4;
    var t2 := EncodeI32(s.bindPoint) + t3;
    var t1 := EncodeU32(s.flags) + t2;
    Peel(EncodeI32(s.type_), t1, rest);
    Peel(EncodeU32(s.flags), t2, rest);
    Peel(EncodeI32(s.bindPoint), t3, rest);
    Peel(EncodeU32(s.viewMask), t4, rest);
    Peel(EncodeChain(RenderPass2, s.chain, 0).value, t5, rest);
    HeadRoundTrip(Head(s.type_, s.flags, s.bindPoint, s.viewMask), t4 + rest);
    ChainRoundTrip({}, RenderPass2, s.chain, 0, t5 + rest);
    RenderPassChainKept(RenderPass2, s.chain);
    TailRoundTrip(s, rest);
  }

  // ---------------------------------------------------------------------------
  // The whole description
  // ---------------------------------------------------------------------------

  predicate InfoOk(c: CreateInfo) {
    && c.type_ == RENDER_PASS_CREATE_INFO_2
    && |c.attachments| <= MAX_ARRAY_ELEMENTS && |c.subpasses| <= MAX_ARRAY_ELEMENTS
    && |c.dependencies| <= MAX_ARRAY_ELEMENTS && |c.masks| <= MAX_ARRAY_ELEMENTS
    && (forall i | 0 <= i < |c.attachments| :: AttachmentOk(c.attachments[i]))
    && (forall i | 0 <= i < |c.subpasses| :: SubpassOk(c.subpasses[i]))
    && (forall i | 0 <= i < |c.dependencies| :: DependencyOk(c.dependencies[i]))
    && EncodeChain(RenderPass, c.chain, 0).Some?
  }

  function EncodeLists(c: CreateInfo): Bytes
    requires InfoOk(c)
  {
    EncodeArray(EncodeAttachment, c.attachments) + (EncodeArray(EncodeSubpass, c.subpasses)
      + (EncodeArray(EncodeDependency, c.dependencies) + EncodeArray(EncodeU32, c.masks)))
  }

  /** The description is written whole or not at all. */
  function EncodeInfo(c: CreateInfo): Option<Bytes> {
    if !InfoOk(c) then None
    else Some(EncodeI32(c.type_) + (EncodeU32(c.flags) + (EncodeChain(RenderPass, c.chain, 0).value + EncodeLists(c))))
  }

  datatype Lists = Lists(attachments: seq<AttachmentDescription>, subpasses: seq<Subpass>,
                         dependencies: seq<Dependency>, masks: seq<U32>)

  function ParseLists(input: Bytes): Parsed<Lists> {
    match ParseArray(ParseAttachment, 40, input)
    case None => None
    case Some((attachments, r1)) =>
      match ParseBoundedArray(ParseSubpass, r1)
      case None => None
      case Some((subpasses, r2)) =>
        match ParseArray(ParseDependency, 36, r2)
        case None => None
        case Some((dependencies, r3)) =>
          match ParseArray(ParseU32, 4, r3)
          case None => None
          case Some((masks, r4)) => Some((Lists(attachments, subpasses, dependencies, masks), r4))
  }

  function ParseInfo(input: Bytes): Parsed<CreateInfo> {
    match ParseI32(input)
    case None => None
    case Some((type_, r1)) =>
      match ParseU32(r1)
      case None => None
      case Some((flags, r2)) =>
        if type_ != RENDER_PASS_CREATE_INFO_2 then None
        else
          match ParseChain({}, RenderPass, 0, r2)
          case None => None
          case Some((chain, r3)) =>
            match ParseLists(r3)
            case None => None
            case Some((l, r4)) =>
              Some((CreateInfo(type_, flags, chain, l.attachments, l.subpasses, l.dependencies, l.masks), r4))
  }

  function ReceivedSubpasses(xs: seq<Subpass>): (r: seq<Subpass>)
    ensures |r| == |xs|
  {
    seq(|xs|, i requires 0 <= i < |xs| => ReceivedSubpass(xs[i]))
  }

  lemma AttachmentsRoundTrip(xs: seq<AttachmentDescription>, rest: Bytes)
    requires |xs| <= MAX_ARRAY_ELEMENTS && forall i | 0 <= i < |xs| :: AttachmentOk(xs[i])
    ensures ParseArray(ParseAttachment, 40, EncodeArray(EncodeAttachment, xs) + rest) == Some((xs, rest))
  {
    forall x, more | x in Elements(xs) ensures ParseAttachment(EncodeAttachment(x) + more) == Some((x, more)) {
      AttachmentRoundTrip(x, more);
    }
    forall i | 0 <= i < |xs| ensures |EncodeAttachment(xs[i])| >= 40 {
      AttachmentRoundTrip(xs[i], []);
    }
    ArrayRoundTrip(EncodeAttachment, ParseAttachment, 40, xs, rest);
  }

  lemma DependenciesRoundTrip(xs: seq<Dependency>, rest: Bytes)
    requires |xs| <= MAX_ARRAY_ELEMENTS && forall i | 0 <= i < |xs| :: DependencyOk(xs[i])
    ensures ParseArray(ParseDependency, 36, EncodeArray(EncodeDependency, xs) + rest) == Some((xs, rest))
  {
    forall x, more | x in Elements(xs) ensures ParseDependency(EncodeDependency(x) + more) == Some((x, more)) {
      DependencyRoundTrip(x, more);
    }
    forall i | 0 <= i < |xs| ensures |EncodeDependency(xs[i])| >= 36 {
      DependencyRoundTrip(xs[i], []);
    }
    ArrayRoundTrip(EncodeDependency, ParseDependency, 36, xs, rest);
  }

  predicate SubpassesOk(xs: seq<Subpass>) {
    forall i | 0 <= i < |xs| :: SubpassOk(xs[i]) && NodesReadable(xs[i].chain)
  }

  lemma NextSubpass(s: Subpass, n: nat, input: Bytes, rest: Bytes)
    requires SubpassOk(s) && NodesReadable(s.chain) && input == EncodeSubpass(s) + rest
    ensures ParseAll(ParseSubpass, n + 1, input)
            == match ParseAll(ParseSubpass, n, rest)
               case None => None
               case Some((xs, end)) => Some(([ReceivedSubpass(s)] + xs, end))
  {
    SubpassRoundTrip(s, rest);
  }

  lemma ReceivedSubpassesSplit(xs: seq<Subpass>)
    requires xs != []
    ensures [ReceivedSubpass(xs[0])] + ReceivedSubpasses(xs[1..]) == ReceivedSubpasses(xs)
  {
  }

  /** Subpasses are read back one by one, each in its normal form. */
  lemma {:induction false} AllSubpassesRoundTrip(xs: seq<Subpass>, input: Bytes, rest: Bytes)
    requires SubpassesOk(xs) && input == EncodeAll(EncodeSubpass, xs) + rest
    ensures ParseAll(ParseSubpass, |xs|, input) == Some((ReceivedSubpasses(xs), rest))
    decreases |xs|
  {
    if xs == [] {
      assert input == rest;
    } else {
      var more := EncodeAll(EncodeSubpass, xs[1..]) + rest;
      Peel(EncodeSubpass(xs[0]), EncodeAll(EncodeSubpass, xs[1..]), rest);
      NextSubpass(xs[0], |xs| - 1, input, more);
      AllSubpassesRoundTrip(xs[1..], more, rest);
      ReceivedSubpassesSplit(xs);
    }
  }

  lemma SubpassesRoundTrip(xs: seq<Subpass>, rest: Bytes)
    requires |xs| <= MAX_ARRAY_ELEMENTS && SubpassesOk(xs)
    ensures ParseBoundedArray(ParseSubpass, EncodeArray(EncodeSubpass, xs) + rest) == Some((ReceivedSubpasses(xs), rest))
  {
    Peel(EncodeU32(|xs|), EncodeAll(EncodeSubpass, xs), rest);
    U32RoundTrip(|xs|, EncodeAll(EncodeSubpass, xs) + rest);
    AllSubpassesRoundTrip(xs, EncodeAll(EncodeSubpass, xs) + rest, rest);
  }

  lemma ListsRoundTrip(c: CreateInfo, rest: Bytes)
    requires InfoOk(c) && SubpassesOk(c.subpasses)
    ensures ParseLists(EncodeLists(c) + rest)
            == Some((Lists(c.attachments, ReceivedSubpasses(c.subpasses), c.dependencies, c.masks), rest))
  {
    var t3 := EncodeArray(EncodeU32, c.masks);
    var t2 := EncodeArray(EncodeDependency, c.dependencies) + t3;
    var t1 := EncodeArray(EncodeSubpass, c.subpasses) + t2;
    Peel(EncodeArray(EncodeAttachment, c.attachments), t1, rest);
    Peel(EncodeArray(EncodeSubpass, c.subpasses), t2, rest);
    Peel(EncodeArray(EncodeDependency, c.dependencies), t3, rest);
    AttachmentsRoundTrip(c.attachments, t1 + rest);
    SubpassesRoundTrip(c.subpasses, t2 + rest);
    DependenciesRoundTrip(c.dependencies, t3 + rest);
    U32ArrayRoundTrip(c.masks, rest);
  }

  /** Every description that is written reads back as itself, with each empty array of resolve
      attachments absent, and leaves exactly the bytes that followed it. */
  lemma InfoRoundTrip(c: CreateInfo, rest: Bytes)
    requires EncodeInfo(c).Some? && NodesReadable(c.chain)
    requires forall i | 0 <= i < |c.subpasses| :: NodesReadable(c.subpasses[i].chain)
    ensures ParseInfo(EncodeInfo(c).value + rest) == Some((c.(subpasses := ReceivedSubpasses(c.subpasses)), rest))
  {
    var t3 := EncodeLists(c);
    var t2 := EncodeChain(RenderPass, c.chain, 0).value + t3;
    var t1 := EncodeU32(c.flags) + t2;
    Peel(EncodeI32(c.type_), t1, rest);
    Peel(EncodeU32(c.flags), t2, rest);
    Peel(EncodeChain(RenderPass, c.chain, 0).value, t3, rest);
    I32RoundTrip(c.type_, t1 + rest);
    U32RoundTrip(c.flags, t2 + rest);
    ChainRoundTrip({}, RenderPass, c.chain, 0, t3 + rest);
    RenderPassChainKept(RenderPass, c.chain);
    ListsRoundTrip(c, rest);
  }

  /** So two descriptions have the same encoding only if they differ in empty resolve arrays at most. */
  lemma EncodingIsInjective(a: CreateInfo, b: CreateInfo)
    requires EncodeInfo(a).Some? && NodesReadable(a.chain) && EncodeInfo(b).Some? && NodesReadable(b.chain)
    requires forall i | 0 <= i < |a.subpasses| :: NodesReadable(a.subpasses[i].chain)
    requires forall i | 0 <= i < |b.subpasses| :: NodesReadable(b.subpasses[i].chain)
    requires EncodeInfo(a) == EncodeInfo(b)
    ensures a.(subpasses := ReceivedSubpasses(a.subpasses)) == b.(subpasses := ReceivedSubpasses(b.subpasses))
  {
    InfoRoundTrip(a, []);
    InfoRoundTrip(b, []);
  }

  // ---------------------------------------------------------------------------
  // What a reader accepts was written
  // ---------------------------------------------------------------------------

  lemma ParsedFields(n: nat, input: Bytes)
    requires ParseAll(ParseI32, n, input).Some?
    ensures var (xs, rest) := ParseAll(ParseI32, n, input).value; |xs| == n && input == EncodeAll(EncodeI32, xs) + rest
  {
    forall i | ParseI32(i).Some? ensures i == EncodeI32(ParseI32(i).value.0) + ParseI32(i).value.1 { ParsedI32(i); }
    AllCanonical(EncodeI32, (x: I32) => true, ParseI32, n, input);
  }

  lemma ParsedAttachment(input: Bytes)
    requires ParseAttachment(input).Some?
    ensures var (a, rest) := ParseAttachment(input).value; AttachmentOk(a) && input == EncodeAttachment(a) + rest
  {
    ParsedI32(input);
    var (type_, r1) := ParseI32(input).value;
    ParsedU32(r1);
    var (flags, r2) := ParseU32(r1).value;
    ParsedFields(8, r2);
    var (fields, r3) := ParseAll(ParseI32, 8, r2).value;
    Peel(EncodeU32(flags), EncodeAll(EncodeI32, fields), r3);
    Peel(EncodeI32(type_), EncodeU32(flags) + EncodeAll(EncodeI32, fields), r3);
  }

  lemma ParsedDependency(input: Bytes)
    requires ParseDependency(input).Some?
    ensures var (d, rest) := ParseDependency(input).value; DependencyOk(d) && input == EncodeDependency(d) + rest
  {
    ParsedI32(input);
    var (type_, r1) := ParseI32(input).value;
    ParsedFeatures(7, r1);
    var (fields, r2) := ParseAll(ParseU32, 7, r1).value;
    ParsedI32(r2);
    var (viewOffset, r3) := ParseI32(r2).value;
    Peel(EncodeAll(EncodeU32, fields), EncodeI32(viewOffset), r3);
    Peel(EncodeI32(type_), EncodeAll(EncodeU32, fields) + EncodeI32(viewOffset), r3);
  }

  lemma ReferencesCanonical()
    ensures Canonical(EncodeReference, ReferenceOk, ParseReference)
  {
    forall i | ParseReference(i).Some?
      ensures ReferenceOk(ParseReference(i).value.0)
              && i == EncodeReference(ParseReference(i).value.0) + ParseReference(i).value.1
    {
      ParsedReference(i);
    }
  }

  lemma ParsedReferences(input: Bytes)
    requires ParseArray(ParseReference, 16, input).Some?
    ensures var (xs, rest) := ParseArray(ParseReference, 16, input).value;
            ReferencesOk(xs) && input == EncodeArray(EncodeReference, xs) + rest
  {
    ReferencesCanonical();
    ArrayCanonical(EncodeReference, ReferenceOk, ParseReference, 16, input);
  }

  lemma ParsedU32Array(input: Bytes)
    requires ParseArray(ParseU32, 4, input).Some?
    ensures var (xs, rest) := ParseArray(ParseU32, 4, input).value;
            |xs| <= MAX_ARRAY_ELEMENTS && input == EncodeArray(EncodeU32, xs) + rest
  {
    forall i | ParseU32(i).Some? ensures i == EncodeU32(ParseU32(i).value.0) + ParseU32(i).value.1 { ParsedU32(i); }
    ArrayCanonical(EncodeU32, (x: U32) => true, ParseU32, 4, input);
  }

  /** The resolve attachments that were written: an empty array, where a flag announced one of none. */
  lemma ParsedResolves(n: nat, input: Bytes) returns (resolves: Option<seq<AttachmentReference>>)
    requires ParseResolves(n, input).Some? && n <= MAX_ARRAY_ELEMENTS
    ensures var (r, rest) := ParseResolves(n, input).value;
            && (resolves.Some? ==> |resolves.value| == n && ReferencesOk(resolves.value))
            && Normal(resolves) == r && input == EncodeResolves(resolves) + rest
  {
    ParsedU32(input);
    var (present, r1) := ParseU32(input).value;
    if present == 0 {
      resolves := None;
    } else {
      ReferencesCanonical();
      AllCanonical(EncodeReference, ReferenceOk, ParseReference, n, r1);
      var (xs, r2) := ParseAll(ParseReference, n, r1).value;
      resolves := Some(xs);
      Peel(EncodeU32(1), EncodeAll(EncodeReference, xs), r2);
    }
  }

  lemma ParsedDepth(input: Bytes)
    requires ParseDepth(input).Some?
    ensures var (d, rest) := ParseDepth(input).value; (d.Some? ==> ReferenceOk(d.value)) && input == EncodeDepth(d) + rest
  {
    ParsedU32(input);
    var (present, r1) := ParseU32(input).value;
    if present == 1 {
      ParsedReference(r1);
      var (a, r2) := ParseReference(r1).value;
      Peel(EncodeU32(1), EncodeReference(a), r2);
    }
  }

  /** Five parts, one behind the other. */
  lemma FiveParts(a: Bytes, b: Bytes, c: Bytes, d: Bytes, e: Bytes, rest: Bytes)
    ensures a + (b + (c + (d + (e + rest)))) == a + (b + (c + (d + e))) + rest
  {
  }

  /** The bytes of a subpass's arrays and references. */
  function EncodeTail(t: Tail): Bytes
    requires |t.inputs| <= MAX_ARRAY_ELEMENTS && |t.colors| <= MAX_ARRAY_ELEMENTS && |t.preserves| <= MAX_ARRAY_ELEMENTS
  {
    EncodeArray(EncodeReference, t.inputs) + (EncodeArray(EncodeReference, t.colors)
      + (EncodeResolves(t.resolves) + (EncodeDepth(t.depth) + EncodeArray(EncodeU32, t.preserves))))
  }

  predicate TailOk(t: Tail) {
    && ReferencesOk(t.inputs) && ReferencesOk(t.colors)
    && (t.resolves.Some? ==> |t.resolves.value| == |t.colors| && ReferencesOk(t.resolves.value))
    && (t.depth.Some? ==> ReferenceOk(t.depth.value)) && |t.preserves| <= MAX_ARRAY_ELEMENTS
  }

  lemma ParsedTail(input: Bytes) returns (t: Tail)
    requires ParseTail(input).Some?
    ensures var (r, rest) := ParseTail(input).value;
            TailOk(t) && r == t.(resolves := Normal(t.resolves)) && input == EncodeTail(t) + rest
  {
    hide EncodeArray, ParseArray, ParseResolves, ParseDepth, EncodeResolves, EncodeDepth;
    ParsedReferences(input);
    var (inputs, r1) := ParseArray(ParseReference, 16, input).value;
    ParsedReferences(r1);
    var (colors, r2) := ParseArray(ParseReference, 16, r1).value;
    var resolves := ParsedResolves(|colors|, r2);
    var (_, r3) := ParseResolves(|colors|, r2).value;
    ParsedDepth(r3);
    var (depth, r4) := ParseDepth(r3).value;
    ParsedU32Array(r4);
    var (preserves, r5) := ParseArray(ParseU32, 4, r4).value;
    t := Tail(inputs, colors, resolves, depth, preserves);
    FiveParts(EncodeArray(EncodeReference, inputs), EncodeArray(EncodeReference, colors), EncodeResolves(resolves),
              EncodeDepth(depth), EncodeArray(EncodeU32, preserves), r5);
  }

  lemma ParsedHead(input: Bytes)
    requires ParseHead(input).Some?
    ensures var (h, rest) := ParseHead(input).value;
            input == EncodeI32(h.type_) + (EncodeU32(h.flags) + (EncodeI32(h.bindPoint) + (EncodeU32(h.viewMask) + rest)))
  {
    ParsedI32(input);
    var (type_, r1) := ParseI32(input).value;
    ParsedU32(r1);
    var (flags, r2) := ParseU32(r1).value;
    ParsedI32(r2);
    var (bindPoint, r3) := ParseI32(r2).value;
    ParsedU32(r3);
  }

  lemma SixParts(a: Bytes, b: Bytes, c: Bytes, d: Bytes, e: Bytes, f: Bytes, rest: Bytes)
    ensures a + (b + (c + (d + (e + (f + rest))))) == a + (b + (c + (d + (e + f)))) + rest
  {
  }

  lemma ParsedSubpass(input: Bytes) returns (s: Subpass)
    requires ParseSubpass(input).Some?
    ensures var (r, rest) := ParseSubpass(input).value;
            && SubpassOk(s) && NodesReadable(s.chain) && r == ReceivedSubpass(s) && input == EncodeSubpass(s) + rest
  {
    hide ParseChain, EncodeChain, NodesReadable, ParseTail, ParseHead, EncodeArray, EncodeResolves, EncodeDepth;
    ParsedHead(input);
    var (h, r1) := ParseHead(input).value;
    var (chain, r2) := ParseChain({}, RenderPass2, 0, r1).value;
    ChainReadExactly({}, RenderPass2, 0, r1, chain, r2);
    var t := ParsedTail(r2);
    var (_, r3) := ParseTail(r2).value;
    s := Subpass(h.type_, h.flags, h.bindPoint, h.viewMask, chain, t.inputs, t.colors, t.resolves, t.depth, t.preserves);
    SixParts(EncodeI32(h.type_), EncodeU32(h.flags), EncodeI32(h.bindPoint), EncodeU32(h.viewMask),
             EncodeChain(RenderPass2, chain, 0).value, EncodeTail(t), r3);
  }

  lemma {:induction false} ParsedSubpasses(n: nat, input: Bytes) returns (xs: seq<Subpass>)
    requires ParseAll(ParseSubpass, n, input).Some?
    ensures var (rs, rest) := ParseAll(ParseSubpass, n, input).value;
            && |xs| == n && SubpassesOk(xs) && rs == ReceivedSubpasses(xs) && input == EncodeAll(EncodeSubpass, xs) + rest
    decreases n
  {
    hide EncodeSubpass, SubpassOk, NodesReadable, ParseSubpass, ReceivedSubpasses, ReceivedSubpass;
    if n == 0 {
      xs := [];
      assert ReceivedSubpasses(xs) == [];
    } else {
      var (_, after) := ParseSubpass(input).value;
      var s := ParsedSubpass(input);
      var more := ParsedSubpasses(n - 1, after);
      xs := [s] + more;
      SubpassBefore(s, more, ParseAll(ParseSubpass, n - 1, after).value.1);
    }
  }

  lemma SubpassBefore(s: Subpass, more: seq<Subpass>, rest: Bytes)
    requires SubpassOk(s) && NodesReadable(s.chain) && SubpassesOk(more)
    ensures var xs := [s] + more;
            && SubpassesOk(xs) && ReceivedSubpasses(xs) == [ReceivedSubpass(s)] + ReceivedSubpasses(more)
            && EncodeSubpass(s) + (EncodeAll(EncodeSubpass, more) + rest) == EncodeAll(EncodeSubpass, xs) + rest
  {
    hide EncodeSubpass, SubpassOk, NodesReadable;
    var xs := [s] + more;
    assert xs[1..] == more && xs[0] == s;
    Peel(EncodeSubpass(s), EncodeAll(EncodeSubpass, more), rest);
    ReceivedSubpassesSplit(xs);
  }

  lemma ParsedAttachments(input: Bytes)
    requires ParseArray(ParseAttachment, 40, input).Some?
    ensures var (xs, rest) := ParseArray(ParseAttachment, 40, input).value;
            && |xs| <= MAX_ARRAY_ELEMENTS && AllOk(AttachmentOk, xs) && input == EncodeArray(EncodeAttachment, xs) + rest
  {
    forall i | ParseAttachment(i).Some?
      ensures AttachmentOk(ParseAttachment(i).value.0)
              && i == EncodeAttachment(ParseAttachment(i).value.0) + ParseAttachment(i).value.1
    {
      ParsedAttachment(i);
    }
    ArrayCanonical(EncodeAttachment, AttachmentOk, ParseAttachment, 40, input);
  }

  lemma ParsedDependencies(input: Bytes)
    requires ParseArray(ParseDependency, 36, input).Some?
    ensures var (xs, rest) := ParseArray(ParseDependency, 36, input).value;
            && |xs| <= MAX_ARRAY_ELEMENTS && AllOk(DependencyOk, xs) && input == EncodeArray(EncodeDependency, xs) + rest
  {
    forall i | ParseDependency(i).Some?
      ensures DependencyOk(ParseDependency(i).value.0)
              && i == EncodeDependency(ParseDependency(i).value.0) + ParseDependency(i).value.1
    {
      ParsedDependency(i);
    }
    ArrayCanonical(EncodeDependency, DependencyOk, ParseDependency, 36, input);
  }

  lemma ParsedSubpassArray(input: Bytes) returns (xs: seq<Subpass>)
    requires ParseBoundedArray(ParseSubpass, input).Some?
    ensures var (rs, rest) := ParseBoundedArray(ParseSubpass, input).value;
            && |xs| <= MAX_ARRAY_ELEMENTS && SubpassesOk(xs) && rs == ReceivedSubpasses(xs)
            && input == EncodeArray(EncodeSubpass, xs) + rest
  {
    hide EncodeSubpass, SubpassOk, NodesReadable;
    ParsedU32(input);
    var (n, after) := ParseU32(input).value;
    xs := ParsedSubpasses(n, after);
    Peel(EncodeU32(n), EncodeAll(EncodeSubpass, xs), ParseAll(ParseSubpass, n, after).value.1);
  }

  lemma FourParts(a: Bytes, b: Bytes, c: Bytes, d: Bytes, rest: Bytes)
    ensures a + (b + (c + (d + rest))) == a + (b + (c + d)) + rest
  {
  }

  lemma ParsedInfo(input: Bytes) returns (c: CreateInfo)
    requires ParseInfo(input).Some?
    ensures var (d, rest) := ParseInfo(input).value;
            && InfoOk(c) && NodesReadable(c.chain) && SubpassesOk(c.subpasses)
            && d == c.(subpasses := ReceivedSubpasses(c.subpasses)) && input == EncodeInfo(c).value + rest
  {
    hide ParseChain, EncodeChain, NodesReadable, ParseArray, ParseBoundedArray, EncodeArray, ReceivedSubpasses, SubpassOk;
    ParsedI32(input);
    var (type_, r1) := ParseI32(input).value;
    ParsedU32(r1);
    var (flags, r2) := ParseU32(r1).value;
    var (chain, r3) := ParseChain({}, RenderPass, 0, r2).value;
    ChainReadExactly({}, RenderPass, 0, r2, chain, r3);
    ParsedAttachments(r3);
    var (attachments, r4) := ParseArray(ParseAttachment, 40, r3).value;
    var subpasses := ParsedSubpassArray(r4);
    var (_, r5) := ParseBoundedArray(ParseSubpass, r4).value;
    ParsedDependencies(r5);
    var (dependencies, r6) := ParseArray(ParseDependency, 36, r5).value;
    ParsedU32Array(r6);
    var (masks, r7) := ParseArray(ParseU32, 4, r6).value;
    c := CreateInfo(type_, flags, chain, attachments, subpasses, dependencies, masks);
    var lists := EncodeLists(c);
    FourParts(EncodeArray(EncodeAttachment, attachments), EncodeArray(EncodeSubpass, subpasses),
              EncodeArray(EncodeDependency, dependencies), EncodeArray(EncodeU32, masks), r7);
    FourParts(EncodeI32(type_), EncodeU32(flags), EncodeChain(RenderPass, chain, 0).value, lists, r7);
  }

  /** The reader accepts exactly what the writer writes: bytes read as a description if and only if they begin
      with the encoding of one that reads so, which differs at most in empty arrays of resolve
      attachments. */
  lemma InfoReadExactly(input: Bytes, d: CreateInfo, rest: Bytes)
    ensures ParseInfo(input) == Some((d, rest))
            <==> exists c :: EncodeInfo(c).Some? && NodesReadable(c.chain) && SubpassesOk(c.subpasses)
                   && d == c.(subpasses := ReceivedSubpasses(c.subpasses)) && input == EncodeInfo(c).value + rest
  {
    hide EncodeInfo, ParseInfo, NodesReadable, ReceivedSubpasses;
    if ParseInfo(input) == Some((d, rest)) {
      var c := ParsedInfo(input);
      WrittenInfo(c);
    }
    if c :| EncodeInfo(c).Some? && NodesReadable(c.chain) && SubpassesOk(c.subpasses)
            && d == c.(subpasses := ReceivedSubpasses(c.subpasses)) && input == EncodeInfo(c).value + rest {
      InfoRoundTrip(c, rest);
    }
  }

  lemma WrittenInfo(c: CreateInfo)
    requires InfoOk(c)
    ensures EncodeInfo(c).Some?
  {
  }

  predicate ReferencesSound(xs: seq<AttachmentReference>) {
    |xs| <= MAX_ARRAY_ELEMENTS && forall x | x in xs :: x.type_ == 1000109001 && !x.extended
  }

  /** A description is written if and only if every structure has its own type and nothing hangs off it but
      the chains that may, every array is short enough, and an array of resolve attachments has one for
      each colour attachment. */
  lemma WrittenInfoExactly(c: CreateInfo)
    requires forall a | a in c.attachments :: |a.fields| == 8
    requires forall d | d in c.dependencies :: |d.fields| == 7
    ensures EncodeInfo(c).Some? <==>
              && c.type_ == 1000109004 && EncodeChain(RenderPass, c.chain, 0).Some?
              && |c.attachments| <= MAX_ARRAY_ELEMENTS && |c.subpasses| <= MAX_ARRAY_ELEMENTS
              && |c.dependencies| <= MAX_ARRAY_ELEMENTS && |c.masks| <= MAX_ARRAY_ELEMENTS
              && (forall a | a in c.attachments :: a.type_ == 1000109000 && !a.extended)
              && (forall d | d in c.dependencies :: d.type_ == 1000109003 && !d.extended)
              && forall s | s in c.subpasses ::
                   && s.type_ == 1000109002 && EncodeChain(RenderPass2, s.chain, 0).Some?
                   && ReferencesSound(s.inputs) && ReferencesSound(s.colors)
                   && (s.resolves.Some? ==> |s.resolves.value| == |s.colors| && ReferencesSound(s.resolves.value))
                   && (s.depth.Some? ==> s.depth.value.type_ == 1000109001 && !s.depth.value.extended)
                   && |s.preserves| <= MAX_ARRAY_ELEMENTS
  {
    hide EncodeChain;
    forall xs: seq<AttachmentReference> ensures ReferencesOk(xs) <==> ReferencesSound(xs) {
      assert forall i | 0 <= i < |xs| :: xs[i] in xs;
    }
    assert forall i | 0 <= i < |c.attachments| :: c.attachments[i] in c.attachments;
    assert forall i | 0 <= i < |c.dependencies| :: c.dependencies[i] in c.dependencies;
    assert forall i | 0 <= i < |c.subpasses| :: c.subpasses[i] in c.subpasses;
    hide ReferencesOk, ReferencesSound;
  }
}
