/** Writing submit requests and handling them, in place. */
module SubmitStreams {
  import opened Limits
  import opened Options
  import opened Wire
  import opened PNextChain
  import opened ChainStreams
  import opened SubmitCodec

  // ---------------------------------------------------------------------------
  // The client
  // ---------------------------------------------------------------------------

  lemma Flatten(start: Bytes, a: Bytes, b: Bytes, c: Bytes, d: Bytes)
    ensures start + a + b + c + d == start + (a + (b + (c + d)))
  {
  }

  method WriteWaits(w: Writer, xs: seq<Wait>)
    requires |xs| <= MAX_ARRAY_ELEMENTS
    modifies w
    ensures w.data == old(w.data) + EncodeArray(EncodeWait, xs)
  {
    w.U32(|xs|);
    ghost var start := w.data;
    for i := 0 to |xs|
      invariant w.data == start + EncodeAll(EncodeWait, xs[..i])
    {
      NextWritten(EncodeWait, xs, i, start);
      ghost var before := w.data;
      w.U64(xs[i].semaphore);
      w.U32(xs[i].stage);
      assert w.data == before + EncodeWait(xs[i]);
    }
    assert xs[..|xs|] == xs;
  }

  method WriteSubmission(w: Writer, s: Submission) returns (ok: bool)
    requires |s.waits| <= MAX_ARRAY_ELEMENTS && |s.commandBuffers| <= MAX_ARRAY_ELEMENTS
             && |s.signals| <= MAX_ARRAY_ELEMENTS
    modifies w
    ensures ok == InBounds(s)
    ensures ok ==> w.data == old(w.data) + EncodeSubmission(s)
  {
    ok := WriteChain(w, Submit, s.chain, 0);
    if !ok { return; }
    WriteWaits(w, s.waits);
    WriteU64Array(w, s.commandBuffers);
    WriteU64Array(w, s.signals);
    Flatten(old(w.data), EncodeChain(Submit, s.chain, 0).value, EncodeArray(EncodeWait, s.waits),
            EncodeArray(EncodeU64, s.commandBuffers), EncodeArray(EncodeU64, s.signals));
  }

  predicate Counted(submits: seq<Submission>) {
    && |submits| <= MAX_ARRAY_ELEMENTS
    && forall i | 0 <= i < |submits| :: |submits[i].waits| <= MAX_ARRAY_ELEMENTS
         && |submits[i].commandBuffers| <= MAX_ARRAY_ELEMENTS && |submits[i].signals| <= MAX_ARRAY_ELEMENTS
  }

  predicate BoundedUpTo(xs: seq<Submission>, n: nat)
    requires n <= |xs|
  {
    n == 0 || (BoundedUpTo(xs, n - 1) && InBounds(xs[n - 1]))
  }

  lemma {:induction false} BoundedBelow(xs: seq<Submission>, n: nat, i: nat)
    requires i < n <= |xs| && BoundedUpTo(xs, n)
    ensures InBounds(xs[i])
    decreases n
  {
    if i < n - 1 {
      BoundedBelow(xs, n - 1, i);
    }
  }

  method WriteSubmissions(w: Writer, xs: seq<Submission>) returns (ok: bool)
    requires Counted(xs)
    modifies w
    ensures ok <==> forall i | 0 <= i < |xs| :: InBounds(xs[i])
    ensures ok ==> w.data == old(w.data) + EncodeAll(EncodeSubmission, xs)
  {
    for i := 0 to |xs|
      invariant w.data == old(w.data) + EncodeAll(EncodeSubmission, xs[..i])
      invariant BoundedUpTo(xs, i)
    {
      NextWritten(EncodeSubmission, xs, i, old(w.data));
      ok := WriteSubmission(w, xs[i]);
      if !ok { return; }
    }
    assert xs[..|xs|] == xs;
    forall i | 0 <= i < |xs| ensures InBounds(xs[i]) {
      BoundedBelow(xs, |xs|, i);
    }
    ok := true;
  }

  /** The request of one submit call; the client has checked the counts before. */
  method WriteRequest(r: Request<Submission>) returns (ok: bool, request: Bytes)
    requires Counted(r.submits)
    ensures ok <==> forall i | 0 <= i < |r.submits| :: InBounds(r.submits[i])
    ensures ok ==> request == EncodeRequest(r)
  {
    var w := new Writer();
    w.U64(r.queue);
    w.U64(r.fence);
    w.U32(|r.submits|);
    ok := WriteSubmissions(w, r.submits);
    request := w.data;
    Flatten([], EncodeU64(r.queue), EncodeU64(r.fence), EncodeU32(|r.submits|), EncodeAll(EncodeSubmission, r.submits));
    assert [] + EncodeRequest(r) == EncodeRequest(r);
  }

  // ---------------------------------------------------------------------------
  // The server
  // ---------------------------------------------------------------------------

  /** The count guard, before anything is sized by the count. */
  method ReadCount(r: Reader, least: nat) returns (ok: bool, n: nat)
    requires r.Valid() && !r.failed && least > 0
    modifies r
    ensures r.Valid() && (ok ==> !r.failed && ParseU32(old(r.Rest())) == Some((n, r.Rest())))
    ensures ok <==> ParseU32(old(r.Rest())).Some? && n <= MAX_ARRAY_ELEMENTS && n <= |r.Rest()| / least
    ensures ParseU32(old(r.Rest())).Some? ==> ParseU32(old(r.Rest())) == Some((n, r.Rest()))
  {
    n := r.U32();
    if r.failed { return false, n; }
    ok := n <= MAX_ARRAY_ELEMENTS && n <= r.Remaining() / least;
  }

  method ReadWaits(r: Reader, live: Live) returns (ok: bool, xs: seq<Wait>)
    requires r.Valid() && !r.failed
    modifies r
    ensures r.Valid() && (ok ==> !r.failed)
    ensures Reads(ok, xs, r.Rest(), ParseArray(ParseWait(live), 12, old(r.Rest())))
  {
    xs := [];
    var fits, n := ReadCount(r, 12);
    if !fits { return false, xs; }
    ghost var parse, input := ParseWait(live), r.Rest();
    AfterNothing(ParseAll(parse, n, input));
    for i := 0 to n
      invariant r.Valid() && !r.failed
      invariant ParseAll(parse, n, input) == After(xs, ParseAll(parse, n - i, r.Rest()))
    {
      NextRead(parse, xs, n - i, r.Rest());
      var id := r.U64();
      var stage := r.U32();
      if r.failed || id !in live.semaphores { return false, xs; }
      xs := xs + [Wait(id, stage)];
    }
    assert xs + [] == xs;
    ok := true;
  }

  method ReadHandles(r: Reader, handles: set<U64>) returns (ok: bool, xs: seq<U64>)
    requires r.Valid() && !r.failed
    modifies r
    ensures r.Valid() && (ok ==> !r.failed)
    ensures Reads(ok, xs, r.Rest(), ParseArray(ParseLive(handles), 8, old(r.Rest())))
  {
    xs := [];
    var fits, n := ReadCount(r, 8);
    if !fits { return false, xs; }
    ghost var parse, input := ParseLive(handles), r.Rest();
    AfterNothing(ParseAll(parse, n, input));
    for i := 0 to n
      invariant r.Valid() && !r.failed
      invariant ParseAll(parse, n, input) == After(xs, ParseAll(parse, n - i, r.Rest()))
    {
      NextRead(parse, xs, n - i, r.Rest());
      var id := r.U64();
      if r.failed || id !in handles { return false, xs; }
      xs := xs + [id];
    }
    assert xs + [] == xs;
    ok := true;
  }

  method ReadSubmission(r: Reader, live: Live) returns (ok: bool, s: Submission)
    requires r.Valid() && !r.failed
    modifies r
    ensures r.Valid() && (ok ==> !r.failed)
    ensures Reads(ok, s, r.Rest(), ParseSubmission(live)(old(r.Rest())))
  {
    s := Submission([], [], [], []);
    var chained, chain := ReadChain(r, {}, Submit, 0);
    if !chained { return false, s; }
    var waited, waits := ReadWaits(r, live);
    if !waited { return false, s; }
    var listed, commandBuffers := ReadHandles(r, live.commandBuffers);
    if !listed { return false, s; }
    var signaled, signals := ReadHandles(r, live.semaphores);
    if !signaled { return false, s; }
    return true, Submission(chain, waits, commandBuffers, signals);
  }

  method ReadSubmissions(r: Reader, live: Live) returns (ok: bool, xs: seq<Submission>)
    requires r.Valid() && !r.failed
    modifies r
    ensures r.Valid() && (ok ==> !r.failed)
    ensures Reads(ok, xs, r.Rest(), ParseArray(ParseSubmission(live), 16, old(r.Rest())))
  {
    xs := [];
    var fits, n := ReadCount(r, 16);
    if !fits { return false, xs; }
    ghost var parse, input := ParseSubmission(live), r.Rest();
    AfterNothing(ParseAll(parse, n, input));
    for i := 0 to n
      invariant r.Valid() && !r.failed
      invariant ParseAll(parse, n, input) == After(xs, ParseAll(parse, n - i, r.Rest()))
    {
      NextRead(parse, xs, n - i, r.Rest());
      var read, s := ReadSubmission(r, live);
      if !read { return false, xs; }
      xs := xs + [s];
    }
    assert xs + [] == xs;
    ok := true;
  }

  method ReadIds(r: Reader) returns (ok: bool, ids: (U64, U64))
    requires r.Valid() && !r.failed
    modifies r
    ensures r.Valid() && (ok ==> !r.failed)
    ensures Reads(ok, ids, r.Rest(), ParseIds(old(r.Rest())))
  {
    var queue := r.U64();
    var fence := r.U64();
    return !r.failed, (queue, fence);
  }

  method HandleList(r: Reader, live: Live, queue: U64, fence: U64) returns (request: Option<Request<Submission>>)
    requires r.Valid() && !r.failed
    modifies r
    ensures request == Accept(live, queue, fence, ParseArray(ParseSubmission(live), 16, old(r.Rest())))
  {
    var read, submits := ReadSubmissions(r, live);
    if !read { return None; }
    assert r.Remaining() == |r.Rest()|;
    if !IdsLive(live, queue, fence) || r.Remaining() != 0 { return None; }
    request := Some(Request(queue, fence, submits));
  }

  /** The handler: the decoded request, or a decode error. */
  method HandleSubmit(message: Bytes, live: Live) returns (request: Option<Request<Submission>>)
    ensures request == ParseRequest(live, message)
    ensures request.Some? ==>
              var r := request.value;
              && r.queue in live.queues && (r.fence == 0 || r.fence in live.fences)
              && |r.submits| <= MAX_ARRAY_ELEMENTS && (forall i | 0 <= i < |r.submits| :: Sendable(live, r.submits[i]))
              && message == EncodeRequest(r)
    ensures request.None? ==>
              forall r: Request<Submission> |
                r.queue in live.queues && (r.fence == 0 || r.fence in live.fences)
                && |r.submits| <= MAX_ARRAY_ELEMENTS && (forall i | 0 <= i < |r.submits| :: Sendable(live, r.submits[i])) ::
                message != EncodeRequest(r)
  {
    forall r ensures ParseRequest(live, message) == Some(r)
            <==> r.queue in live.queues && (r.fence == 0 || r.fence in live.fences)
                 && |r.submits| <= MAX_ARRAY_ELEMENTS && (forall i | 0 <= i < |r.submits| :: Sendable(live, r.submits[i]))
                 && message == EncodeRequest(r) {
      RequestReadExactly(live, message, r);
    }
    hide Sendable;
    var r := new Reader(message);
    var begun, ids := ReadIds(r);
    if !begun { return None; }
    request := HandleList(r, live, ids.0, ids.1);
  }

  /** The two sides together: the server gets the list the client was given. */
  method SubmitReachesServer(r: Request<Submission>, live: Live) returns (received: Option<Request<Submission>>)
    requires IdsLive(live, r.queue, r.fence)
    requires |r.submits| <= MAX_ARRAY_ELEMENTS && forall i | 0 <= i < |r.submits| :: Sendable(live, r.submits[i])
    ensures received == Some(r)
  {
    var ok, request := WriteRequest(r);
    RequestRoundTrip(live, r);
    received := HandleSubmit(request, live);
  }
}
