/** Writing submit requests of the second version and handling them, in place. */
module Submit2Streams {
  import opened Limits
  import opened Options
  import opened Wire
  import opened ChainStreams
  import opened SubmitCodec
  import opened SubmitStreams

  // ---------------------------------------------------------------------------
  // The client
  // ---------------------------------------------------------------------------

  method WriteSemaphoreInfos(w: Writer, xs: seq<SemaphoreInfo>) returns (ok: bool)
    requires |xs| <= MAX_ARRAY_ELEMENTS
    modifies w
    ensures ok == SemaphoreInfosOk(xs)
    ensures ok ==> w.data == old(w.data) + EncodeArray(EncodeSemaphoreInfo, xs)
  {
    w.U32(|xs|);
    ghost var start := w.data;
    for i := 0 to |xs|
      invariant forall j | 0 <= j < i :: SemaphoreInfoOk(xs[j])
      invariant w.data == start + EncodeAll(EncodeSemaphoreInfo, xs[..i])
    {
      if xs[i].type_ != SEMAPHORE_SUBMIT_INFO || xs[i].extended { return false; }
      NextWritten(EncodeSemaphoreInfo, xs, i, start);
      ghost var before := w.data;
      w.U64(xs[i].semaphore);
      w.U64(xs[i].value);
      w.U64(xs[i].stages);
      w.U32(xs[i].device);
      Flatten(before, EncodeU64(xs[i].semaphore), EncodeU64(xs[i].value), EncodeU64(xs[i].stages), EncodeU32(xs[i].device));
    }
    assert xs[..|xs|] == xs;
    ok := true;
  }

  method WriteCommandBufferInfos(w: Writer, xs: seq<CommandBufferInfo>) returns (ok: bool)
    requires |xs| <= MAX_ARRAY_ELEMENTS
    modifies w
    ensures ok == CommandBufferInfosOk(xs)
    ensures ok ==> w.data == old(w.data) + EncodeArray(EncodeCommandBufferInfo, xs)
  {
    w.U32(|xs|);
    ghost var start := w.data;
    for i := 0 to |xs|
      invariant forall j | 0 <= j < i :: CommandBufferInfoOk(xs[j])
      invariant w.data == start + EncodeAll(EncodeCommandBufferInfo, xs[..i])
    {
      if xs[i].type_ != COMMAND_BUFFER_SUBMIT_INFO || xs[i].extended { return false; }
      NextWritten(EncodeCommandBufferInfo, xs, i, start);
      ghost var before := w.data;
      w.U64(xs[i].commandBuffer);
      w.U32(xs[i].mask);
      assert w.data == before + EncodeCommandBufferInfo(xs[i]);
    }
    assert xs[..|xs|] == xs;
    ok := true;
  }

  method WriteSubmission2(w: Writer, s: Submission2) returns (ok: bool)
    modifies w
    ensures ok == Encodable2(s)
    ensures ok ==> w.data == old(w.data) + EncodeSubmission2(s)
  {
    hide EncodeAll, SemaphoreInfoOk, CommandBufferInfoOk;
    ok := s.type_ == SUBMIT_INFO_2 && !s.extended && |s.waits| <= MAX_ARRAY_ELEMENTS
          && |s.commandBuffers| <= MAX_ARRAY_ELEMENTS && |s.signals| <= MAX_ARRAY_ELEMENTS;
    if !ok { return; }
    w.U32(s.flags);
    ok := WriteSemaphoreInfos(w, s.waits);
    if !ok { return; }
    ok := WriteCommandBufferInfos(w, s.commandBuffers);
    if !ok { return; }
    ok := WriteSemaphoreInfos(w, s.signals);
    if !ok { return; }
    Flatten(old(w.data), EncodeU32(s.flags), EncodeArray(EncodeSemaphoreInfo, s.waits),
            EncodeArray(EncodeCommandBufferInfo, s.commandBuffers), EncodeArray(EncodeSemaphoreInfo, s.signals));
  }

  method WriteSubmissions2(w: Writer, xs: seq<Submission2>) returns (ok: bool)
    modifies w
    ensures ok <==> forall i | 0 <= i < |xs| :: Encodable2(xs[i])
    ensures ok ==> w.data == old(w.data) + EncodeAll(EncodeSubmission2, xs)
  {
    assert EncodeAll(EncodeSubmission2, xs[..0]) == [];
    hide EncodeSubmission2, EncodeAll, Encodable2;
    for i := 0 to |xs|
      invariant w.data == old(w.data) + EncodeAll(EncodeSubmission2, xs[..i])
      invariant forall j | 0 <= j < i :: Encodable2(xs[j])
    {
      NextWritten(EncodeSubmission2, xs, i, old(w.data));
      ok := WriteSubmission2(w, xs[i]);
      if !ok { return; }
    }
    assert xs[..|xs|] == xs;
    ok := true;
  }

  /** The request of one submit call of the second version; a wrong structure type, a chain or an array that is
      too long refuses it. */
  method WriteRequest2(r: Request<Submission2>) returns (ok: bool, request: Bytes)
    requires |r.submits| <= MAX_ARRAY_ELEMENTS
    ensures ok <==> forall i | 0 <= i < |r.submits| :: Encodable2(r.submits[i])
    ensures ok ==> request == EncodeRequest2(r)
  {
    var w := new Writer();
    w.U64(r.queue);
    w.U64(r.fence);
    w.U32(|r.submits|);
    ok := WriteSubmissions2(w, r.submits);
    request := w.data;
    Flatten([], EncodeU64(r.queue), EncodeU64(r.fence), EncodeU32(|r.submits|), EncodeAll(EncodeSubmission2, r.submits));
    assert [] + EncodeRequest2(r) == EncodeRequest2(r);
  }

  // ---------------------------------------------------------------------------
  // The server
  // ---------------------------------------------------------------------------

  /** The count guard, on a reader that may have failed: it then counts nothing. */
  method ReadCount2(r: Reader, least: nat) returns (ok: bool, n: nat)
    requires r.Valid() && least > 0
    modifies r
    ensures r.Valid() && (old(r.failed) ==> r.failed)
    ensures r.failed ==> ok && n == 0 && (old(r.failed) || ParseU32(old(r.Rest())).None?)
    ensures !r.failed ==> ParseU32(old(r.Rest())) == Some((n, r.Rest()))
                          && (ok <==> n <= MAX_ARRAY_ELEMENTS && n <= |r.Rest()| / least)
  {
    n := r.U32();
    ok := n <= MAX_ARRAY_ELEMENTS && n <= r.Remaining() / least;
  }

  /** What has been read, when the reader has not failed. */
  function Unless<T>(failed: bool, parsed: Parsed<T>): Parsed<T> {
    if failed then None else parsed
  }

  method ReadSemaphoreInfo(r: Reader, live: Live) returns (ok: bool, x: SemaphoreInfo)
    requires r.Valid()
    modifies r
    ensures r.Valid() && (old(r.failed) ==> r.failed)
    ensures Reads(ok && !r.failed, x, r.Rest(), Unless(old(r.failed), ParseSemaphoreInfo(live)(old(r.Rest()))))
  {
    var id := r.U64();
    var value := r.U64();
    var stages := r.U64();
    var device := r.U32();
    x := SemaphoreInfo(SEMAPHORE_SUBMIT_INFO, false, id, value, stages, device);
    ok := id == 0 || id in live.semaphores;
  }

  method ReadSemaphoreInfos(r: Reader, live: Live, n: nat) returns (ok: bool, xs: seq<SemaphoreInfo>)
    requires r.Valid()
    modifies r
    ensures r.Valid() && (old(r.failed) ==> r.failed)
    ensures Reads(ok && !r.failed, xs, r.Rest(), Unless(old(r.failed), ParseAll(ParseSemaphoreInfo(live), n, old(r.Rest()))))
  {
    hide ParseAll, ParseSemaphoreInfo, ParseArray, ParseWord;
    xs := [];
    ghost var parse, failed := ParseSemaphoreInfo(live), r.failed;
    ghost var whole := ParseAll(parse, n, r.Rest());
    AfterNothing(whole);
    for i := 0 to n
      invariant r.Valid() && (failed ==> r.failed)
      invariant !failed ==> whole == Unless(r.failed, After(xs, ParseAll(parse, n - i, r.Rest())))
    {
      if !r.failed { NextRead(parse, xs, n - i, r.Rest()); }
      var read, x := ReadSemaphoreInfo(r, live);
      if !read { return false, xs; }
      xs := xs + [x];
    }
    NoneLeft(parse, xs, r.Rest());
    ok := true;
  }

  method ReadSemaphoreInfoArray(r: Reader, live: Live) returns (ok: bool, xs: seq<SemaphoreInfo>)
    requires r.Valid()
    modifies r
    ensures r.Valid()
    ensures Reads(ok && !r.failed, xs, r.Rest(), Unless(old(r.failed), ParseArray(ParseSemaphoreInfo(live), 28, old(r.Rest()))))
  {
    hide ParseAll, ParseSemaphoreInfo;
    xs := [];
    var fits, n := ReadCount2(r, 28);
    if !fits { return false, xs; }
    ok, xs := ReadSemaphoreInfos(r, live, n);
  }

  method ReadCommandBufferInfo(r: Reader, live: Live) returns (ok: bool, x: CommandBufferInfo)
    requires r.Valid()
    modifies r
    ensures r.Valid() && (old(r.failed) ==> r.failed)
    ensures Reads(ok && !r.failed, x, r.Rest(), Unless(old(r.failed), ParseCommandBufferInfo(live)(old(r.Rest()))))
  {
    var id := r.U64();
    var mask := r.U32();
    x := CommandBufferInfo(COMMAND_BUFFER_SUBMIT_INFO, false, id, mask);
    ok := id == 0 || id in live.commandBuffers;
  }

  method ReadCommandBufferInfos(r: Reader, live: Live, n: nat) returns (ok: bool, xs: seq<CommandBufferInfo>)
    requires r.Valid()
    modifies r
    ensures r.Valid() && (old(r.failed) ==> r.failed)
    ensures Reads(ok && !r.failed, xs, r.Rest(), Unless(old(r.failed), ParseAll(ParseCommandBufferInfo(live), n, old(r.Rest()))))
  {
    hide ParseAll, ParseCommandBufferInfo, ParseArray, ParseWord;
    xs := [];
    ghost var parse, failed := ParseCommandBufferInfo(live), r.failed;
    ghost var whole := ParseAll(parse, n, r.Rest());
    AfterNothing(whole);
    for i := 0 to n
      invariant r.Valid() && (failed ==> r.failed)
      invariant !failed ==> whole == Unless(r.failed, After(xs, ParseAll(parse, n - i, r.Rest())))
    {
      if !r.failed { NextRead(parse, xs, n - i, r.Rest()); }
      var read, x := ReadCommandBufferInfo(r, live);
      if !read { return false, xs; }
      xs := xs + [x];
    }
    NoneLeft(parse, xs, r.Rest());
    ok := true;
  }

  method ReadCommandBufferInfoArray(r: Reader, live: Live) returns (ok: bool, xs: seq<CommandBufferInfo>)
    requires r.Valid()
    modifies r
    ensures r.Valid()
    ensures Reads(ok && !r.failed, xs, r.Rest(), Unless(old(r.failed), ParseArray(ParseCommandBufferInfo(live), 12, old(r.Rest()))))
  {
    hide ParseAll, ParseCommandBufferInfo;
    xs := [];
    var fits, n := ReadCount2(r, 12);
    if !fits { return false, xs; }
    ok, xs := ReadCommandBufferInfos(r, live, n);
  }

  /** One submission: a refusal ends it at once, a read past the end only at its end. */
  method ReadSubmission2(r: Reader, live: Live) returns (ok: bool, s: Submission2)
    requires r.Valid() && !r.failed
    modifies r
    ensures r.Valid() && (ok ==> !r.failed)
    ensures Reads(ok, s, r.Rest(), ParseSubmission2(live)(old(r.Rest())))
  {
    hide ParseArray;
    s := Submission2(SUBMIT_INFO_2, false, 0, [], [], []);
    var flags := r.U32();
    var waited, waits := ReadSemaphoreInfoArray(r, live);
    if !waited { return false, s; }
    var listed, commandBuffers := ReadCommandBufferInfoArray(r, live);
    if !listed { return false, s; }
    var signaled, signals := ReadSemaphoreInfoArray(r, live);
    if !signaled { return false, s; }
    return !r.failed, Submission2(SUBMIT_INFO_2, false, flags, waits, commandBuffers, signals);
  }

  method ReadSubmissions2(r: Reader, live: Live, n: nat) returns (ok: bool, xs: seq<Submission2>)
    requires r.Valid() && !r.failed
    modifies r
    ensures r.Valid() && (ok ==> !r.failed)
    ensures Reads(ok, xs, r.Rest(), ParseAll(ParseSubmission2(live), n, old(r.Rest())))
  {
    xs := [];
    hide ParseAll, ParseSubmission2, ParseArray, ParseWord;
    ghost var parse := ParseSubmission2(live);
    ghost var whole := ParseAll(parse, n, r.Rest());
    AfterNothing(whole);
    for i := 0 to n
      invariant r.Valid() && !r.failed
      invariant whole == After(xs, ParseAll(parse, n - i, r.Rest()))
    {
      NextRead(parse, xs, n - i, r.Rest());
      var read, s := ReadSubmission2(r, live);
      if !read { return false, xs; }
      xs := xs + [s];
    }
    NoneLeft(parse, xs, r.Rest());
    ok := true;
  }

  /** The handler's list, once its ids are known: the guard, the loop, and nothing left over. */
  method HandleList2(r: Reader, live: Live, queue: U64, fence: U64) returns (request: Option<Request<Submission2>>)
    requires r.Valid() && !r.failed
    modifies r
    ensures request == Accept(live, queue, fence, ParseArray(ParseSubmission2(live), 16, old(r.Rest())))
  {
    hide ParseAll;
    var fits, n := ReadCount2(r, 16);
    if !IdsLive(live, queue, fence) || !fits || r.failed { return None; }
    var read, submits := ReadSubmissions2(r, live, n);
    if !read { return None; }
    assert r.Remaining() == |r.Rest()|;
    if r.Remaining() != 0 { return None; }
    request := Some(Request(queue, fence, submits));
  }

  /** The handler of the second version: the decoded request, or a decode error. */
  method HandleSubmit2(message: Bytes, live: Live) returns (request: Option<Request<Submission2>>)
    ensures request == ParseRequest2(live, message)
    ensures request.Some? ==>
              var r := request.value;
              && r.queue in live.queues && (r.fence == 0 || r.fence in live.fences)
              && |r.submits| <= MAX_ARRAY_ELEMENTS && (forall i | 0 <= i < |r.submits| :: Sendable2(live, r.submits[i]))
              && message == EncodeRequest2(r)
    ensures request.None? ==>
              forall r: Request<Submission2> |
                r.queue in live.queues && (r.fence == 0 || r.fence in live.fences)
                && |r.submits| <= MAX_ARRAY_ELEMENTS && (forall i | 0 <= i < |r.submits| :: Sendable2(live, r.submits[i])) ::
                message != EncodeRequest2(r)
  {
    forall r ensures ParseRequest2(live, message) == Some(r)
            <==> r.queue in live.queues && (r.fence == 0 || r.fence in live.fences)
                 && |r.submits| <= MAX_ARRAY_ELEMENTS && (forall i | 0 <= i < |r.submits| :: Sendable2(live, r.submits[i]))
                 && message == EncodeRequest2(r) {
      Request2ReadExactly(live, message, r);
    }
    hide ParseArray, Sendable2;
    var r := new Reader(message);
    var begun, ids := ReadIds(r);
    if !begun { return None; }
    request := HandleList2(r, live, ids.0, ids.1);
  }

  /** The two sides together: the server gets the list the client was given. */
  method Submit2ReachesServer(r: Request<Submission2>, live: Live) returns (received: Option<Request<Submission2>>)
    requires IdsLive(live, r.queue, r.fence)
    requires |r.submits| <= MAX_ARRAY_ELEMENTS && forall i | 0 <= i < |r.submits| :: Sendable2(live, r.submits[i])
    ensures received == Some(r)
  {
    var ok, request := WriteRequest2(r);
    Request2RoundTrip(live, r);
    received := HandleSubmit2(request, live);
  }
}
