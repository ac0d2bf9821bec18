/** Where every field of a message is, in little-endian words.

    The codecs' round trips hold of any layout both sides agree on; this is the one they have.
  */
module WireLayouts {
  import opened Limits
  import opened Options
  import opened Wire
  import opened PNextChain
  import opened SubmitCodec
  import opened RenderPassCodec

  // ---------------------------------------------------------------------------
  // Arrays of words
  // ---------------------------------------------------------------------------

  /** 32-bit words: their number, then 4 bytes each. */
  ghost predicate WordsAt(bs: Bytes, at: nat, xs: seq<U32>) {
    WordAt(bs, at, 4, |xs|) && forall j: nat | j < |xs| :: WordAt(bs, at + 4 + j * 4 + 0, 4, xs[j])
  }

  /** Signed words, in two's complement. */
  ghost predicate SignedAt(bs: Bytes, at: nat, xs: seq<I32>) {
    && WordAt(bs, at, 4, |xs|)
    && forall j: nat | j < |xs| ::
         WordAt(bs, at + 4 + j * 4 + 0, 4, ToWord(xs[j]))
  }

  lemma WordsLieAt(a: Bytes, xs: seq<U32>, rest: Bytes)
    requires |xs| <= MAX_ARRAY_ELEMENTS
    ensures |EncodeArray(EncodeU32, xs)| == 4 + |xs| * 4 && WordsAt(a + EncodeArray(EncodeU32, xs) + rest, |a|, xs)
  {
    CountLies(EncodeU32, a, xs, rest, 4);
    hide WordAt, EncodeArray;
    forall j: nat | j < |xs| ensures WordAt(a + EncodeArray(EncodeU32, xs) + rest, |a| + 4 + j * 4 + 0, 4, xs[j]) {
      WordIs(EncodeU32(xs[j]), 0, 4, xs[j]);
      FieldLies(EncodeU32, a, xs, rest, 4, j, 0, 4, xs[j]);
    }
  }

  lemma SignedLieAt(a: Bytes, xs: seq<I32>, rest: Bytes)
    requires |xs| <= MAX_ARRAY_ELEMENTS
    ensures |EncodeArray(EncodeI32, xs)| == 4 + |xs| * 4 && SignedAt(a + EncodeArray(EncodeI32, xs) + rest, |a|, xs)
  {
    CountLies(EncodeI32, a, xs, rest, 4);
    hide WordAt, EncodeArray;
    forall j: nat | j < |xs|
      ensures WordAt(a + EncodeArray(EncodeI32, xs) + rest, |a| + 4 + j * 4 + 0, 4, ToWord(xs[j]))
    {
      WordIs(EncodeI32(xs[j]), 0, 4, ToWord(xs[j]));
      FieldLies(EncodeI32, a, xs, rest, 4, j, 0, 4, ToWord(xs[j]));
    }
  }

  /** Handles: their number, then 8 bytes each. */
  ghost predicate HandlesAt(bs: Bytes, at: nat, xs: seq<U64>) {
    WordAt(bs, at, 4, |xs|) && forall j: nat | j < |xs| :: WordAt(bs, at + 4 + j * 8 + 0, 8, xs[j])
  }

  lemma HandlesLieAt(a: Bytes, xs: seq<U64>, rest: Bytes)
    requires |xs| <= MAX_ARRAY_ELEMENTS
    ensures |EncodeArray(EncodeU64, xs)| == 4 + |xs| * 8 && HandlesAt(a + EncodeArray(EncodeU64, xs) + rest, |a|, xs)
  {
    CountLies(EncodeU64, a, xs, rest, 8);
    hide WordAt, EncodeArray;
    forall j: nat | j < |xs|
      ensures WordAt(a + EncodeArray(EncodeU64, xs) + rest, |a| + 4 + j * 8 + 0, 8, xs[j])
    {
      WordIs(EncodeU64(xs[j]), 0, 8, xs[j]);
      FieldLies(EncodeU64, a, xs, rest, 8, j, 0, 8, xs[j]);
    }
  }

  // ---------------------------------------------------------------------------
  // Extension chains
  // ---------------------------------------------------------------------------

  /** A chain: the number of its nodes, then each type with its node. */
  lemma ChainLaidOut(context: Context, chain: seq<Node>, depth: nat)
    requires EncodeChain(context, chain, depth).Some?
    ensures AllWritable(Kept(context, chain), depth)
    ensures var bs, nodes := EncodeChain(context, chain, depth).value, Kept(context, chain);
            && WordAt(bs, 0, 4, |nodes|)
            && bs[4..] == if nodes == [] then []
                          else EncodeI32(TypeOf(nodes[0])) + EncodeNode(nodes[0], depth) + EncodeNodes(nodes[1..], depth)
  {
    CollectExactly(context, chain);
    var bs, nodes := EncodeChain(context, chain, depth).value, Kept(context, chain);
    hide WordAt;
    assert bs[0..4] == Le(|nodes|, 4) && bs[4..] == EncodeNodes(nodes, depth);
    WordIs(bs, 0, 4, |nodes|);
    if nodes != [] {
      Peel(EncodeI32(TypeOf(nodes[0])), EncodeNode(nodes[0], depth), EncodeNodes(nodes[1..], depth));
    }
  }

  lemma AspectLaidOut(a: AspectReference)
    ensures var bs := EncodeAspect(a);
            |bs| == 12 && WordAt(bs, 0, 4, a.subpass) && WordAt(bs, 4, 4, a.index) && WordAt(bs, 8, 4, a.aspects)
  {
    var bs := EncodeAspect(a);
    hide WordAt;
    assert bs[0..4] == Le(a.subpass, 4) && bs[4..8] == Le(a.index, 4) && bs[8..12] == Le(a.aspects, 4);
    WordIs(bs, 0, 4, a.subpass);
    WordIs(bs, 4, 4, a.index);
    WordIs(bs, 8, 4, a.aspects);
  }

  /** Input aspects: their number, then subpass, index and aspects each. */
  lemma AspectsLaidOut(n: Node, depth: nat, j: nat)
    requires n.InputAspects? && Writable(n, depth) && j < |n.references|
    ensures var bs := EncodeNode(n, depth);
            && WordAt(bs, 0, 4, |n.references|) && WordAt(bs, 4 + j * 12 + 0, 4, n.references[j].subpass)
            && WordAt(bs, 4 + j * 12 + 4, 4, n.references[j].index) && WordAt(bs, 4 + j * 12 + 8, 4, n.references[j].aspects)
  {
    var xs := n.references;
    hide WordAt, EncodeAspect, EncodeArray;
    forall i | 0 <= i < |xs| ensures |EncodeAspect(xs[i])| == 12 { AspectLaidOut(xs[i]); }
    AspectLaidOut(xs[j]);
    CountLies(EncodeAspect, [], xs, [], 12);
    FieldLies(EncodeAspect, [], xs, [], 12, j, 0, 4, xs[j].subpass);
    FieldLies(EncodeAspect, [], xs, [], 12, j, 4, 4, xs[j].index);
    FieldLies(EncodeAspect, [], xs, [], 12, j, 8, 4, xs[j].aspects);
    assert [] + EncodeArray(EncodeAspect, xs) + [] == EncodeArray(EncodeAspect, xs);
  }

  /** Multiview: view masks, view offsets and correlation masks. */
  lemma MultiviewLaidOut(n: Node, depth: nat)
    requires n.Multiview? && Writable(n, depth)
    ensures var bs := EncodeNode(n, depth);
            && WordsAt(bs, 0, n.viewMasks) && SignedAt(bs, 4 + |n.viewMasks| * 4, n.viewOffsets)
            && WordsAt(bs, 4 + |n.viewMasks| * 4 + 4 + |n.viewOffsets| * 4, n.correlationMasks)
  {
    var a, b, c := EncodeArray(EncodeU32, n.viewMasks), EncodeArray(EncodeI32, n.viewOffsets),
                   EncodeArray(EncodeU32, n.correlationMasks);
    hide EncodeArray, WordsAt, SignedAt;
    assert EncodeNode(n, depth) == a + (b + c) == [] + a + (b + c) == a + b + c == a + b + c + [];
    WordsLieAt([], n.viewMasks, b + c);
    SignedLieAt(a, n.viewOffsets, c);
    WordsLieAt(a + b, n.correlationMasks, []);
  }

  /** A shading rate: whether there is an attachment, that attachment, and the texel extent. */
  lemma ShadingRateLaidOut(n: Node, depth: nat)
    requires n.ShadingRate? && Writable(n, depth)
    ensures var bs, at := EncodeNode(n, depth), if n.attachment.Some? then 20 else 4;
            && WordAt(bs, 0, 4, if n.attachment.Some? then 1 else 0)
            && (n.attachment.Some? ==> bs[4..20] == EncodeReference(n.attachment.value))
            && WordAt(bs, at, 4, n.width) && WordAt(bs, at + 4, 4, n.height) && |bs| == at + 8
  {
    var bs, at := EncodeNode(n, depth), if n.attachment.Some? then 20 else 4;
    hide WordAt, EncodeReference;
    assert bs[0..4] == Le(if n.attachment.Some? then 1 else 0, 4);
    assert bs[at..at + 4] == Le(n.width, 4) && bs[at + 4..at + 8] == Le(n.height, 4);
    WordIs(bs, 0, 4, if n.attachment.Some? then 1 else 0);
    WordIs(bs, at, 4, n.width);
    WordIs(bs, at + 4, 4, n.height);
  }

  /** A framebuffer image: five words, then its formats. */
  lemma ImageLaidOut(i: FramebufferImage)
    requires |i.formats| <= MAX_ARRAY_ELEMENTS
    ensures var bs := EncodeImage(i);
            && WordAt(bs, 0, 4, i.flags) && WordAt(bs, 4, 4, i.usage) && WordAt(bs, 8, 4, i.width)
            && WordAt(bs, 12, 4, i.height) && WordAt(bs, 16, 4, i.layers) && bs[20..] == EncodeArray(EncodeI32, i.formats)
  {
    var bs := EncodeImage(i);
    hide WordAt, EncodeArray;
    assert bs[0..4] == Le(i.flags, 4) && bs[4..8] == Le(i.usage, 4) && bs[8..12] == Le(i.width, 4)
           && bs[12..16] == Le(i.height, 4) && bs[16..20] == Le(i.layers, 4);
    WordIs(bs, 0, 4, i.flags);
    WordIs(bs, 4, 4, i.usage);
    WordIs(bs, 8, 4, i.width);
    WordIs(bs, 12, 4, i.height);
    WordIs(bs, 16, 4, i.layers);
  }

  /** Attachment views, and the values of timeline semaphores. */
  lemma HandleNodesLaidOut(n: Node, depth: nat)
    requires Writable(n, depth)
    ensures n.AttachmentViews? ==> HandlesAt(EncodeNode(n, depth), 0, n.views)
    ensures n.TimelineSubmit? ==>
              HandlesAt(EncodeNode(n, depth), 0, n.waits) && HandlesAt(EncodeNode(n, depth), 4 + |n.waits| * 8, n.signals)
  {
    hide EncodeArray, HandlesAt;
    if n.AttachmentViews? {
      HandlesLieAt([], n.views, []);
      assert [] + EncodeArray(EncodeU64, n.views) + [] == EncodeNode(n, depth);
    } else if n.TimelineSubmit? {
      var a, b := EncodeArray(EncodeU64, n.waits), EncodeArray(EncodeU64, n.signals);
      HandlesLieAt([], n.waits, b);
      HandlesLieAt(a, n.signals, []);
      assert [] + a + b == EncodeNode(n, depth) == a + b + [];
    }
  }

  // ---------------------------------------------------------------------------
  // Submit requests
  // ---------------------------------------------------------------------------

  /** A request begins with its queue, its fence and the number of its lists. */
  lemma RequestBegins(r: Request<Submission>, s: Request<Submission2>)
    requires |r.submits| <= MAX_ARRAY_ELEMENTS && |s.submits| <= MAX_ARRAY_ELEMENTS
    ensures var bs := EncodeRequest(r);
            && WordAt(bs, 0, 8, r.queue) && WordAt(bs, 8, 8, r.fence) && WordAt(bs, 16, 4, |r.submits|)
            && bs[20..] == EncodeAll(EncodeSubmission, r.submits)
    ensures var bs := EncodeRequest2(s);
            && WordAt(bs, 0, 8, s.queue) && WordAt(bs, 8, 8, s.fence) && WordAt(bs, 16, 4, |s.submits|)
            && bs[20..] == EncodeAll(EncodeSubmission2, s.submits)
  {
    HeadIs(r.queue, r.fence, |r.submits|, EncodeAll(EncodeSubmission, r.submits));
    HeadIs(s.queue, s.fence, |s.submits|, EncodeAll(EncodeSubmission2, s.submits));
  }

  lemma HeadIs(queue: U64, fence: U64, count: U32, body: Bytes)
    ensures var bs := EncodeU64(queue) + (EncodeU64(fence) + (EncodeU32(count) + body));
            WordAt(bs, 0, 8, queue) && WordAt(bs, 8, 8, fence) && WordAt(bs, 16, 4, count) && bs[20..] == body
  {
    var bs := EncodeU64(queue) + (EncodeU64(fence) + (EncodeU32(count) + body));
    hide Le, WordAt;
    assert bs[0..8] == Le(queue, 8) && bs[8..16] == Le(fence, 8) && bs[16..20] == Le(count, 4);
    WordIs(bs, 0, 8, queue);
    WordIs(bs, 8, 8, fence);
    WordIs(bs, 16, 4, count);
  }

  lemma WaitFields(w: Wait)
    ensures WordAt(EncodeWait(w), 0, 8, w.semaphore) && WordAt(EncodeWait(w), 8, 4, w.stage)
  {
    hide WordAt;
    assert EncodeWait(w)[0..8] == Le(w.semaphore, 8) && EncodeWait(w)[8..12] == Le(w.stage, 4);
    WordIs(EncodeWait(w), 0, 8, w.semaphore);
    WordIs(EncodeWait(w), 8, 4, w.stage);
  }

  /** The waits: their number, then a semaphore and a stage each. */
  ghost predicate WaitsAt(bs: Bytes, at: nat, xs: seq<Wait>) {
    && WordAt(bs, at, 4, |xs|)
    && forall j: nat | j < |xs| ::
         WordAt(bs, at + 4 + j * 12 + 0, 8, xs[j].semaphore) && WordAt(bs, at + 4 + j * 12 + 8, 4, xs[j].stage)
  }

  lemma WaitsLieAt(a: Bytes, xs: seq<Wait>, rest: Bytes)
    requires |xs| <= MAX_ARRAY_ELEMENTS
    ensures |EncodeArray(EncodeWait, xs)| == 4 + |xs| * 12 && WaitsAt(a + EncodeArray(EncodeWait, xs) + rest, |a|, xs)
  {
    CountLies(EncodeWait, a, xs, rest, 12);
    hide WordAt, EncodeArray, EncodeWait;
    forall j: nat | j < |xs|
      ensures WordAt(a + EncodeArray(EncodeWait, xs) + rest, |a| + 4 + j * 12 + 0, 8, xs[j].semaphore)
      ensures WordAt(a + EncodeArray(EncodeWait, xs) + rest, |a| + 4 + j * 12 + 8, 4, xs[j].stage)
    {
      WaitFields(xs[j]);
      FieldLies(EncodeWait, a, xs, rest, 12, j, 0, 8, xs[j].semaphore);
      FieldLies(EncodeWait, a, xs, rest, 12, j, 8, 4, xs[j].stage);
    }
  }

  lemma Join(a: Bytes, b: Bytes, c: Bytes, d: Bytes)
    ensures a + (b + (c + d)) == a + b + (c + d) == a + b + c + d == a + b + c + d + []
  {
  }

  /** A list: its chain, waits, command buffers and signals, one behind the other. */
  lemma SubmissionLaidOut(s: Submission)
    requires InBounds(s)
    ensures var bs, chain := EncodeSubmission(s), EncodeChain(Submit, s.chain, 0).value;
            var buffers := |chain| + 4 + |s.waits| * 12;
            var signals := buffers + 4 + |s.commandBuffers| * 8;
            && |bs| == signals + 4 + |s.signals| * 8 && bs[..|chain|] == chain
            && WaitsAt(bs, |chain|, s.waits) && HandlesAt(bs, buffers, s.commandBuffers) && HandlesAt(bs, signals, s.signals)
  {
    hide EncodeArray, EncodeChain, WaitsAt, HandlesAt, EncodeWait;
    FirstListLaidOut(EncodeChain(Submit, s.chain, 0).value, s.waits, s.commandBuffers, s.signals, EncodeSubmission(s));
  }

  lemma FirstListLaidOut(a: Bytes, waits: seq<Wait>, buffers: seq<U64>, signals: seq<U64>, bs: Bytes)
    requires |waits| <= MAX_ARRAY_ELEMENTS && |buffers| <= MAX_ARRAY_ELEMENTS && |signals| <= MAX_ARRAY_ELEMENTS
    requires bs == a + (EncodeArray(EncodeWait, waits) + (EncodeArray(EncodeU64, buffers) + EncodeArray(EncodeU64, signals)))
    ensures |bs| == |a| + 4 + |waits| * 12 + 4 + |buffers| * 8 + 4 + |signals| * 8 && bs[..|a|] == a
    ensures WaitsAt(bs, |a|, waits) && HandlesAt(bs, |a| + 4 + |waits| * 12, buffers)
    ensures HandlesAt(bs, |a| + 4 + |waits| * 12 + 4 + |buffers| * 8, signals)
  {
    hide *;
    var b, c, d := EncodeArray(EncodeWait, waits), EncodeArray(EncodeU64, buffers), EncodeArray(EncodeU64, signals);
    Join(a, b, c, d);
    WaitsLieAt(a, waits, c + d);
    HandlesLieAt(a + b, buffers, d);
    HandlesLieAt(a + b + c, signals, []);
    Lengths(a, b, c, d);
  }

  /** The chain of a list: 0, or 1 with the structure's type and the two arrays of timeline values. */
  lemma SubmitChainLaidOut(waits: seq<U64>, signals: seq<U64>)
    requires |waits| <= MAX_ARRAY_ELEMENTS && |signals| <= MAX_ARRAY_ELEMENTS
    ensures EncodeChain(Submit, [], 0) == Some(Le(0, 4))
    ensures var chain := EncodeChain(Submit, [TimelineSubmit(waits, signals)], 0);
            && chain.Some? && |chain.value| == 16 + |waits| * 8 + |signals| * 8
            && WordAt(chain.value, 0, 4, 1) && WordAt(chain.value, 4, 4, 1000207003)
            && HandlesAt(chain.value, 8, waits) && HandlesAt(chain.value, 12 + |waits| * 8, signals)
  {
    var n := TimelineSubmit(waits, signals);
    SubmitChainIs(n);
    assert EncodeU32(0) + [] == Le(0, 4);
    var a, b, head := EncodeArray(EncodeU64, waits), EncodeArray(EncodeU64, signals), Le(1, 4) + Le(1000207003, 4);
    var chain := EncodeChain(Submit, [n], 0).value;
    hide EncodeChain, EncodeNodes, EncodeArray, Le, WordAt, HandlesAt;
    assert chain[0..4] == Le(1, 4) && chain[4..8] == Le(1000207003, 4);
    assert chain == head + a + b == head + a + b + [];
    WordIs(chain, 0, 4, 1);
    WordIs(chain, 4, 4, 1000207003);
    HandlesLieAt(head, waits, b);
    HandlesLieAt(head + a, signals, []);
  }

  lemma SubmitChainIs(n: Node)
    requires n.TimelineSubmit? && |n.waits| <= MAX_ARRAY_ELEMENTS && |n.signals| <= MAX_ARRAY_ELEMENTS
    ensures EncodeChain(Submit, [], 0) == Some(EncodeU32(0) + [])
    ensures EncodeChain(Submit, [n], 0)
            == Some(Le(1, 4) + (Le(1000207003, 4) + (EncodeArray(EncodeU64, n.waits) + EncodeArray(EncodeU64, n.signals))))
  {
    CollectExactly(Submit, []);
    CollectExactly(Submit, [n]);
    NothingSkipped(Submit, [n]);
    hide EncodeArray, Le, Collect;
    assert [n][1..] == [];
    assert EncodeNodes([n], 0) == EncodeI32(TypeOf(n)) + (EncodeNode(n, 0) + []);
    assert EncodeNode(n, 0) + [] == EncodeNode(n, 0);
  }

  lemma SemaphoreFields(s: SemaphoreInfo)
    ensures var bs := EncodeSemaphoreInfo(s);
            && WordAt(bs, 0, 8, s.semaphore) && WordAt(bs, 8, 8, s.value) && WordAt(bs, 16, 8, s.stages)
            && WordAt(bs, 24, 4, s.device)
  {
    var bs := EncodeSemaphoreInfo(s);
    hide WordAt, Le;
    assert bs[0..8] == Le(s.semaphore, 8) && bs[8..16] == Le(s.value, 8) && bs[16..24] == Le(s.stages, 8)
           && bs[24..28] == Le(s.device, 4);
    WordIs(bs, 0, 8, s.semaphore);
    WordIs(bs, 8, 8, s.value);
    WordIs(bs, 16, 8, s.stages);
    WordIs(bs, 24, 4, s.device);
  }

  lemma CommandBufferFields(c: CommandBufferInfo)
    ensures var bs := EncodeCommandBufferInfo(c); WordAt(bs, 0, 8, c.commandBuffer) && WordAt(bs, 8, 4, c.mask)
  {
    var bs := EncodeCommandBufferInfo(c);
    hide WordAt, Le;
    assert bs[0..8] == Le(c.commandBuffer, 8) && bs[8..12] == Le(c.mask, 4);
    WordIs(bs, 0, 8, c.commandBuffer);
    WordIs(bs, 8, 4, c.mask);
  }

  /** Semaphore operations: their number, then handle, value, stages and device index each. */
  ghost predicate SemaphoresAt(bs: Bytes, at: nat, xs: seq<SemaphoreInfo>) {
    && WordAt(bs, at, 4, |xs|)
    && forall j: nat | j < |xs| :: SemaphoreAt(bs, at + 4 + j * 28, xs[j])
  }

  ghost predicate SemaphoreAt(bs: Bytes, at: nat, s: SemaphoreInfo) {
    && WordAt(bs, at + 0, 8, s.semaphore) && WordAt(bs, at + 8, 8, s.value) && WordAt(bs, at + 16, 8, s.stages)
    && WordAt(bs, at + 24, 4, s.device)
  }

  ghost predicate CommandBuffersAt(bs: Bytes, at: nat, xs: seq<CommandBufferInfo>) {
    && WordAt(bs, at, 4, |xs|)
    && forall j: nat | j < |xs| ::
         WordAt(bs, at + 4 + j * 12 + 0, 8, xs[j].commandBuffer) && WordAt(bs, at + 4 + j * 12 + 8, 4, xs[j].mask)
  }

  lemma SemaphoresLieAt(a: Bytes, xs: seq<SemaphoreInfo>, rest: Bytes)
    requires |xs| <= MAX_ARRAY_ELEMENTS
    ensures |EncodeArray(EncodeSemaphoreInfo, xs)| == 4 + |xs| * 28
    ensures SemaphoresAt(a + EncodeArray(EncodeSemaphoreInfo, xs) + rest, |a|, xs)
  {
    CountLies(EncodeSemaphoreInfo, a, xs, rest, 28);
    hide WordAt, EncodeArray, EncodeSemaphoreInfo, SemaphoreAt;
    forall j: nat | j < |xs|
      ensures SemaphoreAt(a + EncodeArray(EncodeSemaphoreInfo, xs) + rest, |a| + 4 + j * 28, xs[j])
    {
      SemaphoreLiesAt(a, xs, rest, j);
    }
  }

  lemma SemaphoreLiesAt(a: Bytes, xs: seq<SemaphoreInfo>, rest: Bytes, j: nat)
    requires |xs| <= MAX_ARRAY_ELEMENTS && j < |xs|
    ensures SemaphoreAt(a + EncodeArray(EncodeSemaphoreInfo, xs) + rest, |a| + 4 + j * 28, xs[j])
  {
    hide WordAt, EncodeArray, EncodeSemaphoreInfo;
    SemaphoreFields(xs[j]);
    FieldLies(EncodeSemaphoreInfo, a, xs, rest, 28, j, 0, 8, xs[j].semaphore);
    FieldLies(EncodeSemaphoreInfo, a, xs, rest, 28, j, 8, 8, xs[j].value);
    FieldLies(EncodeSemaphoreInfo, a, xs, rest, 28, j, 16, 8, xs[j].stages);
    FieldLies(EncodeSemaphoreInfo, a, xs, rest, 28, j, 24, 4, xs[j].device);
  }

  lemma CommandBuffersLieAt(a: Bytes, xs: seq<CommandBufferInfo>, rest: Bytes)
    requires |xs| <= MAX_ARRAY_ELEMENTS
    ensures |EncodeArray(EncodeCommandBufferInfo, xs)| == 4 + |xs| * 12
    ensures CommandBuffersAt(a + EncodeArray(EncodeCommandBufferInfo, xs) + rest, |a|, xs)
  {
    CountLies(EncodeCommandBufferInfo, a, xs, rest, 12);
    hide WordAt, EncodeArray, EncodeCommandBufferInfo;
    forall j: nat | j < |xs|
      ensures WordAt(a + EncodeArray(EncodeCommandBufferInfo, xs) + rest, |a| + 4 + j * 12 + 0, 8, xs[j].commandBuffer)
      ensures WordAt(a + EncodeArray(EncodeCommandBufferInfo, xs) + rest, |a| + 4 + j * 12 + 8, 4, xs[j].mask)
    {
      CommandBufferFields(xs[j]);
      FieldLies(EncodeCommandBufferInfo, a, xs, rest, 12, j, 0, 8, xs[j].commandBuffer);
      FieldLies(EncodeCommandBufferInfo, a, xs, rest, 12, j, 8, 4, xs[j].mask);
    }
  }

  /** A list of the second version: its flags, waits, command buffers and signals. */
  lemma Submission2LaidOut(s: Submission2)
    requires Encodable2(s)
    ensures var bs := EncodeSubmission2(s);
            var buffers := 8 + |s.waits| * 28;
            var signals := buffers + 4 + |s.commandBuffers| * 12;
            && |bs| == signals + 4 + |s.signals| * 28 && WordAt(bs, 0, 4, s.flags)
            && SemaphoresAt(bs, 4, s.waits) && CommandBuffersAt(bs, buffers, s.commandBuffers)
            && SemaphoresAt(bs, signals, s.signals)
  {
    hide EncodeArray, SemaphoresAt, CommandBuffersAt, WordAt, EncodeSemaphoreInfo, EncodeCommandBufferInfo;
    ListLaidOut(EncodeU32(s.flags), s.waits, s.commandBuffers, s.signals, EncodeSubmission2(s));
    WordIs(EncodeU32(s.flags), 0, 4, s.flags);
    WordMoves([], EncodeU32(s.flags), EncodeSubmission2(s)[4..], 0, 4, s.flags);
    assert [] + EncodeU32(s.flags) + EncodeSubmission2(s)[4..] == EncodeSubmission2(s);
  }

  lemma ListLaidOut(a: Bytes, waits: seq<SemaphoreInfo>, buffers: seq<CommandBufferInfo>, signals: seq<SemaphoreInfo>,
                    bs: Bytes)
    requires |waits| <= MAX_ARRAY_ELEMENTS && |buffers| <= MAX_ARRAY_ELEMENTS && |signals| <= MAX_ARRAY_ELEMENTS
    requires bs == a + (EncodeArray(EncodeSemaphoreInfo, waits)
                        + (EncodeArray(EncodeCommandBufferInfo, buffers) + EncodeArray(EncodeSemaphoreInfo, signals)))
    ensures |bs| == |a| + 4 + |waits| * 28 + 4 + |buffers| * 12 + 4 + |signals| * 28
    ensures SemaphoresAt(bs, |a|, waits) && CommandBuffersAt(bs, |a| + 4 + |waits| * 28, buffers)
    ensures SemaphoresAt(bs, |a| + 4 + |waits| * 28 + 4 + |buffers| * 12, signals)
  {
    hide *;
    var b, c, d := EncodeArray(EncodeSemaphoreInfo, waits), EncodeArray(EncodeCommandBufferInfo, buffers),
                   EncodeArray(EncodeSemaphoreInfo, signals);
    Join(a, b, c, d);
    SemaphoresLieAt(a, waits, c + d);
    CommandBuffersLieAt(a + b, buffers, d);
    SemaphoresLieAt(a + b + c, signals, []);
    Lengths(a, b, c, d);
  }

  lemma Lengths(a: Bytes, b: Bytes, c: Bytes, d: Bytes)
    ensures |a + b| == |a| + |b| && |a + b + c| == |a| + |b| + |c| && |a + b + c + d| == |a| + |b| + |c| + |d|
  {
  }

  // ---------------------------------------------------------------------------
  // Render passes
  // ---------------------------------------------------------------------------

  lemma I32sAt(a: Bytes, xs: seq<I32>, rest: Bytes, k: nat)
    requires k < |xs|
    ensures |EncodeAll(EncodeI32, xs)| == |xs| * 4
    ensures WordAt(a + EncodeAll(EncodeI32, xs) + rest, |a| + k * 4, 4, ToWord(xs[k]))
  {
    var b := EncodeAll(EncodeI32, xs);
    ElementAt(EncodeI32, xs, 4, k);
    hide WordAt;
    WordIs(b, k * 4, 4, ToWord(xs[k]));
    WordMoves(a, b, rest, k * 4, 4, ToWord(xs[k]));
  }

  lemma U32sAt(a: Bytes, xs: seq<U32>, rest: Bytes, k: nat)
    requires k < |xs|
    ensures |EncodeAll(EncodeU32, xs)| == |xs| * 4
    ensures WordAt(a + EncodeAll(EncodeU32, xs) + rest, |a| + k * 4, 4, xs[k])
  {
    var b := EncodeAll(EncodeU32, xs);
    ElementAt(EncodeU32, xs, 4, k);
    hide WordAt;
    WordIs(b, k * 4, 4, xs[k]);
    WordMoves(a, b, rest, k * 4, 4, xs[k]);
  }

  /** An attachment: its type, its flags and its eight fields. */
  lemma AttachmentLaidOut(a: AttachmentDescription)
    requires |a.fields| == 8
    ensures var bs := EncodeAttachment(a);
            && |bs| == 40 && WordAt(bs, 0, 4, ToWord(a.type_)) && WordAt(bs, 4, 4, a.flags)
            && forall k: nat | k < 8 :: WordAt(bs, 8 + k * 4, 4, ToWord(a.fields[k]))
  {
    var bs, head := EncodeAttachment(a), EncodeI32(a.type_) + EncodeU32(a.flags);
    assert bs[0..4] == EncodeI32(a.type_) && bs[4..8] == EncodeU32(a.flags);
    assert bs == head + EncodeAll(EncodeI32, a.fields) + [];
    I32sAt(head, a.fields, [], 0);
    hide WordAt, EncodeAttachment, EncodeAll;
    WordIs(bs, 0, 4, ToWord(a.type_));
    WordIs(bs, 4, 4, a.flags);
    forall k: nat | k < 8 ensures WordAt(bs, 8 + k * 4, 4, ToWord(a.fields[k])) { I32sAt(head, a.fields, [], k); }
  }

  /** A dependency: its type, its seven fields and its view offset. */
  lemma DependencyLaidOut(d: Dependency)
    requires |d.fields| == 7
    ensures var bs := EncodeDependency(d);
            && |bs| == 36 && WordAt(bs, 0, 4, ToWord(d.type_)) && WordAt(bs, 32, 4, ToWord(d.viewOffset))
            && forall k: nat | k < 7 :: WordAt(bs, 4 + k * 4, 4, d.fields[k])
  {
    var bs, head, last := EncodeDependency(d), EncodeI32(d.type_), EncodeI32(d.viewOffset);
    assert bs[0..4] == head;
    assert bs == head + EncodeAll(EncodeU32, d.fields) + last;
    U32sAt(head, d.fields, last, 0);
    assert bs[32..36] == last;
    hide WordAt, EncodeDependency, EncodeAll;
    WordIs(bs, 0, 4, ToWord(d.type_));
    WordIs(bs, 32, 4, ToWord(d.viewOffset));
    forall k: nat | k < 7 ensures WordAt(bs, 4 + k * 4, 4, d.fields[k]) { U32sAt(head, d.fields, last, k); }
  }

  /** An attachment reference: its type, attachment, layout and aspects. */
  lemma ReferenceLaidOut(a: AttachmentReference)
    ensures var bs := EncodeReference(a);
            && WordAt(bs, 0, 4, ToWord(a.type_)) && WordAt(bs, 4, 4, a.attachment)
            && WordAt(bs, 8, 4, ToWord(a.layout)) && WordAt(bs, 12, 4, a.aspects)
  {
    var bs := EncodeReference(a);
    hide WordAt;
    assert bs[0..4] == EncodeI32(a.type_) && bs[4..8] == EncodeU32(a.attachment) && bs[8..12] == EncodeI32(a.layout)
           && bs[12..16] == EncodeU32(a.aspects);
    WordIs(bs, 0, 4, ToWord(a.type_));
    WordIs(bs, 4, 4, a.attachment);
    WordIs(bs, 8, 4, ToWord(a.layout));
    WordIs(bs, 12, 4, a.aspects);
  }

  /** A subpass: four words, its chain, the arrays of its input and colour attachments, the flagged arrays, and
      the preserved attachments. */
  lemma SubpassLaidOut(s: Subpass)
    requires SubpassOk(s)
    ensures var bs, chain := EncodeSubpass(s), EncodeChain(RenderPass2, s.chain, 0).value;
            && 16 + |chain| <= |bs| && WordAt(bs, 0, 4, ToWord(s.type_)) && WordAt(bs, 4, 4, s.flags)
            && WordAt(bs, 8, 4, ToWord(s.bindPoint)) && WordAt(bs, 12, 4, s.viewMask)
            && bs[16..] == chain + EncodeArray(EncodeReference, s.inputs) + EncodeArray(EncodeReference, s.colors)
                           + (if s.resolves.Some? then Le(1, 4) + EncodeAll(EncodeReference, s.resolves.value) else Le(0, 4))
                           + (if s.depth.Some? then Le(1, 4) + EncodeReference(s.depth.value) else Le(0, 4))
                           + EncodeArray(EncodeU32, s.preserves)
  {
    var chain := EncodeChain(RenderPass2, s.chain, 0).value;
    hide WordAt, EncodeArray, EncodeChain, EncodeReference, EncodeAll, EncodeResolves, EncodeDepth;
    FourWords(ToWord(s.type_), s.flags, ToWord(s.bindPoint), s.viewMask, chain + EncodeSubpassTail(s));
    Flat(chain, EncodeArray(EncodeReference, s.inputs), EncodeArray(EncodeReference, s.colors), EncodeResolves(s.resolves),
         EncodeDepth(s.depth), EncodeArray(EncodeU32, s.preserves));
    FlagsAre(s);
  }

  lemma FlagsAre(s: Subpass)
    ensures EncodeResolves(s.resolves)
            == if s.resolves.Some? then Le(1, 4) + EncodeAll(EncodeReference, s.resolves.value) else Le(0, 4)
    ensures EncodeDepth(s.depth) == if s.depth.Some? then Le(1, 4) + EncodeReference(s.depth.value) else Le(0, 4)
  {
  }

  lemma FourWords(a: U32, b: U32, c: U32, d: U32, tail: Bytes)
    ensures var bs := EncodeU32(a) + (EncodeU32(b) + (EncodeU32(c) + (EncodeU32(d) + tail)));
            && WordAt(bs, 0, 4, a) && WordAt(bs, 4, 4, b) && WordAt(bs, 8, 4, c) && WordAt(bs, 12, 4, d)
            && |bs| == 16 + |tail| && bs[16..] == tail
  {
    var bs := EncodeU32(a) + (EncodeU32(b) + (EncodeU32(c) + (EncodeU32(d) + tail)));
    hide WordAt, Le;
    assert bs[0..4] == EncodeU32(a) && bs[4..8] == EncodeU32(b) && bs[8..12] == EncodeU32(c) && bs[12..16] == EncodeU32(d);
    WordIs(bs, 0, 4, a);
    WordIs(bs, 4, 4, b);
    WordIs(bs, 8, 4, c);
    WordIs(bs, 12, 4, d);
  }

  lemma TwoWords(a: U32, b: U32, tail: Bytes)
    ensures var bs := EncodeU32(a) + (EncodeU32(b) + tail);
            WordAt(bs, 0, 4, a) && WordAt(bs, 4, 4, b) && |bs| == 8 + |tail| && bs[8..] == tail
  {
    var bs := EncodeU32(a) + (EncodeU32(b) + tail);
    hide WordAt, Le;
    assert bs[0..4] == EncodeU32(a) && bs[4..8] == EncodeU32(b);
    WordIs(bs, 0, 4, a);
    WordIs(bs, 4, 4, b);
  }

  lemma Flat(a: Bytes, b: Bytes, c: Bytes, d: Bytes, e: Bytes, f: Bytes)
    ensures a + (b + (c + (d + (e + f)))) == a + b + c + d + e + f
  {
  }

  lemma FlatFive(a: Bytes, b: Bytes, c: Bytes, d: Bytes, e: Bytes)
    ensures a + (b + (c + (d + e))) == a + b + c + d + e
  {
  }

  /** A description: its type, its flags, its chain and its four arrays. */
  lemma InfoLaidOut(c: CreateInfo)
    requires InfoOk(c)
    ensures var bs, chain := EncodeInfo(c).value, EncodeChain(RenderPass, c.chain, 0).value;
            && WordAt(bs, 0, 4, ToWord(c.type_)) && WordAt(bs, 4, 4, c.flags)
            && bs[8..] == chain + EncodeArray(EncodeAttachment, c.attachments) + EncodeArray(EncodeSubpass, c.subpasses)
                          + EncodeArray(EncodeDependency, c.dependencies) + EncodeArray(EncodeU32, c.masks)
  {
    var chain := EncodeChain(RenderPass, c.chain, 0).value;
    hide WordAt, EncodeArray, EncodeChain;
    TwoWords(ToWord(c.type_), c.flags, chain + EncodeLists(c));
    FlatFive(chain, EncodeArray(EncodeAttachment, c.attachments), EncodeArray(EncodeSubpass, c.subpasses),
             EncodeArray(EncodeDependency, c.dependencies), EncodeArray(EncodeU32, c.masks));
  }
}
