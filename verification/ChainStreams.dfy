/** Writing chains to a writer and reading them from a reader, in place. */
module ChainStreams {
  import opened Limits
  import opened Options
  import opened Wire
  import opened PNextChain

  // ---------------------------------------------------------------------------
  // Loops over arrays
  // ---------------------------------------------------------------------------

  lemma {:induction false} AllSnoc<T>(encode: T -> Bytes, xs: seq<T>, x: T)
    ensures EncodeAll(encode, xs + [x]) == EncodeAll(encode, xs) + encode(x)
    decreases |xs|
  {
    if xs == [] {
      assert xs + [x] == [x] && [x][1..] == [];
      assert encode(x) + [] == encode(x) && [] + encode(x) == encode(x);
    } else {
      assert (xs + [x])[0] == xs[0] && (xs + [x])[1..] == xs[1..] + [x];
      AllSnoc(encode, xs[1..], x);
      assert encode(xs[0]) + (EncodeAll(encode, xs[1..]) + encode(x)) == EncodeAll(encode, xs) + encode(x);
    }
  }

  /** One more element of an array being written. */
  lemma NextWritten<T>(encode: T -> Bytes, xs: seq<T>, i: nat, start: Bytes)
    requires i < |xs|
    ensures start + EncodeAll(encode, xs[..i]) + encode(xs[i]) == start + EncodeAll(encode, xs[..i + 1])
  {
    assert xs[..i + 1] == xs[..i] + [xs[i]];
    AllSnoc(encode, xs[..i], xs[i]);
  }

  method WriteU32s(w: Writer, xs: seq<U32>)
    modifies w
    ensures w.data == old(w.data) + EncodeAll(EncodeU32, xs)
  {
    for i := 0 to |xs|
      invariant w.data == old(w.data) + EncodeAll(EncodeU32, xs[..i])
    {
      NextWritten(EncodeU32, xs, i, old(w.data));
      w.U32(xs[i]);
    }
    assert xs[..|xs|] == xs;
  }

  method WriteU64s(w: Writer, xs: seq<U64>)
    modifies w
    ensures w.data == old(w.data) + EncodeAll(EncodeU64, xs)
  {
    for i := 0 to |xs|
      invariant w.data == old(w.data) + EncodeAll(EncodeU64, xs[..i])
    {
      NextWritten(EncodeU64, xs, i, old(w.data));
      w.U64(xs[i]);
    }
    assert xs[..|xs|] == xs;
  }

  method WriteI32s(w: Writer, xs: seq<I32>)
    modifies w
    ensures w.data == old(w.data) + EncodeAll(EncodeI32, xs)
  {
    for i := 0 to |xs|
      invariant w.data == old(w.data) + EncodeAll(EncodeI32, xs[..i])
    {
      NextWritten(EncodeI32, xs, i, old(w.data));
      w.I32(xs[i]);
    }
    assert xs[..|xs|] == xs;
  }

  method WriteU32Array(w: Writer, xs: seq<U32>)
    requires |xs| <= MAX_ARRAY_ELEMENTS
    modifies w
    ensures w.data == old(w.data) + EncodeArray(EncodeU32, xs)
  {
    w.U32(|xs|);
    WriteU32s(w, xs);
  }

  method WriteU64Array(w: Writer, xs: seq<U64>)
    requires |xs| <= MAX_ARRAY_ELEMENTS
    modifies w
    ensures w.data == old(w.data) + EncodeArray(EncodeU64, xs)
  {
    w.U32(|xs|);
    WriteU64s(w, xs);
  }

  method WriteI32Array(w: Writer, xs: seq<I32>)
    requires |xs| <= MAX_ARRAY_ELEMENTS
    modifies w
    ensures w.data == old(w.data) + EncodeArray(EncodeI32, xs)
  {
    w.U32(|xs|);
    WriteI32s(w, xs);
  }

  /** What an array being read amounts to: the elements so far before those still to come. */
  function After<T>(xs: seq<T>, parsed: Parsed<seq<T>>): Parsed<seq<T>> {
    match parsed
    case None => None
    case Some((ys, rest)) => Some((xs + ys, rest))
  }

  lemma AfterNothing<T>(parsed: Parsed<seq<T>>)
    ensures After([], parsed) == parsed
  {
    if parsed.Some? { assert [] + parsed.value.0 == parsed.value.0; }
  }

  /** One more element of an array being read. */
  lemma NextRead<T>(parse: Bytes -> Parsed<T>, xs: seq<T>, n: nat, input: Bytes)
    requires n > 0
    ensures After(xs, ParseAll(parse, n, input))
            == match parse(input)
               case None => None
               case Some((x, rest)) => After(xs + [x], ParseAll(parse, n - 1, rest))
  {
    var parsed := ParseAll(parse, n, input);
    if parsed.Some? {
      var (x, rest) := parse(input).value;
      var (ys, end) := ParseAll(parse, n - 1, rest).value;
      assert xs + ([x] + ys) == xs + [x] + ys;
    }
  }

  lemma NoneLeft<T>(parse: Bytes -> Parsed<T>, xs: seq<T>, input: Bytes)
    ensures After(xs, ParseAll(parse, 0, input)) == Some((xs, input))
  {
    assert xs + [] == xs;
  }

  method ReadU32s(r: Reader, n: nat) returns (xs: seq<U32>)
    requires r.Valid() && !r.failed
    modifies r
    ensures r.Valid()
    ensures r.failed <==> ParseAll(ParseU32, n, old(r.Rest())).None?
    ensures !r.failed ==> ParseAll(ParseU32, n, old(r.Rest())) == Some((xs, r.Rest()))
  {
    ghost var input := r.Rest();
    xs := [];
    AfterNothing(ParseAll(ParseU32, n, input));
    for i := 0 to n
      invariant r.Valid()
      invariant ParseAll(ParseU32, n, input) == if r.failed then None else After(xs, ParseAll(ParseU32, n - i, r.Rest()))
    {
      if !r.failed { NextRead(ParseU32, xs, n - i, r.Rest()); }
      var x := r.U32();
      xs := xs + [x];
    }
    assert xs + [] == xs;
  }

  method ReadU64s(r: Reader, n: nat) returns (xs: seq<U64>)
    requires r.Valid() && !r.failed
    modifies r
    ensures r.Valid()
    ensures r.failed <==> ParseAll(ParseU64, n, old(r.Rest())).None?
    ensures !r.failed ==> ParseAll(ParseU64, n, old(r.Rest())) == Some((xs, r.Rest()))
  {
    ghost var input := r.Rest();
    xs := [];
    AfterNothing(ParseAll(ParseU64, n, input));
    for i := 0 to n
      invariant r.Valid()
      invariant ParseAll(ParseU64, n, input) == if r.failed then None else After(xs, ParseAll(ParseU64, n - i, r.Rest()))
    {
      if !r.failed { NextRead(ParseU64, xs, n - i, r.Rest()); }
      var x := r.U64();
      xs := xs + [x];
    }
    assert xs + [] == xs;
  }

  method ReadI32s(r: Reader, n: nat) returns (xs: seq<I32>)
    requires r.Valid() && !r.failed
    modifies r
    ensures r.Valid()
    ensures r.failed <==> ParseAll(ParseI32, n, old(r.Rest())).None?
    ensures !r.failed ==> ParseAll(ParseI32, n, old(r.Rest())) == Some((xs, r.Rest()))
  {
    ghost var input := r.Rest();
    xs := [];
    AfterNothing(ParseAll(ParseI32, n, input));
    for i := 0 to n
      invariant r.Valid()
      invariant ParseAll(ParseI32, n, input) == if r.failed then None else After(xs, ParseAll(ParseI32, n - i, r.Rest()))
    {
      if !r.failed { NextRead(ParseI32, xs, n - i, r.Rest()); }
      var x := r.I32();
      xs := xs + [x];
    }
    assert xs + [] == xs;
  }

  /** The reader holds what a parser returned, or the read is refused. */
  ghost predicate Reads<T(!new)>(ok: bool, x: T, rest: Bytes, parsed: Parsed<T>) {
    (ok <==> parsed.Some?) && (ok ==> parsed == Some((x, rest)))
  }

  method ReadU32Array(r: Reader) returns (ok: bool, xs: seq<U32>)
    requires r.Valid() && !r.failed
    modifies r
    ensures r.Valid() && (ok ==> !r.failed)
    ensures Reads(ok, xs, r.Rest(), ParseBoundedArray(ParseU32, old(r.Rest())))
  {
    xs := [];
    var n := r.U32();
    if r.failed || n > MAX_ARRAY_ELEMENTS { return false, xs; }
    xs := ReadU32s(r, n);
    ok := !r.failed;
  }

  method ReadU64Array(r: Reader) returns (ok: bool, xs: seq<U64>)
    requires r.Valid() && !r.failed
    modifies r
    ensures r.Valid() && (ok ==> !r.failed)
    ensures Reads(ok, xs, r.Rest(), ParseBoundedArray(ParseU64, old(r.Rest())))
  {
    xs := [];
    var n := r.U32();
    if r.failed || n > MAX_ARRAY_ELEMENTS { return false, xs; }
    xs := ReadU64s(r, n);
    ok := !r.failed;
  }

  method ReadI32Array(r: Reader) returns (ok: bool, xs: seq<I32>)
    requires r.Valid() && !r.failed
    modifies r
    ensures r.Valid() && (ok ==> !r.failed)
    ensures Reads(ok, xs, r.Rest(), ParseBoundedArray(ParseI32, old(r.Rest())))
  {
    xs := [];
    var n := r.U32();
    if r.failed || n > MAX_ARRAY_ELEMENTS { return false, xs; }
    xs := ReadI32s(r, n);
    ok := !r.failed;
  }

  // ---------------------------------------------------------------------------
  // Structures inside nodes
  // ---------------------------------------------------------------------------

  method WriteReference(w: Writer, a: AttachmentReference)
    modifies w
    ensures w.data == old(w.data) + EncodeReference(a)
  {
    w.I32(a.type_);
    w.U32(a.attachment);
    w.I32(a.layout);
    w.U32(a.aspects);
  }

  method ReadReference(r: Reader) returns (ok: bool, a: AttachmentReference)
    requires r.Valid() && !r.failed
    modifies r
    ensures r.Valid() && (ok ==> !r.failed)
    ensures Reads(ok, a, r.Rest(), ParseReference(old(r.Rest())))
  {
    var type_ := r.I32();
    var attachment := r.U32();
    var layout := r.I32();
    var aspects := r.U32();
    a := AttachmentReference(type_, false, attachment, layout, aspects);
    ok := !r.failed && type_ == ATTACHMENT_REFERENCE_2;
  }

  method WriteAspects(w: Writer, xs: seq<AspectReference>)
    requires |xs| <= MAX_ARRAY_ELEMENTS
    modifies w
    ensures w.data == old(w.data) + EncodeArray(EncodeAspect, xs)
  {
    w.U32(|xs|);
    ghost var start := w.data;
    for i := 0 to |xs|
      invariant w.data == start + EncodeAll(EncodeAspect, xs[..i])
    {
      NextWritten(EncodeAspect, xs, i, start);
      ghost var before := w.data;
      w.U32(xs[i].subpass);
      w.U32(xs[i].index);
      w.U32(xs[i].aspects);
      assert w.data == before + EncodeAspect(xs[i]);
    }
    assert xs[..|xs|] == xs;
  }

  method ReadAspects(r: Reader) returns (ok: bool, xs: seq<AspectReference>)
    requires r.Valid() && !r.failed
    modifies r
    ensures r.Valid() && (ok ==> !r.failed)
    ensures Reads(ok, xs, r.Rest(), ParseBoundedArray(ParseAspect, old(r.Rest())))
  {
    xs := [];
    var n := r.U32();
    if r.failed || n > MAX_ARRAY_ELEMENTS { return false, xs; }
    ghost var input := r.Rest();
    AfterNothing(ParseAll(ParseAspect, n, input));
    for i := 0 to n
      invariant r.Valid()
      invariant ParseAll(ParseAspect, n, input)
                == if r.failed then None else After(xs, ParseAll(ParseAspect, n - i, r.Rest()))
    {
      if !r.failed { NextRead(ParseAspect, xs, n - i, r.Rest()); }
      var subpass := r.U32();
      var index := r.U32();
      var aspects := r.U32();
      xs := xs + [AspectReference(subpass, index, aspects)];
    }
    assert xs + [] == xs;
    ok := !r.failed;
  }

  method WriteImage(w: Writer, i: FramebufferImage) returns (ok: bool)
    modifies w
    ensures ok == ImageOk(i)
    ensures ok ==> w.data == old(w.data) + EncodeImage(i)
  {
    hide EncodeU32, EncodeArray;
    if i.type_ != FRAMEBUFFER_ATTACHMENT_IMAGE_INFO || i.extended || |i.formats| > MAX_ARRAY_ELEMENTS { return false; }
    w.U32(i.flags);
    w.U32(i.usage);
    w.U32(i.width);
    w.U32(i.height);
    w.U32(i.layers);
    WriteI32Array(w, i.formats);
    ok := true;
  }

  method WriteImages(w: Writer, xs: seq<FramebufferImage>) returns (ok: bool)
    requires |xs| <= MAX_ARRAY_ELEMENTS
    modifies w
    ensures ok <==> forall i | 0 <= i < |xs| :: ImageOk(xs[i])
    ensures ok ==> w.data == old(w.data) + EncodeArray(EncodeImage, xs)
  {
    assert EncodeAll(EncodeImage, xs[..0]) == [];
    hide EncodeImage, EncodeAll, ImageOk, EncodeU32;
    w.U32(|xs|);
    ghost var start := w.data;
    for i := 0 to |xs|
      invariant forall j | 0 <= j < i :: ImageOk(xs[j])
      invariant w.data == start + EncodeAll(EncodeImage, xs[..i])
    {
      NextWritten(EncodeImage, xs, i, start);
      var written := WriteImage(w, xs[i]);
      if !written { return false; }
    }
    assert xs[..|xs|] == xs;
    ok := true;
  }

  method ReadImage(r: Reader) returns (ok: bool, i: FramebufferImage)
    requires r.Valid() && !r.failed
    modifies r
    ensures r.Valid() && (ok ==> !r.failed)
    ensures Reads(ok, i, r.Rest(), ParseImage(old(r.Rest())))
  {
    var flags := r.U32();
    var usage := r.U32();
    var width := r.U32();
    var height := r.U32();
    var layers := r.U32();
    i := FramebufferImage(FRAMEBUFFER_ATTACHMENT_IMAGE_INFO, false, flags, usage, width, height, layers, []);
    if r.failed { return false, i; }
    var read, formats := ReadI32Array(r);
    i := i.(formats := formats);
    ok := read;
  }

  method ReadImages(r: Reader) returns (ok: bool, xs: seq<FramebufferImage>)
    requires r.Valid() && !r.failed
    modifies r
    ensures r.Valid() && (ok ==> !r.failed)
    ensures Reads(ok, xs, r.Rest(), ParseBoundedArray(ParseImage, old(r.Rest())))
  {
    xs := [];
    var n := r.U32();
    if r.failed || n > MAX_ARRAY_ELEMENTS { return false, xs; }
    ghost var input := r.Rest();
    AfterNothing(ParseAll(ParseImage, n, input));
    for i := 0 to n
      invariant r.Valid() && !r.failed
      invariant ParseAll(ParseImage, n, input) == After(xs, ParseAll(ParseImage, n - i, r.Rest()))
    {
      NextRead(ParseImage, xs, n - i, r.Rest());
      var read, image := ReadImage(r);
      if !read { return false, xs; }
      xs := xs + [image];
    }
    assert xs + [] == xs;
    ok := true;
  }

  // ---------------------------------------------------------------------------
  // Nodes
  // ---------------------------------------------------------------------------

  method WriteMultiview(w: Writer, n: Node, depth: nat) returns (ok: bool)
    requires n.Multiview?
    modifies w
    ensures ok == Writable(n, depth)
    ensures ok ==> w.data == old(w.data) + EncodeNode(n, depth)
  {
    if |n.viewMasks| > MAX_ARRAY_ELEMENTS || |n.viewOffsets| > MAX_ARRAY_ELEMENTS
       || |n.correlationMasks| > MAX_ARRAY_ELEMENTS { return false; }
    WriteU32Array(w, n.viewMasks);
    WriteI32Array(w, n.viewOffsets);
    WriteU32Array(w, n.correlationMasks);
    ok := true;
  }

  method WriteShadingRate(w: Writer, n: Node, depth: nat) returns (ok: bool)
    requires n.ShadingRate?
    modifies w
    ensures ok == Writable(n, depth)
    ensures ok ==> w.data == old(w.data) + EncodeNode(n, depth)
  {
    if depth >= MAX_DEPTH { return false; }
    w.U32(if n.attachment.Some? then 1 else 0);
    if n.attachment.Some? {
      if n.attachment.value.extended { return false; }
      WriteReference(w, n.attachment.value);
    }
    w.U32(n.width);
    w.U32(n.height);
    ok := true;
  }

  method WriteTimeline(w: Writer, n: Node, depth: nat) returns (ok: bool)
    requires n.TimelineSubmit?
    modifies w
    ensures ok == Writable(n, depth)
    ensures ok ==> w.data == old(w.data) + EncodeNode(n, depth)
  {
    if |n.waits| > MAX_ARRAY_ELEMENTS || |n.signals| > MAX_ARRAY_ELEMENTS { return false; }
    WriteU64Array(w, n.waits);
    WriteU64Array(w, n.signals);
    ok := true;
  }

  method WriteNode(w: Writer, n: Node, depth: nat) returns (ok: bool)
    modifies w
    ensures ok == Writable(n, depth)
    ensures ok ==> w.data == old(w.data) + EncodeNode(n, depth)
  {
    ok := true;
    match n {
      case Features(_, words) => WriteU32s(w, words);
      case ProtectedFeatures(_) => w.U32(0);
      case InputAspects(references) =>
        if |references| > MAX_ARRAY_ELEMENTS { return false; }
        WriteAspects(w, references);
      case Multiview(_, _, _) => ok := WriteMultiview(w, n, depth);
      case ShadingRate(_, _, _) => ok := WriteShadingRate(w, n, depth);
      case ImageFormats(formats) =>
        if |formats| > MAX_ARRAY_ELEMENTS { return false; }
        WriteI32Array(w, formats);
      case FramebufferImages(images) =>
        if depth >= MAX_DEPTH || |images| > MAX_ARRAY_ELEMENTS { return false; }
        ok := WriteImages(w, images);
      case AttachmentViews(views) =>
        if |views| > MAX_ARRAY_ELEMENTS { return false; }
        WriteU64Array(w, views);
      case TimelineSubmit(_, _) => ok := WriteTimeline(w, n, depth);
      case LoaderInfo => ok := false;
      case Foreign(_) => ok := false;
    }
  }

  method ReadMultiview(r: Reader) returns (ok: bool, node: Node)
    requires r.Valid() && !r.failed
    modifies r
    ensures r.Valid() && (ok ==> !r.failed)
    ensures Reads(ok, node, r.Rest(), ParseMultiview(old(r.Rest())))
  {
    node := LoaderInfo;
    var ok1, views := ReadU32Array(r);
    if !ok1 { return false, node; }
    var ok2, offsets := ReadI32Array(r);
    if !ok2 { return false, node; }
    var ok3, masks := ReadU32Array(r);
    if !ok3 { return false, node; }
    return true, Multiview(views, offsets, masks);
  }

  method ReadTimeline(r: Reader) returns (ok: bool, node: Node)
    requires r.Valid() && !r.failed
    modifies r
    ensures r.Valid() && (ok ==> !r.failed)
    ensures Reads(ok, node, r.Rest(), ParseTimeline(old(r.Rest())))
  {
    node := LoaderInfo;
    var ok1, waits := ReadU64Array(r);
    if !ok1 { return false, node; }
    var ok2, signals := ReadU64Array(r);
    if !ok2 { return false, node; }
    return true, TimelineSubmit(waits, signals);
  }

  method ReadShadingRate(r: Reader) returns (ok: bool, node: Node)
    requires r.Valid() && !r.failed
    modifies r
    ensures r.Valid() && (ok ==> !r.failed)
    ensures Reads(ok, node, r.Rest(), ParseShadingRate(old(r.Rest())))
  {
    node := LoaderInfo;
    var present := r.U32();
    if r.failed || present > 1 { return false, node; }
    var attachment: Option<AttachmentReference> := None;
    if present == 1 {
      var read, a := ReadReference(r);
      if !read { return false, node; }
      attachment := Some(a);
    }
    var width := r.U32();
    var height := r.U32();
    return !r.failed, ShadingRate(attachment, width, height);
  }

  method ReadNode(r: Reader, live: set<U64>, type_: I32, depth: nat) returns (ok: bool, node: Node)
    requires r.Valid() && !r.failed
    modifies r
    ensures r.Valid() && (ok ==> !r.failed)
    ensures Reads(ok, node, r.Rest(), ParseNode(live, type_, depth, old(r.Rest())))
  {
    node := LoaderInfo;
    if FeatureWords(type_) > 0 {
      var words := ReadU32s(r, FeatureWords(type_));
      return !r.failed, Features(type_, words);
    } else if type_ == PROTECTED_MEMORY_FEATURES {
      var enabled := r.U32();
      return !r.failed, ProtectedFeatures(enabled);
    } else if type_ == INPUT_ATTACHMENT_ASPECT_CREATE_INFO {
      var read, references := ReadAspects(r);
      return read, InputAspects(references);
    } else if type_ == MULTIVIEW_CREATE_INFO {
      ok, node := ReadMultiview(r);
    } else if type_ == SHADING_RATE_ATTACHMENT_INFO {
      if depth >= MAX_DEPTH { return false, node; }
      ok, node := ReadShadingRate(r);
    } else if type_ == IMAGE_FORMAT_LIST_CREATE_INFO {
      var read, formats := ReadI32Array(r);
      return read, ImageFormats(formats);
    } else if type_ == FRAMEBUFFER_ATTACHMENTS_CREATE_INFO {
      if depth >= MAX_DEPTH { return false, node; }
      var read, images := ReadImages(r);
      return read, FramebufferImages(images);
    } else if type_ == ATTACHMENT_BEGIN_INFO {
      var read, views := ReadU64Array(r);
      return read, AttachmentViews(Resolved(live, views));
    } else if type_ == TIMELINE_SEMAPHORE_SUBMIT_INFO {
      ok, node := ReadTimeline(r);
    } else {
      ok := false;
    }
  }

  // ---------------------------------------------------------------------------
  // Chains
  // ---------------------------------------------------------------------------

  method CollectChain(context: Context, chain: seq<Node>) returns (nodes: Option<seq<Node>>)
    ensures nodes == Collect(context, chain)
  {
    var kept: seq<Node> := [];
    for i := 0 to |chain|
      invariant Collect(context, chain[..i]) == Some(kept)
    {
      var n := chain[i];
      assert chain[..i + 1][..i] == chain[..i];
      if !Skipped(context, n) {
        if |kept| == MAX_NODES || !Allowed(context, TypeOf(n)) {
          CollectStops(context, chain, i + 1);
          return None;
        }
        for j := 0 to |kept|
          invariant forall k | 0 <= k < j :: TypeOf(kept[k]) != TypeOf(n)
        {
          if TypeOf(kept[j]) == TypeOf(n) {
            CollectStops(context, chain, i + 1);
            return None;
          }
        }
        kept := kept + [n];
      }
    }
    assert chain[..|chain|] == chain;
    nodes := Some(kept);
  }

  lemma {:induction false} CollectStops(context: Context, chain: seq<Node>, n: nat)
    requires n <= |chain| && Collect(context, chain[..n]).None?
    ensures Collect(context, chain).None?
    decreases |chain|
  {
    if n == |chain| {
      assert chain[..n] == chain;
    } else {
      assert chain[..|chain| - 1][..n] == chain[..n];
      CollectStops(context, chain[..|chain| - 1], n);
    }
  }

  lemma Regroup(a: Bytes, b: Bytes, c: Bytes, d: Bytes)
    ensures a + (b + (c + d)) == a + (b + c) + d
  {
  }

  lemma Unpad(a: Bytes, b: Bytes)
    ensures a + (b + []) == [] + (a + b)
  {
  }

  function Tagged(n: Node, depth: nat): Bytes
    requires Writable(n, depth)
  {
    EncodeI32(TypeOf(n)) + EncodeNode(n, depth)
  }

  lemma {:induction false} NodesSnoc(nodes: seq<Node>, n: Node, depth: nat)
    requires AllWritable(nodes, depth) && Writable(n, depth)
    ensures AllWritable(nodes + [n], depth)
    ensures EncodeNodes(nodes + [n], depth) == EncodeNodes(nodes, depth) + Tagged(n, depth)
    decreases |nodes|
  {
    var all := nodes + [n];
    assert AllWritable(all, depth);
    if nodes == [] {
      assert all[1..] == [] && all[0] == n;
      Unpad(EncodeI32(TypeOf(n)), EncodeNode(n, depth));
    } else {
      assert all[0] == nodes[0] && all[1..] == nodes[1..] + [n];
      NodesSnoc(nodes[1..], n, depth);
      Regroup(EncodeI32(TypeOf(nodes[0])), EncodeNode(nodes[0], depth), EncodeNodes(nodes[1..], depth), Tagged(n, depth));
    }
  }

  lemma RegroupThree(start: Bytes, e: Bytes, a: Bytes, b: Bytes)
    ensures start + e + a + b == start + (e + (a + b))
  {
  }

  lemma NextNodeWritten(nodes: seq<Node>, i: nat, depth: nat, start: Bytes)
    requires i < |nodes| && AllWritable(nodes[..i], depth) && Writable(nodes[i], depth)
    ensures AllWritable(nodes[..i + 1], depth)
    ensures start + EncodeNodes(nodes[..i], depth) + EncodeI32(TypeOf(nodes[i])) + EncodeNode(nodes[i], depth)
            == start + EncodeNodes(nodes[..i + 1], depth)
  {
    hide Writable, AllWritable, EncodeNode, EncodeNodes, EncodeI32, TypeOf;
    NodesSnoc(nodes[..i], nodes[i], depth);
    assert nodes[..i + 1] == nodes[..i] + [nodes[i]];
    RegroupThree(start, EncodeNodes(nodes[..i], depth), EncodeI32(TypeOf(nodes[i])), EncodeNode(nodes[i], depth));
  }

  method WriteNodes(w: Writer, nodes: seq<Node>, depth: nat) returns (ok: bool)
    modifies w
    ensures ok == AllWritable(nodes, depth)
    ensures ok ==> w.data == old(w.data) + EncodeNodes(nodes, depth)
  {
    for i := 0 to |nodes|
      invariant AllWritable(nodes[..i], depth) && w.data == old(w.data) + EncodeNodes(nodes[..i], depth)
    {
      w.I32(TypeOf(nodes[i]));
      ok := WriteNode(w, nodes[i], depth);
      if !ok { return; }
      NextNodeWritten(nodes, i, depth, old(w.data));
    }
    assert nodes[..|nodes|] == nodes;
    ok := true;
  }

  /** A chain is written whole or not at all. */
  method WriteChain(w: Writer, context: Context, chain: seq<Node>, depth: nat) returns (ok: bool)
    modifies w
    ensures ok == EncodeChain(context, chain, depth).Some?
    ensures w.data == if ok then old(w.data) + EncodeChain(context, chain, depth).value else old(w.data)
  {
    if depth > MAX_DEPTH { return false; }
    var collected := CollectChain(context, chain);
    if collected.None? { return false; }
    var nodes := collected.value;
    assert |nodes| <= MAX_NODES by { CollectExactly(context, chain); }
    var encoded := new Writer();
    encoded.U32(|nodes|);
    assert encoded.data == EncodeU32(|nodes|);
    ok := WriteNodes(encoded, nodes, depth);
    if ok {
      assert EncodeChain(context, chain, depth) == Some(encoded.data);
      w.Append(encoded);
    }
  }

  /** What the chain being read amounts to, with `left` nodes to come in `rest`. */
  ghost predicate Reading(live: set<U64>, context: Context, depth: nat, whole: Parsed<seq<Node>>, nodes: seq<Node>,
                          seen: set<I32>, left: nat, rest: Bytes)
  {
    whole == After(nodes, ParseNodes(live, context, depth, left, seen, rest))
  }

  /** The reader refuses the next node. */
  lemma NodeRefused(live: set<U64>, context: Context, depth: nat, whole: Parsed<seq<Node>>, nodes: seq<Node>,
                    seen: set<I32>, left: nat, rest: Bytes)
    requires left > 0 && Reading(live, context, depth, whole, nodes, seen, left, rest)
    requires match ParseI32(rest)
             case None => true
             case Some((type_, fields)) =>
               !Allowed(context, type_) || type_ in seen || ParseNode(live, type_, depth, fields).None?
    ensures whole.None?
  {
  }

  /** The reader takes the next node. */
  lemma NodeTaken(live: set<U64>, context: Context, depth: nat, whole: Parsed<seq<Node>>, nodes: seq<Node>,
                  seen: set<I32>, left: nat, rest: Bytes, type_: I32, fields: Bytes, node: Node, after: Bytes)
    requires left > 0 && Reading(live, context, depth, whole, nodes, seen, left, rest)
    requires ParseI32(rest) == Some((type_, fields)) && Allowed(context, type_) && type_ !in seen
    requires ParseNode(live, type_, depth, fields) == Some((node, after))
    ensures Reading(live, context, depth, whole, nodes + [node], seen + {type_}, left - 1, after)
  {
    var more := ParseNodes(live, context, depth, left - 1, seen + {type_}, after);
    if more.Some? {
      assert nodes + ([node] + more.value.0) == nodes + [node] + more.value.0;
    }
  }

  method ReadNodes(r: Reader, live: set<U64>, context: Context, depth: nat, n: nat) returns (ok: bool, nodes: seq<Node>)
    requires r.Valid() && !r.failed
    modifies r
    ensures r.Valid() && (ok ==> !r.failed)
    ensures Reads(ok, nodes, r.Rest(), ParseNodes(live, context, depth, n, {}, old(r.Rest())))
  {
    nodes := [];
    var seen: seq<I32> := [];
    ghost var whole := ParseNodes(live, context, depth, n, {}, r.Rest());
    ghost var types: set<I32> := {};
    AfterNothing(whole);
    for i := 0 to n
      invariant r.Valid() && !r.failed
      invariant forall t :: t in seen <==> t in types
      invariant Reading(live, context, depth, whole, nodes, types, n - i, r.Rest())
    {
      ghost var rest := r.Rest();
      var type_ := r.I32();
      if r.failed || !Allowed(context, type_) || type_ in seen {
        NodeRefused(live, context, depth, whole, nodes, types, n - i, rest);
        return false, nodes;
      }
      ghost var fields := r.Rest();
      var read, node := ReadNode(r, live, type_, depth);
      if !read {
        NodeRefused(live, context, depth, whole, nodes, types, n - i, rest);
        return false, nodes;
      }
      NodeTaken(live, context, depth, whole, nodes, types, n - i, rest, type_, fields, node, r.Rest());
      nodes := nodes + [node];
      seen := seen + [type_];
      types := types + {type_};
    }
    assert nodes + [] == nodes;
    ok := true;
  }

  method ReadChain(r: Reader, live: set<U64>, context: Context, depth: nat) returns (ok: bool, nodes: seq<Node>)
    requires r.Valid() && !r.failed
    modifies r
    ensures r.Valid() && (ok ==> !r.failed)
    ensures Reads(ok, nodes, r.Rest(), ParseChain(live, context, depth, old(r.Rest())))
  {
    nodes := [];
    if depth > MAX_DEPTH { return false, nodes; }
    var n := r.U32();
    if r.failed || n > MAX_NODES { return false, nodes; }
    ok, nodes := ReadNodes(r, live, context, depth, n);
  }

  /** The two sides together: a chain the client writes is the chain the server reads, node by node. */
  method WrittenChainIsRead(context: Context, chain: seq<Node>, depth: nat, live: set<U64>)
    returns (written: bool, read: bool, nodes: seq<Node>, left: nat)
    requires NodesReadable(chain)
    ensures written == EncodeChain(context, chain, depth).Some?
    ensures written ==> read && nodes == AllReceived(live, Kept(context, chain)) && left == 0
  {
    var writer := new Writer();
    written := WriteChain(writer, context, chain, depth);
    var reader := new Reader(writer.data);
    if written {
      ChainRoundTrip(live, context, chain, depth, []);
      assert [] + EncodeChain(context, chain, depth).value == writer.data;
      assert writer.data + [] == writer.data;
    }
    read, nodes := ReadChain(reader, live, context, depth);
    left := reader.Remaining();
  }
}
