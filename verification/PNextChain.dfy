/** Extension chains on the wire.

    A chain is written only if every node is allowed in its context, no type repeats, and there
    are at most 16 nodes; it is encoded aside first, so a rejected chain leaves no trace. The
    reader enforces the same bounds on bytes it does not trust.
  */
module PNextChain {
  import opened Limits
  import opened Options
  import opened Wire

  const MAX_NODES: nat := 16
  const MAX_DEPTH: nat := 4

  const LOADER_DEVICE_CREATE_INFO: I32 := 48
  const MULTIVIEW_CREATE_INFO: I32 := 1000053000
  const MULTIVIEW_FEATURES: I32 := 1000053001
  const IMAGELESS_FRAMEBUFFER_FEATURES: I32 := 1000108000
  const FRAMEBUFFER_ATTACHMENTS_CREATE_INFO: I32 := 1000108001
  const FRAMEBUFFER_ATTACHMENT_IMAGE_INFO: I32 := 1000108002
  const ATTACHMENT_BEGIN_INFO: I32 := 1000108003
  const ATTACHMENT_REFERENCE_2: I32 := 1000109001
  const INPUT_ATTACHMENT_ASPECT_CREATE_INFO: I32 := 1000117001
  const PROTECTED_MEMORY_FEATURES: I32 := 1000145001
  const IMAGE_FORMAT_LIST_CREATE_INFO: I32 := 1000147000
  const YCBCR_CONVERSION_FEATURES: I32 := 1000156004
  const TIMELINE_SEMAPHORE_FEATURES: I32 := 1000207000
  const TIMELINE_SEMAPHORE_SUBMIT_INFO: I32 := 1000207003
  const SHADING_RATE_ATTACHMENT_INFO: I32 := 1000226000
  const SHADING_RATE_FEATURES: I32 := 1000226003
  const SEPARATE_DEPTH_STENCIL_FEATURES: I32 := 1000241000
  const HOST_QUERY_RESET_FEATURES: I32 := 1000261000
  const SYNCHRONIZATION_2_FEATURES: I32 := 1000314007

  /** Where a chain hangs. */
  datatype Context = DeviceCreate | RenderPass | RenderPass2 | ImageCreate | FramebufferCreate | RenderPassBegin | Submit

  datatype AspectReference = AspectReference(subpass: U32, index: U32, aspects: U32)

  /** `extended` says that the structure has a chain of its own, which is never sent. */
  datatype AttachmentReference = AttachmentReference(type_: I32, extended: bool, attachment: U32, layout: I32, aspects: U32)

  datatype FramebufferImage = FramebufferImage(
    type_: I32, extended: bool, flags: U32, usage: U32, width: U32, height: U32, layers: U32, formats: seq<I32>)

  datatype Node =
    | LoaderInfo
    | Features(type_: I32, words: seq<U32>)
    | ProtectedFeatures(enabled: U32)
    | InputAspects(references: seq<AspectReference>)
    | Multiview(viewMasks: seq<U32>, viewOffsets: seq<I32>, correlationMasks: seq<U32>)
    | ShadingRate(attachment: Option<AttachmentReference>, width: U32, height: U32)
    | ImageFormats(formats: seq<I32>)
    | FramebufferImages(images: seq<FramebufferImage>)
    | AttachmentViews(views: seq<U64>)
    | TimelineSubmit(waits: seq<U64>, signals: seq<U64>)
    | Foreign(type_: I32)

  /** The number of feature bits of the structures that are forwarded as they are. */
  function FeatureWords(type_: I32): nat {
    if type_ in {MULTIVIEW_FEATURES, SHADING_RATE_FEATURES} then 3
    else if type_ in {IMAGELESS_FRAMEBUFFER_FEATURES, YCBCR_CONVERSION_FEATURES, TIMELINE_SEMAPHORE_FEATURES,
                      SEPARATE_DEPTH_STENCIL_FEATURES, HOST_QUERY_RESET_FEATURES, SYNCHRONIZATION_2_FEATURES} then 1
    else 0
  }

  function TypeOf(n: Node): I32 {
    match n
    case LoaderInfo => LOADER_DEVICE_CREATE_INFO
    case Features(type_, _) => type_
    case ProtectedFeatures(_) => PROTECTED_MEMORY_FEATURES
    case InputAspects(_) => INPUT_ATTACHMENT_ASPECT_CREATE_INFO
    case Multiview(_, _, _) => MULTIVIEW_CREATE_INFO
    case ShadingRate(_, _, _) => SHADING_RATE_ATTACHMENT_INFO
    case ImageFormats(_) => IMAGE_FORMAT_LIST_CREATE_INFO
    case FramebufferImages(_) => FRAMEBUFFER_ATTACHMENTS_CREATE_INFO
    case AttachmentViews(_) => ATTACHMENT_BEGIN_INFO
    case TimelineSubmit(_, _) => TIMELINE_SEMAPHORE_SUBMIT_INFO
    case Foreign(type_) => type_
  }

  predicate Allowed(context: Context, type_: I32) {
    match context
    case DeviceCreate => FeatureWords(type_) > 0 || type_ == PROTECTED_MEMORY_FEATURES
    case RenderPass => type_ == INPUT_ATTACHMENT_ASPECT_CREATE_INFO || type_ == MULTIVIEW_CREATE_INFO
    case RenderPass2 => type_ == SHADING_RATE_ATTACHMENT_INFO
    case ImageCreate => type_ == IMAGE_FORMAT_LIST_CREATE_INFO
    case FramebufferCreate => type_ == FRAMEBUFFER_ATTACHMENTS_CREATE_INFO
    case RenderPassBegin => type_ == ATTACHMENT_BEGIN_INFO
    case Submit => type_ == TIMELINE_SEMAPHORE_SUBMIT_INFO
  }

  /** A node's constructor is the one its type has; `Foreign` is any type without one. */
  predicate Shaped(n: Node) {
    && (n.Features? ==> |n.words| == FeatureWords(n.type_) && n.words != [])
    && (n.Foreign? ==> n.type_ != LOADER_DEVICE_CREATE_INFO && forall c: Context :: !Allowed(c, n.type_))
  }

  // ---------------------------------------------------------------------------
  // Which chains are accepted
  // ---------------------------------------------------------------------------

  predicate Skipped(context: Context, n: Node) {
    context.DeviceCreate? && n.LoaderInfo?
  }

  predicate Repeats(nodes: seq<Node>, n: Node) {
    exists i :: 0 <= i < |nodes| && TypeOf(nodes[i]) == TypeOf(n)
  }

  /** The walk along the chain. */
  function Collect(context: Context, chain: seq<Node>): Option<seq<Node>> {
    if chain == [] then Some([])
    else
      var n := chain[|chain| - 1];
      match Collect(context, chain[..|chain| - 1])
      case None => None
      case Some(nodes) =>
        if Skipped(context, n) then Some(nodes)
        else if |nodes| == MAX_NODES || !Allowed(context, TypeOf(n)) || Repeats(nodes, n) then None
        else Some(nodes + [n])
  }

  function Kept(context: Context, chain: seq<Node>): seq<Node> {
    if chain == [] then []
    else
      Kept(context, chain[..|chain| - 1])
      + (if Skipped(context, chain[|chain| - 1]) then [] else [chain[|chain| - 1]])
  }

  predicate Acceptable(context: Context, nodes: seq<Node>) {
    && |nodes| <= MAX_NODES
    && (forall i | 0 <= i < |nodes| :: Allowed(context, TypeOf(nodes[i])))
    && forall i, j | 0 <= i < j < |nodes| :: TypeOf(nodes[i]) != TypeOf(nodes[j])
  }

  lemma AcceptableSnoc(context: Context, nodes: seq<Node>, n: Node)
    ensures Acceptable(context, nodes + [n])
            <==> Acceptable(context, nodes) && |nodes| < MAX_NODES && Allowed(context, TypeOf(n)) && !Repeats(nodes, n)
  {
    var all := nodes + [n];
    assert all[|nodes|] == n && forall i | 0 <= i < |nodes| :: all[i] == nodes[i];
    if Acceptable(context, all) {
      assert forall i | 0 <= i < |nodes| :: TypeOf(all[i]) != TypeOf(all[|nodes|]);
    }
  }

  /** A chain is collected exactly when, without the loader's own nodes, it has at most 16 nodes, all
      allowed and of different types. */
  lemma {:induction false} CollectExactly(context: Context, chain: seq<Node>)
    ensures Collect(context, chain)
            == if Acceptable(context, Kept(context, chain)) then Some(Kept(context, chain)) else None
    decreases |chain|
  {
    if chain != [] {
      var n, front := chain[|chain| - 1], Kept(context, chain[..|chain| - 1]);
      CollectExactly(context, chain[..|chain| - 1]);
      if Skipped(context, n) {
        assert front + [] == front;
      } else {
        AcceptableSnoc(context, front, n);
      }
    }
  }

  // ---------------------------------------------------------------------------
  // Node fields
  // ---------------------------------------------------------------------------

  function EncodeAspect(a: AspectReference): Bytes {
    EncodeU32(a.subpass) + (EncodeU32(a.index) + EncodeU32(a.aspects))
  }

  function ParseAspect(input: Bytes): Parsed<AspectReference> {
    match ParseU32(input)
    case None => None
    case Some((subpass, r1)) =>
      match ParseU32(r1)
      case None => None
      case Some((index, r2)) =>
        match ParseU32(r2)
        case None => None
        case Some((aspects, r3)) => Some((AspectReference(subpass, index, aspects), r3))
  }

  lemma AspectRoundTrip(a: AspectReference, rest: Bytes)
    ensures ParseAspect(EncodeAspect(a) + rest) == Some((a, rest))
  {
    var t2 := EncodeU32(a.aspects);
    var t1 := EncodeU32(a.index) + t2;
    Peel(EncodeU32(a.subpass), t1, rest);
    Peel(EncodeU32(a.index), t2, rest);
    U32RoundTrip(a.subpass, t1 + rest);
    U32RoundTrip(a.index, t2 + rest);
    U32RoundTrip(a.aspects, rest);
  }

  predicate ReferenceOk(a: AttachmentReference) {
    a.type_ == ATTACHMENT_REFERENCE_2 && !a.extended
  }

  function EncodeReference(a: AttachmentReference): (bs: Bytes)
    ensures |bs| == 16
  {
    EncodeI32(a.type_) + (EncodeU32(a.attachment) + (EncodeI32(a.layout) + EncodeU32(a.aspects)))
  }

  function ParseReference(input: Bytes): Parsed<AttachmentReference> {
    match ParseI32(input)
    case None => None
    case Some((type_, r1)) =>
      match ParseU32(r1)
      case None => None
      case Some((attachment, r2)) =>
        match ParseI32(r2)
        case None => None
        case Some((layout, r3)) =>
          match ParseU32(r3)
          case None => None
          case Some((aspects, r4)) =>
            if type_ != ATTACHMENT_REFERENCE_2 then None
            else Some((AttachmentReference(type_, false, attachment, layout, aspects), r4))
  }

  lemma ReferenceRoundTrip(a: AttachmentReference, rest: Bytes)
    requires ReferenceOk(a)
    ensures ParseReference(EncodeReference(a) + rest) == Some((a, rest))
  {
    var t3 := EncodeU32(a.aspects);
    var t2 := EncodeI32(a.layout) + t3;
    var t1 := EncodeU32(a.attachment) + t2;
    Peel(EncodeI32(a.type_), t1, rest);
    Peel(EncodeU32(a.attachment), t2, rest);
    Peel(EncodeI32(a.layout), t3, rest);
    I32RoundTrip(a.type_, t1 + rest);
    U32RoundTrip(a.attachment, t2 + rest);
    I32RoundTrip(a.layout, t3 + rest);
    U32RoundTrip(a.aspects, rest);
  }

  predicate ImageOk(i: FramebufferImage) {
    i.type_ == FRAMEBUFFER_ATTACHMENT_IMAGE_INFO && !i.extended && |i.formats| <= MAX_ARRAY_ELEMENTS
  }

  function EncodeImage(i: FramebufferImage): Bytes {
    EncodeU32(i.flags) + (EncodeU32(i.usage) + (EncodeU32(i.width) + (EncodeU32(i.height)
      + (EncodeU32(i.layers) + if |i.formats| <= MAX_ARRAY_ELEMENTS then EncodeArray(EncodeI32, i.formats) else []))))
  }

  function ParseImage(input: Bytes): Parsed<FramebufferImage> {
    match ParseU32(input)
    case None => None
    case Some((flags, r1)) =>
      match ParseU32(r1)
      case None => None
      case Some((usage, r2)) =>
        match ParseU32(r2)
        case None => None
        case Some((width, r3)) =>
          match ParseU32(r3)
          case None => None
          case Some((height, r4)) =>
            match ParseU32(r4)
            case None => None
            case Some((layers, r5)) =>
              match ParseBoundedArray(ParseI32, r5)
              case None => None
              case Some((formats, r6)) =>
                Some((FramebufferImage(FRAMEBUFFER_ATTACHMENT_IMAGE_INFO, false, flags, usage, width, height, layers, formats), r6))
  }

  lemma ImageRoundTrip(i: FramebufferImage, rest: Bytes)
    requires ImageOk(i)
    ensures ParseImage(EncodeImage(i) + rest) == Some((i, rest))
  {
    var t5 := EncodeArray(EncodeI32, i.formats);
    var t4 := EncodeU32(i.layers) + t5;
    var t3 := EncodeU32(i.height) + t4;
    var t2 := EncodeU32(i.width) + t3;
    var t1 := EncodeU32(i.usage) + t2;
    Peel(EncodeU32(i.flags), t1, rest);
    Peel(EncodeU32(i.usage), t2, rest);
    Peel(EncodeU32(i.width), t3, rest);
    Peel(EncodeU32(i.height), t4, rest);
    Peel(EncodeU32(i.layers), t5, rest);
    U32RoundTrip(i.flags, t1 + rest);
    U32RoundTrip(i.usage, t2 + rest);
    U32RoundTrip(i.width, t3 + rest);
    U32RoundTrip(i.height, t4 + rest);
    U32RoundTrip(i.layers, t5 + rest);
    I32sRoundTrip(i.formats, rest);
  }

  /** The node's nested counts are small, and nothing nested has a chain of its own. */
  predicate Writable(n: Node, depth: nat) {
    match n
    case Features(_, _) => true
    case ProtectedFeatures(_) => true
    case InputAspects(references) => |references| <= MAX_ARRAY_ELEMENTS
    case Multiview(views, offsets, masks) =>
      |views| <= MAX_ARRAY_ELEMENTS && |offsets| <= MAX_ARRAY_ELEMENTS && |masks| <= MAX_ARRAY_ELEMENTS
    case ShadingRate(attachment, _, _) => depth < MAX_DEPTH && (attachment.Some? ==> !attachment.value.extended)
    case ImageFormats(formats) => |formats| <= MAX_ARRAY_ELEMENTS
    case FramebufferImages(images) =>
      depth < MAX_DEPTH && |images| <= MAX_ARRAY_ELEMENTS && forall i | 0 <= i < |images| :: ImageOk(images[i])
    case AttachmentViews(views) => |views| <= MAX_ARRAY_ELEMENTS
    case TimelineSubmit(waits, signals) => |waits| <= MAX_ARRAY_ELEMENTS && |signals| <= MAX_ARRAY_ELEMENTS
    case LoaderInfo => false
    case Foreign(_) => false
  }

  function EncodeNode(n: Node, depth: nat): Bytes
    requires Writable(n, depth)
  {
    match n
    case Features(_, words) => EncodeAll(EncodeU32, words)
    case ProtectedFeatures(_) => EncodeU32(0)
    case InputAspects(references) => EncodeArray(EncodeAspect, references)
    case Multiview(views, offsets, masks) =>
      EncodeArray(EncodeU32, views) + (EncodeArray(EncodeI32, offsets) + EncodeArray(EncodeU32, masks))
    case ShadingRate(attachment, width, height) =>
      (if attachment.Some? then EncodeU32(1) + EncodeReference(attachment.value) else EncodeU32(0))
      + EncodeExtent(width, height)
    case ImageFormats(formats) => EncodeArray(EncodeI32, formats)
    case FramebufferImages(images) => EncodeArray(EncodeImage, images)
    case AttachmentViews(views) => EncodeArray(EncodeU64, views)
    case TimelineSubmit(waits, signals) => EncodeArray(EncodeU64, waits) + EncodeArray(EncodeU64, signals)
  }

  /** Handles that name nothing are read as null. */
  function Resolved(live: set<U64>, views: seq<U64>): (r: seq<U64>)
    ensures |r| == |views|
  {
    seq(|views|, i requires 0 <= i < |views| => if views[i] in live then views[i] else 0)
  }

  function EncodeExtent(width: U32, height: U32): Bytes {
    EncodeU32(width) + EncodeU32(height)
  }

  lemma ExtentRoundTrip(width: U32, height: U32, rest: Bytes)
    ensures ParseExtent(EncodeExtent(width, height) + rest) == Some(((width, height), rest))
  {
    Peel(EncodeU32(width), EncodeU32(height), rest);
    U32RoundTrip(width, EncodeU32(height) + rest);
    U32RoundTrip(height, rest);
  }

  function ParseExtent(input: Bytes): Parsed<(U32, U32)> {
    match ParseU32(input)
    case None => None
    case Some((width, r1)) =>
      match ParseU32(r1)
      case None => None
      case Some((height, r2)) => Some(((width, height), r2))
  }

  function ParseShadingRate(input: Bytes): Parsed<Node> {
    match ParseU32(input)
    case None => None
    case Some((present, r1)) =>
      if present > 1 then None
      else if present == 1 then
        match ParseReference(r1)
        case None => None
        case Some((a, r2)) =>
          match ParseExtent(r2)
          case None => None
          case Some(((width, height), r3)) => Some((ShadingRate(Some(a), width, height), r3))
      else
        match ParseExtent(r1)
        case None => None
        case Some(((width, height), r2)) => Some((ShadingRate(None, width, height), r2))
  }

  function ParseMultiview(input: Bytes): Parsed<Node> {
    match ParseBoundedArray(ParseU32, input)
    case None => None
    case Some((views, r1)) =>
      match ParseBoundedArray(ParseI32, r1)
      case None => None
      case Some((offsets, r2)) =>
        match ParseBoundedArray(ParseU32, r2)
        case None => None
        case Some((masks, r3)) => Some((Multiview(views, offsets, masks), r3))
  }

  function ParseTimeline(input: Bytes): Parsed<Node> {
    match ParseBoundedArray(ParseU64, input)
    case None => None
    case Some((waits, r1)) =>
      match ParseBoundedArray(ParseU64, r1)
      case None => None
      case Some((signals, r2)) => Some((TimelineSubmit(waits, signals), r2))
  }

  function MapNode<T>(parsed: Parsed<T>, node: T -> Node): Parsed<Node> {
    match parsed
    case None => None
    case Some((x, rest)) => Some((node(x), rest))
  }

  function ParseNode(live: set<U64>, type_: I32, depth: nat, input: Bytes): Parsed<Node> {
    if FeatureWords(type_) > 0 then
      MapNode(ParseAll(ParseU32, FeatureWords(type_), input), words => Features(type_, words))
    else if type_ == PROTECTED_MEMORY_FEATURES then MapNode(ParseU32(input), enabled => ProtectedFeatures(enabled))
    else if type_ == INPUT_ATTACHMENT_ASPECT_CREATE_INFO then
      MapNode(ParseBoundedArray(ParseAspect, input), references => InputAspects(references))
    else if type_ == MULTIVIEW_CREATE_INFO then ParseMultiview(input)
    else if type_ == SHADING_RATE_ATTACHMENT_INFO then (if depth >= MAX_DEPTH then None else ParseShadingRate(input))
    else if type_ == IMAGE_FORMAT_LIST_CREATE_INFO then
      MapNode(ParseBoundedArray(ParseI32, input), formats => ImageFormats(formats))
    else if type_ == FRAMEBUFFER_ATTACHMENTS_CREATE_INFO then
      (if depth >= MAX_DEPTH then None
       else MapNode(ParseBoundedArray(ParseImage, input), images => FramebufferImages(images)))
    else if type_ == ATTACHMENT_BEGIN_INFO then
      MapNode(ParseBoundedArray(ParseU64, input), views => AttachmentViews(Resolved(live, views)))
    else if type_ == TIMELINE_SEMAPHORE_SUBMIT_INFO then ParseTimeline(input)
    else None
  }

  /** What the other side gets: protected memory is never enabled, and handles are resolved. */
  function Received(live: set<U64>, n: Node): Node {
    match n
    case ProtectedFeatures(_) => ProtectedFeatures(0)
    case AttachmentViews(views) => AttachmentViews(Resolved(live, views))
    case _ => n
  }

  /** An attachment reference inside a node is written as it is, but read only with its own type. */
  predicate Readable(n: Node) {
    n.ShadingRate? && n.attachment.Some? ==> n.attachment.value.type_ == ATTACHMENT_REFERENCE_2
  }

  lemma AspectsRoundTrip(xs: seq<AspectReference>, rest: Bytes)
    requires |xs| <= MAX_ARRAY_ELEMENTS
    ensures ParseBoundedArray(ParseAspect, EncodeArray(EncodeAspect, xs) + rest) == Some((xs, rest))
  {
    forall x, more | x in Elements(xs) ensures ParseAspect(EncodeAspect(x) + more) == Some((x, more)) {
      AspectRoundTrip(x, more);
    }
    BoundedArrayRoundTrip(EncodeAspect, ParseAspect, xs, rest);
  }

  lemma ImagesRoundTrip(xs: seq<FramebufferImage>, rest: Bytes)
    requires |xs| <= MAX_ARRAY_ELEMENTS && forall i | 0 <= i < |xs| :: ImageOk(xs[i])
    ensures ParseBoundedArray(ParseImage, EncodeArray(EncodeImage, xs) + rest) == Some((xs, rest))
  {
    forall x, more | x in Elements(xs) ensures ParseImage(EncodeImage(x) + more) == Some((x, more)) {
      ImageRoundTrip(x, more);
    }
    BoundedArrayRoundTrip(EncodeImage, ParseImage, xs, rest);
  }

  lemma FeaturesRoundTrip(words: seq<U32>, rest: Bytes)
    ensures ParseAll(ParseU32, |words|, EncodeAll(EncodeU32, words) + rest) == Some((words, rest))
  {
    forall x: U32, more | x in Elements(words) ensures ParseU32(EncodeU32(x) + more) == Some((x, more)) {
      U32RoundTrip(x, more);
    }
    AllRoundTrip(EncodeU32, ParseU32, words, rest);
  }

  lemma MultiviewRoundTrip(n: Node, rest: Bytes)
    requires n.Multiview? && Writable(n, 0)
    ensures ParseMultiview(EncodeNode(n, 0) + rest) == Some((n, rest))
  {
    var t2 := EncodeArray(EncodeU32, n.correlationMasks);
    var t1 := EncodeArray(EncodeI32, n.viewOffsets) + t2;
    Peel(EncodeArray(EncodeU32, n.viewMasks), t1, rest);
    Peel(EncodeArray(EncodeI32, n.viewOffsets), t2, rest);
    U32sRoundTrip(n.viewMasks, t1 + rest);
    I32sRoundTrip(n.viewOffsets, t2 + rest);
    U32sRoundTrip(n.correlationMasks, rest);
  }

  lemma ShadingRateRoundTrip(n: Node, depth: nat, rest: Bytes)
    requires n.ShadingRate? && Writable(n, depth) && Readable(n)
    ensures ParseShadingRate(EncodeNode(n, depth) + rest) == Some((n, rest))
  {
    var b1 := EncodeExtent(n.width, n.height) + rest;
    ExtentRoundTrip(n.width, n.height, rest);
    if n.attachment.Some? {
      var b0 := EncodeReference(n.attachment.value) + b1;
      assert EncodeNode(n, depth) + rest == EncodeU32(1) + b0;
      U32RoundTrip(1, b0);
      ReferenceRoundTrip(n.attachment.value, b1);
    } else {
      assert EncodeNode(n, depth) + rest == EncodeU32(0) + b1;
      U32RoundTrip(0, b1);
    }
  }

  lemma TimelineRoundTrip(n: Node, rest: Bytes)
    requires n.TimelineSubmit? && Writable(n, 0)
    ensures ParseTimeline(EncodeNode(n, 0) + rest) == Some((n, rest))
  {
    var t1 := EncodeArray(EncodeU64, n.signals);
    Peel(EncodeArray(EncodeU64, n.waits), t1, rest);
    U64sRoundTrip(n.waits, t1 + rest);
    U64sRoundTrip(n.signals, rest);
  }

  lemma NodeRoundTrip(live: set<U64>, n: Node, depth: nat, rest: Bytes)
    requires Shaped(n) && Writable(n, depth) && Readable(n)
    ensures ParseNode(live, TypeOf(n), depth, EncodeNode(n, depth) + rest) == Some((Received(live, n), rest))
  {
    match n
    case Features(_, words) => FeaturesRoundTrip(words, rest);
    case ProtectedFeatures(_) => U32RoundTrip(0, rest);
    case InputAspects(references) => AspectsRoundTrip(references, rest);
    case Multiview(_, _, _) => MultiviewRoundTrip(n, rest);
    case ShadingRate(_, _, _) => ShadingRateRoundTrip(n, depth, rest);
    case ImageFormats(formats) => I32sRoundTrip(formats, rest);
    case FramebufferImages(images) => ImagesRoundTrip(images, rest);
    case AttachmentViews(views) => U64sRoundTrip(views, rest);
    case TimelineSubmit(_, _) => TimelineRoundTrip(n, rest);
  }

  // ---------------------------------------------------------------------------
  // Chains
  // ---------------------------------------------------------------------------

  predicate AllWritable(nodes: seq<Node>, depth: nat) {
    forall i | 0 <= i < |nodes| :: Writable(nodes[i], depth)
  }

  function EncodeNodes(nodes: seq<Node>, depth: nat): Bytes
    requires AllWritable(nodes, depth)
  {
    if nodes == [] then []
    else EncodeI32(TypeOf(nodes[0])) + (EncodeNode(nodes[0], depth) + EncodeNodes(nodes[1..], depth))
  }

  function EncodeChain(context: Context, chain: seq<Node>, depth: nat): Option<Bytes> {
    if depth > MAX_DEPTH then None
    else
      match Collect(context, chain)
      case None => None
      case Some(nodes) =>
        if |nodes| > MAX_NODES || !AllWritable(nodes, depth) then None
        else Some(EncodeU32(|nodes|) + EncodeNodes(nodes, depth))
  }

  lemma WrittenAcceptable(context: Context, chain: seq<Node>, depth: nat)
    requires EncodeChain(context, chain, depth).Some?
    ensures Acceptable(context, Kept(context, chain))
  {
    CollectExactly(context, chain);
  }

  function ParseNodes(live: set<U64>, context: Context, depth: nat, n: nat, seen: set<I32>, input: Bytes): Parsed<seq<Node>> {
    if n == 0 then Some(([], input))
    else
      match ParseI32(input)
      case None => None
      case Some((type_, r1)) =>
        if !Allowed(context, type_) || type_ in seen then None
        else
          match ParseNode(live, type_, depth, r1)
          case None => None
          case Some((node, r2)) =>
            match ParseNodes(live, context, depth, n - 1, seen + {type_}, r2)
            case None => None
            case Some((nodes, r3)) => Some(([node] + nodes, r3))
  }

  function ParseChain(live: set<U64>, context: Context, depth: nat, input: Bytes): Parsed<seq<Node>> {
    if depth > MAX_DEPTH then None
    else
      match ParseU32(input)
      case None => None
      case Some((n, rest)) => if n > MAX_NODES then None else ParseNodes(live, context, depth, n, {}, rest)
  }

  function AllReceived(live: set<U64>, nodes: seq<Node>): (r: seq<Node>)
    ensures |r| == |nodes|
  {
    seq(|nodes|, i requires 0 <= i < |nodes| => Received(live, nodes[i]))
  }

  predicate NodesReadable(nodes: seq<Node>) {
    forall i | 0 <= i < |nodes| :: Shaped(nodes[i]) && Readable(nodes[i])
  }

  function Prepend(node: Node, parsed: Parsed<seq<Node>>): Parsed<seq<Node>> {
    match parsed
    case None => None
    case Some((nodes, rest)) => Some(([node] + nodes, rest))
  }

  /** One step of the reader over one written node. */
  lemma NextNode(live: set<U64>, context: Context, depth: nat, node: Node, n: nat, seen: set<I32>, input: Bytes, rest: Bytes)
    requires Shaped(node) && Writable(node, depth) && Readable(node)
    requires Allowed(context, TypeOf(node)) && TypeOf(node) !in seen
    requires input == EncodeI32(TypeOf(node)) + (EncodeNode(node, depth) + rest)
    ensures ParseNodes(live, context, depth, n + 1, seen, input)
            == Prepend(Received(live, node), ParseNodes(live, context, depth, n, seen + {TypeOf(node)}, rest))
  {
    I32RoundTrip(TypeOf(node), EncodeNode(node, depth) + rest);
    NodeRoundTrip(live, node, depth, rest);
  }

  lemma ReceivedSplit(live: set<U64>, nodes: seq<Node>)
    requires nodes != []
    ensures [Received(live, nodes[0])] + AllReceived(live, nodes[1..]) == AllReceived(live, nodes)
  {
  }

  lemma EncodedSplit(nodes: seq<Node>, depth: nat, rest: Bytes)
    requires nodes != [] && AllWritable(nodes, depth) && AllWritable(nodes[1..], depth)
    ensures EncodeNodes(nodes, depth) + rest
            == EncodeI32(TypeOf(nodes[0])) + (EncodeNode(nodes[0], depth) + (EncodeNodes(nodes[1..], depth) + rest))
  {
  }

  lemma TailOk(context: Context, depth: nat, nodes: seq<Node>, seen: set<I32>)
    requires nodes != [] && Acceptable(context, nodes) && AllWritable(nodes, depth) && NodesReadable(nodes)
    requires forall i | 0 <= i < |nodes| :: TypeOf(nodes[i]) !in seen
    ensures var tail := nodes[1..];
            && Acceptable(context, tail) && AllWritable(tail, depth) && NodesReadable(tail)
            && forall i | 0 <= i < |tail| :: TypeOf(tail[i]) !in seen + {TypeOf(nodes[0])}
  {
    var tail := nodes[1..];
    assert forall i | 0 <= i < |tail| :: tail[i] == nodes[i + 1];
  }

  lemma {:induction false} NodesRoundTrip(live: set<U64>, context: Context, depth: nat, nodes: seq<Node>,
                                          seen: set<I32>, input: Bytes, rest: Bytes)
    requires Acceptable(context, nodes) && AllWritable(nodes, depth) && NodesReadable(nodes)
    requires forall i | 0 <= i < |nodes| :: TypeOf(nodes[i]) !in seen
    requires input == EncodeNodes(nodes, depth) + rest
    ensures ParseNodes(live, context, depth, |nodes|, seen, input) == Some((AllReceived(live, nodes), rest))
    decreases |nodes|
  {
    if nodes == [] {
      assert input == rest;
    } else {
      var n, tail := nodes[0], nodes[1..];
      TailOk(context, depth, nodes, seen);
      EncodedSplit(nodes, depth, rest);
      var after := EncodeNodes(tail, depth) + rest;
      NextNode(live, context, depth, n, |tail|, seen, input, after);
      NodesRoundTrip(live, context, depth, tail, seen + {TypeOf(n)}, after, rest);
      ReceivedSplit(live, nodes);
    }
  }

  /** Reading a chain that was written gives its nodes and leaves exactly what follows. */
  lemma ChainRoundTrip(live: set<U64>, context: Context, chain: seq<Node>, depth: nat, rest: Bytes)
    requires EncodeChain(context, chain, depth).Some? && NodesReadable(chain)
    ensures ParseChain(live, context, depth, EncodeChain(context, chain, depth).value + rest)
            == Some((AllReceived(live, Kept(context, chain)), rest))
  {
    CollectExactly(context, chain);
    KeptReadable(context, chain);
    var nodes := Kept(context, chain);
    var body := EncodeNodes(nodes, depth) + rest;
    assert EncodeChain(context, chain, depth).value + rest == EncodeU32(|nodes|) + body;
    U32RoundTrip(|nodes|, body);
    NodesRoundTrip(live, context, depth, nodes, {}, body, rest);
  }

  lemma {:induction false} KeptReadable(context: Context, chain: seq<Node>)
    requires NodesReadable(chain)
    ensures NodesReadable(Kept(context, chain))
    decreases |chain|
  {
    if chain != [] {
      KeptReadable(context, chain[..|chain| - 1]);
    }
  }

  /** What a reader accepts is always a chain a writer could have sent: at most 16 nodes, allowed in
      the context, no type twice. */
  lemma {:induction false} ParsedNodesAcceptable(live: set<U64>, context: Context, depth: nat, n: nat, seen: set<I32>,
                                                 input: Bytes)
    requires n <= MAX_NODES
    requires ParseNodes(live, context, depth, n, seen, input).Some?
    ensures var nodes := ParseNodes(live, context, depth, n, seen, input).value.0;
            && |nodes| == n && Acceptable(context, nodes)
            && forall i | 0 <= i < |nodes| :: TypeOf(nodes[i]) !in seen
    decreases n
  {
    if n > 0 {
      var (type_, r1) := ParseI32(input).value;
      var (node, r2) := ParseNode(live, type_, depth, r1).value;
      ParsedType(live, type_, depth, r1);
      ParsedNodesAcceptable(live, context, depth, n - 1, seen + {type_}, r2);
    }
  }

  lemma ParsedType(live: set<U64>, type_: I32, depth: nat, input: Bytes)
    requires ParseNode(live, type_, depth, input).Some?
    ensures TypeOf(ParseNode(live, type_, depth, input).value.0) == type_
  {
  }

  lemma ParsedChainAcceptable(live: set<U64>, context: Context, depth: nat, input: Bytes)
    requires ParseChain(live, context, depth, input).Some?
    ensures Acceptable(context, ParseChain(live, context, depth, input).value.0)
  {
    var (n, rest) := ParseU32(input).value;
    ParsedNodesAcceptable(live, context, depth, n, {}, rest);
  }

  /** A shading-rate node is written with any attachment reference, but read back only when the
      reference has its own type: the round trip holds exactly then. */
  lemma ShadingRateReadableExactly(n: Node, depth: nat, rest: Bytes)
    requires n.ShadingRate? && Writable(n, depth)
    ensures ParseShadingRate(EncodeNode(n, depth) + rest) == Some((n, rest)) <==> Readable(n)
  {
    if Readable(n) {
      ShadingRateRoundTrip(n, depth, rest);
    }
  }

  // ---------------------------------------------------------------------------
  // What a reader accepts was written
  // ---------------------------------------------------------------------------

  /** Which nodes a context takes, said of their contents. */
  predicate Takes(context: Context, n: Node) {
    match context
    case DeviceCreate =>
      || n.ProtectedFeatures?
      || (n.Features? && n.type_ in {1000053001, 1000226003} && |n.words| == 3)
      || (n.Features? && n.type_ in {1000108000, 1000156004, 1000207000, 1000241000, 1000261000, 1000314007}
          && |n.words| == 1)
    case RenderPass => n.InputAspects? || n.Multiview?
    case RenderPass2 => n.ShadingRate?
    case ImageCreate => n.ImageFormats?
    case FramebufferCreate => n.FramebufferImages?
    case RenderPassBegin => n.AttachmentViews?
    case Submit => n.TimelineSubmit?
  }

  lemma AllowedExactly(context: Context, n: Node)
    requires Shaped(n)
    ensures Allowed(context, TypeOf(n)) <==> Takes(context, n)
  {
    if n.Foreign? {
      assert forall c: Context :: !Allowed(c, n.type_);
    }
  }

  /** Reading changes nothing about these nodes. */
  predicate Plain(type_: I32) {
    type_ != PROTECTED_MEMORY_FEATURES && type_ != ATTACHMENT_BEGIN_INFO
  }

  lemma ParsedAspect(input: Bytes)
    requires ParseAspect(input).Some?
    ensures var (a, rest) := ParseAspect(input).value; input == EncodeAspect(a) + rest
  {
    ParsedU32(input);
    var (subpass, r1) := ParseU32(input).value;
    ParsedU32(r1);
    var (index, r2) := ParseU32(r1).value;
    ParsedU32(r2);
    var (aspects, r3) := ParseU32(r2).value;
    Peel(EncodeU32(index), EncodeU32(aspects), r3);
    Peel(EncodeU32(subpass), EncodeU32(index) + EncodeU32(aspects), r3);
  }

  lemma ParsedReference(input: Bytes)
    requires ParseReference(input).Some?
    ensures var (a, rest) := ParseReference(input).value; ReferenceOk(a) && input == EncodeReference(a) + rest
  {
    ParsedI32(input);
    var (type_, r1) := ParseI32(input).value;
    ParsedU32(r1);
    var (attachment, r2) := ParseU32(r1).value;
    ParsedI32(r2);
    var (layout, r3) := ParseI32(r2).value;
    ParsedU32(r3);
    var (aspects, r4) := ParseU32(r3).value;
    var t3 := EncodeU32(aspects);
    var t2 := EncodeI32(layout) + t3;
    Peel(EncodeI32(layout), t3, r4);
    Peel(EncodeU32(attachment), t2, r4);
    Peel(EncodeI32(type_), EncodeU32(attachment) + t2, r4);
  }

  lemma ParsedI32s(input: Bytes)
    requires ParseBoundedArray(ParseI32, input).Some?
    ensures var (xs, rest) := ParseBoundedArray(ParseI32, input).value;
            |xs| <= MAX_ARRAY_ELEMENTS && input == EncodeArray(EncodeI32, xs) + rest
  {
    forall i | ParseI32(i).Some? ensures i == EncodeI32(ParseI32(i).value.0) + ParseI32(i).value.1 { ParsedI32(i); }
    BoundedArrayCanonical(EncodeI32, (x: I32) => true, ParseI32, input);
  }

  lemma ParsedU32s(input: Bytes)
    requires ParseBoundedArray(ParseU32, input).Some?
    ensures var (xs, rest) := ParseBoundedArray(ParseU32, input).value;
            |xs| <= MAX_ARRAY_ELEMENTS && input == EncodeArray(EncodeU32, xs) + rest
  {
    forall i | ParseU32(i).Some? ensures i == EncodeU32(ParseU32(i).value.0) + ParseU32(i).value.1 { ParsedU32(i); }
    BoundedArrayCanonical(EncodeU32, (x: U32) => true, ParseU32, input);
  }

  lemma ParsedU64s(input: Bytes)
    requires ParseBoundedArray(ParseU64, input).Some?
    ensures var (xs, rest) := ParseBoundedArray(ParseU64, input).value;
            |xs| <= MAX_ARRAY_ELEMENTS && input == EncodeArray(EncodeU64, xs) + rest
  {
    forall i | ParseU64(i).Some? ensures i == EncodeU64(ParseU64(i).value.0) + ParseU64(i).value.1 { ParsedU64(i); }
    BoundedArrayCanonical(EncodeU64, (x: U64) => true, ParseU64, input);
  }

  lemma ParsedImage(input: Bytes)
    requires ParseImage(input).Some?
    ensures var (i, rest) := ParseImage(input).value; ImageOk(i) && input == EncodeImage(i) + rest
  {
    ParsedU32(input);
    var (flags, r1) := ParseU32(input).value;
    ParsedU32(r1);
    var (usage, r2) := ParseU32(r1).value;
    ParsedU32(r2);
    var (width, r3) := ParseU32(r2).value;
    ParsedU32(r3);
    var (height, r4) := ParseU32(r3).value;
    ParsedU32(r4);
    var (layers, r5) := ParseU32(r4).value;
    ParsedI32s(r5);
    var (formats, r6) := ParseBoundedArray(ParseI32, r5).value;
    var t5 := EncodeArray(EncodeI32, formats);
    var t4 := EncodeU32(layers) + t5;
    var t3 := EncodeU32(height) + t4;
    var t2 := EncodeU32(width) + t3;
    Peel(EncodeU32(layers), t5, r6);
    Peel(EncodeU32(height), t4, r6);
    Peel(EncodeU32(width), t3, r6);
    Peel(EncodeU32(usage), t2, r6);
    Peel(EncodeU32(flags), EncodeU32(usage) + t2, r6);
  }

  lemma ParsedExtent(input: Bytes)
    requires ParseExtent(input).Some?
    ensures var ((width, height), rest) := ParseExtent(input).value; input == EncodeExtent(width, height) + rest
  {
    ParsedU32(input);
    var (width, r1) := ParseU32(input).value;
    ParsedU32(r1);
    Peel(EncodeU32(width), EncodeU32(ParseU32(r1).value.0), ParseU32(r1).value.1);
  }

  lemma ParsedShadingRate(input: Bytes, depth: nat)
    requires ParseShadingRate(input).Some? && depth < MAX_DEPTH
    ensures var (n, rest) := ParseShadingRate(input).value;
            n.ShadingRate? && Readable(n) && Writable(n, depth) && input == EncodeNode(n, depth) + rest
  {
    ParsedU32(input);
    var (present, r1) := ParseU32(input).value;
    if present == 1 {
      ParsedReference(r1);
      var (a, r2) := ParseReference(r1).value;
      ParsedExtent(r2);
      var ((width, height), r3) := ParseExtent(r2).value;
      Peel(EncodeU32(1), EncodeReference(a), r2);
      Peel(EncodeU32(1) + EncodeReference(a), EncodeExtent(width, height), r3);
    } else {
      ParsedExtent(r1);
      var ((width, height), r2) := ParseExtent(r1).value;
      Peel(EncodeU32(0), EncodeExtent(width, height), r2);
    }
  }

  lemma ParsedMultiview(input: Bytes)
    requires ParseMultiview(input).Some?
    ensures var (n, rest) := ParseMultiview(input).value;
            n.Multiview? && Writable(n, 0) && input == EncodeNode(n, 0) + rest
  {
    ParsedU32s(input);
    var (views, r1) := ParseBoundedArray(ParseU32, input).value;
    ParsedI32s(r1);
    var (offsets, r2) := ParseBoundedArray(ParseI32, r1).value;
    ParsedU32s(r2);
    var (masks, r3) := ParseBoundedArray(ParseU32, r2).value;
    var t2 := EncodeArray(EncodeU32, masks);
    Peel(EncodeArray(EncodeI32, offsets), t2, r3);
    Peel(EncodeArray(EncodeU32, views), EncodeArray(EncodeI32, offsets) + t2, r3);
  }

  lemma ParsedTimeline(input: Bytes)
    requires ParseTimeline(input).Some?
    ensures var (n, rest) := ParseTimeline(input).value;
            n.TimelineSubmit? && Writable(n, 0) && input == EncodeNode(n, 0) + rest
  {
    ParsedU64s(input);
    var (waits, r1) := ParseBoundedArray(ParseU64, input).value;
    ParsedU64s(r1);
    var (signals, r2) := ParseBoundedArray(ParseU64, r1).value;
    Peel(EncodeArray(EncodeU64, waits), EncodeArray(EncodeU64, signals), r2);
  }

  lemma ParsedAspects(input: Bytes)
    requires ParseBoundedArray(ParseAspect, input).Some?
    ensures var (xs, rest) := ParseBoundedArray(ParseAspect, input).value;
            |xs| <= MAX_ARRAY_ELEMENTS && input == EncodeArray(EncodeAspect, xs) + rest
  {
    forall i | ParseAspect(i).Some? ensures i == EncodeAspect(ParseAspect(i).value.0) + ParseAspect(i).value.1 {
      ParsedAspect(i);
    }
    BoundedArrayCanonical(EncodeAspect, (x: AspectReference) => true, ParseAspect, input);
  }

  lemma ParsedImages(input: Bytes)
    requires ParseBoundedArray(ParseImage, input).Some?
    ensures var (xs, rest) := ParseBoundedArray(ParseImage, input).value;
            |xs| <= MAX_ARRAY_ELEMENTS && AllOk(ImageOk, xs) && input == EncodeArray(EncodeImage, xs) + rest
  {
    forall i | ParseImage(i).Some?
      ensures ImageOk(ParseImage(i).value.0) && i == EncodeImage(ParseImage(i).value.0) + ParseImage(i).value.1
    {
      ParsedImage(i);
    }
    BoundedArrayCanonical(EncodeImage, ImageOk, ParseImage, input);
  }

  lemma ParsedFeatures(n: nat, input: Bytes)
    requires ParseAll(ParseU32, n, input).Some?
    ensures var (xs, rest) := ParseAll(ParseU32, n, input).value; |xs| == n && input == EncodeAll(EncodeU32, xs) + rest
  {
    forall i | ParseU32(i).Some? ensures i == EncodeU32(ParseU32(i).value.0) + ParseU32(i).value.1 { ParsedU32(i); }
    AllCanonical(EncodeU32, (x: U32) => true, ParseU32, n, input);
  }

  lemma ParsedNode(live: set<U64>, type_: I32, depth: nat, input: Bytes)
    requires ParseNode(live, type_, depth, input).Some? && Plain(type_)
    ensures var (n, rest) := ParseNode(live, type_, depth, input).value;
            && TypeOf(n) == type_ && Shaped(n) && Readable(n) && Writable(n, depth) && input == EncodeNode(n, depth) + rest
  {
    if FeatureWords(type_) > 0 {
      ParsedFeatures(FeatureWords(type_), input);
    } else if type_ == INPUT_ATTACHMENT_ASPECT_CREATE_INFO {
      ParsedAspects(input);
    } else if type_ == MULTIVIEW_CREATE_INFO {
      ParsedMultiview(input);
    } else if type_ == SHADING_RATE_ATTACHMENT_INFO {
      ParsedShadingRate(input, depth);
    } else if type_ == IMAGE_FORMAT_LIST_CREATE_INFO {
      ParsedI32s(input);
    } else if type_ == FRAMEBUFFER_ATTACHMENTS_CREATE_INFO {
      ParsedImages(input);
    } else {
      ParsedTimeline(input);
    }
  }

  lemma {:induction false} ParsedNodes(live: set<U64>, context: Context, depth: nat, n: nat, seen: set<I32>, input: Bytes)
    requires ParseNodes(live, context, depth, n, seen, input).Some?
    requires !context.DeviceCreate? && !context.RenderPassBegin?
    ensures var (nodes, rest) := ParseNodes(live, context, depth, n, seen, input).value;
            && AllWritable(nodes, depth) && NodesReadable(nodes) && input == EncodeNodes(nodes, depth) + rest
    decreases n
  {
    hide ParseI32, ParseNode, Allowed, Shaped, Readable;
    if n > 0 {
      ParsedI32(input);
      var (type_, r1) := ParseI32(input).value;
      PlainThere(context, type_);
      ParsedNode(live, type_, depth, r1);
      var (node, r2) := ParseNode(live, type_, depth, r1).value;
      ParsedNodes(live, context, depth, n - 1, seen + {type_}, r2);
      var (nodes, rest) := ParseNodes(live, context, depth, n - 1, seen + {type_}, r2).value;
      NodeBefore(node, nodes, depth, rest);
    }
  }

  lemma PlainThere(context: Context, type_: I32)
    requires Allowed(context, type_) && !context.DeviceCreate? && !context.RenderPassBegin?
    ensures Plain(type_)
  {
  }

  lemma NodeBefore(node: Node, nodes: seq<Node>, depth: nat, rest: Bytes)
    requires Writable(node, depth) && Shaped(node) && Readable(node) && AllWritable(nodes, depth) && NodesReadable(nodes)
    ensures var all := [node] + nodes;
            && AllWritable(all, depth) && NodesReadable(all)
            && EncodeI32(TypeOf(node)) + (EncodeNode(node, depth) + (EncodeNodes(nodes, depth) + rest))
               == EncodeNodes(all, depth) + rest
  {
    hide Writable, Shaped, Readable, EncodeNode;
    var all := [node] + nodes;
    assert all[1..] == nodes && all[0] == node;
    assert forall i | 0 < i < |all| :: all[i] == nodes[i - 1];
    EncodedSplit(all, depth, rest);
  }

  lemma {:induction false} NothingSkipped(context: Context, chain: seq<Node>)
    requires !context.DeviceCreate?
    ensures Kept(context, chain) == chain
    decreases |chain|
  {
    if chain != [] {
      NothingSkipped(context, chain[..|chain| - 1]);
      assert chain == chain[..|chain| - 1] + [chain[|chain| - 1]];
    }
  }

  lemma NothingResolved(live: set<U64>, context: Context, nodes: seq<Node>)
    requires !context.DeviceCreate? && !context.RenderPassBegin? && Acceptable(context, nodes) && NodesReadable(nodes)
    ensures AllReceived(live, nodes) == nodes
  {
    var received := AllReceived(live, nodes);
    forall i | 0 <= i < |nodes| ensures received[i] == nodes[i] {
      assert Allowed(context, TypeOf(nodes[i])) && Shaped(nodes[i]);
      AllowedExactly(context, nodes[i]);
    }
  }

  /** The reader accepts exactly what the writer writes: where reading changes no node, a chain is read from
      bytes if and only if they begin with its encoding. */
  lemma ChainReadExactly(live: set<U64>, context: Context, depth: nat, input: Bytes, nodes: seq<Node>, rest: Bytes)
    requires !context.DeviceCreate? && !context.RenderPassBegin?
    ensures ParseChain(live, context, depth, input) == Some((nodes, rest))
            <==> NodesReadable(nodes) && EncodeChain(context, nodes, depth).Some?
                 && input == EncodeChain(context, nodes, depth).value + rest
  {
    NothingSkipped(context, nodes);
    CollectExactly(context, nodes);
    if ParseChain(live, context, depth, input) == Some((nodes, rest)) {
      ParsedChainAcceptable(live, context, depth, input);
      ParsedU32(input);
      var (n, body) := ParseU32(input).value;
      ParsedNodesAcceptable(live, context, depth, n, {}, body);
      ParsedNodes(live, context, depth, n, {}, body);
      Peel(EncodeU32(|nodes|), EncodeNodes(nodes, depth), rest);
    }
    if NodesReadable(nodes) && EncodeChain(context, nodes, depth).Some?
       && input == EncodeChain(context, nodes, depth).value + rest {
      ChainRoundTrip(live, context, nodes, depth, rest);
      NothingResolved(live, context, nodes);
    }
  }

  /** The views of a beginning render pass arrive with every handle that names nothing turned to null. */
  lemma ViewsResolve(live: set<U64>, views: seq<U64>, depth: nat, rest: Bytes)
    requires |views| <= MAX_ARRAY_ELEMENTS && depth <= MAX_DEPTH
    ensures EncodeChain(RenderPassBegin, [AttachmentViews(views)], depth).Some?
    ensures var parsed := ParseChain(live, RenderPassBegin, depth,
                                     EncodeChain(RenderPassBegin, [AttachmentViews(views)], depth).value + rest);
            && parsed.Some? && parsed.value.1 == rest && |parsed.value.0| == 1 && parsed.value.0[0].AttachmentViews?
            && |parsed.value.0[0].views| == |views|
            && forall i | 0 <= i < |views| :: parsed.value.0[0].views[i] == if views[i] in live then views[i] else 0
  {
    var n := AttachmentViews(views);
    KeptOne(RenderPassBegin, n);
    CollectExactly(RenderPassBegin, [n]);
    assert Writable(n, depth) && Shaped(n) && Readable(n);
    ChainRoundTrip(live, RenderPassBegin, [n], depth, rest);
    assert AllReceived(live, [n]) == [Received(live, n)];
  }

  /** Every counted array of the node is short enough, and the nested structures have no chain of their own. */
  predicate Small(n: Node, depth: nat) {
    && (n.InputAspects? ==> |n.references| <= MAX_ARRAY_ELEMENTS)
    && (n.Multiview? ==> |n.viewMasks| <= MAX_ARRAY_ELEMENTS && |n.viewOffsets| <= MAX_ARRAY_ELEMENTS
                         && |n.correlationMasks| <= MAX_ARRAY_ELEMENTS)
    && (n.ShadingRate? ==> depth < 4 && (n.attachment.Some? ==> !n.attachment.value.extended))
    && (n.ImageFormats? ==> |n.formats| <= MAX_ARRAY_ELEMENTS)
    && (n.FramebufferImages? ==>
          depth < 4 && |n.images| <= MAX_ARRAY_ELEMENTS
          && forall i | i in n.images :: i.type_ == 1000108002 && !i.extended && |i.formats| <= MAX_ARRAY_ELEMENTS)
    && (n.AttachmentViews? ==> |n.views| <= MAX_ARRAY_ELEMENTS)
    && (n.TimelineSubmit? ==> |n.waits| <= MAX_ARRAY_ELEMENTS && |n.signals| <= MAX_ARRAY_ELEMENTS)
  }

  /** A chain is written if and only if it is not nested too deep and, without the loader's own nodes, has at
      most 16, each taken in the context and small, no two of one type. */
  lemma WrittenExactly(context: Context, chain: seq<Node>, depth: nat)
    requires forall i | 0 <= i < |Kept(context, chain)| :: Shaped(Kept(context, chain)[i])
    ensures var nodes := Kept(context, chain);
            EncodeChain(context, chain, depth).Some? <==>
              && depth <= 4 && |nodes| <= 16
              && (forall i | 0 <= i < |nodes| :: Takes(context, nodes[i]) && Small(nodes[i], depth))
              && forall i, j | 0 <= i < j < |nodes| :: TypeOf(nodes[i]) != TypeOf(nodes[j])
  {
    CollectExactly(context, chain);
    var nodes := Kept(context, chain);
    forall i | 0 <= i < |nodes|
      ensures Allowed(context, TypeOf(nodes[i])) <==> Takes(context, nodes[i])
      ensures Takes(context, nodes[i]) ==> (Writable(nodes[i], depth) <==> Small(nodes[i], depth))
    {
      AllowedExactly(context, nodes[i]);
      if Takes(context, nodes[i]) { TakenIsSmall(context, nodes[i], depth); }
    }
    hide Takes, Small, Writable, Allowed, TypeOf;
  }

  lemma TakenIsSmall(context: Context, n: Node, depth: nat)
    requires Takes(context, n)
    ensures Writable(n, depth) <==> Small(n, depth)
  {
    if n.FramebufferImages? {
      assert forall i | 0 <= i < |n.images| :: n.images[i] in n.images;
    }
  }

  /** Only the loader's own nodes of a device's chain are left out; the others stay in order. */
  lemma {:induction false} KeptParts(context: Context, a: seq<Node>, b: seq<Node>)
    ensures Kept(context, a + b) == Kept(context, a) + Kept(context, b)
    decreases |b|
  {
    hide Skipped;
    if b == [] {
      assert a + b == a && Kept(context, a) + [] == Kept(context, a);
    } else {
      var last := |b| - 1;
      KeptParts(context, a, b[..last]);
      assert (a + b)[..|a| + last] == a + b[..last] && (a + b)[|a| + last] == b[last];
    }
  }

  lemma KeptOne(context: Context, n: Node)
    ensures Kept(context, [n]) == if context.DeviceCreate? && n.LoaderInfo? then [] else [n]
  {
    assert [n][..0] == [];
  }

  /** Protected memory is asked for by nobody: the node arrives with its flag off. */
  lemma ProtectionOff(live: set<U64>, enabled: U32, depth: nat, rest: Bytes)
    requires depth <= MAX_DEPTH
    ensures EncodeChain(DeviceCreate, [ProtectedFeatures(enabled)], depth).Some?
    ensures ParseChain(live, DeviceCreate, depth,
                       EncodeChain(DeviceCreate, [ProtectedFeatures(enabled)], depth).value + rest)
            == Some(([ProtectedFeatures(0)], rest))
  {
    var n := ProtectedFeatures(enabled);
    KeptOne(DeviceCreate, n);
    CollectExactly(DeviceCreate, [n]);
    assert Writable(n, depth) && Shaped(n) && Readable(n);
    ChainRoundTrip(live, DeviceCreate, [n], depth, rest);
    assert AllReceived(live, [n]) == [Received(live, n)];
  }
}
