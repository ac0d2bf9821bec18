/** Writing render pass descriptions to a writer and reading them from a reader, in place. */
module RenderPassStreams {
  import opened Limits
  import opened Options
  import opened Wire
  import opened PNextChain
  import opened ChainStreams
  import opened SubmitStreams
  import opened RenderPassCodec

  // ---------------------------------------------------------------------------
  // The writer
  // ---------------------------------------------------------------------------

  lemma FlattenFive(start: Bytes, a: Bytes, b: Bytes, c: Bytes, d: Bytes, e: Bytes)
    ensures start + a + b + c + d + e == start + (a + (b + (c + (d + e))))
  {
    Flatten(start + a, b, c, d, e);
    assert start + a + (b + (c + (d + e))) == start + (a + (b + (c + (d + e))));
  }

  lemma FlattenSix(start: Bytes, a: Bytes, b: Bytes, c: Bytes, d: Bytes, e: Bytes, f: Bytes)
    ensures start + a + b + c + d + e + f == start + (a + (b + (c + (d + (e + f)))))
  {
    FlattenFive(start + a, b, c, d, e, f);
    assert start + a + (b + (c + (d + (e + f)))) == start + (a + (b + (c + (d + (e + f)))));
  }

  lemma FlattenTwo(start: Bytes, a: Bytes, b: Bytes)
    ensures start + a + b == start + (a + b)
  {
  }

  method WriteReferences(w: Writer, xs: seq<AttachmentReference>) returns (ok: bool)
    modifies w
    ensures ok <==> forall i | 0 <= i < |xs| :: ReferenceOk(xs[i])
    ensures ok ==> w.data == old(w.data) + EncodeAll(EncodeReference, xs)
  {
    assert EncodeAll(EncodeReference, xs[..0]) == [];
    hide EncodeReference, EncodeAll;
    for i := 0 to |xs|
      invariant forall j | 0 <= j < i :: ReferenceOk(xs[j])
      invariant w.data == old(w.data) + EncodeAll(EncodeReference, xs[..i])
    {
      NextWritten(EncodeReference, xs, i, old(w.data));
      if xs[i].type_ != ATTACHMENT_REFERENCE_2 || xs[i].extended { return false; }
      WriteReference(w, xs[i]);
    }
    assert xs[..|xs|] == xs;
    ok := true;
  }

  method WriteReferenceArray(w: Writer, xs: seq<AttachmentReference>) returns (ok: bool)
    requires |xs| <= MAX_ARRAY_ELEMENTS
    modifies w
    ensures ok == ReferencesOk(xs)
    ensures ok ==> w.data == old(w.data) + EncodeArray(EncodeReference, xs)
  {
    hide ReferenceOk, EncodeAll;
    w.U32(|xs|);
    ok := WriteReferences(w, xs);
    FlattenTwo(old(w.data), EncodeU32(|xs|), EncodeAll(EncodeReference, xs));
  }

  method WriteResolves(w: Writer, resolves: Option<seq<AttachmentReference>>) returns (ok: bool)
    modifies w
    ensures ok == (resolves.Some? ==> forall i | 0 <= i < |resolves.value| :: ReferenceOk(resolves.value[i]))
    ensures ok ==> w.data == old(w.data) + EncodeResolves(resolves)
  {
    hide ReferenceOk, EncodeAll;
    w.U32(if resolves.Some? then 1 else 0);
    ok := true;
    if resolves.Some? {
      ok := WriteReferences(w, resolves.value);
      FlattenTwo(old(w.data), EncodeU32(1), EncodeAll(EncodeReference, resolves.value));
    }
  }

  method WriteDepth(w: Writer, depth: Option<AttachmentReference>) returns (ok: bool)
    modifies w
    ensures ok == (depth.Some? ==> ReferenceOk(depth.value))
    ensures ok ==> w.data == old(w.data) + EncodeDepth(depth)
  {
    hide EncodeReference;
    w.U32(if depth.Some? then 1 else 0);
    ok := true;
    if depth.Some? {
      if depth.value.type_ != ATTACHMENT_REFERENCE_2 || depth.value.extended { return false; }
      WriteReference(w, depth.value);
      FlattenTwo(old(w.data), EncodeU32(1), EncodeReference(depth.value));
    }
  }

  /** An array of resolve attachments is as long as that of colour attachments, by its declaration. */
  predicate Resolved(s: Subpass) {
    s.resolves.Some? ==> |s.resolves.value| == |s.colors|
  }

  method WriteSubpassTail(w: Writer, s: Subpass) returns (ok: bool)
    requires Resolved(s) && s.type_ == SUBPASS_DESCRIPTION_2 && EncodeChain(RenderPass2, s.chain, 0).Some?
    requires |s.inputs| <= MAX_ARRAY_ELEMENTS && |s.colors| <= MAX_ARRAY_ELEMENTS && |s.preserves| <= MAX_ARRAY_ELEMENTS
    modifies w
    ensures ok == SubpassOk(s)
    ensures ok ==> w.data == old(w.data) + EncodeSubpassTail(s)
  {
    hide ReferenceOk, EncodeAll, EncodeResolves, EncodeDepth, EncodeChain;
    ok := WriteReferenceArray(w, s.inputs);
    if !ok { return; }
    ok := WriteReferenceArray(w, s.colors);
    if !ok { return; }
    ok := WriteResolves(w, s.resolves);
    if !ok { return; }
    ok := WriteDepth(w, s.depth);
    if !ok { return; }
    WriteU32Array(w, s.preserves);
    FlattenFive(old(w.data), EncodeArray(EncodeReference, s.inputs), EncodeArray(EncodeReference, s.colors),
                EncodeResolves(s.resolves), EncodeDepth(s.depth), EncodeArray(EncodeU32, s.preserves));
  }

  /** A subpass is written whole or not at all. */
  method WriteSubpass(w: Writer, s: Subpass) returns (ok: bool)
    requires Resolved(s)
    modifies w
    ensures ok == SubpassOk(s)
    ensures w.data == if ok then old(w.data) + EncodeSubpass(s) else old(w.data)
  {
    hide ReferencesOk, EncodeChain, EncodeSubpassTail;
    if s.type_ != SUBPASS_DESCRIPTION_2 || |s.inputs| > MAX_ARRAY_ELEMENTS || |s.colors| > MAX_ARRAY_ELEMENTS
       || |s.preserves| > MAX_ARRAY_ELEMENTS {
      TooLong(s);
      return false;
    }
    var encoded := new Writer();
    encoded.I32(s.type_);
    encoded.U32(s.flags);
    encoded.I32(s.bindPoint);
    encoded.U32(s.viewMask);
    ok := WriteChain(encoded, RenderPass2, s.chain, 0);
    if !ok { return; }
    ok := WriteSubpassTail(encoded, s);
    if !ok { return; }
    FlattenSix([], EncodeI32(s.type_), EncodeU32(s.flags), EncodeI32(s.bindPoint), EncodeU32(s.viewMask),
               EncodeChain(RenderPass2, s.chain, 0).value, EncodeSubpassTail(s));
    assert encoded.data == [] + EncodeSubpass(s) == EncodeSubpass(s);
    w.Append(encoded);
  }

  lemma TooLong(s: Subpass)
    ensures |s.inputs| > MAX_ARRAY_ELEMENTS || |s.colors| > MAX_ARRAY_ELEMENTS ==> !SubpassOk(s)
  {
  }

  predicate OkUpTo(xs: seq<Subpass>, n: nat)
    requires n <= |xs|
  {
    n == 0 || (OkUpTo(xs, n - 1) && SubpassOk(xs[n - 1]))
  }

  lemma {:induction false} OkBelow(xs: seq<Subpass>, n: nat, i: nat)
    requires i < n <= |xs| && OkUpTo(xs, n)
    ensures SubpassOk(xs[i])
    decreases n
  {
    if i < n - 1 {
      OkBelow(xs, n - 1, i);
    }
  }

  method WriteEachSubpass(w: Writer, xs: seq<Subpass>) returns (ok: bool)
    requires forall i | 0 <= i < |xs| :: Resolved(xs[i])
    modifies w
    ensures ok <==> forall i | 0 <= i < |xs| :: SubpassOk(xs[i])
    ensures ok ==> w.data == old(w.data) + EncodeAll(EncodeSubpass, xs)
  {
    assert EncodeAll(EncodeSubpass, xs[..0]) == [];
    hide EncodeSubpass, EncodeAll, SubpassOk, Resolved;
    for i := 0 to |xs|
      invariant OkUpTo(xs, i) && w.data == old(w.data) + EncodeAll(EncodeSubpass, xs[..i])
    {
      NextWritten(EncodeSubpass, xs, i, old(w.data));
      ok := WriteSubpass(w, xs[i]);
      if !ok { return; }
    }
    assert xs[..|xs|] == xs;
    forall i | 0 <= i < |xs| ensures SubpassOk(xs[i]) {
      OkBelow(xs, |xs|, i);
    }
    ok := true;
  }

  method WriteSubpasses(w: Writer, xs: seq<Subpass>) returns (ok: bool)
    requires |xs| <= MAX_ARRAY_ELEMENTS && forall i | 0 <= i < |xs| :: Resolved(xs[i])
    modifies w
    ensures ok <==> forall i | 0 <= i < |xs| :: SubpassOk(xs[i])
    ensures ok ==> w.data == old(w.data) + EncodeArray(EncodeSubpass, xs)
  {
    hide EncodeSubpass, EncodeAll, SubpassOk, Resolved;
    w.U32(|xs|);
    ok := WriteEachSubpass(w, xs);
    FlattenTwo(old(w.data), EncodeU32(|xs|), EncodeAll(EncodeSubpass, xs));
  }

  method WriteAttachments(w: Writer, xs: seq<AttachmentDescription>) returns (ok: bool)
    requires |xs| <= MAX_ARRAY_ELEMENTS && forall i | 0 <= i < |xs| :: |xs[i].fields| == 8
    modifies w
    ensures ok <==> forall i | 0 <= i < |xs| :: AttachmentOk(xs[i])
    ensures ok ==> w.data == old(w.data) + EncodeArray(EncodeAttachment, xs)
  {
    hide EncodeAll;
    assert EncodeAll(EncodeAttachment, xs[..0]) == [] by { NothingEncoded(EncodeAttachment, xs[..0]); }
    w.U32(|xs|);
    ghost var start := w.data;
    for i := 0 to |xs|
      invariant forall j | 0 <= j < i :: AttachmentOk(xs[j])
      invariant w.data == start + EncodeAll(EncodeAttachment, xs[..i])
    {
      NextWritten(EncodeAttachment, xs, i, start);
      if xs[i].type_ != ATTACHMENT_DESCRIPTION_2 || xs[i].extended { return false; }
      ghost var before := w.data;
      w.I32(xs[i].type_);
      w.U32(xs[i].flags);
      WriteI32s(w, xs[i].fields);
      FlattenThree(before, EncodeI32(xs[i].type_), EncodeU32(xs[i].flags), EncodeAll(EncodeI32, xs[i].fields));
    }
    assert xs[..|xs|] == xs;
    FlattenTwo(old(w.data), EncodeU32(|xs|), EncodeAll(EncodeAttachment, xs));
    ok := true;
  }

  lemma NothingEncoded<T>(encode: T -> Bytes, xs: seq<T>)
    requires xs == []
    ensures EncodeAll(encode, xs) == []
  {
  }

  lemma FlattenThree(start: Bytes, a: Bytes, b: Bytes, c: Bytes)
    ensures start + a + b + c == start + (a + (b + c))
  {
  }

  method WriteDependencies(w: Writer, xs: seq<Dependency>) returns (ok: bool)
    requires |xs| <= MAX_ARRAY_ELEMENTS && forall i | 0 <= i < |xs| :: |xs[i].fields| == 7
    modifies w
    ensures ok <==> forall i | 0 <= i < |xs| :: DependencyOk(xs[i])
    ensures ok ==> w.data == old(w.data) + EncodeArray(EncodeDependency, xs)
  {
    hide EncodeAll;
    assert EncodeAll(EncodeDependency, xs[..0]) == [] by { NothingEncoded(EncodeDependency, xs[..0]); }
    w.U32(|xs|);
    ghost var start := w.data;
    for i := 0 to |xs|
      invariant forall j | 0 <= j < i :: DependencyOk(xs[j])
      invariant w.data == start + EncodeAll(EncodeDependency, xs[..i])
    {
      NextWritten(EncodeDependency, xs, i, start);
      if xs[i].type_ != SUBPASS_DEPENDENCY_2 || xs[i].extended { return false; }
      ghost var before := w.data;
      w.I32(xs[i].type_);
      WriteU32s(w, xs[i].fields);
      w.I32(xs[i].viewOffset);
      FlattenThree(before, EncodeI32(xs[i].type_), EncodeAll(EncodeU32, xs[i].fields), EncodeI32(xs[i].viewOffset));
    }
    assert xs[..|xs|] == xs;
    FlattenTwo(old(w.data), EncodeU32(|xs|), EncodeAll(EncodeDependency, xs));
    ok := true;
  }

  /** What the structures' declarations fix: how many words an attachment and a dependency have. */
  predicate Declared(c: CreateInfo) {
    && (forall i | 0 <= i < |c.attachments| :: |c.attachments[i].fields| == 8)
    && (forall i | 0 <= i < |c.subpasses| :: Resolved(c.subpasses[i]))
    && forall i | 0 <= i < |c.dependencies| :: |c.dependencies[i].fields| == 7
  }

  method WriteLists(w: Writer, c: CreateInfo) returns (ok: bool)
    requires Declared(c) && c.type_ == RENDER_PASS_CREATE_INFO_2 && EncodeChain(RenderPass, c.chain, 0).Some?
    requires |c.attachments| <= MAX_ARRAY_ELEMENTS && |c.subpasses| <= MAX_ARRAY_ELEMENTS
             && |c.dependencies| <= MAX_ARRAY_ELEMENTS && |c.masks| <= MAX_ARRAY_ELEMENTS
    modifies w
    ensures ok == InfoOk(c)
    ensures ok ==> w.data == old(w.data) + EncodeLists(c)
  {
    hide EncodeAll, EncodeChain, AttachmentOk, SubpassOk, DependencyOk, Resolved;
    ok := WriteAttachments(w, c.attachments);
    if !ok { return; }
    ok := WriteSubpasses(w, c.subpasses);
    if !ok { return; }
    ok := WriteDependencies(w, c.dependencies);
    if !ok { return; }
    WriteU32Array(w, c.masks);
    Flatten(old(w.data), EncodeArray(EncodeAttachment, c.attachments), EncodeArray(EncodeSubpass, c.subpasses),
            EncodeArray(EncodeDependency, c.dependencies), EncodeArray(EncodeU32, c.masks));
  }

  /** The description is written whole or not at all. */
  method WriteInfo(w: Writer, c: CreateInfo) returns (ok: bool)
    requires Declared(c)
    modifies w
    ensures ok == EncodeInfo(c).Some?
    ensures w.data == if ok then old(w.data) + EncodeInfo(c).value else old(w.data)
  {
    hide EncodeChain, EncodeLists, AttachmentOk, SubpassOk, DependencyOk, Declared;
    if c.type_ != RENDER_PASS_CREATE_INFO_2 || |c.attachments| > MAX_ARRAY_ELEMENTS
       || |c.subpasses| > MAX_ARRAY_ELEMENTS || |c.dependencies| > MAX_ARRAY_ELEMENTS
       || |c.masks| > MAX_ARRAY_ELEMENTS { return false; }
    var encoded := new Writer();
    encoded.I32(c.type_);
    encoded.U32(c.flags);
    ok := WriteChain(encoded, RenderPass, c.chain, 0);
    if !ok { return; }
    ok := WriteLists(encoded, c);
    if !ok { return; }
    Flatten([], EncodeI32(c.type_), EncodeU32(c.flags), EncodeChain(RenderPass, c.chain, 0).value, EncodeLists(c));
    assert encoded.data == [] + EncodeInfo(c).value == EncodeInfo(c).value;
    w.Append(encoded);
  }

  // ---------------------------------------------------------------------------
  // The reader
  // ---------------------------------------------------------------------------

  method ReadReferences(r: Reader, n: nat) returns (ok: bool, xs: seq<AttachmentReference>)
    requires r.Valid() && !r.failed
    modifies r
    ensures r.Valid() && (ok ==> !r.failed)
    ensures Reads(ok, xs, r.Rest(), ParseAll(ParseReference, n, old(r.Rest())))
  {
    hide ParseAll, ParseReference;
    xs := [];
    ghost var whole := ParseAll(ParseReference, n, r.Rest());
    AfterNothing(whole);
    for i := 0 to n
      invariant r.Valid() && !r.failed
      invariant whole == After(xs, ParseAll(ParseReference, n - i, r.Rest()))
    {
      NextRead(ParseReference, xs, n - i, r.Rest());
      var read, x := ReadReference(r);
      if !read { return false, xs; }
      xs := xs + [x];
    }
    NoneLeft(ParseReference, xs, r.Rest());
    ok := true;
  }

  method ReadReferenceArray(r: Reader) returns (ok: bool, xs: seq<AttachmentReference>)
    requires r.Valid() && !r.failed
    modifies r
    ensures r.Valid() && (ok ==> !r.failed)
    ensures Reads(ok, xs, r.Rest(), ParseArray(ParseReference, 16, old(r.Rest())))
  {
    hide ParseAll, ParseReference;
    xs := [];
    var fits, n := ReadCount(r, 16);
    if !fits { return false, xs; }
    ok, xs := ReadReferences(r, n);
  }

  method ReadCountedWords(r: Reader) returns (ok: bool, xs: seq<U32>)
    requires r.Valid() && !r.failed
    modifies r
    ensures r.Valid() && (ok ==> !r.failed)
    ensures Reads(ok, xs, r.Rest(), ParseArray(ParseU32, 4, old(r.Rest())))
  {
    hide ParseAll;
    xs := [];
    var fits, n := ReadCount(r, 4);
    if !fits { return false, xs; }
    xs := ReadU32s(r, n);
    ok := !r.failed;
  }

  method ReadResolves(r: Reader, n: nat) returns (ok: bool, resolves: Option<seq<AttachmentReference>>)
    requires r.Valid() && !r.failed
    modifies r
    ensures r.Valid() && (ok ==> !r.failed)
    ensures Reads(ok, resolves, r.Rest(), ParseResolves(n, old(r.Rest())))
  {
    hide ParseAll;
    resolves := None;
    var present := r.U32();
    if r.failed || present > 1 { return false, None; }
    ok := true;
    if present != 0 {
      var xs;
      ok, xs := ReadReferences(r, n);
      resolves := if n == 0 then None else Some(xs);
    }
  }

  method ReadDepth(r: Reader) returns (ok: bool, depth: Option<AttachmentReference>)
    requires r.Valid() && !r.failed
    modifies r
    ensures r.Valid() && (ok ==> !r.failed)
    ensures Reads(ok, depth, r.Rest(), ParseDepth(old(r.Rest())))
  {
    depth := None;
    var present := r.U32();
    if r.failed || present > 1 { return false, None; }
    ok := true;
    if present != 0 {
      var a;
      ok, a := ReadReference(r);
      depth := Some(a);
    }
  }

  method ReadTail(r: Reader) returns (ok: bool, t: Tail)
    requires r.Valid() && !r.failed
    modifies r
    ensures r.Valid() && (ok ==> !r.failed)
    ensures Reads(ok, t, r.Rest(), ParseTail(old(r.Rest())))
  {
    hide ParseArray, ParseResolves, ParseDepth;
    t := Tail([], [], None, None, []);
    var read, inputs := ReadReferenceArray(r);
    if !read { return false, t; }
    var colors;
    read, colors := ReadReferenceArray(r);
    if !read { return false, t; }
    var resolves;
    read, resolves := ReadResolves(r, |colors|);
    if !read { return false, t; }
    var depth;
    read, depth := ReadDepth(r);
    if !read { return false, t; }
    var preserves;
    read, preserves := ReadCountedWords(r);
    return read, Tail(inputs, colors, resolves, depth, preserves);
  }

  method ReadHead(r: Reader) returns (ok: bool, h: Head)
    requires r.Valid() && !r.failed
    modifies r
    ensures r.Valid() && (ok ==> !r.failed)
    ensures Reads(ok, h, r.Rest(), ParseHead(old(r.Rest())))
  {
    var type_ := r.I32();
    var flags := r.U32();
    var bindPoint := r.I32();
    var viewMask := r.U32();
    return !r.failed, Head(type_, flags, bindPoint, viewMask);
  }

  method ReadSubpass(r: Reader) returns (ok: bool, s: Subpass)
    requires r.Valid() && !r.failed
    modifies r
    ensures r.Valid() && (ok ==> !r.failed)
    ensures Reads(ok, s, r.Rest(), ParseSubpass(old(r.Rest())))
  {
    hide ParseHead, ParseChain, ParseTail;
    s := Subpass(0, 0, 0, 0, [], [], [], None, None, []);
    var read, h := ReadHead(r);
    if !read || h.type_ != SUBPASS_DESCRIPTION_2 { return false, s; }
    var chained, chain := ReadChain(r, {}, RenderPass2, 0);
    if !chained { return false, s; }
    var ended, t := ReadTail(r);
    return ended, Subpass(h.type_, h.flags, h.bindPoint, h.viewMask, chain, t.inputs, t.colors, t.resolves, t.depth,
                          t.preserves);
  }

  method ReadSubpasses(r: Reader) returns (ok: bool, xs: seq<Subpass>)
    requires r.Valid() && !r.failed
    modifies r
    ensures r.Valid() && (ok ==> !r.failed)
    ensures Reads(ok, xs, r.Rest(), ParseBoundedArray(ParseSubpass, old(r.Rest())))
  {
    hide ParseAll, ParseSubpass;
    xs := [];
    var n := r.U32();
    if r.failed || n > MAX_ARRAY_ELEMENTS { return false, xs; }
    ghost var whole := ParseAll(ParseSubpass, n, r.Rest());
    AfterNothing(whole);
    for i := 0 to n
      invariant r.Valid() && !r.failed
      invariant whole == After(xs, ParseAll(ParseSubpass, n - i, r.Rest()))
    {
      NextRead(ParseSubpass, xs, n - i, r.Rest());
      var read, x := ReadSubpass(r);
      if !read { return false, xs; }
      xs := xs + [x];
    }
    NoneLeft(ParseSubpass, xs, r.Rest());
    ok := true;
  }

  method ReadAttachment(r: Reader) returns (ok: bool, a: AttachmentDescription)
    requires r.Valid() && !r.failed
    modifies r
    ensures r.Valid() && (ok ==> !r.failed)
    ensures Reads(ok, a, r.Rest(), ParseAttachment(old(r.Rest())))
  {
    hide ParseAll;
    var type_ := r.I32();
    var flags := r.U32();
    a := AttachmentDescription(type_, false, flags, []);
    if r.failed { return false, a; }
    var fields := ReadI32s(r, 8);
    a := a.(fields := fields);
    ok := !r.failed && type_ == ATTACHMENT_DESCRIPTION_2;
  }

  method ReadAttachments(r: Reader) returns (ok: bool, xs: seq<AttachmentDescription>)
    requires r.Valid() && !r.failed
    modifies r
    ensures r.Valid() && (ok ==> !r.failed)
    ensures Reads(ok, xs, r.Rest(), ParseArray(ParseAttachment, 40, old(r.Rest())))
  {
    hide ParseAll, ParseAttachment;
    xs := [];
    var fits, n := ReadCount(r, 40);
    if !fits { return false, xs; }
    ghost var whole := ParseAll(ParseAttachment, n, r.Rest());
    AfterNothing(whole);
    for i := 0 to n
      invariant r.Valid() && !r.failed
      invariant whole == After(xs, ParseAll(ParseAttachment, n - i, r.Rest()))
    {
      NextRead(ParseAttachment, xs, n - i, r.Rest());
      var read, x := ReadAttachment(r);
      if !read { return false, xs; }
      xs := xs + [x];
    }
    NoneLeft(ParseAttachment, xs, r.Rest());
    ok := true;
  }

  method ReadDependency(r: Reader) returns (ok: bool, d: Dependency)
    requires r.Valid() && !r.failed
    modifies r
    ensures r.Valid() && (ok ==> !r.failed)
    ensures Reads(ok, d, r.Rest(), ParseDependency(old(r.Rest())))
  {
    hide ParseAll;
    var type_ := r.I32();
    d := Dependency(type_, false, [], 0);
    if r.failed { return false, d; }
    var fields := ReadU32s(r, 7);
    var viewOffset := r.I32();
    d := Dependency(type_, false, fields, viewOffset);
    ok := !r.failed && type_ == SUBPASS_DEPENDENCY_2;
  }

  method ReadDependencies(r: Reader) returns (ok: bool, xs: seq<Dependency>)
    requires r.Valid() && !r.failed
    modifies r
    ensures r.Valid() && (ok ==> !r.failed)
    ensures Reads(ok, xs, r.Rest(), ParseArray(ParseDependency, 36, old(r.Rest())))
  {
    hide ParseAll, ParseDependency;
    xs := [];
    var fits, n := ReadCount(r, 36);
    if !fits { return false, xs; }
    ghost var whole := ParseAll(ParseDependency, n, r.Rest());
    AfterNothing(whole);
    for i := 0 to n
      invariant r.Valid() && !r.failed
      invariant whole == After(xs, ParseAll(ParseDependency, n - i, r.Rest()))
    {
      NextRead(ParseDependency, xs, n - i, r.Rest());
      var read, x := ReadDependency(r);
      if !read { return false, xs; }
      xs := xs + [x];
    }
    NoneLeft(ParseDependency, xs, r.Rest());
    ok := true;
  }

  method ReadLists(r: Reader) returns (ok: bool, l: Lists)
    requires r.Valid() && !r.failed
    modifies r
    ensures r.Valid() && (ok ==> !r.failed)
    ensures Reads(ok, l, r.Rest(), ParseLists(old(r.Rest())))
  {
    hide ParseArray, ParseBoundedArray;
    l := Lists([], [], [], []);
    var read, attachments := ReadAttachments(r);
    if !read { return false, l; }
    var subpasses;
    read, subpasses := ReadSubpasses(r);
    if !read { return false, l; }
    var dependencies;
    read, dependencies := ReadDependencies(r);
    if !read { return false, l; }
    var masks;
    read, masks := ReadCountedWords(r);
    return read, Lists(attachments, subpasses, dependencies, masks);
  }

  method ReadInfo(r: Reader) returns (ok: bool, c: CreateInfo)
    requires r.Valid() && !r.failed
    modifies r
    ensures r.Valid() && (ok ==> !r.failed)
    ensures Reads(ok, c, r.Rest(), ParseInfo(old(r.Rest())))
  {
    hide ParseChain, ParseLists;
    c := CreateInfo(0, 0, [], [], [], [], []);
    var type_ := r.I32();
    var flags := r.U32();
    if r.failed || type_ != RENDER_PASS_CREATE_INFO_2 { return false, c; }
    var chained, chain := ReadChain(r, {}, RenderPass, 0);
    if !chained { return false, c; }
    var ended, l := ReadLists(r);
    return ended, CreateInfo(type_, flags, chain, l.attachments, l.subpasses, l.dependencies, l.masks);
  }

  /** The two sides together: a description that is written is read back as itself, with empty arrays
      of resolve attachments absent, and the reader stands behind it. */
  method WrittenInfoIsRead(c: CreateInfo) returns (written: bool, read: bool, received: CreateInfo, left: nat)
    requires Declared(c) && NodesReadable(c.chain)
    requires forall i | 0 <= i < |c.subpasses| :: NodesReadable(c.subpasses[i].chain)
    ensures written == EncodeInfo(c).Some?
    ensures written ==> read && received == c.(subpasses := ReceivedSubpasses(c.subpasses)) && left == 0
  {
    hide EncodeInfo, ParseInfo, Declared;
    var writer := new Writer();
    written := WriteInfo(writer, c);
    var reader := new Reader(writer.data);
    if written {
      InfoRoundTrip(c, []);
      assert [] + EncodeInfo(c).value == writer.data && writer.data + [] == writer.data;
    }
    read, received := ReadInfo(reader);
    left := reader.Remaining();
  }
}
