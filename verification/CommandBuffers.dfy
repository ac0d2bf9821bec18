/** Recording commands: what a command buffer tracks, and why the memories attributed to a submission
    include every tracked write that a barrier makes visible to the host.
  */
module CommandBuffers {
  import opened Limits
  import opened Options
  import opened Recording

  /** A buffer or image barrier, and whether it is towards the host. */
  datatype HostBarrier = HostBarrier(id: Id, host: bool)

  datatype Target = Buffer(id: Id) | Image(id: Id)

  /** The commands that touch the tracked sets. `Barrier` stands for a pipeline barrier and for a
      wait for events; `Barrier2` for their newer forms. */
  datatype Command =
    | Begins
    | Resets
    | BeginsRenderPass(framebuffer: Id, attachments: Option<seq<Id>>)
    | Writes(target: Target)
    | BindsSets(compute: bool, first: nat, sets: seq<Id>)
    | Draws
    | Dispatches
    | Barrier(hostStage: bool, memory: seq<bool>, buffers: seq<HostBarrier>, images: seq<HostBarrier>)
    | Barrier2(memory: seq<bool>, buffers: seq<HostBarrier>, images: seq<HostBarrier>)
    | Executes(secondaries: seq<Tracked>)

  // ---------------------------------------------------------------------------
  // What one command tracks
  // ---------------------------------------------------------------------------

  function ViewMemory(t: Tables, view: Id): set<Id> {
    if view in t.imageViews && t.imageViews[view] in t.imageMemory then {t.imageMemory[t.imageViews[view]]} else {}
  }

  function ViewsMemory(t: Tables, views: seq<Id>): set<Id> {
    if views == [] then {} else ViewsMemory(t, views[..|views| - 1]) + ViewMemory(t, views[|views| - 1])
  }

  function Attachments(t: Tables, framebuffer: Id, attachments: Option<seq<Id>>): seq<Id> {
    if framebuffer !in t.framebuffers then []
    else if t.framebuffers[framebuffer].imageless && attachments.Some? then attachments.value
    else t.framebuffers[framebuffer].views
  }

  function TargetMemory(t: Tables, target: Target): set<Id> {
    match target
    case Buffer(id) => if id in t.bufferMemory then {t.bufferMemory[id]} else {}
    case Image(id) => if id in t.imageMemory then {t.imageMemory[id]} else {}
  }

  function Bind(bound: map<nat, Id>, first: nat, sets: seq<Id>): map<nat, Id> {
    if sets == [] then bound
    else Bind(bound, first, sets[..|sets| - 1])[first + |sets| - 1 := sets[|sets| - 1]]
  }

  /** The descriptor writes the barrier's buffer or image, directly or through a view. */
  predicate Refers(t: Tables, r: Resource, target: Target) {
    match target
    case Buffer(id) =>
      || (r.kind in {StorageBuffer, StorageBufferDynamic} && r.id == id)
      || (r.kind == StorageTexelBuffer && r.id in t.bufferViews && t.bufferViews[r.id] == id)
    case Image(id) => r.kind == StorageImage && r.id in t.imageViews && t.imageViews[r.id] == id
  }

  predicate SetRefers(t: Tables, s: Id, target: Target) {
    s in t.descriptors && exists k :: k in t.descriptors[s] && Refers(t, t.descriptors[s][k], target)
  }

  predicate SomeSetRefers(t: Tables, sets: set<Id>, target: Target) {
    exists s :: s in sets && SetRefers(t, s, target)
  }

  /** The memory a host barrier on one resource exposes: if it is pending, or a set that shaders may
      write through refers to the resource. */
  function Exposed(t: Tables, tr: Tracked, target: Target, host: bool): set<Id> {
    if host && (TargetMemory(t, target) * tr.pending != {} || SomeSetRefers(t, tr.writableSets, target))
    then TargetMemory(t, target) else {}
  }

  function ExposedBuffers(t: Tables, tr: Tracked, bs: seq<HostBarrier>): set<Id> {
    if bs == [] then {}
    else
      var last := bs[|bs| - 1];
      ExposedBuffers(t, tr, bs[..|bs| - 1]) + Exposed(t, tr, Buffer(last.id), last.host)
  }

  function ExposedImages(t: Tables, tr: Tracked, bs: seq<HostBarrier>): set<Id> {
    if bs == [] then {}
    else
      var last := bs[|bs| - 1];
      ExposedImages(t, tr, bs[..|bs| - 1]) + Exposed(t, tr, Image(last.id), last.host)
  }

  /** The newer barriers expose the resource's memory whether or not a write to it was tracked. */
  function NamedBuffers(t: Tables, bs: seq<HostBarrier>): set<Id> {
    if bs == [] then {}
    else
      var last := bs[|bs| - 1];
      NamedBuffers(t, bs[..|bs| - 1]) + (if last.host then TargetMemory(t, Buffer(last.id)) else {})
  }

  function NamedImages(t: Tables, bs: seq<HostBarrier>): set<Id> {
    if bs == [] then {}
    else
      var last := bs[|bs| - 1];
      NamedImages(t, bs[..|bs| - 1]) + (if last.host then TargetMemory(t, Image(last.id)) else {})
  }

  /** A general barrier towards the host. */
  function General(tr: Tracked, memory: seq<bool>): Tracked {
    if true in memory then tr.(visible := tr.visible + tr.pending, descriptorsVisible := true) else tr
  }

  function Merge(tr: Tracked, s: Tracked): Tracked {
    tr.(pending := tr.pending + s.pending, visible := tr.visible + s.visible,
        writableSets := tr.writableSets + s.writableSets,
        descriptorsVisible := tr.descriptorsVisible || s.descriptorsVisible)
  }

  function MergeAll(tr: Tracked, secondaries: seq<Tracked>): Tracked {
    if secondaries == [] then tr
    else Merge(MergeAll(tr, secondaries[..|secondaries| - 1]), secondaries[|secondaries| - 1])
  }

  function Track(t: Tables, tr: Tracked, c: Command): Tracked {
    match c
    case Begins => CLEARED
    case Resets => CLEARED
    case BeginsRenderPass(framebuffer, attachments) =>
      tr.(pending := tr.pending + ViewsMemory(t, Attachments(t, framebuffer, attachments)))
    case Writes(target) => tr.(pending := tr.pending + TargetMemory(t, target))
    case BindsSets(compute, first, sets) =>
      if compute then tr.(computeSets := Bind(tr.computeSets, first, sets))
      else tr.(graphicsSets := Bind(tr.graphicsSets, first, sets))
    case Draws => tr.(writableSets := tr.writableSets + tr.graphicsSets.Values)
    case Dispatches => tr.(writableSets := tr.writableSets + tr.computeSets.Values)
    case Barrier(hostStage, memory, buffers, images) =>
      if !hostStage then tr
      else
        var g := General(tr, memory);
        g.(visible := g.visible + ExposedBuffers(t, tr, buffers) + ExposedImages(t, tr, images))
    case Barrier2(memory, buffers, images) =>
      var g := General(tr, memory);
      g.(visible := g.visible + NamedBuffers(t, buffers) + NamedImages(t, images))
    case Executes(secondaries) => MergeAll(tr, secondaries)
  }

  /** A command and the device's tables when it was recorded. */
  datatype Recorded = Recorded(tables: Tables, command: Command)

  function TrackAll(cs: seq<Recorded>): Tracked {
    if cs == [] then CLEARED
    else Track(cs[|cs| - 1].tables, TrackAll(cs[..|cs| - 1]), cs[|cs| - 1].command)
  }

  // ---------------------------------------------------------------------------
  // The same, memory by memory
  // ---------------------------------------------------------------------------

  /** The memory the buffer or image is bound to. */
  predicate Backs(t: Tables, target: Target, m: Id) {
    match target
    case Buffer(id) => id in t.bufferMemory && t.bufferMemory[id] == m
    case Image(id) => id in t.imageMemory && t.imageMemory[id] == m
  }

  /** The view is an attachment of the render pass: the framebuffer's, or the begin info's when the
      framebuffer is imageless and there is one. */
  predicate Attached(t: Tables, framebuffer: Id, attachments: Option<seq<Id>>, view: Id) {
    && framebuffer in t.framebuffers
    && if t.framebuffers[framebuffer].imageless && attachments.Some? then view in attachments.value
       else view in t.framebuffers[framebuffer].views
  }

  /** Some attachment's image is bound to the memory. */
  predicate AttachedTo(t: Tables, framebuffer: Id, attachments: Option<seq<Id>>, m: Id) {
    exists view :: view in t.imageViews && Attached(t, framebuffer, attachments, view)
                   && Backs(t, Image(t.imageViews[view]), m)
  }

  /** A set shaders may write through has a storage descriptor of the buffer. */
  predicate BufferInSets(t: Tables, sets: set<Id>, buffer: Id) {
    exists s, k :: s in sets && s in t.descriptors && k in t.descriptors[s] && BufferIn(t, t.descriptors[s][k], buffer)
  }

  predicate BufferIn(t: Tables, r: Resource, buffer: Id) {
    match r.kind
    case StorageBuffer => r.id == buffer
    case StorageBufferDynamic => r.id == buffer
    case StorageTexelBuffer => r.id in t.bufferViews && t.bufferViews[r.id] == buffer
    case StorageImage => false
    case OtherKind => false
  }

  /** A set shaders may write through has a storage descriptor of a view of the image. */
  predicate ImageInSets(t: Tables, sets: set<Id>, image: Id) {
    exists s, k :: s in sets && s in t.descriptors && k in t.descriptors[s]
                   && t.descriptors[s][k].kind == StorageImage && t.descriptors[s][k].id in t.imageViews
                   && t.imageViews[t.descriptors[s][k].id] == image
  }

  predicate InSets(t: Tables, sets: set<Id>, target: Target) {
    match target
    case Buffer(id) => BufferInSets(t, sets, id)
    case Image(id) => ImageInSets(t, sets, id)
  }

  lemma TargetBacks(t: Tables, target: Target, m: Id)
    ensures m in TargetMemory(t, target) <==> Backs(t, target, m)
  {
  }

  lemma {:induction false} ViewsBack(t: Tables, views: seq<Id>, m: Id)
    ensures m in ViewsMemory(t, views)
            <==> exists view :: view in views && view in t.imageViews && Backs(t, Image(t.imageViews[view]), m)
    decreases |views|
  {
    if views != [] {
      var n := |views| - 1;
      ViewsBack(t, views[..n], m);
      assert views == views[..n] + [views[n]];
    }
  }

  lemma AttachmentsBack(t: Tables, framebuffer: Id, attachments: Option<seq<Id>>, m: Id)
    ensures m in ViewsMemory(t, Attachments(t, framebuffer, attachments)) <==> AttachedTo(t, framebuffer, attachments, m)
  {
    ViewsBack(t, Attachments(t, framebuffer, attachments), m);
  }

  lemma SetsReferTo(t: Tables, sets: set<Id>, target: Target)
    ensures SomeSetRefers(t, sets, target) <==> InSets(t, sets, target)
  {
    if SomeSetRefers(t, sets, target) {
      var s :| s in sets && SetRefers(t, s, target);
      var k :| k in t.descriptors[s] && Refers(t, t.descriptors[s][k], target);
    }
    if target.Buffer? && BufferInSets(t, sets, target.id) {
      var s, k :| s in sets && s in t.descriptors && k in t.descriptors[s] && BufferIn(t, t.descriptors[s][k], target.id);
      assert Refers(t, t.descriptors[s][k], target);
      assert SetRefers(t, s, target);
    }
    if target.Image? && ImageInSets(t, sets, target.id) {
      var s, k :| s in sets && s in t.descriptors && k in t.descriptors[s]
                  && t.descriptors[s][k].kind == StorageImage && t.descriptors[s][k].id in t.imageViews
                  && t.imageViews[t.descriptors[s][k].id] == target.id;
      assert Refers(t, t.descriptors[s][k], target);
      assert SetRefers(t, s, target);
    }
  }

  /** A host barrier of the list exposes the memory it is bound to, when a write to it is pending or a set
      shaders may write through refers to it. */
  predicate SomeExposes(t: Tables, pending: set<Id>, sets: set<Id>, buffers: seq<HostBarrier>, images: seq<HostBarrier>,
                        m: Id)
  {
    || (exists b :: b in buffers && b.host && Backs(t, Buffer(b.id), m) && (m in pending || BufferInSets(t, sets, b.id)))
    || (exists b :: b in images && b.host && Backs(t, Image(b.id), m) && (m in pending || ImageInSets(t, sets, b.id)))
  }

  predicate SomeNames(t: Tables, buffers: seq<HostBarrier>, images: seq<HostBarrier>, m: Id) {
    || (exists b :: b in buffers && b.host && Backs(t, Buffer(b.id), m))
    || (exists b :: b in images && b.host && Backs(t, Image(b.id), m))
  }

  lemma ExposedIs(t: Tables, tr: Tracked, target: Target, host: bool, m: Id)
    ensures m in Exposed(t, tr, target, host)
            <==> host && Backs(t, target, m) && (m in tr.pending || InSets(t, tr.writableSets, target))
  {
    SetsReferTo(t, tr.writableSets, target);
    TargetBacks(t, target, m);
    hide SomeSetRefers, InSets;
    if m in tr.pending && m in TargetMemory(t, target) {
      assert m in TargetMemory(t, target) * tr.pending;
    }
  }

  lemma {:induction false} ExposedBuffersAre(t: Tables, tr: Tracked, bs: seq<HostBarrier>, m: Id)
    ensures m in ExposedBuffers(t, tr, bs)
            <==> exists b :: b in bs && b.host && Backs(t, Buffer(b.id), m)
                             && (m in tr.pending || BufferInSets(t, tr.writableSets, b.id))
    decreases |bs|
  {
    hide BufferInSets, Backs, Exposed;
    if bs != [] {
      var n := |bs| - 1;
      ExposedBuffersAre(t, tr, bs[..n], m);
      ExposedIs(t, tr, Buffer(bs[n].id), bs[n].host, m);
      assert bs == bs[..n] + [bs[n]];
    }
  }

  lemma {:induction false} ExposedImagesAre(t: Tables, tr: Tracked, bs: seq<HostBarrier>, m: Id)
    ensures m in ExposedImages(t, tr, bs)
            <==> exists b :: b in bs && b.host && Backs(t, Image(b.id), m)
                             && (m in tr.pending || ImageInSets(t, tr.writableSets, b.id))
    decreases |bs|
  {
    hide ImageInSets, Backs, Exposed;
    if bs != [] {
      var n := |bs| - 1;
      ExposedImagesAre(t, tr, bs[..n], m);
      ExposedIs(t, tr, Image(bs[n].id), bs[n].host, m);
      assert bs == bs[..n] + [bs[n]];
    }
  }

  lemma {:induction false} NamedBuffersAre(t: Tables, bs: seq<HostBarrier>, m: Id)
    ensures m in NamedBuffers(t, bs) <==> exists b :: b in bs && b.host && Backs(t, Buffer(b.id), m)
    decreases |bs|
  {
    if bs != [] {
      var n := |bs| - 1;
      NamedBuffersAre(t, bs[..n], m);
      TargetBacks(t, Buffer(bs[n].id), m);
      hide Backs, TargetMemory;
      assert bs == bs[..n] + [bs[n]];
    }
  }

  lemma {:induction false} NamedImagesAre(t: Tables, bs: seq<HostBarrier>, m: Id)
    ensures m in NamedImages(t, bs) <==> exists b :: b in bs && b.host && Backs(t, Image(b.id), m)
    decreases |bs|
  {
    if bs != [] {
      var n := |bs| - 1;
      NamedImagesAre(t, bs[..n], m);
      TargetBacks(t, Image(bs[n].id), m);
      hide Backs, TargetMemory;
      assert bs == bs[..n] + [bs[n]];
    }
  }

  lemma BarrierTracks(t: Tables, tr: Tracked, hostStage: bool, memory: seq<bool>, buffers: seq<HostBarrier>,
                      images: seq<HostBarrier>)
    ensures var u := Track(t, tr, Barrier(hostStage, memory, buffers, images));
            && (forall m :: m in u.visible
                  <==> m in tr.visible || (hostStage && true in memory && m in tr.pending)
                       || (hostStage && SomeExposes(t, tr.pending, tr.writableSets, buffers, images, m)))
            && (u.descriptorsVisible <==> tr.descriptorsVisible || (hostStage && true in memory))
            && u == tr.(visible := u.visible, descriptorsVisible := u.descriptorsVisible)
  {
    forall m ensures m in ExposedBuffers(t, tr, buffers) + ExposedImages(t, tr, images)
                     <==> SomeExposes(t, tr.pending, tr.writableSets, buffers, images, m) {
      ExposedBuffersAre(t, tr, buffers, m);
      ExposedImagesAre(t, tr, images, m);
    }
    hide SomeExposes, ExposedBuffers, ExposedImages;
  }

  lemma Barrier2Tracks(t: Tables, tr: Tracked, memory: seq<bool>, buffers: seq<HostBarrier>, images: seq<HostBarrier>)
    ensures var u := Track(t, tr, Barrier2(memory, buffers, images));
            && (forall m :: m in u.visible
                  <==> m in tr.visible || (true in memory && m in tr.pending) || SomeNames(t, buffers, images, m))
            && (u.descriptorsVisible <==> tr.descriptorsVisible || true in memory)
            && u == tr.(visible := u.visible, descriptorsVisible := u.descriptorsVisible)
  {
    forall m ensures m in NamedBuffers(t, buffers) + NamedImages(t, images) <==> SomeNames(t, buffers, images, m) {
      NamedBuffersAre(t, buffers, m);
      NamedImagesAre(t, images, m);
    }
    hide SomeNames, NamedBuffers, NamedImages;
  }

  lemma {:induction false} MergedAre(tr: Tracked, ss: seq<Tracked>)
    ensures var u := MergeAll(tr, ss);
            && (forall m :: m in u.pending <==> m in tr.pending || exists i :: 0 <= i < |ss| && m in ss[i].pending)
            && (forall m :: m in u.visible <==> m in tr.visible || exists i :: 0 <= i < |ss| && m in ss[i].visible)
            && (forall s :: s in u.writableSets <==>
                            s in tr.writableSets || exists i :: 0 <= i < |ss| && s in ss[i].writableSets)
            && (u.descriptorsVisible <==> tr.descriptorsVisible || exists i :: 0 <= i < |ss| && ss[i].descriptorsVisible)
            && u.graphicsSets == tr.graphicsSets && u.computeSets == tr.computeSets
    decreases |ss|
  {
    if ss != [] {
      var n := |ss| - 1;
      MergedAre(tr, ss[..n]);
      var before, u := MergeAll(tr, ss[..n]), MergeAll(tr, ss);
      assert u == Merge(before, ss[n]);
      assert forall i | 0 <= i < n :: ss[..n][i] == ss[i];
      hide MergeAll;
      assert ss[n].descriptorsVisible ==> exists i :: 0 <= i < |ss| && ss[i].descriptorsVisible;
    }
  }

  lemma {:induction false} BindFills(bound: map<nat, Id>, first: nat, sets: seq<Id>)
    ensures forall slot :: slot in Bind(bound, first, sets) <==> slot in bound || first <= slot < first + |sets|
    ensures forall i | 0 <= i < |sets| :: Bind(bound, first, sets)[first + i] == sets[i]
    ensures forall slot | slot in bound && !(first <= slot < first + |sets|) :: Bind(bound, first, sets)[slot] == bound[slot]
    decreases |sets|
  {
    if sets != [] {
      BindFills(bound, first, sets[..|sets| - 1]);
    }
  }

  // ---------------------------------------------------------------------------
  // Recording in place
  // ---------------------------------------------------------------------------

  class CommandBuffer {
    var pending: set<Id>
    var visible: set<Id>
    var writableSets: set<Id>
    var descriptorsVisible: bool
    var graphicsSets: map<nat, Id>
    var computeSets: map<nat, Id>

    constructor ()
      ensures Abs() == CLEARED
    {
      pending, visible, writableSets, descriptorsVisible := {}, {}, {}, false;
      graphicsSets, computeSets := map[], map[];
    }

    function Abs(): Tracked
      reads this
    {
      Tracked(pending, visible, writableSets, descriptorsVisible, graphicsSets, computeSets)
    }

    /** Beginning, and resetting, forget everything. */
    method Begin(t: Tables)
      modifies this
      ensures Abs() == Track(t, old(Abs()), Begins)
      ensures pending == visible == writableSets == {} && !descriptorsVisible && graphicsSets == computeSets == map[]
    {
      pending, visible, writableSets, descriptorsVisible := {}, {}, {}, false;
      graphicsSets, computeSets := map[], map[];
    }

    method BeginRenderPass(t: Tables, framebuffer: Id, attachments: Option<seq<Id>>)
      modifies this
      ensures Abs() == Track(t, old(Abs()), BeginsRenderPass(framebuffer, attachments))
      ensures forall m :: m in pending <==> m in old(pending) || AttachedTo(t, framebuffer, attachments, m)
      ensures Abs() == old(Abs()).(pending := pending)
    {
      forall m ensures m in ViewsMemory(t, Attachments(t, framebuffer, attachments))
                       <==> AttachedTo(t, framebuffer, attachments, m) {
        AttachmentsBack(t, framebuffer, attachments, m);
      }
      hide AttachedTo;
      if framebuffer !in t.framebuffers { return; }
      var views := t.framebuffers[framebuffer].views;
      if t.framebuffers[framebuffer].imageless && attachments.Some? {
        views := attachments.value;
      }
      for i := 0 to |views|
        invariant Abs() == old(Abs()).(pending := old(pending) + ViewsMemory(t, views[..i]))
      {
        assert views[..i + 1][..i] == views[..i];
        if views[i] in t.imageViews && t.imageViews[views[i]] in t.imageMemory {
          pending := pending + {t.imageMemory[t.imageViews[views[i]]]};
        }
      }
      assert views[..|views|] == views;
    }

    /** Copies, fills, updates, clears, resolves and query results. */
    method Write(t: Tables, target: Target)
      modifies this
      ensures Abs() == Track(t, old(Abs()), Writes(target))
      ensures forall m :: m in pending <==> m in old(pending) || Backs(t, target, m)
      ensures Abs() == old(Abs()).(pending := pending)
    {
      match target {
        case Buffer(id) =>
          if id in t.bufferMemory { pending := pending + {t.bufferMemory[id]}; }
        case Image(id) =>
          if id in t.imageMemory { pending := pending + {t.imageMemory[id]}; }
      }
    }

    /** Nothing is recorded without a layout, with a null set, or with an array that is too long. */
    method BindSets(t: Tables, compute: bool, layout: Id, first: nat, sets: seq<Id>, dynamicOffsets: seq<nat>)
      returns (recorded: bool)
      modifies this
      ensures recorded <==> layout != 0 && |sets| <= MAX_ARRAY_ELEMENTS && |dynamicOffsets| <= MAX_ARRAY_ELEMENTS
                            && forall i | 0 <= i < |sets| :: sets[i] != 0
      ensures Abs() == if recorded then Track(t, old(Abs()), BindsSets(compute, first, sets)) else old(Abs())
      ensures Abs() == if compute then old(Abs()).(computeSets := computeSets) else old(Abs()).(graphicsSets := graphicsSets)
      ensures recorded ==>
                var before, after := if compute then old(computeSets) else old(graphicsSets),
                                     if compute then computeSets else graphicsSets;
                && (forall slot :: slot in after <==> slot in before || first <= slot < first + |sets|)
                && (forall i | 0 <= i < |sets| :: after[first + i] == sets[i])
                && (forall slot | slot in before && !(first <= slot < first + |sets|) :: after[slot] == before[slot])
    {
      BindFills(if compute then computeSets else graphicsSets, first, sets);
      if layout == 0 || |sets| > MAX_ARRAY_ELEMENTS || |dynamicOffsets| > MAX_ARRAY_ELEMENTS { return false; }
      for i := 0 to |sets|
        invariant forall j | 0 <= j < i :: sets[j] != 0
      {
        if sets[i] == 0 { return false; }
      }
      for i := 0 to |sets|
        invariant Abs() == Track(t, old(Abs()), BindsSets(compute, first, sets[..i]))
      {
        assert sets[..i + 1][..i] == sets[..i];
        if compute {
          computeSets := computeSets[first + i := sets[i]];
        } else {
          graphicsSets := graphicsSets[first + i := sets[i]];
        }
      }
      assert sets[..|sets|] == sets;
      recorded := true;
    }

    method MarkDescriptorWrites(sets: map<nat, Id>)
      modifies this
      ensures Abs() == old(Abs()).(writableSets := old(writableSets) + sets.Values)
    {
      var slots := sets.Keys;
      while slots != {}
        invariant slots <= sets.Keys
        invariant Abs() == old(Abs()).(writableSets := old(writableSets) + (set k | k in sets && k !in slots :: sets[k]))
      {
        var slot :| slot in slots;
        writableSets := writableSets + {sets[slot]};
        slots := slots - {slot};
      }
      assert sets.Values == set k | k in sets :: sets[k];
    }

    method Draw(t: Tables)
      modifies this
      ensures Abs() == Track(t, old(Abs()), Draws)
      ensures forall s :: s in writableSets
                <==> s in old(writableSets) || exists slot :: slot in graphicsSets && graphicsSets[slot] == s
      ensures Abs() == old(Abs()).(writableSets := writableSets)
    {
      MarkDescriptorWrites(graphicsSets);
    }

    method Dispatch(t: Tables)
      modifies this
      ensures Abs() == Track(t, old(Abs()), Dispatches)
      ensures forall s :: s in writableSets
                <==> s in old(writableSets) || exists slot :: slot in computeSets && computeSets[slot] == s
      ensures Abs() == old(Abs()).(writableSets := writableSets)
    {
      MarkDescriptorWrites(computeSets);
    }

    method GeneralBarriers(memory: seq<bool>)
      modifies this
      ensures Abs() == General(old(Abs()), memory)
    {
      for i := 0 to |memory|
        invariant Abs() == General(old(Abs()), memory[..i])
      {
        assert memory[..i + 1] == memory[..i] + [memory[i]];
        if memory[i] {
          visible := visible + pending;
          descriptorsVisible := true;
        }
      }
      assert memory[..|memory|] == memory;
    }

    /** The search of a buffer or image barrier through the descriptor sets shaders may write. */
    method FindSet(t: Tables, target: Target) returns (found: bool)
      ensures found == SomeSetRefers(t, writableSets, target)
    {
      found := false;
      var sets := writableSets;
      while sets != {}
        invariant sets <= writableSets
        invariant found == SomeSetRefers(t, writableSets - sets, target)
      {
        var s :| s in sets;
        assert writableSets - (sets - {s}) == (writableSets - sets) + {s};
        if s in t.descriptors {
          var hit := FindSlot(t, t.descriptors[s], target);
          found := found || hit;
        }
        sets := sets - {s};
      }
      assert writableSets - sets == writableSets;
    }

    method FindSlot(t: Tables, resources: map<nat, Resource>, target: Target) returns (found: bool)
      ensures found == exists k :: k in resources && Refers(t, resources[k], target)
    {
      found := false;
      var keys := resources.Keys;
      while keys != {}
        invariant keys <= resources.Keys
        invariant found == exists k :: k in resources && k !in keys && Refers(t, resources[k], target)
      {
        var k :| k in keys;
        if Refers(t, resources[k], target) {
          found := true;
        }
        keys := keys - {k};
      }
    }

    method ResourceBarrier(t: Tables, target: Target, host: bool)
      modifies this`visible
      ensures visible == old(visible) + Exposed(t, old(Abs()), target, host)
    {
      if !host { return; }
      var memories := TargetMemory(t, target);
      if memories == {} { return; }
      var memory :| memory in memories;
      assert memories == {memory};
      var referred := FindSet(t, target);
      if memory in pending {
        assert memory in memories * pending;
        visible := visible + {memory};
      }
      if referred {
        visible := visible + {memory};
      }
    }

    method BufferBarriers(t: Tables, buffers: seq<HostBarrier>)
      modifies this`visible
      ensures visible == old(visible) + ExposedBuffers(t, old(Abs()), buffers)
    {
      for i := 0 to |buffers|
        invariant visible == old(visible) + ExposedBuffers(t, old(Abs()), buffers[..i])
      {
        assert buffers[..i + 1][..i] == buffers[..i];
        assert Exposed(t, Abs(), Buffer(buffers[i].id), buffers[i].host)
               == Exposed(t, old(Abs()), Buffer(buffers[i].id), buffers[i].host);
        ResourceBarrier(t, Buffer(buffers[i].id), buffers[i].host);
      }
      assert buffers[..|buffers|] == buffers;
    }

    method ImageBarriers(t: Tables, images: seq<HostBarrier>)
      modifies this`visible
      ensures visible == old(visible) + ExposedImages(t, old(Abs()), images)
    {
      for i := 0 to |images|
        invariant visible == old(visible) + ExposedImages(t, old(Abs()), images[..i])
      {
        assert images[..i + 1][..i] == images[..i];
        assert Exposed(t, Abs(), Image(images[i].id), images[i].host)
               == Exposed(t, old(Abs()), Image(images[i].id), images[i].host);
        ResourceBarrier(t, Image(images[i].id), images[i].host);
      }
      assert images[..|images|] == images;
    }

    lemma ExposesAlike(t: Tables, a: Tracked, b: Tracked, buffers: seq<HostBarrier>, images: seq<HostBarrier>)
      requires a.pending == b.pending && a.writableSets == b.writableSets
      ensures ExposedBuffers(t, a, buffers) == ExposedBuffers(t, b, buffers)
      ensures ExposedImages(t, a, images) == ExposedImages(t, b, images)
      decreases |buffers|, |images|
    {
      if buffers != [] {
        ExposesAlike(t, a, b, buffers[..|buffers| - 1], images);
      } else if images != [] {
        ExposesAlike(t, a, b, buffers, images[..|images| - 1]);
      }
    }

    /** A pipeline barrier, or a wait for events. */
    method PipelineBarrier(t: Tables, hostStage: bool, memory: seq<bool>, buffers: seq<HostBarrier>,
                           images: seq<HostBarrier>)
      modifies this
      ensures Abs() == Track(t, old(Abs()), Barrier(hostStage, memory, buffers, images))
      ensures forall m :: m in visible
                <==> m in old(visible)
                     || (hostStage && true in memory && m in old(pending))
                     || (hostStage && SomeExposes(t, old(pending), old(writableSets), buffers, images, m))
      ensures descriptorsVisible <==> old(descriptorsVisible) || (hostStage && true in memory)
      ensures Abs() == old(Abs()).(visible := visible, descriptorsVisible := descriptorsVisible)
    {
      hide SomeExposes;
      if !hostStage {
        BarrierTracks(t, Abs(), hostStage, memory, buffers, images);
        return;
      }
      GeneralBarriers(memory);
      ExposesAlike(t, Abs(), old(Abs()), buffers, images);
      BufferBarriers(t, buffers);
      ExposesAlike(t, Abs(), old(Abs()), buffers, images);
      ImageBarriers(t, images);
      BarrierTracks(t, old(Abs()), hostStage, memory, buffers, images);
    }

    method PipelineBarrier2(t: Tables, memory: seq<bool>, buffers: seq<HostBarrier>, images: seq<HostBarrier>)
      modifies this
      ensures Abs() == Track(t, old(Abs()), Barrier2(memory, buffers, images))
      ensures forall m :: m in visible
                <==> m in old(visible) || (true in memory && m in old(pending)) || SomeNames(t, buffers, images, m)
      ensures descriptorsVisible <==> old(descriptorsVisible) || true in memory
      ensures Abs() == old(Abs()).(visible := visible, descriptorsVisible := descriptorsVisible)
    {
      hide SomeNames;
      var general := false;
      for i := 0 to |memory|
        invariant general == (true in memory[..i])
      {
        assert memory[..i + 1] == memory[..i] + [memory[i]];
        general := general || memory[i];
      }
      assert memory[..|memory|] == memory;
      if general {
        visible := visible + pending;
        descriptorsVisible := true;
      }
      ghost var g := Abs();
      for i := 0 to |buffers|
        invariant Abs() == g.(visible := g.visible + NamedBuffers(t, buffers[..i]))
      {
        assert buffers[..i + 1][..i] == buffers[..i];
        if buffers[i].host && buffers[i].id in t.bufferMemory {
          visible := visible + {t.bufferMemory[buffers[i].id]};
        }
      }
      assert buffers[..|buffers|] == buffers;
      for i := 0 to |images|
        invariant Abs() == g.(visible := g.visible + NamedBuffers(t, buffers) + NamedImages(t, images[..i]))
      {
        assert images[..i + 1][..i] == images[..i];
        if images[i].host && images[i].id in t.imageMemory {
          visible := visible + {t.imageMemory[images[i].id]};
        }
      }
      assert images[..|images|] == images;
      Barrier2Tracks(t, old(Abs()), memory, buffers, images);
    }

    method ExecuteCommands(t: Tables, secondaries: seq<CommandBuffer>)
      requires this !in secondaries
      modifies this
      ensures Abs() == Track(t, old(Abs()),
                             Executes(seq(|secondaries|, i requires 0 <= i < |secondaries| => old(secondaries[i].Abs()))))
      ensures forall m :: m in pending
                <==> m in old(pending) || exists i :: 0 <= i < |secondaries| && m in old(secondaries[i].pending)
      ensures forall m :: m in visible
                <==> m in old(visible) || exists i :: 0 <= i < |secondaries| && m in old(secondaries[i].visible)
      ensures forall s :: s in writableSets
                <==> s in old(writableSets) || exists i :: 0 <= i < |secondaries| && s in old(secondaries[i].writableSets)
      ensures descriptorsVisible <==>
              old(descriptorsVisible) || exists i :: 0 <= i < |secondaries| && old(secondaries[i].descriptorsVisible)
      ensures graphicsSets == old(graphicsSets) && computeSets == old(computeSets)
    {
      ghost var tracked := seq(|secondaries|, i requires 0 <= i < |secondaries| => old(secondaries[i].Abs()));
      for i := 0 to |secondaries|
        invariant Abs() == MergeAll(old(Abs()), tracked[..i])
      {
        assert tracked[..i + 1][..i] == tracked[..i];
        var s := secondaries[i];
        pending := pending + s.pending;
        visible := visible + s.visible;
        writableSets := writableSets + s.writableSets;
        descriptorsVisible := descriptorsVisible || s.descriptorsVisible;
      }
      assert tracked[..|secondaries|] == tracked;
      MergedAre(old(Abs()), tracked);
      forall i | 0 <= i < |secondaries|
        ensures tracked[i] == old(secondaries[i].Abs())
        ensures old(secondaries[i].pending) == tracked[i].pending && old(secondaries[i].visible) == tracked[i].visible
        ensures old(secondaries[i].writableSets) == tracked[i].writableSets
        ensures old(secondaries[i].descriptorsVisible) == tracked[i].descriptorsVisible
      {
      }
      hide MergeAll;
    }
  }
}
