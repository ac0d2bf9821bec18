/** Why attribution is conservative: a tracked write before a host barrier that covers it is in the
    submitted set, nothing becomes visible elsewhere, and executing secondaries unites their sets.
  */
module RecordingConservative {
  import opened Options
  import opened Recording
  import opened CommandBuffers

  predicate Clears(c: Command) {
    c.Begins? || c.Resets?
  }

  /** No command from `from` on starts the recording over. */
  predicate Continuous(cs: seq<Recorded>, from: nat) {
    forall k | from <= k < |cs| :: !Clears(cs[k].command)
  }

  function UnionOf(ts: seq<Tracked>, f: Tracked -> set<Id>): set<Id> {
    if ts == [] then {} else UnionOf(ts[..|ts| - 1], f) + f(ts[|ts| - 1])
  }

  /** The command writes the memory directly. */
  predicate WritesTo(r: Recorded, m: Id) {
    match r.command
    case BeginsRenderPass(framebuffer, attachments) => AttachedTo(r.tables, framebuffer, attachments, m)
    case Writes(target) => Backs(r.tables, target, m)
    case Executes(ss) => exists i :: 0 <= i < |ss| && m in ss[i].pending
    case _ => false
  }

  predicate BindsSlot(c: Command, compute: bool, slot: nat) {
    c.BindsSets? && c.compute == compute && c.first <= slot < c.first + |c.sets|
  }

  predicate BindsAt(cs: seq<Recorded>, b: nat, compute: bool, slot: nat, s: Id)
    requires b < |cs|
  {
    && Continuous(cs, b) && BindsSlot(cs[b].command, compute, slot)
    && cs[b].command.sets[slot - cs[b].command.first] == s
    && forall k | b < k < |cs| :: !BindsSlot(cs[k].command, compute, slot)
  }

  /** The set was bound to the slot, and the slot not bound again. */
  predicate Bound(cs: seq<Recorded>, compute: bool, slot: nat, s: Id) {
    exists b | 0 <= b < |cs| :: BindsAt(cs, b, compute, slot, s)
  }

  /** Shaders may write through the set: command `i` draws or dispatches while it is bound, or executes a
      secondary that does. */
  ghost predicate WritesThrough(cs: seq<Recorded>, i: nat, s: Id)
    requires i < |cs|
  {
    match cs[i].command
    case Draws => exists slot :: Bound(cs[..i], false, slot, s)
    case Dispatches => exists slot :: Bound(cs[..i], true, slot, s)
    case Executes(ss) => exists k :: 0 <= k < |ss| && s in ss[k].writableSets
    case _ => false
  }

  /** A barrier towards the host that covers every memory. */
  predicate GeneralHost(c: Command) {
    match c
    case Barrier(hostStage, memory, _, _) => hostStage && true in memory
    case Barrier2(memory, _, _) => true in memory
    case _ => false
  }

  /** The command is a host barrier on this buffer or image. */
  predicate HostBarrierOn(c: Command, target: Target) {
    var barrier := HostBarrier(target.id, true);
    match c
    case Barrier(hostStage, _, buffers, images) => hostStage && barrier in if target.Buffer? then buffers else images
    case Barrier2(_, buffers, images) => barrier in if target.Buffer? then buffers else images
    case _ => false
  }

  /** A host barrier that covers the memory: a general one, or one on a resource bound to it. */
  ghost predicate CoversMemory(r: Recorded, m: Id) {
    || GeneralHost(r.command)
    || (exists target: Target :: HostBarrierOn(r.command, target) && Backs(r.tables, target, m))
  }

  // ---------------------------------------------------------------------------
  // One step
  // ---------------------------------------------------------------------------

  lemma {:induction false} MergesUnite(tr: Tracked, ss: seq<Tracked>)
    ensures var u := MergeAll(tr, ss);
            && u.pending == tr.pending + UnionOf(ss, (s: Tracked) => s.pending)
            && u.visible == tr.visible + UnionOf(ss, (s: Tracked) => s.visible)
            && u.writableSets == tr.writableSets + UnionOf(ss, (s: Tracked) => s.writableSets)
            && (u.descriptorsVisible <==> tr.descriptorsVisible || exists i :: 0 <= i < |ss| && ss[i].descriptorsVisible)
            && u.graphicsSets == tr.graphicsSets && u.computeSets == tr.computeSets
    decreases |ss|
  {
    if ss != [] {
      var n := |ss| - 1;
      MergesUnite(tr, ss[..n]);
      if i :| 0 <= i < |ss| && ss[i].descriptorsVisible {
        assert i < n ==> ss[..n][i].descriptorsVisible;
      }
      if i :| 0 <= i < n && ss[..n][i].descriptorsVisible {
        assert ss[i].descriptorsVisible;
      }
    }
  }

  lemma {:induction false} InExposedBuffers(t: Tables, tr: Tracked, bs: seq<HostBarrier>, b: HostBarrier)
    requires b in bs
    ensures Exposed(t, tr, Buffer(b.id), b.host) <= ExposedBuffers(t, tr, bs)
    decreases |bs|
  {
    var n := |bs| - 1;
    if b != bs[n] {
      assert bs == bs[..n] + [bs[n]];
      InExposedBuffers(t, tr, bs[..n], b);
    }
  }

  lemma {:induction false} InExposedImages(t: Tables, tr: Tracked, bs: seq<HostBarrier>, b: HostBarrier)
    requires b in bs
    ensures Exposed(t, tr, Image(b.id), b.host) <= ExposedImages(t, tr, bs)
    decreases |bs|
  {
    var n := |bs| - 1;
    if b != bs[n] {
      assert bs == bs[..n] + [bs[n]];
      InExposedImages(t, tr, bs[..n], b);
    }
  }

  lemma {:induction false} InNamedBuffers(t: Tables, bs: seq<HostBarrier>, id: Id)
    requires HostBarrier(id, true) in bs
    ensures TargetMemory(t, Buffer(id)) <= NamedBuffers(t, bs)
    decreases |bs|
  {
    var n := |bs| - 1;
    if bs[n] != HostBarrier(id, true) {
      assert bs == bs[..n] + [bs[n]];
      InNamedBuffers(t, bs[..n], id);
    }
  }

  lemma {:induction false} InNamedImages(t: Tables, bs: seq<HostBarrier>, id: Id)
    requires HostBarrier(id, true) in bs
    ensures TargetMemory(t, Image(id)) <= NamedImages(t, bs)
    decreases |bs|
  {
    var n := |bs| - 1;
    if bs[n] != HostBarrier(id, true) {
      assert bs == bs[..n] + [bs[n]];
      InNamedImages(t, bs[..n], id);
    }
  }

  /** A host barrier on a resource exposes its memory when a write to it is pending, or a descriptor
      that shaders may write through refers to the resource. */
  lemma BarrierExposes(r: Recorded, tr: Tracked, target: Target, m: Id)
    requires HostBarrierOn(r.command, target) && m in TargetMemory(r.tables, target)
    requires m in tr.pending || SomeSetRefers(r.tables, tr.writableSets, target)
    ensures m in Track(r.tables, tr, r.command).visible
  {
    var barrier := HostBarrier(target.id, true);
    assert m in tr.pending ==> m in TargetMemory(r.tables, target) * tr.pending;
    match r.command
    case Barrier(_, _, buffers, images) =>
      if target.Buffer? {
        InExposedBuffers(r.tables, tr, buffers, barrier);
      } else {
        InExposedImages(r.tables, tr, images, barrier);
      }
    case Barrier2(_, buffers, images) =>
      if target.Buffer? {
        InNamedBuffers(r.tables, buffers, target.id);
      } else {
        InNamedImages(r.tables, images, target.id);
      }
  }

  /** Nothing tracked is dropped before the recording starts over. */
  predicate Keeps(a: Tracked, b: Tracked) {
    && a.pending <= b.pending && a.visible <= b.visible && a.writableSets <= b.writableSets
    && (a.descriptorsVisible ==> b.descriptorsVisible)
  }

  lemma StepKeeps(r: Recorded, tr: Tracked)
    requires !Clears(r.command)
    ensures Keeps(tr, Track(r.tables, tr, r.command))
  {
    if r.command.Executes? {
      MergesUnite(tr, r.command.secondaries);
    }
  }

  lemma {:induction false} RunKeeps(cs: seq<Recorded>, from: nat)
    requires from <= |cs| && Continuous(cs, from)
    ensures Keeps(TrackAll(cs[..from]), TrackAll(cs))
    decreases |cs|
  {
    if from == |cs| {
      assert cs[..from] == cs;
    } else {
      var n := |cs| - 1;
      assert cs[..n][..from] == cs[..from];
      RunKeeps(cs[..n], from);
      StepKeeps(cs[n], TrackAll(cs[..n]));
    }
  }

  lemma StepAt(cs: seq<Recorded>, i: nat)
    requires i < |cs|
    ensures TrackAll(cs[..i + 1]) == Track(cs[i].tables, TrackAll(cs[..i]), cs[i].command)
  {
    assert cs[..i + 1][..i] == cs[..i];
  }

  lemma StepTracks(cs: seq<Recorded>, i: nat)
    requires i < |cs| && !Clears(cs[i].command)
    ensures forall m :: m in TrackAll(cs[..i + 1]).pending <==> m in TrackAll(cs[..i]).pending || WritesTo(cs[i], m)
  {
    StepAt(cs, i);
    match cs[i].command
    case Executes(ss) => MergedAre(TrackAll(cs[..i]), ss);
    case BeginsRenderPass(framebuffer, attachments) =>
      forall m ensures m in ViewsMemory(cs[i].tables, Attachments(cs[i].tables, framebuffer, attachments))
                       <==> AttachedTo(cs[i].tables, framebuffer, attachments, m) {
        AttachmentsBack(cs[i].tables, framebuffer, attachments, m);
      }
    case Writes(target) =>
    case BindsSets(_, _, _) =>
    case Draws =>
    case Dispatches =>
    case Barrier(_, _, _, _) =>
    case Barrier2(_, _, _) =>
  }

  lemma WriteIsTracked(cs: seq<Recorded>, i: nat, j: nat)
    requires i < j <= |cs| && Continuous(cs, i)
    ensures forall m | WritesTo(cs[i], m) :: m in TrackAll(cs[..j]).pending
    ensures forall s | WritesThrough(cs, i, s) :: s in TrackAll(cs[..j]).writableSets
  {
    StepTracks(cs, i);
    StepWritable(cs, i);
    assert cs[..j][..i + 1] == cs[..i + 1];
    RunKeeps(cs[..j], i + 1);
  }

  lemma BoundSnoc(cs: seq<Recorded>, compute: bool, slot: nat, s: Id)
    requires cs != []
    ensures var n := |cs| - 1; var c := cs[n].command;
            Bound(cs, compute, slot, s) <==>
              !Clears(c) && if BindsSlot(c, compute, slot) then c.sets[slot - c.first] == s
                            else Bound(cs[..n], compute, slot, s)
  {
    var n := |cs| - 1;
    var front := cs[..n];
    assert forall k | 0 <= k < n :: front[k] == cs[k];
    hide Clears, BindsSlot;
    if b :| 0 <= b < |cs| && BindsAt(cs, b, compute, slot, s) {
      assert !Clears(cs[n].command);
      assert b < n ==> BindsAt(front, b, compute, slot, s);
    }
    if b :| 0 <= b < n && BindsAt(front, b, compute, slot, s)
            && !Clears(cs[n].command) && !BindsSlot(cs[n].command, compute, slot) {
      forall k | b <= k < |cs| ensures !Clears(cs[k].command) { assert k < n ==> front[k] == cs[k]; }
      assert BindsAt(cs, b, compute, slot, s);
    }
    if BindsSlot(cs[n].command, compute, slot) && !Clears(cs[n].command)
       && cs[n].command.sets[slot - cs[n].command.first] == s {
      assert BindsAt(cs, n, compute, slot, s);
    }
  }

  function SetsOf(tr: Tracked, compute: bool): map<nat, Id> {
    if compute then tr.computeSets else tr.graphicsSets
  }

  /** What is bound after a list of commands is what was bound last. */
  lemma {:induction false} BoundExactly(cs: seq<Recorded>, compute: bool, slot: nat, s: Id)
    ensures slot in SetsOf(TrackAll(cs), compute) && SetsOf(TrackAll(cs), compute)[slot] == s
            <==> Bound(cs, compute, slot, s)
    decreases |cs|
  {
    if cs != [] {
      var n := |cs| - 1;
      var c, before := cs[n].command, TrackAll(cs[..n]);
      BoundExactly(cs[..n], compute, slot, s);
      BoundSnoc(cs, compute, slot, s);
      hide Bound;
      if c.BindsSets? {
        BindFills(SetsOf(before, c.compute), c.first, c.sets);
      } else if c.Executes? {
        MergedAre(before, c.secondaries);
      }
    }
  }

  lemma StepWritable(cs: seq<Recorded>, i: nat)
    requires i < |cs| && !Clears(cs[i].command)
    ensures forall s :: s in TrackAll(cs[..i + 1]).writableSets
              <==> s in TrackAll(cs[..i]).writableSets || WritesThrough(cs, i, s)
  {
    StepAt(cs, i);
    var before := TrackAll(cs[..i]);
    hide Bound, TrackAll;
    forall s
      ensures s in TrackAll(cs[..i + 1]).writableSets <==> s in before.writableSets || WritesThrough(cs, i, s)
    {
      forall slot ensures slot in before.graphicsSets && before.graphicsSets[slot] == s <==> Bound(cs[..i], false, slot, s) {
        BoundExactly(cs[..i], false, slot, s);
      }
      forall slot ensures slot in before.computeSets && before.computeSets[slot] == s <==> Bound(cs[..i], true, slot, s) {
        BoundExactly(cs[..i], true, slot, s);
      }
      if cs[i].command.Executes? {
        MergedAre(before, cs[i].command.secondaries);
      }
    }
  }

  // ---------------------------------------------------------------------------
  // The guarantees
  // ---------------------------------------------------------------------------

  /** A command that writes a memory, followed by a host barrier that covers it, puts the memory in
      the submitted set, whatever the tables are when it is submitted. */
  lemma WriteBeforeBarrierIsSubmitted(cs: seq<Recorded>, i: nat, j: nat, m: Id, t: Tables)
    requires i < j < |cs| && Continuous(cs, i)
    requires WritesTo(cs[i], m) && CoversMemory(cs[j], m)
    ensures Attributes(t, TrackAll(cs), m)
  {
    WriteIsTracked(cs, i, j);
    StepAt(cs, j);
    var before := TrackAll(cs[..j]);
    if !GeneralHost(cs[j].command) {
      var target: Target :| HostBarrierOn(cs[j].command, target) && Backs(cs[j].tables, target, m);
      TargetBacks(cs[j].tables, target, m);
      BarrierExposes(cs[j], before, target, m);
    }
    assert m in TrackAll(cs[..j + 1]).visible;
    RunKeeps(cs, j + 1);
  }

  /** A shader write through a descriptor set, followed by a general host barrier, puts every memory
      the set's storage descriptors lead to at submission in the submitted set. */
  lemma ShaderWriteBeforeGeneralBarrier(cs: seq<Recorded>, i: nat, j: nat, s: Id, t: Tables)
    requires i < j < |cs| && Continuous(cs, i)
    requires WritesThrough(cs, i, s) && GeneralHost(cs[j].command)
    ensures forall m | SetLeadsTo(t, s, m) :: Attributes(t, TrackAll(cs), m)
  {
    hide Track, TrackAll, GeneralHost, WritesThrough, SetLeadsTo;
    WriteIsTracked(cs, i, j);
    StepAt(cs, j);
    StepKeeps(cs[j], TrackAll(cs[..j]));
    GeneralExposes(cs[j], TrackAll(cs[..j]));
    RunKeeps(cs, j + 1);
  }

  lemma GeneralExposes(r: Recorded, tr: Tracked)
    requires GeneralHost(r.command)
    ensures Track(r.tables, tr, r.command).descriptorsVisible
  {
  }

  /** Followed by a host barrier on a resource that one of the set's storage descriptors refers to,
      it puts the resource's memory in the submitted set. */
  lemma ShaderWriteBeforeResourceBarrier(cs: seq<Recorded>, i: nat, j: nat, s: Id, target: Target, m: Id, t: Tables)
    requires i < j < |cs| && Continuous(cs, i)
    requires WritesThrough(cs, i, s)
    requires HostBarrierOn(cs[j].command, target) && Backs(cs[j].tables, target, m)
    requires InSets(cs[j].tables, {s}, target)
    ensures Attributes(t, TrackAll(cs), m)
  {
    TargetBacks(cs[j].tables, target, m);
    SetsReferTo(cs[j].tables, {s}, target);
    WriteIsTracked(cs, i, j);
    StepAt(cs, j);
    BarrierExposes(cs[j], TrackAll(cs[..j]), target, m);
    RunKeeps(cs, j + 1);
  }

  // ---------------------------------------------------------------------------
  // Only host barriers make anything visible
  // ---------------------------------------------------------------------------

  /** The memories a barrier makes visible. */
  ghost predicate MadeVisible(r: Recorded, before: Tracked, m: Id) {
    match r.command
    case Barrier(_, _, _, _) =>
      || (GeneralHost(r.command) && m in before.pending)
      || (exists target: Target :: HostBarrierOn(r.command, target) && m in TargetMemory(r.tables, target)
            && (m in before.pending || SomeSetRefers(r.tables, before.writableSets, target)))
    case Barrier2(_, _, _) =>
      || (GeneralHost(r.command) && m in before.pending)
      || (exists target: Target :: HostBarrierOn(r.command, target) && m in TargetMemory(r.tables, target))
    case Executes(secondaries) => m in UnionOf(secondaries, (s: Tracked) => s.visible)
    case _ => false
  }

  lemma {:induction false} FromExposedBuffers(t: Tables, tr: Tracked, bs: seq<HostBarrier>, m: Id)
    requires m in ExposedBuffers(t, tr, bs)
    ensures exists id :: HostBarrier(id, true) in bs && m in TargetMemory(t, Buffer(id))
                         && (m in tr.pending || SomeSetRefers(t, tr.writableSets, Buffer(id)))
    decreases |bs|
  {
    var n := |bs| - 1;
    if m in ExposedBuffers(t, tr, bs[..n]) {
      FromExposedBuffers(t, tr, bs[..n], m);
    } else {
      assert bs[n] == HostBarrier(bs[n].id, true);
    }
  }

  lemma {:induction false} FromExposedImages(t: Tables, tr: Tracked, bs: seq<HostBarrier>, m: Id)
    requires m in ExposedImages(t, tr, bs)
    ensures exists id :: HostBarrier(id, true) in bs && m in TargetMemory(t, Image(id))
                         && (m in tr.pending || SomeSetRefers(t, tr.writableSets, Image(id)))
    decreases |bs|
  {
    var n := |bs| - 1;
    if m in ExposedImages(t, tr, bs[..n]) {
      FromExposedImages(t, tr, bs[..n], m);
    } else {
      assert bs[n] == HostBarrier(bs[n].id, true);
    }
  }

  lemma {:induction false} FromNamedBuffers(t: Tables, bs: seq<HostBarrier>, m: Id)
    requires m in NamedBuffers(t, bs)
    ensures exists id :: HostBarrier(id, true) in bs && m in TargetMemory(t, Buffer(id))
    decreases |bs|
  {
    var n := |bs| - 1;
    if m in NamedBuffers(t, bs[..n]) {
      FromNamedBuffers(t, bs[..n], m);
    } else {
      assert bs[n] == HostBarrier(bs[n].id, true);
    }
  }

  lemma {:induction false} FromNamedImages(t: Tables, bs: seq<HostBarrier>, m: Id)
    requires m in NamedImages(t, bs)
    ensures exists id :: HostBarrier(id, true) in bs && m in TargetMemory(t, Image(id))
    decreases |bs|
  {
    var n := |bs| - 1;
    if m in NamedImages(t, bs[..n]) {
      FromNamedImages(t, bs[..n], m);
    } else {
      assert bs[n] == HostBarrier(bs[n].id, true);
    }
  }

  lemma StepVisible(r: Recorded, tr: Tracked, m: Id)
    requires !Clears(r.command)
    ensures m in Track(r.tables, tr, r.command).visible <==> m in tr.visible || MadeVisible(r, tr, m)
  {
    var after := Track(r.tables, tr, r.command);
    match r.command
    case Barrier(hostStage, memory, buffers, images) =>
      if hostStage && m in ExposedBuffers(r.tables, tr, buffers) {
        FromExposedBuffers(r.tables, tr, buffers, m);
        var id :| HostBarrier(id, true) in buffers && m in TargetMemory(r.tables, Buffer(id))
                  && (m in tr.pending || SomeSetRefers(r.tables, tr.writableSets, Buffer(id)));
        assert HostBarrierOn(r.command, Buffer(id));
      }
      if hostStage && m in ExposedImages(r.tables, tr, images) {
        FromExposedImages(r.tables, tr, images, m);
        var id :| HostBarrier(id, true) in images && m in TargetMemory(r.tables, Image(id))
                  && (m in tr.pending || SomeSetRefers(r.tables, tr.writableSets, Image(id)));
        assert HostBarrierOn(r.command, Image(id));
      }
      if target: Target :| HostBarrierOn(r.command, target) && m in TargetMemory(r.tables, target)
                           && (m in tr.pending || SomeSetRefers(r.tables, tr.writableSets, target)) {
        BarrierExposes(r, tr, target, m);
      }
    case Barrier2(memory, buffers, images) =>
      if m in NamedBuffers(r.tables, buffers) {
        FromNamedBuffers(r.tables, buffers, m);
        var id :| HostBarrier(id, true) in buffers && m in TargetMemory(r.tables, Buffer(id));
        assert HostBarrierOn(r.command, Buffer(id));
      }
      if m in NamedImages(r.tables, images) {
        FromNamedImages(r.tables, images, m);
        var id :| HostBarrier(id, true) in images && m in TargetMemory(r.tables, Image(id));
        assert HostBarrierOn(r.command, Image(id));
      }
      if target: Target :| HostBarrierOn(r.command, target) && m in TargetMemory(r.tables, target) {
        if target.Buffer? {
          InNamedBuffers(r.tables, buffers, target.id);
        } else {
          InNamedImages(r.tables, images, target.id);
        }
      }
    case Executes(secondaries) => MergesUnite(tr, secondaries);
    case BeginsRenderPass(_, _) =>
    case Writes(_) =>
    case BindsSets(_, _, _) =>
    case Draws =>
    case Dispatches =>
  }

  ghost predicate HasPending(cs: seq<Recorded>, m: Id) {
    exists i | 0 <= i < |cs| :: Continuous(cs, i) && WritesTo(cs[i], m)
  }

  ghost predicate HasWritable(cs: seq<Recorded>, s: Id) {
    exists i | 0 <= i < |cs| :: Continuous(cs, i) && WritesThrough(cs, i, s)
  }

  /** Descriptor writes count from this command on: a general host barrier, or a secondary in which they
      do. */
  predicate ShowsDescriptors(c: Command) {
    GeneralHost(c) || (c.Executes? && exists i :: 0 <= i < |c.secondaries| && c.secondaries[i].descriptorsVisible)
  }

  ghost predicate HasShown(cs: seq<Recorded>) {
    exists i | 0 <= i < |cs| :: Continuous(cs, i) && ShowsDescriptors(cs[i].command)
  }

  lemma ContinuousSnoc(cs: seq<Recorded>, i: nat)
    requires i < |cs|
    ensures var n := |cs| - 1; Continuous(cs, i) <==> !Clears(cs[n].command) && (i == n || Continuous(cs[..n], i))
  {
    var n := |cs| - 1;
    assert forall k | 0 <= k < n :: cs[..n][k] == cs[k];
    if !Clears(cs[n].command) && i < n && Continuous(cs[..n], i) {
      forall k | i <= k < |cs| ensures !Clears(cs[k].command) { assert k < n ==> cs[..n][k] == cs[k]; }
    }
  }

  lemma PendingSnoc(cs: seq<Recorded>, m: Id)
    requires cs != []
    ensures var n := |cs| - 1;
            HasPending(cs, m) <==> !Clears(cs[n].command) && (WritesTo(cs[n], m) || HasPending(cs[..n], m))
  {
    hide Clears, WritesTo, Continuous;
    var n := |cs| - 1;
    forall i: nat | i < |cs| ensures Continuous(cs, i) <==> !Clears(cs[n].command) && (i == n || Continuous(cs[..n], i)) {
      ContinuousSnoc(cs, i);
    }
    if i :| 0 <= i < |cs| && Continuous(cs, i) && WritesTo(cs[i], m) { assert i < n ==> cs[..n][i] == cs[i]; }
    if i :| 0 <= i < n && Continuous(cs[..n], i) && WritesTo(cs[..n][i], m) { assert cs[..n][i] == cs[i]; }
  }

  lemma WritableSnoc(cs: seq<Recorded>, s: Id)
    requires cs != []
    ensures var n := |cs| - 1;
            HasWritable(cs, s) <==> !Clears(cs[n].command) && (WritesThrough(cs, n, s) || HasWritable(cs[..n], s))
  {
    hide Clears, Continuous, Bound;
    var n := |cs| - 1;
    forall i: nat | i < |cs| ensures Continuous(cs, i) <==> !Clears(cs[n].command) && (i == n || Continuous(cs[..n], i)) {
      ContinuousSnoc(cs, i);
    }
    forall i: nat | i < n ensures WritesThrough(cs[..n], i, s) <==> WritesThrough(cs, i, s) {
      assert cs[..n][..i] == cs[..i] && cs[..n][i] == cs[i];
    }
    hide WritesThrough;
    if i :| 0 <= i < n && Continuous(cs[..n], i) && WritesThrough(cs[..n], i, s) { assert WritesThrough(cs, i, s); }
    if i :| 0 <= i < |cs| && Continuous(cs, i) && WritesThrough(cs, i, s) {
      assert i < n ==> WritesThrough(cs[..n], i, s);
    }
  }

  lemma ShownSnoc(cs: seq<Recorded>)
    requires cs != []
    ensures var n := |cs| - 1;
            HasShown(cs) <==> !Clears(cs[n].command) && (ShowsDescriptors(cs[n].command) || HasShown(cs[..n]))
  {
    hide Clears, Continuous, ShowsDescriptors;
    var n := |cs| - 1;
    forall i: nat | i < |cs| ensures Continuous(cs, i) <==> !Clears(cs[n].command) && (i == n || Continuous(cs[..n], i)) {
      ContinuousSnoc(cs, i);
    }
    if i :| 0 <= i < |cs| && Continuous(cs, i) && ShowsDescriptors(cs[i].command) { assert i < n ==> cs[..n][i] == cs[i]; }
    if i :| 0 <= i < n && Continuous(cs[..n], i) && ShowsDescriptors(cs[..n][i].command) { assert cs[..n][i] == cs[i]; }
  }

  /** What is tracked after a list of commands, said of the commands. */
  lemma {:induction false} TrackedExactly(cs: seq<Recorded>)
    ensures forall m :: m in TrackAll(cs).pending <==> HasPending(cs, m)
    ensures forall s :: s in TrackAll(cs).writableSets <==> HasWritable(cs, s)
    ensures TrackAll(cs).descriptorsVisible <==> HasShown(cs)
    decreases |cs|
  {
    if cs != [] {
      var n := |cs| - 1;
      TrackedExactly(cs[..n]);
      ShownSnoc(cs);
      assert cs[..n + 1] == cs;
      StepAt(cs, n);
      if !Clears(cs[n].command) {
        StepTracks(cs, n);
        StepWritable(cs, n);
        StepShows(cs[n], TrackAll(cs[..n]));
      }
      hide HasPending, HasWritable, HasShown, WritesTo, WritesThrough;
      forall m ensures m in TrackAll(cs).pending <==> HasPending(cs, m) { PendingSnoc(cs, m); }
      forall s ensures s in TrackAll(cs).writableSets <==> HasWritable(cs, s) { WritableSnoc(cs, s); }
    }
  }

  lemma StepShows(r: Recorded, tr: Tracked)
    requires !Clears(r.command)
    ensures Track(r.tables, tr, r.command).descriptorsVisible <==> tr.descriptorsVisible || ShowsDescriptors(r.command)
  {
    if r.command.Executes? {
      MergedAre(tr, r.command.secondaries);
    }
  }

  /** Command `k` makes the memory visible: a general host barrier after a write to it, a host barrier on a
      resource bound to it after a write to it or through a descriptor of the resource (the newer
      barriers ask for neither), or a secondary in which it is visible. */
  ghost predicate MakesVisible(cs: seq<Recorded>, k: nat, m: Id)
    requires k < |cs|
  {
    match cs[k].command
    case Barrier(_, _, _, _) =>
      || (GeneralHost(cs[k].command) && HasPending(cs[..k], m))
      || (exists target: Target :: HostBarrierOn(cs[k].command, target) && Backs(cs[k].tables, target, m)
            && (HasPending(cs[..k], m) || exists s :: HasWritable(cs[..k], s) && InSets(cs[k].tables, {s}, target)))
    case Barrier2(_, _, _) =>
      || (GeneralHost(cs[k].command) && HasPending(cs[..k], m))
      || (exists target: Target :: HostBarrierOn(cs[k].command, target) && Backs(cs[k].tables, target, m))
    case Executes(ss) => exists i :: 0 <= i < |ss| && m in ss[i].visible
    case _ => false
  }

  lemma SomeWritableRefers(t: Tables, cs: seq<Recorded>, target: Target)
    ensures SomeSetRefers(t, TrackAll(cs).writableSets, target)
            <==> exists s :: HasWritable(cs, s) && InSets(t, {s}, target)
  {
    TrackedExactly(cs);
    var sets := TrackAll(cs).writableSets;
    hide TrackAll, HasWritable;
    forall s ensures SetRefers(t, s, target) <==> InSets(t, {s}, target) {
      SetsReferTo(t, {s}, target);
      assert SetRefers(t, s, target) <==> SomeSetRefers(t, {s}, target);
    }
  }

  lemma MadeVisibleIs(cs: seq<Recorded>, k: nat, m: Id)
    requires k < |cs|
    ensures MadeVisible(cs[k], TrackAll(cs[..k]), m) <==> MakesVisible(cs, k, m)
  {
    var r, before := cs[k], TrackAll(cs[..k]);
    TrackedExactly(cs[..k]);
    hide TrackAll, HasPending, HasWritable, SomeSetRefers, InSets;
    forall target: Target
      ensures m in TargetMemory(r.tables, target) <==> Backs(r.tables, target, m)
      ensures SomeSetRefers(r.tables, before.writableSets, target)
              <==> exists s :: HasWritable(cs[..k], s) && InSets(r.tables, {s}, target)
    {
      TargetBacks(r.tables, target, m);
      SomeWritableRefers(r.tables, cs[..k], target);
    }
    hide TargetMemory, Backs, HostBarrierOn;
    if r.command.Executes? {
      MergesUnite(CLEARED, r.command.secondaries);
      MergedAre(CLEARED, r.command.secondaries);
    }
  }

  /** A memory is visible exactly when a host barrier, or an executed secondary, made it so since the
      recording last started over. */
  lemma {:induction false} VisibleExactly(cs: seq<Recorded>, m: Id)
    ensures m in TrackAll(cs).visible <==> exists k | 0 <= k < |cs| :: Continuous(cs, k) && MakesVisible(cs, k, m)
    decreases |cs|
  {
    if cs != [] {
      var n := |cs| - 1;
      VisibleExactly(cs[..n], m);
      if !Clears(cs[n].command) {
        StepVisible(cs[n], TrackAll(cs[..n]), m);
        MadeVisibleIs(cs, n, m);
      }
      hide MadeVisible;
      forall k: nat | k < |cs|
        ensures Continuous(cs, k) <==> !Clears(cs[n].command) && (k == n || Continuous(cs[..n], k))
        ensures k < n ==> (MakesVisible(cs[..n], k, m) <==> MakesVisible(cs, k, m))
      {
        ContinuousSnoc(cs, k);
        if k < n { assert cs[..n][..k] == cs[..k] && cs[..n][k] == cs[k]; }
      }
      hide MakesVisible, Continuous;
      if k :| 0 <= k < n && Continuous(cs[..n], k) && MakesVisible(cs[..n], k, m) { assert MakesVisible(cs, k, m); }
      if k :| 0 <= k < |cs| && Continuous(cs, k) && MakesVisible(cs, k, m) {
        assert k < n ==> MakesVisible(cs[..n], k, m);
      }
    }
  }

  /** A submission is attributed a memory exactly when a command made it visible, or descriptor writes count
      and a set that some command may write through leads to it. */
  lemma AttributedExactly(cs: seq<Recorded>, t: Tables, m: Id)
    ensures Attributes(t, TrackAll(cs), m)
            <==> (exists k | 0 <= k < |cs| :: Continuous(cs, k) && MakesVisible(cs, k, m))
                 || (HasShown(cs) && exists s :: HasWritable(cs, s) && SetLeadsTo(t, s, m))
  {
    VisibleExactly(cs, m);
    TrackedExactly(cs);
    hide TrackAll, MakesVisible, HasShown, HasWritable, SetLeadsTo, Continuous;
  }

  /** Without host barriers and secondaries nothing is submitted for the host. */
  lemma {:induction false} NothingWithoutBarriers(cs: seq<Recorded>, t: Tables)
    requires forall k | 0 <= k < |cs| :: !cs[k].command.Barrier? && !cs[k].command.Barrier2? && !cs[k].command.Executes?
    ensures SubmittedBy(t, TrackAll(cs)) == {} && !TrackAll(cs).descriptorsVisible && TrackAll(cs).visible == {}
    decreases |cs|
  {
    if cs != [] {
      NothingWithoutBarriers(cs[..|cs| - 1], t);
    }
  }

  // ---------------------------------------------------------------------------
  // Secondaries
  // ---------------------------------------------------------------------------

  /** Executing secondaries submits the union of what the primary and each of them made visible; the
      descriptor sets of all of them count as soon as one made descriptor writes visible. */
  lemma ExecuteSubmitsUnion(t: Tables, primary: Tracked, ss: seq<Tracked>, t': Tables)
    ensures SubmittedBy(t', Track(t, primary, Executes(ss)))
            == primary.visible + UnionOf(ss, (s: Tracked) => s.visible)
               + (if primary.descriptorsVisible || exists i :: 0 <= i < |ss| && ss[i].descriptorsVisible
                  then DescriptorWrites(t', primary.writableSets + UnionOf(ss, (s: Tracked) => s.writableSets)) else {})
  {
    MergesUnite(primary, ss);
  }

  lemma {:induction false} SecondaryIn(ss: seq<Tracked>, f: Tracked -> set<Id>, i: nat)
    requires i < |ss|
    ensures f(ss[i]) <= UnionOf(ss, f)
    decreases |ss|
  {
    if i < |ss| - 1 {
      SecondaryIn(ss[..|ss| - 1], f, i);
    }
  }

  /** What a secondary submits alone, its primary submits too. */
  lemma SecondaryIsSubmitted(t: Tables, primary: Tracked, ss: seq<Tracked>, i: nat, t': Tables)
    requires i < |ss|
    ensures SubmittedBy(t', ss[i]) <= SubmittedBy(t', Track(t, primary, Executes(ss)))
  {
    ExecuteSubmitsUnion(t, primary, ss, t');
    SecondaryIn(ss, (s: Tracked) => s.visible, i);
    SecondaryIn(ss, (s: Tracked) => s.writableSets, i);
  }

  /** Executing is not inlining: a host barrier in a secondary does not make the primary's earlier
      write visible, which the same barrier in the primary would. */
  lemma ExecuteIsNotInlining(t: Tables, buffer: Id)
    requires buffer in t.bufferMemory
    ensures var write, barrier := Recorded(t, Writes(Buffer(buffer))), Recorded(t, Barrier(true, [true], [], []));
            && t.bufferMemory[buffer] in SubmittedBy(t, TrackAll([write, barrier]))
            && SubmittedBy(t, TrackAll([write, Recorded(t, Executes([TrackAll([barrier])]))])) == {}
  {
    var write, barrier := Recorded(t, Writes(Buffer(buffer))), Recorded(t, Barrier(true, [true], [], []));
    var execute := Recorded(t, Executes([TrackAll([barrier])]));
    WriteBeforeBarrierIsSubmitted([write, barrier], 0, 1, t.bufferMemory[buffer], t);
    assert [barrier][..0] == [] && [write][..0] == [] && [write, execute][..1] == [write];
    assert TrackAll([barrier]) == CLEARED.(descriptorsVisible := true);
    assert TrackAll([write]).visible == {} && TrackAll([write]).writableSets == {};
    MergesUnite(TrackAll([write]), [TrackAll([barrier])]);
    assert [TrackAll([barrier])][..0] == [];
  }
}
