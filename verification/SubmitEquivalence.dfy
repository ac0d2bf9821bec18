/** The two submit entry points, given equivalent lists, leave the same provenance tables, except for
    the value noted with a wait on a binary semaphore that stays pending, which nothing reads. */
module SubmitEquivalence {
  import opened Options
  import opened Provenance
  import opened QueueSubmission
  import Recording
  import Chains = PNextChain
  import HB = HappensBefore
  import Runs = ProvenanceRuns

  // ---------------------------------------------------------------------------
  // Equivalent lists
  // ---------------------------------------------------------------------------

  /** The same semaphore, and the same value where the semaphore has one. */
  predicate SameOp(semaphores: map<SemaphoreId, Semaphore>, a: SemaphoreOp, b: SemaphoreOp) {
    a.id == b.id && (IsTimeline(semaphores, a.id) ==> a.value == b.value)
  }

  predicate SameOps(semaphores: map<SemaphoreId, Semaphore>, a: seq<SemaphoreOp>, b: seq<SemaphoreOp>) {
    |a| == |b| && forall j | 0 <= j < |a| :: SameOp(semaphores, a[j], b[j])
  }

  predicate SameBatch(semaphores: map<SemaphoreId, Semaphore>, a: Batch, b: Batch) {
    a.writes == b.writes && SameOps(semaphores, a.waits, b.waits) && SameOps(semaphores, a.signals, b.signals)
  }

  predicate SameBatches(semaphores: map<SemaphoreId, Semaphore>, a: seq<Batch>, b: seq<Batch>) {
    |a| == |b| && forall i | 0 <= i < |a| :: SameBatch(semaphores, a[i], b[i])
  }

  /** The same command buffers and semaphores; a timeline value comes from the separate structure in
      one list and from the operation itself in the other. */
  predicate SameSubmit(semaphores: map<SemaphoreId, Semaphore>, a: SubmitInfo, b: SubmitInfo2) {
    && |a.commandBuffers| == |b.commandBuffers| && |a.waits| == |b.waits| && |a.signals| == |b.signals|
    && (forall k | 0 <= k < |a.commandBuffers| :: a.commandBuffers[k] == b.commandBuffers[k].buffer)
    && (forall j | 0 <= j < |a.waits| :: a.waits[j] == b.waits[j].id
          && (IsTimeline(semaphores, a.waits[j]) ==> WaitValueIs(a.chain, j, b.waits[j].value)))
    && (forall j | 0 <= j < |a.signals| :: a.signals[j] == b.signals[j].id
          && (IsTimeline(semaphores, a.signals[j]) ==> SignalValueIs(a.chain, j, b.signals[j].value)))
  }

  /** The chain's last node with timeline values supplies this one to wait or signal `j`. */
  predicate WaitValueIs(chain: seq<Chains.Node>, j: nat, value: nat) {
    exists n | 0 <= n < |chain| :: LastTimelineAt(chain, n) && j < |chain[n].waits| && chain[n].waits[j] == value
  }

  predicate SignalValueIs(chain: seq<Chains.Node>, j: nat, value: nat) {
    exists n | 0 <= n < |chain| :: LastTimelineAt(chain, n) && j < |chain[n].signals| && chain[n].signals[j] == value
  }

  predicate SameSubmits(semaphores: map<SemaphoreId, Semaphore>, a: seq<SubmitInfo>, b: seq<SubmitInfo2>) {
    |a| == |b| && forall i | 0 <= i < |a| :: SameSubmit(semaphores, a[i], b[i])
  }

  lemma SubmitsAreBatches(semaphores: map<SemaphoreId, Semaphore>, t: Recording.Tables, a: seq<SubmitInfo>,
                          b: seq<SubmitInfo2>)
    requires SameSubmits(semaphores, a, b)
    ensures SameBatches(semaphores, Batches(t, a), Batches2(t, b))
  {
    forall i | 0 <= i < |a|
      ensures SameBatch(semaphores, Batches(t, a)[i], Batches2(t, b)[i])
    {
      assert SameSubmit(semaphores, a[i], b[i]);
      SubmitIsBatch(semaphores, t, a[i], b[i]);
    }
  }

  lemma SubmitIsBatch(semaphores: map<SemaphoreId, Semaphore>, t: Recording.Tables, a: SubmitInfo, b: SubmitInfo2)
    requires SameSubmit(semaphores, a, b)
    ensures SameBatch(semaphores, a.ToBatch(t), b.ToBatch(t))
  {
    BatchCarries(t, a);
    var v, w := a.ToBatch(t), b.ToBatch(t);
    assert a.commandBuffers == b.Buffers();
    hide Recording.Attributes, Recording.SubmittedWrites, LastTimeline;
    forall j | 0 <= j < |a.waits| ensures SameOp(semaphores, v.waits[j], w.waits[j]) {
      assert v.waits[j].id == a.waits[j] == b.waits[j].id;
    }
    forall j | 0 <= j < |a.signals| ensures SameOp(semaphores, v.signals[j], w.signals[j]) {
      assert v.signals[j].id == a.signals[j] == b.signals[j].id;
    }
  }

  // ---------------------------------------------------------------------------
  // Planning
  // ---------------------------------------------------------------------------

  /** The same wait up to the value noted for a binary semaphore. */
  predicate SameWait(semaphores: map<SemaphoreId, Semaphore>, a: PlannedWait, b: PlannedWait) {
    && a.id == b.id && a.wait.(value := 0) == b.wait.(value := 0)
    && (IsTimeline(semaphores, a.id) ==> a.wait.value == b.wait.value)
  }

  predicate SameWaits(semaphores: map<SemaphoreId, Semaphore>, a: seq<PlannedWait>, b: seq<PlannedWait>) {
    |a| == |b| && forall k | 0 <= k < |a| :: SameWait(semaphores, a[k], b[k])
  }

  predicate SamePlan(semaphores: map<SemaphoreId, Semaphore>, a: Plan, b: Plan) {
    a.(waits := []) == b.(waits := []) && SameWaits(semaphores, a.waits, b.waits)
  }

  /** A wait on the semaphore stays pending: a binary one without a signal, which the call does not signal. */
  predicate Lingers(semaphores: map<SemaphoreId, Semaphore>, signaled: set<SemaphoreId>, id: SemaphoreId) {
    id in semaphores && !semaphores[id].timeline && !semaphores[id].signaled && id !in signaled
  }

  predicate NotesAgree(semaphores: map<SemaphoreId, Semaphore>, signaled: set<SemaphoreId>,
                       a: seq<SemaphoreOp>, b: seq<SemaphoreOp>)
    requires |a| == |b|
  {
    forall j | 0 <= j < |a| :: Lingers(semaphores, signaled, a[j].id) ==> a[j].note == b[j].note
  }

  /** Outside `signaled`, the planned waits are the same in every field. */
  predicate ValuesAgree(signaled: set<SemaphoreId>, a: seq<PlannedWait>, b: seq<PlannedWait>)
    requires |a| == |b|
  {
    forall k | 0 <= k < |a| :: a[k].id !in signaled ==> a[k].wait.value == b[k].wait.value
  }

  lemma {:induction false} WaitsAlike(semaphores: map<SemaphoreId, Semaphore>, queue: QueueId, serial: nat,
                                      downstream: seq<SemaphoreId>, signaled: set<SemaphoreId>, p: Plan, q: Plan,
                                      a: seq<SemaphoreOp>, b: seq<SemaphoreOp>)
    requires SamePlan(semaphores, p, q) && SameOps(semaphores, a, b)
    ensures var p', q' := PlanWaits(semaphores, queue, serial, downstream, p, a),
                          PlanWaits(semaphores, queue, serial, downstream, q, b);
            && SamePlan(semaphores, p', q')
            && (ValuesAgree(signaled, p'.waits, q'.waits)
                <==> ValuesAgree(signaled, p.waits, q.waits) && NotesAgree(semaphores, signaled, a, b))
    decreases |a|
  {
    if a != [] {
      var n := |a| - 1;
      WaitsAlike(semaphores, queue, serial, downstream, signaled, p, q, a[..n], b[..n]);
      var p0, q0 := PlanWaits(semaphores, queue, serial, downstream, p, a[..n]),
                    PlanWaits(semaphores, queue, serial, downstream, q, b[..n]);
      OneWaitAlike(semaphores, queue, serial, downstream, signaled, p0, q0, a[n], b[n]);
      assert NotesAgree(semaphores, signaled, a, b)
             == (NotesAgree(semaphores, signaled, a[..n], b[..n])
                 && (Lingers(semaphores, signaled, a[n].id) ==> a[n].note == b[n].note)) by {
        assert forall j | 0 <= j < n :: a[..n][j] == a[j] && b[..n][j] == b[j];
      }
    }
  }

  lemma OneWaitAlike(semaphores: map<SemaphoreId, Semaphore>, queue: QueueId, serial: nat,
                     downstream: seq<SemaphoreId>, signaled: set<SemaphoreId>, p: Plan, q: Plan,
                     a: SemaphoreOp, b: SemaphoreOp)
    requires SamePlan(semaphores, p, q) && SameOp(semaphores, a, b)
    ensures var p', q' := PlanWait(semaphores, queue, serial, downstream, p, a),
                          PlanWait(semaphores, queue, serial, downstream, q, b);
            && SamePlan(semaphores, p', q')
            && (ValuesAgree(signaled, p'.waits, q'.waits)
                <==> ValuesAgree(signaled, p.waits, q.waits)
                     && (Lingers(semaphores, signaled, a.id) ==> a.note == b.note))
  {
    var p', q' := PlanWait(semaphores, queue, serial, downstream, p, a),
                  PlanWait(semaphores, queue, serial, downstream, q, b);
    if a.id in semaphores {
      var s := semaphores[a.id];
      assert Resolve(s, a) == Resolve(s, b);
      var n := |p.waits|;
      assert forall k | 0 <= k < n :: p'.waits[k] == p.waits[k] && q'.waits[k] == q.waits[k];
      if !Resolve(s, a).1 {
        assert p'.waits[n].wait.value == PendingValue(s.timeline, a);
        assert q'.waits[n].wait.value == PendingValue(s.timeline, b);
      }
    }
  }

  lemma {:induction false} SignalsAlike(semaphores: map<SemaphoreId, Semaphore>, serial: nat, p: Plan, q: Plan,
                                        a: seq<SemaphoreOp>, b: seq<SemaphoreOp>)
    requires SamePlan(semaphores, p, q) && SameOps(semaphores, a, b)
    ensures var p', q' := PlanSignals(semaphores, serial, p, a), PlanSignals(semaphores, serial, q, b);
            SamePlan(semaphores, p', q') && p'.waits == p.waits && q'.waits == q.waits
    decreases |a|
  {
    if a != [] {
      SignalsAlike(semaphores, serial, p, q, a[..|a| - 1], b[..|b| - 1]);
    }
  }

  predicate AllNotesAgree(semaphores: map<SemaphoreId, Semaphore>, signaled: set<SemaphoreId>,
                          a: seq<Batch>, b: seq<Batch>)
    requires SameBatches(semaphores, a, b)
  {
    forall i | 0 <= i < |a| :: NotesAgree(semaphores, signaled, a[i].waits, b[i].waits)
  }

  lemma BatchAlike(semaphores: map<SemaphoreId, Semaphore>, queue: QueueId, serial: nat, signaled: set<SemaphoreId>,
                   p: Plan, q: Plan, a: Batch, b: Batch)
    requires SamePlan(semaphores, p, q) && SameBatch(semaphores, a, b)
    ensures var p', q' := PlanBatch(semaphores, queue, serial, p, a), PlanBatch(semaphores, queue, serial, q, b);
            && SamePlan(semaphores, p', q')
            && (ValuesAgree(signaled, p'.waits, q'.waits)
                <==> ValuesAgree(signaled, p.waits, q.waits) && NotesAgree(semaphores, signaled, a.waits, b.waits))
  {
    assert Ids(a.signals) == Ids(b.signals) by {
      forall j | 0 <= j < |a.signals| ensures a.signals[j].id == b.signals[j].id {
        assert SameOp(semaphores, a.signals[j], b.signals[j]);
      }
    }
    var down := Ids(a.signals);
    WaitsAlike(semaphores, queue, serial, down, signaled, p.(submit := a.writes), q.(submit := b.writes),
               a.waits, b.waits);
    var p1 := PlanWaits(semaphores, queue, serial, down, p.(submit := a.writes), a.waits);
    var q1 := PlanWaits(semaphores, queue, serial, down, q.(submit := b.writes), b.waits);
    SignalsAlike(semaphores, serial, p1.(next := p1.next + p1.submit), q1.(next := q1.next + q1.submit),
                 a.signals, b.signals);
  }

  lemma BatchesSplit(semaphores: map<SemaphoreId, Semaphore>, signaled: set<SemaphoreId>, a: seq<Batch>, b: seq<Batch>,
                     n: nat)
    requires SameBatches(semaphores, a, b) && |a| == n + 1
    ensures SameBatches(semaphores, a[..n], b[..n]) && SameBatch(semaphores, a[n], b[n])
    ensures AllNotesAgree(semaphores, signaled, a, b)
            == (AllNotesAgree(semaphores, signaled, a[..n], b[..n])
                && NotesAgree(semaphores, signaled, a[n].waits, b[n].waits))
  {
    assert forall i | 0 <= i < n :: a[..n][i] == a[i] && b[..n][i] == b[i];
  }

  lemma {:induction false} PlansAlike(semaphores: map<SemaphoreId, Semaphore>, queue: QueueId, first: nat,
                                      next: set<MemoryId>, signaled: set<SemaphoreId>, a: seq<Batch>, b: seq<Batch>)
    requires SameBatches(semaphores, a, b)
    ensures var p, q := PlanAll(semaphores, queue, first, next, a), PlanAll(semaphores, queue, first, next, b);
            && SamePlan(semaphores, p, q)
            && ValuesAgree(signaled, p.waits, q.waits) == AllNotesAgree(semaphores, signaled, a, b)
    decreases |a|
  {
    if a != [] {
      var n := |a| - 1;
      BatchesSplit(semaphores, signaled, a, b, n);
      PlansAlike(semaphores, queue, first, next, signaled, a[..n], b[..n]);
      BatchAlike(semaphores, queue, first + n, signaled, PlanAll(semaphores, queue, first, next, a[..n]),
                 PlanAll(semaphores, queue, first, next, b[..n]), a[n], b[n]);
    }
  }

  // ---------------------------------------------------------------------------
  // Commit
  // ---------------------------------------------------------------------------

  predicate AlikeWaits(a: seq<PendingWait>, b: seq<PendingWait>) {
    |a| == |b| && forall i | 0 <= i < |a| :: a[i].(value := 0) == b[i].(value := 0)
  }

  predicate AlikeSemaphore(a: Semaphore, b: Semaphore) {
    a.(pending := []) == b.(pending := []) && AlikeWaits(a.pending, b.pending) && (a.timeline ==> a == b)
  }

  predicate AlikeSemaphores(a: map<SemaphoreId, Semaphore>, b: map<SemaphoreId, Semaphore>) {
    a.Keys == b.Keys && forall id | id in a :: AlikeSemaphore(a[id], b[id])
  }

  /** The same tables up to the values noted with pending waits on binary semaphores. */
  predicate Alike(a: State, b: State) {
    a.(semaphores := map[]) == b.(semaphores := map[]) && AlikeSemaphores(a.semaphores, b.semaphores)
  }

  lemma AlikeAt(a: map<SemaphoreId, Semaphore>, b: map<SemaphoreId, Semaphore>, id: SemaphoreId)
    requires AlikeSemaphores(a, b)
    ensures AlikeSemaphore(SemaphoreAt(a, id), SemaphoreAt(b, id))
  {
  }

  lemma PropagateAlike(a: State, b: State, queue: QueueId, after: nat, ids: set<MemoryId>)
    requires Alike(a, b)
    ensures Alike(Propagate(a, queue, after, ids), Propagate(b, queue, after, ids))
  {
    var a', b' := Propagate(a, queue, after, ids), Propagate(b, queue, after, ids);
    forall id | id in a'.semaphores
      ensures AlikeSemaphore(a'.semaphores[id], b'.semaphores[id])
    {
      assert AlikeSemaphore(a.semaphores[id], b.semaphores[id]);
    }
  }

  lemma {:induction false} DownstreamAlike(a: State, b: State, w: PendingWait, v: PendingWait,
                                           downstream: seq<SemaphoreId>, ids: set<MemoryId>)
    requires Alike(a, b) && w.(value := 0) == v.(value := 0)
    ensures Alike(PropagateAllDownstream(a, w, downstream, ids), PropagateAllDownstream(b, v, downstream, ids))
    decreases |downstream|
  {
    if downstream != [] {
      var n := |downstream| - 1;
      DownstreamAlike(a, b, w, v, downstream[..n], ids);
      var a0, b0 := PropagateAllDownstream(a, w, downstream[..n], ids), PropagateAllDownstream(b, v, downstream[..n], ids);
      AlikeAt(a0.semaphores, b0.semaphores, downstream[n]);
    }
  }

  lemma {:induction false} WakeAlike(a: State, b: State, signal: PlannedSignal, w: seq<PendingWait>, v: seq<PendingWait>)
    requires Alike(a, b) && AlikeWaits(w, v) && (signal.timeline ==> w == v)
    ensures Alike(WakeAll(a, signal, w), WakeAll(b, signal, v))
    decreases |w|
  {
    if w != [] {
      var n := |w| - 1;
      WakeAlike(a, b, signal, w[..n], v[..n]);
      var a0, b0 := WakeAll(a, signal, w[..n]), WakeAll(b, signal, v[..n]);
      assert w[n].(value := 0) == v[n].(value := 0);
      if Satisfies(signal, w[n]) {
        PropagateAlike(a0, b0, w[n].queue, w[n].serial, signal.memoryIds);
        DownstreamAlike(Propagate(a0, w[n].queue, w[n].serial, signal.memoryIds),
                        Propagate(b0, w[n].queue, w[n].serial, signal.memoryIds), w[n], v[n],
                        w[n].downstream, signal.memoryIds);
      }
    }
  }

  lemma {:induction false} BinaryClears(signal: PlannedSignal, waits: seq<PendingWait>)
    requires !signal.timeline
    ensures Unsatisfied(signal, waits) == []
    decreases |waits|
  {
    if waits != [] {
      BinaryClears(signal, waits[..|waits| - 1]);
    }
  }

  /** Waking propagates, and touches no pending wait and no semaphore's kind. */
  lemma {:induction false} WakeKeepsPending(st: State, signal: PlannedSignal, waits: seq<PendingWait>, id: SemaphoreId)
    ensures var s, s' := SemaphoreAt(st.semaphores, id), SemaphoreAt(WakeAll(st, signal, waits).semaphores, id);
            s'.pending == s.pending && s'.timeline == s.timeline
    decreases |waits|
  {
    if waits != [] {
      var n := |waits| - 1;
      WakeKeepsPending(st, signal, waits[..n], id);
      if Satisfies(signal, waits[n]) {
        var reached := Propagate(WakeAll(st, signal, waits[..n]), waits[n].queue, waits[n].serial, signal.memoryIds);
        DownstreamKeepsPending(reached, waits[n], waits[n].downstream, signal.memoryIds, id);
      }
    }
  }

  lemma {:induction false} DownstreamKeepsPending(st: State, wait: PendingWait, downstream: seq<SemaphoreId>,
                                                  ids: set<MemoryId>, id: SemaphoreId)
    ensures var s, s' := SemaphoreAt(st.semaphores, id),
                         SemaphoreAt(PropagateAllDownstream(st, wait, downstream, ids).semaphores, id);
            s'.pending == s.pending && s'.timeline == s.timeline
    decreases |downstream|
  {
    if downstream != [] {
      DownstreamKeepsPending(st, wait, downstream[..|downstream| - 1], ids, id);
    }
  }

  lemma CommitSignalAlike(a: State, b: State, queue: QueueId, signal: PlannedSignal)
    requires Alike(a, b) && signal.timeline == IsTimeline(a.semaphores, signal.id)
    ensures Alike(CommitSignal(a, queue, signal), CommitSignal(b, queue, signal))
  {
    AlikeAt(a.semaphores, b.semaphores, signal.id);
    var s := RecordSignal(SemaphoreAt(a.semaphores, signal.id), queue, signal);
    var u := RecordSignal(SemaphoreAt(b.semaphores, signal.id), queue, signal);
    var a0, b0 := a.(semaphores := a.semaphores[signal.id := s]), b.(semaphores := b.semaphores[signal.id := u]);
    WakeAlike(a0, b0, signal, s.pending, u.pending);
    var a1, b1 := WakeAll(a0, signal, s.pending), WakeAll(b0, signal, u.pending);
    AlikeAt(a1.semaphores, b1.semaphores, signal.id);
    WakeKeepsPending(a0, signal, s.pending, signal.id);
    if !signal.timeline {
      BinaryClears(signal, SemaphoreAt(a1.semaphores, signal.id).pending);
      BinaryClears(signal, SemaphoreAt(b1.semaphores, signal.id).pending);
    }
    var a2, b2 := CommitSignal(a, queue, signal), CommitSignal(b, queue, signal);
    forall id | id in a2.semaphores ensures AlikeSemaphore(a2.semaphores[id], b2.semaphores[id]) {
      AlikeAt(a1.semaphores, b1.semaphores, id);
    }
  }

  /** A binary signal clears its semaphore's pending waits, and no signal changes another's. */
  lemma CommitSignalPending(st: State, queue: QueueId, signal: PlannedSignal, id: SemaphoreId)
    requires signal.timeline == IsTimeline(st.semaphores, signal.id)
    ensures var s, s' := SemaphoreAt(st.semaphores, id), SemaphoreAt(CommitSignal(st, queue, signal).semaphores, id);
            && s'.timeline == s.timeline
            && (!s.timeline ==> s'.pending == if id == signal.id then [] else s.pending)
  {
    var s := RecordSignal(SemaphoreAt(st.semaphores, signal.id), queue, signal);
    var st0 := st.(semaphores := st.semaphores[signal.id := s]);
    WakeKeepsPending(st0, signal, s.pending, id);
    if !signal.timeline {
      BinaryClears(signal, SemaphoreAt(WakeAll(st0, signal, s.pending).semaphores, signal.id).pending);
    }
  }

  function SignaledIn(signals: seq<PlannedSignal>): set<SemaphoreId> {
    if signals == [] then {} else SignaledIn(signals[..|signals| - 1]) + {signals[|signals| - 1].id}
  }

  lemma {:induction false} CommitSignalsPending(st: State, queue: QueueId, signals: seq<PlannedSignal>, id: SemaphoreId)
    requires KindsAgree(st.semaphores, signals)
    ensures var s, s' := SemaphoreAt(st.semaphores, id), SemaphoreAt(CommitSignals(st, queue, signals).semaphores, id);
            && s'.timeline == s.timeline
            && (!s.timeline ==> s'.pending == if id in SignaledIn(signals) then [] else s.pending)
    decreases |signals|
  {
    if signals != [] {
      var n := |signals| - 1;
      CommitSignalsPending(st, queue, signals[..n], id);
      CommitSignalsPending(st, queue, signals[..n], signals[n].id);
      CommitSignalPending(CommitSignals(st, queue, signals[..n]), queue, signals[n], id);
    }
  }

  lemma {:induction false} CommitSignalsAlike(a: State, b: State, queue: QueueId, signals: seq<PlannedSignal>)
    requires Alike(a, b) && KindsAgree(a.semaphores, signals)
    ensures Alike(CommitSignals(a, queue, signals), CommitSignals(b, queue, signals))
    decreases |signals|
  {
    if signals != [] {
      var n := |signals| - 1;
      CommitSignalsAlike(a, b, queue, signals[..n]);
      CommitSignalsPending(a, queue, signals[..n], signals[n].id);
      CommitSignalAlike(CommitSignals(a, queue, signals[..n]), CommitSignals(b, queue, signals[..n]), queue, signals[n]);
    }
  }

  // ---------------------------------------------------------------------------
  // The calls
  // ---------------------------------------------------------------------------

  predicate PendingEqual(ids: set<SemaphoreId>, a: map<SemaphoreId, Semaphore>, b: map<SemaphoreId, Semaphore>) {
    && (forall id | id in a && id !in ids :: SemaphoreAt(a, id).pending == SemaphoreAt(b, id).pending)
    && (forall id | id in b && id !in ids :: SemaphoreAt(a, id).pending == SemaphoreAt(b, id).pending)
  }

  function WithPending(semaphores: map<SemaphoreId, Semaphore>, id: SemaphoreId, wait: PendingWait)
    : map<SemaphoreId, Semaphore>
  {
    var s := SemaphoreAt(semaphores, id);
    semaphores[id := s.(pending := s.pending + [wait])]
  }

  lemma OnePendingAlike(ids: set<SemaphoreId>, a: map<SemaphoreId, Semaphore>, b: map<SemaphoreId, Semaphore>,
                        id: SemaphoreId, x: PendingWait, y: PendingWait)
    requires AlikeSemaphores(a, b) && id in a
    requires x.(value := 0) == y.(value := 0) && (a[id].timeline ==> x == y)
    ensures AlikeSemaphores(WithPending(a, id, x), WithPending(b, id, y))
    ensures PendingEqual(ids, WithPending(a, id, x), WithPending(b, id, y))
            == (PendingEqual(ids, a, b) && (id !in ids ==> x.value == y.value))
  {
    AlikeAt(a, b, id);
    var p, q := a[id].pending, b[id].pending;
    if p + [x] == q + [y] {
      assert p == (p + [x])[..|p|] && q == (q + [y])[..|q|];
      assert (p + [x])[|p|] == (q + [y])[|q|];
    }
    PendingEqualStep(ids, a, b, WithPending(a, id, x), WithPending(b, id, y), id, x.value == y.value);
  }

  lemma PendingEqualStep(ids: set<SemaphoreId>, a0: map<SemaphoreId, Semaphore>, b0: map<SemaphoreId, Semaphore>,
                         a: map<SemaphoreId, Semaphore>, b: map<SemaphoreId, Semaphore>, id: SemaphoreId, same: bool)
    requires a0.Keys == b0.Keys && id in a0 && id in a && id in b
    requires a == a0[id := a[id]] && b == b0[id := b[id]]
    requires (a[id].pending == b[id].pending) == (a0[id].pending == b0[id].pending && same)
    ensures PendingEqual(ids, a, b) == (PendingEqual(ids, a0, b0) && (id !in ids ==> same))
  {
    assert forall other | other != id :: SemaphoreAt(a, other) == SemaphoreAt(a0, other)
                                         && SemaphoreAt(b, other) == SemaphoreAt(b0, other);
    if PendingEqual(ids, a, b) {
      forall other | other in a0 && other !in ids
        ensures SemaphoreAt(a0, other).pending == SemaphoreAt(b0, other).pending
      {
        assert SemaphoreAt(a, other).pending == SemaphoreAt(b, other).pending;
      }
    }
  }

  lemma ValuesSplit(ids: set<SemaphoreId>, w: seq<PlannedWait>, v: seq<PlannedWait>, n: nat)
    requires |w| == |v| == n + 1
    ensures ValuesAgree(ids, w, v)
            == (ValuesAgree(ids, w[..n], v[..n]) && (w[n].id !in ids ==> w[n].wait.value == v[n].wait.value))
  {
    assert forall k | 0 <= k < n :: w[..n][k] == w[k] && v[..n][k] == v[k];
  }

  lemma {:induction false} PendingKinds(semaphores: map<SemaphoreId, Semaphore>, w: seq<PlannedWait>)
    requires forall k | 0 <= k < |w| :: w[k].id in semaphores
    ensures AddPending(semaphores, w).Keys == semaphores.Keys
    ensures forall id | id in semaphores :: AddPending(semaphores, w)[id].timeline == semaphores[id].timeline
    decreases |w|
  {
    if w != [] {
      PendingKinds(semaphores, w[..|w| - 1]);
    }
  }

  /** Adding the planned waits: alike tables, with equal lists outside `ids` exactly when the values
      outside `ids` are. */
  lemma {:induction false} PendingAlike(semaphores: map<SemaphoreId, Semaphore>, ids: set<SemaphoreId>,
                                        w: seq<PlannedWait>, v: seq<PlannedWait>)
    requires SameWaits(semaphores, w, v) && forall k | 0 <= k < |w| :: w[k].id in semaphores
    ensures var a, b := AddPending(semaphores, w), AddPending(semaphores, v);
            AlikeSemaphores(a, b) && PendingEqual(ids, a, b) == ValuesAgree(ids, w, v)
    decreases |w|
  {
    if w != [] {
      hide AlikeSemaphores, PendingEqual, ValuesAgree;
      var n := |w| - 1;
      assert SameWaits(semaphores, w[..n], v[..n]);
      PendingAlike(semaphores, ids, w[..n], v[..n]);
      PendingKinds(semaphores, w[..n]);
      assert SameWait(semaphores, w[n], v[n]);
      var a, b := AddPending(semaphores, w[..n]), AddPending(semaphores, v[..n]);
      OnePendingAlike(ids, a, b, w[n].id, w[n].wait, v[n].wait);
      assert AddPending(semaphores, w) == WithPending(a, w[n].id, w[n].wait);
      assert AddPending(semaphores, v) == WithPending(b, v[n].id, v[n].wait);
      ValuesSplit(ids, w, v, n);
    }
  }

  function OpIds(ops: seq<SemaphoreOp>): set<SemaphoreId> {
    set j | 0 <= j < |ops| :: ops[j].id
  }

  /** The semaphores a call signals. */
  function SignaledBy(batches: seq<Batch>): set<SemaphoreId> {
    if batches == [] then {} else SignaledBy(batches[..|batches| - 1]) + OpIds(batches[|batches| - 1].signals)
  }

  predicate WaitsKnown(semaphores: map<SemaphoreId, Semaphore>, plan: Plan) {
    forall k | 0 <= k < |plan.waits| :: plan.waits[k].id in semaphores
  }

  lemma OpIdsSnoc(ops: seq<SemaphoreOp>, op: SemaphoreOp)
    ensures OpIds(ops + [op]) == OpIds(ops) + {op.id}
  {
    var all := ops + [op];
    assert all[|ops|] == op && forall j | 0 <= j < |ops| :: all[j] == ops[j];
    forall id | id in OpIds(ops) ensures id in OpIds(all) {
      var j :| 0 <= j < |ops| && ops[j].id == id;
      assert all[j].id == id;
    }
  }

  lemma OnePlannedSignal(semaphores: map<SemaphoreId, Semaphore>, serial: nat, plan: Plan, op: SemaphoreOp)
    requires KindsAgree(semaphores, plan.signals)
    ensures var plan' := PlanSignal(semaphores, serial, plan, op);
            && KindsAgree(semaphores, plan'.signals) && plan'.waits == plan.waits
            && SignaledIn(plan'.signals) == SignaledIn(plan.signals) + {op.id}
  {
    var plan' := PlanSignal(semaphores, serial, plan, op);
    assert plan'.signals[..|plan'.signals| - 1] == plan.signals;
  }

  lemma {:induction false} PlannedSignals(semaphores: map<SemaphoreId, Semaphore>, serial: nat, plan: Plan,
                                          ops: seq<SemaphoreOp>)
    requires KindsAgree(semaphores, plan.signals)
    ensures var plan' := PlanSignals(semaphores, serial, plan, ops);
            && KindsAgree(semaphores, plan'.signals) && plan'.waits == plan.waits
            && SignaledIn(plan'.signals) == SignaledIn(plan.signals) + OpIds(ops)
    decreases |ops|
  {
    hide KindsAgree, SignaledIn, PlanSignal;
    if ops != [] {
      var n := |ops| - 1;
      PlannedSignals(semaphores, serial, plan, ops[..n]);
      OnePlannedSignal(semaphores, serial, PlanSignals(semaphores, serial, plan, ops[..n]), ops[n]);
      OpIdsSnoc(ops[..n], ops[n]);
      assert ops == ops[..n] + [ops[n]];
    }
  }

  lemma {:induction false} PlannedWaitsKnown(semaphores: map<SemaphoreId, Semaphore>, queue: QueueId, serial: nat,
                                             downstream: seq<SemaphoreId>, plan: Plan, ops: seq<SemaphoreOp>)
    requires WaitsKnown(semaphores, plan)
    ensures var plan' := PlanWaits(semaphores, queue, serial, downstream, plan, ops);
            WaitsKnown(semaphores, plan') && plan'.signals == plan.signals
    decreases |ops|
  {
    if ops != [] {
      PlannedWaitsKnown(semaphores, queue, serial, downstream, plan, ops[..|ops| - 1]);
    }
  }

  lemma {:induction false} PlannedCall(semaphores: map<SemaphoreId, Semaphore>, queue: QueueId, first: nat,
                                       next: set<MemoryId>, batches: seq<Batch>)
    ensures var plan := PlanAll(semaphores, queue, first, next, batches);
            && KindsAgree(semaphores, plan.signals) && WaitsKnown(semaphores, plan)
            && SignaledIn(plan.signals) == SignaledBy(batches)
    decreases |batches|
  {
    if batches != [] {
      var n := |batches| - 1;
      PlannedCall(semaphores, queue, first, next, batches[..n]);
      var b, plan := batches[n], PlanAll(semaphores, queue, first, next, batches[..n]).(submit := batches[n].writes);
      PlannedWaitsKnown(semaphores, queue, first + n, Ids(b.signals), plan, b.waits);
      var waited := PlanWaits(semaphores, queue, first + n, Ids(b.signals), plan, b.waits);
      PlannedSignals(semaphores, first + n, waited.(next := waited.next + waited.submit), b.signals);
    }
  }

  /** What the plan's own update leaves, before its signals are committed. */
  function Updated(st: State, queue: QueueId, batches: seq<Batch>): State {
    var plan := PlanOf(st, queue, batches);
    var reserved := Reserved(st, queue, |batches|);
    reserved.(queueWrites := reserved.queueWrites[queue := plan.next],
              semaphores := ConsumeAll(AddPending(st.semaphores, plan.waits), plan.consumed))
  }

  lemma ConsumeKeeps(a: map<SemaphoreId, Semaphore>, ids: set<SemaphoreId>, id: SemaphoreId)
    ensures SemaphoreAt(ConsumeAll(a, ids), id).pending == SemaphoreAt(a, id).pending
    ensures SemaphoreAt(ConsumeAll(a, ids), id).timeline == SemaphoreAt(a, id).timeline
  {
  }

  lemma ConsumeAlike(a: map<SemaphoreId, Semaphore>, b: map<SemaphoreId, Semaphore>, ids: set<SemaphoreId>,
                     except: set<SemaphoreId>)
    requires AlikeSemaphores(a, b)
    ensures AlikeSemaphores(ConsumeAll(a, ids), ConsumeAll(b, ids))
    ensures PendingEqual(except, ConsumeAll(a, ids), ConsumeAll(b, ids)) == PendingEqual(except, a, b)
  {
    var a', b' := ConsumeAll(a, ids), ConsumeAll(b, ids);
    forall id | id in a'
      ensures AlikeSemaphore(a'[id], b'[id])
    {
      AlikeAt(a, b, id);
    }
    forall id: SemaphoreId
      ensures SemaphoreAt(a', id).pending == SemaphoreAt(a, id).pending
      ensures SemaphoreAt(b', id).pending == SemaphoreAt(b, id).pending
    {
      ConsumeKeeps(a, ids, id);
      ConsumeKeeps(b, ids, id);
    }
  }

  /** The update changes no semaphore's kind. */
  lemma UpdatedKinds(st: State, queue: QueueId, a: seq<Batch>)
    ensures KindsAgree(Updated(st, queue, a).semaphores, PlanOf(st, queue, a).signals)
    ensures SignaledIn(PlanOf(st, queue, a).signals) == SignaledBy(a)
  {
    var plan := PlanOf(st, queue, a);
    PlannedCall(st.semaphores, queue, st.nextSerial, QueueWrites(st.queueWrites, queue), a);
    PendingKinds(st.semaphores, plan.waits);
    forall k | 0 <= k < |plan.signals|
      ensures plan.signals[k].timeline == IsTimeline(Updated(st, queue, a).semaphores, plan.signals[k].id)
    {
      ConsumeKeeps(AddPending(st.semaphores, plan.waits), plan.consumed, plan.signals[k].id);
    }
  }

  lemma UpdatedAlike(st: State, queue: QueueId, a: seq<Batch>, b: seq<Batch>)
    requires SameBatches(st.semaphores, a, b)
    ensures Alike(Updated(st, queue, a), Updated(st, queue, b))
    ensures SamePlan(st.semaphores, PlanOf(st, queue, a), PlanOf(st, queue, b))
    ensures PendingEqual(SignaledBy(a), Updated(st, queue, a).semaphores, Updated(st, queue, b).semaphores)
            == AllNotesAgree(st.semaphores, SignaledBy(a), a, b)
  {
    var ids, next := SignaledBy(a), QueueWrites(st.queueWrites, queue);
    PlansAlike(st.semaphores, queue, st.nextSerial, next, ids, a, b);
    PlannedCall(st.semaphores, queue, st.nextSerial, next, a);
    var w, v := PlanOf(st, queue, a), PlanOf(st, queue, b);
    PendingAlike(st.semaphores, ids, w.waits, v.waits);
    ConsumeAlike(AddPending(st.semaphores, w.waits), AddPending(st.semaphores, v.waits), w.consumed, ids);
  }

  /** Alike tables are the same when the pending lists are. */
  lemma AlikeEqual(a: State, b: State)
    requires Alike(a, b)
    ensures a == b <==> PendingEqual({}, a.semaphores, b.semaphores)
  {
    if PendingEqual({}, a.semaphores, b.semaphores) {
      forall id | id in a.semaphores
        ensures a.semaphores[id] == b.semaphores[id]
      {
        assert AlikeSemaphore(a.semaphores[id], b.semaphores[id]);
        assert SemaphoreAt(a.semaphores, id).pending == SemaphoreAt(b.semaphores, id).pending;
      }
      assert a.semaphores == b.semaphores;
    }
  }

  /** After the signals, the pending lists agree exactly when those of unsignalled semaphores did. */
  lemma SignalsDecide(p: State, q: State, queue: QueueId, signals: seq<PlannedSignal>)
    requires Alike(p, q) && KindsAgree(p.semaphores, signals)
    ensures PendingEqual({}, CommitSignals(p, queue, signals).semaphores, CommitSignals(q, queue, signals).semaphores)
            == PendingEqual(SignaledIn(signals), p.semaphores, q.semaphores)
  {
    var p', q' := CommitSignals(p, queue, signals), CommitSignals(q, queue, signals);
    CommitSignalsAlike(p, q, queue, signals);
    forall id: SemaphoreId
      ensures SemaphoreAt(p'.semaphores, id).pending == SemaphoreAt(q'.semaphores, id).pending
              <==> id in SignaledIn(signals)
                   || SemaphoreAt(p.semaphores, id).pending == SemaphoreAt(q.semaphores, id).pending
    {
      CommitSignalsPending(p, queue, signals, id);
      CommitSignalsPending(q, queue, signals, id);
      AlikeAt(p.semaphores, q.semaphores, id);
      AlikeAt(p'.semaphores, q'.semaphores, id);
    }
  }

  /** Equivalent lists leave alike tables, and the same tables exactly when the notes of the waits
      that stay pending on binary semaphores agree. */
  lemma CallsAlike(st: State, queue: QueueId, a: seq<Batch>, b: seq<Batch>, fence: Option<FenceId>)
    requires SameBatches(st.semaphores, a, b)
    ensures var a', b' := Submit(st, queue, a, fence, true), Submit(st, queue, b, fence, true);
            Alike(a', b') && (a' == b' <==> AllNotesAgree(st.semaphores, SignaledBy(a), a, b))
  {
    var p, q, signals := Updated(st, queue, a), Updated(st, queue, b), PlanOf(st, queue, a).signals;
    UpdatedAlike(st, queue, a, b);
    UpdatedKinds(st, queue, a);
    CommitSignalsAlike(p, q, queue, signals);
    SignalsDecide(p, q, queue, signals);
    AlikeEqual(CommitSignals(p, queue, signals), CommitSignals(q, queue, signals));
    AlikeEqual(Submit(st, queue, a, fence, true), Submit(st, queue, b, fence, true));
  }

  /** The semaphores a list of the first version signals. */
  function SignaledIds(a: seq<SubmitInfo>): set<SemaphoreId> {
    set i, j | 0 <= i < |a| && 0 <= j < |a[i].signals| :: a[i].signals[j]
  }

  lemma {:induction false} SignaledAre(batches: seq<Batch>)
    ensures forall id :: id in SignaledBy(batches)
              <==> exists i, j :: 0 <= i < |batches| && 0 <= j < |batches[i].signals| && batches[i].signals[j].id == id
    decreases |batches|
  {
    if batches != [] {
      var n := |batches| - 1;
      SignaledAre(batches[..n]);
      forall id
        ensures id in SignaledBy(batches)
          <==> exists i, j :: 0 <= i < |batches| && 0 <= j < |batches[i].signals| && batches[i].signals[j].id == id
      {
        if i, j :| 0 <= i < n && 0 <= j < |batches[..n][i].signals| && batches[..n][i].signals[j].id == id {
          assert batches[i].signals[j].id == id;
        }
        if i, j :| 0 <= i < |batches| && 0 <= j < |batches[i].signals| && batches[i].signals[j].id == id {
          assert i < n ==> batches[..n][i].signals[j].id == id;
        }
      }
    }
  }

  lemma SignaledInList(t: Recording.Tables, a: seq<SubmitInfo>)
    ensures SignaledBy(Batches(t, a)) == SignaledIds(a)
  {
    var v := Batches(t, a);
    SignaledAre(v);
    forall i, j | 0 <= i < |a| && 0 <= j < |a[i].signals| ensures v[i].signals[j].id == a[i].signals[j] {}
    forall id ensures id in SignaledBy(v) <==> id in SignaledIds(a) {
      if id in SignaledBy(v) {
        var i, j :| 0 <= i < |v| && 0 <= j < |v[i].signals| && v[i].signals[j].id == id;
        assert a[i].signals[j] == id;
      }
      if id in SignaledIds(a) {
        var i, j :| 0 <= i < |a| && 0 <= j < |a[i].signals| && a[i].signals[j] == id;
        assert v[i].signals[j].id == id;
      }
    }
  }

  lemma NotesAre(semaphores: map<SemaphoreId, Semaphore>, t: Recording.Tables, a: SubmitInfo, b: SubmitInfo2,
                 signaled: set<SemaphoreId>)
    requires SameSubmit(semaphores, a, b)
    ensures NotesAgree(semaphores, signaled, a.ToBatch(t).waits, b.ToBatch(t).waits)
            <==> forall j | 0 <= j < |b.waits| :: Lingers(semaphores, signaled, b.waits[j].id) ==> b.waits[j].value == 0
  {
    BatchCarries(t, a);
    BatchCarries2(t, b);
    hide Recording.Attributes, Recording.SubmittedWrites, Lingers, LastTimeline;
    var v, w := a.ToBatch(t).waits, b.ToBatch(t).waits;
    forall j | 0 <= j < |b.waits|
      ensures v[j].id == b.waits[j].id && v[j].note == 0 && w[j].note == b.waits[j].value
    {
    }
  }

  /** The entry points: the tables agree exactly when every wait of the second list that stays
      pending on a binary semaphore, which the call does not signal, carries the value 0. */
  lemma SubmitsAlike(st: State, queue: QueueId, t: Recording.Tables, a: seq<SubmitInfo>, b: seq<SubmitInfo2>,
                     fence: Option<FenceId>)
    requires SameSubmits(st.semaphores, a, b)
    ensures var a', b' := Submit(st, queue, Batches(t, a), fence, true), Submit(st, queue, Batches2(t, b), fence, true);
            && Alike(a', b')
            && (a' == b' <==>
                  forall i, j | 0 <= i < |b| && 0 <= j < |b[i].waits| ::
                    Lingers(st.semaphores, SignaledIds(a), b[i].waits[j].id) ==> b[i].waits[j].value == 0)
  {
    var v, w, signaled := Batches(t, a), Batches2(t, b), SignaledIds(a);
    SubmitsAreBatches(st.semaphores, t, a, b);
    CallsAlike(st, queue, v, w, fence);
    SignaledInList(t, a);
    forall i | 0 <= i < |a|
      ensures NotesAgree(st.semaphores, signaled, v[i].waits, w[i].waits)
              <==> forall j | 0 <= j < |b[i].waits| ::
                     Lingers(st.semaphores, signaled, b[i].waits[j].id) ==> b[i].waits[j].value == 0
    {
      assert SameSubmit(st.semaphores, a[i], b[i]);
      NotesAre(st.semaphores, t, a[i], b[i], signaled);
    }
  }

  // ---------------------------------------------------------------------------
  // The noted values are never read
  // ---------------------------------------------------------------------------

  lemma {:induction false} WaitsRead(a: map<SemaphoreId, Semaphore>, b: map<SemaphoreId, Semaphore>, queue: QueueId,
                                     serial: nat, downstream: seq<SemaphoreId>, plan: Plan, ops: seq<SemaphoreOp>)
    requires AlikeSemaphores(a, b)
    ensures PlanWaits(a, queue, serial, downstream, plan, ops) == PlanWaits(b, queue, serial, downstream, plan, ops)
    decreases |ops|
  {
    if ops != [] {
      var n := |ops| - 1;
      WaitsRead(a, b, queue, serial, downstream, plan, ops[..n]);
      AlikeAt(a, b, ops[n].id);
    }
  }

  lemma {:induction false} SignalsRead(a: map<SemaphoreId, Semaphore>, b: map<SemaphoreId, Semaphore>, serial: nat,
                                       plan: Plan, ops: seq<SemaphoreOp>)
    requires AlikeSemaphores(a, b)
    ensures PlanSignals(a, serial, plan, ops) == PlanSignals(b, serial, plan, ops)
    decreases |ops|
  {
    if ops != [] {
      SignalsRead(a, b, serial, plan, ops[..|ops| - 1]);
      AlikeAt(a, b, ops[|ops| - 1].id);
    }
  }

  lemma {:induction false} PlanReads(a: map<SemaphoreId, Semaphore>, b: map<SemaphoreId, Semaphore>, queue: QueueId,
                                     first: nat, next: set<MemoryId>, batches: seq<Batch>)
    requires AlikeSemaphores(a, b)
    ensures PlanAll(a, queue, first, next, batches) == PlanAll(b, queue, first, next, batches)
    decreases |batches|
  {
    if batches != [] {
      var n, last := |batches| - 1, batches[|batches| - 1];
      PlanReads(a, b, queue, first, next, batches[..n]);
      var plan := PlanAll(a, queue, first, next, batches[..n]).(submit := last.writes);
      WaitsRead(a, b, queue, first + n, Ids(last.signals), plan, last.waits);
      var waited := PlanWaits(a, queue, first + n, Ids(last.signals), plan, last.waits);
      SignalsRead(a, b, first + n, waited.(next := waited.next + waited.submit), last.signals);
    }
  }

  lemma {:induction false} AddPendingAlike(a: map<SemaphoreId, Semaphore>, b: map<SemaphoreId, Semaphore>,
                                           waits: seq<PlannedWait>)
    requires AlikeSemaphores(a, b)
    ensures AlikeSemaphores(AddPending(a, waits), AddPending(b, waits))
    decreases |waits|
  {
    if waits != [] {
      var n := |waits| - 1;
      AddPendingAlike(a, b, waits[..n]);
      AlikeAt(AddPending(a, waits[..n]), AddPending(b, waits[..n]), waits[n].id);
    }
  }

  lemma UpdatedReads(a: State, b: State, queue: QueueId, batches: seq<Batch>)
    requires Alike(a, b)
    ensures Alike(Updated(a, queue, batches), Updated(b, queue, batches))
    ensures PlanOf(a, queue, batches) == PlanOf(b, queue, batches)
  {
    hide PlanAll, AddPending, ConsumeAll, AlikeSemaphores;
    PlanReads(a.semaphores, b.semaphores, queue, a.nextSerial, QueueWrites(a.queueWrites, queue), batches);
    var plan := PlanOf(a, queue, batches);
    AddPendingAlike(a.semaphores, b.semaphores, plan.waits);
    ConsumeAlike(AddPending(a.semaphores, plan.waits), AddPending(b.semaphores, plan.waits), plan.consumed, {});
  }

  lemma SubmitReads(a: State, b: State, queue: QueueId, batches: seq<Batch>, fence: Option<FenceId>, accepted: bool)
    requires Alike(a, b)
    ensures Alike(Submit(a, queue, batches, fence, accepted), Submit(b, queue, batches, fence, accepted))
  {
    if accepted {
      var p, q, signals := Updated(a, queue, batches), Updated(b, queue, batches), PlanOf(a, queue, batches).signals;
      UpdatedReads(a, b, queue, batches);
      UpdatedKinds(a, queue, batches);
      CommitSignalsAlike(p, q, queue, signals);
      assert Alike(CommitSignals(p, queue, signals), CommitSignals(q, queue, signals));
    }
  }

  lemma SemaphoreStepAlike(a: State, b: State, h: HB.History, step: Runs.Step)
    requires Alike(a, b) && (step.HostSignals? ==> IsTimeline(a.semaphores, step.id))
    requires step.CounterObserved? || step.HostSignals? || (step.Creates? && step.id !in a.semaphores)
    ensures Alike(Runs.Next(a, step), Runs.Next(b, step))
    ensures Runs.Refreshed(a, h, step) == Runs.Refreshed(b, h, step)
  {
    AlikeAt(a.semaphores, b.semaphores, step.id);
  }

  /** Alike tables refresh the same memories and stay alike, in every step; the host signals
      timeline semaphores only, and a created semaphore has a new id. */
  lemma StepAlike(a: State, b: State, h: HB.History, step: Runs.Step)
    requires Alike(a, b) && (step.HostSignals? ==> IsTimeline(a.semaphores, step.id))
    requires step.Creates? ==> step.id !in a.semaphores
    ensures Alike(Runs.Next(a, step), Runs.Next(b, step))
    ensures Runs.Refreshed(a, h, step) == Runs.Refreshed(b, h, step)
  {
    if step.Submits? {
      SubmitReads(a, b, step.queue, step.batches, step.fence, step.accepted);
    } else if step.CounterObserved? || step.HostSignals? || step.Creates? {
      SemaphoreStepAlike(a, b, h, step);
    }
  }
}
