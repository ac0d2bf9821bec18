/** What planning and committing a submit call come to, said of the tables alone.

    The plan lists which waits stay pending, which binary semaphores are consumed, and what each
    signal carries. The commit adds the waits, consumes the semaphores, and commits the signals one
    after another.
  */
module PlannedCalls {
  import opened Options
  import opened Provenance
  import opened SignalCommits

  // ---------------------------------------------------------------------------
  // One wait
  // ---------------------------------------------------------------------------

  /** The first recorded signal that is large enough. */
  predicate FirstAt(signals: seq<TimelineSignal>, value: nat, k: int) {
    0 <= k < |signals| && signals[k].value >= value && forall l | 0 <= l < k :: signals[l].value < value
  }

  /** The wait brings in the memory: with everything acquired before, from the first recorded signal
      that is large enough, unless the value was acquired; or with the binary signal. */
  ghost predicate Brings(semaphores: map<SemaphoreId, Semaphore>, op: SemaphoreOp, m: MemoryId) {
    && op.id in semaphores
    && var s := semaphores[op.id];
       if s.timeline then
         op.value.Some?
         && (m in s.acquiredWrites
             || (s.acquiredValue < op.value.value
                 && exists k :: FirstAt(s.signals, op.value.value, k) && m in s.signals[k].memoryIds))
       else m in s.writes
  }

  /** No signal of the wait is known, so it stays pending. */
  predicate Unknown(semaphores: map<SemaphoreId, Semaphore>, op: SemaphoreOp) {
    && op.id in semaphores
    && var s := semaphores[op.id];
       if s.timeline then
         op.value.Some? ==>
           s.acquiredValue < op.value.value
           && forall k | 0 <= k < |s.signals| :: s.signals[k].value < op.value.value
       else !s.signaled
  }

  lemma {:induction false} FirstAtLeastIs(signals: seq<TimelineSignal>, value: nat)
    ensures FirstAtLeast(signals, value).None? <==> forall k | 0 <= k < |signals| :: signals[k].value < value
    ensures forall m :: FirstAtLeast(signals, value).Some? && m in FirstAtLeast(signals, value).value
                        <==> exists k :: FirstAt(signals, value, k) && m in signals[k].memoryIds
    decreases |signals|
  {
    if signals != [] {
      var n := |signals| - 1;
      var front := signals[..n];
      FirstAtLeastIs(front, value);
      assert forall k | 0 <= k < n :: front[k] == signals[k];
      forall m
        ensures FirstAtLeast(signals, value).Some? && m in FirstAtLeast(signals, value).value
                <==> exists k :: FirstAt(signals, value, k) && m in signals[k].memoryIds
      {
        if k :| FirstAt(front, value, k) && m in front[k].memoryIds {
          assert FirstAt(signals, value, k);
        }
        if k :| FirstAt(signals, value, k) && m in signals[k].memoryIds {
          assert k < n ==> FirstAt(front, value, k);
        }
        if FirstAtLeast(front, value).None? && signals[n].value >= value {
          assert FirstAt(signals, value, n);
        }
      }
    }
  }

  lemma ResolveIs(semaphores: map<SemaphoreId, Semaphore>, op: SemaphoreOp)
    requires op.id in semaphores
    ensures forall m :: m in Resolve(semaphores[op.id], op).0 <==> Brings(semaphores, op, m)
    ensures Resolve(semaphores[op.id], op).1 <==> !Unknown(semaphores, op)
  {
    var s := semaphores[op.id];
    if s.timeline && op.value.Some? {
      FirstAtLeastIs(s.signals, op.value.value);
    }
  }

  // ---------------------------------------------------------------------------
  // One batch
  // ---------------------------------------------------------------------------

  /** The wait, planned for the submission with this serial. */
  predicate PlansWait(semaphores: map<SemaphoreId, Semaphore>, queue: QueueId, serial: nat, downstream: seq<SemaphoreId>,
                      op: SemaphoreOp, w: PlannedWait)
  {
    && Unknown(semaphores, op)
    && w.id == op.id && w.wait.queue == queue && w.wait.serial == serial && w.wait.downstream == downstream
    && w.wait.value == if !semaphores[op.id].timeline then op.note else if op.value.Some? then op.value.value else 0
  }

  predicate Consumes(semaphores: map<SemaphoreId, Semaphore>, op: SemaphoreOp, id: SemaphoreId) {
    op.id == id && id in semaphores && !semaphores[id].timeline
  }

  ghost predicate WaitsPlanned(semaphores: map<SemaphoreId, Semaphore>, queue: QueueId, serial: nat,
                               downstream: seq<SemaphoreId>, before: Plan, ops: seq<SemaphoreOp>, after: Plan)
  {
    && after.next == before.next && after.signals == before.signals
    && (forall m :: m in after.submit <==> m in before.submit || exists op :: op in ops && Brings(semaphores, op, m))
    && (forall id :: id in after.consumed
          <==> id in before.consumed || exists op :: op in ops && Consumes(semaphores, op, id))
    && (forall w :: w in after.waits
          <==> w in before.waits
               || exists op :: op in ops && PlansWait(semaphores, queue, serial, downstream, op, w))
  }

  lemma OneWaitPlanned(semaphores: map<SemaphoreId, Semaphore>, queue: QueueId, serial: nat,
                       downstream: seq<SemaphoreId>, plan: Plan, op: SemaphoreOp)
    ensures WaitsPlanned(semaphores, queue, serial, downstream, plan, [op],
                         PlanWait(semaphores, queue, serial, downstream, plan, op))
  {
    assert op in [op];
    if op.id in semaphores {
      ResolveIs(semaphores, op);
    }
  }

  lemma {:induction false} WaitsPlannedIs(semaphores: map<SemaphoreId, Semaphore>, queue: QueueId, serial: nat,
                                          downstream: seq<SemaphoreId>, plan: Plan, ops: seq<SemaphoreOp>)
    ensures WaitsPlanned(semaphores, queue, serial, downstream, plan, ops,
                         PlanWaits(semaphores, queue, serial, downstream, plan, ops))
    decreases |ops|
  {
    hide PlanWait, Brings, Consumes, PlansWait;
    if ops != [] {
      var n := |ops| - 1;
      WaitsPlannedIs(semaphores, queue, serial, downstream, plan, ops[..n]);
      OneWaitPlanned(semaphores, queue, serial, downstream,
                     PlanWaits(semaphores, queue, serial, downstream, plan, ops[..n]), ops[n]);
      assert ops == ops[..n] + [ops[n]];
    }
  }

  /** A planned signal has its semaphore's kind, its value if that is a timeline, and the queue's set
      after its batch. */
  predicate PlansSignal(semaphores: map<SemaphoreId, Semaphore>, serial: nat, next: set<MemoryId>, op: SemaphoreOp,
                        s: PlannedSignal)
  {
    && s.id == op.id && s.serial == serial && s.memoryIds == next
    && (s.timeline <==> op.id in semaphores && semaphores[op.id].timeline)
    && s.value == if s.timeline && op.value.Some? then op.value.value else 0
  }

  lemma {:induction false} SignalsPlannedAre(semaphores: map<SemaphoreId, Semaphore>, serial: nat, plan: Plan,
                                             ops: seq<SemaphoreOp>)
    ensures var after := PlanSignals(semaphores, serial, plan, ops);
            && after.(signals := plan.signals) == plan
            && |after.signals| == |plan.signals| + |ops| && plan.signals <= after.signals
            && forall j | 0 <= j < |ops| ::
                 PlansSignal(semaphores, serial, plan.next, ops[j], after.signals[|plan.signals| + j])
    decreases |ops|
  {
    if ops != [] {
      SignalsPlannedAre(semaphores, serial, plan, ops[..|ops| - 1]);
    }
  }

  // ---------------------------------------------------------------------------
  // One call
  // ---------------------------------------------------------------------------

  /** The batch's submission may have written the memory: a command buffer did, or a wait brings it in. */
  ghost predicate Contributes(semaphores: map<SemaphoreId, Semaphore>, b: Batch, m: MemoryId) {
    m in b.writes || exists op :: op in b.waits && Brings(semaphores, op, m)
  }

  ghost predicate ContributesUpTo(semaphores: map<SemaphoreId, Semaphore>, batches: seq<Batch>, n: int, m: MemoryId)
    requires n <= |batches|
  {
    exists i :: 0 <= i < n && Contributes(semaphores, batches[i], m)
  }

  /** The position of a batch's first signal among those of the call. */
  function FirstSignalOf(batches: seq<Batch>, i: nat): nat
    requires i <= |batches|
  {
    if i == 0 then 0 else FirstSignalOf(batches, i - 1) + |batches[i - 1].signals|
  }

  /** The semaphores of a batch's signals, which its pending waits reach. */
  predicate IdsOf(ops: seq<SemaphoreOp>, ids: seq<SemaphoreId>) {
    |ids| == |ops| && forall j | 0 <= j < |ops| :: ids[j] == ops[j].id
  }

  ghost predicate BatchPlansWait(semaphores: map<SemaphoreId, Semaphore>, queue: QueueId, serial: nat, b: Batch, w: PlannedWait) {
    && IdsOf(b.signals, w.wait.downstream)
    && exists op :: op in b.waits && PlansWait(semaphores, queue, serial, w.wait.downstream, op, w)
  }

  ghost predicate BatchConsumes(semaphores: map<SemaphoreId, Semaphore>, b: Batch, id: SemaphoreId) {
    exists op :: op in b.waits && Consumes(semaphores, op, id)
  }

  /** Signal `j` of batch `i` has its place, and carries the queue's set after its batch. */
  ghost predicate SignalPlanned(semaphores: map<SemaphoreId, Semaphore>, first: nat, next: set<MemoryId>,
                                batches: seq<Batch>, signals: seq<PlannedSignal>, i: nat, j: nat)
    requires i < |batches| && j < |batches[i].signals|
  {
    && FirstSignalOf(batches, i) + j < |signals|
    && var s := signals[FirstSignalOf(batches, i) + j];
       && PlansSignal(semaphores, first + i, s.memoryIds, batches[i].signals[j], s)
       && forall m :: m in s.memoryIds <==> m in next || ContributesUpTo(semaphores, batches, i + 1, m)
  }

  /** A plan of a call: the queue's next set, the pending waits, the consumed semaphores and the
      signals, each exactly. */
  ghost predicate PlansCall(semaphores: map<SemaphoreId, Semaphore>, queue: QueueId, first: nat, next: set<MemoryId>,
                            batches: seq<Batch>, plan: Plan)
  {
    && (forall m :: m in plan.next <==> m in next || ContributesUpTo(semaphores, batches, |batches|, m))
    && (forall w :: w in plan.waits
          <==> exists i :: 0 <= i < |batches| && BatchPlansWait(semaphores, queue, first + i, batches[i], w))
    && (forall id :: id in plan.consumed
          <==> exists i :: 0 <= i < |batches| && BatchConsumes(semaphores, batches[i], id))
    && |plan.signals| == FirstSignalOf(batches, |batches|)
    && forall i, j | 0 <= i < |batches| && 0 <= j < |batches[i].signals| ::
         SignalPlanned(semaphores, first, next, batches, plan.signals, i, j)
  }

  lemma {:induction false} FirstSignalKept(batches: seq<Batch>, n: nat, i: nat)
    requires i <= n <= |batches|
    ensures FirstSignalOf(batches[..n], i) == FirstSignalOf(batches, i)
    ensures FirstSignalOf(batches, i) <= FirstSignalOf(batches, n)
    decreases n, i
  {
    if i > 0 {
      FirstSignalKept(batches, n, i - 1);
    }
    if i < n {
      FirstSignalKept(batches, n - 1, i);
    }
  }

  lemma ContributesSnoc(semaphores: map<SemaphoreId, Semaphore>, batches: seq<Batch>, n: nat, i: nat, m: MemoryId)
    requires i <= n < |batches|
    ensures ContributesUpTo(semaphores, batches[..n], i, m) == ContributesUpTo(semaphores, batches, i, m)
    ensures ContributesUpTo(semaphores, batches, n + 1, m)
            <==> ContributesUpTo(semaphores, batches, n, m) || Contributes(semaphores, batches[n], m)
  {
    hide Contributes;
    assert forall h | 0 <= h < n :: batches[..n][h] == batches[h];
  }

  /** One more batch. */
  lemma BatchPlanned(semaphores: map<SemaphoreId, Semaphore>, queue: QueueId, serial: nat, plan: Plan, b: Batch)
    ensures var after := PlanBatch(semaphores, queue, serial, plan, b);
            && (forall m :: m in after.next <==> m in plan.next || Contributes(semaphores, b, m))
            && (forall w :: w in after.waits <==> w in plan.waits || BatchPlansWait(semaphores, queue, serial, b, w))
            && (forall id :: id in after.consumed <==> id in plan.consumed || BatchConsumes(semaphores, b, id))
            && |after.signals| == |plan.signals| + |b.signals| && plan.signals <= after.signals
            && forall j | 0 <= j < |b.signals| ::
                 PlansSignal(semaphores, serial, after.next, b.signals[j], after.signals[|plan.signals| + j])
  {
    hide Brings, Consumes, PlansSignal, PlanWaits, PlanSignals;
    var ids := Ids(b.signals);
    var begun := plan.(submit := b.writes);
    var waited := PlanWaits(semaphores, queue, serial, ids, begun, b.waits);
    WaitsPlannedIs(semaphores, queue, serial, ids, begun, b.waits);
    SignalsPlannedAre(semaphores, serial, waited.(next := waited.next + waited.submit), b.signals);
    forall w
      ensures w in waited.waits <==> w in plan.waits || BatchPlansWait(semaphores, queue, serial, b, w)
    {
      if IdsOf(b.signals, w.wait.downstream) {
        assert w.wait.downstream == ids;
      }
    }
  }

  /** The plan of a call is exactly that. */
  lemma {:induction false} PlannedExactly(semaphores: map<SemaphoreId, Semaphore>, queue: QueueId, first: nat,
                                          next: set<MemoryId>, batches: seq<Batch>)
    ensures PlansCall(semaphores, queue, first, next, batches, PlanAll(semaphores, queue, first, next, batches))
    decreases |batches|
  {
    if batches != [] {
      var n := |batches| - 1;
      PlannedExactly(semaphores, queue, first, next, batches[..n]);
      var before := PlanAll(semaphores, queue, first, next, batches[..n]);
      BatchPlanned(semaphores, queue, first + n, before, batches[n]);
      OneMoreBatch(semaphores, queue, first, next, batches, before,
                   PlanBatch(semaphores, queue, first + n, before, batches[n]));
    }
  }

  lemma OneMoreBatch(semaphores: map<SemaphoreId, Semaphore>, queue: QueueId, first: nat, next: set<MemoryId>,
                     batches: seq<Batch>, before: Plan, after: Plan)
    requires batches != []
    requires PlansCall(semaphores, queue, first, next, batches[..|batches| - 1], before)
    requires var n := |batches| - 1; var b := batches[n];
             && (forall m :: m in after.next <==> m in before.next || Contributes(semaphores, b, m))
             && (forall w :: w in after.waits
                   <==> w in before.waits || BatchPlansWait(semaphores, queue, first + n, b, w))
             && (forall id :: id in after.consumed <==> id in before.consumed || BatchConsumes(semaphores, b, id))
             && |after.signals| == |before.signals| + |b.signals| && before.signals <= after.signals
             && forall j | 0 <= j < |b.signals| ::
                  PlansSignal(semaphores, first + n, after.next, b.signals[j], after.signals[|before.signals| + j])
    ensures PlansCall(semaphores, queue, first, next, batches, after)
  {
    hide Contributes, ContributesUpTo, BatchPlansWait, BatchConsumes;
    var n := |batches| - 1;
    var front := batches[..n];
    assert forall h | 0 <= h < n :: front[h] == batches[h];
    FirstSignalKept(batches, n, n);
    forall m
      ensures m in after.next <==> m in next || ContributesUpTo(semaphores, batches, |batches|, m)
    {
      ContributesSnoc(semaphores, batches, n, n, m);
    }
    forall i, j | 0 <= i < |batches| && 0 <= j < |batches[i].signals|
      ensures SignalPlanned(semaphores, first, next, batches, after.signals, i, j)
    {
      FirstSignalKept(batches, n, if i < n then i + 1 else n);
      if i < n {
        FirstSignalKept(batches, n, i);
        assert SignalPlanned(semaphores, first, next, front, before.signals, i, j);
        forall m
          ensures m in after.signals[FirstSignalOf(batches, i) + j].memoryIds
                  <==> m in next || ContributesUpTo(semaphores, batches, i + 1, m)
        {
          ContributesSnoc(semaphores, batches, n, i + 1, m);
        }
      }
    }
  }

  // ---------------------------------------------------------------------------
  // The commit
  // ---------------------------------------------------------------------------

  /** A semaphore nothing is recorded of. */
  const UNRECORDED := Semaphore(false, false, 0, 0, {}, [], 0, {}, [])

  function EntryOf(semaphores: map<SemaphoreId, Semaphore>, id: SemaphoreId): Semaphore {
    if id in semaphores then semaphores[id] else UNRECORDED
  }

  predicate InQueue(st: State, q: QueueId, m: MemoryId) {
    q in st.queueWrites && m in st.queueWrites[q]
  }

  /** A semaphore with the plan's waits added; a consumed one forgets its binary signal. */
  predicate SemaphorePrepared(before: Semaphore, plan: Plan, id: SemaphoreId, after: Semaphore) {
    && before.pending <= after.pending
    && (forall w | w in after.pending :: w in before.pending || PlannedWait(id, w) in plan.waits)
    && (forall w | w in plan.waits && w.id == id :: w.wait in after.pending)
    && after.timeline == before.timeline && after.signals == before.signals
    && after.acquiredValue == before.acquiredValue && after.acquiredWrites == before.acquiredWrites
    && if id in plan.consumed then after.writes == {} && !after.signaled && after.queue == 0 && after.serial == 0
       else after.writes == before.writes && after.signaled == before.signaled && after.queue == before.queue
            && after.serial == before.serial
  }

  /** The tables before the signals of the call are committed. */
  ghost predicate Prepared(st: State, queue: QueueId, plan: Plan, st': State) {
    && st'.nextSerial == st.nextSerial && st'.fences == st.fences
    && queue in st'.queueWrites && st'.queueWrites[queue] == plan.next
    && (forall q, m | q != queue :: InQueue(st', q, m) <==> InQueue(st, q, m))
    && (forall id :: id in st'.semaphores
          <==> id in st.semaphores || id in plan.consumed || exists w :: w in plan.waits && w.id == id)
    && forall id | id in st'.semaphores ::
         SemaphorePrepared(EntryOf(st.semaphores, id), plan, id, st'.semaphores[id])
  }

  lemma {:induction false} PendingAdded(semaphores: map<SemaphoreId, Semaphore>, waits: seq<PlannedWait>, id: SemaphoreId)
    ensures var added := AddPending(semaphores, waits);
            && (id in added <==> id in semaphores || exists w :: w in waits && w.id == id)
            && var before, after := EntryOf(semaphores, id), EntryOf(added, id);
               && after.(pending := before.pending) == before && before.pending <= after.pending
               && forall w :: w in after.pending <==> w in before.pending || PlannedWait(id, w) in waits
    decreases |waits|
  {
    if waits != [] {
      var n := |waits| - 1;
      PendingAdded(semaphores, waits[..n], id);
      assert waits == waits[..n] + [waits[n]];
      assert waits[n] == PlannedWait(waits[n].id, waits[n].wait);
    }
  }

  lemma PreparedExactly(st: State, queue: QueueId, plan: Plan)
    ensures Prepared(st, queue, plan,
                     st.(queueWrites := st.queueWrites[queue := plan.next],
                         semaphores := ConsumeAll(AddPending(st.semaphores, plan.waits), plan.consumed)))
  {
    var added := AddPending(st.semaphores, plan.waits);
    var st' := st.(queueWrites := st.queueWrites[queue := plan.next], semaphores := ConsumeAll(added, plan.consumed));
    forall id
      ensures id in st'.semaphores
              <==> id in st.semaphores || id in plan.consumed || exists w :: w in plan.waits && w.id == id
      ensures id in st'.semaphores ==>
                SemaphorePrepared(EntryOf(st.semaphores, id), plan, id, st'.semaphores[id])
    {
      PendingAdded(st.semaphores, plan.waits, id);
      assert forall w | w in plan.waits && w.id == id :: w == PlannedWait(id, w.wait);
    }
  }

  /** The signal answers the wait: it is binary, or its value is large enough. */
  predicate Answers(signal: PlannedSignal, w: PendingWait) {
    signal.timeline ==> w.value <= signal.value
  }

  /** Some answered wait was submitted to the queue, no later than the serial. */
  predicate Reached(signal: PlannedSignal, waits: seq<PendingWait>, queue: QueueId, serial: nat) {
    exists w :: w in waits && Answers(signal, w) && w.queue == queue && w.serial <= serial
  }

  predicate QueueReached(signal: PlannedSignal, waits: seq<PendingWait>, queue: QueueId) {
    exists w :: w in waits && Answers(signal, w) && w.queue == queue
  }

  /** Memories grow by those of the signal exactly when the record is reached. */
  predicate Grown(before: set<MemoryId>, after: set<MemoryId>, signal: PlannedSignal, reached: bool) {
    if reached then after == before + signal.memoryIds else after == before
  }

  predicate RecordGrown(before: TimelineSignal, after: TimelineSignal, signal: PlannedSignal, waits: seq<PendingWait>) {
    && after.value == before.value && after.queue == before.queue && after.serial == before.serial
    && Grown(before.memoryIds, after.memoryIds, signal, Reached(signal, waits, before.queue, before.serial))
  }

  predicate FenceGrown(before: FenceRecord, after: FenceRecord, signal: PlannedSignal, waits: seq<PendingWait>) {
    && after.queue == before.queue && after.serial == before.serial
    && Grown(before.memoryIds, after.memoryIds, signal, Reached(signal, waits, before.queue, before.serial))
  }

  /** The other fields, the records and the binary signal of a semaphore. */
  predicate SemaphoreGrown(before: Semaphore, after: Semaphore, signal: PlannedSignal, waits: seq<PendingWait>) {
    && after.timeline == before.timeline && after.signaled == before.signaled && after.queue == before.queue
    && after.serial == before.serial && after.acquiredValue == before.acquiredValue
    && after.acquiredWrites == before.acquiredWrites
    && Grown(before.writes, after.writes, signal,
             before.signaled && Reached(signal, waits, before.queue, before.serial))
    && |after.signals| == |before.signals|
    && forall i | 0 <= i < |before.signals| :: RecordGrown(before.signals[i], after.signals[i], signal, waits)
  }

  /** The semaphore's entry once the signal is recorded. */
  predicate Records(before: Semaphore, queue: QueueId, signal: PlannedSignal, after: Semaphore) {
    && after.timeline == before.timeline && after.pending == before.pending
    && after.acquiredValue == before.acquiredValue && after.acquiredWrites == before.acquiredWrites
    && if signal.timeline then
         && after.signals == before.signals + [TimelineSignal(signal.value, queue, signal.serial, signal.memoryIds)]
         && after.writes == before.writes && after.signaled == before.signaled && after.queue == before.queue
         && after.serial == before.serial
       else
         && after.signals == before.signals && after.writes == signal.memoryIds && after.signaled
         && after.queue == queue && after.serial == signal.serial
  }

  /** Every semaphore but the signalled one keeps its waits; only downstream semaphores get new entries. */
  ghost predicate OthersGrown(st: State, signal: PlannedSignal, waits: seq<PendingWait>, st': State) {
    && (forall id | id in st.semaphores && id != signal.id ::
          && id in st'.semaphores && st'.semaphores[id].pending == st.semaphores[id].pending
          && SemaphoreGrown(st.semaphores[id], st'.semaphores[id], signal, waits))
    && (forall id :: id in st'.semaphores
          <==> id in st.semaphores || id == signal.id || exists w :: w in waits && Answers(signal, w) && id in w.downstream)
    && forall id | id in st'.semaphores && id !in st.semaphores && id != signal.id :: st'.semaphores[id] == UNRECORDED
  }

  /** The signalled semaphore records the signal and loses the waits it answers. */
  ghost predicate SignalRecorded(before: Semaphore, queue: QueueId, signal: PlannedSignal, after: Semaphore) {
    && (forall w :: w in after.pending <==> w in before.pending && !Answers(signal, w))
    && exists s :: Records(before, queue, signal, s) && SemaphoreGrown(s, after, signal, before.pending)
  }

  /** A signal is recorded, the waits it answers leave, and everything at or after them on their queues
      receives its memories. */
  ghost predicate SignalCommitted(st: State, queue: QueueId, signal: PlannedSignal, st': State) {
    var before := EntryOf(st.semaphores, signal.id);
    && st'.nextSerial == st.nextSerial
    && (forall q, m :: InQueue(st', q, m)
          <==> InQueue(st, q, m) || (m in signal.memoryIds && QueueReached(signal, before.pending, q)))
    && st'.fences.Keys == st.fences.Keys
    && (forall f | f in st.fences :: FenceGrown(st.fences[f], st'.fences[f], signal, before.pending))
    && signal.id in st'.semaphores && SignalRecorded(before, queue, signal, st'.semaphores[signal.id])
    && OthersGrown(st, signal, before.pending, st')
  }

  lemma ReachedIs(signal: PlannedSignal, waits: seq<PendingWait>, queue: QueueId, serial: nat)
    ensures Reached(signal, waits, queue, serial) <==> Reaches(signal, waits, queue, serial)
    ensures QueueReached(signal, waits, queue) <==> ReachesQueue(signal, waits, queue)
  {
    if w :| w in waits && Answers(signal, w) && w.queue == queue {
      var i :| 0 <= i < |waits| && waits[i] == w;
      assert Satisfies(signal, waits[i]);
    }
    if w :| w in waits && Answers(signal, w) && w.queue == queue && w.serial <= serial {
      var i :| 0 <= i < |waits| && waits[i] == w;
      assert Satisfies(signal, waits[i]);
    }
    if i :| 0 <= i < |waits| && Satisfies(signal, waits[i]) && waits[i].queue == queue {
      assert waits[i] in waits && Answers(signal, waits[i]);
    }
    if i :| 0 <= i < |waits| && Satisfies(signal, waits[i]) && waits[i].queue == queue && waits[i].serial <= serial {
      assert waits[i] in waits && Answers(signal, waits[i]);
    }
  }

  lemma ExtendedIsGrown(s: Semaphore, signal: PlannedSignal, waits: seq<PendingWait>)
    ensures SemaphoreGrown(s, Extended(s, signal, waits), signal, waits)
  {
    ReachedIs(signal, waits, s.queue, s.serial);
    forall i | 0 <= i < |s.signals|
      ensures RecordGrown(s.signals[i], Extended(s, signal, waits).signals[i], signal, waits)
    {
      ReachedIs(signal, waits, s.signals[i].queue, s.signals[i].serial);
    }
  }

  lemma ExtendedPending(s: Semaphore, signal: PlannedSignal, waits: seq<PendingWait>)
    ensures Extended(s, signal, waits).pending == s.pending
  {
  }

  lemma {:induction false} DownstreamEntries(st: State, wait: PendingWait, downstream: seq<SemaphoreId>, ids: set<MemoryId>,
                                             id: SemaphoreId)
    ensures id in PropagateAllDownstream(st, wait, downstream, ids).semaphores <==> id in st.semaphores || id in downstream
    decreases |downstream|
  {
    if downstream != [] {
      var n := |downstream| - 1;
      DownstreamEntries(st, wait, downstream[..n], ids, id);
      assert downstream == downstream[..n] + [downstream[n]];
    }
  }

  /** Waking a wait gives each semaphore its batch signals an entry. */
  lemma {:induction false} WokenEntries(st: State, signal: PlannedSignal, waits: seq<PendingWait>, id: SemaphoreId)
    ensures id in WakeAll(st, signal, waits).semaphores
            <==> id in st.semaphores || exists w :: w in waits && Answers(signal, w) && id in w.downstream
    decreases |waits|
  {
    if waits != [] {
      var n := |waits| - 1;
      WokenEntries(st, signal, waits[..n], id);
      PendingLeft(signal, waits[n]);
      if Satisfies(signal, waits[n]) {
        DownstreamEntries(Propagate(WakeAll(st, signal, waits[..n]), waits[n].queue, waits[n].serial, signal.memoryIds),
                          waits[n], waits[n].downstream, signal.memoryIds, id);
      }
      hide WakeAll, Propagate, PropagateAllDownstream, Answers, Satisfies;
      assert waits == waits[..n] + [waits[n]];
    }
  }

  lemma CommittedEntries(st: State, queue: QueueId, signal: PlannedSignal, id: SemaphoreId)
    ensures var waits := EntryOf(st.semaphores, signal.id).pending;
            id in CommitSignal(st, queue, signal).semaphores
            <==> id in st.semaphores || id == signal.id || exists w :: w in waits && Answers(signal, w) && id in w.downstream
  {
    var s := RecordSignal(EntryOf(st.semaphores, signal.id), queue, signal);
    WokenEntries(st.(semaphores := st.semaphores[signal.id := s]), signal, s.pending, id);
    hide WakeAll, Answers;
  }

  /** What waking the answered waits leaves. */
  ghost predicate AllGrown(st: State, st': State, signal: PlannedSignal, waits: seq<PendingWait>) {
    && st'.nextSerial == st.nextSerial
    && (forall q, m :: InQueue(st', q, m)
          <==> InQueue(st, q, m) || (m in signal.memoryIds && QueueReached(signal, waits, q)))
    && st'.fences.Keys == st.fences.Keys
    && (forall f | f in st.fences :: FenceGrown(st.fences[f], st'.fences[f], signal, waits))
    && (forall id | id in st.semaphores ::
          && id in st'.semaphores && st'.semaphores[id].pending == st.semaphores[id].pending
          && SemaphoreGrown(st.semaphores[id], st'.semaphores[id], signal, waits))
    && forall id | id in st'.semaphores && id !in st.semaphores :: st'.semaphores[id] == UNRECORDED
  }

  lemma WokenGrows(st: State, st': State, signal: PlannedSignal, waits: seq<PendingWait>)
    requires Woken(st, st', signal, waits)
    ensures AllGrown(st, st', signal, waits)
  {
    hide Extended, Gained;
    forall q, m
      ensures InQueue(st', q, m) <==> InQueue(st, q, m) || (m in signal.memoryIds && QueueReached(signal, waits, q))
    {
      ReachedIs(signal, waits, q, 0);
      assert InQueue(st', q, m) <==> m in QueueWrites(st'.queueWrites, q);
    }
    forall f | f in st.fences
      ensures FenceGrown(st.fences[f], st'.fences[f], signal, waits)
    {
      GainedIsGrown(signal, waits, st.fences[f].queue, st.fences[f].serial, st.fences[f].memoryIds);
    }
    forall id | id in st.semaphores
      ensures SemaphoreGrown(st.semaphores[id], st'.semaphores[id], signal, waits)
      ensures st'.semaphores[id].pending == st.semaphores[id].pending
    {
      ExtendedIsGrown(st.semaphores[id], signal, waits);
      ExtendedPending(st.semaphores[id], signal, waits);
    }
  }

  lemma GainedIsGrown(signal: PlannedSignal, waits: seq<PendingWait>, queue: QueueId, serial: nat, ids: set<MemoryId>)
    ensures Grown(ids, ids + Gained(signal, waits, queue, serial), signal, Reached(signal, waits, queue, serial))
  {
    ReachedIs(signal, waits, queue, serial);
  }

  lemma PendingLeft(signal: PlannedSignal, w: PendingWait)
    ensures Answers(signal, w) <==> Satisfies(signal, w)
  {
  }

  lemma RecordedIs(entry: Semaphore, queue: QueueId, signal: PlannedSignal)
    ensures Records(entry, queue, signal, RecordSignal(entry, queue, signal))
  {
  }

  lemma CommittedExactly(st: State, queue: QueueId, signal: PlannedSignal)
    ensures SignalCommitted(st, queue, signal, CommitSignal(st, queue, signal))
  {
    hide CommitSignal, Woken, SemaphoreGrown, FenceGrown, Answers, QueueReached, Records, RecordSignal, Satisfies;
    var entry := EntryOf(st.semaphores, signal.id);
    CommitSignalExactly(st, queue, signal);
    assert entry == SemaphoreAt(st.semaphores, signal.id);
    var s := RecordSignal(entry, queue, signal);
    RecordedIs(entry, queue, signal);
    PendingKept(entry, queue, signal, s);
    var recorded := st.(semaphores := st.semaphores[signal.id := s]);
    var st' := CommitSignal(st, queue, signal);
    var left := st'.semaphores[signal.id];
    var woken := st'.(semaphores := st'.semaphores[signal.id := left.(pending := s.pending)]);
    WokenGrows(recorded, woken, signal, s.pending);
    hide AllGrown;
    QueuesAndOthers(st, recorded, woken, st', signal, s.pending);
    AnsweredLeave(signal, s.pending, left.pending);
    EntriesGrown(st, queue, signal);
    GrownIgnoresPending(s, left, s.pending, signal, s.pending);
  }

  lemma AnsweredLeave(signal: PlannedSignal, before: seq<PendingWait>, after: seq<PendingWait>)
    requires forall w :: w in after <==> w in before && !Satisfies(signal, w)
    ensures forall w :: w in after <==> w in before && !Answers(signal, w)
  {
  }

  lemma EntriesGrown(st: State, queue: QueueId, signal: PlannedSignal)
    ensures var waits := EntryOf(st.semaphores, signal.id).pending;
            forall id :: id in CommitSignal(st, queue, signal).semaphores
              <==> id in st.semaphores || id == signal.id || exists w :: w in waits && Answers(signal, w) && id in w.downstream
  {
    hide CommitSignal, Answers;
    var waits := EntryOf(st.semaphores, signal.id).pending;
    forall id
      ensures id in CommitSignal(st, queue, signal).semaphores
              <==> id in st.semaphores || id == signal.id || exists w :: w in waits && Answers(signal, w) && id in w.downstream
    {
      CommittedEntries(st, queue, signal, id);
    }
  }

  /** Recording the signal and dropping its waits touch one semaphore. */
  lemma QueuesAndOthers(st: State, recorded: State, woken: State, st': State, signal: PlannedSignal,
                        waits: seq<PendingWait>)
    requires AllGrown(recorded, woken, signal, waits)
    requires signal.id in recorded.semaphores && signal.id in st'.semaphores
    requires recorded == st.(semaphores := st.semaphores[signal.id := recorded.semaphores[signal.id]])
    requires woken == st'.(semaphores := st'.semaphores[signal.id := woken.semaphores[signal.id]])
    ensures st'.nextSerial == st.nextSerial && st'.fences.Keys == st.fences.Keys
    ensures forall q, m :: InQueue(st', q, m)
              <==> InQueue(st, q, m) || (m in signal.memoryIds && QueueReached(signal, waits, q))
    ensures forall f | f in st.fences :: FenceGrown(st.fences[f], st'.fences[f], signal, waits)
    ensures SemaphoreGrown(recorded.semaphores[signal.id], woken.semaphores[signal.id], signal, waits)
    ensures forall id | id in st.semaphores && id != signal.id ::
              && id in st'.semaphores && st'.semaphores[id].pending == st.semaphores[id].pending
              && SemaphoreGrown(st.semaphores[id], st'.semaphores[id], signal, waits)
    ensures forall id | id in st'.semaphores && id !in st.semaphores && id != signal.id :: st'.semaphores[id] == UNRECORDED
  {
    hide SemaphoreGrown, FenceGrown, QueueReached;
    forall id | id in st.semaphores && id != signal.id
      ensures id in st'.semaphores && st'.semaphores[id].pending == st.semaphores[id].pending
              && SemaphoreGrown(st.semaphores[id], st'.semaphores[id], signal, waits)
    {
      assert recorded.semaphores[id] == st.semaphores[id] && woken.semaphores[id] == st'.semaphores[id];
    }
    forall q, m
      ensures InQueue(st', q, m) <==> InQueue(st, q, m) || (m in signal.memoryIds && QueueReached(signal, waits, q))
    {
      assert InQueue(recorded, q, m) == InQueue(st, q, m) && InQueue(woken, q, m) == InQueue(st', q, m);
    }
    forall id | id in st'.semaphores && id !in st.semaphores && id != signal.id
      ensures st'.semaphores[id] == UNRECORDED
    {
      assert id in woken.semaphores && id !in recorded.semaphores && woken.semaphores[id] == st'.semaphores[id];
    }
  }

  lemma PendingKept(entry: Semaphore, queue: QueueId, signal: PlannedSignal, s: Semaphore)
    requires Records(entry, queue, signal, s)
    ensures s.pending == entry.pending
  {
  }

  lemma GrownIgnoresPending(s: Semaphore, after: Semaphore, pending: seq<PendingWait>, signal: PlannedSignal,
                            waits: seq<PendingWait>)
    ensures SemaphoreGrown(s, after.(pending := pending), signal, waits) <==> SemaphoreGrown(s, after, signal, waits)
  {
  }

  /** The commit of an accepted call: the plan's waits and consumed semaphores, then its signals one
      after another, then the record of the fence. */
  ghost predicate CommitRun(st: State, queue: QueueId, plan: Plan, fence: Option<FenceId>, serial: nat, states: seq<State>,
                            st': State)
  {
    && |states| == |plan.signals| + 1 && Prepared(st, queue, plan, states[0])
    && (forall k | 0 <= k < |plan.signals| :: SignalCommitted(states[k], queue, plan.signals[k], states[k + 1]))
    && var last := states[|plan.signals|];
       && st' == last.(fences := st'.fences)
       && st'.fences.Keys == last.fences.Keys + (if fence.Some? then {fence.value} else {})
       && forall f | f in st'.fences ::
            st'.fences[f] == if fence == Some(f) then FenceRecord(queue, serial, plan.next) else last.fences[f]
  }

  ghost predicate CommitsCall(st: State, queue: QueueId, plan: Plan, fence: Option<FenceId>, serial: nat, st': State) {
    exists states :: CommitRun(st, queue, plan, fence, serial, states, st')
  }

  lemma {:induction false} SignalsCommitted(st: State, queue: QueueId, signals: seq<PlannedSignal>) returns (states: seq<State>)
    ensures |states| == |signals| + 1 && states[0] == st && states[|signals|] == CommitSignals(st, queue, signals)
    ensures forall k | 0 <= k < |signals| :: SignalCommitted(states[k], queue, signals[k], states[k + 1])
    decreases |signals|
  {
    hide SignalCommitted;
    if signals == [] {
      states := [st];
    } else {
      var n := |signals| - 1;
      var before := SignalsCommitted(st, queue, signals[..n]);
      CommittedExactly(before[n], queue, signals[n]);
      states := before + [CommitSignal(before[n], queue, signals[n])];
      forall k | 0 <= k < |signals|
        ensures SignalCommitted(states[k], queue, signals[k], states[k + 1])
      {
        assert k < n ==> SignalCommitted(before[k], queue, signals[..n][k], before[k + 1]);
      }
    }
  }

  /** Every accepted call commits its plan exactly so. */
  lemma CommitExactly(st: State, queue: QueueId, plan: Plan, fence: Option<FenceId>, serial: nat)
    ensures CommitsCall(st, queue, plan, fence, serial, Commit(st, queue, plan, fence, serial))
  {
    hide SignalCommitted, Prepared, CommitSignals, ConsumeAll, AddPending;
    PreparedExactly(st, queue, plan);
    var prepared := st.(queueWrites := st.queueWrites[queue := plan.next],
                        semaphores := ConsumeAll(AddPending(st.semaphores, plan.waits), plan.consumed));
    var states := SignalsCommitted(prepared, queue, plan.signals);
    assert CommitRun(st, queue, plan, fence, serial, states, Commit(st, queue, plan, fence, serial));
  }

  // ---------------------------------------------------------------------------
  // The whole call
  // ---------------------------------------------------------------------------

  /** What a call that reaches the server leaves: its serials are spent and the queue has an entry; if
      it is accepted, its plan is committed, with the last serial for the fence. */
  ghost predicate SubmitsCall(st: State, queue: QueueId, batches: seq<Batch>, fence: Option<FenceId>, accepted: bool,
                              st': State)
  {
    var count := if batches == [] then 1 else |batches|;
    && st'.nextSerial == st.nextSerial + count
    && if accepted then
         exists plan, next ::
           && (forall m :: m in next <==> InQueue(st, queue, m))
           && PlansCall(st.semaphores, queue, st.nextSerial, next, batches, plan)
           && CommitsCall(st.(nextSerial := st'.nextSerial), queue, plan, fence, st.nextSerial + count - 1, st')
       else
         && st'.fences == st.fences && st'.semaphores == st.semaphores
         && queue in st'.queueWrites && forall q, m :: InQueue(st', q, m) <==> InQueue(st, q, m)
  }

  /** The tables after a call depend on the queue's set, not on whether it has an entry. */
  lemma CommitIgnoresEntry(st: State, reserved: State, queue: QueueId, plan: Plan, fence: Option<FenceId>, serial: nat)
    requires reserved == st.(queueWrites := reserved.queueWrites)
    requires forall q, m | q != queue :: InQueue(reserved, q, m) <==> InQueue(st, q, m)
    ensures CommitsCall(st, queue, plan, fence, serial, Commit(reserved, queue, plan, fence, serial))
  {
    CommitExactly(reserved, queue, plan, fence, serial);
    hide SignalCommitted, Commit, SemaphorePrepared;
    var st' := Commit(reserved, queue, plan, fence, serial);
    var states :| CommitRun(reserved, queue, plan, fence, serial, states, st');
    assert CommitRun(st, queue, plan, fence, serial, states, st');
  }

  lemma SubmitExactly(st: State, queue: QueueId, batches: seq<Batch>, fence: Option<FenceId>, accepted: bool)
    ensures SubmitsCall(st, queue, batches, fence, accepted, Submit(st, queue, batches, fence, accepted))
  {
    hide PlansCall, CommitsCall, Commit, PlanAll;
    if accepted {
      var next := QueueWrites(st.queueWrites, queue);
      var reserved := Reserved(st, queue, |batches|);
      var plan := PlanOf(st, queue, batches);
      PlannedExactly(st.semaphores, queue, st.nextSerial, next, batches);
      CommitIgnoresEntry(st.(nextSerial := reserved.nextSerial), reserved, queue, plan, fence,
                         LastSerial(st.nextSerial, |batches|));
      assert forall m :: m in next <==> InQueue(st, queue, m);
      CommitSerial(reserved, queue, plan, fence, LastSerial(st.nextSerial, |batches|));
    }
  }

  lemma CommitSerial(st: State, queue: QueueId, plan: Plan, fence: Option<FenceId>, serial: nat)
    ensures Commit(st, queue, plan, fence, serial).nextSerial == st.nextSerial
  {
    CommitExactly(st, queue, plan, fence, serial);
    hide Commit;
    var states :| CommitRun(st, queue, plan, fence, serial, states, Commit(st, queue, plan, fence, serial));
    SerialKept(states, queue, plan.signals, |plan.signals|);
  }

  lemma {:induction false} SerialKept(states: seq<State>, queue: QueueId, signals: seq<PlannedSignal>, n: nat)
    requires |states| == |signals| + 1 && n <= |signals|
    requires forall k | 0 <= k < |signals| :: SignalCommitted(states[k], queue, signals[k], states[k + 1])
    ensures states[n].nextSerial == states[0].nextSerial
    decreases n
  {
    if n > 0 {
      SerialKept(states, queue, signals, n - 1);
      assert SignalCommitted(states[n - 1], queue, signals[n - 1], states[n]);
    }
  }
}
