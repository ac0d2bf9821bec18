/** Which memories a completion must refresh.

    The device remembers, for every queue, fence and semaphore, the ids of the memories that
    submissions before it may have written for the host. This module states each bookkeeping
    step as a function of values; `QueueSubmission` performs the steps in place.
  */
module Provenance {
  import opened Options

  type QueueId = nat
  type FenceId = nat
  type SemaphoreId = nat
  type MemoryId = nat

  datatype TimelineSignal = TimelineSignal(value: nat, queue: QueueId, serial: nat, memoryIds: set<MemoryId>)

  datatype PendingWait = PendingWait(value: nat, queue: QueueId, serial: nat, downstream: seq<SemaphoreId>)

  datatype Semaphore = Semaphore(
    timeline: bool,
    signaled: bool,
    queue: QueueId,
    serial: nat,
    writes: set<MemoryId>,
    signals: seq<TimelineSignal>,
    acquiredValue: nat,
    acquiredWrites: set<MemoryId>,
    pending: seq<PendingWait>)

  datatype FenceRecord = FenceRecord(queue: QueueId, serial: nat, memoryIds: set<MemoryId>)

  datatype State = State(
    nextSerial: nat,
    queueWrites: map<QueueId, set<MemoryId>>,
    fences: map<FenceId, FenceRecord>,
    semaphores: map<SemaphoreId, Semaphore>)

  function NewSemaphore(timeline: bool): Semaphore {
    Semaphore(timeline, false, 0, 0, {}, [], 0, {}, [])
  }

  /** `queue_writes[queue]` and `semaphores[id]` create a default entry for an absent key. */
  function QueueWrites(writes: map<QueueId, set<MemoryId>>, queue: QueueId): set<MemoryId> {
    if queue in writes then writes[queue] else {}
  }

  function SemaphoreAt(semaphores: map<SemaphoreId, Semaphore>, id: SemaphoreId): Semaphore {
    if id in semaphores then semaphores[id] else NewSemaphore(false)
  }

  predicate IsTimeline(semaphores: map<SemaphoreId, Semaphore>, id: SemaphoreId) {
    id in semaphores && semaphores[id].timeline
  }

  // ---------------------------------------------------------------------------
  // One submit call
  // ---------------------------------------------------------------------------

  /** A semaphore operation of a batch. `value` is the timeline value, when one was supplied;
      `note` is what a wait on a binary semaphore stores when it stays pending. */
  datatype SemaphoreOp = SemaphoreOp(id: SemaphoreId, value: Option<nat>, note: nat)

  /** One batch: the memories its command buffers write for the host, its waits and signals. */
  datatype Batch = Batch(writes: set<MemoryId>, waits: seq<SemaphoreOp>, signals: seq<SemaphoreOp>)

  datatype PlannedWait = PlannedWait(id: SemaphoreId, wait: PendingWait)
  datatype PlannedSignal = PlannedSignal(id: SemaphoreId, timeline: bool, value: nat, serial: nat,
                                         memoryIds: set<MemoryId>)

  /** The planned signals have their semaphores' kinds. */
  predicate KindsAgree(semaphores: map<SemaphoreId, Semaphore>, signals: seq<PlannedSignal>) {
    forall k | 0 <= k < |signals| :: signals[k].timeline == IsTimeline(semaphores, signals[k].id)
  }

  /** What planning accumulates: the writes of the batch at hand, the queue's next set, and the
      waits, consumed binary semaphores and signals to commit. */
  datatype Plan = Plan(submit: set<MemoryId>, next: set<MemoryId>, waits: seq<PlannedWait>,
                       consumed: set<SemaphoreId>, signals: seq<PlannedSignal>)

  function Ids(ops: seq<SemaphoreOp>): (ids: seq<SemaphoreId>)
    ensures |ids| == |ops|
  {
    seq(|ops|, i requires 0 <= i < |ops| => ops[i].id)
  }

  /** The memories of the first recorded signal that is large enough. */
  function FirstAtLeast(signals: seq<TimelineSignal>, value: nat): Option<set<MemoryId>> {
    if signals == [] then None
    else
      var earlier := FirstAtLeast(signals[..|signals| - 1], value);
      var last := signals[|signals| - 1];
      if earlier.Some? then earlier
      else if last.value >= value then Some(last.memoryIds) else None
  }

  /** The memories a wait brings in, and whether its signal is already known. */
  function Resolve(semaphore: Semaphore, op: SemaphoreOp): (set<MemoryId>, bool) {
    if semaphore.timeline then
      if op.value.None? then ({}, false)
      else if semaphore.acquiredValue >= op.value.value then (semaphore.acquiredWrites, true)
      else
        var first := FirstAtLeast(semaphore.signals, op.value.value);
        (semaphore.acquiredWrites + (if first.Some? then first.value else {}), first.Some?)
    else (semaphore.writes, semaphore.signaled)
  }

  function PendingValue(timeline: bool, op: SemaphoreOp): nat {
    if timeline then (if op.value.Some? then op.value.value else 0) else op.note
  }

  function PlanWait(semaphores: map<SemaphoreId, Semaphore>, queue: QueueId, serial: nat,
                    downstream: seq<SemaphoreId>, plan: Plan, op: SemaphoreOp): Plan
  {
    if op.id !in semaphores then plan
    else
      var semaphore := semaphores[op.id];
      var (ids, resolved) := Resolve(semaphore, op);
      plan.(submit := plan.submit + ids,
            consumed := plan.consumed + (if semaphore.timeline then {} else {op.id}),
            waits := plan.waits + (if resolved then [] else
              [PlannedWait(op.id, PendingWait(PendingValue(semaphore.timeline, op), queue, serial, downstream))]))
  }

  function PlanWaits(semaphores: map<SemaphoreId, Semaphore>, queue: QueueId, serial: nat,
                     downstream: seq<SemaphoreId>, plan: Plan, ops: seq<SemaphoreOp>): Plan
  {
    if ops == [] then plan
    else PlanWait(semaphores, queue, serial, downstream,
                  PlanWaits(semaphores, queue, serial, downstream, plan, ops[..|ops| - 1]), ops[|ops| - 1])
  }

  function PlanSignal(semaphores: map<SemaphoreId, Semaphore>, serial: nat, plan: Plan, op: SemaphoreOp): Plan {
    var timeline := op.id in semaphores && semaphores[op.id].timeline;
    var value := if timeline && op.value.Some? then op.value.value else 0;
    plan.(signals := plan.signals + [PlannedSignal(op.id, timeline, value, serial, plan.next)])
  }

  function PlanSignals(semaphores: map<SemaphoreId, Semaphore>, serial: nat, plan: Plan, ops: seq<SemaphoreOp>): Plan {
    if ops == [] then plan
    else PlanSignal(semaphores, serial, PlanSignals(semaphores, serial, plan, ops[..|ops| - 1]), ops[|ops| - 1])
  }

  function PlanBatch(semaphores: map<SemaphoreId, Semaphore>, queue: QueueId, serial: nat,
                     plan: Plan, batch: Batch): Plan
  {
    var waited := PlanWaits(semaphores, queue, serial, Ids(batch.signals),
                            plan.(submit := batch.writes), batch.waits);
    PlanSignals(semaphores, serial, waited.(next := waited.next + waited.submit), batch.signals)
  }

  /** The plan of a call that begins with `next` as the queue's set and `first` as its serial. */
  function PlanAll(semaphores: map<SemaphoreId, Semaphore>, queue: QueueId, first: nat,
                   next: set<MemoryId>, batches: seq<Batch>): Plan
  {
    if batches == [] then Plan({}, next, [], {}, [])
    else
      var n := |batches| - 1;
      PlanBatch(semaphores, queue, first + n, PlanAll(semaphores, queue, first, next, batches[..n]), batches[n])
  }

  // ---------------------------------------------------------------------------
  // Commit
  // ---------------------------------------------------------------------------

  function AbsorbFence(f: FenceRecord, queue: QueueId, after: nat, ids: set<MemoryId>): FenceRecord {
    if f.queue == queue && f.serial >= after then f.(memoryIds := f.memoryIds + ids) else f
  }

  function AbsorbSignal(s: TimelineSignal, queue: QueueId, after: nat, ids: set<MemoryId>): TimelineSignal {
    if s.queue == queue && s.serial >= after then s.(memoryIds := s.memoryIds + ids) else s
  }

  function AbsorbSignals(signals: seq<TimelineSignal>, queue: QueueId, after: nat, ids: set<MemoryId>)
    : (r: seq<TimelineSignal>)
    ensures |r| == |signals|
  {
    seq(|signals|, i requires 0 <= i < |signals| => AbsorbSignal(signals[i], queue, after, ids))
  }

  function AbsorbBinary(s: Semaphore, queue: QueueId, after: nat, ids: set<MemoryId>): Semaphore {
    if s.signaled && s.queue == queue && s.serial >= after then s.(writes := s.writes + ids) else s
  }

  function Absorb(s: Semaphore, queue: QueueId, after: nat, ids: set<MemoryId>): Semaphore {
    AbsorbBinary(s, queue, after, ids).(signals := AbsorbSignals(s.signals, queue, after, ids))
  }

  /** `ids` reach `queue` and every record made on it at or after serial `after`. */
  function Propagate(st: State, queue: QueueId, after: nat, ids: set<MemoryId>): State {
    st.(queueWrites := st.queueWrites[queue := QueueWrites(st.queueWrites, queue) + ids],
        fences := map f | f in st.fences :: AbsorbFence(st.fences[f], queue, after, ids),
        semaphores := map s | s in st.semaphores :: Absorb(st.semaphores[s], queue, after, ids))
  }

  /** The separate update of one semaphore the waiting batch signals. */
  function PropagateDownstream(st: State, wait: PendingWait, id: SemaphoreId, ids: set<MemoryId>): State {
    var s := SemaphoreAt(st.semaphores, id);
    var s' := if s.timeline then s.(signals := AbsorbSignals(s.signals, wait.queue, wait.serial, ids))
              else AbsorbBinary(s, wait.queue, wait.serial, ids);
    st.(semaphores := st.semaphores[id := s'])
  }

  function PropagateAllDownstream(st: State, wait: PendingWait, downstream: seq<SemaphoreId>,
                                  ids: set<MemoryId>): State
  {
    if downstream == [] then st
    else PropagateDownstream(PropagateAllDownstream(st, wait, downstream[..|downstream| - 1], ids),
                             wait, downstream[|downstream| - 1], ids)
  }

  predicate Satisfies(signal: PlannedSignal, wait: PendingWait) {
    !signal.timeline || signal.value >= wait.value
  }

  function WakeOne(st: State, signal: PlannedSignal, wait: PendingWait): State {
    if Satisfies(signal, wait) then
      PropagateAllDownstream(Propagate(st, wait.queue, wait.serial, signal.memoryIds), wait, wait.downstream,
                             signal.memoryIds)
    else st
  }

  function WakeAll(st: State, signal: PlannedSignal, waits: seq<PendingWait>): State {
    if waits == [] then st
    else WakeOne(WakeAll(st, signal, waits[..|waits| - 1]), signal, waits[|waits| - 1])
  }

  function Unsatisfied(signal: PlannedSignal, waits: seq<PendingWait>): seq<PendingWait> {
    if waits == [] then []
    else
      Unsatisfied(signal, waits[..|waits| - 1])
      + (if Satisfies(signal, waits[|waits| - 1]) then [] else [waits[|waits| - 1]])
  }

  function RecordSignal(s: Semaphore, queue: QueueId, signal: PlannedSignal): Semaphore {
    if signal.timeline then
      s.(signals := s.signals + [TimelineSignal(signal.value, queue, signal.serial, signal.memoryIds)])
    else s.(signaled := true, queue := queue, serial := signal.serial, writes := signal.memoryIds)
  }

  function CommitSignal(st: State, queue: QueueId, signal: PlannedSignal): State {
    var s := RecordSignal(SemaphoreAt(st.semaphores, signal.id), queue, signal);
    var woken := WakeAll(st.(semaphores := st.semaphores[signal.id := s]), signal, s.pending);
    var s' := SemaphoreAt(woken.semaphores, signal.id);
    woken.(semaphores := woken.semaphores[signal.id := s'.(pending := Unsatisfied(signal, s'.pending))])
  }

  function CommitSignals(st: State, queue: QueueId, signals: seq<PlannedSignal>): State {
    if signals == [] then st
    else CommitSignal(CommitSignals(st, queue, signals[..|signals| - 1]), queue, signals[|signals| - 1])
  }

  function AddPending(semaphores: map<SemaphoreId, Semaphore>, waits: seq<PlannedWait>): map<SemaphoreId, Semaphore> {
    if waits == [] then semaphores
    else
      var earlier, last := AddPending(semaphores, waits[..|waits| - 1]), waits[|waits| - 1];
      var s := SemaphoreAt(earlier, last.id);
      earlier[last.id := s.(pending := s.pending + [last.wait])]
  }

  function Consume(s: Semaphore): Semaphore {
    s.(writes := {}, signaled := false, queue := 0, serial := 0)
  }

  function ConsumeAll(semaphores: map<SemaphoreId, Semaphore>, ids: set<SemaphoreId>): map<SemaphoreId, Semaphore> {
    map id | id in semaphores.Keys + ids ::
      if id in ids then Consume(SemaphoreAt(semaphores, id)) else semaphores[id]
  }

  /** The state an accepted submission commits. */
  function Commit(st: State, queue: QueueId, plan: Plan, fence: Option<FenceId>, fenceSerial: nat): State {
    var planned := st.(queueWrites := st.queueWrites[queue := plan.next],
                       semaphores := ConsumeAll(AddPending(st.semaphores, plan.waits), plan.consumed));
    var signaled := CommitSignals(planned, queue, plan.signals);
    if fence.Some? then
      signaled.(fences := signaled.fences[fence.value := FenceRecord(queue, fenceSerial, plan.next)])
    else signaled
  }

  /** Planning takes the serials of the call and gives the queue an entry. */
  function Reserved(st: State, queue: QueueId, count: nat): State {
    st.(nextSerial := st.nextSerial + (if count == 0 then 1 else count),
        queueWrites := st.queueWrites[queue := QueueWrites(st.queueWrites, queue)])
  }

  function PlanOf(st: State, queue: QueueId, batches: seq<Batch>): Plan {
    PlanAll(st.semaphores, queue, st.nextSerial, QueueWrites(st.queueWrites, queue), batches)
  }

  function LastSerial(first: nat, count: nat): nat {
    if count == 0 then first else first + count - 1
  }

  /** A submit call. The serials are spent whether or not the server accepts. */
  function Submit(st: State, queue: QueueId, batches: seq<Batch>, fence: Option<FenceId>, accepted: bool): State {
    var reserved := Reserved(st, queue, |batches|);
    if accepted then
      Commit(reserved, queue, PlanOf(st, queue, batches), fence, LastSerial(st.nextSerial, |batches|))
    else reserved
  }

  // ---------------------------------------------------------------------------
  // Observations and the other steps
  // ---------------------------------------------------------------------------

  /** The memories a successful queue-idle refreshes, and what is left. */
  function IdleWrites(st: State, queue: QueueId): set<MemoryId> {
    QueueWrites(st.queueWrites, queue)
  }

  function QueueIdle(st: State, queue: QueueId): State {
    st.(queueWrites := st.queueWrites[queue := {}])
  }

  function DeviceIdle(st: State): State {
    st.(queueWrites := map[], fences := map[])
  }

  function FenceWrites(st: State, fences: set<FenceId>): set<MemoryId> {
    set f, m | f in fences && f in st.fences && m in st.fences[f].memoryIds :: m
  }

  function DropFences(st: State, fences: set<FenceId>): State {
    st.(fences := st.fences - fences)
  }

  /** The memories of the recorded signals up to `value`. */
  function CompletedWrites(signals: seq<TimelineSignal>, value: nat): (r: set<MemoryId>)
    ensures forall s | s in signals && s.value <= value :: s.memoryIds <= r
    ensures forall m | m in r :: exists s :: s in signals && s.value <= value && m in s.memoryIds
  {
    if signals == [] then {}
    else
      CompletedWrites(signals[..|signals| - 1], value)
      + (if signals[|signals| - 1].value <= value then signals[|signals| - 1].memoryIds else {})
  }

  /** The memories an observed counter value of a timeline semaphore refreshes. */
  function TimelineWrites(st: State, id: SemaphoreId, value: nat): set<MemoryId> {
    if id !in st.semaphores then {}
    else st.semaphores[id].acquiredWrites + CompletedWrites(st.semaphores[id].signals, value)
  }

  function Above(signals: seq<TimelineSignal>, value: nat): seq<TimelineSignal> {
    if signals == [] then []
    else
      Above(signals[..|signals| - 1], value)
      + (if signals[|signals| - 1].value <= value then [] else [signals[|signals| - 1]])
  }

  function TimelineAcquired(st: State, id: SemaphoreId, value: nat): State {
    if id !in st.semaphores then st
    else
      var s := st.semaphores[id];
      st.(semaphores := st.semaphores[id := s.(
        acquiredValue := if s.acquiredValue > value then s.acquiredValue else value,
        acquiredWrites := s.acquiredWrites + TimelineWrites(st, id, value),
        signals := Above(s.signals, value))])
  }

  function WaitsAbove(waits: seq<PendingWait>, value: nat): (r: seq<PendingWait>)
    ensures forall w | w in r :: w in waits && w.value > value
  {
    if waits == [] then []
    else
      WaitsAbove(waits[..|waits| - 1], value)
      + (if waits[|waits| - 1].value <= value then [] else [waits[|waits| - 1]])
  }

  /** A signal from the host drops the waits it satisfies. */
  function HostSignal(st: State, id: SemaphoreId, value: nat): State {
    if id !in st.semaphores then st
    else st.(semaphores := st.semaphores[id :=
      st.semaphores[id].(pending := WaitsAbove(st.semaphores[id].pending, value))])
  }

  /** Creating a semaphore sets its kind on the entry the id has or gets. */
  function CreateSemaphore(st: State, id: SemaphoreId, timeline: bool): State {
    st.(semaphores := st.semaphores[id := SemaphoreAt(st.semaphores, id).(timeline := timeline)])
  }

  function DestroySemaphore(st: State, id: SemaphoreId): State {
    st.(semaphores := st.semaphores - {id})
  }
}
