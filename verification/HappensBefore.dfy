/** What each wait of a run depends on, independently of the provenance tables, and the proof that
    the tables cover it.

    A history keeps the precedence graph of the run together with what decides the next
    dependencies: the signals of every semaphore, the timeline waits still without one, and the
    position each fence stands for. When the signal of such a wait is submitted at last, the waiting
    submission turns out to depend on it.
  */
module HappensBefore {
  import opened Options
  import opened Provenance
  import opened Precedence

  /** A signal of a timeline semaphore: its value and the serial of its submission. */
  datatype Signal = Signal(value: nat, serial: nat)

  /** A submission that waits for a timeline signal nobody has submitted yet. */
  datatype Waiter = Waiter(id: SemaphoreId, value: nat, serial: nat)

  datatype History = History(
    graph: Graph,
    timeline: map<SemaphoreId, seq<Signal>>,
    binary: map<SemaphoreId, nat>,
    waiting: set<Waiter>,
    late: set<(nat, nat)>,
    seen: map<SemaphoreId, nat>,
    hosted: map<SemaphoreId, nat>,
    fences: map<FenceId, Point>)

  const EMPTY := History(Graph(map[], {}, {}), map[], map[], {}, {}, map[], map[], map[])

  // ---------------------------------------------------------------------------
  // One submit call, as history
  // ---------------------------------------------------------------------------

  function SignalsOf(timeline: map<SemaphoreId, seq<Signal>>, id: SemaphoreId): seq<Signal> {
    if id in timeline then timeline[id] else []
  }

  function ValueOf(values: map<SemaphoreId, nat>, id: SemaphoreId): nat {
    if id in values then values[id] else 0
  }

  /** The first signal whose value is large enough. */
  function FirstSignal(signals: seq<Signal>, value: nat): Option<Signal> {
    if signals == [] then None
    else
      var earlier := FirstSignal(signals[..|signals| - 1], value);
      if earlier.Some? then earlier
      else if signals[|signals| - 1].value >= value then Some(signals[|signals| - 1]) else None
  }

  /** A counter value the host knows of satisfies the wait, and the signal goes beyond it. */
  predicate Skips(known: nat, value: nat, signal: Signal) {
    value <= known < signal.value
  }

  /** The submission a wait depends on, when one is known. A counter value the host has seen or set
      satisfies a timeline wait: then only a signal up to that value can be the one, which has happened,
      because the values of a semaphore increase. */
  function Source(h: History, timeline: bool, op: SemaphoreOp): Option<nat> {
    if timeline then
      if op.value.None? then None
      else
        var first := FirstSignal(SignalsOf(h.timeline, op.id), op.value.value);
        if first.Some? && !Skips(ValueOf(h.seen, op.id), op.value.value, first.value)
           && !Skips(ValueOf(h.hosted, op.id), op.value.value, first.value)
        then Some(first.value.serial) else None
    else if op.id in h.binary then Some(h.binary[op.id]) else None
  }

  /** The signal of a timeline wait is already known: recorded, signalled earlier in the same call,
      made by the host, or covered by an observed counter value. */
  predicate Resolved(h: History, id: SemaphoreId, value: nat) {
    || ValueOf(h.seen, id) >= value
    || ValueOf(h.hosted, id) >= value
    || FirstSignal(SignalsOf(h.timeline, id), value).Some?
  }

  /** A timeline wait names its value; a binary wait has its signal. */
  predicate WaitAllowed(h: History, semaphores: map<SemaphoreId, Semaphore>, op: SemaphoreOp) {
    if IsTimeline(semaphores, op.id) then op.value.Some? else op.id in semaphores && op.id in h.binary
  }

  predicate Unresolved(h: History, semaphores: map<SemaphoreId, Semaphore>, op: SemaphoreOp) {
    IsTimeline(semaphores, op.id) && op.value.Some? && !Resolved(h, op.id, op.value.value)
  }

  /** A binary wait consumes its signal; a timeline wait without a signal keeps waiting. */
  function AfterWait(h: History, semaphores: map<SemaphoreId, Semaphore>, serial: nat, op: SemaphoreOp): History {
    h.(binary := if IsTimeline(semaphores, op.id) then h.binary else h.binary - {op.id},
       waiting := if Unresolved(h, semaphores, op) then h.waiting + {Waiter(op.id, op.value.value, serial)}
                  else h.waiting)
  }

  /** The history after the waits `ops`, and the submissions they depend on. */
  function Waits(h: History, semaphores: map<SemaphoreId, Semaphore>, serial: nat, ops: seq<SemaphoreOp>)
    : (History, set<nat>)
  {
    if ops == [] then (h, {})
    else
      var (h1, sources) := Waits(h, semaphores, serial, ops[..|ops| - 1]);
      var op := ops[|ops| - 1];
      var source := Source(h1, IsTimeline(semaphores, op.id), op);
      (AfterWait(h1, semaphores, serial, op), sources + (if source.Some? then {source.value} else {}))
  }

  function SignalValue(op: SemaphoreOp): nat {
    if op.value.Some? then op.value.value else 0
  }

  /** The signal ends the wait. */
  predicate Ends(id: SemaphoreId, value: nat, w: Waiter) {
    w.id == id && value >= w.value
  }

  function Ended(waiting: set<Waiter>, id: SemaphoreId, value: nat): set<Waiter> {
    set w | w in waiting && Ends(id, value, w)
  }

  /** A signal is recorded; the submissions that waited for it depend on its submission. */
  function AfterSignal(h: History, timeline: bool, serial: nat, op: SemaphoreOp): History {
    var ended := if timeline then Ended(h.waiting, op.id, SignalValue(op)) else {};
    h.(timeline := if timeline
                   then h.timeline[op.id := SignalsOf(h.timeline, op.id) + [Signal(SignalValue(op), serial)]]
                   else h.timeline,
       binary := if timeline then h.binary else h.binary[op.id := serial],
       waiting := h.waiting - ended,
       late := h.late + (set w | w in ended :: (serial, w.serial)))
  }

  function Signals(h: History, semaphores: map<SemaphoreId, Semaphore>, serial: nat, ops: seq<SemaphoreOp>): History {
    if ops == [] then h
    else
      var op := ops[|ops| - 1];
      AfterSignal(Signals(h, semaphores, serial, ops[..|ops| - 1]), IsTimeline(semaphores, op.id), serial, op)
  }

  function Submitted(h: History, semaphores: map<SemaphoreId, Semaphore>, queue: QueueId, serial: nat,
                     batch: Batch): History
  {
    var (waited, sources) := Waits(h, semaphores, serial, batch.waits);
    waited.(graph := AddSubmission(waited.graph, serial, Submission(queue, batch.writes), sources))
  }

  function AfterBatch(h: History, semaphores: map<SemaphoreId, Semaphore>, queue: QueueId, serial: nat,
                      batch: Batch): History
  {
    Signals(Submitted(h, semaphores, queue, serial, batch), semaphores, serial, batch.signals)
  }

  function AfterBatches(h: History, semaphores: map<SemaphoreId, Semaphore>, queue: QueueId, first: nat,
                        batches: seq<Batch>): History
  {
    if batches == [] then h
    else
      var n := |batches| - 1;
      AfterBatch(AfterBatches(h, semaphores, queue, first, batches[..n]), semaphores, queue, first + n, batches[n])
  }

  /** The dependencies a call completes take effect. */
  function Settle(h: History): History {
    h.(graph := AddEdges(h.graph, h.late), late := {})
  }

  /** A submit call the server accepted; a fence stands for the queue up to its last submission. */
  function AfterCall(h: History, st: State, queue: QueueId, batches: seq<Batch>, fence: Option<FenceId>): History {
    var h' := Settle(AfterBatches(h, st.semaphores, queue, st.nextSerial, batches));
    if fence.Some? then
      h'.(fences := h'.fences[fence.value := Point(queue, LastSerial(st.nextSerial, |batches|))])
    else h'
  }

  /** Timeline values are supplied and increase: beyond every committed signal and every value
      the host has seen. */
  predicate SignalIncreases(h: History, semaphores: map<SemaphoreId, Semaphore>, op: SemaphoreOp) {
    && op.id in semaphores
    && (semaphores[op.id].timeline ==>
          && op.value.Some? && op.value.value > ValueOf(h.seen, op.id)
          && forall s | s in SignalsOf(h.timeline, op.id) :: s.value < op.value.value)
  }

  predicate WaitAllowedAt(h: History, semaphores: map<SemaphoreId, Semaphore>, serial: nat, ops: seq<SemaphoreOp>,
                           j: nat)
    requires j < |ops|
  {
    WaitAllowed(Waits(h, semaphores, serial, ops[..j]).0, semaphores, ops[j])
  }

  predicate WaitsAllowed(h: History, semaphores: map<SemaphoreId, Semaphore>, serial: nat, ops: seq<SemaphoreOp>) {
    forall j | 0 <= j < |ops| :: WaitAllowedAt(h, semaphores, serial, ops, j)
  }

  predicate SignalIncreasesAt(h: History, semaphores: map<SemaphoreId, Semaphore>, serial: nat,
                              ops: seq<SemaphoreOp>, j: nat)
    requires j < |ops|
  {
    SignalIncreases(Signals(h, semaphores, serial, ops[..j]), semaphores, ops[j])
  }

  predicate SignalsIncrease(h: History, semaphores: map<SemaphoreId, Semaphore>, serial: nat, ops: seq<SemaphoreOp>) {
    forall j | 0 <= j < |ops| :: SignalIncreasesAt(h, semaphores, serial, ops, j)
  }

  predicate BatchAllowed(h: History, semaphores: map<SemaphoreId, Semaphore>, queue: QueueId, serial: nat,
                         batch: Batch)
  {
    && WaitsAllowed(h, semaphores, serial, batch.waits)
    && SignalsIncrease(Submitted(h, semaphores, queue, serial, batch), semaphores, serial, batch.signals)
  }

  predicate BatchAllowedAt(h: History, semaphores: map<SemaphoreId, Semaphore>, queue: QueueId, first: nat,
                           batches: seq<Batch>, i: nat)
    requires i < |batches|
  {
    BatchAllowed(AfterBatches(h, semaphores, queue, first, batches[..i]), semaphores, queue, first + i, batches[i])
  }

  predicate BatchesAllowed(h: History, semaphores: map<SemaphoreId, Semaphore>, queue: QueueId, first: nat,
                           batches: seq<Batch>)
  {
    forall i | 0 <= i < |batches| :: BatchAllowedAt(h, semaphores, queue, first, batches, i)
  }

  /** When the call signals a submission that was already waiting, that submission is in another
      queue, and what the signal brings is carried to whatever follows it. */
  ghost predicate CallAllowed(h: History, semaphores: map<SemaphoreId, Semaphore>, queue: QueueId, first: nat,
                              batches: seq<Batch>)
  {
    && BatchesAllowed(h, semaphores, queue, first, batches)
    && var h' := AfterBatches(h, semaphores, queue, first, batches);
       LateAllowed(h'.graph, queue, h'.late)
  }

  // ---------------------------------------------------------------------------
  // Soundness of the tables
  // ---------------------------------------------------------------------------

  ghost predicate RecordSound(g: Graph, r: TimelineSignal, s: Signal, acquiredValue: nat) {
    && r.value == s.value && r.serial == s.serial && r.value > acquiredValue
    && r.serial in g.submissions && r.queue == g.submissions[r.serial].queue
    && Covers(g, Point(r.queue, r.serial), r.memoryIds)
  }

  ghost predicate SettledSignal(g: Graph, s: Signal, acquiredValue: nat) {
    && s.value <= acquiredValue && s.serial in g.submissions
    && Covers(g, Point(g.submissions[s.serial].queue, s.serial), {})
  }

  /** The records of a timeline semaphore are its latest signals, each covering its position;
      the earlier ones have been seen and leave nothing unacquired. */
  ghost predicate TimelineSound(g: Graph, all: seq<Signal>, seen: nat, s: Semaphore) {
    && s.acquiredValue == seen
    && |s.signals| <= |all|
    && (forall i, j | 0 <= i < j < |all| :: all[i].value < all[j].value)
    && (forall i | 0 <= i < |s.signals| :: RecordSound(g, s.signals[i], all[|all| - |s.signals| + i], seen))
    && (forall i | 0 <= i < |all| - |s.signals| :: SettledSignal(g, all[i], seen))
  }

  ghost predicate BinarySound(g: Graph, serial: nat, s: Semaphore) {
    && !s.timeline && s.signaled && s.serial == serial
    && serial in g.submissions && s.queue == g.submissions[serial].queue
    && Covers(g, Point(s.queue, s.serial), s.writes)
  }

  ghost predicate SemaphoresSound(g: Graph, timeline: map<SemaphoreId, seq<Signal>>, binary: map<SemaphoreId, nat>,
                                  seen: map<SemaphoreId, nat>, semaphores: map<SemaphoreId, Semaphore>)
  {
    && (forall id | IsTimeline(semaphores, id) ::
          TimelineSound(g, SignalsOf(timeline, id), ValueOf(seen, id), semaphores[id]))
    && (forall id | id in binary :: id in semaphores && BinarySound(g, binary[id], semaphores[id]))
  }

  function RecordedFence(fences: map<FenceId, FenceRecord>, f: FenceId): set<MemoryId> {
    if f in fences then fences[f].memoryIds else {}
  }

  /** The tables hold a pending wait for a waiter. */
  predicate Held(g: Graph, semaphores: map<SemaphoreId, Semaphore>, w: Waiter) {
    && w.serial in g.submissions && IsTimeline(semaphores, w.id)
    && exists p :: p in semaphores[w.id].pending && p.value == w.value && p.serial == w.serial
                   && p.queue == g.submissions[w.serial].queue
  }

  /** No submission before the position is still waiting. */
  ghost predicate NobodyWaits(g: Graph, waiting: set<Waiter>, point: Point) {
    forall w | w in waiting :: !Before(g, w.serial, point)
  }

  /** The fence's record names its position, or nothing before the position is still waiting. */
  ghost predicate FenceKnown(g: Graph, waiting: set<Waiter>, fences: map<FenceId, FenceRecord>, f: FenceId, at: Point) {
    (f in fences && fences[f].queue == at.queue && fences[f].serial == at.serial) || NobodyWaits(g, waiting, at)
  }

  /** Nothing before a signal whose record was dropped is still waiting. */
  ghost predicate SettledUnwaited(g: Graph, waiting: set<Waiter>, all: seq<Signal>, s: Semaphore) {
    forall i | 0 <= i < |all| - |s.signals| && all[i].serial in g.submissions ::
      NobodyWaits(g, waiting, Point(g.submissions[all[i].serial].queue, all[i].serial))
  }

  /** Pending waits are where a late signal looks for them, and positions without a record do not
      need one. */
  ghost predicate WaitersSound(g: Graph, waiting: set<Waiter>, timeline: map<SemaphoreId, seq<Signal>>,
                               fences: map<FenceId, Point>, st: State)
  {
    && (forall w | w in waiting :: Held(g, st.semaphores, w))
    && (forall f | f in fences :: FenceKnown(g, waiting, st.fences, f, fences[f]))
    && (forall id | IsTimeline(st.semaphores, id) ::
          SettledUnwaited(g, waiting, SignalsOf(timeline, id), st.semaphores[id]))
  }

  /** Every table entry covers what precedes the completion it stands for. */
  ghost predicate Covering(st: State, h: History) {
    && WellFormed(h.graph, st.nextSerial)
    && (forall q: QueueId :: Covers(h.graph, Point(q, st.nextSerial), QueueWrites(st.queueWrites, q)))
    && (forall f | f in h.fences :: h.fences[f].serial < st.nextSerial
          && Covers(h.graph, h.fences[f], RecordedFence(st.fences, f)))
    && SemaphoresSound(h.graph, h.timeline, h.binary, h.seen, st.semaphores)
  }

  ghost predicate Sound(st: State, h: History) {
    Covering(st, h) && h.late == {} && WaitersSound(h.graph, h.waiting, h.timeline, h.fences, st)
  }

  // ---------------------------------------------------------------------------
  // Finding the signal of a wait
  // ---------------------------------------------------------------------------

  lemma {:induction false} FirstSignalFound(signals: seq<Signal>, value: nat)
    ensures FirstSignal(signals, value).Some? ==>
              exists i :: 0 <= i < |signals| && signals[i] == FirstSignal(signals, value).value
                          && signals[i].value >= value
                          && forall j | 0 <= j < i :: signals[j].value < value
    ensures FirstSignal(signals, value).None? ==> forall i | 0 <= i < |signals| :: signals[i].value < value
    decreases |signals|
  {
    if signals != [] {
      var n := |signals| - 1;
      FirstSignalFound(signals[..n], value);
      if FirstSignal(signals[..n], value).Some? {
        var i :| 0 <= i < n && signals[..n][i] == FirstSignal(signals[..n], value).value
                 && signals[..n][i].value >= value && forall j | 0 <= j < i :: signals[..n][j].value < value;
        assert signals[i] == signals[..n][i];
        forall j | 0 <= j < i ensures signals[j].value < value { assert signals[j] == signals[..n][j]; }
      } else {
        forall i | 0 <= i < n ensures signals[i].value < value { assert signals[i] == signals[..n][i]; }
      }
    }
  }

  lemma {:induction false} FirstAtLeastFound(signals: seq<TimelineSignal>, value: nat, k: nat)
    requires k < |signals| && signals[k].value >= value
    requires forall j | 0 <= j < k :: signals[j].value < value
    ensures FirstAtLeast(signals, value) == Some(signals[k].memoryIds)
    decreases |signals|
  {
    var n := |signals| - 1;
    if k < n {
      FirstAtLeastFound(signals[..n], value, k);
    } else {
      FirstAtLeastNone(signals[..n], value);
    }
  }

  lemma {:induction false} FirstAtLeastNone(signals: seq<TimelineSignal>, value: nat)
    requires forall j | 0 <= j < |signals| :: signals[j].value < value
    ensures FirstAtLeast(signals, value) == None
    decreases |signals|
  {
    if signals != [] {
      FirstAtLeastNone(signals[..|signals| - 1], value);
    }
  }

  /** A timeline wait whose signal was committed before the call brings in memories that cover it. */
  lemma ResolveCovers(g: Graph, all: seq<Signal>, seen: nat, s: Semaphore, op: SemaphoreOp)
    requires s.timeline && TimelineSound(g, all, seen, s) && op.value.Some?
    ensures var first := FirstSignal(all, op.value.value);
            first.Some? && (seen < op.value.value || first.value.value <= seen) ==>
              var y := first.value.serial;
              y in g.submissions && Covers(g, Point(g.submissions[y].queue, y), Resolve(s, op).0)
  {
    var value := op.value.value;
    FirstSignalFound(all, value);
    var first := FirstSignal(all, value);
    if first.Some? && (seen < value || first.value.value <= seen) {
      var i :| 0 <= i < |all| && all[i] == first.value && all[i].value >= value
               && forall j | 0 <= j < i :: all[j].value < value;
      var off := |all| - |s.signals|;
      if i < off {
        assert SettledSignal(g, all[i], seen);
      } else {
        assert RecordSound(g, s.signals[i - off], all[i], seen);
        forall j | 0 <= j < i - off ensures s.signals[j].value < value {
          assert RecordSound(g, s.signals[j], all[off + j], seen);
        }
        FirstAtLeastFound(s.signals, value, i - off);
      }
    }
  }

  lemma {:induction false} FirstSignalOfSum(a: seq<Signal>, b: seq<Signal>, value: nat)
    ensures FirstSignal(a + b, value) == if FirstSignal(a, value).Some? then FirstSignal(a, value)
                                         else FirstSignal(b, value)
    decreases |b|
  {
    if b == [] {
      assert a + b == a;
    } else {
      var n := |b| - 1;
      FirstSignalOfSum(a, b[..n], value);
      assert (a + b)[..|a| + n] == a + b[..n];
    }
  }
}
