/** Planning a submit call computes, for every record it is about to make, memories that cover it. */
module SubmitPlan {
  import opened Options
  import opened Provenance
  import opened Precedence
  import opened HappensBefore

  // ---------------------------------------------------------------------------
  // The signals of a call, in the order they are committed
  // ---------------------------------------------------------------------------

  function TimelineAfter(base: map<SemaphoreId, seq<Signal>>, signals: seq<PlannedSignal>)
    : map<SemaphoreId, seq<Signal>>
  {
    if signals == [] then base
    else
      var before, s := TimelineAfter(base, signals[..|signals| - 1]), signals[|signals| - 1];
      if s.timeline then before[s.id := SignalsOf(before, s.id) + [Signal(s.value, s.serial)]] else before
  }

  function BinaryAfter(base: map<SemaphoreId, nat>, signals: seq<PlannedSignal>): map<SemaphoreId, nat> {
    if signals == [] then base
    else
      var before, s := BinaryAfter(base, signals[..|signals| - 1]), signals[|signals| - 1];
      if s.timeline then before else before[s.id := s.serial]
  }

  /** The timeline signals of one semaphore. */
  function TimelineOf(signals: seq<PlannedSignal>, id: SemaphoreId): seq<Signal> {
    if signals == [] then []
    else
      var before, s := TimelineOf(signals[..|signals| - 1], id), signals[|signals| - 1];
      if s.timeline && s.id == id then before + [Signal(s.value, s.serial)] else before
  }

  lemma {:induction false} TimelineOrigin(base: map<SemaphoreId, seq<Signal>>, signals: seq<PlannedSignal>,
                                          id: SemaphoreId)
    ensures SignalsOf(TimelineAfter(base, signals), id) == SignalsOf(base, id) + TimelineOf(signals, id)
    ensures forall s | s in TimelineOf(signals, id) :: exists k :: 0 <= k < |signals| && signals[k].serial == s.serial
    decreases |signals|
  {
    if signals == [] {
      assert SignalsOf(base, id) + [] == SignalsOf(base, id);
    } else {
      var n := |signals| - 1;
      TimelineOrigin(base, signals[..n], id);
      forall s | s in TimelineOf(signals, id)
        ensures exists k :: 0 <= k < |signals| && signals[k].serial == s.serial
      {
        if s in TimelineOf(signals[..n], id) {
          var k :| 0 <= k < n && signals[..n][k].serial == s.serial;
          assert signals[k].serial == s.serial;
        } else {
          assert signals[n].serial == s.serial;
        }
      }
    }
  }

  lemma {:induction false} BinaryOrigin(base: map<SemaphoreId, nat>, signals: seq<PlannedSignal>, id: SemaphoreId)
    requires id in BinaryAfter(base, signals)
    ensures || (id in base && BinaryAfter(base, signals)[id] == base[id])
            || (exists k :: 0 <= k < |signals| && signals[k].serial == BinaryAfter(base, signals)[id])
    decreases |signals|
  {
    if signals != [] {
      var n := |signals| - 1;
      if signals[n].timeline || signals[n].id != id {
        BinaryOrigin(base, signals[..n], id);
        if k :| 0 <= k < n && signals[..n][k].serial == BinaryAfter(base, signals)[id] {
          assert signals[k].serial == BinaryAfter(base, signals)[id];
        }
      } else {
        assert signals[n].serial == BinaryAfter(base, signals)[id];
      }
    }
  }

  /** Removing one semaphore from the base changes nothing for the others. */
  lemma {:induction false} BinaryRemoved(base: map<SemaphoreId, nat>, id: SemaphoreId, signals: seq<PlannedSignal>,
                                         other: SemaphoreId)
    requires other != id && other in BinaryAfter(base, signals)
    ensures other in BinaryAfter(base - {id}, signals)
    ensures BinaryAfter(base - {id}, signals)[other] == BinaryAfter(base, signals)[other]
    decreases |signals|
  {
    if signals != [] {
      var n := |signals| - 1;
      if signals[n].timeline || signals[n].id != other {
        BinaryRemoved(base, id, signals[..n], other);
      }
    }
  }

  // ---------------------------------------------------------------------------
  // What planning keeps
  // ---------------------------------------------------------------------------

  /** The state and history a call starts from. */
  datatype Call = Call(history: History, semaphores: map<SemaphoreId, Semaphore>, queue: QueueId, first: nat)

  ghost predicate CallSound(c: Call) {
    && WellFormed(c.history.graph, c.first) && c.history.late == {}
    && (forall w | w in c.history.waiting :: w.serial in c.history.graph.submissions)
    && SemaphoresSound(c.history.graph, c.history.timeline, c.history.binary, c.history.seen, c.semaphores)
  }

  /** A planned signal covers its position and may be recorded after the ones before it. */
  ghost predicate PlannedSound(c: Call, g: Graph, signals: seq<PlannedSignal>, k: nat)
    requires k < |signals|
  {
    var s := signals[k];
    && s.serial in g.submissions && g.submissions[s.serial].queue == c.queue && c.first <= s.serial
    && Covers(g, Point(c.queue, s.serial), s.memoryIds)
    && s.id in c.semaphores && s.timeline == c.semaphores[s.id].timeline
    && (s.timeline ==> s.value > ValueOf(c.history.seen, s.id))
    && (s.timeline ==> forall e | e in SignalsOf(TimelineAfter(c.history.timeline, signals[..k]), s.id)
                         :: e.value < s.value)
  }

  /** The positions recorded before the call. */
  predicate Earlier(c: Call, point: Point) {
    point.queue != c.queue || point.serial < c.first
  }

  /** What covered an earlier position still does. */
  ghost predicate Kept(c: Call, g: Graph) {
    forall point, ids :: Earlier(c, point) && Covers(c.history.graph, point, ids) ==> Covers(g, point, ids)
  }

  ghost predicate GraphExtends(c: Call, g: Graph) {
    && (forall y | y in c.history.graph.submissions ::
          y < c.first && y in g.submissions && g.submissions[y] == c.history.graph.submissions[y])
    && (forall y | y in g.submissions && y !in c.history.graph.submissions ::
          c.first <= y && g.submissions[y].queue == c.queue)
  }

  ghost predicate BinaryTracked(c: Call, h: History, plan: Plan) {
    forall id | id in h.binary ::
      && id in BinaryAfter(c.history.binary - plan.consumed, plan.signals)
      && BinaryAfter(c.history.binary - plan.consumed, plan.signals)[id] == h.binary[id]
  }

  /** What preceded an earlier submission still is what preceded it. */
  ghost predicate OrderKept(c: Call, g: Graph) {
    forall a, t :: t in c.history.graph.submissions && Precedes(g, a, t) ==> Precedes(c.history.graph, a, t)
  }

  predicate EndsWait(signal: PlannedSignal, w: Waiter) {
    signal.timeline && Ends(signal.id, signal.value, w)
  }

  predicate NotEnded(signals: seq<PlannedSignal>, w: Waiter) {
    forall k | 0 <= k < |signals| :: !EndsWait(signals[k], w)
  }

  predicate WaitPlanned(queue: QueueId, waits: seq<PlannedWait>, w: Waiter) {
    exists j :: 0 <= j < |waits| && waits[j].id == w.id && waits[j].wait.value == w.value
                && waits[j].wait.serial == w.serial && waits[j].wait.queue == queue
  }

  /** The pair comes from the first planned signal that ends a wait. */
  ghost predicate LatePlanned(c: Call, signals: seq<PlannedSignal>, e: (nat, nat)) {
    exists w: Waiter, k: nat :: LateBy(c, signals, e, w, k)
  }

  predicate LateBy(c: Call, signals: seq<PlannedSignal>, e: (nat, nat), w: Waiter, k: nat) {
    && k < |signals| && e == (signals[k].serial, w.serial) && EndsWait(signals[k], w)
    && NotEnded(signals[..k], w) && (c.first <= w.serial || w in c.history.waiting)
  }

  ghost predicate WaitersPlanned(c: Call, h: History, plan: Plan) {
    && (forall w | w in h.waiting ::
          && NotEnded(plan.signals, w)
          && (w in c.history.waiting
              || (c.first <= w.serial && IsTimeline(c.semaphores, w.id) && WaitPlanned(c.queue, plan.waits, w))))
    && forall e | e in h.late :: LatePlanned(c, plan.signals, e)
  }

  ghost predicate HistoryTracked(c: Call, h: History, n: nat, plan: Plan) {
    && WellFormed(h.graph, n) && WaitersPlanned(c, h, plan) && OrderKept(c, h.graph)
    && (forall w | w in h.waiting :: w.serial < n)
    && (forall y | c.first <= y < n :: y in h.graph.submissions)
    && h.seen == c.history.seen && h.hosted == c.history.hosted && h.fences == c.history.fences
    && h.timeline == TimelineAfter(c.history.timeline, plan.signals)
    && BinaryTracked(c, h, plan)
  }

  /** After planning the submissions up to serial `n`: the queue's next set covers the queue, every
      planned signal covers its position, and earlier positions stay covered. */
  ghost predicate Planned(c: Call, h: History, n: nat, plan: Plan) {
    && c.first <= n && HistoryTracked(c, h, n, plan)
    && GraphExtends(c, h.graph) && Kept(c, h.graph)
    && Covers(h.graph, Point(c.queue, n), plan.next)
    && forall k | 0 <= k < |plan.signals| :: PlannedSound(c, h.graph, plan.signals, k)
  }

  /** The submission a wait depends on is covered by what the wait brings in, together with the
      queue's set when the signal was planned earlier in this call. */
  lemma WaitCovers(c: Call, h: History, n: nat, plan: Plan, hw: History, op: SemaphoreOp)
    requires CallSound(c) && Planned(c, h, n, plan)
    requires hw == h.(binary := hw.binary, waiting := hw.waiting)
    requires forall id | id in hw.binary :: id in h.binary && h.binary[id] == hw.binary[id]
    requires op.id in c.semaphores
    ensures var source := Source(hw, c.semaphores[op.id].timeline, op);
            source.Some? ==>
              && source.value in h.graph.submissions
              && Covers(h.graph, Point(h.graph.submissions[source.value].queue, source.value),
                        plan.next + Resolve(c.semaphores[op.id], op).0)
  {
    var s := c.semaphores[op.id];
    var source := Source(hw, s.timeline, op);
    if source.Some? {
      var y := source.value;
      var inCall := exists k :: 0 <= k < |plan.signals| && plan.signals[k].serial == y;
      if inCall {
        var k :| 0 <= k < |plan.signals| && plan.signals[k].serial == y;
        assert PlannedSound(c, h.graph, plan.signals, k);
        CoversWithin(h.graph, Point(c.queue, n), Point(c.queue, y), plan.next);
      } else {
        RecordedWaitCovers(c, h, n, plan, hw, op);
        var at := Point(h.graph.submissions[y].queue, y);
        assert Earlier(c, at);
        CoversMore(h.graph, at, Resolve(s, op).0, plan.next + Resolve(s, op).0);
      }
    }
  }

  /** The case of a signal committed before the call. */
  lemma RecordedWaitCovers(c: Call, h: History, n: nat, plan: Plan, hw: History, op: SemaphoreOp)
    requires CallSound(c) && Planned(c, h, n, plan)
    requires hw == h.(binary := hw.binary, waiting := hw.waiting)
    requires forall id | id in hw.binary :: id in h.binary && h.binary[id] == hw.binary[id]
    requires op.id in c.semaphores
    requires var source := Source(hw, c.semaphores[op.id].timeline, op);
             source.Some? && !(exists k :: 0 <= k < |plan.signals| && plan.signals[k].serial == source.value)
    ensures var y := Source(hw, c.semaphores[op.id].timeline, op).value;
            && y in c.history.graph.submissions && y in h.graph.submissions && y < c.first
            && Covers(h.graph, Point(h.graph.submissions[y].queue, y), Resolve(c.semaphores[op.id], op).0)
  {
    var s := c.semaphores[op.id];
    var y := Source(hw, s.timeline, op).value;
    if s.timeline {
      var all, value := SignalsOf(c.history.timeline, op.id), op.value.value;
      TimelineOrigin(c.history.timeline, plan.signals, op.id);
      FirstSignalOfSum(all, TimelineOf(plan.signals, op.id), value);
      FirstSignalFound(TimelineOf(plan.signals, op.id), value);
      assert IsTimeline(c.semaphores, op.id);
      ResolveCovers(c.history.graph, all, ValueOf(c.history.seen, op.id), s, op);
    } else {
      BinaryOrigin(c.history.binary - plan.consumed, plan.signals, op.id);
      assert BinarySound(c.history.graph, c.history.binary[op.id], s);
    }
    assert Earlier(c, Point(c.history.graph.submissions[y].queue, y));
  }

  /** After planning some waits of the batch with serial `n`. */
  ghost predicate WaitsPlanned(c: Call, h: History, n: nat, plan: Plan, writes: set<MemoryId>,
                               hw: History, sources: set<nat>, waited: Plan)
  {
    && hw == h.(binary := hw.binary, waiting := hw.waiting)
    && (forall id | id in hw.binary :: id in h.binary && h.binary[id] == hw.binary[id])
    && waited.next == plan.next && waited.signals == plan.signals && writes <= waited.submit
    && BinaryTracked(c, hw, waited) && WaitersPlanned(c, hw, waited)
    && (forall w | w in hw.waiting :: w.serial <= n)
    && sources <= h.graph.submissions.Keys
    && forall y | y in sources ::
         Covers(h.graph, Point(h.graph.submissions[y].queue, y), waited.next + waited.submit)
  }

  /** A wait the history does not see resolved stays pending in the tables. */
  lemma UnresolvedIsPending(c: Call, h: History, plan: Plan, op: SemaphoreOp)
    requires CallSound(c) && h.seen == c.history.seen
    requires h.timeline == TimelineAfter(c.history.timeline, plan.signals)
    requires Unresolved(h, c.semaphores, op)
    ensures !Resolve(c.semaphores[op.id], op).1
  {
    var s, all, value := c.semaphores[op.id], SignalsOf(c.history.timeline, op.id), op.value.value;
    assert IsTimeline(c.semaphores, op.id);
    assert TimelineSound(c.history.graph, all, ValueOf(c.history.seen, op.id), s);
    TimelineOrigin(c.history.timeline, plan.signals, op.id);
    FirstSignalOfSum(all, TimelineOf(plan.signals, op.id), value);
    FirstSignalFound(all, value);
    forall j | 0 <= j < |s.signals| ensures s.signals[j].value < value {
      assert RecordSound(c.history.graph, s.signals[j], all[|all| - |s.signals| + j], ValueOf(c.history.seen, op.id));
    }
    FirstAtLeastNone(s.signals, value);
  }

  lemma {:induction false} InTimelineOf(signals: seq<PlannedSignal>, k: nat)
    requires k < |signals| && signals[k].timeline
    ensures Signal(signals[k].value, signals[k].serial) in TimelineOf(signals, signals[k].id)
    decreases |signals|
  {
    var n := |signals| - 1;
    if k < n {
      InTimelineOf(signals[..n], k);
    }
  }

  /** No signal planned so far ends a wait the history does not see resolved. */
  lemma UnresolvedNotEnded(c: Call, h: History, plan: Plan, op: SemaphoreOp, w: Waiter)
    requires h.timeline == TimelineAfter(c.history.timeline, plan.signals)
    requires Unresolved(h, c.semaphores, op) && w.id == op.id && w.value == op.value.value
    ensures NotEnded(plan.signals, w)
  {
    var all := SignalsOf(c.history.timeline, op.id) + TimelineOf(plan.signals, op.id);
    TimelineOrigin(c.history.timeline, plan.signals, op.id);
    FirstSignalFound(all, op.value.value);
    forall k | 0 <= k < |plan.signals| && plan.signals[k].timeline && plan.signals[k].id == w.id
      ensures plan.signals[k].value < w.value
    {
      InTimelineOf(plan.signals, k);
      assert Signal(plan.signals[k].value, plan.signals[k].serial) in all;
    }
  }

  lemma OneWaiterPlanned(c: Call, h: History, n: nat, plan: Plan, downstream: seq<SemaphoreId>,
                         hw: History, waited: Plan, op: SemaphoreOp)
    requires CallSound(c) && Planned(c, h, n, plan) && hw == h.(binary := hw.binary, waiting := hw.waiting)
    requires waited.signals == plan.signals && WaitersPlanned(c, hw, waited)
    ensures WaitersPlanned(c, AfterWait(hw, c.semaphores, n, op),
                           PlanWait(c.semaphores, c.queue, n, downstream, waited, op))
  {
    var hw', waited' := AfterWait(hw, c.semaphores, n, op), PlanWait(c.semaphores, c.queue, n, downstream, waited, op);
    forall w | w in hw'.waiting
      ensures NotEnded(waited'.signals, w)
      ensures w in c.history.waiting
              || (c.first <= w.serial && IsTimeline(c.semaphores, w.id) && WaitPlanned(c.queue, waited'.waits, w))
    {
      if w in hw.waiting {
        if j :| 0 <= j < |waited.waits| && waited.waits[j].id == w.id && waited.waits[j].wait.value == w.value
                && waited.waits[j].wait.serial == w.serial && waited.waits[j].wait.queue == c.queue {
          assert waited'.waits[j] == waited.waits[j];
        }
      } else {
        UnresolvedIsPending(c, hw, plan, op);
        UnresolvedNotEnded(c, hw, plan, op, w);
        assert waited'.waits[|waited.waits|].id == w.id;
      }
    }
  }

  lemma OneWaitPlanned(c: Call, h: History, n: nat, plan: Plan, writes: set<MemoryId>, downstream: seq<SemaphoreId>,
                       hw: History, sources: set<nat>, waited: Plan, op: SemaphoreOp)
    requires CallSound(c) && Planned(c, h, n, plan)
    requires WaitsPlanned(c, h, n, plan, writes, hw, sources, waited)
    requires WaitAllowed(hw, c.semaphores, op)
    ensures var source := Source(hw, IsTimeline(c.semaphores, op.id), op);
            WaitsPlanned(c, h, n, plan, writes, AfterWait(hw, c.semaphores, n, op),
                         sources + (if source.Some? then {source.value} else {}),
                         PlanWait(c.semaphores, c.queue, n, downstream, waited, op))
  {
    var source := Source(hw, IsTimeline(c.semaphores, op.id), op);
    var waited' := PlanWait(c.semaphores, c.queue, n, downstream, waited, op);
    var hw', sources' := AfterWait(hw, c.semaphores, n, op), sources + (if source.Some? then {source.value} else {});
    WaitCovers(c, h, n, plan, hw, op);
    OneWaiterPlanned(c, h, n, plan, downstream, hw, waited, op);
    assert waited'.submit == waited.submit + Resolve(c.semaphores[op.id], op).0;
    forall y | y in sources'
      ensures y in h.graph.submissions
              && Covers(h.graph, Point(h.graph.submissions[y].queue, y), waited'.next + waited'.submit)
    {
      var at := Point(h.graph.submissions[y].queue, y);
      if y in sources {
        CoversMore(h.graph, at, waited.next + waited.submit, waited'.next + waited'.submit);
      } else {
        CoversMore(h.graph, at, plan.next + Resolve(c.semaphores[op.id], op).0, waited'.next + waited'.submit);
      }
    }
    if !IsTimeline(c.semaphores, op.id) {
      var base := c.history.binary - waited.consumed;
      assert c.history.binary - waited'.consumed == base - {op.id};
      forall id | id in hw'.binary
        ensures id in BinaryAfter(base - {op.id}, plan.signals)
                && BinaryAfter(base - {op.id}, plan.signals)[id] == hw'.binary[id]
      {
        BinaryRemoved(base, op.id, plan.signals, id);
      }
    } else {
      assert waited'.consumed == waited.consumed;
    }
  }

  lemma {:induction false} AllWaitsPlanned(c: Call, h: History, n: nat, plan: Plan, writes: set<MemoryId>,
                                           downstream: seq<SemaphoreId>, ops: seq<SemaphoreOp>)
    requires CallSound(c) && Planned(c, h, n, plan)
    requires WaitsAllowed(h, c.semaphores, n, ops)
    ensures var (hw, sources) := Waits(h, c.semaphores, n, ops);
            WaitsPlanned(c, h, n, plan, writes, hw, sources,
                         PlanWaits(c.semaphores, c.queue, n, downstream, plan.(submit := writes), ops))
    decreases |ops|
  {
    if ops != [] {
      var k := |ops| - 1;
      forall j | 0 <= j < k
        ensures WaitAllowedAt(h, c.semaphores, n, ops[..k], j)
      {
        assert ops[..k][..j] == ops[..j] && WaitAllowedAt(h, c.semaphores, n, ops, j);
      }
      assert WaitAllowedAt(h, c.semaphores, n, ops, k);
      AllWaitsPlanned(c, h, n, plan, writes, downstream, ops[..k]);
      var (hw, sources) := Waits(h, c.semaphores, n, ops[..k]);
      var waited := PlanWaits(c.semaphores, c.queue, n, downstream, plan.(submit := writes), ops[..k]);
      OneWaitPlanned(c, h, n, plan, writes, downstream, hw, sources, waited, ops[k]);
    }
  }

  /** Adding the batch's submission: its position is covered by the extended queue set, and nothing
      planned or recorded earlier is lost. */
  lemma SubmissionPlanned(c: Call, h: History, n: nat, plan: Plan, writes: set<MemoryId>,
                          hw: History, sources: set<nat>, waited: Plan)
    requires CallSound(c) && Planned(c, h, n, plan)
    requires WaitsPlanned(c, h, n, plan, writes, hw, sources, waited)
    ensures var h' := hw.(graph := AddSubmission(hw.graph, n, Submission(c.queue, writes), sources));
            Planned(c, h', n + 1, waited.(next := waited.next + waited.submit)) && n in h'.graph.submissions
  {
    var s := Submission(c.queue, writes);
    var g, g' := h.graph, AddSubmission(h.graph, n, s, sources);
    var next := waited.next + waited.submit;
    CoversMore(g, Point(c.queue, n), plan.next, next);
    CoversNew(g, n, s, sources, next);
    CoversWithin(g', Point(c.queue, n), Point(c.queue, n + 1), next);
    forall point, ids | Earlier(c, point) && Covers(c.history.graph, point, ids)
      ensures Covers(g', point, ids)
    {
      assert Covers(g, point, ids);
      CoversOld(g, n, s, sources, point, ids);
    }
    forall a, t | t in c.history.graph.submissions && Precedes(g', a, t)
      ensures Precedes(c.history.graph, a, t)
    {
      PrecedesOld(g, n, s, sources, a, t);
    }
    forall k | 0 <= k < |plan.signals|
      ensures PlannedSound(c, g', plan.signals, k)
    {
      assert PlannedSound(c, g, plan.signals, k);
      var signal := plan.signals[k];
      CoversOld(g, n, s, sources, Point(c.queue, signal.serial), signal.memoryIds);
    }
  }

  /** A planned signal ends the waits the history ends. */
  lemma OneSignalWaiters(c: Call, h: History, n: nat, plan: Plan, op: SemaphoreOp)
    requires WaitersPlanned(c, h, plan)
    ensures WaitersPlanned(c, AfterSignal(h, IsTimeline(c.semaphores, op.id), n, op),
                           PlanSignal(c.semaphores, n, plan, op))
  {
    var h', plan' := AfterSignal(h, IsTimeline(c.semaphores, op.id), n, op), PlanSignal(c.semaphores, n, plan, op);
    var k := |plan.signals|;
    assert plan'.signals[..k] == plan.signals;
    forall e | e in h'.late ensures LatePlanned(c, plan'.signals, e) {
      if e in h.late {
        var w: Waiter, i: nat :| LateBy(c, plan.signals, e, w, i);
        assert plan'.signals[..i] == plan.signals[..i];
        assert LateBy(c, plan'.signals, e, w, i);
      } else {
        var w :| w in Ended(h.waiting, op.id, SignalValue(op)) && e == (n, w.serial);
        assert LateBy(c, plan'.signals, e, w, k);
      }
    }
  }

  /** Planning one signal of the submission with serial `n`. */
  lemma OneSignalPlanned(c: Call, h: History, n: nat, plan: Plan, op: SemaphoreOp)
    requires CallSound(c) && Planned(c, h, n + 1, plan)
    requires n in h.graph.submissions && h.graph.submissions[n].queue == c.queue && c.first <= n
    requires SignalIncreases(h, c.semaphores, op)
    ensures Planned(c, AfterSignal(h, IsTimeline(c.semaphores, op.id), n, op), n + 1,
                    PlanSignal(c.semaphores, n, plan, op))
  {
    var timeline := IsTimeline(c.semaphores, op.id);
    var h', plan' := AfterSignal(h, timeline, n, op), PlanSignal(c.semaphores, n, plan, op);
    assert h'.graph == h.graph;
    OneSignalWaiters(c, h, n, plan, op);
    var k := |plan.signals|;
    assert plan'.signals[..k] == plan.signals;
    assert Covers(h.graph, Point(c.queue, n), plan.next) by {
      CoversWithin(h.graph, Point(c.queue, n + 1), Point(c.queue, n), plan.next);
    }
    forall i | 0 <= i < |plan'.signals|
      ensures PlannedSound(c, h.graph, plan'.signals, i)
    {
      if i < k {
        assert PlannedSound(c, h.graph, plan.signals, i);
        assert plan'.signals[..i] == plan.signals[..i];
      }
    }
    assert h'.timeline == TimelineAfter(c.history.timeline, plan'.signals);
    assert BinaryTracked(c, h', plan');
  }

  lemma {:induction false} AllSignalsPlanned(c: Call, h: History, n: nat, plan: Plan, ops: seq<SemaphoreOp>)
    requires CallSound(c) && Planned(c, h, n + 1, plan)
    requires n in h.graph.submissions && h.graph.submissions[n].queue == c.queue && c.first <= n
    requires SignalsIncrease(h, c.semaphores, n, ops)
    ensures var h' := Signals(h, c.semaphores, n, ops);
            && Planned(c, h', n + 1, PlanSignals(c.semaphores, n, plan, ops))
            && h'.graph.submissions == h.graph.submissions
    decreases |ops|
  {
    if ops != [] {
      var k := |ops| - 1;
      forall j | 0 <= j < k
        ensures SignalIncreasesAt(h, c.semaphores, n, ops[..k], j)
      {
        assert ops[..k][..j] == ops[..j] && SignalIncreasesAt(h, c.semaphores, n, ops, j);
      }
      assert SignalIncreasesAt(h, c.semaphores, n, ops, k);
      AllSignalsPlanned(c, h, n, plan, ops[..k]);
      OneSignalPlanned(c, Signals(h, c.semaphores, n, ops[..k]), n, PlanSignals(c.semaphores, n, plan, ops[..k]), ops[k]);
    }
  }

  lemma BatchPlanned(c: Call, h: History, n: nat, plan: Plan, batch: Batch)
    requires CallSound(c) && Planned(c, h, n, plan) && BatchAllowed(h, c.semaphores, c.queue, n, batch)
    ensures Planned(c, AfterBatch(h, c.semaphores, c.queue, n, batch), n + 1,
                    PlanBatch(c.semaphores, c.queue, n, plan, batch))
  {
    AllWaitsPlanned(c, h, n, plan, batch.writes, Ids(batch.signals), batch.waits);
    var (hw, sources) := Waits(h, c.semaphores, n, batch.waits);
    var waited := PlanWaits(c.semaphores, c.queue, n, Ids(batch.signals), plan.(submit := batch.writes), batch.waits);
    SubmissionPlanned(c, h, n, plan, batch.writes, hw, sources, waited);
    AllSignalsPlanned(c, Submitted(h, c.semaphores, c.queue, n, batch), n,
                      waited.(next := waited.next + waited.submit), batch.signals);
  }

  lemma NothingPlanned(c: Call, next: set<MemoryId>)
    requires CallSound(c) && Covers(c.history.graph, Point(c.queue, c.first), next)
    ensures Planned(c, c.history, c.first, Plan({}, next, [], {}, []))
  {
    assert c.history.binary - {} == c.history.binary;
  }

  lemma AllowedPrefix(c: Call, batches: seq<Batch>, n: nat)
    requires BatchesAllowed(c.history, c.semaphores, c.queue, c.first, batches) && n <= |batches|
    ensures BatchesAllowed(c.history, c.semaphores, c.queue, c.first, batches[..n])
  {
    forall i | 0 <= i < n
      ensures BatchAllowedAt(c.history, c.semaphores, c.queue, c.first, batches[..n], i)
    {
      assert batches[..n][..i] == batches[..i];
      assert BatchAllowedAt(c.history, c.semaphores, c.queue, c.first, batches, i);
    }
  }

  /** The history and the plan of the whole call. */
  lemma {:induction false} CallPlanned(c: Call, next: set<MemoryId>, batches: seq<Batch>)
    returns (h: History, plan: Plan)
    requires CallSound(c) && Covers(c.history.graph, Point(c.queue, c.first), next)
    requires BatchesAllowed(c.history, c.semaphores, c.queue, c.first, batches)
    ensures h == AfterBatches(c.history, c.semaphores, c.queue, c.first, batches)
    ensures plan == PlanAll(c.semaphores, c.queue, c.first, next, batches)
    ensures Planned(c, h, c.first + |batches|, plan)
    decreases |batches|
  {
    hide Planned, BatchAllowed, AfterBatch, PlanBatch, CallSound;
    if batches == [] {
      NothingPlanned(c, next);
      h, plan := c.history, Plan({}, next, [], {}, []);
    } else {
      var n := |batches| - 1;
      AllowedPrefix(c, batches, n);
      var h0, plan0 := CallPlanned(c, next, batches[..n]);
      assert BatchAllowedAt(c.history, c.semaphores, c.queue, c.first, batches, n);
      h := AfterBatch(h0, c.semaphores, c.queue, c.first + n, batches[n]);
      plan := PlanBatch(c.semaphores, c.queue, c.first + n, plan0, batches[n]);
      BatchPlanned(c, h0, c.first + n, plan0, batches[n]);
    }
  }
}
