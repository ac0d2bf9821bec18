/** Two runs with three queues that end with a signal after its wait: one whose memories escape a queue,
    and one in which that queue waits for the signal too.
  */
module LateRuns {
  import opened Options
  import opened Provenance
  import opened Precedence
  import opened HappensBefore
  import opened LateSignals
  import opened ProvenanceRuns
  import opened EscapedSignals

  // ---------------------------------------------------------------------------
  // Runs, step by step
  // ---------------------------------------------------------------------------

  /** An allowed run leads there. */
  ghost predicate Reaches(steps: seq<Step>, st: State, h: History) {
    RunAllowed(steps) && Run(steps) == (st, h)
  }

  lemma OneMore(steps: seq<Step>, st: State, h: History, step: Step, st': State, h': History)
    requires Reaches(steps, st, h) && Allowed(st, h, step)
    requires st' == Next(st, step) && h' == Record(st, h, step)
    ensures Reaches(steps + [step], st', h')
  {
    assert (steps + [step])[..|steps|] == steps;
  }

  /** A submit call that completes no dependency. */
  lemma OneCall(steps: seq<Step>, st: State, h: History, queue: QueueId, batch: Batch, st': State, h': History)
    requires Reaches(steps, st, h) && BatchesAllowed(h, st.semaphores, queue, st.nextSerial, [batch])
    requires st' == Submit(st, queue, [batch], None, true)
    requires h' == AfterBatches(h, st.semaphores, queue, st.nextSerial, [batch]) && h'.late == {}
    ensures Reaches(steps + [Submits(queue, [batch], None, true)], st', h')
  {
    var step := Submits(queue, [batch], None, true);
    assert AddEdges(h'.graph, {}) == h'.graph;
    assert h' == Settle(h');
    hide Submit, AfterBatches, BatchesAllowed, Reaches;
    OneMore(steps, st, h, step, st', h');
  }

  lemma OneBatchPlan(st: State, queue: QueueId, batch: Batch)
    ensures PlanOf(st, queue, [batch])
            == PlanBatch(st.semaphores, queue, st.nextSerial, Plan({}, QueueWrites(st.queueWrites, queue), [], {}, []), batch)
  {
    var next := QueueWrites(st.queueWrites, queue);
    assert [batch][..0] == [] && PlanAll(st.semaphores, queue, st.nextSerial, next, []) == Plan({}, next, [], {}, []);
    assert st.nextSerial + 0 == st.nextSerial;
  }

  lemma OnePending(semaphores: map<SemaphoreId, Semaphore>, wait: PlannedWait)
    ensures var s := SemaphoreAt(semaphores, wait.id);
            AddPending(semaphores, [wait]) == semaphores[wait.id := s.(pending := s.pending + [wait.wait])]
  {
    assert [wait][..0] == [];
  }

  lemma OneWaitPlan(semaphores: map<SemaphoreId, Semaphore>, queue: QueueId, serial: nat, downstream: seq<SemaphoreId>,
                    plan: Plan, op: SemaphoreOp)
    ensures PlanWaits(semaphores, queue, serial, downstream, plan, [op])
            == PlanWait(semaphores, queue, serial, downstream, plan, op)
  {
    assert [op][..0] == [];
  }

  lemma OneSignalPlan(semaphores: map<SemaphoreId, Semaphore>, serial: nat, plan: Plan, op: SemaphoreOp)
    ensures PlanSignals(semaphores, serial, plan, [op]) == PlanSignal(semaphores, serial, plan, op)
  {
    assert [op][..0] == [];
  }

  lemma OneBatchHistory(h: History, semaphores: map<SemaphoreId, Semaphore>, queue: QueueId, first: nat, batch: Batch)
    ensures AfterBatches(h, semaphores, queue, first, [batch]) == AfterBatch(h, semaphores, queue, first, batch)
    ensures BatchAllowed(h, semaphores, queue, first, batch) ==> BatchesAllowed(h, semaphores, queue, first, [batch])
  {
    assert [batch][..0] == [];
  }

  lemma OneWaitHistory(h: History, semaphores: map<SemaphoreId, Semaphore>, serial: nat, op: SemaphoreOp)
    ensures var source := Source(h, IsTimeline(semaphores, op.id), op);
            Waits(h, semaphores, serial, [op])
            == (AfterWait(h, semaphores, serial, op), if source.Some? then {source.value} else {})
    ensures WaitAllowed(h, semaphores, op) ==> WaitsAllowed(h, semaphores, serial, [op])
  {
    assert [op][..0] == [];
    assert forall s: set<nat> :: {} + s == s;
  }

  lemma OneSignalHistory(h: History, semaphores: map<SemaphoreId, Semaphore>, serial: nat, op: SemaphoreOp)
    ensures Signals(h, semaphores, serial, [op]) == AfterSignal(h, IsTimeline(semaphores, op.id), serial, op)
    ensures SignalIncreases(h, semaphores, op) ==> SignalsIncrease(h, semaphores, serial, [op])
  {
    assert [op][..0] == [];
  }

  // ---------------------------------------------------------------------------
  // A semaphore between two queues
  // ---------------------------------------------------------------------------

  const WAIT := SemaphoreOp(7, Some(5), 0)
  const LINK := SemaphoreOp(8, None, 0)

  /** Submission 1 on queue 1 waits for value 5 of semaphore 7 and signals semaphore 8. */
  const FIRST := Batch({}, [WAIT], [LINK])

  const CREATED := State(1, map[], map[], map[7 := NewSemaphore(true), 8 := NewSemaphore(false)])

  const PENDING := PendingWait(5, 1, 1, [8])

  const WAITED := State(2, map[1 := {}], map[], map[
    7 := NewSemaphore(true).(pending := [PENDING]),
    8 := NewSemaphore(false).(signaled := true, queue := 1, serial := 1)])

  const WAITED_HISTORY := EMPTY.(
    graph := Graph(map[1 := Submission(1, {})], {}, {}), binary := map[8 := 1], waiting := {Waiter(7, 5, 1)})

  const CREATING: seq<Step> := [Creates(7, true), Creates(8, false)]

  const WAITING: seq<Step> := CREATING + [Submits(1, [FIRST], None, true)]

  lemma CreatedReached()
    ensures Reaches(CREATING, CREATED, EMPTY)
  {
    var one := State(1, map[], map[], map[7 := NewSemaphore(true)]);
    assert Reaches([], INITIAL, EMPTY);
    OneMore([], INITIAL, EMPTY, Creates(7, true), one, EMPTY);
    OneMore([] + [Creates(7, true)], one, EMPTY, Creates(8, false), CREATED, EMPTY);
    assert CREATING == [] + [Creates(7, true)] + [Creates(8, false)];
  }

  lemma FirstPlanned()
    ensures PlanOf(CREATED, 1, [FIRST])
            == Plan({}, {}, [PlannedWait(7, PENDING)], {}, [PlannedSignal(8, false, 0, 1, {})])
  {
    var semaphores, begin := CREATED.semaphores, Plan({}, {}, [], {}, []);
    OneBatchPlan(CREATED, 1, FIRST);
    assert Ids([LINK]) == [8];
    OneWaitPlan(semaphores, 1, 1, [8], begin, WAIT);
    var waited := PlanWait(semaphores, 1, 1, [8], begin, WAIT);
    assert waited == begin.(waits := [PlannedWait(7, PENDING)]);
    OneSignalPlan(semaphores, 1, waited.(next := waited.next + waited.submit), LINK);
  }

  lemma FirstNext()
    ensures Submit(CREATED, 1, [FIRST], None, true) == WAITED
  {
    FirstPlanned();
    var plan := PlanOf(CREATED, 1, [FIRST]);
    assert plan.signals[..0] == [];
    var added := AddPending(CREATED.semaphores, plan.waits);
    OnePending(CREATED.semaphores, PlannedWait(7, PENDING));
    assert [] + [PENDING] == [PENDING];
    assert ConsumeAll(added, {}) == added;
    var planned := Reserved(CREATED, 1, 1).(queueWrites := map[1 := {}], semaphores := added);
    assert Reserved(CREATED, 1, 1).queueWrites[1 := {}] == map[1 := {}];
    assert CommitSignals(planned, 1, plan.signals) == CommitSignal(planned, 1, plan.signals[0]);
    LinkCommits(planned);
  }

  lemma LinkCommits(st: State)
    requires 8 in st.semaphores && st.semaphores[8] == NewSemaphore(false)
    ensures CommitSignal(st, 1, PlannedSignal(8, false, 0, 1, {}))
            == st.(semaphores := st.semaphores[8 := NewSemaphore(false).(signaled := true, queue := 1, serial := 1)])
  {
  }

  lemma FirstHistory()
    ensures BatchesAllowed(EMPTY, CREATED.semaphores, 1, 1, [FIRST])
    ensures AfterBatches(EMPTY, CREATED.semaphores, 1, 1, [FIRST]) == WAITED_HISTORY
  {
    var semaphores := CREATED.semaphores;
    OneBatchHistory(EMPTY, semaphores, 1, 1, FIRST);
    OneWaitHistory(EMPTY, semaphores, 1, WAIT);
    assert AfterWait(EMPTY, semaphores, 1, WAIT) == EMPTY.(waiting := {Waiter(7, 5, 1)});
    var before := Submitted(EMPTY, semaphores, 1, 1, FIRST);
    assert AddSubmission(EMPTY.graph, 1, Submission(1, {}), {}) == WAITED_HISTORY.graph;
    assert before == EMPTY.(graph := WAITED_HISTORY.graph, waiting := {Waiter(7, 5, 1)});
    OneSignalHistory(before, semaphores, 1, LINK);
  }

  lemma WaitedReached()
    ensures Reaches(WAITING, WAITED, WAITED_HISTORY)
  {
    CreatedReached();
    FirstNext();
    FirstHistory();
    hide Submit, AfterBatches, BatchesAllowed, Reaches;
    OneCall(CREATING, CREATED, EMPTY, 1, FIRST, WAITED, WAITED_HISTORY);
  }

  // ---------------------------------------------------------------------------
  // A queue that only follows
  // ---------------------------------------------------------------------------

  /** Submission 2 on queue 2 follows submission 1 through semaphore 8. */
  const SECOND := Batch({}, [LINK], [])

  const FOLLOWED := State(3, map[1 := {}, 2 := {}], map[], map[
    7 := NewSemaphore(true).(pending := [PENDING]), 8 := NewSemaphore(false)])

  const FOLLOWED_HISTORY := EMPTY.(
    graph := Graph(map[1 := Submission(1, {}), 2 := Submission(2, {})], {(1, 2)}, {}), waiting := {Waiter(7, 5, 1)})

  const FOLLOWING: seq<Step> := WAITING + [Submits(2, [SECOND], None, true)]

  lemma LinkPlanned(plan: Plan)
    ensures PlanWait(WAITED.semaphores, 2, 2, [], plan, LINK) == plan.(consumed := plan.consumed + {8})
  {
    assert plan.submit + {} == plan.submit && plan.waits + [] == plan.waits;
  }

  lemma SecondNext()
    ensures Submit(WAITED, 2, [SECOND], None, true) == FOLLOWED
  {
    var begin := Plan({}, {}, [], {}, []);
    OneBatchPlan(WAITED, 2, SECOND);
    OneWaitPlan(WAITED.semaphores, 2, 2, [], begin, LINK);
    LinkPlanned(begin);
    var plan := PlanOf(WAITED, 2, [SECOND]);
    assert plan == Plan({}, {}, [], {8}, []);
    assert ConsumeAll(WAITED.semaphores, {8}) == FOLLOWED.semaphores;
    assert Reserved(WAITED, 2, 1).queueWrites[2 := {}] == map[1 := {}, 2 := {}];
  }

  lemma LinkWaited()
    ensures Waits(WAITED_HISTORY, WAITED.semaphores, 2, [LINK]) == (WAITED_HISTORY.(binary := map[]), {1})
    ensures WaitsAllowed(WAITED_HISTORY, WAITED.semaphores, 2, [LINK])
  {
    OneWaitHistory(WAITED_HISTORY, WAITED.semaphores, 2, LINK);
    assert WAITED_HISTORY.binary - {8} == map[];
  }

  lemma Linked()
    ensures AddSubmission(WAITED_HISTORY.graph, 2, Submission(2, {}), {1}) == FOLLOWED_HISTORY.graph
  {
    assert (set a | a in {1} :: (a, 2)) == {(1, 2)};
  }

  lemma SecondHistory()
    ensures BatchesAllowed(WAITED_HISTORY, WAITED.semaphores, 2, 2, [SECOND])
    ensures AfterBatches(WAITED_HISTORY, WAITED.semaphores, 2, 2, [SECOND]) == FOLLOWED_HISTORY
  {
    var h, semaphores := WAITED_HISTORY, WAITED.semaphores;
    OneBatchHistory(h, semaphores, 2, 2, SECOND);
    LinkWaited();
    Linked();
    assert Submitted(h, semaphores, 2, 2, SECOND) == FOLLOWED_HISTORY;
  }

  lemma FollowedReached()
    ensures Reaches(FOLLOWING, FOLLOWED, FOLLOWED_HISTORY)
  {
    WaitedReached();
    SecondNext();
    SecondHistory();
    hide Submit, AfterBatches, BatchesAllowed, Reaches;
    OneCall(WAITING, WAITED, WAITED_HISTORY, 2, SECOND, FOLLOWED, FOLLOWED_HISTORY);
  }

  const SIGNAL := SemaphoreOp(7, Some(5), 0)

  /** Queue 3 writes memory 9 and signals the value. */
  const THIRD := Batch({9}, [], [SIGNAL])

  lemma ThirdHistory()
    ensures BatchesAllowed(FOLLOWED_HISTORY, FOLLOWED.semaphores, 3, 3, [THIRD])
    ensures var h' := AfterBatches(FOLLOWED_HISTORY, FOLLOWED.semaphores, 3, 3, [THIRD]);
            && h'.graph == AddSubmission(FOLLOWED_HISTORY.graph, 3, Submission(3, {9}), {}) && h'.late == {(3, 1)}
  {
    var before := Submitted(FOLLOWED_HISTORY, FOLLOWED.semaphores, 3, 3, THIRD);
    assert [THIRD][..0] == [] && [SIGNAL][..0] == [];
    assert SignalIncreasesAt(before, FOLLOWED.semaphores, 3, [SIGNAL], 0);
    assert BatchAllowedAt(FOLLOWED_HISTORY, FOLLOWED.semaphores, 3, 3, [THIRD], 0);
    assert Signals(before, FOLLOWED.semaphores, 3, [SIGNAL]) == AfterSignal(before, true, 3, SIGNAL);
    assert Ended(before.waiting, 7, 5) == {Waiter(7, 5, 1)};
  }

  lemma FollowedSound()
    ensures Sound(FOLLOWED, FOLLOWED_HISTORY)
  {
    FollowedReached();
    RunSound(FOLLOWING);
  }

  lemma ThirdMissed(h': History)
    requires h' == AfterBatches(FOLLOWED_HISTORY, FOLLOWED.semaphores, 3, 3, [THIRD])
    requires h'.graph == AddSubmission(FOLLOWED_HISTORY.graph, 3, Submission(3, {9}), {}) && h'.late == {(3, 1)}
    ensures var st, h := Submit(FOLLOWED, 3, [THIRD], None, true),
                         AfterCall(FOLLOWED_HISTORY, FOLLOWED, 3, [THIRD], None);
            var step := QueueObserved(2);
            && (3, 9) in h.graph.unacquired && BeforeAny(h.graph, 3, Shown(st, h, step)) && 9 !in Refreshed(st, h, step)
  {
    hide AfterBatches, Submit, AfterCall, Shown, Refreshed, BeforeAny;
    var g := h'.graph;
    PrecedesSelf(g, 3);
    assert Edge(g, 1, 2) && PathFromTo(g, [1, 2], 1, 2);
    assert (3, 9) in g.unacquired && g.submissions[2] == Submission(2, {});
    EscapedSignalMisses(FOLLOWED, FOLLOWED_HISTORY, 3, [THIRD], None, 3, 1, 3, 2, 9);
  }

  lemma FollowedPending()
    ensures NonePending(FOLLOWED.semaphores, 2) && QueueWrites(FOLLOWED.queueWrites, 2) == {}
  {
  }

  lemma ThirdNotHeld(st: State, h: History)
    requires st == Submit(FOLLOWED, 3, [THIRD], None, true) && h == AfterCall(FOLLOWED_HISTORY, FOLLOWED, 3, [THIRD], None)
    requires !IdleCovers(st, h, 2)
    ensures !LateHeld(FOLLOWED, FOLLOWED_HISTORY, 3, [THIRD], 2, {})
  {
    FollowedSound();
    ThirdHistory();
    FollowedPending();
    assert FOLLOWED.nextSerial == 3;
    hide *;
    PassedIdleExactly(FOLLOWED, FOLLOWED_HISTORY, 3, [THIRD], None, 2);
  }

  /** After this run, when queue 3 signals, waiting for queue 2 to be idle misses memory 9, although queue 2
      waited, through queue 1, for the submission that wrote it. */
  lemma ExampleMisses()
    ensures Reaches(FOLLOWING, FOLLOWED, FOLLOWED_HISTORY)
    ensures BatchesAllowed(FOLLOWED_HISTORY, FOLLOWED.semaphores, 3, 3, [THIRD])
    ensures NonePending(FOLLOWED.semaphores, 2) && !LateHeld(FOLLOWED, FOLLOWED_HISTORY, 3, [THIRD], 2, {})
    ensures var st, h := Submit(FOLLOWED, 3, [THIRD], None, true),
                         AfterCall(FOLLOWED_HISTORY, FOLLOWED, 3, [THIRD], None);
            var step := QueueObserved(2);
            && (3, 9) in h.graph.unacquired && BeforeAny(h.graph, 3, Shown(st, h, step)) && 9 !in Refreshed(st, h, step)
  {
    hide Reaches, BatchesAllowed, AfterBatches, Submit, AfterCall, LateHeld, NonePending, Shown, Refreshed, BeforeAny;
    FollowedReached();
    FollowedPending();
    ThirdHistory();
    ThirdMissed(AfterBatches(FOLLOWED_HISTORY, FOLLOWED.semaphores, 3, 3, [THIRD]));
    var st, h := Submit(FOLLOWED, 3, [THIRD], None, true), AfterCall(FOLLOWED_HISTORY, FOLLOWED, 3, [THIRD], None);
    assert !IdleCovers(st, h, 2);
    ThirdNotHeld(st, h);
  }

  // ---------------------------------------------------------------------------
  // A queue that waits as well
  // ---------------------------------------------------------------------------

  /** The same, but submission 2 waits for the value too. */
  const BOTH := Batch({}, [LINK, WAIT], [])

  const BOTH_WAITED := FOLLOWED.(semaphores := map[
    7 := NewSemaphore(true).(pending := [PENDING, PendingWait(5, 2, 2, [])]), 8 := NewSemaphore(false)])

  const BOTH_HISTORY := FOLLOWED_HISTORY.(waiting := {Waiter(7, 5, 1), Waiter(7, 5, 2)})

  const BOTH_WAITING: seq<Step> := WAITING + [Submits(2, [BOTH], None, true)]

  lemma BothPlanned()
    ensures PlanOf(WAITED, 2, [BOTH]) == Plan({}, {}, [PlannedWait(7, PendingWait(5, 2, 2, []))], {8}, [])
  {
    var waits, begin := [LINK, WAIT], Plan({}, {}, [], {}, []);
    OneBatchPlan(WAITED, 2, BOTH);
    assert waits[..1] == [LINK];
    OneWaitPlan(WAITED.semaphores, 2, 2, [], begin, LINK);
    LinkPlanned(begin);
    assert PlanWaits(WAITED.semaphores, 2, 2, [], begin, waits)
           == PlanWait(WAITED.semaphores, 2, 2, [], begin.(consumed := {8}), WAIT);
  }

  lemma BothNext()
    ensures Submit(WAITED, 2, [BOTH], None, true) == BOTH_WAITED
  {
    BothPlanned();
    var plan := PlanOf(WAITED, 2, [BOTH]);
    assert plan.waits[..0] == [];
    assert [PENDING] + [PendingWait(5, 2, 2, [])] == [PENDING, PendingWait(5, 2, 2, [])];
    assert ConsumeAll(AddPending(WAITED.semaphores, plan.waits), {8}) == BOTH_WAITED.semaphores;
    assert Reserved(WAITED, 2, 1).queueWrites[2 := {}] == map[1 := {}, 2 := {}];
  }

  lemma BothHistory()
    ensures BatchesAllowed(WAITED_HISTORY, WAITED.semaphores, 2, 2, [BOTH])
    ensures AfterBatches(WAITED_HISTORY, WAITED.semaphores, 2, 2, [BOTH]) == BOTH_HISTORY
  {
    var h, semaphores, waits := WAITED_HISTORY, WAITED.semaphores, [LINK, WAIT];
    OneBatchHistory(h, semaphores, 2, 2, BOTH);
    LinkWaited();
    Linked();
    assert waits[..1] == [LINK] && waits[..0] == [] == [LINK][..0];
    assert WaitAllowedAt(h, semaphores, 2, [LINK], 0);
    assert WaitAllowedAt(h, semaphores, 2, waits, 0) && WaitAllowedAt(h, semaphores, 2, waits, 1);
    var linked := h.(binary := map[]);
    assert AfterWait(linked, semaphores, 2, WAIT) == linked.(waiting := {Waiter(7, 5, 1), Waiter(7, 5, 2)});
    assert Waits(h, semaphores, 2, waits).1 == {1} + {} == {1};
    assert Submitted(h, semaphores, 2, 2, BOTH) == BOTH_HISTORY;
  }

  lemma BothReached()
    ensures Reaches(BOTH_WAITING, BOTH_WAITED, BOTH_HISTORY)
  {
    WaitedReached();
    BothNext();
    BothHistory();
    hide Submit, AfterBatches, BatchesAllowed, Reaches;
    OneCall(WAITING, WAITED, WAITED_HISTORY, 2, BOTH, BOTH_WAITED, BOTH_HISTORY);
  }

  lemma BothSignaled()
    ensures BatchesAllowed(BOTH_HISTORY, BOTH_WAITED.semaphores, 3, 3, [THIRD])
    ensures var h' := AfterBatches(BOTH_HISTORY, BOTH_WAITED.semaphores, 3, 3, [THIRD]);
            && h'.graph == AddSubmission(BOTH_HISTORY.graph, 3, Submission(3, {9}), {}) && h'.late == {(3, 1), (3, 2)}
  {
    var before := Submitted(BOTH_HISTORY, BOTH_WAITED.semaphores, 3, 3, THIRD);
    assert [THIRD][..0] == [] && [SIGNAL][..0] == [];
    assert SignalIncreasesAt(before, BOTH_WAITED.semaphores, 3, [SIGNAL], 0);
    assert BatchAllowedAt(BOTH_HISTORY, BOTH_WAITED.semaphores, 3, 3, [THIRD], 0);
    assert Signals(before, BOTH_WAITED.semaphores, 3, [SIGNAL]) == AfterSignal(before, true, 3, SIGNAL);
    assert Ended(before.waiting, 7, 5) == {Waiter(7, 5, 1), Waiter(7, 5, 2)};
  }

  lemma BothCovered(g: Graph, late: set<(nat, nat)>)
    requires g == AddSubmission(BOTH_HISTORY.graph, 3, Submission(3, {9}), {}) && late == {(3, 1), (3, 2)}
    ensures LateAllowed(g, 3, late)
  {
    forall n: nat, w: nat, b: nat | (n, w) in late && Precedes(g, w, b) ensures FollowerServed(g, 3, late, n, b) {
      var p :| PathFromTo(g, p, w, b);
      StaysBelow(g, p);
      assert (3, b) in late && Follows(g, b, b);
    }
    hide LateAllowed, FollowerServed;
    ServedAllowed(g, 3, late);
  }

  lemma BothAllowed()
    ensures Sound(BOTH_WAITED, BOTH_HISTORY) && CallAllowed(BOTH_HISTORY, BOTH_WAITED.semaphores, 3, 3, [THIRD])
  {
    BothReached();
    RunSound(BOTH_WAITING);
    BothSignaled();
    hide Reaches, Sound, BatchesAllowed, AfterBatches, LateAllowed;
    var h' := AfterBatches(BOTH_HISTORY, BOTH_WAITED.semaphores, 3, 3, [THIRD]);
    BothCovered(h'.graph, h'.late);
  }

  /** After this run what follows submission 1 is itself served, so the call is allowed and queue 2 is told. */
  lemma BothServed()
    ensures Reaches(BOTH_WAITING, BOTH_WAITED, BOTH_HISTORY)
    ensures CallAllowed(BOTH_HISTORY, BOTH_WAITED.semaphores, 3, 3, [THIRD])
    ensures IdleCovers(Submit(BOTH_WAITED, 3, [THIRD], None, true),
                       AfterCall(BOTH_HISTORY, BOTH_WAITED, 3, [THIRD], None), 2)
  {
    BothReached();
    BothAllowed();
    var st, h := Submit(BOTH_WAITED, 3, [THIRD], None, true), AfterCall(BOTH_HISTORY, BOTH_WAITED, 3, [THIRD], None);
    hide Reaches, CallAllowed, Submit, AfterCall, IdleCovers, WaitersSound, SemaphoresSound, RecordedFence, Covers;
    SubmitSound(BOTH_WAITED, BOTH_HISTORY, 3, [THIRD], None);
    IdleIsCover(st, h, 2);
  }

  /** Nothing leads from submissions 1 and 2 to the third. */
  lemma {:induction false} StaysBelow(g: Graph, p: seq<nat>)
    requires g == AddSubmission(BOTH_HISTORY.graph, 3, Submission(3, {9}), {}) && Path(g, p) && p[0] in {1, 2}
    ensures p[|p| - 1] in {1, 2}
    decreases |p|
  {
    var k := |p| - 1;
    if k > 0 {
      StaysBelow(g, p[..k]);
      assert Edge(g, p[k - 1], p[k]);
    }
  }
}
