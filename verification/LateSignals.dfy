/** Signals submitted after their waits. A submit call may complete dependencies of submissions that
    were already waiting; committing it carries its memories to every record made on their queues
    since, and that is enough as long as whatever else depends on them gets those memories too.
  */
module LateSignals {
  import opened Options
  import opened Provenance
  import opened Precedence
  import opened HappensBefore
  import opened SignalCommits
  import opened SubmitPlan
  import opened SubmitSoundness

  // ---------------------------------------------------------------------------
  // What a satisfied wait's queue has received
  // ---------------------------------------------------------------------------

  predicate AbsorbedSemaphore(s: Semaphore, queue: QueueId, after: nat, ids: set<MemoryId>) {
    && (s.signaled && s.queue == queue && s.serial >= after ==> ids <= s.writes)
    && forall i | 0 <= i < |s.signals| && s.signals[i].queue == queue && s.signals[i].serial >= after ::
         ids <= s.signals[i].memoryIds
  }

  /** The queue, and every record made on it at or after a serial, has `ids`. */
  predicate Absorbed(st: State, queue: QueueId, after: nat, ids: set<MemoryId>) {
    && ids <= QueueWrites(st.queueWrites, queue)
    && (forall f | f in st.fences && st.fences[f].queue == queue && st.fences[f].serial >= after ::
          ids <= st.fences[f].memoryIds)
    && forall id | id in st.semaphores :: AbsorbedSemaphore(st.semaphores[id], queue, after, ids)
  }

  lemma WokenAbsorbs(a: State, b: State, signal: PlannedSignal, waits: seq<PendingWait>, wait: PendingWait)
    requires Woken(a, b, signal, waits) && wait in waits && Satisfies(signal, wait)
    ensures Absorbed(b, wait.queue, wait.serial, signal.memoryIds)
  {
    var k :| 0 <= k < |waits| && waits[k] == wait;
    assert ReachesQueue(signal, waits, wait.queue);
    forall serial: nat | serial >= wait.serial ensures Reaches(signal, waits, wait.queue, serial) {}
    forall id | id in b.semaphores
      ensures AbsorbedSemaphore(b.semaphores[id], wait.queue, wait.serial, signal.memoryIds)
    {
      if id in a.semaphores {
        assert b.semaphores[id] == Extended(a.semaphores[id], signal, waits);
      }
    }
  }

  lemma WokenKeepsAbsorbed(a: State, b: State, signal: PlannedSignal, waits: seq<PendingWait>, queue: QueueId,
                           after: nat, ids: set<MemoryId>)
    requires Woken(a, b, signal, waits) && Absorbed(a, queue, after, ids)
    ensures Absorbed(b, queue, after, ids)
  {
    forall id | id in b.semaphores
      ensures AbsorbedSemaphore(b.semaphores[id], queue, after, ids)
    {
      if id in a.semaphores {
        assert AbsorbedSemaphore(a.semaphores[id], queue, after, ids);
        assert b.semaphores[id] == Extended(a.semaphores[id], signal, waits);
      }
    }
  }

  /** A record made on another queue needs nothing. */
  lemma RecordKeepsAbsorbed(st: State, at: QueueId, signal: PlannedSignal, queue: QueueId, after: nat,
                            ids: set<MemoryId>)
    requires Absorbed(st, queue, after, ids) && at != queue
    ensures var s := RecordSignal(SemaphoreAt(st.semaphores, signal.id), at, signal);
            Absorbed(st.(semaphores := st.semaphores[signal.id := s]), queue, after, ids)
  {
    var s := SemaphoreAt(st.semaphores, signal.id);
    assert AbsorbedSemaphore(s, queue, after, ids);
    assert AbsorbedSemaphore(RecordSignal(s, at, signal), queue, after, ids);
  }

  lemma AbsorbedAnyPending(st: State, id: SemaphoreId, pending: seq<PendingWait>, queue: QueueId, after: nat,
                           ids: set<MemoryId>)
    requires id in st.semaphores
    ensures var other := st.(semaphores := st.semaphores[id := st.semaphores[id].(pending := pending)]);
            Absorbed(st, queue, after, ids) == Absorbed(other, queue, after, ids)
  {
    var other := st.(semaphores := st.semaphores[id := st.semaphores[id].(pending := pending)]);
    forall i | i in st.semaphores
      ensures AbsorbedSemaphore(st.semaphores[i], queue, after, ids)
              == AbsorbedSemaphore(other.semaphores[i], queue, after, ids)
    {
    }
  }

  /** The state after a signal is recorded, and after it woke its waits. */
  function Recorded(st: State, at: QueueId, signal: PlannedSignal): State {
    st.(semaphores := st.semaphores[signal.id := RecordSignal(SemaphoreAt(st.semaphores, signal.id), at, signal)])
  }

  function WokenState(st: State, at: QueueId, signal: PlannedSignal): State {
    var st' := CommitSignal(st, at, signal);
    var pending := SemaphoreAt(st.semaphores, signal.id).pending;
    if signal.id in st'.semaphores
    then st'.(semaphores := st'.semaphores[signal.id := st'.semaphores[signal.id].(pending := pending)])
    else st'
  }

  lemma CommitWakes(st: State, at: QueueId, signal: PlannedSignal)
    ensures signal.id in CommitSignal(st, at, signal).semaphores
    ensures Woken(Recorded(st, at, signal), WokenState(st, at, signal), signal,
                  SemaphoreAt(st.semaphores, signal.id).pending)
    ensures forall p :: p in CommitSignal(st, at, signal).semaphores[signal.id].pending
                        <==> p in SemaphoreAt(st.semaphores, signal.id).pending && !Satisfies(signal, p)
    ensures CommitSignal(st, at, signal)
            == WokenState(st, at, signal).(semaphores := WokenState(st, at, signal).semaphores[signal.id :=
                 WokenState(st, at, signal).semaphores[signal.id].(pending :=
                   CommitSignal(st, at, signal).semaphores[signal.id].pending)])
  {
    hide Woken;
    CommitSignalExactly(st, at, signal);
  }

  lemma CommitAbsorbs(st: State, at: QueueId, signal: PlannedSignal, wait: PendingWait)
    requires wait in SemaphoreAt(st.semaphores, signal.id).pending && Satisfies(signal, wait)
    ensures Absorbed(CommitSignal(st, at, signal), wait.queue, wait.serial, signal.memoryIds)
  {
    hide CommitSignal, Woken, Absorbed;
    CommitWakes(st, at, signal);
    var st', woken := CommitSignal(st, at, signal), WokenState(st, at, signal);
    WokenAbsorbs(Recorded(st, at, signal), woken, signal, SemaphoreAt(st.semaphores, signal.id).pending, wait);
    AbsorbedAnyPending(woken, signal.id, st'.semaphores[signal.id].pending, wait.queue, wait.serial, signal.memoryIds);
  }

  lemma CommitKeepsAbsorbed(st: State, at: QueueId, signal: PlannedSignal, queue: QueueId, after: nat,
                            ids: set<MemoryId>)
    requires Absorbed(st, queue, after, ids) && at != queue
    ensures Absorbed(CommitSignal(st, at, signal), queue, after, ids)
  {
    hide CommitSignal, Woken, Absorbed;
    CommitWakes(st, at, signal);
    var st', woken := CommitSignal(st, at, signal), WokenState(st, at, signal);
    RecordKeepsAbsorbed(st, at, signal, queue, after, ids);
    WokenKeepsAbsorbed(Recorded(st, at, signal), woken, signal, SemaphoreAt(st.semaphores, signal.id).pending,
                       queue, after, ids);
    AbsorbedAnyPending(woken, signal.id, st'.semaphores[signal.id].pending, queue, after, ids);
  }

  predicate Pends(st: State, id: SemaphoreId, p: PendingWait) {
    id in st.semaphores && p in st.semaphores[id].pending
  }

  lemma CommitKeepsPending(st: State, at: QueueId, signal: PlannedSignal, id: SemaphoreId, p: PendingWait)
    requires Pends(st, id, p) && (signal.id == id ==> !Satisfies(signal, p))
    ensures Pends(CommitSignal(st, at, signal), id, p)
  {
    CommitSignalExactly(st, at, signal);
    var recorded := Recorded(st, at, signal);
    if id != signal.id {
      assert recorded.semaphores[id] == st.semaphores[id];
    }
  }

  predicate SameFences(a: State, b: State) {
    && b.fences.Keys == a.fences.Keys
    && forall f | f in a.fences :: b.fences[f].queue == a.fences[f].queue && b.fences[f].serial == a.fences[f].serial
  }

  lemma CommitKeepsFences(st: State, at: QueueId, signal: PlannedSignal)
    ensures SameFences(st, CommitSignal(st, at, signal))
  {
    CommitSignalExactly(st, at, signal);
  }

  // ---------------------------------------------------------------------------
  // All signals of a call
  // ---------------------------------------------------------------------------

  lemma {:induction false} SignalsKeepPending(st: State, at: QueueId, signals: seq<PlannedSignal>, id: SemaphoreId,
                                              p: PendingWait)
    requires Pends(st, id, p)
    requires forall k | 0 <= k < |signals| :: signals[k].id == id ==> !Satisfies(signals[k], p)
    ensures Pends(CommitSignals(st, at, signals), id, p)
    decreases |signals|
  {
    if signals != [] {
      var n := |signals| - 1;
      SignalsKeepPending(st, at, signals[..n], id, p);
      CommitKeepsPending(CommitSignals(st, at, signals[..n]), at, signals[n], id, p);
    }
  }

  /** The first signal that satisfies a pending wait leaves its memories on the wait's queue. */
  lemma {:induction false} SignalsAbsorb(st: State, at: QueueId, signals: seq<PlannedSignal>, k: nat, p: PendingWait)
    requires k < |signals| && Pends(st, signals[k].id, p) && p.queue != at && Satisfies(signals[k], p)
    requires forall i | 0 <= i < k :: signals[i].id == signals[k].id ==> !Satisfies(signals[i], p)
    ensures Absorbed(CommitSignals(st, at, signals), p.queue, p.serial, signals[k].memoryIds)
    decreases |signals|
  {
    var n := |signals| - 1;
    var before := CommitSignals(st, at, signals[..n]);
    if k == n {
      SignalsKeepPending(st, at, signals[..n], signals[k].id, p);
      CommitAbsorbs(before, at, signals[n], p);
    } else {
      SignalsAbsorb(st, at, signals[..n], k, p);
      CommitKeepsAbsorbed(before, at, signals[n], p.queue, p.serial, signals[k].memoryIds);
    }
  }

  lemma {:induction false} SignalsKeepFences(st: State, at: QueueId, signals: seq<PlannedSignal>)
    ensures SameFences(st, CommitSignals(st, at, signals))
    decreases |signals|
  {
    if signals != [] {
      var n := |signals| - 1;
      SignalsKeepFences(st, at, signals[..n]);
      CommitKeepsFences(CommitSignals(st, at, signals[..n]), at, signals[n]);
    }
  }

  lemma {:induction false} AddedPending(semaphores: map<SemaphoreId, Semaphore>, waits: seq<PlannedWait>)
    ensures var after := AddPending(semaphores, waits);
            && (forall id | id in semaphores :: id in after && forall p | p in semaphores[id].pending :: p in after[id].pending)
            && (forall k | 0 <= k < |waits| :: waits[k].id in after && waits[k].wait in after[waits[k].id].pending)
    decreases |waits|
  {
    if waits != [] {
      var n := |waits| - 1;
      AddedPending(semaphores, waits[..n]);
      assert waits == waits[..n] + [waits[n]];
    }
  }

  // ---------------------------------------------------------------------------
  // Completing the dependencies
  // ---------------------------------------------------------------------------

  /** The queue of `w` has received what covers `n`. */
  ghost predicate Served(g: Graph, queue: QueueId, st: State, n: nat, w: nat) {
    w in g.submissions
    && exists ids :: Absorbed(st, g.submissions[w].queue, w, ids) && Covers(g, Point(queue, n), ids)
  }

  ghost predicate AllServed(g: Graph, queue: QueueId, late: set<(nat, nat)>, st: State) {
    forall n, w | (n, w) in late :: Served(g, queue, st, n, w)
  }

  ghost predicate Unreached(g: Graph, late: set<(nat, nat)>, point: Point) {
    forall n, w | (n, w) in late :: !Before(g, w, point)
  }

  lemma UnreachedCovers(g: Graph, queue: QueueId, late: set<(nat, nat)>, point: Point, ids: set<MemoryId>)
    requires LateAllowed(g, queue, late) && Covers(g, point, ids) && Unreached(g, late, point)
    ensures Covers(AddEdges(g, late), point, ids)
  {
    forall n, w | (n, w) in late ensures !InPoint(g, w, point) {
      SelfBeforeOnly(g, w, point);
    }
    CoversLate(g, queue, late, point, ids);
  }

  lemma SelfBeforeOnly(g: Graph, w: nat, point: Point)
    ensures InPoint(g, w, point) ==> Before(g, w, point)
  {
    if InPoint(g, w, point) {
      SelfBefore(g, w, point);
    }
  }

  /** A record that holds everything its queue received from its position on goes on covering. */
  lemma ServedCovers(g: Graph, queue: QueueId, late: set<(nat, nat)>, st: State, point: Point,
                     ids: set<MemoryId>)
    requires LateAllowed(g, queue, late) && AllServed(g, queue, late, st)
    requires Covers(g, point, ids)
    requires forall after: nat, more | after <= point.serial && Absorbed(st, point.queue, after, more) :: more <= ids
    ensures Covers(AddEdges(g, late), point, ids)
  {
    forall n, w | (n, w) in late && InPoint(g, w, point)
      ensures Covers(g, Point(queue, n), ids)
    {
      assert Served(g, queue, st, n, w);
      var more :| Absorbed(st, g.submissions[w].queue, w, more) && Covers(g, Point(queue, n), more);
      CoversMore(g, Point(queue, n), more, ids);
    }
    CoversLate(g, queue, late, point, ids);
  }

  lemma TimelineServed(g: Graph, queue: QueueId, late: set<(nat, nat)>, st: State, id: SemaphoreId,
                       all: seq<Signal>, seen: nat)
    requires LateAllowed(g, queue, late) && AllServed(g, queue, late, st)
    requires id in st.semaphores && TimelineSound(g, all, seen, st.semaphores[id])
    requires forall i | 0 <= i < |all| - |st.semaphores[id].signals| && all[i].serial in g.submissions ::
               Unreached(g, late, Point(g.submissions[all[i].serial].queue, all[i].serial))
    ensures TimelineSound(AddEdges(g, late), all, seen, st.semaphores[id])
  {
    var g', s := AddEdges(g, late), st.semaphores[id];
    var off := |all| - |s.signals|;
    forall i | 0 <= i < |s.signals| ensures RecordSound(g', s.signals[i], all[off + i], seen) {
      var r := s.signals[i];
      assert RecordSound(g, r, all[off + i], seen);
      forall after: nat, more | after <= r.serial && Absorbed(st, r.queue, after, more) ensures more <= r.memoryIds {
        assert AbsorbedSemaphore(s, r.queue, after, more);
      }
      ServedCovers(g, queue, late, st, Point(r.queue, r.serial), r.memoryIds);
    }
    forall i | 0 <= i < off ensures SettledSignal(g', all[i], seen) {
      assert SettledSignal(g, all[i], seen);
      UnreachedCovers(g, queue, late, Point(g.submissions[all[i].serial].queue, all[i].serial), {});
    }
  }

  lemma BinaryServed(g: Graph, queue: QueueId, late: set<(nat, nat)>, st: State, id: SemaphoreId,
                     serial: nat)
    requires LateAllowed(g, queue, late) && AllServed(g, queue, late, st)
    requires id in st.semaphores && BinarySound(g, serial, st.semaphores[id])
    ensures BinarySound(AddEdges(g, late), serial, st.semaphores[id])
  {
    var s := st.semaphores[id];
    forall after: nat, more | after <= s.serial && Absorbed(st, s.queue, after, more) ensures more <= s.writes {
      assert AbsorbedSemaphore(s, s.queue, after, more);
    }
    ServedCovers(g, queue, late, st, Point(s.queue, s.serial), s.writes);
  }

  lemma FenceServed(g: Graph, queue: QueueId, late: set<(nat, nat)>, st: State, f: FenceId, at: Point)
    requires LateAllowed(g, queue, late) && AllServed(g, queue, late, st)
    requires Covers(g, at, RecordedFence(st.fences, f))
    requires (f in st.fences && st.fences[f].queue == at.queue && st.fences[f].serial == at.serial)
             || Unreached(g, late, at)
    ensures Covers(AddEdges(g, late), at, RecordedFence(st.fences, f))
  {
    if f in st.fences && st.fences[f].queue == at.queue && st.fences[f].serial == at.serial {
      ServedCovers(g, queue, late, st, at, RecordedFence(st.fences, f));
    } else {
      UnreachedCovers(g, queue, late, at, RecordedFence(st.fences, f));
    }
  }

  lemma QueueServed(g: Graph, next: nat, queue: QueueId, late: set<(nat, nat)>, st: State, q: QueueId)
    requires LateAllowed(g, queue, late) && AllServed(g, queue, late, st)
    requires Covers(g, Point(q, next), QueueWrites(st.queueWrites, q))
    ensures Covers(AddEdges(g, late), Point(q, next), QueueWrites(st.queueWrites, q))
  {
    ServedCovers(g, queue, late, st, Point(q, next), QueueWrites(st.queueWrites, q));
  }

  /** Positions without a record that a late dependency does not reach. */
  ghost predicate RecordsReach(g: Graph, late: set<(nat, nat)>, st: State, h: History) {
    && (forall f | f in h.fences ::
          || (f in st.fences && st.fences[f].queue == h.fences[f].queue && st.fences[f].serial == h.fences[f].serial)
          || Unreached(g, late, h.fences[f]))
    && (forall id | IsTimeline(st.semaphores, id) ::
          var all := SignalsOf(h.timeline, id);
          forall i | 0 <= i < |all| - |st.semaphores[id].signals| && all[i].serial in g.submissions ::
            Unreached(g, late, Point(g.submissions[all[i].serial].queue, all[i].serial)))
  }

  /** Every entry covers its position with the completed dependencies counted. */
  lemma SettledCovering(st: State, h: History, queue: QueueId)
    requires Covering(st, h) && LateAllowed(h.graph, queue, h.late) && AllServed(h.graph, queue, h.late, st)
    requires RecordsReach(h.graph, h.late, st, h)
    ensures Covering(st, Settle(h))
  {
    var g, next, late := h.graph, st.nextSerial, h.late;
    var g' := AddEdges(g, late);
    forall q: QueueId ensures Covers(g', Point(q, next), QueueWrites(st.queueWrites, q)) {
      QueueServed(g, next, queue, late, st, q);
    }
    forall f | f in h.fences ensures Covers(g', h.fences[f], RecordedFence(st.fences, f)) {
      FenceServed(g, queue, late, st, f, h.fences[f]);
    }
    forall id | IsTimeline(st.semaphores, id)
      ensures TimelineSound(g', SignalsOf(h.timeline, id), ValueOf(h.seen, id), st.semaphores[id])
    {
      TimelineServed(g, queue, late, st, id, SignalsOf(h.timeline, id), ValueOf(h.seen, id));
    }
    forall id | id in h.binary ensures id in st.semaphores && BinarySound(g', h.binary[id], st.semaphores[id]) {
      BinaryServed(g, queue, late, st, id, h.binary[id]);
    }
    forall a, b | (a, b) in g'.edges
      ensures a in g'.submissions && b in g'.submissions
              && (g'.submissions[a].queue == g'.submissions[b].queue ==> a < b)
    {
      assert (a, b) in late ==> a in g.submissions && b in g.submissions;
    }
  }

  // ---------------------------------------------------------------------------
  // The call
  // ---------------------------------------------------------------------------

  /** What precedes an earlier position after planning preceded it before. */
  lemma OldBefore(c: Call, g: Graph, point: Point, a: nat)
    requires GraphExtends(c, g) && OrderKept(c, g) && point.serial < c.first
    ensures Before(g, a, point) ==> Before(c.history.graph, a, point) && a in c.history.graph.submissions
  {
    if Before(g, a, point) {
      var t :| InPoint(g, t, point) && Precedes(g, a, t);
      assert InPoint(c.history.graph, t, point);
      var p :| PathFromTo(c.history.graph, p, a, t);
    }
  }

  /** A dependency the call completes is of a submission that waited before the call. */
  lemma LateIsOld(c: Call, h: History, n: nat, plan: Plan, e: (nat, nat)) returns (w: Waiter, k: nat)
    requires CallSound(c) && Planned(c, h, n, plan) && LateAllowed(h.graph, c.queue, h.late) && e in h.late
    ensures w in c.history.waiting && LateBy(c, plan.signals, e, w, k)
  {
    assert LatePlanned(c, plan.signals, e);
    w, k :| LateBy(c, plan.signals, e, w, k);
    assert (e.0, e.1) in h.late && e.1 in h.graph.submissions;
  }

  lemma LateUnreached(c: Call, h: History, n: nat, plan: Plan, point: Point)
    requires CallSound(c) && Planned(c, h, n, plan) && LateAllowed(h.graph, c.queue, h.late)
    requires point.serial < c.first && NobodyWaits(c.history.graph, c.history.waiting, point)
    ensures Unreached(h.graph, h.late, point)
  {
    forall s, w | (s, w) in h.late ensures !Before(h.graph, w, point) {
      var waiter, k := LateIsOld(c, h, n, plan, (s, w));
      OldBefore(c, h.graph, point, w);
    }
  }

  lemma NobodyWaitsLater(c: Call, h: History, n: nat, plan: Plan, point: Point)
    requires CallSound(c) && Planned(c, h, n, plan) && LateAllowed(h.graph, c.queue, h.late)
    requires point.serial < c.first && NobodyWaits(c.history.graph, c.history.waiting, point)
    ensures NobodyWaits(AddEdges(h.graph, h.late), h.waiting, point)
  {
    LateUnreached(c, h, n, plan, point);
    forall w | w in h.waiting ensures !Before(AddEdges(h.graph, h.late), w.serial, point) {
      OldBefore(c, h.graph, point, w.serial);
      BeforeLate(h.graph, h.late, point, w.serial);
    }
  }

  /** Every pending wait of the tables before the call is still there before its signals. */
  lemma PlanningPends(st: State, queue: QueueId, plan: Plan, count: nat, id: SemaphoreId, p: PendingWait)
    requires Pends(st, id, p)
             || exists k :: 0 <= k < |plan.waits| && plan.waits[k].id == id && plan.waits[k].wait == p
    ensures Pends(Planning(st, queue, plan, count), id, p)
  {
    AddedPending(st.semaphores, plan.waits);
  }

  /** The tables and the history agree on which waits a signal ends. */
  lemma SatisfiesEnds(c: Call, signals: seq<PlannedSignal>, k: nat, w: Waiter, p: PendingWait)
    requires k < |signals| && p.value == w.value && IsTimeline(c.semaphores, w.id)
    requires signals[k].id in c.semaphores && signals[k].timeline == c.semaphores[signals[k].id].timeline
    ensures EndsWait(signals[k], w) <==> signals[k].id == w.id && Satisfies(signals[k], p)
  {
  }

  lemma LateServed(st: State, c: Call, count: nat, h: History, plan: Plan, e: (nat, nat))
    requires CallSound(c) && Planned(c, h, c.first + count, plan) && c.semaphores == st.semaphores
    requires LateAllowed(h.graph, c.queue, h.late) && e in h.late
    requires forall w | w in c.history.waiting :: Held(c.history.graph, st.semaphores, w)
    ensures Served(h.graph, c.queue, CommitSignals(Planning(st, c.queue, plan, count), c.queue, plan.signals), e.0, e.1)
  {
    var w, k := LateIsOld(c, h, c.first + count, plan, e);
    assert Held(c.history.graph, st.semaphores, w);
    var p :| p in st.semaphores[w.id].pending && p.value == w.value && p.serial == w.serial
             && p.queue == c.history.graph.submissions[w.serial].queue;
    assert (e.0, e.1) in h.late && h.graph.submissions[e.1].queue == p.queue;
    PlanningPends(st, c.queue, plan, count, w.id, p);
    forall i | 0 <= i <= k ensures EndsWait(plan.signals[i], w) <==> plan.signals[i].id == w.id && Satisfies(plan.signals[i], p) {
      assert PlannedSound(c, h.graph, plan.signals, i);
      SatisfiesEnds(c, plan.signals, i, w, p);
    }
    forall i | 0 <= i < k ensures !EndsWait(plan.signals[i], w) {
      assert plan.signals[..k][i] == plan.signals[i];
    }
    SignalsAbsorb(Planning(st, c.queue, plan, count), c.queue, plan.signals, k, p);
    assert PlannedSound(c, h.graph, plan.signals, k);
  }

  lemma WaiterHeld(st: State, c: Call, count: nat, h: History, plan: Plan, w: Waiter)
    requires CallSound(c) && Planned(c, h, c.first + count, plan) && c.semaphores == st.semaphores
    requires w in h.waiting && w.serial in h.graph.submissions
    requires w in c.history.waiting ==> Held(c.history.graph, st.semaphores, w)
    requires IsTimeline(st.semaphores, w.id)
    requires KindsKept(c.semaphores,
                       CommitSignals(Planning(st, c.queue, plan, count), c.queue, plan.signals).semaphores)
    ensures Held(h.graph, CommitSignals(Planning(st, c.queue, plan, count), c.queue, plan.signals).semaphores, w)
  {
    var p: PendingWait;
    if w in c.history.waiting {
      p :| p in st.semaphores[w.id].pending && p.value == w.value && p.serial == w.serial
           && p.queue == c.history.graph.submissions[w.serial].queue;
    } else {
      var j :| 0 <= j < |plan.waits| && plan.waits[j].id == w.id && plan.waits[j].wait.value == w.value
               && plan.waits[j].wait.serial == w.serial && plan.waits[j].wait.queue == c.queue;
      p := plan.waits[j].wait;
    }
    PlanningPends(st, c.queue, plan, count, w.id, p);
    forall i | 0 <= i < |plan.signals| ensures plan.signals[i].id == w.id ==> !Satisfies(plan.signals[i], p) {
      assert PlannedSound(c, h.graph, plan.signals, i);
      SatisfiesEnds(c, plan.signals, i, w, p);
    }
    SignalsKeepPending(Planning(st, c.queue, plan, count), c.queue, plan.signals, w.id, p);
  }

  lemma {:induction false} FromTimelineOf(signals: seq<PlannedSignal>, id: SemaphoreId, i: nat)
    requires i < |TimelineOf(signals, id)|
    ensures exists k :: 0 <= k < |signals| && signals[k].timeline && signals[k].id == id
                        && signals[k].value == TimelineOf(signals, id)[i].value
    decreases |signals|
  {
    var n := |signals| - 1;
    if i < |TimelineOf(signals[..n], id)| {
      FromTimelineOf(signals[..n], id, i);
      var k :| 0 <= k < n && signals[..n][k].timeline && signals[..n][k].id == id
               && signals[..n][k].value == TimelineOf(signals[..n], id)[i].value;
      assert signals[k] == signals[..n][k];
    }
  }

  /** The signals with a record, old or new, are beyond every value the host has seen. */
  lemma RecordedAbove(c: Call, h: History, n: nat, plan: Plan, id: SemaphoreId, i: nat)
    requires CallSound(c) && Planned(c, h, n, plan) && IsTimeline(c.semaphores, id)
    requires i < |SignalsOf(h.timeline, id)|
    ensures var all, s := SignalsOf(c.history.timeline, id), c.semaphores[id];
            && (i < |all| - |s.signals| ==> SignalsOf(h.timeline, id)[i] == all[i])
            && (i >= |all| - |s.signals| ==> SignalsOf(h.timeline, id)[i].value > ValueOf(c.history.seen, id))
  {
    var all, s, seen := SignalsOf(c.history.timeline, id), c.semaphores[id], ValueOf(c.history.seen, id);
    TimelineOrigin(c.history.timeline, plan.signals, id);
    assert TimelineSound(c.history.graph, all, seen, s);
    if i >= |all| {
      FromTimelineOf(plan.signals, id, i - |all|);
      var k :| 0 <= k < |plan.signals| && plan.signals[k].timeline && plan.signals[k].id == id
               && plan.signals[k].value == TimelineOf(plan.signals, id)[i - |all|].value;
      assert PlannedSound(c, h.graph, plan.signals, k);
    } else if i >= |all| - |s.signals| {
      assert RecordSound(c.history.graph, s.signals[i - (|all| - |s.signals|)], all[i], seen);
    }
  }

  /** So the signals without a record are those that had none before. */
  lemma SettledAreOld(c: Call, h: History, n: nat, plan: Plan, id: SemaphoreId, s': Semaphore, i: nat)
    requires CallSound(c) && Planned(c, h, n, plan) && IsTimeline(c.semaphores, id)
    requires TimelineSound(h.graph, SignalsOf(h.timeline, id), ValueOf(h.seen, id), s')
    requires i < |SignalsOf(h.timeline, id)| - |s'.signals|
    ensures var all := SignalsOf(c.history.timeline, id);
            && i < |all| - |c.semaphores[id].signals| && SignalsOf(h.timeline, id)[i] == all[i]
            && all[i].serial in c.history.graph.submissions && all[i].serial < c.first
            && h.graph.submissions[all[i].serial] == c.history.graph.submissions[all[i].serial]
  {
    assert SettledSignal(h.graph, SignalsOf(h.timeline, id)[i], ValueOf(h.seen, id));
    RecordedAbove(c, h, n, plan, id, i);
    var all := SignalsOf(c.history.timeline, id);
    assert TimelineSound(c.history.graph, all, ValueOf(c.history.seen, id), c.semaphores[id]);
    assert SettledSignal(c.history.graph, all[i], ValueOf(c.history.seen, id));
  }

  /** What the call is entitled to know of the tables it found. */
  ghost predicate Begins(st: State, c: Call) {
    && Sound(st, c.history) && CallSound(c) && c.semaphores == st.semaphores && c.first == st.nextSerial
  }

  function Signaled(st: State, c: Call, count: nat, plan: Plan): State {
    CommitSignals(Planning(st, c.queue, plan, count), c.queue, plan.signals)
  }

  ghost predicate Concludes(st: State, c: Call, count: nat, h: History, plan: Plan) {
    && Begins(st, c) && Planned(c, h, c.first + count, plan) && LateAllowed(h.graph, c.queue, h.late)
    && Covering(Signaled(st, c, count, plan), h)
    && KindsKept(c.semaphores, Signaled(st, c, count, plan).semaphores)
    && SameFences(st, Signaled(st, c, count, plan))
  }

  lemma FencesReached(st: State, c: Call, count: nat, h: History, plan: Plan, f: FenceId)
    requires Concludes(st, c, count, h, plan) && f in h.fences
    ensures var st', at := Signaled(st, c, count, plan), h.fences[f];
            && ((f in st'.fences && st'.fences[f].queue == at.queue && st'.fences[f].serial == at.serial)
                || Unreached(h.graph, h.late, at))
            && FenceKnown(AddEdges(h.graph, h.late), h.waiting, st'.fences, f, at)
  {
    var at := h.fences[f];
    assert FenceKnown(c.history.graph, c.history.waiting, st.fences, f, at);
    if NobodyWaits(c.history.graph, c.history.waiting, at) {
      LateUnreached(c, h, c.first + count, plan, at);
      NobodyWaitsLater(c, h, c.first + count, plan, at);
    }
  }

  lemma SettledReached(st: State, c: Call, count: nat, h: History, plan: Plan, id: SemaphoreId, i: nat)
    requires Concludes(st, c, count, h, plan) && IsTimeline(Signaled(st, c, count, plan).semaphores, id)
    requires i < |SignalsOf(h.timeline, id)| - |Signaled(st, c, count, plan).semaphores[id].signals|
    requires SignalsOf(h.timeline, id)[i].serial in h.graph.submissions
    ensures var serial := SignalsOf(h.timeline, id)[i].serial;
            var at := Point(h.graph.submissions[serial].queue, serial);
            Unreached(h.graph, h.late, at) && NobodyWaits(AddEdges(h.graph, h.late), h.waiting, at)
  {
    assert IsTimeline(c.semaphores, id);
    SettledAreOld(c, h, c.first + count, plan, id, Signaled(st, c, count, plan).semaphores[id], i);
    var serial := SignalsOf(h.timeline, id)[i].serial;
    var at := Point(h.graph.submissions[serial].queue, serial);
    assert SettledUnwaited(c.history.graph, c.history.waiting, SignalsOf(c.history.timeline, id), c.semaphores[id]);
    LateUnreached(c, h, c.first + count, plan, at);
    NobodyWaitsLater(c, h, c.first + count, plan, at);
  }

  lemma CallServes(st: State, c: Call, count: nat, h: History, plan: Plan)
    requires Concludes(st, c, count, h, plan)
    ensures AllServed(h.graph, c.queue, h.late, Signaled(st, c, count, plan))
  {
    forall n, w | (n, w) in h.late ensures Served(h.graph, c.queue, Signaled(st, c, count, plan), n, w) {
      LateServed(st, c, count, h, plan, (n, w));
    }
  }

  lemma CallReaches(st: State, c: Call, count: nat, h: History, plan: Plan, st': State)
    requires Concludes(st, c, count, h, plan) && st' == Signaled(st, c, count, plan)
    ensures RecordsReach(h.graph, h.late, st', h)
    ensures forall f | f in h.fences :: FenceKnown(AddEdges(h.graph, h.late), h.waiting, st'.fences, f, h.fences[f])
    ensures forall id | IsTimeline(st'.semaphores, id) ::
              SettledUnwaited(AddEdges(h.graph, h.late), h.waiting, SignalsOf(h.timeline, id), st'.semaphores[id])
  {
    hide Concludes, Signaled, NobodyWaits, Unreached, FenceKnown;
    forall f | f in h.fences
      ensures (f in st'.fences && st'.fences[f].queue == h.fences[f].queue && st'.fences[f].serial == h.fences[f].serial)
              || Unreached(h.graph, h.late, h.fences[f])
      ensures FenceKnown(AddEdges(h.graph, h.late), h.waiting, st'.fences, f, h.fences[f])
    {
      FencesReached(st, c, count, h, plan, f);
    }
    forall id, i | IsTimeline(st'.semaphores, id) && 0 <= i < |SignalsOf(h.timeline, id)| - |st'.semaphores[id].signals|
                   && SignalsOf(h.timeline, id)[i].serial in h.graph.submissions
      ensures var serial := SignalsOf(h.timeline, id)[i].serial;
              var at := Point(h.graph.submissions[serial].queue, serial);
              Unreached(h.graph, h.late, at) && NobodyWaits(AddEdges(h.graph, h.late), h.waiting, at)
    {
      SettledReached(st, c, count, h, plan, id, i);
    }
  }

  lemma CallHolds(st: State, c: Call, count: nat, h: History, plan: Plan, w: Waiter)
    requires Concludes(st, c, count, h, plan) && w in h.waiting
    ensures Held(h.graph, Signaled(st, c, count, plan).semaphores, w)
  {
    assert w in c.history.waiting ==> Held(c.history.graph, st.semaphores, w);
    WaiterHeld(st, c, count, h, plan, w);
  }

  lemma SignalsSound(st: State, c: Call, count: nat, h: History, plan: Plan, st': State)
    requires Concludes(st, c, count, h, plan) && st' == Signaled(st, c, count, plan)
    ensures Sound(st', Settle(h))
  {
    CallServes(st, c, count, h, plan);
    CallReaches(st, c, count, h, plan, st');
    SettledCovering(st', h, c.queue);
    CallWaiters(st, c, count, h, plan, st');
  }

  lemma CallWaiters(st: State, c: Call, count: nat, h: History, plan: Plan, st': State)
    requires Concludes(st, c, count, h, plan) && st' == Signaled(st, c, count, plan)
    ensures WaitersSound(AddEdges(h.graph, h.late), h.waiting, h.timeline, h.fences, st')
  {
    hide Concludes, Signaled, FenceKnown, SettledUnwaited;
    CallReaches(st, c, count, h, plan, st');
    forall w | w in h.waiting ensures Held(AddEdges(h.graph, h.late), st'.semaphores, w) {
      CallHolds(st, c, count, h, plan, w);
    }
  }

  /** Recording the call's fence. */
  lemma FenceSound(st: State, h: History, fence: FenceId, queue: QueueId, serial: nat, ids: set<MemoryId>)
    requires Sound(st, h) && serial < st.nextSerial && Covers(h.graph, Point(queue, serial), ids)
    ensures Sound(st.(fences := st.fences[fence := FenceRecord(queue, serial, ids)]),
                  h.(fences := h.fences[fence := Point(queue, serial)]))
  {
    var st', h' := st.(fences := st.fences[fence := FenceRecord(queue, serial, ids)]),
                   h.(fences := h.fences[fence := Point(queue, serial)]);
    forall f | f in h'.fences ensures FenceKnown(h.graph, h.waiting, st'.fences, f, h'.fences[f]) {
      assert f != fence ==> FenceKnown(h.graph, h.waiting, st.fences, f, h.fences[f]);
    }
  }

  /** The call's own queue follows none of the submissions it signals. */
  lemma OwnFenceCovers(c: Call, count: nat, h: History, plan: Plan)
    requires Planned(c, h, c.first + count, plan) && LateAllowed(h.graph, c.queue, h.late)
    ensures Covers(AddEdges(h.graph, h.late), Point(c.queue, LastSerial(c.first, count)), plan.next)
  {
    var last := Point(c.queue, LastSerial(c.first, count));
    CoversWithin(h.graph, Point(c.queue, c.first + count), last, plan.next);
    CoversLate(h.graph, c.queue, h.late, last, plan.next);
  }

  lemma CallBegins(st: State, h: History, queue: QueueId)
    requires Sound(st, h)
    ensures Begins(st, Call(h, st.semaphores, queue, st.nextSerial))
    ensures Covers(h.graph, Point(queue, st.nextSerial), QueueWrites(st.queueWrites, queue))
  {
    forall w | w in h.waiting ensures w.serial in h.graph.submissions { assert Held(h.graph, st.semaphores, w); }
  }

  lemma CallConcludes(st: State, c: Call, count: nat, h: History, plan: Plan)
    requires Begins(st, c) && Planned(c, h, c.first + count, plan) && LateAllowed(h.graph, c.queue, h.late)
    ensures Concludes(st, c, count, h, plan)
    ensures LastSerial(st.nextSerial, count) < Signaled(st, c, count, plan).nextSerial
  {
    hide Planned, CommitSignals, TimelineSound, KindsKept, SemaphoresSound, LateAllowed;
    SignalsCovering(st, c, count, h, plan);
    SemaphoresCommitted(c, h, c.first + count, plan, Planning(st, c.queue, plan, count));
    SignalsKeepFences(Planning(st, c.queue, plan, count), c.queue, plan.signals);
  }

  /** An accepted submit call keeps the tables sound, also when it signals what others already wait
      for, as long as what it brings is carried to everything that follows them. */
  lemma SubmitSound(st: State, h: History, queue: QueueId, batches: seq<Batch>, fence: Option<FenceId>)
    requires Sound(st, h) && CallAllowed(h, st.semaphores, queue, st.nextSerial, batches)
    ensures Sound(Submit(st, queue, batches, fence, true), AfterCall(h, st, queue, batches, fence))
  {
    hide Sound, Begins, Concludes, Planned, CommitSignals, PlanAll, AfterBatches, BatchesAllowed, LateAllowed;
    var c, count := Call(h, st.semaphores, queue, st.nextSerial), |batches|;
    CallBegins(st, h, queue);
    var h', plan := CallPlanned(c, QueueWrites(st.queueWrites, queue), batches);
    CallConcludes(st, c, count, h', plan);
    var st' := Signaled(st, c, count, plan);
    SignalsSound(st, c, count, h', plan, st');
    if fence.Some? {
      var last := LastSerial(st.nextSerial, count);
      OwnFenceCovers(c, count, h', plan);
      FenceSound(st', Settle(h'), fence.value, queue, last, plan.next);
    }
  }
}
