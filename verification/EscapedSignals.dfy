/** How far a late signal's memories go, exactly: to the queues whose waits it ends and no further, so
    another queue that follows a waiter is covered if and only if it held those memories already.
  */
module EscapedSignals {
  import opened Options
  import opened Provenance
  import opened Precedence
  import opened HappensBefore
  import opened LateSignals
  import opened SignalCommits
  import opened ProvenanceRuns
  import opened SubmitPlan
  import opened SubmitSoundness

  // ---------------------------------------------------------------------------
  // Where a call's own waits are
  // ---------------------------------------------------------------------------

  predicate PlannedOn(waits: seq<PlannedWait>, queue: QueueId) {
    forall k | 0 <= k < |waits| :: waits[k].wait.queue == queue
  }

  lemma {:induction false} WaitsPlannedOn(semaphores: map<SemaphoreId, Semaphore>, queue: QueueId, serial: nat,
                                          downstream: seq<SemaphoreId>, plan: Plan, ops: seq<SemaphoreOp>)
    requires PlannedOn(plan.waits, queue)
    ensures PlannedOn(PlanWaits(semaphores, queue, serial, downstream, plan, ops).waits, queue)
    decreases |ops|
  {
    if ops != [] {
      WaitsPlannedOn(semaphores, queue, serial, downstream, plan, ops[..|ops| - 1]);
    }
  }

  lemma {:induction false} SignalsKeepWaits(semaphores: map<SemaphoreId, Semaphore>, serial: nat, plan: Plan,
                                            ops: seq<SemaphoreOp>)
    ensures PlanSignals(semaphores, serial, plan, ops).waits == plan.waits
    decreases |ops|
  {
    if ops != [] {
      SignalsKeepWaits(semaphores, serial, plan, ops[..|ops| - 1]);
    }
  }

  lemma {:induction false} CallPlannedOn(semaphores: map<SemaphoreId, Semaphore>, queue: QueueId, first: nat,
                                         next: set<MemoryId>, batches: seq<Batch>)
    ensures PlannedOn(PlanAll(semaphores, queue, first, next, batches).waits, queue)
    decreases |batches|
  {
    if batches != [] {
      var n, batch := |batches| - 1, batches[|batches| - 1];
      CallPlannedOn(semaphores, queue, first, next, batches[..n]);
      var plan := PlanAll(semaphores, queue, first, next, batches[..n]).(submit := batch.writes);
      WaitsPlannedOn(semaphores, queue, first + n, Ids(batch.signals), plan, batch.waits);
      var waited := PlanWaits(semaphores, queue, first + n, Ids(batch.signals), plan, batch.waits);
      SignalsKeepWaits(semaphores, first + n, waited.(next := waited.next + waited.submit), batch.signals);
    }
  }

  // ---------------------------------------------------------------------------
  // What a queue is told
  // ---------------------------------------------------------------------------

  /** The signal is the first of its semaphore to satisfy a wait that is pending on the queue. */
  predicate Tells(semaphores: map<SemaphoreId, Semaphore>, signals: seq<PlannedSignal>, k: nat, queue: QueueId)
    requires k < |signals|
  {
    exists p :: p in SemaphoreAt(semaphores, signals[k].id).pending && p.queue == queue && FirstFor(signals, k, p)
  }

  predicate FirstFor(signals: seq<PlannedSignal>, k: nat, p: PendingWait)
    requires k < |signals|
  {
    Satisfies(signals[k], p) && Outlasts(signals[..k], signals[k].id, p)
  }

  /** None of the signals of the semaphore satisfies the wait. */
  predicate Outlasts(signals: seq<PlannedSignal>, id: SemaphoreId, p: PendingWait) {
    forall i | 0 <= i < |signals| :: signals[i].id == id ==> !Satisfies(signals[i], p)
  }

  /** The memories of those signals. */
  function Told(semaphores: map<SemaphoreId, Semaphore>, signals: seq<PlannedSignal>, queue: QueueId): set<MemoryId> {
    set k, m | 0 <= k < |signals| && Tells(semaphores, signals, k, queue) && m in signals[k].memoryIds :: m
  }

  lemma {:induction false} PendingLeft(st: State, at: QueueId, signals: seq<PlannedSignal>, id: SemaphoreId,
                                       p: PendingWait)
    ensures p in SemaphoreAt(CommitSignals(st, at, signals).semaphores, id).pending
            <==> p in SemaphoreAt(st.semaphores, id).pending && Outlasts(signals, id, p)
    decreases |signals|
  {
    if signals != [] {
      var n := |signals| - 1;
      var before := CommitSignals(st, at, signals[..n]);
      PendingLeft(st, at, signals[..n], id, p);
      OnePendingLeft(before, at, signals[n], id, p);
      assert signals == signals[..n] + [signals[n]];
    }
  }

  lemma OnePendingLeft(st: State, at: QueueId, signal: PlannedSignal, id: SemaphoreId, p: PendingWait)
    ensures p in SemaphoreAt(CommitSignal(st, at, signal).semaphores, id).pending
            <==> p in SemaphoreAt(st.semaphores, id).pending && (signal.id == id ==> !Satisfies(signal, p))
  {
    var st', recorded, woken := CommitSignal(st, at, signal), Recorded(st, at, signal), WokenState(st, at, signal);
    var waits := SemaphoreAt(st.semaphores, signal.id).pending;
    CommitWakes(st, at, signal);
    if id != signal.id {
      assert SemaphoreAt(st'.semaphores, id) == SemaphoreAt(woken.semaphores, id);
      if id in st.semaphores {
        assert woken.semaphores[id] == Extended(recorded.semaphores[id], signal, waits);
      }
    }
  }

  lemma ToldSnoc(semaphores: map<SemaphoreId, Semaphore>, signals: seq<PlannedSignal>, signal: PlannedSignal,
                 queue: QueueId)
    ensures Told(semaphores, signals + [signal], queue)
            == Told(semaphores, signals, queue)
               + (if Tells(semaphores, signals + [signal], |signals|, queue) then signal.memoryIds else {})
  {
    var all, n := signals + [signal], |signals|;
    forall k: nat | k < n ensures Tells(semaphores, all, k, queue) <==> Tells(semaphores, signals, k, queue) {
      assert all[..k] == signals[..k] && all[k] == signals[k];
      assert forall p: PendingWait :: FirstFor(all, k, p) <==> FirstFor(signals, k, p);
    }
    assert all[n] == signal;
    forall m ensures m in Told(semaphores, all, queue) <==>
        (m in Told(semaphores, signals, queue) || (Tells(semaphores, all, n, queue) && m in signal.memoryIds))
    {
      if m in Told(semaphores, signals, queue) {
        var k :| 0 <= k < n && Tells(semaphores, signals, k, queue) && m in signals[k].memoryIds;
        assert Tells(semaphores, all, k, queue) && m in all[k].memoryIds;
      }
    }
  }

  /** Committing the signals adds to a queue's set exactly what it is told. */
  lemma {:induction false} SignalsTell(st: State, at: QueueId, signals: seq<PlannedSignal>, queue: QueueId)
    ensures QueueWrites(CommitSignals(st, at, signals).queueWrites, queue)
            == QueueWrites(st.queueWrites, queue) + Told(st.semaphores, signals, queue)
    decreases |signals|
  {
    if signals == [] {
      assert Told(st.semaphores, signals, queue) == {};
    } else {
      var n := |signals| - 1;
      SignalsTell(st, at, signals[..n], queue);
      ToldSnoc(st.semaphores, signals[..n], signals[n], queue);
      assert signals == signals[..n] + [signals[n]];
      OneTells(st, at, signals[..n], signals[n], queue);
    }
  }

  lemma OneTells(st: State, at: QueueId, signals: seq<PlannedSignal>, signal: PlannedSignal, queue: QueueId)
    ensures var before := CommitSignals(st, at, signals);
            QueueWrites(CommitSignal(before, at, signal).queueWrites, queue)
            == QueueWrites(before.queueWrites, queue)
               + (if Tells(st.semaphores, signals + [signal], |signals|, queue) then signal.memoryIds else {})
  {
    var before, all := CommitSignals(st, at, signals), signals + [signal];
    var waits := SemaphoreAt(before.semaphores, signal.id).pending;
    CommitSignalExactly(before, at, signal);
    assert all[|signals|] == signal && all[..|signals|] == signals;
    forall p ensures p in waits && Satisfies(signal, p) <==>
                     p in SemaphoreAt(st.semaphores, signal.id).pending && FirstFor(all, |signals|, p)
    {
      PendingLeft(st, at, signals, signal.id, p);
    }
    assert ReachesQueue(signal, waits, queue) <==> exists p :: p in waits && p.queue == queue && Satisfies(signal, p);
  }

  /** The set of a queue after an accepted call, from the tables before it: for the submitting queue what
      was planned, and for every queue what it is told. */
  function SetAfter(st: State, at: QueueId, batches: seq<Batch>, queue: QueueId): set<MemoryId> {
    var plan := PlanOf(st, at, batches);
    if queue == at then plan.next + Told(AddPending(st.semaphores, plan.waits), plan.signals, queue)
    else QueueWrites(st.queueWrites, queue) + Told(st.semaphores, plan.signals, queue)
  }

  lemma ToldSame(a: map<SemaphoreId, Semaphore>, b: map<SemaphoreId, Semaphore>, signals: seq<PlannedSignal>,
                 queue: QueueId)
    requires forall id, p: PendingWait :: p.queue == queue ==> (p in SemaphoreAt(a, id).pending <==> p in SemaphoreAt(b, id).pending)
    ensures Told(a, signals, queue) == Told(b, signals, queue)
  {
    forall k: nat | k < |signals| ensures Tells(a, signals, k, queue) <==> Tells(b, signals, k, queue) {}
  }

  lemma {:induction false} AddedElsewhere(semaphores: map<SemaphoreId, Semaphore>, waits: seq<PlannedWait>, at: QueueId,
                                          id: SemaphoreId, p: PendingWait)
    requires PlannedOn(waits, at) && p.queue != at
    ensures p in SemaphoreAt(AddPending(semaphores, waits), id).pending <==> p in SemaphoreAt(semaphores, id).pending
    decreases |waits|
  {
    if waits != [] {
      AddedElsewhere(semaphores, waits[..|waits| - 1], at, id, p);
    }
  }

  lemma ConsumedPending(semaphores: map<SemaphoreId, Semaphore>, ids: set<SemaphoreId>, id: SemaphoreId)
    ensures SemaphoreAt(ConsumeAll(semaphores, ids), id).pending == SemaphoreAt(semaphores, id).pending
  {
  }

  lemma SubmitTells(st: State, at: QueueId, batches: seq<Batch>, fence: Option<FenceId>, queue: QueueId)
    ensures QueueWrites(Submit(st, at, batches, fence, true).queueWrites, queue) == SetAfter(st, at, batches, queue)
  {
    var plan, reserved := PlanOf(st, at, batches), Reserved(st, at, |batches|);
    var added := AddPending(st.semaphores, plan.waits);
    var planned := reserved.(queueWrites := reserved.queueWrites[at := plan.next],
                             semaphores := ConsumeAll(added, plan.consumed));
    SignalsTell(planned, at, plan.signals, queue);
    forall id ensures SemaphoreAt(planned.semaphores, id).pending == SemaphoreAt(added, id).pending {
      ConsumedPending(added, plan.consumed, id);
    }
    ToldSame(planned.semaphores, added, plan.signals, queue);
    if queue != at {
      CallPlannedOn(st.semaphores, at, st.nextSerial, QueueWrites(st.queueWrites, at), batches);
      forall id, p: PendingWait | p.queue == queue
        ensures p in SemaphoreAt(added, id).pending <==> p in SemaphoreAt(st.semaphores, id).pending
      {
        AddedElsewhere(st.semaphores, plan.waits, at, id, p);
      }
      ToldSame(added, st.semaphores, plan.signals, queue);
    }
  }

  predicate NonePending(semaphores: map<SemaphoreId, Semaphore>, queue: QueueId) {
    forall id | id in semaphores :: forall p | p in semaphores[id].pending :: p.queue != queue
  }

  /** Whatever the call signals, a queue that waits for nothing is told nothing. */
  lemma SubmitPasses(st: State, at: QueueId, batches: seq<Batch>, fence: Option<FenceId>, queue: QueueId)
    requires NonePending(st.semaphores, queue) && at != queue
    ensures SetAfter(st, at, batches, queue) == QueueWrites(st.queueWrites, queue)
    ensures QueueWrites(Submit(st, at, batches, fence, true).queueWrites, queue) == QueueWrites(st.queueWrites, queue)
  {
    SubmitTells(st, at, batches, fence, queue);
  }

  // ---------------------------------------------------------------------------
  // The dependency that escapes
  // ---------------------------------------------------------------------------

  lemma {:induction false} SignalsKeepSerial(st: State, at: QueueId, signals: seq<PlannedSignal>)
    ensures CommitSignals(st, at, signals).nextSerial == st.nextSerial
    decreases |signals|
  {
    if signals != [] {
      var n := |signals| - 1;
      SignalsKeepSerial(st, at, signals[..n]);
      CommitSignalExactly(CommitSignals(st, at, signals[..n]), at, signals[n]);
    }
  }

  lemma SerialsGrow(st: State, at: QueueId, batches: seq<Batch>, fence: Option<FenceId>)
    ensures Submit(st, at, batches, fence, true).nextSerial > st.nextSerial
  {
    var plan, reserved := PlanOf(st, at, batches), Reserved(st, at, |batches|);
    SignalsKeepSerial(reserved.(queueWrites := reserved.queueWrites[at := plan.next],
                                semaphores := ConsumeAll(AddPending(reserved.semaphores, plan.waits), plan.consumed)),
                      at, plan.signals);
  }

  /** Waiting for the queue to be idle refreshes everything that precedes it. */
  ghost predicate IdleCovers(st: State, h: History, queue: QueueId) {
    var step := QueueObserved(queue);
    forall a, m | (a, m) in h.graph.unacquired && BeforeAny(h.graph, a, Shown(st, h, step)) ::
      m in Refreshed(st, h, step)
  }

  lemma IdleIsCover(st: State, h: History, queue: QueueId)
    ensures IdleCovers(st, h, queue)
            <==> Covers(h.graph, Point(queue, st.nextSerial), QueueWrites(st.queueWrites, queue))
  {
    var point := Point(queue, st.nextSerial);
    assert Shown(st, h, QueueObserved(queue)) == {point};
    forall a ensures BeforeAny(h.graph, a, {point}) <==> Before(h.graph, a, point) {}
  }

  /** Every late edge of the call that precedes the queue, once the call counts, brings only memories
      in `ids`. */
  ghost predicate LateHeld(st: State, h: History, at: QueueId, batches: seq<Batch>, queue: QueueId,
                           ids: set<MemoryId>)
  {
    var h' := AfterBatches(h, st.semaphores, at, st.nextSerial, batches);
    var point := Point(queue, Submit(st, at, batches, None, true).nextSerial);
    forall n, w | (n, w) in h'.late && Before(AddEdges(h'.graph, h'.late), w, point) :: Holds(h'.graph, n, ids)
  }

  lemma CallCovering(st: State, h: History, at: QueueId, batches: seq<Batch>, fence: Option<FenceId>)
    requires Sound(st, h) && BatchesAllowed(h, st.semaphores, at, st.nextSerial, batches)
    ensures var h', st' := AfterBatches(h, st.semaphores, at, st.nextSerial, batches),
                           Submit(st, at, batches, fence, true);
            && st'.nextSerial == Submit(st, at, batches, None, true).nextSerial
            && forall q: QueueId :: Covers(h'.graph, Point(q, st'.nextSerial), QueueWrites(st'.queueWrites, q))
  {
    hide Planned, CommitSignals, PlanAll, AfterBatches, BatchesAllowed, CallSound, SemaphoresSound;
    var c := Call(h, st.semaphores, at, st.nextSerial);
    CallBegins(st, h, at);
    var h', plan := CallPlanned(c, QueueWrites(st.queueWrites, at), batches);
    SignalsCovering(st, c, |batches|, h', plan);
  }

  /** Whatever a call signals, and whatever depends on what waited for it: afterwards waiting for a
      queue to be idle refreshes everything that precedes it if and only if what each late edge
      before it brings is in the set the queue then has: its own before the call, extended by what
      the signals that end its pending waits tell it. */
  lemma IdleExactly(st: State, h: History, at: QueueId, batches: seq<Batch>, fence: Option<FenceId>, queue: QueueId)
    requires Sound(st, h) && BatchesAllowed(h, st.semaphores, at, st.nextSerial, batches)
    ensures var st'', h'' := Submit(st, at, batches, fence, true), AfterCall(h, st, at, batches, fence);
            IdleCovers(st'', h'', queue) <==> LateHeld(st, h, at, batches, queue, SetAfter(st, at, batches, queue))
  {
    hide Sound, CommitSignals, PlanAll, AfterBatches, BatchesAllowed, Covers, Holds, SetAfter;
    SubmitTells(st, at, batches, fence, queue);
    var st'', h'' := Submit(st, at, batches, fence, true), AfterCall(h, st, at, batches, fence);
    var h' := AfterBatches(h, st.semaphores, at, st.nextSerial, batches);
    CallCovering(st, h, at, batches, fence);
    var point, ids := Point(queue, st''.nextSerial), QueueWrites(st''.queueWrites, queue);
    IdleIsCover(st'', h'', queue);
    CoversExactly(h'.graph, h'.late, point, ids);
  }

  /** A queue that waits for nothing is told nothing, so for it the memories must have been in its set
      before the call. */
  lemma PassedIdleExactly(st: State, h: History, at: QueueId, batches: seq<Batch>, fence: Option<FenceId>,
                          queue: QueueId)
    requires Sound(st, h) && BatchesAllowed(h, st.semaphores, at, st.nextSerial, batches)
    requires queue != at && NonePending(st.semaphores, queue)
    ensures IdleCovers(Submit(st, at, batches, fence, true), AfterCall(h, st, at, batches, fence), queue)
            <==> LateHeld(st, h, at, batches, queue, QueueWrites(st.queueWrites, queue))
  {
    hide Sound, BatchesAllowed, IdleCovers, LateHeld, NonePending, Submit, AfterCall, SetAfter;
    SubmitTells(st, at, batches, fence, queue);
    IdleExactly(st, h, at, batches, fence, queue);
    SubmitPasses(st, at, batches, fence, queue);
  }

  /** The memory such a queue misses. */
  lemma EscapedSignalMisses(st: State, h: History, at: QueueId, batches: seq<Batch>, fence: Option<FenceId>,
                            n: nat, w: nat, a: nat, b: nat, m: MemoryId)
    requires var h' := AfterBatches(h, st.semaphores, at, st.nextSerial, batches);
             && (n, w) in h'.late && Precedes(h'.graph, a, n) && Precedes(h'.graph, w, b)
             && (a, m) in h'.graph.unacquired && b in h'.graph.submissions && b < st.nextSerial
             && var queue := h'.graph.submissions[b].queue;
                queue != at && NonePending(st.semaphores, queue) && m !in QueueWrites(st.queueWrites, queue)
    ensures var h' := AfterBatches(h, st.semaphores, at, st.nextSerial, batches);
            var step := QueueObserved(h'.graph.submissions[b].queue);
            var st'', h'' := Submit(st, at, batches, fence, true), AfterCall(h, st, at, batches, fence);
            && (a, m) in h''.graph.unacquired && BeforeAny(h''.graph, a, Shown(st'', h'', step))
            && m !in Refreshed(st'', h'', step)
  {
    var h' := AfterBatches(h, st.semaphores, at, st.nextSerial, batches);
    var queue := h'.graph.submissions[b].queue;
    var step := QueueObserved(queue);
    var st'', h'' := Submit(st, at, batches, fence, true), AfterCall(h, st, at, batches, fence);
    SubmitPasses(st, at, batches, fence, queue);
    PrecedesMore(h'.graph, h'.late, w, b);
    PrecedesAcross(h'.graph, h'.late, a, n, w, b);
    SerialsGrow(st, at, batches, fence);
    var point := Point(queue, st''.nextSerial);
    assert InPoint(h''.graph, b, point) && Before(h''.graph, a, point) && point in Shown(st'', h'', step);
  }
}
