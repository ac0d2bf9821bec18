/** A wait submitted before its signal: no pending wait is ever left satisfied by a recorded signal. */
module WaitBeforeSignal {
  import opened Options
  import opened Provenance
  import opened ProvenanceRuns
  import opened SignalCommits

  // ---------------------------------------------------------------------------
  // No pending wait is satisfied by a recorded signal
  // ---------------------------------------------------------------------------

  /** Only timeline semaphores have records, and every pending wait asks for more than any of them. */
  predicate Quiet(s: Semaphore) {
    && (!s.timeline ==> s.signals == [])
    && forall i, j | 0 <= i < |s.pending| && 0 <= j < |s.signals| :: s.pending[i].value > s.signals[j].value
  }

  predicate AllQuiet(semaphores: map<SemaphoreId, Semaphore>) {
    forall id | id in semaphores :: Quiet(semaphores[id])
  }

  /** Timeline waits supply their values. */
  predicate ValuesSupplied(semaphores: map<SemaphoreId, Semaphore>, batches: seq<Batch>) {
    forall i, j | 0 <= i < |batches| && 0 <= j < |batches[i].waits| ::
      IsTimeline(semaphores, batches[i].waits[j].id) ==> batches[i].waits[j].value.Some?
  }

  /** The planned wait asks for more than every record of its semaphore. */
  predicate Open(semaphores: map<SemaphoreId, Semaphore>, planned: PlannedWait) {
    planned.id in semaphores && forall j | 0 <= j < |semaphores[planned.id].signals| ::
      semaphores[planned.id].signals[j].value < planned.wait.value
  }

  predicate PlanOpen(semaphores: map<SemaphoreId, Semaphore>, plan: Plan) {
    && (forall k | 0 <= k < |plan.waits| :: Open(semaphores, plan.waits[k]))
    && (forall k | 0 <= k < |plan.signals| :: plan.signals[k].timeline == IsTimeline(semaphores, plan.signals[k].id))
  }

  lemma {:induction false} NoneAtLeast(signals: seq<TimelineSignal>, value: nat, j: nat)
    requires FirstAtLeast(signals, value).None? && j < |signals|
    ensures signals[j].value < value
    decreases |signals|
  {
    if j < |signals| - 1 {
      NoneAtLeast(signals[..|signals| - 1], value, j);
    }
  }

  lemma {:induction false} WaitsOpen(semaphores: map<SemaphoreId, Semaphore>, queue: QueueId, serial: nat,
                                     downstream: seq<SemaphoreId>, plan: Plan, ops: seq<SemaphoreOp>)
    requires AllQuiet(semaphores) && PlanOpen(semaphores, plan)
    requires forall j | 0 <= j < |ops| :: IsTimeline(semaphores, ops[j].id) ==> ops[j].value.Some?
    ensures PlanOpen(semaphores, PlanWaits(semaphores, queue, serial, downstream, plan, ops))
    decreases |ops|
  {
    if ops != [] {
      var n := |ops| - 1;
      WaitsOpen(semaphores, queue, serial, downstream, plan, ops[..n]);
      var op := ops[n];
      if op.id in semaphores && !Resolve(semaphores[op.id], op).1 {
        var s := semaphores[op.id];
        forall j | 0 <= j < |s.signals| ensures s.signals[j].value < PendingValue(s.timeline, op) {
          assert Quiet(s);
          NoneAtLeast(s.signals, op.value.value, j);
        }
      }
    }
  }

  lemma {:induction false} SignalsOpen(semaphores: map<SemaphoreId, Semaphore>, serial: nat, plan: Plan,
                                       ops: seq<SemaphoreOp>)
    requires PlanOpen(semaphores, plan)
    ensures PlanOpen(semaphores, PlanSignals(semaphores, serial, plan, ops))
    decreases |ops|
  {
    if ops != [] {
      SignalsOpen(semaphores, serial, plan, ops[..|ops| - 1]);
    }
  }

  lemma {:induction false} CallOpen(semaphores: map<SemaphoreId, Semaphore>, queue: QueueId, first: nat,
                                    next: set<MemoryId>, batches: seq<Batch>)
    requires AllQuiet(semaphores) && ValuesSupplied(semaphores, batches)
    ensures PlanOpen(semaphores, PlanAll(semaphores, queue, first, next, batches))
    decreases |batches|
  {
    if batches != [] {
      var n := |batches| - 1;
      var b := batches[n];
      assert ValuesSupplied(semaphores, batches[..n]) by {
        forall i, j | 0 <= i < n && 0 <= j < |batches[..n][i].waits|
          ensures IsTimeline(semaphores, batches[..n][i].waits[j].id) ==> batches[..n][i].waits[j].value.Some?
        {
          assert batches[..n][i] == batches[i];
        }
      }
      CallOpen(semaphores, queue, first, next, batches[..n]);
      var plan := PlanAll(semaphores, queue, first, next, batches[..n]).(submit := b.writes);
      WaitsOpen(semaphores, queue, first + n, Ids(b.signals), plan, b.waits);
      var waited := PlanWaits(semaphores, queue, first + n, Ids(b.signals), plan, b.waits);
      SignalsOpen(semaphores, first + n, waited.(next := waited.next + waited.submit), b.signals);
    }
  }

  /** The same semaphores with the same records; only waits and binary state may differ. */
  predicate SameRecords(a: map<SemaphoreId, Semaphore>, b: map<SemaphoreId, Semaphore>) {
    && (forall id | id in a :: id in b && b[id].timeline == a[id].timeline && b[id].signals == a[id].signals)
    && (forall id | id in b && id !in a :: !b[id].timeline && b[id].signals == [])
  }

  lemma {:induction false} PendingQuiet(semaphores: map<SemaphoreId, Semaphore>, waits: seq<PlannedWait>)
    requires AllQuiet(semaphores) && forall k | 0 <= k < |waits| :: Open(semaphores, waits[k])
    ensures AllQuiet(AddPending(semaphores, waits)) && SameRecords(semaphores, AddPending(semaphores, waits))
    decreases |waits|
  {
    if waits != [] {
      var n := |waits| - 1;
      PendingQuiet(semaphores, waits[..n]);
      assert Open(semaphores, waits[n]);
      assert Quiet(AddPending(semaphores, waits[..n])[waits[n].id]);
    }
  }

  lemma OneSignalQuiet(st: State, queue: QueueId, signal: PlannedSignal)
    requires AllQuiet(st.semaphores) && signal.timeline == IsTimeline(st.semaphores, signal.id)
    ensures AllQuiet(CommitSignal(st, queue, signal).semaphores)
    ensures forall id :: IsTimeline(CommitSignal(st, queue, signal).semaphores, id) == IsTimeline(st.semaphores, id)
  {
    var s := RecordSignal(SemaphoreAt(st.semaphores, signal.id), queue, signal);
    var recorded := st.(semaphores := st.semaphores[signal.id := s]);
    var st' := CommitSignal(st, queue, signal);
    var woken := st'.(semaphores := st'.semaphores[signal.id := st'.semaphores[signal.id].(pending := s.pending)]);
    CommitSignalExactly(st, queue, signal);
    forall id: SemaphoreId
      ensures IsTimeline(st'.semaphores, id) == IsTimeline(st.semaphores, id)
      ensures id in st'.semaphores ==> Quiet(st'.semaphores[id])
    {
      assert id in recorded.semaphores ==> id in woken.semaphores;
      if id in st'.semaphores {
        var after := woken.semaphores[id];
        if id in recorded.semaphores {
          assert after == Extended(recorded.semaphores[id], signal, s.pending);
          assert Quiet(SemaphoreAt(st.semaphores, id));
        } else {
          assert after == NewSemaphore(false);
        }
        if id == signal.id {
          SignalQuiet(SemaphoreAt(st.semaphores, id), queue, signal, st'.semaphores[id]);
        }
      }
    }
  }

  lemma SignalQuiet(before: Semaphore, queue: QueueId, signal: PlannedSignal, after: Semaphore)
    requires Quiet(before) && before.timeline == signal.timeline
    requires after.timeline == before.timeline
    requires after.signals == Extended(RecordSignal(before, queue, signal), signal, before.pending).signals
    requires forall w :: w in after.pending <==> w in before.pending && !Satisfies(signal, w)
    ensures Quiet(after)
  {
    var s := RecordSignal(before, queue, signal);
    forall i, j | 0 <= i < |after.pending| && 0 <= j < |after.signals|
      ensures after.pending[i].value > after.signals[j].value
    {
      var w := after.pending[i];
      assert w in after.pending;
      assert w in before.pending && !Satisfies(signal, w);
      assert after.signals[j].value == s.signals[j].value;
    }
  }

  lemma {:induction false} SignalsQuiet(st: State, queue: QueueId, signals: seq<PlannedSignal>)
    requires AllQuiet(st.semaphores) && KindsAgree(st.semaphores, signals)
    ensures AllQuiet(CommitSignals(st, queue, signals).semaphores)
    ensures forall id :: IsTimeline(CommitSignals(st, queue, signals).semaphores, id) == IsTimeline(st.semaphores, id)
    decreases |signals|
  {
    if signals != [] {
      var n := |signals| - 1;
      SignalsQuiet(st, queue, signals[..n]);
      OneSignalQuiet(CommitSignals(st, queue, signals[..n]), queue, signals[n]);
    }
  }

  lemma SubmitQuiet(st: State, queue: QueueId, batches: seq<Batch>, fence: Option<FenceId>, accepted: bool)
    requires AllQuiet(st.semaphores) && ValuesSupplied(st.semaphores, batches)
    ensures AllQuiet(Submit(st, queue, batches, fence, accepted).semaphores)
  {
    var plan := PlanOf(st, queue, batches);
    CallOpen(st.semaphores, queue, st.nextSerial, QueueWrites(st.queueWrites, queue), batches);
    PendingQuiet(st.semaphores, plan.waits);
    var added := AddPending(st.semaphores, plan.waits);
    var planned := Reserved(st, queue, |batches|);
    planned := planned.(queueWrites := planned.queueWrites[queue := plan.next],
                        semaphores := ConsumeAll(added, plan.consumed));
    forall id | id in planned.semaphores ensures Quiet(planned.semaphores[id]) {
      assert Quiet(SemaphoreAt(added, id));
    }
    forall k | 0 <= k < |plan.signals|
      ensures plan.signals[k].timeline == IsTimeline(planned.semaphores, plan.signals[k].id)
    {
      var id := plan.signals[k].id;
      assert IsTimeline(added, id) == IsTimeline(st.semaphores, id);
    }
    SignalsQuiet(planned, queue, plan.signals);
  }

  lemma {:induction false} AboveIn(signals: seq<TimelineSignal>, value: nat, j: nat)
    requires j < |Above(signals, value)|
    ensures Above(signals, value)[j] in signals
    decreases |signals|
  {
    var n := |signals| - 1;
    if j < |Above(signals[..n], value)| {
      AboveIn(signals[..n], value, j);
    }
  }

  predicate StepSupplied(st: State, step: Step) {
    match step
    case Submits(_, batches, _, _) => ValuesSupplied(st.semaphores, batches)
    case Creates(id, _) => id !in st.semaphores
    case _ => true
  }

  /** When timeline waits supply their values, no step leaves a pending wait that a recorded signal
      already satisfies. */
  lemma StepQuiet(st: State, step: Step)
    requires AllQuiet(st.semaphores) && StepSupplied(st, step)
    ensures AllQuiet(Next(st, step).semaphores)
  {
    var st' := Next(st, step);
    match step
    case Submits(queue, batches, fence, accepted) => SubmitQuiet(st, queue, batches, fence, accepted);
    case CounterObserved(id, value) =>
      if id in st.semaphores {
        var s, s' := st.semaphores[id], st'.semaphores[id];
        assert Quiet(s);
        forall i, j | 0 <= i < |s'.pending| && 0 <= j < |s'.signals|
          ensures s'.pending[i].value > s'.signals[j].value
        {
          AboveIn(s.signals, value, j);
        }
      }
    case HostSignals(id, value) =>
      if id in st.semaphores {
        var s, s' := st.semaphores[id], st'.semaphores[id];
        assert Quiet(s);
        forall i, j | 0 <= i < |s'.pending| && 0 <= j < |s'.signals|
          ensures s'.pending[i].value > s'.signals[j].value
        {
          assert s'.pending[i] in s'.pending;
        }
      }
    case QueueObserved(_) =>
    case DeviceObserved =>
    case FencesObserved(_) =>
    case FencesDropped(_) =>
    case Creates(_, _) =>
    case Destroys(_) =>
  }
}
