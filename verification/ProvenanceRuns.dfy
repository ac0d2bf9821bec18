/** Runs of submissions, observations and the other steps: every successful observation refreshes
    every memory with an unacquired write that must be complete by then.
  */
module ProvenanceRuns {
  import opened Options
  import opened Provenance
  import opened Precedence
  import opened HappensBefore
  import opened LateSignals
  import opened SubmitSoundness

  datatype Step =
    | Submits(queue: QueueId, batches: seq<Batch>, fence: Option<FenceId>, accepted: bool)
    | QueueObserved(queue: QueueId)
    | DeviceObserved
    | FencesObserved(fences: set<FenceId>)
    | CounterObserved(id: SemaphoreId, value: nat)
    | FencesDropped(fences: set<FenceId>)
    | HostSignals(id: SemaphoreId, value: nat)
    | Creates(id: SemaphoreId, timeline: bool)
    | Destroys(id: SemaphoreId)

  const INITIAL := State(1, map[], map[], map[])

  function Next(st: State, step: Step): State {
    match step
    case Submits(queue, batches, fence, accepted) => Submit(st, queue, batches, fence, accepted)
    case QueueObserved(queue) => QueueIdle(st, queue)
    case DeviceObserved => DeviceIdle(st)
    case FencesObserved(fences) => DropFences(st, fences)
    case CounterObserved(id, value) => TimelineAcquired(st, id, value)
    case FencesDropped(fences) => DropFences(st, fences)
    case HostSignals(id, value) => HostSignal(st, id, value)
    case Creates(id, timeline) => CreateSemaphore(st, id, timeline)
    case Destroys(id) => DestroySemaphore(st, id)
  }

  /** The memories the step refreshes. A device-idle refreshes whatever is mapped; memory that is
      not mapped is read afresh when it is. */
  function Refreshed(st: State, h: History, step: Step): set<MemoryId> {
    match step
    case QueueObserved(queue) => IdleWrites(st, queue)
    case DeviceObserved => set u | u in h.graph.unacquired :: u.1
    case FencesObserved(fences) => FenceWrites(st, fences)
    case CounterObserved(id, value) => TimelineWrites(st, id, value)
    case _ => {}
  }

  /** The positions the step shows to be complete. */
  function Shown(st: State, h: History, step: Step): set<Point> {
    match step
    case QueueObserved(queue) => {Point(queue, st.nextSerial)}
    case DeviceObserved => set n | n in h.graph.submissions :: Point(h.graph.submissions[n].queue, n)
    case FencesObserved(fences) => set f | f in fences && f in h.fences :: h.fences[f]
    case CounterObserved(id, value) =>
      set s | s in SignalsOf(h.timeline, id) && s.value <= value && s.serial in h.graph.submissions
        :: Point(h.graph.submissions[s.serial].queue, s.serial)
    case _ => {}
  }

  function Raise(values: map<SemaphoreId, nat>, id: SemaphoreId, value: nat): map<SemaphoreId, nat> {
    values[id := if ValueOf(values, id) > value then ValueOf(values, id) else value]
  }

  ghost function Record(st: State, h: History, step: Step): History {
    match step
    case Submits(queue, batches, fence, accepted) =>
      if accepted then AfterCall(h, st, queue, batches, fence) else h
    case FencesDropped(fences) => h.(fences := h.fences - fences)
    case HostSignals(id, value) =>
      h.(hosted := Raise(h.hosted, id, value), waiting := h.waiting - Ended(h.waiting, id, value))
    case Creates(id, _) => h
    case Destroys(id) => h.(binary := h.binary - {id})
    case CounterObserved(id, value) =>
      h.(graph := Acquire(h.graph, Shown(st, h, step), Refreshed(st, h, step)), seen := Raise(h.seen, id, value),
         waiting := h.waiting - Ended(h.waiting, id, value))
    case _ => h.(graph := Acquire(h.graph, Shown(st, h, step), Refreshed(st, h, step)))
  }

  /** What the application and the server owe. A binary wait has its signal, a timeline wait and a
      timeline signal name their values, and those of signals increase; what a signal that comes
      after its wait brings is carried to whatever follows that wait. What is shown to be complete waits
      for nothing; an observed counter is a live timeline semaphore; a created semaphore has a new id,
      and nothing waits for a destroyed one. */
  ghost predicate Allowed(st: State, h: History, step: Step) {
    && (forall p | p in Shown(st, h, step) :: NobodyWaits(h.graph, h.waiting, p))
    && match step
       case Submits(queue, batches, _, accepted) =>
         accepted ==> CallAllowed(h, st.semaphores, queue, st.nextSerial, batches)
       case CounterObserved(id, _) => IsTimeline(st.semaphores, id)
       case Creates(id, _) => id !in st.semaphores && id !in h.timeline && id !in h.binary && id !in h.seen
       case Destroys(id) => forall w | w in h.waiting :: w.id != id
       case _ => true
  }

  // ---------------------------------------------------------------------------
  // What the tables say covers what is shown
  // ---------------------------------------------------------------------------

  lemma {:induction false} SignalIn(signals: seq<TimelineSignal>, k: nat, value: nat)
    requires k < |signals| && signals[k].value <= value
    ensures signals[k].memoryIds <= CompletedWrites(signals, value)
  {
    assert signals[k] in signals;
  }

  lemma ShownCovered(st: State, h: History, step: Step)
    requires Sound(st, h) && Allowed(st, h, step)
    ensures forall p | p in Shown(st, h, step) :: Covers(h.graph, p, Refreshed(st, h, step))
  {
    var ids := Refreshed(st, h, step);
    forall p | p in Shown(st, h, step)
      ensures Covers(h.graph, p, ids)
    {
      match step
      case QueueObserved(_) =>
      case DeviceObserved =>
      case FencesObserved(fences) =>
        var f :| f in fences && f in h.fences && p == h.fences[f];
        CoversMore(h.graph, p, RecordedFence(st.fences, f), ids);
      case CounterObserved(id, value) =>
        CounterCovered(st, h, id, value, p);
      case Submits(_, _, _, _) =>
      case FencesDropped(_) =>
      case HostSignals(_, _) =>
      case Creates(_, _) =>
      case Destroys(_) =>
    }
  }

  lemma CounterCovered(st: State, h: History, id: SemaphoreId, value: nat, p: Point)
    requires Sound(st, h) && IsTimeline(st.semaphores, id)
    requires p in Shown(st, h, CounterObserved(id, value))
    ensures Covers(h.graph, p, TimelineWrites(st, id, value))
  {
    var s, all, seen := st.semaphores[id], SignalsOf(h.timeline, id), ValueOf(h.seen, id);
    assert TimelineSound(h.graph, all, seen, s);
    var signal :| signal in all && signal.value <= value && signal.serial in h.graph.submissions
                  && p == Point(h.graph.submissions[signal.serial].queue, signal.serial);
    var i :| 0 <= i < |all| && all[i] == signal;
    var off := |all| - |s.signals|;
    if i < off {
      assert SettledSignal(h.graph, all[i], seen);
      CoversMore(h.graph, p, {}, TimelineWrites(st, id, value));
    } else {
      assert RecordSound(h.graph, s.signals[i - off], all[i], seen);
      SignalIn(s.signals, i - off, value);
      CoversMore(h.graph, p, s.signals[i - off].memoryIds, TimelineWrites(st, id, value));
    }
  }

  // ---------------------------------------------------------------------------
  // Every step keeps the tables sound
  // ---------------------------------------------------------------------------

  lemma FewerSemaphoresSound(g: Graph, unacquired: set<(nat, MemoryId)>, h: History,
                             semaphores: map<SemaphoreId, Semaphore>)
    requires SemaphoresSound(g, h.timeline, h.binary, h.seen, semaphores) && unacquired <= g.unacquired
    ensures SemaphoresSound(g.(unacquired := unacquired), h.timeline, h.binary, h.seen, semaphores)
  {
    var g' := g.(unacquired := unacquired);
    forall id | IsTimeline(semaphores, id)
      ensures TimelineSound(g', SignalsOf(h.timeline, id), ValueOf(h.seen, id), semaphores[id])
    {
      var s, all, seen := semaphores[id], SignalsOf(h.timeline, id), ValueOf(h.seen, id);
      assert TimelineSound(g, all, seen, s);
      var off := |all| - |s.signals|;
      forall i | 0 <= i < |s.signals| ensures RecordSound(g', s.signals[i], all[off + i], seen) {
        assert RecordSound(g, s.signals[i], all[off + i], seen);
        CoversFewer(g, unacquired, Point(s.signals[i].queue, s.signals[i].serial), s.signals[i].memoryIds);
      }
      forall i | 0 <= i < off ensures SettledSignal(g', all[i], seen) {
        assert SettledSignal(g, all[i], seen);
        CoversFewer(g, unacquired, Point(g.submissions[all[i].serial].queue, all[i].serial), {});
      }
    }
    forall id | id in h.binary
      ensures id in semaphores && BinarySound(g', h.binary[id], semaphores[id])
    {
      var s := semaphores[id];
      assert BinarySound(g, h.binary[id], s);
      CoversFewer(g, unacquired, Point(s.queue, s.serial), s.writes);
    }
  }

  /** Acquiring keeps every cover. */
  lemma AcquireSound(st: State, h: History, points: set<Point>, ids: set<MemoryId>)
    requires Sound(st, h)
    ensures Sound(st, h.(graph := Acquire(h.graph, points, ids)))
  {
    var g' := Acquire(h.graph, points, ids);
    FewerSemaphoresSound(h.graph, g'.unacquired, h, st.semaphores);
    forall q: QueueId
      ensures Covers(g', Point(q, st.nextSerial), QueueWrites(st.queueWrites, q))
    {
      CoversFewer(h.graph, g'.unacquired, Point(q, st.nextSerial), QueueWrites(st.queueWrites, q));
    }
    forall f | f in h.fences
      ensures Covers(g', h.fences[f], RecordedFence(st.fences, f))
    {
      CoversFewer(h.graph, g'.unacquired, h.fences[f], RecordedFence(st.fences, f));
    }
    AcquireWaiters(st, h, g'.unacquired);
  }

  lemma NobodyWaitsAcquired(g: Graph, unacquired: set<(nat, MemoryId)>, waiting: set<Waiter>, fewer: set<Waiter>,
                            point: Point)
    requires NobodyWaits(g, waiting, point) && fewer <= waiting
    ensures NobodyWaits(g.(unacquired := unacquired), fewer, point)
  {
    forall w | w in fewer ensures !Before(g.(unacquired := unacquired), w.serial, point) {
      BeforeAcquired(g, unacquired, w.serial, point);
    }
  }

  lemma AcquireWaiters(st: State, h: History, unacquired: set<(nat, MemoryId)>)
    requires WaitersSound(h.graph, h.waiting, h.timeline, h.fences, st)
    ensures WaitersSound(h.graph.(unacquired := unacquired), h.waiting, h.timeline, h.fences, st)
  {
    var g, g' := h.graph, h.graph.(unacquired := unacquired);
    forall w | w in h.waiting ensures Held(g', st.semaphores, w) { assert Held(g, st.semaphores, w); }
    forall f | f in h.fences ensures FenceKnown(g', h.waiting, st.fences, f, h.fences[f]) {
      assert FenceKnown(g, h.waiting, st.fences, f, h.fences[f]);
      if NobodyWaits(g, h.waiting, h.fences[f]) {
        NobodyWaitsAcquired(g, unacquired, h.waiting, h.waiting, h.fences[f]);
      }
    }
    forall id | IsTimeline(st.semaphores, id)
      ensures SettledUnwaited(g', h.waiting, SignalsOf(h.timeline, id), st.semaphores[id])
    {
      var all := SignalsOf(h.timeline, id);
      assert SettledUnwaited(g, h.waiting, all, st.semaphores[id]);
      forall i | 0 <= i < |all| - |st.semaphores[id].signals| && all[i].serial in g.submissions
        ensures NobodyWaits(g', h.waiting, Point(g.submissions[all[i].serial].queue, all[i].serial))
      {
        NobodyWaitsAcquired(g, unacquired, h.waiting, h.waiting, Point(g.submissions[all[i].serial].queue, all[i].serial));
      }
    }
  }

  lemma BeforeItsQueue(g: Graph, a: nat, at: Point)
    ensures Before(g, a, at) ==> exists n :: n in g.submissions && Before(g, a, Point(g.submissions[n].queue, n))
  {
    if Before(g, a, at) {
      var n :| InPoint(g, n, at) && Precedes(g, a, n);
      assert InPoint(g, n, Point(g.submissions[n].queue, n));
    }
  }

  /** What an observation shows is complete, and nothing before it waits. */
  lemma ShownWaitsForNothing(st: State, h: History, step: Step, f: FenceId)
    requires Allowed(st, h, step) && WellFormed(h.graph, st.nextSerial) && f in h.fences
    requires step.DeviceObserved? || (step.FencesObserved? && f in step.fences)
    ensures NobodyWaits(h.graph, h.waiting, h.fences[f])
  {
    if step.DeviceObserved? {
      forall n | n in h.graph.submissions
        ensures NobodyWaits(h.graph, h.waiting, Point(h.graph.submissions[n].queue, n))
      {
        assert Point(h.graph.submissions[n].queue, n) in Shown(st, h, step);
      }
      forall w | w in h.waiting ensures !Before(h.graph, w.serial, h.fences[f]) {
        BeforeItsQueue(h.graph, w.serial, h.fences[f]);
      }
    } else {
      assert h.fences[f] in Shown(st, h, step);
    }
  }

  /** What was refreshed may be forgotten: the positions shown ask for nothing any more. */
  lemma ObservationSound(st: State, h: History, step: Step)
    requires Sound(st, h) && Allowed(st, h, step)
    requires step.QueueObserved? || step.DeviceObserved? || step.FencesObserved?
    ensures Sound(Next(st, step), Record(st, h, step))
  {
    var points, ids := Shown(st, h, step), Refreshed(st, h, step);
    ShownCovered(st, h, step);
    AcquireSound(st, h, points, ids);
    AcquireCovering(h.graph, points, ids);
    var st', h' := Next(st, step), Record(st, h, step);
    if step.DeviceObserved? {
      forall a, m
        ensures (a, m) !in h'.graph.unacquired
      {
        if (a, m) in h.graph.unacquired {
          SelfBefore(h.graph, a, Point(h.graph.submissions[a].queue, a));
          assert Point(h.graph.submissions[a].queue, a) in points;
        }
      }
    }
    forall f | f in h'.fences
      ensures Covers(h'.graph, h'.fences[f], RecordedFence(st'.fences, f))
    {
      assert Covers(h'.graph, h.fences[f], RecordedFence(st.fences, f));
      if step.FencesObserved? && f in step.fences {
        assert h.fences[f] in points;
      }
    }
    ObservationWaiters(st, h, step);
  }

  lemma ObservationWaiters(st: State, h: History, step: Step)
    requires Sound(st, h) && Allowed(st, h, step)
    requires step.QueueObserved? || step.DeviceObserved? || step.FencesObserved?
    ensures var h' := Record(st, h, step); WaitersSound(h'.graph, h'.waiting, h'.timeline, h'.fences, Next(st, step))
  {
    var st', h' := Next(st, step), Record(st, h, step);
    AcquireWaiters(st, h, h'.graph.unacquired);
    forall f | f in h'.fences ensures FenceKnown(h'.graph, h'.waiting, st'.fences, f, h'.fences[f]) {
      assert FenceKnown(h'.graph, h.waiting, st.fences, f, h.fences[f]);
      if step.DeviceObserved? || (step.FencesObserved? && f in step.fences) {
        ShownWaitsForNothing(st, h, step, f);
        NobodyWaitsAcquired(h.graph, h'.graph.unacquired, h.waiting, h.waiting, h.fences[f]);
      }
    }
  }

  lemma {:induction false} AboveNone(signals: seq<TimelineSignal>, value: nat)
    requires forall i | 0 <= i < |signals| :: signals[i].value <= value
    ensures Above(signals, value) == []
    decreases |signals|
  {
    if signals != [] {
      AboveNone(signals[..|signals| - 1], value);
    }
  }

  /** Of signals in increasing order, those above a value are the last ones. */
  lemma {:induction false} AboveSuffix(signals: seq<TimelineSignal>, value: nat) returns (k: nat)
    requires forall i, j | 0 <= i < j < |signals| :: signals[i].value < signals[j].value
    ensures k <= |signals| && Above(signals, value) == signals[k..]
    ensures forall i | 0 <= i < k :: signals[i].value <= value
    ensures k < |signals| ==> signals[k].value > value
    decreases |signals|
  {
    var n := |signals| - 1;
    if signals == [] || signals[n].value <= value {
      AboveNone(signals, value);
      k := |signals|;
    } else {
      k := AboveSuffix(signals[..n], value);
      assert signals[k..] == signals[..n][k..] + [signals[n]];
    }
  }

  /** The records of the observed semaphore: those the value reaches become settled. */
  lemma CounterRecords(g: Graph, all: seq<Signal>, seen: nat, s: Semaphore, value: nat)
    requires TimelineSound(g, all, seen, s)
    requires forall i | |all| - |s.signals| <= i < |all| && all[i].value <= value ::
               all[i].serial in g.submissions
               && Covers(g, Point(g.submissions[all[i].serial].queue, all[i].serial), {})
    ensures var seen' := if seen > value then seen else value;
            TimelineSound(g, all, seen', s.(acquiredValue := seen', signals := Above(s.signals, value)))
  {
    hide Covers, Above;
    var off, seen' := |all| - |s.signals|, if seen > value then seen else value;
    forall i, j | 0 <= i < j < |s.signals| ensures s.signals[i].value < s.signals[j].value {
      assert RecordSound(g, s.signals[i], all[off + i], seen) && RecordSound(g, s.signals[j], all[off + j], seen);
    }
    var k := AboveSuffix(s.signals, value);
    var rest := s.signals[k..];
    forall i | 0 <= i < |rest|
      ensures RecordSound(g, rest[i], all[|all| - |rest| + i], seen')
    {
      assert RecordSound(g, s.signals[k + i], all[off + k + i], seen);
      assert s.signals[k].value <= s.signals[k + i].value;
    }
    forall i | 0 <= i < off + k
      ensures SettledSignal(g, all[i], seen')
    {
      if i < off {
        assert SettledSignal(g, all[i], seen);
      } else {
        assert RecordSound(g, s.signals[i - off], all[i], seen);
      }
    }
  }

  /** Nothing is left unacquired before a signal the observed value reaches. */
  lemma ReachedAcquired(st: State, h: History, id: SemaphoreId, value: nat, i: nat)
    requires Sound(st, h) && Allowed(st, h, CounterObserved(id, value))
    requires var all := SignalsOf(h.timeline, id);
             |all| - |st.semaphores[id].signals| <= i < |all| && all[i].value <= value
    ensures var step := CounterObserved(id, value);
            var g', signal := Acquire(h.graph, Shown(st, h, step), Refreshed(st, h, step)), SignalsOf(h.timeline, id)[i];
            signal.serial in g'.submissions
            && Covers(g', Point(g'.submissions[signal.serial].queue, signal.serial), {})
  {
    var step := CounterObserved(id, value);
    var s, all, seen := st.semaphores[id], SignalsOf(h.timeline, id), ValueOf(h.seen, id);
    assert TimelineSound(h.graph, all, seen, s);
    assert RecordSound(h.graph, s.signals[i - (|all| - |s.signals|)], all[i], seen);
    assert Point(h.graph.submissions[all[i].serial].queue, all[i].serial) in Shown(st, h, step);
    ShownCovered(st, h, step);
    AcquireCovering(h.graph, Shown(st, h, step), Refreshed(st, h, step));
  }

  lemma CounterTimeline(st: State, h: History, id: SemaphoreId, value: nat)
    requires Sound(st, h) && Allowed(st, h, CounterObserved(id, value))
    ensures var step := CounterObserved(id, value);
            TimelineSound(Acquire(h.graph, Shown(st, h, step), Refreshed(st, h, step)), SignalsOf(h.timeline, id),
                          ValueOf(Raise(h.seen, id, value), id), Next(st, step).semaphores[id])
  {
    hide Acquire, Shown, NobodyWaits, WaitersSound;
    var step := CounterObserved(id, value);
    var points, ids := Shown(st, h, step), Refreshed(st, h, step);
    var g', s, all := Acquire(h.graph, points, ids), st.semaphores[id], SignalsOf(h.timeline, id);
    AcquireSound(st, h, points, ids);
    forall i | |all| - |s.signals| <= i < |all| && all[i].value <= value
      ensures all[i].serial in g'.submissions
              && Covers(g', Point(g'.submissions[all[i].serial].queue, all[i].serial), {})
    {
      ReachedAcquired(st, h, id, value, i);
    }
    CounterRecords(g', all, ValueOf(h.seen, id), s, value);
  }

  lemma CounterSound(st: State, h: History, id: SemaphoreId, value: nat)
    requires Sound(st, h) && Allowed(st, h, CounterObserved(id, value))
    ensures Sound(Next(st, CounterObserved(id, value)), Record(st, h, CounterObserved(id, value)))
  {
    hide Acquire, Shown, TimelineSound, Covering, WaitersSound;
    var step := CounterObserved(id, value);
    AcquireSound(st, h, Shown(st, h, step), Refreshed(st, h, step));
    CounterTimeline(st, h, id, value);
    CounterElsewhere(st, h, id, value);
    CounterWaiters(st, h, id, value);
  }

  /** The signals whose records a counter value retires were shown, so nothing before them waits. */
  lemma RetiredShown(st: State, h: History, id: SemaphoreId, value: nat, i: nat)
    requires Sound(st, h) && Allowed(st, h, CounterObserved(id, value))
    requires var all := SignalsOf(h.timeline, id);
             i < |all| - |Above(st.semaphores[id].signals, value)| && all[i].serial in h.graph.submissions
    ensures var signal := SignalsOf(h.timeline, id)[i];
            NobodyWaits(h.graph, h.waiting, Point(h.graph.submissions[signal.serial].queue, signal.serial))
  {
    var all, s, seen := SignalsOf(h.timeline, id), st.semaphores[id], ValueOf(h.seen, id);
    var off, at := |all| - |s.signals|, Point(h.graph.submissions[all[i].serial].queue, all[i].serial);
    assert TimelineSound(h.graph, all, seen, s) && SettledUnwaited(h.graph, h.waiting, all, s);
    if i >= off {
      RecordsIncrease(h.graph, all, seen, s);
      hide Sound, NobodyWaits, TimelineSound, SettledUnwaited;
      var k := AboveSuffix(s.signals, value);
      assert s.signals[i - off].value == all[i].value;
      assert at in Shown(st, h, CounterObserved(id, value));
    }
  }

  lemma RecordsIncrease(g: Graph, all: seq<Signal>, seen: nat, s: Semaphore)
    requires TimelineSound(g, all, seen, s)
    ensures forall j, l | 0 <= j < l < |s.signals| :: s.signals[j].value < s.signals[l].value
    ensures forall j | 0 <= j < |s.signals| :: s.signals[j].value == all[|all| - |s.signals| + j].value
  {
    var off := |all| - |s.signals|;
    forall j | 0 <= j < |s.signals| ensures s.signals[j].value == all[off + j].value {
      assert RecordSound(g, s.signals[j], all[off + j], seen);
    }
    hide RecordSound;
  }

  lemma CounterWaiters(st: State, h: History, id: SemaphoreId, value: nat)
    requires Sound(st, h) && Allowed(st, h, CounterObserved(id, value))
    ensures var step := CounterObserved(id, value);
            var h' := Record(st, h, step); WaitersSound(h'.graph, h'.waiting, h'.timeline, h'.fences, Next(st, step))
  {
    var step := CounterObserved(id, value);
    var st', h' := Next(st, step), Record(st, h, step);
    var u := h'.graph.unacquired;
    forall w | w in h'.waiting ensures Held(h'.graph, st'.semaphores, w) { assert Held(h.graph, st.semaphores, w); }
    forall f | f in h'.fences ensures FenceKnown(h'.graph, h'.waiting, st'.fences, f, h'.fences[f]) {
      assert FenceKnown(h.graph, h.waiting, st.fences, f, h.fences[f]);
      if NobodyWaits(h.graph, h.waiting, h.fences[f]) {
        NobodyWaitsAcquired(h.graph, u, h.waiting, h'.waiting, h.fences[f]);
      }
    }
    forall other | IsTimeline(st'.semaphores, other)
      ensures SettledUnwaited(h'.graph, h'.waiting, SignalsOf(h'.timeline, other), st'.semaphores[other])
    {
      var all := SignalsOf(h.timeline, other);
      assert IsTimeline(st.semaphores, other);
      forall i | 0 <= i < |all| - |st'.semaphores[other].signals| && all[i].serial in h.graph.submissions
        ensures NobodyWaits(h'.graph, h'.waiting, Point(h.graph.submissions[all[i].serial].queue, all[i].serial))
      {
        if other == id {
          RetiredShown(st, h, id, value, i);
        } else {
          assert SettledUnwaited(h.graph, h.waiting, all, st.semaphores[other]);
        }
        NobodyWaitsAcquired(h.graph, u, h.waiting, h'.waiting, Point(h.graph.submissions[all[i].serial].queue, all[i].serial));
      }
    }
  }

  lemma CounterElsewhere(st: State, h: History, id: SemaphoreId, value: nat)
    requires IsTimeline(st.semaphores, id)
    requires var step := CounterObserved(id, value);
             var g' := Acquire(h.graph, Shown(st, h, step), Refreshed(st, h, step));
             && Covering(st, h.(graph := g'))
             && TimelineSound(g', SignalsOf(h.timeline, id), ValueOf(Raise(h.seen, id, value), id),
                              Next(st, step).semaphores[id])
    ensures Covering(Next(st, CounterObserved(id, value)), Record(st, h, CounterObserved(id, value)))
  {
    var step := CounterObserved(id, value);
    var st', h' := Next(st, step), Record(st, h, step);
    forall other | IsTimeline(st'.semaphores, other)
      ensures TimelineSound(h'.graph, SignalsOf(h'.timeline, other), ValueOf(h'.seen, other), st'.semaphores[other])
    {
      if other != id {
        assert IsTimeline(st.semaphores, other);
      }
    }
    forall other | other in h'.binary
      ensures other in st'.semaphores && BinarySound(h'.graph, h'.binary[other], st'.semaphores[other])
    {
      assert BinarySound(h'.graph, h.binary[other], st.semaphores[other]);
    }
  }

  lemma {:induction false} WaitsAboveKeeps(waits: seq<PendingWait>, value: nat, w: PendingWait)
    requires w in waits && w.value > value
    ensures w in WaitsAbove(waits, value)
    decreases |waits|
  {
    var n := |waits| - 1;
    if w in waits[..n] {
      WaitsAboveKeeps(waits[..n], value, w);
    }
  }

  lemma FewerWait(g: Graph, waiting: set<Waiter>, fewer: set<Waiter>, all: seq<Signal>, s: Semaphore,
                  pending: seq<PendingWait>)
    requires SettledUnwaited(g, waiting, all, s) && fewer <= waiting
    ensures SettledUnwaited(g, fewer, all, s.(pending := pending))
  {
  }

  lemma FewerWaitForFence(g: Graph, waiting: set<Waiter>, fewer: set<Waiter>, a: map<FenceId, FenceRecord>,
                          b: map<FenceId, FenceRecord>, f: FenceId, at: Point)
    requires FenceKnown(g, waiting, a, f, at) && fewer <= waiting
    requires f in a ==> f in b && b[f] == a[f]
    ensures FenceKnown(g, fewer, b, f, at)
  {
  }

  lemma StillHeld(st: State, h: History, step: Step, w: Waiter)
    requires Held(h.graph, st.semaphores, w) && w in Record(st, h, step).waiting
    requires step.HostSignals? || step.FencesDropped?
             || (step.Creates? && step.id !in st.semaphores) || (step.Destroys? && step.id != w.id)
    ensures Held(Record(st, h, step).graph, Next(st, step).semaphores, w)
  {
    var p :| p in st.semaphores[w.id].pending && p.value == w.value && p.serial == w.serial
             && p.queue == h.graph.submissions[w.serial].queue;
    if step.HostSignals? && step.id == w.id {
      WaitsAboveKeeps(st.semaphores[w.id].pending, step.value, p);
    }
    assert p in Next(st, step).semaphores[w.id].pending;
  }

  lemma SemaphoreStepWaiters(st: State, h: History, step: Step)
    requires Sound(st, h) && Allowed(st, h, step)
    requires step.HostSignals? || step.Creates? || step.Destroys? || step.FencesDropped?
    ensures var h' := Record(st, h, step); WaitersSound(h'.graph, h'.waiting, h'.timeline, h'.fences, Next(st, step))
  {
    hide Covering, SettledUnwaited, FenceKnown, Held, NobodyWaits;
    var st', h' := Next(st, step), Record(st, h, step);
    forall w | w in h'.waiting ensures Held(h'.graph, st'.semaphores, w) {
      StillHeld(st, h, step, w);
    }
    forall f | f in h'.fences ensures FenceKnown(h'.graph, h'.waiting, st'.fences, f, h'.fences[f]) {
      FewerWaitForFence(h.graph, h.waiting, h'.waiting, st.fences, st'.fences, f, h.fences[f]);
    }
    forall id | IsTimeline(st'.semaphores, id)
      ensures SettledUnwaited(h'.graph, h'.waiting, SignalsOf(h'.timeline, id), st'.semaphores[id])
    {
      if id in st.semaphores {
        FewerWait(h.graph, h.waiting, h'.waiting, SignalsOf(h.timeline, id), st.semaphores[id],
                  st'.semaphores[id].pending);
      } else {
        NewTimeline(h.graph, h'.waiting);
      }
    }
  }

  lemma NewTimeline(g: Graph, waiting: set<Waiter>)
    ensures TimelineSound(g, [], 0, NewSemaphore(true)) && SettledUnwaited(g, waiting, [], NewSemaphore(true))
  {
  }

  lemma AnyPending(g: Graph, all: seq<Signal>, seen: nat, serial: nat, s: Semaphore, pending: seq<PendingWait>)
    ensures TimelineSound(g, all, seen, s) ==> TimelineSound(g, all, seen, s.(pending := pending))
    ensures BinarySound(g, serial, s) ==> BinarySound(g, serial, s.(pending := pending))
  {
  }

  lemma SemaphoreStepCovering(st: State, h: History, step: Step)
    requires Covering(st, h)
    requires step.HostSignals? || step.Destroys? || step.FencesDropped?
             || (step.Creates? && step.id !in st.semaphores && step.id !in h.timeline && step.id !in h.seen)
    ensures Covering(Next(st, step), Record(st, h, step))
  {
    hide TimelineSound, BinarySound, Covers;
    var st', h' := Next(st, step), Record(st, h, step);
    forall id | IsTimeline(st'.semaphores, id)
      ensures TimelineSound(h'.graph, SignalsOf(h'.timeline, id), ValueOf(h'.seen, id), st'.semaphores[id])
    {
      if id in st.semaphores {
        AnyPending(h.graph, SignalsOf(h.timeline, id), ValueOf(h.seen, id), 0, st.semaphores[id],
                   st'.semaphores[id].pending);
      } else {
        NewTimeline(h.graph, {});
      }
    }
    forall id | id in h'.binary
      ensures id in st'.semaphores && BinarySound(h'.graph, h'.binary[id], st'.semaphores[id])
    {
      AnyPending(h.graph, [], 0, h.binary[id], st.semaphores[id], st'.semaphores[id].pending);
    }
  }

  /** The steps that only touch semaphore entries. */
  lemma SemaphoreStepSound(st: State, h: History, step: Step)
    requires Sound(st, h) && Allowed(st, h, step)
    requires step.HostSignals? || step.Creates? || step.Destroys? || step.FencesDropped?
    ensures Sound(Next(st, step), Record(st, h, step))
  {
    SemaphoreStepCovering(st, h, step);
    SemaphoreStepWaiters(st, h, step);
  }

  /** Every step keeps every table covering what precedes the completion it stands for. */
  lemma StepSound(st: State, h: History, step: Step)
    requires Sound(st, h) && Allowed(st, h, step)
    ensures Sound(Next(st, step), Record(st, h, step))
  {
    match step
    case Submits(queue, batches, fence, accepted) =>
      if accepted {
        SubmitSound(st, h, queue, batches, fence);
      } else {
        ReservedCovering(st, h, queue, |batches|);
      }
    case CounterObserved(id, value) => CounterSound(st, h, id, value);
    case QueueObserved(_) => ObservationSound(st, h, step);
    case DeviceObserved => ObservationSound(st, h, step);
    case FencesObserved(_) => ObservationSound(st, h, step);
    case HostSignals(_, _) => SemaphoreStepSound(st, h, step);
    case Creates(_, _) => SemaphoreStepSound(st, h, step);
    case Destroys(_) => SemaphoreStepSound(st, h, step);
    case FencesDropped(_) => SemaphoreStepSound(st, h, step);
  }

  // ---------------------------------------------------------------------------
  // Runs
  // ---------------------------------------------------------------------------

  ghost function Run(steps: seq<Step>): (State, History) {
    if steps == [] then (INITIAL, EMPTY)
    else
      var (st, h) := Run(steps[..|steps| - 1]);
      (Next(st, steps[|steps| - 1]), Record(st, h, steps[|steps| - 1]))
  }

  ghost predicate RunAllowed(steps: seq<Step>) {
    if steps == [] then true
    else
      var (st, h) := Run(steps[..|steps| - 1]);
      RunAllowed(steps[..|steps| - 1]) && Allowed(st, h, steps[|steps| - 1])
  }

  lemma {:induction false} RunSound(steps: seq<Step>)
    requires RunAllowed(steps)
    ensures Sound(Run(steps).0, Run(steps).1)
    decreases |steps|
  {
    if steps == [] {
      forall q: QueueId ensures Covers(EMPTY.graph, Point(q, 1), {}) {}
    } else {
      RunSound(steps[..|steps| - 1]);
      var (st, h) := Run(steps[..|steps| - 1]);
      StepSound(st, h, steps[|steps| - 1]);
    }
  }

  /** In every run, an observation refreshes every memory with an unacquired write by a submission
      that precedes what the observation shows, through any chain of queue order and semaphore
      dependencies; what is left unacquired afterwards is exactly what does not precede it. */
  lemma ObservationAcquires(steps: seq<Step>, step: Step)
    requires RunAllowed(steps + [step])
    ensures var (st, h) := Run(steps);
            var h' := Run(steps + [step]).1;
            && (forall a, m | (a, m) in h.graph.unacquired && BeforeAny(h.graph, a, Shown(st, h, step)) ::
                  m in Refreshed(st, h, step))
            && (step.QueueObserved? || step.DeviceObserved? || step.FencesObserved? || step.CounterObserved? ==>
                  forall a, m :: (a, m) in h'.graph.unacquired
                                 <==> (a, m) in h.graph.unacquired && !BeforeAny(h.graph, a, Shown(st, h, step)))
  {
    assert (steps + [step])[..|steps|] == steps;
    RunSound(steps);
    var (st, h) := Run(steps);
    ShownCovered(st, h, step);
    AcquireCovering(h.graph, Shown(st, h, step), Refreshed(st, h, step));
    forall a, m | (a, m) in h.graph.unacquired && BeforeAny(h.graph, a, Shown(st, h, step))
      ensures m in Refreshed(st, h, step)
    {
      var p :| p in Shown(st, h, step) && Before(h.graph, a, p);
      assert Covers(h.graph, p, Refreshed(st, h, step));
    }
  }
}
