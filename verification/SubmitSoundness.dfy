/** A submit call keeps every provenance table covering what precedes the completion it stands for. */
module SubmitSoundness {
  import opened Options
  import opened Provenance
  import opened Precedence
  import opened HappensBefore
  import opened SignalCommits
  import opened SubmitPlan

  // ---------------------------------------------------------------------------
  // Propagation only adds memories
  // ---------------------------------------------------------------------------

  predicate RecordGrew(a: TimelineSignal, b: TimelineSignal) {
    a.value == b.value && a.queue == b.queue && a.serial == b.serial && a.memoryIds <= b.memoryIds
  }

  predicate SemaphoreGrew(a: Semaphore, b: Semaphore) {
    && b.timeline == a.timeline && b.signaled == a.signaled && b.queue == a.queue && b.serial == a.serial
    && b.acquiredValue == a.acquiredValue && b.acquiredWrites == a.acquiredWrites
    && a.writes <= b.writes && |a.signals| == |b.signals|
    && forall i | 0 <= i < |a.signals| :: RecordGrew(a.signals[i], b.signals[i])
  }

  predicate SemaphoresGrew(a: map<SemaphoreId, Semaphore>, b: map<SemaphoreId, Semaphore>) {
    && (forall id | id in a :: id in b && SemaphoreGrew(a[id], b[id]))
    && (forall id | id in b && id !in a :: !b[id].timeline)
  }

  /** The tables that are not semaphores only grow. */
  ghost predicate QueuesAndFencesGrew(a: State, b: State) {
    && b.nextSerial == a.nextSerial
    && (forall q: QueueId :: QueueWrites(a.queueWrites, q) <= QueueWrites(b.queueWrites, q))
    && (forall f: FenceId :: RecordedFence(a.fences, f) <= RecordedFence(b.fences, f))
  }

  lemma WokenGrows(a: State, b: State, signal: PlannedSignal, waits: seq<PendingWait>)
    requires Woken(a, b, signal, waits)
    ensures QueuesAndFencesGrew(a, b) && SemaphoresGrew(a.semaphores, b.semaphores)
  {
    forall q: QueueId ensures QueueWrites(a.queueWrites, q) <= QueueWrites(b.queueWrites, q) {}
    forall id | id in a.semaphores ensures id in b.semaphores && SemaphoreGrew(a.semaphores[id], b.semaphores[id]) {
      assert b.semaphores[id] == Extended(a.semaphores[id], signal, waits);
    }
  }

  lemma CommitSignalGrows(st: State, queue: QueueId, signal: PlannedSignal)
    ensures QueuesAndFencesGrew(st, CommitSignal(st, queue, signal))
    ensures var s := RecordSignal(SemaphoreAt(st.semaphores, signal.id), queue, signal);
            SemaphoresGrew(st.semaphores[signal.id := s], CommitSignal(st, queue, signal).semaphores)
  {
    hide CommitSignal, Woken, SemaphoreGrew, RecordSignal;
    CommitSignalExactly(st, queue, signal);
    var s, st' := RecordSignal(SemaphoreAt(st.semaphores, signal.id), queue, signal), CommitSignal(st, queue, signal);
    var recorded := st.(semaphores := st.semaphores[signal.id := s]);
    var woken := st'.(semaphores := st'.semaphores[signal.id := st'.semaphores[signal.id].(pending := s.pending)]);
    WokenGrows(recorded, woken, signal, s.pending);
    SamePendingGrew(s, woken.semaphores[signal.id], st'.semaphores[signal.id].pending);
  }

  lemma SamePendingGrew(a: Semaphore, b: Semaphore, pending: seq<PendingWait>)
    requires SemaphoreGrew(a, b)
    ensures SemaphoreGrew(a, b.(pending := pending))
  {
  }

  /** Larger sets cover as well. */
  lemma SoundGrows(g: Graph, timeline: map<SemaphoreId, seq<Signal>>, binary: map<SemaphoreId, nat>,
                   seen: map<SemaphoreId, nat>, a: map<SemaphoreId, Semaphore>, b: map<SemaphoreId, Semaphore>)
    requires SemaphoresSound(g, timeline, binary, seen, a) && SemaphoresGrew(a, b)
    ensures SemaphoresSound(g, timeline, binary, seen, b)
  {
    forall id | IsTimeline(b, id)
      ensures TimelineSound(g, SignalsOf(timeline, id), ValueOf(seen, id), b[id])
    {
      assert IsTimeline(a, id);
      var all, value := SignalsOf(timeline, id), ValueOf(seen, id);
      assert TimelineSound(g, all, value, a[id]);
      forall i | 0 <= i < |b[id].signals|
        ensures RecordSound(g, b[id].signals[i], all[|all| - |b[id].signals| + i], value)
      {
        assert RecordSound(g, a[id].signals[i], all[|all| - |a[id].signals| + i], value);
        assert RecordGrew(a[id].signals[i], b[id].signals[i]);
      }
    }
    forall id | id in binary
      ensures id in b && BinarySound(g, binary[id], b[id])
    {
      assert BinarySound(g, binary[id], a[id]);
    }
  }

  // ---------------------------------------------------------------------------
  // Committing the plan
  // ---------------------------------------------------------------------------

  /** The records made before the call stay sound in the graph the call extends. */
  lemma EarlierRecordsSound(c: Call, g: Graph)
    requires CallSound(c) && GraphExtends(c, g) && Kept(c, g)
    ensures SemaphoresSound(g, c.history.timeline, c.history.binary, c.history.seen, c.semaphores)
  {
    var g0 := c.history.graph;
    forall id | IsTimeline(c.semaphores, id)
      ensures TimelineSound(g, SignalsOf(c.history.timeline, id), ValueOf(c.history.seen, id), c.semaphores[id])
    {
      var s, all, seen := c.semaphores[id], SignalsOf(c.history.timeline, id), ValueOf(c.history.seen, id);
      assert TimelineSound(g0, all, seen, s);
      var off := |all| - |s.signals|;
      forall i | 0 <= i < |s.signals|
        ensures RecordSound(g, s.signals[i], all[off + i], seen)
      {
        assert RecordSound(g0, s.signals[i], all[off + i], seen);
        assert Earlier(c, Point(s.signals[i].queue, s.signals[i].serial));
      }
      forall i | 0 <= i < off
        ensures SettledSignal(g, all[i], seen)
      {
        assert SettledSignal(g0, all[i], seen);
        assert Earlier(c, Point(g0.submissions[all[i].serial].queue, all[i].serial));
      }
    }
    forall id | id in c.history.binary
      ensures id in c.semaphores && BinarySound(g, c.history.binary[id], c.semaphores[id])
    {
      var s := c.semaphores[id];
      assert BinarySound(g0, c.history.binary[id], s);
      assert Earlier(c, Point(s.queue, s.serial));
    }
  }

  lemma {:induction false} PendingGrows(semaphores: map<SemaphoreId, Semaphore>, waits: seq<PlannedWait>)
    ensures SemaphoresGrew(semaphores, AddPending(semaphores, waits))
    decreases |waits|
  {
    if waits != [] {
      PendingGrows(semaphores, waits[..|waits| - 1]);
    }
  }

  /** A consumed semaphore no longer stands for a signal. */
  lemma ConsumeSound(g: Graph, timeline: map<SemaphoreId, seq<Signal>>, binary: map<SemaphoreId, nat>,
                     seen: map<SemaphoreId, nat>, semaphores: map<SemaphoreId, Semaphore>, ids: set<SemaphoreId>)
    requires SemaphoresSound(g, timeline, binary, seen, semaphores)
    ensures SemaphoresSound(g, timeline, binary - ids, seen, ConsumeAll(semaphores, ids))
  {
    var consumed := ConsumeAll(semaphores, ids);
    forall id | IsTimeline(consumed, id)
      ensures TimelineSound(g, SignalsOf(timeline, id), ValueOf(seen, id), consumed[id])
    {
      assert IsTimeline(semaphores, id);
      assert TimelineSound(g, SignalsOf(timeline, id), ValueOf(seen, id), semaphores[id]);
    }
    forall id | id in binary - ids
      ensures id in consumed && BinarySound(g, (binary - ids)[id], consumed[id])
    {
      assert BinarySound(g, binary[id], semaphores[id]);
    }
  }

  predicate KindsKept(a: map<SemaphoreId, Semaphore>, b: map<SemaphoreId, Semaphore>) {
    && (forall id | id in a :: id in b && b[id].timeline == a[id].timeline)
    && (forall id | id in b && id !in a :: !b[id].timeline)
  }

  /** The tables after committing the first `k` signals of the plan. */
  ghost predicate Committed(c: Call, g: Graph, base: map<SemaphoreId, nat>, signals: seq<PlannedSignal>, k: nat, st: State)
    requires k <= |signals|
  {
    && SemaphoresSound(g, TimelineAfter(c.history.timeline, signals[..k]), BinaryAfter(base, signals[..k]),
                       c.history.seen, st.semaphores)
    && KindsKept(c.semaphores, st.semaphores)
  }

  lemma RecordedSound(c: Call, g: Graph, base: map<SemaphoreId, nat>, signals: seq<PlannedSignal>, k: nat, st: State)
    requires k < |signals| && Committed(c, g, base, signals, k, st)
    requires PlannedSound(c, g, signals, k)
    ensures var s := RecordSignal(SemaphoreAt(st.semaphores, signals[k].id), c.queue, signals[k]);
            SemaphoresSound(g, TimelineAfter(c.history.timeline, signals[..k + 1]), BinaryAfter(base, signals[..k + 1]),
                            c.history.seen, st.semaphores[signals[k].id := s])
  {
    var signal, before := signals[k], TimelineAfter(c.history.timeline, signals[..k]);
    var s := RecordSignal(SemaphoreAt(st.semaphores, signal.id), c.queue, signal);
    var after, semaphores := TimelineAfter(c.history.timeline, signals[..k + 1]), st.semaphores[signal.id := s];
    assert signals[..k + 1][..k] == signals[..k];
    var seen := c.history.seen;
    forall id | IsTimeline(semaphores, id)
      ensures TimelineSound(g, SignalsOf(after, id), ValueOf(seen, id), semaphores[id])
    {
      assert IsTimeline(st.semaphores, id);
      assert TimelineSound(g, SignalsOf(before, id), ValueOf(seen, id), st.semaphores[id]);
      if id == signal.id {
        RecordOneMore(g, SignalsOf(before, id), ValueOf(seen, id), st.semaphores[id], c.queue, signal);
      }
    }
    var binary, binary' := BinaryAfter(base, signals[..k]), BinaryAfter(base, signals[..k + 1]);
    forall id | id in binary'
      ensures id in semaphores && BinarySound(g, binary'[id], semaphores[id])
    {
      if id != signal.id || signal.timeline {
        assert BinarySound(g, binary[id], st.semaphores[id]);
      }
    }
  }

  lemma RecordOneMore(g: Graph, all: seq<Signal>, seen: nat, s: Semaphore, queue: QueueId, signal: PlannedSignal)
    requires s.timeline && signal.timeline && TimelineSound(g, all, seen, s)
    requires signal.serial in g.submissions && g.submissions[signal.serial].queue == queue
    requires Covers(g, Point(queue, signal.serial), signal.memoryIds)
    requires signal.value > seen && forall e | e in all :: e.value < signal.value
    ensures TimelineSound(g, all + [Signal(signal.value, signal.serial)], seen, RecordSignal(s, queue, signal))
  {
    var all', s' := all + [Signal(signal.value, signal.serial)], RecordSignal(s, queue, signal);
    var off := |all| - |s.signals|;
    forall i | 0 <= i < |s'.signals|
      ensures RecordSound(g, s'.signals[i], all'[|all'| - |s'.signals| + i], seen)
    {
      if i < |s.signals| {
        assert RecordSound(g, s.signals[i], all[off + i], seen);
      }
    }
    forall i | 0 <= i < |all'| - |s'.signals|
      ensures SettledSignal(g, all'[i], seen)
    {
      assert SettledSignal(g, all[i], seen);
    }
  }

  lemma OneSignalCommitted(c: Call, g: Graph, base: map<SemaphoreId, nat>, signals: seq<PlannedSignal>, k: nat,
                           st: State)
    requires k < |signals| && Committed(c, g, base, signals, k, st) && PlannedSound(c, g, signals, k)
    ensures Committed(c, g, base, signals, k + 1, CommitSignal(st, c.queue, signals[k]))
    ensures QueuesAndFencesGrew(st, CommitSignal(st, c.queue, signals[k]))
  {
    var signal := signals[k];
    var s := RecordSignal(SemaphoreAt(st.semaphores, signal.id), c.queue, signal);
    RecordedSound(c, g, base, signals, k, st);
    CommitSignalGrows(st, c.queue, signal);
    SoundGrows(g, TimelineAfter(c.history.timeline, signals[..k + 1]), BinaryAfter(base, signals[..k + 1]),
               c.history.seen, st.semaphores[signal.id := s], CommitSignal(st, c.queue, signal).semaphores);
  }

  lemma {:induction false} SignalsCommitted(c: Call, g: Graph, base: map<SemaphoreId, nat>,
                                            signals: seq<PlannedSignal>, k: nat, st: State)
    requires k <= |signals| && Committed(c, g, base, signals, 0, st)
    requires forall i | 0 <= i < |signals| :: PlannedSound(c, g, signals, i)
    ensures Committed(c, g, base, signals, k, CommitSignals(st, c.queue, signals[..k]))
    ensures QueuesAndFencesGrew(st, CommitSignals(st, c.queue, signals[..k]))
    decreases k
  {
    if k > 0 {
      SignalsCommitted(c, g, base, signals, k - 1, st);
      assert signals[..k][..k - 1] == signals[..k - 1];
      OneSignalCommitted(c, g, base, signals, k - 1, CommitSignals(st, c.queue, signals[..k - 1]));
    }
  }

  // ---------------------------------------------------------------------------
  // The call
  // ---------------------------------------------------------------------------

  /** The serials of the call are spent, and nothing it does not contain is asked for. */
  lemma ReservedCovering(st: State, h: History, queue: QueueId, count: nat)
    requires Covering(st, h)
    ensures Covering(Reserved(st, queue, count), h)
  {
    var st' := Reserved(st, queue, count);
    forall q: QueueId
      ensures Covers(h.graph, Point(q, st'.nextSerial), QueueWrites(st'.queueWrites, q))
    {
      CoversWithin(h.graph, Point(q, st.nextSerial), Point(q, st'.nextSerial), QueueWrites(st.queueWrites, q));
    }
  }

  /** The queue sets and fence records a commit leaves, before it records the call's own fence. */
  lemma QueuesCommitted(st: State, c: Call, n: nat, h': History, plan: Plan, reserved: State, st': State)
    requires Covering(st, c.history) && c.first == st.nextSerial && Planned(c, h', n, plan)
    requires reserved.queueWrites.Keys >= st.queueWrites.Keys && reserved.fences == st.fences
    requires forall q: QueueId :: QueueWrites(reserved.queueWrites, q) == QueueWrites(st.queueWrites, q)
    requires n <= reserved.nextSerial
    requires QueuesAndFencesGrew(reserved.(queueWrites := reserved.queueWrites[c.queue := plan.next]), st')
    ensures forall q: QueueId :: Covers(h'.graph, Point(q, st'.nextSerial), QueueWrites(st'.queueWrites, q))
    ensures forall f | f in c.history.fences :: Covers(h'.graph, c.history.fences[f], RecordedFence(st'.fences, f))
  {
    var g, next := h'.graph, plan.next;
    var planned := reserved.(queueWrites := reserved.queueWrites[c.queue := next]);
    forall q: QueueId
      ensures Covers(g, Point(q, st'.nextSerial), QueueWrites(st'.queueWrites, q))
    {
      assert QueueWrites(planned.queueWrites, q) <= QueueWrites(st'.queueWrites, q);
      if q == c.queue {
        CoversWithin(g, Point(q, n), Point(q, st'.nextSerial), next);
        CoversMore(g, Point(q, st'.nextSerial), next, QueueWrites(st'.queueWrites, q));
      } else {
        assert Earlier(c, Point(q, st.nextSerial));
        assert Covers(g, Point(q, st.nextSerial), QueueWrites(st.queueWrites, q));
        CoversWithin(g, Point(q, st.nextSerial), Point(q, st'.nextSerial), QueueWrites(st.queueWrites, q));
        CoversMore(g, Point(q, st'.nextSerial), QueueWrites(st.queueWrites, q), QueueWrites(st'.queueWrites, q));
      }
    }
    forall f | f in c.history.fences
      ensures Covers(g, c.history.fences[f], RecordedFence(st'.fences, f))
    {
      assert Earlier(c, c.history.fences[f]);
      assert RecordedFence(st.fences, f) <= RecordedFence(st'.fences, f);
      CoversMore(g, c.history.fences[f], RecordedFence(st.fences, f), RecordedFence(st'.fences, f));
    }
  }

  lemma PlanningSound(c: Call, g: Graph, plan: Plan, semaphores: map<SemaphoreId, Semaphore>, st: State)
    requires CallSound(c) && GraphExtends(c, g) && Kept(c, g)
    requires semaphores == ConsumeAll(AddPending(c.semaphores, plan.waits), plan.consumed)
    requires st.semaphores == semaphores
    ensures Committed(c, g, c.history.binary - plan.consumed, plan.signals, 0, st)
  {
    var h, added := c.history, AddPending(c.semaphores, plan.waits);
    EarlierRecordsSound(c, g);
    PendingGrows(c.semaphores, plan.waits);
    SoundGrows(g, h.timeline, h.binary, h.seen, c.semaphores, added);
    ConsumeSound(g, h.timeline, h.binary, h.seen, added, plan.consumed);
    assert plan.signals[..0] == [];
  }

  lemma SemaphoresCommitted(c: Call, h: History, n: nat, plan: Plan, planned: State)
    requires CallSound(c) && Planned(c, h, n, plan)
    requires planned.semaphores == ConsumeAll(AddPending(c.semaphores, plan.waits), plan.consumed)
    ensures var st := CommitSignals(planned, c.queue, plan.signals);
            && QueuesAndFencesGrew(planned, st) && KindsKept(c.semaphores, st.semaphores)
            && SemaphoresSound(h.graph, h.timeline, h.binary, h.seen, st.semaphores)
  {
    var base := c.history.binary - plan.consumed;
    PlanningSound(c, h.graph, plan, planned.semaphores, planned);
    SignalsCommitted(c, h.graph, base, plan.signals, |plan.signals|, planned);
    assert plan.signals[..|plan.signals|] == plan.signals;
    var semaphores := CommitSignals(planned, c.queue, plan.signals).semaphores;
    forall id | id in h.binary
      ensures id in semaphores && BinarySound(h.graph, h.binary[id], semaphores[id])
    {
      assert id in BinaryAfter(base, plan.signals) && BinaryAfter(base, plan.signals)[id] == h.binary[id];
    }
  }

  /** The tables the plan's own update leaves, before the signals are committed. */
  function Planning(st: State, queue: QueueId, plan: Plan, count: nat): State {
    var reserved := Reserved(st, queue, count);
    reserved.(queueWrites := reserved.queueWrites[queue := plan.next],
              semaphores := ConsumeAll(AddPending(st.semaphores, plan.waits), plan.consumed))
  }

  /** Committing the signals of an accepted call keeps every entry covering, as long as nobody counts
      the dependencies the call completes. */
  lemma SignalsCovering(st: State, c: Call, count: nat, h': History, plan: Plan)
    requires Covering(st, c.history) && CallSound(c)
    requires c.semaphores == st.semaphores && c.first == st.nextSerial
    requires Planned(c, h', c.first + count, plan)
    ensures Covering(CommitSignals(Planning(st, c.queue, plan, count), c.queue, plan.signals), h')
  {
    hide TimelineSound, KindsKept, PlannedSound, CommitSignals;
    var planned := Planning(st, c.queue, plan, count);
    SemaphoresCommitted(c, h', c.first + count, plan, planned);
    var signaled := CommitSignals(planned, c.queue, plan.signals);
    QueuesCommitted(st, c, c.first + count, h', plan, Reserved(st, c.queue, count), signaled);
  }
}
