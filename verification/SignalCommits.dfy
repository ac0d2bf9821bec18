/** What committing a planned signal changes, exactly: the waits it satisfies leave, and what they
    reach receives the signal's memories.
  */
module SignalCommits {
  import opened Provenance

  /** Some satisfied wait was submitted to `queue` no later than `serial`. */
  predicate Reaches(signal: PlannedSignal, waits: seq<PendingWait>, queue: QueueId, serial: nat) {
    exists i :: 0 <= i < |waits| && Satisfies(signal, waits[i]) && waits[i].queue == queue && waits[i].serial <= serial
  }

  predicate ReachesQueue(signal: PlannedSignal, waits: seq<PendingWait>, queue: QueueId) {
    exists i :: 0 <= i < |waits| && Satisfies(signal, waits[i]) && waits[i].queue == queue
  }

  function Gained(signal: PlannedSignal, waits: seq<PendingWait>, queue: QueueId, serial: nat): set<MemoryId> {
    if Reaches(signal, waits, queue, serial) then signal.memoryIds else {}
  }

  /** The semaphore with every record the satisfied waits reach extended by the signal's memories. */
  function Extended(s: Semaphore, signal: PlannedSignal, waits: seq<PendingWait>): Semaphore {
    s.(writes := s.writes + (if s.signaled then Gained(signal, waits, s.queue, s.serial) else {}),
       signals := seq(|s.signals|, i requires 0 <= i < |s.signals| =>
         s.signals[i].(memoryIds := s.signals[i].memoryIds
                                    + Gained(signal, waits, s.signals[i].queue, s.signals[i].serial))))
  }

  ghost predicate Woken(st: State, st': State, signal: PlannedSignal, waits: seq<PendingWait>) {
    && st'.nextSerial == st.nextSerial
    && (forall q: QueueId :: QueueWrites(st'.queueWrites, q)
          == QueueWrites(st.queueWrites, q) + (if ReachesQueue(signal, waits, q) then signal.memoryIds else {}))
    && st'.fences.Keys == st.fences.Keys
    && (forall f | f in st.fences :: st'.fences[f] == st.fences[f].(memoryIds :=
          st.fences[f].memoryIds + Gained(signal, waits, st.fences[f].queue, st.fences[f].serial)))
    && (forall id | id in st.semaphores ::
          id in st'.semaphores && st'.semaphores[id] == Extended(st.semaphores[id], signal, waits))
    && (forall id | id in st'.semaphores && id !in st.semaphores :: st'.semaphores[id] == NewSemaphore(false))
  }

  // ---------------------------------------------------------------------------
  // One wake-up
  // ---------------------------------------------------------------------------

  lemma ReachesSnoc(signal: PlannedSignal, waits: seq<PendingWait>, wait: PendingWait, queue: QueueId, serial: nat)
    ensures Reaches(signal, waits + [wait], queue, serial)
            <==> Reaches(signal, waits, queue, serial)
                 || (Satisfies(signal, wait) && wait.queue == queue && wait.serial <= serial)
    ensures ReachesQueue(signal, waits + [wait], queue)
            <==> ReachesQueue(signal, waits, queue) || (Satisfies(signal, wait) && wait.queue == queue)
  {
    var all := waits + [wait];
    assert all[|waits|] == wait;
    if i :| 0 <= i < |waits| && Satisfies(signal, waits[i]) && waits[i].queue == queue {
      assert all[i] == waits[i];
    }
    if i :| 0 <= i < |waits| && Satisfies(signal, waits[i]) && waits[i].queue == queue && waits[i].serial <= serial {
      assert all[i] == waits[i];
    }
  }

  lemma ExtendedAbsorbs(s: Semaphore, signal: PlannedSignal, waits: seq<PendingWait>, wait: PendingWait)
    ensures Extended(s, signal, waits + [wait])
            == if Satisfies(signal, wait)
               then Absorb(Extended(s, signal, waits), wait.queue, wait.serial, signal.memoryIds)
               else Extended(s, signal, waits)
  {
    var a, b := Extended(s, signal, waits + [wait]), Extended(s, signal, waits);
    ReachesSnoc(signal, waits, wait, s.queue, s.serial);
    forall i | 0 <= i < |s.signals|
      ensures a.signals[i] == if Satisfies(signal, wait)
                              then AbsorbSignal(b.signals[i], wait.queue, wait.serial, signal.memoryIds)
                              else b.signals[i]
    {
      ReachesSnoc(signal, waits, wait, s.signals[i].queue, s.signals[i].serial);
    }
    if Satisfies(signal, wait) {
      assert a.signals == AbsorbSignals(b.signals, wait.queue, wait.serial, signal.memoryIds);
    } else {
      assert a.signals == b.signals;
    }
  }

  /** The update of the waiting batch's own semaphores adds nothing to what all semaphores got: it
      only gives an unknown semaphore its default entry. */
  lemma {:induction false} DownstreamAlreadyReached(st: State, wait: PendingWait, downstream: seq<SemaphoreId>,
                                                    ids: set<MemoryId>)
    requires forall id | id in st.semaphores :: Absorb(st.semaphores[id], wait.queue, wait.serial, ids) == st.semaphores[id]
    ensures var st' := PropagateAllDownstream(st, wait, downstream, ids);
            && st'.(semaphores := st.semaphores) == st
            && (forall id | id in st.semaphores :: id in st'.semaphores && st'.semaphores[id] == st.semaphores[id])
            && (forall id | id in st'.semaphores && id !in st.semaphores :: st'.semaphores[id] == NewSemaphore(false))
    decreases |downstream|
  {
    if downstream != [] {
      DownstreamAlreadyReached(st, wait, downstream[..|downstream| - 1], ids);
    }
  }

  lemma AbsorbTwice(s: Semaphore, queue: QueueId, after: nat, ids: set<MemoryId>)
    ensures Absorb(Absorb(s, queue, after, ids), queue, after, ids) == Absorb(s, queue, after, ids)
  {
    var once := Absorb(s, queue, after, ids);
    assert AbsorbSignals(once.signals, queue, after, ids) == once.signals;
  }

  lemma WakeOneExactly(st: State, before: State, signal: PlannedSignal, waits: seq<PendingWait>, wait: PendingWait)
    requires Woken(st, before, signal, waits)
    ensures Woken(st, WakeOne(before, signal, wait), signal, waits + [wait])
  {
    var st' := WakeOne(before, signal, wait);
    var reached := if Satisfies(signal, wait)
                   then Propagate(before, wait.queue, wait.serial, signal.memoryIds) else before;
    if Satisfies(signal, wait) {
      forall id | id in reached.semaphores
        ensures Absorb(reached.semaphores[id], wait.queue, wait.serial, signal.memoryIds) == reached.semaphores[id]
      {
        AbsorbTwice(before.semaphores[id], wait.queue, wait.serial, signal.memoryIds);
      }
      DownstreamAlreadyReached(reached, wait, wait.downstream, signal.memoryIds);
    }
    forall q: QueueId
      ensures QueueWrites(st'.queueWrites, q) == QueueWrites(st.queueWrites, q)
                + (if ReachesQueue(signal, waits + [wait], q) then signal.memoryIds else {})
    {
      ReachesSnoc(signal, waits, wait, q, 0);
    }
    forall f | f in st.fences
      ensures st'.fences[f] == st.fences[f].(memoryIds := st.fences[f].memoryIds
                + Gained(signal, waits + [wait], st.fences[f].queue, st.fences[f].serial))
    {
      ReachesSnoc(signal, waits, wait, st.fences[f].queue, st.fences[f].serial);
    }
    forall id | id in st.semaphores
      ensures id in st'.semaphores && st'.semaphores[id] == Extended(st.semaphores[id], signal, waits + [wait])
    {
      ExtendedAbsorbs(st.semaphores[id], signal, waits, wait);
    }
    forall id | id in st'.semaphores && id !in st.semaphores
      ensures st'.semaphores[id] == NewSemaphore(false)
    {
      if id in before.semaphores {
        assert Absorb(NewSemaphore(false), wait.queue, wait.serial, signal.memoryIds).signals == [];
      }
    }
  }

  lemma ExtendedByNone(s: Semaphore, signal: PlannedSignal)
    ensures Extended(s, signal, []) == s
  {
    forall i | 0 <= i < |s.signals|
      ensures Extended(s, signal, []).signals[i] == s.signals[i]
    {
      assert s.signals[i].memoryIds + {} == s.signals[i].memoryIds;
    }
    assert s.writes + {} == s.writes;
  }

  lemma {:induction false} WakeAllExactly(st: State, signal: PlannedSignal, waits: seq<PendingWait>)
    ensures Woken(st, WakeAll(st, signal, waits), signal, waits)
    decreases |waits|
  {
    if waits == [] {
      forall id | id in st.semaphores
        ensures st.semaphores[id] == Extended(st.semaphores[id], signal, [])
      {
        ExtendedByNone(st.semaphores[id], signal);
      }
    } else {
      var n := |waits| - 1;
      WakeAllExactly(st, signal, waits[..n]);
      WakeOneExactly(st, WakeAll(st, signal, waits[..n]), signal, waits[..n], waits[n]);
      assert waits[..n] + [waits[n]] == waits;
    }
  }

  lemma {:induction false} UnsatisfiedExactly(signal: PlannedSignal, waits: seq<PendingWait>, w: PendingWait)
    ensures w in Unsatisfied(signal, waits) <==> w in waits && !Satisfies(signal, w)
    decreases |waits|
  {
    if waits != [] {
      var n := |waits| - 1;
      UnsatisfiedExactly(signal, waits[..n], w);
      assert waits == waits[..n] + [waits[n]];
    }
  }

  /** Committing a signal records it, removes exactly the waits it satisfies, and adds its memories
      to exactly the queues, fences and semaphore records of those waits' queues at or after them. */
  lemma CommitSignalExactly(st: State, queue: QueueId, signal: PlannedSignal)
    ensures var s := RecordSignal(SemaphoreAt(st.semaphores, signal.id), queue, signal);
            var recorded := st.(semaphores := st.semaphores[signal.id := s]);
            var st' := CommitSignal(st, queue, signal);
            && signal.id in st'.semaphores
            && Woken(recorded, st'.(semaphores := st'.semaphores[signal.id :=
                 st'.semaphores[signal.id].(pending := s.pending)]), signal, s.pending)
            && forall w :: w in st'.semaphores[signal.id].pending <==> w in s.pending && !Satisfies(signal, w)
  {
    var s := RecordSignal(SemaphoreAt(st.semaphores, signal.id), queue, signal);
    var recorded := st.(semaphores := st.semaphores[signal.id := s]);
    var woken := WakeAll(recorded, signal, s.pending);
    WakeAllExactly(recorded, signal, s.pending);
    var st' := CommitSignal(st, queue, signal);
    assert woken == st'.(semaphores := st'.semaphores[signal.id :=
                      st'.semaphores[signal.id].(pending := s.pending)]);
    forall w
      ensures w in st'.semaphores[signal.id].pending <==> w in s.pending && !Satisfies(signal, w)
    {
      UnsatisfiedExactly(signal, s.pending, w);
    }
  }
}
