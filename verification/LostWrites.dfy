/** Two runs that reach what the conditions of `CoherentSystem` exclude: an upload over a device write, and
    a host store that undoes an explicit flush.
  */
module LostWrites {
  import opened Options
  import opened DirtyRuns
  import MM = MappedMemory
  import opened Provenance
  import Order = Precedence
  import HB = HappensBefore
  import Runs = ProvenanceRuns
  import opened CoherentSystem

  // ---------------------------------------------------------------------------
  // Why nothing unacquired may be sent
  // ---------------------------------------------------------------------------

  const FRESH := INITIAL.(memory := map[5 := [0, 0, 0]], truth := map[5 := [0, 0, 0]])

  const MAPPED := FRESH.(mappings := map[5 := Mapping(0, [0, 0, 0], [0, 0, 0])])

  const WRITING := Runs.Submits(1, [Batch({5}, [], [])], None, true)

  /** Submission 1 may write memory 5. */
  const SUBMITTED := MAPPED.(
    tables := State(2, map[1 := {5}], map[], map[]),
    history := HB.EMPTY.(graph := Order.Graph(map[1 := Order.Submission(1, {5})], {}, {(1, 5)})))

  const STORED := SUBMITTED.(
    mappings := map[5 := Mapping(0, [1, 0, 0], [0, 0, 0])], truth := map[5 := [1, 0, 0]], stored := {(5, 0)})

  const STORED_TWICE := SUBMITTED.(
    mappings := map[5 := Mapping(0, [1, 0, 1], [0, 0, 0])], truth := map[5 := [1, 0, 1]], stored := {(5, 0), (5, 2)})

  /** The host stored bytes 0 and 2; submission 1 wrote byte 1 and has not been acquired. */
  const GAP := STORED_TWICE.(memory := map[5 := [0, 7, 0]], truth := map[5 := [1, 7, 1]], written := {(1, 5, 1)})

  const GAP_EVENTS := [Allocates(5, [0, 0, 0]), Maps(5, 0, 3), Calls(WRITING), HostStores(5, 0, 1), HostStores(5, 2, 1),
                       DeviceWrites(1, 5, 1, 7)]

  const GAP_STATES := [INITIAL, FRESH, MAPPED, SUBMITTED, STORED, STORED_TWICE, GAP]

  lemma SubmitWriting()
    ensures Runs.Allowed(MAPPED.tables, MAPPED.history, WRITING)
    ensures Runs.Next(MAPPED.tables, WRITING) == SUBMITTED.tables
    ensures Runs.Record(MAPPED.tables, MAPPED.history, WRITING) == SUBMITTED.history
  {
    var batch, none: seq<SemaphoreOp> := Batch({5}, [], []), [];
    assert [batch][..0] == [];
    var st, h := Runs.INITIAL, HB.EMPTY;
    assert HB.AfterBatch(h, st.semaphores, 1, 1, batch) == SUBMITTED.history;
    assert HB.AfterBatches(h, st.semaphores, 1, 1, [batch]) == SUBMITTED.history;
    assert HB.BatchAllowedAt(h, st.semaphores, 1, 1, [batch], 0);
    assert PlanOf(st, 1, [batch]) == Plan({5}, {5}, [], {}, []);
  }

  /** An upload of what is clean sends nothing. */
  lemma CleanPublish(s: System)
    requires Shaped(s) && forall id | id in s.mappings :: s.mappings[id].shadow == s.mappings[id].baseline
    ensures Publish(s) == s.(stored := {}, flushed := {}) && NothingUnacquiredSent(s)
  {
    forall id | id in s.mappings
      ensures Uploaded(s.mappings[id], s.memory[id]) == s.memory[id]
      ensures forall i: nat :: !Sent(s.mappings[id], i)
    {
      var m := s.mappings[id];
      forall i: nat ensures !Sent(m, i) {}
      forall i | 0 <= i < |s.memory[id]| ensures Uploaded(m, s.memory[id])[i] == s.memory[id][i] {
        UploadedByte(m, s.memory[id], i);
      }
    }
  }

  lemma GapSubmits()
    ensures StepsTo(MAPPED, Calls(WRITING), SUBMITTED)
  {
    CleanPublish(MAPPED);
    SubmitWriting();
  }

  lemma GapReached()
    ensures RunOf(GAP_EVENTS, GAP_STATES)
  {
    GapBegins();
    GapSubmits();
    GapStores();
    GapWrites();
    hide StepsTo;
    forall k | 0 <= k < |GAP_EVENTS| ensures StepsTo(GAP_STATES[k], GAP_EVENTS[k], GAP_STATES[k + 1]) {
      assert k == 0 || k == 1 || k == 2 || k == 3 || k == 4 || k == 5;
    }
  }

  lemma GapBegins()
    ensures StepsTo(INITIAL, Allocates(5, [0, 0, 0]), FRESH) && StepsTo(FRESH, Maps(5, 0, 3), MAPPED)
  {
    var bytes: seq<byte> := [0, 0, 0];
    assert bytes[0..0 + 3] == bytes;
    assert After(FRESH, Maps(5, 0, 3)).mappings == MAPPED.mappings;
  }

  lemma GapStores()
    ensures StepsTo(SUBMITTED, HostStores(5, 0, 1), STORED) && StepsTo(STORED, HostStores(5, 2, 1), STORED_TWICE)
  {
    StoreOne(SUBMITTED, 0, 1, [1, 0, 0], [1, 0, 0]);
    StoreOne(STORED, 2, 1, [1, 0, 1], [1, 0, 1]);
  }

  lemma StoreOne(s: System, i: nat, value: byte, shadow: seq<byte>, truth: seq<byte>)
    requires s.mappings.Keys == s.truth.Keys == {5} && s.mappings[5].offset == 0
    requires i < |s.mappings[5].shadow| <= |s.truth[5]|
    requires shadow == s.mappings[5].shadow[i := value] && truth == s.truth[5][i := value]
    ensures Store(s, 5, i, value) == s.(mappings := map[5 := s.mappings[5].(shadow := shadow)],
                                        truth := map[5 := truth], stored := s.stored + {(5, i)})
  {
  }

  lemma GapWrites()
    ensures StepsTo(STORED_TWICE, DeviceWrites(1, 5, 1, 7), GAP)
  {
    var memory: seq<byte>, truth: seq<byte> := [0, 0, 0], [1, 0, 1];
    assert memory[1 := 7] == [0, 7, 0] && truth[1 := 7] == [1, 7, 1];
    var a := After(STORED_TWICE, DeviceWrites(1, 5, 1, 7));
    assert a.truth == GAP.truth && a.memory == GAP.memory;
  }

  /** A run in which a clean byte between two host stores is rewritten with what the client last read, so
      a device write it has not acquired is lost. */
  lemma GapOverwritesDevice()
    ensures RunOf(GAP_EVENTS, GAP_STATES) && GAP_STATES[6] == GAP
    ensures Invariant(GAP) && Publish(GAP).memory[5][1] != GAP.truth[5][1]
  {
    GapReached();
    RunInvariant(GAP_EVENTS, GAP_STATES, 6);
    var m := GAP.mappings[5];
    assert Bridges(m.shadow, m.baseline, 0, 2);
    UploadedByte(m, [0, 7, 0], 1);
  }

  // ---------------------------------------------------------------------------
  // Why an explicit flush may not be undone
  // ---------------------------------------------------------------------------

  /** The host stored byte 0 and flushed it explicitly. */
  const FLUSHED := INITIAL.(
    mappings := map[5 := Mapping(0, [1], [0])], memory := map[5 := [1]], truth := map[5 := [1]],
    stored := {(5, 0)}, flushed := {(5, 0)})

  const FLUSH_EVENTS := [Allocates(5, [0]), Maps(5, 0, 1), HostStores(5, 0, 1), Flushes(5, 0, 1)]

  const FLUSH_STATES := [
    INITIAL,
    INITIAL.(memory := map[5 := [0]], truth := map[5 := [0]]),
    INITIAL.(memory := map[5 := [0]], truth := map[5 := [0]], mappings := map[5 := Mapping(0, [0], [0])]),
    INITIAL.(memory := map[5 := [0]], truth := map[5 := [1]], mappings := map[5 := Mapping(0, [1], [0])],
             stored := {(5, 0)}),
    FLUSHED]

  lemma FlushReached()
    ensures RunOf(FLUSH_EVENTS, FLUSH_STATES)
  {
    FlushBegins();
    FlushStores();
    FlushEnds();
    hide StepsTo;
    forall k | 0 <= k < |FLUSH_EVENTS| ensures StepsTo(FLUSH_STATES[k], FLUSH_EVENTS[k], FLUSH_STATES[k + 1]) {
      assert k == 0 || k == 1 || k == 2 || k == 3;
    }
  }

  lemma FlushBegins()
    ensures StepsTo(FLUSH_STATES[0], FLUSH_EVENTS[0], FLUSH_STATES[1])
    ensures StepsTo(FLUSH_STATES[1], FLUSH_EVENTS[1], FLUSH_STATES[2])
  {
    var bytes: seq<byte> := [0];
    assert bytes[0..0 + 1] == bytes;
    assert After(FLUSH_STATES[1], FLUSH_EVENTS[1]).mappings == FLUSH_STATES[2].mappings;
  }

  lemma FlushStores()
    ensures StepsTo(FLUSH_STATES[2], FLUSH_EVENTS[2], FLUSH_STATES[3])
  {
    StoreOne(FLUSH_STATES[2], 0, 1, [1], [1]);
  }

  lemma FlushEnds()
    ensures StepsTo(FLUSH_STATES[3], FLUSH_EVENTS[3], FLUSH_STATES[4])
  {
    FlushOne(FLUSH_STATES[3]);
    assert forall i: nat :: !Written(FLUSH_STATES[3], 5, i);
  }

  lemma FlushOne(s: System)
    requires Shaped(s) && s.mappings == map[5 := Mapping(0, [1], [0])] && s.memory == map[5 := [0]]
    requires s.stored == {(5, 0)} && s.flushed == {}
    ensures Flush(s, 5, 0, 1) == s.(memory := map[5 := [1]], flushed := {(5, 0)})
  {
    var bytes: seq<byte>, shadow: seq<byte> := [0], [1];
    assert shadow[0 - 0..1 - 0] == shadow && MM.Patch(bytes, 0, shadow) == [1];
  }

  /** A run after which storing byte 0 back makes it look clean: a refresh takes the server's other value,
      and no upload sends the store. */
  lemma FlushThenUndone()
    ensures RunOf(FLUSH_EVENTS, FLUSH_STATES) && FLUSH_STATES[4] == FLUSHED && Invariant(FLUSHED)
    ensures !Settles(FLUSHED, 5, 0, 0)
    ensures var s := Store(FLUSHED, 5, 0, 0);
            && Shaped(s) && s.truth[5] == [0] && Acquire(s, {5}).mappings[5].shadow == [1]
            && Publish(s).memory[5] == [1]
  {
    FlushReached();
    RunInvariant(FLUSH_EVENTS, FLUSH_STATES, 4);
    var s := Store(FLUSHED, 5, 0, 0);
    RefreshedByte(s, 5, 0);
    assert s.mappings[5] == Mapping(0, [0], [0]);
    CleanPublish(s);
  }
}
