/** The coherent mappings end to end: host stores, device writes, submissions and observations over
    one abstract byte array per memory.

    `truth` is what a single shared memory would hold. The shadow an application reads, the
    baseline and the server's bytes are what the client really keeps; the provenance tables decide
    what an observation refreshes.
  */
module CoherentSystem {
  import opened Options
  import opened DirtyRuns
  import MM = MappedMemory
  import opened Provenance
  import opened Precedence
  import HB = HappensBefore
  import Runs = ProvenanceRuns

  datatype Mapping = Mapping(offset: nat, shadow: seq<byte>, baseline: seq<byte>)
  {
    predicate Contains(i: nat) {
      offset <= i < offset + |shadow|
    }
  }

  /** `stored` are the bytes the host stored since the last complete upload, `written` those a submission
      wrote since they were last refreshed, `flushed` the stored bytes that were flushed explicitly since.
      Once the connection has failed nothing is transferred any more. */
  datatype System = System(
    tables: State,
    history: HB.History,
    mappings: map<MemoryId, Mapping>,
    memory: map<MemoryId, seq<byte>>,
    truth: map<MemoryId, seq<byte>>,
    stored: set<(MemoryId, nat)>,
    written: set<(nat, MemoryId, nat)>,
    flushed: set<(MemoryId, nat)>,
    failed: bool)

  datatype Event =
    | Allocates(id: MemoryId, bytes: seq<byte>)
    | Maps(id: MemoryId, offset: nat, size: nat)
    | Unmaps(id: MemoryId, sent: nat)
    | HostStores(id: MemoryId, i: nat, value: byte)
    | DeviceWrites(serial: nat, id: MemoryId, i: nat, value: byte)
    | UploadStops(id: MemoryId, acked: nat, reached: nat)
    | RefreshStops(id: MemoryId, n: nat)
    | Flushes(id: MemoryId, begin: nat, end: nat)
    | Invalidates(id: MemoryId, begin: nat, end: nat)
    | Disconnects
    | Calls(step: Runs.Step)

  // ---------------------------------------------------------------------------
  // Events
  // ---------------------------------------------------------------------------

  /** The server's bytes after a complete upload of one mapping. */
  ghost function Uploaded(m: Mapping, bytes: seq<byte>): (r: seq<byte>)
    requires |m.shadow| == |m.baseline| && m.offset + |m.shadow| <= |bytes|
    ensures |r| == |bytes|
  {
    MM.Applied(bytes, m.offset, m.shadow, MM.Requests(m.shadow, m.baseline))
  }

  ghost function Refresh(m: Mapping, bytes: seq<byte>): Mapping
    requires |m.shadow| == |m.baseline| && m.offset + |m.shadow| <= |bytes|
  {
    var incoming := bytes[m.offset..m.offset + |m.shadow|];
    Mapping(m.offset, MM.Merged(m.shadow, m.baseline, incoming), incoming)
  }

  ghost predicate Shaped(s: System) {
    && s.truth.Keys == s.memory.Keys && s.mappings.Keys <= s.memory.Keys
    && (forall id | id in s.memory :: |s.truth[id]| == |s.memory[id]|)
    && (forall id | id in s.mappings :: |s.mappings[id].shadow| == |s.mappings[id].baseline|
          && s.mappings[id].offset + |s.mappings[id].shadow| <= |s.memory[id]|)
  }

  ghost function Publish(s: System): System
    requires Shaped(s)
  {
    s.(memory := map id | id in s.memory ::
         if id in s.mappings then Uploaded(s.mappings[id], s.memory[id]) else s.memory[id],
       mappings := map id | id in s.mappings :: s.mappings[id].(baseline := s.mappings[id].shadow),
       stored := {}, flushed := {})
  }

  ghost function Acquire(s: System, ids: set<MemoryId>): System
    requires Shaped(s)
  {
    s.(mappings := map id | id in s.mappings ::
         if id in ids then Refresh(s.mappings[id], s.memory[id]) else s.mappings[id],
       written := (set w | w in s.written && w.1 !in ids),
       flushed := set h | h in s.flushed && h.0 !in ids)
  }

  predicate Publishes(step: Runs.Step) {
    step.Submits? || step.HostSignals?
  }

  /** A device-idle refreshes every mapping. */
  ghost function RefreshedBy(s: System, step: Runs.Step): set<MemoryId> {
    Runs.Refreshed(s.tables, s.history, step) + (if step.DeviceObserved? then s.mappings.Keys else {})
  }

  ghost function Transfer(s: System, step: Runs.Step): System
    requires Shaped(s)
  {
    if Publishes(step) then Publish(s) else Acquire(s, RefreshedBy(s, step))
  }

  ghost function Call(s: System, step: Runs.Step): System
    requires Shaped(s)
  {
    Transfer(s, step).(tables := Runs.Next(s.tables, step), history := Runs.Record(s.tables, s.history, step))
  }

  ghost function Map(s: System, id: MemoryId, offset: nat, size: nat): System
    requires id in s.memory && offset + size <= |s.memory[id]|
  {
    var bytes := s.memory[id][offset..offset + size];
    s.(mappings := s.mappings[id := Mapping(offset, bytes, bytes)],
       written := set w | w in s.written && !(w.1 == id && offset <= w.2 < offset + size))
  }

  /** Unmapping flushes the whole mapping first, of which `sent` bytes reach the server, and drops it
      whether or not that succeeds. */
  ghost function Unmap(s: System, id: MemoryId, sent: nat): System
    requires Shaped(s) && id in s.mappings && sent <= |s.mappings[id].shadow|
  {
    var m := s.mappings[id];
    s.(memory := s.memory[id := MM.Patch(s.memory[id], m.offset, m.shadow[..sent])],
       mappings := s.mappings - {id},
       stored := (set h | h in s.stored && h.0 != id),
       flushed := set h | h in s.flushed && h.0 != id)
  }

  function Store(s: System, id: MemoryId, i: nat, value: byte): System
    requires id in s.mappings && s.mappings[id].Contains(i) && id in s.truth && i < |s.truth[id]|
  {
    var m := s.mappings[id];
    s.(mappings := s.mappings[id := m.(shadow := m.shadow[i - m.offset := value])],
       truth := s.truth[id := s.truth[id][i := value]],
       stored := s.stored + {(id, i)})
  }

  /** The upload of one mapping stops: the server applied the first `reached` requests, the client
      learned of the first `acked`. A call that fails leaves some mappings at the end, one on the way.
      A request the server refuses is not applied; a reply is lost only when the connection fails. */
  ghost function UploadStop(s: System, id: MemoryId, acked: nat, reached: nat): System
    requires Shaped(s) && id in s.mappings
    requires acked <= reached <= |MM.Requests(s.mappings[id].shadow, s.mappings[id].baseline)|
  {
    var m := s.mappings[id];
    var ts := MM.Requests(m.shadow, m.baseline);
    s.(memory := s.memory[id := MM.Applied(s.memory[id], m.offset, m.shadow, ts[..reached])],
       mappings := s.mappings[id := m.(baseline := MM.Applied(m.baseline, 0, m.shadow, ts[..acked]))],
       failed := s.failed || acked < reached)
  }

  /** The refresh of one mapping stops after `n` bytes. */
  ghost function RefreshStop(s: System, id: MemoryId, n: nat): System
    requires Shaped(s) && id in s.mappings && n <= |s.mappings[id].shadow|
  {
    var m := s.mappings[id];
    var r := Refresh(m, s.memory[id]);
    s.(mappings := s.mappings[id := Mapping(m.offset, r.shadow[..n] + m.shadow[n..],
                                            r.baseline[..n] + m.baseline[n..])])
  }

  predicate Within(m: Mapping, begin: nat, end: nat) {
    m.offset <= begin <= end <= m.offset + |m.shadow|
  }

  /** An explicit flush sends a range of the shadow, dirty or not, and leaves the baseline as it is. One
      that stops on the way is one of a shorter range. */
  ghost function Flush(s: System, id: MemoryId, begin: nat, end: nat): System
    requires Shaped(s) && id in s.mappings && Within(s.mappings[id], begin, end)
  {
    var m := s.mappings[id];
    s.(memory := s.memory[id := MM.Patch(s.memory[id], begin, m.shadow[begin - m.offset..end - m.offset])],
       flushed := s.flushed + set h | h in s.stored && h.0 == id && begin <= h.1 < end)
  }

  /** An explicit invalidation replaces a range of shadow and baseline by the server's bytes. */
  ghost function Invalidate(s: System, id: MemoryId, begin: nat, end: nat): System
    requires Shaped(s) && id in s.mappings && Within(s.mappings[id], begin, end)
  {
    var m := s.mappings[id];
    var incoming := s.memory[id][begin..end];
    s.(mappings := s.mappings[id := Mapping(m.offset, MM.Patch(m.shadow, begin - m.offset, incoming),
                                            MM.Patch(m.baseline, begin - m.offset, incoming))],
       written := set w | w in s.written && !(w.1 == id && begin <= w.2 < end))
  }

  /** The host does not set a byte back to what the client takes the server to have, when the server
      has something else. */
  predicate Settles(s: System, id: MemoryId, i: nat, value: byte)
    requires id in s.mappings && s.mappings[id].Contains(i) && id in s.memory && i < |s.memory[id]|
    requires |s.mappings[id].shadow| == |s.mappings[id].baseline|
  {
    value == s.mappings[id].baseline[i - s.mappings[id].offset] ==> value == s.memory[id][i]
  }

  ghost predicate Allowed(s: System, e: Event)
    requires Shaped(s)
  {
    && (s.failed ==> e.HostStores? || e.DeviceWrites? || e.Unmaps? || e.Disconnects?)
    && match e
       case Allocates(id, _) => id !in s.memory
       case Maps(id, offset, size) => id in s.memory && id !in s.mappings && offset + size <= |s.memory[id]|
       case Unmaps(id, sent) =>
         id in s.mappings && sent <= |s.mappings[id].shadow| && (if s.failed then sent == 0 else UnmapSafe(s, id, sent))
       case HostStores(id, i, value) =>
         && id in s.mappings && s.mappings[id].Contains(i) && !Written(s, id, i)
         && (!s.failed && (id, i) in s.flushed ==> Settles(s, id, i, value))
       case DeviceWrites(serial, id, i, _) =>
         && id in s.memory && i < |s.memory[id]|
         && (serial, id) in s.history.graph.unacquired && (id, i) !in s.stored
       case UploadStops(id, acked, reached) =>
         && id in s.mappings && acked <= reached <= acked + 1
         && reached <= |MM.Requests(s.mappings[id].shadow, s.mappings[id].baseline)|
         && forall i: nat | Sent(s.mappings[id], i) :: !Written(s, id, i)
       case RefreshStops(id, n) => id in s.mappings && n <= |s.mappings[id].shadow|
       case Flushes(id, begin, end) =>
         id in s.mappings && Within(s.mappings[id], begin, end) && FlushSafe(s, id, begin, end)
       case Invalidates(id, begin, end) =>
         id in s.mappings && Within(s.mappings[id], begin, end) && InvalidateSafe(s, id, begin, end)
       case Disconnects => true
       case Calls(step) =>
         Runs.Allowed(s.tables, s.history, step) && (Publishes(step) ==> NothingUnacquiredSent(s))
  }

  /** Every unacquired byte of the range already reads as the device left it. */
  ghost predicate FlushSafe(s: System, id: MemoryId, begin: nat, end: nat)
    requires Shaped(s) && id in s.mappings && Within(s.mappings[id], begin, end)
  {
    forall i | begin <= i < end && Written(s, id, i) ::
      s.mappings[id].shadow[i - s.mappings[id].offset] == s.memory[id][i]
  }

  /** The bytes sent are as for a flush, and every other byte that the host stored is on the server. */
  ghost predicate UnmapSafe(s: System, id: MemoryId, sent: nat)
    requires Shaped(s) && id in s.mappings && sent <= |s.mappings[id].shadow|
  {
    var m := s.mappings[id];
    && FlushSafe(s, id, m.offset, m.offset + sent)
    && InvalidateSafe(s, id, m.offset + sent, m.offset + |m.shadow|)
  }

  /** Every byte of the range that the host stored is on the server. */
  ghost predicate InvalidateSafe(s: System, id: MemoryId, begin: nat, end: nat)
    requires Shaped(s) && id in s.mappings && Within(s.mappings[id], begin, end)
  {
    forall i: nat | begin <= i < end && (id, i) in s.stored :: s.memory[id][i] == s.truth[id][i]
  }

  ghost predicate Written(s: System, id: MemoryId, i: nat) {
    exists serial :: (serial, id, i) in s.written
  }

  /** Whether an upload now would send the byte: it is dirty, or in a gap too short to split at. */
  ghost predicate Sent(m: Mapping, i: nat)
    requires |m.shadow| == |m.baseline|
  {
    m.Contains(i) && Transmitted(m.shadow, m.baseline, i - m.offset)
  }

  ghost predicate NothingUnacquiredSent(s: System)
    requires Shaped(s)
  {
    forall id, i: nat | id in s.mappings && Sent(s.mappings[id], i) :: !Written(s, id, i)
  }

  ghost function After(s: System, e: Event): System
    requires Shaped(s) && Allowed(s, e)
  {
    match e
    case Allocates(id, bytes) => s.(memory := s.memory[id := bytes], truth := s.truth[id := bytes])
    case Maps(id, offset, size) => Map(s, id, offset, size)
    case Unmaps(id, sent) => Unmap(s, id, sent)
    case HostStores(id, i, value) => Store(s, id, i, value)
    case DeviceWrites(serial, id, i, value) =>
      s.(memory := s.memory[id := s.memory[id][i := value]],
         truth := s.truth[id := s.truth[id][i := value]],
         written := s.written + {(serial, id, i)})
    case UploadStops(id, acked, reached) => UploadStop(s, id, acked, reached)
    case RefreshStops(id, n) => RefreshStop(s, id, n)
    case Flushes(id, begin, end) => Flush(s, id, begin, end)
    case Invalidates(id, begin, end) => Invalidate(s, id, begin, end)
    case Disconnects => s.(failed := true)
    case Calls(step) => Call(s, step)
  }

  // ---------------------------------------------------------------------------
  // The invariant
  // ---------------------------------------------------------------------------

  /** Every copy of one byte, measured against the shared memory. The baseline is the server's byte, but
      where a stored byte was flushed explicitly; there, if it looks clean, it is on the server. */
  ghost predicate ByteCoherent(s: System, id: MemoryId, i: nat)
    requires Shaped(s) && id in s.memory && i < |s.memory[id]|
  {
    if id in s.mappings && s.mappings[id].Contains(i) then
      var m := s.mappings[id];
      var k := i - m.offset;
      if (id, i) in s.stored then
        && m.shadow[k] == s.truth[id][i]
        && if (id, i) in s.flushed then m.shadow[k] == m.baseline[k] ==> s.memory[id][i] == s.truth[id][i]
           else m.baseline[k] == s.memory[id][i]
      else
        && s.memory[id][i] == s.truth[id][i] && m.shadow[k] == m.baseline[k]
        && (!Written(s, id, i) ==> m.shadow[k] == s.truth[id][i])
    else s.memory[id][i] == s.truth[id][i] && (id, i) !in s.stored
  }

  ghost predicate Coherent(s: System) {
    && Shaped(s)
    && (forall serial, id, i | (serial, id, i) in s.written ::
          (serial, id) in s.history.graph.unacquired && (id, i) !in s.stored)
    && (forall id, i: nat | id in s.memory && i < |s.memory[id]| :: ByteCoherent(s, id, i))
  }

  // ---------------------------------------------------------------------------
  // Uploads and refreshes
  // ---------------------------------------------------------------------------

  lemma UploadedByte(m: Mapping, bytes: seq<byte>, i: nat)
    requires |m.shadow| == |m.baseline| && m.offset + |m.shadow| <= |bytes| && i < |bytes|
    ensures Uploaded(m, bytes)[i] == if Sent(m, i) then m.shadow[i - m.offset] else bytes[i]
    ensures m.Contains(i) && m.shadow[i - m.offset] != m.baseline[i - m.offset] ==> Sent(m, i)
  {
    MM.RequestsPublish(bytes, m.offset, m.shadow, m.baseline);
    assert MM.IsPublished(bytes, Uploaded(m, bytes), m.offset, m.shadow, m.baseline);
    if m.Contains(i) && m.shadow[i - m.offset] != m.baseline[i - m.offset] {
      DirtyIsTransmitted(m.shadow, m.baseline, i - m.offset);
    }
  }

  /** The upload the client performs is this one. */
  lemma UploadIsPublish(v: MM.View, w: MM.View, m: Mapping)
    requires v.Valid() && v.active && m == Mapping(v.offset, v.shadow, v.baseline)
    ensures MM.Published(v, w) <==> w == v.(baseline := v.shadow, memory := Uploaded(m, v.memory))
  {
    MM.RequestsPublish(v.memory, v.offset, v.shadow, v.baseline);
    if MM.Published(v, w) {
      assert w.memory == Uploaded(m, v.memory);
    }
  }

  /** So is the refresh. */
  lemma RefreshIsAcquire(v: MM.View, w: MM.View, m: Mapping, ids: set<MemoryId>)
    requires v.Valid() && v.active && m == Mapping(v.offset, v.shadow, v.baseline)
    ensures MM.Acquired(v, w, Some(ids)) <==>
              var m' := if v.id in ids then Refresh(m, v.memory) else m;
              w == v.(shadow := m'.shadow, baseline := m'.baseline)
  {
  }

  lemma PublishShaped(s: System)
    requires Shaped(s)
    ensures Shaped(Publish(s))
    ensures forall id, i :: Written(Publish(s), id, i) == Written(s, id, i)
  {
  }

  /** What an upload leaves of one byte on the server. */
  lemma PublishedByte(s: System, id: MemoryId, i: nat)
    requires Shaped(s) && id in s.memory && i < |s.memory[id]|
    ensures Shaped(Publish(s)) && i < |Publish(s).memory[id]|
    ensures Publish(s).memory[id][i]
            == if id in s.mappings && Sent(s.mappings[id], i) then s.mappings[id].shadow[i - s.mappings[id].offset]
               else s.memory[id][i]
    ensures id in s.mappings && s.mappings[id].Contains(i)
            && s.mappings[id].shadow[i - s.mappings[id].offset] != s.mappings[id].baseline[i - s.mappings[id].offset]
            ==> Sent(s.mappings[id], i)
    ensures id in s.mappings && Sent(s.mappings[id], i) ==> s.mappings[id].Contains(i)
  {
    PublishShaped(s);
    if id in s.mappings {
      UploadedByte(s.mappings[id], s.memory[id], i);
    }
  }

  lemma PublishByte(s: System, id: MemoryId, i: nat)
    requires Coherent(s) && NothingUnacquiredSent(s) && id in s.memory && i < |s.memory[id]|
    ensures Shaped(Publish(s)) && ByteCoherent(Publish(s), id, i) && Publish(s).memory[id][i] == s.truth[id][i]
  {
    hide Uploaded, Sent;
    PublishShaped(s);
    PublishedByte(s, id, i);
    assert ByteCoherent(s, id, i);
  }

  /** A byte agrees with the shared memory unless it is an unacquired one that is overwritten. */
  lemma PublishByteExactly(s: System, id: MemoryId, i: nat)
    requires Coherent(s) && id in s.memory && i < |s.memory[id]|
    ensures Shaped(Publish(s))
    ensures Publish(s).memory[id][i] == s.truth[id][i] <==>
              (id in s.mappings && Sent(s.mappings[id], i) && Written(s, id, i) ==>
                 s.mappings[id].shadow[i - s.mappings[id].offset] == s.memory[id][i])
  {
    hide Publish, Uploaded, Sent;
    PublishedByte(s, id, i);
    assert ByteCoherent(s, id, i);
  }

  /** When nothing unacquired is sent, the upload brings the server to the shared memory. */
  lemma PublishCoherent(s: System)
    requires Coherent(s) && NothingUnacquiredSent(s)
    ensures Coherent(Publish(s)) && Publish(s).memory == s.truth
  {
    var s' := Publish(s);
    PublishShaped(s);
    forall id, i: nat | id in s'.memory && i < |s'.memory[id]|
      ensures ByteCoherent(s', id, i) && s'.memory[id][i] == s.truth[id][i]
    {
      PublishByte(s, id, i);
    }
    forall id | id in s'.memory ensures s'.memory[id] == s.truth[id] {}
  }

  /** Without that, it does so exactly when every unacquired byte it sends already reads as the
      device left it. */
  lemma PublishExactly(s: System)
    requires Coherent(s)
    ensures Publish(s).memory == s.truth
            <==> forall id, i: nat | id in s.mappings && Sent(s.mappings[id], i) && Written(s, id, i) ::
                   s.mappings[id].shadow[i - s.mappings[id].offset] == s.memory[id][i]
  {
    hide Publish, Uploaded, ByteCoherent;
    var s' := Publish(s);
    PublishShaped(s);
    SameKeys(s);
    forall id, i: nat | id in s.memory && i < |s.memory[id]|
      ensures s'.memory[id][i] == s.truth[id][i] <==>
                (id in s.mappings && Sent(s.mappings[id], i) && Written(s, id, i) ==>
                   s.mappings[id].shadow[i - s.mappings[id].offset] == s.memory[id][i])
    {
      PublishByteExactly(s, id, i);
    }
    if forall id, i: nat | id in s.mappings && Sent(s.mappings[id], i) && Written(s, id, i) ::
         s.mappings[id].shadow[i - s.mappings[id].offset] == s.memory[id][i] {
      forall id | id in s.memory ensures s'.memory[id] == s.truth[id] {}
    }
  }

  lemma SameKeys(s: System)
    requires Shaped(s)
    ensures Publish(s).memory.Keys == s.memory.Keys && Publish(s).truth == s.truth
    ensures forall id | id in s.memory :: |Publish(s).memory[id]| == |s.memory[id]|
  {
  }

  /** A refresh keeps host stores and brings in what the device wrote. */
  lemma AcquireCoherent(s: System, ids: set<MemoryId>)
    requires Coherent(s)
    ensures Coherent(Acquire(s, ids))
  {
    var s' := Acquire(s, ids);
    forall id, i: nat | id in s'.memory && i < |s'.memory[id]|
      ensures ByteCoherent(s', id, i)
    {
      assert ByteCoherent(s, id, i);
      if id !in ids {
        assert Written(s, id, i) ==> Written(s', id, i) by {
          if serial :| (serial, id, i) in s.written {
            assert (serial, id, i).1 == id;
            assert (serial, id, i) in s'.written;
          }
        }
      }
    }
  }

  // ---------------------------------------------------------------------------
  // Every event keeps the copies coherent
  // ---------------------------------------------------------------------------

  lemma {:induction false} SignalsKeepUnacquired(h: HB.History, semaphores: map<SemaphoreId, Semaphore>, serial: nat,
                                                 ops: seq<SemaphoreOp>)
    ensures HB.Signals(h, semaphores, serial, ops).graph.unacquired == h.graph.unacquired
    decreases |ops|
  {
    if ops != [] {
      SignalsKeepUnacquired(h, semaphores, serial, ops[..|ops| - 1]);
    }
  }

  lemma {:induction false} WaitsKeepGraph(h: HB.History, semaphores: map<SemaphoreId, Semaphore>, serial: nat,
                                          ops: seq<SemaphoreOp>)
    ensures HB.Waits(h, semaphores, serial, ops).0.graph == h.graph
    decreases |ops|
  {
    if ops != [] {
      WaitsKeepGraph(h, semaphores, serial, ops[..|ops| - 1]);
    }
  }

  /** Submitting acquires nothing. */
  lemma {:induction false} SubmittingKeepsUnacquired(h: HB.History, semaphores: map<SemaphoreId, Semaphore>,
                                                     queue: QueueId, first: nat, batches: seq<Batch>)
    ensures h.graph.unacquired <= HB.AfterBatches(h, semaphores, queue, first, batches).graph.unacquired
    decreases |batches|
  {
    if batches != [] {
      var n := |batches| - 1;
      SubmittingKeepsUnacquired(h, semaphores, queue, first, batches[..n]);
      var h0 := HB.AfterBatches(h, semaphores, queue, first, batches[..n]);
      WaitsKeepGraph(h0, semaphores, first + n, batches[n].waits);
      SignalsKeepUnacquired(HB.Submitted(h0, semaphores, queue, first + n, batches[n]), semaphores, first + n,
                            batches[n].signals);
    }
  }

  /** Bytes the device wrote since their last refresh belong to writes still unacquired. */
  lemma CallKeepsAttribution(s: System, step: Runs.Step, serial: nat, id: MemoryId, i: nat)
    requires Coherent(s) && (serial, id, i) in Transfer(s, step).written
    ensures (serial, id) in Runs.Record(s.tables, s.history, step).graph.unacquired
  {
    assert (serial, id, i) in s.written;
    assert (serial, id, i).1 == id && (serial, id).1 == id;
    match step
    case Submits(queue, batches, _, _) =>
      SubmittingKeepsUnacquired(s.history, s.tables.semaphores, queue, s.tables.nextSerial, batches);
    case HostSignals(_, _) =>
    case QueueObserved(_) =>
    case DeviceObserved =>
    case FencesObserved(_) =>
    case CounterObserved(_, _) =>
    case FencesDropped(_) =>
    case Creates(_, _) =>
    case Destroys(_) =>
  }

  lemma CallCoherent(s: System, step: Runs.Step)
    requires Coherent(s) && Allowed(s, Calls(step))
    ensures Coherent(Call(s, step))
  {
    var t, s' := Transfer(s, step), Call(s, step);
    if Publishes(step) {
      PublishCoherent(s);
    } else {
      AcquireCoherent(s, RefreshedBy(s, step));
    }
    forall serial, id, i | (serial, id, i) in t.written
      ensures (serial, id) in s'.history.graph.unacquired
    {
      CallKeepsAttribution(s, step, serial, id, i);
    }
    hide Publish, Acquire, Allowed, Coherent, Runs.Record, Runs.Next;
    SameCopies(t, s');
  }

  /** Coherence does not depend on the tables. */
  lemma SameCopies(t: System, s: System)
    requires Coherent(t) && s == t.(tables := s.tables, history := s.history)
    requires forall serial, id, i | (serial, id, i) in t.written :: (serial, id) in s.history.graph.unacquired
    ensures Coherent(s)
  {
    forall id, i: nat | id in s.memory && i < |s.memory[id]|
      ensures ByteCoherent(s, id, i)
    {
      assert ByteCoherent(t, id, i);
      assert Written(s, id, i) == Written(t, id, i);
    }
  }

  lemma MapCoherent(s: System, id: MemoryId, offset: nat, size: nat)
    requires Coherent(s) && Allowed(s, Maps(id, offset, size))
    ensures Coherent(Map(s, id, offset, size))
  {
    var s' := Map(s, id, offset, size);
    forall other, i: nat | other in s'.memory && i < |s'.memory[other]|
      ensures ByteCoherent(s', other, i)
    {
      assert ByteCoherent(s, other, i);
      if serial :| (serial, other, i) in s.written {
        assert (serial, other, i).1 == other && (serial, other, i).2 == i;
        if other != id || !(offset <= i < offset + size) {
          assert (serial, other, i) in s'.written;
        }
      }
    }
  }

  /** Unmapping keeps the copies coherent exactly when its flush does, and drops no store. */
  lemma UnmapExactly(s: System, id: MemoryId, sent: nat)
    requires Coherent(s) && id in s.mappings && sent <= |s.mappings[id].shadow|
    ensures Coherent(Unmap(s, id, sent)) <==> UnmapSafe(s, id, sent)
  {
    var s', m := Unmap(s, id, sent), s.mappings[id];
    assert Shaped(s');
    forall other, i: nat | other in s'.memory && i < |s'.memory[other]|
      ensures ByteCoherent(s', other, i) <==> (other == id && m.Contains(i) ==> UnmapsByte(s, id, sent, i))
    {
      UnmappedByte(s, id, sent, other, i);
    }
    if UnmapSafe(s, id, sent) {
      forall i: nat | m.Contains(i) ensures UnmapsByte(s, id, sent, i) {}
    }
    if forall i: nat | m.Contains(i) :: UnmapsByte(s, id, sent, i) {
      forall i: nat | m.offset <= i < m.offset + sent && Written(s, id, i) ensures m.shadow[i - m.offset] == s.memory[id][i] {
        assert UnmapsByte(s, id, sent, i);
      }
      forall i: nat | m.offset + sent <= i < m.offset + |m.shadow| && (id, i) in s.stored
        ensures s.memory[id][i] == s.truth[id][i]
      {
        assert UnmapsByte(s, id, sent, i);
      }
    }
  }

  ghost predicate UnmapsByte(s: System, id: MemoryId, sent: nat, i: nat)
    requires Shaped(s) && id in s.mappings && s.mappings[id].Contains(i)
  {
    var k := i - s.mappings[id].offset;
    if k < sent then Written(s, id, i) ==> s.mappings[id].shadow[k] == s.memory[id][i]
    else (id, i) in s.stored ==> s.memory[id][i] == s.truth[id][i]
  }

  lemma UnmappedByte(s: System, id: MemoryId, sent: nat, other: MemoryId, i: nat)
    requires Coherent(s) && id in s.mappings && sent <= |s.mappings[id].shadow|
    requires other in s.memory && i < |s.memory[other]|
    ensures var s' := Unmap(s, id, sent);
            Shaped(s') && |s'.memory[other]| == |s.memory[other]|
            && (ByteCoherent(s', other, i) <==>
                  (other == id && s.mappings[id].Contains(i) ==> UnmapsByte(s, id, sent, i)))
  {
    assert ByteCoherent(s, other, i);
    var s' := Unmap(s, id, sent);
    assert Written(s', other, i) == Written(s, other, i);
    assert (other, i).0 == other;
    hide Written, Coherent;
  }

  /** A host store keeps the copies coherent exactly when it does not undo an explicit flush. */
  lemma StoreExactly(s: System, id: MemoryId, at: nat, value: byte)
    requires Coherent(s) && id in s.mappings && s.mappings[id].Contains(at) && !Written(s, id, at)
    ensures id in s.memory && at < |s.memory[id]| && id in s.truth && at < |s.truth[id]|
    ensures Coherent(Store(s, id, at, value)) <==> Settles(s, id, at, value)
    ensures (id, at) !in s.flushed ==> Settles(s, id, at, value)
  {
    var s' := Store(s, id, at, value);
    forall other, i: nat | other in s'.memory && i < |s'.memory[other]|
      ensures ByteCoherent(s', other, i) <==> (other == id && i == at ==> Settles(s, id, at, value))
    {
      assert ByteCoherent(s, other, i);
      assert Written(s', other, i) == Written(s, other, i);
    }
    assert ByteCoherent(s', id, at) <==> Settles(s, id, at, value);
    assert ByteCoherent(s, id, at);
  }

  /** Otherwise the store is lost to the next refresh, and the next upload sends it only when the byte
      happens to be in a gap. */
  lemma UndoingStoreIsLost(s: System, id: MemoryId, at: nat, value: byte)
    requires Coherent(s) && id in s.mappings && s.mappings[id].Contains(at) && !Written(s, id, at)
    requires id in s.memory && at < |s.memory[id]| && id in s.truth && at < |s.truth[id]|
    requires !Settles(s, id, at, value)
    ensures var s', k := Store(s, id, at, value), at - s.mappings[id].offset;
            && Shaped(s') && s'.truth[id][at] == value
            && Acquire(s', {id}).mappings[id].shadow[k] != value
            && (Publish(s').memory[id][at] == value <==> Sent(s'.mappings[id], at))
  {
    hide Publish, Sent, Written;
    var s', k := Store(s, id, at, value), at - s.mappings[id].offset;
    assert ByteCoherent(s, id, at);
    assert Shaped(s') && s'.mappings[id].shadow[k] == value == s'.mappings[id].baseline[k];
    RefreshedByte(s', id, at);
    PublishedByte(s', id, at);
  }

  lemma RefreshedByte(s: System, id: MemoryId, i: nat)
    requires Shaped(s) && id in s.mappings && s.mappings[id].Contains(i)
    ensures i < |s.memory[id]|
    ensures var m, k := s.mappings[id], i - s.mappings[id].offset;
            Acquire(s, {id}).mappings[id].shadow[k] == if m.shadow[k] == m.baseline[k] then s.memory[id][i] else m.shadow[k]
  {
  }

  /** The explicit flush the client performs, complete or not, is the system's; so is the invalidation. */
  lemma FlushIsPatched(s: System, id: MemoryId, begin: nat, end: nat, n: nat, memory: seq<byte>)
    requires Shaped(s) && id in s.mappings && Within(s.mappings[id], begin, end) && n <= end - begin
    ensures var m := s.mappings[id];
            MM.Patched(s.memory[id], memory, begin, m.shadow[begin - m.offset..end - m.offset], n)
            <==> Flush(s, id, begin, begin + n).memory == s.memory[id := memory]
  {
    hide MM.Patch;
    var m := s.mappings[id];
    assert m.shadow[begin - m.offset..end - m.offset][..n] == m.shadow[begin - m.offset..begin + n - m.offset];
    assert Flush(s, id, begin, begin + n).memory[id]
           == MM.Patch(s.memory[id], begin, m.shadow[begin - m.offset..end - m.offset][..n]);
    assert s.memory[id := memory][id] == memory;
  }

  lemma InvalidateIsPatched(s: System, id: MemoryId, begin: nat, end: nat, n: nat, shadow: seq<byte>,
                            baseline: seq<byte>)
    requires Shaped(s) && id in s.mappings && Within(s.mappings[id], begin, end) && n <= end - begin
    ensures var m, data := s.mappings[id], s.memory[id][begin..end];
            MM.Patched(m.shadow, shadow, begin - m.offset, data, n)
            && MM.Patched(m.baseline, baseline, begin - m.offset, data, n)
            <==> Invalidate(s, id, begin, begin + n).mappings[id] == Mapping(m.offset, shadow, baseline)
  {
    hide MM.Patch;
    assert s.memory[id][begin..end][..n] == s.memory[id][begin..begin + n];
  }

  /** An explicit flush keeps the copies coherent exactly when it sends no stale byte over a device
      write. */
  lemma FlushExactly(s: System, id: MemoryId, begin: nat, end: nat)
    requires Coherent(s) && id in s.mappings && Within(s.mappings[id], begin, end)
    ensures Coherent(Flush(s, id, begin, end)) <==> FlushSafe(s, id, begin, end)
  {
    var s' := Flush(s, id, begin, end);
    assert Shaped(s');
    forall other, i: nat | other in s'.memory && i < |s'.memory[other]|
      ensures ByteCoherent(s', other, i) <==>
                (other == id && begin <= i < end && Written(s, id, i) ==>
                   s.mappings[id].shadow[i - s.mappings[id].offset] == s.memory[id][i])
    {
      FlushedByte(s, id, begin, end, other, i);
    }
  }

  lemma FlushedByte(s: System, id: MemoryId, begin: nat, end: nat, other: MemoryId, i: nat)
    requires Coherent(s) && id in s.mappings && Within(s.mappings[id], begin, end)
    requires other in s.memory && i < |s.memory[other]|
    ensures var s' := Flush(s, id, begin, end);
            Shaped(s') && |s'.memory[other]| == |s.memory[other]|
            && (ByteCoherent(s', other, i) <==>
                  (other == id && begin <= i < end && Written(s, id, i) ==>
                     s.mappings[id].shadow[i - s.mappings[id].offset] == s.memory[id][i]))
  {
    assert ByteCoherent(s, other, i);
    var s' := Flush(s, id, begin, end);
    assert Written(s', other, i) == Written(s, other, i);
    assert (other, i) in s'.flushed <==>
           ((other, i) in s.flushed || (other == id && begin <= i < end && (other, i) in s.stored)) by {
      assert (other, i).0 == other && (other, i).1 == i;
    }
  }

  /** An explicit invalidation does exactly when it drops no store the server lacks. */
  lemma InvalidateExactly(s: System, id: MemoryId, begin: nat, end: nat)
    requires Coherent(s) && id in s.mappings && Within(s.mappings[id], begin, end)
    ensures Coherent(Invalidate(s, id, begin, end)) <==> InvalidateSafe(s, id, begin, end)
  {
    var s' := Invalidate(s, id, begin, end);
    assert Shaped(s');
    forall other, i: nat | other in s'.memory && i < |s'.memory[other]|
      ensures ByteCoherent(s', other, i) <==>
                (other == id && begin <= i < end && (id, i) in s.stored ==> s.memory[id][i] == s.truth[id][i])
    {
      InvalidatedByte(s, id, begin, end, other, i);
    }
  }

  lemma InvalidatedByte(s: System, id: MemoryId, begin: nat, end: nat, other: MemoryId, i: nat)
    requires Coherent(s) && id in s.mappings && Within(s.mappings[id], begin, end)
    requires other in s.memory && i < |s.memory[other]|
    ensures var s' := Invalidate(s, id, begin, end);
            Shaped(s')
            && (ByteCoherent(s', other, i) <==>
                  (other == id && begin <= i < end && (id, i) in s.stored ==> s.memory[id][i] == s.truth[id][i]))
  {
    assert ByteCoherent(s, other, i);
    var s', m := Invalidate(s, id, begin, end), s.mappings[id];
    InvalidatedElsewhere(s, id, begin, end);
    InvalidatedWrites(s, id, begin, end, other, i);
    hide Coherent, Written, Invalidate;
    if other == id && m.Contains(i) {
      InvalidatedCopies(s, id, begin, end, i);
    }
  }

  lemma InvalidatedElsewhere(s: System, id: MemoryId, begin: nat, end: nat)
    requires Shaped(s) && id in s.mappings && Within(s.mappings[id], begin, end)
    ensures var s' := Invalidate(s, id, begin, end);
            && s' == s.(mappings := s'.mappings, written := s'.written) && Shaped(s')
            && s'.mappings.Keys == s.mappings.Keys
            && forall other | other in s.mappings && other != id :: s'.mappings[other] == s.mappings[other]
  {
  }

  lemma InvalidatedWrites(s: System, id: MemoryId, begin: nat, end: nat, other: MemoryId, i: nat)
    requires Shaped(s) && id in s.mappings && Within(s.mappings[id], begin, end)
    ensures Written(Invalidate(s, id, begin, end), other, i)
            <==> Written(s, other, i) && !(other == id && begin <= i < end)
  {
    var s' := Invalidate(s, id, begin, end);
    if serial :| (serial, other, i) in s.written {
      assert (serial, other, i).1 == other && (serial, other, i).2 == i;
      if other != id || !(begin <= i < end) {
        assert (serial, other, i) in s'.written;
      }
    }
  }

  lemma InvalidatedCopies(s: System, id: MemoryId, begin: nat, end: nat, i: nat)
    requires Shaped(s) && id in s.mappings && Within(s.mappings[id], begin, end) && s.mappings[id].Contains(i)
    ensures var m, m' := s.mappings[id], Invalidate(s, id, begin, end).mappings[id];
            var k := i - m.offset;
            && m'.offset == m.offset && |m'.shadow| == |m.shadow| == |m'.baseline| && i < |s.memory[id]|
            && m'.shadow[k] == (if begin <= i < end then s.memory[id][i] else m.shadow[k])
            && m'.baseline[k] == (if begin <= i < end then s.memory[id][i] else m.baseline[k])
  {
  }

  lemma SomeRunWithin(ts: seq<Run>, k: nat, l: nat, x: int)
    requires k <= l <= |ts| && InSomeRun(ts[..k], x)
    ensures InSomeRun(ts[..l], x)
  {
    var j :| 0 <= j < k && ts[..k][j].begin <= x < ts[..k][j].end;
    assert ts[..l][j] == ts[..k][j];
  }

  /** What an interrupted upload leaves of one byte. */
  lemma StoppedByte(s: System, id: MemoryId, acked: nat, reached: nat, i: nat)
    requires Shaped(s) && id in s.mappings && i < |s.memory[id]|
    requires acked <= reached <= |MM.Requests(s.mappings[id].shadow, s.mappings[id].baseline)|
    ensures var s', m := UploadStop(s, id, acked, reached), s.mappings[id];
            var ts := MM.Requests(m.shadow, m.baseline);
            var told, sent := InSomeRun(ts[..acked], i - m.offset), InSomeRun(ts[..reached], i - m.offset);
            && s'.mappings[id].offset == m.offset && s'.mappings[id].shadow == m.shadow
            && |s'.mappings[id].baseline| == |m.baseline| && |s'.memory[id]| == |s.memory[id]|
            && (told ==> sent) && (sent ==> m.Contains(i) && Sent(m, i))
            && s'.memory[id][i] == (if sent then m.shadow[i - m.offset] else s.memory[id][i])
            && (m.Contains(i) ==> s'.mappings[id].baseline[i - m.offset]
                                  == if told then m.shadow[i - m.offset] else m.baseline[i - m.offset])
  {
    hide MM.Applied, MM.Requests;
    var m := s.mappings[id];
    var ts, x := MM.Requests(m.shadow, m.baseline), i - m.offset;
    MM.AppliedByte(s.memory[id], m.offset, m.shadow, ts[..reached], i);
    if m.Contains(i) {
      MM.AppliedByte(m.baseline, 0, m.shadow, ts[..acked], x);
      assert x - 0 == x;
    }
    if InSomeRun(ts[..acked], x) { SomeRunWithin(ts, acked, reached, x); }
    if InSomeRun(ts[..reached], x) {
      SomeRunWithin(ts, reached, |ts|, x);
      assert ts[..|ts|] == ts;
    }
    MM.RequestsCover(m.shadow, m.baseline, x);
  }

  lemma UploadStopElsewhere(s: System, id: MemoryId, acked: nat, reached: nat)
    requires Shaped(s) && id in s.mappings
    requires acked <= reached <= |MM.Requests(s.mappings[id].shadow, s.mappings[id].baseline)|
    ensures var s' := UploadStop(s, id, acked, reached);
            && s' == s.(memory := s'.memory, mappings := s'.mappings, failed := s'.failed) && Shaped(s')
            && s'.memory.Keys == s.memory.Keys && s'.mappings.Keys == s.mappings.Keys
            && (forall other | other in s.memory && other != id :: s'.memory[other] == s.memory[other])
            && (forall other | other in s.mappings && other != id :: s'.mappings[other] == s.mappings[other])
  {
  }

  /** A byte that was not sent keeps its copies; one that was holds the shadow on the server. */
  lemma StoppedCoherent(s: System, s': System, id: MemoryId, i: nat, sent: bool)
    requires Shaped(s) && Shaped(s') && id in s.mappings && i < |s.memory[id]| && ByteCoherent(s, id, i)
    requires s' == s.(memory := s'.memory, mappings := s'.mappings, failed := s'.failed)
    requires id in s'.mappings && i < |s'.memory[id]|
    requires sent ==> s.mappings[id].Contains(i) && !Written(s, id, i)
    requires var m, m' := s.mappings[id], s'.mappings[id];
             && m'.offset == m.offset && m'.shadow == m.shadow
             && s'.memory[id][i] == (if sent then m.shadow[i - m.offset] else s.memory[id][i])
             && (m.Contains(i) ==> m'.baseline[i - m.offset]
                                   == if sent then m.shadow[i - m.offset] else m.baseline[i - m.offset])
    ensures ByteCoherent(s', id, i)
  {
    assert Written(s', id, i) == Written(s, id, i);
  }

  lemma UploadStopByte(s: System, id: MemoryId, acked: nat, other: MemoryId, i: nat)
    requires Coherent(s) && Allowed(s, UploadStops(id, acked, acked)) && other in s.memory && i < |s.memory[other]|
    ensures Shaped(UploadStop(s, id, acked, acked)) && ByteCoherent(UploadStop(s, id, acked, acked), other, i)
  {
    assert ByteCoherent(s, other, i);
    hide UploadStop, Sent, Coherent;
    var s' := UploadStop(s, id, acked, acked);
    UploadStopElsewhere(s, id, acked, acked);
    if other == id {
      StoppedByte(s, id, acked, acked, i);
      var m := s.mappings[id];
      var ts := MM.Requests(m.shadow, m.baseline);
      hide ByteCoherent;
      StoppedCoherent(s, s', id, i, InSomeRun(ts[..acked], i - m.offset));
    } else {
      assert Written(s', other, i) == Written(s, other, i);
    }
  }

  /** An upload that stops because the server refused a request. */
  lemma UploadStopCoherent(s: System, id: MemoryId, acked: nat)
    requires Coherent(s) && Allowed(s, UploadStops(id, acked, acked))
    ensures Coherent(UploadStop(s, id, acked, acked))
  {
    var s' := UploadStop(s, id, acked, acked);
    hide Sent, ByteCoherent;
    forall other, i: nat | other in s'.memory && i < |s'.memory[other]|
      ensures ByteCoherent(s', other, i)
    {
      UploadStopByte(s, id, acked, other, i);
    }
  }

  lemma RefreshStopByte(s: System, id: MemoryId, n: nat, other: MemoryId, i: nat)
    requires Coherent(s) && Allowed(s, RefreshStops(id, n)) && other in s.memory && i < |s.memory[other]|
    ensures Shaped(RefreshStop(s, id, n)) && ByteCoherent(RefreshStop(s, id, n), other, i)
  {
    assert ByteCoherent(s, other, i);
    assert Written(RefreshStop(s, id, n), other, i) == Written(s, other, i);
    hide Written, Coherent;
    if other == id && s.mappings[id].Contains(i) {
      MergedByte(s, id, n, i - s.mappings[id].offset);
    }
  }

  lemma MergedByte(s: System, id: MemoryId, n: nat, k: nat)
    requires Shaped(s) && id in s.mappings && n <= |s.mappings[id].shadow| && k < |s.mappings[id].shadow|
    ensures var m, m' := s.mappings[id], RefreshStop(s, id, n).mappings[id];
            && m'.offset == m.offset && |m'.shadow| == |m'.baseline| == |m.shadow| && m.offset + k < |s.memory[id]|
            && m'.baseline[k] == (if k < n then s.memory[id][m.offset + k] else m.baseline[k])
            && m'.shadow[k] == (if k < n && m.shadow[k] == m.baseline[k] then s.memory[id][m.offset + k] else m.shadow[k])
  {
    var m := s.mappings[id];
    var r := Refresh(m, s.memory[id]);
    assert (r.shadow[..n] + m.shadow[n..])[k] == if k < n then r.shadow[k] else m.shadow[k];
    assert (r.baseline[..n] + m.baseline[n..])[k] == if k < n then r.baseline[k] else m.baseline[k];
  }

  lemma RefreshStopCoherent(s: System, id: MemoryId, n: nat)
    requires Coherent(s) && Allowed(s, RefreshStops(id, n))
    ensures Coherent(RefreshStop(s, id, n))
  {
    var s' := RefreshStop(s, id, n);
    hide ByteCoherent;
    forall other, i: nat | other in s'.memory && i < |s'.memory[other]|
      ensures ByteCoherent(s', other, i)
    {
      RefreshStopByte(s, id, n, other, i);
    }
  }

  /** The interrupted transfers the client performs are these. */
  lemma UploadStopIsPartly(v: MM.View, w: MM.View, s: System, acked: nat) returns (reached: nat)
    requires v.Valid() && v.active && Shaped(s) && v.id in s.mappings && s.memory[v.id] == v.memory
    requires s.mappings[v.id] == Mapping(v.offset, v.shadow, v.baseline)
    requires MM.PartlyPublished(v, w, acked)
    ensures acked <= reached <= acked + 1 && reached <= |MM.Requests(v.shadow, v.baseline)|
    ensures UploadStop(s, v.id, acked, reached)
            == s.(memory := s.memory[v.id := w.memory],
                  mappings := s.mappings[v.id := Mapping(w.offset, w.shadow, w.baseline)],
                  failed := s.failed || acked < reached)
  {
    hide MM.Applied, MM.Requests;
    var ts := MM.Requests(v.shadow, v.baseline);
    reached := if w.memory == MM.Applied(v.memory, v.offset, v.shadow, ts[..acked]) then acked else acked + 1;
    assert reached <= |ts| && w.memory == MM.Applied(v.memory, v.offset, v.shadow, ts[..reached]);
  }

  lemma RefreshStopIsPartly(v: MM.View, w: MM.View, s: System, n: nat)
    requires v.Valid() && v.active && Shaped(s) && v.id in s.mappings && s.memory[v.id] == v.memory
    requires s.mappings[v.id] == Mapping(v.offset, v.shadow, v.baseline) && n <= |v.shadow|
    ensures MM.PartlyAcquired(v, w, n) <==>
              && w == v.(shadow := w.shadow, baseline := w.baseline)
              && RefreshStop(s, v.id, n) == s.(mappings := s.mappings[v.id := Mapping(w.offset, w.shadow, w.baseline)])
  {
    hide MM.Merged;
    var m' := RefreshStop(s, v.id, n).mappings[v.id];
    var t := s.(mappings := s.mappings[v.id := Mapping(w.offset, w.shadow, w.baseline)]);
    assert t.mappings[v.id] == Mapping(w.offset, w.shadow, w.baseline);
  }

  lemma DeviceWriteCoherent(s: System, serial: nat, id: MemoryId, at: nat, value: byte)
    requires Coherent(s) && Allowed(s, DeviceWrites(serial, id, at, value))
    ensures Coherent(After(s, DeviceWrites(serial, id, at, value)))
  {
    var s' := After(s, DeviceWrites(serial, id, at, value));
    assert (serial, id, at) in s'.written;
    forall other, i: nat | other in s'.memory && i < |s'.memory[other]|
      ensures ByteCoherent(s', other, i)
    {
      assert ByteCoherent(s, other, i);
      if writer :| (writer, other, i) in s.written {
        assert (writer, other, i) in s'.written;
      }
    }
  }

  lemma AllocateCoherent(s: System, id: MemoryId, bytes: seq<byte>)
    requires Coherent(s) && Allowed(s, Allocates(id, bytes))
    requires forall h | h in s.stored :: h.0 in s.memory
    ensures Coherent(After(s, Allocates(id, bytes)))
  {
    var s' := After(s, Allocates(id, bytes));
    forall other, i: nat | other in s'.memory && i < |s'.memory[other]|
      ensures ByteCoherent(s', other, i)
    {
      if other != id {
        assert ByteCoherent(s, other, i);
        assert Written(s', other, i) == Written(s, other, i);
      }
    }
  }

  /** What the application reads of a byte the device did not write is the shared memory's. */
  ghost predicate ByteRead(s: System, id: MemoryId, i: nat)
    requires Shaped(s) && id in s.mappings && s.mappings[id].Contains(i)
  {
    Written(s, id, i) || s.mappings[id].shadow[i - s.mappings[id].offset] == s.truth[id][i]
  }

  ghost predicate AllRead(s: System) {
    Shaped(s) && forall id, i: nat | id in s.mappings && s.mappings[id].Contains(i) :: ByteRead(s, id, i)
  }

  /** The application reads its own stores; and while the connection works the copies are coherent, the
      tables sound, and only bytes of allocated memory are stored. */
  ghost predicate Invariant(s: System) {
    && AllRead(s)
    && (!s.failed ==> Coherent(s) && HB.Sound(s.tables, s.history) && forall h | h in s.stored :: h.0 in s.memory)
  }

  lemma CoherentReads(s: System)
    requires Coherent(s)
    ensures AllRead(s)
  {
    forall id, i: nat | id in s.mappings && s.mappings[id].Contains(i) ensures ByteRead(s, id, i) {
      assert ByteCoherent(s, id, i);
    }
  }

  lemma FailedShaped(s: System, e: Event)
    requires Shaped(s) && Allowed(s, e)
    requires e.HostStores? || e.DeviceWrites? || e.Unmaps? || e.Disconnects? || e.UploadStops?
    ensures Shaped(After(s, e))
  {
    if e.UploadStops? { UploadStopElsewhere(s, e.id, e.acked, e.reached); }
  }

  lemma StopRead(s: System, stopped: MemoryId, acked: nat, reached: nat, id: MemoryId, i: nat)
    requires AllRead(s) && stopped in s.mappings
    requires acked <= reached <= |MM.Requests(s.mappings[stopped].shadow, s.mappings[stopped].baseline)|
    requires var s' := UploadStop(s, stopped, acked, reached);
             id in s'.mappings && s'.mappings[id].Contains(i) && Shaped(s')
    ensures ByteRead(UploadStop(s, stopped, acked, reached), id, i)
  {
    var s' := UploadStop(s, stopped, acked, reached);
    assert s'.mappings[stopped].shadow == s.mappings[stopped].shadow;
    UploadStopElsewhere(s, stopped, acked, reached);
    hide UploadStop;
    assert s.mappings[id].Contains(i) && ByteRead(s, id, i);
    assert Written(s', id, i) == Written(s, id, i);
  }

  lemma StillRead(s: System, e: Event, id: MemoryId, i: nat)
    requires AllRead(s) && Allowed(s, e)
    requires e.HostStores? || e.DeviceWrites? || e.Unmaps? || e.Disconnects?
    requires id in After(s, e).mappings && After(s, e).mappings[id].Contains(i) && Shaped(After(s, e))
    ensures ByteRead(After(s, e), id, i)
  {
    var s' := After(s, e);
    assert s.mappings[id].Contains(i) && ByteRead(s, id, i);
    hide AllRead, Allowed;
    if serial :| (serial, id, i) in s.written {
      assert (serial, id, i) in s'.written;
    }
    if e.DeviceWrites? && e.id == id && e.i == i {
      assert (e.serial, id, i) in s'.written;
    }
  }

  /** Also when the connection fails, and afterwards. */
  lemma FailedReads(s: System, e: Event)
    requires AllRead(s) && Allowed(s, e)
    requires e.HostStores? || e.DeviceWrites? || e.Unmaps? || e.Disconnects? || e.UploadStops?
    ensures AllRead(After(s, e))
  {
    FailedShaped(s, e);
    var s' := After(s, e);
    hide UploadStop, ByteRead;
    forall id, i: nat | id in s'.mappings && s'.mappings[id].Contains(i) ensures ByteRead(s', id, i) {
      if e.UploadStops? {
        StopRead(s, e.id, e.acked, e.reached, id, i);
      } else {
        StillRead(s, e, id, i);
      }
    }
  }

  lemma EventCoherent(s: System, e: Event)
    requires Invariant(s) && Allowed(s, e) && !After(s, e).failed && !e.Calls?
    ensures !s.failed && Coherent(After(s, e))
  {
    match e
    case Allocates(id, bytes) => AllocateCoherent(s, id, bytes);
    case Maps(id, offset, size) => MapCoherent(s, id, offset, size);
    case Unmaps(id, sent) => UnmapExactly(s, id, sent);
    case HostStores(id, i, value) => StoreExactly(s, id, i, value);
    case DeviceWrites(serial, id, i, value) => DeviceWriteCoherent(s, serial, id, i, value);
    case UploadStops(id, acked, reached) => UploadStopCoherent(s, id, acked);
    case RefreshStops(id, n) => RefreshStopCoherent(s, id, n);
    case Flushes(id, begin, end) => FlushExactly(s, id, begin, end);
    case Invalidates(id, begin, end) => InvalidateExactly(s, id, begin, end);
    case Disconnects =>
    case Calls(_) =>
  }

  lemma StoredStays(s: System, e: Event)
    requires Shaped(s) && Allowed(s, e) && forall h | h in s.stored :: h.0 in s.memory
    ensures forall h | h in After(s, e).stored :: h.0 in After(s, e).memory
  {
  }

  lemma EventKeeps(s: System, e: Event)
    requires Invariant(s) && Allowed(s, e)
    ensures Invariant(After(s, e))
  {
    var s' := After(s, e);
    if s'.failed {
      FailedReads(s, e);
    } else if e.Calls? {
      CallCoherent(s, e.step);
      Runs.StepSound(s.tables, s.history, e.step);
      CoherentReads(s');
      StoredStays(s, e);
    } else {
      EventCoherent(s, e);
      CoherentReads(s');
      StoredStays(s, e);
    }
  }

  // ---------------------------------------------------------------------------
  // Runs
  // ---------------------------------------------------------------------------

  const INITIAL := System(Runs.INITIAL, HB.EMPTY, map[], map[], map[], {}, {}, {}, false)

  /** `states` are the states of a run of `events`. */
  ghost predicate RunOf(events: seq<Event>, states: seq<System>) {
    && |states| == |events| + 1 && states[0] == INITIAL
    && forall k | 0 <= k < |events| :: StepsTo(states[k], events[k], states[k + 1])
  }

  ghost predicate StepsTo(s: System, e: Event, s': System) {
    Shaped(s) && Allowed(s, e) && s' == After(s, e)
  }

  lemma InitialInvariant()
    ensures Invariant(INITIAL)
  {
    Runs.RunSound([]);
  }

  lemma {:induction false} RunInvariant(events: seq<Event>, states: seq<System>, k: nat)
    requires RunOf(events, states) && k <= |events|
    ensures Invariant(states[k])
    decreases k
  {
    if k == 0 {
      InitialInvariant();
    } else {
      RunInvariant(events, states, k - 1);
      assert StepsTo(states[k - 1], events[k - 1], states[k]);
      EventKeeps(states[k - 1], events[k - 1]);
    }
  }

  /** In every run, when a submission is made the server holds exactly the shared memory. */
  lemma SubmitsSharedMemory(events: seq<Event>, states: seq<System>, k: nat)
    requires RunOf(events, states) && k < |events| && events[k].Calls? && Publishes(events[k].step)
    ensures states[k + 1].memory == states[k].truth == states[k + 1].truth
    ensures var mappings := states[k + 1].mappings;
            forall id | id in mappings :: mappings[id].baseline == mappings[id].shadow
  {
    RunInvariant(events, states, k);
    assert StepsTo(states[k], events[k], states[k + 1]);
    PublishCoherent(states[k]);
  }

  lemma ReadOrWritten(s: System, id: MemoryId, i: nat)
    requires Coherent(s) && id in s.mappings && s.mappings[id].Contains(i)
    ensures id in s.truth && i < |s.truth[id]|
    ensures s.mappings[id].shadow[i - s.mappings[id].offset] == s.truth[id][i] || Written(s, id, i)
    ensures forall serial | (serial, id, i) in s.written :: (serial, id) in s.history.graph.unacquired
  {
    assert ByteCoherent(s, id, i);
  }

  /** What an observation leaves unacquired does not precede what it shows. */
  lemma LeftUnacquired(s: System, e: Event, s': System, serial: nat, id: MemoryId)
    requires Invariant(s) && StepsTo(s, e, s') && e.Calls?
    requires e.step.QueueObserved? || e.step.DeviceObserved? || e.step.FencesObserved? || e.step.CounterObserved?
    ensures s'.truth == s.truth && s'.failed == s.failed == false
    ensures (serial, id) in s'.history.graph.unacquired ==>
              && (serial, id) in s.history.graph.unacquired
              && !BeforeAny(s.history.graph, serial, Runs.Shown(s.tables, s.history, e.step))
  {
    var step := e.step;
    Runs.ShownCovered(s.tables, s.history, step);
    AcquireCovering(s.history.graph, Runs.Shown(s.tables, s.history, step), Runs.Refreshed(s.tables, s.history, step));
  }

  /** The byte reads as the shared memory, or was written by a submission that need not be complete. */
  ghost predicate ReadAfter(s: System, e: Event, s': System, id: MemoryId, i: nat)
    requires e.Calls? && id in s'.mappings && s'.mappings[id].Contains(i)
  {
    var m := s'.mappings[id];
    && s'.truth == s.truth && id in s'.truth && i < |s'.truth[id]|
    && (|| m.shadow[i - m.offset] == s'.truth[id][i]
        || exists serial :: (serial, id, i) in s'.written && (serial, id) in s.history.graph.unacquired
             && !BeforeAny(s.history.graph, serial, Runs.Shown(s.tables, s.history, e.step)))
  }

  lemma ObservedByte(s: System, e: Event, s': System, id: MemoryId, i: nat)
    requires Invariant(s) && Invariant(s') && StepsTo(s, e, s') && e.Calls?
    requires e.step.QueueObserved? || e.step.DeviceObserved? || e.step.FencesObserved? || e.step.CounterObserved?
    requires id in s'.mappings && s'.mappings[id].Contains(i)
    ensures ReadAfter(s, e, s', id, i)
  {
    hide StepsTo, Runs.Shown, Allowed;
    LeftUnacquired(s, e, s', 0, id);
    ReadOrWritten(s', id, i);
    if serial :| (serial, id, i) in s'.written {
      LeftUnacquired(s, e, s', serial, id);
    }
  }

  /** In every run, after a successful observation the application reads the shared memory, except at
      bytes written by a submission that need not be complete yet. */
  lemma ObservationReadsSharedMemory(events: seq<Event>, states: seq<System>, k: nat, id: MemoryId, i: nat)
    requires RunOf(events, states) && k < |events| && events[k].Calls?
    requires var step := events[k].step;
             step.QueueObserved? || step.DeviceObserved? || step.FencesObserved? || step.CounterObserved?
    requires id in states[k + 1].mappings && states[k + 1].mappings[id].Contains(i)
    ensures ReadAfter(states[k], events[k], states[k + 1], id, i)
  {
    RunInvariant(events, states, k);
    RunInvariant(events, states, k + 1);
    assert StepsTo(states[k], events[k], states[k + 1]);
    hide RunOf, StepsTo, Invariant, ReadAfter;
    ObservedByte(states[k], events[k], states[k + 1], id, i);
  }

  lemma RefreshedMapping(s: System, ids: set<MemoryId>, id: MemoryId)
    requires Coherent(s) && id in s.mappings && id in ids
    ensures var m, truth := Acquire(s, ids).mappings[id], s.truth;
            m.offset + |m.shadow| <= |truth[id]| && m.shadow == truth[id][m.offset..m.offset + |m.shadow|]
  {
    var t := Acquire(s, ids);
    AcquireCoherent(s, ids);
    var m := t.mappings[id];
    forall j: nat | j < |m.shadow|
      ensures m.shadow[j] == s.truth[id][m.offset + j]
    {
      assert ByteCoherent(t, id, m.offset + j);
      assert !Written(t, id, m.offset + j);
    }
  }

  /** The memory an observation refreshes reads as the shared memory at every byte. */
  lemma RefreshedReadsSharedMemory(events: seq<Event>, states: seq<System>, k: nat, id: MemoryId)
    requires RunOf(events, states) && k < |events| && events[k].Calls? && !Publishes(events[k].step)
    requires id in states[k].mappings && Shaped(states[k]) && id in RefreshedBy(states[k], events[k].step)
    ensures var s' := states[k + 1];
            && id in s'.mappings && id in s'.truth && s'.truth == states[k].truth
            && var m := s'.mappings[id];
               m.offset + |m.shadow| <= |s'.truth[id]| && m.shadow == s'.truth[id][m.offset..m.offset + |m.shadow|]
  {
    RunInvariant(events, states, k);
    assert StepsTo(states[k], events[k], states[k + 1]);
    RefreshedMapping(states[k], RefreshedBy(states[k], events[k].step), id);
  }

  /** In every run, also after the connection has failed, the application reads the shared memory at
      every byte no submission wrote since it was last refreshed: its own stores are never lost to it. */
  lemma HostReadsItsStores(events: seq<Event>, states: seq<System>, k: nat, id: MemoryId, i: nat)
    requires RunOf(events, states) && k <= |events|
    requires id in states[k].mappings && states[k].mappings[id].Contains(i) && !Written(states[k], id, i)
    ensures var s := states[k]; var at := i - s.mappings[id].offset;
            at < |s.mappings[id].shadow| && id in s.truth && i < |s.truth[id]| && s.mappings[id].shadow[at] == s.truth[id][i]
  {
    RunInvariant(events, states, k);
    assert ByteRead(states[k], id, i);
  }
}
