/** The upload and refresh loops over a device's coherent mappings, in place. */
module CoherentMappings {
  import opened DirtyRuns
  import opened Limits
  import opened MappedMemory
  import opened Options
  import Transfers = TransferRanges

  /** The peer that owns the real memory. `outcome(k)` is the fate of its k-th round trip. */
  class Server {
    var memory: map<MemoryId, seq<byte>>
    var trips: nat
    const outcome: nat -> Outcome

    constructor (memory: map<MemoryId, seq<byte>>, outcome: nat -> Outcome)
      ensures this.memory == memory && this.outcome == outcome && trips == 0
    {
      this.memory := memory;
      this.outcome := outcome;
      trips := 0;
    }

    /** The server's validation of one transfer. */
    predicate Accepts(id: MemoryId, offset: nat, size: nat)
      reads this`memory
    {
      id in memory && 0 < size <= MAX_CHUNK && offset + size <= |memory[id]|
    }

    /** Every round trip since the one numbered `from` was answered with success. */
    predicate DeliveredSince(from: nat)
      reads this`trips
    {
      forall t: nat | from <= t < trips :: outcome(t).Delivered?
    }

    method Flush(id: MemoryId, offset: nat, data: seq<byte>) returns (acked: bool)
      modifies this`memory, this`trips
      ensures trips == old(trips) + 1
      ensures acked == (old(Accepts(id, offset, |data|)) && outcome(old(trips)).Delivered?)
      ensures memory == if old(Accepts(id, offset, |data|)) && !outcome(old(trips)).LostRequest?
                        then old(memory)[id := Patch(old(memory)[id], offset, data)]
                        else old(memory)
    {
      var fate, valid := outcome(trips), Accepts(id, offset, |data|);
      trips := trips + 1;
      if valid && !fate.LostRequest? {
        memory := memory[id := Patch(memory[id], offset, data)];
      }
      acked := valid && fate.Delivered?;
    }

    method Download(id: MemoryId, offset: nat, size: nat) returns (data: Option<seq<byte>>)
      modifies this`trips
      ensures trips == old(trips) + 1
      ensures data == if Accepts(id, offset, size) && outcome(old(trips)).Delivered?
                      then Some(memory[id][offset..offset + size]) else None
    {
      var fate := outcome(trips);
      trips := trips + 1;
      data := if Accepts(id, offset, size) && fate.Delivered?
              then Some(memory[id][offset..offset + size]) else None;
    }
  }

  class MappedRange {
    const memoryId: MemoryId
    const offset: nat
    const emulatedCoherent: bool
    const shadow: array<byte>
    const baseline: array<byte>
    var transferReady: bool

    constructor (memoryId: MemoryId, offset: nat, emulatedCoherent: bool, transferReady: bool,
                 shadow: array<byte>, baseline: array<byte>)
      ensures this.memoryId == memoryId && this.offset == offset
      ensures this.emulatedCoherent == emulatedCoherent && this.transferReady == transferReady
      ensures this.shadow == shadow && this.baseline == baseline
    {
      this.memoryId, this.offset := memoryId, offset;
      this.emulatedCoherent, this.transferReady := emulatedCoherent, transferReady;
      this.shadow, this.baseline := shadow, baseline;
    }

    /** The mapping takes part in uploads and refreshes. */
    predicate Active()
      reads this
    {
      emulatedCoherent && transferReady
    }
  }

  /** The end of the cluster that begins at dirty position `begin`. */
  method RunEnd(shadow: array<byte>, baseline: array<byte>, begin: nat) returns (end: nat)
    requires shadow.Length == baseline.Length
    requires begin < shadow.Length && shadow[begin] != baseline[begin]
    ensures IsRun(shadow[..], baseline[..], Run(begin, end))
    ensures Clean(shadow[..], baseline[..], end, end + COALESCE_GAP)
  {
    ghost var s, b := shadow[..], baseline[..];
    end := begin + 1;
    while end < shadow.Length
      invariant IsRun(s, b, Run(begin, end))
    {
      var gap := end;
      while end < shadow.Length && shadow[end] == baseline[end] && end - gap < COALESCE_GAP
        invariant gap <= end <= shadow.Length && end - gap <= COALESCE_GAP
        invariant Clean(s, b, gap, end)
      {
        end := end + 1;
      }
      if end == shadow.Length || end - gap == COALESCE_GAP {
        return gap;
      }
      ghost var dirty := end;
      while end < shadow.Length && shadow[end] != baseline[end]
        invariant dirty <= end <= shadow.Length
        invariant forall j | dirty <= j < end :: s[j] != b[j]
      {
        end := end + 1;
      }
      ExtendRun(s, b, begin, gap, dirty, end);
    }
  }

  /** A run, a short clean gap and a stretch of dirty bytes make a longer run. */
  lemma ExtendRun(s: seq<byte>, b: seq<byte>, begin: nat, gap: nat, dirty: nat, end: nat)
    requires |s| == |b| && gap <= dirty < end <= |s| && dirty - gap < COALESCE_GAP
    requires IsRun(s, b, Run(begin, gap))
    requires forall j | dirty <= j < end :: s[j] != b[j]
    ensures IsRun(s, b, Run(begin, end))
  {
    forall g: nat | begin <= g && g + COALESCE_GAP <= end
      ensures !CleanGapAt(s, b, g)
    {
      var w := if g < gap then gap - 1 else if g < dirty then dirty else g;
      assert s[w] != b[w];
    }
  }

  // ---------------------------------------------------------------------------
  // Upload
  // ---------------------------------------------------------------------------

  /** Baseline and server record exactly the first `k` of the requests `ts`. */
  ghost predicate Recorded(s: seq<byte>, ts: seq<Run>, b0: seq<byte>, b1: seq<byte>,
                           mem0: seq<byte>, mem1: seq<byte>, at: nat, k: nat)
    requires |s| == |b0| && at + |s| <= |mem0| && InBounds(ts, |s|) && k <= |ts|
  {
    b1 == Applied(b0, 0, s, ts[..k]) && mem1 == Applied(mem0, at, s, ts[..k])
  }

  /** The baseline records exactly the first `k` requests; the server has those and at most
      one more, whose reply was lost. */
  ghost predicate Progress(s: seq<byte>, ts: seq<Run>, b0: seq<byte>, b1: seq<byte>,
                           mem0: seq<byte>, mem1: seq<byte>, at: nat, k: nat)
    requires |s| == |b0| && at + |s| <= |mem0| && InBounds(ts, |s|) && k <= |ts|
  {
    && b1 == Applied(b0, 0, s, ts[..k])
    && (mem1 == Applied(mem0, at, s, ts[..k]) || (k < |ts| && mem1 == Applied(mem0, at, s, ts[..k + 1])))
  }

  lemma RecordNext(dst: seq<byte>, at: nat, s: seq<byte>, ts: seq<Run>, k: nat)
    requires at + |s| <= |dst| && InBounds(ts, |s|) && k < |ts|
    ensures Applied(dst, at, s, ts[..k + 1])
            == Patch(Applied(dst, at, s, ts[..k]), at + ts[k].begin, s[ts[k].begin..ts[k].end])
  {
    assert ts[..k + 1][..k] == ts[..k];
  }

  /** The chunks of `begin..end` are the requests of `ts` from position `k` to `goal`. */
  ghost predicate Next(ts: seq<Run>, k: nat, goal: nat, begin: nat, end: nat)
    decreases end - begin
  {
    && k <= goal <= |ts| && begin <= end
    && if begin == end then k == goal
       else
         var chunk := if end - begin < MAX_CHUNK then end - begin else MAX_CHUNK;
         k < goal && ts[k] == Run(begin, begin + chunk) && Next(ts, k + 1, goal, begin + chunk, end)
  }

  lemma {:induction false} ChunksAreNext(ts: seq<Run>, k: nat, begin: nat, end: nat)
    requires begin <= end && k + |Chunks(begin, end)| <= |ts|
    requires ts[k..k + |Chunks(begin, end)|] == Chunks(begin, end)
    ensures Next(ts, k, k + |Chunks(begin, end)|, begin, end)
    decreases end - begin
  {
    if begin < end {
      var chunk := if end - begin < MAX_CHUNK then end - begin else MAX_CHUNK;
      var all, rest := Chunks(begin, end), Chunks(begin + chunk, end);
      assert all == [Run(begin, begin + chunk)] + rest;
      assert ts[k..k + |all|][0] == ts[k] && ts[k..k + |all|][1..] == ts[k + 1..k + 1 + |rest|];
      ChunksAreNext(ts, k + 1, begin + chunk, end);
    }
  }

  /** An upload of `m`, which began with baseline `b0` and server bytes `mem0`, has had exactly
      the first `k` of the requests `ts` acknowledged and nothing more applied. */
  ghost predicate Uploaded(server: Server, m: MappedRange, ts: seq<Run>, b0: seq<byte>,
                           mem0: seq<byte>, k: nat)
    reads server`memory, m.shadow, m.baseline
  {
    && Shaped(server, m, ts, b0, mem0) && k <= |ts|
    && Recorded(m.shadow[..], ts, b0, m.baseline[..], mem0, server.memory[m.memoryId], m.offset, k)
  }

  /** As `Uploaded`, but one further request may have been applied without a reply. */
  ghost predicate PartlyUploaded(server: Server, m: MappedRange, ts: seq<Run>, b0: seq<byte>,
                                 mem0: seq<byte>, k: nat)
    reads server`memory, m.shadow, m.baseline
  {
    && Shaped(server, m, ts, b0, mem0) && k <= |ts|
    && Progress(m.shadow[..], ts, b0, m.baseline[..], mem0, server.memory[m.memoryId], m.offset, k)
  }

  ghost predicate Shaped(server: Server, m: MappedRange, ts: seq<Run>, b0: seq<byte>, mem0: seq<byte>)
    reads server`memory
  {
    && m.shadow.Length == m.baseline.Length == |b0| && m.shadow != m.baseline
    && m.memoryId in server.memory && m.offset + m.shadow.Length <= |mem0|
    && InBounds(ts, m.shadow.Length)
  }

  /** Nothing on the server changed but memory `id`. */
  ghost predicate OnlyMemory(before: map<MemoryId, seq<byte>>, after: map<MemoryId, seq<byte>>, id: MemoryId) {
    id in after && after == before[id := after[id]]
  }

  /** One upload request. Only an acknowledged request reaches the baseline. */
  method SendChunk(server: Server, m: MappedRange, done: nat, chunk: nat, ghost ts: seq<Run>,
                   ghost b0: seq<byte>, ghost mem0: seq<byte>, ghost k: nat) returns (ok: bool)
    requires Uploaded(server, m, ts, b0, mem0, k)
    requires k < |ts| && ts[k] == Run(done, done + chunk) && 0 < chunk <= MAX_CHUNK
    modifies server`memory, server`trips, m.baseline
    ensures OnlyMemory(old(server.memory), server.memory, m.memoryId)
    ensures server.trips == old(server.trips) + 1 && (ok <==> server.outcome(old(server.trips)).Delivered?)
    ensures ok ==> Uploaded(server, m, ts, b0, mem0, k + 1)
    ensures !ok ==> PartlyUploaded(server, m, ts, b0, mem0, k)
    ensures forall i | 0 <= i < m.baseline.Length && !(done <= i < done + chunk) ::
              m.baseline[i] == old(m.baseline[i])
  {
    hide Applied;
    var data := m.shadow[done..done + chunk];
    assert data == m.shadow[..][done..done + chunk];
    RecordNext(mem0, m.offset, m.shadow[..], ts, k);
    ok := server.Flush(m.memoryId, m.offset + done, data);
    if ok {
      RecordNext(b0, 0, m.shadow[..], ts, k);
      CopyInto(m.baseline, m.shadow, done, chunk);
    }
  }

  /** One run, request by request. */
  method SendRun(server: Server, m: MappedRange, run: Run, ghost ts: seq<Run>, ghost b0: seq<byte>,
                 ghost mem0: seq<byte>, ghost k0: nat, ghost goal: nat) returns (ok: bool, ghost k: nat)
    requires Uploaded(server, m, ts, b0, mem0, k0)
    requires Next(ts, k0, goal, run.begin, run.end)
    modifies server`memory, server`trips, m.baseline
    ensures OnlyMemory(old(server.memory), server.memory, m.memoryId)
    ensures server.trips >= old(server.trips) && (ok <==> server.DeliveredSince(old(server.trips)))
    ensures ok ==> k == goal && Uploaded(server, m, ts, b0, mem0, goal)
    ensures !ok ==> PartlyUploaded(server, m, ts, b0, mem0, k)
    ensures forall i | run.end <= i < m.baseline.Length :: m.baseline[i] == old(m.baseline[i])
  {
    hide Recorded, Progress;
    ok := true;
    k := k0;
    var done := run.begin;
    while done < run.end
      invariant run.begin <= done <= run.end && ok
      invariant server.trips >= old(server.trips) && server.DeliveredSince(old(server.trips))
      invariant Next(ts, k, goal, done, run.end)
      invariant OnlyMemory(old(server.memory), server.memory, m.memoryId)
      invariant Uploaded(server, m, ts, b0, mem0, k)
      invariant forall i | run.end <= i < m.baseline.Length :: m.baseline[i] == old(m.baseline[i])
    {
      var chunk := if run.end - done < MAX_CHUNK then run.end - done else MAX_CHUNK;
      ok := SendChunk(server, m, done, chunk, ts, b0, mem0, k);
      if !ok {
        return;
      }
      k := k + 1;
      done := done + chunk;
    }
  }

  /** `memcpy` of `count` bytes at the same position of two buffers. */
  method CopyInto(dst: array<byte>, src: array<byte>, at: nat, count: nat)
    requires dst != src && at + count <= dst.Length && at + count <= src.Length
    modifies dst
    ensures dst[..] == Patch(old(dst[..]), at, src[at..at + count])
  {
    for i := 0 to count
      invariant dst[..] == Patch(old(dst[..]), at, src[at..at + i])
    {
      dst[at + i] := src[at + i];
    }
  }

  /** Everything an upload of `m` relies on. */
  ghost predicate Mapped(server: Server, m: MappedRange)
    reads server`memory
  {
    && m.shadow.Length == m.baseline.Length && m.shadow != m.baseline
    && m.memoryId in server.memory && m.offset + m.shadow.Length <= |server.memory[m.memoryId]|
  }

  /** The requests of the first `found` clusters are the first `k` requests. */
  ghost predicate AtCluster(runs: seq<Run>, size: nat, ts: seq<Run>, found: nat, k: nat) {
    && Ordered(runs, size) && found <= |runs| && ts == Plan(runs, size)
    && k == |Plan(runs[..found], size)| <= |ts|
  }

  lemma ClusterIsNext(runs: seq<Run>, size: nat, ts: seq<Run>, found: nat, k: nat)
    requires AtCluster(runs, size, ts, found, k) && found < |runs|
    ensures var goal := k + |Chunks(runs[found].begin, runs[found].end)|;
            && Next(ts, k, goal, runs[found].begin, runs[found].end)
            && AtCluster(runs, size, ts, found + 1, goal)
  {
    hide Plan, Chunks, Next;
    var head, tail := runs[..found + 1], runs[found + 1..];
    var chunks := Chunks(runs[found].begin, runs[found].end);
    assert head + tail == runs;
    PlanConcat(head, tail, size);
    PlanOneMore(runs, size, found);
    Middle(Plan(runs[..found], size), chunks, Plan(tail, size));
    ChunksAreNext(ts, k, runs[found].begin, runs[found].end);
  }

  lemma PlanOneMore(runs: seq<Run>, size: nat, found: nat)
    requires Ordered(runs, size) && found < |runs|
    ensures Plan(runs[..found + 1], size) == Plan(runs[..found], size) + Chunks(runs[found].begin, runs[found].end)
  {
    assert runs[..found + 1][..found] == runs[..found];
  }

  lemma Middle(a: seq<Run>, b: seq<Run>, c: seq<Run>)
    ensures |a + b + c| >= |a| + |b| && (a + b + c)[|a|..|a| + |b|] == b
  {
  }

  /** Two baselines that agree from `from` on see the same run there. */
  lemma SameRun(s: seq<byte>, b: seq<byte>, b0: seq<byte>, from: nat, r: Run)
    requires |s| == |b| == |b0| && from <= r.begin
    requires forall i | from <= i < |s| :: b[i] == b0[i]
    requires IsRun(s, b, r) && Clean(s, b, r.end, r.end + COALESCE_GAP)
    ensures IsRun(s, b0, r) && Clean(s, b0, r.end, r.end + COALESCE_GAP)
  {
    forall g: nat | r.begin <= g && g + COALESCE_GAP <= r.end
      ensures !CleanGapAt(s, b0, g)
    {
      assert !CleanGapAt(s, b, g);
    }
  }

  /** The scan continues at `begin`: the clusters from there on are the rest of `runs`. */
  ghost predicate ScanAt(s: seq<byte>, b0: seq<byte>, begin: nat, found: nat)
    requires |s| == |b0|
  {
    begin <= |s| && found <= |Coalesce(s, b0, 0)| && Coalesce(s, b0, begin) == Coalesce(s, b0, 0)[found..]
  }

  lemma ScanTakesRun(s: seq<byte>, b: seq<byte>, b0: seq<byte>, begin: nat, found: nat, r: Run)
    requires |s| == |b| == |b0| && ScanAt(s, b0, begin, found)
    requires begin <= r.begin && Clean(s, b, begin, r.begin)
    requires forall i | begin <= i < |s| :: b[i] == b0[i]
    requires IsRun(s, b, r) && Clean(s, b, r.end, r.end + COALESCE_GAP)
    ensures found < |Coalesce(s, b0, 0)| && Coalesce(s, b0, 0)[found] == r
    ensures ScanAt(s, b0, r.end, found + 1)
  {
    SameRun(s, b, b0, begin, r);
    CoalesceSkipsClean(s, b0, begin, r.begin);
    CoalesceTakesRun(s, b0, r);
    var runs := Coalesce(s, b0, 0);
    assert runs[found..] == [r] + Coalesce(s, b0, r.end);
    assert runs[found..][0] == r && runs[found..][1..] == runs[found + 1..];
  }

  lemma ScanEnds(s: seq<byte>, b: seq<byte>, b0: seq<byte>, begin: nat, found: nat)
    requires |s| == |b| == |b0| && ScanAt(s, b0, begin, found) && Clean(s, b, begin, |s|)
    requires forall i | begin <= i < |s| :: b[i] == b0[i]
    ensures found == |Coalesce(s, b0, 0)|
  {
    CoalesceSkipsClean(s, b0, begin, |s|);
  }

  /** The first dirty position at or after `from`, or the size. */
  method SkipClean(shadow: array<byte>, baseline: array<byte>, from: nat) returns (begin: nat)
    requires shadow.Length == baseline.Length && from <= shadow.Length
    ensures from <= begin <= shadow.Length && Clean(shadow[..], baseline[..], from, begin)
    ensures begin < shadow.Length ==> shadow[begin] != baseline[begin]
  {
    begin := from;
    while begin < shadow.Length && shadow[begin] == baseline[begin]
      invariant from <= begin <= shadow.Length && Clean(shadow[..], baseline[..], from, begin)
    {
      begin := begin + 1;
    }
  }

  /** An upload has dealt with everything before `begin`. */
  ghost predicate Scanning(server: Server, m: MappedRange, b0: seq<byte>, mem0: seq<byte>,
                           begin: nat, found: nat, k: nat)
    reads server`memory, m.shadow, m.baseline
  {
    && m.shadow.Length == |b0| && begin <= |b0|
    && ScanAt(m.shadow[..], b0, begin, found)
    && AtCluster(Coalesce(m.shadow[..], b0, 0), |b0|, Requests(m.shadow[..], b0), found, k)
    && Uploaded(server, m, Requests(m.shadow[..], b0), b0, mem0, k)
    && forall i | begin <= i < |b0| :: m.baseline[i] == b0[i]
  }

  lemma ScanBegins(s: seq<byte>, b0: seq<byte>, mem0: seq<byte>, at: nat)
    requires |s| == |b0| && at + |s| <= |mem0|
    ensures ScanAt(s, b0, 0, 0) && AtCluster(Coalesce(s, b0, 0), |b0|, Requests(s, b0), 0, 0)
    ensures Recorded(s, Requests(s, b0), b0, b0, mem0, mem0, at, 0)
  {
    CoalesceOrdered(s, b0, 0);
  }

  /** The last request belongs to the last cluster. */
  lemma AllClusters(runs: seq<Run>, size: nat, ts: seq<Run>, k: nat)
    requires AtCluster(runs, size, ts, |runs|, k)
    ensures k == |ts|
  {
    assert runs[..|runs|] == runs;
  }

  /** Finds the next cluster and sends it. */
  method PublishNext(server: Server, m: MappedRange, begin: nat, ghost b0: seq<byte>, ghost mem0: seq<byte>,
                     ghost found: nat, ghost k: nat)
    returns (ok: bool, next: nat, ghost found': nat, ghost k': nat)
    requires Scanning(server, m, b0, mem0, begin, found, k) && begin < |b0|
    modifies server`memory, server`trips, m.baseline
    ensures OnlyMemory(old(server.memory), server.memory, m.memoryId)
    ensures server.trips >= old(server.trips) && (ok <==> server.DeliveredSince(old(server.trips)))
    ensures ok ==> begin < next && Scanning(server, m, b0, mem0, next, found', k')
    ensures !ok ==> PartlyUploaded(server, m, Requests(m.shadow[..], b0), b0, mem0, k')
  {
    hide Recorded, Progress, Coalesce, Chunks, Plan, IsRun;
    ghost var s, b := m.shadow[..], m.baseline[..];
    next := SkipClean(m.shadow, m.baseline, begin);
    if next == m.shadow.Length {
      CoalesceSkipsClean(s, b0, begin, next);
      return true, next, found, k;
    }
    var run := next;
    next := RunEnd(m.shadow, m.baseline, run);
    ScanTakesRun(s, b, b0, begin, found, Run(run, next));
    ClusterIsNext(Coalesce(s, b0, 0), |b0|, Requests(s, b0), found, k);
    ok, k' := SendRun(server, m, Run(run, next), Requests(s, b0), b0, mem0, k, k + |Chunks(run, next)|);
    found' := found + 1;
  }

  /** Upload of one mapping: the acknowledged requests are a prefix of `Requests`, all of them
      when the upload succeeds. */
  method PublishMapping(server: Server, m: MappedRange) returns (ok: bool, ghost k: nat)
    requires Mapped(server, m)
    modifies server`memory, server`trips, m.baseline
    ensures OnlyMemory(old(server.memory), server.memory, m.memoryId)
    ensures server.trips >= old(server.trips) && (ok <==> server.DeliveredSince(old(server.trips)))
    ensures var ts := Requests(m.shadow[..], old(m.baseline[..]));
            var mem0 := old(server.memory[m.memoryId]);
            && (ok ==> k == |ts| && Uploaded(server, m, ts, old(m.baseline[..]), mem0, k))
            && (!ok ==> PartlyUploaded(server, m, ts, old(m.baseline[..]), mem0, k))
  {
    hide Recorded, Progress, Coalesce, Plan;
    ghost var s, b0, mem0 := m.shadow[..], m.baseline[..], server.memory[m.memoryId];
    ghost var found: nat := 0;
    ScanBegins(s, b0, mem0, m.offset);
    var begin: nat := 0;
    k := 0;
    ok := true;
    while begin < m.shadow.Length
      invariant ok && Scanning(server, m, b0, mem0, begin, found, k)
      invariant server.trips >= old(server.trips) && server.DeliveredSince(old(server.trips))
      invariant OnlyMemory(old(server.memory), server.memory, m.memoryId)
    {
      ok, begin, found, k := PublishNext(server, m, begin, b0, mem0, found, k);
      if !ok {
        return;
      }
    }
    ScanEnds(s, m.baseline[..], b0, begin, found);
    AllClusters(Coalesce(s, b0, 0), |b0|, Requests(s, b0), k);
  }

  // ---------------------------------------------------------------------------
  // Refresh
  // ---------------------------------------------------------------------------

  /** Shadow and baseline after the first `n` bytes of `inc` are merged. */
  ghost predicate Refreshed(s0: seq<byte>, b0: seq<byte>, inc: seq<byte>, n: nat,
                            s: seq<byte>, b: seq<byte>)
    requires |s0| == |b0| == |inc| && n <= |s0|
  {
    s == Merged(s0, b0, inc)[..n] + s0[n..] && b == inc[..n] + b0[n..]
  }

  /** The merge loop of one reply. */
  method MergeChunk(m: MappedRange, base: nat, bytes: seq<byte>, ghost s0: seq<byte>, ghost b0: seq<byte>,
                    ghost inc: seq<byte>)
    requires m.shadow.Length == m.baseline.Length == |s0| == |b0| == |inc| && m.shadow != m.baseline
    requires base + |bytes| <= |inc| && bytes == inc[base..base + |bytes|]
    requires Refreshed(s0, b0, inc, base, m.shadow[..], m.baseline[..])
    modifies m.shadow, m.baseline
    ensures Refreshed(s0, b0, inc, base + |bytes|, m.shadow[..], m.baseline[..])
  {
    for i := 0 to |bytes|
      invariant Refreshed(s0, b0, inc, base + i, m.shadow[..], m.baseline[..])
    {
      assert m.shadow[..][base + i] == s0[base + i] && m.baseline[..][base + i] == b0[base + i];
      if m.shadow[base + i] == m.baseline[base + i] {
        m.shadow[base + i] := bytes[i];
      }
      m.baseline[base + i] := bytes[i];
    }
  }

  lemma SliceOfSlice(bytes: seq<byte>, from: nat, size: nat, at: nat, n: nat)
    requires from + size <= |bytes| && at + n <= size
    ensures bytes[from..from + size][at..at + n] == bytes[from + at..from + at + n]
  {
    var inner := bytes[from..from + size];
    assert forall i | at <= i < at + n :: inner[i] == bytes[from + i];
  }

  lemma RefreshBegins(s0: seq<byte>, b0: seq<byte>, inc: seq<byte>)
    requires |s0| == |b0| == |inc|
    ensures Refreshed(s0, b0, inc, 0, s0, b0)
  {
    assert [] + s0 == s0 && [] + b0 == b0;
  }

  /** Refresh of one mapping; on failure a prefix of `n` bytes has been merged. */
  method AcquireMapping(server: Server, m: MappedRange) returns (ok: bool, ghost n: nat)
    requires Mapped(server, m)
    modifies server`trips, m.shadow, m.baseline
    ensures n <= m.shadow.Length && (ok ==> n == m.shadow.Length)
    ensures server.trips >= old(server.trips) && (ok <==> server.DeliveredSince(old(server.trips)))
    ensures Refreshed(old(m.shadow[..]), old(m.baseline[..]),
                      server.memory[m.memoryId][m.offset..m.offset + m.shadow.Length], n,
                      m.shadow[..], m.baseline[..])
  {
    hide Refreshed;
    ghost var s0, b0 := m.shadow[..], m.baseline[..];
    ghost var inc := server.memory[m.memoryId][m.offset..m.offset + m.shadow.Length];
    RefreshBegins(s0, b0, inc);
    var done: nat := 0;
    while done < m.shadow.Length
      invariant done <= m.shadow.Length
      invariant server.trips >= old(server.trips) && server.DeliveredSince(old(server.trips))
      invariant Refreshed(s0, b0, inc, done, m.shadow[..], m.baseline[..])
    {
      var left := m.shadow.Length - done;
      var chunk := if left < MAX_CHUNK then left else MAX_CHUNK;
      var reply := server.Download(m.memoryId, m.offset + done, chunk);
      if reply.None? {
        return false, done;
      }
      SliceOfSlice(server.memory[m.memoryId], m.offset, m.shadow.Length, done, chunk);
      MergeChunk(m, done, reply.value, s0, b0, inc);
      done := done + chunk;
    }
    ok, n := true, done;
  }

  // ---------------------------------------------------------------------------
  // Explicit transfers
  // ---------------------------------------------------------------------------

  /** One request of an explicit flush. */
  method FlushChunk(server: Server, m: MappedRange, local: nat, done: nat, chunk: nat, ghost before: seq<byte>,
                    ghost data: seq<byte>) returns (ok: bool, ghost n: nat)
    requires Mapped(server, m) && 0 < chunk <= MAX_CHUNK && done + chunk <= |data|
    requires local + |data| <= m.shadow.Length && data == m.shadow[local..local + |data|]
    requires Patched(before, server.memory[m.memoryId], m.offset + local, data, done)
    modifies server`memory, server`trips
    ensures OnlyMemory(old(server.memory), server.memory, m.memoryId) && Mapped(server, m)
    ensures server.trips == old(server.trips) + 1 && (ok <==> server.outcome(old(server.trips)).Delivered?)
    ensures done <= n <= done + chunk && (ok ==> n == done + chunk)
    ensures Patched(before, server.memory[m.memoryId], m.offset + local, data, n)
  {
    hide Patched, Patch;
    PatchedMore(before, server.memory[m.memoryId], m.offset + local, data, done, chunk);
    ghost var lost := server.outcome(server.trips).LostRequest?;
    assert m.shadow[local + done..local + done + chunk] == data[done..done + chunk];
    ok := server.Flush(m.memoryId, m.offset + local + done, m.shadow[local + done..local + done + chunk]);
    n := if lost then done else done + chunk;
  }

  /** The explicit flush of one range, in whole atoms but for its end: `n` bytes of it reach the server,
      all when it succeeds. Neither shadow nor baseline changes. */
  method FlushRange(server: Server, m: MappedRange, local: nat, size: nat, atom: nat)
    returns (ok: bool, ghost n: nat)
    requires Mapped(server, m) && atom > 0 && local + size <= m.shadow.Length
    modifies server`memory, server`trips
    ensures OnlyMemory(old(server.memory), server.memory, m.memoryId) && n <= size && (ok ==> n == size)
    ensures Patched(old(server.memory[m.memoryId]), server.memory[m.memoryId], m.offset + local,
                    m.shadow[local..local + size], n)
    ensures |server.memory[m.memoryId]| == |old(server.memory[m.memoryId])|
    ensures forall p | 0 <= p < |server.memory[m.memoryId]| ::
              server.memory[m.memoryId][p] == if m.offset + local <= p < m.offset + local + n then m.shadow[p - m.offset]
                                              else old(server.memory[m.memoryId][p])
    ensures size <= MAX_CHUNK || atom <= MAX_CHUNK ==> (ok <==> server.DeliveredSince(old(server.trips)))
    ensures size > MAX_CHUNK && atom > MAX_CHUNK ==> !ok && n == 0
  {
    ghost var before, data := server.memory[m.memoryId], m.shadow[local..local + size];
    NothingPatched(before, m.offset + local, data);
    hide Patched;
    var done: nat := 0;
    n := 0;
    ok := true;
    while done < size
      invariant ok && n == done <= size && Mapped(server, m)
      invariant OnlyMemory(old(server.memory), server.memory, m.memoryId)
      invariant server.trips >= old(server.trips) && server.DeliveredSince(old(server.trips))
      invariant Patched(before, server.memory[m.memoryId], m.offset + local, data, done)
      invariant done > 0 ==> size <= MAX_CHUNK || atom <= MAX_CHUNK
      decreases size - done
    {
      var chunk := Transfers.ChunkOf(size - done, atom);
      ChunkBounds(size - done, atom);
      if chunk == 0 { return false, n; }
      ok, n := FlushChunk(server, m, local, done, chunk, before, data);
      if !ok { return; }
      done := done + chunk;
    }
  }

  /** A chunk is empty only when an atom does not fit in a request. */
  lemma ChunkBounds(left: nat, atom: nat)
    requires atom > 0 && left > 0
    ensures Transfers.ChunkOf(left, atom) <= left && Transfers.ChunkOf(left, atom) <= MAX_CHUNK
    ensures Transfers.ChunkOf(left, atom) == 0 <==> left > MAX_CHUNK && atom > MAX_CHUNK
  {
    Transfers.RoundedDown(MAX_CHUNK, atom);
    Transfers.ChunkZero(atom);
  }

  /** One reply of an explicit invalidation. */
  method DownloadChunk(server: Server, m: MappedRange, local: nat, done: nat, chunk: nat, ghost s0: seq<byte>,
                       ghost b0: seq<byte>, ghost data: seq<byte>) returns (ok: bool)
    requires Mapped(server, m) && 0 < chunk <= MAX_CHUNK && done + chunk <= |data|
    requires local + |data| <= m.shadow.Length
    requires data == server.memory[m.memoryId][m.offset + local..m.offset + local + |data|]
    requires Patched(s0, m.shadow[..], local, data, done) && Patched(b0, m.baseline[..], local, data, done)
    modifies server`trips, m.shadow, m.baseline
    ensures server.trips == old(server.trips) + 1 && (ok <==> server.outcome(old(server.trips)).Delivered?)
    ensures Patched(s0, m.shadow[..], local, data, if ok then done + chunk else done)
    ensures Patched(b0, m.baseline[..], local, data, if ok then done + chunk else done)
  {
    hide Patched, Patch;
    PatchedMore(s0, m.shadow[..], local, data, done, chunk);
    PatchedMore(b0, m.baseline[..], local, data, done, chunk);
    SliceOfSlice(server.memory[m.memoryId], m.offset + local, |data|, done, chunk);
    var reply := server.Download(m.memoryId, m.offset + local + done, chunk);
    ok := reply.Some?;
    if ok {
      Store(m.shadow, local + done, reply.value);
      Store(m.baseline, local + done, reply.value);
    }
  }

  /** The next request, of whole atoms unless it ends the range. */
  method DownloadNext(server: Server, m: MappedRange, local: nat, done: nat, size: nat, atom: nat, ghost s0: seq<byte>,
                      ghost b0: seq<byte>, ghost data: seq<byte>) returns (ok: bool, next: nat)
    requires Mapped(server, m) && atom > 0 && done < size == |data| && local + size <= m.shadow.Length
    requires data == server.memory[m.memoryId][m.offset + local..m.offset + local + |data|]
    requires Patched(s0, m.shadow[..], local, data, done) && Patched(b0, m.baseline[..], local, data, done)
    modifies server`trips, m.shadow, m.baseline
    ensures done <= next <= size && (ok ==> done < next) && (!ok ==> next == done)
    ensures Patched(s0, m.shadow[..], local, data, next) && Patched(b0, m.baseline[..], local, data, next)
    ensures if size - done > MAX_CHUNK && atom > MAX_CHUNK then !ok && server.trips == old(server.trips)
            else server.trips == old(server.trips) + 1 && (ok <==> server.outcome(old(server.trips)).Delivered?)
  {
    hide Patched, Transfers.ChunkOf;
    var chunk := Transfers.ChunkOf(size - done, atom);
    ChunkBounds(size - done, atom);
    if chunk == 0 { return false, done; }
    ok := DownloadChunk(server, m, local, done, chunk, s0, b0, data);
    next := if ok then done + chunk else done;
  }

  /** The explicit invalidation of one range: its first `n` bytes of shadow and baseline are the
      server's, all when it succeeds. */
  method DownloadRange(server: Server, m: MappedRange, local: nat, size: nat, atom: nat)
    returns (ok: bool, ghost n: nat)
    requires Mapped(server, m) && atom > 0 && local + size <= m.shadow.Length
    modifies server`trips, m.shadow, m.baseline
    ensures n <= size && (ok ==> n == size)
    ensures var data := server.memory[m.memoryId][m.offset + local..m.offset + local + size];
            && Patched(old(m.shadow[..]), m.shadow[..], local, data, n)
            && Patched(old(m.baseline[..]), m.baseline[..], local, data, n)
    ensures forall p | 0 <= p < m.shadow.Length ::
              if local <= p < local + n then m.shadow[p] == m.baseline[p] == server.memory[m.memoryId][m.offset + p]
              else m.shadow[p] == old(m.shadow[p]) && m.baseline[p] == old(m.baseline[p])
    ensures size <= MAX_CHUNK || atom <= MAX_CHUNK ==> (ok <==> server.DeliveredSince(old(server.trips)))
    ensures size > MAX_CHUNK && atom > MAX_CHUNK ==> !ok && n == 0
  {
    ghost var s0, b0 := m.shadow[..], m.baseline[..];
    ghost var data := server.memory[m.memoryId][m.offset + local..m.offset + local + size];
    NothingPatched(s0, local, data);
    NothingPatched(b0, local, data);
    hide Patched;
    ok := true;
    var done: nat := 0;
    n := 0;
    while done < size
      invariant ok && n == done <= size == |data|
      invariant server.trips >= old(server.trips) && server.DeliveredSince(old(server.trips))
      invariant Patched(s0, m.shadow[..], local, data, done) && Patched(b0, m.baseline[..], local, data, done)
      invariant done > 0 ==> size <= MAX_CHUNK || atom <= MAX_CHUNK
      decreases size - done
    {
      ok, done := DownloadNext(server, m, local, done, size, atom, s0, b0, data);
      n := done;
      if !ok { return; }
    }
  }

  /** `memcpy` of a reply. */
  method Store(dst: array<byte>, at: nat, bytes: seq<byte>)
    requires at + |bytes| <= dst.Length
    modifies dst
    ensures dst[..] == Patch(old(dst[..]), at, bytes)
  {
    for i := 0 to |bytes|
      invariant dst[..] == Patch(old(dst[..]), at, bytes[..i])
    {
      dst[at + i] := bytes[i];
    }
    assert bytes[..|bytes|] == bytes;
  }

  // ---------------------------------------------------------------------------
  // All mappings of a device
  // ---------------------------------------------------------------------------

  ghost function ViewOf(server: Server, m: MappedRange): (v: View)
    requires Mapped(server, m)
    reads server`memory, m, m.shadow, m.baseline
    ensures v.Valid()
  {
    View(m.Active(), m.memoryId, m.offset, m.shadow[..], m.baseline[..], server.memory[m.memoryId])
  }

  /** The bytes the upload transmits, the dirty ones among them, are the shadow's on the server; the
      memory's other bytes are as before, and nothing is dirty any more. */
  ghost predicate Sent(v: View, w: View)
    requires v.Valid() && w.Valid()
  {
    && w.id == v.id && w.offset == v.offset && w.shadow == v.shadow && w.baseline == v.shadow && |w.memory| == |v.memory|
    && (forall p: nat | p < |v.shadow| ::
          w.memory[v.offset + p] == if Transmitted(v.shadow, v.baseline, p) then v.shadow[p] else v.memory[v.offset + p])
    && (forall p: nat | p < |v.shadow| && v.shadow[p] != v.baseline[p] :: w.memory[v.offset + p] == v.shadow[p])
    && forall p: nat | p < |v.memory| && !(v.offset <= p < v.offset + |v.shadow|) :: w.memory[p] == v.memory[p]
  }

  /** Every byte of the baseline is the server's; so is every byte of the shadow that was not dirty, and the
      dirty ones keep the host's store. */
  ghost predicate Taken(v: View, w: View)
    requires v.Valid() && w.Valid()
  {
    && w.id == v.id && w.offset == v.offset && |w.shadow| == |v.shadow| && w.memory == v.memory
    && forall p: nat | p < |v.shadow| ::
         && w.baseline[p] == v.memory[v.offset + p]
         && w.shadow[p] == if v.shadow[p] == v.baseline[p] then v.memory[v.offset + p] else v.shadow[p]
  }

  lemma PublishedSends(v: View, w: View)
    requires v.Valid() && w.Valid()
    ensures Published(v, w) ==> if v.active then Sent(v, w) else w == v
  {
    hide Transmitted;
    forall p: nat | p < |v.shadow| && v.shadow[p] != v.baseline[p]
      ensures Transmitted(v.shadow, v.baseline, p)
    {
      DirtyIsTransmitted(v.shadow, v.baseline, p);
    }
    if Published(v, w) && v.active {
      PublishedBytes(v.memory, w.memory, v.offset, v.shadow, v.baseline);
    }
  }

  lemma PublishedBytes(mem0: seq<byte>, mem: seq<byte>, at: nat, s: seq<byte>, b: seq<byte>)
    requires |s| == |b| && at + |s| <= |mem0| && IsPublished(mem0, mem, at, s, b)
    ensures |mem| == |mem0|
    ensures forall p: nat | p < |s| :: mem[at + p] == if Transmitted(s, b, p) then s[p] else mem0[at + p]
    ensures forall p: nat | p < |mem0| && !(at <= p < at + |s|) :: mem[p] == mem0[p]
  {
    hide Transmitted;
    forall p: nat | p < |s| ensures mem[at + p] == if Transmitted(s, b, p) then s[p] else mem0[at + p] {
      var i := at + p;
      assert i - at == p;
    }
  }

  lemma AcquiredTakes(v: View, w: View, ids: Option<set<MemoryId>>)
    requires v.Valid() && w.Valid()
    ensures Acquired(v, w, ids) ==> if v.active && (ids.Some? ==> v.id in ids.value) then Taken(v, w) else w == v
  {
  }

  class Mappings {
    const server: Server
    const mapped: seq<MappedRange>

    constructor (server: Server, mapped: seq<MappedRange>)
      ensures this.server == server && this.mapped == mapped
    {
      this.server, this.mapped := server, mapped;
    }

    /** One mapping per memory, each with its own two buffers inside its allocation. */
    ghost predicate Valid()
      reads this, server`memory
    {
      && (forall i | 0 <= i < |mapped| :: Mapped(server, mapped[i]))
      && (forall i, j | 0 <= i < |mapped| && 0 <= j < |mapped| && i != j :: Apart(mapped[i], mapped[j]))
    }

    static ghost predicate Apart(m: MappedRange, n: MappedRange) {
      && m.memoryId != n.memoryId
      && m.shadow != n.shadow && m.shadow != n.baseline
      && m.baseline != n.shadow && m.baseline != n.baseline
    }

    ghost function Shadows(): set<object> {
      set i | 0 <= i < |mapped| :: mapped[i].shadow
    }

    ghost function Baselines(): set<object> {
      set i | 0 <= i < |mapped| :: mapped[i].baseline
    }

    ghost function ViewAt(i: nat): (v: View)
      requires Valid() && i < |mapped|
      reads this, server`memory, set j | 0 <= j < |mapped| :: mapped[j], Shadows(), Baselines()
      ensures v.Valid()
    {
      ViewOf(server, mapped[i])
    }

    /** Memories without a mapping are as before. */
    twostate predicate OthersUntouched()
      reads this, server`memory
    {
      && server.memory.Keys == old(server.memory.Keys)
      && forall id | id in server.memory && (forall i | 0 <= i < |mapped| :: mapped[i].memoryId != id) ::
           server.memory[id] == old(server.memory[id])
    }

    /** Upload of mapping `i` alone. */
    method PublishAt(i: nat) returns (ok: bool, ghost k: nat)
      requires Valid() && i < |mapped|
      modifies server`memory, server`trips, mapped[i].baseline
      ensures Valid() && OthersUntouched()
      ensures server.trips >= old(server.trips) && (ok <==> server.DeliveredSince(old(server.trips)))
      ensures ok ==> Published(old(ViewAt(i)), ViewAt(i))
      ensures !ok ==> PartlyPublished(old(ViewAt(i)), ViewAt(i), k) && old(ViewAt(i)).active
      ensures forall j: nat | j < |mapped| && j != i :: ViewAt(j) == old(ViewAt(j))
    {
      hide Applied, Requests, Transmitted;
      assert forall j: nat | j < |mapped| && j != i :: Apart(mapped[j], mapped[i]);
      ok, k := true, 0;
      if mapped[i].Active() {
        ok, k := PublishMapping(server, mapped[i]);
        if ok {
          ghost var s, b0, mem0 := mapped[i].shadow[..], old(mapped[i].baseline[..]),
                                   old(server.memory[mapped[i].memoryId]);
          assert Requests(s, b0)[..k] == Requests(s, b0);
          RequestsPublish(mem0, mapped[i].offset, s, b0);
          RequestsSettleBaseline(s, b0);
        }
      }
    }

    /** Upload of every active mapping before a submission. On failure the mappings before
        `stop` are complete, `stop` is part way, and the rest are untouched. */
    method Publish() returns (ok: bool, ghost stop: nat, ghost k: nat)
      requires Valid()
      modifies server`memory, server`trips, Baselines()
      ensures Valid() && OthersUntouched()
      ensures stop <= |mapped| && (ok <==> stop == |mapped|)
      ensures server.trips >= old(server.trips) && (ok <==> server.DeliveredSince(old(server.trips)))
      ensures forall i: nat | i < stop :: Published(old(ViewAt(i)), ViewAt(i))
      ensures forall i: nat | stop < i < |mapped| :: ViewAt(i) == old(ViewAt(i))
      ensures forall i: nat | i < |mapped| && !(mapped[i].emulatedCoherent && mapped[i].transferReady)  ::
                ViewAt(i) == old(ViewAt(i))
      ensures ok ==> forall i: nat | i < |mapped| && mapped[i].emulatedCoherent && mapped[i].transferReady ::
                Sent(old(ViewAt(i)), ViewAt(i))
      ensures !ok ==> PartlyPublished(old(ViewAt(stop)), ViewAt(stop), k)
    {
      hide Published, Sent;
      ok, stop, k := true, 0, 0;
      var i: nat := 0;
      while i < |mapped|
        invariant i <= |mapped| && ok && stop == i && Valid() && OthersUntouched()
        invariant server.trips >= old(server.trips) && server.DeliveredSince(old(server.trips))
        invariant forall j: nat | j < i :: Published(old(ViewAt(j)), ViewAt(j))
        invariant forall j: nat | i <= j < |mapped| :: ViewAt(j) == old(ViewAt(j))
      {
        ok, k := PublishAt(i);
        if !ok {
          break;
        }
        i := i + 1;
        stop := i;
      }
      forall i: nat | i < |mapped|
        ensures if mapped[i].emulatedCoherent && mapped[i].transferReady then ok ==> Sent(old(ViewAt(i)), ViewAt(i))
                else ViewAt(i) == old(ViewAt(i))
      {
        PublishedSends(old(ViewAt(i)), ViewAt(i));
      }
    }

    /** Refresh of mapping `i` alone. */
    method AcquireAt(i: nat, ids: Option<set<MemoryId>>) returns (ok: bool, ghost n: nat)
      requires Valid() && i < |mapped|
      modifies server`trips, mapped[i].shadow, mapped[i].baseline
      ensures Valid()
      ensures server.trips >= old(server.trips) && (ok <==> server.DeliveredSince(old(server.trips)))
      ensures ok ==> Acquired(old(ViewAt(i)), ViewAt(i), ids)
      ensures !ok ==> PartlyAcquired(old(ViewAt(i)), ViewAt(i), n) && Selected(old(ViewAt(i)), ids)
      ensures forall j: nat | j < |mapped| && j != i :: ViewAt(j) == old(ViewAt(j))
    {
      hide Merged;
      assert forall j: nat | j < |mapped| && j != i :: Apart(mapped[j], mapped[i]);
      ok, n := true, 0;
      var m := mapped[i];
      if m.Active() && (ids.Some? ==> m.memoryId in ids.value) {
        ok, n := AcquireMapping(server, m);
        ghost var v := old(ViewAt(i));
        if ok {
          assert Merged(v.shadow, v.baseline, v.Incoming())[..n] + v.shadow[n..]
                 == Merged(v.shadow, v.baseline, v.Incoming());
          assert v.Incoming()[..n] + v.baseline[n..] == v.Incoming();
        }
      }
    }

    /** Refresh of the selected active mappings after an observed completion. */
    method Acquire(ids: Option<set<MemoryId>>) returns (ok: bool, ghost stop: nat, ghost n: nat)
      requires Valid()
      modifies server`trips, Shadows(), Baselines()
      ensures Valid()
      ensures stop <= |mapped| && (ok <==> stop == |mapped|)
      ensures server.trips >= old(server.trips) && (ok <==> server.DeliveredSince(old(server.trips)))
      ensures forall i: nat | i < stop :: Acquired(old(ViewAt(i)), ViewAt(i), ids)
      ensures forall i: nat | stop < i < |mapped| :: ViewAt(i) == old(ViewAt(i))
      ensures forall i: nat | i < |mapped| && !(mapped[i].emulatedCoherent && mapped[i].transferReady
                                                && (ids.Some? ==> mapped[i].memoryId in ids.value)) ::
                ViewAt(i) == old(ViewAt(i))
      ensures ok ==> forall i: nat | i < |mapped| && mapped[i].emulatedCoherent && mapped[i].transferReady
                                     && (ids.Some? ==> mapped[i].memoryId in ids.value) ::
                Taken(old(ViewAt(i)), ViewAt(i))
      ensures !ok ==> PartlyAcquired(old(ViewAt(stop)), ViewAt(stop), n) && Selected(old(ViewAt(stop)), ids)
    {
      hide Acquired, PartlyAcquired, Taken;
      ok, stop, n := true, 0, 0;
      var i: nat := 0;
      while i < |mapped|
        invariant i <= |mapped| && ok && stop == i && Valid()
        invariant server.trips >= old(server.trips) && server.DeliveredSince(old(server.trips))
        invariant forall j: nat | j < i :: Acquired(old(ViewAt(j)), ViewAt(j), ids)
        invariant forall j: nat | i <= j < |mapped| :: ViewAt(j) == old(ViewAt(j))
      {
        ok, n := AcquireAt(i, ids);
        if !ok {
          break;
        }
        i := i + 1;
        stop := i;
      }
      forall i: nat | i < |mapped|
        ensures if mapped[i].emulatedCoherent && mapped[i].transferReady
                   && (ids.Some? ==> mapped[i].memoryId in ids.value)
                then ok ==> Taken(old(ViewAt(i)), ViewAt(i)) else ViewAt(i) == old(ViewAt(i))
      {
        AcquiredTakes(old(ViewAt(i)), ViewAt(i), ids);
      }
    }
  }
}
