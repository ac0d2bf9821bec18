/** The experimental coherent mappings of a remote device.

    The pointer an application gets from mapping memory addresses a local shadow. Before a
    submission the dirty runs of every coherent mapping are uploaded; after an observed
    completion the server bytes are merged back into the shadow.
  */
module MappedMemory {
  import opened DirtyRuns
  import opened Limits
  import opened Options

  type MemoryId = nat

  /** What becomes of one round trip: the reply arrives, the request never takes effect, or
      it takes effect but no successful reply arrives. */
  datatype Outcome = Delivered | LostRequest | LostReply

  // ---------------------------------------------------------------------------
  // Transfers as values
  // ---------------------------------------------------------------------------

  function Patch(dst: seq<byte>, at: nat, data: seq<byte>): (r: seq<byte>)
    requires at + |data| <= |dst|
    ensures |r| == |dst|
    ensures forall i | 0 <= i < |dst| :: r[i] == if at <= i < at + |data| then data[i - at] else dst[i]
  {
    dst[..at] + data + dst[at + |data|..]
  }

  ghost predicate InBounds(ts: seq<Run>, size: nat) {
    forall k | 0 <= k < |ts| :: ts[k].begin <= ts[k].end <= size
  }

  /** `dst` after the intervals `ts` of `src` are copied to it, in order, at `at`. */
  ghost function Applied(dst: seq<byte>, at: nat, src: seq<byte>, ts: seq<Run>): (r: seq<byte>)
    requires at + |src| <= |dst| && InBounds(ts, |src|)
    ensures |r| == |dst|
  {
    if ts == [] then dst
    else
      var t := ts[|ts| - 1];
      Patch(Applied(dst, at, src, ts[..|ts| - 1]), at + t.begin, src[t.begin..t.end])
  }

  /** An upload changes exactly the bytes its intervals name, and leaves there the source. */
  lemma {:induction false} AppliedAt(dst: seq<byte>, at: nat, src: seq<byte>, ts: seq<Run>)
    requires at + |src| <= |dst| && InBounds(ts, |src|)
    ensures forall i | 0 <= i < |dst| ::
              Applied(dst, at, src, ts)[i] == if InSomeRun(ts, i - at) then src[i - at] else dst[i]
    decreases |ts|
  {
    if ts != [] {
      var last, front := ts[|ts| - 1], ts[..|ts| - 1];
      AppliedAt(dst, at, src, front);
      forall i | 0 <= i < |dst|
        ensures Applied(dst, at, src, ts)[i] == if InSomeRun(ts, i - at) then src[i - at] else dst[i]
      {
        if last.begin <= i - at < last.end {
          assert InSomeRun(ts, i - at);
        } else {
          if InSomeRun(ts, i - at) {
            var k :| 0 <= k < |ts| && ts[k].begin <= i - at < ts[k].end;
            assert front[k] == ts[k];
          }
          if InSomeRun(front, i - at) {
            var k :| 0 <= k < |front| && front[k].begin <= i - at < front[k].end;
            assert ts[k] == front[k];
          }
          assert InSomeRun(ts, i - at) <==> InSomeRun(front, i - at);
        }
      }
    }
  }

  /** One run cut into requests of at most `MAX_CHUNK` bytes. */
  ghost function Chunks(begin: nat, end: nat): (ts: seq<Run>)
    requires begin <= end
    ensures InBounds(ts, end)
    decreases end - begin
  {
    if begin == end then []
    else if end - begin <= MAX_CHUNK then [Run(begin, end)]
    else [Run(begin, begin + MAX_CHUNK)] + Chunks(begin + MAX_CHUNK, end)
  }

  /** Every request of a run but its last has the largest size. */
  lemma {:induction false} ChunksAreWhole(begin: nat, end: nat, k: nat)
    requires begin <= end && k < |Chunks(begin, end)|
    ensures var t := Chunks(begin, end)[k];
            && t.begin == begin + k * MAX_CHUNK
            && t.end == (if k < |Chunks(begin, end)| - 1 then t.begin + MAX_CHUNK else end)
            && t.begin < t.end <= t.begin + MAX_CHUNK
    decreases k
  {
    if k > 0 {
      ChunksAreWhole(begin + MAX_CHUNK, end, k - 1);
    } else if end - begin > MAX_CHUNK {
      assert |Chunks(begin + MAX_CHUNK, end)| > 0;
    }
  }

  ghost predicate Ordered(runs: seq<Run>, size: nat) {
    forall k | 0 <= k < |runs| :: runs[k].begin < runs[k].end <= size
  }

  /** Every request an upload of `runs` makes, in order. */
  ghost function Plan(runs: seq<Run>, size: nat): (ts: seq<Run>)
    requires Ordered(runs, size)
    ensures InBounds(ts, size)
  {
    if runs == [] then []
    else Plan(runs[..|runs| - 1], size) + Chunks(runs[|runs| - 1].begin, runs[|runs| - 1].end)
  }

  lemma {:induction false} ChunksCover(begin: nat, end: nat, i: int)
    requires begin <= end
    ensures InSomeRun(Chunks(begin, end), i) <==> begin <= i < end
    decreases end - begin
  {
    if begin == end {
    } else if end - begin <= MAX_CHUNK {
      assert Chunks(begin, end)[0] == Run(begin, end);
    } else {
      var rest := Chunks(begin + MAX_CHUNK, end);
      ChunksCover(begin + MAX_CHUNK, end, i);
      InSomeConcat([Run(begin, begin + MAX_CHUNK)], rest, i);
      assert InSomeRun([Run(begin, begin + MAX_CHUNK)], i) <==> begin <= i < begin + MAX_CHUNK by {
        assert [Run(begin, begin + MAX_CHUNK)][0] == Run(begin, begin + MAX_CHUNK);
      }
    }
  }

  lemma InSomeConcat(a: seq<Run>, b: seq<Run>, i: int)
    ensures InSomeRun(a + b, i) <==> InSomeRun(a, i) || InSomeRun(b, i)
  {
    var c := a + b;
    if InSomeRun(a, i) {
      var k :| 0 <= k < |a| && a[k].begin <= i < a[k].end;
      assert c[k] == a[k];
    }
    if InSomeRun(b, i) {
      var k :| 0 <= k < |b| && b[k].begin <= i < b[k].end;
      assert c[|a| + k] == b[k];
    }
    if InSomeRun(c, i) {
      var k :| 0 <= k < |c| && c[k].begin <= i < c[k].end;
      assert if k < |a| then a[k] == c[k] else b[k - |a|] == c[k];
    }
  }

  /** The requests cover exactly the runs they were cut from. */
  lemma {:induction false} PlanCovers(runs: seq<Run>, size: nat, i: int)
    requires Ordered(runs, size)
    ensures InSomeRun(Plan(runs, size), i) <==> InSomeRun(runs, i)
    decreases |runs|
  {
    if runs != [] {
      var last, front := runs[|runs| - 1], runs[..|runs| - 1];
      PlanCovers(front, size, i);
      ChunksCover(last.begin, last.end, i);
      InSomeConcat(Plan(front, size), Chunks(last.begin, last.end), i);
      assert runs == front + [last] && InSomeRun([last], i) == (last.begin <= i < last.end) by {
        assert [last][0] == last;
      }
      InSomeConcat(front, [last], i);
    }
  }

  lemma {:induction false} PlanConcat(a: seq<Run>, b: seq<Run>, size: nat)
    requires Ordered(a + b, size) && Ordered(a, size) && Ordered(b, size)
    ensures Plan(a + b, size) == Plan(a, size) + Plan(b, size)
    decreases |b|
  {
    hide Chunks;
    if b == [] {
      assert a + b == a;
    } else {
      var last, front := b[|b| - 1], b[..|b| - 1];
      assert (a + b)[..|a + b| - 1] == a + front && (a + b)[|a + b| - 1] == last;
      PlanConcat(a, front, size);
    }
  }

  // ---------------------------------------------------------------------------
  // What uploads and merges leave behind
  // ---------------------------------------------------------------------------

  lemma CoalesceOrdered(s: seq<byte>, b: seq<byte>, from: nat)
    requires |s| == |b| && from <= |s|
    ensures Ordered(Coalesce(s, b, from), |s|)
  {
    CoalesceIsCoalesced(s, b, from);
    var runs := Coalesce(s, b, from);
    forall k | 0 <= k < |runs|
      ensures runs[k].begin < runs[k].end <= |s|
    {
      assert IsRun(s, b, runs[k]);
    }
  }

  /** The requests of a complete upload of one mapping. */
  ghost function Requests(s: seq<byte>, b: seq<byte>): (ts: seq<Run>)
    requires |s| == |b|
    ensures InBounds(ts, |s|)
  {
    CoalesceOrdered(s, b, 0);
    Plan(Coalesce(s, b, 0), |s|)
  }

  /** Server bytes after a complete upload: the transmitted positions hold the shadow. */
  ghost predicate IsPublished(mem0: seq<byte>, mem1: seq<byte>, at: nat, s: seq<byte>, b: seq<byte>)
    requires |s| == |b| && at + |s| <= |mem0|
  {
    && |mem1| == |mem0|
    && forall i | 0 <= i < |mem0| ::
         mem1[i] == if at <= i < at + |s| && Transmitted(s, b, i - at) then s[i - at] else mem0[i]
  }

  /** The requests name exactly the transmitted positions. */
  lemma RequestsCover(s: seq<byte>, b: seq<byte>, i: int)
    requires |s| == |b|
    ensures InSomeRun(Requests(s, b), i) <==> 0 <= i < |s| && Transmitted(s, b, i)
  {
    var runs := Coalesce(s, b, 0);
    CoalesceOrdered(s, b, 0);
    CoalesceIsCoalesced(s, b, 0);
    PlanCovers(runs, |s|, i);
    RunsCoverTransmitted(s, b, runs);
    if 0 <= i < |s| {
      var j: nat := i;
      assert InSomeRun(runs, j) <==> Transmitted(s, b, j);
    }
  }

  lemma AppliedByte(dst: seq<byte>, at: nat, src: seq<byte>, ts: seq<Run>, i: nat)
    requires at + |src| <= |dst| && InBounds(ts, |src|) && i < |dst|
    ensures Applied(dst, at, src, ts)[i] == if InSomeRun(ts, i - at) then src[i - at] else dst[i]
  {
    AppliedAt(dst, at, src, ts);
  }

  /** Applying all requests publishes exactly the transmitted bytes on the server. */
  lemma RequestsPublish(mem: seq<byte>, at: nat, s: seq<byte>, b: seq<byte>)
    requires |s| == |b| && at + |s| <= |mem|
    ensures IsPublished(mem, Applied(mem, at, s, Requests(s, b)), at, s, b)
  {
    var ts := Requests(s, b);
    var mem' := Applied(mem, at, s, ts);
    forall i | 0 <= i < |mem|
      ensures mem'[i] == if at <= i < at + |s| && Transmitted(s, b, i - at) then s[i - at] else mem[i]
    {
      AppliedByte(mem, at, s, ts, i);
      RequestsCover(s, b, i - at);
    }
  }

  /** Recording all requests in the baseline turns it into the shadow. */
  lemma RequestsSettleBaseline(s: seq<byte>, b: seq<byte>)
    requires |s| == |b|
    ensures Applied(b, 0, s, Requests(s, b)) == s
  {
    var ts := Requests(s, b);
    var b' := Applied(b, 0, s, ts);
    forall i | 0 <= i < |s|
      ensures b'[i] == s[i]
    {
      AppliedByte(b, 0, s, ts, i);
      RequestsCover(s, b, i - 0);
      if s[i] != b[i] { DirtyIsTransmitted(s, b, i); }
    }
  }

  /** The three-way merge of server bytes `inc` into a shadow. */
  ghost function Merged(s: seq<byte>, b: seq<byte>, inc: seq<byte>): (r: seq<byte>)
    requires |s| == |b| == |inc|
    ensures |r| == |s|
  {
    seq(|s|, i requires 0 <= i < |s| => if s[i] == b[i] then inc[i] else s[i])
  }

  /** After a merge the dirty bytes are exactly the previously dirty ones that differ from the
      server; dirty bytes keep the host store and clean bytes take the server's. */
  lemma MergeKeepsHostStores(s: seq<byte>, b: seq<byte>, inc: seq<byte>, i: nat)
    requires |s| == |b| == |inc| && i < |s|
    ensures s[i] != b[i] ==> Merged(s, b, inc)[i] == s[i]
    ensures s[i] == b[i] ==> Merged(s, b, inc)[i] == inc[i]
    ensures Merged(s, b, inc)[i] != inc[i] <==> s[i] != b[i] && s[i] != inc[i]
  {
  }

  /** Merging the server's bytes and then publishing makes shadow, baseline and server agree:
      gap bytes that are rewritten carry what the server already holds. */
  lemma MergeThenPublishAgrees(mem: seq<byte>, at: nat, s: seq<byte>, b: seq<byte>)
    requires |s| == |b| && at + |s| <= |mem|
    ensures var inc := mem[at..at + |s|];
            var s' := Merged(s, b, inc);
            var mem' := Applied(mem, at, s', Requests(s', inc));
            && mem'[at..at + |s|] == s'
            && Applied(inc, 0, s', Requests(s', inc)) == s'
            && mem'[..at] == mem[..at] && mem'[at + |s|..] == mem[at + |s|..]
  {
    var inc := mem[at..at + |s|];
    var s' := Merged(s, b, inc);
    RequestsPublish(mem, at, s', inc);
    RequestsSettleBaseline(s', inc);
    var mem' := Applied(mem, at, s', Requests(s', inc));
    forall i | 0 <= i < |s|
      ensures mem'[at + i] == s'[i]
    {
      if s'[i] != inc[i] { DirtyIsTransmitted(s', inc, i); }
    }
  }

  // ---------------------------------------------------------------------------
  // Explicit transfers
  // ---------------------------------------------------------------------------

  /** The first `n` bytes of `data` are in place. */
  ghost predicate Patched(before: seq<byte>, after: seq<byte>, at: nat, data: seq<byte>, n: nat) {
    n <= |data| && at + |data| <= |before| && after == Patch(before, at, data[..n])
  }

  lemma NothingPatched(bytes: seq<byte>, at: nat, data: seq<byte>)
    requires at + |data| <= |bytes|
    ensures Patched(bytes, bytes, at, data, 0)
  {
  }

  /** Patching two adjacent pieces is patching them together. */
  lemma PatchedMore(before: seq<byte>, middle: seq<byte>, at: nat, data: seq<byte>, n: nat, chunk: nat)
    requires Patched(before, middle, at, data, n) && n + chunk <= |data|
    ensures |middle| == |before|
    ensures Patched(before, Patch(middle, at + n, data[n..n + chunk]), at, data, n + chunk)
  {
  }

  // ---------------------------------------------------------------------------
  // One mapping and its memory as a value
  // ---------------------------------------------------------------------------

  /** A mapping, the bytes it covers on both sides, and whether uploads and refreshes apply. */
  datatype View = View(active: bool, id: MemoryId, offset: nat, shadow: seq<byte>, baseline: seq<byte>,
                       memory: seq<byte>)
  {
    ghost predicate Valid() {
      |shadow| == |baseline| && offset + |shadow| <= |memory|
    }

    /** The server bytes the mapping covers. */
    ghost function Incoming(): (r: seq<byte>)
      requires Valid()
      ensures |r| == |shadow|
    {
      memory[offset..offset + |shadow|]
    }
  }

  /** A complete upload. */
  ghost predicate Published(v: View, w: View)
    requires v.Valid()
  {
    if v.active then
      && w == v.(baseline := v.shadow, memory := w.memory)
      && IsPublished(v.memory, w.memory, v.offset, v.shadow, v.baseline)
    else w == v
  }

  /** An upload that stopped after `k` acknowledged requests: the baseline records exactly
      those; the server has those and at most one more, whose reply was lost. */
  ghost predicate PartlyPublished(v: View, w: View, k: nat)
    requires v.Valid()
  {
    var ts := Requests(v.shadow, v.baseline);
    && v.active && w == v.(baseline := w.baseline, memory := w.memory)
    && k <= |ts|
    && w.baseline == Applied(v.baseline, 0, v.shadow, ts[..k])
    && (w.memory == Applied(v.memory, v.offset, v.shadow, ts[..k])
        || (k < |ts| && w.memory == Applied(v.memory, v.offset, v.shadow, ts[..k + 1])))
  }

  /** A mapping takes part in a refresh of `ids` (of everything when `ids` is absent). */
  predicate Selected(v: View, ids: Option<set<MemoryId>>) {
    v.active && (ids.Some? ==> v.id in ids.value)
  }

  /** A complete refresh. */
  ghost predicate Acquired(v: View, w: View, ids: Option<set<MemoryId>>)
    requires v.Valid()
  {
    if Selected(v, ids) then w == v.(shadow := Merged(v.shadow, v.baseline, v.Incoming()), baseline := v.Incoming())
    else w == v
  }

  /** A refresh that stopped after `n` bytes. */
  ghost predicate PartlyAcquired(v: View, w: View, n: nat)
    requires v.Valid()
  {
    && n <= |v.shadow|
    && w == v.(shadow := Merged(v.shadow, v.baseline, v.Incoming())[..n] + v.shadow[n..],
               baseline := v.Incoming()[..n] + v.baseline[n..])
  }

  /** An interrupted upload loses no host store: every byte whose store the server may lack
      stays dirty, and a byte the baseline took over is on the server. */
  lemma InterruptedUploadLosesNothing(v: View, w: View, k: nat, i: nat)
    requires v.Valid() && PartlyPublished(v, w, k) && i < |v.shadow|
    ensures w.shadow == v.shadow && |w.baseline| == |v.baseline| && |w.memory| == |v.memory|
    ensures v.memory[v.offset + i] == v.baseline[i] && w.memory[v.offset + i] != v.shadow[i]
            ==> w.shadow[i] != w.baseline[i]
    ensures w.baseline[i] != v.baseline[i] ==> w.memory[v.offset + i] == v.shadow[i]
    ensures w.memory[v.offset + i] != v.memory[v.offset + i] ==> w.memory[v.offset + i] == v.shadow[i]
  {
    hide Applied, Requests;
    var ts := Requests(v.shadow, v.baseline);
    AppliedByte(v.baseline, 0, v.shadow, ts[..k], i);
    AppliedByte(v.memory, v.offset, v.shadow, ts[..k], v.offset + i);
    assert v.offset + i - v.offset == i - 0;
    if k < |ts| {
      AppliedByte(v.memory, v.offset, v.shadow, ts[..k + 1], v.offset + i);
      if InSomeRun(ts[..k], i) {
        var j :| 0 <= j < k && ts[j].begin <= i < ts[j].end;
        assert ts[..k + 1][j] == ts[j];
      }
    }
  }
}
