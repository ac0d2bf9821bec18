/** Which bytes of a coherent mapping an upload transmits.

    A byte is dirty when the shadow the application writes through differs from the
    baseline, the last content known to agree with the server. Uploads send runs: a run
    begins and ends on a dirty byte and swallows the clean gaps inside it that are shorter
    than `COALESCE_GAP`.
  */
module DirtyRuns {
  newtype byte = x: int | 0 <= x < 256

  const COALESCE_GAP: nat := 4096

  /** A half-open interval of byte positions within a mapping. */
  datatype Run = Run(begin: nat, end: nat)

  ghost predicate Clean(s: seq<byte>, b: seq<byte>, lo: int, hi: int)
    requires |s| == |b|
  {
    forall i | 0 <= lo <= i < hi && i < |s| :: s[i] == b[i]
  }

  /** `COALESCE_GAP` consecutive clean bytes begin at `g`. */
  ghost predicate CleanGapAt(s: seq<byte>, b: seq<byte>, g: nat)
    requires |s| == |b|
  {
    g + COALESCE_GAP <= |s| && Clean(s, b, g, g + COALESCE_GAP)
  }

  ghost predicate IsRun(s: seq<byte>, b: seq<byte>, r: Run)
    requires |s| == |b|
  {
    && r.begin < r.end <= |s|
    && s[r.begin] != b[r.begin]
    && s[r.end - 1] != b[r.end - 1]
    && forall g: nat | r.begin <= g && g + COALESCE_GAP <= r.end :: !CleanGapAt(s, b, g)
  }

  ghost predicate InSomeRun(runs: seq<Run>, i: int) {
    exists k | 0 <= k < |runs| :: runs[k].begin <= i < runs[k].end
  }

  /** `runs` are exactly the coalesced dirty clusters at or after `from`: each is a run, the
      runs are in order with at least `COALESCE_GAP` bytes between neighbours, and no dirty
      byte is left out. */
  ghost predicate Coalesced(s: seq<byte>, b: seq<byte>, from: nat, runs: seq<Run>)
    requires |s| == |b|
  {
    && (forall k | 0 <= k < |runs| :: IsRun(s, b, runs[k]) && from <= runs[k].begin)
    && (forall k, l | 0 <= k < l < |runs| :: runs[k].end + COALESCE_GAP <= runs[l].begin)
    && (forall i {:trigger InSomeRun(runs, i)} | from <= i < |s| && s[i] != b[i] :: InSomeRun(runs, i))
  }

  /** The upload rewrites position `i`, said without runs: `i` lies between two dirty bytes
      (possibly equal) with fewer than `COALESCE_GAP` clean bytes between them. */
  ghost predicate Transmitted(s: seq<byte>, b: seq<byte>, i: int)
    requires |s| == |b|
  {
    exists lo, hi | 0 <= lo <= i <= hi < |s| :: Bridges(s, b, lo, hi)
  }

  /** Dirty bytes `lo` and `hi` enclose nothing but a short clean gap. */
  ghost predicate Bridges(s: seq<byte>, b: seq<byte>, lo: int, hi: int)
    requires |s| == |b|
    requires 0 <= lo <= hi < |s|
  {
    && s[lo] != b[lo]
    && s[hi] != b[hi]
    && hi - lo <= COALESCE_GAP
    && Clean(s, b, lo + 1, hi)
  }

  lemma CoalescedTail(s: seq<byte>, b: seq<byte>, from: nat, runs: seq<Run>)
    requires |s| == |b| && runs != [] && Coalesced(s, b, from, runs)
    ensures Coalesced(s, b, runs[0].end, runs[1..])
  {
    var rest := runs[1..];
    forall i | runs[0].end <= i < |s| && s[i] != b[i]
      ensures InSomeRun(rest, i)
    {
      assert InSomeRun(runs, i);
      var k :| 0 <= k < |runs| && runs[k].begin <= i < runs[k].end;
      assert rest[k - 1] == runs[k];
    }
  }

  /** After the first run come `COALESCE_GAP` clean bytes, or nothing but clean bytes. */
  lemma CleanAfterFirst(s: seq<byte>, b: seq<byte>, from: nat, runs: seq<Run>)
    requires |s| == |b| && runs != [] && Coalesced(s, b, from, runs)
    ensures Clean(s, b, runs[0].end, runs[0].end + COALESCE_GAP)
  {
    forall i | runs[0].end <= i < runs[0].end + COALESCE_GAP && i < |s|
      ensures s[i] == b[i]
    {
      forall k | 0 <= k < |runs| ensures !(runs[k].begin <= i < runs[k].end) {}
      assert !InSomeRun(runs, i);
    }
  }

  lemma FirstRunEnd(s: seq<byte>, b: seq<byte>, from: nat, runs: seq<Run>, other: seq<Run>)
    requires |s| == |b|
    requires runs != [] && Coalesced(s, b, from, runs)
    requires other != [] && Coalesced(s, b, from, other)
    requires runs[0].begin == other[0].begin
    ensures runs[0].end <= other[0].end
  {
    if other[0].end < runs[0].end {
      CleanAfterFirst(s, b, from, other);
      var g := other[0].end;
      assert s[runs[0].end - 1] != b[runs[0].end - 1];
      assert CleanGapAt(s, b, g);
      assert false;
    }
  }

  lemma FirstRunBegin(s: seq<byte>, b: seq<byte>, from: nat, runs: seq<Run>, other: seq<Run>)
    requires |s| == |b|
    requires runs != [] && Coalesced(s, b, from, runs)
    requires other != [] && Coalesced(s, b, from, other)
    ensures runs[0].begin <= other[0].begin
  {
    assert IsRun(s, b, other[0]) && InSomeRun(runs, other[0].begin);
    var k :| 0 <= k < |runs| && runs[k].begin <= other[0].begin < runs[k].end;
    assert k == 0 || runs[0].end + COALESCE_GAP <= runs[k].begin;
  }

  lemma NoneMissing(s: seq<byte>, b: seq<byte>, from: nat, runs: seq<Run>, other: seq<Run>)
    requires |s| == |b| && runs != []
    requires Coalesced(s, b, from, runs) && Coalesced(s, b, from, other)
    ensures other != []
  {
    assert IsRun(s, b, runs[0]) && InSomeRun(other, runs[0].begin);
  }

  /** The coalesced clusters are determined by the bytes: two descriptions of them agree. */
  lemma {:induction false} CoalescedUnique(
    s: seq<byte>, b: seq<byte>, from: nat, runs: seq<Run>, other: seq<Run>)
    requires |s| == |b|
    requires Coalesced(s, b, from, runs) && Coalesced(s, b, from, other)
    ensures runs == other
    decreases |runs|
  {
    if runs != [] { NoneMissing(s, b, from, runs, other); }
    if other != [] { NoneMissing(s, b, from, other, runs); }
    if runs != [] {
      FirstRunBegin(s, b, from, runs, other);
      FirstRunBegin(s, b, from, other, runs);
      FirstRunEnd(s, b, from, runs, other);
      FirstRunEnd(s, b, from, other, runs);
      CoalescedTail(s, b, from, runs);
      CoalescedTail(s, b, from, other);
      CoalescedUnique(s, b, runs[0].end, runs[1..], other[1..]);
      assert runs == [runs[0]] + runs[1..] && other == [other[0]] + other[1..];
    }
  }

  /** The nearest dirty byte at or before `i`, given that `lo` is dirty. */
  lemma {:induction false} LastDirty(s: seq<byte>, b: seq<byte>, lo: nat, i: nat) returns (p: nat)
    requires |s| == |b| && lo <= i < |s| && s[lo] != b[lo]
    ensures lo <= p <= i && s[p] != b[p] && Clean(s, b, p + 1, i + 1)
    decreases i - lo
  {
    if s[i] != b[i] {
      p := i;
    } else {
      p := LastDirty(s, b, lo, i - 1);
    }
  }

  /** The nearest dirty byte at or after `i`, given that `hi` is dirty. */
  lemma {:induction false} NextDirty(s: seq<byte>, b: seq<byte>, i: nat, hi: nat) returns (p: nat)
    requires |s| == |b| && i <= hi < |s| && s[hi] != b[hi]
    ensures i <= p <= hi && s[p] != b[p] && Clean(s, b, i, p)
    decreases hi - i
  {
    if s[i] != b[i] {
      p := i;
    } else {
      p := NextDirty(s, b, i + 1, hi);
    }
  }

  lemma RunsAreTransmitted(s: seq<byte>, b: seq<byte>, runs: seq<Run>, i: nat)
    requires |s| == |b| && Coalesced(s, b, 0, runs) && InSomeRun(runs, i)
    ensures i < |s| && Transmitted(s, b, i)
  {
    var k :| 0 <= k < |runs| && runs[k].begin <= i < runs[k].end;
    assert IsRun(s, b, runs[k]);
    var lo := LastDirty(s, b, runs[k].begin, i);
    var hi := NextDirty(s, b, i, runs[k].end - 1);
    if hi - lo > COALESCE_GAP {
      assert CleanGapAt(s, b, lo + 1);
      assert false;
    }
    assert Bridges(s, b, lo, hi);
  }

  lemma TransmittedInRuns(s: seq<byte>, b: seq<byte>, runs: seq<Run>, i: nat)
    requires |s| == |b| && Coalesced(s, b, 0, runs) && i < |s| && Transmitted(s, b, i)
    ensures InSomeRun(runs, i)
  {
    var lo, hi :| 0 <= lo <= i <= hi < |s| && Bridges(s, b, lo, hi);
    assert InSomeRun(runs, lo) && InSomeRun(runs, hi);
    var k :| 0 <= k < |runs| && runs[k].begin <= lo < runs[k].end;
    var l :| 0 <= l < |runs| && runs[l].begin <= hi < runs[l].end;
    assert k == l;
  }

  /** The bytes inside the coalesced runs are exactly the transmitted ones. */
  lemma RunsCoverTransmitted(s: seq<byte>, b: seq<byte>, runs: seq<Run>)
    requires |s| == |b| && Coalesced(s, b, 0, runs)
    ensures forall i: nat | i < |s| :: InSomeRun(runs, i) <==> Transmitted(s, b, i)
  {
    forall i: nat | i < |s|
      ensures InSomeRun(runs, i) <==> Transmitted(s, b, i)
    {
      if InSomeRun(runs, i) { RunsAreTransmitted(s, b, runs, i); }
      if Transmitted(s, b, i) { TransmittedInRuns(s, b, runs, i); }
    }
  }

  lemma DirtyIsTransmitted(s: seq<byte>, b: seq<byte>, i: nat)
    requires |s| == |b| && i < |s| && s[i] != b[i]
    ensures Transmitted(s, b, i)
  {
    assert Bridges(s, b, i, i);
  }

  /** The coalesced clusters at or after `from`, built from the far end: a dirty byte joins
      the first later run unless `COALESCE_GAP` clean bytes separate them. */
  ghost function Coalesce(s: seq<byte>, b: seq<byte>, from: nat): (runs: seq<Run>)
    requires |s| == |b| && from <= |s|
    decreases |s| - from
  {
    if from == |s| then []
    else
      var rest := Coalesce(s, b, from + 1);
      if s[from] == b[from] then rest
      else if rest != [] && rest[0].begin <= from + COALESCE_GAP then
        [Run(from, rest[0].end)] + rest[1..]
      else [Run(from, from + 1)] + rest
  }

  lemma ExtendBySkip(s: seq<byte>, b: seq<byte>, from: nat, rest: seq<Run>)
    requires |s| == |b| && from < |s| && s[from] == b[from]
    requires Coalesced(s, b, from + 1, rest)
    ensures Coalesced(s, b, from, rest)
  {
  }

  lemma ExtendByNewRun(s: seq<byte>, b: seq<byte>, from: nat, rest: seq<Run>)
    requires |s| == |b| && from < |s| && s[from] != b[from]
    requires Coalesced(s, b, from + 1, rest)
    requires rest == [] || rest[0].begin > from + COALESCE_GAP
    ensures Coalesced(s, b, from, [Run(from, from + 1)] + rest)
  {
    PrependRun(s, b, Run(from, from + 1), rest);
  }

  /** A run followed by the clusters after it. */
  lemma PrependRun(s: seq<byte>, b: seq<byte>, r: Run, rest: seq<Run>)
    requires |s| == |b| && IsRun(s, b, r) && Coalesced(s, b, r.end, rest)
    requires rest == [] || r.end + COALESCE_GAP <= rest[0].begin
    ensures Coalesced(s, b, r.begin, [r] + rest)
  {
    var runs := [r] + rest;
    forall k, l | 0 <= k < l < |runs|
      ensures runs[k].end + COALESCE_GAP <= runs[l].begin
    {
      assert l == 1 || (IsRun(s, b, rest[0]) && rest[0].end + COALESCE_GAP <= rest[l - 1].begin);
    }
    forall i {:trigger InSomeRun(runs, i)} | r.begin <= i < |s| && s[i] != b[i]
      ensures InSomeRun(runs, i)
    {
      if i < r.end {
        assert runs[0].begin <= i < runs[0].end;
      } else {
        assert InSomeRun(rest, i);
        var k :| 0 <= k < |rest| && rest[k].begin <= i < rest[k].end;
        assert runs[k + 1] == rest[k];
      }
    }
  }

  lemma ExtendByJoin(s: seq<byte>, b: seq<byte>, from: nat, rest: seq<Run>)
    requires |s| == |b| && from < |s| && s[from] != b[from]
    requires Coalesced(s, b, from + 1, rest)
    requires rest != [] && rest[0].begin <= from + COALESCE_GAP
    ensures Coalesced(s, b, from, [Run(from, rest[0].end)] + rest[1..])
  {
    var r := Run(from, rest[0].end);
    assert IsRun(s, b, rest[0]);
    CoalescedTail(s, b, from + 1, rest);
    forall g: nat | r.begin <= g && g + COALESCE_GAP <= r.end
      ensures !CleanGapAt(s, b, g)
    {
      if g < rest[0].begin {
        if g > from {
          assert s[rest[0].begin] != b[rest[0].begin] && g <= rest[0].begin < g + COALESCE_GAP;
        }
      }
    }
    PrependRun(s, b, r, rest[1..]);
  }

  /** The construction yields coalesced clusters (so they exist for all bytes). */
  lemma {:induction false} CoalesceIsCoalesced(s: seq<byte>, b: seq<byte>, from: nat)
    requires |s| == |b| && from <= |s|
    ensures Coalesced(s, b, from, Coalesce(s, b, from))
    decreases |s| - from
  {
    if from < |s| {
      var rest := Coalesce(s, b, from + 1);
      CoalesceIsCoalesced(s, b, from + 1);
      if s[from] == b[from] {
        ExtendBySkip(s, b, from, rest);
      } else if rest != [] && rest[0].begin <= from + COALESCE_GAP {
        ExtendByJoin(s, b, from, rest);
      } else {
        ExtendByNewRun(s, b, from, rest);
      }
    }
  }

  /** Clean bytes contribute nothing. */
  lemma {:induction false} CoalesceSkipsClean(s: seq<byte>, b: seq<byte>, from: nat, to: nat)
    requires |s| == |b| && from <= to <= |s| && Clean(s, b, from, to)
    ensures Coalesce(s, b, from) == Coalesce(s, b, to)
    decreases |s| - from
  {
    if from < to {
      CoalesceSkipsClean(s, b, from + 1, to);
    }
  }

  /** A run that is followed by a long clean gap, or by clean bytes only, is the next cluster. */
  lemma CoalesceTakesRun(s: seq<byte>, b: seq<byte>, r: Run)
    requires |s| == |b| && IsRun(s, b, r) && Clean(s, b, r.end, r.end + COALESCE_GAP)
    ensures Coalesce(s, b, r.begin) == [r] + Coalesce(s, b, r.end)
  {
    var rest := Coalesce(s, b, r.end);
    CoalesceIsCoalesced(s, b, r.end);
    CoalesceIsCoalesced(s, b, r.begin);
    if rest != [] {
      assert IsRun(s, b, rest[0]) && s[rest[0].begin] != b[rest[0].begin];
    }
    PrependRun(s, b, r, rest);
    CoalescedUnique(s, b, r.begin, Coalesce(s, b, r.begin), [r] + rest);
  }
}
