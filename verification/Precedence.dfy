/** Which submissions must be complete before another one is, and which of their writes the
    host has not acquired.

    The graph knows nothing of the provenance tables: it is the order they are measured against.
  */
module Precedence {
  import opened Provenance

  datatype Submission = Submission(queue: QueueId, writes: set<MemoryId>)

  /** A position in a queue: everything submitted to it with a serial up to `serial`. */
  datatype Point = Point(queue: QueueId, serial: nat)

  /** Submissions by serial, the semaphore dependencies between them, and the (submission,
      memory) writes the host has not acquired. */
  datatype Graph = Graph(submissions: map<nat, Submission>, edges: set<(nat, nat)>, unacquired: set<(nat, MemoryId)>)

  /** Submission `a` is complete when `b` is: a semaphore orders them, or they share a queue. */
  ghost predicate Edge(g: Graph, a: nat, b: nat) {
    && a in g.submissions && b in g.submissions
    && ((a, b) in g.edges || (g.submissions[a].queue == g.submissions[b].queue && a < b))
  }

  ghost predicate Path(g: Graph, p: seq<nat>) {
    && p != [] && (forall i | 0 <= i < |p| :: p[i] in g.submissions)
    && forall i | 0 < i < |p| :: Edge(g, p[i - 1], p[i])
  }

  ghost predicate PathFromTo(g: Graph, p: seq<nat>, a: nat, b: nat) {
    Path(g, p) && p[0] == a && p[|p| - 1] == b
  }

  ghost predicate Precedes(g: Graph, a: nat, b: nat) {
    exists p :: PathFromTo(g, p, a, b)
  }

  ghost predicate InPoint(g: Graph, t: nat, point: Point) {
    t in g.submissions && g.submissions[t].queue == point.queue && t <= point.serial
  }

  /** Submission `a` must be complete once everything at `point` is. */
  ghost predicate Before(g: Graph, a: nat, point: Point) {
    exists t :: InPoint(g, t, point) && Precedes(g, a, t)
  }

  /** `ids` contains every memory with an unacquired write that precedes `point`. */
  ghost predicate Covers(g: Graph, point: Point, ids: set<MemoryId>) {
    forall a, m | (a, m) in g.unacquired && Before(g, a, point) :: m in ids
  }

  ghost predicate WellFormed(g: Graph, nextSerial: nat) {
    && (forall a | a in g.submissions :: a < nextSerial)
    && (forall a, b | (a, b) in g.edges ::
          a in g.submissions && b in g.submissions && (g.submissions[a].queue == g.submissions[b].queue ==> a < b))
    && (forall a, m | (a, m) in g.unacquired :: a in g.submissions && m in g.submissions[a].writes)
  }

  lemma CoversMore(g: Graph, point: Point, ids: set<MemoryId>, more: set<MemoryId>)
    requires Covers(g, point, ids) && ids <= more
    ensures Covers(g, point, more)
  {
  }

  /** A point earlier in the queue, or later with nothing submitted in between, asks for no more. */
  lemma CoversWithin(g: Graph, point: Point, earlier: Point, ids: set<MemoryId>)
    requires Covers(g, point, ids) && point.queue == earlier.queue
    requires forall t: nat | InPoint(g, t, earlier) :: t <= point.serial
    ensures Covers(g, earlier, ids)
  {
    forall a, m | (a, m) in g.unacquired && Before(g, a, earlier)
      ensures m in ids
    {
      var t :| InPoint(g, t, earlier) && Precedes(g, a, t);
      assert InPoint(g, t, point) && Before(g, a, point);
    }
  }

  /** A submission precedes its own position in the queue. */
  lemma SelfBefore(g: Graph, a: nat, point: Point)
    requires InPoint(g, a, point)
    ensures Before(g, a, point)
  {
    assert PathFromTo(g, [a], a, a);
    assert Precedes(g, a, a);
  }

  // ---------------------------------------------------------------------------
  // A new submission
  // ---------------------------------------------------------------------------

  /** A new submission that depends, through semaphores, on `sources`. */
  function AddSubmission(g: Graph, n: nat, s: Submission, sources: set<nat>): Graph {
    Graph(g.submissions[n := s],
          g.edges + (set a | a in sources :: (a, n)),
          g.unacquired + (set m | m in s.writes :: (n, m)))
  }

  lemma {:induction false} OldPath(g: Graph, n: nat, s: Submission, sources: set<nat>, p: seq<nat>)
    requires WellFormed(g, n) && sources <= g.submissions.Keys
    requires Path(AddSubmission(g, n, s, sources), p) && p[|p| - 1] != n
    ensures Path(g, p)
    decreases |p|
  {
    var k := |p| - 1;
    if k > 0 {
      assert Edge(AddSubmission(g, n, s, sources), p[k - 1], p[k]);
      OldPath(g, n, s, sources, p[..k]);
      assert p == p[..k] + [p[k]];
    }
  }

  /** What precedes an old submission is unchanged by a new one. */
  lemma PrecedesOld(g: Graph, n: nat, s: Submission, sources: set<nat>, a: nat, t: nat)
    requires WellFormed(g, n) && sources <= g.submissions.Keys && t != n
    ensures Precedes(AddSubmission(g, n, s, sources), a, t) ==> Precedes(g, a, t) && a in g.submissions
  {
    var g' := AddSubmission(g, n, s, sources);
    if Precedes(g', a, t) {
      var p :| PathFromTo(g', p, a, t);
      OldPath(g, n, s, sources, p);
      assert PathFromTo(g, p, a, t);
    }
  }

  /** What precedes the new submission is itself, what precedes its queue so far, and what
      precedes its sources. */
  lemma PrecedesNew(g: Graph, n: nat, s: Submission, sources: set<nat>, a: nat)
    requires WellFormed(g, n) && sources <= g.submissions.Keys
    requires Precedes(AddSubmission(g, n, s, sources), a, n)
    ensures a == n || exists y :: Precedes(g, a, y) && y in g.submissions
                                  && (g.submissions[y].queue == s.queue || y in sources)
  {
    var g' := AddSubmission(g, n, s, sources);
    var p :| PathFromTo(g', p, a, n);
    if |p| > 1 {
      var y, front := p[|p| - 2], p[..|p| - 1];
      assert Edge(g', p[|p| - 1 - 1], p[|p| - 1]);
      if y != n {
        OldPath(g, n, s, sources, front);
        assert PathFromTo(g, front, a, y);
      }
    }
  }

  /** A point that does not contain the new submission stays covered. */
  lemma CoversOld(g: Graph, n: nat, s: Submission, sources: set<nat>, point: Point, ids: set<MemoryId>)
    requires WellFormed(g, n) && sources <= g.submissions.Keys
    requires point.serial < n || point.queue != s.queue
    requires Covers(g, point, ids)
    ensures Covers(AddSubmission(g, n, s, sources), point, ids)
  {
    var g' := AddSubmission(g, n, s, sources);
    forall a, m | (a, m) in g'.unacquired && Before(g', a, point)
      ensures m in ids
    {
      var t :| InPoint(g', t, point) && Precedes(g', a, t);
      PrecedesOld(g, n, s, sources, a, t);
      assert InPoint(g, t, point) && Before(g, a, point);
    }
  }

  /** The queue's set, extended by the batch's writes and what its waits brought in, covers the
      queue up to the new submission. */
  lemma CoversNew(g: Graph, n: nat, s: Submission, sources: set<nat>, ids: set<MemoryId>)
    requires WellFormed(g, n) && sources <= g.submissions.Keys
    requires Covers(g, Point(s.queue, n), ids) && s.writes <= ids
    requires forall y | y in sources :: Covers(g, Point(g.submissions[y].queue, y), ids)
    ensures Covers(AddSubmission(g, n, s, sources), Point(s.queue, n), ids)
  {
    var g', point := AddSubmission(g, n, s, sources), Point(s.queue, n);
    forall a, m | (a, m) in g'.unacquired && Before(g', a, point)
      ensures m in ids
    {
      var t :| InPoint(g', t, point) && Precedes(g', a, t);
      if t != n {
        PrecedesOld(g, n, s, sources, a, t);
        assert InPoint(g, t, point) && Before(g, a, point);
      } else {
        PrecedesNew(g, n, s, sources, a);
        if a != n {
          var y :| Precedes(g, a, y) && y in g.submissions
                   && (g.submissions[y].queue == s.queue || y in sources);
          var at := if y in sources then Point(g.submissions[y].queue, y) else point;
          assert InPoint(g, y, at) && Before(g, a, at);
        }
      }
    }
  }

  // ---------------------------------------------------------------------------
  // Dependencies that become known later
  // ---------------------------------------------------------------------------

  /** Submission `w` turns out to depend on `n`, for every pair `(n, w)`. */
  function AddEdges(g: Graph, late: set<(nat, nat)>): Graph {
    g.(edges := g.edges + late)
  }

  lemma PrecedesSelf(g: Graph, a: nat)
    requires a in g.submissions
    ensures Precedes(g, a, a)
  {
    assert PathFromTo(g, [a], a, a);
  }

  lemma PrecedesNext(g: Graph, a: nat, b: nat, c: nat)
    requires Precedes(g, a, b) && Edge(g, b, c)
    ensures Precedes(g, a, c)
  {
    var p :| PathFromTo(g, p, a, b);
    assert PathFromTo(g, p + [c], a, c);
  }

  lemma PrecedesVia(g: Graph, a: nat, b: nat, c: nat)
    requires Edge(g, a, b) && Precedes(g, b, c)
    ensures Precedes(g, a, c)
  {
    var p :| PathFromTo(g, p, b, c);
    var q := [a] + p;
    forall i | 0 < i < |q| ensures Edge(g, q[i - 1], q[i]) {
      if i > 1 {
        assert Edge(g, p[i - 2], p[i - 1]);
      }
    }
    assert PathFromTo(g, q, a, c);
  }

  /** `b` was submitted to the queue of `w`, no earlier. */
  ghost predicate Follows(g: Graph, w: nat, b: nat) {
    w in g.submissions && b in g.submissions && g.submissions[w].queue == g.submissions[b].queue && w <= b
  }

  /** What precedes `a` is brought to the queue of `b`, at or before `b`. */
  ghost predicate Brought(g: Graph, late: set<(nat, nat)>, a: nat, b: nat) {
    exists n, w :: (n, w) in late && Precedes(g, a, n) && Follows(g, w, b)
  }

  /** An unacquired write of `m` precedes `b` already, or is brought to its queue. */
  ghost predicate Carried(g: Graph, late: set<(nat, nat)>, m: MemoryId, b: nat) {
    exists a :: (a, m) in g.unacquired && (Precedes(g, a, b) || Brought(g, late, a, b))
  }

  /** The submissions that others turn out to depend on are in `queue`, and those others are not. */
  ghost predicate Apart(g: Graph, queue: QueueId, late: set<(nat, nat)>) {
    forall n, w | (n, w) in late ::
      n in g.submissions && w in g.submissions && g.submissions[n].queue == queue != g.submissions[w].queue
  }

  /** Whatever an unacquired write of a new source wrote is carried to everything that follows the
      submission that waited. */
  ghost predicate LateAllowed(g: Graph, queue: QueueId, late: set<(nat, nat)>) {
    && Apart(g, queue, late)
    && forall n, w, a, m, b | (n, w) in late && (a, m) in g.unacquired && Precedes(g, a, n) && Precedes(g, w, b) ::
         Carried(g, late, m, b)
  }

  /** A follower that needs nothing more: it is in the submitting queue at or after the new source, or
      its queue is served, at or before it, from that source or a later one. */
  ghost predicate FollowerServed(g: Graph, queue: QueueId, late: set<(nat, nat)>, n: nat, b: nat) {
    || (b in g.submissions && g.submissions[b].queue == queue && n <= b)
    || exists n', w' :: (n', w') in late && n <= n' && Follows(g, w', b)
  }

  /** When every follower is in the waiting queue behind the waiter, or in the submitting queue behind
      the signal, or itself served by the call, the call is allowed whatever was written. */
  lemma ServedAllowed(g: Graph, queue: QueueId, late: set<(nat, nat)>)
    requires Apart(g, queue, late)
    requires forall n, w, b | (n, w) in late && Precedes(g, w, b) :: FollowerServed(g, queue, late, n, b)
    ensures LateAllowed(g, queue, late)
  {
    forall n, w, a, m, b | (n, w) in late && (a, m) in g.unacquired && Precedes(g, a, n) && Precedes(g, w, b)
      ensures Carried(g, late, m, b)
    {
      assert FollowerServed(g, queue, late, n, b);
      if b in g.submissions && g.submissions[b].queue == queue && n <= b {
        PrecedesLater(g, a, n, b);
      } else {
        var n', w' :| (n', w') in late && n <= n' && Follows(g, w', b);
        PrecedesLater(g, a, n, n');
        assert Brought(g, late, a, b);
      }
    }
  }

  lemma PrecedesLater(g: Graph, a: nat, b: nat, c: nat)
    requires Precedes(g, a, b) && Follows(g, b, c)
    ensures Precedes(g, a, c)
  {
    if b < c {
      PrecedesNext(g, a, b, c);
    }
  }

  /** So is a call that signals when nothing unacquired precedes its signals. */
  lemma QuietAllowed(g: Graph, queue: QueueId, late: set<(nat, nat)>)
    requires Apart(g, queue, late)
    requires forall n, w | (n, w) in late :: Covers(g, Point(queue, n), {})
    ensures LateAllowed(g, queue, late)
  {
    forall n, w, a, m | (n, w) in late && (a, m) in g.unacquired ensures !Precedes(g, a, n) {
      BeforeOwn(g, a, n);
    }
  }

  lemma BeforeOwn(g: Graph, a: nat, n: nat)
    requires n in g.submissions
    ensures Precedes(g, a, n) ==> Before(g, a, Point(g.submissions[n].queue, n))
  {
    assert InPoint(g, n, Point(g.submissions[n].queue, n));
  }

  /** Along a path what is carried stays carried, however many late edges it crosses. */
  lemma {:induction false} CarriedAlong(g: Graph, queue: QueueId, late: set<(nat, nat)>, p: seq<nat>, m: MemoryId)
    requires LateAllowed(g, queue, late) && Path(AddEdges(g, late), p) && (p[0], m) in g.unacquired
    ensures Carried(g, late, m, p[|p| - 1])
    decreases |p|
  {
    var k := |p| - 1;
    if k == 0 {
      PrecedesSelf(g, p[0]);
    } else {
      CarriedAlong(g, queue, late, p[..k], m);
      assert Edge(AddEdges(g, late), p[k - 1], p[k]);
      CarriedNext(g, queue, late, m, p[k - 1], p[k]);
    }
  }

  lemma CarriedNext(g: Graph, queue: QueueId, late: set<(nat, nat)>, m: MemoryId, b: nat, c: nat)
    requires LateAllowed(g, queue, late) && Carried(g, late, m, b) && Edge(AddEdges(g, late), b, c)
    ensures Carried(g, late, m, c)
  {
    var a :| (a, m) in g.unacquired && (Precedes(g, a, b) || Brought(g, late, a, b));
    if Precedes(g, a, b) {
      if Edge(g, b, c) {
        PrecedesNext(g, a, b, c);
      } else {
        assert (b, c) in late && Follows(g, c, c);
        assert Brought(g, late, a, c);
      }
    } else {
      var n, w :| (n, w) in late && Precedes(g, a, n) && Follows(g, w, b);
      assert (b, c) !in late;
      PrecedesSelf(g, w);
      PrecedesLater(g, w, w, b);
      PrecedesNext(g, w, b, c);
    }
  }

  /** A set that also covers the new sources of what a point contains goes on covering it. */
  lemma CoversLate(g: Graph, queue: QueueId, late: set<(nat, nat)>, point: Point, ids: set<MemoryId>)
    requires LateAllowed(g, queue, late) && Covers(g, point, ids)
    requires forall n, w | (n, w) in late && InPoint(g, w, point) :: Covers(g, Point(queue, n), ids)
    ensures Covers(AddEdges(g, late), point, ids)
  {
    var g' := AddEdges(g, late);
    forall a, m | (a, m) in g'.unacquired && Before(g', a, point)
      ensures m in ids
    {
      var t :| InPoint(g', t, point) && Precedes(g', a, t);
      var p :| PathFromTo(g', p, a, t);
      CarriedAlong(g, queue, late, p, m);
      var b :| (b, m) in g.unacquired && (Precedes(g, b, t) || Brought(g, late, b, t));
      assert InPoint(g, t, point);
      if Precedes(g, b, t) {
        assert Before(g, b, point);
      } else {
        var n, w :| (n, w) in late && Precedes(g, b, n) && Follows(g, w, t);
        assert InPoint(g, w, point) && InPoint(g, n, Point(queue, n)) && Before(g, b, Point(queue, n));
      }
    }
  }

  /** A path with late edges has a first one. */
  lemma {:induction false} FirstLate(g: Graph, late: set<(nat, nat)>, p: seq<nat>)
    requires Path(AddEdges(g, late), p)
    ensures Precedes(g, p[0], p[|p| - 1])
            || exists n, w :: (n, w) in late && Precedes(g, p[0], n) && Precedes(AddEdges(g, late), w, p[|p| - 1])
    decreases |p|
  {
    if |p| == 1 {
      PrecedesSelf(g, p[0]);
    } else {
      var rest, last := p[1..], p[|p| - 1];
      forall i | 0 < i < |rest| ensures Edge(AddEdges(g, late), rest[i - 1], rest[i]) {
        assert Edge(AddEdges(g, late), p[i], p[i + 1]);
      }
      FirstLate(g, late, rest);
      assert Edge(AddEdges(g, late), p[1 - 1], p[1]);
      if Edge(g, p[0], p[1]) {
        if Precedes(g, p[1], last) {
          PrecedesVia(g, p[0], p[1], last);
        } else {
          var n, w :| (n, w) in late && Precedes(g, p[1], n) && Precedes(AddEdges(g, late), w, last);
          PrecedesVia(g, p[0], p[1], n);
        }
      } else {
        PrecedesSelf(g, p[0]);
        assert PathFromTo(AddEdges(g, late), rest, p[1], last);
      }
    }
  }

  /** And a last one. */
  lemma {:induction false} LastLate(g: Graph, late: set<(nat, nat)>, p: seq<nat>)
    requires Path(AddEdges(g, late), p)
    ensures Precedes(g, p[0], p[|p| - 1]) || exists n, w :: (n, w) in late && Precedes(g, w, p[|p| - 1])
    decreases |p|
  {
    var k := |p| - 1;
    if k == 0 {
      PrecedesSelf(g, p[0]);
    } else {
      LastLate(g, late, p[..k]);
      assert Edge(AddEdges(g, late), p[k - 1], p[k]);
      if Edge(g, p[k - 1], p[k]) {
        if Precedes(g, p[0], p[k - 1]) {
          PrecedesNext(g, p[0], p[k - 1], p[k]);
        } else {
          var n, w :| (n, w) in late && Precedes(g, w, p[k - 1]);
          PrecedesNext(g, w, p[k - 1], p[k]);
        }
      } else {
        PrecedesSelf(g, p[k]);
      }
    }
  }

  /** What newly precedes a point does so across a late edge. */
  lemma BeforeLate(g: Graph, late: set<(nat, nat)>, point: Point, a: nat)
    ensures Before(AddEdges(g, late), a, point) ==>
              Before(g, a, point) || exists n, w :: (n, w) in late && Before(g, w, point)
  {
    var g' := AddEdges(g, late);
    if Before(g', a, point) {
      var t :| InPoint(g', t, point) && Precedes(g', a, t);
      var p :| PathFromTo(g', p, a, t);
      LastLate(g, late, p);
      assert InPoint(g, t, point);
      if n, w :| (n, w) in late && Precedes(g, w, t) {
        assert Before(g, w, point);
      }
    }
  }

  lemma PathMore(g: Graph, late: set<(nat, nat)>, p: seq<nat>)
    requires Path(g, p)
    ensures Path(AddEdges(g, late), p)
  {
    forall i | 0 < i < |p| ensures Edge(AddEdges(g, late), p[i - 1], p[i]) { assert Edge(g, p[i - 1], p[i]); }
  }

  lemma PrecedesMore(g: Graph, late: set<(nat, nat)>, a: nat, b: nat)
    requires Precedes(g, a, b)
    ensures Precedes(AddEdges(g, late), a, b)
  {
    var p :| PathFromTo(g, p, a, b);
    PathMore(g, late, p);
    assert PathFromTo(AddEdges(g, late), p, a, b);
  }

  lemma PathJoin(g: Graph, p: seq<nat>, q: seq<nat>)
    requires Path(g, p) && Path(g, q) && Edge(g, p[|p| - 1], q[0])
    ensures Path(g, p + q)
  {
    var r := p + q;
    forall i | 0 < i < |r| ensures Edge(g, r[i - 1], r[i]) {
      if i < |p| {
        assert Edge(g, p[i - 1], p[i]);
      } else if i > |p| {
        assert Edge(g, q[i - 1 - |p|], q[i - |p|]);
      }
    }
  }

  lemma PrecedesAcross(g: Graph, late: set<(nat, nat)>, a: nat, n: nat, w: nat, b: nat)
    requires (n, w) in late && Precedes(g, a, n) && Precedes(AddEdges(g, late), w, b)
    ensures Precedes(AddEdges(g, late), a, b)
  {
    PrecedesMore(g, late, a, n);
    var g' := AddEdges(g, late);
    var p :| PathFromTo(g', p, a, n);
    var q :| PathFromTo(g', q, w, b);
    assert Edge(g', n, w);
    PathJoin(g', p, q);
    assert PathFromTo(g', p + q, a, b);
  }

  /** Every memory with an unacquired write that precedes `n` is in `ids`. */
  ghost predicate Holds(g: Graph, n: nat, ids: set<MemoryId>) {
    forall a, m | (a, m) in g.unacquired && Precedes(g, a, n) :: m in ids
  }

  /** A covering set goes on covering a point exactly when it holds what every late edge before the
      point brings. */
  lemma CoversExactly(g: Graph, late: set<(nat, nat)>, point: Point, ids: set<MemoryId>)
    requires Covers(g, point, ids)
    ensures Covers(AddEdges(g, late), point, ids) <==>
            forall n, w | (n, w) in late && Before(AddEdges(g, late), w, point) :: Holds(g, n, ids)
  {
    var g' := AddEdges(g, late);
    if Covers(g', point, ids) {
      forall n, w, a, m | (n, w) in late && Before(g', w, point) && (a, m) in g.unacquired && Precedes(g, a, n)
        ensures m in ids
      {
        var t :| InPoint(g', t, point) && Precedes(g', w, t);
        PrecedesAcross(g, late, a, n, w, t);
        assert Before(g', a, point);
      }
    }
    if forall n, w | (n, w) in late && Before(g', w, point) :: Holds(g, n, ids) {
      forall a, m | (a, m) in g'.unacquired && Before(g', a, point) ensures m in ids {
        var t :| InPoint(g', t, point) && Precedes(g', a, t);
        var p :| PathFromTo(g', p, a, t);
        FirstLate(g, late, p);
        assert InPoint(g, t, point);
        if Precedes(g, a, t) {
          assert Before(g, a, point);
        } else {
          var n, w :| (n, w) in late && Precedes(g, a, n) && Precedes(g', w, t);
          assert Before(g', w, point) && Holds(g, n, ids);
        }
      }
    }
  }

  // ---------------------------------------------------------------------------
  // Observing completions
  // ---------------------------------------------------------------------------

  ghost predicate BeforeAny(g: Graph, a: nat, points: set<Point>) {
    exists p :: p in points && Before(g, a, p)
  }

  /** The host has acquired the memories `ids` after everything at `points` completed. */
  ghost function Acquire(g: Graph, points: set<Point>, ids: set<MemoryId>): Graph {
    g.(unacquired := set u | u in g.unacquired && !(BeforeAny(g, u.0, points) && u.1 in ids))
  }

  lemma PrecedesAcquired(g: Graph, unacquired: set<(nat, MemoryId)>, a: nat, b: nat)
    ensures Precedes(g.(unacquired := unacquired), a, b) == Precedes(g, a, b)
  {
    var g' := g.(unacquired := unacquired);
    if p :| PathFromTo(g, p, a, b) {
      forall i | 0 < i < |p| ensures Edge(g', p[i - 1], p[i]) { assert Edge(g, p[i - 1], p[i]); }
      assert PathFromTo(g', p, a, b);
    }
    if p :| PathFromTo(g', p, a, b) {
      forall i | 0 < i < |p| ensures Edge(g, p[i - 1], p[i]) { assert Edge(g', p[i - 1], p[i]); }
      assert PathFromTo(g, p, a, b);
    }
  }

  lemma BeforeAcquired(g: Graph, unacquired: set<(nat, MemoryId)>, a: nat, point: Point)
    ensures Before(g.(unacquired := unacquired), a, point) == Before(g, a, point)
  {
    var g' := g.(unacquired := unacquired);
    forall t ensures Precedes(g', a, t) == Precedes(g, a, t) { PrecedesAcquired(g, unacquired, a, t); }
    forall t ensures InPoint(g', t, point) == InPoint(g, t, point) {}
  }

  /** With less left to acquire, every cover stays one. */
  lemma CoversFewer(g: Graph, unacquired: set<(nat, MemoryId)>, point: Point, ids: set<MemoryId>)
    requires Covers(g, point, ids) && unacquired <= g.unacquired
    ensures Covers(g.(unacquired := unacquired), point, ids)
  {
    forall a, m | (a, m) in unacquired && Before(g.(unacquired := unacquired), a, point)
      ensures m in ids
    {
      BeforeAcquired(g, unacquired, a, point);
    }
  }

  /** Acquiring a covering set leaves exactly the writes that do not precede the points. */
  lemma AcquireCovering(g: Graph, points: set<Point>, ids: set<MemoryId>)
    requires forall p | p in points :: Covers(g, p, ids)
    ensures var g' := Acquire(g, points, ids);
            && (forall p | p in points :: Covers(g', p, {}))
            && (forall a, m :: (a, m) in g'.unacquired <==> (a, m) in g.unacquired && !BeforeAny(g, a, points))
  {
    var g' := Acquire(g, points, ids);
    forall a, m
      ensures (a, m) in g'.unacquired <==> (a, m) in g.unacquired && !BeforeAny(g, a, points)
    {
      assert (a, m).0 == a && (a, m).1 == m;
      if (a, m) in g.unacquired && BeforeAny(g, a, points) {
        var p :| p in points && Before(g, a, p);
        assert Covers(g, p, ids);
      }
    }
    forall p, a, m | p in points && (a, m) in g'.unacquired
      ensures !Before(g', a, p)
    {
      BeforeAcquired(g, g'.unacquired, a, p);
      assert !BeforeAny(g, a, points);
    }
  }
}
