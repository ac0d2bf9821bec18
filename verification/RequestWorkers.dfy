/** The server's bounded pool of request workers.

    Requests of one lane are serialised in the order they were accepted; lane 0 means a request
    needs no order. Every method of `RequestWorkers` is one critical section of the pool's mutex,
    so the interleavings of clients and workers are exactly the sequences of its steps.
  */
module RequestWorkers {
  type Lane = nat

  const MAX_JOBS: nat := 64

  datatype Job = Job(id: nat, lane: Lane)

  /** The pool as a value: `running` are the jobs in the hands of workers, `waiting` those held back
      for their lane, and `accepted` and `finished` record every job in order. */
  datatype Pool = Pool(
    workers: nat,
    jobs: seq<Job>,
    waiting: seq<Job>,
    running: seq<Job>,
    activeLanes: set<Lane>,
    activeIds: set<nat>,
    stopping: bool,
    accepted: seq<Job>,
    finished: seq<Job>)

  // ---------------------------------------------------------------------------
  // Lanes
  // ---------------------------------------------------------------------------

  function InLane(jobs: seq<Job>, lane: Lane): seq<Job> {
    if jobs == [] then []
    else
      InLane(jobs[..|jobs| - 1], lane) + (if jobs[|jobs| - 1].lane == lane then [jobs[|jobs| - 1]] else [])
  }

  lemma {:induction false} InLaneConcat(a: seq<Job>, b: seq<Job>, lane: Lane)
    ensures InLane(a + b, lane) == InLane(a, lane) + InLane(b, lane)
    decreases |b|
  {
    if b == [] {
      assert a + b == a;
    } else {
      InLaneConcat(a, b[..|b| - 1], lane);
      assert (a + b)[..|a + b| - 1] == a + b[..|b| - 1];
    }
  }

  function Remove(jobs: seq<Job>, i: nat): seq<Job>
    requires i < |jobs|
  {
    jobs[..i] + jobs[i + 1..]
  }

  lemma InLaneSnoc(jobs: seq<Job>, job: Job, lane: Lane)
    ensures InLane(jobs + [job], lane) == if job.lane == lane then InLane(jobs, lane) + [job] else InLane(jobs, lane)
  {
    assert (jobs + [job])[..|jobs|] == jobs;
  }

  lemma InLaneSplit(jobs: seq<Job>, i: nat, lane: Lane)
    requires i < |jobs|
    ensures InLane(jobs, lane)
            == InLane(jobs[..i], lane) + (if jobs[i].lane == lane then [jobs[i]] else []) + InLane(jobs[i + 1..], lane)
    ensures InLane(Remove(jobs, i), lane) == InLane(jobs[..i], lane) + InLane(jobs[i + 1..], lane)
  {
    assert jobs == jobs[..i + 1] + jobs[i + 1..];
    InLaneConcat(jobs[..i + 1], jobs[i + 1..], lane);
    InLaneConcat(jobs[..i], jobs[i + 1..], lane);
    assert jobs[..i + 1] == jobs[..i] + [jobs[i]];
    InLaneSnoc(jobs[..i], jobs[i], lane);
    var a, b := InLane(jobs[..i], lane), InLane(jobs[i + 1..], lane);
    assert a + [] == a;
  }

  lemma InLaneRemoveOther(jobs: seq<Job>, i: nat, lane: Lane)
    requires i < |jobs| && jobs[i].lane != lane
    ensures InLane(Remove(jobs, i), lane) == InLane(jobs, lane)
  {
    InLaneSplit(jobs, i, lane);
    var a := InLane(jobs[..i], lane);
    assert a + [] == a;
  }

  lemma InLaneRemoveFirst(jobs: seq<Job>, i: nat)
    requires i < |jobs| && InLane(jobs[..i], jobs[i].lane) == []
    ensures InLane(jobs, jobs[i].lane) == [jobs[i]] + InLane(Remove(jobs, i), jobs[i].lane)
  {
    InLaneSplit(jobs, i, jobs[i].lane);
    var b := InLane(jobs[i + 1..], jobs[i].lane);
    assert [] + [jobs[i]] + b == [jobs[i]] + b && [] + b == b;
  }

  lemma InLaneRemoveOnly(jobs: seq<Job>, i: nat)
    requires i < |jobs| && |InLane(jobs, jobs[i].lane)| <= 1
    ensures InLane(jobs, jobs[i].lane) == [jobs[i]] && InLane(Remove(jobs, i), jobs[i].lane) == []
  {
    InLaneSplit(jobs, i, jobs[i].lane);
  }

  lemma RemoveOne(jobs: seq<Job>, i: nat)
    requires i < |jobs|
    ensures multiset(jobs) == multiset(Remove(jobs, i)) + multiset{jobs[i]}
  {
    assert jobs == jobs[..i] + [jobs[i]] + jobs[i + 1..];
  }

  /** Where the first waiting job of a lane is, or the number of waiting jobs. */
  function FirstOf(jobs: seq<Job>, lane: Lane): (i: nat)
    ensures i <= |jobs|
    ensures i < |jobs| ==> jobs[i].lane == lane
  {
    if jobs == [] then 0
    else
      var i := FirstOf(jobs[..|jobs| - 1], lane);
      if i < |jobs| - 1 || jobs[|jobs| - 1].lane == lane then i else |jobs|
  }

  lemma {:induction false} FirstOfIsHead(jobs: seq<Job>, lane: Lane)
    ensures InLane(jobs[..FirstOf(jobs, lane)], lane) == []
    ensures FirstOf(jobs, lane) == |jobs| <==> InLane(jobs, lane) == []
    decreases |jobs|
  {
    if jobs != [] {
      var n := |jobs| - 1;
      FirstOfIsHead(jobs[..n], lane);
      var i := FirstOf(jobs, lane);
      if i <= n {
        assert jobs[..i] == jobs[..n][..i];
      } else {
        assert jobs[..i] == jobs;
      }
      if i == n {
        assert jobs[..n][..n] == jobs[..n];
      }
    }
  }

  lemma {:induction false} InLaneNonempty(jobs: seq<Job>, i: nat)
    requires i < |jobs|
    ensures InLane(jobs, jobs[i].lane) != []
    decreases |jobs|
  {
    var n := |jobs| - 1;
    if i < n {
      assert jobs[..n][i] == jobs[i];
      InLaneNonempty(jobs[..n], i);
    }
  }

  // ---------------------------------------------------------------------------
  // Steps
  // ---------------------------------------------------------------------------

  function Start(workers: nat): Pool {
    Pool(workers, [], [], [], {}, {}, false, [], [])
  }

  predicate Accepts(p: Pool, job: Job) {
    !p.stopping && job.id !in p.activeIds && |p.activeIds| < MAX_JOBS
  }

  function Submit(p: Pool, job: Job): Pool {
    if !Accepts(p, job) then p
    else
      var q := p.(activeIds := p.activeIds + {job.id}, accepted := p.accepted + [job]);
      if job.lane == 0 then q.(jobs := p.jobs + [job])
      else if job.lane !in p.activeLanes then
        q.(jobs := p.jobs + [job], activeLanes := p.activeLanes + {job.lane})
      else q.(waiting := p.waiting + [job])
  }

  predicate CanDequeue(p: Pool) {
    !p.stopping && p.jobs != [] && |p.running| < p.workers
  }

  function Dequeue(p: Pool): Pool
    requires CanDequeue(p)
  {
    p.(jobs := p.jobs[1..], running := p.running + [p.jobs[0]])
  }

  /** A worker is done with its job: the lane hands over to its next job, or becomes free. */
  function Finish(p: Pool, i: nat): Pool
    requires i < |p.running|
  {
    var job := p.running[i];
    var q := p.(running := Remove(p.running, i), activeIds := p.activeIds - {job.id}, finished := p.finished + [job]);
    if job.lane == 0 then q
    else
      var next := FirstOf(p.waiting, job.lane);
      if next < |p.waiting| then q.(jobs := p.jobs + [p.waiting[next]], waiting := Remove(p.waiting, next))
      else q.(activeLanes := p.activeLanes - {job.lane})
  }

  function Stop(p: Pool): Pool {
    if p.stopping then p else p.(stopping := true, jobs := [], waiting := [])
  }

  // ---------------------------------------------------------------------------
  // The invariant
  // ---------------------------------------------------------------------------

  function Held(p: Pool): multiset<Job> {
    multiset(p.jobs) + multiset(p.waiting) + multiset(p.running)
  }

  predicate DistinctIds(held: multiset<Job>) {
    forall a, b | a in held && b in held :: held[a] == 1 && (a.id == b.id ==> a == b)
  }

  /** One job of the lane runs or is ready, exactly when the lane is active; the others wait. */
  predicate LaneOpen(p: Pool, lane: Lane) {
    && InLane(p.accepted, lane)
       == InLane(p.finished, lane) + InLane(p.running, lane) + InLane(p.jobs, lane) + InLane(p.waiting, lane)
    && |InLane(p.running, lane)| + |InLane(p.jobs, lane)| == (if lane in p.activeLanes then 1 else 0)
    && (lane !in p.activeLanes ==> InLane(p.waiting, lane) == [])
  }

  /** The active ids are those of the jobs held, all different, and no accepted job is lost. */
  ghost predicate IdsOpen(p: Pool) {
    && p.activeIds == (set j | j in Held(p) :: j.id) && DistinctIds(Held(p))
    && |p.activeIds| == |Held(p)| <= MAX_JOBS
    && multiset(p.accepted) == multiset(p.finished) + Held(p)
  }

  ghost predicate LanesOpen(p: Pool) {
    && 0 !in p.activeLanes && InLane(p.waiting, 0) == []
    && forall lane | lane != 0 :: LaneOpen(p, lane)
  }

  /** What holds until the pool stops. */
  ghost predicate Open(p: Pool) {
    IdsOpen(p) && LanesOpen(p)
  }

  /** What holds always: the jobs of a lane run one at a time and finish in the order they were
      accepted. */
  predicate LaneSerial(p: Pool, lane: Lane) {
    && |InLane(p.running, lane)| <= 1
    && InLane(p.finished, lane) + InLane(p.running, lane) <= InLane(p.accepted, lane)
  }

  ghost predicate Inv(p: Pool) {
    && |p.running| <= p.workers
    && (forall lane | lane != 0 :: LaneSerial(p, lane))
    && (if p.stopping then p.jobs == [] && p.waiting == [] else Open(p))
  }

  lemma OpenIsSerial(p: Pool, lane: Lane)
    requires LaneOpen(p, lane)
    ensures LaneSerial(p, lane)
  {
  }

  lemma StartInv(workers: nat)
    ensures Inv(Start(workers))
  {
  }

  lemma IdsAdded(held: multiset<Job>, job: Job, ids: set<nat>)
    requires ids == (set j | j in held :: j.id) && DistinctIds(held) && job.id !in ids && |ids| == |held|
    ensures ids + {job.id} == (set j | j in held + multiset{job} :: j.id)
    ensures DistinctIds(held + multiset{job}) && |ids + {job.id}| == |held + multiset{job}|
  {
    var more := held + multiset{job};
    assert job !in held && job in more;
    forall id | id in ids ensures id in (set j | j in more :: j.id) {
      var j :| j in held && j.id == id;
      assert j in more;
    }
    forall a | a in more ensures more[a] == 1 {
      assert a != job ==> a in held;
    }
    forall a, b | a in more && b in more && a.id == b.id ensures a == b {
      assert a != job ==> a in held;
      assert b != job ==> b in held;
    }
  }

  lemma RemovedFrom(held: multiset<Job>, job: Job, a: Job)
    requires DistinctIds(held) && job in held
    ensures a in held - multiset{job} <==> a in held && a != job
    ensures a in held - multiset{job} ==> (held - multiset{job})[a] == 1 && a.id != job.id
  {
    assert held[job] == 1;
    if a in held { assert held[a] == 1; }
  }

  lemma IdsRemoved(held: multiset<Job>, job: Job, ids: set<nat>)
    requires ids == (set j | j in held :: j.id) && DistinctIds(held) && job in held && |ids| == |held|
    ensures ids - {job.id} == (set j | j in held - multiset{job} :: j.id)
    ensures DistinctIds(held - multiset{job}) && |ids - {job.id}| == |held - multiset{job}|
  {
    var fewer := held - multiset{job};
    forall a ensures a in fewer <==> a in held && a != job
             ensures a in fewer ==> fewer[a] == 1 && a.id != job.id
    {
      RemovedFrom(held, job, a);
    }
    forall id | id in ids - {job.id} ensures id in (set j | j in fewer :: j.id) {
      var j :| j in held && j.id == id;
      assert j in fewer;
    }
    assert job.id in ids;
  }

  /** The two pools agree about a lane. */
  predicate SameLane(p: Pool, q: Pool, lane: Lane) {
    && InLane(q.accepted, lane) == InLane(p.accepted, lane) && InLane(q.finished, lane) == InLane(p.finished, lane)
    && InLane(q.running, lane) == InLane(p.running, lane) && InLane(q.jobs, lane) == InLane(p.jobs, lane)
    && InLane(q.waiting, lane) == InLane(p.waiting, lane)
    && (lane in q.activeLanes <==> lane in p.activeLanes)
  }

  lemma SameLaneOpen(p: Pool, q: Pool, lane: Lane)
    requires SameLane(p, q, lane) && LaneOpen(p, lane)
    ensures LaneOpen(q, lane)
  {
  }

  lemma SubmitOtherLane(p: Pool, job: Job, lane: Lane)
    requires Accepts(p, job) && lane != job.lane
    ensures SameLane(p, Submit(p, job), lane)
  {
    InLaneSnoc(p.accepted, job, lane);
    InLaneSnoc(p.jobs, job, lane);
    InLaneSnoc(p.waiting, job, lane);
  }

  lemma SubmitOwnLane(p: Pool, job: Job)
    requires Accepts(p, job) && job.lane != 0 && LaneOpen(p, job.lane)
    ensures LaneOpen(Submit(p, job), job.lane)
  {
    hide InLane;
    var lane := job.lane;
    var f, r := InLane(p.finished, lane), InLane(p.running, lane);
    var j, w := InLane(p.jobs, lane), InLane(p.waiting, lane);
    var q := Submit(p, job);
    InLaneSnoc(p.accepted, job, lane);
    assert InLane(q.accepted, lane) == f + r + j + w + [job];
    if lane in p.activeLanes {
      InLaneSnoc(p.waiting, job, lane);
      assert InLane(q.waiting, lane) == w + [job];
      assert f + r + j + w + [job] == f + r + j + (w + [job]);
    } else {
      InLaneSnoc(p.jobs, job, lane);
      assert InLane(q.jobs, lane) == j + [job];
      assert r == [] && j == [] && w == [];
      assert f + r + j + w + [job] == f + r + (j + [job]) + w;
    }
  }

  lemma SubmitHeld(p: Pool, job: Job)
    requires Accepts(p, job)
    ensures Held(Submit(p, job)) == Held(p) + multiset{job}
    ensures multiset(Submit(p, job).accepted) == multiset(p.accepted) + multiset{job}
  {
    assert multiset(p.jobs + [job]) == multiset(p.jobs) + multiset{job};
    assert multiset(p.waiting + [job]) == multiset(p.waiting) + multiset{job};
    assert multiset(p.accepted + [job]) == multiset(p.accepted) + multiset{job};
  }

  lemma SubmitIds(p: Pool, job: Job)
    requires Accepts(p, job) && IdsOpen(p)
    ensures IdsOpen(Submit(p, job))
  {
    SubmitHeld(p, job);
    IdsAdded(Held(p), job, p.activeIds);
  }

  lemma LanesAreSerial(p: Pool)
    requires forall lane | lane != 0 :: LaneOpen(p, lane)
    ensures forall lane | lane != 0 :: LaneSerial(p, lane)
  {
    forall lane: Lane | lane != 0 ensures LaneSerial(p, lane) {
      OpenIsSerial(p, lane);
    }
  }

  lemma SubmitLanes(p: Pool, job: Job)
    requires LanesOpen(p) && Accepts(p, job)
    ensures LanesOpen(Submit(p, job))
  {
    var q := Submit(p, job);
    forall lane: Lane | lane != 0 ensures LaneOpen(q, lane) {
      assert LaneOpen(p, lane);
      if lane == job.lane {
        SubmitOwnLane(p, job);
      } else {
        SubmitOtherLane(p, job, lane);
        SameLaneOpen(p, q, lane);
      }
    }
    InLaneSnoc(p.waiting, job, 0);
  }

  lemma SubmitInv(p: Pool, job: Job)
    requires Inv(p)
    ensures Inv(Submit(p, job))
  {
    if Accepts(p, job) {
      SubmitIds(p, job);
      SubmitLanes(p, job);
      LanesAreSerial(Submit(p, job));
    }
  }

  lemma InLaneNothing(jobs: seq<Job>, lane: Lane)
    requires jobs == []
    ensures InLane(jobs, lane) == []
  {
  }

  lemma DequeueLane(p: Pool, lane: Lane)
    requires CanDequeue(p) && LaneOpen(p, lane)
    ensures LaneOpen(Dequeue(p), lane)
  {
    hide InLane;
    var job, f, w := p.jobs[0], InLane(p.finished, lane), InLane(p.waiting, lane);
    var r, j := InLane(p.running, lane), InLane(p.jobs, lane);
    assert Remove(p.jobs, 0) == p.jobs[1..];
    InLaneSnoc(p.running, job, lane);
    if job.lane == lane {
      InLaneNothing(p.jobs[..0], lane);
      InLaneRemoveFirst(p.jobs, 0);
      var j' := InLane(p.jobs[1..], lane);
      assert f + r + ([job] + j') + w == f + (r + [job]) + j' + w;
    } else {
      InLaneRemoveOther(p.jobs, 0, lane);
    }
  }

  lemma DequeueIds(p: Pool)
    requires CanDequeue(p) && IdsOpen(p)
    ensures IdsOpen(Dequeue(p))
  {
    var job := p.jobs[0];
    assert p.jobs == [job] + p.jobs[1..];
    assert Held(Dequeue(p)) == Held(p);
  }

  lemma DequeueInv(p: Pool)
    requires Inv(p) && CanDequeue(p)
    ensures Inv(Dequeue(p))
  {
    var q := Dequeue(p);
    DequeueIds(p);
    forall lane: Lane | lane != 0 ensures LaneOpen(q, lane) {
      DequeueLane(p, lane);
    }
    LanesAreSerial(q);
  }

  /** The lane whose job is done. */
  lemma FinishOwnLane(p: Pool, i: nat)
    requires i < |p.running| && p.running[i].lane != 0 && LaneOpen(p, p.running[i].lane)
    ensures LaneOpen(Finish(p, i), p.running[i].lane)
  {
    var job := p.running[i];
    var lane := job.lane;
    var f, w := InLane(p.finished, lane), InLane(p.waiting, lane);
    InLaneRemoveOnly(p.running, i);
    InLaneSnoc(p.finished, job, lane);
    assert InLane(p.jobs, lane) == [];
    FirstOfIsHead(p.waiting, lane);
    var next := FirstOf(p.waiting, lane);
    if next < |p.waiting| {
      InLaneRemoveFirst(p.waiting, next);
      InLaneSnoc(p.jobs, p.waiting[next], lane);
      var x, w' := p.waiting[next], InLane(Remove(p.waiting, next), lane);
      assert f + [job] + [] + ([x] + w') == (f + [job]) + [] + ([] + [x]) + w';
    } else {
      assert f + [job] + [] + [] == (f + [job]) + [] + [] + [];
    }
  }

  lemma FinishOtherLane(p: Pool, i: nat, lane: Lane)
    requires i < |p.running| && lane != p.running[i].lane
    ensures SameLane(p, Finish(p, i), lane)
  {
    var job := p.running[i];
    InLaneRemoveOther(p.running, i, lane);
    InLaneSnoc(p.finished, job, lane);
    var next := FirstOf(p.waiting, job.lane);
    if next < |p.waiting| {
      InLaneRemoveOther(p.waiting, next, lane);
      InLaneSnoc(p.jobs, p.waiting[next], lane);
    }
  }

  lemma FinishHeld(p: Pool, i: nat)
    requires i < |p.running|
    ensures Held(p) == Held(Finish(p, i)) + multiset{p.running[i]} && p.running[i] in Held(p)
  {
    var q, job := Finish(p, i), p.running[i];
    RemoveOne(p.running, i);
    var next := FirstOf(p.waiting, job.lane);
    if job.lane != 0 && next < |p.waiting| {
      RemoveOne(p.waiting, next);
      assert multiset(q.jobs) == multiset(p.jobs) + multiset{p.waiting[next]};
      assert multiset(p.waiting) == multiset(q.waiting) + multiset{p.waiting[next]};
    } else {
      assert q.jobs == p.jobs && q.waiting == p.waiting;
    }
    assert multiset(p.running) == multiset(q.running) + multiset{job};
  }

  lemma FinishIds(p: Pool, i: nat)
    requires IdsOpen(p) && i < |p.running|
    ensures IdsOpen(Finish(p, i))
  {
    hide Held;
    FinishHeld(p, i);
    IdsRemoved(Held(p), p.running[i], p.activeIds);
    assert Held(Finish(p, i)) == Held(p) - multiset{p.running[i]};
  }

  lemma FinishLanes(p: Pool, i: nat)
    requires LanesOpen(p) && i < |p.running|
    ensures LanesOpen(Finish(p, i))
  {
    var job, q := p.running[i], Finish(p, i);
    forall lane: Lane | lane != 0 ensures LaneOpen(q, lane) {
      assert LaneOpen(p, lane);
      if lane == job.lane {
        FinishOwnLane(p, i);
      } else {
        FinishOtherLane(p, i, lane);
        SameLaneOpen(p, q, lane);
      }
    }
    if job.lane != 0 {
      FinishOtherLane(p, i, 0);
    }
  }

  lemma FinishStopping(p: Pool, i: nat, lane: Lane)
    requires i < |p.running| && LaneSerial(p, lane)
    ensures LaneSerial(Finish(p, i), lane)
  {
    var job := p.running[i];
    InLaneSnoc(p.finished, job, lane);
    if job.lane == lane {
      InLaneRemoveOnly(p.running, i);
      assert InLane(p.finished, lane) + [job] + [] == InLane(p.finished, lane) + [job];
    } else {
      InLaneRemoveOther(p.running, i, lane);
    }
  }

  lemma FinishInv(p: Pool, i: nat)
    requires Inv(p) && i < |p.running|
    ensures Inv(Finish(p, i))
  {
    var q := Finish(p, i);
    forall lane: Lane | lane != 0 ensures LaneSerial(q, lane) {
      FinishStopping(p, i, lane);
    }
    if !p.stopping {
      FinishIds(p, i);
      FinishLanes(p, i);
    } else {
      assert FirstOf(p.waiting, p.running[i].lane) == 0;
    }
  }

  lemma StopInv(p: Pool)
    requires Inv(p)
    ensures Inv(Stop(p))
  {
    if !p.stopping {
      forall lane | lane != 0 ensures LaneSerial(Stop(p), lane) {
        assert LaneSerial(p, lane);
      }
    }
  }

  // ---------------------------------------------------------------------------
  // Every interleaving
  // ---------------------------------------------------------------------------

  datatype Step = Submits(job: Job) | Dequeues | Finishes(i: nat) | Stops

  predicate Enabled(p: Pool, step: Step) {
    match step
    case Submits(_) => true
    case Dequeues => CanDequeue(p)
    case Finishes(i) => i < |p.running|
    case Stops => true
  }

  function Next(p: Pool, step: Step): Pool
    requires Enabled(p, step)
  {
    match step
    case Submits(job) => Submit(p, job)
    case Dequeues => Dequeue(p)
    case Finishes(i) => Finish(p, i)
    case Stops => Stop(p)
  }

  ghost predicate StepsTo(p: Pool, step: Step, q: Pool) {
    Enabled(p, step) && q == Next(p, step)
  }

  /** `pools` are the states of a run of `steps` from `pools[0]`. */
  ghost predicate IsRun(steps: seq<Step>, pools: seq<Pool>) {
    |pools| == |steps| + 1 && forall k | 0 <= k < |steps| :: StepsTo(pools[k], steps[k], pools[k + 1])
  }

  lemma {:induction false} RunInv(steps: seq<Step>, pools: seq<Pool>, k: nat)
    requires IsRun(steps, pools) && Inv(pools[0]) && k <= |steps|
    ensures Inv(pools[k])
    decreases k
  {
    if k > 0 {
      RunInv(steps, pools, k - 1);
      var p, step := pools[k - 1], steps[k - 1];
      assert StepsTo(p, step, pools[k]);
      match step
      case Submits(job) => SubmitInv(p, job);
      case Dequeues => DequeueInv(p);
      case Finishes(i) => FinishInv(p, i);
      case Stops => StopInv(p);
    }
  }

  /** In every run from an idle pool, at every moment: the jobs of one lane run one at a time and
      finish in the order they were accepted; until the pool stops, the active ids are exactly those
      of the jobs held, all different and at most 64, no job is lost, and a lane is active exactly
      when one of its jobs is ready or running. */
  lemma EveryInterleaving(workers: nat, steps: seq<Step>, pools: seq<Pool>, k: nat, lane: Lane)
    requires IsRun(steps, pools) && pools[0] == Start(workers) && k <= |steps| && lane != 0
    ensures var p := pools[k];
            && |InLane(p.running, lane)| <= 1
            && InLane(p.finished, lane) <= InLane(p.accepted, lane)
            && (!p.stopping ==>
                  && p.activeIds == (set j | j in Held(p) :: j.id)
                  && |p.activeIds| == |Held(p)| <= MAX_JOBS
                  && multiset(p.accepted) == multiset(p.finished) + Held(p)
                  && (lane in p.activeLanes <==> |InLane(p.running, lane)| + |InLane(p.jobs, lane)| == 1))
  {
    StartInv(workers);
    RunInv(steps, pools, k);
    var p := pools[k];
    assert LaneSerial(p, lane);
    if !p.stopping {
      assert LaneOpen(p, lane);
    }
    assert InLane(p.finished, lane) <= InLane(p.finished, lane) + InLane(p.running, lane);
  }

  /** A waiting job has another job of its lane before it, ready or running. */
  lemma SomeWaitingIsBlocked(p: Pool)
    requires Open(p) && p.waiting != []
    ensures p.jobs != [] || p.running != []
  {
    var lane := p.waiting[0].lane;
    InLaneNonempty(p.waiting, 0);
    assert lane != 0 && LaneOpen(p, lane);
    assert |InLane(p.running, lane)| + |InLane(p.jobs, lane)| == 1;
  }

  /** A pool that holds a job always has one that is ready or running, so a worker can step. */
  lemma NeverStuck(p: Pool)
    requires Inv(p) && !p.stopping && p.workers > 0 && Held(p) != multiset{}
    ensures p.jobs != [] || p.running != []
    ensures CanDequeue(p) || Enabled(p, Finishes(0))
  {
    if p.jobs == [] && p.running == [] {
      SomeWaitingIsBlocked(p);
    }
  }

  function Measure(p: Pool): nat {
    2 * |p.jobs| + 2 * |p.waiting| + |p.running|
  }

  lemma {:induction false} WorkersFinish(steps: seq<Step>, pools: seq<Pool>)
    requires IsRun(steps, pools)
    requires forall k | 0 <= k < |steps| :: steps[k].Dequeues? || steps[k].Finishes?
    ensures Measure(pools[|steps|]) + |steps| == Measure(pools[0])
    decreases |steps|
  {
    if steps != [] {
      var n := |steps| - 1;
      forall k | 0 <= k < n ensures StepsTo(pools[..n + 1][k], steps[..n][k], pools[..n + 1][k + 1]) {
        assert StepsTo(pools[k], steps[k], pools[k + 1]);
      }
      WorkersFinish(steps[..n], pools[..n + 1]);
      assert StepsTo(pools[n], steps[n], pools[n + 1]);
    }
  }

  /** Without further submissions and without stopping, the workers take exactly as many steps as the
      measure says, in whatever order, and then every accepted job is finished. */
  lemma EveryJobFinishes(steps: seq<Step>, pools: seq<Pool>)
    requires IsRun(steps, pools) && Inv(pools[0]) && !pools[0].stopping && pools[0].workers > 0
    requires forall k | 0 <= k < |steps| :: steps[k].Dequeues? || steps[k].Finishes?
    ensures |steps| <= Measure(pools[0])
    ensures var p := pools[|steps|];
            && (|steps| == Measure(pools[0]) <==> multiset(p.finished) == multiset(p.accepted))
            && (|steps| < Measure(pools[0]) ==> CanDequeue(p) || p.running != [])
  {
    WorkersFinish(steps, pools);
    var p := pools[|steps|];
    RunInv(steps, pools, |steps|);
    StaysOpen(steps, pools, |steps|);
    if Measure(p) == 0 {
      assert Held(p) == multiset{};
    } else {
      assert |Held(p)| > 0;
      NeverStuck(p);
    }
  }

  lemma {:induction false} StaysOpen(steps: seq<Step>, pools: seq<Pool>, k: nat)
    requires IsRun(steps, pools) && k <= |steps|
    requires forall i | 0 <= i < |steps| :: steps[i].Dequeues? || steps[i].Finishes?
    ensures pools[k].stopping == pools[0].stopping && pools[k].workers == pools[0].workers
    decreases k
  {
    if k > 0 {
      StaysOpen(steps, pools, k - 1);
      assert StepsTo(pools[k - 1], steps[k - 1], pools[k]);
    }
  }

  // ---------------------------------------------------------------------------
  // The pool in place
  // ---------------------------------------------------------------------------

  /** The per-lane queues are the waiting jobs of each lane; empty ones are erased. */
  ghost predicate Indexes(laneJobs: map<Lane, seq<Job>>, waiting: seq<Job>) {
    forall lane: Lane ::
      if lane in laneJobs then laneJobs[lane] != [] && laneJobs[lane] == InLane(waiting, lane)
      else InLane(waiting, lane) == []
  }

  lemma IndexesAdded(laneJobs: map<Lane, seq<Job>>, waiting: seq<Job>, job: Job)
    requires Indexes(laneJobs, waiting)
    ensures Indexes(laneJobs[job.lane := (if job.lane in laneJobs then laneJobs[job.lane] else []) + [job]],
                    waiting + [job])
  {
    var laneJobs' := laneJobs[job.lane := (if job.lane in laneJobs then laneJobs[job.lane] else []) + [job]];
    forall lane: Lane
      ensures if lane in laneJobs' then laneJobs'[lane] != [] && laneJobs'[lane] == InLane(waiting + [job], lane)
              else InLane(waiting + [job], lane) == []
    {
      InLaneSnoc(waiting, job, lane);
    }
  }

  /** Handing over to the lane's next job takes the head of its queue. */
  lemma IndexesRemoved(laneJobs: map<Lane, seq<Job>>, waiting: seq<Job>, lane: Lane)
    requires Indexes(laneJobs, waiting) && lane in laneJobs
    ensures var next, queue := FirstOf(waiting, lane), laneJobs[lane];
            && next < |waiting| && waiting[next] == queue[0]
            && Indexes(if |queue| == 1 then laneJobs - {lane} else laneJobs[lane := queue[1..]], Remove(waiting, next))
  {
    FirstOfIsHead(waiting, lane);
    var next, queue := FirstOf(waiting, lane), laneJobs[lane];
    InLaneRemoveFirst(waiting, next);
    var waiting' := Remove(waiting, next);
    assert queue[1..] == InLane(waiting', lane);
    var laneJobs' := if |queue| == 1 then laneJobs - {lane} else laneJobs[lane := queue[1..]];
    forall other: Lane
      ensures if other in laneJobs' then laneJobs'[other] != [] && laneJobs'[other] == InLane(waiting', other)
              else InLane(waiting', other) == []
    {
      if other != lane {
        InLaneRemoveOther(waiting, next, other);
      }
    }
  }

  class RequestWorkers {
    const workers: nat
    var jobs: seq<Job>
    var laneJobs: map<Lane, seq<Job>>
    var activeLanes: set<Lane>
    var activeIds: set<nat>
    var running: seq<Job>
    var stopping: bool
    ghost var waiting: seq<Job>
    ghost var accepted: seq<Job>
    ghost var finished: seq<Job>

    constructor (workers: nat)
      ensures Valid() && Abs() == Start(workers)
    {
      this.workers := workers;
      jobs, laneJobs, activeLanes, activeIds, running, stopping := [], map[], {}, {}, [], false;
      waiting, accepted, finished := [], [], [];
    }

    ghost function Abs(): Pool
      reads this
    {
      Pool(workers, jobs, waiting, running, activeLanes, activeIds, stopping, accepted, finished)
    }

    ghost predicate Valid()
      reads this
    {
      Indexes(laneJobs, waiting)
    }

    method Submit(id: nat, lane: Lane) returns (ok: bool)
      requires Valid()
      modifies this
      ensures Valid()
      ensures ok <==> !old(stopping) && id !in old(activeIds) && |old(activeIds)| < MAX_JOBS
      ensures ok ==> activeIds == old(activeIds) + {id}
      ensures ok && (lane == 0 || lane !in old(activeLanes)) ==>
                jobs == old(jobs) + [Job(id, lane)] && laneJobs == old(laneJobs)
      ensures ok && lane != 0 && lane in old(activeLanes) ==>
                && jobs == old(jobs)
                && laneJobs == old(laneJobs)[lane := (if lane in old(laneJobs) then old(laneJobs)[lane] else []) + [Job(id, lane)]]
      ensures ok ==> activeLanes == if lane == 0 then old(activeLanes) else old(activeLanes) + {lane}
      ensures running == old(running) && stopping == old(stopping) && (!ok ==> Abs() == old(Abs()))
      ensures Abs() == Next(old(Abs()), Submits(Job(id, lane)))
    {
      var job := Job(id, lane);
      if stopping || id in activeIds || |activeIds| >= MAX_JOBS { return false; }
      activeIds := activeIds + {id};
      accepted := accepted + [job];
      if lane == 0 || lane !in activeLanes {
        if lane != 0 { activeLanes := activeLanes + {lane}; }
        jobs := jobs + [job];
      } else {
        IndexesAdded(laneJobs, waiting, job);
        laneJobs := laneJobs[lane := (if lane in laneJobs then laneJobs[lane] else []) + [job]];
        waiting := waiting + [job];
      }
      assert Abs() == Next(old(Abs()), Submits(job));
      ok := true;
    }

    /** A worker takes the job at the front. */
    method Take() returns (job: Job)
      requires Valid() && CanDequeue(Abs())
      modifies this
      ensures Valid() && old(jobs) == [job] + jobs && running == old(running) + [job]
      ensures laneJobs == old(laneJobs) && activeLanes == old(activeLanes) && activeIds == old(activeIds)
      ensures Abs() == Next(old(Abs()), Dequeues)
    {
      job := jobs[0];
      jobs := jobs[1..];
      running := running + [job];
    }

    /** The worker holding the `i`-th running job reports it done. */
    method Done(i: nat)
      requires Valid() && i < |running|
      modifies this
      ensures Valid()
      ensures var job := old(running[i]);
              && running == old(running)[..i] + old(running)[i + 1..] && activeIds == old(activeIds) - {job.id}
              && stopping == old(stopping)
              && if job.lane != 0 && job.lane in old(laneJobs) then
                   && jobs == old(jobs) + [old(laneJobs)[job.lane][0]] && activeLanes == old(activeLanes)
                   && laneJobs == (if |old(laneJobs)[job.lane]| == 1 then old(laneJobs) - {job.lane}
                                   else old(laneJobs)[job.lane := old(laneJobs)[job.lane][1..]])
                 else
                   && jobs == old(jobs) && laneJobs == old(laneJobs)
                   && activeLanes == old(activeLanes) - (if job.lane == 0 then {} else {job.lane})
      ensures Abs() == Next(old(Abs()), Finishes(i))
    {
      var job := running[i];
      running := running[..i] + running[i + 1..];
      activeIds := activeIds - {job.id};
      finished := finished + [job];
      if job.lane == 0 { return; }
      FirstOfIsHead(waiting, job.lane);
      if job.lane in laneJobs {
        IndexesRemoved(laneJobs, waiting, job.lane);
        var queue := laneJobs[job.lane];
        jobs := jobs + [queue[0]];
        laneJobs := if |queue| == 1 then laneJobs - {job.lane} else laneJobs[job.lane := queue[1..]];
        waiting := Remove(waiting, FirstOf(waiting, job.lane));
      } else {
        activeLanes := activeLanes - {job.lane};
      }
      assert Abs() == Next(old(Abs()), Finishes(i));
    }

    method Stop()
      requires Valid()
      modifies this
      ensures Valid()
      ensures stopping && running == old(running) && activeLanes == old(activeLanes) && activeIds == old(activeIds)
      ensures if old(stopping) then Abs() == old(Abs()) && laneJobs == old(laneJobs) else jobs == [] && laneJobs == map[]
      ensures Abs() == Next(old(Abs()), Stops)
    {
      if stopping { return; }
      stopping := true;
      jobs, laneJobs := [], map[];
      waiting := [];
    }
  }
}
