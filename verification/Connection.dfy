/** The client's connection: multiplexed requests, a heartbeat, and the failure broadcast.

    Every step is one critical section of the connection's locks. Callers, the receiver and the
    watchdog interleave freely, so a run is any sequence of enabled steps.
  */
module Connection {
  import opened Options

  type Id = nat
  type Opcode = nat
  type Bytes = seq<nat>

  const PING: Opcode := 1
  const MAX_PENDING: nat := 1024
  const ID_LIMIT: nat := 0x1_0000_0000_0000_0000

  /** What is decided for a waiter that left the pending table, before it is released. */
  datatype Verdict = Failure | Reply(id: Id, opcode: Opcode, payload: Bytes)

  datatype Phase =
    | Waiting
    | Decided(verdict: Verdict)
    | Released(verdict: Verdict)
    | Withdrawn

  datatype Waiter = Waiter(id: Id, opcode: Opcode, sent: bool, phase: Phase, releases: nat)

  /** `unanswered` are the ids the server has received and not answered. */
  datatype State = State(
    pending: map<Id, nat>,
    waiters: seq<Waiter>,
    nextId: Id,
    failed: bool,
    applicationPending: nat,
    heartbeatId: Id,
    unanswered: set<Id>)

  const INITIAL := State(map[], [], 1, false, 0, 0, {})

  /** The callers, the receiver and the watchdog. */
  datatype Step =
    | Registers(opcode: Opcode, id: Id)
    | Pings(id: Id)
    | Sends(w: nat, ok: bool)
    | Withdraws(w: nat)
    | Receives(id: Id, opcode: Opcode, payload: Bytes)
    | Releases(w: nat)
    | Fails

  // ---------------------------------------------------------------------------
  // Request ids
  // ---------------------------------------------------------------------------

  function Successor(id: Id): Id {
    (id + 1) % ID_LIMIT
  }

  /** An id that may be given to a new request. */
  predicate Free(pending: map<Id, nat>, id: Id) {
    0 < id < ID_LIMIT && id !in pending
  }

  /** The counter value `steps` after `start`. */
  function Advance(start: Id, steps: nat): Id {
    (start + steps) % ID_LIMIT
  }

  /** `id` is `steps` counter values after `start`, and the ids between are not free. */
  ghost predicate Skipped(pending: map<Id, nat>, start: Id, steps: nat, id: Id) {
    id == Advance(start, steps) && forall k: nat | k < steps :: !Free(pending, Advance(start, k))
  }

  /** Of the counter values from `start` on, `id` is the first that is neither zero nor in the table. */
  ghost predicate FirstFree(pending: map<Id, nat>, start: Id, id: Id) {
    && 0 < id < ID_LIMIT && id !in pending
    && exists steps: nat :: id == Advance(start, steps)
         && forall k: nat | k < steps :: Advance(start, k) == 0 || Advance(start, k) in pending
  }

  /** The counter values the search has passed. */
  ghost function Passed(start: Id, steps: nat): set<Id> {
    set k: nat | k < steps :: Advance(start, k)
  }

  /** They are all different while the counter has not come round. */
  lemma {:induction false} PassedSize(start: Id, steps: nat)
    requires steps <= ID_LIMIT
    ensures |Passed(start, steps)| == steps
    decreases steps
  {
    if steps > 0 {
      var rest, last := Passed(start, steps - 1), Advance(start, steps - 1);
      PassedSize(start, steps - 1);
      if last in rest {
        var k: nat :| k < steps - 1 && Advance(start, k) == last;
        SameResidue(start + k, start + steps - 1);
        assert false;
      }
      assert Passed(start, steps) == rest + {last};
    }
  }

  lemma SameResidue(a: nat, b: nat)
    requires a <= b < a + ID_LIMIT && a % ID_LIMIT == b % ID_LIMIT
    ensures a == b
  {
    assert a == ID_LIMIT * (a / ID_LIMIT) + a % ID_LIMIT;
    assert b == ID_LIMIT * (b / ID_LIMIT) + b % ID_LIMIT;
  }

  lemma SubsetSize<T>(a: set<T>, b: set<T>)
    requires a <= b
    ensures |a| <= |b|
  {
    assert b == a + (b - a);
  }

  lemma PassedBlocked(pending: map<Id, nat>, start: Id, steps: nat)
    requires forall k: nat | k < steps :: !Free(pending, Advance(start, k))
    ensures Passed(start, steps) <= pending.Keys + {0}
  {
    forall id | id in Passed(start, steps) ensures id in pending.Keys + {0} {
      var k: nat :| k < steps && id == Advance(start, k);
      assert !Free(pending, Advance(start, k));
    }
  }

  /** The search for an id ends before the counter comes round, because the table is small. */
  lemma SearchIsShort(pending: map<Id, nat>, start: Id, steps: nat)
    requires steps <= ID_LIMIT
    requires forall k: nat | k < steps :: !Free(pending, Advance(start, k))
    ensures steps <= |pending| + 1
  {
    PassedBlocked(pending, start, steps);
    PassedSize(start, steps);
    SubsetSize(Passed(start, steps), pending.Keys + {0});
    assert |pending.Keys + {0}| <= |pending.Keys| + 1 && |pending| == |pending.Keys|;
  }

  lemma NextResidue(start: Id, steps: nat)
    ensures Advance(start, steps + 1) == Successor(Advance(start, steps))
  {
    var a := start + steps;
    var q, r := a / ID_LIMIT, a % ID_LIMIT;
    assert a == ID_LIMIT * q + r;
    if r + 1 < ID_LIMIT {
      assert a + 1 == ID_LIMIT * q + (r + 1);
    } else {
      assert a + 1 == ID_LIMIT * (q + 1);
    }
  }

  // ---------------------------------------------------------------------------
  // Steps
  // ---------------------------------------------------------------------------

  function Enter(st: State, opcode: Opcode, id: Id): State {
    st.(pending := st.pending[id := |st.waiters|],
        waiters := st.waiters + [Waiter(id, opcode, false, Waiting, 0)],
        nextId := Successor(id))
  }

  function Register(st: State, opcode: Opcode, id: Id): State {
    Enter(st, opcode, id).(applicationPending := st.applicationPending + 1)
  }

  function Ping(st: State, id: Id): State {
    Enter(st, PING, id).(heartbeatId := id)
  }

  function SetPhase(w: Waiter, phase: Phase): Waiter {
    w.(phase := phase)
  }

  /** The broadcast empties the table; its waiters are failed, and released one by one. */
  function Fail(st: State): State {
    if st.failed then st
    else
      st.(failed := true, applicationPending := 0, heartbeatId := 0, pending := map[],
          waiters := seq(|st.waiters|, w requires 0 <= w < |st.waiters| =>
            if st.waiters[w].phase.Waiting? then SetPhase(st.waiters[w], Decided(Failure)) else st.waiters[w]))
  }

  /** A request reaches the server, or sending it fails the connection; once it has failed nothing
      is sent any more. */
  function Send(st: State, w: nat, ok: bool): State
    requires w < |st.waiters|
  {
    if st.failed then st
    else if !ok then Fail(st)
    else st.(waiters := st.waiters[w := st.waiters[w].(sent := true)],
             unanswered := st.unanswered + {st.waiters[w].id})
  }

  function Decrement(n: nat): nat {
    if n != 0 then n - 1 else 0
  }

  /** A caller that may not block takes its unsent request back. */
  function Withdraw(st: State, w: nat): State
    requires w < |st.waiters|
  {
    var waiter := st.waiters[w];
    st.(pending := st.pending - {waiter.id}, applicationPending := Decrement(st.applicationPending),
        waiters := if waiter.phase.Waiting? then st.waiters[w := SetPhase(waiter, Withdrawn)] else st.waiters)
  }

  /** A reply that fits a pending request takes it out of the table; any other one fails the
      connection. */
  function Receive(st: State, id: Id, opcode: Opcode, payload: Bytes): State
    requires id in st.pending ==> st.pending[id] < |st.waiters|
  {
    var st := st.(unanswered := st.unanswered - {id});
    if id == 0 || id !in st.pending || opcode != st.waiters[st.pending[id]].opcode then Fail(st)
    else
      var w := st.pending[id];
      st.(pending := st.pending - {id},
          heartbeatId := if id == st.heartbeatId then 0 else st.heartbeatId,
          applicationPending := if id == st.heartbeatId then st.applicationPending else Decrement(st.applicationPending),
          waiters := st.waiters[w := SetPhase(st.waiters[w], Decided(Reply(id, opcode, payload)))])
  }

  function Release(st: State, w: nat): State
    requires w < |st.waiters| && st.waiters[w].phase.Decided?
  {
    var waiter := st.waiters[w];
    st.(waiters := st.waiters[w := waiter.(phase := Released(waiter.phase.verdict), releases := waiter.releases + 1)])
  }

  predicate Admits(st: State, id: Id) {
    !st.failed && |st.pending| < MAX_PENDING && Free(st.pending, id)
  }

  predicate Enabled(st: State, step: Step) {
    match step
    case Registers(opcode, id) => Admits(st, id) && opcode != PING
    case Pings(id) => !st.failed && st.heartbeatId == 0 && st.applicationPending != 0 && Free(st.pending, id)
    case Sends(w, _) => w < |st.waiters| && !st.waiters[w].sent && !st.waiters[w].phase.Withdrawn?
    case Withdraws(w) => w < |st.waiters| && !st.waiters[w].sent && !st.waiters[w].phase.Withdrawn? && st.waiters[w].opcode != PING
    case Receives(id, _, _) => id in st.pending ==> st.pending[id] < |st.waiters|
    case Releases(w) => w < |st.waiters| && st.waiters[w].phase.Decided?
    case Fails => true
  }

  function Next(st: State, step: Step): State
    requires Enabled(st, step)
  {
    match step
    case Registers(opcode, id) => Register(st, opcode, id)
    case Pings(id) => Ping(st, id)
    case Sends(w, ok) => Send(st, w, ok)
    case Withdraws(w) => Withdraw(st, w)
    case Receives(id, opcode, payload) => Receive(st, id, opcode, payload)
    case Releases(w) => Release(st, w)
    case Fails => Fail(st)
  }

  /** The server answers only ids it has received, and each of them once. */
  predicate ServerAnswers(st: State, step: Step) {
    step.Receives? ==> step.id in st.unanswered
  }

  // ---------------------------------------------------------------------------
  // The invariants
  // ---------------------------------------------------------------------------

  /** A waiter is in the table exactly while it waits; it is released at most once, with a verdict
      that is its own. */
  predicate WaiterSound(st: State, w: nat)
    requires w < |st.waiters|
  {
    var waiter := st.waiters[w];
    && waiter.id != 0
    && (waiter.phase.Waiting? ==> waiter.id in st.pending && st.pending[waiter.id] == w)
    && (waiter.phase.Decided? ==> OwnVerdict(waiter, waiter.phase.verdict))
    && (waiter.phase.Released? ==> OwnVerdict(waiter, waiter.phase.verdict))
    && waiter.releases == (if waiter.phase.Released? then 1 else 0)
  }

  predicate OwnVerdict(waiter: Waiter, verdict: Verdict) {
    verdict.Reply? ==> verdict.id == waiter.id && verdict.opcode == waiter.opcode
  }

  predicate EntrySound(st: State, id: Id)
    requires id in st.pending
  {
    var w := st.pending[id];
    && id != 0 && w < |st.waiters| && st.waiters[w].id == id && st.waiters[w].phase.Waiting?
    && (st.waiters[w].opcode == PING <==> id == st.heartbeatId)
  }

  ghost predicate Table(st: State) {
    && (forall w | 0 <= w < |st.waiters| :: WaiterSound(st, w))
    && (forall id | id in st.pending :: EntrySound(st, id))
  }

  predicate Indexed(st: State, id: Id)
    requires id in st.pending
  {
    id != 0 && st.pending[id] < |st.waiters|
  }

  /** The counter of application requests is the table without the heartbeat; after a failure both
      are empty. */
  ghost predicate Counts(st: State) {
    && (forall id | id in st.pending :: Indexed(st, id))
    && (st.heartbeatId != 0 ==> st.heartbeatId in st.pending)
    && (st.failed ==> st.pending == map[])
    && |st.pending| == st.applicationPending + (if st.heartbeatId != 0 then 1 else 0)
    && st.applicationPending <= MAX_PENDING
  }

  /** Only what was sent was answered. */
  ghost predicate Honest(st: State) {
    && (forall w | 0 <= w < |st.waiters| ::
          !st.failed && !st.waiters[w].phase.Waiting? && !st.waiters[w].phase.Withdrawn? ==> st.waiters[w].sent)
    && (forall id | id in st.pending :: Indexed(st, id) && (id in st.unanswered <==> st.waiters[st.pending[id]].sent))
    && (!st.failed ==> st.unanswered <= st.pending.Keys)
  }

  ghost predicate Inv(st: State) {
    Table(st) && Counts(st) && Honest(st)
  }

  // ---------------------------------------------------------------------------
  // The counter
  // ---------------------------------------------------------------------------

  /** Taking one entry out of the table. */
  lemma RemoveEntry(pending: map<Id, nat>, id: Id)
    ensures |pending - {id}| == if id in pending then |pending| - 1 else |pending|
  {
    assert (pending - {id}).Keys == pending.Keys - {id};
    assert |pending - {id}| == |(pending - {id}).Keys| && |pending| == |pending.Keys|;
  }

  lemma AddEntry(pending: map<Id, nat>, id: Id, w: nat)
    requires id !in pending
    ensures |pending[id := w]| == |pending| + 1
  {
    assert pending[id := w].Keys == pending.Keys + {id};
    assert |pending[id := w]| == |pending[id := w].Keys| && |pending| == |pending.Keys|;
  }

  /** The heartbeat's entry is not the application's: the table has one of each. */
  lemma TwoEntries(pending: map<Id, nat>, a: Id, b: Id)
    requires a in pending && b in pending && a != b
    ensures |pending| >= 2
  {
    SubsetSize({a, b}, pending.Keys);
    assert |pending| == |pending.Keys|;
  }

  /** The request a caller takes back counts: an application request is in the table under its id, or
      there is none and nothing is counted. */
  predicate TakesCounted(st: State, w: nat)
    requires w < |st.waiters|
  {
    var id := st.waiters[w].id;
    if id in st.pending then id != st.heartbeatId else st.applicationPending == 0
  }

  /** Taking a request back keeps the counter right exactly then. */
  lemma WithdrawCounts(st: State, w: nat)
    requires Counts(st) && w < |st.waiters|
    ensures Counts(Withdraw(st, w)) <==> TakesCounted(st, w)
  {
    var st', id := Withdraw(st, w), st.waiters[w].id;
    RemoveEntry(st.pending, id);
    if id in st.pending {
      if st.heartbeatId != 0 && id != st.heartbeatId {
        TwoEntries(st.pending, id, st.heartbeatId);
      }
    } else {
      assert st.pending - {id} == st.pending;
    }
    if TakesCounted(st, w) {
      forall other | other in st'.pending ensures Indexed(st', other) {
        assert Indexed(st, other);
      }
    }
  }

  lemma EnterCounts(st: State, opcode: Opcode, id: Id)
    requires Counts(st)
    ensures Enabled(st, Registers(opcode, id)) ==> Counts(Register(st, opcode, id))
    ensures Enabled(st, Pings(id)) ==> Counts(Ping(st, id))
  {
    if id !in st.pending {
      AddEntry(st.pending, id, |st.waiters|);
      assert forall other | other in st.pending :: Indexed(st, other);
    }
  }

  lemma ReceiveCounts(st: State, id: Id, opcode: Opcode, payload: Bytes)
    requires Counts(st)
    ensures Enabled(st, Receives(id, opcode, payload)) && Counts(Receive(st, id, opcode, payload))
  {
    assert id in st.pending ==> Indexed(st, id);
    var st' := Receive(st, id, opcode, payload);
    if st'.failed {
      assert st'.pending == map[];
    } else {
      RemoveEntry(st.pending, id);
      if id != st.heartbeatId && st.heartbeatId != 0 {
        TwoEntries(st.pending, id, st.heartbeatId);
      }
      forall other | other in st'.pending ensures Indexed(st', other) {
        assert Indexed(st, other);
      }
    }
  }

  /** Every other step keeps it right, whatever the server answers. */
  lemma StepCounts(st: State, step: Step)
    requires Counts(st) && Enabled(st, step) && !step.Withdraws?
    ensures Counts(Next(st, step))
  {
    match step
    case Registers(opcode, id) => EnterCounts(st, opcode, id);
    case Pings(id) => EnterCounts(st, PING, id);
    case Receives(id, opcode, payload) => ReceiveCounts(st, id, opcode, payload);
    case Sends(w, ok) => if ok && !st.failed { TouchCounts(st, Send(st, w, ok)); }
    case Releases(w) => TouchCounts(st, Release(st, w));
    case Fails =>
  }

  /** Sending and releasing leave the table. */
  lemma TouchCounts(st: State, st': State)
    requires Counts(st) && |st'.waiters| == |st.waiters|
    requires st' == st.(waiters := st'.waiters, unanswered := st'.unanswered)
    ensures Counts(st')
  {
    forall id | id in st'.pending ensures Indexed(st', id) {
      assert Indexed(st, id);
    }
  }

  // ---------------------------------------------------------------------------
  // The table
  // ---------------------------------------------------------------------------

  /** A request taken back is still its caller's, or its id is in no use. */
  predicate NotReused(st: State, w: nat)
    requires w < |st.waiters|
  {
    st.waiters[w].id in st.pending ==> st.pending[st.waiters[w].id] == w
  }

  /** Then it counts exactly while the caller waits in the table, or when nothing is counted. */
  lemma WaitingIsCounted(st: State, w: nat)
    requires Table(st) && w < |st.waiters| && st.waiters[w].opcode != PING && NotReused(st, w)
    ensures TakesCounted(st, w) <==> st.waiters[w].phase.Waiting? || st.applicationPending == 0
  {
    assert WaiterSound(st, w);
    assert st.waiters[w].id in st.pending ==> EntrySound(st, st.waiters[w].id);
  }

  /** Taking a request back keeps the table exactly when the id was not given again. */
  lemma WithdrawTable(st: State, w: nat)
    requires Table(st) && Enabled(st, Withdraws(w))
    ensures Table(Withdraw(st, w)) <==> NotReused(st, w)
  {
    assert WaiterSound(st, w);
    var st', id := Withdraw(st, w), st.waiters[w].id;
    if NotReused(st, w) {
      forall v | 0 <= v < |st'.waiters| ensures WaiterSound(st', v) {
        assert WaiterSound(st, v);
      }
      forall other | other in st'.pending ensures EntrySound(st', other) {
        assert EntrySound(st, other);
      }
    } else {
      assert EntrySound(st, id);
      assert !WaiterSound(st', st.pending[id]);
    }
  }

  lemma FailTable(st: State, unanswered: set<Id>)
    requires Table(st) && (st.failed ==> st.pending == map[])
    ensures Table(Fail(st.(unanswered := unanswered)))
  {
    var st' := Fail(st.(unanswered := unanswered));
    forall w | 0 <= w < |st'.waiters| ensures WaiterSound(st', w) {
      assert WaiterSound(st, w);
    }
  }

  /** A new request or heartbeat. */
  lemma EnterTable(st: State, opcode: Opcode, id: Id, st': State)
    requires Table(st) && Counts(st) && Free(st.pending, id)
    requires st' == Enter(st, opcode, id).(applicationPending := st'.applicationPending, heartbeatId := st'.heartbeatId)
    requires if opcode == PING then st.heartbeatId == 0 && st'.heartbeatId == id else st'.heartbeatId == st.heartbeatId
    ensures Table(st')
  {
    forall w | 0 <= w < |st'.waiters| ensures WaiterSound(st', w) {
      if w < |st.waiters| {
        assert WaiterSound(st, w);
      }
    }
    forall other | other in st'.pending ensures EntrySound(st', other) {
      if other != id {
        assert EntrySound(st, other);
      }
    }
  }

  lemma ReceiveTable(st: State, id: Id, opcode: Opcode, payload: Bytes)
    requires Table(st) && Counts(st) && Enabled(st, Receives(id, opcode, payload))
    ensures Table(Receive(st, id, opcode, payload))
  {
    var st' := Receive(st, id, opcode, payload);
    if id == 0 || id !in st.pending || opcode != st.waiters[st.pending[id]].opcode {
      FailTable(st, st.unanswered - {id});
    } else {
      assert EntrySound(st, id) && WaiterSound(st, st.pending[id]);
      forall v | 0 <= v < |st'.waiters| ensures WaiterSound(st', v) {
        assert WaiterSound(st, v);
      }
      forall other | other in st'.pending ensures EntrySound(st', other) {
        assert EntrySound(st, other);
      }
    }
  }

  /** Sending and releasing leave the table and its waiters' ids. */
  lemma TouchTable(st: State, w: nat, st': State)
    requires Table(st) && w < |st.waiters|
    requires st' == st.(waiters := st'.waiters, unanswered := st'.unanswered) && |st'.waiters| == |st.waiters|
    requires st'.waiters == st.waiters[w := st'.waiters[w]]
    requires st'.waiters[w] == st.waiters[w].(sent := true)
             || (st.waiters[w].phase.Decided? && st'.waiters[w] == st.waiters[w].(
                   phase := Released(st.waiters[w].phase.verdict), releases := st.waiters[w].releases + 1))
    ensures Table(st')
  {
    assert WaiterSound(st, w);
    forall v | 0 <= v < |st'.waiters| ensures WaiterSound(st', v) {
      assert WaiterSound(st, v);
    }
    forall id | id in st'.pending ensures EntrySound(st', id) {
      assert EntrySound(st, id);
    }
  }

  /** Every other step keeps the table, whatever the server answers. */
  lemma StepTable(st: State, step: Step)
    requires Table(st) && Counts(st) && Enabled(st, step) && !step.Withdraws?
    ensures Table(Next(st, step))
  {
    match step
    case Registers(opcode, id) => EnterTable(st, opcode, id, Register(st, opcode, id));
    case Pings(id) => EnterTable(st, PING, id, Ping(st, id));
    case Sends(w, ok) =>
      if !st.failed && ok { TouchTable(st, w, Send(st, w, ok)); }
      assert st.(unanswered := st.unanswered) == st;
      FailTable(st, st.unanswered);
    case Receives(id, opcode, payload) => ReceiveTable(st, id, opcode, payload);
    case Releases(w) => TouchTable(st, w, Release(st, w));
    case Fails =>
      assert st.(unanswered := st.unanswered) == st;
      FailTable(st, st.unanswered);
  }

  /** Table and counter stay right together exactly when the entry taken back is the caller's own, or
      there is none and nothing is counted. */
  lemma WithdrawExactly(st: State, w: nat)
    requires Table(st) && Counts(st) && Enabled(st, Withdraws(w))
    ensures Table(Withdraw(st, w)) && Counts(Withdraw(st, w)) <==>
            if st.waiters[w].id in st.pending then st.pending[st.waiters[w].id] == w else st.applicationPending == 0
  {
    WithdrawCounts(st, w);
    WithdrawTable(st, w);
    assert st.waiters[w].id in st.pending ==> EntrySound(st, st.waiters[w].id);
  }

  // ---------------------------------------------------------------------------
  // A server that answers what it was sent
  // ---------------------------------------------------------------------------

  /** An unsent request is still in the table, so taking it back is safe. */
  lemma UnsentWaits(st: State, w: nat)
    requires Inv(st) && Enabled(st, Withdraws(w))
    ensures st.failed || st.waiters[w].phase.Waiting?
    ensures Table(Withdraw(st, w)) && Counts(Withdraw(st, w)) && Honest(Withdraw(st, w))
  {
    assert WaiterSound(st, w);
    WithdrawExactly(st, w);
    var st', id := Withdraw(st, w), st.waiters[w].id;
    assert id in st.pending ==> Indexed(st, id);
    forall other | other in st'.pending
      ensures Indexed(st', other) && (other in st'.unanswered <==> st'.waiters[st'.pending[other]].sent)
    {
      assert Indexed(st, other) && EntrySound(st, other);
    }
  }

  lemma StepHonest(st: State, step: Step)
    requires Inv(st) && Enabled(st, step) && ServerAnswers(st, step) && !step.Withdraws?
    ensures Honest(Next(st, step))
  {
    var st' := Next(st, step);
    if step.Receives? && step.id in st.pending {
      assert Indexed(st, step.id);
    }
    if step.Sends? || step.Releases? {
      assert WaiterSound(st, step.w);
    }
    forall id | id in st'.pending
      ensures Indexed(st', id) && (id in st'.unanswered <==> st'.waiters[st'.pending[id]].sent)
    {
      if id in st.pending {
        assert Indexed(st, id) && EntrySound(st, id);
      }
    }
  }

  lemma StepInv(st: State, step: Step)
    requires Inv(st) && Enabled(st, step) && ServerAnswers(st, step)
    ensures Inv(Next(st, step))
  {
    if step.Withdraws? {
      UnsentWaits(st, step.w);
    } else {
      StepTable(st, step);
      StepCounts(st, step);
      StepHonest(st, step);
    }
  }

  // ---------------------------------------------------------------------------
  // Every interleaving
  // ---------------------------------------------------------------------------

  ghost predicate StepsTo(st: State, step: Step, st': State) {
    Enabled(st, step) && ServerAnswers(st, step) && st' == Next(st, step)
  }

  ghost predicate IsRun(steps: seq<Step>, states: seq<State>) {
    && |states| == |steps| + 1 && states[0] == INITIAL
    && forall k | 0 <= k < |steps| :: StepsTo(states[k], steps[k], states[k + 1])
  }

  lemma {:induction false} RunInv(steps: seq<Step>, states: seq<State>, k: nat)
    requires IsRun(steps, states) && k <= |steps|
    ensures Inv(states[k])
    decreases k
  {
    if k > 0 {
      RunInv(steps, states, k - 1);
      assert StepsTo(states[k - 1], steps[k - 1], states[k]);
      StepInv(states[k - 1], steps[k - 1]);
    }
  }

  /** In every interleaving: while the connection works, the counter of application requests is the
      table without the heartbeat; after a failure the table is and stays empty. */
  lemma TableIsCounted(steps: seq<Step>, states: seq<State>, k: nat)
    requires IsRun(steps, states) && k <= |steps|
    ensures var st := states[k];
            if st.failed then st.pending == map[] && st.applicationPending == 0 && st.heartbeatId == 0
            else st.applicationPending == |st.pending| - (if st.heartbeatId != 0 then 1 else 0)
  {
    RunInv(steps, states, k);
  }

  /** At most one heartbeat is in the table. */
  lemma OnePing(steps: seq<Step>, states: seq<State>, k: nat, a: Id, b: Id)
    requires IsRun(steps, states) && k <= |steps|
    requires var st := states[k];
             && a in st.pending && st.pending[a] < |st.waiters| && st.waiters[st.pending[a]].opcode == PING
             && b in st.pending && st.pending[b] < |st.waiters| && st.waiters[st.pending[b]].opcode == PING
    ensures a == b == states[k].heartbeatId
  {
    RunInv(steps, states, k);
    assert EntrySound(states[k], a) && EntrySound(states[k], b);
  }

  /** Failing is final, and waiters are never forgotten or released twice. */
  lemma StepProgress(st: State, step: Step, w: nat)
    requires Inv(st) && Enabled(st, step) && ServerAnswers(st, step) && w < |st.waiters|
    ensures var st' := Next(st, step);
            && |st.waiters| <= |st'.waiters| && (st.failed ==> st'.failed)
            && st'.waiters[w].id == st.waiters[w].id && st'.waiters[w].opcode == st.waiters[w].opcode
            && (st.waiters[w].phase.Released? ==> st'.waiters[w] == st.waiters[w].(sent := st'.waiters[w].sent))
            && (st'.waiters[w].phase.Released? ==>
                  st.waiters[w].phase.Released? || st.waiters[w].phase == Decided(st'.waiters[w].phase.verdict))
            && (st.waiters[w].phase.Decided? ==> !st'.waiters[w].phase.Waiting? && !st'.waiters[w].phase.Withdrawn?)
  {
    assert WaiterSound(st, w);
    if step.Receives? && step.id in st.pending {
      assert EntrySound(st, step.id);
    }
    if step.Withdraws? || step.Releases? || step.Sends? {
      assert WaiterSound(st, step.w);
    }
  }

  /** In every interleaving each caller is released at most once, with the reply to its own id and
      opcode or with failure; until then it is in the table, or its release is under way, or it took
      its request back; and once the connection has failed nobody is left waiting in the table. */
  lemma ReleasedOnce(steps: seq<Step>, states: seq<State>, k: nat, w: nat)
    requires IsRun(steps, states) && k <= |steps| && w < |states[k].waiters|
    ensures var st, waiter := states[k], states[k].waiters[w];
            && waiter.releases <= 1
            && (waiter.releases == 1 <==> waiter.phase.Released?)
            && (waiter.phase.Released? ==>
                  || waiter.phase.verdict == Failure
                  || (waiter.phase.verdict.id == waiter.id && waiter.phase.verdict.opcode == waiter.opcode))
            && (waiter.phase.Waiting? <==> waiter.id in st.pending && st.pending[waiter.id] == w)
            && (st.failed ==> !waiter.phase.Waiting?)
  {
    RunInv(steps, states, k);
    assert WaiterSound(states[k], w);
    if states[k].waiters[w].id in states[k].pending {
      assert EntrySound(states[k], states[k].waiters[w].id);
    }
  }

  lemma {:induction false} ReleasedStays(steps: seq<Step>, states: seq<State>, k: nat, l: nat, w: nat)
    requires IsRun(steps, states) && k <= l <= |steps| && w < |states[k].waiters|
    requires states[k].waiters[w].phase.Released?
    ensures w < |states[l].waiters| && states[l].waiters[w].phase == states[k].waiters[w].phase
    ensures states[l].waiters[w].releases == 1
    decreases l
  {
    RunInv(steps, states, l);
    if k < l {
      ReleasedStays(steps, states, k, l - 1, w);
      RunInv(steps, states, l - 1);
      assert StepsTo(states[l - 1], steps[l - 1], states[l]);
      StepProgress(states[l - 1], steps[l - 1], w);
    }
    assert WaiterSound(states[l], w);
  }

  // ---------------------------------------------------------------------------
  // Any server
  // ---------------------------------------------------------------------------

  ghost predicate MayStep(st: State, step: Step, st': State) {
    Enabled(st, step) && st' == Next(st, step)
  }

  /** A run with a server that answers whatever it likes. */
  ghost predicate IsAnyRun(steps: seq<Step>, states: seq<State>) {
    && |states| == |steps| + 1 && states[0] == INITIAL
    && forall k | 0 <= k < |steps| :: MayStep(states[k], steps[k], states[k + 1])
  }

  predicate StepTakesCounted(st: State, step: Step) {
    step.Withdraws? && step.w < |st.waiters| ==> TakesCounted(st, step.w)
  }

  lemma {:induction false} TakenCounts(steps: seq<Step>, states: seq<State>, k: nat)
    requires IsAnyRun(steps, states) && k <= |steps|
    requires forall l | 0 <= l < k :: StepTakesCounted(states[l], steps[l])
    ensures Counts(states[k])
    decreases k
  {
    if k > 0 {
      TakenCounts(steps, states, k - 1);
      assert MayStep(states[k - 1], steps[k - 1], states[k]) && StepTakesCounted(states[k - 1], steps[k - 1]);
      if steps[k - 1].Withdraws? {
        WithdrawCounts(states[k - 1], steps[k - 1].w);
      } else {
        StepCounts(states[k - 1], steps[k - 1]);
      }
    }
  }

  /** Whatever the server answers, the counter is right up to any point of an interleaving exactly
      when every request taken back before it counted. */
  lemma CountsExactly(steps: seq<Step>, states: seq<State>, n: nat)
    requires IsAnyRun(steps, states) && n <= |steps|
    ensures (forall k | 0 <= k <= n :: Counts(states[k])) <==>
            (forall k | 0 <= k < n :: StepTakesCounted(states[k], steps[k]))
  {
    if forall k | 0 <= k < n :: StepTakesCounted(states[k], steps[k]) {
      forall k | 0 <= k <= n ensures Counts(states[k]) {
        TakenCounts(steps, states, k);
      }
    }
    if forall k | 0 <= k <= n :: Counts(states[k]) {
      forall k | 0 <= k < n ensures StepTakesCounted(states[k], steps[k]) {
        assert MayStep(states[k], steps[k], states[k + 1]) && Counts(states[k]) && Counts(states[k + 1]);
        if steps[k].Withdraws? {
          WithdrawCounts(states[k], steps[k].w);
        }
      }
    }
  }

  /** No request is taken back whose id was given again. */
  ghost predicate NeverReused(steps: seq<Step>, states: seq<State>) {
    && |states| == |steps| + 1
    && forall k | 0 <= k < |steps| ::
         steps[k].Withdraws? && steps[k].w < |states[k].waiters| ==> NotReused(states[k], steps[k].w)
  }

  predicate StepTakesWaiting(st: State, step: Step) {
    step.Withdraws? && step.w < |st.waiters| ==> st.waiters[step.w].phase.Waiting? || st.applicationPending == 0
  }

  lemma StepWhileWaiting(st: State, step: Step)
    requires Table(st) && Counts(st) && Enabled(st, step)
    requires step.Withdraws? ==> NotReused(st, step.w)
    ensures Table(Next(st, step))
    ensures Counts(Next(st, step)) <==> StepTakesWaiting(st, step)
  {
    if step.Withdraws? {
      WithdrawCounts(st, step.w);
      WithdrawTable(st, step.w);
      WaitingIsCounted(st, step.w);
    } else {
      StepTable(st, step);
      StepCounts(st, step);
    }
  }

  lemma {:induction false} TakenWhileWaiting(steps: seq<Step>, states: seq<State>, k: nat)
    requires IsAnyRun(steps, states) && NeverReused(steps, states) && k <= |steps|
    requires forall l | 0 <= l < k :: StepTakesWaiting(states[l], steps[l]) || Counts(states[l + 1])
    ensures Table(states[k]) && Counts(states[k])
    decreases k
  {
    if k > 0 {
      TakenWhileWaiting(steps, states, k - 1);
      assert MayStep(states[k - 1], steps[k - 1], states[k]);
      StepWhileWaiting(states[k - 1], steps[k - 1]);
      hide Table, Counts, StepTakesWaiting, Next;
      assert StepTakesWaiting(states[k - 1], steps[k - 1]) || Counts(states[k]);
    }
  }

  /** That is, when each was still waiting in the table, or nothing was counted. */
  lemma CountsWhileWaiting(steps: seq<Step>, states: seq<State>, n: nat)
    requires IsAnyRun(steps, states) && NeverReused(steps, states) && n <= |steps|
    ensures (forall k | 0 <= k <= n :: Counts(states[k])) <==>
            (forall k | 0 <= k < n :: StepTakesWaiting(states[k], steps[k]))
  {
    if forall k | 0 <= k < n :: StepTakesWaiting(states[k], steps[k]) {
      forall k | 0 <= k <= n ensures Counts(states[k]) {
        TakenWhileWaiting(steps, states, k);
      }
    }
    if forall k | 0 <= k <= n :: Counts(states[k]) {
      forall k | 0 <= k < n ensures StepTakesWaiting(states[k], steps[k]) {
        TakenWhileWaiting(steps, states, k);
        assert MayStep(states[k], steps[k], states[k + 1]) && Counts(states[k + 1]);
        StepWhileWaiting(states[k], steps[k]);
      }
    }
  }

  /** A server that answers an id it was not sent breaks it: the caller takes its request back after
      it left the table, and the counter misses another caller's request. */
  lemma AnsweringUnsentMiscounts()
    ensures var a := Register(INITIAL, 5, 1);
            var b := Register(a, 6, 2);
            var c := Receive(b, 2, 6, []);
            var d := Withdraw(c, 1);
            && Enabled(INITIAL, Registers(5, 1)) && Enabled(a, Registers(6, 2))
            && Enabled(b, Receives(2, 6, [])) && 2 !in b.unanswered && Enabled(c, Withdraws(1))
            && Counts(c) && NotReused(c, 1) && !TakesCounted(c, 1)
            && !d.failed && |d.pending| == 1 && d.heartbeatId == 0 && d.applicationPending == 0
  {
    var a := Register(INITIAL, 5, 1);
    var b := Register(a, 6, 2);
    StepCounts(INITIAL, Registers(5, 1));
    StepCounts(a, Registers(6, 2));
    StepCounts(b, Receives(2, 6, []));
    assert b.pending == map[1 := 0, 2 := 1];
    var d := Withdraw(Receive(b, 2, 6, []), 1);
    assert d.pending == map[1 := 0];
  }

  // ---------------------------------------------------------------------------
  // The connection in place
  // ---------------------------------------------------------------------------

  class Connection {
    var pending: map<Id, nat>
    var waiters: seq<Waiter>
    var nextId: Id
    var failed: bool
    var applicationPending: nat
    var heartbeatId: Id
    ghost var unanswered: set<Id>

    constructor ()
      ensures Abs() == INITIAL && Valid()
    {
      pending, waiters, nextId, failed, applicationPending, heartbeatId := map[], [], 1, false, 0, 0;
      unanswered := {};
      new;
      assert Abs() == INITIAL;
    }

    ghost function Abs(): State
      reads this
    {
      State(pending, waiters, nextId, failed, applicationPending, heartbeatId, unanswered)
    }

    ghost predicate Valid()
      reads this
    {
      Table(Abs()) && Counts(Abs()) && nextId < ID_LIMIT
    }

    /** The search for an id that is not zero and not in use: the first free counter value. */
    method AllocateId() returns (id: Id, ghost steps: nat)
      requires nextId < ID_LIMIT && |pending| + 2 <= ID_LIMIT
      modifies this`nextId
      ensures 0 < id < ID_LIMIT && id !in pending && nextId == (id + 1) % ID_LIMIT
      ensures id == (old(nextId) + steps) % ID_LIMIT && steps <= |pending| + 1
      ensures forall k: nat | k < steps :: Advance(old(nextId), k) == 0 || Advance(old(nextId), k) in pending
      ensures FirstFree(pending, old(nextId), id)
    {
      ghost var start := nextId;
      steps := 0;
      id := nextId;
      nextId := Successor(nextId);
      while id == 0 || id in pending
        invariant id < ID_LIMIT && nextId == Successor(id) && steps <= |pending| + 1
        invariant Skipped(pending, start, steps, id)
        decreases |pending| + 2 - steps
      {
        SearchIsShort(pending, start, steps + 1);
        NextResidue(start, steps);
        steps := steps + 1;
        id := nextId;
        nextId := Successor(nextId);
      }
      assert forall k: nat | k < steps :: !Free(pending, Advance(start, k));
    }

    /** The first critical section of a round trip. */
    method Register(opcode: Opcode) returns (w: Option<nat>)
      requires Valid() && opcode != PING
      modifies this
      ensures Valid()
      ensures w.None? <==> old(failed) || old(|pending|) >= MAX_PENDING
      ensures w.None? ==> Abs() == old(Abs())
      ensures w.Some? ==>
                && w.value == old(|waiters|) && |waiters| == w.value + 1 && waiters[..w.value] == old(waiters)
                && var id := waiters[w.value].id;
                   && FirstFree(old(pending), old(nextId), id) && nextId == (id + 1) % ID_LIMIT
                   && waiters[w.value] == Waiter(id, opcode, false, Waiting, 0)
                   && pending == old(pending)[id := w.value] && applicationPending == old(applicationPending) + 1
                   && heartbeatId == old(heartbeatId) && !failed
                   && Admits(old(Abs()), id) && Abs() == Next(old(Abs()), Registers(opcode, id))
    {
      if failed || |pending| >= MAX_PENDING { return None; }
      ghost var before := Abs();
      var id, _ := AllocateId();
      EnterTable(before, opcode, id, Next(before, Registers(opcode, id)));
      EnterCounts(before, opcode, id);
      pending := pending[id := |waiters|];
      waiters := waiters + [Waiter(id, opcode, false, Waiting, 0)];
      applicationPending := applicationPending + 1;
      assert Abs() == Next(before, Registers(opcode, id));
      w := Some(|waiters| - 1);
    }

    /** The watchdog's heartbeat, when requests are pending and none is outstanding. */
    method Heartbeat() returns (w: Option<nat>)
      requires Valid()
      modifies this
      ensures Valid()
      ensures w.None? <==> old(failed) || old(heartbeatId) != 0 || old(applicationPending) == 0
      ensures w.None? ==> Abs() == old(Abs())
      ensures w.Some? ==>
                && w.value == old(|waiters|) && |waiters| == w.value + 1 && waiters[..w.value] == old(waiters)
                && var id := waiters[w.value].id;
                   && FirstFree(old(pending), old(nextId), id) && nextId == (id + 1) % ID_LIMIT
                   && waiters[w.value] == Waiter(id, PING, false, Waiting, 0)
                   && pending == old(pending)[id := w.value] && applicationPending == old(applicationPending)
                   && heartbeatId == id && !failed
                   && Enabled(old(Abs()), Pings(id)) && Abs() == Next(old(Abs()), Pings(id))
    {
      if failed || heartbeatId != 0 || applicationPending == 0 { return None; }
      ghost var before := Abs();
      var id, _ := AllocateId();
      EnterTable(before, PING, id, Next(before, Pings(id)));
      EnterCounts(before, PING, id);
      pending := pending[id := |waiters|];
      waiters := waiters + [Waiter(id, PING, false, Waiting, 0)];
      heartbeatId := id;
      assert Abs() == Next(before, Pings(id));
      w := Some(|waiters| - 1);
    }

    /** The failure broadcast. */
    method FailAll()
      modifies this
      ensures Abs() == Fail(old(Abs()))
      ensures failed && nextId == old(nextId) && (old(failed) ==> Abs() == old(Abs()))
      ensures !old(failed) ==>
                && pending == map[] && applicationPending == heartbeatId == 0 && |waiters| == |old(waiters)|
                && forall v | 0 <= v < |waiters| ::
                     waiters[v] == if old(waiters)[v].phase.Waiting? then old(waiters)[v].(phase := Decided(Failure))
                                   else old(waiters)[v]
    {
      if failed { return; }
      failed := true;
      applicationPending, heartbeatId := 0, 0;
      ghost var was := waiters;
      var w := 0;
      while w < |waiters|
        invariant w <= |waiters| == |was|
        invariant forall v | 0 <= v < |was| ::
          waiters[v] == if v < w && was[v].phase.Waiting? then SetPhase(was[v], Decided(Failure)) else was[v]
        invariant Abs() == old(Abs()).(failed := true, applicationPending := 0, heartbeatId := 0, waiters := waiters)
      {
        if waiters[w].phase.Waiting? {
          waiters := waiters[w := SetPhase(waiters[w], Decided(Failure))];
        }
        w := w + 1;
      }
      pending := map[];
      assert waiters == Fail(old(Abs())).waiters;
    }

    /** The receiver's critical section for one message, whatever it is. */
    method Receive(id: Id, opcode: Opcode, payload: Bytes) returns (accepted: bool)
      requires Valid()
      modifies this
      ensures Valid() && Enabled(old(Abs()), Receives(id, opcode, payload))
      ensures Abs() == Next(old(Abs()), Receives(id, opcode, payload))
      ensures accepted <==> id != 0 && id in old(pending) && old(pending[id]) < |old(waiters)|
                            && old(waiters[pending[id]]).opcode == opcode
      ensures !accepted ==> failed
      ensures accepted ==> id in old(pending) && old(pending[id]) < |old(waiters)|
                           && waiters == old(waiters)[old(pending[id]) :=
                                old(waiters[pending[id]]).(phase := Decided(Reply(id, opcode, payload)))]
      ensures accepted ==>
                && pending == old(pending) - {id} && failed == old(failed)
                && heartbeatId == (if id == old(heartbeatId) then 0 else old(heartbeatId))
                && applicationPending == (if id == old(heartbeatId) || old(applicationPending) == 0
                                          then old(applicationPending) else old(applicationPending) - 1)
    {
      hide Table, Counts;
      ReceiveCounts(Abs(), id, opcode, payload);
      ReceiveTable(Abs(), id, opcode, payload);
      ghost var before := Abs();
      unanswered := unanswered - {id};
      if id == 0 || id !in pending || opcode != waiters[pending[id]].opcode {
        FailAll();
        return false;
      }
      var w := pending[id];
      if id == heartbeatId {
        heartbeatId := 0;
      } else if applicationPending != 0 {
        applicationPending := applicationPending - 1;
      }
      pending := pending - {id};
      waiters := waiters[w := SetPhase(waiters[w], Decided(Reply(id, opcode, payload)))];
      assert Abs() == Next(before, Receives(id, opcode, payload));
      accepted := true;
    }

    /** A caller that may not block takes its unsent request back. */
    method Withdraw(w: nat)
      requires Valid() && Enabled(Abs(), Withdraws(w))
      modifies this
      ensures Abs() == Next(old(Abs()), Withdraws(w))
      ensures pending == old(pending) - {old(waiters)[w].id}
      ensures applicationPending == if old(applicationPending) == 0 then 0 else old(applicationPending) - 1
      ensures waiters == if old(waiters)[w].phase.Waiting? then old(waiters)[w := old(waiters)[w].(phase := Withdrawn)]
                         else old(waiters)
      ensures heartbeatId == old(heartbeatId) && nextId == old(nextId) && failed == old(failed)
      ensures Valid() <==> if old(waiters[w]).id in old(pending) then old(pending[waiters[w].id]) == w
                           else old(applicationPending) == 0
    {
      WithdrawExactly(Abs(), w);
      pending := pending - {waiters[w].id};
      if applicationPending != 0 {
        applicationPending := applicationPending - 1;
      }
      if waiters[w].phase.Waiting? {
        waiters := waiters[w := SetPhase(waiters[w], Withdrawn)];
      }
    }
  }
}
