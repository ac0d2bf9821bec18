/** The device's submission and completion entry points, in place.

    Each method updates the provenance tables of `RemoteDevice` as the corresponding step of
    `Provenance` prescribes. An entry point is one atomic step.
  */
module QueueSubmission {
  import opened Limits
  import opened Options
  import opened Provenance
  import opened PlannedCalls
  import Recording
  import MM = MappedMemory
  import CM = CoherentMappings
  import Chains = PNextChain
  import Streams = ChainStreams
  import Codec = SubmitCodec
  import Wire

  datatype VkResult = Success | InitializationFailed | FeatureNotPresent | DeviceLost | DriverError

  /** The server's answer to a round trip. */
  datatype Reply = NoReply | Answer(success: bool)

  /** What a round trip reports. */
  function Outcome(reply: Reply): VkResult {
    match reply
    case NoReply => DeviceLost
    case Answer(success) => if success then Success else DriverError
  }

  datatype FenceStatus = Lost | Failed | NotReady | Signaled

  /** The first query that does not report a status decides a wait for any fence. */
  function FirstError(statuses: seq<FenceStatus>): VkResult {
    if statuses == [] then Success
    else
      match statuses[0]
      case Lost => DeviceLost
      case Failed => DriverError
      case NotReady => FirstError(statuses[1..])
      case Signaled => FirstError(statuses[1..])
  }

  predicate Errs(status: FenceStatus) {
    status.Lost? || status.Failed?
  }

  /** Query `i` is the first that reports an error. */
  predicate FirstErrs(statuses: seq<FenceStatus>, i: int) {
    0 <= i < |statuses| && Errs(statuses[i]) && forall j | 0 <= j < i :: !Errs(statuses[j])
  }

  lemma {:induction false} FirstErrorDecides(statuses: seq<FenceStatus>)
    ensures forall i | FirstErrs(statuses, i) ::
              FirstError(statuses) == if statuses[i].Lost? then DeviceLost else DriverError
    ensures (forall i | 0 <= i < |statuses| :: !Errs(statuses[i])) ==> FirstError(statuses) == Success
    ensures FirstError(statuses) in {Success, DeviceLost, DriverError}
    decreases |statuses|
  {
    if statuses != [] {
      FirstErrorDecides(statuses[1..]);
      forall i | FirstErrs(statuses, i)
        ensures FirstError(statuses) == if statuses[i].Lost? then DeviceLost else DriverError
      {
        assert i > 0 ==> FirstErrs(statuses[1..], i - 1);
      }
    }
  }

  datatype TimelineValues = TimelineValues(waits: seq<nat>, signals: seq<nat>)

  /** The timeline values of a chain: those of its last structure that has any. */
  function LastTimeline(chain: seq<Chains.Node>): Option<TimelineValues> {
    if chain == [] then None
    else if chain[|chain| - 1].TimelineSubmit? then
      Some(TimelineValues(chain[|chain| - 1].waits, chain[|chain| - 1].signals))
    else LastTimeline(chain[..|chain| - 1])
  }

  const SUBMIT_INFO: int := 4

  /** `VkSubmitInfo`: timeline values travel in its chain, when there are any. */
  datatype SubmitInfo = SubmitInfo(
    type_: int,
    chain: seq<Chains.Node>,
    waits: seq<SemaphoreId>,
    commandBuffers: seq<Recording.Tracked>,
    signals: seq<SemaphoreId>)
  {
    predicate Valid() {
      && type_ == SUBMIT_INFO && |waits| <= MAX_ARRAY_ELEMENTS && |commandBuffers| <= MAX_ARRAY_ELEMENTS
      && |signals| <= MAX_ARRAY_ELEMENTS
      && 0 !in waits && 0 !in signals
    }

    /** The encoder refuses other chains. */
    predicate Encodable() {
      Chains.EncodeChain(Chains.Submit, chain, 0).Some?
    }

    function Timeline(): Option<TimelineValues> {
      LastTimeline(chain)
    }

    function WaitOp(j: nat): SemaphoreOp
      requires j < |waits|
    {
      var timeline := Timeline();
      SemaphoreOp(waits[j],
                  if timeline.Some? && j < |timeline.value.waits| then Some(timeline.value.waits[j]) else None, 0)
    }

    function SignalOp(j: nat): SemaphoreOp
      requires j < |signals|
    {
      var timeline := Timeline();
      SemaphoreOp(signals[j],
                  if timeline.Some? && j < |timeline.value.signals| then Some(timeline.value.signals[j]) else None, 0)
    }

    function ToBatch(t: Recording.Tables): Batch {
      Batch(Recording.SubmittedWrites(t, commandBuffers),
            seq(|waits|, j requires 0 <= j < |waits| => WaitOp(j)),
            seq(|signals|, j requires 0 <= j < |signals| => SignalOp(j)))
    }
  }

  /** `extended` says whether anything hangs off the structure. */
  datatype SemaphoreInfo = SemaphoreInfo(type_: int, extended: bool, id: SemaphoreId, value: nat)
  {
    predicate Encodable() {
      type_ == Codec.SEMAPHORE_SUBMIT_INFO && !extended
    }
  }

  datatype CommandBufferInfo = CommandBufferInfo(type_: int, extended: bool, buffer: Recording.Tracked)
  {
    predicate Encodable() {
      type_ == Codec.COMMAND_BUFFER_SUBMIT_INFO && !extended
    }
  }

  /** `VkSubmitInfo2`: every semaphore operation carries a value. */
  datatype SubmitInfo2 = SubmitInfo2(
    type_: int,
    extended: bool,
    waits: seq<SemaphoreInfo>,
    commandBuffers: seq<CommandBufferInfo>,
    signals: seq<SemaphoreInfo>)
  {
    predicate Valid() {
      && (forall w | w in waits :: w.id != 0)
      && (forall s | s in signals :: s.id != 0)
    }

    /** The encoder refuses other types, anything that hangs off a structure, and longer arrays. */
    predicate Encodable() {
      && type_ == Codec.SUBMIT_INFO_2 && !extended
      && |waits| <= MAX_ARRAY_ELEMENTS && |commandBuffers| <= MAX_ARRAY_ELEMENTS
      && |signals| <= MAX_ARRAY_ELEMENTS
      && (forall w | w in waits :: w.Encodable()) && (forall c | c in commandBuffers :: c.Encodable())
      && (forall s | s in signals :: s.Encodable())
    }

    function Buffers(): (r: seq<Recording.Tracked>)
      ensures |r| == |commandBuffers|
    {
      seq(|commandBuffers|, j requires 0 <= j < |commandBuffers| => commandBuffers[j].buffer)
    }

    function WaitOp(j: nat): SemaphoreOp
      requires j < |waits|
    {
      SemaphoreOp(waits[j].id, Some(waits[j].value), waits[j].value)
    }

    function SignalOp(j: nat): SemaphoreOp
      requires j < |signals|
    {
      SemaphoreOp(signals[j].id, Some(signals[j].value), 0)
    }

    function ToBatch(t: Recording.Tables): Batch {
      Batch(Recording.SubmittedWrites(t, Buffers()),
            seq(|waits|, j requires 0 <= j < |waits| => WaitOp(j)),
            seq(|signals|, j requires 0 <= j < |signals| => SignalOp(j)))
    }
  }

  function Batches(t: Recording.Tables, submits: seq<SubmitInfo>): (r: seq<Batch>)
    ensures |r| == |submits|
  {
    seq(|submits|, i requires 0 <= i < |submits| => submits[i].ToBatch(t))
  }

  function Batches2(t: Recording.Tables, submits: seq<SubmitInfo2>): (r: seq<Batch>)
    ensures |r| == |submits|
  {
    seq(|submits|, i requires 0 <= i < |submits| => submits[i].ToBatch(t))
  }

  /** Node `n` is the last of the chain with timeline values. */
  predicate LastTimelineAt(chain: seq<Chains.Node>, n: int) {
    0 <= n < |chain| && chain[n].TimelineSubmit? && forall k | n < k < |chain| :: !chain[k].TimelineSubmit?
  }

  /** Operation `j` gets the `j`-th value of the list, if there is one. */
  predicate Values(ops: seq<SemaphoreOp>, values: seq<nat>) {
    forall j | 0 <= j < |ops| :: ops[j].value == if j < |values| then Some(values[j]) else None
  }

  /** The batch has the writes of the command buffers, and the semaphores with the timeline values of the
      chain's last node that has any. */
  ghost predicate Carries(t: Recording.Tables, s: SubmitInfo, b: Batch) {
    && (forall m :: m in b.writes
          <==> exists k :: 0 <= k < |s.commandBuffers| && Recording.Attributes(t, s.commandBuffers[k], m))
    && IdsOf(b.waits, s.waits) && IdsOf(b.signals, s.signals)
    && (forall j | 0 <= j < |b.waits| :: b.waits[j].note == 0)
    && (forall n | LastTimelineAt(s.chain, n) ::
          Values(b.waits, s.chain[n].waits) && Values(b.signals, s.chain[n].signals))
    && ((forall n | 0 <= n < |s.chain| :: !s.chain[n].TimelineSubmit?) ==> Values(b.waits, []) && Values(b.signals, []))
  }

  /** The batch has the writes of the command buffers, and every operation its own value. */
  ghost predicate Carries2(t: Recording.Tables, s: SubmitInfo2, b: Batch) {
    && (forall m :: m in b.writes
          <==> exists k :: 0 <= k < |s.commandBuffers| && Recording.Attributes(t, s.commandBuffers[k].buffer, m))
    && |b.waits| == |s.waits| && |b.signals| == |s.signals|
    && (forall j | 0 <= j < |s.waits| ::
          b.waits[j].id == s.waits[j].id && b.waits[j].value == Some(s.waits[j].value) && b.waits[j].note == s.waits[j].value)
    && forall j | 0 <= j < |s.signals| :: b.signals[j].id == s.signals[j].id && b.signals[j].value == Some(s.signals[j].value)
  }

  lemma {:induction false} LastTimelineIs(chain: seq<Chains.Node>)
    ensures forall n | LastTimelineAt(chain, n) ::
              LastTimeline(chain) == Some(TimelineValues(chain[n].waits, chain[n].signals))
    ensures (forall n | 0 <= n < |chain| :: !chain[n].TimelineSubmit?) ==> LastTimeline(chain) == None
    decreases |chain|
  {
    if chain != [] {
      var last := |chain| - 1;
      var front := chain[..last];
      LastTimelineIs(front);
      forall n | LastTimelineAt(chain, n)
        ensures LastTimeline(chain) == Some(TimelineValues(chain[n].waits, chain[n].signals))
      {
        assert n < last ==> LastTimelineAt(front, n) && !chain[last].TimelineSubmit?;
      }
    }
  }

  lemma BatchCarries(t: Recording.Tables, s: SubmitInfo)
    ensures Carries(t, s, s.ToBatch(t))
  {
    LastTimelineIs(s.chain);
    hide LastTimeline;
    forall m
      ensures m in s.ToBatch(t).writes
              <==> exists k :: 0 <= k < |s.commandBuffers| && Recording.Attributes(t, s.commandBuffers[k], m)
    {
      Recording.SubmittedExactly(t, s.commandBuffers, m);
    }
  }

  lemma BatchCarries2(t: Recording.Tables, s: SubmitInfo2)
    ensures Carries2(t, s, s.ToBatch(t))
  {
    forall m
      ensures m in s.ToBatch(t).writes
              <==> exists k :: 0 <= k < |s.commandBuffers| && Recording.Attributes(t, s.commandBuffers[k].buffer, m)
    {
      Recording.SubmittedExactly(t, s.Buffers(), m);
      hide Recording.Attributes;
      if k :| 0 <= k < |s.commandBuffers| && Recording.Attributes(t, s.commandBuffers[k].buffer, m) {
        assert Recording.Attributes(t, s.Buffers()[k], m);
      }
      if k :| 0 <= k < |s.Buffers()| && Recording.Attributes(t, s.Buffers()[k], m) {
        assert Recording.Attributes(t, s.commandBuffers[k].buffer, m);
      }
    }
  }

  lemma PlanAllNext(semaphores: map<SemaphoreId, Semaphore>, queue: QueueId, first: nat, next: set<MemoryId>,
                    batches: seq<Batch>, i: nat)
    requires i < |batches|
    ensures PlanAll(semaphores, queue, first, next, batches[..i + 1])
            == PlanBatch(semaphores, queue, first + i, PlanAll(semaphores, queue, first, next, batches[..i]), batches[i])
  {
    assert batches[..i + 1][..i] == batches[..i];
  }

  lemma PlanWaitsNext(semaphores: map<SemaphoreId, Semaphore>, queue: QueueId, serial: nat,
                      downstream: seq<SemaphoreId>, plan: Plan, ops: seq<SemaphoreOp>, j: nat)
    requires j < |ops|
    ensures PlanWaits(semaphores, queue, serial, downstream, plan, ops[..j + 1])
            == PlanWait(semaphores, queue, serial, downstream,
                        PlanWaits(semaphores, queue, serial, downstream, plan, ops[..j]), ops[j])
  {
    assert ops[..j + 1][..j] == ops[..j];
  }

  lemma PlanSignalsNext(semaphores: map<SemaphoreId, Semaphore>, serial: nat, plan: Plan,
                        ops: seq<SemaphoreOp>, j: nat)
    requires j < |ops|
    ensures PlanSignals(semaphores, serial, plan, ops[..j + 1])
            == PlanSignal(semaphores, serial, PlanSignals(semaphores, serial, plan, ops[..j]), ops[j])
  {
    assert ops[..j + 1][..j] == ops[..j];
  }

  /** The chain is empty, or has one node, with timeline values that fit. */
  predicate TimelineAlone(chain: seq<Chains.Node>) {
    chain == [] || (|chain| == 1 && chain[0].TimelineSubmit?
                    && |chain[0].waits| <= MAX_ARRAY_ELEMENTS && |chain[0].signals| <= MAX_ARRAY_ELEMENTS)
  }

  /** Exactly these chains are encoded. */
  lemma EncodableExactly(s: SubmitInfo)
    requires forall n | n in s.chain :: Chains.Shaped(n)
    ensures s.Encodable() <==> TimelineAlone(s.chain)
  {
    EncodedIs(s.chain);
    hide Chains.EncodeChain, Chains.Acceptable;
    if s.Encodable() && s.chain != [] {
      OneNode(s.chain);
    } else if |s.chain| <= 1 {
      FewNodes(s.chain);
    }
  }

  lemma EncodedIs(chain: seq<Chains.Node>)
    ensures Chains.EncodeChain(Chains.Submit, chain, 0).Some?
            <==> Chains.Acceptable(Chains.Submit, chain) && Chains.AllWritable(chain, 0)
  {
    Chains.NothingSkipped(Chains.Submit, chain);
    Chains.CollectExactly(Chains.Submit, chain);
    hide Chains.EncodeNodes, Chains.Collect, Chains.Kept, Chains.Writable, Chains.Allowed;
  }

  lemma OneNode(chain: seq<Chains.Node>)
    requires chain != [] && Chains.Acceptable(Chains.Submit, chain) && Chains.AllWritable(chain, 0)
    requires Chains.Shaped(chain[0])
    ensures |chain| == 1 && chain[0].TimelineSubmit?
    ensures |chain[0].waits| <= MAX_ARRAY_ELEMENTS && |chain[0].signals| <= MAX_ARRAY_ELEMENTS
  {
    assert Chains.Allowed(Chains.Submit, Chains.TypeOf(chain[0])) && Chains.Writable(chain[0], 0);
    Codec.TimelineOnly(chain[0]);
    assert |chain| > 1 ==> Chains.Allowed(Chains.Submit, Chains.TypeOf(chain[1]));
  }

  lemma FewNodes(chain: seq<Chains.Node>)
    requires |chain| <= 1
    ensures Chains.Acceptable(Chains.Submit, chain) <==> chain == [] || Chains.Allowed(Chains.Submit, Chains.TypeOf(chain[0]))
    ensures Chains.AllWritable(chain, 0) <==> chain == [] || Chains.Writable(chain[0], 0)
  {
  }

  /** The tables a call leaves are those of batches that carry what the list says. */
  ghost predicate LeavesCall(t: Recording.Tables, st: State, queue: QueueId, submits: seq<SubmitInfo>, fence: FenceId,
                             accepted: bool, st': State)
  {
    exists batches: seq<Batch> ::
      && |batches| == |submits| && (forall i | 0 <= i < |submits| :: Carries(t, submits[i], batches[i]))
      && SubmitsCall(st, queue, batches, if fence != 0 then Some(fence) else None, accepted, st')
  }

  ghost predicate LeavesCall2(t: Recording.Tables, st: State, queue: QueueId, submits: seq<SubmitInfo2>, fence: FenceId,
                              accepted: bool, st': State)
  {
    exists batches: seq<Batch> ::
      && |batches| == |submits| && (forall i | 0 <= i < |submits| :: Carries2(t, submits[i], batches[i]))
      && SubmitsCall(st, queue, batches, if fence != 0 then Some(fence) else None, accepted, st')
  }

  lemma CallLeaves(t: Recording.Tables, st: State, queue: QueueId, submits: seq<SubmitInfo>, fence: FenceId, accepted: bool)
    ensures LeavesCall(t, st, queue, submits, fence, accepted,
                       Submit(st, queue, Batches(t, submits), if fence != 0 then Some(fence) else None, accepted))
  {
    hide Carries, SubmitsCall, Submit;
    SubmitExactly(st, queue, Batches(t, submits), if fence != 0 then Some(fence) else None, accepted);
    forall i | 0 <= i < |submits| ensures Carries(t, submits[i], Batches(t, submits)[i]) {
      BatchCarries(t, submits[i]);
    }
  }

  lemma CallLeaves2(t: Recording.Tables, st: State, queue: QueueId, submits: seq<SubmitInfo2>, fence: FenceId,
                    accepted: bool)
    ensures LeavesCall2(t, st, queue, submits, fence, accepted,
                        Submit(st, queue, Batches2(t, submits), if fence != 0 then Some(fence) else None, accepted))
  {
    hide Carries2, SubmitsCall, Submit;
    SubmitExactly(st, queue, Batches2(t, submits), if fence != 0 then Some(fence) else None, accepted);
    forall i | 0 <= i < |submits| ensures Carries2(t, submits[i], Batches2(t, submits)[i]) {
      BatchCarries2(t, submits[i]);
    }
  }

  lemma {:induction false} FirstAtLeastHolds(signals: seq<TimelineSignal>, value: nat, k: nat)
    requires k < |signals| && signals[k].value >= value
    requires FirstAtLeast(signals[..k], value).None?
    ensures FirstAtLeast(signals, value) == Some(signals[k].memoryIds)
    decreases |signals|
  {
    var n := |signals| - 1;
    if k < n {
      assert signals[..n][..k] == signals[..k];
      FirstAtLeastHolds(signals[..n], value, k);
    }
  }

  /** The search over the recorded signals of a timeline semaphore. */
  method SearchSignals(signals: seq<TimelineSignal>, value: nat) returns (found: Option<set<MemoryId>>)
    ensures found == FirstAtLeast(signals, value)
  {
    for i := 0 to |signals|
      invariant FirstAtLeast(signals[..i], value) == None
    {
      assert signals[..i + 1][..i] == signals[..i];
      if signals[i].value >= value {
        FirstAtLeastHolds(signals, value, i);
        return Some(signals[i].memoryIds);
      }
    }
    assert signals[..|signals|] == signals;
    found := None;
  }

  class RemoteDevice {
    var nextSerial: nat
    var queueWrites: map<QueueId, set<MemoryId>>
    var fences: map<FenceId, FenceRecord>
    var semaphores: map<SemaphoreId, Semaphore>
    var tables: Recording.Tables
    const mappings: CM.Mappings

    constructor (tables: Recording.Tables, mappings: CM.Mappings)
      ensures Abs() == State(1, map[], map[], map[]) && this.tables == tables && this.mappings == mappings
    {
      this.mappings := mappings;
      nextSerial := 1;
      queueWrites, fences, semaphores := map[], map[], map[];
      this.tables := tables;
    }

    /** The provenance tables as one value. */
    ghost function Abs(): State
      reads this
    {
      State(nextSerial, queueWrites, fences, semaphores)
    }

    // -------------------------------------------------------------------------
    // Planning, version 1
    // -------------------------------------------------------------------------

    static method FindTimeline(chain: seq<Chains.Node>) returns (timeline: Option<TimelineValues>)
      ensures timeline == LastTimeline(chain)
    {
      timeline := None;
      for i := 0 to |chain|
        invariant timeline == LastTimeline(chain[..i])
      {
        assert chain[..i + 1][..i] == chain[..i];
        if chain[i].TimelineSubmit? {
          timeline := Some(TimelineValues(chain[i].waits, chain[i].signals));
        }
      }
      assert chain[..|chain|] == chain;
    }

    method PlanSubmitWaits(queue: QueueId, serial: nat, s: SubmitInfo, timeline: Option<TimelineValues>,
                           ghost plan: Plan, submit0: set<MemoryId>, waits0: seq<PlannedWait>, consumed0: set<SemaphoreId>)
      returns (submit: set<MemoryId>, waits: seq<PlannedWait>, consumed: set<SemaphoreId>)
      requires timeline == s.Timeline()
      requires plan.submit == submit0 && plan.waits == waits0 && plan.consumed == consumed0
      ensures PlanWaits(semaphores, queue, serial, s.signals, plan, s.ToBatch(tables).waits)
              == plan.(submit := submit, waits := waits, consumed := consumed)
    {
      submit, waits, consumed := submit0, waits0, consumed0;
      ghost var ops := s.ToBatch(tables).waits;
      for j := 0 to |s.waits|
        invariant PlanWaits(semaphores, queue, serial, s.signals, plan, ops[..j])
                  == plan.(submit := submit, waits := waits, consumed := consumed)
      {
        PlanWaitsNext(semaphores, queue, serial, s.signals, plan, ops, j);
        var id := s.waits[j];
        if id in semaphores {
          var semaphore := semaphores[id];
          var resolved := false;
          var supplied := semaphore.timeline && timeline.Some? && j < |timeline.value.waits|;
          if supplied {
            var value := timeline.value.waits[j];
            submit := submit + semaphore.acquiredWrites;
            resolved := semaphore.acquiredValue >= value;
            if !resolved {
              var found := SearchSignals(semaphore.signals, value);
              if found.Some? {
                submit := submit + found.value;
                resolved := true;
              }
            }
          } else if !semaphore.timeline {
            submit := submit + semaphore.writes;
            resolved := semaphore.signaled;
            consumed := consumed + {id};
          }
          if !resolved {
            var value := if supplied then timeline.value.waits[j] else 0;
            waits := waits + [PlannedWait(id, PendingWait(value, queue, serial, s.signals))];
          }
        }
      }
      assert ops[..|s.waits|] == ops;
    }

    method PlanSubmitSignals(serial: nat, s: SubmitInfo, values: Option<TimelineValues>, ghost plan: Plan, next: set<MemoryId>,
                             signals0: seq<PlannedSignal>) returns (signals: seq<PlannedSignal>)
      requires values == s.Timeline()
      requires plan.next == next && plan.signals == signals0
      ensures PlanSignals(semaphores, serial, plan, s.ToBatch(tables).signals) == plan.(signals := signals)
    {
      signals := signals0;
      ghost var ops := s.ToBatch(tables).signals;
      for j := 0 to |s.signals|
        invariant PlanSignals(semaphores, serial, plan, ops[..j]) == plan.(signals := signals)
      {
        PlanSignalsNext(semaphores, serial, plan, ops, j);
        var id := s.signals[j];
        var timeline := id in semaphores && semaphores[id].timeline;
        var value := if timeline && values.Some? && j < |values.value.signals|
                     then values.value.signals[j] else 0;
        signals := signals + [PlannedSignal(id, timeline, value, serial, next)];
      }
      assert ops[..|s.signals|] == ops;
    }

    /** The plan is that of batches that carry what the list says: exactly the waits that stay pending and
        the signals, with their values and memories. */
    ghost predicate PlansSubmits(queue: QueueId, first: nat, submits: seq<SubmitInfo>, plan: Plan)
      reads this
    {
      exists batches: seq<Batch>, next ::
        && |batches| == |submits| && (forall i | 0 <= i < |submits| :: Carries(tables, submits[i], batches[i]))
        && (forall m :: m in next <==> InQueue(Abs(), queue, m))
        && PlansCall(semaphores, queue, first, next, batches, plan)
    }

    ghost predicate PlansSubmits2(queue: QueueId, first: nat, submits: seq<SubmitInfo2>, plan: Plan)
      reads this
    {
      exists batches: seq<Batch>, next ::
        && |batches| == |submits| && (forall i | 0 <= i < |submits| :: Carries2(tables, submits[i], batches[i]))
        && (forall m :: m in next <==> InQueue(Abs(), queue, m))
        && PlansCall(semaphores, queue, first, next, batches, plan)
    }

    lemma PlanCarries(queue: QueueId, first: nat, submits: seq<SubmitInfo>)
      ensures PlansSubmits(queue, first, submits,
                           PlanAll(semaphores, queue, first, QueueWrites(queueWrites, queue), Batches(tables, submits)))
    {
      hide Carries, PlansCall;
      var next := QueueWrites(queueWrites, queue);
      PlannedExactly(semaphores, queue, first, next, Batches(tables, submits));
      forall i | 0 <= i < |submits| ensures Carries(tables, submits[i], Batches(tables, submits)[i]) {
        BatchCarries(tables, submits[i]);
      }
      assert forall m :: m in next <==> InQueue(Abs(), queue, m);
    }

    lemma PlanCarries2(queue: QueueId, first: nat, submits: seq<SubmitInfo2>)
      ensures PlansSubmits2(queue, first, submits,
                            PlanAll(semaphores, queue, first, QueueWrites(queueWrites, queue), Batches2(tables, submits)))
    {
      hide Carries2, PlansCall;
      var next := QueueWrites(queueWrites, queue);
      PlannedExactly(semaphores, queue, first, next, Batches2(tables, submits));
      forall i | 0 <= i < |submits| ensures Carries2(tables, submits[i], Batches2(tables, submits)[i]) {
        BatchCarries2(tables, submits[i]);
      }
      assert forall m :: m in next <==> InQueue(Abs(), queue, m);
    }

    method PlanSubmits(queue: QueueId, first: nat, submits: seq<SubmitInfo>) returns (plan: Plan)
      ensures plan == PlanAll(semaphores, queue, first, QueueWrites(queueWrites, queue), Batches(tables, submits))
      ensures PlansSubmits(queue, first, submits, plan)
    {
      hide PlansSubmits, PlanWaits, PlanSignals, LastTimeline, Chains.EncodeChain;
      PlanCarries(queue, first, submits);
      var submit: set<MemoryId>, next: set<MemoryId> := {}, QueueWrites(queueWrites, queue);
      var waits: seq<PlannedWait>, consumed: set<SemaphoreId>, signals: seq<PlannedSignal> := [], {}, [];
      ghost var next0, batches := next, Batches(tables, submits);
      for i := 0 to |submits|
        invariant Plan(submit, next, waits, consumed, signals)
                  == PlanAll(semaphores, queue, first, next0, batches[..i])
      {
        PlanAllNext(semaphores, queue, first, next0, batches, i);
        var s := submits[i];
        assert Ids(s.ToBatch(tables).signals) == s.signals;
        var timeline := FindTimeline(s.chain);
        submit := Recording.CollectWrites(tables, s.commandBuffers);
        ghost var before := Plan(submit, next, waits, consumed, signals);
        submit, waits, consumed := PlanSubmitWaits(queue, first + i, s, timeline, before, submit, waits, consumed);
        next := next + submit;
        signals := PlanSubmitSignals(first + i, s, timeline, Plan(submit, next, waits, consumed, signals), next, signals);
      }
      assert batches[..|submits|] == batches;
      plan := Plan(submit, next, waits, consumed, signals);
    }

    // -------------------------------------------------------------------------
    // Planning, version 2
    // -------------------------------------------------------------------------

    method PlanSubmit2Waits(queue: QueueId, serial: nat, s: SubmitInfo2, downstream: seq<SemaphoreId>,
                            ghost plan: Plan, submit0: set<MemoryId>, waits0: seq<PlannedWait>,
                            consumed0: set<SemaphoreId>)
      returns (submit: set<MemoryId>, waits: seq<PlannedWait>, consumed: set<SemaphoreId>)
      requires plan.submit == submit0 && plan.waits == waits0 && plan.consumed == consumed0
      ensures PlanWaits(semaphores, queue, serial, downstream, plan, s.ToBatch(tables).waits)
              == plan.(submit := submit, waits := waits, consumed := consumed)
    {
      submit, waits, consumed := submit0, waits0, consumed0;
      ghost var ops := s.ToBatch(tables).waits;
      for j := 0 to |s.waits|
        invariant PlanWaits(semaphores, queue, serial, downstream, plan, ops[..j])
                  == plan.(submit := submit, waits := waits, consumed := consumed)
      {
        PlanWaitsNext(semaphores, queue, serial, downstream, plan, ops, j);
        var id, value := s.waits[j].id, s.waits[j].value;
        if id in semaphores {
          var semaphore := semaphores[id];
          var resolved := false;
          if semaphore.timeline {
            submit := submit + semaphore.acquiredWrites;
            resolved := semaphore.acquiredValue >= value;
            if !resolved {
              var found := SearchSignals(semaphore.signals, value);
              if found.Some? {
                submit := submit + found.value;
                resolved := true;
              }
            }
          } else {
            submit := submit + semaphore.writes;
            resolved := semaphore.signaled;
            consumed := consumed + {id};
          }
          if !resolved {
            waits := waits + [PlannedWait(id, PendingWait(value, queue, serial, downstream))];
          }
        }
      }
      assert ops[..|s.waits|] == ops;
    }

    method PlanSubmit2Signals(serial: nat, s: SubmitInfo2, ghost plan: Plan, next: set<MemoryId>,
                              signals0: seq<PlannedSignal>) returns (signals: seq<PlannedSignal>)
      requires plan.next == next && plan.signals == signals0
      ensures PlanSignals(semaphores, serial, plan, s.ToBatch(tables).signals) == plan.(signals := signals)
    {
      signals := signals0;
      ghost var ops := s.ToBatch(tables).signals;
      for j := 0 to |s.signals|
        invariant PlanSignals(semaphores, serial, plan, ops[..j]) == plan.(signals := signals)
      {
        PlanSignalsNext(semaphores, serial, plan, ops, j);
        var id := s.signals[j].id;
        var timeline := id in semaphores && semaphores[id].timeline;
        signals := signals + [PlannedSignal(id, timeline, if timeline then s.signals[j].value else 0, serial, next)];
      }
      assert ops[..|s.signals|] == ops;
    }

    method PlanSubmits2(queue: QueueId, first: nat, submits: seq<SubmitInfo2>) returns (plan: Plan)
      ensures plan == PlanAll(semaphores, queue, first, QueueWrites(queueWrites, queue), Batches2(tables, submits))
      ensures PlansSubmits2(queue, first, submits, plan)
    {
      hide PlansSubmits2, PlanWaits, PlanSignals;
      PlanCarries2(queue, first, submits);
      var submit: set<MemoryId>, next: set<MemoryId> := {}, QueueWrites(queueWrites, queue);
      var waits: seq<PlannedWait>, consumed: set<SemaphoreId>, signals: seq<PlannedSignal> := [], {}, [];
      ghost var next0, batches := next, Batches2(tables, submits);
      for i := 0 to |submits|
        invariant Plan(submit, next, waits, consumed, signals)
                  == PlanAll(semaphores, queue, first, next0, batches[..i])
      {
        PlanAllNext(semaphores, queue, first, next0, batches, i);
        var s := submits[i];
        var downstream := seq(|s.signals|, k requires 0 <= k < |s.signals| => s.signals[k].id);
        assert Ids(s.ToBatch(tables).signals) == downstream;
        submit := Recording.CollectWrites(tables, s.Buffers());
        ghost var before := Plan(submit, next, waits, consumed, signals);
        submit, waits, consumed := PlanSubmit2Waits(queue, first + i, s, downstream, before, submit, waits, consumed);
        next := next + submit;
        signals := PlanSubmit2Signals(first + i, s, Plan(submit, next, waits, consumed, signals), next, signals);
      }
      assert batches[..|submits|] == batches;
      plan := Plan(submit, next, waits, consumed, signals);
    }

    // -------------------------------------------------------------------------
    // Commit
    // -------------------------------------------------------------------------

    /** The ids join every record of one semaphore that the queue made at or after `after`. */
    static method AbsorbRecords(signals: seq<TimelineSignal>, queue: QueueId, after: nat, ids: set<MemoryId>)
      returns (r: seq<TimelineSignal>)
      ensures r == AbsorbSignals(signals, queue, after, ids)
    {
      r := signals;
      for i := 0 to |signals|
        invariant |r| == |signals|
        invariant forall j | 0 <= j < |signals| ::
                    r[j] == if j < i then AbsorbSignal(signals[j], queue, after, ids) else signals[j]
      {
        if signals[i].queue == queue && signals[i].serial >= after {
          r := r[i := signals[i].(memoryIds := signals[i].memoryIds + ids)];
        }
      }
    }

    method PropagateToFences(queue: QueueId, after: nat, ids: set<MemoryId>)
      modifies this`fences
      ensures Abs() == old(Abs()).(fences := Propagate(old(Abs()), queue, after, ids).fences)
    {
      ghost var before := fences;
      var keys := fences.Keys;
      while keys != {}
        invariant keys <= before.Keys && fences.Keys == before.Keys
        invariant forall f | f in before ::
                    fences[f] == if f in keys then before[f] else AbsorbFence(before[f], queue, after, ids)
      {
        var f :| f in keys;
        var record := fences[f];
        if record.queue == queue && record.serial >= after {
          fences := fences[f := record.(memoryIds := record.memoryIds + ids)];
        }
        keys := keys - {f};
      }
      assert fences == Propagate(old(Abs()), queue, after, ids).fences;
    }

    method PropagateToSemaphores(queue: QueueId, after: nat, ids: set<MemoryId>)
      modifies this`semaphores
      ensures Abs() == old(Abs()).(semaphores := Propagate(old(Abs()), queue, after, ids).semaphores)
    {
      ghost var before := semaphores;
      var keys := semaphores.Keys;
      while keys != {}
        invariant keys <= before.Keys && semaphores.Keys == before.Keys
        invariant forall s | s in before ::
                    semaphores[s] == if s in keys then before[s] else Absorb(before[s], queue, after, ids)
      {
        var id :| id in keys;
        var s := semaphores[id];
        if s.signaled && s.queue == queue && s.serial >= after {
          s := s.(writes := s.writes + ids);
        }
        var records := AbsorbRecords(s.signals, queue, after, ids);
        semaphores := semaphores[id := s.(signals := records)];
        keys := keys - {id};
      }
      assert semaphores == Propagate(old(Abs()), queue, after, ids).semaphores;
    }

    /** The queue's set and every record of the queue at or after the serial grow by `ids`; nothing else
        changes. */
    ghost predicate Propagates(st: State, queue: QueueId, after: nat, ids: set<MemoryId>, st': State) {
      && st'.nextSerial == st.nextSerial
      && queue in st'.queueWrites
      && (forall q, m :: InQueue(st', q, m) <==> InQueue(st, q, m) || (q == queue && m in ids))
      && st'.fences.Keys == st.fences.Keys && st'.semaphores.Keys == st.semaphores.Keys
      && (forall f | f in st.fences :: var r := st.fences[f];
            st'.fences[f] == if r.queue == queue && r.serial >= after then r.(memoryIds := r.memoryIds + ids) else r)
      && forall id | id in st.semaphores :: var s, t := st.semaphores[id], st'.semaphores[id];
           && t.(writes := s.writes, signals := s.signals) == s
           && t.writes == (if s.signaled && s.queue == queue && s.serial >= after then s.writes + ids else s.writes)
           && |t.signals| == |s.signals|
           && forall i | 0 <= i < |s.signals| :: var r := s.signals[i];
                t.signals[i] == if r.queue == queue && r.serial >= after then r.(memoryIds := r.memoryIds + ids) else r
    }

    method PropagateQueueWrites(queue: QueueId, after: nat, ids: set<MemoryId>)
      modifies this`queueWrites, this`fences, this`semaphores
      ensures Abs() == Propagate(old(Abs()), queue, after, ids)
      ensures Propagates(old(Abs()), queue, after, ids, Abs())
    {
      queueWrites := queueWrites[queue := QueueWrites(queueWrites, queue) + ids];
      PropagateToFences(queue, after, ids);
      PropagateToSemaphores(queue, after, ids);
    }

    method PropagateToDownstream(wait: PendingWait, ids: set<MemoryId>)
      modifies this`semaphores
      ensures Abs() == PropagateAllDownstream(old(Abs()), wait, wait.downstream, ids)
    {
      for i := 0 to |wait.downstream|
        invariant Abs() == PropagateAllDownstream(old(Abs()), wait, wait.downstream[..i], ids)
      {
        assert wait.downstream[..i + 1][..i] == wait.downstream[..i];
        var s := SemaphoreAt(semaphores, wait.downstream[i]);
        if s.timeline {
          var records := AbsorbRecords(s.signals, wait.queue, wait.serial, ids);
          s := s.(signals := records);
        } else if s.signaled && s.queue == wait.queue && s.serial >= wait.serial {
          s := s.(writes := s.writes + ids);
        }
        semaphores := semaphores[wait.downstream[i] := s];
      }
      assert wait.downstream[..|wait.downstream|] == wait.downstream;
    }

    /** The pending waits a signal satisfies receive its writes. */
    method Wake(signal: PlannedSignal, waits: seq<PendingWait>)
      modifies this`queueWrites, this`fences, this`semaphores
      ensures Abs() == WakeAll(old(Abs()), signal, waits)
    {
      for i := 0 to |waits|
        invariant Abs() == WakeAll(old(Abs()), signal, waits[..i])
      {
        assert waits[..i + 1][..i] == waits[..i];
        if !(signal.timeline && signal.value < waits[i].value) {
          PropagateQueueWrites(waits[i].queue, waits[i].serial, signal.memoryIds);
          PropagateToDownstream(waits[i], signal.memoryIds);
        }
      }
      assert waits[..|waits|] == waits;
    }

    static method DropSatisfied(signal: PlannedSignal, waits: seq<PendingWait>) returns (r: seq<PendingWait>)
      ensures r == Unsatisfied(signal, waits)
    {
      r := [];
      for i := 0 to |waits|
        invariant r == Unsatisfied(signal, waits[..i])
      {
        assert waits[..i + 1][..i] == waits[..i];
        if signal.timeline && signal.value < waits[i].value {
          r := r + [waits[i]];
        }
      }
      assert waits[..|waits|] == waits;
    }

    method CommitOneSignal(queue: QueueId, signal: PlannedSignal)
      modifies this`queueWrites, this`fences, this`semaphores
      ensures Abs() == CommitSignal(old(Abs()), queue, signal)
      ensures SignalCommitted(old(Abs()), queue, signal, Abs())
    {
      hide SignalCommitted;
      CommittedExactly(Abs(), queue, signal);
      var s := SemaphoreAt(semaphores, signal.id);
      if signal.timeline {
        s := s.(signals := s.signals + [TimelineSignal(signal.value, queue, signal.serial, signal.memoryIds)]);
      } else {
        s := s.(signaled := true, queue := queue, serial := signal.serial, writes := signal.memoryIds);
      }
      semaphores := semaphores[signal.id := s];
      Wake(signal, s.pending);
      s := SemaphoreAt(semaphores, signal.id);
      var left := DropSatisfied(signal, s.pending);
      semaphores := semaphores[signal.id := s.(pending := left)];
    }

    method CommitAllSignals(queue: QueueId, signals: seq<PlannedSignal>)
      modifies this`queueWrites, this`fences, this`semaphores
      ensures Abs() == CommitSignals(old(Abs()), queue, signals)
    {
      for i := 0 to |signals|
        invariant Abs() == CommitSignals(old(Abs()), queue, signals[..i])
      {
        assert signals[..i + 1][..i] == signals[..i];
        CommitOneSignal(queue, signals[i]);
      }
      assert signals[..|signals|] == signals;
    }

    method CommitWaits(waits: seq<PlannedWait>)
      modifies this`semaphores
      ensures Abs() == old(Abs()).(semaphores := AddPending(old(semaphores), waits))
    {
      for i := 0 to |waits|
        invariant Abs() == old(Abs()).(semaphores := AddPending(old(semaphores), waits[..i]))
      {
        assert waits[..i + 1][..i] == waits[..i];
        var s := SemaphoreAt(semaphores, waits[i].id);
        semaphores := semaphores[waits[i].id := s.(pending := s.pending + [waits[i].wait])];
      }
      assert waits[..|waits|] == waits;
    }

    method CommitConsumed(consumed: set<SemaphoreId>)
      modifies this`semaphores
      ensures Abs() == old(Abs()).(semaphores := ConsumeAll(old(semaphores), consumed))
    {
      ghost var before := semaphores;
      var ids := consumed;
      while ids != {}
        invariant ids <= consumed
        invariant semaphores.Keys == before.Keys + (consumed - ids)
        invariant forall s | s in semaphores ::
                    semaphores[s] == if s in consumed - ids then Consume(SemaphoreAt(before, s)) else before[s]
      {
        var id :| id in ids;
        ghost var done := consumed - ids;
        assert consumed - (ids - {id}) == done + {id};
        semaphores := semaphores[id := Consume(SemaphoreAt(semaphores, id))];
        ids := ids - {id};
      }
      assert consumed - ids == consumed;
      assert semaphores == ConsumeAll(before, consumed);
    }

    /** What an accepted submission leaves behind. */
    method CommitPlan(queue: QueueId, plan: Plan, fence: FenceId, fenceSerial: nat)
      modifies this`queueWrites, this`fences, this`semaphores
      ensures Abs() == Commit(old(Abs()), queue, plan, if fence != 0 then Some(fence) else None, fenceSerial)
    {
      queueWrites := queueWrites[queue := plan.next];
      CommitWaits(plan.waits);
      CommitConsumed(plan.consumed);
      CommitAllSignals(queue, plan.signals);
      if fence != 0 {
        fences := fences[fence := FenceRecord(queue, fenceSerial, plan.next)];
      }
    }

    // -------------------------------------------------------------------------
    // Submission entry points
    // -------------------------------------------------------------------------

    method Reserve(queue: QueueId, count: nat) returns (first: nat)
      modifies this`nextSerial, this`queueWrites
      ensures first == old(nextSerial) && Abs() == Reserved(old(Abs()), queue, count)
    {
      first := nextSerial;
      nextSerial := nextSerial + if count == 0 then 1 else count;
      queueWrites := queueWrites[queue := QueueWrites(queueWrites, queue)];
    }

    /** The round trip, and the commit when the server accepts. `st` is the state the call
        found. */
    method Conclude(queue: QueueId, plan: Plan, fence: FenceId, first: nat, count: nat, reply: Reply,
                    ghost st: State, ghost batches: seq<Batch>) returns (result: VkResult)
      requires Abs() == Reserved(st, queue, count) && count == |batches| && first == st.nextSerial
      requires plan == PlanOf(st, queue, batches)
      modifies this`queueWrites, this`fences, this`semaphores
      ensures result == Outcome(reply)
      ensures Abs() == Submit(st, queue, batches, if fence != 0 then Some(fence) else None, result.Success?)
    {
      if reply.NoReply? {
        return DeviceLost;
      }
      if !reply.success {
        return DriverError;
      }
      CommitPlan(queue, plan, fence, if count == 0 then first else first + count - 1);
      result := Success;
    }

    method Transact(queue: QueueId, submits: seq<SubmitInfo>, fence: FenceId, reply: Reply)
      returns (result: VkResult)
      modifies this`nextSerial, this`queueWrites, this`fences, this`semaphores
      ensures result == Outcome(reply)
      ensures Abs() == Submit(old(Abs()), queue, Batches(tables, submits),
                              if fence != 0 then Some(fence) else None, result.Success?)
      ensures LeavesCall(tables, old(Abs()), queue, submits, fence, result.Success?, Abs())
    {
      hide LeavesCall, PlansSubmits, Submit;
      CallLeaves(tables, Abs(), queue, submits, fence, reply == Answer(true));
      var first := Reserve(queue, |submits|);
      var plan := PlanSubmits(queue, first, submits);
      result := Conclude(queue, plan, fence, first, |submits|, reply, old(Abs()), Batches(tables, submits));
    }

    method Transact2(queue: QueueId, submits: seq<SubmitInfo2>, fence: FenceId, reply: Reply)
      returns (result: VkResult)
      modifies this`nextSerial, this`queueWrites, this`fences, this`semaphores
      ensures result == Outcome(reply)
      ensures Abs() == Submit(old(Abs()), queue, Batches2(tables, submits),
                              if fence != 0 then Some(fence) else None, result.Success?)
      ensures LeavesCall2(tables, old(Abs()), queue, submits, fence, result.Success?, Abs())
    {
      hide LeavesCall2, PlansSubmits2, Submit;
      CallLeaves2(tables, Abs(), queue, submits, fence, reply == Answer(true));
      var first := Reserve(queue, |submits|);
      var plan := PlanSubmits2(queue, first, submits);
      result := Conclude(queue, plan, fence, first, |submits|, reply, old(Abs()), Batches2(tables, submits));
    }

    /** Every transfer of the mappings since round trip `from` succeeded. */
    ghost predicate TransfersDelivered(from: nat)
      reads mappings.server`trips
    {
      mappings.server.DeliveredSince(from)
    }

    /** The upload of the coherent mappings. */
    method Upload() returns (ok: bool)
      requires mappings.Valid()
      modifies mappings.server`memory, mappings.server`trips, mappings.Baselines()
      ensures mappings.Valid()
      ensures ok <==> TransfersDelivered(old(mappings.server.trips))
      ensures ok ==> forall i: nat | i < |mappings.mapped| ::
                MM.Published(old(mappings.ViewAt(i)), mappings.ViewAt(i))
    {
      ghost var stop, k;
      ok, stop, k := mappings.Publish();
    }

    static method ValidateSubmits(submits: seq<SubmitInfo>) returns (ok: bool)
      ensures ok <==> forall i | 0 <= i < |submits| :: submits[i].Valid()
    {
      for i := 0 to |submits|
        invariant forall j | 0 <= j < i :: submits[j].Valid()
      {
        if !submits[i].Valid() {
          return false;
        }
      }
      ok := true;
    }

    /** The chains are encoded before anything is uploaded. */
    static method EncodeChains(submits: seq<SubmitInfo>) returns (ok: bool)
      ensures ok <==> forall i | 0 <= i < |submits| :: submits[i].Encodable()
      ensures (forall i, n | 0 <= i < |submits| && n in submits[i].chain :: Chains.Shaped(n)) ==>
                (ok <==> forall i | 0 <= i < |submits| :: TimelineAlone(submits[i].chain))
    {
      hide Chains.EncodeChain, Chains.Shaped;
      if forall i, n | 0 <= i < |submits| && n in submits[i].chain :: Chains.Shaped(n) {
        forall i | 0 <= i < |submits| ensures submits[i].Encodable() <==> TimelineAlone(submits[i].chain) {
          EncodableExactly(submits[i]);
        }
      }
      var request := new Wire.Writer();
      for i := 0 to |submits|
        invariant fresh(request)
        invariant forall j | 0 <= j < i :: submits[j].Encodable()
      {
        ok := Streams.WriteChain(request, Chains.Submit, submits[i].chain, 0);
        if !ok { return; }
      }
      ok := true;
    }

    static method ValidateSubmits2(submits: seq<SubmitInfo2>) returns (ok: bool, encodable: bool)
      ensures ok <==> forall i | 0 <= i < |submits| :: submits[i].Valid()
      ensures encodable <==> forall i | 0 <= i < |submits| :: submits[i].Encodable()
    {
      ok, encodable := true, true;
      for i := 0 to |submits|
        invariant ok <==> forall j | 0 <= j < i :: submits[j].Valid()
        invariant encodable <==> forall j | 0 <= j < i :: submits[j].Encodable()
      {
        ok := ok && submits[i].Valid();
        encodable := encodable && submits[i].Encodable();
      }
    }

    /** The upload of the coherent mappings precedes planning; `reply` is the server's answer. */
    method QueueSubmit(queue: QueueId, submits: seq<SubmitInfo>, fence: FenceId, reply: Reply)
      returns (result: VkResult, published: bool)
      requires mappings.Valid()
      modifies this`nextSerial, this`queueWrites, this`fences, this`semaphores
      modifies mappings.server`memory, mappings.server`trips, mappings.Baselines()
      ensures mappings.Valid()
      ensures published ==> forall i: nat | i < |mappings.mapped| ::
                MM.Published(old(mappings.ViewAt(i)), mappings.ViewAt(i))
      ensures result == InitializationFailed <==>
              queue == 0 || |submits| > MAX_ARRAY_ELEMENTS || exists i | 0 <= i < |submits| ::
                || submits[i].type_ != 4 || |submits[i].waits| > MAX_ARRAY_ELEMENTS
                || |submits[i].commandBuffers| > MAX_ARRAY_ELEMENTS || |submits[i].signals| > MAX_ARRAY_ELEMENTS
                || 0 in submits[i].waits || 0 in submits[i].signals
      ensures result == FeatureNotPresent <==>
              !result.InitializationFailed? && exists i | 0 <= i < |submits| :: !submits[i].Encodable()
      ensures (forall i, n | 0 <= i < |submits| && n in submits[i].chain :: Chains.Shaped(n)) ==>
                (result == FeatureNotPresent <==>
                 !result.InitializationFailed? && exists i | 0 <= i < |submits| :: !TimelineAlone(submits[i].chain))
      ensures published <==> !result.InitializationFailed? && !result.FeatureNotPresent?
                             && TransfersDelivered(old(mappings.server.trips))
      ensures result == DeviceLost <==> !result.InitializationFailed? && !result.FeatureNotPresent?
                                        && (!published || reply == NoReply)
      ensures result == Success <==> published && reply == Answer(true)
      ensures Abs() == if !published then old(Abs())
                       else Submit(old(Abs()), queue, Batches(tables, submits),
                                   if fence != 0 then Some(fence) else None, result.Success?)
      ensures published ==> LeavesCall(tables, old(Abs()), queue, submits, fence, result.Success?, Abs())
    {
      hide LeavesCall, Submit, MM.Published, Batches, PlanOf, Reserved, Chains.EncodeChain;
      var ok := ValidateSubmits(submits);
      if queue == 0 || |submits| > MAX_ARRAY_ELEMENTS || !ok {
        return InitializationFailed, false;
      }
      var encodable := EncodeChains(submits);
      if !encodable {
        return FeatureNotPresent, false;
      }
      published := Upload();
      if !published {
        return DeviceLost, false;
      }
      label uploaded:
      result := Transact(queue, submits, fence, reply);
      assert forall i: nat | i < |mappings.mapped| :: mappings.ViewAt(i) == old@uploaded(mappings.ViewAt(i));
    }

    /** As `QueueSubmit`; wrong types, chains and arrays that are too long are refused by the encoder. */
    method QueueSubmit2(queue: QueueId, submits: seq<SubmitInfo2>, fence: FenceId, reply: Reply)
      returns (result: VkResult, published: bool)
      requires mappings.Valid()
      modifies this`nextSerial, this`queueWrites, this`fences, this`semaphores
      modifies mappings.server`memory, mappings.server`trips, mappings.Baselines()
      ensures mappings.Valid()
      ensures published ==> forall i: nat | i < |mappings.mapped| ::
                MM.Published(old(mappings.ViewAt(i)), mappings.ViewAt(i))
      ensures result == InitializationFailed <==>
              queue == 0 || |submits| > MAX_ARRAY_ELEMENTS || exists i | 0 <= i < |submits| ::
                || (exists w :: w in submits[i].waits && w.id == 0) || (exists s :: s in submits[i].signals && s.id == 0)
      ensures result == FeatureNotPresent <==>
              !result.InitializationFailed? && exists i | 0 <= i < |submits| ::
                || submits[i].type_ != 1000314004 || submits[i].extended || |submits[i].waits| > MAX_ARRAY_ELEMENTS
                || |submits[i].commandBuffers| > MAX_ARRAY_ELEMENTS || |submits[i].signals| > MAX_ARRAY_ELEMENTS
                || (exists w :: w in submits[i].waits && (w.type_ != 1000314005 || w.extended))
                || (exists c :: c in submits[i].commandBuffers && (c.type_ != 1000314006 || c.extended))
                || (exists s :: s in submits[i].signals && (s.type_ != 1000314005 || s.extended))
      ensures published <==> !result.InitializationFailed? && !result.FeatureNotPresent?
                             && TransfersDelivered(old(mappings.server.trips))
      ensures result == DeviceLost <==> !result.InitializationFailed? && !result.FeatureNotPresent?
                                        && (!published || reply == NoReply)
      ensures result == Success <==> published && reply == Answer(true)
      ensures Abs() == if !published then old(Abs())
                       else Submit(old(Abs()), queue, Batches2(tables, submits),
                                   if fence != 0 then Some(fence) else None, result.Success?)
      ensures published ==> LeavesCall2(tables, old(Abs()), queue, submits, fence, result.Success?, Abs())
    {
      hide LeavesCall2, Submit, MM.Published, Batches2, PlanOf, Reserved;
      var ok, encodable := ValidateSubmits2(submits);
      if queue == 0 || |submits| > MAX_ARRAY_ELEMENTS || !ok {
        return InitializationFailed, false;
      }
      if !encodable {
        return FeatureNotPresent, false;
      }
      published := Upload();
      if !published {
        return DeviceLost, false;
      }
      label uploaded:
      result := Transact2(queue, submits, fence, reply);
      assert forall i: nat | i < |mappings.mapped| :: mappings.ViewAt(i) == old@uploaded(mappings.ViewAt(i));
    }

    // -------------------------------------------------------------------------
    // Observed completions
    // -------------------------------------------------------------------------

    /** Refreshes the mappings of `ids`, or of every memory. */
    method Refresh(ids: Option<set<MemoryId>>) returns (ok: bool)
      requires mappings.Valid()
      modifies mappings.server`trips, mappings.Shadows(), mappings.Baselines()
      ensures mappings.Valid()
      ensures ok <==> TransfersDelivered(old(mappings.server.trips))
      ensures ok ==> forall i: nat | i < |mappings.mapped| ::
                MM.Acquired(old(mappings.ViewAt(i)), mappings.ViewAt(i), ids)
    {
      ghost var stop, n;
      ok, stop, n := mappings.Acquire(ids);
    }

    method QueueWaitIdle(queue: QueueId, reply: Reply) returns (result: VkResult)
      requires mappings.Valid()
      modifies this`queueWrites, mappings.server`trips, mappings.Shadows(), mappings.Baselines()
      ensures mappings.Valid()
      ensures result == Success <==> reply == Answer(true) && TransfersDelivered(old(mappings.server.trips))
      ensures result == DriverError <==> reply == Answer(false)
      ensures result == DeviceLost <==>
              reply == NoReply || (reply == Answer(true) && !TransfersDelivered(old(mappings.server.trips)))
      ensures result.Success? ==>
                && Abs() == QueueIdle(old(Abs()), queue)
                && (forall q, m :: InQueue(Abs(), q, m) <==> q != queue && InQueue(old(Abs()), q, m))
                && forall i: nat | i < |mappings.mapped| ::
                     MM.Acquired(old(mappings.ViewAt(i)), mappings.ViewAt(i),
                                 Some(if queue in old(queueWrites) then old(queueWrites)[queue] else {}))
      ensures !result.Success? ==> forall q :: QueueWrites(queueWrites, q) == QueueWrites(old(queueWrites), q)
    {
      if reply.NoReply? {
        return DeviceLost;
      }
      if !reply.success {
        return DriverError;
      }
      queueWrites := queueWrites[queue := QueueWrites(queueWrites, queue)];
      var ok := Refresh(Some(queueWrites[queue]));
      if !ok {
        return DeviceLost;
      }
      queueWrites := queueWrites[queue := {}];
      result := Success;
    }

    method DeviceWaitIdle(reply: Reply) returns (result: VkResult)
      requires mappings.Valid()
      modifies this`queueWrites, this`fences, mappings.server`trips, mappings.Shadows(), mappings.Baselines()
      ensures mappings.Valid()
      ensures result == Success <==> reply == Answer(true) && TransfersDelivered(old(mappings.server.trips))
      ensures result == DriverError <==> reply == Answer(false)
      ensures result == DeviceLost <==>
              reply == NoReply || (reply == Answer(true) && !TransfersDelivered(old(mappings.server.trips)))
      ensures result.Success? ==>
                && Abs() == DeviceIdle(old(Abs())) && queueWrites == map[] && fences == map[]
                && forall i: nat | i < |mappings.mapped| ::
                     MM.Acquired(old(mappings.ViewAt(i)), mappings.ViewAt(i), None)
      ensures !result.Success? ==> Abs() == old(Abs())
    {
      if reply.NoReply? {
        return DeviceLost;
      }
      if !reply.success {
        return DriverError;
      }
      var ok := Refresh(None);
      if !ok {
        return DeviceLost;
      }
      queueWrites, fences := map[], map[];
      result := Success;
    }

    method ResetFences(reset: seq<FenceId>, reply: Reply) returns (result: VkResult)
      modifies this`fences
      ensures result == InitializationFailed <==> |reset| == 0 || |reset| > MAX_ARRAY_ELEMENTS || 0 in reset
      ensures result == Success <==> !result.InitializationFailed? && reply == Answer(true)
      ensures result == DriverError <==> !result.InitializationFailed? && reply == Answer(false)
      ensures result.Success? ==>
                fences == map f | f in old(fences) && f !in reset :: old(fences)[f]
      ensures Abs() == if result.Success? then DropFences(old(Abs()), set f | f in reset) else old(Abs())
    {
      if |reset| == 0 || |reset| > MAX_ARRAY_ELEMENTS || 0 in reset {
        return InitializationFailed;
      }
      if reply.NoReply? {
        return DeviceLost;
      }
      if !reply.success {
        return DriverError;
      }
      for i := 0 to |reset|
        invariant fences == map f | f in old(fences) && f !in reset[..i] :: old(fences)[f]
      {
        fences := fences - {reset[i]};
      }
      assert reset[..|reset|] == reset;
      result := Success;
    }

    /** `statuses[i]` is the status of fence `i`, asked for when any fence may have ended the
        wait: `None` is a lost reply, `Some(NotReady)` and an error end or skip it. */
    method WaitForFences(waited: seq<FenceId>, waitAll: bool, reply: Reply, statuses: seq<FenceStatus>)
      returns (result: VkResult, ghost observed: set<FenceId>)
      requires mappings.Valid() && |statuses| == |waited|
      modifies this`fences, mappings.server`trips, mappings.Shadows(), mappings.Baselines()
      ensures mappings.Valid()
      ensures result == InitializationFailed <==> |waited| == 0 || |waited| > MAX_ARRAY_ELEMENTS || 0 in waited
      ensures !result.InitializationFailed? && reply == NoReply ==> result == DeviceLost
      ensures !result.InitializationFailed? && reply == Answer(false) ==> result == DriverError
      ensures !result.InitializationFailed? && reply == Answer(true) ==>
                && (forall i | !waitAll && FirstErrs(statuses, i) ::
                      result == if statuses[i].Lost? then DeviceLost else DriverError)
                && (waitAll || (forall i | 0 <= i < |statuses| :: statuses[i].NotReady? || statuses[i].Signaled?) ==>
                      result == if TransfersDelivered(old(mappings.server.trips)) then Success else DeviceLost)
      ensures observed == set i | 0 <= i < |waited| && (waitAll || statuses[i].Signaled?) :: waited[i]
      ensures result.Success? ==>
                && Abs() == DropFences(old(Abs()), observed)
                && fences == (map f | f in old(fences) && f !in observed :: old(fences)[f])
                && forall i: nat | i < |mappings.mapped| ::
                     MM.Acquired(old(mappings.ViewAt(i)), mappings.ViewAt(i),
                                 Some(set f, m | f in observed && f in old(fences) && m in old(fences)[f].memoryIds :: m))
      ensures !result.Success? ==> Abs() == old(Abs())
    {
      observed := set i | 0 <= i < |waited| && (waitAll || statuses[i].Signaled?) :: waited[i];
      if |waited| == 0 || |waited| > MAX_ARRAY_ELEMENTS || 0 in waited {
        return InitializationFailed, observed;
      }
      if reply.NoReply? {
        return DeviceLost, observed;
      }
      if !reply.success {
        return DriverError, observed;
      }
      FirstErrorDecides(statuses);
      var error, completed, ids := CollectFences(waited, waitAll, statuses);
      if !error.Success? {
        return error, observed;
      }
      var ok := Refresh(Some(ids));
      if !ok {
        return DeviceLost, observed;
      }
      EraseFences(completed);
      assert fences == old(fences) - observed == map f | f in old(fences) && f !in observed :: old(fences)[f];
      result := Success;
    }

    method EraseFences(ids: set<FenceId>)
      modifies this`fences
      ensures fences == old(fences) - ids
    {
      var left := ids;
      while left != {}
        invariant left <= ids && fences == old(fences) - (ids - left)
      {
        var f :| f in left;
        fences := fences - {f};
        left := left - {f};
      }
    }

    /** The fences a wait observed, and the memories recorded for them. */
    method CollectFences(waited: seq<FenceId>, waitAll: bool, statuses: seq<FenceStatus>)
      returns (error: VkResult, completed: set<FenceId>, ids: set<MemoryId>)
      requires |statuses| == |waited|
      ensures error == if waitAll then Success else FirstError(statuses)
      ensures error.Success? ==>
                var observed := set i | 0 <= i < |waited| && (waitAll || statuses[i].Signaled?) :: waited[i];
                completed == (set f | f in observed && f in fences) && ids == FenceWrites(Abs(), observed)
    {
      completed, ids := {}, {};
      ghost var observed: set<FenceId> := {};
      for i := 0 to |waited|
        invariant waitAll || FirstError(statuses) == FirstError(statuses[i..])
        invariant observed == set j | 0 <= j < i && (waitAll || statuses[j].Signaled?) :: waited[j]
        invariant completed == set f | f in observed && f in fences
        invariant ids == FenceWrites(Abs(), observed)
      {
        if !waitAll {
          assert statuses[i..][1..] == statuses[i + 1..];
          match statuses[i]
          case Lost => return DeviceLost, {}, {};
          case Failed => return DriverError, {}, {};
          case NotReady => continue;
          case Signaled =>
        }
        observed := observed + {waited[i]};
        if waited[i] in fences {
          ids := ids + fences[waited[i]].memoryIds;
          completed := completed + {waited[i]};
        }
      }
      error := Success;
    }

    /** The signals up to the value leave, and what they carry is acquired; exactly the others stay. */
    static ghost predicate AcquiresUpTo(before: Semaphore, value: nat, after: Semaphore) {
      && after == before.(acquiredValue := after.acquiredValue, acquiredWrites := after.acquiredWrites,
                          signals := after.signals)
      && before.acquiredValue <= after.acquiredValue && value <= after.acquiredValue
      && after.acquiredValue in {before.acquiredValue, value}
      && (forall m :: m in after.acquiredWrites
            <==> m in before.acquiredWrites || exists s :: s in before.signals && s.value <= value && m in s.memoryIds)
      && (forall s :: s in after.signals <==> s in before.signals && s.value > value)
    }

    static lemma AboveExactly(signals: seq<TimelineSignal>, value: nat, s: TimelineSignal)
      ensures s in Above(signals, value) <==> s in signals && s.value > value
      decreases |signals|
    {
      if signals != [] {
        var n := |signals| - 1;
        AboveExactly(signals[..n], value, s);
        assert signals == signals[..n] + [signals[n]];
      }
    }

    static lemma AcquiredIs(st: State, id: SemaphoreId, value: nat)
      requires id in st.semaphores
      ensures AcquiresUpTo(st.semaphores[id], value, TimelineAcquired(st, id, value).semaphores[id])
    {
      var s := st.semaphores[id];
      forall r ensures r in Above(s.signals, value) <==> r in s.signals && r.value > value {
        AboveExactly(s.signals, value, r);
      }
    }

    /** A counter value was observed: the signals up to it are refreshed and retired. */
    method AcquireTimeline(id: SemaphoreId, value: nat) returns (ok: bool)
      requires mappings.Valid()
      modifies this`semaphores, mappings.server`trips, mappings.Shadows(), mappings.Baselines()
      ensures mappings.Valid()
      ensures ok <==> TransfersDelivered(old(mappings.server.trips))
      ensures Abs() == if ok then TimelineAcquired(old(Abs()), id, value) else old(Abs())
      ensures ok && id in old(semaphores) ==>
                && semaphores.Keys == old(semaphores).Keys
                && (forall other | other in semaphores && other != id :: semaphores[other] == old(semaphores)[other])
                && AcquiresUpTo(old(semaphores[id]), value, semaphores[id])
                && forall i: nat | i < |mappings.mapped| ::
                     MM.Acquired(old(mappings.ViewAt(i)), mappings.ViewAt(i), Some(semaphores[id].acquiredWrites))
      ensures !(ok && id in old(semaphores)) ==> semaphores == old(semaphores)
    {
      hide AcquiresUpTo, MM.Acquired;
      if id !in semaphores {
        return true;
      }
      var s := semaphores[id];
      AcquiredIs(Abs(), id, value);
      var completed, left := SplitSignals(s, value);
      assert completed == TimelineWrites(Abs(), id, value);
      ok := Refresh(Some(completed));
      if !ok {
        return;
      }
      semaphores := semaphores[id := s.(
        acquiredValue := if s.acquiredValue > value then s.acquiredValue else value,
        acquiredWrites := s.acquiredWrites + completed,
        signals := left)];
    }

    static method SplitSignals(s: Semaphore, value: nat) returns (completed: set<MemoryId>, left: seq<TimelineSignal>)
      ensures completed == s.acquiredWrites + CompletedWrites(s.signals, value)
      ensures left == Above(s.signals, value)
    {
      completed, left := s.acquiredWrites, [];
      for i := 0 to |s.signals|
        invariant completed == s.acquiredWrites + CompletedWrites(s.signals[..i], value)
        invariant left == Above(s.signals[..i], value)
      {
        assert s.signals[..i + 1][..i] == s.signals[..i];
        if s.signals[i].value <= value {
          completed := completed + s.signals[i].memoryIds;
        } else {
          left := left + [s.signals[i]];
        }
      }
      assert s.signals[..|s.signals|] == s.signals;
    }

    static lemma WaitsAboveExactly(waits: seq<PendingWait>, value: nat, w: PendingWait)
      ensures w in WaitsAbove(waits, value) <==> w in waits && w.value > value
      decreases |waits|
    {
      if waits != [] {
        var n := |waits| - 1;
        WaitsAboveExactly(waits[..n], value, w);
        assert waits == waits[..n] + [waits[n]];
      }
    }

    static method DropReached(waits: seq<PendingWait>, value: nat) returns (left: seq<PendingWait>)
      ensures left == WaitsAbove(waits, value)
      ensures forall w :: w in left <==> w in waits && w.value > value
    {
      left := [];
      for i := 0 to |waits|
        invariant left == WaitsAbove(waits[..i], value)
      {
        assert waits[..i + 1][..i] == waits[..i];
        if waits[i].value > value {
          left := left + [waits[i]];
        }
      }
      assert waits[..|waits|] == waits;
      forall w ensures w in left <==> w in waits && w.value > value { WaitsAboveExactly(waits, value, w); }
    }

    /** A signal from the host: an upload, the round trip, and the waits it satisfies dropped. */
    method SignalSemaphore(id: SemaphoreId, value: nat, reply: Reply) returns (result: VkResult, published: bool)
      requires mappings.Valid()
      modifies this`semaphores, mappings.server`memory, mappings.server`trips, mappings.Baselines()
      ensures mappings.Valid()
      ensures published ==> forall i: nat | i < |mappings.mapped| ::
                MM.Published(old(mappings.ViewAt(i)), mappings.ViewAt(i))
      ensures published <==> TransfersDelivered(old(mappings.server.trips))
      ensures result == Success <==> published && reply == Answer(true)
      ensures result == DriverError <==> published && reply == Answer(false)
      ensures result == DeviceLost <==> !published || reply == NoReply
      ensures result.Success? && id in old(semaphores) ==>
                && id in semaphores
                && semaphores == old(semaphores)[id := old(semaphores[id]).(pending := semaphores[id].pending)]
                && forall w :: w in semaphores[id].pending <==> w in old(semaphores[id].pending) && w.value > value
      ensures !(result.Success? && id in old(semaphores)) ==> semaphores == old(semaphores)
      ensures Abs() == if result.Success? then HostSignal(old(Abs()), id, value) else old(Abs())
    {
      published := Upload();
      if !published {
        return DeviceLost, false;
      }
      if reply.NoReply? {
        return DeviceLost, true;
      }
      if !reply.success {
        return DriverError, true;
      }
      if id in semaphores {
        var left := DropReached(semaphores[id].pending, value);
        semaphores := semaphores[id := semaphores[id].(pending := left)];
      }
      result := Success;
    }

    /** A created semaphore gets its kind on the entry its id has or gets. */
    method CreateSemaphore(id: SemaphoreId, timeline: bool)
      modifies this`semaphores
      ensures Abs() == Provenance.CreateSemaphore(old(Abs()), id, timeline)
      ensures semaphores.Keys == old(semaphores).Keys + {id}
      ensures semaphores[id] == EntryOf(old(semaphores), id).(timeline := timeline)
      ensures forall other | other in old(semaphores) && other != id :: semaphores[other] == old(semaphores)[other]
    {
      semaphores := semaphores[id := SemaphoreAt(semaphores, id).(timeline := timeline)];
    }

    method DestroySemaphore(id: SemaphoreId)
      modifies this`semaphores
      ensures Abs() == Provenance.DestroySemaphore(old(Abs()), id)
      ensures semaphores.Keys == old(semaphores).Keys - {id}
      ensures forall other | other in semaphores :: semaphores[other] == old(semaphores)[other]
    {
      semaphores := semaphores - {id};
    }
  }
}
