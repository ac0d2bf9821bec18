# A verified model of a Vulkan remoting layer

The repository runs Vulkan applications on one machine and the driver on another. A client library
forwards every call over a connection to a server that holds the real objects. This project models
the parts of it whose correctness is not visible from one function, and proves what they promise.

The centre is the client's emulation of coherent memory. A pointer returned by `vkMapMemory` leads
to a local shadow of server memory. Before each submission the client uploads what the application
stored; after each completion it observes, it merges in what the device may have written. Which
memories a completion must refresh is decided by records kept for every queue, fence and semaphore.

- `DirtyRuns`, `MappedMemory`, `CoherentMappings`: the upload of coalesced dirty runs and the
  three-way merge, as loops over the shadow and baseline buffers, with lost requests and replies.
- `Provenance`, `QueueSubmission`: the records of queues, fences and semaphores, as functions of
  values and as a class whose methods follow the entry points. `PlannedCalls` says what a call plans
  and commits of the tables alone, entry by entry.
- `Precedence`, `HappensBefore`: an order on submissions, through queues and semaphores, that knows
  nothing of the records. `SubmitPlan`, `SignalCommits`, `SubmitSoundness`, `LateSignals`,
  `ProvenanceRuns`: in every run the records cover it. `EscapedSignals`: exactly when they would not;
  `LateRuns`: runs that reach both sides.
- `WaitBeforeSignal`, `SubmitEquivalence`: no pending wait is left satisfied, and what the two
  versions of the submit call leave behind.
- `CoherentSystem`: host, device, server and client together; in every run the shadows and the
  server agree with one shared array of bytes. `LostWrites`: runs that reach what its conditions exclude.
- `Recording`, `CommandBuffers`, `RecordingConservative`: what a recorded command buffer may have
  written when it is submitted.
- `RequestWorkers`, `Connection`: the server's worker pool and the client's multiplexed connection,
  as interleaved steps with an inductive invariant, and as classes whose methods are those steps.
- `DescriptorSlots`, `DescriptorUpdates`: the slot cursor and the batched descriptor update.
- `Wire`, `PNextChain`, `SubmitCodec`, `RenderPassCodec`: the wire format of extension chains, submit
  calls and render passes, and that the readers take exactly what the writers write. `WireLayouts`: where
  each field is. `ChainStreams`, `SubmitStreams`, `Submit2Streams`, `RenderPassStreams`: the
  code that writes and reads it.
- `TransferRanges`: the arithmetic of chunks, atoms and alignments on both sides.
- `ObjectTables`: the server's id tables and the teardown of a device.
- `InputQueue`: the lossy input queue of a window and the client that replays it.

Each entry point is one atomic step. The server is a byte array for each memory id; the driver, the
network and the clock appear as parameters: replies that may be lost, results, observed values.

## What holds only under a condition

- An upload rewrites clean bytes that lie between two dirty ones less than 4096 apart. It loses a
  device write the client has not read yet exactly when it sends such a byte with another value:
  `CoherentSystem.PublishExactly`, with a run in `LostWrites.GapOverwritesDevice`.
- A signal submitted after its wait hands its memories to the waiting queue and no further. The
  records stay covering when every memory it brings is carried to whatever follows the waiting
  submission: a write to it precedes the follower already, or the same call brings one to the
  follower's queue, at or before it (`LateSignals.SubmitSound`). So they do when each follower is
  behind the waiter in its queue, behind the signal in the submitting queue, or itself served
  (`Precedence.ServedAllowed`), and when nothing unacquired precedes the signal
  (`Precedence.QuietAllowed`). Whatever the call signals, waiting for a queue to be idle afterwards
  refreshes everything that precedes it if and only if the memories each late dependency before it
  brings were in its set before the call, or come with the first signal that ends one of its pending
  waits (`EscapedSignals.IdleExactly`); a queue without pending waits is told nothing
  (`EscapedSignals.PassedIdleExactly`). Runs reach both sides: `LateRuns.ExampleMisses` and
  `LateRuns.BothServed`. The separate update of the waiting
  batch's own semaphores changes nothing (`SignalCommits.DownstreamAlreadyReached`).
- `vkFlushMappedMemoryRanges` on emulated-coherent memory sends the shadow and leaves the baseline as it
  is. If the application then stores back exactly the byte of the baseline, the byte looks clean although
  the server has the flushed one: the store is lost to the next refresh, and an upload sends it only
  from inside a gap (`CoherentSystem.UndoingStoreIsLost`, with a run in `LostWrites.FlushThenUndone`).
  A host store keeps all copies coherent exactly when it does not do this (`CoherentSystem.StoreExactly`);
  a byte that was not flushed explicitly never asks for it. The flush itself keeps them coherent exactly
  when it sends no stale byte over a device write (`CoherentSystem.FlushExactly`), and
  `vkInvalidateMappedMemoryRanges` exactly when every byte of its range that the application stored is on
  the server (`CoherentSystem.InvalidateExactly`).
- `QueueSubmit2` keeps the value of a wait that stays pending on a binary semaphore, `QueueSubmit`
  keeps 0. The tables the two leave are the same exactly when those values are 0
  (`SubmitEquivalence.SubmitsAlike`), and otherwise no later step can tell them apart
  (`SubmitEquivalence.StepAlike`).
- A host barrier in a secondary command buffer does not cover the primary's earlier writes:
  `RecordingConservative.ExecuteIsNotInlining`.
- A shading-rate node is written with an attachment reference of any type and read back only with
  the right one: `PNextChain.ShadingRateReadableExactly`.
- A range of the whole size is validated against the allocation and resolved against the mapping,
  so its rounding can leave the allocation. Every chunk of a validated range gets a proper native range
  if and only if, for the whole size, the mapping ends the allocation or its end rounded up to the atom
  lies inside it: `TransferRanges.ValidatedRangeExactly`, with an instance in
  `TransferRanges.WholeSizeMayOverrun`.
- `try_round_trip` counts right, whatever the server answers, if and only if each request it takes back
  still counts: an application request is in the table under its id, or there is none and the counter is
  0 (`Connection.WithdrawCounts`, over runs `Connection.CountsExactly`). Where no id was given twice that
  is: the caller still waits in the table, or the counter is 0 (`Connection.CountsWhileWaiting`). A server
  that answers only what it was sent keeps it so (`Connection.TableIsCounted`); one that does not can
  make it miscount (`Connection.AnsweringUnsentMiscounts`).
- The application knows exactly which keys are held if and only if no two key codes share a virtual
  key: `InputQueue.HeldExactlyWhen`. The two Enter keys do.

## Model

| member | source | states |
|---|---|---|
| `DirtyRuns.CoalescedUnique` | client/remote_objects.cpp:357-371 | the clusters (a dirty byte at both ends, no clean gap of 4096 inside, at least 4096 clean bytes between two) are determined by the two buffers |
| `DirtyRuns.RunsCoverTransmitted` | client/remote_objects.cpp:357-371 | a byte lies in a cluster exactly when it is dirty or between dirty bytes joined by shorter gaps, so every dirty byte does |
| `DirtyRuns.CoalesceIsCoalesced` | client/remote_objects.cpp:357-371 | every pair of buffers has such clusters |
| `MappedMemory.PlanCovers` | client/remote_objects.cpp:372-391 | the requests of at most the chunk size cover exactly the bytes of the clusters |
| `MappedMemory.RequestsPublish` | client/remote_objects.cpp:351-394 | a complete upload changes exactly the transmitted bytes of the server, and leaves the shadow there |
| `MappedMemory.RequestsSettleBaseline` | client/remote_objects.cpp:351-394 | and makes the baseline equal to the shadow |
| `MappedMemory.MergeKeepsHostStores` | client/remote_objects.cpp:396-432 | a host-dirty byte survives the merge, a clean one takes the server's value, and what stays dirty is exactly what was dirty and differs from the server |
| `MappedMemory.MergeThenPublishAgrees` | client/remote_objects.cpp:351-432 | a merge followed by an upload makes shadow, baseline and server equal and changes nothing outside the mapping |
| `MappedMemory.InterruptedUploadLosesNothing` | client/remote_objects.cpp:372-391 | after an upload that fails midway every store the server may lack is still dirty, and the baseline took over only what the server has |
| `CoherentMappings.SkipClean` | client/remote_objects.cpp:358-359 | finds the next dirty byte, or the end |
| `CoherentMappings.RunEnd` | client/remote_objects.cpp:360-371 | the nested loops find the end of the cluster that begins at a dirty byte, and terminate |
| `CoherentMappings.SendRun` | client/remote_objects.cpp:372-391 | a run goes out request by request; a failure leaves the baseline with exactly what was acknowledged |
| `CoherentMappings.PublishMapping` | client/remote_objects.cpp:356-393 | an upload sends the coalesced clusters, each once and in order; on failure a prefix of them |
| `CoherentMappings.AcquireMapping` | client/remote_objects.cpp:396-432 | a refresh merges every byte of the mapping; on failure a prefix |
| `CoherentMappings.FlushRange` | client/remote_objects.cpp:312-349 | an explicit flush sends a range of the shadow in whole atoms but for its end and leaves shadow and baseline; on failure a prefix of it |
| `CoherentMappings.DownloadRange` | client/remote_objects.cpp:434-480 | an explicit invalidation copies the server's range to shadow and baseline; on failure a prefix of it |
| `CoherentMappings.Mappings.Publish` | client/remote_objects.cpp:351-394 | a mapping that is not both emulated-coherent and ready keeps its buffers and server bytes; every other one has its dirty bytes on the server, which changes nowhere else but in gaps, and nothing dirty left. It succeeds exactly when every round trip does; on failure the mappings before the failing one are complete, that one is part way, and the rest are untouched |
| `CoherentMappings.Mappings.Acquire` | client/remote_objects.cpp:396-432 | the same for a refresh: only ready emulated-coherent mappings of the selected memories change, and each of their bytes is the server's unless the host had stored there |
| `QueueSubmission.RemoteDevice.QueueSubmit` | client/device.cpp:291-522 | which calls are refused, for their type and arrays or for their chain, that the upload comes first, which result each outcome of the transfers and the reply gives, and that the tables are those of batches with the list's writes, semaphores and timeline values, planned and committed when the server accepts and with serials spent only otherwise |
| `QueueSubmission.RemoteDevice.QueueSubmit2` | client/device.cpp:524-656 | the same for the second version, whose encoder refuses wrong structure types, anything that hangs off a structure, and arrays that are too long |
| `QueueSubmission.RemoteDevice.PlanSubmits` | client/device.cpp:352-458 | the planning loops plan exactly batches that carry what the list says: the writes its command buffers are attributed, and for every wait and signal the value at its place in the chain's last structure with timeline values, or none |
| `QueueSubmission.RemoteDevice.PlanSubmits2` | client/device.cpp:558-613 | so do those of the second version, where every operation carries its own value |
| `QueueSubmission.RemoteDevice.CommitOneSignal` | client/device.cpp:477-514 | a committed signal is recorded, the waits it answers leave, and the queues, fences and records they reach grow by its memories, each table entry exactly |
| `QueueSubmission.RemoteDevice.PropagateQueueWrites` | client/device.cpp:91-109 | ids reach a queue and every record made on it at or after a serial |
| `QueueSubmission.RemoteDevice.QueueWaitIdle` | client/device.cpp:776-800 | the wait succeeds exactly when the server accepts and every transfer of the refresh arrives; it then has refreshed the queue's memories and cleared its set, and otherwise changed no set |
| `QueueSubmission.RemoteDevice.DeviceWaitIdle` | client/device.cpp:802-826 | the wait succeeds exactly when the server accepts and every transfer arrives; it then has refreshed every mapping and cleared queues and fences |
| `QueueSubmission.RemoteDevice.WaitForFences` | client/device.cpp:916-971 | which result every reply, fence status and outcome of the transfers gives: when waiting for any fence the first status that is an error decides, and one that is not ready is passed over; a successful wait refreshed the memories of exactly the fences it saw signalled and forgot those fences |
| `QueueSubmission.RemoteDevice.ResetFences` | client/device.cpp:860-886 | which calls are refused, and that a reset forgets the fences exactly when the server accepts it |
| `QueueSubmission.RemoteDevice.AcquireTimeline` | client/device.cpp:111-141 | an observed counter value refreshes the memories of the signals up to it and retires them, exactly when every transfer arrives |
| `QueueSubmission.RemoteDevice.SignalSemaphore` | client/device.cpp:1020 | a signal from the host uploads first and, exactly when transfers and reply succeed, drops the waits it satisfies |
| `QueueSubmission.RemoteDevice.CreateSemaphore` | client/device.cpp:973-1001 | a created semaphore gets its kind and no other entry changes |
| `QueueSubmission.RemoteDevice.DestroySemaphore` | client/device.cpp:1003-1016 | a destroyed semaphore has no records |
| `QueueSubmission.EncodableExactly` | common/marshal.cpp:762-777 | a submission's chain is encoded exactly when it is empty or one structure with timeline values that fit |
| `QueueSubmission.FirstErrorDecides` | client/device.cpp:943-956 | the first failed status decides the wait for any fence |
| `Recording.CollectWrites` | client/device.cpp:377-408 | the attribution loops collect a memory exactly when it is visible in one of the command buffers, or descriptor writes are and a set of its leads to it by a buffer, an image view or a buffer view |
| `PlannedCalls.PlannedExactly` | client/device.cpp:352-458 | the plan of a call, table entry by table entry: the queue's next set is its set with what the command buffers wrote and the waits bring in; the waits without a known signal stay pending; binary semaphores waited on are consumed; each signal carries its kind, value, serial and the set after its batch |
| `PlannedCalls.CommittedExactly` | client/device.cpp:477-514 | one committed signal, table entry by table entry |
| `PlannedCalls.CommitExactly` | client/device.cpp:459-521 | a commit adds the pending waits, consumes the semaphores, commits the signals one after another, and then records the fence with the queue's set |
| `PlannedCalls.SubmitExactly` | client/device.cpp:352-521 | the whole call, accepted or not |
| `HappensBefore.ResolveCovers` | client/device.cpp:413-425 | a timeline wait whose signal was committed before brings in memories that cover the submission it depends on |
| `Precedence.CoversExactly` | client/device.cpp:91-109 | when dependencies become known later, a set that covered a position goes on covering it if and only if it holds what each of them before the position brings |
| `Precedence.ServedAllowed` | client/device.cpp:484-514 | followers in the waiter's queue behind it, in the submitting queue behind the signal, or themselves served by the call need nothing more |
| `Precedence.QuietAllowed` | client/device.cpp:484-514 | nor do any, when nothing unacquired precedes the signal |
| `SubmitPlan.CallPlanned` | client/device.cpp:352-458 | planning computes, for the queue and every signal of the call, memories that cover all that precedes them, through waits on recorded signals and on signals of the same call |
| `SignalCommits.CommitSignalExactly` | client/device.cpp:477-514 | committing a signal records it, removes exactly the pending waits it satisfies, and adds its memories to exactly the queues, fences and semaphore records of those waits' queues at or after them |
| `SignalCommits.DownstreamAlreadyReached` | client/device.cpp:490-505 | the update of the semaphores the waiting batch signals changes no record |
| `SubmitSoundness.SignalsCovering` | client/device.cpp:459-515 | committing a call keeps every queue, fence and semaphore entry covering what precedes the completion it stands for |
| `LateSignals.SignalsAbsorb` | client/device.cpp:484-514 | the first signal that satisfies a pending wait leaves its memories on every later record of the wait's queue |
| `LateSignals.SubmitSound` | client/device.cpp:352-521 | an accepted call keeps all entries covering, also when it signals what other queues already wait for, as long as the memories it brings are carried to everything that follows the waits |
| `EscapedSignals.SubmitPasses` | client/device.cpp:484-514 | a queue without pending waits is told nothing by a call on another queue |
| `EscapedSignals.SubmitTells` | client/device.cpp:459-514 | that set is the queue's after the call |
| `EscapedSignals.IdleExactly` | client/device.cpp:352-521 | after any accepted call, late signals or not, waiting for any queue to be idle refreshes everything that precedes it if and only if the unacquired memories that every late dependency before the queue brings are in a set given by the tables before the call: the queue's, with what the first signals to end its pending waits tell it |
| `EscapedSignals.PassedIdleExactly` | client/device.cpp:484-514 | for another queue without pending waits: if and only if they were in its set before the call |
| `LateRuns.ExampleMisses` | client/device.cpp:484-514 | a run with three queues after which this fails: a queue that only follows the waiting one misses the memory |
| `LateRuns.BothServed` | client/device.cpp:484-514 | a run in which the following queue waits for the signal too: the call is allowed and the queue is told |
| `ProvenanceRuns.StepSound` | client/device.cpp:91-971 | every step (submit, queue or device idle, fence wait or reset, observed counter, host signal, creation, destruction) keeps every entry covering |
| `ProvenanceRuns.RunSound` | client/device.cpp:91-971 | so does every run |
| `ProvenanceRuns.ObservationAcquires` | client/device.cpp:776-971 | in every run a successful observation refreshes every memory with an unacquired write that precedes it through any chain of queue order and semaphores, and what is left unacquired is exactly what does not precede it |
| `WaitBeforeSignal.SubmitQuiet` | client/device.cpp:409-441 | no submit call leaves a pending wait that a recorded signal already satisfies |
| `WaitBeforeSignal.StepQuiet` | client/device.cpp:91-971 | nor does any other step, when timeline waits supply their values |
| `SubmitEquivalence.SubmitsAlike` | client/device.cpp:291-656 | for equivalent lists the two submit calls leave the same tables exactly when every wait the second leaves pending on a binary semaphore carries the value 0, and alike tables always |
| `SubmitEquivalence.StepAlike` | client/device.cpp:91-971 | alike tables refresh the same memories and stay alike in every step |
| `CoherentSystem.UploadIsPublish` | client/remote_objects.cpp:351-394 | the upload of the system is the one the buffers perform |
| `CoherentSystem.RefreshIsAcquire` | client/remote_objects.cpp:396-432 | so is the refresh |
| `CoherentSystem.UploadStopIsPartly` | client/remote_objects.cpp:372-391 | an upload that stops midway, with or without a lost reply, is the system's |
| `CoherentSystem.RefreshStopIsPartly` | client/remote_objects.cpp:402-429 | so is a refresh that stops midway |
| `CoherentSystem.PublishCoherent` | client/remote_objects.cpp:351-394 | when no unacquired byte is sent, an upload makes the server equal to the shared memory |
| `CoherentSystem.PublishExactly` | client/remote_objects.cpp:361-371 | otherwise it does so exactly when every unacquired byte it sends already reads as the device left it |
| `LostWrites.GapOverwritesDevice` | client/remote_objects.cpp:361-371 | a run in which a clean byte between two host stores loses a device write |
| `CoherentSystem.MapCoherent` | client/memory.cpp:118-197 | mapping downloads a shadow and baseline that agree with the shared memory |
| `CoherentSystem.EventKeeps` | client/remote_objects.cpp:351-432 | allocation, mapping, unmapping, host stores, device writes, calls, uploads and refreshes that stop midway, and explicit flushes and invalidations keep every copy of every byte coherent while the connection works |
| `CoherentSystem.StoreExactly` | client/remote_objects.cpp:358-391 | a host store keeps every copy coherent if and only if it does not set a byte back to the baseline while the server has something else, which takes an explicit flush |
| `CoherentSystem.UndoingStoreIsLost` | client/remote_objects.cpp:358-425 | such a store is lost to the next refresh, and the next upload sends it exactly when it lies in a gap |
| `LostWrites.FlushThenUndone` | client/memory.cpp:227-233 | a run that leads there: an explicit flush leaves the baseline, and the byte is set back |
| `CoherentSystem.FlushExactly` | client/remote_objects.cpp:312-349 | an explicit flush keeps every copy coherent if and only if every unacquired byte it sends already reads as the device left it |
| `CoherentSystem.InvalidateExactly` | client/remote_objects.cpp:434-480 | an explicit invalidation does if and only if every byte of the range that the host stored is on the server |
| `CoherentSystem.UnmapExactly` | client/memory.cpp:199-224 | unmapping, which flushes the mapping and drops it also when that stops on the way, does if and only if the bytes sent are as for a flush and every other byte that the host stored is on the server |
| `CoherentSystem.FlushIsPatched` | client/remote_objects.cpp:312-349 | the flush the client performs, complete or not, is the system's |
| `CoherentSystem.InvalidateIsPatched` | client/remote_objects.cpp:434-480 | so is the invalidation |
| `CoherentSystem.HostReadsItsStores` | client/remote_objects.cpp:75-93 | in every run, also after the connection failed, the application reads the shared memory at every byte no submission wrote since it was last refreshed |
| `CoherentSystem.SubmitsSharedMemory` | client/device.cpp:352 | in every run the server holds exactly the shared memory when a submission is made |
| `CoherentSystem.ObservationReadsSharedMemory` | client/device.cpp:776-971 | in every run the application reads the shared memory after a successful observation, except bytes written by a submission that need not be complete yet |
| `CoherentSystem.RefreshedReadsSharedMemory` | client/remote_objects.cpp:396-432 | and a refreshed memory reads as the shared memory at every byte |
| `CommandBuffers.CommandBuffer.Begin` | client/commands.cpp:126-140 | beginning forgets everything tracked |
| `CommandBuffers.CommandBuffer.BeginRenderPass` | client/commands.cpp:36-64 | a render pass writes the memories of its attachments, taken from the begin info when the framebuffer has none |
| `CommandBuffers.CommandBuffer.Write` | client/commands.cpp:493-660 | a transfer command writes its target's memory |
| `CommandBuffers.CommandBuffer.BindSets` | client/commands.cpp:282-312 | set i is bound to slot first + i of the named bind point, every other slot and the other bind point keep theirs; a call without a layout, with a null set or with too long an array binds nothing |
| `CommandBuffers.CommandBuffer.PipelineBarrier` | client/commands.cpp:408-491 | a memory is visible afterwards exactly when it was, or a general host barrier covers a pending write, or a host barrier on a resource bound to it finds a pending write or a set with a descriptor of the resource |
| `CommandBuffers.CommandBuffer.PipelineBarrier2` | client/commands.cpp:705-728 | the second version, whose named resources need neither |
| `CommandBuffers.CommandBuffer.ExecuteCommands` | client/commands.cpp:679-684 | a primary takes over what its secondaries tracked |
| `RecordingConservative.WriteBeforeBarrierIsSubmitted` | client/commands.cpp:408-491 | in every command list a write followed by a host barrier that covers it is attributed |
| `RecordingConservative.ShaderWriteBeforeGeneralBarrier` | client/commands.cpp:66-69 | so is every memory a set leads to that was bound to a slot and not rebound before a draw or dispatch, after a general host barrier |
| `RecordingConservative.ShaderWriteBeforeResourceBarrier` | client/commands.cpp:408-491 | and the memory of a resource such a descriptor refers to, after a barrier on the resource |
| `RecordingConservative.VisibleExactly` | client/commands.cpp:408-491 | a memory is visible exactly when a host barrier or a secondary made it so since the recording last began, said of the commands alone |
| `RecordingConservative.BoundExactly` | client/commands.cpp:282-312 | what is bound to a slot after any list of commands is what was bound there last |
| `RecordingConservative.TrackedExactly` | client/commands.cpp:36-491 | so are the pending writes, the sets shaders may write through, and whether descriptor writes count, said of the commands alone |
| `RecordingConservative.AttributedExactly` | client/device.cpp:377-408 | a submission is attributed a memory exactly when a command made it visible, or descriptor writes count and a set that some command may write through leads to it |
| `RecordingConservative.NothingWithoutBarriers` | client/commands.cpp:408-491 | without host barriers and secondaries nothing is submitted for the host |
| `RecordingConservative.ExecuteSubmitsUnion` | client/commands.cpp:679-684 | executing secondaries submits the union of what each made visible |
| `RecordingConservative.ExecuteIsNotInlining` | client/commands.cpp:679-684 | a secondary's barrier does not cover the primary's earlier write, which the same barrier in the primary would |
| `RequestWorkers.EveryInterleaving` | server/session.cpp:530-612 | in every interleaving the jobs of one lane run one at a time and finish in the order accepted; until the stop the active ids are those of the jobs held, distinct and at most 64, none is lost, and a lane is active exactly when one of its jobs is ready or running |
| `RequestWorkers.NeverStuck` | server/session.cpp:578-601 | a pool that holds a job has one ready or running |
| `RequestWorkers.EveryJobFinishes` | server/session.cpp:573-601 | without stopping the workers take as many steps as a measure says, in any order, and then every accepted job is finished |
| `RequestWorkers.RequestWorkers.Submit` | server/session.cpp:541-555 | a job is refused when the pool stops, holds its id or holds 64; it joins the end of the ready jobs, or of its lane's queue while the lane is active |
| `RequestWorkers.RequestWorkers.Done` | server/session.cpp:587-600 | a finished job hands its lane to the first job of its queue, which joins the end of the ready jobs, or ends it |
| `RequestWorkers.RequestWorkers.Stop` | server/session.cpp:557-568 | stopping drops the jobs that are not running |
| `Connection.TableIsCounted` | client/remote_objects.cpp:75-310 | in every interleaving of callers, receiver, watchdog and failure the counter of application requests is the table without the heartbeat, and after a failure the table stays empty |
| `Connection.OnePing` | client/remote_objects.cpp:95-121 | at most one heartbeat is outstanding |
| `Connection.ReleasedOnce` | client/remote_objects.cpp:75-310 | each caller is released at most once, with the reply to its own id and opcode or with failure, and after a failure nobody is left in the table |
| `Connection.ReleasedStays` | client/remote_objects.cpp:75-310 | a released caller stays released, with the same verdict |
| `Connection.WithdrawCounts` | client/remote_objects.cpp:294-299 | taking a request back keeps the counter equal to the table without the heartbeat if and only if an application request is in the table under its id, or there is none and the counter is 0 |
| `Connection.StepCounts` | client/remote_objects.cpp:75-310 | every other step keeps it so, whatever the server answers |
| `Connection.CountsExactly` | client/remote_objects.cpp:75-310 | in every interleaving with a server that answers anything, the counter is right up to any point if and only if every request taken back before it counted |
| `Connection.CountsWhileWaiting` | client/remote_objects.cpp:75-310 | where no id was given twice: if and only if each caller still waited in the table or the counter was 0 |
| `Connection.WithdrawExactly` | client/remote_objects.cpp:294-299 | table and counter stay right together if and only if the entry taken back is the caller's own, or there is none and the counter is 0 |
| `Connection.AnsweringUnsentMiscounts` | client/remote_objects.cpp:289-304 | a server that answers an unsent id reaches the failing case: the counter misses another caller's request |
| `Connection.Connection.AllocateId` | client/remote_objects.cpp:250 | the search ends at the first id that is not zero and not in use, before the counter comes round |
| `Connection.Connection.Register` | client/remote_objects.cpp:243-254 | a caller is refused when the connection failed or the table is full, and otherwise enters it under the first free id |
| `Connection.Connection.Heartbeat` | client/remote_objects.cpp:110-117 | a heartbeat enters the table when requests wait and none is outstanding |
| `Connection.Connection.FailAll` | client/remote_objects.cpp:75-93 | the failure broadcast empties the table and decides every waiter |
| `Connection.Connection.Receive` | client/remote_objects.cpp:170-207 | any message: a reply goes to the waiter of its id and opcode, or fails the connection |
| `Connection.Connection.Withdraw` | client/remote_objects.cpp:294-299 | a caller that may not block takes its unsent request back; when that keeps table and counter right, exactly |
| `DescriptorSlots.SlotKeyInjective` | client/remote_objects.hpp:138-140 | slot keys of different bindings or elements differ |
| `DescriptorSlots.ConsecutiveBindings` | client/device.cpp:54-89 | k advances from an element of a binding name the slot k places later in the flat list of a sorted layout, skipping empty bindings, and nothing past its end |
| `DescriptorSlots.SlotKeysDistinct` | client/device.cpp:54-89 | different positions of a layout have different keys |
| `DescriptorSlots.DescriptorSlotCursor.Step` | client/device.cpp:66-73 | the cursor's advance, in place, and whether it stands on a slot |
| `DescriptorSlots.KnownIsFollowed` | client/device.cpp:54-89 | so the key of the k-th element of an update is that of the slot k places later, and past the last one the element counted on |
| `DescriptorSlots.UnknownIsCounted` | client/device.cpp:77-89 | the key of an unknown binding is the element counted on in 32-bit arithmetic |
| `DescriptorUpdates.DescriptorTables.UpdateDescriptorSets` | client/device.cpp:1581-1687 | every write and then every copy takes effect, one after another: a write fills its slots with its storage resources or empties them, a copy fills its targets with what its sources held, all other slots stay; an early return changes nothing |
| `DescriptorUpdates.TouchShows` | client/device.cpp:1602-1672 | touched slots, with erasures, show through the overlay as if written |
| `DescriptorUpdates.PutAllAt` | client/device.cpp:1602-1672 | every slot afterwards: a named one holds the last value written to it, or nothing when that has no id; any other what it held |
| `DescriptorUpdates.SelfCopyReadsBefore` | client/device.cpp:1625-1672 | a copy inside one set, however its ranges overlap, moves what the slots held before |
| `Wire.WordRoundTrip` | common/wire.hpp:58-148 | a little-endian word reads back as written, whatever follows it |
| `Wire.LittleEndian` | common/wire.hpp:58-80 | byte i of a word is its digit of weight 256 to the i |
| `Wire.ArrayRoundTrip` | server/session.hpp:188-190 | a counted array reads back as written, and the count guard never refuses it |
| `Wire.Reader.Word` | common/wire.hpp:131-142 | a read past the end fails the reader, which then yields zeros and never moves |
| `PNextChain.CollectExactly` | common/marshal.cpp:444-456 | a chain is collected exactly when, without the loader's nodes, it has at most 16 nodes, all allowed and of different types |
| `PNextChain.ChainRoundTrip` | common/marshal.cpp:762-806 | reading a written chain gives its nodes and leaves exactly what follows, up to feature filtering and handles that name nothing |
| `PNextChain.ParsedChainAcceptable` | common/marshal.cpp:779-806 | what a reader accepts is a chain a writer could have sent |
| `PNextChain.AllowedExactly` | common/marshal.cpp:252-340 | which nodes each context takes |
| `PNextChain.WrittenExactly` | common/marshal.cpp:762-777 | which chains are written: how deep, how many nodes, which, and how large their arrays |
| `PNextChain.ChainReadExactly` | common/marshal.cpp:762-806 | where reading changes no node, a chain is read from bytes if and only if they begin with its encoding |
| `PNextChain.ViewsResolve` | common/marshal.cpp:485-645 | the views of a beginning render pass arrive with handles that name nothing turned to null |
| `PNextChain.ProtectionOff` | common/marshal.cpp:485-645 | protected-memory features arrive switched off |
| `PNextChain.ShadingRateReadableExactly` | common/marshal.cpp:485-645 | a written shading-rate node reads back exactly when its attachment reference has its own type |
| `ChainStreams.CollectChain` | common/marshal.cpp:444-456 | the collecting loop |
| `ChainStreams.WriteChain` | common/marshal.cpp:762-777 | a chain is written whole or the writer is unchanged |
| `ChainStreams.ReadChain` | common/marshal.cpp:779-806 | the reading loop accepts what the format describes and consumes exactly that |
| `ChainStreams.WrittenChainIsRead` | common/marshal.cpp:762-806 | writer and reader together |
| `SubmitCodec.RequestRoundTrip` | server/handlers_device.cpp:107-182 | whatever list a client encodes from live handles, the server decodes to the same list with nothing left over and no count refused |
| `SubmitCodec.Request2RoundTrip` | common/marshal.cpp:2063-2065 | the same for the second version |
| `SubmitCodec.RequestReadExactly` | server/handlers_device.cpp:107-182 | the handler takes a message if and only if it is the encoding of such a list from live handles, and then gets that list |
| `SubmitCodec.Request2ReadExactly` | server/handlers_device.cpp:83-99 | the same for the second version, where null handles pass |
| `WireLayouts.SubmissionLaidOut` | client/device.cpp:326-349 | where the chain, waits, command buffers and signals of a submission are |
| `WireLayouts.SubmitChainLaidOut` | common/marshal.cpp:762-777 | the bytes of its chain |
| `WireLayouts.Submission2LaidOut` | common/marshal.cpp:2063-2065 | where the fields of the second version are |
| `WireLayouts.MultiviewLaidOut` | common/marshal.cpp:485-645 | where those of a multiview node are |
| `SubmitStreams.WriteRequest` | client/device.cpp:318-350 | the client's encoding loops |
| `SubmitStreams.HandleSubmit` | server/handlers_device.cpp:107-182 | the server's decoding loops: the list the message encodes, or a decode error exactly when it encodes none that may be sent |
| `SubmitStreams.SubmitReachesServer` | client/device.cpp:318-350 | the two together |
| `Submit2Streams.WriteRequest2` | client/device.cpp:543-552 | the encoding loops of the second version, which refuse a wrong structure type, anything that hangs off a structure and an array that is too long |
| `Submit2Streams.HandleSubmit2` | server/handlers_device.cpp:83-99 | its decoding loops, on a reader that may run out, with the same result |
| `Submit2Streams.Submit2ReachesServer` | common/marshal.cpp:2063-2065 | the two together |
| `RenderPassCodec.InfoRoundTrip` | common/marshal.cpp:1077-1102 | every render pass description that is written reads back as itself, with empty resolve arrays absent, and leaves exactly what followed |
| `RenderPassCodec.EncodingIsInjective` | common/marshal.cpp:1077-1102 | descriptions with the same encoding differ in empty resolve arrays at most |
| `RenderPassCodec.WrittenInfoExactly` | common/marshal.cpp:1077-1091 | which descriptions are written |
| `RenderPassCodec.InfoReadExactly` | common/marshal.cpp:1093-1103 | bytes are read as a description if and only if they begin with the encoding of one that reads so |
| `WireLayouts.SubpassLaidOut` | common/marshal.cpp:1010-1060 | where the fields of a subpass are |
| `WireLayouts.AttachmentLaidOut` | common/marshal.cpp:1077-1091 | and those of an attachment |
| `RenderPassStreams.WriteInfo` | common/marshal.cpp:1077-1091 | the writing loops: a description is written whole or the writer is unchanged |
| `RenderPassStreams.ReadInfo` | common/marshal.cpp:1093-1103 | the reading loops accept what the format describes and consume exactly that |
| `RenderPassStreams.WrittenInfoIsRead` | common/marshal.cpp:1077-1103 | writer and reader together |
| `TransferRanges.AlignDownIs` | server/handlers_memory.cpp:23-25 | the bit mask rounds down to a multiple of a power of two |
| `TransferRanges.ResolveAllocation` | client/memory.cpp:33-44 | a range resolves exactly when it begins inside the allocation and does not leave it |
| `TransferRanges.ValidateRanges` | client/memory.cpp:46-62 | the validating loop accepts exactly ranges of known memories that lie in their allocation and, on memory that is not coherent, begin at an atom and end at one or with the allocation |
| `TransferRanges.ResolveMapping` | client/remote_objects.cpp:37-53 | which ranges of a mapping resolve, and to what |
| `TransferRanges.CutRange` | client/remote_objects.cpp:320-347 | the transfer loop tiles the range with chunks within the bound, aligned to atoms, each but the last as large as they get, and refuses only an atom larger than the bound |
| `TransferRanges.TilesCover` | client/remote_objects.cpp:320-347 | the chunks cover each byte of the range once and no other byte |
| `TransferRanges.AlignedChunkIsNative` | server/handlers_memory.cpp:27-78 | the server accepts every aligned chunk, and its native range is aligned or reaches the end of the allocation, covers the chunk and stays inside the mapped region |
| `TransferRanges.NativeExactly` | server/handlers_memory.cpp:27-78 | any chunk gets a proper native range, in 64-bit arithmetic, if and only if its end rounded up to the atom, or the end of the allocation, holds it; the range begins at the atom below it |
| `TransferRanges.ValidatedRangeExactly` | client/memory.cpp:46-62 | from a validated range of a mapping on, every chunk does if and only if, for the whole size, the mapping's end fits in this sense |
| `TransferRanges.ValidatedRangeIsNative` | client/memory.cpp:46-62 | so each chunk of a range whose end fits is accepted, gets a proper native range and stays in the mapping |
| `TransferRanges.WholeSizeMayOverrun` | server/handlers_memory.cpp:54-64 | an instance: a mapping that ends inside an atom is flushed past the end of its allocation |
| `TransferRanges.ShadowAligned` | client/memory.cpp:142-153 | the shadow pointer is aligned as the memory it stands for and the shadow fits its block |
| `ObjectTables.Table.AddUnique` | server/objects.hpp:36-42 | an object the same device already named keeps its first id |
| `ObjectTables.Table.Take` | server/objects.hpp:51-57 | taking returns the object and clears its slot |
| `ObjectTables.Table.RetireOwned` | server/objects.hpp:68-75 | retiring clears exactly the slots of the device |
| `ObjectTables.NeverRebound` | server/objects.hpp:28-75 | over any run an id keeps its object or loses it for good |
| `ObjectTables.DestroysExactly` | server/session.cpp:84-129 | teardown destroys exactly the live objects the device owns, never an image of one of its live swapchains, and the device |
| `ObjectTables.DestroyedOnceInOrder` | server/session.cpp:84-161 | each once, by kind and id, the device last |
| `ObjectTables.ChildrenFirst` | server/session.cpp:97-130 | what is made from something goes before it |
| `ObjectTables.TornExactly` | server/session.cpp:84-134 | which table slots are cleared, and that no other changes |
| `ObjectTables.TearsDownExactly` | server/session.cpp:84-161 | every entry and every record after the teardown |
| `ObjectTables.NothingLeft` | server/session.cpp:84-161 | no table entry and no record of the device is left |
| `ObjectTables.OthersUntouched` | server/session.cpp:84-161 | no entry and no record of another device changes |
| `ObjectTables.DeviceTables.DestroyDeviceObjects` | server/session.cpp:83-163 | the loops over tables, swapchain images and records destroy exactly the device's live objects but its swapchains' images, by kind and id, and leave exactly what the others own; a null device changes nothing |
| `InputQueue.OwnWindow.RecordInput` | server/own_window_input.cpp:5-21 | motions coalesce, a full queue is dropped and marked |
| `InputQueue.OwnWindow.TakeInputEvents` | server/own_window_input.cpp:23-43 | events are taken in order; a marked queue yields nothing and is cleared |
| `InputQueue.InputWindow.PostWindowEvent` | client/wsi.cpp:200-263 | how one event changes buttons, keys and position and what is posted, field by field |
| `InputQueue.InputWindow.PollWindowEvents` | client/wsi.cpp:289-315 | a lossy reply first lets go of the buttons by mask and the keys in order; then each event is posted in turn |
| `InputQueue.ResetReleasesAll` | client/wsi.cpp:289-306 | a reset releases exactly what the application believes to be held |
| `InputQueue.SequencesGrow` | server/own_window_input.cpp:5-43 | in every run the queue stays within 1024 and taken sequence numbers strictly increase |
| `InputQueue.PollingCatchesUp` | client/wsi.cpp:265-315 | eight polls with nobody typing bring the client to where its queue leads |
| `InputQueue.NothingStuck` | client/wsi.cpp:289-315 | after any run and those polls, what the application believes to be held is really held |
| `InputQueue.ReplaysEverything` | server/own_window_input.cpp:7-12 | unless the queue ran over, the application is told what it would be told of every event without a queue, coalescing and all |
| `InputQueue.HeldExactlyWhen` | client/wsi.cpp:238-259 | the application knows exactly what is held, for every typing, if and only if no two key codes share a virtual key |

## Left out

- ProvenanceRuns.ObservationAcquires: asks that what a signal submitted after its wait brings is carried to whatever follows the waiting submission; otherwise the code keeps the property exactly as `EscapedSignals.IdleExactly` says.
- CoherentSystem.EventKeeps: the application stores no byte that the device wrote and it has not read (the repository's README.md:331-340 claims no strict coherence), sets none back after an explicit flush, flushes no stale byte and invalidates no unsent store, as `CoherentSystem.StoreExactly`, `CoherentSystem.FlushExactly` and `CoherentSystem.InvalidateExactly` say, and `CoherentSystem.UnmapExactly` for the flush of an unmapping.
- CommandBuffers.CommandBuffer.BindSets: slot numbers are unbounded; the code's `firstSet + i` stays in 32 bits for any set a layout can have.
- RenderPassStreams.WriteInfo: an array of resolve attachments has one reference for each colour attachment, by its declaration.
- PNextChain.ChainRoundTrip: covers timeline submit, multiview, framebuffer attachments, attachment begin, image format list, input attachment aspects, fragment shading rate and feature nodes; the fixed-shape nodes repeat one argument.
- ObjectTables.DeviceTables.DestroyDeviceObjects: the records beside the tables keep their device only; the driver's answer to a destroy call is not modelled.
- InputQueue.InputWindow.PostWindowEvent: mouse moves change the position but are not kept among the posted messages.
- Null pointers with a nonzero count cannot be written down; the code refuses them.
- `QueueBindSparse` and the attribution of sparse resources; `GetFenceStatus` and `WaitSemaphores`, which repeat the fence and counter observations.
- Calls that race between planning and commit while `metadata_mutex` is released, and application stores that race with an upload or a refresh.
- Mapping and unmapping change a list in place; `CoherentMappings.Mappings` takes the list as it is, and `CoherentSystem` maps and unmaps on values.
- Sockets, threads, condition variables, time-outs, lost wake-ups and the sliced wait loops of `serve`.
- The driver, window systems, the keyboard map (any map will do), the proxy, surface and swapchain queries, logging and the count of one-way errors.
- Graphics pipelines, fixed-shape structures copied as raw bytes, extension and name tables, and `UpdateDescriptorSetWithTemplate`.
