# XLA local client core, modelled in Dafny

This project models the sequential logic of the XLA Python local client
(`tensorflow/compiler/xla/python/local_client.cc`). The client keeps device
buffers behind handles, moves host values onto a device, and runs compiled
programs, either once or replicated across devices. The model covers:

- **Buffer handles** (`PyLocalBuffer`), in `buffers.dfy`.
  - A handle holds an optional scoped shaped buffer. That buffer is a shape
    plus a shape tree giving a device-memory id at every index, interior tuple
    nodes included; id 0 is the null memory.
  - `Release` hands the buffer out and empties the handle.
  - `DestructureTuple` consumes a tuple buffer. For each element `i` it moves
    the memory at `[i] + idx` into a fresh handle at `idx`, nulling the
    parent's entry as it goes.
- **Shapes and their index orders**, in `shapes.dfy`.
  - The pre-order visit of all subshapes (`ForEachSubshape`).
  - The list of leaf shapes (`GetLeafShapes`).
- **Host-to-device transfer**, in `transfer.dfy`.
  - `TransferHostToDeviceAsync`: layout choice, allocation, tuple index
    tables, then the leaf loop. The loop pairs the k-th leaf shape with the
    k-th host leaf through an advancing iterator.
  - `FromPythonValues`: builds every buffer tree, borrows every stream, issues
    every transfer, waits on every stream, then takes the results in order.
- **Execution**, in `execution.dfy`.
  - `DeviceOrdinals`, and the single-replica `Execute`.
  - The replicated `ExecutePerReplica`:
    - its argument-count guards;
    - the completion monitor (`running`, `failed`, `first_failure_status`), a
      class whose `Complete` method is one replica's completion step;
    - the coordinator's wait, and the abort after the 10-second grace period;
    - the aggregation of results in replica order.
- **Shared definitions**, in `errors.dfy` and `seqs.dfy`: status values,
  `AppendStatus`, and first-failure selection.

Calls into the device backend are function-typed fields whose results the
model takes as given:

- layout choice, allocation, tuple index tables and literal copies (`TransferManager`);
- buffer-tree construction, stream borrowing and the whole per-item transfer (`BatchBackend`);
- the compiled program's run (`Executable.program`).

Concurrency enters as parameters:

- the order in which replicas complete (`order`, a permutation of the replica numbers);
- whether the surviving replicas finish within the grace period (`finishedInTime`).

Error messages are structured values (`Reason`) rather than formatted
strings. `AppendStatus` appends a `Note` to the error.

## Model

| member | source | states |
|---|---|---|
| Shapes.IndicesComplete | tensorflow/compiler/xla/python/local_client.cc:282-290 | the subshape visit lists an index exactly when it is a valid index of the shape |
| Shapes.IndicesDistinct | tensorflow/compiler/xla/python/local_client.cc:282-290 | the subshape visit reaches every index once |
| Shapes.LeafShapesExact | tensorflow/compiler/xla/python/local_client.cc:121-122 | the leaf-shape list holds every non-tuple subshape once, with its index and subshape, and no tuple node |
| Buffers.LocalBuffer.constructor | tensorflow/compiler/xla/python/local_client.cc:227-229 | a new handle holds the buffer it was given |
| Buffers.LocalBuffer.OnDeviceShape | tensorflow/compiler/xla/python/local_client.cc:241-243 | the shape a valid handle reports is the shape of its tree: the tree has an entry exactly at the indices the shape's subshape visit reaches |
| Buffers.LocalBuffer.Release | tensorflow/compiler/xla/python/local_client.cc:235-239 | returns the buffer the handle held and leaves the handle empty |
| Buffers.LocalBuffer.DestructureTuple | tensorflow/compiler/xla/python/local_client.cc:256-297 | on a non-tuple shape: InvalidArgument naming the shape, with the handle still owning its buffer. On a tuple of arity k: the handle is emptied and k distinct fresh handles come back in element order. Handle i holds element i's shape, the parent's device, and at each index idx what the parent held at [i] + idx. The released parent keeps only its root entry |
| Buffers.DestructureElements | tensorflow/compiler/xla/python/local_client.cc:274-295 | after the element loop, every handle holds its element's subtree, the handles are distinct, and the parent tree is null everywhere except at the root |
| Buffers.MoveElement | tensorflow/compiler/xla/python/local_client.cc:282-290 | the per-element subshape loop leaves the child holding, at each index idx of element i, the memory the parent held at [i] + idx. In the parent tree the entries of elements 0 to i are then null, and every other entry keeps its value |
| Buffers.DestructureKeepsOwnershipUnique | tensorflow/compiler/xla/python/local_client.cc:268-295 | if the parent held each non-null memory id once, then across the remainder and all element trees each such id is held once |
| Buffers.DestructureLosesNothing | tensorflow/compiler/xla/python/local_client.cc:282-290 | every parent entry ends up somewhere: the root stays with the remainder, and entry [i] + idx sits at idx in element i's tree |
| Transfer.TransferLeaves | tensorflow/compiler/xla/python/local_client.cc:120-132 | the k-th copy writes host leaf k into the memory of the k-th leaf shape, and each leaf index is written at most once. The loop stops at the first failing copy, fails with an internal error when the host leaves run out first, and succeeds exactly when every leaf was copied |
| Transfer.LeafCopiesDeterministic | tensorflow/compiler/xla/python/local_client.cc:120-132 | the description of the leaf loop fixes its status and its copies |
| Transfer.LeafPairingSucceeds | tensorflow/compiler/xla/python/local_client.cc:120-132 | with enough host leaves and only successful copies, the loop succeeds and every leaf shape receives the host leaf of its position |
| Transfer.LeafPairingExhausted | tensorflow/compiler/xla/python/local_client.cc:123 | with fewer host leaves than leaf shapes and only successful copies, the loop fails with the internal error after copying every host leaf |
| Transfer.TransferHostToDeviceAsync | tensorflow/compiler/xla/python/local_client.cc:105-134 | a failure of layout choice, allocation or tuple-table writing is returned with no copy issued; otherwise the leaf loop runs on the allocated, well-formed buffer, and the result is that buffer or the loop's failure |
| Transfer.FromPythonValues | tensorflow/compiler/xla/python/local_client.cc:158-225 | no arguments give an empty list with no steps. The first failing tree build, then the first failing stream borrow, stops the call. Otherwise every transfer is issued and every stream waited on before any result is taken. The result is the lowest-index failing transfer's error, or distinct fresh handles with output i holding argument i's buffer |
| Transfer.BuildTrees | tensorflow/compiler/xla/python/local_client.cc:175-179 | builds trees in order up to the first failure and returns that failure or all trees |
| Transfer.BorrowStreams | tensorflow/compiler/xla/python/local_client.cc:183-188 | borrows streams in order up to the first failure and returns that failure or all streams |
| Transfer.TakeResults | tensorflow/compiler/xla/python/local_client.cc:221-224 | takes results in order: the lowest-index failure, or one distinct fresh handle per buffer in argument order |
| Transfer.BatchBarrier | tensorflow/compiler/xla/python/local_client.cc:213-223 | in the step log, every transfer is issued before any stream is waited on, and every stream is waited on before any result is taken |
| Execution.DeviceOrdinals | tensorflow/compiler/xla/python/local_client.cc:306-314 | the list has one entry per replica of the assignment, and entry i is device_assignment(i, 0) |
| Execution.ArgumentBuffers | tensorflow/compiler/xla/python/local_client.cc:329-333 | the argument list holds, in order, the buffer each handle holds |
| Execution.Execute | tensorflow/compiler/xla/python/local_client.cc:316-348 | unless the replica count is 1, InvalidArgument naming it, whatever the handles hold. Otherwise the program runs on the handles' buffers with the device of replica 0 and the assignment. Its failure is returned unchanged; its buffer comes back in a fresh handle |
| Execution.CheckReplicaArguments | tensorflow/compiler/xla/python/local_client.cc:355-364 | accepts exactly when there is one argument list per replica and no more lists than devices. Otherwise InvalidArgument: a count mismatch reports the argument count and the replica count, an excess reports the argument count and the device count |
| Execution.CheckReplicaArgumentsAsWritten | tensorflow/compiler/xla/python/local_client.cc:355-364 | accepts the same inputs as the corrected guard, but its count-mismatch message reports the device count |
| Execution.ReplicaCountMessageMisreports | tensorflow/compiler/xla/python/local_client.cc:355-358 | one argument list, two replicas and four devices give a message claiming the replica count is 4 |
| Execution.CheckReplicaArgumentsAgree | tensorflow/compiler/xla/python/local_client.cc:355-364 | the corrected guard and the guard as written accept the same inputs |
| Execution.NoFailureRecorded | tensorflow/compiler/xla/python/local_client.cc:415-422 | the monitor counts no failure exactly when no completion so far failed, and exactly when its first-failure status is still Ok |
| Execution.FirstFailureSticks | tensorflow/compiler/xla/python/local_client.cc:417-420 | once a failure follows only successes, the monitor's first-failure status is that failure from then on, and its count is positive |
| Execution.CompletionMonitor.constructor | tensorflow/compiler/xla/python/local_client.cc:406-409 | the monitor starts with every replica running, no failure and an Ok first-failure status |
| Execution.CompletionMonitor.DoneRunningOrFailed | tensorflow/compiler/xla/python/local_client.cc:426-429 | on a valid monitor, the coordinator's wake-up condition holds exactly when every launched replica has completed or some completion failed |
| Execution.CompletionMonitor.DoneRunning | tensorflow/compiler/xla/python/local_client.cc:433-436 | on a valid monitor, the condition waited for after a failure holds exactly when every launched replica has completed |
| Execution.CompletionMonitor.Complete | tensorflow/compiler/xla/python/local_client.cc:415-422 | each replica completes once. A completion lowers running by one and raises failed by one on failure. The first-failure status is set only when failed was 0. The monitor's invariant ties the counters to the completion log |
| Execution.GatherArguments | tensorflow/compiler/xla/python/local_client.cc:374-378 | every replica's argument list holds the buffers of its handles |
| Execution.RunScheduled | tensorflow/compiler/xla/python/local_client.cc:412-423 | the next replica in completion order runs on its own device, its result lands in its own slot, and the monitor records its completion |
| Execution.AwaitFirstFailure | tensorflow/compiler/xla/python/local_client.cc:426-431 | the coordinator wakes when all replicas have finished, or when one has failed; that replica is then the first failure in completion order, and the monitor holds its status |
| Execution.FinishRemaining | tensorflow/compiler/xla/python/local_client.cc:432-450 | when the rest of the replicas finish, the monitor has recorded all of them in completion order and `running` is 0, the condition the coordinator waits for; every replica's slot holds its own result |
| Execution.MonitorReplicas | tensorflow/compiler/xla/python/local_client.cc:405-451 | the call aborts exactly when a replica fails while others still run and they miss the grace period. The abort carries the first failure in completion order. Otherwise every replica's result is returned in replica order |
| Execution.FailureInEitherOrder | tensorflow/compiler/xla/python/local_client.cc:411-468 | some replica fails in completion order exactly when some replica fails in replica order |
| Execution.WrapReplicaResults | tensorflow/compiler/xla/python/local_client.cc:454-468 | the lowest-index failing replica's error annotated with its replica number, or one distinct fresh handle per replica in replica order |
| Execution.ExecutePerReplica | tensorflow/compiler/xla/python/local_client.cc:350-469 | a failing guard is returned as the error, whatever the handles hold; the count-mismatch message is the corrected one, reporting the replica count. Otherwise the call aborts exactly when the first replica to fail, in completion order, is not the last to finish and the others miss the grace period, and the abort carries that failure. If it does not abort, the result is the lowest-index replica failure annotated with its index, or every replica's buffer in a fresh handle in replica order |

## Left out

- Python bindings, the interpreter lock, profiler traces and logging carry no behaviour to state.
- `RegisterCpuCustomCallTarget` is left out: it feeds a global registry that is not part of this model.
- `PyLocalClient::Get` and the client constructor are left out: they do a platform lookup and create threads.
- `TransferToInfeed` and `TransferFromOutfeed` are left out: they are thin wrappers over the device client.
- `PyLocalBuffer::ToPython` is left out: it is a device-to-host copy followed by conversion to a host-language value.
- `PyLocalBuffer::FromPython` (the single-value transfer) is left out. Its transfer step is `Transfer.TransferHostToDeviceAsync`. The tree build and stream borrow around it are the per-item first two steps of `Transfer.FromPythonValues`.
- `PyLocalExecutable::Compile` is left out: the compiler, the computation placer and layout assignment are outside this model.
- Device I/O is opaque: stream writes, `BlockHostUntilDone`, tuple index tables and literal copies.
  - `BlockHostUntilDone` appears only as a step in the batch log.
  - Copies appear as `LeafCopy` values handed to the backend.
- Thread pools, `BlockingCounter`, mutexes, condition waits and wall-clock time are not modelled.
  - Replica completions arrive one at a time, in a given order.
  - The grace period is the `finishedInTime` flag.
  - `LOG(FATAL)` is the `Aborted` outcome.
- Transfer.FromPythonValues: issues the per-item transfers one after another in item order. The source runs item 0 on the caller and the others on a thread pool. No outcome depends on this order.
- Execution.AwaitFirstFailure: wakes the coordinator exactly at the first failure. With real threads, more replicas may finish before it wakes. This does not change what the call returns, and the abort still depends only on the grace-period flag.
- Execution.GatherArguments: all argument lists are gathered before any replica runs. The source gathers each replica's list inside its task. Handles are not touched during execution, so the lists are the same.
- Freeing device memory when a scoped buffer is dropped is not modelled. What `DestructureTuple` leaves in the released parent is stated instead, as its ghost `remainder`.
- The host shape of a leaf and `HostShapeToDeviceShape` are not modelled. A leaf copy carries the on-device leaf shape only.
- Platform, allocator, thread-pool device and the owning client are not modelled. They are carried by buffers and run options but never inspected by the modelled code.
- `num_replicas()` is declared in a header that is not part of this model. It is taken to equal the device assignment's replica count (`Executable.Valid`). The source builds the assignment for that many replicas and one computation.
- Execution.ExecutePerReplica: returns the corrected count-mismatch message, `ReplicaCountMismatch(arguments, replicas)`. The source reports the device count there (see Findings). `Execution.CheckReplicaArgumentsAgree` shows the two guards fail on the same inputs, so only the reported number differs.
- Buffers.LocalBuffer.Release, Buffers.LocalBuffer.DestructureTuple, Execution.Execute and Execution.ExecutePerReplica require a handle that still holds a buffer wherever they read it. In the source, `Release` dereferences the empty optional, which is undefined behaviour. `shaped_buffer()` calls `value()` on it (232), which aborts. Neither outcome is modelled. `Execute` with a replica count other than 1, and `ExecutePerReplica` with a failing guard, read no handle and accept empty ones.
- Error messages are structured `Reason` values. The number formatting and message text of the source are not modelled.

## Findings

| source | as written | input that shows it | evidently intended | confidence | as-written member | corrected member |
|---|---|---|---|---|---|---|
| tensorflow/compiler/xla/python/local_client.cc:355-358 | the message "Attempted to execute with %d replicas when replica count is %d" is given the device count as its second number | 1 argument list, 2 replicas, 4 devices: the message says the replica count is 4 | the second number is the replica count, 2 | high (not executed) | Execution.CheckReplicaArgumentsAsWritten, Execution.ReplicaCountMessageMisreports | Execution.CheckReplicaArguments |
