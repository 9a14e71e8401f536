/** Execution of a compiled program (PyLocalExecutable): the single-replica
    Execute, the replicated ExecutePerReplica with its completion monitor, and
    the replica-to-device table. Running the program is a call into the
    backend; its result for given arguments and options is taken as given. */
module Execution {
  import opened Errors
  import opened Shapes
  import opened Seqs
  import opened Buffers

  /** The device assignment: row `r` lists the devices of replica `r`, one per
      computation. */
  datatype DeviceAssignment = DeviceAssignment(replicaCount: nat, computationCount: nat, ordinals: seq<seq<int>>)
  {
    predicate Valid()
    {
      |ordinals| == replicaCount &&
      forall r :: 0 <= r < replicaCount ==> |ordinals[r]| == computationCount
    }

    /** device_assignment(replica, computation) */
    function At(replica: nat, computation: nat): int
      requires Valid() && replica < replicaCount && computation < computationCount
    {
      ordinals[replica][computation]
    }
  }

  /** What a replica's run is given besides its arguments. */
  datatype RunOptions = RunOptions(deviceOrdinal: int, assignment: DeviceAssignment)

  /** A compiled executable: its replica count, its device assignment (built
      for that many replicas and one computation), the device count of its
      client, and the backend's run of the compiled program. */
  datatype Executable = Executable(
    numReplicas: nat,
    assignment: DeviceAssignment,
    deviceCount: nat,
    program: (seq<ScopedShapedBuffer>, RunOptions) -> StatusOr<ScopedShapedBuffer>)
  {
    predicate Valid()
    {
      assignment.Valid() && assignment.replicaCount == numReplicas && assignment.computationCount == 1
    }
  }

  /** DeviceOrdinals: the device of every replica, in replica order. */
  method DeviceOrdinals(assignment: DeviceAssignment) returns (ordinals: seq<int>)
    requires assignment.Valid() && assignment.computationCount >= 1
    ensures |ordinals| == assignment.replicaCount
    ensures forall r :: 0 <= r < |ordinals| ==> ordinals[r] == assignment.At(r, 0)
  {
    ordinals := [];
    for r := 0 to assignment.replicaCount
      invariant |ordinals| == r
      invariant forall j :: 0 <= j < r ==> ordinals[j] == assignment.At(j, 0)
    {
      ordinals := ordinals + [assignment.At(r, 0)];
    }
  }

  ghost predicate HoldBuffers(handles: seq<LocalBuffer>)
    reads set h | h in handles
  {
    forall h :: h in handles ==> h.shapedBuffer.Some?
  }

  /** The buffers a list of argument handles holds. */
  ghost function HeldBuffers(handles: seq<LocalBuffer>): (r: seq<ScopedShapedBuffer>)
    reads set h | h in handles
    requires HoldBuffers(handles)
    ensures |r| == |handles|
  {
    seq(|handles|, i reads set h | h in handles requires 0 <= i < |handles| && HoldBuffers(handles) =>
          handles[i].shapedBuffer.value)
  }

  /** Gathers the buffers of the argument handles, in order. */
  method ArgumentBuffers(handles: seq<LocalBuffer>) returns (buffers: seq<ScopedShapedBuffer>)
    requires forall i :: 0 <= i < |handles| ==> handles[i].shapedBuffer.Some?
    ensures |buffers| == |handles|
    ensures forall i :: 0 <= i < |handles| ==> Some(buffers[i]) == handles[i].shapedBuffer
  {
    buffers := [];
    for i := 0 to |handles|
      invariant |buffers| == i
      invariant forall j :: 0 <= j < i ==> Some(buffers[j]) == handles[j].shapedBuffer
    {
      buffers := buffers + [handles[i].shapedBuffer.value];
    }
  }

  /** Execute: runs a single-replica executable on the device of replica 0. */
  method Execute(exe: Executable, handles: seq<LocalBuffer>) returns (r: StatusOr<LocalBuffer>)
    requires exe.Valid()
    requires exe.numReplicas == 1 ==> forall i :: 0 <= i < |handles| ==> handles[i].shapedBuffer.Some?
    ensures exe.numReplicas != 1 ==>
              r == Failure(Error(InvalidArgument, ExecuteWithReplicas(exe.numReplicas), []))
    ensures exe.numReplicas == 1 ==>
              var run := exe.program(HeldBuffers(handles), RunOptions(exe.assignment.At(0, 0), exe.assignment));
              && (run.Failure? ==> r == Failure(run.error))
              && (run.Value? ==> r.Value? && fresh(r.value) && r.value.shapedBuffer == Some(run.value))
  {
    if exe.numReplicas != 1 {
      r := Failure(Error(InvalidArgument, ExecuteWithReplicas(exe.numReplicas), []));
      return;
    }
    var deviceOrdinal := exe.assignment.At(0, 0);
    var arguments := ArgumentBuffers(handles);
    assert arguments == HeldBuffers(handles);
    var result := exe.program(arguments, RunOptions(deviceOrdinal, exe.assignment));
    if result.Failure? {
      r := Failure(result.error);
      return;
    }
    var handle := new LocalBuffer(result.value);
    r := Value(handle);
  }

  /** The guard of ExecutePerReplica as the source writes it: the first
      message names the device count where it promises the replica count. */
  function CheckReplicaArgumentsAsWritten(numArguments: nat, numReplicas: nat, numDevices: nat): (s: Status)
    ensures s.Ok? <==> numArguments == numReplicas && numArguments <= numDevices
    ensures s.Fail? ==> s.error.code == InvalidArgument && s.error.notes == []
    ensures s.Fail? && s.error.reason.ReplicaCountMismatch? ==> s.error.reason.reported == numDevices
  {
    if numArguments != numReplicas then
      Fail(Error(InvalidArgument, ReplicaCountMismatch(numArguments, numDevices), []))
    else if numArguments > numDevices then
      Fail(Error(InvalidArgument, DeviceCountExceeded(numArguments, numDevices), []))
    else Ok
  }

  /** One argument list for an executable of two replicas on a client with
      four devices: the message claims a replica count of four. */
  lemma ReplicaCountMessageMisreports()
    ensures CheckReplicaArgumentsAsWritten(1, 2, 4) ==
              Fail(Error(InvalidArgument, ReplicaCountMismatch(1, 4), []))
    ensures CheckReplicaArgumentsAsWritten(1, 2, 4).error.reason.reported != 2
  {
  }

  /** The guard of ExecutePerReplica: one argument list per replica, and no
      more replicas than devices; each message reports the count it names. */
  function CheckReplicaArguments(numArguments: nat, numReplicas: nat, numDevices: nat): (s: Status)
    ensures s.Ok? <==> numArguments == numReplicas && numArguments <= numDevices
    ensures s.Fail? ==> s.error.code == InvalidArgument && s.error.notes == []
    ensures s.Fail? ==> (s.error.reason.ReplicaCountMismatch? <==> numArguments != numReplicas)
    ensures s.Fail? && s.error.reason.ReplicaCountMismatch? ==>
              s.error.reason == ReplicaCountMismatch(numArguments, numReplicas)
    ensures s.Fail? && !s.error.reason.ReplicaCountMismatch? ==>
              s.error.reason == DeviceCountExceeded(numArguments, numDevices)
  {
    if numArguments != numReplicas then
      Fail(Error(InvalidArgument, ReplicaCountMismatch(numArguments, numReplicas), []))
    else if numArguments > numDevices then
      Fail(Error(InvalidArgument, DeviceCountExceeded(numArguments, numDevices), []))
    else Ok
  }

  /** The two guards accept and reject the same argument counts. */
  lemma CheckReplicaArgumentsAgree(numArguments: nat, numReplicas: nat, numDevices: nat)
    ensures CheckReplicaArguments(numArguments, numReplicas, numDevices).Ok? ==
            CheckReplicaArgumentsAsWritten(numArguments, numReplicas, numDevices).Ok?
  {
  }

  // ---------------------------------------------------------------------
  // The completion monitor

  /** A replica's completion as the monitor records it. */
  datatype Completion = Completion(replica: nat, status: Status)

  /** The number of failed completions in `log`. */
  function CountFailed(log: seq<Completion>): nat
  {
    if log == [] then 0
    else CountFailed(log[..|log| - 1]) + (if log[|log| - 1].status.Fail? then 1 else 0)
  }

  /** The status of the first failed completion in `log`, or Ok. */
  function FirstFailedStatus(log: seq<Completion>): Status
  {
    if log == [] then Ok
    else
      var before := FirstFailedStatus(log[..|log| - 1]);
      if before.Fail? then before else log[|log| - 1].status
  }

  /** The monitor counts no failure exactly when no completion failed, and
      then keeps the initial Ok status. */
  lemma {:induction false} NoFailureRecorded(log: seq<Completion>)
    ensures CountFailed(log) == 0 <==> forall k :: 0 <= k < |log| ==> log[k].status.Ok?
    ensures CountFailed(log) == 0 <==> FirstFailedStatus(log).Ok?
  {
    if log != [] {
      var front := log[..|log| - 1];
      NoFailureRecorded(front);
      assert forall k :: 0 <= k < |front| ==> front[k] == log[k];
    }
  }

  /** Once a completion at position `k` has failed after only successes, the
      monitor's first failure is that completion's status for good. */
  lemma {:induction false} FirstFailureSticks(log: seq<Completion>, k: nat)
    requires k < |log| && log[k].status.Fail?
    requires forall j :: 0 <= j < k ==> log[j].status.Ok?
    ensures FirstFailedStatus(log) == log[k].status
    ensures CountFailed(log) > 0
  {
    var front := log[..|log| - 1];
    assert forall j :: 0 <= j < |front| ==> front[j] == log[j];
    if k < |log| - 1 {
      FirstFailureSticks(front, k);
    } else {
      NoFailureRecorded(front);
    }
  }

  /** The state the replicas share: how many still run, how many failed, and
      the status of the first failure. `log` records the completions so far
      and `replicas` how many were launched. */
  class CompletionMonitor {
    var running: int
    var failed: int
    var firstFailureStatus: Status
    ghost var log: seq<Completion>
    ghost var replicas: nat

    ghost predicate Valid()
      reads this
    {
      && running == replicas - |log|
      && failed == CountFailed(log)
      && firstFailureStatus == FirstFailedStatus(log)
      && (forall k :: 0 <= k < |log| ==> log[k].replica < replicas)
      && (forall j, k :: 0 <= j < k < |log| ==> log[j].replica != log[k].replica)
    }

    constructor (n: nat)
      ensures Valid() && replicas == n && log == []
      ensures running == n && failed == 0 && firstFailureStatus == Ok
    {
      running := n;
      failed := 0;
      firstFailureStatus := Ok;
      log := [];
      replicas := n;
    }

    /** The coordinator's wake-up condition: every launched replica has
        completed, or some completion failed. */
    predicate DoneRunningOrFailed(): (b: bool)
      reads this
      ensures Valid() ==>
                (b <==> |log| == replicas || exists k :: 0 <= k < |log| && log[k].status.Fail?)
    {
      NoFailureRecorded(log);
      running == 0 || failed > 0
    }

    /** The condition the coordinator waits for, with a time limit, after a
        failure: every launched replica has completed. */
    predicate DoneRunning(): (b: bool)
      reads this
      ensures Valid() ==> (b <==> |log| == replicas)
    {
      running == 0
    }

    /** One replica finishing with `status`; each replica finishes once. */
    method Complete(replica: nat, status: Status)
      requires Valid() && replica < replicas
      requires forall k :: 0 <= k < |log| ==> log[k].replica != replica
      modifies this
      ensures Valid() && replicas == old(replicas)
      ensures log == old(log) + [Completion(replica, status)]
      ensures running == old(running) - 1
      ensures failed == old(failed) + (if status.Fail? then 1 else 0)
      ensures firstFailureStatus == if old(failed) == 0 && status.Fail? then status else old(firstFailureStatus)
    {
      NoFailureRecorded(log);
      running := running - 1;
      if status.Fail? {
        if failed == 0 {
          firstFailureStatus := status;
        }
        failed := failed + 1;
      }
      log := log + [Completion(replica, status)];
      assert log[..|log| - 1] == old(log);
    }
  }

  // ---------------------------------------------------------------------
  // Replicated execution

  /** The outcome of ExecutePerReplica: a returned result, or the process
      abort taken when a replica failed and the others did not all finish
      within the grace period. */
  datatype ExecutionOutcome = Completed(result: StatusOr<seq<LocalBuffer>>) | Aborted(failure: Error)

  /** The completion order of a replicated run: every replica exactly once. */
  predicate IsSchedule(order: seq<nat>, n: nat)
  {
    && |order| == n
    && (forall k :: 0 <= k < n ==> order[k] < n)
    && (forall r :: 0 <= r < n ==> r in order)
    && NoDuplicates(order)
  }

  ghost predicate AllHoldBuffers(argumentHandles: seq<seq<LocalBuffer>>)
    reads set r, h | 0 <= r < |argumentHandles| && h in argumentHandles[r] :: h
  {
    forall r, h :: 0 <= r < |argumentHandles| && h in argumentHandles[r] ==> h.shapedBuffer.Some?
  }

  /** The buffers every replica's argument handles hold. */
  ghost function HeldArguments(argumentHandles: seq<seq<LocalBuffer>>): (r: seq<seq<ScopedShapedBuffer>>)
    reads set r, h | 0 <= r < |argumentHandles| && h in argumentHandles[r] :: h
    requires AllHoldBuffers(argumentHandles)
    ensures |r| == |argumentHandles|
  {
    seq(|argumentHandles|, i reads set r, h | 0 <= r < |argumentHandles| && h in argumentHandles[r] :: h
                             requires 0 <= i < |argumentHandles| && AllHoldBuffers(argumentHandles) =>
          HeldBuffers(argumentHandles[i]))
  }

  /** Gathers the argument buffers of every replica. */
  method GatherArguments(argumentHandles: seq<seq<LocalBuffer>>) returns (arguments: seq<seq<ScopedShapedBuffer>>)
    requires AllHoldBuffers(argumentHandles)
    ensures arguments == HeldArguments(argumentHandles)
  {
    arguments := [];
    for r := 0 to |argumentHandles|
      invariant |arguments| == r
      invariant forall j :: 0 <= j < r ==> arguments[j] == HeldBuffers(argumentHandles[j])
    {
      var handles := argumentHandles[r];
      assert forall i :: 0 <= i < |handles| ==> handles[i] in handles;
      var buffers := ArgumentBuffers(handles);
      assert buffers == HeldBuffers(handles);
      arguments := arguments + [buffers];
    }
  }

  /** What replica `replica` returns: the program run on its arguments and on
      its own device. */
  function ReplicaResult(exe: Executable, arguments: seq<seq<ScopedShapedBuffer>>, replica: nat): StatusOr<ScopedShapedBuffer>
    requires exe.Valid() && replica < exe.numReplicas && replica < |arguments|
  {
    exe.program(arguments[replica], RunOptions(exe.assignment.At(replica, 0), exe.assignment))
  }

  /** Every replica's result, in replica order. */
  function ReplicaResults(exe: Executable, arguments: seq<seq<ScopedShapedBuffer>>): (r: seq<StatusOr<ScopedShapedBuffer>>)
    requires exe.Valid() && |arguments| == exe.numReplicas
    ensures |r| == exe.numReplicas
    ensures forall i :: 0 <= i < exe.numReplicas ==> r[i] == ReplicaResult(exe, arguments, i)
  {
    seq(exe.numReplicas, i requires 0 <= i < exe.numReplicas => ReplicaResult(exe, arguments, i))
  }

  /** The replicas' results in the order they complete. */
  function ResultsInCompletionOrder(exe: Executable, arguments: seq<seq<ScopedShapedBuffer>>, order: seq<nat>)
    : (r: seq<StatusOr<ScopedShapedBuffer>>)
    requires exe.Valid() && |arguments| == exe.numReplicas && IsSchedule(order, exe.numReplicas)
    ensures |r| == |order|
    ensures forall k :: 0 <= k < |order| ==> r[k] == ReplicaResult(exe, arguments, order[k])
  {
    seq(|order|, k requires 0 <= k < |order| => ReplicaResult(exe, arguments, order[k]))
  }

  /** The monitor's record after the first `k` completions of `order`. */
  function Completions(order: seq<nat>, inOrder: seq<StatusOr<ScopedShapedBuffer>>, k: nat): (log: seq<Completion>)
    requires k <= |order| && k <= |inOrder|
    ensures |log| == k
    ensures forall j :: 0 <= j < k ==> log[j] == Completion(order[j], StatusOf(inOrder[j]))
  {
    seq(k, j requires 0 <= j < k => Completion(order[j], StatusOf(inOrder[j])))
  }

  /** Some replica fails in completion order exactly when some replica fails
      in replica order: the abort and the returned error both come from a
      failing replica, whatever the order. */
  lemma FailureInEitherOrder(exe: Executable, arguments: seq<seq<ScopedShapedBuffer>>, order: seq<nat>)
    requires exe.Valid() && |arguments| == exe.numReplicas && IsSchedule(order, exe.numReplicas)
    ensures FirstFailure(ResultsInCompletionOrder(exe, arguments, order)) < exe.numReplicas <==>
            FirstFailure(ReplicaResults(exe, arguments)) < exe.numReplicas
  {
    var inOrder := ResultsInCompletionOrder(exe, arguments, order);
    var results := ReplicaResults(exe, arguments);
    var p := FirstFailure(inOrder);
    var f := FirstFailure(results);
    if p < exe.numReplicas {
      assert results[order[p]].Failure?;
    }
    if f < exe.numReplicas {
      assert f in order;
      var j :| 0 <= j < |order| && order[j] == f;
      assert inOrder[j].Failure?;
    }
  }

  /** The `k`-th replica of the schedule runs on its device, stores its result
      in its own slot and reports its status to the monitor. `inOrder` is the
      replicas' results in completion order. */
  method RunScheduled(exe: Executable, arguments: seq<seq<ScopedShapedBuffer>>, order: seq<nat>,
                      ghost inOrder: seq<StatusOr<ScopedShapedBuffer>>, k: nat,
                      monitor: CompletionMonitor, results: seq<StatusOr<ScopedShapedBuffer>>)
    returns (results': seq<StatusOr<ScopedShapedBuffer>>)
    requires exe.Valid() && |arguments| == exe.numReplicas
    requires IsSchedule(order, exe.numReplicas) && k < exe.numReplicas
    requires inOrder == ResultsInCompletionOrder(exe, arguments, order)
    requires monitor.Valid() && monitor.replicas == exe.numReplicas
    requires monitor.log == Completions(order, inOrder, k)
    requires |results| == exe.numReplicas
    requires forall j :: 0 <= j < k ==> results[order[j]] == inOrder[j]
    modifies monitor
    ensures monitor.Valid() && monitor.replicas == exe.numReplicas
    ensures monitor.log == Completions(order, inOrder, k + 1)
    ensures monitor.failed == old(monitor.failed) + (if inOrder[k].Failure? then 1 else 0)
    ensures |results'| == exe.numReplicas
    ensures forall j :: 0 <= j < k + 1 ==> results'[order[j]] == inOrder[j]
  {
    var replica := order[k];
    var result := exe.program(arguments[replica], RunOptions(exe.assignment.At(replica, 0), exe.assignment));
    results' := results[replica := result];
    forall j | 0 <= j < k ensures results'[order[j]] == inOrder[j] {
      assert order[j] != replica;
    }
    monitor.Complete(replica, StatusOf(result));
    assert monitor.log == Completions(order, inOrder, k + 1);
  }

  /** The replicas run until the coordinator wakes: all have finished, or
      one has failed, after only successes. */
  method AwaitFirstFailure(exe: Executable, arguments: seq<seq<ScopedShapedBuffer>>, order: seq<nat>,
                           ghost inOrder: seq<StatusOr<ScopedShapedBuffer>>, monitor: CompletionMonitor)
    returns (k: nat, results: seq<StatusOr<ScopedShapedBuffer>>)
    requires exe.Valid() && |arguments| == exe.numReplicas
    requires IsSchedule(order, exe.numReplicas)
    requires inOrder == ResultsInCompletionOrder(exe, arguments, order)
    requires monitor.Valid() && monitor.replicas == exe.numReplicas && monitor.log == []
    modifies monitor
    ensures monitor.Valid() && monitor.replicas == exe.numReplicas
    ensures k <= exe.numReplicas && monitor.log == Completions(order, inOrder, k)
    ensures |results| == exe.numReplicas && forall j :: 0 <= j < k ==> results[order[j]] == inOrder[j]
    ensures forall j :: 0 <= j && j + 1 < k ==> inOrder[j].Value?
    ensures monitor.failed == 0 ==> k == exe.numReplicas && forall j :: 0 <= j < k ==> inOrder[j].Value?
    ensures monitor.failed > 0 ==> k > 0 && inOrder[k - 1].Failure?
  {
    var n := exe.numReplicas;
    results := seq(n, _ => Failure(Error(Unknown, NotInitialized, [])));
    k := 0;
    while k < n && !monitor.DoneRunningOrFailed()
      invariant 0 <= k <= n
      invariant monitor.Valid() && monitor.replicas == n
      invariant monitor.log == Completions(order, inOrder, k)
      invariant |results| == n && forall j :: 0 <= j < k ==> results[order[j]] == inOrder[j]
      invariant forall j :: 0 <= j && j + 1 < k ==> inOrder[j].Value?
      invariant monitor.failed == 0 ==> forall j :: 0 <= j < k ==> inOrder[j].Value?
      invariant monitor.failed > 0 ==> k > 0 && inOrder[k - 1].Failure?
      decreases n - k
    {
      results := RunScheduled(exe, arguments, order, inOrder, k, monitor, results);
      k := k + 1;
    }
  }

  /** When the `k`-th completion is the first failure, the monitor's record
      of the first `k` completions holds that failure's status. */
  lemma WokenByFailure(order: seq<nat>, inOrder: seq<StatusOr<ScopedShapedBuffer>>, k: nat)
    requires 0 < k <= |order| && |inOrder| == |order|
    requires forall j :: 0 <= j && j + 1 < k ==> inOrder[j].Value?
    requires inOrder[k - 1].Failure?
    ensures FirstFailure(inOrder) == k - 1
    ensures FirstFailedStatus(Completions(order, inOrder, k)) == Fail(inOrder[k - 1].error)
  {
    FirstFailureUnique(inOrder, k - 1);
    FirstFailureSticks(Completions(order, inOrder, k), k - 1);
  }

  /** The remaining replicas of the schedule run to completion; then every
      replica's slot holds its result. */
  method FinishRemaining(exe: Executable, arguments: seq<seq<ScopedShapedBuffer>>, order: seq<nat>,
                         ghost inOrder: seq<StatusOr<ScopedShapedBuffer>>, k: nat,
                         monitor: CompletionMonitor, results: seq<StatusOr<ScopedShapedBuffer>>)
    returns (results': seq<StatusOr<ScopedShapedBuffer>>)
    requires exe.Valid() && |arguments| == exe.numReplicas
    requires IsSchedule(order, exe.numReplicas) && k <= exe.numReplicas
    requires inOrder == ResultsInCompletionOrder(exe, arguments, order)
    requires monitor.Valid() && monitor.replicas == exe.numReplicas
    requires monitor.log == Completions(order, inOrder, k)
    requires |results| == exe.numReplicas
    requires forall j :: 0 <= j < k ==> results[order[j]] == inOrder[j]
    modifies monitor
    ensures monitor.Valid() && monitor.replicas == exe.numReplicas
    ensures monitor.log == Completions(order, inOrder, exe.numReplicas) && monitor.DoneRunning()
    ensures results' == ReplicaResults(exe, arguments)
  {
    var n := exe.numReplicas;
    var i := k;
    results' := results;
    while i < n
      invariant k <= i <= n
      invariant monitor.Valid() && monitor.replicas == n
      invariant monitor.log == Completions(order, inOrder, i)
      invariant |results'| == n && forall j :: 0 <= j < i ==> results'[order[j]] == inOrder[j]
    {
      results' := RunScheduled(exe, arguments, order, inOrder, i, monitor, results');
      i := i + 1;
    }
    forall r | 0 <= r < n ensures results'[r] == ReplicaResult(exe, arguments, r) {
      assert r in order;
      var j :| 0 <= j < n && order[j] == r;
    }
  }

  /** The replicas of a run of more than one replica, finishing in the order
      `order`, and the coordinator's wait for them: it wakes when all have
      finished or one has failed; after a failure it waits for the rest with a
      time limit, and `finishedInTime` says whether they made it. Returns the
      error to abort with, or every replica's result in replica order. */
  method MonitorReplicas(exe: Executable, arguments: seq<seq<ScopedShapedBuffer>>, order: seq<nat>, finishedInTime: bool)
    returns (abort: Option<Error>, results: seq<StatusOr<ScopedShapedBuffer>>)
    requires exe.Valid() && |arguments| == exe.numReplicas
    requires IsSchedule(order, exe.numReplicas)
    ensures var inOrder := ResultsInCompletionOrder(exe, arguments, order);
            var p := FirstFailure(inOrder);
            && (abort.Some? <==> p + 1 < exe.numReplicas && !finishedInTime)
            && (abort.Some? ==> abort.value == inOrder[p].error)
    ensures abort.None? ==> results == ReplicaResults(exe, arguments)
  {
    ghost var inOrder := ResultsInCompletionOrder(exe, arguments, order);
    var monitor := new CompletionMonitor(exe.numReplicas);
    var k;
    k, results := AwaitFirstFailure(exe, arguments, order, inOrder, monitor);
    if monitor.failed > 0 {
      WokenByFailure(order, inOrder, k);
    } else {
      FirstFailureUnique(inOrder, k);
    }
    if monitor.failed > 0 && !monitor.DoneRunning() && !finishedInTime {
      abort := Some(monitor.firstFailureStatus.error);
      return;
    }
    abort := None;
    results := FinishRemaining(exe, arguments, order, inOrder, k, monitor, results);
  }

  /** The last step of ExecutePerReplica: the first failing replica's error,
      annotated with its replica number, or one fresh handle per result in
      replica order. */
  method WrapReplicaResults(results: seq<StatusOr<ScopedShapedBuffer>>) returns (r: StatusOr<seq<LocalBuffer>>)
    ensures var f := FirstFailure(results);
            && (f < |results| ==> r == Failure(Annotate(results[f].error, WhileRunningReplica(f))))
            && (f == |results| ==>
                  r.Value? && |r.value| == |results| && NoDuplicates(r.value) &&
                  forall i :: 0 <= i < |results| ==>
                    fresh(r.value[i]) && r.value[i].shapedBuffer == Some(results[i].value))
  {
    var wrapped: seq<LocalBuffer> := [];
    for replica := 0 to |results|
      invariant |wrapped| == replica
      invariant forall j :: 0 <= j < replica ==> results[j].Value?
      invariant forall j :: 0 <= j < replica ==> fresh(wrapped[j]) && wrapped[j].shapedBuffer == Some(results[j].value)
      invariant NoDuplicates(wrapped)
    {
      if results[replica].Failure? {
        FirstFailureUnique(results, replica);
        r := Failure(Annotate(results[replica].error, WhileRunningReplica(replica)));
        return;
      }
      var handle := new LocalBuffer(results[replica].value);
      AppendDistinct(wrapped, handle);
      wrapped := wrapped + [handle];
    }
    FirstFailureUnique(results, |results|);
    r := Value(wrapped);
  }

  /** ExecutePerReplica: the argument-count guard, then one replica run
      directly or several under the completion monitor, then the results in
      replica order or the first failure; or the process aborts. */
  method ExecutePerReplica(exe: Executable, argumentHandles: seq<seq<LocalBuffer>>, order: seq<nat>, finishedInTime: bool)
    returns (out: ExecutionOutcome)
    requires exe.Valid()
    requires CheckReplicaArguments(|argumentHandles|, exe.numReplicas, exe.deviceCount).Ok? ==> AllHoldBuffers(argumentHandles)
    requires IsSchedule(order, exe.numReplicas)
    ensures var guard := CheckReplicaArguments(|argumentHandles|, exe.numReplicas, exe.deviceCount);
            guard.Fail? ==> out == Completed(Failure(guard.error))
    ensures CheckReplicaArguments(|argumentHandles|, exe.numReplicas, exe.deviceCount).Ok? ==>
              var inOrder := ResultsInCompletionOrder(exe, HeldArguments(argumentHandles), order);
              var p := FirstFailure(inOrder);
              && (out.Aborted? <==> p + 1 < exe.numReplicas && !finishedInTime)
              && (out.Aborted? ==> out.failure == inOrder[p].error)
    ensures CheckReplicaArguments(|argumentHandles|, exe.numReplicas, exe.deviceCount).Ok? && out.Completed? ==>
              var results := ReplicaResults(exe, HeldArguments(argumentHandles));
              var f := FirstFailure(results);
              && (f < |results| ==> out.result == Failure(Annotate(results[f].error, WhileRunningReplica(f))))
              && (f == |results| ==>
                    out.result.Value? && |out.result.value| == |results| && NoDuplicates(out.result.value) &&
                    forall i :: 0 <= i < |results| ==>
                      fresh(out.result.value[i]) && out.result.value[i].shapedBuffer == Some(results[i].value))
  {
    var guard := CheckReplicaArguments(|argumentHandles|, exe.numReplicas, exe.deviceCount);
    if guard.Fail? {
      out := Completed(Failure(guard.error));
      return;
    }
    var arguments := GatherArguments(argumentHandles);
    var results: seq<StatusOr<ScopedShapedBuffer>>;
    if exe.numReplicas == 1 {
      results := [exe.program(arguments[0], RunOptions(exe.assignment.At(0, 0), exe.assignment))];
      assert results == ReplicaResults(exe, arguments);
      assert order == [0] by {
        assert 0 in order;
      }
    } else {
      var abort;
      abort, results := MonitorReplicas(exe, arguments, order, finishedInTime);
      if abort.Some? {
        out := Aborted(abort.value);
        return;
      }
    }
    var result := WrapReplicaResults(results);
    out := Completed(result);
  }
}
