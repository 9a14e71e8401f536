/** Status values of the local client: an error carries a code, a structured
    reason (the message the client formats) and the notes appended to it while
    it propagates. */
module Errors {
  import opened Shapes

  datatype Option<T> = None | Some(value: T)

  /** The subset of status codes the client produces itself; errors of the
      device backend keep whatever code the backend gave them. */
  datatype Code = InvalidArgument | Internal | Unknown | Backend(code: nat)

  /** What an error message says, without its formatting. */
  datatype Reason =
    | NotATuple(shape: Shape)
      // "Attempted to execute computation with %d replicas using Execute()"
    | ExecuteWithReplicas(replicas: nat)
      // "Attempted to execute with %d replicas when replica count is %d"
    | ReplicaCountMismatch(given: nat, reported: nat)
      // "Attempted to execute with %d replicas when device count is %d"
    | DeviceCountExceeded(given: nat, devices: nat)
      // a failed TF_RET_CHECK: the host tree has fewer leaves than the shape
    | HostLeavesExhausted
      // the status a default-constructed StatusOr holds
    | NotInitialized
      // a message produced by code outside this model
    | Opaque(id: nat)

  /** A note appended by AppendStatus. */
  datatype Note = WhileRunningReplica(replica: nat)

  datatype Error = Error(code: Code, reason: Reason, notes: seq<Note>)

  datatype Status = Ok | Fail(error: Error)

  datatype StatusOr<T> = Value(value: T) | Failure(error: Error)

  function StatusOf<T>(r: StatusOr<T>): (s: Status)
    ensures s.Ok? <==> r.Value?
    ensures r.Failure? ==> s == Fail(r.error)
  {
    match r
    case Value(_) => Ok
    case Failure(e) => Fail(e)
  }

  /** AppendStatus: the same code and reason, one more note at the end. */
  function Annotate(e: Error, note: Note): (r: Error)
    ensures r.code == e.code && r.reason == e.reason
    ensures |r.notes| == |e.notes| + 1 && r.notes[..|e.notes|] == e.notes
    ensures r.notes[|e.notes|] == note
  {
    Error(e.code, e.reason, e.notes + [note])
  }

  /** The position of the first failure in `rs`, or |rs| when every entry holds a value. */
  function FirstFailure<T>(rs: seq<StatusOr<T>>): (k: nat)
    ensures k <= |rs|
    ensures forall j :: 0 <= j < k ==> rs[j].Value?
    ensures k < |rs| ==> rs[k].Failure?
  {
    if |rs| == 0 then 0
    else if rs[0].Failure? then 0
    else 1 + FirstFailure(rs[1..])
  }

  /** FirstFailure is the only index with its two defining properties. */
  lemma FirstFailureUnique<T>(rs: seq<StatusOr<T>>, k: nat)
    requires k <= |rs|
    requires forall j :: 0 <= j < k ==> rs[j].Value?
    requires k < |rs| ==> rs[k].Failure?
    ensures k == FirstFailure(rs)
  {
  }
}
