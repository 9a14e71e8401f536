/** Host-to-device transfer: a single asynchronous transfer of a host buffer
    tree (TransferHostToDeviceAsync) and the batched transfer of several
    values (LocalBuffer::FromPythonValues). Layout choice, allocation, tuple
    index tables, literal copies, stream borrowing and the translation of host
    values into buffer trees are calls into the device backend and the host
    language; they appear here as functions whose results the model takes as
    given. */
module Transfer {
  import opened Errors
  import opened Shapes
  import opened Seqs
  import opened Buffers

  /** One leaf of host data. */
  datatype Literal = Literal(data: seq<int>)

  /** A host value taken apart: its shape and its leaves in visiting order. */
  datatype BufferTree = BufferTree(shape: Shape, leaves: seq<Literal>)

  /** A stream of a device, borrowed from the backend's stream pool. */
  datatype Stream = Stream(deviceOrdinal: int, id: nat)

  /** One asynchronous copy of a host leaf into the device memory at a leaf
      index of the allocated buffer. */
  datatype LeafCopy = LeafCopy(index: ShapeIndex, shape: Shape, literal: Literal, destination: MemId)

  /** The backend operations a transfer uses. */
  datatype TransferManager = TransferManager(
    chooseCompactLayout: Shape -> StatusOr<Shape>,
    allocate: (Shape, int) -> StatusOr<ShapeTree>,
    writeTupleIndexTables: (Stream, ScopedShapedBuffer) -> Status,
    transferLiteral: (Stream, LeafCopy) -> Status)

  /** The allocator returns a buffer with an entry at every index of the shape
      it was asked for. */
  ghost predicate AllocatesWellFormed(tm: TransferManager)
  {
    forall s, d :: tm.allocate(s, d).Value? ==> WellFormedTree(s, tm.allocate(s, d).value)
  }

  const LeavesExhausted := Error(Internal, HostLeavesExhausted, [])

  /** The k-th copy of `issued` writes host leaf k into the k-th leaf of the buffer's shape. */
  ghost predicate PairedCopies(buffer: ScopedShapedBuffer, leaves: seq<Literal>, issued: seq<LeafCopy>)
    requires buffer.Valid()
  {
    var ls := LeafShapes(buffer.onDeviceShape);
    LeafShapesExact(buffer.onDeviceShape);
    && |issued| <= |ls| && |issued| <= |leaves|
    && forall k :: 0 <= k < |issued| ==>
         issued[k] == LeafCopy(ls[k].index, ls[k].shape, leaves[k], buffer.buffers[ls[k].index])
  }

  /** What the leaf loop of a transfer did: it issued the copies in `issued`
      and ended with `st`. The k-th issued copy writes the k-th host leaf into
      the k-th leaf of the buffer's shape; the loop stops at the first copy
      that fails, or with an internal error when the host leaves run out
      before the shape's leaves do. */
  ghost predicate LeafCopiesIssued(buffer: ScopedShapedBuffer, leaves: seq<Literal>, stream: Stream,
                                   tm: TransferManager, st: Status, issued: seq<LeafCopy>)
    requires buffer.Valid()
  {
    var ls := LeafShapes(buffer.onDeviceShape);
    && PairedCopies(buffer, leaves, issued)
    && (forall k :: 0 <= k < |issued| - 1 ==> tm.transferLiteral(stream, issued[k]).Ok?)
    && (st.Ok? <==> |issued| == |ls| && forall k :: 0 <= k < |issued| ==> tm.transferLiteral(stream, issued[k]).Ok?)
    && (st.Fail? ==>
          if |issued| > 0 && tm.transferLiteral(stream, issued[|issued| - 1]).Fail?
          then st == tm.transferLiteral(stream, issued[|issued| - 1])
          else |issued| == |leaves| < |ls| && st == Fail(LeavesExhausted))
  }

  /** The leaf loop of TransferHostToDeviceAsync: walks the leaf shapes of the
      allocated buffer with an iterator over the host leaves. */
  method TransferLeaves(buffer: ScopedShapedBuffer, leaves: seq<Literal>, stream: Stream, tm: TransferManager)
    returns (st: Status, issued: seq<LeafCopy>)
    requires buffer.Valid()
    ensures LeafCopiesIssued(buffer, leaves, stream, tm, st, issued)
    ensures forall a, b :: 0 <= a < b < |issued| ==> issued[a].index != issued[b].index
  {
    var leafShapes := LeafShapes(buffer.onDeviceShape);
    issued := [];
    var it := 0;
    for k := 0 to |leafShapes|
      invariant it == k && |issued| == k && k <= |leaves|
      invariant PairedCopies(buffer, leaves, issued)
      invariant forall j :: 0 <= j < k ==> tm.transferLiteral(stream, issued[j]).Ok?
    {
      if it == |leaves| {
        st := Fail(LeavesExhausted);
        LeafLoopExhausted(buffer, leaves, stream, tm, issued);
        PairedCopiesDistinct(buffer, leaves, issued);
        return;
      }
      var indexed := leafShapes[k];
      var copy := LeafCopy(indexed.index, indexed.shape, leaves[it], buffer.buffers[indexed.index]);
      PairNext(buffer, leaves, issued);
      issued := issued + [copy];
      var s := tm.transferLiteral(stream, copy);
      if s.Fail? {
        st := s;
        LeafLoopFailed(buffer, leaves, stream, tm, issued);
        PairedCopiesDistinct(buffer, leaves, issued);
        return;
      }
      it := it + 1;
    }
    st := Ok;
    LeafLoopFinished(buffer, leaves, stream, tm, issued);
    PairedCopiesDistinct(buffer, leaves, issued);
  }

  lemma PairNext(buffer: ScopedShapedBuffer, leaves: seq<Literal>, issued: seq<LeafCopy>)
    requires buffer.Valid() && PairedCopies(buffer, leaves, issued)
    requires |issued| < |LeafShapes(buffer.onDeviceShape)| && |issued| < |leaves|
    ensures var l := LeafShapes(buffer.onDeviceShape)[|issued|];
            PairedCopies(buffer, leaves, issued + [LeafCopy(l.index, l.shape, leaves[|issued|], buffer.buffers[l.index])])
  {
    LeafShapesExact(buffer.onDeviceShape);
  }

  /** The leaf loop stops because the host leaves ran out. */
  lemma LeafLoopExhausted(buffer: ScopedShapedBuffer, leaves: seq<Literal>, stream: Stream,
                          tm: TransferManager, issued: seq<LeafCopy>)
    requires buffer.Valid() && PairedCopies(buffer, leaves, issued)
    requires |issued| == |leaves| < |LeafShapes(buffer.onDeviceShape)|
    requires forall k :: 0 <= k < |issued| ==> tm.transferLiteral(stream, issued[k]).Ok?
    ensures LeafCopiesIssued(buffer, leaves, stream, tm, Fail(LeavesExhausted), issued)
  {
  }

  /** The leaf loop stops at the failing copy it issued last. */
  lemma LeafLoopFailed(buffer: ScopedShapedBuffer, leaves: seq<Literal>, stream: Stream,
                       tm: TransferManager, issued: seq<LeafCopy>)
    requires buffer.Valid() && PairedCopies(buffer, leaves, issued) && |issued| > 0
    requires forall k :: 0 <= k < |issued| - 1 ==> tm.transferLiteral(stream, issued[k]).Ok?
    requires tm.transferLiteral(stream, issued[|issued| - 1]).Fail?
    ensures LeafCopiesIssued(buffer, leaves, stream, tm, tm.transferLiteral(stream, issued[|issued| - 1]), issued)
  {
  }

  /** The leaf loop copies every leaf. */
  lemma LeafLoopFinished(buffer: ScopedShapedBuffer, leaves: seq<Literal>, stream: Stream,
                         tm: TransferManager, issued: seq<LeafCopy>)
    requires buffer.Valid() && PairedCopies(buffer, leaves, issued)
    requires |issued| == |LeafShapes(buffer.onDeviceShape)|
    requires forall k :: 0 <= k < |issued| ==> tm.transferLiteral(stream, issued[k]).Ok?
    ensures LeafCopiesIssued(buffer, leaves, stream, tm, Ok, issued)
  {
  }

  /** The copies of the leaf loop write distinct leaf indices. */
  lemma PairedCopiesDistinct(buffer: ScopedShapedBuffer, leaves: seq<Literal>, issued: seq<LeafCopy>)
    requires buffer.Valid() && PairedCopies(buffer, leaves, issued)
    ensures forall a, b :: 0 <= a < b < |issued| ==> issued[a].index != issued[b].index
  {
    LeafShapesExact(buffer.onDeviceShape);
  }

  /** Any two outcomes of the leaf loop that LeafCopiesIssued admits are the
      same: the description fixes what the loop does. */
  lemma {:induction false} LeafCopiesDeterministic(buffer: ScopedShapedBuffer, leaves: seq<Literal>, stream: Stream,
                                                    tm: TransferManager, st1: Status, issued1: seq<LeafCopy>,
                                                    st2: Status, issued2: seq<LeafCopy>)
    requires buffer.Valid()
    requires LeafCopiesIssued(buffer, leaves, stream, tm, st1, issued1)
    requires LeafCopiesIssued(buffer, leaves, stream, tm, st2, issued2)
    ensures st1 == st2 && issued1 == issued2
  {
    LeafShapesExact(buffer.onDeviceShape);
    assert forall k :: 0 <= k < |issued1| && k < |issued2| ==> issued1[k] == issued2[k];
    if |issued1| < |issued2| {
      assert false;
    } else if |issued2| < |issued1| {
      assert false;
    }
    assert issued1 == issued2;
  }

  /** When the host tree has at least as many leaves as the shape and every
      copy succeeds, every leaf of the shape receives exactly one copy. */
  lemma LeafPairingSucceeds(buffer: ScopedShapedBuffer, leaves: seq<Literal>, stream: Stream,
                            tm: TransferManager, st: Status, issued: seq<LeafCopy>)
    requires buffer.Valid()
    requires LeafCopiesIssued(buffer, leaves, stream, tm, st, issued)
    requires |LeafShapes(buffer.onDeviceShape)| <= |leaves|
    requires forall c :: tm.transferLiteral(stream, c).Ok?
    ensures st.Ok?
    ensures |issued| == |LeafShapes(buffer.onDeviceShape)|
    ensures forall idx :: ValidIndex(buffer.onDeviceShape, idx) && Subshape(buffer.onDeviceShape, idx).Array? ==>
              exists k :: 0 <= k < |issued| && issued[k].index == idx && issued[k].literal == leaves[k]
  {
    LeafShapesExact(buffer.onDeviceShape);
  }

  /** A host tree with fewer leaves than the shape makes the transfer fail. */
  lemma LeafPairingExhausted(buffer: ScopedShapedBuffer, leaves: seq<Literal>, stream: Stream,
                             tm: TransferManager, st: Status, issued: seq<LeafCopy>)
    requires buffer.Valid()
    requires LeafCopiesIssued(buffer, leaves, stream, tm, st, issued)
    requires |leaves| < |LeafShapes(buffer.onDeviceShape)|
    ensures st.Fail?
    ensures (forall c :: tm.transferLiteral(stream, c).Ok?) ==>
              st == Fail(LeavesExhausted) && |issued| == |leaves|
  {
    if |issued| > 0 {
      assert issued[|issued| - 1] in issued;
    }
  }

  /** TransferHostToDeviceAsync: choose the layout, allocate the buffer, write
      its tuple index tables, then copy the leaves. No step is retried; the
      first failing step decides the result. */
  method TransferHostToDeviceAsync(tree: BufferTree, deviceOrdinal: int, stream: Stream, tm: TransferManager)
    returns (r: StatusOr<ScopedShapedBuffer>, issued: seq<LeafCopy>)
    requires AllocatesWellFormed(tm)
    ensures tm.chooseCompactLayout(tree.shape).Failure? ==>
              r == Failure(tm.chooseCompactLayout(tree.shape).error) && issued == []
    ensures tm.chooseCompactLayout(tree.shape).Value? ==>
              var shape := tm.chooseCompactLayout(tree.shape).value;
              var allocation := tm.allocate(shape, deviceOrdinal);
              && (allocation.Failure? ==> r == Failure(allocation.error) && issued == [])
              && (allocation.Value? ==>
                    var buffer := ScopedShapedBuffer(shape, deviceOrdinal, allocation.value);
                    var tables := tm.writeTupleIndexTables(stream, buffer);
                    && buffer.Valid()
                    && (tables.Fail? ==> r == Failure(tables.error) && issued == [])
                    && (tables.Ok? ==>
                          exists st :: LeafCopiesIssued(buffer, tree.leaves, stream, tm, st, issued) &&
                            r == if st.Ok? then Value(buffer) else Failure(st.error)))
  {
    issued := [];
    var layout := tm.chooseCompactLayout(tree.shape);
    if layout.Failure? {
      r := Failure(layout.error);
      return;
    }
    var shape := layout.value;
    var allocation := tm.allocate(shape, deviceOrdinal);
    if allocation.Failure? {
      r := Failure(allocation.error);
      return;
    }
    var buffer := ScopedShapedBuffer(shape, deviceOrdinal, allocation.value);
    var tables := tm.writeTupleIndexTables(stream, buffer);
    if tables.Fail? {
      r := Failure(tables.error);
      return;
    }
    var st;
    st, issued := TransferLeaves(buffer, tree.leaves, stream, tm);
    if st.Fail? {
      r := Failure(st.error);
      return;
    }
    r := Value(buffer);
  }

  /** A host-language value handed to the batch transfer. */
  datatype HostValue = HostValue(id: nat)

  /** One argument of the batch transfer: a value and the device it goes to. */
  datatype Argument = Argument(value: HostValue, deviceOrdinal: int)

  /** The calls the batch transfer makes per argument: building the buffer
      tree of the value, borrowing a stream of the target device, and the
      whole single transfer (TransferHostToDeviceAsync) run for the item. */
  datatype BatchBackend = BatchBackend(
    getBufferTree: HostValue -> StatusOr<BufferTree>,
    borrowStream: int -> StatusOr<Stream>,
    transfer: (BufferTree, int, Stream) -> StatusOr<ScopedShapedBuffer>)

  /** The steps of the batch transfer, in the order the caller observes them. */
  datatype Phase = BuildTree | BorrowStream | IssueTransfer | BlockUntilDone | TakeResult

  datatype Event = Event(phase: Phase, item: nat)

  /** The step `p` performed for items 0 to n-1, in item order. */
  function Steps(p: Phase, n: nat): (r: seq<Event>)
    ensures |r| == n && forall i :: 0 <= i < n ==> r[i] == Event(p, i)
  {
    seq(n, i requires 0 <= i < n => Event(p, i))
  }

  lemma StepsSnoc(p: Phase, n: nat)
    ensures Steps(p, n + 1) == Steps(p, n) + [Event(p, n)]
  {
  }

  function Trees(arguments: seq<Argument>, backend: BatchBackend): (r: seq<StatusOr<BufferTree>>)
    ensures |r| == |arguments|
    ensures forall i :: 0 <= i < |arguments| ==> r[i] == backend.getBufferTree(arguments[i].value)
  {
    seq(|arguments|, i requires 0 <= i < |arguments| => backend.getBufferTree(arguments[i].value))
  }

  function Streams(arguments: seq<Argument>, backend: BatchBackend): (r: seq<StatusOr<Stream>>)
    ensures |r| == |arguments|
    ensures forall i :: 0 <= i < |arguments| ==> r[i] == backend.borrowStream(arguments[i].deviceOrdinal)
  {
    seq(|arguments|, i requires 0 <= i < |arguments| => backend.borrowStream(arguments[i].deviceOrdinal))
  }

  /** The values of a sequence of results that all succeeded. */
  function Values<T>(rs: seq<StatusOr<T>>): (r: seq<T>)
    requires forall i :: 0 <= i < |rs| ==> rs[i].Value?
    ensures |r| == |rs| && forall i :: 0 <= i < |rs| ==> rs[i] == Value(r[i])
  {
    seq(|rs|, i requires 0 <= i < |rs| => rs[i].value)
  }

  function Transfers(arguments: seq<Argument>, trees: seq<BufferTree>, streams: seq<Stream>,
                     backend: BatchBackend): (r: seq<StatusOr<ScopedShapedBuffer>>)
    requires |trees| == |arguments| && |streams| == |arguments|
    ensures |r| == |arguments|
    ensures forall i :: 0 <= i < |arguments| ==>
              r[i] == backend.transfer(trees[i], arguments[i].deviceOrdinal, streams[i])
  {
    seq(|arguments|, i requires 0 <= i < |arguments| =>
          backend.transfer(trees[i], arguments[i].deviceOrdinal, streams[i]))
  }

  /** The step log of a batch that got past building trees and borrowing
      streams, when `taken` results were inspected. */
  function TransferLog(n: nat, taken: nat): seq<Event>
  {
    Steps(BuildTree, n) + Steps(BorrowStream, n) + Steps(IssueTransfer, n) +
    Steps(BlockUntilDone, n) + Steps(TakeResult, taken)
  }

  /** FromPythonValues: builds every buffer tree, borrows every stream, runs
      every single transfer, blocks on every stream, and only then takes the
      results in order. Each phase stops the call at its first failing item. */
  method FromPythonValues(arguments: seq<Argument>, backend: BatchBackend)
    returns (r: StatusOr<seq<LocalBuffer>>, events: seq<Event>)
    ensures |arguments| == 0 ==> r == Value([]) && events == []
    ensures var n := |arguments|;
            var trees := Trees(arguments, backend);
            var ft := FirstFailure(trees);
            n > 0 && ft < n ==> r == Failure(trees[ft].error) && events == Steps(BuildTree, ft + 1)
    ensures var n := |arguments|;
            var streams := Streams(arguments, backend);
            var fs := FirstFailure(streams);
            n > 0 && FirstFailure(Trees(arguments, backend)) == n && fs < n ==>
              r == Failure(streams[fs].error) &&
              events == Steps(BuildTree, n) + Steps(BorrowStream, fs + 1)
    ensures var n := |arguments|;
            var trees := Trees(arguments, backend);
            var streams := Streams(arguments, backend);
            n > 0 && FirstFailure(trees) == n && FirstFailure(streams) == n ==>
              var results := Transfers(arguments, Values(trees), Values(streams), backend);
              var fr := FirstFailure(results);
              && events == TransferLog(n, if fr < n then fr + 1 else n)
              && (fr < n ==> r == Failure(results[fr].error))
              && (fr == n ==>
                    r.Value? && |r.value| == n && NoDuplicates(r.value) &&
                    forall i :: 0 <= i < n ==> fresh(r.value[i]) && r.value[i].shapedBuffer == Some(results[i].value))
  {
    var n := |arguments|;
    if n == 0 {
      r := Value([]);
      events := [];
      return;
    }
    var trees;
    trees, events := BuildTrees(arguments, backend);
    if trees.Failure? {
      r := Failure(trees.error);
      return;
    }
    var streams, borrowEvents := BorrowStreams(arguments, backend);
    events := events + borrowEvents;
    if streams.Failure? {
      r := Failure(streams.error);
      return;
    }

    // every transfer is issued before any stream is waited on
    ghost var expected := Transfers(arguments, trees.value, streams.value, backend);
    var results: seq<StatusOr<ScopedShapedBuffer>> := [];
    for i := 0 to n
      invariant results == expected[..i]
      invariant events == Steps(BuildTree, n) + Steps(BorrowStream, n) + Steps(IssueTransfer, i)
    {
      results := results + [backend.transfer(trees.value[i], arguments[i].deviceOrdinal, streams.value[i])];
      StepsSnoc(IssueTransfer, i);
      events := events + [Event(IssueTransfer, i)];
    }
    assert results == expected;

    for i := 0 to n
      invariant events == Steps(BuildTree, n) + Steps(BorrowStream, n) + Steps(IssueTransfer, n) +
                          Steps(BlockUntilDone, i)
    {
      StepsSnoc(BlockUntilDone, i);
      events := events + [Event(BlockUntilDone, i)];
    }

    var takeEvents;
    r, takeEvents := TakeResults(results);
    events := events + takeEvents;
  }

  /** The first loop of FromPythonValues: the buffer tree of every value, in
      order, stopping at the first value that cannot be taken apart. */
  method BuildTrees(arguments: seq<Argument>, backend: BatchBackend)
    returns (r: StatusOr<seq<BufferTree>>, events: seq<Event>)
    ensures var trees := Trees(arguments, backend);
            var ft := FirstFailure(trees);
            && (ft < |arguments| ==> r == Failure(trees[ft].error) && events == Steps(BuildTree, ft + 1))
            && (ft == |arguments| ==> r == Value(Values(trees)) && events == Steps(BuildTree, ft))
  {
    ghost var treeResults := Trees(arguments, backend);
    var trees: seq<BufferTree> := [];
    events := [];
    for i := 0 to |arguments|
      invariant |trees| == i && events == Steps(BuildTree, i)
      invariant forall j :: 0 <= j < i ==> treeResults[j] == Value(trees[j])
    {
      var tree := backend.getBufferTree(arguments[i].value);
      StepsSnoc(BuildTree, i);
      events := events + [Event(BuildTree, i)];
      if tree.Failure? {
        FirstFailureUnique(treeResults, i);
        r := Failure(tree.error);
        return;
      }
      trees := trees + [tree.value];
    }
    FirstFailureUnique(treeResults, |arguments|);
    assert trees == Values(treeResults);
    r := Value(trees);
  }

  /** The second loop of FromPythonValues: a stream of each argument's device,
      in order, stopping at the first device whose stream cannot be borrowed. */
  method BorrowStreams(arguments: seq<Argument>, backend: BatchBackend)
    returns (r: StatusOr<seq<Stream>>, events: seq<Event>)
    ensures var streams := Streams(arguments, backend);
            var fs := FirstFailure(streams);
            && (fs < |arguments| ==> r == Failure(streams[fs].error) && events == Steps(BorrowStream, fs + 1))
            && (fs == |arguments| ==> r == Value(Values(streams)) && events == Steps(BorrowStream, fs))
  {
    ghost var streamResults := Streams(arguments, backend);
    var streams: seq<Stream> := [];
    events := [];
    for i := 0 to |arguments|
      invariant |streams| == i && events == Steps(BorrowStream, i)
      invariant forall j :: 0 <= j < i ==> streamResults[j] == Value(streams[j])
    {
      var stream := backend.borrowStream(arguments[i].deviceOrdinal);
      StepsSnoc(BorrowStream, i);
      events := events + [Event(BorrowStream, i)];
      if stream.Failure? {
        FirstFailureUnique(streamResults, i);
        r := Failure(stream.error);
        return;
      }
      streams := streams + [stream.value];
    }
    FirstFailureUnique(streamResults, |arguments|);
    assert streams == Values(streamResults);
    r := Value(streams);
  }

  /** The last loop of FromPythonValues: takes the transfer results in order
      into fresh handles, stopping at the first failed transfer. */
  method TakeResults(results: seq<StatusOr<ScopedShapedBuffer>>)
    returns (r: StatusOr<seq<LocalBuffer>>, events: seq<Event>)
    ensures var fr := FirstFailure(results);
            && events == Steps(TakeResult, if fr < |results| then fr + 1 else fr)
            && (fr < |results| ==> r == Failure(results[fr].error))
            && (fr == |results| ==>
                  r.Value? && |r.value| == |results| && NoDuplicates(r.value) &&
                  forall i :: 0 <= i < |results| ==>
                    fresh(r.value[i]) && r.value[i].shapedBuffer == Some(results[i].value))
  {
    var outputs: seq<LocalBuffer> := [];
    events := [];
    for i := 0 to |results|
      invariant |outputs| == i && events == Steps(TakeResult, i)
      invariant forall j :: 0 <= j < i ==> results[j].Value?
      invariant forall j :: 0 <= j < i ==> fresh(outputs[j]) && outputs[j].shapedBuffer == Some(results[j].value)
      invariant NoDuplicates(outputs)
    {
      StepsSnoc(TakeResult, i);
      events := events + [Event(TakeResult, i)];
      if results[i].Failure? {
        FirstFailureUnique(results, i);
        r := Failure(results[i].error);
        return;
      }
      var handle := new LocalBuffer(results[i].value);
      AppendDistinct(outputs, handle);
      outputs := outputs + [handle];
    }
    FirstFailureUnique(results, |results|);
    r := Value(outputs);
  }

  /** The barrier of the batch transfer: in its log every stream is waited on
      after every transfer has been issued, and before any result is taken. */
  lemma BatchBarrier(n: nat, taken: nat, a: nat, b: nat)
    requires taken <= n
    requires a < |TransferLog(n, taken)| && b < |TransferLog(n, taken)|
    ensures TransferLog(n, taken)[a].phase == IssueTransfer && TransferLog(n, taken)[b].phase == BlockUntilDone ==> a < b
    ensures TransferLog(n, taken)[a].phase == BlockUntilDone && TransferLog(n, taken)[b].phase == TakeResult ==> a < b
    ensures taken > 0 ==> forall i :: 0 <= i < n ==> Event(BlockUntilDone, i) in TransferLog(n, taken)[..|TransferLog(n, taken)| - taken]
  {
    var log := TransferLog(n, taken);
    assert forall k :: 0 <= k < 4 * n + taken ==>
      log[k] == if k < n then Event(BuildTree, k)
                else if k < 2 * n then Event(BorrowStream, k - n)
                else if k < 3 * n then Event(IssueTransfer, k - 2 * n)
                else if k < 4 * n then Event(BlockUntilDone, k - 3 * n)
                else Event(TakeResult, k - 4 * n);
    forall i | 0 <= i < n ensures Event(BlockUntilDone, i) in log[..|log| - taken] {
      assert log[..|log| - taken][3 * n + i] == Event(BlockUntilDone, i);
    }
  }
}
