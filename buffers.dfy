/** Device buffer handles (PyLocalBuffer): a handle owns at most one scoped
    shaped buffer; Release hands that buffer out and leaves the handle empty,
    DestructureTuple consumes a tuple buffer and moves each element's device
    memory into a handle of its own. */
module Buffers {
  import opened Errors
  import opened Shapes
  import opened Seqs

  /** A scoped shaped buffer: its on-device shape, the device it lives on and
      the device memory held at every index of the shape. */
  datatype ScopedShapedBuffer = ScopedShapedBuffer(onDeviceShape: Shape, deviceOrdinal: int, buffers: ShapeTree)
  {
    ghost predicate Valid()
    {
      WellFormedTree(onDeviceShape, buffers)
    }
  }

  /** The tree tuple element `i` receives: at each index `idx` of the element's
      shape, the memory the parent held at `[i] + idx`. */
  function ChildTree(parent: ShapeTree, i: nat, element: Shape): ShapeTree
  {
    map idx | idx in IndexSet(element) && [i] + idx in parent :: parent[[i] + idx]
  }

  /** What the parent tree still holds once every element has been moved out:
      the root entry, and null everywhere else. */
  function RootOnly(parent: ShapeTree): ShapeTree
  {
    map key | key in parent :: if key == [] then parent[key] else Null
  }

  class LocalBuffer {
    var shapedBuffer: Option<ScopedShapedBuffer>

    ghost predicate Valid()
      reads this
    {
      shapedBuffer.Some? ==> shapedBuffer.value.Valid()
    }

    constructor (buffer: ScopedShapedBuffer)
      ensures shapedBuffer == Some(buffer)
    {
      shapedBuffer := Some(buffer);
    }

    /** The on-device shape of the buffer the handle holds; a valid handle's
        tree has an entry at every index the shape's subshape visit reaches,
        and at no other. */
    function OnDeviceShape(): (s: Shape)
      reads this
      requires shapedBuffer.Some?
      ensures Valid() ==> forall idx :: idx in shapedBuffer.value.buffers <==> idx in Indices(s)
    {
      IndexSetIsValid(shapedBuffer.value.onDeviceShape);
      shapedBuffer.value.onDeviceShape
    }

    /** Hands out the buffer; the handle is empty afterwards. */
    method Release() returns (result: ScopedShapedBuffer)
      requires shapedBuffer.Some?
      modifies this
      ensures result == old(shapedBuffer).value
      ensures shapedBuffer == None
    {
      result := shapedBuffer.value;
      shapedBuffer := None;
    }

    /** Splits a tuple buffer into one handle per tuple element. `remainder` is
        the parent tree as the released parent buffer still holds it when it is
        dropped at the end of the call. */
    method DestructureTuple() returns (r: StatusOr<seq<LocalBuffer>>, ghost remainder: ShapeTree)
      requires Valid() && shapedBuffer.Some?
      modifies this
      ensures !old(OnDeviceShape()).Tuple? ==>
                r == Failure(Error(InvalidArgument, NotATuple(old(OnDeviceShape())), [])) &&
                shapedBuffer == old(shapedBuffer)
      ensures old(OnDeviceShape()).Tuple? ==>
                shapedBuffer == None && r.Value? &&
                |r.value| == |old(OnDeviceShape()).elements| &&
                remainder == RootOnly(old(shapedBuffer.value.buffers))
      ensures old(OnDeviceShape()).Tuple? && r.Value? ==>
                forall i :: 0 <= i < |r.value| ==>
                  fresh(r.value[i]) && r.value[i].Valid() &&
                  r.value[i].shapedBuffer == Some(ScopedShapedBuffer(
                    old(OnDeviceShape()).elements[i],
                    old(shapedBuffer.value.deviceOrdinal),
                    ChildTree(old(shapedBuffer.value.buffers), i, old(OnDeviceShape()).elements[i])))
      ensures r.Value? ==> NoDuplicates(r.value)
    {
      var tupleShape := OnDeviceShape();
      if !tupleShape.Tuple? {
        r := Failure(Error(InvalidArgument, NotATuple(tupleShape), []));
        remainder := map[];
        return;
      }
      var tupleBuffer := Release();
      var results, tree := DestructureElements(tupleBuffer);
      r := Value(results);
      remainder := tree;
    }
  }

  /** The buffer the handle of tuple element `i` receives: the element's
      shape, the parent's device and the element's subtree. */
  function ElementBuffer(tupleBuffer: ScopedShapedBuffer, i: nat): ScopedShapedBuffer
    requires tupleBuffer.onDeviceShape.Tuple? && i < |tupleBuffer.onDeviceShape.elements|
  {
    var element := tupleBuffer.onDeviceShape.elements[i];
    ScopedShapedBuffer(element, tupleBuffer.deviceOrdinal, ChildTree(tupleBuffer.buffers, i, element))
  }

  /** The element buffers of a well-formed tuple buffer are well formed. */
  lemma ElementBufferValid(tupleBuffer: ScopedShapedBuffer, i: nat)
    requires tupleBuffer.Valid() && tupleBuffer.onDeviceShape.Tuple? && i < |tupleBuffer.onDeviceShape.elements|
    ensures ElementBuffer(tupleBuffer, i).Valid()
  {
    var element := tupleBuffer.onDeviceShape.elements[i];
    IndexSetIsValid(element);
    forall idx | ValidIndex(element, idx) ensures [i] + idx in tupleBuffer.buffers {
      assert ([i] + idx)[1..] == idx;
    }
  }

  /** The loop of DestructureTuple over the tuple elements of a released
      buffer: one fresh handle per element, in element order, and the parent
      tree with every moved entry nulled. */
  method DestructureElements(tupleBuffer: ScopedShapedBuffer) returns (results: seq<LocalBuffer>, tree: ShapeTree)
    requires tupleBuffer.Valid() && tupleBuffer.onDeviceShape.Tuple?
    ensures |results| == |tupleBuffer.onDeviceShape.elements|
    ensures forall i :: 0 <= i < |results| ==>
              fresh(results[i]) && results[i].Valid() && results[i].shapedBuffer == Some(ElementBuffer(tupleBuffer, i))
    ensures NoDuplicates(results)
    ensures tree == RootOnly(tupleBuffer.buffers)
  {
    var tupleShape := tupleBuffer.onDeviceShape;
    tree := tupleBuffer.buffers;
    results := [];
    var i := 0;
    while i < |tupleShape.elements|
      invariant 0 <= i <= |tupleShape.elements| && |results| == i
      invariant Moved(tree, tupleBuffer.buffers, i, {})
      invariant forall j :: 0 <= j < i ==> fresh(results[j])
      invariant forall j :: 0 <= j < i ==> results[j].shapedBuffer == Some(ElementBuffer(tupleBuffer, j))
      invariant NoDuplicates(results)
    {
      var child, tree' := MoveElement(tree, tupleBuffer.buffers, tupleShape, i);
      tree := tree';
      var handle := new LocalBuffer(ScopedShapedBuffer(tupleShape.elements[i], tupleBuffer.deviceOrdinal, child));
      AppendDistinct(results, handle);
      results := results + [handle];
      i := i + 1;
    }
    MovedAllIsRootOnly(tree, tupleBuffer.buffers, tupleShape);
    forall j | 0 <= j < |results| ensures results[j].Valid() {
      ElementBufferValid(tupleBuffer, j);
    }
  }

  /** `tree` is `parent` with the entries of elements `0..i-1`, and those of
      element `i` at the indices in `done`, set to null. */
  ghost predicate Moved(tree: ShapeTree, parent: ShapeTree, i: nat, done: set<ShapeIndex>)
  {
    tree.Keys == parent.Keys &&
    forall key :: key in parent ==>
      tree[key] == if key != [] && (key[0] < i || (key[0] == i && key[1..] in done)) then Null else parent[key]
  }

  lemma MovedAllIsRootOnly(tree: ShapeTree, parent: ShapeTree, tupleShape: Shape)
    requires tupleShape.Tuple? && WellFormedTree(tupleShape, parent)
    requires Moved(tree, parent, |tupleShape.elements|, {})
    ensures tree == RootOnly(parent)
  {
    forall key | key in parent ensures tree[key] == RootOnly(parent)[key] {
      assert ValidIndex(tupleShape, key);
    }
  }

  /** The child tree while element `i` is being moved: the parent's memory
      at the indices in `done`, null at the other indices of `element`. */
  ghost function PartialChild(parent: ShapeTree, i: nat, element: Shape, done: set<ShapeIndex>): ShapeTree
    requires forall idx :: idx in done ==> [i] + idx in parent
  {
    map idx | idx in IndexSet(element) :: if idx in done then parent[[i] + idx] else Null
  }

  /** Nulling the parent entry of `index` in element `i` extends `done` by `index`. */
  lemma MoveStepTree(tree: ShapeTree, parent: ShapeTree, tupleShape: Shape, i: nat,
                     done: set<ShapeIndex>, index: ShapeIndex)
    requires tupleShape.Tuple? && i < |tupleShape.elements|
    requires WellFormedTree(tupleShape, parent)
    requires ValidIndex(tupleShape.elements[i], index) && index !in done
    requires Moved(tree, parent, i, done)
    ensures [i] + index in tree && [i] + index in parent
    ensures tree[[i] + index] == parent[[i] + index]
    ensures Moved(tree[[i] + index := Null], parent, i, done + {index})
  {
    var original := [i] + index;
    assert original[1..] == index;
    assert ValidIndex(tupleShape, original);
    var tree' := tree[original := Null];
    forall key | key in parent
      ensures tree'[key] == if key != [] && (key[0] < i || (key[0] == i && key[1..] in done + {index}))
                            then Null else parent[key]
    {
      if key != [] && key[0] == i && key[1..] == index {
        assert key == [key[0]] + key[1..];
      }
    }
  }

  /** Copying the parent entry of `index` into the child extends `done` by `index`. */
  lemma MoveStepChild(child: ShapeTree, parent: ShapeTree, i: nat, element: Shape,
                      done: set<ShapeIndex>, index: ShapeIndex)
    requires forall idx :: idx in done ==> [i] + idx in parent
    requires [i] + index in parent && ValidIndex(element, index)
    requires child == PartialChild(parent, i, element, done)
    ensures child[index := parent[[i] + index]] == PartialChild(parent, i, element, done + {index})
  {
    IndicesComplete(element, index);
  }

  lemma MoveFinish(tree: ShapeTree, parent: ShapeTree, tupleShape: Shape, i: nat)
    requires tupleShape.Tuple? && i < |tupleShape.elements|
    requires WellFormedTree(tupleShape, parent)
    requires Moved(tree, parent, i, IndexSet(tupleShape.elements[i]))
    ensures Moved(tree, parent, i + 1, {})
    ensures forall idx :: idx in IndexSet(tupleShape.elements[i]) ==> [i] + idx in parent
    ensures PartialChild(parent, i, tupleShape.elements[i], IndexSet(tupleShape.elements[i]))
              == ChildTree(parent, i, tupleShape.elements[i])
    ensures WellFormedTree(tupleShape.elements[i], ChildTree(parent, i, tupleShape.elements[i]))
  {
    var element := tupleShape.elements[i];
    IndexSetIsValid(element);
    forall idx | idx in IndexSet(element) ensures [i] + idx in parent {
      assert ([i] + idx)[1..] == idx;
    }
    forall key | key in parent && key != [] && key[0] == i ensures key[1..] in IndexSet(element) {
      assert ValidIndex(tupleShape, key);
    }
  }

  /** The inner loop of DestructureTuple for element `i`: visits the element's
      indices in order, copying each parent entry into the child tree and
      nulling it in the parent. */
  method MoveElement(tree: ShapeTree, ghost parent: ShapeTree, tupleShape: Shape, i: nat)
    returns (child: ShapeTree, tree': ShapeTree)
    requires tupleShape.Tuple? && i < |tupleShape.elements|
    requires WellFormedTree(tupleShape, parent)
    requires Moved(tree, parent, i, {})
    ensures child == ChildTree(parent, i, tupleShape.elements[i])
    ensures WellFormedTree(tupleShape.elements[i], child)
    ensures Moved(tree', parent, i + 1, {})
  {
    var subshape := tupleShape.elements[i];
    var idxs := Indices(subshape);
    IndicesDistinct(subshape);
    IndicesAllValid(subshape);
    // a fresh shaped buffer holds null memory at every index of its shape
    child := map idx | idx in IndexSet(subshape) :: Null;
    tree' := tree;
    ghost var done: set<ShapeIndex> := {};
    var j := 0;
    while j < |idxs|
      invariant 0 <= j <= |idxs|
      invariant done == set k | 0 <= k < j :: idxs[k]
      invariant forall idx :: idx in done ==> ValidIndex(subshape, idx) && [i] + idx in parent
      invariant child == PartialChild(parent, i, subshape, done)
      invariant Moved(tree', parent, i, done)
    {
      var index := idxs[j];
      var original := [i] + index;
      MoveStepTree(tree', parent, tupleShape, i, done, index);
      MoveStepChild(child, parent, i, subshape, done, index);
      child := child[index := tree'[original]];
      tree' := tree'[original := Null];
      done := done + {index};
      j := j + 1;
    }
    assert done == IndexSet(subshape);
    MoveFinish(tree', parent, tupleShape, i);
  }

  /** The trees DestructureTuple leaves behind: the released parent's
      remainder first, then one tree per tuple element. */
  function DestructuredTrees(parent: ShapeTree, tupleShape: Shape): (r: seq<ShapeTree>)
    requires tupleShape.Tuple?
    ensures |r| == |tupleShape.elements| + 1
    ensures r[0] == RootOnly(parent)
    ensures forall i :: 0 <= i < |tupleShape.elements| ==>
              r[i + 1] == ChildTree(parent, i, tupleShape.elements[i])
  {
    [RootOnly(parent)] +
    seq(|tupleShape.elements|, i requires 0 <= i < |tupleShape.elements| =>
          ChildTree(parent, i, tupleShape.elements[i]))
  }

  /** No non-null memory id is held twice, within one tree or across trees. */
  ghost predicate DisjointOwners(trees: seq<ShapeTree>)
  {
    forall t, u, a, b ::
      (0 <= t < |trees| && 0 <= u < |trees| && a in trees[t] && b in trees[u] &&
       (t != u || a != b) && trees[t][a] != Null) ==>
      trees[t][a] != trees[u][b]
  }

  /** The parent index that entry `a` of tree `t` of DestructuredTrees came from. */
  function Origin(t: nat, a: ShapeIndex): ShapeIndex
  {
    if t == 0 then a else [t - 1] + a
  }

  lemma OriginOfEntry(parent: ShapeTree, tupleShape: Shape, t: nat, a: ShapeIndex)
    requires tupleShape.Tuple? && t < |tupleShape.elements| + 1
    requires a in DestructuredTrees(parent, tupleShape)[t]
    requires t == 0 ==> a == []
    ensures Origin(t, a) in parent
    ensures DestructuredTrees(parent, tupleShape)[t][a] == parent[Origin(t, a)]
  {
    var trees := DestructuredTrees(parent, tupleShape);
    if t == 0 {
      assert trees[t] == RootOnly(parent);
    } else {
      var child := ChildTree(parent, t - 1, tupleShape.elements[t - 1]);
      assert trees[t] == child;
      assert a in child;
    }
  }

  lemma OriginInjective(t: nat, u: nat, a: ShapeIndex, b: ShapeIndex)
    requires t == 0 ==> a == []
    requires u == 0 ==> b == []
    requires t != u || a != b
    ensures Origin(t, a) != Origin(u, b)
  {
    if t != u && t != 0 && u != 0 {
      assert Origin(t, a)[0] != Origin(u, b)[0];
    } else if t != u {
      assert |Origin(t, a)| != |Origin(u, b)|;
    } else if t != 0 {
      assert Origin(t, a)[1..] == a && Origin(u, b)[1..] == b;
    }
  }

  /** Destructuring never duplicates ownership: when the parent held each
      allocation once, the remainder and the element trees together hold each
      allocation once. */
  lemma DestructureKeepsOwnershipUnique(parent: ShapeTree, tupleShape: Shape)
    requires tupleShape.Tuple? && WellFormedTree(tupleShape, parent)
    requires UniqueOwnership(parent)
    ensures DisjointOwners(DestructuredTrees(parent, tupleShape))
  {
    var trees := DestructuredTrees(parent, tupleShape);
    forall t, u, a, b |
      0 <= t < |trees| && 0 <= u < |trees| && a in trees[t] && b in trees[u] &&
      (t != u || a != b) && trees[t][a] != Null
      ensures trees[t][a] != trees[u][b]
    {
      EntriesOwnedOnce(parent, tupleShape, t, u, a, b);
    }
  }

  /** Two distinct entries of the destructured trees never share a non-null memory id. */
  lemma EntriesOwnedOnce(parent: ShapeTree, tupleShape: Shape, t: nat, u: nat, a: ShapeIndex, b: ShapeIndex)
    requires tupleShape.Tuple? && WellFormedTree(tupleShape, parent)
    requires UniqueOwnership(parent)
    requires t < |tupleShape.elements| + 1 && u < |tupleShape.elements| + 1
    requires a in DestructuredTrees(parent, tupleShape)[t] && b in DestructuredTrees(parent, tupleShape)[u]
    requires t != u || a != b
    requires DestructuredTrees(parent, tupleShape)[t][a] != Null
    ensures DestructuredTrees(parent, tupleShape)[t][a] != DestructuredTrees(parent, tupleShape)[u][b]
  {
    var trees := DestructuredTrees(parent, tupleShape);
    assert t == 0 ==> a == [];
    OriginOfEntry(parent, tupleShape, t, a);
    if u != 0 || b == [] {
      OriginOfEntry(parent, tupleShape, u, b);
      OriginInjective(t, u, a, b);
    }
  }

  /** Destructuring loses no allocation: every non-null entry of the parent is
      either its root entry, left with the remainder, or held at `idx` by the
      handle of element `i` when its index is `[i] + idx`. */
  lemma DestructureLosesNothing(parent: ShapeTree, tupleShape: Shape, key: ShapeIndex)
    requires tupleShape.Tuple? && WellFormedTree(tupleShape, parent)
    requires key in parent
    ensures key == [] ==> RootOnly(parent)[key] == parent[key]
    ensures key != [] ==>
              key[0] < |tupleShape.elements| &&
              key[1..] in ChildTree(parent, key[0], tupleShape.elements[key[0]]) &&
              ChildTree(parent, key[0], tupleShape.elements[key[0]])[key[1..]] == parent[key]
  {
    if key != [] {
      assert ValidIndex(tupleShape, key);
      IndicesComplete(tupleShape.elements[key[0]], key[1..]);
      assert [key[0]] + key[1..] == key;
    }
  }
}
