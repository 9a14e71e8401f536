/** Shapes, shape indices and shape trees.

    A shape is an array or a tuple of shapes. An index is a path of tuple
    positions from the root; `[]` names the root, every interior tuple node
    included. A shape tree maps every index of a shape to a device memory id,
    0 standing for the null (empty) device memory. */
module Shapes {
  import opened Seqs

  datatype Shape = Array(dims: seq<nat>) | Tuple(elements: seq<Shape>)

  type ShapeIndex = seq<nat>

  type MemId = nat

  const Null: MemId := 0

  type ShapeTree = map<ShapeIndex, MemId>

  /** `idx` names a subshape of `s`. */
  predicate ValidIndex(s: Shape, idx: ShapeIndex)
    decreases idx
  {
    idx == [] ||
    (s.Tuple? && idx[0] < |s.elements| && ValidIndex(s.elements[idx[0]], idx[1..]))
  }

  function Subshape(s: Shape, idx: ShapeIndex): Shape
    requires ValidIndex(s, idx)
    decreases idx
  {
    if idx == [] then s else Subshape(s.elements[idx[0]], idx[1..])
  }

  /** The indices of `s` in the order the shape utilities visit them:
      a node first, then its tuple elements from left to right. */
  function Indices(s: Shape): seq<ShapeIndex>
    decreases s, 1
  {
    match s
    case Array(_) => [[]]
    case Tuple(es) => [[]] + ElementIndices(s, |es|)
  }

  /** The indices below the first `k` elements of tuple `s`, in visiting order. */
  function ElementIndices(s: Shape, k: nat): seq<ShapeIndex>
    requires s.Tuple? && k <= |s.elements|
    decreases s, 0, k
  {
    if k == 0 then []
    else ElementIndices(s, k - 1) + Prefixed(k - 1, Indices(s.elements[k - 1]))
  }

  function Prefixed(i: nat, idxs: seq<ShapeIndex>): (r: seq<ShapeIndex>)
    ensures |r| == |idxs|
    ensures forall j :: 0 <= j < |idxs| ==> r[j] == [i] + idxs[j]
  {
    seq(|idxs|, j requires 0 <= j < |idxs| => [i] + idxs[j])
  }

  function IndexSet(s: Shape): set<ShapeIndex>
  {
    set idx | idx in Indices(s)
  }

  /** A shape tree of shape `s` has an entry at exactly the indices of `s`. */
  ghost predicate WellFormedTree(s: Shape, t: ShapeTree)
  {
    forall idx :: idx in t <==> ValidIndex(s, idx)
  }

  /** No non-null memory id is held at two indices. */
  ghost predicate UniqueOwnership(t: ShapeTree)
  {
    forall a, b :: a in t && b in t && a != b && t[a] != Null ==> t[a] != t[b]
  }

  lemma {:induction false} ElementIndicesMembership(s: Shape, k: nat, idx: ShapeIndex)
    requires s.Tuple? && k <= |s.elements|
    ensures idx in ElementIndices(s, k) <==>
              (|idx| > 0 && idx[0] < k && idx[1..] in Indices(s.elements[idx[0]]))
    decreases k
  {
    if k > 0 {
      ElementIndicesMembership(s, k - 1, idx);
      var last := Prefixed(k - 1, Indices(s.elements[k - 1]));
      assert ElementIndices(s, k) == ElementIndices(s, k - 1) + last;
      if idx in last {
        var j :| 0 <= j < |last| && last[j] == idx;
        assert idx[1..] == Indices(s.elements[k - 1])[j];
      }
      if |idx| > 0 && idx[0] == k - 1 && idx[1..] in Indices(s.elements[idx[0]]) {
        var j :| 0 <= j < |Indices(s.elements[k - 1])| && Indices(s.elements[k - 1])[j] == idx[1..];
        assert last[j] == [k - 1] + idx[1..] == idx;
      }
    }
  }

  /** The visiting order lists exactly the valid indices. */
  lemma {:induction false} IndicesComplete(s: Shape, idx: ShapeIndex)
    ensures idx in Indices(s) <==> ValidIndex(s, idx)
    decreases idx
  {
    match s
    case Array(_) =>
    case Tuple(es) =>
      ElementIndicesMembership(s, |es|, idx);
      if |idx| > 0 && idx[0] < |es| {
        IndicesComplete(es[idx[0]], idx[1..]);
      }
  }

  lemma IndexSetIsValid(s: Shape)
    ensures forall idx :: idx in IndexSet(s) <==> ValidIndex(s, idx)
  {
    forall idx ensures idx in IndexSet(s) <==> ValidIndex(s, idx) {
      IndicesComplete(s, idx);
    }
  }

  lemma PrefixedDistinct(i: nat, idxs: seq<ShapeIndex>)
    requires NoDuplicates(idxs)
    ensures NoDuplicates(Prefixed(i, idxs))
  {
    var r := Prefixed(i, idxs);
    forall a, b | 0 <= a < b < |r| ensures r[a] != r[b] {
      assert r[a][1..] == idxs[a] && r[b][1..] == idxs[b];
    }
  }

  lemma {:induction false} ElementIndicesDistinct(s: Shape, k: nat)
    requires s.Tuple? && k <= |s.elements|
    ensures NoDuplicates(ElementIndices(s, k))
    decreases s, 0, k
  {
    if k > 0 {
      var front := ElementIndices(s, k - 1);
      var last := Prefixed(k - 1, Indices(s.elements[k - 1]));
      ElementIndicesDistinct(s, k - 1);
      IndicesDistinct(s.elements[k - 1]);
      PrefixedDistinct(k - 1, Indices(s.elements[k - 1]));
      forall a, b | 0 <= a < |front| && 0 <= b < |last| ensures front[a] != last[b] {
        ElementIndicesMembership(s, k - 1, front[a]);
      }
      ConcatDistinct(front, last);
    }
  }

  /** The visiting order visits every index once. */
  lemma {:induction false} IndicesDistinct(s: Shape)
    ensures NoDuplicates(Indices(s))
    decreases s, 1
  {
    match s
    case Array(_) =>
    case Tuple(es) =>
      ElementIndicesDistinct(s, |es|);
      forall b | 0 <= b < |ElementIndices(s, |es|)| ensures ElementIndices(s, |es|)[b] != [] {
        ElementIndicesMembership(s, |es|, ElementIndices(s, |es|)[b]);
      }
      ConcatDistinct([[]], ElementIndices(s, |es|));
  }

  /** A leaf shape together with its index, as the shape utilities list them. */
  datatype IndexedShape = IndexedShape(index: ShapeIndex, shape: Shape)

  /** The non-tuple subshapes of `s` in visiting order (GetLeafShapes). */
  function LeafShapes(s: Shape): seq<IndexedShape>
  {
    IndicesAllValid(s);
    KeepLeaves(s, Indices(s))
  }

  lemma IndicesAllValid(s: Shape)
    ensures forall idx :: idx in Indices(s) ==> ValidIndex(s, idx)
  {
    forall idx | idx in Indices(s) ensures ValidIndex(s, idx) {
      IndicesComplete(s, idx);
    }
  }

  function KeepLeaves(s: Shape, idxs: seq<ShapeIndex>): (r: seq<IndexedShape>)
    requires forall idx :: idx in idxs ==> ValidIndex(s, idx)
    ensures forall k :: 0 <= k < |r| ==>
              r[k].index in idxs && ValidIndex(s, r[k].index) &&
              r[k].shape == Subshape(s, r[k].index) && r[k].shape.Array?
  {
    if idxs == [] then []
    else
      var rest := KeepLeaves(s, idxs[1..]);
      var sub := Subshape(s, idxs[0]);
      if sub.Array? then [IndexedShape(idxs[0], sub)] + rest else rest
  }

  lemma {:induction false} KeepLeavesComplete(s: Shape, idxs: seq<ShapeIndex>, idx: ShapeIndex)
    requires forall i :: i in idxs ==> ValidIndex(s, i)
    requires idx in idxs && Subshape(s, idx).Array?
    ensures exists k :: 0 <= k < |KeepLeaves(s, idxs)| && KeepLeaves(s, idxs)[k].index == idx
  {
    var rest := KeepLeaves(s, idxs[1..]);
    var r := KeepLeaves(s, idxs);
    if idxs[0] == idx {
      assert r[0].index == idx;
    } else {
      KeepLeavesComplete(s, idxs[1..], idx);
      var k :| 0 <= k < |rest| && rest[k].index == idx;
      if Subshape(s, idxs[0]).Array? {
        assert r[k + 1] == rest[k];
      } else {
        assert r[k] == rest[k];
      }
    }
  }

  lemma {:induction false} KeepLeavesDistinct(s: Shape, idxs: seq<ShapeIndex>)
    requires forall i :: i in idxs ==> ValidIndex(s, i)
    requires NoDuplicates(idxs)
    ensures forall a, b :: 0 <= a < b < |KeepLeaves(s, idxs)| ==>
              KeepLeaves(s, idxs)[a].index != KeepLeaves(s, idxs)[b].index
  {
    if idxs != [] {
      var tail := idxs[1..];
      assert NoDuplicates(tail) by {
        forall a, b | 0 <= a < b < |tail| ensures tail[a] != tail[b] {
          assert tail[a] == idxs[a + 1] && tail[b] == idxs[b + 1];
        }
      }
      KeepLeavesDistinct(s, tail);
      var rest := KeepLeaves(s, tail);
      forall k | 0 <= k < |rest| ensures rest[k].index != idxs[0] {
        var j :| 0 <= j < |tail| && tail[j] == rest[k].index;
        assert idxs[j + 1] == tail[j];
      }
    }
  }

  /** GetLeafShapes lists each leaf of `s` exactly once, with its subshape, in
      visiting order; no tuple node is listed. */
  lemma LeafShapesExact(s: Shape)
    ensures forall k :: 0 <= k < |LeafShapes(s)| ==>
              ValidIndex(s, LeafShapes(s)[k].index) &&
              LeafShapes(s)[k].shape == Subshape(s, LeafShapes(s)[k].index) &&
              LeafShapes(s)[k].shape.Array?
    ensures forall idx :: ValidIndex(s, idx) && Subshape(s, idx).Array? ==>
              exists k :: 0 <= k < |LeafShapes(s)| && LeafShapes(s)[k].index == idx
    ensures forall a, b :: 0 <= a < b < |LeafShapes(s)| ==>
              LeafShapes(s)[a].index != LeafShapes(s)[b].index
  {
    IndicesAllValid(s);
    IndicesDistinct(s);
    KeepLeavesDistinct(s, Indices(s));
    forall idx | ValidIndex(s, idx) && Subshape(s, idx).Array?
      ensures exists k :: 0 <= k < |LeafShapes(s)| && LeafShapes(s)[k].index == idx
    {
      IndicesComplete(s, idx);
      KeepLeavesComplete(s, Indices(s), idx);
      assert LeafShapes(s) == KeepLeaves(s, Indices(s));
    }
  }
}
