/**
 * The tree of the BVH as the component sees it: a node array and the
 * `primitive_indices` permutation leaves index into, and the leaf refit that
 * `RebuildAnimatedBvh` hands to the refitter.
 *
 * A leaf's new box is the union of the boxes of its primitives, taken through
 * `primitive_indices`; `LeafBoxEncloses` and `LeafBoxLeast` say it is the
 * smallest box containing every one of them. A refit changes boxes only.
 */
module BvhRefit {
  import opened BvhGeometry

  /**
   * A node of the tree: its box, `first_child_or_primitive` and
   * `primitive_count`; a node with a nonzero count is a leaf.
   */
  datatype Node = Node(box: BoundingBox, firstChildOrPrimitive: nat, primitiveCount: nat)

  predicate IsLeaf(n: Node) {
    n.primitiveCount != 0
  }

  /** The tree the builder produces: nodes and `primitive_indices`. */
  datatype Hierarchy = Hierarchy(nodes: seq<Node>, primitiveIndices: seq<nat>)

  /** Every leaf's run of `primitive_indices` is in bounds and names an existing primitive. */
  ghost predicate Fits(nodes: seq<Node>, primitiveIndices: seq<nat>, primitiveCount: nat) {
    && (forall i :: 0 <= i < |nodes| && IsLeaf(nodes[i]) ==>
          nodes[i].firstChildOrPrimitive + nodes[i].primitiveCount <= |primitiveIndices|)
    && (forall j :: 0 <= j < |primitiveIndices| ==> primitiveIndices[j] < primitiveCount)
  }

  /** The box of the primitive that position `j` of `primitive_indices` names. */
  function PrimitiveBox(primitives: seq<Triangle>, primitiveIndices: seq<nat>, j: nat): BoundingBox {
    if j < |primitiveIndices| && primitiveIndices[j] < |primitives| then TriangleBox(primitives[primitiveIndices[j]])
    else Empty
  }

  /** The box the refit gives a leaf: the empty box extended by each of its primitives in turn. */
  function LeafBox(primitives: seq<Triangle>, primitiveIndices: seq<nat>, first: nat, count: nat): BoundingBox {
    if count == 0 then Empty
    else Extend(LeafBox(primitives, primitiveIndices, first, count - 1), PrimitiveBox(primitives, primitiveIndices, first + count - 1))
  }

  /** The leaf box contains the box of every primitive of the leaf. */
  lemma {:induction false} LeafBoxEncloses(primitives: seq<Triangle>, primitiveIndices: seq<nat>, first: nat, count: nat, k: nat)
    requires k < count
    ensures Encloses(LeafBox(primitives, primitiveIndices, first, count), PrimitiveBox(primitives, primitiveIndices, first + k))
  {
    var whole := LeafBox(primitives, primitiveIndices, first, count);
    if k < count - 1 {
      var part := LeafBox(primitives, primitiveIndices, first, count - 1);
      LeafBoxEncloses(primitives, primitiveIndices, first, count - 1, k);
      EnclosesTransitive(whole, part, PrimitiveBox(primitives, primitiveIndices, first + k));
    }
  }

  /** And it is the smallest such box: any box containing every primitive of the leaf contains it. */
  lemma {:induction false} LeafBoxLeast(primitives: seq<Triangle>, primitiveIndices: seq<nat>, first: nat, count: nat, b: BoundingBox)
    requires forall j :: first <= j < first + count ==> Encloses(b, PrimitiveBox(primitives, primitiveIndices, j))
    ensures Encloses(b, LeafBox(primitives, primitiveIndices, first, count))
  {
    if count > 0 {
      LeafBoxLeast(primitives, primitiveIndices, first, count - 1, b);
    }
  }

  /**
   * `after` is a refit of `before` over `primitives`: the same nodes with the
   * same children and primitive runs, every leaf's box recomputed.
   */
  ghost predicate RefitOf(after: seq<Node>, before: seq<Node>, primitives: seq<Triangle>, primitiveIndices: seq<nat>) {
    && |after| == |before|
    && (forall i :: 0 <= i < |before| ==>
          && after[i].firstChildOrPrimitive == before[i].firstChildOrPrimitive
          && after[i].primitiveCount == before[i].primitiveCount)
    && (forall i :: 0 <= i < |before| && IsLeaf(before[i]) ==>
          after[i].box == LeafBox(primitives, primitiveIndices, before[i].firstChildOrPrimitive, before[i].primitiveCount))
  }

  /**
   * The tree bounds its primitives: the box of every leaf contains the box of
   * each primitive of its run. A traversal that skips a leaf whose box the ray
   * misses can then miss no triangle of that leaf.
   */
  ghost predicate LeavesBound(nodes: seq<Node>, primitives: seq<Triangle>, primitiveIndices: seq<nat>) {
    forall i, j :: 0 <= i < |nodes| && IsLeaf(nodes[i]) &&
                   nodes[i].firstChildOrPrimitive <= j < nodes[i].firstChildOrPrimitive + nodes[i].primitiveCount ==>
      Encloses(nodes[i].box, PrimitiveBox(primitives, primitiveIndices, j))
  }

  /** In a tree that fits and bounds its primitives, each corner of a leaf's triangles is inside the leaf's box. */
  lemma LeavesBoundCorners(nodes: seq<Node>, primitives: seq<Triangle>, primitiveIndices: seq<nat>, i: nat, j: nat)
    requires Fits(nodes, primitiveIndices, |primitives|) && LeavesBound(nodes, primitives, primitiveIndices)
    requires i < |nodes| && IsLeaf(nodes[i])
    requires nodes[i].firstChildOrPrimitive <= j < nodes[i].firstChildOrPrimitive + nodes[i].primitiveCount
    ensures j < |primitiveIndices| && primitiveIndices[j] < |primitives|
    ensures var t := primitives[primitiveIndices[j]];
            Inside(t.p0, nodes[i].box) && Inside(t.p1, nodes[i].box) && Inside(t.p2, nodes[i].box)
  {
    var t := primitives[primitiveIndices[j]];
    assert Encloses(nodes[i].box, PrimitiveBox(primitives, primitiveIndices, j));
    InsideEnclosed(t.p0, TriangleBox(t), nodes[i].box);
    InsideEnclosed(t.p1, TriangleBox(t), nodes[i].box);
    InsideEnclosed(t.p2, TriangleBox(t), nodes[i].box);
  }

  /**
   * A refit keeps the tree fitting the same primitive array, and afterwards
   * the tree bounds the primitives it was refitted over, whatever the boxes
   * were before.
   */
  lemma RefitBounds(after: seq<Node>, before: seq<Node>, primitives: seq<Triangle>, primitiveIndices: seq<nat>)
    requires Fits(before, primitiveIndices, |primitives|)
    requires RefitOf(after, before, primitives, primitiveIndices)
    ensures Fits(after, primitiveIndices, |primitives|)
    ensures LeavesBound(after, primitives, primitiveIndices)
  {
    forall i, j | 0 <= i < |after| && IsLeaf(after[i]) &&
                  after[i].firstChildOrPrimitive <= j < after[i].firstChildOrPrimitive + after[i].primitiveCount
      ensures Encloses(after[i].box, PrimitiveBox(primitives, primitiveIndices, j))
    {
      assert IsLeaf(before[i]);
      var first := after[i].firstChildOrPrimitive;
      LeafBoxEncloses(primitives, primitiveIndices, first, after[i].primitiveCount, j - first);
    }
  }
}
