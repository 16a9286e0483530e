/**
 * The BVH component of an entity: it owns at most one `BvhData` (the tree,
 * the triangle array the tree indexes and the mesh range table), rebuilds it
 * from a list of sub-meshes, re-poses and refits it for an animated entity,
 * and answers ray queries by naming the mesh a hit triangle came from.
 *
 * The BVH library itself (builder, traverser) lies outside the model: the
 * tree the builder produces and the hit the traverser reports come in as
 * parameters, with what the component relies on about them as `requires`.
 */
module BvhComponent {
  import opened Wrappers
  import opened BvhGeometry
  import opened BvhMeshRanges
  import opened BvhLookup
  import opened BvhRefit

  /** The state behind the component's pointer: tree, primitives and mesh ranges. */
  class BvhData {
    var nodes: array<Node>
    var primitiveIndices: seq<nat>
    var primitives: array<Triangle>
    var meshRanges: seq<MeshRange>

    /**
     * What a built BVH keeps true: the ranges partition `3 * |primitives|`
     * indices among well-formed triangle meshes, and the tree indexes only
     * existing primitives and bounds each of them.
     */
    ghost predicate Valid()
      reads this, nodes, primitives
    {
      && Partitioned(meshRanges)
      && End(meshRanges) == 3 * primitives.Length
      && Fits(nodes[..], primitiveIndices, primitives.Length)
      && LeavesBound(nodes[..], primitives[..], primitiveIndices)
    }

    /** A fresh `BvhData`: empty tree, no primitives, no ranges. */
    constructor()
      ensures nodes.Length == 0 && primitives.Length == 0
      ensures primitiveIndices == [] && meshRanges == []
      ensures fresh(nodes) && fresh(primitives)
    {
      nodes := new Node[0];
      primitiveIndices := [];
      primitives := new Triangle[0];
      meshRanges := [];
    }

    /**
     * Builds the tree over the current primitives. The builder is the
     * library's: `tree` is what it returns, and the component relies on it
     * indexing only existing primitives and bounding each of them.
     */
    method InitializeIntersectorData(tree: Hierarchy)
      requires Fits(tree.nodes, tree.primitiveIndices, primitives.Length)
      requires LeavesBound(tree.nodes, primitives[..], tree.primitiveIndices)
      modifies this
      ensures fresh(nodes) && nodes[..] == tree.nodes && primitiveIndices == tree.primitiveIndices
      ensures primitives == old(primitives) && meshRanges == old(meshRanges)
      ensures Fits(nodes[..], primitiveIndices, primitives.Length)
      ensures LeavesBound(nodes[..], primitives[..], primitiveIndices)
    {
      nodes := new Node[|tree.nodes|](k requires 0 <= k < |tree.nodes| => tree.nodes[k]);
      primitiveIndices := tree.primitiveIndices;
    }
  }

  /**
   * The refit callback for one leaf: the empty box extended by the box of each
   * primitive of the leaf's run of `primitive_indices`.
   */
  method LeafBounds(primitives: array<Triangle>, primitiveIndices: seq<nat>, first: nat, count: nat) returns (bbox: BoundingBox)
    requires first + count <= |primitiveIndices|
    requires forall j :: 0 <= j < |primitiveIndices| ==> primitiveIndices[j] < primitives.Length
    ensures bbox == LeafBox(primitives[..], primitiveIndices, first, count)
    ensures forall j :: first <= j < first + count ==> Encloses(bbox, PrimitiveBox(primitives[..], primitiveIndices, j))
  {
    bbox := Empty;
    var i := 0;
    while i < count
      invariant 0 <= i <= count
      invariant bbox == LeafBox(primitives[..], primitiveIndices, first, i)
    {
      var triangle := primitives[primitiveIndices[first + i]];
      bbox := Extend(bbox, TriangleBox(triangle));
      i := i + 1;
    }
    forall j | first <= j < first + count
      ensures Encloses(bbox, PrimitiveBox(primitives[..], primitiveIndices, j))
    {
      LeafBoxEncloses(primitives[..], primitiveIndices, first, count, j - first);
    }
  }

  /** The first pass of `RebuildBvh`: one range per accepted mesh, in index units, and the total index count. */
  method CollectRanges(meshes: seq<SubMesh>) returns (meshRanges: seq<MeshRange>, numVerts: nat)
    ensures meshRanges == BuildRanges(meshes) && numVerts == TotalIndices(meshes)
    ensures Chained(meshRanges) && Meshes(meshRanges) == AcceptedMeshes(meshes)
    ensures Buildable(meshes) ==> Partitioned(meshRanges) && End(meshRanges) == numVerts
  {
    meshRanges := [];
    numVerts := 0;
    var primitiveOffset := 0;
    var i := 0;
    while i < |meshes|
      invariant 0 <= i <= |meshes|
      invariant meshRanges == BuildRanges(meshes[..i])
      invariant numVerts == primitiveOffset == TotalIndices(meshes[..i])
    {
      RangesSnoc(meshes, i);
      var mesh := meshes[i];
      if ShouldUseMesh(mesh) {
        meshRanges := meshRanges + [MeshRange(mesh, primitiveOffset, primitiveOffset + |mesh.indices|)];
        numVerts := numVerts + |mesh.indices|;
        primitiveOffset := primitiveOffset + |mesh.indices|;
      }
      i := i + 1;
    }
    assert meshes[..i] == meshes;
    BuildRangesShape(meshes);
  }

  /**
   * The index visitor of the second pass: index triple `i` of `mesh` becomes
   * the triangle in slot `(primitiveOffset + i) / 3`; no other slot changes.
   */
  method WriteMeshTriangles(primitives: array<Triangle>, mesh: SubMesh, primitiveOffset: nat)
    requires WellFormed(mesh) && primitiveOffset % 3 == 0
    requires primitiveOffset + |mesh.indices| <= 3 * primitives.Length
    modifies primitives
    ensures var base, n := primitiveOffset / 3, |mesh.indices| / 3;
            && primitives[..base] == old(primitives[..base])
            && primitives[base..base + n] == MeshTriangles(mesh)
            && primitives[base + n..] == old(primitives[base + n..])
  {
    ghost var base, n := primitiveOffset / 3, |mesh.indices| / 3;
    var i := 0;
    ghost var t := 0;
    while i < |mesh.indices|
      invariant t <= n && i == 3 * t
      invariant forall s :: 0 <= s < primitives.Length && !(base <= s < base + t) ==> primitives[s] == old(primitives[s])
      invariant forall q :: 0 <= q < t ==> primitives[base + q] == TriangleAt(mesh, 3 * q)
    {
      var va := mesh.vertices[mesh.indices[i]];
      var vb := mesh.vertices[mesh.indices[i + 1]];
      var vc := mesh.vertices[mesh.indices[i + 2]];
      SlotArithmetic(primitiveOffset, t);
      primitives[(primitiveOffset + i) / 3] := Triangle(va, vb, vc);
      i, t := i + 3, t + 1;
    }
    assert primitives[base..base + n] == MeshTriangles(mesh);
  }

  /** One accepted mesh of the second pass: its triangles follow the `slot` triangles already written. */
  method AppendMeshTriangles(primitives: array<Triangle>, mesh: SubMesh, primitiveOffset: nat, ghost slot: nat)
    requires WellFormed(mesh) && primitiveOffset == 3 * slot
    requires primitiveOffset + |mesh.indices| <= 3 * primitives.Length
    modifies primitives
    ensures 3 * (slot + |mesh.indices| / 3) == primitiveOffset + |mesh.indices|
    ensures slot + |mesh.indices| / 3 <= primitives.Length
    ensures primitives[..slot + |mesh.indices| / 3] == old(primitives[..slot]) + MeshTriangles(mesh)
    ensures primitives[slot + |mesh.indices| / 3..] == old(primitives[slot + |mesh.indices| / 3..])
  {
    ghost var n := |mesh.indices| / 3;
    assert |mesh.indices| == 3 * n && primitiveOffset / 3 == slot;
    WriteMeshTriangles(primitives, mesh, primitiveOffset);
    assert primitives[..slot + n] == primitives[..slot] + primitives[slot..slot + n];
  }

  /** The second pass of `RebuildBvh`: the triangles of every accepted mesh, in list order. */
  method FillPrimitives(meshes: seq<SubMesh>, primitives: array<Triangle>)
    requires Buildable(meshes) && 3 * primitives.Length == TotalIndices(meshes)
    modifies primitives
    ensures primitives[..] == BuildPrimitives(meshes)
  {
    var primitiveOffset := 0;
    ghost var slot := 0;
    var i := 0;
    while i < |meshes|
      invariant 0 <= i <= |meshes|
      invariant primitiveOffset == TotalIndices(meshes[..i]) == 3 * slot
      invariant slot <= primitives.Length
      invariant primitives[..slot] == BuildPrimitives(meshes[..i])
    {
      FillSnoc(meshes, i);
      var mesh := meshes[i];
      if ShouldUseMesh(mesh) {
        assert WellFormed(mesh);
        AppendMeshTriangles(primitives, mesh, primitiveOffset, slot);
        primitiveOffset, slot := primitiveOffset + |mesh.indices|, slot + |mesh.indices| / 3;
      }
      i := i + 1;
    }
    assert meshes[..i] == meshes;
    assert primitives[..] == primitives[..slot];
  }

  /** The corner loop of `RebuildAnimatedBvh`: each corner of triple `i` at its rest position, then posed. */
  method PoseTriangle(mesh: SubMesh, i: nat, pose: VertexPoser) returns (tri: Triangle)
    requires WellFormed(mesh) && i + 2 < |mesh.indices|
    ensures tri == PosedTriangleAt(mesh, i, pose)
  {
    var corners: seq<Vec3> := [];
    var j := 0;
    while j < 3
      invariant 0 <= j <= 3 && |corners| == j
      invariant forall d :: 0 <= d < j ==> corners[d] == PosedCorner(mesh, i + d, pose)
    {
      var idx := mesh.indices[i + j];
      var pos := mesh.vertices[idx];
      pos := pose(mesh, idx, pos);
      corners := corners + [pos];
      j := j + 1;
    }
    tri := Triangle(corners[0], corners[1], corners[2]);
  }

  /**
   * The index visitor of `RebuildAnimatedBvh`: triple `i` of the range's mesh,
   * posed, overwrites slot `(start + i) / 3`; no other slot changes.
   */
  method WritePosedTriangles(primitives: array<Triangle>, range: MeshRange, pose: VertexPoser)
    requires WellFormed(range.mesh) && range.start % 3 == 0
    requires range.start + |range.mesh.indices| <= 3 * primitives.Length
    modifies primitives
    ensures var base, n := range.start / 3, |range.mesh.indices| / 3;
            && primitives[..base] == old(primitives[..base])
            && primitives[base..base + n] == PosedMeshTriangles(range.mesh, pose)
            && primitives[base + n..] == old(primitives[base + n..])
  {
    var mesh := range.mesh;
    ghost var base, n := range.start / 3, |mesh.indices| / 3;
    var i := 0;
    ghost var t := 0;
    while i < |mesh.indices|
      invariant t <= n && i == 3 * t
      invariant forall s :: 0 <= s < primitives.Length && !(base <= s < base + t) ==> primitives[s] == old(primitives[s])
      invariant forall q :: 0 <= q < t ==> primitives[base + q] == PosedTriangleAt(mesh, 3 * q, pose)
    {
      var tri := PoseTriangle(mesh, i, pose);
      SlotArithmetic(range.start, t);
      primitives[(range.start + i) / 3] := tri;
      i, t := i + 3, t + 1;
    }
    assert primitives[base..base + n] == PosedMeshTriangles(mesh, pose);
  }

  /** One range of the vertex update: its posed triangles follow the `slot` triangles already posed. */
  method RewritePosedTriangles(primitives: array<Triangle>, range: MeshRange, pose: VertexPoser, ghost slot: nat)
    requires WellFormed(range.mesh) && range.start == 3 * slot
    requires range.start + |range.mesh.indices| <= 3 * primitives.Length
    modifies primitives
    ensures primitives[..slot + |range.mesh.indices| / 3] == old(primitives[..slot]) + PosedMeshTriangles(range.mesh, pose)
    ensures primitives[slot + |range.mesh.indices| / 3..] == old(primitives[slot + |range.mesh.indices| / 3..])
  {
    ghost var n := |range.mesh.indices| / 3;
    assert |range.mesh.indices| == 3 * n && range.start / 3 == slot;
    WritePosedTriangles(primitives, range, pose);
    assert primitives[..slot + n] == primitives[..slot] + primitives[slot..slot + n];
  }

  /** What one step of `PoseRanges` needs to know about range `k`, which starts at slot `slot`. */
  lemma PoseStep(rs: seq<MeshRange>, k: nat, pose: VertexPoser, slot: nat)
    requires Partitioned(rs) && k < |rs| && End(rs[..k]) == 3 * slot
    ensures WellFormed(rs[k].mesh) && rs[k].start == 3 * slot
    ensures End(rs[..k + 1]) == 3 * (slot + |rs[k].mesh.indices| / 3) == rs[k].start + |rs[k].mesh.indices| <= End(rs)
    ensures PosedTriangles(Meshes(rs[..k + 1]), pose) == PosedTriangles(Meshes(rs[..k]), pose) + PosedMeshTriangles(rs[k].mesh, pose)
  {
    PrefixEnd(rs, k);
    PrefixEnd(rs, k + 1);
    PosedSnoc(rs, k, pose);
    assert rs[..k + 1][k] == rs[k];
    assert WellFormed(rs[k].mesh);
  }

  /** The vertex update of `RebuildAnimatedBvh`: every triangle of every range, posed, back in its slot. */
  method PoseRanges(primitives: array<Triangle>, rs: seq<MeshRange>, pose: VertexPoser)
    requires Partitioned(rs) && End(rs) == 3 * primitives.Length
    modifies primitives
    ensures primitives[..] == PosedTriangles(Meshes(rs), pose)
  {
    var k := 0;
    ghost var slot := 0;
    while k < |rs|
      invariant 0 <= k <= |rs|
      invariant End(rs[..k]) == 3 * slot <= End(rs)
      invariant primitives[..slot] == PosedTriangles(Meshes(rs[..k]), pose)
    {
      PoseStep(rs, k, pose, slot);
      RewritePosedTriangles(primitives, rs[k], pose, slot);
      k, slot := k + 1, slot + |rs[k].mesh.indices| / 3;
    }
    PrefixEnd(rs, k);
    assert rs[..k] == rs;
    assert slot == primitives.Length;
    assert primitives[..] == primitives[..slot];
  }

  /** The refit of `RebuildAnimatedBvh`: every leaf gets the box of its primitives; nothing else changes. */
  method RefitLeaves(nodes: array<Node>, primitives: array<Triangle>, primitiveIndices: seq<nat>)
    requires Fits(nodes[..], primitiveIndices, primitives.Length)
    modifies nodes
    ensures RefitOf(nodes[..], old(nodes[..]), primitives[..], primitiveIndices)
    ensures forall q :: 0 <= q < nodes.Length && !IsLeaf(old(nodes[q])) ==> nodes[q] == old(nodes[q])
  {
    var n := 0;
    while n < nodes.Length
      invariant 0 <= n <= nodes.Length
      invariant forall q :: n <= q < nodes.Length ==> nodes[q] == old(nodes[q])
      invariant forall q :: 0 <= q < n && !IsLeaf(old(nodes[q])) ==> nodes[q] == old(nodes[q])
      invariant forall q :: 0 <= q < n ==>
        && nodes[q].firstChildOrPrimitive == old(nodes[q]).firstChildOrPrimitive
        && nodes[q].primitiveCount == old(nodes[q]).primitiveCount
      invariant forall q :: 0 <= q < n && IsLeaf(old(nodes[q])) ==>
        nodes[q].box == LeafBox(primitives[..], primitiveIndices, old(nodes[q]).firstChildOrPrimitive, old(nodes[q]).primitiveCount)
    {
      var leaf := nodes[n];
      if IsLeaf(leaf) {
        var bbox := LeafBounds(primitives, primitiveIndices, leaf.firstChildOrPrimitive, leaf.primitiveCount);
        nodes[n] := leaf.(box := bbox);
      }
      n := n + 1;
    }
  }

  class BaseBvhComponent {
    /** `m_bvhData`: null until the first rebuild and after `ClearBvh`. */
    var bvhData: BvhData?

    ghost predicate Valid()
      reads this, bvhData, if bvhData != null then {bvhData.nodes, bvhData.primitives} else {}
    {
      bvhData != null ==> bvhData.Valid()
    }

    constructor()
      ensures bvhData == null && Valid()
    {
      bvhData := null;
    }

    /** Drops the BVH; queries report no hit until the next rebuild. */
    method ClearBvh()
      modifies this
      ensures bvhData == null && Valid()
    {
      bvhData := null;
    }

    /**
     * Replaces the BVH by one over the triangle meshes of `meshes`: one range
     * per accepted mesh, in list order, and the triangles of every accepted
     * mesh in the same order. `tree` is what the library's builder makes of
     * those triangles.
     */
    method RebuildBvh(meshes: seq<SubMesh>, tree: Hierarchy) returns (ok: bool)
      requires Buildable(meshes)
      requires Fits(tree.nodes, tree.primitiveIndices, |BuildPrimitives(meshes)|)
      requires LeavesBound(tree.nodes, BuildPrimitives(meshes), tree.primitiveIndices)
      modifies this
      ensures ok && Valid()
      ensures bvhData != null && fresh(bvhData) && fresh(bvhData.primitives) && fresh(bvhData.nodes)
      ensures bvhData.meshRanges == BuildRanges(meshes)
      ensures bvhData.primitives[..] == BuildPrimitives(meshes)
      ensures bvhData.nodes[..] == tree.nodes && bvhData.primitiveIndices == tree.primitiveIndices
    {
      var data := new BvhData();
      bvhData := data;
      var numVerts;
      data.meshRanges, numVerts := CollectRanges(meshes);
      BuildPrimitivesLayout(meshes);
      var primitives := new Triangle[numVerts / 3];
      FillPrimitives(meshes, primitives);
      data.primitives := primitives;
      data.InitializeIntersectorData(tree);
      ok := true;
    }

    /**
     * For an entity with a model and an animated component: moves every
     * triangle of the BVH to its posed position, keeping each in its slot,
     * then gives every leaf the box of its posed triangles. Without either
     * component nothing changes.
     */
    method RebuildAnimatedBvh(hasModelComponent: bool, hasAnimatedComponent: bool, pose: VertexPoser)
      requires Valid()
      requires hasModelComponent && hasAnimatedComponent ==> bvhData != null
      modifies if bvhData != null then {bvhData.primitives, bvhData.nodes} else {}
      ensures Valid()
      ensures hasModelComponent && hasAnimatedComponent ==>
        && bvhData.primitives[..] == PosedTriangles(Meshes(bvhData.meshRanges), pose)
        && RefitOf(bvhData.nodes[..], old(bvhData.nodes[..]), bvhData.primitives[..], bvhData.primitiveIndices)
      ensures !(hasModelComponent && hasAnimatedComponent) && bvhData != null ==>
        bvhData.primitives[..] == old(bvhData.primitives[..]) && bvhData.nodes[..] == old(bvhData.nodes[..])
    {
      if !hasModelComponent || !hasAnimatedComponent {
        return;
      }
      var data := bvhData;
      PoseRanges(data.primitives, data.meshRanges, pose);
      RefitLeaves(data.nodes, data.primitives, data.primitiveIndices);
      RefitBounds(data.nodes[..], old(data.nodes[..]), data.primitives[..], data.primitiveIndices);
    }

    /**
     * A ray query. `hit` is the traverser's closest hit on the tree (`None`
     * when the ray meets no triangle); it names an existing primitive. With no
     * BVH, or no hit, the query fails and `outHitInfo` is left as it was;
     * otherwise the hit is attributed by `ResolveHit`.
     */
    method IntersectionTest(hit: Option<TraversalHit>, outHitInfo: BvhHitInfo) returns (found: bool, hitInfo: BvhHitInfo)
      requires Valid()
      requires bvhData != null && hit.Some? ==> hit.value.primitiveIndex < bvhData.primitives.Length
      ensures found <==> bvhData != null && hit.Some?
      ensures !found ==> hitInfo == outHitInfo
      ensures found ==>
        && SortedByStart(bvhData.meshRanges) && |bvhData.meshRanges| > 0
        && hitInfo == ResolveHit(bvhData.meshRanges, hit.value)
    {
      hitInfo := outHitInfo;
      if bvhData == null {
        return false, hitInfo;
      }
      if hit.None? {
        return false, hitInfo;
      }
      var p := hit.value.primitiveIndex;
      var rs := bvhData.meshRanges;
      ChainedIsSorted(rs);
      assert |rs| > 0 && rs[0].start == 0;
      var it := UpperBound(rs, p);
      it := it - 1;
      hitInfo := hitInfo.(primitiveIndex := p - rs[it].start);
      hitInfo := hitInfo.(distance := hit.value.distance);
      hitInfo := hitInfo.(u := hit.value.u);
      hitInfo := hitInfo.(v := hit.value.v);
      hitInfo := hitInfo.(t := hit.value.t);
      hitInfo := hitInfo.(mesh := Some(rs[it].mesh));
      found := true;
    }

    /** The query returning its result: `Some` exactly when the out-parameter form reports a hit. */
    method IntersectionTestOptional(hit: Option<TraversalHit>) returns (r: Option<BvhHitInfo>)
      requires Valid()
      requires bvhData != null && hit.Some? ==> hit.value.primitiveIndex < bvhData.primitives.Length
      ensures r.Some? <==> bvhData != null && hit.Some?
      ensures r.Some? ==>
        && SortedByStart(bvhData.meshRanges) && |bvhData.meshRanges| > 0
        && r.value == ResolveHit(bvhData.meshRanges, hit.value)
    {
      var found, hitInfo := IntersectionTest(hit, EmptyHitInfo);
      if found {
        r := Some(hitInfo);
      } else {
        r := None;
      }
    }
  }

  /**
   * Posing with the rest pose reproduces the triangles of the build, so an
   * animated rebuild at rest leaves the primitives as `RebuildBvh` made them.
   */
  lemma RestPoseRebuildKeepsPrimitives(meshes: seq<SubMesh>)
    requires Buildable(meshes)
    ensures PosedTriangles(Meshes(BuildRanges(meshes)), RestPose) == BuildPrimitives(meshes)
  {
    BuildPrimitivesLayout(meshes);
    RestPoseIsBuild(Meshes(BuildRanges(meshes)));
  }
}
