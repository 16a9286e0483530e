/**
 * The meshes a BVH is built from, the mesh ranges `RebuildBvh` records for
 * them, and the flattened primitive array it fills.
 *
 * The specification functions are left folds over the mesh list, the order
 * in which `RebuildBvh` walks it; the lemmas state what the folds mean: the
 * ranges form a contiguous chain starting at 0, so they are sorted and
 * pairwise disjoint and cover every index below the total, and triple `t`
 * of the mesh of range `k` lands in slot `(start + 3t) / 3`, one slot per
 * triple, with no slot left over.
 */
module BvhMeshRanges {
  import opened BvhGeometry

  /** Only `Triangles` matters here; every other geometry type is skipped alike. */
  datatype GeometryType = Triangles | OtherGeometry

  /** A sub-mesh: an identity, its geometry type, vertex positions and index buffer. */
  datatype SubMesh = SubMesh(id: nat, geometryType: GeometryType, vertices: seq<Vec3>, indices: seq<nat>)

  /** `shouldUseMesh`: only triangle meshes take part in the BVH. */
  predicate ShouldUseMesh(m: SubMesh) {
    m.geometryType == Triangles
  }

  /**
   * What the build loop needs of an accepted mesh: it reads the index buffer in
   * whole triples and looks every index up in the vertex array, both unchecked.
   */
  predicate WellFormed(m: SubMesh) {
    && |m.indices| % 3 == 0
    && forall i :: 0 <= i < |m.indices| ==> m.indices[i] < |m.vertices|
  }

  predicate Buildable(meshes: seq<SubMesh>) {
    forall i :: 0 <= i < |meshes| && ShouldUseMesh(meshes[i]) ==> WellFormed(meshes[i])
  }

  /** The position named by index `i` of the mesh (the origin for an index out of range). */
  function Corner(m: SubMesh, i: nat): Vec3 {
    if i < |m.indices| && m.indices[i] < |m.vertices| then m.vertices[m.indices[i]] else Vec3(0, 0, 0)
  }

  /** The triangle named by the index triple that starts at `i`. */
  function TriangleAt(m: SubMesh, i: nat): Triangle {
    Triangle(Corner(m, i), Corner(m, i + 1), Corner(m, i + 2))
  }

  /** The triangles of one mesh, one per index triple, in index-buffer order. */
  function MeshTriangles(m: SubMesh): (ts: seq<Triangle>)
    ensures |ts| == |m.indices| / 3
    ensures forall t :: 0 <= t < |ts| ==> ts[t] == TriangleAt(m, 3 * t)
  {
    seq(|m.indices| / 3, t requires 0 <= t => TriangleAt(m, 3 * t))
  }

  /** `BvhData::MeshRange`: the mesh and the half-open span `[start, end)` it was given. */
  datatype MeshRange = MeshRange(mesh: SubMesh, start: nat, end: nat)

  /** `MeshRange::operator<`: ranges are ordered by their start alone. */
  predicate RangeLess(a: MeshRange, b: MeshRange) {
    a.start < b.start
  }

  /** The sum of the index counts of the accepted meshes (`numVerts`, `primitiveOffset`). */
  function TotalIndices(meshes: seq<SubMesh>): nat {
    if |meshes| == 0 then 0
    else
      var m := meshes[|meshes| - 1];
      TotalIndices(meshes[..|meshes| - 1]) + (if ShouldUseMesh(m) then |m.indices| else 0)
  }

  /** The meshes that pass `shouldUseMesh`, in their original order. */
  function AcceptedMeshes(meshes: seq<SubMesh>): (r: seq<SubMesh>)
    ensures |r| <= |meshes|
    ensures forall k :: 0 <= k < |r| ==> ShouldUseMesh(r[k])
  {
    if |meshes| == 0 then []
    else
      var m := meshes[|meshes| - 1];
      AcceptedMeshes(meshes[..|meshes| - 1]) + (if ShouldUseMesh(m) then [m] else [])
  }

  /** The input position of each accepted mesh, in the order the filter keeps them. */
  function AcceptedPositions(meshes: seq<SubMesh>): seq<nat> {
    if |meshes| == 0 then []
    else
      var n := |meshes| - 1;
      AcceptedPositions(meshes[..n]) + (if ShouldUseMesh(meshes[n]) then [n] else [])
  }

  /** Kept mesh `k` is the input mesh at the `k`th accepted position. */
  lemma {:induction false} AcceptedPositionsMatch(meshes: seq<SubMesh>)
    ensures |AcceptedPositions(meshes)| == |AcceptedMeshes(meshes)|
    ensures forall k :: 0 <= k < |AcceptedPositions(meshes)| ==>
              AcceptedPositions(meshes)[k] < |meshes| && meshes[AcceptedPositions(meshes)[k]] == AcceptedMeshes(meshes)[k]
  {
    if |meshes| > 0 {
      var n := |meshes| - 1;
      var init := meshes[..n];
      AcceptedPositionsMatch(init);
      var pre, acc := AcceptedPositions(init), AcceptedMeshes(init);
      var pos, r := AcceptedPositions(meshes), AcceptedMeshes(meshes);
      assert forall k :: 0 <= k < |pre| ==> init[pre[k]] == meshes[pre[k]];
      if ShouldUseMesh(meshes[n]) {
        assert pos == pre + [n] && r == acc + [meshes[n]];
        assert forall k :: 0 <= k < |pre| ==> pos[k] == pre[k] && r[k] == acc[k];
      } else {
        assert pos == pre && r == acc;
      }
    }
  }

  /** The accepted positions increase, and every triangle mesh's position is among them. */
  lemma {:induction false} AcceptedPositionsOrdered(meshes: seq<SubMesh>)
    ensures forall k :: 0 <= k < |AcceptedPositions(meshes)| ==> AcceptedPositions(meshes)[k] < |meshes|
    ensures forall k, l :: 0 <= k < l < |AcceptedPositions(meshes)| ==> AcceptedPositions(meshes)[k] < AcceptedPositions(meshes)[l]
    ensures forall j :: 0 <= j < |meshes| && ShouldUseMesh(meshes[j]) ==> j in AcceptedPositions(meshes)
  {
    if |meshes| > 0 {
      var n := |meshes| - 1;
      var init := meshes[..n];
      AcceptedPositionsOrdered(init);
      var pre, pos := AcceptedPositions(init), AcceptedPositions(meshes);
      assert forall j :: 0 <= j < n && ShouldUseMesh(meshes[j]) ==> j in pre by {
        forall j | 0 <= j < n && ShouldUseMesh(meshes[j]) ensures j in pre {
          assert init[j] == meshes[j];
        }
      }
      if ShouldUseMesh(meshes[n]) {
        assert pos == pre + [n];
        assert forall k :: 0 <= k < |pre| ==> pos[k] == pre[k];
      } else {
        assert pos == pre;
      }
    }
  }

  /**
   * The filter keeps exactly the triangle meshes, in input order: kept mesh
   * `k` is input mesh `AcceptedPositions(meshes)[k]`, those positions
   * increase, and every triangle mesh's position is among them.
   */
  lemma AcceptedMeshesExactly(meshes: seq<SubMesh>)
    ensures |AcceptedPositions(meshes)| == |AcceptedMeshes(meshes)|
    ensures forall k :: 0 <= k < |AcceptedPositions(meshes)| ==>
              AcceptedPositions(meshes)[k] < |meshes| && meshes[AcceptedPositions(meshes)[k]] == AcceptedMeshes(meshes)[k]
    ensures forall k, l :: 0 <= k < l < |AcceptedPositions(meshes)| ==> AcceptedPositions(meshes)[k] < AcceptedPositions(meshes)[l]
    ensures forall j :: 0 <= j < |meshes| && ShouldUseMesh(meshes[j]) ==> j in AcceptedPositions(meshes)
  {
    AcceptedPositionsMatch(meshes);
    AcceptedPositionsOrdered(meshes);
  }

  /** The mesh ranges of the first loop of `RebuildBvh`. */
  function BuildRanges(meshes: seq<SubMesh>): seq<MeshRange> {
    if |meshes| == 0 then []
    else
      var init, m := meshes[..|meshes| - 1], meshes[|meshes| - 1];
      if ShouldUseMesh(m) then
        BuildRanges(init) + [MeshRange(m, TotalIndices(init), TotalIndices(init) + |m.indices|)]
      else
        BuildRanges(init)
  }

  /** The triangles of several meshes, concatenated in order. */
  function FlatTriangles(ms: seq<SubMesh>): seq<Triangle> {
    if |ms| == 0 then [] else FlatTriangles(ms[..|ms| - 1]) + MeshTriangles(ms[|ms| - 1])
  }

  /** The primitive array `RebuildBvh` fills: the triangles of the accepted meshes only. */
  function BuildPrimitives(meshes: seq<SubMesh>): seq<Triangle> {
    FlatTriangles(AcceptedMeshes(meshes))
  }

  function Meshes(rs: seq<MeshRange>): (ms: seq<SubMesh>)
    ensures |ms| == |rs| && forall k :: 0 <= k < |rs| ==> ms[k] == rs[k].mesh
  {
    seq(|rs|, k requires 0 <= k < |rs| => rs[k].mesh)
  }

  /** Where the chain of ranges ends: the last range's `end`, or 0. */
  function End(rs: seq<MeshRange>): nat {
    if |rs| == 0 then 0 else rs[|rs| - 1].end
  }

  /** Each range is as long as its mesh's index count, and each starts where the previous one ends, the first at 0. */
  ghost predicate Chained(rs: seq<MeshRange>) {
    && (forall k :: 0 <= k < |rs| ==> rs[k].end == rs[k].start + |rs[k].mesh.indices|)
    && (|rs| > 0 ==> rs[0].start == 0)
    && (forall i, j :: 0 <= i < j < |rs| && j == i + 1 ==> rs[j].start == rs[i].end)
  }

  /** The state `RebuildBvh` leaves: a chain of ranges over well-formed triangle meshes. */
  ghost predicate Partitioned(rs: seq<MeshRange>) {
    && Chained(rs)
    && forall k :: 0 <= k < |rs| ==> ShouldUseMesh(rs[k].mesh) && WellFormed(rs[k].mesh)
  }

  lemma MeshesSnoc(rs: seq<MeshRange>, r: MeshRange)
    ensures Meshes(rs + [r]) == Meshes(rs) + [r.mesh]
  {
    assert Meshes(rs + [r])[|rs|] == r.mesh;
  }

  /** A range appended where a chain ends, as long as its mesh's index count, extends the chain. */
  lemma ChainedSnoc(rs: seq<MeshRange>, r: MeshRange)
    requires Chained(rs) && r.start == End(rs) && r.end == r.start + |r.mesh.indices|
    ensures Chained(rs + [r]) && End(rs + [r]) == r.end
  {
  }

  /** The ranges `RebuildBvh` records form a chain that ends at the total index count. */
  lemma {:induction false} BuildRangesChained(meshes: seq<SubMesh>)
    ensures Chained(BuildRanges(meshes))
    ensures End(BuildRanges(meshes)) == TotalIndices(meshes)
  {
    if |meshes| > 0 {
      var init, m := meshes[..|meshes| - 1], meshes[|meshes| - 1];
      BuildRangesChained(init);
      if ShouldUseMesh(m) {
        ChainedSnoc(BuildRanges(init), MeshRange(m, TotalIndices(init), TotalIndices(init) + |m.indices|));
      }
    }
  }

  /** The ranges are over exactly the accepted meshes, in their order. */
  lemma {:induction false} BuildRangesMeshes(meshes: seq<SubMesh>)
    ensures Meshes(BuildRanges(meshes)) == AcceptedMeshes(meshes)
  {
    if |meshes| > 0 {
      var init, m := meshes[..|meshes| - 1], meshes[|meshes| - 1];
      BuildRangesMeshes(init);
      if ShouldUseMesh(m) {
        MeshesSnoc(BuildRanges(init), MeshRange(m, TotalIndices(init), TotalIndices(init) + |m.indices|));
      }
    }
  }

  /** On well-formed input every range is over a well-formed triangle mesh. */
  lemma {:induction false} BuildRangesWellFormed(meshes: seq<SubMesh>)
    requires Buildable(meshes)
    ensures forall k :: 0 <= k < |BuildRanges(meshes)| ==>
              ShouldUseMesh(BuildRanges(meshes)[k].mesh) && WellFormed(BuildRanges(meshes)[k].mesh)
  {
    if |meshes| > 0 {
      var init := meshes[..|meshes| - 1];
      assert Buildable(init) by {
        forall i | 0 <= i < |init| ensures init[i] == meshes[i] { }
      }
      BuildRangesWellFormed(init);
    }
  }

  /**
   * The ranges `RebuildBvh` records form a chain ending at the total index
   * count, over exactly the accepted meshes in their order; on well-formed
   * input they are `Partitioned`.
   */
  lemma BuildRangesShape(meshes: seq<SubMesh>)
    ensures Chained(BuildRanges(meshes))
    ensures End(BuildRanges(meshes)) == TotalIndices(meshes)
    ensures Meshes(BuildRanges(meshes)) == AcceptedMeshes(meshes)
    ensures Buildable(meshes) ==> Partitioned(BuildRanges(meshes))
  {
    BuildRangesChained(meshes);
    BuildRangesMeshes(meshes);
    if Buildable(meshes) {
      BuildRangesWellFormed(meshes);
    }
  }

  /** In a chain, an earlier range ends no later than a later one starts. */
  lemma {:induction false} ChainedOrdered(rs: seq<MeshRange>, i: nat, j: nat)
    requires Chained(rs) && i < j < |rs|
    ensures rs[i].end <= rs[j].start
    decreases j
  {
    if i < j - 1 {
      ChainedOrdered(rs, i, j - 1);
    }
  }

  /** Sorted by `start` (`RangeLess` never goes backwards) and pairwise disjoint as half-open spans. */
  lemma ChainedSortedDisjoint(rs: seq<MeshRange>)
    requires Chained(rs)
    ensures forall i, j :: 0 <= i < j < |rs| ==> !RangeLess(rs[j], rs[i])
    ensures forall i, j :: 0 <= i < j < |rs| ==> rs[i].end <= rs[j].start
  {
    forall i, j | 0 <= i < j < |rs| ensures rs[i].end <= rs[j].start {
      ChainedOrdered(rs, i, j);
    }
  }

  /** The range that holds index `x`: a linear scan from the back. */
  function RangeContaining(rs: seq<MeshRange>, x: nat): (k: nat)
    requires Chained(rs) && x < End(rs)
    ensures k < |rs| && rs[k].start <= x < rs[k].end
  {
    if rs[|rs| - 1].start <= x then |rs| - 1
    else RangeContaining(rs[..|rs| - 1], x)
  }

  /** Every index below the chain's end lies in exactly one range. */
  lemma RangeContainingUnique(rs: seq<MeshRange>, x: nat, j: nat)
    requires Chained(rs) && x < End(rs)
    requires j < |rs| && rs[j].start <= x < rs[j].end
    ensures j == RangeContaining(rs, x)
  {
    var k := RangeContaining(rs, x);
    if j < k {
      ChainedOrdered(rs, j, k);
    } else if k < j {
      ChainedOrdered(rs, k, j);
    }
  }

  /** Thirds of multiples of 3 add up. */
  lemma ThirdsAdd(a: nat, b: nat)
    requires a % 3 == 0 && b % 3 == 0
    ensures (a + b) % 3 == 0 && (a + b) / 3 == a / 3 + b / 3
  {
    var p, q := a / 3, b / 3;
    assert a == 3 * p && b == 3 * q;
    assert a + b == 3 * (p + q);
  }

  /** On a partition, the range at position `k` starts where the prefix before it ends. */
  lemma PrefixEnd(rs: seq<MeshRange>, k: nat)
    requires Partitioned(rs) && k <= |rs|
    ensures Partitioned(rs[..k])
    ensures k < |rs| ==> rs[k].start == End(rs[..k])
    ensures k == |rs| ==> End(rs[..k]) == End(rs)
    ensures End(rs[..k]) <= End(rs)
  {
    if k < |rs| && 0 < k {
      ChainedOrdered(rs, k - 1, |rs| - 1);
    }
    assert k == |rs| ==> rs[..k] == rs;
  }

  /** On a partition the chain ends at a multiple of 3. */
  lemma {:induction false} EndAligned(rs: seq<MeshRange>)
    requires Partitioned(rs)
    ensures End(rs) % 3 == 0
  {
    if |rs| > 0 {
      var init := rs[..|rs| - 1];
      PrefixEnd(rs, |rs| - 1);
      EndAligned(init);
      ThirdsAdd(End(init), |rs[|rs| - 1].mesh.indices|);
    }
  }

  /** The triangles of the ranges' meshes number a third of the chain's end. */
  lemma {:induction false} FlatTrianglesCount(rs: seq<MeshRange>)
    requires Partitioned(rs)
    ensures |FlatTriangles(Meshes(rs))| == End(rs) / 3
  {
    if |rs| > 0 {
      var init := rs[..|rs| - 1];
      PrefixEnd(rs, |rs| - 1);
      FlatTrianglesCount(init);
      EndAligned(init);
      FlatTrianglesSnoc(rs);
      ThirdsAdd(End(init), |rs[|rs| - 1].mesh.indices|);
    }
  }

  /** On a partition every bound is a multiple of 3 and the triangles number a third of the end. */
  lemma PartitionedAligned(rs: seq<MeshRange>)
    requires Partitioned(rs)
    ensures End(rs) % 3 == 0
    ensures |FlatTriangles(Meshes(rs))| == End(rs) / 3
    ensures forall k :: 0 <= k < |rs| ==> rs[k].start % 3 == 0 && rs[k].end % 3 == 0
  {
    EndAligned(rs);
    FlatTrianglesCount(rs);
    forall k | 0 <= k < |rs| ensures rs[k].start % 3 == 0 && rs[k].end % 3 == 0 {
      PrefixEnd(rs, k);
      EndAligned(rs[..k]);
      ThirdsAdd(rs[k].start, |rs[k].mesh.indices|);
    }
  }

  /**
   * The flattened-slot mapping: triple `t` of the mesh of range `k` is in slot
   * `(start + 3t) / 3` of the primitive array.
   */
  lemma SlotArithmetic(a: nat, t: nat)
    requires a % 3 == 0
    ensures (a + 3 * t) / 3 == a / 3 + t
  {
    var q := a / 3;
    assert a == 3 * q;
    assert a + 3 * t == 3 * (q + t);
  }

  lemma FlatTrianglesSnoc(rs: seq<MeshRange>)
    requires |rs| > 0
    ensures FlatTriangles(Meshes(rs)) == FlatTriangles(Meshes(rs[..|rs| - 1])) + MeshTriangles(rs[|rs| - 1].mesh)
  {
    assert Meshes(rs)[..|rs| - 1] == Meshes(rs[..|rs| - 1]);
  }

  lemma FlatTrianglesPrefixIndex(rs: seq<MeshRange>, slot: nat)
    requires |rs| > 0 && slot < |FlatTriangles(Meshes(rs[..|rs| - 1]))|
    ensures slot < |FlatTriangles(Meshes(rs))|
    ensures FlatTriangles(Meshes(rs))[slot] == FlatTriangles(Meshes(rs[..|rs| - 1]))[slot]
  {
    FlatTrianglesSnoc(rs);
  }

  lemma PartitionedPrefix(rs: seq<MeshRange>, n: nat)
    requires Partitioned(rs) && n <= |rs|
    ensures Partitioned(rs[..n])
  {
  }

  lemma AppendedTriangle(front: seq<Triangle>, m: SubMesh, t: nat)
    requires t < |m.indices| / 3
    ensures |front| + t < |front + MeshTriangles(m)|
    ensures (front + MeshTriangles(m))[|front| + t] == TriangleAt(m, 3 * t)
  {
  }

  /** The triples of the last range fill the slots after those of the ranges before it. */
  lemma SlotOfLastRange(rs: seq<MeshRange>, t: nat)
    requires Partitioned(rs) && |rs| > 0 && t < |rs[|rs| - 1].mesh.indices| / 3
    ensures rs[|rs| - 1].start / 3 + t < |FlatTriangles(Meshes(rs))|
    ensures FlatTriangles(Meshes(rs))[rs[|rs| - 1].start / 3 + t] == TriangleAt(rs[|rs| - 1].mesh, 3 * t)
  {
    var init, r := rs[..|rs| - 1], rs[|rs| - 1];
    PrefixEnd(rs, |rs| - 1);
    FlatTrianglesCount(init);
    FlatTrianglesSnoc(rs);
    AppendedTriangle(FlatTriangles(Meshes(init)), r.mesh, t);
  }

  /** Triple `t` of the mesh of range `k` is in slot `start / 3 + t` of the primitive array. */
  lemma {:induction false} SlotContents(rs: seq<MeshRange>, k: nat, t: nat)
    requires Partitioned(rs) && k < |rs| && t < |rs[k].mesh.indices| / 3
    ensures rs[k].start / 3 + t < |FlatTriangles(Meshes(rs))|
    ensures FlatTriangles(Meshes(rs))[rs[k].start / 3 + t] == TriangleAt(rs[k].mesh, 3 * t)
  {
    if k < |rs| - 1 {
      var init := rs[..|rs| - 1];
      PartitionedPrefix(rs, |rs| - 1);
      assert init[k] == rs[k];
      SlotContents(init, k, t);
      FlatTrianglesPrefixIndex(rs, rs[k].start / 3 + t);
    } else {
      SlotOfLastRange(rs, t);
    }
  }

  /**
   * The slot `IntersectionTest`'s layout gives triple `t` of range `k`,
   * `(start + 3t) / 3`, holds that triple's triangle.
   */
  lemma SlotHoldsTriple(rs: seq<MeshRange>, k: nat, t: nat)
    requires Partitioned(rs) && k < |rs| && t < |rs[k].mesh.indices| / 3
    ensures (rs[k].start + 3 * t) / 3 == rs[k].start / 3 + t
    ensures rs[k].start / 3 + t < |FlatTriangles(Meshes(rs))|
    ensures FlatTriangles(Meshes(rs))[rs[k].start / 3 + t] == TriangleAt(rs[k].mesh, 3 * t)
  {
    PartitionedAligned(rs);
    SlotArithmetic(rs[k].start, t);
    SlotContents(rs, k, t);
  }

  /** Different triples of different or equal ranges never share a slot. */
  lemma SlotsInjective(rs: seq<MeshRange>, k1: nat, t1: nat, k2: nat, t2: nat)
    requires Partitioned(rs)
    requires k1 < |rs| && t1 < |rs[k1].mesh.indices| / 3
    requires k2 < |rs| && t2 < |rs[k2].mesh.indices| / 3
    requires (rs[k1].start + 3 * t1) / 3 == (rs[k2].start + 3 * t2) / 3
    ensures k1 == k2 && t1 == t2
  {
    SlotHoldsTriple(rs, k1, t1);
    SlotHoldsTriple(rs, k2, t2);
    PartitionedAligned(rs);
    if k1 < k2 {
      ChainedOrdered(rs, k1, k2);
    } else if k2 < k1 {
      ChainedOrdered(rs, k2, k1);
    }
  }

  /** Every slot of the primitive array is the slot of some triple of some range. */
  lemma SlotsCovered(rs: seq<MeshRange>, s: nat)
    requires Partitioned(rs) && s < |FlatTriangles(Meshes(rs))|
    ensures End(rs) == 3 * |FlatTriangles(Meshes(rs))|
    ensures var k := RangeContaining(rs, 3 * s);
            var t := s - rs[k].start / 3;
            && 0 <= t < |rs[k].mesh.indices| / 3
            && (rs[k].start + 3 * t) / 3 == s
  {
    PartitionedAligned(rs);
    var k := RangeContaining(rs, 3 * s);
    assert rs[k].start % 3 == 0 && rs[k].end % 3 == 0;
  }

  /**
   * The primitive array has `TotalIndices / 3` slots, and the accepted meshes'
   * triangles fill it in the order of the ranges.
   */
  lemma BuildPrimitivesLayout(meshes: seq<SubMesh>)
    requires Buildable(meshes)
    ensures TotalIndices(meshes) % 3 == 0
    ensures |BuildPrimitives(meshes)| == TotalIndices(meshes) / 3
    ensures BuildPrimitives(meshes) == FlatTriangles(Meshes(BuildRanges(meshes)))
  {
    BuildRangesShape(meshes);
    PartitionedAligned(BuildRanges(meshes));
  }

  /** One step of the build loops: the specification of a prefix grows by the next mesh. */
  lemma BuildSnoc(meshes: seq<SubMesh>, i: nat)
    requires i < |meshes|
    ensures TotalIndices(meshes[..i + 1]) == TotalIndices(meshes[..i]) + (if ShouldUseMesh(meshes[i]) then |meshes[i].indices| else 0)
    ensures BuildRanges(meshes[..i + 1]) ==
      BuildRanges(meshes[..i]) + (if ShouldUseMesh(meshes[i]) then [MeshRange(meshes[i], TotalIndices(meshes[..i]), TotalIndices(meshes[..i]) + |meshes[i].indices|)] else [])
    ensures BuildPrimitives(meshes[..i + 1]) ==
      BuildPrimitives(meshes[..i]) + (if ShouldUseMesh(meshes[i]) then MeshTriangles(meshes[i]) else [])
  {
    var pre := meshes[..i + 1];
    assert pre[..i] == meshes[..i];
    var acc := AcceptedMeshes(meshes[..i]);
    if ShouldUseMesh(meshes[i]) {
      assert AcceptedMeshes(pre) == acc + [meshes[i]];
      assert (acc + [meshes[i]])[..|acc|] == acc;
    } else {
      assert AcceptedMeshes(pre) == acc;
    }
  }

  /** The index count of a prefix never exceeds the whole, and on well-formed input it is a multiple of 3. */
  lemma {:induction false} TotalIndicesPrefix(meshes: seq<SubMesh>, i: nat)
    requires i <= |meshes|
    ensures TotalIndices(meshes[..i]) <= TotalIndices(meshes)
    ensures Buildable(meshes) ==> TotalIndices(meshes[..i]) % 3 == 0
    decreases |meshes| - i
  {
    if i < |meshes| {
      BuildSnoc(meshes, i);
      TotalIndicesPrefix(meshes, i + 1);
    } else {
      assert meshes[..i] == meshes;
    }
    if Buildable(meshes) {
      assert Buildable(meshes[..i]);
      BuildPrimitivesLayout(meshes[..i]);
    }
  }

  /** One step of the range pass: the count and the ranges of a prefix grow by the next mesh's. */
  lemma RangesSnoc(meshes: seq<SubMesh>, i: nat)
    requires i < |meshes|
    ensures TotalIndices(meshes[..i + 1]) == TotalIndices(meshes[..i]) + (if ShouldUseMesh(meshes[i]) then |meshes[i].indices| else 0)
    ensures BuildRanges(meshes[..i + 1]) ==
      BuildRanges(meshes[..i]) + (if ShouldUseMesh(meshes[i]) then [MeshRange(meshes[i], TotalIndices(meshes[..i]), TotalIndices(meshes[..i]) + |meshes[i].indices|)] else [])
  {
    BuildSnoc(meshes, i);
  }

  /** One step of the primitive pass: the count and the triangles of a prefix grow by the next mesh's, within the total. */
  lemma FillSnoc(meshes: seq<SubMesh>, i: nat)
    requires i < |meshes|
    ensures TotalIndices(meshes[..i + 1]) == TotalIndices(meshes[..i]) + (if ShouldUseMesh(meshes[i]) then |meshes[i].indices| else 0)
    ensures TotalIndices(meshes[..i + 1]) <= TotalIndices(meshes)
    ensures BuildPrimitives(meshes[..i + 1]) ==
      BuildPrimitives(meshes[..i]) + (if ShouldUseMesh(meshes[i]) then MeshTriangles(meshes[i]) else [])
  {
    BuildSnoc(meshes, i);
    TotalIndicesPrefix(meshes, i + 1);
  }

  /**
   * The animation collaborator (`GetLocalVertexPosition`): the current position
   * of vertex `idx` of a mesh, given its rest position.
   */
  type VertexPoser = (SubMesh, nat, Vec3) -> Vec3

  /** The pose that leaves every vertex at its rest position. */
  const RestPose: VertexPoser := (m: SubMesh, idx: nat, p: Vec3) => p

  /** The index stored at position `i` of the buffer (0 out of range). */
  function IndexAt(m: SubMesh, i: nat): nat {
    if i < |m.indices| then m.indices[i] else 0
  }

  function PosedCorner(m: SubMesh, i: nat, pose: VertexPoser): Vec3 {
    pose(m, IndexAt(m, i), Corner(m, i))
  }

  /** The triangle of index triple `i` with every corner moved by `pose`. */
  function PosedTriangleAt(m: SubMesh, i: nat, pose: VertexPoser): Triangle {
    Triangle(PosedCorner(m, i, pose), PosedCorner(m, i + 1, pose), PosedCorner(m, i + 2, pose))
  }

  function PosedMeshTriangles(m: SubMesh, pose: VertexPoser): (ts: seq<Triangle>)
    ensures |ts| == |m.indices| / 3
    ensures forall t :: 0 <= t < |ts| ==> ts[t] == PosedTriangleAt(m, 3 * t, pose)
  {
    seq(|m.indices| / 3, t requires 0 <= t => PosedTriangleAt(m, 3 * t, pose))
  }

  /** The primitive array that `RebuildAnimatedBvh` writes for the meshes of the ranges. */
  function PosedTriangles(ms: seq<SubMesh>, pose: VertexPoser): seq<Triangle> {
    if |ms| == 0 then [] else PosedTriangles(ms[..|ms| - 1], pose) + PosedMeshTriangles(ms[|ms| - 1], pose)
  }

  /** Posing keeps every triangle in its slot: the rest pose gives back the build's triangles. */
  lemma {:induction false} RestPoseIsBuild(ms: seq<SubMesh>)
    ensures PosedTriangles(ms, RestPose) == FlatTriangles(ms)
  {
    if |ms| > 0 {
      RestPoseIsBuild(ms[..|ms| - 1]);
      assert PosedMeshTriangles(ms[|ms| - 1], RestPose) == MeshTriangles(ms[|ms| - 1]);
    }
  }

  /** Posing never changes the number of primitives. */
  lemma {:induction false} PosedTrianglesLength(ms: seq<SubMesh>, pose: VertexPoser)
    ensures |PosedTriangles(ms, pose)| == |FlatTriangles(ms)|
  {
    if |ms| > 0 {
      PosedTrianglesLength(ms[..|ms| - 1], pose);
    }
  }

  /** One step of the animated loop: the posed triangles of a prefix of ranges grow by the next range's mesh. */
  lemma PosedSnoc(rs: seq<MeshRange>, k: nat, pose: VertexPoser)
    requires k < |rs|
    ensures PosedTriangles(Meshes(rs[..k + 1]), pose) == PosedTriangles(Meshes(rs[..k]), pose) + PosedMeshTriangles(rs[k].mesh, pose)
  {
    assert Meshes(rs[..k + 1])[..k] == Meshes(rs[..k]);
  }
}
