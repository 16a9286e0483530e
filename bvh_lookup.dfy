/**
 * Attributing a traversal hit to a mesh range, as `IntersectionTest` does it:
 * `std::upper_bound` over the ranges (ordered by `MeshRange::operator<`) with
 * the hit's `primitive_index` as the search key's `start`, then one step back.
 *
 * `UpperBound` is that binary search, proved equal to a linear scan.
 * `ResolveHit` is the lookup as the component performs it. Range bounds are
 * counted in indices while `primitive_index` counts triangles, so with more
 * than one mesh the lookup can name the wrong mesh (`ResolveHitMisattributes`);
 * `ResolveHitByTriangle` compares in index units and always names the mesh
 * whose triangle fills the slot (`ResolveHitByTriangleAttributes`).
 */
module BvhLookup {
  import opened Wrappers
  import opened BvhGeometry
  import opened BvhMeshRanges

  /** What the traverser reports for the closest hit. The floats are passed through untouched. */
  datatype TraversalHit = TraversalHit(primitiveIndex: nat, u: real, v: real, t: real, distance: real)

  /** `BvhHitInfo`: the hit mesh, the hit's index local to that mesh, and the traverser's values. */
  datatype BvhHitInfo = BvhHitInfo(mesh: Option<SubMesh>, primitiveIndex: nat, distance: real, u: real, v: real, t: real)

  /** A default-constructed `BvhHitInfo {}`. */
  const EmptyHitInfo := BvhHitInfo(None, 0, 0.0, 0.0, 0.0, 0.0)

  /** The order `std::upper_bound` needs: no range is `RangeLess` than one before it. */
  ghost predicate SortedByStart(rs: seq<MeshRange>) {
    forall i, j :: 0 <= i < j < |rs| ==> rs[i].start <= rs[j].start
  }

  /** `std::upper_bound` on `[lo, hi)`: halve the span until it is empty. */
  function UpperBoundIn(rs: seq<MeshRange>, key: nat, lo: nat, hi: nat): (r: nat)
    requires SortedByStart(rs) && lo <= hi <= |rs|
    requires forall k :: 0 <= k < lo ==> rs[k].start <= key
    requires forall k :: hi <= k < |rs| ==> key < rs[k].start
    ensures lo <= r <= hi
    ensures forall k :: 0 <= k < r ==> rs[k].start <= key
    ensures forall k :: r <= k < |rs| ==> key < rs[k].start
    decreases hi - lo
  {
    if lo == hi then lo
    else
      var mid := lo + (hi - lo) / 2;
      if key < rs[mid].start then UpperBoundIn(rs, key, lo, mid)
      else UpperBoundIn(rs, key, mid + 1, hi)
  }

  /** The first position whose range starts after `key` (`|rs|` if there is none). */
  function UpperBound(rs: seq<MeshRange>, key: nat): (r: nat)
    requires SortedByStart(rs)
    ensures r <= |rs|
    ensures forall k :: 0 <= k < r ==> rs[k].start <= key
    ensures forall k :: r <= k < |rs| ==> key < rs[k].start
  {
    UpperBoundIn(rs, key, 0, |rs|)
  }

  /** The reference definition: walk forward while the start is at most `key`. */
  function LinearUpperBound(rs: seq<MeshRange>, key: nat): nat {
    if |rs| == 0 || key < rs[0].start then 0 else 1 + LinearUpperBound(rs[1..], key)
  }

  lemma {:induction false} LinearUpperBoundBounds(rs: seq<MeshRange>, key: nat)
    requires SortedByStart(rs)
    ensures LinearUpperBound(rs, key) <= |rs|
    ensures forall k :: 0 <= k < LinearUpperBound(rs, key) ==> rs[k].start <= key
    ensures forall k :: LinearUpperBound(rs, key) <= k < |rs| ==> key < rs[k].start
  {
    if |rs| > 0 && rs[0].start <= key {
      LinearUpperBoundBounds(rs[1..], key);
    }
  }

  /** The binary search finds the same position as the linear scan. */
  lemma UpperBoundIsLinearScan(rs: seq<MeshRange>, key: nat)
    requires SortedByStart(rs)
    ensures UpperBound(rs, key) == LinearUpperBound(rs, key)
  {
    LinearUpperBoundBounds(rs, key);
    var a, b := UpperBound(rs, key), LinearUpperBound(rs, key);
    assert a < |rs| ==> key < rs[a].start;
    assert b < |rs| ==> key < rs[b].start;
  }

  /** `upper_bound` then `--it`: the last range that starts at or before `key`. */
  function ChosenRange(rs: seq<MeshRange>, key: nat): (k: nat)
    requires SortedByStart(rs) && |rs| > 0 && rs[0].start <= key
    ensures k < |rs| && rs[k].start <= key
    ensures forall j :: k < j < |rs| ==> key < rs[j].start
  {
    UpperBound(rs, key) - 1
  }

  /**
   * The attribution `IntersectionTest` performs on a hit: the range chosen by
   * comparing `primitive_index` against range starts, its mesh, and the index
   * `primitive_index - start`.
   */
  function ResolveHit(rs: seq<MeshRange>, hit: TraversalHit): (info: BvhHitInfo)
    requires SortedByStart(rs) && |rs| > 0 && rs[0].start <= hit.primitiveIndex
    ensures var k := ChosenRange(rs, hit.primitiveIndex);
            && info.mesh == Some(rs[k].mesh)
            && info.primitiveIndex + rs[k].start == hit.primitiveIndex
            && forall j :: k < j < |rs| ==> hit.primitiveIndex < rs[j].start
    ensures info.distance == hit.distance && info.u == hit.u && info.v == hit.v && info.t == hit.t
  {
    var it := ChosenRange(rs, hit.primitiveIndex);
    BvhHitInfo(Some(rs[it].mesh), hit.primitiveIndex - rs[it].start, hit.distance, hit.u, hit.v, hit.t)
  }

  /** A chain of ranges is sorted, so the lookup can be used on what `RebuildBvh` records. */
  lemma ChainedIsSorted(rs: seq<MeshRange>)
    requires Chained(rs)
    ensures SortedByStart(rs)
  {
    ChainedSortedDisjoint(rs);
  }

  /**
   * With a single range, the lookup names the mesh whose triangle fills the hit
   * slot, and the index it reports is that triangle's number within the mesh.
   */
  lemma ResolveHitSingleRange(rs: seq<MeshRange>, hit: TraversalHit)
    requires Partitioned(rs) && |rs| == 1
    requires hit.primitiveIndex < |FlatTriangles(Meshes(rs))|
    ensures SortedByStart(rs)
    ensures var info := ResolveHit(rs, hit);
            && info.mesh == Some(rs[0].mesh)
            && info.primitiveIndex < |rs[0].mesh.indices| / 3
            && FlatTriangles(Meshes(rs))[hit.primitiveIndex] == TriangleAt(rs[0].mesh, 3 * info.primitiveIndex)
  {
    PartitionedAligned(rs);
    SlotHoldsTriple(rs, 0, hit.primitiveIndex);
  }

  /** On a chain, the search's choice for a key below the end is the range holding the key. */
  lemma ChosenIsContaining(rs: seq<MeshRange>, key: nat)
    requires Chained(rs) && key < End(rs)
    ensures SortedByStart(rs) && |rs| > 0 && rs[0].start <= key
    ensures ChosenRange(rs, key) == RangeContaining(rs, key)
  {
    ChainedIsSorted(rs);
    var c := ChosenRange(rs, key);
    if c < |rs| - 1 {
      assert rs[c + 1].start == rs[c].end;
    }
    RangeContainingUnique(rs, key, c);
  }

  /**
   * The attribution compared in index units: the last range whose start is at
   * most `3 * primitive_index`, and the triangle number `primitive_index - start / 3`.
   */
  function ResolveHitByTriangle(rs: seq<MeshRange>, hit: TraversalHit): (info: BvhHitInfo)
    requires SortedByStart(rs) && |rs| > 0 && rs[0].start == 0
    ensures var k := ChosenRange(rs, 3 * hit.primitiveIndex);
            && info.mesh == Some(rs[k].mesh)
            && info.primitiveIndex == hit.primitiveIndex - rs[k].start / 3
    ensures info.distance == hit.distance && info.u == hit.u && info.v == hit.v && info.t == hit.t
  {
    var it := ChosenRange(rs, 3 * hit.primitiveIndex);
    BvhHitInfo(Some(rs[it].mesh), hit.primitiveIndex - rs[it].start / 3, hit.distance, hit.u, hit.v, hit.t)
  }

  /**
   * On the ranges of a build, the index-unit lookup names the range that holds
   * the slot, and the triangle in the slot is that mesh's triangle with the
   * reported number.
   */
  lemma ResolveHitByTriangleAttributes(rs: seq<MeshRange>, hit: TraversalHit)
    requires Partitioned(rs) && hit.primitiveIndex < |FlatTriangles(Meshes(rs))|
    ensures |rs| > 0 && SortedByStart(rs) && 3 * hit.primitiveIndex < End(rs)
    ensures var info := ResolveHitByTriangle(rs, hit);
            var k := RangeContaining(rs, 3 * hit.primitiveIndex);
            && info.mesh == Some(rs[k].mesh)
            && info.primitiveIndex < |rs[k].mesh.indices| / 3
            && FlatTriangles(Meshes(rs))[hit.primitiveIndex] == MeshTriangles(rs[k].mesh)[info.primitiveIndex]
  {
    var p := hit.primitiveIndex;
    SlotOfHit(rs, p);
    var k := RangeContaining(rs, 3 * p);
    var q := rs[k].start / 3;
    SlotTriangle(rs, k, p - q, q, p);
    var info := ResolveHitByTriangle(rs, hit);
    assert info.primitiveIndex == p - q;
    assert MeshTriangles(rs[k].mesh)[info.primitiveIndex] == MeshTriangles(rs[k].mesh)[p - q];
  }

  /** Slot `p` of a build lies in the range the index-unit search chooses, at a triangle number of that range. */
  lemma SlotOfHit(rs: seq<MeshRange>, p: nat)
    requires Partitioned(rs) && p < |FlatTriangles(Meshes(rs))|
    ensures |rs| > 0 && SortedByStart(rs) && 3 * p < End(rs) && rs[0].start == 0
    ensures var k := RangeContaining(rs, 3 * p);
            && ChosenRange(rs, 3 * p) == k
            && rs[k].start / 3 <= p
            && p - rs[k].start / 3 < |rs[k].mesh.indices| / 3
  {
    SlotsCovered(rs, p);
    ChosenIsContaining(rs, 3 * p);
  }

  /** Slot `q + t` of a build, where range `k` starts at slot `q`, holds that mesh's triangle `t`. */
  lemma SlotTriangle(rs: seq<MeshRange>, k: nat, t: nat, q: nat, p: nat)
    requires Partitioned(rs) && k < |rs| && t < |rs[k].mesh.indices| / 3
    requires q == rs[k].start / 3 && p == q + t
    ensures p < |FlatTriangles(Meshes(rs))|
    ensures FlatTriangles(Meshes(rs))[p] == MeshTriangles(rs[k].mesh)[t]
  {
    SlotHoldsTriple(rs, k, t);
  }

  /** Two sample meshes: `A` has two triangles, `B` one. */
  const MeshA := SubMesh(0, Triangles, [Vec3(0, 0, 0), Vec3(1, 0, 0), Vec3(0, 1, 0)], [0, 1, 2, 0, 2, 1])
  const MeshB := SubMesh(1, Triangles, [Vec3(5, 5, 5), Vec3(6, 5, 5), Vec3(5, 6, 5)], [0, 1, 2])

  /**
   * Built from `[A, B]`, the ranges are `A: [0, 6)` and `B: [6, 9)` and slot 2
   * holds B's only triangle; the lookup compares 2 against the starts 0 and 6,
   * names A and reports index 2, past A's two triangles. The index-unit lookup
   * names B, triangle 0.
   */
  lemma ResolveHitMisattributes()
    ensures var rs := BuildRanges([MeshA, MeshB]);
            var hit := TraversalHit(2, 0.0, 0.0, 0.0, 0.0);
            && rs == [MeshRange(MeshA, 0, 6), MeshRange(MeshB, 6, 9)]
            && SortedByStart(rs)
            && |BuildPrimitives([MeshA, MeshB])| == 3
            && BuildPrimitives([MeshA, MeshB])[2] == TriangleAt(MeshB, 0)
            && ResolveHit(rs, hit).mesh == Some(MeshA)
            && ResolveHit(rs, hit).primitiveIndex == 2
            && ResolveHitByTriangle(rs, hit).mesh == Some(MeshB)
            && ResolveHitByTriangle(rs, hit).primitiveIndex == 0
  {
    var ms := [MeshA, MeshB];
    SampleRanges();
    SamplePrimitives();
    var rs := BuildRanges(ms);
    ChainedIsSorted(rs);
    assert ChosenRange(rs, 2) == 0;
    assert ChosenRange(rs, 6) == 1;
  }

  /** The ranges recorded for `[A, B]`. */
  lemma SampleRanges()
    ensures BuildRanges([MeshA, MeshB]) == [MeshRange(MeshA, 0, 6), MeshRange(MeshB, 6, 9)]
    ensures Chained(BuildRanges([MeshA, MeshB]))
  {
    var ms := [MeshA, MeshB];
    assert ms[..1] == [MeshA] && [MeshA][..0] == [];
    assert TotalIndices([MeshA]) == 6;
    assert BuildRanges([MeshA]) == [MeshRange(MeshA, 0, 6)];
  }

  /** The primitives filled for `[A, B]`: A's two triangles, then B's. */
  lemma SamplePrimitives()
    ensures |BuildPrimitives([MeshA, MeshB])| == 3
    ensures BuildPrimitives([MeshA, MeshB])[2] == TriangleAt(MeshB, 0)
  {
    var ms := [MeshA, MeshB];
    assert ms[..1] == [MeshA] && [MeshA][..0] == [];
    assert AcceptedMeshes([MeshA]) == [MeshA];
    assert AcceptedMeshes(ms) == [MeshA, MeshB];
    assert FlatTriangles([MeshA]) == MeshTriangles(MeshA);
    assert FlatTriangles(ms) == MeshTriangles(MeshA) + MeshTriangles(MeshB);
    assert |MeshTriangles(MeshA)| == 2;
  }
}
