/**
 * Points, triangles and axis-aligned bounding boxes, as the BVH component
 * uses them. Coordinates are integers standing in for the engine's floats:
 * only their order matters to the refit step.
 */
module BvhGeometry {

  datatype Vec3 = Vec3(x: int, y: int, z: int)

  /** A primitive of the BVH: three corner positions. */
  datatype Triangle = Triangle(p0: Vec3, p1: Vec3, p2: Vec3)

  /** An axis-aligned box; `Empty` is the box that contains nothing. */
  datatype BoundingBox = Empty | Box(lo: Vec3, hi: Vec3)

  function Min(a: int, b: int): int { if a <= b then a else b }
  function Max(a: int, b: int): int { if a <= b then b else a }

  function MinVec(a: Vec3, b: Vec3): Vec3 { Vec3(Min(a.x, b.x), Min(a.y, b.y), Min(a.z, b.z)) }
  function MaxVec(a: Vec3, b: Vec3): Vec3 { Vec3(Max(a.x, b.x), Max(a.y, b.y), Max(a.z, b.z)) }

  /** Componentwise `a <= b`. */
  predicate LessEq(a: Vec3, b: Vec3) { a.x <= b.x && a.y <= b.y && a.z <= b.z }

  predicate Inside(p: Vec3, b: BoundingBox) {
    b.Box? && LessEq(b.lo, p) && LessEq(p, b.hi)
  }

  /** Every point inside `inner` is inside `outer`. */
  predicate Encloses(outer: BoundingBox, inner: BoundingBox) {
    inner.Empty? || (outer.Box? && LessEq(outer.lo, inner.lo) && LessEq(inner.hi, outer.hi))
  }

  /** The tightest box around a triangle. */
  function TriangleBox(t: Triangle): (b: BoundingBox)
    ensures Inside(t.p0, b) && Inside(t.p1, b) && Inside(t.p2, b)
  {
    Box(MinVec(MinVec(t.p0, t.p1), t.p2), MaxVec(MaxVec(t.p0, t.p1), t.p2))
  }

  /** Growing a box by another: the union of the two. */
  function Extend(b: BoundingBox, c: BoundingBox): (r: BoundingBox)
    ensures Encloses(r, b) && Encloses(r, c)
    ensures forall d: BoundingBox :: Encloses(d, b) && Encloses(d, c) ==> Encloses(d, r)
  {
    match b
    case Empty => c
    case Box(lo, hi) =>
      match c
      case Empty => b
      case Box(lo', hi') => Box(MinVec(lo, lo'), MaxVec(hi, hi'))
  }

  lemma EnclosesTransitive(a: BoundingBox, b: BoundingBox, c: BoundingBox)
    requires Encloses(a, b) && Encloses(b, c)
    ensures Encloses(a, c)
  {
  }

  lemma InsideEnclosed(p: Vec3, inner: BoundingBox, outer: BoundingBox)
    requires Inside(p, inner) && Encloses(outer, inner)
    ensures Inside(p, outer)
  {
  }
}
