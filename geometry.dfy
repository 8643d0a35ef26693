/**
 * Plane geometry shared by the spatial tree, the collision resolver and the
 * navigation graph: points as `[x, y]` pairs, axis-aligned bounding boxes with
 * the two predicates the tree walk tests, and the vector helpers whose
 * implementations are not part of this model.
 */
module Geometry {

  /** A 2D point or displacement, the source's `[x, y]` array. */
  datatype Vec2 = Vec2(x: real, y: real)

  function Add(a: Vec2, b: Vec2): Vec2 { Vec2(a.x + b.x, a.y + b.y) }

  function Sub(a: Vec2, b: Vec2): Vec2 { Vec2(a.x - b.x, a.y - b.y) }

  function Scale(s: real, v: Vec2): Vec2 { Vec2(s * v.x, s * v.y) }

  function Dot(a: Vec2, b: Vec2): real { a.x * b.x + a.y * b.y }

  /** A line as the 4-element array `[x1, y1, x2, y2]`. */
  type Line = l: seq<real> | |l| == 4 witness [0.0, 0.0, 0.0, 0.0]

  /** A static line segment between two map vertices (an edge leaf's `pt1`, `pt2`). */
  datatype Segment = Segment(pt1: Vec2, pt2: Vec2)

  /** An axis-aligned box `{left, right, bottom, top}`. */
  datatype Box = Box(left: real, right: real, bottom: real, top: real)

  /**
   * The pruning test of the tree walk: `c` overlaps `q` with positive extent on
   * both axes (touching boxes do not overlap).
   */
  predicate Overlaps(c: Box, q: Box) {
    c.right > q.left && c.left < q.right && c.top > q.bottom && c.bottom < q.top
  }

  /** The shortcut test of the tree walk: `c` lies inside `q` (borders included). */
  predicate ContainedIn(c: Box, q: Box) {
    c.left >= q.left && c.right <= q.right && c.bottom >= q.bottom && c.top <= q.top
  }

  /** A box with positive extent on both axes. */
  predicate Proper(b: Box) {
    b.left < b.right && b.bottom < b.top
  }

  /** A point inside the closed box. */
  predicate Inside(p: Vec2, b: Box) {
    b.left <= p.x <= b.right && b.bottom <= p.y <= b.top
  }

  /**
   * `BoundingBox.fromPointAndDistance(p, d)`: the square of half-side `d`
   * centred on `p`, written inline in the older map code.
   */
  function BoxAround(p: Vec2, d: real): (b: Box)
    ensures d >= 0.0 ==> Inside(p, b)
  {
    Box(p.x - d, p.x + d, p.y - d, p.y + d)
  }

  lemma OverlapsSymmetric(a: Box, b: Box)
    ensures Overlaps(a, b) <==> Overlaps(b, a)
  {
  }

  /** A box overlapping `q` overlaps `q` through every box that contains it. */
  lemma OverlapsGrows(a: Box, b: Box, q: Box)
    requires ContainedIn(a, b) && Overlaps(a, q)
    ensures Overlaps(b, q)
  {
  }

  /** A proper box inside `q` overlaps `q`. */
  lemma ContainedProperOverlaps(a: Box, q: Box)
    requires ContainedIn(a, q) && Proper(a)
    ensures Overlaps(a, q)
  {
  }

  /**
   * The vector helpers the collision code calls but whose source is not part
   * of this model (`Vector2.length`, `Vector2.normalize`,
   * `lineSegmentCircleCollide`, `Vector2.nearestPointAtLine`), passed around as
   * function values.
   */
  datatype Geometry = Geometry(
    length: Vec2 -> real,
    normalize: Vec2 -> Vec2,
    collide: (Line, Vec2, real) -> bool,
    nearest: (Line, Vec2) -> Vec2)

  /** `Vector2.length` never returns a negative value. */
  ghost predicate NonNegativeLength(g: Geometry) {
    forall v :: g.length(v) >= 0.0
  }

  /**
   * The minimal facts the collision proofs rely on: `length` is the Euclidean
   * norm, and `normalize` returns a vector of norm at most one (exactly one for
   * a non-zero input; the zero vector has no direction).
   */
  ghost predicate Sound(g: Geometry) {
    NonNegativeLength(g) &&
    (forall v :: g.length(v) * g.length(v) == Dot(v, v)) &&
    (forall v :: Dot(g.normalize(v), g.normalize(v)) <= 1.0)
  }

  /** `distanceBetweenTwoPoints`: the length of `p1 - p2`. */
  function Distance(g: Geometry, p1: Vec2, p2: Vec2): real {
    g.length(Sub(p1, p2))
  }
}
