/**
 * The exact part of the maths helpers: 3x3 transformation matrices in
 * column-major order, the two angle helpers over the range (-PI, PI], and the
 * packing of a line from two points.
 */
module Math3 {
  import G = Geometry

  /** A 3x3 matrix as 9 numbers in column-major order: entry (row i, column j) is `m[3 * j + i]`. */
  type Mat3 = m: seq<real> | |m| == 9 witness [1.0, 0.0, 0.0, 0.0, 1.0, 0.0, 0.0, 0.0, 1.0]

  /** A homogeneous 2D point `[x, y, 1]` or any 3-vector. */
  type Vec3 = v: seq<real> | |v| == 3 witness [0.0, 0.0, 1.0]

  /** `Math.PI` as a double. */
  const Pi: real := 3.141592653589793

  /** `Matrix3.scale(x, y)`. */
  function Scale(x: real, y: real): Mat3 {
    [x,   0.0, 0.0,
     0.0, y,   0.0,
     0.0, 0.0, 1.0]
  }

  /** `Matrix3.translation(x, y)`. */
  function Translation(x: real, y: real): Mat3 {
    [1.0, 0.0, 0.0,
     0.0, 1.0, 0.0,
     x,   y,   1.0]
  }

  /** `Matrix3.multiply(m1, m2)`, written out entry by entry as in the source. */
  function Multiply(m1: Mat3, m2: Mat3): Mat3 {
    [m1[0]*m2[0]+m1[3]*m2[1]+m1[6]*m2[2], m1[1]*m2[0]+m1[4]*m2[1]+m1[7]*m2[2], m1[2]*m2[0]+m1[5]*m2[1]+m1[8]*m2[2],
     m1[0]*m2[3]+m1[3]*m2[4]+m1[6]*m2[5], m1[1]*m2[3]+m1[4]*m2[4]+m1[7]*m2[5], m1[2]*m2[3]+m1[5]*m2[4]+m1[8]*m2[5],
     m1[0]*m2[6]+m1[3]*m2[7]+m1[6]*m2[8], m1[1]*m2[6]+m1[4]*m2[7]+m1[7]*m2[8], m1[2]*m2[6]+m1[5]*m2[7]+m1[8]*m2[8]]
  }

  /** Row `i` of `m` times the vector `v`, reading `m` column-major. */
  function RowTimes(m: Mat3, i: nat, v: Vec3): real
    requires i < 3
  {
    m[i] * v[0] + m[3 + i] * v[1] + m[6 + i] * v[2]
  }

  /** The linear map a column-major matrix stands for: `m * v`. */
  function Apply(m: Mat3, v: Vec3): Vec3 {
    [RowTimes(m, 0, v), RowTimes(m, 1, v), RowTimes(m, 2, v)]
  }

  /**
   * Entry (row i, column j) of the column-major product m1 * m2: the sum over
   * k of m1[3k + i] * m2[3j + k].
   */
  function ProductEntry(m1: Mat3, m2: Mat3, i: nat, j: nat): real
    requires i < 3 && j < 3
  {
    m1[i] * m2[3 * j] + m1[3 + i] * m2[3 * j + 1] + m1[6 + i] * m2[3 * j + 2]
  }

  /** `multiply` computes every entry of the column-major product. */
  lemma MultiplyEntries(m1: Mat3, m2: Mat3)
    ensures forall i, j :: 0 <= i < 3 && 0 <= j < 3 ==> Multiply(m1, m2)[3 * j + i] == ProductEntry(m1, m2, i, j)
  {
    var p := Multiply(m1, m2);
    assert p[0] == ProductEntry(m1, m2, 0, 0);
    assert p[1] == ProductEntry(m1, m2, 1, 0);
    assert p[2] == ProductEntry(m1, m2, 2, 0);
    assert p[3] == ProductEntry(m1, m2, 0, 1);
    assert p[4] == ProductEntry(m1, m2, 1, 1);
    assert p[5] == ProductEntry(m1, m2, 2, 1);
    assert p[6] == ProductEntry(m1, m2, 0, 2);
    assert p[7] == ProductEntry(m1, m2, 1, 2);
    assert p[8] == ProductEntry(m1, m2, 2, 2);
    forall i, j | 0 <= i < 3 && 0 <= j < 3
      ensures p[3 * j + i] == ProductEntry(m1, m2, i, j)
    {
      if j == 0 {
        if i == 0 {} else if i == 1 {} else {}
      } else if j == 1 {
        if i == 0 {} else if i == 1 {} else {}
      } else {
        if i == 0 {} else if i == 1 {} else {}
      }
    }
  }

  /** The distributive rearrangement behind one row of (m1 * m2) v. */
  lemma RowRearrange(a0: real, a1: real, a2: real,
                     b0: real, b1: real, b2: real, b3: real, b4: real, b5: real, b6: real, b7: real, b8: real,
                     v0: real, v1: real, v2: real)
    ensures (a0 * b0 + a1 * b1 + a2 * b2) * v0 + (a0 * b3 + a1 * b4 + a2 * b5) * v1 + (a0 * b6 + a1 * b7 + a2 * b8) * v2
         == a0 * (b0 * v0 + b3 * v1 + b6 * v2) + a1 * (b1 * v0 + b4 * v1 + b7 * v2) + a2 * (b2 * v0 + b5 * v1 + b8 * v2)
  {
  }

  /** Multiplying matrices composes the transformations: (m1 * m2) v == m1 (m2 v). */
  lemma MultiplyComposes(m1: Mat3, m2: Mat3, v: Vec3)
    ensures Apply(Multiply(m1, m2), v) == Apply(m1, Apply(m2, v))
  {
    var p := Multiply(m1, m2);
    var w := Apply(m2, v);
    assert w[0] == m2[0] * v[0] + m2[3] * v[1] + m2[6] * v[2];
    assert w[1] == m2[1] * v[0] + m2[4] * v[1] + m2[7] * v[2];
    assert w[2] == m2[2] * v[0] + m2[5] * v[1] + m2[8] * v[2];
    RowRearrange(m1[0], m1[3], m1[6], m2[0], m2[1], m2[2], m2[3], m2[4], m2[5], m2[6], m2[7], m2[8], v[0], v[1], v[2]);
    RowRearrange(m1[1], m1[4], m1[7], m2[0], m2[1], m2[2], m2[3], m2[4], m2[5], m2[6], m2[7], m2[8], v[0], v[1], v[2]);
    RowRearrange(m1[2], m1[5], m1[8], m2[0], m2[1], m2[2], m2[3], m2[4], m2[5], m2[6], m2[7], m2[8], v[0], v[1], v[2]);
    assert RowTimes(p, 0, v) == RowTimes(m1, 0, w);
    assert RowTimes(p, 1, v) == RowTimes(m1, 1, w);
    assert RowTimes(p, 2, v) == RowTimes(m1, 2, w);
  }

  /** A translation matrix moves a homogeneous point by its offset. */
  lemma TranslationMovesPoint(x: real, y: real, px: real, py: real)
    ensures Apply(Translation(x, y), [px, py, 1.0]) == [px + x, py + y, 1.0]
  {
  }

  /** A scale matrix stretches a homogeneous point axis by axis. */
  lemma ScaleStretchesPoint(x: real, y: real, px: real, py: real)
    ensures Apply(Scale(x, y), [px, py, 1.0]) == [x * px, y * py, 1.0]
  {
    var v: Vec3 := [px, py, 1.0];
    assert RowTimes(Scale(x, y), 0, v) == x * px;
    assert RowTimes(Scale(x, y), 1, v) == y * py;
  }

  /** Two translations compose into the translation by the summed offsets. */
  lemma TranslationsCompose(a: real, b: real, c: real, d: real)
    ensures Multiply(Translation(a, b), Translation(c, d)) == Translation(a + c, b + d)
  {
  }

  /** Two scalings compose into the scaling by the products of the factors. */
  lemma ScalesCompose(a: real, b: real, c: real, d: real)
    ensures Multiply(Scale(a, b), Scale(c, d)) == Scale(a * c, b * d)
  {
    var p := Multiply(Scale(a, b), Scale(c, d));
    assert p[0] == a * c && p[4] == b * d;
    assert p == Scale(a * c, b * d);
  }

  /** `scale(1, 1)` is a two-sided identity of `multiply`. */
  lemma UnitScaleIsIdentity(m: Mat3)
    ensures Multiply(Scale(1.0, 1.0), m) == m
    ensures Multiply(m, Scale(1.0, 1.0)) == m
  {
    var l := Multiply(Scale(1.0, 1.0), m);
    var r := Multiply(m, Scale(1.0, 1.0));
    assert l[..] == m[..] by {
      assert l[0] == m[0] && l[1] == m[1] && l[2] == m[2];
    }
    assert r == m;
  }

  function Abs(x: real): real { if x < 0.0 then -x else x }

  /** The angle range of `atan2(y, x)`: (-PI, PI]. */
  predicate InAngleRange(a: real) { -Pi < a <= Pi }

  /** `angleDifference`: the unsigned difference of two angles, going the short way round. */
  function AngleDifference(angle1: real, angle2: real): (d: real)
    ensures InAngleRange(angle1) && InAngleRange(angle2) ==> 0.0 <= d <= Pi
    ensures InAngleRange(angle1) && InAngleRange(angle2) ==> (d == 0.0 <==> angle1 == angle2)
  {
    var angle := Abs(angle1 - angle2);
    if angle > Pi then 2.0 * Pi - angle else angle
  }

  lemma AngleDifferenceSymmetric(angle1: real, angle2: real)
    ensures AngleDifference(angle1, angle2) == AngleDifference(angle2, angle1)
  {
  }

  /** `angleAverage`: the angle halfway between two angles, going the short way round. */
  function AngleAverage(angle1: real, angle2: real): (r: real)
    ensures InAngleRange(angle1) && InAngleRange(angle2) ==> InAngleRange(r)
  {
    if Abs(angle1 - angle2) < Pi then
      (angle1 + angle2) / 2.0
    else
      var angle := (angle1 + angle2 + 2.0 * Pi) / 2.0;
      if angle > Pi then angle - 2.0 * Pi else angle
  }

  lemma AngleAverageSymmetric(angle1: real, angle2: real)
    ensures AngleAverage(angle1, angle2) == AngleAverage(angle2, angle1)
  {
  }

  /** The average lies halfway between the two angles: its difference to each is half theirs. */
  lemma AngleAverageBisects(angle1: real, angle2: real)
    requires InAngleRange(angle1) && InAngleRange(angle2)
    ensures AngleDifference(AngleAverage(angle1, angle2), angle1) == AngleDifference(angle1, angle2) / 2.0
    ensures AngleDifference(AngleAverage(angle1, angle2), angle2) == AngleDifference(angle1, angle2) / 2.0
  {
  }

  /** `lineFromTwoPoints`: the array `[x1, y1, x2, y2]`. */
  function LineFromTwoPoints(p1: G.Vec2, p2: G.Vec2): G.Line {
    [p1.x, p1.y, p2.x, p2.y]
  }

  /** The first point of a line array. */
  function LineStart(l: G.Line): G.Vec2 { G.Vec2(l[0], l[1]) }

  /** The second point of a line array. */
  function LineEnd(l: G.Line): G.Vec2 { G.Vec2(l[2], l[3]) }

  /** Packing two points into a line and reading them back are inverse. */
  lemma LineFromTwoPointsRoundTrip(p1: G.Vec2, p2: G.Vec2, l: G.Line)
    ensures LineStart(LineFromTwoPoints(p1, p2)) == p1 && LineEnd(LineFromTwoPoints(p1, p2)) == p2
    ensures LineFromTwoPoints(LineStart(l), LineEnd(l)) == l
  {
  }
}
