/**
 Geometric primitives of the GPSR decision engine: the C++ conversion of a
 coordinate to int, the (squared) distance every comparison uses, what the
 polar angle guarantees, and the open-interval segment crossing test.
 */
module Geometry {

  /** A point of the shared plane, in exact real coordinates. */
  datatype Point = Point(x: real, y: real)

  /** The constant PI of the routing code, as the decimal written there. */
  const Pi: real := 3.14159265358979323846
  const TwoPi: real := 2.0 * Pi

  /** Conversion of a double to int: truncation toward zero. */
  function Trunc(v: real): (r: int)
    ensures 0.0 <= v ==> r as real <= v < r as real + 1.0
    ensures v < 0.0 ==> r as real - 1.0 < v <= r as real
  {
    if v >= 0.0 then v.Floor else -((-v).Floor)
  }

  /**
   Square of calculateDistance. Its arguments are ints, so the square of
   the distance is an exact int, and since the square root is increasing,
   comparing two distances is comparing their squares.
   */
  function SqDist(x1: int, y1: int, x2: int, y2: int): (d: int)
    ensures d >= 0
    ensures d == 0 <==> x1 == x2 && y1 == y2
  {
    var dx := x1 - x2;
    var dy := y1 - y2;
    assert dx != 0 ==> dx * dx > 0;
    assert dy != 0 ==> dy * dy > 0;
    dx * dx + dy * dy
  }

  /** An angle routine: given (x1, y1) and (x2, y2), the direction of the second point seen from the first. */
  type AngleFn = (real, real, real, real) -> real

  /**
   What the routing code's angle guarantees, which is all the model assumes
   of it: the sentinel -1 exactly for coincident points, otherwise a value in
   [0, 2 pi) that exceeds pi only for a target below the origin.
   */
  ghost predicate IsAngle(angle: AngleFn) {
    forall x1, y1, x2, y2 ::
      && (angle(x1, y1, x2, y2) == -1.0 <==> x1 == x2 && y1 == y2)
      && ((x1 != x2 || y1 != y2) ==> 0.0 <= angle(x1, y1, x2, y2) < TwoPi)
      && ((x1 != x2 || y1 != y2) && Pi < angle(x1, y1, x2, y2) ==> y2 < y1)
  }

  /** A crude angle routine, exact only to the half plane. */
  function HalfPlaneAngle(x1: real, y1: real, x2: real, y2: real): real {
    if x1 == x2 && y1 == y2 then -1.0
    else if y2 < y1 then 1.5 * Pi
    else 0.5 * Pi
  }

  /** The laws assumed of the angle routine can be met, so no decision of
      the model rests on an impossible assumption. */
  lemma AngleLawsSatisfiable()
    ensures IsAngle(HalfPlaneAngle)
  {
  }

  /** The point p + s (q - p) of the line through p and q. */
  function Lerp(p: Point, q: Point, s: real): Point {
    Point(p.x + s * (q.x - p.x), p.y + s * (q.y - p.y))
  }

  /** Denominator of the parametric solution for the lines p1p2 and p3p4. */
  function Denom(p1: Point, p2: Point, p3: Point, p4: Point): real {
    (p4.y - p3.y) * (p2.x - p1.x) - (p4.x - p3.x) * (p2.y - p1.y)
  }

  /** Numerator of the parameter ua along p1p2. */
  function UaNum(p1: Point, p2: Point, p3: Point, p4: Point): real {
    (p4.x - p3.x) * (p1.y - p3.y) - (p4.y - p3.y) * (p1.x - p3.x)
  }

  /** Numerator of the parameter ub along p3p4. */
  function UbNum(p1: Point, p2: Point, p3: Point, p4: Point): real {
    (p2.x - p1.x) * (p1.y - p3.y) - (p2.y - p1.y) * (p1.x - p3.x)
  }

  /** The routing code's intersect, on explicit end points. */
  function SegmentsCross(p1: Point, p2: Point, p3: Point, p4: Point): bool {
    var denom := Denom(p1, p2, p3, p4);
    if denom == 0.0 then
      false
    else
      var ua := UaNum(p1, p2, p3, p4) / denom;
      var ub := UbNum(p1, p2, p3, p4) / denom;
      0.0 < ua < 1.0 && 0.0 < ub < 1.0
  }

  /** The segments p1p2 and p3p4 meet at a point interior to both. */
  ghost predicate CrossAtInterior(p1: Point, p2: Point, p3: Point, p4: Point) {
    exists a, b :: 0.0 < a < 1.0 && 0.0 < b < 1.0 && Lerp(p1, p2, a) == Lerp(p3, p4, b)
  }

  // Ring identities and cancellations behind the segment lemmas, stated on
  // plain reals: A, B is the direction of p1p2, C, E that of p3p4, and F, G
  // the offset p1 - p3.

  lemma CramerIdentities(A: real, B: real, C: real, E: real, F: real, G: real)
    ensures F * (E * A - C * B) + (C * G - E * F) * A - (A * G - B * F) * C == 0.0
    ensures G * (E * A - C * B) + (C * G - E * F) * B - (A * G - B * F) * E == 0.0
  {
  }

  lemma DivTimes(n: real, d: real)
    requires d != 0.0
    ensures (n / d) * d == n
  {
  }

  lemma CancelFactor(v: real, d: real)
    requires d != 0.0 && v * d == 0.0
    ensures v == 0.0
  {
  }

  lemma ExpandTimes(F: real, A: real, C: real, d: real, ua: real, ub: real)
    ensures (F + ua * A - ub * C) * d == F * d + (ua * d) * A - (ub * d) * C
  {
  }

  /** Dividing a solution of the cleared equation by d solves the equation. */
  lemma SolveByDivision(F: real, A: real, C: real, d: real, nu: real, nb: real)
    requires d != 0.0
    requires F * d + nu * A - nb * C == 0.0
    ensures F + (nu / d) * A - (nb / d) * C == 0.0
  {
    DivTimes(nu, d);
    DivTimes(nb, d);
    ExpandTimes(F, A, C, d, nu / d, nb / d);
    CancelFactor(F + (nu / d) * A - (nb / d) * C, d);
  }

  /** Cramer's rule for the parameters of a meeting point. */
  lemma CramerSolution(A: real, B: real, C: real, E: real, F: real, G: real, a: real, b: real)
    requires a * A - b * C == -F
    requires a * B - b * E == -G
    ensures a * (E * A - C * B) == C * G - E * F
    ensures b * (E * A - C * B) == A * G - B * F
  {
    assert a * (E * A - C * B) == E * (a * A) - C * (a * B);
    assert b * (E * A - C * B) == A * (a * B) - B * (a * A) + b * (E * A - C * B);
  }

  lemma QuotientOf(v: real, n: real, d: real)
    requires d != 0.0 && v * d == n
    ensures v == n / d
  {
  }

  /** ua and ub solve the parametric equation of the two lines. */
  lemma ParametersSolve(p1: Point, p2: Point, p3: Point, p4: Point)
    requires Denom(p1, p2, p3, p4) != 0.0
    ensures var d := Denom(p1, p2, p3, p4);
            Lerp(p1, p2, UaNum(p1, p2, p3, p4) / d) == Lerp(p3, p4, UbNum(p1, p2, p3, p4) / d)
  {
    var A, B := p2.x - p1.x, p2.y - p1.y;
    var C, E := p4.x - p3.x, p4.y - p3.y;
    var F, G := p1.x - p3.x, p1.y - p3.y;
    var d, nu, nb := E * A - C * B, C * G - E * F, A * G - B * F;
    assert d == Denom(p1, p2, p3, p4) && nu == UaNum(p1, p2, p3, p4) && nb == UbNum(p1, p2, p3, p4);
    CramerIdentities(A, B, C, E, F, G);
    SolveByDivision(F, A, C, d, nu, nb);
    SolveByDivision(G, B, E, d, nu, nb);
  }

  /** A common point of the two lines, written as the linear system on its
      parameters. */
  lemma MeetingSystem(p1: Point, p2: Point, p3: Point, p4: Point, a: real, b: real)
    requires Lerp(p1, p2, a) == Lerp(p3, p4, b)
    ensures a * (p2.x - p1.x) - b * (p4.x - p3.x) == -(p1.x - p3.x)
    ensures a * (p2.y - p1.y) - b * (p4.y - p3.y) == -(p1.y - p3.y)
  {
  }

  /** Any meeting point of two non-parallel lines has the parameters ua and ub. */
  lemma ParametersUnique(p1: Point, p2: Point, p3: Point, p4: Point, a: real, b: real)
    requires Denom(p1, p2, p3, p4) != 0.0
    requires Lerp(p1, p2, a) == Lerp(p3, p4, b)
    ensures a == UaNum(p1, p2, p3, p4) / Denom(p1, p2, p3, p4)
    ensures b == UbNum(p1, p2, p3, p4) / Denom(p1, p2, p3, p4)
  {
    MeetingSystem(p1, p2, p3, p4, a, b);
    CramerSolution(p2.x - p1.x, p2.y - p1.y, p4.x - p3.x, p4.y - p3.y, p1.x - p3.x, p1.y - p3.y, a, b);
    QuotientOf(a, UaNum(p1, p2, p3, p4), Denom(p1, p2, p3, p4));
    QuotientOf(b, UbNum(p1, p2, p3, p4), Denom(p1, p2, p3, p4));
  }

  /**
   Meaning of intersect: it holds exactly when the lines are not parallel
   and the segments meet at a point interior to both. Parallel segments,
   even overlapping collinear ones, never count.
   */
  lemma SegmentsCrossMeaning(p1: Point, p2: Point, p3: Point, p4: Point)
    ensures SegmentsCross(p1, p2, p3, p4)
            <==> Denom(p1, p2, p3, p4) != 0.0 && CrossAtInterior(p1, p2, p3, p4)
  {
    var d := Denom(p1, p2, p3, p4);
    if d != 0.0 {
      var ua, ub := UaNum(p1, p2, p3, p4) / d, UbNum(p1, p2, p3, p4) / d;
      if SegmentsCross(p1, p2, p3, p4) {
        ParametersSolve(p1, p2, p3, p4);
        assert 0.0 < ua < 1.0 && 0.0 < ub < 1.0 && Lerp(p1, p2, ua) == Lerp(p3, p4, ub);
      }
      if CrossAtInterior(p1, p2, p3, p4) {
        var a, b :| 0.0 < a < 1.0 && 0.0 < b < 1.0 && Lerp(p1, p2, a) == Lerp(p3, p4, b);
        ParametersUnique(p1, p2, p3, p4, a, b);
      }
    }
  }

  /** intersect does not depend on which segment comes first. */
  lemma SegmentsCrossSymmetric(p1: Point, p2: Point, p3: Point, p4: Point)
    ensures SegmentsCross(p1, p2, p3, p4) == SegmentsCross(p3, p4, p1, p2)
  {
    SegmentsCrossMeaning(p1, p2, p3, p4);
    SegmentsCrossMeaning(p3, p4, p1, p2);
    assert Denom(p3, p4, p1, p2) == -Denom(p1, p2, p3, p4);
    if CrossAtInterior(p1, p2, p3, p4) {
      var a, b :| 0.0 < a < 1.0 && 0.0 < b < 1.0 && Lerp(p1, p2, a) == Lerp(p3, p4, b);
      assert Lerp(p3, p4, b) == Lerp(p1, p2, a);
    }
    if CrossAtInterior(p3, p4, p1, p2) {
      var b, a :| 0.0 < b < 1.0 && 0.0 < a < 1.0 && Lerp(p3, p4, b) == Lerp(p1, p2, a);
      assert Lerp(p1, p2, a) == Lerp(p3, p4, b);
    }
  }

  /** Where a shared end point puts the numerators of ua and ub. */
  lemma EndpointNumerators(A: real, B: real, C: real, E: real, F: real, G: real)
    ensures F == 0.0 && G == 0.0 ==> C * G - E * F == 0.0
    ensures C == F && E == G ==> A * G - B * F == E * A - C * B
    ensures F == -A && G == -B ==> C * G - E * F == E * A - C * B
    ensures C == A + F && E == B + G ==> C * G - E * F == E * A - C * B
  {
  }

  /** Segments that share an end point never count as crossing: the shared
      point is at parameter 0 or 1 of one of them. */
  lemma SharedEndpointNoCross(p1: Point, p2: Point, p3: Point, p4: Point)
    requires p1 == p3 || p1 == p4 || p2 == p3 || p2 == p4
    ensures !SegmentsCross(p1, p2, p3, p4)
  {
    var A, B := p2.x - p1.x, p2.y - p1.y;
    var C, E := p4.x - p3.x, p4.y - p3.y;
    var F, G := p1.x - p3.x, p1.y - p3.y;
    var d, nu, nb := E * A - C * B, C * G - E * F, A * G - B * F;
    assert d == Denom(p1, p2, p3, p4) && nu == UaNum(p1, p2, p3, p4) && nb == UbNum(p1, p2, p3, p4);
    EndpointNumerators(A, B, C, E, F, G);
    if d != 0.0 {
      if p1 == p3 {
        assert nu / d == 0.0;
      } else if p1 == p4 {
        QuotientOf(1.0, nb, d);
      } else {
        QuotientOf(1.0, nu, d);
      }
    }
  }
}
