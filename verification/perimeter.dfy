/**
 Perimeter forwarding (peri_nexthop): planarize the neighbour table, sweep
 counter-clockwise from a reference direction to the first planar neighbour
 other than the previous hop, and, when the edge to that neighbour crosses
 the segment from the perimeter entry point to the destination, repeat the
 choice with that neighbour as the previous hop.
 */
module Perimeter {
  import opened Geometry
  import opened Neighbors
  import opened Planar

  /** The outcome of a next-hop decision: a neighbour id, the code's -1
      ("no neighbour"), or the recursion exceeding the fuel bound. */
  datatype Route = NextHop(id: int) | NoRoute | OutOfFuel

  /** std::numeric_limits<double>::max(), that is (2 - 2^-52) * 2^1023. */
  const DblMax: real := 179769313486231570814527423731704356798070567525844996598917476803157260780028538760589558632766878171540458953514382464234321326889464182768467546703537516986049910576551282076245490090389328944075868508455133942304583236903222948165808559332123348274797826204144723168738177180919299881250404026184124858368.0

  /** Every value an angle routine produces lies in [-1, 2 pi). */
  lemma AngleRange(angle: AngleFn, x1: real, y1: real, x2: real, y2: real)
    requires IsAngle(angle)
    ensures -1.0 <= angle(x1, y1, x2, y2) < TwoPi
  {
  }

  /**
   The counter-clockwise turn from direction alpha to direction a: their
   difference, lifted by 2 pi when negative. For proper directions it is a
   turn in [0, 2 pi); with the -1 sentinel on either side it still stays
   below 2 pi + 1, far under DblMax.
   */
  function NormDelta(a: real, alpha: real): (d: real)
    ensures -1.0 <= a < TwoPi && -1.0 <= alpha < TwoPi ==> -1.0 < d < TwoPi + 1.0
    ensures 0.0 <= a < TwoPi && 0.0 <= alpha < TwoPi ==> 0.0 <= d < TwoPi
    ensures 0.0 <= a < TwoPi && 0.0 <= alpha < TwoPi ==> (d == 0.0 <==> a == alpha)
  {
    var delta := a - alpha;
    if delta < 0.0 then delta + TwoPi else delta
  }

  /**
   alpha of peri_nexthop: the direction of the previous hop, or of the
   destination when there is none. The previous hop is read from the table,
   so it must be a key of it.
   */
  function ReferenceAngle(angle: AngleFn, t: Table, me: Node, last: int, dx: real, dy: real): (alpha: real)
    requires IsAngle(angle)
    requires last == NoNeighbor || last in Keys(t)
    ensures -1.0 <= alpha < TwoPi
    ensures alpha == -1.0 <==> if last == NoNeighbor then dx == me.x as real && dy == me.y as real
                               else Lookup(t, last).x == me.x as real && Lookup(t, last).y == me.y as real
  {
    if last != NoNeighbor then
      var lastnb := Lookup(t, last);
      angle(me.x as real, me.y as real, lastnb.x, lastnb.y)
    else
      angle(me.x as real, me.y as real, dx, dy)
  }

  /** The turn from alpha to a neighbour. */
  function SweepRule(angle: AngleFn, me: Node, alpha: real): NeighborRecord -> real {
    (n: NeighborRecord) => NormDelta(angle(me.x as real, me.y as real, n.x, n.y), alpha)
  }

  /** Neighbours other than the previous hop. */
  function Other(last: int): NeighborRecord -> bool {
    (n: NeighborRecord) => n.id != last
  }

  /** The sweep loop: (minangle, nexthop) after scanning the planar list. */
  function Sweep(angle: AngleFn, planar: Table, me: Node, last: int, alpha: real): (real, int) {
    FirstMin(planar, Other(last), SweepRule(angle, me, alpha), DblMax, NoNeighbor)
  }

  /** Every entry of the planar list is the previous hop (trivially so
      when the list is empty). */
  predicate OnlyPrevious(planar: Table, last: int) {
    forall k :: 0 <= k < |planar| ==> planar[k].id == last
  }

  /** Two or more distinct neighbours are never all the previous hop. */
  lemma SeveralNotOnlyPrevious(planar: Table, last: int)
    requires Valid(planar) && |planar| > 1
    ensures !OnlyPrevious(planar, last)
  {
    assert planar[0].id < planar[1].id;
  }

  /**
   The sweep finds no neighbour exactly when every planar neighbour is the
   previous hop; otherwise it picks the first planar neighbour of smallest
   turn other than the previous hop. With two or more planar neighbours it
   always finds one.
   */
  lemma SweepFacts(angle: AngleFn, planar: Table, me: Node, last: int, alpha: real)
    requires IsAngle(angle)
    requires Valid(planar)
    requires -1.0 <= alpha < TwoPi
    ensures var nh := Sweep(angle, planar, me, last, alpha).1;
            && (nh == NoNeighbor <==> OnlyPrevious(planar, last))
            && (nh != NoNeighbor ==> nh != last && nh in Keys(planar))
            && (nh != NoNeighbor ==> exists k :: IsFirstMinimum(planar, Other(last), SweepRule(angle, me, alpha), DblMax, k)
                                                 && planar[k].id == nh)
            && (|planar| > 1 ==> nh != NoNeighbor)
  {
    var eligible, cost := Other(last), SweepRule(angle, me, alpha);
    forall k | 0 <= k < |planar|
      ensures cost(planar[k]) < DblMax
    {
      AngleRange(angle, me.x as real, me.y as real, planar[k].x, planar[k].y);
    }
    if exists j :: 0 <= j < |planar| && eligible(planar[j]) && cost(planar[j]) < DblMax {
      FirstMinFindsFirstMinimum(planar, eligible, cost, DblMax, NoNeighbor);
    } else {
      FirstMinKeepsStart(planar, eligible, cost, DblMax, NoNeighbor);
    }
    if |planar| > 1 {
      assert planar[0].id < planar[1].id;
      assert eligible(planar[0]) || eligible(planar[1]);
    }
  }

  /** id is the first planar neighbour, other than the previous hop, of
      smallest turn from the reference direction. */
  ghost predicate SweepMinimal(angle: AngleFn, t: Table, planar: Table, me: Node, last: int,
                               dx: real, dy: real, id: int)
    requires IsAngle(angle)
    requires last == NoNeighbor || last in Keys(t)
  {
    var alpha := ReferenceAngle(angle, t, me, last, dx, dy);
    exists k :: IsFirstMinimum(planar, Other(last), SweepRule(angle, me, alpha), DblMax, k) && planar[k].id == id
  }

  /**
   nexthop of peri_nexthop: the sweep from the reference direction over the
   planar list, whose entries all come from the table.
   */
  function SweepChoice(angle: AngleFn, t: Table, planar: Table, me: Node, last: int, dx: real, dy: real): (nh: int)
    requires IsAngle(angle)
    requires Valid(planar) && Keys(planar) <= Keys(t)
    requires last == NoNeighbor || last in Keys(t)
    ensures nh == NoNeighbor <==> OnlyPrevious(planar, last)
    ensures nh != NoNeighbor ==> nh != last && nh in Keys(planar)
    ensures |planar| > 1 ==> nh != NoNeighbor
  {
    var alpha := ReferenceAngle(angle, t, me, last, dx, dy);
    SweepFacts(angle, planar, me, last, alpha);
    Sweep(angle, planar, me, last, alpha).1
  }

  /**
   intersect(theother, sx, sy, dx, dy): the edge from the node to the
   neighbour theother crosses the segment from (sx, sy) to (dx, dy) at a
   point interior to both, the lines not being parallel.
   */
  function Intersect(t: Table, me: Node, theother: int, sx: real, sy: real, dx: real, dy: real): (b: bool)
    requires theother in Keys(t)
    ensures var o := Lookup(t, theother);
            var p1, p2, p3, p4 := Point(me.x as real, me.y as real), Point(o.x, o.y), Point(sx, sy), Point(dx, dy);
            b <==> Denom(p1, p2, p3, p4) != 0.0 && CrossAtInterior(p1, p2, p3, p4)
  {
    var o := Lookup(t, theother);
    var p1, p2, p3, p4 := Point(me.x as real, me.y as real), Point(o.x, o.y), Point(sx, sy), Point(dx, dy);
    SegmentsCrossMeaning(p1, p2, p3, p4);
    SegmentsCross(p1, p2, p3, p4)
  }

  /** What one activation of peri_nexthop does: return a decision, or call
      itself again with a new previous hop. */
  datatype Step = Answer(route: Route) | Recurse(next: int)

  /**
   One activation of peri_nexthop on its planar list: sweep from the
   reference direction, and recurse with the chosen neighbour when there
   are several planar neighbours and its edge crosses the segment from
   (sx, sy) to (dx, dy). A recursion hands over to a planar neighbour other
   than the previous hop; an answer is a planar neighbour, or no route
   exactly when every planar neighbour is the previous hop.
   */
  function PeriStep(angle: AngleFn, t: Table, planar: Table, me: Node,
                    sx: real, sy: real, dx: real, dy: real, last: int): (s: Step)
    requires IsAngle(angle)
    requires Valid(planar) && Keys(planar) <= Keys(t)
    requires last == NoNeighbor || last in Keys(t)
    ensures s.Recurse? ==> s.next in Keys(planar) && s.next != last && |planar| > 1
    ensures s.Answer? ==> s.route != OutOfFuel
    ensures s.Answer? && s.route.NextHop? ==> s.route.id in Keys(planar) && s.route.id != NoNeighbor
    ensures s == Answer(NoRoute) <==> OnlyPrevious(planar, last)
  {
    var nexthop := SweepChoice(angle, t, planar, me, last, dx, dy);
    if |planar| > 1 && Intersect(t, me, nexthop, sx, sy, dx, dy) then
      SeveralNotOnlyPrevious(planar, last);
      Recurse(nexthop)
    else if nexthop == NoNeighbor then Answer(NoRoute)
    else Answer(NextHop(nexthop))
  }

  /**
   Whether it answers or recurses, an activation hands the packet to the
   first planar neighbour of smallest turn from the reference direction,
   other than the previous hop. With several planar neighbours it recurses
   exactly when the edge to that neighbour crosses the segment from
   (sx, sy) to (dx, dy).
   */
  lemma PeriStepFollowsSweep(angle: AngleFn, t: Table, planar: Table, me: Node,
                             sx: real, sy: real, dx: real, dy: real, last: int)
    requires IsAngle(angle)
    requires Valid(planar) && Keys(planar) <= Keys(t)
    requires last == NoNeighbor || last in Keys(t)
    ensures var s := PeriStep(angle, t, planar, me, sx, sy, dx, dy, last);
            && (s.Recurse? ==> SweepMinimal(angle, t, planar, me, last, dx, dy, s.next))
            && (s.Answer? && s.route.NextHop? ==> SweepMinimal(angle, t, planar, me, last, dx, dy, s.route.id))
            && (s.Recurse? ==> Intersect(t, me, s.next, sx, sy, dx, dy))
            && (s.Answer? && s.route.NextHop? && |planar| > 1 ==> !Intersect(t, me, s.route.id, sx, sy, dx, dy))
  {
    SweepFacts(angle, planar, me, last, ReferenceAngle(angle, t, me, last, dx, dy));
  }

  /**
   The recursion of peri_nexthop over a fixed planar list (planarization
   depends only on the table and the node, so every activation recomputes
   the same list). peri_nexthop recurses without bound; fuel bounds the
   number of recursive activations and OutOfFuel reports running out.
   */
  function PeriWalk(angle: AngleFn, t: Table, planar: Table, me: Node, last: int,
                    sx: real, sy: real, dx: real, dy: real, fuel: nat): (r: Route)
    requires IsAngle(angle)
    requires Valid(planar) && Keys(planar) <= Keys(t)
    requires last == NoNeighbor || last in Keys(t)
    ensures r.NextHop? ==> r.id in Keys(planar) && r.id != NoNeighbor
    ensures r.NoRoute? <==> OnlyPrevious(planar, last)
    decreases fuel
  {
    match PeriStep(angle, t, planar, me, sx, sy, dx, dy, last)
    case Answer(route) => route
    case Recurse(next) =>
      SeveralNotOnlyPrevious(planar, last);
      SeveralNotOnlyPrevious(planar, next);
      if fuel == 0 then OutOfFuel
      else PeriWalk(angle, t, planar, me, next, sx, sy, dx, dy, fuel - 1)
  }

  /**
   peri_nexthop(useGG, last, sx, sy, dx, dy) with a bound on recursion. A
   returned hop is a planar neighbour, and no route is returned exactly when
   every planar neighbour is the previous hop.
   */
  function PeriNextHop(angle: AngleFn, t: Table, me: Node, useGG: bool, last: int,
                       sx: real, sy: real, dx: real, dy: real, fuel: nat): (r: Route)
    requires IsAngle(angle)
    requires Valid(t)
    requires last == NoNeighbor || last in Keys(t)
    ensures r.NextHop? ==> r.id in Keys(Planarize(t, me, useGG)) && r.id != NoNeighbor
    ensures r.NoRoute? <==> OnlyPrevious(Planarize(t, me, useGG), last)
  {
    PeriWalk(angle, t, Planarize(t, me, useGG), me, last, sx, sy, dx, dy, fuel)
  }

  /** An activation that recurses spends one unit of fuel on the next one. */
  lemma WalkOnRecurse(angle: AngleFn, t: Table, planar: Table, me: Node, last: int,
                      sx: real, sy: real, dx: real, dy: real, fuel: nat, next: int)
    requires IsAngle(angle)
    requires Valid(planar) && Keys(planar) <= Keys(t)
    requires last == NoNeighbor || last in Keys(t)
    requires PeriStep(angle, t, planar, me, sx, sy, dx, dy, last) == Recurse(next)
    ensures next in Keys(t)
    ensures PeriWalk(angle, t, planar, me, last, sx, sy, dx, dy, fuel)
            == if fuel == 0 then OutOfFuel else PeriWalk(angle, t, planar, me, next, sx, sy, dx, dy, fuel - 1)
  {
  }

  /** More fuel never changes a decision that was reached. */
  lemma {:induction false} PeriFuelMonotone(angle: AngleFn, t: Table, planar: Table, me: Node, last: int,
                                            sx: real, sy: real, dx: real, dy: real, fuel: nat, more: nat)
    requires IsAngle(angle)
    requires Valid(planar) && Keys(planar) <= Keys(t)
    requires last == NoNeighbor || last in Keys(t)
    requires fuel <= more
    requires PeriWalk(angle, t, planar, me, last, sx, sy, dx, dy, fuel) != OutOfFuel
    ensures PeriWalk(angle, t, planar, me, last, sx, sy, dx, dy, more)
            == PeriWalk(angle, t, planar, me, last, sx, sy, dx, dy, fuel)
    decreases fuel
  {
    match PeriStep(angle, t, planar, me, sx, sy, dx, dy, last)
    case Answer(_) =>
    case Recurse(next) =>
      PeriFuelMonotone(angle, t, planar, me, next, sx, sy, dx, dy, fuel - 1, more - 1);
  }

  /**
   When the perimeter starts at the node itself (as greedy_forwarding calls
   it), no planar edge can cross the segment to the destination, because
   both start at the node: the decision is made without recursion, whatever
   the fuel.
   */
  lemma PeriFromOwnPositionStops(angle: AngleFn, t: Table, planar: Table, me: Node, last: int,
                                  dx: real, dy: real, fuel: nat)
    requires IsAngle(angle)
    requires Valid(planar) && Keys(planar) <= Keys(t)
    requires last == NoNeighbor || last in Keys(t)
    ensures var r := PeriWalk(angle, t, planar, me, last, me.x as real, me.y as real, dx, dy, fuel);
            && r != OutOfFuel
            && r == PeriWalk(angle, t, planar, me, last, me.x as real, me.y as real, dx, dy, 0)
  {
    var sx, sy := me.x as real, me.y as real;
    if |planar| > 1 {
      var nexthop := SweepChoice(angle, t, planar, me, last, dx, dy);
      var o := Lookup(t, nexthop);
      var p := Point(sx, sy);
      SharedEndpointNoCross(p, Point(o.x, o.y), p, Point(dx, dy));
    }
    assert PeriStep(angle, t, planar, me, sx, sy, dx, dy, last).Answer?;
  }

  /** A table on which the perimeter recursion cycles: neighbours 1 at
      (2, 2) and 2 at (2, -2). */
  function CycleTable(): (t: Table)
    ensures Valid(t) && Keys(t) == {1, 2}
  {
    var t := [NeighborRecord(1, 2.0, 2.0, 0.0), NeighborRecord(2, 2.0, -2.0, 0.0)];
    assert t[0].id in Keys(t) && t[1].id in Keys(t);
    t
  }

  /** Seen from (0, 0), neither neighbour of CycleTable blocks the other in RNG. */
  lemma CyclePlanar()
    ensures Planarize(CycleTable(), Node(0, 0), false) == CycleTable()
  {
    var t, me := CycleTable(), Node(0, 0);
    assert Trunc(2.0) == 2 && Trunc(-2.0) == -2;
    assert Unblocked(t, Rule(me, false), t[0]) && Unblocked(t, Rule(me, false), t[1]);
    AscendingDeterminedByRecords(Planarize(t, me, false), t);
  }

  /** Both edges from (0, 0) cross the segment from (1, -3) to (1, 3). */
  lemma CycleCrosses(id: int)
    requires id in {1, 2}
    ensures Intersect(CycleTable(), Node(0, 0), id, 1.0, -3.0, 1.0, 3.0)
  {
    var o := Lookup(CycleTable(), id);
    assert o == CycleTable()[id - 1];
    var p, s, d := Point(0.0, 0.0), Point(1.0, -3.0), Point(1.0, 3.0);
    if id == 1 {
      assert Denom(p, Point(2.0, 2.0), s, d) == 12.0;
      assert SegmentsCross(p, Point(2.0, 2.0), s, d);
    } else {
      assert Denom(p, Point(2.0, -2.0), s, d) == 12.0;
      assert SegmentsCross(p, Point(2.0, -2.0), s, d);
    }
  }

  /**
   The recursion need not end: from (0, 0) on CycleTable, with the segment
   from (1, -3) to (1, 3) crossing both edges, each activation hands over to
   the other neighbour, for every angle routine and every fuel bound.
   */
  lemma PeriCanRecurseForever(angle: AngleFn, last: int, fuel: nat)
    requires IsAngle(angle)
    requires last == NoNeighbor || last in Keys(CycleTable())
    ensures PeriNextHop(angle, CycleTable(), Node(0, 0), false, last, 1.0, -3.0, 1.0, 3.0, fuel) == OutOfFuel
  {
    CyclePlanar();
    CycleWalk(angle, last, fuel);
  }

  /** On CycleTable every activation recurses, to one of its two neighbours. */
  lemma CycleStep(angle: AngleFn, last: int) returns (next: int)
    requires IsAngle(angle)
    requires last == NoNeighbor || last in Keys(CycleTable())
    ensures next in Keys(CycleTable())
    ensures PeriStep(angle, CycleTable(), CycleTable(), Node(0, 0), 1.0, -3.0, 1.0, 3.0, last) == Recurse(next)
  {
    var t, me := CycleTable(), Node(0, 0);
    next := SweepChoice(angle, t, t, me, last, 1.0, 3.0);
    CycleCrosses(next);
  }

  /** The walk behind PeriCanRecurseForever, by induction on the fuel. */
  lemma {:induction false} CycleWalk(angle: AngleFn, last: int, fuel: nat)
    requires IsAngle(angle)
    requires last == NoNeighbor || last in Keys(CycleTable())
    ensures PeriWalk(angle, CycleTable(), CycleTable(), Node(0, 0), last, 1.0, -3.0, 1.0, 3.0, fuel) == OutOfFuel
    decreases fuel
  {
    var t, me := CycleTable(), Node(0, 0);
    var next := CycleStep(angle, last);
    WalkOnRecurse(angle, t, t, me, last, 1.0, -3.0, 1.0, 3.0, fuel, next);
    if fuel > 0 {
      CycleWalk(angle, next, fuel - 1);
    }
  }
}
