/**
 Greedy forwarding (greedy_forwarding): hand the packet to the neighbour
 strictly closest to the destination, and fall back to perimeter forwarding
 from the node itself when no neighbour is closer than the node.
 */
module Greedy {
  import opened Geometry
  import opened Neighbors
  import opened Planar
  import opened Perimeter

  /** Squared calculateDistance from a neighbour to the destination. */
  function DestDist(n: NeighborRecord, destX: int, destY: int): int {
    SqDist(Trunc(n.x), Trunc(n.y), destX, destY)
  }

  function DestCost(destX: int, destY: int): NeighborRecord -> real {
    (n: NeighborRecord) => DestDist(n, destX, destY) as real
  }

  function AnyNeighbor(): NeighborRecord -> bool {
    (n: NeighborRecord) => true
  }

  /** The scan for the closest neighbour: (minDistance, closestNeighborId),
      starting from the node's own distance and no neighbour. */
  function Closest(t: Table, destX: int, destY: int, own: int): (real, int) {
    FirstMin(t, AnyNeighbor(), DestCost(destX, destY), own as real, NoNeighbor)
  }

  /** The closest-neighbour scan keeps (own, no neighbour) when nothing is
      closer than the node, and otherwise ends on the first closest one. */
  lemma ClosestFacts(t: Table, destX: int, destY: int, own: int)
    ensures (forall j :: 0 <= j < |t| ==> own <= DestDist(t[j], destX, destY))
            ==> Closest(t, destX, destY, own) == (own as real, NoNeighbor)
    ensures (exists j :: 0 <= j < |t| && DestDist(t[j], destX, destY) < own)
            ==> exists k :: IsFirstMinimum(t, AnyNeighbor(), DestCost(destX, destY), own as real, k)
                            && Closest(t, destX, destY, own) == (DestDist(t[k], destX, destY) as real, t[k].id)
  {
    var cost := DestCost(destX, destY);
    if exists j :: 0 <= j < |t| && DestDist(t[j], destX, destY) < own {
      var j :| 0 <= j < |t| && DestDist(t[j], destX, destY) < own;
      assert cost(t[j]) < own as real;
      FirstMinFindsFirstMinimum(t, AnyNeighbor(), cost, own as real, NoNeighbor);
    } else {
      FirstMinKeepsStart(t, AnyNeighbor(), cost, own as real, NoNeighbor);
    }
  }

  /**
   greedy_forwarding(destX, destY, useGG). Perimeter forwarding starts at
   the node with no previous hop; it never recurses from there, so no fuel
   is needed and the answer is never OutOfFuel. A returned hop is always a
   neighbour.
   */
  function GreedyForwarding(angle: AngleFn, t: Table, me: Node, destX: int, destY: int, useGG: bool): (r: Route)
    requires IsAngle(angle)
    requires Valid(t)
    ensures r != OutOfFuel
    ensures r.NextHop? ==> r.id in Keys(t) && r.id != NoNeighbor
  {
    var own := SqDist(me.x, me.y, destX, destY);
    var (minDistance, closest) := Closest(t, destX, destY, own);
    ClosestFacts(t, destX, destY, own);
    if closest == NoNeighbor || minDistance >= own as real then
      PeriFromOwnPositionStops(angle, t, Planarize(t, me, useGG), me, NoNeighbor, destX as real, destY as real, 0);
      PeriNextHop(angle, t, me, useGG, NoNeighbor, me.x as real, me.y as real, destX as real, destY as real, 0)
    else
      NextHop(closest)
  }

  /**
   When some neighbour is strictly closer to the destination than the node,
   greedy forwarding picks a closest one, the first in id order among equals.
   */
  lemma GreedyProgress(angle: AngleFn, t: Table, me: Node, destX: int, destY: int, useGG: bool)
    requires IsAngle(angle)
    requires Valid(t)
    requires exists j :: 0 <= j < |t| && DestDist(t[j], destX, destY) < SqDist(me.x, me.y, destX, destY)
    ensures exists k :: && 0 <= k < |t|
                        && GreedyForwarding(angle, t, me, destX, destY, useGG) == NextHop(t[k].id)
                        && DestDist(t[k], destX, destY) < SqDist(me.x, me.y, destX, destY)
                        && (forall j :: 0 <= j < |t| ==> DestDist(t[k], destX, destY) <= DestDist(t[j], destX, destY))
                        && (forall j :: 0 <= j < k ==> DestDist(t[k], destX, destY) < DestDist(t[j], destX, destY))
  {
    var own := SqDist(me.x, me.y, destX, destY);
    var cost := DestCost(destX, destY);
    ClosestFacts(t, destX, destY, own);
    var k :| IsFirstMinimum(t, AnyNeighbor(), cost, own as real, k)
             && Closest(t, destX, destY, own) == (DestDist(t[k], destX, destY) as real, t[k].id);
    assert forall i :: 0 <= i < |t| ==> cost(t[i]) == DestDist(t[i], destX, destY) as real;
  }

  /**
   When no neighbour is strictly closer to the destination than the node,
   greedy forwarding hands over to perimeter forwarding from the node's own
   position toward the destination, with no previous hop.
   */
  lemma GreedyFallback(angle: AngleFn, t: Table, me: Node, destX: int, destY: int, useGG: bool)
    requires IsAngle(angle)
    requires Valid(t)
    requires forall j :: 0 <= j < |t| ==> SqDist(me.x, me.y, destX, destY) <= DestDist(t[j], destX, destY)
    ensures GreedyForwarding(angle, t, me, destX, destY, useGG)
            == PeriNextHop(angle, t, me, useGG, NoNeighbor, me.x as real, me.y as real, destX as real, destY as real, 0)
  {
    ClosestFacts(t, destX, destY, SqDist(me.x, me.y, destX, destY));
  }

  /** From (0, 0) toward (20, 0), neighbour 2 at (10, 0) is closer than the
      node and than neighbour 3 at (0, 10), so it is chosen. */
  lemma GreedyPicksCloser(angle: AngleFn, useGG: bool)
    requires IsAngle(angle)
    ensures var t := [NeighborRecord(2, 10.0, 0.0, 0.0), NeighborRecord(3, 0.0, 10.0, 0.0)];
            GreedyForwarding(angle, t, Node(0, 0), 20, 0, useGG) == NextHop(2)
  {
    var t := [NeighborRecord(2, 10.0, 0.0, 0.0), NeighborRecord(3, 0.0, 10.0, 0.0)];
    assert Trunc(10.0) == 10 && Trunc(0.0) == 0;
    assert DestDist(t[0], 20, 0) == 100 && DestDist(t[1], 20, 0) == 500;
    GreedyProgress(angle, t, Node(0, 0), 20, 0, useGG);
  }

  /** A node without neighbours has no route. */
  lemma IsolatedNodeHasNoRoute(angle: AngleFn, me: Node, destX: int, destY: int, useGG: bool)
    requires IsAngle(angle)
    ensures GreedyForwarding(angle, [], me, destX, destY, useGG) == NoRoute
  {
    GreedyFallback(angle, [], me, destX, destY, useGG);
  }

  /**
   A void: from (0, 0) toward (10, 0) the only neighbour, 4 at (-5, 0), is
   farther than the node, so greedy forwarding fails and perimeter
   forwarding hands the packet to that neighbour.
   */
  lemma PerimeterAroundVoid(angle: AngleFn, useGG: bool)
    requires IsAngle(angle)
    ensures var t := [NeighborRecord(4, -5.0, 0.0, 0.0)];
            GreedyForwarding(angle, t, Node(0, 0), 10, 0, useGG) == NextHop(4)
  {
    var t := [NeighborRecord(4, -5.0, 0.0, 0.0)];
    var me := Node(0, 0);
    assert Trunc(-5.0) == -5 && Trunc(0.0) == 0;
    GreedyFallback(angle, t, me, 10, 0, useGG);
    var planar := Planarize(t, me, useGG);
    assert Unblocked(t, Rule(me, useGG), t[0]);
    assert planar == t by {
      AscendingDeterminedByRecords(planar, t);
    }
    assert !OnlyPrevious(planar, NoNeighbor);
  }
}
