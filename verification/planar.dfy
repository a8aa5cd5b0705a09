/**
 Planarization of the neighbour graph: the relative neighbourhood graph
 (rng_planarize) and the Gabriel graph (gg_planarize). Both keep a neighbour
 unless some other neighbour "blocks" it, and differ only in the blocking
 test. Positions pass through calculateDistance, whose int parameters
 truncate every double coordinate toward zero; distances are compared
 squared, which orders them as the square roots do.
 */
module Planar {
  import opened Geometry
  import opened Neighbors

  /** A blocking test: does the second record block the first? */
  type BlockFn = (NeighborRecord, NeighborRecord) -> bool

  /** Squared calculateDistance from the node to a neighbour. */
  function DistTo(me: Node, n: NeighborRecord): int {
    SqDist(me.x, me.y, Trunc(n.x), Trunc(n.y))
  }

  /** RNG: w blocks n when w is strictly closer than n both to the node and to n. */
  predicate RngBlocks(me: Node, n: NeighborRecord, w: NeighborRecord) {
    var mdis := DistTo(me, n);
    DistTo(me, w) < mdis && SqDist(Trunc(n.x), Trunc(n.y), Trunc(w.x), Trunc(w.y)) < mdis
  }

  /** The midpoint between the node and n, computed in doubles and then
      truncated by calculateDistance. */
  function MidX(me: Node, n: NeighborRecord): int {
    Trunc(me.x as real + (n.x - me.x as real) / 2.0)
  }

  function MidY(me: Node, n: NeighborRecord): int {
    Trunc(me.y as real + (n.y - me.y as real) / 2.0)
  }

  /** GG: w blocks n when w lies strictly inside the circle centred on the
      midpoint that passes through the node. */
  predicate GgBlocks(me: Node, n: NeighborRecord, w: NeighborRecord) {
    var mx, my := MidX(me, n), MidY(me, n);
    SqDist(mx, my, Trunc(w.x), Trunc(w.y)) < SqDist(me.x, me.y, mx, my)
  }

  function RngRule(me: Node): BlockFn {
    (n, w) => RngBlocks(me, n, w)
  }

  function GgRule(me: Node): BlockFn {
    (n, w) => GgBlocks(me, n, w)
  }

  /** The rule peri_nexthop planarizes with. */
  function Rule(me: Node, useGG: bool): BlockFn {
    if useGG then GgRule(me) else RngRule(me)
  }

  /** No entry of t with a different key blocks n. */
  predicate Unblocked(t: Table, blocks: BlockFn, n: NeighborRecord) {
    forall k :: 0 <= k < |t| && t[k].id != n.id ==> !blocks(n, t[k])
  }

  function KeepRule(t: Table, blocks: BlockFn): NeighborRecord -> bool {
    n => Unblocked(t, blocks, n)
  }

  /** The entries of t that no other entry blocks, in table order. */
  function KeepUnblocked(t: Table, blocks: BlockFn): Table {
    Select(t, KeepRule(t, blocks))
  }

  /**
   The planar neighbour list peri_nexthop works on: exactly the unblocked
   neighbours, each once and in the table's order, so a well-formed table
   gives a well-formed list whose keys are among the table's.
   */
  function Planarize(t: Table, me: Node, useGG: bool): (r: Table)
    ensures forall n :: n in r <==> n in t && Unblocked(t, Rule(me, useGG), n)
    ensures IsSubseq(r, t)
    ensures Keys(r) <= Keys(t)
    ensures Valid(t) ==> Valid(r)
  {
    var r := KeepUnblocked(t, Rule(me, useGG));
    assert forall k :: 0 <= k < |r| ==> r[k] in t;
    r
  }

  /**
   The two nested loops of rng_planarize and gg_planarize: for each entry,
   scan the whole table for a blocker with a different key, stop at the
   first one, and append the entry if none was found.
   */
  method PlanarizeScan(t: Table, blocks: BlockFn) returns (r: Table)
    ensures r == KeepUnblocked(t, blocks)
  {
    r := [];
    var i := 0;
    while i < |t|
      invariant 0 <= i <= |t|
      invariant r == Select(t[..i], KeepRule(t, blocks))
    {
      var n := t[i];
      var isValid := true;
      var j := 0;
      while j < |t|
        invariant 0 <= j <= |t|
        invariant isValid
        invariant forall k :: 0 <= k < j && t[k].id != n.id ==> !blocks(n, t[k])
      {
        if t[j].id != n.id && blocks(n, t[j]) {
          isValid := false;
          break;
        }
        j := j + 1;
      }
      assert isValid == Unblocked(t, blocks, n);
      assert t[..i + 1] == t[..i] + [n];
      SelectSnoc(t[..i], n, KeepRule(t, blocks));
      if isValid {
        r := r + [n];
      }
      i := i + 1;
    }
    assert t[..|t|] == t;
  }

  /** Some entry of a non-empty table is no farther from the node than any other. */
  lemma {:induction false} HasNearest(t: Table, me: Node) returns (k: nat)
    requires t != []
    ensures k < |t| && forall j :: 0 <= j < |t| ==> DistTo(me, t[k]) <= DistTo(me, t[j])
  {
    if |t| == 1 {
      k := 0;
    } else {
      var k' := HasNearest(t[1..], me);
      assert forall j :: 1 <= j < |t| ==> t[j] == t[1..][j - 1];
      if DistTo(me, t[0]) <= DistTo(me, t[k' + 1]) {
        k := 0;
      } else {
        k := k' + 1;
      }
    }
  }

  /** RNG never removes a neighbour nearest the node, so a node with any
      neighbour has a non-empty RNG planar list. */
  lemma RngKeepsNearest(t: Table, me: Node)
    requires t != []
    ensures exists n :: n in Planarize(t, me, false) && forall w :: w in t ==> DistTo(me, n) <= DistTo(me, w)
    ensures Planarize(t, me, false) != []
  {
    var k := HasNearest(t, me);
    var n := t[k];
    assert Unblocked(t, Rule(me, false), n);
    assert n in Planarize(t, me, false);
  }

  /**
   With truncation, RNG may keep a neighbour that GG drops: from (5, 5), the
   neighbour 1 at (2, 2) is not blocked in RNG by neighbour 2 at (1, 3), but
   the truncated midpoint (3, 3) puts neighbour 2 inside the GG circle.
   */
  lemma RngNotWithinGg()
    ensures var t := [NeighborRecord(1, 2.0, 2.0, 0.0), NeighborRecord(2, 1.0, 3.0, 0.0)];
            var me := Node(5, 5);
            t[0] in Planarize(t, me, false) && t[0] !in Planarize(t, me, true)
  {
    var t := [NeighborRecord(1, 2.0, 2.0, 0.0), NeighborRecord(2, 1.0, 3.0, 0.0)];
    var me := Node(5, 5);
    assert Trunc(2.0) == 2 && Trunc(1.0) == 1 && Trunc(3.0) == 3;
    assert MidX(me, t[0]) == 3 && MidY(me, t[0]) == 3;
    assert !RngBlocks(me, t[0], t[1]);
    assert Unblocked(t, Rule(me, false), t[0]);
    assert GgBlocks(me, t[0], t[1]);
    assert !Unblocked(t, Rule(me, true), t[0]);
  }

  /**
   For integer points in exact arithmetic the Gabriel disc lies inside the
   RNG lune, so every GG blocker is an RNG blocker. Points are given with doubled coordinates so
   that the midpoint of s and n is exact: a witness w strictly inside the
   circle with diameter sn is strictly closer than n both to s and to n.
   */
  lemma GabrielDiscInsideLune(sx: int, sy: int, nx: int, ny: int, wx: int, wy: int)
    requires SqDist(sx + nx, sy + ny, 2 * wx, 2 * wy) < SqDist(sx, sy, nx, ny)
    ensures SqDist(sx, sy, wx, wy) < SqDist(sx, sy, nx, ny)
    ensures SqDist(nx, ny, wx, wy) < SqDist(sx, sy, nx, ny)
  {
    var ux, uy, vx, vy := sx - wx, sy - wy, nx - wx, ny - wy;
    assert sx + nx - 2 * wx == ux + vx && sy + ny - 2 * wy == uy + vy;
    assert sx - nx == ux - vx && sy - ny == uy - vy;
    ObtuseAtWitness(ux, uy, vx, vy);
  }

  /** With u = s - w and v = n - w: if |u + v| < |u - v| then both |u| and
      |v| are below |u - v| (the angle at w is obtuse). */
  lemma ObtuseAtWitness(ux: int, uy: int, vx: int, vy: int)
    requires (ux + vx) * (ux + vx) + (uy + vy) * (uy + vy) < (ux - vx) * (ux - vx) + (uy - vy) * (uy - vy)
    ensures ux * ux + uy * uy < (ux - vx) * (ux - vx) + (uy - vy) * (uy - vy)
    ensures vx * vx + vy * vy < (ux - vx) * (ux - vx) + (uy - vy) * (uy - vy)
  {
    var uu, vv, uv := ux * ux + uy * uy, vx * vx + vy * vy, ux * vx + uy * vy;
    assert (ux + vx) * (ux + vx) + (uy + vy) * (uy + vy) == uu + vv + 2 * uv;
    assert (ux - vx) * (ux - vx) + (uy - vy) * (uy - vy) == uu + vv - 2 * uv;
    assert ux * ux >= 0 && uy * uy >= 0 && vx * vx >= 0 && vy * vy >= 0;
  }
}
