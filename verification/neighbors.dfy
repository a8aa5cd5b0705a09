/**
 The neighbour table of one node and the two generic scans the routing code
 runs over it: keeping the records that pass a test, in table order, and
 finding the first record of minimal cost under a strict comparison.
 */
module Neighbors {

  /** GPSR_neighborRecord: a neighbour's id, its advertised position and the
      time it was heard (never read by the routing decisions). */
  datatype NeighborRecord = NeighborRecord(id: int, x: real, y: real, ts: real)

  /** The deciding node's own integer position (my_x, my_y). */
  datatype Node = Node(x: int, y: int)

  /**
   neighborTable, a std::map keyed by id, as the sequence its iteration
   visits; the key of each entry is its record's id.
   */
  type Table = seq<NeighborRecord>

  /** The id the routing code uses for "no neighbour". */
  const NoNeighbor: int := -1

  /** Ids strictly increase along the table: std::map iteration order. */
  predicate Ascending(t: Table) {
    forall i, j :: 0 <= i < j < |t| ==> t[i].id < t[j].id
  }

  /** A table as the routing code meets it: map order, and no entry whose
      id collides with the "no neighbour" sentinel. */
  predicate Valid(t: Table) {
    Ascending(t) && forall i :: 0 <= i < |t| ==> t[i].id != NoNeighbor
  }

  function Keys(t: Table): set<int> {
    set i | 0 <= i < |t| :: t[i].id
  }

  /** neighborTable[id] for a key that is present. */
  function Lookup(t: Table, id: int): (n: NeighborRecord)
    requires id in Keys(t)
    ensures n in t && n.id == id
  {
    if t[0].id == id then t[0]
    else
      assert id in Keys(t[1..]) by {
        var i :| 0 <= i < |t| && t[i].id == id;
        assert t[1..][i - 1] == t[i];
      }
      Lookup(t[1..], id)
  }

  /** a is b with some entries deleted, order kept. */
  predicate IsSubseq(a: Table, b: Table)
    decreases |b|
  {
    if a == [] then true
    else if b == [] then false
    else if a[0] == b[0] then IsSubseq(a[1..], b[1..])
    else IsSubseq(a, b[1..])
  }

  /** The entries of t that pass keep, in table order. */
  function Select(t: Table, keep: NeighborRecord -> bool): (r: Table)
    ensures forall n :: n in r <==> n in t && keep(n)
    ensures IsSubseq(r, t)
    ensures Ascending(t) ==> Ascending(r)
  {
    if t == [] then []
    else if keep(t[0]) then
      var rest := Select(t[1..], keep);
      var r := [t[0]] + rest;
      assert r[1..] == rest;
      assert forall n :: n in t[1..] ==> n in t;
      SubseqAscending(r, t);
      r
    else
      Select(t[1..], keep)
  }

  /** Deleting entries keeps the ids ascending. */
  lemma {:induction false} SubseqAscending(a: Table, b: Table)
    requires IsSubseq(a, b)
    ensures forall k :: 0 <= k < |a| ==> a[k] in b
    ensures Ascending(b) ==> Ascending(a)
    decreases |b|
  {
    if a != [] {
      var tail := b[1..];
      assert forall j :: 1 <= j < |b| ==> b[j] == tail[j - 1];
      if a[0] == b[0] {
        SubseqAscending(a[1..], tail);
        assert forall k :: 1 <= k < |a| ==> a[k] == a[1..][k - 1];
        if Ascending(b) {
          assert forall k :: 1 <= k < |a| ==> b[0].id < a[k].id;
        }
      } else {
        SubseqAscending(a, tail);
      }
    }
  }

  /** Selecting from a table extended by one entry extends the selection. */
  lemma {:induction false} SelectSnoc(t: Table, n: NeighborRecord, keep: NeighborRecord -> bool)
    ensures Select(t + [n], keep) == Select(t, keep) + (if keep(n) then [n] else [])
  {
    if t == [] {
      assert [n][1..] == [];
    } else {
      assert (t + [n])[0] == t[0];
      assert (t + [n])[1..] == t[1..] + [n];
      SelectSnoc(t[1..], n, keep);
    }
  }

  /** An ascending table is determined by the records it holds. */
  lemma {:induction false} AscendingDeterminedByRecords(a: Table, b: Table)
    requires Ascending(a) && Ascending(b)
    requires forall n :: n in a <==> n in b
    ensures a == b
  {
    assert a != [] ==> a[0] in b;
    assert b != [] ==> b[0] in a;
    if a != [] {
      HeadIsLeast(a, b[0]);
      HeadIsLeast(b, a[0]);
      forall n
        ensures n in a[1..] <==> n in b[1..]
      {
        if n in a[1..] {
          TailMember(a, b, n);
        }
        if n in b[1..] {
          TailMember(b, a, n);
        }
      }
      AscendingDeterminedByRecords(a[1..], b[1..]);
      assert a == [a[0]] + a[1..] && b == [b[0]] + b[1..];
    }
  }

  /** The head of an ascending table has the least id, and is the only
      entry with it. */
  lemma HeadIsLeast(a: Table, n: NeighborRecord)
    requires Ascending(a) && n in a
    ensures a[0].id <= n.id
    ensures a[0].id == n.id ==> a[0] == n
  {
    var i :| 0 <= i < |a| && a[i] == n;
    assert i == 0 || a[0].id < a[i].id;
  }

  /** A record after the shared head of a holds is after the head of b too. */
  lemma TailMember(a: Table, b: Table, n: NeighborRecord)
    requires Ascending(a) && a != [] && b != [] && a[0] == b[0]
    requires forall m :: m in a <==> m in b
    requires n in a[1..]
    ensures n in b[1..]
  {
    var k :| 0 <= k < |a[1..]| && a[1..][k] == n;
    assert a[0].id < a[k + 1].id;
    assert n in b && n != b[0];
    var m :| 0 <= m < |b| && b[m] == n;
    assert b[1..][m - 1] == n;
  }

  /**
   The running-minimum scan of the routing code: starting from (best, bestId),
   each eligible entry whose cost is strictly below the current best replaces
   it. Returns the final (best, bestId).
   */
  function FirstMin(t: Table, eligible: NeighborRecord -> bool, cost: NeighborRecord -> real,
                    best: real, bestId: int): (real, int)
    decreases |t|
  {
    if t == [] then (best, bestId)
    else if eligible(t[0]) && cost(t[0]) < best then FirstMin(t[1..], eligible, cost, cost(t[0]), t[0].id)
    else FirstMin(t[1..], eligible, cost, best, bestId)
  }

  /** Entry k is eligible, beats bound, is no costlier than any eligible
      entry, and strictly cheaper than every eligible entry before it. */
  ghost predicate IsFirstMinimum(t: Table, eligible: NeighborRecord -> bool, cost: NeighborRecord -> real,
                                 bound: real, k: int) {
    && 0 <= k < |t| && eligible(t[k]) && cost(t[k]) < bound
    && (forall j :: 0 <= j < |t| && eligible(t[j]) ==> cost(t[k]) <= cost(t[j]))
    && (forall j :: 0 <= j < k && eligible(t[j]) ==> cost(t[k]) < cost(t[j]))
  }

  /** The scan keeps its start value when no eligible entry beats it. */
  lemma {:induction false} FirstMinKeepsStart(t: Table, eligible: NeighborRecord -> bool,
                                               cost: NeighborRecord -> real, best: real, bestId: int)
    requires forall j :: 0 <= j < |t| && eligible(t[j]) ==> best <= cost(t[j])
    ensures FirstMin(t, eligible, cost, best, bestId) == (best, bestId)
  {
    if t != [] {
      assert forall j :: 1 <= j < |t| ==> t[j] == t[1..][j - 1];
      FirstMinKeepsStart(t[1..], eligible, cost, best, bestId);
    }
  }

  /** When some eligible entry beats the start value, the scan ends on the
      first eligible entry of minimal cost. */
  lemma {:induction false} FirstMinFindsFirstMinimum(t: Table, eligible: NeighborRecord -> bool,
                                                      cost: NeighborRecord -> real, best: real, bestId: int)
    requires exists j :: 0 <= j < |t| && eligible(t[j]) && cost(t[j]) < best
    ensures exists k :: IsFirstMinimum(t, eligible, cost, best, k)
                        && FirstMin(t, eligible, cost, best, bestId) == (cost(t[k]), t[k].id)
  {
    var tail := t[1..];
    assert forall j :: 1 <= j < |t| ==> t[j] == tail[j - 1];
    if eligible(t[0]) && cost(t[0]) < best {
      var c := cost(t[0]);
      if exists j :: 0 <= j < |tail| && eligible(tail[j]) && cost(tail[j]) < c {
        FirstMinFindsFirstMinimum(tail, eligible, cost, c, t[0].id);
        var k' :| IsFirstMinimum(tail, eligible, cost, c, k')
                  && FirstMin(tail, eligible, cost, c, t[0].id) == (cost(tail[k']), tail[k'].id);
        assert IsFirstMinimum(t, eligible, cost, best, k' + 1);
      } else {
        FirstMinKeepsStart(tail, eligible, cost, c, t[0].id);
        assert IsFirstMinimum(t, eligible, cost, best, 0);
      }
    } else {
      var j :| 0 <= j < |t| && eligible(t[j]) && cost(t[j]) < best;
      assert j > 0 && eligible(tail[j - 1]) && cost(tail[j - 1]) < best;
      FirstMinFindsFirstMinimum(tail, eligible, cost, best, bestId);
      var k' :| IsFirstMinimum(tail, eligible, cost, best, k')
                && FirstMin(tail, eligible, cost, best, bestId) == (cost(tail[k']), tail[k'].id);
      assert IsFirstMinimum(t, eligible, cost, best, k' + 1);
    }
  }
}
