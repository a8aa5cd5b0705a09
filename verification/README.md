# GPSR routing decisions in Dafny

This project models the decision engine of a GPSR (Greedy Perimeter
Stateless Routing) node, `GpsrRouting.cc`, and proves properties of it. A
node keeps a neighbour table, a `std::map` from id to record. To route a
packet it either forwards greedily to the neighbour closest to the
destination, or, at a local minimum, switches to perimeter forwarding. The
perimeter rule is the right-hand rule on a planarized neighbour graph, built
with the relative neighbourhood graph (RNG) or the Gabriel graph (GG).

The modules follow the code's structure:

- `Geometry` (geometry.dfy) covers `calculateDistance`, the laws assumed of
  `angle`, and `intersect` over explicit end points.
  - Distances are compared squared, as `int`s. Every argument is first
    truncated toward zero, as the `int` parameters of `calculateDistance`
    do to the doubles passed in.
  - The segment test is stated over exact reals.
- `Neighbors` (neighbors.dfy) covers the record, the node's own position and
  the table.
  - The table is a sequence in ascending id order, which is the map's
    iteration order.
  - It also holds the two scans the code is made of: keeping the records
    that pass a test, and the running minimum with a strict `<`.
- `Planar` (planar.dfy) covers `rng_planarize` and `gg_planarize`. They are
  one selection with two blocking rules, plus the nested loops as a method.
- `Perimeter` (perimeter.dfy) covers `peri_nexthop`.
  - One activation (reference direction, sweep, crossing test) is a
    function `PeriStep`.
  - The recursion is `PeriWalk`, bounded by fuel.
- `Greedy` (greedy.dfy) covers `greedy_forwarding`.

The node's own position (`my_x`, `my_y`, file-scope globals in the code) is
an explicit `Node` parameter. `angle` is an explicit parameter of type
`AngleFn`. All that is assumed of it is the law `IsAngle`:

- it returns -1 exactly when the two points coincide;
- otherwise it returns a value in [0, 2π);
- it returns a value above π only when the target lies below the origin.

`HalfPlaneAngle` shows that these laws can be met.

## Model

| member | source | states |
|---|---|---|
| Geometry.Trunc | GpsrRouting.cc:62 | Converting a double to an `int` parameter truncates toward zero: the result is the floor for non-negative values and the ceiling for negative ones. |
| Geometry.SqDist | GpsrRouting.cc:62-66 | The (squared) distance is never negative, and it is zero exactly when the two points coincide. |
| Geometry.AngleLawsSatisfiable | GpsrRouting.cc:116-127 | The laws assumed of `angle` can be met by a routine, so they are consistent. They are: -1 exactly for coincident points (:117-120); otherwise a value in [0, 2π), being acos in [0, π] or 2π minus it (:121-125); and a value above π only when y2 < y1 (:123-124). |
| Perimeter.AngleRange | GpsrRouting.cc:116-127 | Every value `angle` returns, the sentinel included, lies in [-1, 2π). |
| Geometry.ParametersSolve | GpsrRouting.cc:137-141 | When the denominator is non-zero, the ua and ub computed by `intersect` name one and the same point on both lines. |
| Geometry.ParametersUnique | GpsrRouting.cc:137-141 | Any common point of two non-parallel lines has exactly the parameters ua and ub that `intersect` computes. |
| Geometry.SegmentsCrossMeaning | GpsrRouting.cc:137-143 | `intersect` holds exactly when the lines are not parallel and the two segments meet at a point interior to both. A zero denominator is never a crossing, even for overlapping collinear segments. |
| Geometry.SegmentsCrossSymmetric | GpsrRouting.cc:137-143 | Swapping the two segments does not change the answer. |
| Geometry.SharedEndpointNoCross | GpsrRouting.cc:137-143 | Two segments that share an end point never count as crossing. |
| Neighbors.Lookup | GpsrRouting.cc:131 | `neighborTable[id]` for a present key yields the table's record with that id. |
| Neighbors.Select | GpsrRouting.cc:71-87 | Filtering the table in iteration order keeps exactly the records that pass the test. The result is a subsequence of the table and keeps ids ascending. |
| Neighbors.SelectSnoc | GpsrRouting.cc:84-86 | Visiting one more entry extends the result by that entry exactly when it passes (`push_back`). |
| Neighbors.AscendingDeterminedByRecords | GpsrRouting.h:24 | Two id-ordered tables holding the same records are equal, so an ordered list is determined by its members. |
| Neighbors.FirstMinKeepsStart | GpsrRouting.cc:36-45 | The running minimum with strict `<` keeps its start value and id when no eligible entry beats the start. |
| Neighbors.FirstMinFindsFirstMinimum | GpsrRouting.cc:39-45 | When some eligible entry beats the start, the scan ends on an eligible entry of minimal cost that is strictly cheaper than every eligible entry before it, so the first one wins ties. |
| Planar.Planarize | GpsrRouting.cc:69-113 | The planar list holds exactly the neighbours that no neighbour with a different key blocks, each once, in table order. It is a subsequence of the table, and a well-formed table gives a well-formed list. |
| Planar.PlanarizeScan | GpsrRouting.cc:69-89 | The nested loops of `rng_planarize`/`gg_planarize` compute exactly the unblocked entries in table order. The inner loop may stop at the first blocker; a blocker with the same key is skipped. |
| Planar.RngKeepsNearest | GpsrRouting.cc:69-89 | RNG never removes a neighbour nearest the node, so a node with any neighbour has a non-empty RNG list. |
| Planar.RngNotWithinGg | GpsrRouting.cc:95-102 | There is a concrete table whose neighbour RNG keeps but GG drops, because the midpoint is truncated. |
| Planar.GabrielDiscInsideLune | GpsrRouting.cc:76-78 | For integer points in exact arithmetic, a point strictly inside the circle with diameter self–neighbour is strictly closer than the neighbour both to self and to the neighbour: every GG blocker is an RNG blocker. |
| Perimeter.NormDelta | GpsrRouting.cc:163-166 | The normalised turn lies in [0, 2π) for proper directions and is zero only for the same direction. With the -1 sentinel on either side it stays between -1 and 2π + 1, far below DBL_MAX. |
| Perimeter.ReferenceAngle | GpsrRouting.cc:150-156 | The reference direction lies in [-1, 2π). It is the sentinel exactly when the previous hop, or the destination when there is none, sits on the node itself. |
| Perimeter.SweepFacts | GpsrRouting.cc:158-172 | The sweep finds no neighbour exactly when every planar neighbour is the previous hop. Otherwise it finds a planar neighbour other than the previous hop, of minimal turn and first among ties. With two or more planar neighbours it always finds one. |
| Perimeter.SweepChoice | GpsrRouting.cc:150-172 | `nexthop` is -1 exactly when every planar neighbour is `last`; otherwise it is a planar key different from `last`. It is never -1 when there are several planar neighbours. |
| Perimeter.Intersect | GpsrRouting.cc:130-144 | `intersect(theother, …)` holds exactly when the edge to that neighbour and the segment from (sx, sy) to (dx, dy) are not parallel and cross at a point interior to both. |
| Perimeter.PeriStep | GpsrRouting.cc:147-178 | An activation recurses only with several planar neighbours, to a planar key other than `last`. Otherwise it answers a planar key, or -1 exactly when every planar neighbour is `last`. |
| Perimeter.PeriStepFollowsSweep | GpsrRouting.cc:158-178 | Whether it recurses or answers, an activation hands over to the first planar neighbour of minimal turn from the reference direction, other than `last`. With several planar neighbours it recurses exactly when the edge to that neighbour crosses the segment from (sx, sy) to (dx, dy). |
| Perimeter.WalkOnRecurse | GpsrRouting.cc:174-175 | After a recursing activation, the walk continues from the chosen neighbour as the new `last` with the same sx, sy, dx, dy, spending one unit of fuel. |
| Perimeter.PeriWalk | GpsrRouting.cc:147-179 | Any returned hop is a planar key other than -1. -1 is returned exactly when every planar neighbour is the previous hop the walk started from. |
| Perimeter.PeriNextHop | GpsrRouting.cc:147-179 | `peri_nexthop` with a recursion bound: any returned hop is a key of the planarized table, and -1 means every planar neighbour is `last`. |
| Perimeter.PeriFuelMonotone | GpsrRouting.cc:174-175 | More fuel never changes a decision that was reached, so the bound is invisible whenever it suffices. |
| Perimeter.PeriFromOwnPositionStops | GpsrRouting.cc:50-53 | Started from the node's own position, as greedy forwarding starts it, perimeter forwarding never recurses: its answer is reached with no fuel at all. |
| Perimeter.PeriCanRecurseForever | GpsrRouting.cc:174-175 | There is a table and segment on which `peri_nexthop` recurses without end, for every angle routine satisfying the laws and every bound. |
| Perimeter.CycleCrosses | GpsrRouting.cc:137-143 | On that table both planar edges cross the segment from (1, -3) to (1, 3). |
| Greedy.ClosestFacts | GpsrRouting.cc:36-45 | The closest-neighbour scan keeps (own distance, -1) when no neighbour is strictly closer than the node. Otherwise it ends on the first closest neighbour. |
| Greedy.GreedyForwarding | GpsrRouting.cc:33-58 | `greedy_forwarding` never exhausts perimeter recursion, and any hop it returns is a key of the table other than -1. |
| Greedy.GreedyProgress | GpsrRouting.cc:39-57 | If some neighbour is strictly closer to the destination than the node, the result is a neighbour strictly closer than the node, closest of all, and first in id order among equals. |
| Greedy.GreedyFallback | GpsrRouting.cc:48-54 | If no neighbour is strictly closer (the empty table included), the result is perimeter forwarding with no previous hop from the node's own position toward the destination. |
| Greedy.GreedyPicksCloser | GpsrRouting.cc:33-58 | Neighbours 2 at (10, 0) and 3 at (0, 10), self at (0, 0), destination (20, 0): the answer is 2. |
| Greedy.IsolatedNodeHasNoRoute | GpsrRouting.cc:48-54 | A node with an empty table answers -1 for every destination. |
| Greedy.PerimeterAroundVoid | GpsrRouting.cc:48-54 | A lone neighbour farther from the destination than the node is still chosen, through perimeter forwarding. |

## Left out

- The OMNeT++ plumbing (VehiclesNetwork.cc, VehiclesNetwork.h, Vehiclecommunication.h) is outside the routing decision and is not part of this model. So are the lifecycle methods `initialize`, `handleMessage` and `finish` (GpsrRouting.h:21-22, 34), which are declared but not defined.
- Neighbour-table upsert, expiry and clear do not exist in GpsrRouting.cc, so they are not modelled. The `ts` field is carried in the record but never read.
- Return-to-greedy recovery during perimeter forwarding is absent from the code and is not added.
- The own id `my_id` is never read by the decision code, so it is omitted. `my_x` and `my_y` become the `Node` parameter.
- Perimeter.PeriNextHop: `peri_nexthop`'s recursion is unbounded. The model bounds it with fuel and reports `OutOfFuel` when the bound is exceeded, a result the code cannot produce. PeriFuelMonotone shows the bound changes nothing when it suffices. `GreedyForwarding` passes no fuel, which PeriFromOwnPositionStops shows is enough.
- Geometry.AngleLawsSatisfiable: `angle` (sqrt, then acos) is not computed. It is a parameter constrained only by the sentinel, range and half-plane laws, so every perimeter fact holds for any routine obeying them. The actual acos value and its floating-point rounding are not modelled.
- Geometry.SqDist: `calculateDistance` returns a rounded double square root. The model compares exact squared integers instead, which orders distances the way exact square roots do. A rounding that makes two distinct large distances compare equal as doubles is not modelled.
- Geometry.Trunc: a double outside the `int` range, or a non-finite one, is undefined behaviour in the conversion; the model truncates any real. Integer overflow of the `int` differences and the 32-bit `int` width of ids and coordinates are not modelled.
- Geometry.SegmentsCrossMeaning: `intersect` is evaluated over exact reals. Double rounding of the denominator and of ua, ub is not modelled.
- Neighbors.Lookup: `neighborTable[id]` inserts a default record for a missing key. The model requires the key to be present instead. This is proved for every call the code makes: the previous hop handed down by the recursion, and the candidate passed to `intersect`.
- Neighbors.Valid: the table is assumed to hold each record under its own id, and no id equal to -1, the code's "no neighbour" value.

## Behaviour of the code worth noting

- For integer points in exact arithmetic, every Gabriel-graph blocker is an RNG blocker, so RNG output is contained in GG output (Planar.GabrielDiscInsideLune). The code truncates the GG midpoint to integers in `calculateDistance`, which breaks this. Planar.RngNotWithinGg gives a table (self at (5, 5), neighbours at (2, 2) and (1, 3)) where RNG keeps the first neighbour and GG drops it. The model keeps the code's truncation.
- `peri_nexthop` has no bound on its recursion (GpsrRouting.cc:174-175). When the walk is started at a point other than the node, it can recurse forever. Perimeter.PeriCanRecurseForever exhibits a two-neighbour table with the walk started at (1, -3), where it does. The only caller, `greedy_forwarding`, always starts the walk at the node's own position (GpsrRouting.cc:53). From there Perimeter.PeriFromOwnPositionStops proves that the recursion never fires, so the cycle cannot arise through `greedy_forwarding`.
- A neighbour that coincides with the node makes `angle` return -1, and `peri_nexthop` does not exclude it from the sweep (GpsrRouting.cc:163). The sentinel enters the turn computation like any direction (Perimeter.NormDelta).
- The greedy branch only ever hands a packet to a neighbour strictly closer to the destination than the node (Greedy.GreedyProgress). The perimeter fallback can choose a neighbour farther away (Greedy.PerimeterAroundVoid).
