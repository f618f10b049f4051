# Delhi Metro route planner: query engine model

This project models the query engine of a small transit route planner, written in Dafny.
Given two base relations, it answers a query (start stop, end stop, optional stop to avoid)
with four ranked lists:

- `direct_routes`: fare legs that go straight from start to end (`DirectRoute`);
- `one_transfer`: chains of two legs on different routes joined at a middle stop (`Transfer1Route`);
- `two_transfer`: chains of three legs on pairwise different routes (`Transfer2Route`);
- `avoid_stop`: direct routes whose stop list does not contain the stop to avoid (`AvoidStopRoute`).

The two base relations are:

- route → ordered stop ids, built from the merged `stop_times.txt`/`trips.txt` rows;
- (route, origin, destination) → price, built from the merged `fare_rules.txt`/`fare_attributes.txt` rows.

Each list is sorted by its trailing price, highest first, and cut to five entries.

Modules, leaf first:

- `Choice` (`choice.dfy`): picks an arbitrary element of a finite set. This stands for the order in which the program walks a dictionary or an answer set.
- `Mappings` (`mappings.dfy`): `create_mappings` after the CSV reads.
  - `GroupStops` groups the rows per route with a loop. Each route's `(stop_sequence, stop_id)` pairs are then sorted in place on an array (`SortInPlace`, an insertion sort) and projected to stop ids.
  - The result is proved equal to a reference definition, `OrderedStops`. That is a functional insertion sort, and a sorted permutation is unique (`SortedVisitsUnique`).
  - `BuildFares` fills the fares map row by row. Its reference definition, `FareTable`, is a left fold in which a later row overwrites an earlier one.
- `Facts` (`facts.dfy`): `setup_datalog`. It asserts the `RouteHasStop` and `TripFare` facts with loops. The knowledge base is an explicit `KnowledgeBase` value rather than a global fact store.
- `Rules` (`rules.dfy`): the four rules of `define_rules`, written as set comprehensions over the facts. Each is proved to hold exactly the tuples described in terms of the two mappings.
- `Ranking` (`ranking.dfy`): each category's answers are sorted by their trailing price, highest first, and the first five are kept. This is a stable descending insertion sort by price followed by a slice.
- `Query` (`query.dfy`): `query_routes`. The answer set of each rule is listed in an arbitrary order (the engine's enumeration) and then ranked.
  - The three route categories are always filled.
  - The avoid-stop category is filled only when `avoid_stop` is truthy. In Python, a stop id of `0` counts as falsy just like `None`, and the model keeps that.

Prices are `real`: the program only adds and compares them.

Points of the source worth knowing, which the model keeps:

- The source sorts each route's stops itself, by `(stop_sequence, stop_id)`, whatever order the rows arrive in.
- The fares dictionary keeps one price per (route, origin, destination): when several rows share that key, the last row's price wins, so there is one `TripFare` fact per key.
- The rules join directly over the fact set; there is no separate per-stop index.

## Model

| member | source | states |
|---|---|---|
| Mappings.GroupStops | IIS_q2_2024027.py:34-46 | one key per route that has rows; each route's list is the stop ids of exactly that route's rows ordered by (stop_sequence, stop_id) |
| Mappings.SortInPlace | IIS_q2_2024027.py:45 | the in-place sort leaves the array ordered by (stop_sequence, stop_id) and a permutation of its old contents |
| Mappings.SortVisits | IIS_q2_2024027.py:45-46 | sorting a route's collected pairs in place gives the reference order |
| Mappings.SortedVisitsSorted | IIS_q2_2024027.py:45 | the reference order is lexicographic on (stop_sequence, stop_id) |
| Mappings.SortedVisitsPerm | IIS_q2_2024027.py:45 | the reference order keeps every (stop_sequence, stop_id) pair, duplicates included |
| Mappings.SortedVisitsStopIds | IIS_q2_2024027.py:45-46 | the projected stop list keeps every stop id, duplicates included |
| Mappings.SortedVisitsUnique | IIS_q2_2024027.py:45 | two sorted sequences of pairs with the same elements are equal, so the stored order is fully determined |
| Mappings.VisitsOfExactly | IIS_q2_2024027.py:35-41 | a route gets a non-empty list iff it has a row, and each collected pair is that of a row of that route |
| Mappings.OrderedStopsContents | IIS_q2_2024027.py:34-46 | a route's stored list holds one stop id per row of that route, in sorted order |
| Mappings.BuildFares | IIS_q2_2024027.py:49-55 | the fares map is the rows stored key by key, later rows overwriting earlier ones |
| Mappings.FareTableKeys | IIS_q2_2024027.py:49-55 | the fares map has exactly the keys that occur in the rows |
| Mappings.FareTableLastWins | IIS_q2_2024027.py:55 | the price stored under a key is that of the last row with that key |
| Facts.StopFactsExactly | IIS_q2_2024027.py:66-68 | RouteHasStop(r, s) holds iff r has a stop list and s is on it |
| Facts.FareFactsExactly | IIS_q2_2024027.py:71-72 | TripFare(r, o, d, p) holds iff the fares map stores p under (r, o, d) |
| Facts.AssertRouteStops | IIS_q2_2024027.py:67-68 | adds a RouteHasStop fact for each stop of one route and nothing else |
| Facts.AssertStopFacts | IIS_q2_2024027.py:66-68 | the RouteHasStop facts asserted are exactly one per listed (route, stop) |
| Facts.AssertFareFacts | IIS_q2_2024027.py:71-72 | the TripFare facts asserted are exactly one per fares entry |
| Facts.SetupFacts | IIS_q2_2024027.py:59-72 | the knowledge base holds exactly the facts of the two mappings |
| Rules.DirectRoutes | IIS_q2_2024027.py:86-88 | DirectRoute(X, Y) holds only direct answers; Rules.DirectRoutesExactly gives its exact contents |
| Rules.Transfer1Routes | IIS_q2_2024027.py:91-94 | Transfer1Route(X, Y) holds only one-transfer answers whose two routes differ; Rules.Transfer1RoutesExactly gives its exact contents |
| Rules.Transfer2Routes | IIS_q2_2024027.py:97-101 | Transfer2Route(X, Y) holds only two-transfer answers on three pairwise different routes; Rules.Transfer2RoutesSound and Rules.Transfer2RoutesComplete give its exact contents |
| Rules.AvoidStopRoutes | IIS_q2_2024027.py:104-106 | AvoidStopRoute(X, Y, S) is a part of DirectRoute(X, Y); Rules.AvoidStopRoutesExactly says which part |
| Rules.DirectRoutesExactly | IIS_q2_2024027.py:86-88 | DirectRoute(X, Y) holds exactly the (R, P) with fares[(R, X, Y)] == P, and only when X != Y |
| Rules.NoDirectSelfLoop | IIS_q2_2024027.py:86-88 | DirectRoute(X, X) and AvoidStopRoute(X, X, S) are empty |
| Rules.Transfer1RoutesExactly | IIS_q2_2024027.py:91-94 | Transfer1Route(X, Y) holds exactly the (R1, Z, R2, P) with legs R1: X→Z and R2: Z→Y, R1 != R2 and P the sum of the two prices |
| Rules.OneTransferRoundTrip | IIS_q2_2024027.py:91-94 | no guard forbids X == Y: a two-leg chain back to the start is an answer |
| Rules.Transfer2RoutesSound | IIS_q2_2024027.py:97-101 | every Transfer2Route(X, Y) tuple is three chained legs X→Z1→Z2→Y on pairwise distinct routes with P the sum of the three prices |
| Rules.Transfer2RoutesComplete | IIS_q2_2024027.py:97-101 | every such chain of three legs is a Transfer2Route(X, Y) tuple |
| Rules.AvoidStopRoutesExactly | IIS_q2_2024027.py:104-106 | AvoidStopRoute(X, Y, S) is the part of DirectRoute(X, Y) whose route does not list S; a route with no stop list is never excluded |
| Ranking.SortByPriceDesc | IIS_q2_2024027.py:123 | the sort returns as many answers as it is given; Ranking.SortByPriceDescElements, Ordered and Stable pin the result down |
| Ranking.Ranked | IIS_q2_2024027.py:123 | the slice keeps min(5, n) of the n answers; Ranking.RankedShape and Ranking.RankedOmitsOnlyCheaper say which |
| Ranking.SortByPriceDescElements | IIS_q2_2024027.py:123 | sorting keeps every answer, duplicates included |
| Ranking.SortByPriceDescOrdered | IIS_q2_2024027.py:123 | sorting orders answers by price, highest first |
| Ranking.SortByPriceDescStable | IIS_q2_2024027.py:123 | sorting is stable: answers of equal price keep their input order |
| Ranking.SortByPriceDescDistinct | IIS_q2_2024027.py:123 | sorting a list without repeats yields none |
| Ranking.RankedShape | IIS_q2_2024027.py:123 | the ranked list has min(5, n) answers of the input in non-increasing price order, and all of them when n <= 5 |
| Ranking.RankedOmitsOnlyCheaper | IIS_q2_2024027.py:123 | every answer cut off by the slice is priced at most the last one kept |
| Ranking.RankedDistinct | IIS_q2_2024027.py:123 | ranking an enumeration without repeats yields no answer twice |
| Ranking.SortedPricesUnique | IIS_q2_2024027.py:123 | two price-ordered lists of the same answers agree on the price at every position |
| Ranking.RankedPricesDetermined | IIS_q2_2024027.py:122-133 | the ranked prices do not depend on the order in which the engine enumerates the answers |
| Query.Enumerate | IIS_q2_2024027.py:122 | an answer set is listed with each answer exactly once |
| Query.RankCategory | IIS_q2_2024027.py:122-123 | a category's list is a top-5 of its answer set: min(5, n) distinct answers, non-increasing in price, each omitted answer priced at most the last kept |
| Query.QueryRoutes | IIS_q2_2024027.py:108-135 | the direct, one-transfer and two-transfer lists are top-5 rankings of their rules; the avoid-stop list is a top-5 ranking of AvoidStopRoute when avoid_stop is truthy, and empty when it is None or 0 |

## Left out

- Reading and merging the CSV files with pandas (IIS_q2_2024027.py:20-31) is file I/O through a foreign library. The merged rows are method inputs, and the `int(...)`/`float(...)` conversions are assumed done.
- pyDatalog set-up (`pyDatalog.clear`, `create_terms`, IIS_q2_2024027.py:4-7) and its global fact store are not modelled. The facts are an explicit value passed to the rules.
- pyDatalog's evaluation strategy is not modelled. Each rule is given by its meaning, a set of answer tuples. The order in which `.data` lists the answers is an arbitrary choice (`Query.Enumerate`).
- Float semantics of prices: prices are exact `real`s. Rounding in `P1 + P2` (+ `P3`) is not modelled, and neither are NaN or infinities.
- `main` and the printing (IIS_q2_2024027.py:137-158) are orchestration and output.
- The recorded outputs in the test-case comments (IIS_q2_2024027.py:161-177) depend on feed data that is not part of this model. Their order among equal prices comes from the engine's enumeration.
- The iteration order of dictionaries in `create_mappings` and `setup_datalog` is not modelled, because no result depends on it.
- Query.QueryRoutes: the order among answers of equal price is left open, as is which of them survive the cut to five. Ranking.RankedPricesDetermined shows that only those choices can differ between two runs of the same query.
