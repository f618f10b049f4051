/** Building the two base relations from the merged GTFS rows:
    route -> ordered stop ids, and (route, origin, destination) -> price. */
module Mappings {
  import opened Choice

  /** One row of stop_times.txt joined with trips.txt on trip_id. */
  datatype StopTimeRow = StopTimeRow(route: int, stop: int, sequence: int)

  /** One row of fare_rules.txt joined with fare_attributes.txt on fare_id. */
  datatype FareRow = FareRow(route: int, origin: int, destination: int, price: real)

  /** A (stop_sequence, stop_id) pair: the element that is collected and sorted per route. */
  type Visit = (int, int)

  /** The key of the fares map: (route, origin, destination). */
  type FareKey = (int, int, int)

  // ---------------------------------------------------------------------------
  // Route -> ordered stops
  // ---------------------------------------------------------------------------

  /** Lexicographic order on (stop_sequence, stop_id), as Python compares tuples. */
  predicate VisitLeq(a: Visit, b: Visit)
  {
    a.0 < b.0 || (a.0 == b.0 && a.1 <= b.1)
  }

  predicate VisitsSorted(s: seq<Visit>)
  {
    forall i, j :: 0 <= i < j < |s| ==> VisitLeq(s[i], s[j])
  }

  /** The routes that have at least one row. */
  function RoutesOf(rows: seq<StopTimeRow>): set<int>
  {
    set row | row in rows :: row.route
  }

  /** The visits of one route, one per row of that route, in row order. */
  function VisitsOf(rows: seq<StopTimeRow>, route: int): seq<Visit>
  {
    if rows == [] then []
    else
      var last := rows[|rows| - 1];
      VisitsOf(rows[..|rows| - 1], route) + (if last.route == route then [(last.sequence, last.stop)] else [])
  }

  /** The stop ids of a sequence of visits, in the same order. */
  function StopIds(vs: seq<Visit>): seq<int>
  {
    if vs == [] then [] else [vs[0].1] + StopIds(vs[1..])
  }

  /** Reference sort: insertion of one visit into a sorted sequence. */
  function InsertVisit(v: Visit, s: seq<Visit>): seq<Visit>
  {
    if s == [] then [v]
    else if VisitLeq(v, s[0]) then [v] + s
    else [s[0]] + InsertVisit(v, s[1..])
  }

  /** Reference sort: insertion sort by (stop_sequence, stop_id). */
  function SortedVisits(s: seq<Visit>): seq<Visit>
  {
    if s == [] then [] else InsertVisit(s[0], SortedVisits(s[1..]))
  }

  /** What the source stores for a route: the stop ids of its rows, ordered by (stop_sequence, stop_id). */
  function OrderedStops(rows: seq<StopTimeRow>, route: int): seq<int>
  {
    StopIds(SortedVisits(VisitsOf(rows, route)))
  }

  lemma {:induction false} InsertVisitSorted(v: Visit, s: seq<Visit>)
    requires VisitsSorted(s)
    ensures VisitsSorted(InsertVisit(v, s))
    ensures forall x :: x in InsertVisit(v, s) ==> x == v || x in s
  {
    if s != [] && !VisitLeq(v, s[0]) {
      InsertVisitSorted(v, s[1..]);
      var r := InsertVisit(v, s[1..]);
      assert InsertVisit(v, s) == [s[0]] + r;
      assert forall x :: x in r ==> VisitLeq(s[0], x);
    }
  }

  lemma {:induction false} InsertVisitPerm(v: Visit, s: seq<Visit>)
    ensures multiset(InsertVisit(v, s)) == multiset(s) + multiset{v}
  {
    if s != [] && !VisitLeq(v, s[0]) {
      InsertVisitPerm(v, s[1..]);
      calc {
        multiset(InsertVisit(v, s));
        multiset([s[0]] + InsertVisit(v, s[1..]));
        multiset{s[0]} + multiset(InsertVisit(v, s[1..]));
        multiset{s[0]} + multiset(s[1..]) + multiset{v};
        { assert s == [s[0]] + s[1..]; }
        multiset(s) + multiset{v};
      }
    }
  }

  lemma {:induction false} InsertVisitStopIds(v: Visit, s: seq<Visit>)
    ensures multiset(StopIds(InsertVisit(v, s))) == multiset(StopIds(s)) + multiset{v.1}
  {
    if s == [] {
      assert StopIds([v]) == [v.1] + StopIds([]);
    } else if VisitLeq(v, s[0]) {
      assert ([v] + s)[1..] == s;
      assert StopIds([v] + s) == [v.1] + StopIds(s);
    } else {
      InsertVisitStopIds(v, s[1..]);
      var r := InsertVisit(v, s[1..]);
      assert ([s[0]] + r)[1..] == r;
      calc {
        multiset(StopIds(InsertVisit(v, s)));
        multiset(StopIds([s[0]] + r));
        multiset([s[0].1] + StopIds(r));
        multiset{s[0].1} + multiset(StopIds(r));
        multiset{s[0].1} + multiset(StopIds(s[1..])) + multiset{v.1};
        multiset([s[0].1] + StopIds(s[1..])) + multiset{v.1};
        multiset(StopIds(s)) + multiset{v.1};
      }
    }
  }

  /** The reference sort yields a sequence ordered by (stop_sequence, stop_id). */
  lemma {:induction false} SortedVisitsSorted(s: seq<Visit>)
    ensures VisitsSorted(SortedVisits(s))
  {
    if s != [] {
      SortedVisitsSorted(s[1..]);
      InsertVisitSorted(s[0], SortedVisits(s[1..]));
    }
  }

  /** The reference sort keeps every visit, duplicates included. */
  lemma {:induction false} SortedVisitsPerm(s: seq<Visit>)
    ensures multiset(SortedVisits(s)) == multiset(s)
  {
    if s != [] {
      SortedVisitsPerm(s[1..]);
      InsertVisitPerm(s[0], SortedVisits(s[1..]));
      assert s == [s[0]] + s[1..];
    }
  }

  /** The reference sort keeps every stop id, duplicates included. */
  lemma {:induction false} SortedVisitsStopIds(s: seq<Visit>)
    ensures multiset(StopIds(SortedVisits(s))) == multiset(StopIds(s))
  {
    if s != [] {
      SortedVisitsStopIds(s[1..]);
      InsertVisitStopIds(s[0], SortedVisits(s[1..]));
      assert StopIds(s) == [s[0].1] + StopIds(s[1..]);
    }
  }

  /** Two sorted sequences of visits with the same elements are equal: the order is fully determined. */
  lemma {:induction false} SortedVisitsUnique(a: seq<Visit>, b: seq<Visit>)
    requires VisitsSorted(a) && VisitsSorted(b)
    requires multiset(a) == multiset(b)
    ensures a == b
  {
    if a == [] {
      assert |b| == |multiset(b)| == 0;
    } else {
      assert a[0] in multiset(b);
      assert b[0] in multiset(a);
      assert VisitLeq(b[0], a[0]) && VisitLeq(a[0], b[0]);
      assert a[0] == b[0];
      assert a == [a[0]] + a[1..];
      assert b == [b[0]] + b[1..];
      calc {
        multiset(a[1..]);
        multiset(a) - multiset{a[0]};
        multiset(b) - multiset{b[0]};
        multiset(b[1..]);
      }
      SortedVisitsUnique(a[1..], b[1..]);
    }
  }

  lemma {:induction false} VisitsOfAbsent(rows: seq<StopTimeRow>, route: int)
    requires route !in RoutesOf(rows)
    ensures VisitsOf(rows, route) == []
  {
    if rows != [] {
      assert forall row | row in rows[..|rows| - 1] :: row in rows;
      VisitsOfAbsent(rows[..|rows| - 1], route);
    }
  }

  /** Every route with a row has at least one visit, and every visit comes from a row of that route. */
  lemma {:induction false} VisitsOfExactly(rows: seq<StopTimeRow>, route: int)
    ensures route in RoutesOf(rows) <==> VisitsOf(rows, route) != []
    ensures forall v :: v in VisitsOf(rows, route) <==> StopTimeRow(route, v.1, v.0) in rows
  {
    if rows != [] {
      var init, last := rows[..|rows| - 1], rows[|rows| - 1];
      assert rows == init + [last];
      VisitsOfExactly(init, route);
      assert RoutesOf(rows) == RoutesOf(init) + {last.route};
    }
  }

  /** Exchanges two neighbouring elements of the array. */
  method SwapAdjacent(a: array<Visit>, j: int)
    requires 0 < j < a.Length
    modifies a
    ensures a[..] == old(a[..])[j - 1 := old(a[j])][j := old(a[j - 1])]
    ensures multiset(a[..]) == old(multiset(a[..]))
  {
    a[j - 1], a[j] := a[j], a[j - 1];
  }

  /** Moves a[i] left until a[..i + 1] is sorted, given that a[..i] is. */
  method SinkInto(a: array<Visit>, i: int)
    requires 0 <= i < a.Length
    requires VisitsSorted(a[..i])
    modifies a
    ensures VisitsSorted(a[..i + 1])
    ensures multiset(a[..]) == old(multiset(a[..]))
  {
    var j := i;
    while j > 0 && !VisitLeq(a[j - 1], a[j])
      invariant 0 <= j <= i
      invariant multiset(a[..]) == old(multiset(a[..]))
      invariant forall k, l :: 0 <= k < l <= i && l != j ==> VisitLeq(a[k], a[l])
    {
      SwapAdjacent(a, j);
      j := j - 1;
    }
  }

  /** Sorts one route's visits in place, as the source's list.sort(). */
  method SortInPlace(a: array<Visit>)
    modifies a
    ensures VisitsSorted(a[..])
    ensures multiset(a[..]) == old(multiset(a[..]))
  {
    var i := 0;
    while i < a.Length
      invariant 0 <= i <= a.Length
      invariant VisitsSorted(a[..i])
      invariant multiset(a[..]) == old(multiset(a[..]))
    {
      SinkInto(a, i);
      i := i + 1;
    }
    assert a[..] == a[..a.Length];
  }

  /** Sorts a route's collected visits through an in-place sort; the result is the reference order. */
  method SortVisits(s: seq<Visit>) returns (sorted: seq<Visit>)
    ensures sorted == SortedVisits(s)
  {
    var a := new Visit[|s|](i requires 0 <= i < |s| => s[i]);
    assert a[..] == s;
    SortInPlace(a);
    sorted := a[..];
    SortedVisitsSorted(s);
    SortedVisitsPerm(s);
    SortedVisitsUnique(sorted, SortedVisits(s));
  }

  /** The route -> ordered stop ids mapping: one key per route that has rows, and
      for each, the stop ids of its rows ordered by (stop_sequence, stop_id). */
  method GroupStops(rows: seq<StopTimeRow>) returns (routeToStops: map<int, seq<int>>)
    ensures routeToStops.Keys == RoutesOf(rows)
    ensures forall route :: route in routeToStops ==> routeToStops[route] == OrderedStops(rows, route)
  {
    var grouped: map<int, seq<Visit>> := map[];
    for i := 0 to |rows|
      invariant grouped.Keys == RoutesOf(rows[..i])
      invariant forall route :: route in grouped ==> grouped[route] == VisitsOf(rows[..i], route)
    {
      var row := rows[i];
      assert rows[..i + 1][..i] == rows[..i];
      assert rows[..i + 1] == rows[..i] + [row];
      assert RoutesOf(rows[..i + 1]) == RoutesOf(rows[..i]) + {row.route};
      if row.route !in grouped {
        VisitsOfAbsent(rows[..i], row.route);
        grouped := grouped[row.route := []];
      }
      grouped := grouped[row.route := grouped[row.route] + [(row.sequence, row.stop)]];
    }
    assert rows[..|rows|] == rows;

    routeToStops := map[];
    var pending := grouped.Keys;
    while pending != {}
      invariant pending <= grouped.Keys
      invariant routeToStops.Keys == grouped.Keys - pending
      invariant forall route :: route in routeToStops ==> routeToStops[route] == OrderedStops(rows, route)
      decreases pending
    {
      var route := Pick(pending);
      var sorted := SortVisits(grouped[route]);
      routeToStops := routeToStops[route := StopIds(sorted)];
      pending := pending - {route};
    }
  }

  /** A route's stored stop list holds the stop ids of exactly that route's rows, one per row. */
  lemma OrderedStopsContents(rows: seq<StopTimeRow>, route: int)
    ensures multiset(OrderedStops(rows, route)) == multiset(StopIds(VisitsOf(rows, route)))
    ensures VisitsSorted(SortedVisits(VisitsOf(rows, route)))
  {
    SortedVisitsSorted(VisitsOf(rows, route));
    SortedVisitsStopIds(VisitsOf(rows, route));
  }

  // ---------------------------------------------------------------------------
  // Fares
  // ---------------------------------------------------------------------------

  function KeyOf(row: FareRow): FareKey
  {
    (row.route, row.origin, row.destination)
  }

  /** The fares map after storing the rows one by one, each overwriting its key. */
  function FareTable(rows: seq<FareRow>): map<FareKey, real>
  {
    if rows == [] then map[]
    else
      var last := rows[|rows| - 1];
      FareTable(rows[..|rows| - 1])[KeyOf(last) := last.price]
  }

  /** Row i is the last row with its key. */
  predicate LastWithKey(rows: seq<FareRow>, i: int)
  {
    0 <= i < |rows| && forall j :: i < j < |rows| ==> KeyOf(rows[j]) != KeyOf(rows[i])
  }

  /** The fares map has exactly one entry per key that occurs in the rows. */
  lemma {:induction false} FareTableKeys(rows: seq<FareRow>)
    ensures FareTable(rows).Keys == set row | row in rows :: KeyOf(row)
  {
    if rows != [] {
      var init := rows[..|rows| - 1];
      assert rows == init + [rows[|rows| - 1]];
      FareTableKeys(init);
    }
  }

  /** A later row with the same key overwrites an earlier one: the price stored is that of the last row. */
  lemma {:induction false} FareTableLastWins(rows: seq<FareRow>, i: int)
    requires LastWithKey(rows, i)
    ensures KeyOf(rows[i]) in FareTable(rows)
    ensures FareTable(rows)[KeyOf(rows[i])] == rows[i].price
  {
    if i < |rows| - 1 {
      var init := rows[..|rows| - 1];
      assert LastWithKey(init, i);
      FareTableLastWins(init, i);
    }
  }

  /** Builds the fares map by storing each row under its key, later rows overwriting earlier ones. */
  method BuildFares(rows: seq<FareRow>) returns (fares: map<FareKey, real>)
    ensures fares == FareTable(rows)
  {
    fares := map[];
    for i := 0 to |rows|
      invariant fares == FareTable(rows[..i])
    {
      assert rows[..i + 1][..i] == rows[..i];
      var row := rows[i];
      fares := fares[(row.route, row.origin, row.destination) := row.price];
    }
    assert rows[..|rows|] == rows;
  }
}
