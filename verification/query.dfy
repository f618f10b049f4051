/** Query execution: evaluates the four rules for one start/end pair and ranks each category. */
module Query {
  import opened Choice
  import opened Facts
  import opened Rules
  import opened Ranking

  datatype Option<T> = None | Some(value: T)

  /** The four result lists, as the source's results dictionary holds them. */
  datatype QueryResult = QueryResult(
    directRoutes: seq<Itinerary>,
    oneTransfer: seq<Itinerary>,
    twoTransfer: seq<Itinerary>,
    avoidStop: seq<Itinerary>)

  /** r is a top-5 ranking of the answer set s: min(5, |s|) distinct answers of s, highest price
      first, and every answer of s left out is priced at most the last one kept. */
  predicate IsTopK(r: seq<Itinerary>, s: set<Itinerary>)
  {
    && |r| == Min(TopK, |s|)
    && NonIncreasing(r)
    && Distinct(r)
    && (forall x :: x in r ==> x in s)
    && (forall x :: x in s && x !in r ==> 0 < |r| && x.price <= r[|r| - 1].price)
  }

  /** Python truthiness of `avoid_stop`: None and the stop id 0 are both false. */
  predicate IsGiven(avoid: Option<int>)
  {
    avoid.Some? && avoid.value != 0
  }

  /** Lists an answer set, each answer once, in whatever order the rule engine yields them. */
  method Enumerate(s: set<Itinerary>) returns (xs: seq<Itinerary>)
    ensures Distinct(xs)
    ensures |xs| == |s|
    ensures forall x :: x in xs <==> x in s
  {
    xs := [];
    var rest := s;
    while rest != {}
      invariant rest <= s
      invariant Distinct(xs)
      invariant |xs| + |rest| == |s|
      invariant forall x :: x in xs <==> x in s && x !in rest
      decreases rest
    {
      var x := Pick(rest);
      xs := xs + [x];
      rest := rest - {x};
    }
  }

  /** Ranks one answer set: lists it in the engine's order, sorts by price, highest first, and keeps five. */
  method RankCategory(s: set<Itinerary>) returns (r: seq<Itinerary>)
    ensures IsTopK(r, s)
  {
    var xs := Enumerate(s);
    r := Ranked(xs);
    RankedShape(xs);
    RankedDistinct(xs);
    forall x | x in s && x !in r ensures 0 < |r| && x.price <= r[|r| - 1].price {
      RankedOmitsOnlyCheaper(xs, x);
    }
  }

  /** Answers one query for a start stop, an end stop and an optional stop to avoid: the three
      route categories are always ranked; the avoid-stop category only when a stop to avoid is
      given, and empty otherwise. */
  method QueryRoutes(kb: KnowledgeBase, start: int, end: int, avoid: Option<int>) returns (res: QueryResult)
    ensures IsTopK(res.directRoutes, DirectRoutes(kb, start, end))
    ensures IsTopK(res.oneTransfer, Transfer1Routes(kb, start, end))
    ensures IsTopK(res.twoTransfer, Transfer2Routes(kb, start, end))
    ensures IsGiven(avoid) ==> IsTopK(res.avoidStop, AvoidStopRoutes(kb, start, end, avoid.value))
    ensures !IsGiven(avoid) ==> res.avoidStop == []
  {
    res := QueryResult([], [], [], []);
    var direct := RankCategory(DirectRoutes(kb, start, end));
    res := res.(directRoutes := direct);
    var one := RankCategory(Transfer1Routes(kb, start, end));
    res := res.(oneTransfer := one);
    var two := RankCategory(Transfer2Routes(kb, start, end));
    res := res.(twoTransfer := two);
    if IsGiven(avoid) {
      var avoiding := RankCategory(AvoidStopRoutes(kb, start, end, avoid.value));
      res := res.(avoidStop := avoiding);
    }
  }
}
