/** The four derived relations: DirectRoute, Transfer1Route, Transfer2Route and
    AvoidStopRoute, each the set of answer tuples for a fixed start and end stop. */
module Rules {
  import opened Mappings
  import opened Facts

  /** An answer tuple; `price` is its trailing field in every category. */
  datatype Itinerary =
    | Direct(route: int, price: real)
    | OneTransfer(route1: int, via: int, route2: int, price: real)
    | TwoTransfer(route1: int, via1: int, route2: int, via2: int, route3: int, price: real)

  /** The direct answers: one per fare leg from start to end, priced at that fare;
      none at all when start and end are the same stop. */
  function DirectRoutes(kb: KnowledgeBase, start: int, end: int): (r: set<Itinerary>)
    ensures forall t :: t in r ==> t.Direct?
  {
    set t | t in kb.tripFare && t.origin == start && t.destination == end && start != end
      :: Direct(t.route, t.price)
  }

  /** The one-transfer answers: a leg from start to some via stop and a leg from there to end,
      on two different routes, priced at the sum of the two fares. */
  function Transfer1Routes(kb: KnowledgeBase, start: int, end: int): (r: set<Itinerary>)
    ensures forall t :: t in r ==> t.OneTransfer? && t.route1 != t.route2
  {
    set a, b | a in kb.tripFare && b in kb.tripFare
               && a.origin == start && b.origin == a.destination && b.destination == end
               && a.route != b.route
      :: OneTransfer(a.route, a.destination, b.route, a.price + b.price)
  }

  /** The two-transfer answers: three chained legs start -> via1 -> via2 -> end on three
      pairwise different routes, priced at the sum of the three fares. */
  function Transfer2Routes(kb: KnowledgeBase, start: int, end: int): (r: set<Itinerary>)
    ensures forall t :: t in r ==>
              t.TwoTransfer? && t.route1 != t.route2 && t.route1 != t.route3 && t.route2 != t.route3
  {
    set a, b, c | a in kb.tripFare && b in kb.tripFare && c in kb.tripFare
                  && a.origin == start && b.origin == a.destination
                  && c.origin == b.destination && c.destination == end
                  && a.route != b.route && a.route != c.route && b.route != c.route
      :: TwoTransfer(a.route, a.destination, b.route, b.destination, c.route, a.price + b.price + c.price)
  }

  /** The direct answers whose route is not recorded as stopping at the avoided stop. */
  function AvoidStopRoutes(kb: KnowledgeBase, start: int, end: int, avoid: int): (r: set<Itinerary>)
    ensures r <= DirectRoutes(kb, start, end)
  {
    set d | d in DirectRoutes(kb, start, end) && (d.route, avoid) !in kb.routeHasStop
  }

  // ---------------------------------------------------------------------------
  // The relations in terms of the two mappings the knowledge base is built from
  // ---------------------------------------------------------------------------

  /** DirectRoute(X, Y) holds exactly the pairs (R, P) with fares[(R, X, Y)] == P, and only when X != Y. */
  lemma DirectRoutesExactly(routeToStops: map<int, seq<int>>, fares: map<FareKey, real>,
                            start: int, end: int, t: Itinerary)
    ensures t in DirectRoutes(KnowledgeBaseOf(routeToStops, fares), start, end) <==>
              && t.Direct?
              && start != end
              && (t.route, start, end) in fares
              && fares[(t.route, start, end)] == t.price
  {
    var kb := KnowledgeBaseOf(routeToStops, fares);
    if t.Direct? && start != end && (t.route, start, end) in fares && fares[(t.route, start, end)] == t.price {
      var leg := TripFare(t.route, start, end, t.price);
      FareFactsExactly(fares, leg);
      assert leg in kb.tripFare;
    }
    if t in DirectRoutes(kb, start, end) {
      var leg :| leg in kb.tripFare && leg.origin == start && leg.destination == end && start != end
                 && t == Direct(leg.route, leg.price);
      FareFactsExactly(fares, leg);
    }
  }

  /** A trip from a stop to itself is never a direct route, nor a stop-avoiding one. */
  lemma NoDirectSelfLoop(kb: KnowledgeBase, stop: int, avoid: int)
    ensures DirectRoutes(kb, stop, stop) == {}
    ensures AvoidStopRoutes(kb, stop, stop, avoid) == {}
  {
    assert forall t :: t !in DirectRoutes(kb, stop, stop);
  }

  /** Transfer1Route(X, Y) holds exactly the tuples (R1, Z, R2, P) for two fare legs
      R1: X -> Z and R2: Z -> Y on distinct routes, with P their summed price.
      Nothing requires Z != X, Z != Y or X != Y. */
  lemma Transfer1RoutesExactly(routeToStops: map<int, seq<int>>, fares: map<FareKey, real>,
                               start: int, end: int, t: Itinerary)
    ensures t in Transfer1Routes(KnowledgeBaseOf(routeToStops, fares), start, end) <==>
              && t.OneTransfer?
              && (t.route1, start, t.via) in fares
              && (t.route2, t.via, end) in fares
              && t.route1 != t.route2
              && t.price == fares[(t.route1, start, t.via)] + fares[(t.route2, t.via, end)]
  {
    var kb := KnowledgeBaseOf(routeToStops, fares);
    if && t.OneTransfer?
       && (t.route1, start, t.via) in fares
       && (t.route2, t.via, end) in fares
       && t.route1 != t.route2
       && t.price == fares[(t.route1, start, t.via)] + fares[(t.route2, t.via, end)]
    {
      var a := TripFare(t.route1, start, t.via, fares[(t.route1, start, t.via)]);
      var b := TripFare(t.route2, t.via, end, fares[(t.route2, t.via, end)]);
      FareFactsExactly(fares, a);
      FareFactsExactly(fares, b);
      assert a in kb.tripFare && b in kb.tripFare;
    }
    if t in Transfer1Routes(kb, start, end) {
      var a, b :| a in kb.tripFare && b in kb.tripFare
                  && a.origin == start && b.origin == a.destination && b.destination == end
                  && a.route != b.route
                  && t == OneTransfer(a.route, a.destination, b.route, a.price + b.price);
      FareFactsExactly(fares, a);
      FareFactsExactly(fares, b);
    }
  }

  /** The three chained legs X -> Z1 -> Z2 -> Y of a two-transfer tuple, as the fares map has them. */
  predicate IsTwoTransferOf(fares: map<FareKey, real>, start: int, end: int, t: Itinerary)
  {
    && t.TwoTransfer?
    && (t.route1, start, t.via1) in fares
    && (t.route2, t.via1, t.via2) in fares
    && (t.route3, t.via2, end) in fares
    && t.route1 != t.route2 && t.route1 != t.route3 && t.route2 != t.route3
    && t.price == fares[(t.route1, start, t.via1)] + fares[(t.route2, t.via1, t.via2)]
                  + fares[(t.route3, t.via2, end)]
  }

  /** Every Transfer2Route(X, Y) tuple (R1, Z1, R2, Z2, R3, P) comes from three chained fare legs
      X -> Z1 -> Z2 -> Y on pairwise distinct routes, with P their summed price. */
  lemma Transfer2RoutesSound(routeToStops: map<int, seq<int>>, fares: map<FareKey, real>,
                             start: int, end: int, t: Itinerary)
    requires t in Transfer2Routes(KnowledgeBaseOf(routeToStops, fares), start, end)
    ensures IsTwoTransferOf(fares, start, end, t)
  {
    var kb := KnowledgeBaseOf(routeToStops, fares);
    var a, b, c :| a in kb.tripFare && b in kb.tripFare && c in kb.tripFare
                   && a.origin == start && b.origin == a.destination
                   && c.origin == b.destination && c.destination == end
                   && a.route != b.route && a.route != c.route && b.route != c.route
                   && t == TwoTransfer(a.route, a.destination, b.route, b.destination, c.route,
                                       a.price + b.price + c.price);
    FareFactsExactly(fares, a);
    FareFactsExactly(fares, b);
    FareFactsExactly(fares, c);
  }

  /** Conversely, every such chain of three legs appears as a Transfer2Route(X, Y) tuple. */
  lemma Transfer2RoutesComplete(routeToStops: map<int, seq<int>>, fares: map<FareKey, real>,
                                start: int, end: int, t: Itinerary)
    requires IsTwoTransferOf(fares, start, end, t)
    ensures t in Transfer2Routes(KnowledgeBaseOf(routeToStops, fares), start, end)
  {
    var kb := KnowledgeBaseOf(routeToStops, fares);
    var a := TripFare(t.route1, start, t.via1, fares[(t.route1, start, t.via1)]);
    var b := TripFare(t.route2, t.via1, t.via2, fares[(t.route2, t.via1, t.via2)]);
    var c := TripFare(t.route3, t.via2, end, fares[(t.route3, t.via2, end)]);
    FareFactsExactly(fares, a);
    FareFactsExactly(fares, b);
    FareFactsExactly(fares, c);
    assert a in kb.tripFare && b in kb.tripFare && c in kb.tripFare;
  }

  /** AvoidStopRoute(X, Y, S) is the part of DirectRoute(X, Y) whose route does not list S;
      a route with no stop list has no RouteHasStop facts and so is never excluded. */
  lemma AvoidStopRoutesExactly(routeToStops: map<int, seq<int>>, fares: map<FareKey, real>,
                               start: int, end: int, avoid: int, t: Itinerary)
    ensures t in AvoidStopRoutes(KnowledgeBaseOf(routeToStops, fares), start, end, avoid) <==>
              && t in DirectRoutes(KnowledgeBaseOf(routeToStops, fares), start, end)
              && (t.route in routeToStops ==> avoid !in routeToStops[t.route])
  {
    if t.Direct? {
      StopFactsExactly(routeToStops, t.route, avoid);
    }
  }

  /** Example: a one-transfer chain may start and end at the same stop, since no guard forbids it. */
  lemma OneTransferRoundTrip()
    ensures OneTransfer(1, 20, 2, 5.0)
              in Transfer1Routes(KnowledgeBaseOf(map[], map[(1, 10, 20) := 2.0, (2, 20, 10) := 3.0]), 10, 10)
  {
    Transfer1RoutesExactly(map[], map[(1, 10, 20) := 2.0, (2, 20, 10) := 3.0], 10, 10, OneTransfer(1, 20, 2, 5.0));
  }
}
