/** The knowledge base the rules run over: the RouteHasStop and TripFare facts,
    held as an explicit value rather than a global fact store. */
module Facts {
  import opened Mappings
  import opened Choice

  /** A TripFare(route, origin, destination, price) fact. */
  datatype FareFact = TripFare(route: int, origin: int, destination: int, price: real)

  /** RouteHasStop facts as (route, stop) pairs, and TripFare facts. */
  datatype KnowledgeBase = KnowledgeBase(routeHasStop: set<(int, int)>, tripFare: set<FareFact>)

  /** One RouteHasStop fact per stop listed for a route. */
  function StopFacts(routeToStops: map<int, seq<int>>): set<(int, int)>
  {
    set route, stop | route in routeToStops && stop in routeToStops[route] :: (route, stop)
  }

  /** One TripFare fact per entry of the fares map. */
  function FareFacts(fares: map<FareKey, real>): set<FareFact>
  {
    set key | key in fares :: TripFare(key.0, key.1, key.2, fares[key])
  }

  function KnowledgeBaseOf(routeToStops: map<int, seq<int>>, fares: map<FareKey, real>): KnowledgeBase
  {
    KnowledgeBase(StopFacts(routeToStops), FareFacts(fares))
  }

  /** RouteHasStop(r, s) holds exactly when r has a stop list and s is on it. */
  lemma StopFactsExactly(routeToStops: map<int, seq<int>>, route: int, stop: int)
    ensures (route, stop) in StopFacts(routeToStops) <==> route in routeToStops && stop in routeToStops[route]
  {
  }

  /** TripFare(r, o, d, p) holds exactly when the fares map stores p under (r, o, d);
      so there is at most one price per (route, origin, destination). */
  lemma FareFactsExactly(fares: map<FareKey, real>, fact: FareFact)
    ensures fact in FareFacts(fares) <==>
              (fact.route, fact.origin, fact.destination) in fares
              && fares[(fact.route, fact.origin, fact.destination)] == fact.price
  {
    if (fact.route, fact.origin, fact.destination) in fares
       && fares[(fact.route, fact.origin, fact.destination)] == fact.price {
      var key := (fact.route, fact.origin, fact.destination);
      assert fact == TripFare(key.0, key.1, key.2, fares[key]);
    }
  }

  /** Asserts RouteHasStop(route, stop) for every stop on one route's list. */
  method AssertRouteStops(facts: set<(int, int)>, route: int, stops: seq<int>) returns (facts': set<(int, int)>)
    ensures forall p :: p in facts' <==> p in facts || (p.0 == route && p.1 in stops)
  {
    facts' := facts;
    for j := 0 to |stops|
      invariant forall p :: p in facts' <==> p in facts || (p.0 == route && p.1 in stops[..j])
    {
      assert stops[..j + 1] == stops[..j] + [stops[j]];
      facts' := facts' + {(route, stops[j])};
    }
    assert stops[..|stops|] == stops;
  }

  /** Asserts one RouteHasStop fact per stop listed for each route. */
  method AssertStopFacts(routeToStops: map<int, seq<int>>) returns (facts: set<(int, int)>)
    ensures facts == StopFacts(routeToStops)
  {
    facts := {};
    var pending := routeToStops.Keys;
    ghost var done: set<int> := {};
    while pending != {}
      invariant pending !! done && pending + done == routeToStops.Keys
      invariant forall p :: p in facts <==> p.0 in done && p.1 in routeToStops[p.0]
      decreases pending
    {
      var r := Pick(pending);
      facts := AssertRouteStops(facts, r, routeToStops[r]);
      pending, done := pending - {r}, done + {r};
    }
    forall p ensures p in facts <==> p in StopFacts(routeToStops) {
      StopFactsExactly(routeToStops, p.0, p.1);
    }
  }

  /** Asserts one TripFare fact per entry of the fares map. */
  method AssertFareFacts(fares: map<FareKey, real>) returns (facts: set<FareFact>)
    ensures facts == FareFacts(fares)
  {
    facts := {};
    var pending := fares.Keys;
    while pending != {}
      invariant pending <= fares.Keys
      invariant forall t :: t in facts <==>
                  var key := (t.route, t.origin, t.destination);
                  key in fares && key !in pending && fares[key] == t.price
      decreases pending
    {
      var key := Pick(pending);
      facts := facts + {TripFare(key.0, key.1, key.2, fares[key])};
      pending := pending - {key};
    }
    forall t ensures t in facts <==> t in FareFacts(fares) {
      FareFactsExactly(fares, t);
    }
  }

  /** Sets up the knowledge base from the two mappings. */
  method SetupFacts(routeToStops: map<int, seq<int>>, fares: map<FareKey, real>) returns (kb: KnowledgeBase)
    ensures kb == KnowledgeBaseOf(routeToStops, fares)
  {
    var stopFacts := AssertStopFacts(routeToStops);
    var fareFacts := AssertFareFacts(fares);
    kb := KnowledgeBase(stopFacts, fareFacts);
  }
}
