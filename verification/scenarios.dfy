/**
 The worked inputs of the Java test suite, stated as facts about the model.
 For each input and each flavour, whatever path the search may return (any
 path meeting its contract, `Answers`), the reported record is fixed, and it
 is the one the test expects.
 */
module Scenarios {
  import opened Results
  import opened Times
  import opened Routes
  import opened Search
  import opened Aggregate

  // ---------------------------------------------------------------------------
  // Clock literals
  // ---------------------------------------------------------------------------

  /** A five-character "HH:MM" string naming a minute of the day. */
  predicate IsClock(s: string) {
    && |s| == 5 && s[2] == ':'
    && IsDigit(s[0]) && IsDigit(s[1]) && IsDigit(s[3]) && IsDigit(s[4])
    && DigitValue(s[0]) * 10 + DigitValue(s[1]) <= 23 && DigitValue(s[3]) <= 5
  }

  /** The minute of the day an "HH:MM" string names. */
  function ClockMinutes(s: string): int
    requires IsClock(s)
  {
    (DigitValue(s[0]) * 10 + DigitValue(s[1])) * 60 + DigitValue(s[3]) * 10 + DigitValue(s[4])
  }

  lemma TwoDigits(a: char, b: char)
    requires IsDigit(a) && IsDigit(b)
    ensures AllDigits([a, b]) && DigitsValue([a, b]) == DigitValue(a) * 10 + DigitValue(b)
  {
    DigitsValueAppend([], a);
    DigitsValueAppend([a], b);
    assert [] + [a] == [a] && [a] + [b] == [a, b];
  }

  /** Both parsers read an "HH:MM" string as the minute it names. */
  lemma ClockTime(f: Flavor, s: string, m: int)
    requires IsClock(s) && ClockMinutes(s) == m
    ensures ParseTime(f, s) == Ok(m)
  {
    assert !IsDigit(':');
    assert IndexOf(s[2..], ':') == Some(0);
    assert IndexOf(s[1..], ':') == Some(1) by {
      assert s[1..][1..] == s[2..];
    }
    assert IndexOf(s, ':') == Some(2);
    assert s[..2] == [s[0], s[1]] && s[3..] == [s[3], s[4]];
    TwoDigits(s[0], s[1]);
    TwoDigits(s[3], s[4]);
    assert PyTimeToMinutes(s) == Ok(ClockMinutes(s));
    PyTimeAgreesWithJava(s);
  }

  /** A segment with clock times builds to the route carrying those minutes. */
  lemma ClockRoute(f: Flavor, s: Segment, r: Route)
    requires SegmentOf(r) == s
    requires IsClock(s.departureTime) && ClockMinutes(s.departureTime) == r.departure
    requires IsClock(s.arrivalTime) && ClockMinutes(s.arrivalTime) == r.arrival
    requires r.duration == SegmentDuration(f, r.departure, r.arrival)
    ensures MakeRoute(f, s) == Ok(r)
  {
    ClockTime(f, s.departureTime, r.departure);
    ClockTime(f, s.arrivalTime, r.arrival);
  }

  /** Segments that each build to the matching route build to the routes. */
  lemma BuildsTo(f: Flavor, segments: seq<Segment>, routes: seq<Route>)
    requires |segments| == |routes|
    requires forall i :: 0 <= i < |segments| ==> MakeRoute(f, segments[i]) == Ok(routes[i])
    ensures BuildRoutes(f, segments) == Ok(routes)
  {
    assert BuildRoutes(f, segments).value == routes;
  }

  /** Segments that build to `routes` give a graph whose edges are exactly
      those routes. */
  lemma BuiltAs(f: Flavor, segments: seq<Segment>, routes: seq<Route>)
    requires BuildRoutes(f, segments) == Ok(routes)
    ensures Adjacency(f, segments).Ok?
    ensures forall r :: IsEdge(Adjacency(f, segments).value, r) <==> r in routes
  {
    AdjacencyEdges(f, segments);
  }

  // ---------------------------------------------------------------------------
  // The routes of the test inputs
  // ---------------------------------------------------------------------------

  const FlightAC := Route("A", "C", "Flight", "09:00", "11:00", 500, 540, 660, 120)
  const SlowBusAB := Route("A", "B", "Bus", "08:00", "12:00", 150, 480, 720, 240)
  const SlowBusBC := Route("B", "C", "Bus", "13:00", "17:00", 150, 780, 1020, 240)
  const BusAB := Route("A", "B", "Bus", "08:00", "10:00", 150, 480, 600, 120)
  const BusBC := Route("B", "C", "Bus", "10:30", "12:30", 150, 630, 750, 120)
  const CheapBusAB := Route("A", "B", "Bus", "08:00", "10:00", 100, 480, 600, 120)
  const TrainAB := Route("A", "B", "Train", "09:00", "11:00", 200, 540, 660, 120)
  const FlightAB := Route("A", "B", "Flight", "09:00", "11:00", 500, 540, 660, 120)

  /** The segment a route was read from. */
  function SegmentOf(r: Route): Segment {
    Segment(r.source, r.destination, r.mode, r.departureTime, r.arrivalTime, r.cost)
  }

  /** Each test route is what its segment builds to. */
  lemma FlightACBuilds(f: Flavor)
    ensures MakeRoute(f, SegmentOf(FlightAC)) == Ok(FlightAC)
  {
    ClockRoute(f, SegmentOf(FlightAC), FlightAC);
  }

  lemma SlowBusABBuilds(f: Flavor)
    ensures MakeRoute(f, SegmentOf(SlowBusAB)) == Ok(SlowBusAB)
  {
    ClockRoute(f, SegmentOf(SlowBusAB), SlowBusAB);
  }

  lemma SlowBusBCBuilds(f: Flavor)
    ensures MakeRoute(f, SegmentOf(SlowBusBC)) == Ok(SlowBusBC)
  {
    ClockRoute(f, SegmentOf(SlowBusBC), SlowBusBC);
  }

  lemma BusABBuilds(f: Flavor)
    ensures MakeRoute(f, SegmentOf(BusAB)) == Ok(BusAB)
  {
    ClockRoute(f, SegmentOf(BusAB), BusAB);
  }

  lemma BusBCBuilds(f: Flavor)
    ensures MakeRoute(f, SegmentOf(BusBC)) == Ok(BusBC)
  {
    ClockRoute(f, SegmentOf(BusBC), BusBC);
  }

  lemma CheapBusABBuilds(f: Flavor)
    ensures MakeRoute(f, SegmentOf(CheapBusAB)) == Ok(CheapBusAB)
  {
    ClockRoute(f, SegmentOf(CheapBusAB), CheapBusAB);
  }

  lemma TrainABBuilds(f: Flavor)
    ensures MakeRoute(f, SegmentOf(TrainAB)) == Ok(TrainAB)
  {
    ClockRoute(f, SegmentOf(TrainAB), TrainAB);
  }

  lemma FlightABBuilds(f: Flavor)
    ensures MakeRoute(f, SegmentOf(FlightAB)) == Ok(FlightAB)
  {
    ClockRoute(f, SegmentOf(FlightAB), FlightAB);
  }

  /** Segment lists of one, two and three routes that each build, build. */
  lemma OneBuild(f: Flavor, a: Route)
    requires MakeRoute(f, SegmentOf(a)) == Ok(a)
    ensures BuildRoutes(f, [SegmentOf(a)]) == Ok([a])
  {
    BuildsTo(f, [SegmentOf(a)], [a]);
  }

  lemma TwoBuild(f: Flavor, a: Route, b: Route)
    requires MakeRoute(f, SegmentOf(a)) == Ok(a) && MakeRoute(f, SegmentOf(b)) == Ok(b)
    ensures BuildRoutes(f, [SegmentOf(a), SegmentOf(b)]) == Ok([a, b])
  {
    var segments, routes := [SegmentOf(a), SegmentOf(b)], [a, b];
    forall i | 0 <= i < 2 ensures MakeRoute(f, segments[i]) == Ok(routes[i]) {
      if i == 0 {} else {}
    }
    BuildsTo(f, segments, routes);
  }

  lemma ThreeBuild(f: Flavor, a: Route, b: Route, c: Route)
    requires MakeRoute(f, SegmentOf(a)) == Ok(a) && MakeRoute(f, SegmentOf(b)) == Ok(b)
    requires MakeRoute(f, SegmentOf(c)) == Ok(c)
    ensures BuildRoutes(f, [SegmentOf(a), SegmentOf(b), SegmentOf(c)]) == Ok([a, b, c])
  {
    var segments, routes := [SegmentOf(a), SegmentOf(b), SegmentOf(c)], [a, b, c];
    forall i | 0 <= i < 3 ensures MakeRoute(f, segments[i]) == Ok(routes[i]) {
      if i == 0 {} else if i == 1 {} else {}
    }
    BuildsTo(f, segments, routes);
  }

  // ---------------------------------------------------------------------------
  // Walks of the test graphs
  // ---------------------------------------------------------------------------

  /** Two consecutive routes of a walk are edges, the second leaving where the
      first arrives. */
  lemma Step(g: Graph, p: seq<Route>, s: City, t: City, i: int)
    requires IsWalk(g, p, s, t) && 0 <= i < |p| - 1
    ensures IsEdge(g, p[i]) && IsEdge(g, p[i + 1]) && p[i].destination == p[i + 1].source
  {
  }

  /** In a graph whose only edges are `ac` (A to C), `ab` (A to B) and `bc`
      (B to C), the walks from A to C are the direct route and the two-hop
      connection. */
  lemma TriangleWalks(g: Graph, ac: Route, ab: Route, bc: Route, p: seq<Route>)
    requires ac.source == "A" && ac.destination == "C"
    requires ab.source == "A" && ab.destination == "B"
    requires bc.source == "B" && bc.destination == "C"
    requires forall r :: IsEdge(g, r) ==> r in [ac, ab, bc]
    requires IsWalk(g, p, "A", "C")
    ensures p == [ac] || p == [ab, bc]
  {
    assert "A" != "C";
    var n := |p|;
    assert IsEdge(g, p[0]) && IsEdge(g, p[n - 1]);
    if n >= 2 {
      Step(g, p, "A", "C", n - 2);
      if n >= 3 {
        Step(g, p, "A", "C", n - 3);
        assert false;
      }
    }
  }

  /** In a graph whose every edge goes from A to B, the walks from A to B are
      single routes. */
  lemma OneHopWalks(g: Graph, p: seq<Route>)
    requires forall r :: IsEdge(g, r) ==> r.source == "A" && r.destination == "B"
    requires IsWalk(g, p, "A", "B")
    ensures |p| == 1 && IsEdge(g, p[0])
  {
    assert "A" != "B";
    assert IsEdge(g, p[0]);
    if |p| >= 2 {
      Step(g, p, "A", "B", 0);
      assert false;
    }
  }

  lemma TwoRouteWeight(w: Route -> int, a: Route, b: Route)
    ensures PathWeight(w, [a, b]) == w(a) + w(b)
  {
    PathWeightAppend(w, [], a);
    PathWeightAppend(w, [a], b);
    assert [] + [a] == [a] && [a] + [b] == [a, b];
  }

  /** Two routes leaving the same city are both listed under it, in order. */
  lemma SameOriginOutgoing(a: Route, b: Route)
    requires a.source == b.source
    ensures a.source in Sources([a, b])
    ensures Outgoing([a, b], a.source) == [a, b]
  {
    assert [a, b][0].source == a.source;
    assert [a, b][..1] == [a] && [a][..0] == [];
    assert Outgoing([a], a.source) == [a];
  }

  /** Two routes to the same city form one group, in order. */
  lemma SameDestinationGroups(a: Route, b: Route)
    requires a.destination == b.destination
    ensures GroupByNeighbour([a, b]) == [a, b]
  {
    var d := a.destination;
    assert [a, b][..1] == [a] && [a][..0] == [];
    assert FirstSeen([a]) == [d];
    assert FirstSeen([a, b]) == [d];
    assert Arriving([a], d) == [a];
    assert Arriving([a, b], d) == [a, b];
    assert Groups([a, b], [d]) == Arriving([a, b], d) + Groups([a, b], []);
  }

  /** Two routes on the same leg are listed under their origin in input
      order by both flavours: Java appends in input order, and Python keeps
      them in the single bucket of their common destination. */
  lemma SameLegGraph(f: Flavor, segments: seq<Segment>, a: Route, b: Route)
    requires BuildRoutes(f, segments) == Ok([a, b])
    requires a.source == b.source && a.destination == b.destination
    ensures Adjacency(f, segments).Ok?
    ensures a.source in Adjacency(f, segments).value
    ensures Adjacency(f, segments).value[a.source] == [a, b]
  {
    SameOriginOutgoing(a, b);
    if f == Python {
      PyAdjacencyOrder([a, b], a.source);
      SameDestinationGroups(a, b);
    }
  }

  // ---------------------------------------------------------------------------
  // Answers in the test graphs
  // ---------------------------------------------------------------------------

  /** The weights of the three named criteria, whatever the flavour. */
  lemma NamedWeights(f: Flavor, r: Route)
    ensures Weight(f, "Time", r) == r.duration
    ensures Weight(f, "Cost", r) == r.cost
    ensures Weight(f, "Hops", r) == 1
  {
    assert "Cost"[0] != "Time"[0];
    assert "Hops"[0] != "Time"[0] && "Hops"[0] != "Cost"[0];
  }

  /** In the triangle, a direct route lighter than the connection is the
      answer. */
  lemma DirectAnswer(f: Flavor, g: Graph, req: Request, ac: Route, ab: Route, bc: Route, path: seq<Route>)
    requires req.source == "A" && req.destination == "C"
    requires ac.source == "A" && ac.destination == "C"
    requires ab.source == "A" && ab.destination == "B"
    requires bc.source == "B" && bc.destination == "C"
    requires forall r :: IsEdge(g, r) ==> r in [ac, ab, bc]
    requires IsEdge(g, ac)
    requires Weight(f, req.criteria, ac) < Weight(f, req.criteria, ab) + Weight(f, req.criteria, bc)
    requires Answers(f, g, req, path)
    ensures path == [ac]
  {
    var w := SearchWeight(f, req.criteria);
    assert IsWalk(g, [ac], "A", "C");
    TriangleWalks(g, ac, ab, bc, path);
    TwoRouteWeight(w, ab, bc);
    PathWeightAppend(w, [], ac);
    assert [] + [ac] == [ac];
    assert PathWeight(w, path) <= PathWeight(w, [ac]);
  }

  /** In the triangle, a connection whose two routes are both listed, and
      lighter than the direct route if that one is listed, is the answer. */
  lemma ConnectionAnswer(f: Flavor, g: Graph, req: Request, ac: Route, ab: Route, bc: Route, path: seq<Route>)
    requires req.source == "A" && req.destination == "C"
    requires ac.source == "A" && ac.destination == "C"
    requires ab.source == "A" && ab.destination == "B"
    requires bc.source == "B" && bc.destination == "C"
    requires forall r :: IsEdge(g, r) ==> r in [ac, ab, bc]
    requires IsEdge(g, ab) && IsEdge(g, bc)
    requires IsEdge(g, ac) ==> Weight(f, req.criteria, ab) + Weight(f, req.criteria, bc) < Weight(f, req.criteria, ac)
    requires Answers(f, g, req, path)
    ensures path == [ab, bc]
  {
    var w := SearchWeight(f, req.criteria);
    assert IsWalk(g, [ab, bc], "A", "C");
    TriangleWalks(g, ac, ab, bc, path);
    TwoRouteWeight(w, ab, bc);
    PathWeightAppend(w, [], ac);
    assert [] + [ac] == [ac];
    assert PathWeight(w, path) <= PathWeight(w, [ab, bc]);
    assert path == [ac] ==> IsEdge(g, ac);
  }

  /** Where every route goes from A to B and `a` is listed first, an answer
      to a request from A to B that is no heavier than `a` under the search
      weight is `a` itself: a later route of equal weight never replaces it. */
  lemma FirstListedAnswer(f: Flavor, g: Graph, req: Request, a: Route, b: Route, path: seq<Route>)
    requires req.source == "A" && req.destination == "B"
    requires a.source == "A" && a.destination == "B" && b.source == "A" && b.destination == "B"
    requires forall r :: IsEdge(g, r) ==> r in [a, b]
    requires "A" in g && g["A"] == [a, b]
    requires Weight(f, req.criteria, a) <= Weight(f, req.criteria, b)
    requires Answers(f, g, req, path)
    ensures path == [a]
  {
    var w := SearchWeight(f, req.criteria);
    assert IsWalk(g, [a], "A", "B") by { assert g["A"][0] == a; }
    assert forall r :: IsEdge(g, r) ==> r.source == "A" && r.destination == "B";
    OneHopWalks(g, path);
    var r := path[0];
    assert FirstBestEdge(g, w, r);
    var j :| 0 <= j < |g["A"]| && g["A"][j] == r &&
             forall i :: 0 <= i < j && g["A"][i].destination == r.destination ==> w(g["A"][i]) > w(r);
    if j == 1 {
      assert false;
    }
  }

  /** Where every route goes from A to B and only `a` is listed, `a` is the
      answer from A to B. */
  lemma OnlyAnswer(f: Flavor, g: Graph, req: Request, a: Route, path: seq<Route>)
    requires req.source == "A" && req.destination == "B"
    requires forall r :: IsEdge(g, r) <==> r in [a]
    requires a.source == "A" && a.destination == "B"
    requires Answers(f, g, req, path)
    ensures path == [a]
  {
    assert IsWalk(g, [a], "A", "B");
    OneHopWalks(g, path);
  }

  /** Where the only routes are a connection from A through B to C, the
      connection is the answer from A to C. */
  lemma ChainAnswer(f: Flavor, g: Graph, req: Request, ab: Route, bc: Route, path: seq<Route>)
    requires req.source == "A" && req.destination == "C"
    requires ab.source == "A" && ab.destination == "B"
    requires bc.source == "B" && bc.destination == "C"
    requires forall r :: IsEdge(g, r) <==> r in [ab, bc]
    requires Answers(f, g, req, path)
    ensures path == [ab, bc]
  {
    var ac := Route("A", "C", "", "", "", 0, 0, 0, 0);
    assert !IsEdge(g, ac) by { assert "C"[0] != "B"[0] && "A"[0] != "B"[0]; }
    ConnectionAnswer(f, g, req, ac, ab, bc, path);
  }

  /** Where the only route does not arrive at the destination, nothing but
      the empty path answers a request from elsewhere. */
  lemma NoWalkAnswer(f: Flavor, g: Graph, req: Request, a: Route, path: seq<Route>)
    requires req.source != req.destination && a.destination != req.destination
    requires forall r :: IsEdge(g, r) ==> r in [a]
    requires Answers(f, g, req, path)
    ensures path == []
  {
  }

  /** The record for a one-route answer, summaries not requested or no key. */
  lemma OneRouteRecord(f: Flavor, a: Route, apiKey: Option<string>, service: SummaryService)
    ensures Respond(f, "Time", [a], false, apiKey, service) == RequestResult([Echo(a)], "Time", a.duration, NotGenerated)
    ensures Respond(f, "Hops", [a], false, apiKey, service) == RequestResult([Echo(a)], "Hops", 1, NotGenerated)
    ensures Respond(f, "Time", [a], true, None, service) == RequestResult([Echo(a)], "Time", a.duration, NotGenerated)
  {
    assert "Hops"[0] != "Time"[0] && "Hops"[0] != "Cost"[0];
    assert Schedule([a]) == [Echo(a)];
  }

  /** The record for a two-route answer, summaries not requested: Time adds
      the wait at the connection, Cost adds the two costs. */
  lemma TwoRouteRecord(f: Flavor, a: Route, b: Route, apiKey: Option<string>, service: SummaryService)
    ensures Respond(f, "Time", [a, b], false, apiKey, service)
            == RequestResult([Echo(a), Echo(b)], "Time", a.duration + WaitingTime(a.arrival, b.departure) + b.duration, NotGenerated)
    ensures Respond(f, "Cost", [a, b], false, apiKey, service)
            == RequestResult([Echo(a), Echo(b)], "Cost", a.cost + b.cost, NotGenerated)
  {
    assert "Cost"[0] != "Time"[0];
    assert [a, b][1..] == [b];
    assert Schedule([a, b]) == [Echo(a), Echo(b)];
    assert TotalTime([b]) == b.duration;
    assert TotalCost([a, b]) == a.cost + b.cost by {
      TotalCostIsCostWeight([a, b]);
      TwoRouteWeight(CostOf, a, b);
    }
  }

  // ---------------------------------------------------------------------------
  // The test graphs, built and searched
  // ---------------------------------------------------------------------------

  /** The request every test sends, under its own endpoints and criteria. */
  function TestRequest(source: City, destination: City, criteria: string): Request {
    Request("request_id1", source, destination, criteria)
  }

  /** Built from a direct route and a connection, a graph is searched to the
      direct route when that one is lighter under the criteria. */
  lemma DirectWins(f: Flavor, segments: seq<Segment>, ac: Route, ab: Route, bc: Route, criteria: string)
    requires BuildRoutes(f, segments) == Ok([ac, ab, bc])
    requires ac.source == "A" && ac.destination == "C"
    requires ab.source == "A" && ab.destination == "B"
    requires bc.source == "B" && bc.destination == "C"
    requires Weight(f, criteria, ac) < Weight(f, criteria, ab) + Weight(f, criteria, bc)
    ensures Adjacency(f, segments).Ok?
    ensures forall path :: Answers(f, Adjacency(f, segments).value, TestRequest("A", "C", criteria), path) ==>
              path == [ac]
  {
    BuiltAs(f, segments, [ac, ab, bc]);
    var g := Adjacency(f, segments).value;
    forall path: seq<Route> | Answers(f, g, TestRequest("A", "C", criteria), path) ensures path == [ac] {
      DirectAnswer(f, g, TestRequest("A", "C", criteria), ac, ab, bc, path);
    }
  }

  /** Built from a direct route and a connection, a graph is searched to the
      connection when that one is lighter under the criteria. */
  lemma ConnectionWins(f: Flavor, segments: seq<Segment>, ac: Route, ab: Route, bc: Route, criteria: string)
    requires BuildRoutes(f, segments) == Ok([ac, ab, bc])
    requires ac.source == "A" && ac.destination == "C"
    requires ab.source == "A" && ab.destination == "B"
    requires bc.source == "B" && bc.destination == "C"
    requires Weight(f, criteria, ab) + Weight(f, criteria, bc) < Weight(f, criteria, ac)
    ensures Adjacency(f, segments).Ok?
    ensures forall path :: Answers(f, Adjacency(f, segments).value, TestRequest("A", "C", criteria), path) ==>
              path == [ab, bc]
  {
    BuiltAs(f, segments, [ac, ab, bc]);
    var g := Adjacency(f, segments).value;
    forall path: seq<Route> | Answers(f, g, TestRequest("A", "C", criteria), path) ensures path == [ab, bc] {
      ConnectionAnswer(f, g, TestRequest("A", "C", criteria), ac, ab, bc, path);
    }
  }

  /** Built from a connection alone, a graph is searched to that connection. */
  lemma ConnectionOnly(f: Flavor, segments: seq<Segment>, ab: Route, bc: Route, criteria: string)
    requires BuildRoutes(f, segments) == Ok([ab, bc])
    requires ab.source == "A" && ab.destination == "B"
    requires bc.source == "B" && bc.destination == "C"
    ensures Adjacency(f, segments).Ok?
    ensures forall path :: Answers(f, Adjacency(f, segments).value, TestRequest("A", "C", criteria), path) ==>
              path == [ab, bc]
  {
    BuiltAs(f, segments, [ab, bc]);
    var g := Adjacency(f, segments).value;
    forall path: seq<Route> | Answers(f, g, TestRequest("A", "C", criteria), path) ensures path == [ab, bc] {
      ChainAnswer(f, g, TestRequest("A", "C", criteria), ab, bc, path);
    }
  }

  /** Built from two routes on one leg, a graph is searched to the first of
      them when it is no heavier than the second. */
  lemma FirstListedWins(f: Flavor, segments: seq<Segment>, a: Route, b: Route, criteria: string)
    requires BuildRoutes(f, segments) == Ok([a, b])
    requires a.source == "A" && a.destination == "B" && b.source == "A" && b.destination == "B"
    requires Weight(f, criteria, a) <= Weight(f, criteria, b)
    ensures Adjacency(f, segments).Ok?
    ensures forall path :: Answers(f, Adjacency(f, segments).value, TestRequest("A", "B", criteria), path) ==>
              path == [a]
  {
    BuiltAs(f, segments, [a, b]);
    SameLegGraph(f, segments, a, b);
    var g := Adjacency(f, segments).value;
    forall path: seq<Route> | Answers(f, g, TestRequest("A", "B", criteria), path) ensures path == [a] {
      FirstListedAnswer(f, g, TestRequest("A", "B", criteria), a, b, path);
    }
  }

  /** Built from one route, a graph is searched to it between its ends. */
  lemma OnlyWins(f: Flavor, segments: seq<Segment>, a: Route, criteria: string)
    requires BuildRoutes(f, segments) == Ok([a])
    requires a.source == "A" && a.destination == "B"
    ensures Adjacency(f, segments).Ok?
    ensures forall path :: Answers(f, Adjacency(f, segments).value, TestRequest("A", "B", criteria), path) ==>
              path == [a]
  {
    BuiltAs(f, segments, [a]);
    var g := Adjacency(f, segments).value;
    forall path: seq<Route> | Answers(f, g, TestRequest("A", "B", criteria), path) ensures path == [a] {
      OnlyAnswer(f, g, TestRequest("A", "B", criteria), a, path);
    }
  }

  /** Built from one route, a graph has no answer but the empty path for a
      city the route does not reach. */
  lemma NothingWins(f: Flavor, segments: seq<Segment>, a: Route, t: City, criteria: string)
    requires BuildRoutes(f, segments) == Ok([a])
    requires a.source != t && a.destination != t
    ensures Adjacency(f, segments).Ok?
    ensures forall path :: Answers(f, Adjacency(f, segments).value, TestRequest(a.source, t, criteria), path) ==>
              path == []
  {
    BuiltAs(f, segments, [a]);
    var g := Adjacency(f, segments).value;
    forall path: seq<Route> | Answers(f, g, TestRequest(a.source, t, criteria), path) ensures path == [] {
      NoWalkAnswer(f, g, TestRequest(a.source, t, criteria), a, path);
    }
  }

  // ---------------------------------------------------------------------------
  // The tests
  // ---------------------------------------------------------------------------

  /** The three-route input of the Time test: a direct flight and a slow
      two-bus connection. */
  const TimeInput := [SegmentOf(FlightAC), SegmentOf(SlowBusAB), SegmentOf(SlowBusBC)]

  /** The three-route input of the Cost and Hops tests: a dear direct flight
      and a cheap two-bus connection. */
  const TripInput := [SegmentOf(FlightAC), SegmentOf(BusAB), SegmentOf(BusBC)]

  /** Two routes from A to B of equal duration, the bus listed first. */
  const TieInput := [SegmentOf(CheapBusAB), SegmentOf(TrainAB)]

  /** One route from A to B; the request asks for Z. */
  const NoRouteInput := [SegmentOf(BusAB)]

  /** Two buses with a half-hour connection. */
  const MultiHopInput := [SegmentOf(BusAB), SegmentOf(BusBC)]

  /** One flight from A to B. */
  const SummaryInput := [SegmentOf(FlightAB)]

  /** Searching by Time, the direct flight wins and 120 minutes are reported. */
  lemma TimeTest(f: Flavor, apiKey: Option<string>, service: SummaryService)
    ensures Adjacency(f, TimeInput).Ok?
    ensures forall path :: Answers(f, Adjacency(f, TimeInput).value, TestRequest("A", "C", "Time"), path) ==>
              path == [FlightAC] &&
              Respond(f, "Time", path, false, apiKey, service) == RequestResult([Echo(FlightAC)], "Time", 120, NotGenerated)
  {
    FlightACBuilds(f);
    SlowBusABBuilds(f);
    SlowBusBCBuilds(f);
    NamedWeights(f, FlightAC);
    NamedWeights(f, SlowBusAB);
    NamedWeights(f, SlowBusBC);
    ThreeBuild(f, FlightAC, SlowBusAB, SlowBusBC);
    DirectWins(f, TimeInput, FlightAC, SlowBusAB, SlowBusBC, "Time");
    OneRouteRecord(f, FlightAC, apiKey, service);
  }

  /** Searching by Cost, the two buses win and 300 is reported. */
  lemma CostTest(f: Flavor, apiKey: Option<string>, service: SummaryService)
    ensures Adjacency(f, TripInput).Ok?
    ensures forall path :: Answers(f, Adjacency(f, TripInput).value, TestRequest("A", "C", "Cost"), path) ==>
              path == [BusAB, BusBC] &&
              Respond(f, "Cost", path, false, apiKey, service) == RequestResult([Echo(BusAB), Echo(BusBC)], "Cost", 300, NotGenerated)
  {
    FlightACBuilds(f);
    BusABBuilds(f);
    BusBCBuilds(f);
    NamedWeights(f, FlightAC);
    NamedWeights(f, BusAB);
    NamedWeights(f, BusBC);
    ThreeBuild(f, FlightAC, BusAB, BusBC);
    ConnectionWins(f, TripInput, FlightAC, BusAB, BusBC, "Cost");
    TwoRouteRecord(f, BusAB, BusBC, apiKey, service);
  }

  /** Searching by Hops, the direct flight wins and 1 is reported. */
  lemma HopsTest(f: Flavor, apiKey: Option<string>, service: SummaryService)
    ensures Adjacency(f, TripInput).Ok?
    ensures forall path :: Answers(f, Adjacency(f, TripInput).value, TestRequest("A", "C", "Hops"), path) ==>
              path == [FlightAC] &&
              Respond(f, "Hops", path, false, apiKey, service) == RequestResult([Echo(FlightAC)], "Hops", 1, NotGenerated)
  {
    FlightACBuilds(f);
    BusABBuilds(f);
    BusBCBuilds(f);
    NamedWeights(f, FlightAC);
    NamedWeights(f, BusAB);
    NamedWeights(f, BusBC);
    ThreeBuild(f, FlightAC, BusAB, BusBC);
    DirectWins(f, TripInput, FlightAC, BusAB, BusBC, "Hops");
    OneRouteRecord(f, FlightAC, apiKey, service);
  }

  /** Searching by Time between equally fast routes, the first listed (the
      bus) is kept: a later route replaces a known distance only when it is
      strictly shorter. */
  lemma TieTest(f: Flavor, apiKey: Option<string>, service: SummaryService)
    ensures Adjacency(f, TieInput).Ok?
    ensures forall path :: Answers(f, Adjacency(f, TieInput).value, TestRequest("A", "B", "Time"), path) ==>
              path == [CheapBusAB] &&
              Respond(f, "Time", path, false, apiKey, service) == RequestResult([Echo(CheapBusAB)], "Time", 120, NotGenerated)
  {
    CheapBusABBuilds(f);
    TrainABBuilds(f);
    NamedWeights(f, CheapBusAB);
    NamedWeights(f, TrainAB);
    TwoBuild(f, CheapBusAB, TrainAB);
    FirstListedWins(f, TieInput, CheapBusAB, TrainAB, "Time");
    OneRouteRecord(f, CheapBusAB, apiKey, service);
  }

  /** Nothing reaches the destination: an empty schedule and value 0. */
  lemma NoRouteTest(f: Flavor, apiKey: Option<string>, service: SummaryService)
    ensures Adjacency(f, NoRouteInput).Ok?
    ensures forall path :: Answers(f, Adjacency(f, NoRouteInput).value, TestRequest("A", "Z", "Time"), path) ==>
              path == [] &&
              Respond(f, "Time", path, false, apiKey, service) == RequestResult([], "Time", 0, NotGenerated)
  {
    BusABBuilds(f);
    OneBuild(f, BusAB);
    NothingWins(f, NoRouteInput, BusAB, "Z", "Time");
  }

  /** The only way is both buses: 120 + 30 waiting + 120 = 270 minutes. */
  lemma MultiHopTest(f: Flavor, apiKey: Option<string>, service: SummaryService)
    ensures Adjacency(f, MultiHopInput).Ok?
    ensures forall path :: Answers(f, Adjacency(f, MultiHopInput).value, TestRequest("A", "C", "Time"), path) ==>
              path == [BusAB, BusBC] &&
              Respond(f, "Time", path, false, apiKey, service) == RequestResult([Echo(BusAB), Echo(BusBC)], "Time", 270, NotGenerated)
  {
    BusABBuilds(f);
    BusBCBuilds(f);
    TwoBuild(f, BusAB, BusBC);
    ConnectionOnly(f, MultiHopInput, BusAB, BusBC, "Time");
    TwoRouteRecord(f, BusAB, BusBC, apiKey, service);
  }

  /** Summaries requested, but no API key set: "Not generated". */
  lemma SummaryTest(f: Flavor, service: SummaryService)
    ensures Adjacency(f, SummaryInput).Ok?
    ensures forall path :: Answers(f, Adjacency(f, SummaryInput).value, TestRequest("A", "B", "Time"), path) ==>
              path == [FlightAB] &&
              Respond(f, "Time", path, true, None, service) == RequestResult([Echo(FlightAB)], "Time", 120, NotGenerated)
  {
    FlightABBuilds(f);
    OneBuild(f, FlightAB);
    OnlyWins(f, SummaryInput, FlightAB, "Time");
    OneRouteRecord(f, FlightAB, None, service);
  }
}
