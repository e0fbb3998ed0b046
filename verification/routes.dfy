/**
 Scheduled segments and the route graph built from them.

 The Java versions key the graph by origin city and keep, per origin, the
 segments in input order. The Python version keys it by origin and then by
 destination (both dicts in insertion order), so its search visits a city's
 segments grouped by neighbour. Both graphs are exposed to the search as an
 adjacency map from city to an ordered sequence of routes.
 */
module Routes {
  import opened Results
  import opened Times

  /** An opaque city identifier, compared by exact string equality. */
  type City = string

  /** One scheduled segment as read from the input, times still as text. */
  datatype Segment = Segment(
    source: City,
    destination: City,
    mode: string,
    departureTime: string,
    arrivalTime: string,
    cost: int)

  /** A built segment: the input fields, the parsed departure and arrival
      minutes, and the derived duration. */
  datatype Route = Route(
    source: City,
    destination: City,
    mode: string,
    departureTime: string,
    arrivalTime: string,
    cost: int,
    departure: int,
    arrival: int,
    duration: int)

  /** Which implementation's rules apply where the versions diverge. */
  datatype Flavor = Java | Python

  /** The adjacency map the search walks: origin city to its outgoing routes,
      in the order the search visits them. */
  type Graph = map<City, seq<Route>>

  // ---------------------------------------------------------------------------
  // Building one route
  // ---------------------------------------------------------------------------

  /** The time parser of each flavour. */
  function ParseTime(f: Flavor, s: string): Result<int, TimeError> {
    match f
    case Java => JavaTimeToMinutes(s)
    case Python => PyTimeToMinutes(s)
  }

  /** The duration rule of each flavour. */
  function SegmentDuration(f: Flavor, departure: int, arrival: int): int {
    match f
    case Java => Duration(departure, arrival)
    case Python => PyDuration(departure, arrival)
  }

  /** Parses a segment's times and derives its duration. Java parses the
      departure first, Python the arrival first; the first failure is raised. */
  function MakeRoute(f: Flavor, s: Segment): (r: Result<Route, TimeError>)
    ensures r.Ok? <==> ParseTime(f, s.departureTime).Ok? && ParseTime(f, s.arrivalTime).Ok?
    ensures r.Ok? ==>
              var dep, arr := ParseTime(f, s.departureTime).value, ParseTime(f, s.arrivalTime).value;
              && r.value.source == s.source && r.value.destination == s.destination
              && r.value.mode == s.mode && r.value.cost == s.cost
              && r.value.departureTime == s.departureTime && r.value.arrivalTime == s.arrivalTime
              && r.value.departure == dep && r.value.arrival == arr
              && r.value.duration == SegmentDuration(f, dep, arr)
    ensures r.Err? ==> r.error == MalformedTime(s.departureTime) || r.error == MalformedTime(s.arrivalTime)
    ensures f == Java && ParseTime(f, s.departureTime).Err? ==> r == Err(ParseTime(f, s.departureTime).error)
    ensures f == Python && ParseTime(f, s.arrivalTime).Err? ==> r == Err(ParseTime(f, s.arrivalTime).error)
    ensures f == Java && ParseTime(f, s.departureTime).Ok? && ParseTime(f, s.arrivalTime).Err? ==>
              r == Err(ParseTime(f, s.arrivalTime).error)
    ensures f == Python && ParseTime(f, s.arrivalTime).Ok? && ParseTime(f, s.departureTime).Err? ==>
              r == Err(ParseTime(f, s.departureTime).error)
  {
    var (first, second) := if f == Java then (s.departureTime, s.arrivalTime) else (s.arrivalTime, s.departureTime);
    match (ParseTime(f, first), ParseTime(f, second))
    case (Err(e), _) => Err(e)
    case (_, Err(e)) => Err(e)
    case (Ok(a), Ok(b)) =>
      var (dep, arr) := if f == Java then (a, b) else (b, a);
      Ok(Route(s.source, s.destination, s.mode, s.departureTime, s.arrivalTime, s.cost,
               dep, arr, SegmentDuration(f, dep, arr)))
  }

  /** Durations of built routes: within [0, 1440) in Java for in-day times,
      within [1, 1440] in Python, whose parser only yields in-day times. */
  lemma RouteDurationBounds(f: Flavor, s: Segment)
    requires MakeRoute(f, s).Ok?
    ensures var r := MakeRoute(f, s).value;
            && (f == Python ==> 1 <= r.duration <= MinutesPerDay)
            && (f == Java && IsDayMinute(r.departure) && IsDayMinute(r.arrival) ==>
                  0 <= r.duration < MinutesPerDay && r.duration == (r.arrival - r.departure) % MinutesPerDay)
            && (f == Java && r.departureTime == r.arrivalTime ==> r.duration == 0)
            && (f == Python && r.departureTime == r.arrivalTime ==> r.duration == MinutesPerDay)
  {
  }

  /** Builds every route in input order; the first malformed time aborts. */
  function BuildRoutes(f: Flavor, segments: seq<Segment>): (r: Result<seq<Route>, TimeError>)
    ensures r.Ok? ==> |r.value| == |segments|
    ensures r.Ok? ==> forall i :: 0 <= i < |segments| ==> MakeRoute(f, segments[i]) == Ok(r.value[i])
    ensures r.Ok? <==> forall i :: 0 <= i < |segments| ==> MakeRoute(f, segments[i]).Ok?
    ensures r.Err? ==> exists i :: && 0 <= i < |segments| && MakeRoute(f, segments[i]) == Err(r.error)
                                   && forall k :: 0 <= k < i ==> MakeRoute(f, segments[k]).Ok?
  {
    var built := seq(|segments|, i requires 0 <= i < |segments| => MakeRoute(f, segments[i]));
    assert forall i :: 0 <= i < |segments| ==> built[i] == MakeRoute(f, segments[i]);
    AllOk(built)
  }

  // ---------------------------------------------------------------------------
  // Java graph: origin -> routes in input order
  // ---------------------------------------------------------------------------

  /** The routes leaving `c`, in input order. */
  function Outgoing(routes: seq<Route>, c: City): seq<Route> {
    if |routes| == 0 then []
    else Outgoing(routes[..|routes| - 1], c) + (if routes[|routes| - 1].source == c then [routes[|routes| - 1]] else [])
  }

  /** The origins of a route list. */
  function Sources(routes: seq<Route>): set<City> {
    set i | 0 <= i < |routes| :: routes[i].source
  }

  /** Every route is listed under its own origin. */
  predicate WellFormed(g: Graph) {
    forall c, i :: c in g && 0 <= i < |g[c]| ==> g[c][i].source == c
  }

  /** `buildGraph`'s loop: `graph.computeIfAbsent(source, ...).add(route)`. */
  function Index(routes: seq<Route>): (g: Graph)
    ensures g.Keys == Sources(routes)
    ensures forall c :: c in g ==> g[c] == Outgoing(routes, c)
  {
    if |routes| == 0 then map[]
    else
      var prefix, r := routes[..|routes| - 1], routes[|routes| - 1];
      var g := Index(prefix);
      SourcesSnoc(routes);
      OutgoingSources(prefix, r.source);
      g[r.source := (if r.source in g then g[r.source] else []) + [r]]
  }

  lemma SourcesSnoc(routes: seq<Route>)
    requires |routes| > 0
    ensures Sources(routes) == Sources(routes[..|routes| - 1]) + {routes[|routes| - 1].source}
  {
    var prefix := routes[..|routes| - 1];
    assert forall i :: 0 <= i < |prefix| ==> prefix[i] == routes[i];
  }

  /** The built graph lists every route under its own origin, and only
      origins with at least one route are keys. */
  lemma IndexWellFormed(routes: seq<Route>)
    ensures WellFormed(Index(routes))
    ensures forall c :: c in Index(routes) ==> |Index(routes)[c]| > 0
  {
    forall c | c in Index(routes) ensures |Index(routes)[c]| > 0 && forall i :: 0 <= i < |Index(routes)[c]| ==> Index(routes)[c][i].source == c {
      OutgoingSources(routes, c);
    }
  }

  lemma {:induction false} OutgoingSources(routes: seq<Route>, c: City)
    ensures c !in Sources(routes) <==> Outgoing(routes, c) == []
    ensures forall i :: 0 <= i < |Outgoing(routes, c)| ==> Outgoing(routes, c)[i].source == c
  {
    if |routes| > 0 {
      SourcesSnoc(routes);
      OutgoingSources(routes[..|routes| - 1], c);
    }
  }

  /** Each route appears under its origin exactly as often as in the input,
      and under no other key. */
  lemma {:induction false} OutgoingCount(routes: seq<Route>, c: City, r: Route)
    ensures multiset(Outgoing(routes, c))[r] == if r.source == c then multiset(routes)[r] else 0
  {
    if |routes| > 0 {
      var prefix, last := routes[..|routes| - 1], routes[|routes| - 1];
      assert routes == prefix + [last];
      OutgoingCount(prefix, c, r);
    }
  }

  /** `Main.buildGraph` and `TravelOptimizer.buildGraph`: parse every segment
      and index the routes by origin. */
  function BuildGraph(segments: seq<Segment>): (r: Result<Graph, TimeError>)
    ensures r.Ok? <==> forall i :: 0 <= i < |segments| ==> MakeRoute(Java, segments[i]).Ok?
    ensures r.Err? ==> exists i :: && 0 <= i < |segments| && MakeRoute(Java, segments[i]) == Err(r.error)
                                   && forall k :: 0 <= k < i ==> MakeRoute(Java, segments[k]).Ok?
    ensures r.Ok? ==> r.value.Keys == Origins(segments)
    ensures r.Ok? ==> forall c :: c in r.value ==> r.value[c] == Outgoing(BuildRoutes(Java, segments).value, c)
  {
    match BuildRoutes(Java, segments)
    case Err(e) => Err(e)
    case Ok(routes) =>
      SourcesOrigins(Java, segments);
      Ok(Index(routes))
  }

  /** The origins of a segment list. */
  function Origins(segments: seq<Segment>): set<City> {
    set i | 0 <= i < |segments| :: segments[i].source
  }

  /** Building keeps the origins. */
  lemma SourcesOrigins(f: Flavor, segments: seq<Segment>)
    requires BuildRoutes(f, segments).Ok?
    ensures Sources(BuildRoutes(f, segments).value) == Origins(segments)
  {
    var routes := BuildRoutes(f, segments).value;
    assert forall i :: 0 <= i < |segments| ==> routes[i].source == segments[i].source;
  }

  /** Every segment ends up, built, exactly once under its origin key, in
      input order, with its duration derived by `calculateDuration`. */
  lemma BuildGraphPlacement(segments: seq<Segment>, i: int)
    requires BuildGraph(segments).Ok? && 0 <= i < |segments|
    ensures var g, r := BuildGraph(segments).value, BuildRoutes(Java, segments).value[i];
            && segments[i].source in g
            && r in g[segments[i].source]
            && multiset(g[segments[i].source])[r] == multiset(BuildRoutes(Java, segments).value)[r]
            && r.duration == Duration(r.departure, r.arrival)
  {
    var routes := BuildRoutes(Java, segments).value;
    var r := routes[i];
    assert r.source == segments[i].source;
    assert r.source in Sources(routes);
    OutgoingCount(routes, r.source, r);
    assert r in multiset(routes);
  }

  // ---------------------------------------------------------------------------
  // Python graph: origin -> (destination -> routes), dicts in insertion order
  // ---------------------------------------------------------------------------

  /** An insertion-ordered dict from destination to its route list. */
  type Buckets = seq<(City, seq<Route>)>

  /** `graph[src]` of main.py for every origin `src`. */
  type PyGraph = map<City, Buckets>

  /** `graph[src][dst].append(route)`, creating the `dst` entry at the end
      when it is new. */
  function AddToBuckets(b: Buckets, r: Route): Buckets {
    if |b| == 0 then [(r.destination, [r])]
    else if b[0].0 == r.destination then [(b[0].0, b[0].1 + [r])] + b[1..]
    else [b[0]] + AddToBuckets(b[1..], r)
  }

  /** The graph-building loop of main.py `optimize_travel`. */
  function PyIndex(routes: seq<Route>): (g: PyGraph)
    ensures g.Keys == Sources(routes)
  {
    if |routes| == 0 then map[]
    else
      var prefix, r := routes[..|routes| - 1], routes[|routes| - 1];
      var g := PyIndex(prefix);
      SourcesSnoc(routes);
      g[r.source := AddToBuckets(if r.source in g then g[r.source] else [], r)]
  }

  /** The order in which `for neighbor, routes in ...items(): for route in routes`
      visits the routes. */
  function Flatten(b: Buckets): seq<Route> {
    if |b| == 0 then [] else b[0].1 + Flatten(b[1..])
  }

  /** The Python graph as the search sees it. */
  function PyAdjacency(g: PyGraph): Graph {
    map c | c in g :: Flatten(g[c])
  }

  /** The routes of `l` arriving at `d`, in order. */
  function Arriving(l: seq<Route>, d: City): seq<Route> {
    if |l| == 0 then []
    else Arriving(l[..|l| - 1], d) + (if l[|l| - 1].destination == d then [l[|l| - 1]] else [])
  }

  /** The destinations of `l`, each once, in order of first appearance. */
  function FirstSeen(l: seq<Route>): seq<City> {
    if |l| == 0 then []
    else
      var ds := FirstSeen(l[..|l| - 1]);
      if l[|l| - 1].destination in ds then ds else ds + [l[|l| - 1].destination]
  }

  /** The routes of `l` grouped by destination, groups taken in the order `ds`. */
  function Groups(l: seq<Route>, ds: seq<City>): seq<Route> {
    if |ds| == 0 then [] else Arriving(l, ds[0]) + Groups(l, ds[1..])
  }

  /** Reference order of the Python search: grouped by neighbour in
      first-seen order, input order within a group. */
  function GroupByNeighbour(l: seq<Route>): seq<Route> {
    Groups(l, FirstSeen(l))
  }

  /** The dict main.py holds for one origin whose routes, in input order, are `l`. */
  function BucketsOf(l: seq<Route>): (b: Buckets)
    ensures |b| == |FirstSeen(l)|
  {
    var ds := FirstSeen(l);
    seq(|ds|, i requires 0 <= i < |ds| => (ds[i], Arriving(l, ds[i])))
  }

  lemma {:induction false} FirstSeenProps(l: seq<Route>)
    ensures forall i, j :: 0 <= i < j < |FirstSeen(l)| ==> FirstSeen(l)[i] != FirstSeen(l)[j]
    ensures forall d :: d in FirstSeen(l) <==> exists k :: 0 <= k < |l| && l[k].destination == d
  {
    if |l| > 0 {
      var prefix := l[..|l| - 1];
      FirstSeenProps(prefix);
      forall d
        ensures d in FirstSeen(l) <==> exists k :: 0 <= k < |l| && l[k].destination == d
      {
        if d in FirstSeen(prefix) {
          var k :| 0 <= k < |prefix| && prefix[k].destination == d;
          assert l[k].destination == d;
        }
        if exists k :: 0 <= k < |l| && l[k].destination == d {
          var k :| 0 <= k < |l| && l[k].destination == d;
          if k < |l| - 1 {
            assert prefix[k].destination == d;
          }
        }
      }
    }
  }

  /** Adding a route to a dict whose keys are distinct updates the matching
      bucket in place, or appends a new bucket at the end. */
  lemma {:induction false} AddToBucketsShape(b: Buckets, r: Route)
    ensures (exists k :: 0 <= k < |b| && b[k].0 == r.destination) ==>
              forall k :: 0 <= k < |b| && b[k].0 == r.destination && (forall j :: 0 <= j < k ==> b[j].0 != r.destination) ==>
                AddToBuckets(b, r) == b[k := (b[k].0, b[k].1 + [r])]
    ensures (forall k :: 0 <= k < |b| ==> b[k].0 != r.destination) ==>
              AddToBuckets(b, r) == b + [(r.destination, [r])]
  {
    if |b| > 0 {
      AddToBucketsShape(b[1..], r);
      if b[0].0 != r.destination {
        forall k | 0 <= k < |b| && b[k].0 == r.destination && (forall j :: 0 <= j < k ==> b[j].0 != r.destination)
          ensures AddToBuckets(b, r) == b[k := (b[k].0, b[k].1 + [r])]
        {
          assert k > 0;
          assert b[1..][k - 1].0 == r.destination;
          assert forall j :: 0 <= j < k - 1 ==> b[1..][j].0 != r.destination by {
            forall j | 0 <= j < k - 1 ensures b[1..][j].0 != r.destination {
              assert b[1..][j] == b[j + 1];
            }
          }
          assert AddToBuckets(b[1..], r) == b[1..][k - 1 := (b[k].0, b[k].1 + [r])];
          assert [b[0]] + b[1..][k - 1 := (b[k].0, b[k].1 + [r])] == b[k := (b[k].0, b[k].1 + [r])];
        }
        if forall k :: 0 <= k < |b| ==> b[k].0 != r.destination {
          assert forall k :: 0 <= k < |b[1..]| ==> b[1..][k].0 != r.destination by {
            forall k | 0 <= k < |b[1..]| ensures b[1..][k].0 != r.destination {
              assert b[1..][k] == b[k + 1];
            }
          }
          assert [b[0]] + (b[1..] + [(r.destination, [r])]) == b + [(r.destination, [r])];
        }
      }
    }
  }

  /** With no route of `l` arriving at `d`, the group of `d` is empty. */
  lemma {:induction false} ArrivingNone(l: seq<Route>, d: City)
    requires forall k :: 0 <= k < |l| ==> l[k].destination != d
    ensures Arriving(l, d) == []
  {
    if |l| > 0 {
      ArrivingNone(l[..|l| - 1], d);
    }
  }

  /** The dict for one origin is always `BucketsOf` its routes so far. */
  lemma AddToBucketsOf(l: seq<Route>, r: Route)
    ensures AddToBuckets(BucketsOf(l), r) == BucketsOf(l + [r])
  {
    var b, ds := BucketsOf(l), FirstSeen(l);
    var l' := l + [r];
    assert l'[..|l'| - 1] == l;
    FirstSeenProps(l);
    AddToBucketsShape(b, r);
    var b' := BucketsOf(l');
    if r.destination in ds {
      var k :| 0 <= k < |ds| && ds[k] == r.destination;
      assert forall j :: 0 <= j < k ==> b[j].0 != r.destination;
      assert FirstSeen(l') == ds;
      forall i | 0 <= i < |ds|
        ensures b'[i] == b[k := (b[k].0, b[k].1 + [r])][i]
      {
        assert b'[i] == (ds[i], Arriving(l', ds[i]));
        assert b[i] == (ds[i], Arriving(l, ds[i]));
        if i != k {
          assert ds[i] != r.destination;
          assert Arriving(l', ds[i]) == Arriving(l, ds[i]) + [];
          assert Arriving(l', ds[i]) == Arriving(l, ds[i]);
        } else {
          assert Arriving(l', ds[i]) == Arriving(l, ds[i]) + [r];
        }
      }
      assert b' == b[k := (b[k].0, b[k].1 + [r])];
    } else {
      assert forall k :: 0 <= k < |b| ==> b[k].0 != r.destination;
      assert FirstSeen(l') == ds + [r.destination];
      ArrivingNone(l, r.destination);
      assert |b'| == |b| + 1;
      forall i | 0 <= i < |b| ensures b'[i] == b[i] {
        assert b'[i] == (ds[i], Arriving(l', ds[i]));
        assert b[i] == (ds[i], Arriving(l, ds[i]));
        assert ds[i] != r.destination;
        assert Arriving(l', ds[i]) == Arriving(l, ds[i]) + [];
        assert Arriving(l', ds[i]) == Arriving(l, ds[i]);
      }
      assert Arriving(l', r.destination) == Arriving(l, r.destination) + [r];
      assert Arriving(l', r.destination) == [r];
      assert FirstSeen(l')[|b|] == r.destination;
      assert b'[|b|] == (r.destination, [r]);
      assert b' == b + [(r.destination, [r])];
    }
  }

  lemma {:induction false} FlattenGroups(l: seq<Route>, ds: seq<City>)
    ensures Flatten(seq(|ds|, i requires 0 <= i < |ds| => (ds[i], Arriving(l, ds[i])))) == Groups(l, ds)
  {
    if |ds| > 0 {
      var b := seq(|ds|, i requires 0 <= i < |ds| => (ds[i], Arriving(l, ds[i])));
      var tail := ds[1..];
      FlattenGroups(l, tail);
      assert b[1..] == seq(|tail|, i requires 0 <= i < |tail| => (tail[i], Arriving(l, tail[i])));
    }
  }

  /** main.py holds, under each origin, the dict `BucketsOf` that origin's routes. */
  lemma {:induction false} PyIndexBuckets(routes: seq<Route>)
    ensures forall c :: c in PyIndex(routes) ==> PyIndex(routes)[c] == BucketsOf(Outgoing(routes, c))
  {
    if |routes| > 0 {
      var prefix, r := routes[..|routes| - 1], routes[|routes| - 1];
      PyIndexBuckets(prefix);
      SourcesSnoc(routes);
      var g := PyIndex(prefix);
      var before := if r.source in g then g[r.source] else [];
      assert PyIndex(routes) == g[r.source := AddToBuckets(before, r)];
      forall c | c in PyIndex(routes) ensures PyIndex(routes)[c] == BucketsOf(Outgoing(routes, c)) {
        assert Outgoing(routes, c) == Outgoing(prefix, c) + (if r.source == c then [r] else []);
        if c == r.source {
          OutgoingSources(prefix, c);
          assert before == BucketsOf(Outgoing(prefix, c));
          AddToBucketsOf(Outgoing(prefix, c), r);
        } else {
          assert c in g;
          assert Outgoing(routes, c) == Outgoing(prefix, c);
        }
      }
    }
  }

  /** The Python search visits an origin's routes grouped by neighbour, the
      neighbours in first-seen order, each group in input order. */
  lemma PyAdjacencyOrder(routes: seq<Route>, c: City)
    requires c in Sources(routes)
    ensures c in PyAdjacency(PyIndex(routes))
    ensures PyAdjacency(PyIndex(routes))[c] == GroupByNeighbour(Outgoing(routes, c))
  {
    PyIndexBuckets(routes);
    var l := Outgoing(routes, c);
    FlattenGroups(l, FirstSeen(l));
  }

  lemma {:induction false} ArrivingMembers(l: seq<Route>, d: City)
    ensures forall r :: r in Arriving(l, d) <==> r in l && r.destination == d
  {
    if |l| > 0 {
      ArrivingMembers(l[..|l| - 1], d);
      assert l == l[..|l| - 1] + [l[|l| - 1]];
    }
  }

  lemma {:induction false} GroupsMembers(l: seq<Route>, ds: seq<City>)
    ensures forall r :: r in Groups(l, ds) <==> r in l && r.destination in ds
  {
    if |ds| > 0 {
      GroupsMembers(l, ds[1..]);
      ArrivingMembers(l, ds[0]);
      assert forall d :: d in ds <==> d == ds[0] || d in ds[1..];
    }
  }

  /** Grouping by neighbour neither drops nor invents a route. */
  lemma GroupByNeighbourMembers(l: seq<Route>)
    ensures forall r :: r in GroupByNeighbour(l) <==> r in l
  {
    GroupsMembers(l, FirstSeen(l));
    FirstSeenProps(l);
    forall r | r in l ensures r.destination in FirstSeen(l) {
      var k :| 0 <= k < |l| && l[k] == r;
    }
  }

  lemma {:induction false} ArrivingConcat(a: seq<Route>, b: seq<Route>, d: City)
    ensures Arriving(a + b, d) == Arriving(a, d) + Arriving(b, d)
    decreases |b|
  {
    if |b| > 0 {
      var b' := b[..|b| - 1];
      assert (a + b)[..|a + b| - 1] == a + b';
      ArrivingConcat(a, b', d);
    } else {
      assert a + b == a;
    }
  }

  lemma {:induction false} ArrivingArriving(l: seq<Route>, d: City, e: City)
    ensures Arriving(Arriving(l, d), e) == if d == e then Arriving(l, d) else []
  {
    if |l| > 0 {
      var prefix, r := l[..|l| - 1], l[|l| - 1];
      ArrivingArriving(prefix, d, e);
      var tail := if r.destination == d then [r] else [];
      ArrivingConcat(Arriving(prefix, d), tail, e);
      if r.destination == d {
        assert [r][..0] == [];
      }
    }
  }

  /** Dropping the head of a duplicate-free list leaves a duplicate-free list
      that no longer holds the head. */
  lemma DistinctTail(ds: seq<City>)
    requires |ds| > 0 && forall i, j :: 0 <= i < j < |ds| ==> ds[i] != ds[j]
    ensures forall i, j :: 0 <= i < j < |ds[1..]| ==> ds[1..][i] != ds[1..][j]
    ensures ds[0] !in ds[1..]
  {
    forall i, j | 0 <= i < j < |ds[1..]| ensures ds[1..][i] != ds[1..][j] {
      assert ds[1..][i] == ds[i + 1] && ds[1..][j] == ds[j + 1];
    }
  }

  lemma {:induction false} GroupsArriving(l: seq<Route>, ds: seq<City>, d: City)
    requires forall i, j :: 0 <= i < j < |ds| ==> ds[i] != ds[j]
    ensures Arriving(Groups(l, ds), d) == if d in ds then Arriving(l, d) else []
  {
    if |ds| > 0 {
      DistinctTail(ds);
      GroupsArriving(l, ds[1..], d);
      ArrivingConcat(Arriving(l, ds[0]), Groups(l, ds[1..]), d);
      ArrivingArriving(l, ds[0], d);
      assert d in ds <==> d == ds[0] || d in ds[1..];
    }
  }

  /** Within each neighbour's group the Python order is the input order: the
      routes to any one destination come in the same order in both graphs. */
  lemma GroupByNeighbourKeepsOrder(l: seq<Route>, d: City)
    ensures Arriving(GroupByNeighbour(l), d) == Arriving(l, d)
  {
    FirstSeenProps(l);
    GroupsArriving(l, FirstSeen(l), d);
    if d !in FirstSeen(l) {
      ArrivingNone(l, d);
    }
  }

  /** `optimize_travel`'s graph building: parse every segment with the Python
      rules and index the routes by origin and destination. */
  function PyBuildGraph(segments: seq<Segment>): (r: Result<PyGraph, TimeError>)
    ensures r.Ok? <==> forall i :: 0 <= i < |segments| ==> MakeRoute(Python, segments[i]).Ok?
    ensures r.Err? ==> exists i :: && 0 <= i < |segments| && MakeRoute(Python, segments[i]) == Err(r.error)
                                   && forall k :: 0 <= k < i ==> MakeRoute(Python, segments[k]).Ok?
    ensures r.Ok? ==> r.value.Keys == Origins(segments)
    ensures r.Ok? ==> forall c :: c in r.value ==> r.value[c] == BucketsOf(Outgoing(BuildRoutes(Python, segments).value, c))
  {
    match BuildRoutes(Python, segments)
    case Err(e) => Err(e)
    case Ok(routes) =>
      SourcesOrigins(Python, segments);
      PyIndexBuckets(routes);
      Ok(PyIndex(routes))
  }

  /** The adjacency each flavour's search walks. */
  function Adjacency(f: Flavor, segments: seq<Segment>): (r: Result<Graph, TimeError>)
    ensures r.Ok? <==> BuildRoutes(f, segments).Ok?
  {
    match f
    case Java => BuildGraph(segments)
    case Python =>
      match PyBuildGraph(segments)
      case Err(e) => Err(e)
      case Ok(g) => Ok(PyAdjacency(g))
  }

  // ---------------------------------------------------------------------------
  // Walks
  // ---------------------------------------------------------------------------

  /** `r` is one of the routes listed under its origin. */
  predicate IsEdge(g: Graph, r: Route) {
    r.source in g && r in g[r.source]
  }

  /** `p` is a contiguous walk of graph edges from `s` to `t`: it starts at
      `s`, each route leaves where the previous one arrived, and it ends at
      `t`; the empty walk goes from a city to itself. */
  predicate IsWalk(g: Graph, p: seq<Route>, s: City, t: City) {
    if |p| == 0 then s == t
    else
      && p[0].source == s
      && p[|p| - 1].destination == t
      && (forall i :: 0 <= i < |p| ==> IsEdge(g, p[i]))
      && (forall i :: 0 <= i < |p| - 1 ==> p[i].destination == p[i + 1].source)
  }

  /** A walk extended by an edge leaving its end is a walk. */
  lemma WalkAppend(g: Graph, p: seq<Route>, s: City, r: Route)
    requires IsWalk(g, p, s, r.source) && IsEdge(g, r)
    ensures IsWalk(g, p + [r], s, r.destination)
  {
    var q := p + [r];
    assert forall i :: 0 <= i < |p| ==> q[i] == p[i];
  }

  /** The prefix of a non-empty walk is a walk to its last route's origin. */
  lemma WalkPrefix(g: Graph, p: seq<Route>, s: City, t: City)
    requires IsWalk(g, p, s, t) && |p| > 0
    ensures IsWalk(g, p[..|p| - 1], s, p[|p| - 1].source)
    ensures IsEdge(g, p[|p| - 1]) && p[|p| - 1].destination == t
  {
    var q := p[..|p| - 1];
    assert forall i :: 0 <= i < |q| ==> q[i] == p[i];
  }

  /** Two graphs listing the same routes under each origin have the same walks,
      whatever their order. */
  lemma SameEdgesSameWalks(g1: Graph, g2: Graph, p: seq<Route>, s: City, t: City)
    requires forall r :: IsEdge(g1, r) <==> IsEdge(g2, r)
    ensures IsWalk(g1, p, s, t) <==> IsWalk(g2, p, s, t)
  {
  }

  /** The Python and the Java graph of one route list have the same edges. */
  lemma PyAdjacencySameEdges(routes: seq<Route>)
    ensures forall r :: IsEdge(PyAdjacency(PyIndex(routes)), r) <==> IsEdge(Index(routes), r)
  {
    forall r ensures IsEdge(PyAdjacency(PyIndex(routes)), r) <==> IsEdge(Index(routes), r) {
      if r.source in Sources(routes) {
        PyAdjacencyOrder(routes, r.source);
        GroupByNeighbourMembers(Outgoing(routes, r.source));
      }
    }
  }

  /** The Python and the Java graph of one route list have the same walks, so
      the same minimum-weight walks and the same unreachable cities. */
  lemma PyAdjacencySameWalks(routes: seq<Route>, p: seq<Route>, s: City, t: City)
    ensures IsWalk(PyAdjacency(PyIndex(routes)), p, s, t) <==> IsWalk(Index(routes), p, s, t)
  {
    PyAdjacencySameEdges(routes);
    SameEdgesSameWalks(PyAdjacency(PyIndex(routes)), Index(routes), p, s, t);
  }

  /** A route is an edge of the graph built from a route list exactly when it
      is in the list. */
  lemma IndexEdges(routes: seq<Route>)
    ensures forall r :: IsEdge(Index(routes), r) <==> r in routes
  {
    forall r ensures IsEdge(Index(routes), r) <==> r in routes {
      OutgoingCount(routes, r.source, r);
      if r in routes {
        var i :| 0 <= i < |routes| && routes[i] == r;
        assert r.source in Sources(routes);
      }
    }
  }

  /** Either flavour's graph lists every route under its own origin, and its
      edges are exactly the built routes. */
  lemma AdjacencyEdges(f: Flavor, segments: seq<Segment>)
    requires Adjacency(f, segments).Ok?
    ensures WellFormed(Adjacency(f, segments).value)
    ensures forall r :: IsEdge(Adjacency(f, segments).value, r) <==> r in BuildRoutes(f, segments).value
  {
    var routes := BuildRoutes(f, segments).value;
    IndexEdges(routes);
    IndexWellFormed(routes);
    if f == Python {
      var g: Graph := PyAdjacency(PyIndex(routes));
      assert Adjacency(f, segments).value == g;
      PyAdjacencySameEdges(routes);
      forall c: City, i: int | c in g && 0 <= i < |g[c]| ensures g[c][i].source == c {
        PyAdjacencyOrder(routes, c);
        GroupByNeighbourMembers(Outgoing(routes, c));
        OutgoingSources(routes, c);
        assert g[c][i] in Outgoing(routes, c);
      }
    }
  }
}
