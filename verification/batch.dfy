/**
 The request loop of each version and the result object it fills.

 The modular Java version builds the graph once, before the loop, and
 shares it among all requests; the monolithic Java version and the Python
 script rebuild it from the same segments for every request. Results are
 stored under the request id in an insertion-ordered object (Gson's
 `JsonObject`, Jackson's `ObjectNode`, a Python `dict`): a later request with
 an id already present replaces the stored result in place.
 */
module Batch {
  import opened Results
  import opened Times
  import opened Routes
  import opened Search
  import opened Aggregate

  /** The three implementations. */
  datatype Version = ModularJava | MonolithicJava | PythonScript

  /** When the graph is built: once per batch, or once per request. */
  datatype BuildStrategy = Once | PerRequest

  function FlavorOf(v: Version): Flavor {
    if v == PythonScript then Python else Java
  }

  function StrategyOf(v: Version): BuildStrategy {
    if v == ModularJava then Once else PerRequest
  }

  // ---------------------------------------------------------------------------
  // Insertion-ordered result object
  // ---------------------------------------------------------------------------

  /** The keys of an association list, in order. */
  function Keys<K, V>(t: seq<(K, V)>): (ks: seq<K>)
    ensures |ks| == |t| && forall i :: 0 <= i < |t| ==> ks[i] == t[i].0
  {
    if |t| == 0 then [] else [t[0].0] + Keys(t[1..])
  }

  /** The value stored under `k`, if any. */
  function Lookup<K(==), V>(t: seq<(K, V)>, k: K): Option<V> {
    if |t| == 0 then None
    else if t[0].0 == k then Some(t[0].1)
    else Lookup(t[1..], k)
  }

  /** `put` / `set` / `d[k] = v`: replaces the value of a present key where it
      stands, or appends a new key at the end. */
  function Put<K(==), V>(t: seq<(K, V)>, k: K, v: V): seq<(K, V)> {
    if |t| == 0 then [(k, v)]
    else if t[0].0 == k then [(k, v)] + t[1..]
    else [t[0]] + Put(t[1..], k, v)
  }

  /** After a put, the key holds the new value and every other key keeps its
      own. */
  lemma {:induction false} PutLookup<K, V>(t: seq<(K, V)>, k: K, v: V, k': K)
    ensures Lookup(Put(t, k, v), k') == if k' == k then Some(v) else Lookup(t, k')
  {
    if |t| > 0 && t[0].0 != k {
      PutLookup(t[1..], k, v, k');
    }
  }

  /** A put keeps the key order, and appends the key when it is new. */
  lemma {:induction false} PutKeys<K, V>(t: seq<(K, V)>, k: K, v: V)
    ensures Keys(Put(t, k, v)) == if k in Keys(t) then Keys(t) else Keys(t) + [k]
  {
    if |t| > 0 {
      assert Keys(t) == [t[0].0] + Keys(t[1..]);
      if t[0].0 != k {
        PutKeys(t[1..], k, v);
        assert k in Keys(t) <==> k in Keys(t[1..]);
      }
    }
  }

  /** The request ids, each once, in order of first appearance. */
  function FirstIds(rs: seq<Request>): (ids: seq<string>)
    ensures forall i, j :: 0 <= i < j < |ids| ==> ids[i] != ids[j]
    ensures forall id :: id in ids <==> exists k :: 0 <= k < |rs| && rs[k].id == id
  {
    if |rs| == 0 then []
    else
      var prefix := rs[..|rs| - 1];
      var ids := FirstIds(prefix);
      assert forall k :: 0 <= k < |prefix| ==> prefix[k] == rs[k];
      if rs[|rs| - 1].id in ids then ids else ids + [rs[|rs| - 1].id]
  }

  /** Request `i` is the last one carrying its id. */
  predicate LastOfId(rs: seq<Request>, i: int) {
    0 <= i < |rs| && forall l :: i < l < |rs| ==> rs[l].id != rs[i].id
  }

  // ---------------------------------------------------------------------------
  // The batch
  // ---------------------------------------------------------------------------

  /** The input carries no negative cost and no segment that parses to a
      negative duration, so every search weight is non-negative. */
  predicate Admissible(f: Flavor, segments: seq<Segment>) {
    forall i :: 0 <= i < |segments| ==> SegmentAdmissible(f, segments[i])
  }

  /** The segment's cost is not negative, nor is its duration if it parses. */
  predicate SegmentAdmissible(f: Flavor, s: Segment) {
    s.cost >= 0 && (MakeRoute(f, s).Ok? ==> MakeRoute(f, s).value.duration >= 0)
  }

  /** On admissible input no built route has a negative cost or duration. */
  lemma BuiltRouteAdmissible(f: Flavor, segments: seq<Segment>, k: int)
    requires Admissible(f, segments) && BuildRoutes(f, segments).Ok? && 0 <= k < |segments|
    ensures BuildRoutes(f, segments).value[k].cost >= 0 && BuildRoutes(f, segments).value[k].duration >= 0
  {
    var r := BuildRoutes(f, segments).value[k];
    var s := segments[k];
    assert MakeRoute(f, s) == Ok(r);
    assert SegmentAdmissible(f, s);
  }

  /** No criteria weighs a route with non-negative cost and duration below zero. */
  lemma WeightNonNegative(f: Flavor, criteria: string, r: Route)
    requires r.cost >= 0 && r.duration >= 0
    ensures SearchWeight(f, criteria)(r) >= 0
  {
  }

  /** On admissible input no edge of the built graph has a negative cost or
      duration. */
  lemma AdmissibleEdges(f: Flavor, segments: seq<Segment>)
    requires Admissible(f, segments) && Adjacency(f, segments).Ok?
    ensures WellFormed(Adjacency(f, segments).value)
    ensures forall r :: IsEdge(Adjacency(f, segments).value, r) ==> r.cost >= 0 && r.duration >= 0
  {
    var routes := BuildRoutes(f, segments).value;
    AdjacencyEdges(f, segments);
    forall r | r in routes ensures r.cost >= 0 && r.duration >= 0 {
      var k :| 0 <= k < |routes| && routes[k] == r;
      BuiltRouteAdmissible(f, segments, k);
    }
  }

  /** On admissible input the built graph meets the search's premises under
      every criteria. */
  lemma AdmissibleWeights(f: Flavor, segments: seq<Segment>, criteria: string)
    requires Admissible(f, segments) && Adjacency(f, segments).Ok?
    ensures WellFormed(Adjacency(f, segments).value)
    ensures NonNegative(Adjacency(f, segments).value, SearchWeight(f, criteria))
  {
    var g := Adjacency(f, segments).value;
    AdmissibleEdges(f, segments);
    forall c, i | c in g && 0 <= i < |g[c]| ensures SearchWeight(f, criteria)(g[c][i]) >= 0 {
      assert IsEdge(g, g[c][i]);
      WeightNonNegative(f, criteria, g[c][i]);
    }
  }

  /** Each of the first `|paths|` requests is answered by its path. */
  ghost predicate AllAnswered(f: Flavor, g: Graph, requests: seq<Request>, paths: seq<seq<Route>>)
    requires |paths| <= |requests|
  {
    forall j :: 0 <= j < |paths| ==> Answers(f, g, requests[j], paths[j])
  }

  /** Under every id among `rs`, the table holds the result of the last
      request of `rs` carrying it. */
  ghost predicate Stored(rs: seq<Request>, paths: seq<seq<Route>>, table: seq<(string, RequestResult)>,
                         f: Flavor, genSummary: bool, apiKey: Option<string>, service: SummaryService)
    requires |rs| <= |paths|
  {
    forall j :: LastOfId(rs, j) ==>
      Lookup(table, rs[j].id) == Some(Respond(f, rs[j].criteria, paths[j], genSummary, apiKey, service))
  }

  /** The state after the first `n` requests are served: each has a path
      that answers it in the built graph, and the table holds, under every id
      seen so far and in order of first appearance, the result of the last
      request carrying it. */
  ghost predicate Served(f: Flavor, built: Result<Graph, TimeError>, requests: seq<Request>, n: int,
                         paths: seq<seq<Route>>, table: seq<(string, RequestResult)>,
                         genSummary: bool, apiKey: Option<string>, service: SummaryService)
  {
    && 0 <= n <= |requests| && |paths| == n
    && (n > 0 ==> built.Ok?)
    && (built.Ok? ==> AllAnswered(f, built.value, requests, paths))
    && Keys(table) == FirstIds(requests[..n])
    && Stored(requests[..n], paths, table, f, genSummary, apiKey, service)
  }

  /** One more answered request. */
  lemma AnsweredStep(f: Flavor, g: Graph, requests: seq<Request>, paths: seq<seq<Route>>, path: seq<Route>)
    requires |paths| < |requests| && AllAnswered(f, g, requests, paths)
    requires Answers(f, g, requests[|paths|], path)
    ensures AllAnswered(f, g, requests, paths + [path])
  {
  }

  lemma ServedNone(f: Flavor, built: Result<Graph, TimeError>, requests: seq<Request>,
                   genSummary: bool, apiKey: Option<string>, service: SummaryService)
    ensures Served(f, built, requests, 0, [], [], genSummary, apiKey, service)
  {
    assert requests[..0] == [];
  }

  /** Serving request `n` and storing its result under its id. */
  lemma ServedStep(f: Flavor, built: Result<Graph, TimeError>, requests: seq<Request>, n: int,
                   paths: seq<seq<Route>>, table: seq<(string, RequestResult)>,
                   genSummary: bool, apiKey: Option<string>, service: SummaryService,
                   path: seq<Route>, result: RequestResult)
    requires Served(f, built, requests, n, paths, table, genSummary, apiKey, service)
    requires n < |requests| && built.Ok? && Answers(f, built.value, requests[n], path)
    requires result == Respond(f, requests[n].criteria, path, genSummary, apiKey, service)
    ensures Served(f, built, requests, n + 1, paths + [path], Put(table, requests[n].id, result),
                   genSummary, apiKey, service)
  {
    AnsweredStep(f, built.value, requests, paths, path);
    StoreKeys(requests, n, table, result);
    StoreLookups(requests, n, table, paths + [path], f, genSummary, apiKey, service);
  }

  /** Once every request is served, the table is the batch's answer. */
  lemma ServedAll(f: Flavor, built: Result<Graph, TimeError>, requests: seq<Request>,
                  paths: seq<seq<Route>>, table: seq<(string, RequestResult)>,
                  genSummary: bool, apiKey: Option<string>, service: SummaryService)
    requires Served(f, built, requests, |requests|, paths, table, genSummary, apiKey, service)
    ensures |paths| == |requests| && Keys(table) == FirstIds(requests)
    ensures |requests| > 0 ==>
              built.Ok? && forall i :: 0 <= i < |requests| ==> Answers(f, built.value, requests[i], paths[i])
    ensures forall i :: LastOfId(requests, i) ==>
              Lookup(table, requests[i].id) == Some(Respond(f, requests[i].criteria, paths[i], genSummary, apiKey, service))
  {
    assert requests[..|requests|] == requests;
    assert Stored(requests, paths, table, f, genSummary, apiKey, service);
  }

  /** `optimizeTravel` (both Java versions) and `optimize_travel` (Python):
      answer every request in order and store each result under its id.
      A malformed time aborts the whole batch: the modular version builds the
      graph before looking at any request, the other two only when a request
      is served. The paths the results were made from are returned too. */
  method OptimizeTravel(v: Version, segments: seq<Segment>, requests: seq<Request>, genSummary: bool,
                        apiKey: Option<string>, service: SummaryService)
    returns (out: Result<seq<(string, RequestResult)>, TimeError>, paths: seq<seq<Route>>)
    requires Admissible(FlavorOf(v), segments)
    ensures out.Err? <==> Adjacency(FlavorOf(v), segments).Err? && (StrategyOf(v) == Once || |requests| > 0)
    ensures out.Err? ==> out.error == Adjacency(FlavorOf(v), segments).error
    ensures out.Ok? ==> |paths| == |requests| && Keys(out.value) == FirstIds(requests)
    ensures out.Ok? && |requests| > 0 ==>
              && Adjacency(FlavorOf(v), segments).Ok?
              && forall i :: 0 <= i < |requests| ==>
                   Answers(FlavorOf(v), Adjacency(FlavorOf(v), segments).value, requests[i], paths[i])
    ensures out.Ok? ==> forall i :: LastOfId(requests, i) ==>
              Lookup(out.value, requests[i].id)
              == Some(Respond(FlavorOf(v), requests[i].criteria, paths[i], genSummary, apiKey, service))
  {
    var f := FlavorOf(v);
    var shared := Adjacency(f, segments);
    if StrategyOf(v) == Once && shared.Err? {
      return Err(shared.error), [];
    }
    var table: seq<(string, RequestResult)> := [];
    paths := [];
    ServedNone(f, shared, requests, genSummary, apiKey, service);
    for i := 0 to |requests|
      invariant Served(f, shared, requests, i, paths, table, genSummary, apiKey, service)
    {
      var graph := shared;
      if StrategyOf(v) == PerRequest {
        graph := Adjacency(f, segments);
        if graph.Err? {
          return Err(graph.error), [];
        }
      }
      AdmissibleWeights(f, segments, requests[i].criteria);
      var path, result := ProcessRequest(f, graph.value, requests[i], genSummary, apiKey, service);
      ServedStep(f, shared, requests, i, paths, table, genSummary, apiKey, service, path, result);
      table := Put(table, requests[i].id, result);
      paths := paths + [path];
    }
    ServedAll(f, shared, requests, paths, table, genSummary, apiKey, service);
    return Ok(table), paths;
  }

  /** Storing under the id of request `i` keeps the ids in order of first
      appearance. */
  lemma StoreKeys<V>(requests: seq<Request>, i: int, before: seq<(string, V)>, v: V)
    requires 0 <= i < |requests| && Keys(before) == FirstIds(requests[..i])
    ensures Keys(Put(before, requests[i].id, v)) == FirstIds(requests[..i + 1])
  {
    PutKeys(before, requests[i].id, v);
    assert requests[..i + 1][..i] == requests[..i];
  }

  /** Storing the result of request `i` leaves every id mapped to the result
      of its last request so far. */
  lemma StoreLookups(requests: seq<Request>, i: int, before: seq<(string, RequestResult)>, paths: seq<seq<Route>>,
                     f: Flavor, genSummary: bool, apiKey: Option<string>, service: SummaryService)
    requires 0 <= i < |requests| && |paths| == i + 1
    requires Stored(requests[..i], paths, before, f, genSummary, apiKey, service)
    ensures Stored(requests[..i + 1], paths,
                   Put(before, requests[i].id, Respond(f, requests[i].criteria, paths[i], genSummary, apiKey, service)),
                   f, genSummary, apiKey, service)
  {
    var id := requests[i].id;
    var result := Respond(f, requests[i].criteria, paths[i], genSummary, apiKey, service);
    var rs := requests[..i + 1];
    forall j | LastOfId(rs, j)
      ensures Lookup(Put(before, id, result), rs[j].id)
              == Some(Respond(f, rs[j].criteria, paths[j], genSummary, apiKey, service))
    {
      PutLookup(before, id, result, rs[j].id);
      if j < i {
        assert LastOfId(requests[..i], j) by {
          forall l | j < l < i ensures requests[..i][l].id != requests[..i][j].id {
            assert rs[l].id != rs[j].id;
          }
        }
      }
    }
  }
}
