/**
 The criteria-weighted Dijkstra search shared by all three implementations
 (`findOptimalPath`, `dijkstra`, `dijkstra_shortest_path`).

 Each queue entry carries a city, the cumulative weight to reach it and the
 whole path taken. A popped entry for the destination ends the search; an
 entry whose weight exceeds the best known distance of its city is skipped
 (lazy deletion); relaxation replaces a known distance only when strictly
 smaller. Which of several minimum-weight entries the queue hands out is
 not fixed: the method picks any of them, and every property is proved for
 every such choice.
 */
module Search {
  import opened Results
  import opened Routes

  /** A search distance: finite, or the value standing for "no route"
      (`Integer.MAX_VALUE` in Java, `float('inf')` in Python). */
  datatype Distance = Finite(n: int) | Infinite

  /** What the search returns: the path and its weight. */
  datatype PathResult = PathResult(path: seq<Route>, distance: Distance)

  /** A priority-queue entry: a city, the weight of the path that reached it,
      and that path. */
  datatype Entry = Entry(city: City, dist: int, path: seq<Route>)

  // ---------------------------------------------------------------------------
  // Weights
  // ---------------------------------------------------------------------------

  /** `getWeight` in Java and the weight branch of `dijkstra_shortest_path`:
      Time weighs a route by its duration, Cost by its cost, Hops by 1. An
      unrecognised criteria string falls back to the duration in Java and
      to 1 in Python. */
  function Weight(f: Flavor, criteria: string, r: Route): int {
    if criteria == "Time" then r.duration
    else if criteria == "Cost" then r.cost
    else if criteria == "Hops" then 1
    else if f == Java then r.duration
    else 1
  }

  /** The two flavours weigh the three named criteria alike and differ only on
      an unrecognised string: Java searches it by duration, Python by hops. */
  lemma WeightFlavours(criteria: string, r: Route)
    ensures criteria in {"Time", "Cost", "Hops"} ==> Weight(Java, criteria, r) == Weight(Python, criteria, r)
    ensures criteria !in {"Time", "Cost", "Hops"} ==>
              Weight(Java, criteria, r) == Weight(Java, "Time", r) && Weight(Python, criteria, r) == Weight(Python, "Hops", r)
  {
  }

  /** The total weight of a path. */
  function PathWeight(w: Route -> int, p: seq<Route>): int {
    if |p| == 0 then 0 else PathWeight(w, p[..|p| - 1]) + w(p[|p| - 1])
  }

  lemma PathWeightAppend(w: Route -> int, p: seq<Route>, r: Route)
    ensures PathWeight(w, p + [r]) == PathWeight(w, p) + w(r)
  {
    assert (p + [r])[..|p|] == p;
  }

  /** No edge of the graph weighs less than zero (Dijkstra's premise; it
      holds for Time and Hops, and for Cost when no cost is negative). */
  predicate NonNegative(g: Graph, w: Route -> int) {
    forall c, i :: c in g && 0 <= i < |g[c]| ==> w(g[c][i]) >= 0
  }

  lemma EdgeWeightNonNegative(g: Graph, w: Route -> int, r: Route)
    requires NonNegative(g, w) && IsEdge(g, r)
    ensures w(r) >= 0
  {
    var i :| 0 <= i < |g[r.source]| && g[r.source][i] == r;
  }

  lemma {:induction false} WalkWeightNonNegative(g: Graph, w: Route -> int, p: seq<Route>, s: City, t: City)
    requires NonNegative(g, w) && IsWalk(g, p, s, t)
    ensures PathWeight(w, p) >= 0
  {
    if |p| > 0 {
      WalkPrefix(g, p, s, t);
      WalkWeightNonNegative(g, w, p[..|p| - 1], s, p[|p| - 1].source);
      EdgeWeightNonNegative(g, w, p[|p| - 1]);
    }
  }

  // ---------------------------------------------------------------------------
  // What the search promises
  // ---------------------------------------------------------------------------

  /** `p` is a walk from `s` to `t` of minimum weight among all such walks. */
  ghost predicate Optimal(g: Graph, w: Route -> int, s: City, t: City, p: seq<Route>) {
    && IsWalk(g, p, s, t)
    && forall q :: IsWalk(g, q, s, t) ==> PathWeight(w, p) <= PathWeight(w, q)
  }

  /** No walk leads from `s` to `t`. */
  ghost predicate Unreachable(g: Graph, s: City, t: City) {
    forall q :: !IsWalk(g, q, s, t)
  }

  /** Strict-`<` tie-breaking as seen from a route `r` of a returned path:
      `r` is, among the routes its origin lists before it, strictly lighter
      than every one with the same destination. */
  ghost predicate FirstBestEdge(g: Graph, w: Route -> int, r: Route) {
    && r.source in g
    && exists j :: 0 <= j < |g[r.source]| && g[r.source][j] == r &&
         forall i :: 0 <= i < j && g[r.source][i].destination == r.destination ==> w(g[r.source][i]) > w(r)
  }

  /** Every route of `p` won the strict-`<` tie-break at its origin. */
  ghost predicate TieBroken(g: Graph, w: Route -> int, p: seq<Route>) {
    forall k :: 0 <= k < |p| ==> FirstBestEdge(g, w, p[k])
  }

  /** The full contract of the search, in one place for its callers. */
  ghost predicate SearchSpec(g: Graph, w: Route -> int, s: City, t: City, r: PathResult) {
    && (s == t ==> r == PathResult([], Finite(0)))
    && (r.distance.Finite? ==> Optimal(g, w, s, t, r.path) && r.distance.n == PathWeight(w, r.path))
    && (r.distance.Infinite? ==> r.path == [] && Unreachable(g, s, t))
    && TieBroken(g, w, r.path)
  }

  // ---------------------------------------------------------------------------
  // Relaxation of one popped city
  // ---------------------------------------------------------------------------

  /** The entry pushed for route `r` out of the popped entry `current`. */
  function Extend(current: Entry, w: Route -> int, r: Route): Entry {
    Entry(r.destination, current.dist + w(r), current.path + [r])
  }

  /** Route `edges[j]` beats, by strict `<`, the distance known before the
      relaxation and every earlier route to the same city. */
  ghost predicate StrictlyImproves(w: Route -> int, du: int, edges: seq<Route>, dist: map<City, int>, j: int)
    requires 0 <= j < |edges|
  {
    var r := edges[j];
    && (r.destination !in dist || du + w(r) < dist[r.destination])
    && forall i :: 0 <= i < j && edges[i].destination == r.destination ==> du + w(r) < du + w(edges[i])
  }

  /** The entries relaxing the first `n` routes pushes: in route order, one
      for each strictly improving route. */
  ghost function Pushes(w: Route -> int, current: Entry, edges: seq<Route>, dist: map<City, int>, n: int): seq<Entry>
    requires 0 <= n <= |edges|
  {
    if n == 0 then []
    else
      Pushes(w, current, edges, dist, n - 1) +
      (if StrictlyImproves(w, current.dist, edges, dist, n - 1) then [Extend(current, w, edges[n - 1])] else [])
  }

  /** Every pushed entry extends the popped path by a strictly improving route. */
  lemma {:induction false} PushedFrom(w: Route -> int, current: Entry, edges: seq<Route>, dist: map<City, int>, n: int, e: Entry)
    requires 0 <= n <= |edges| && e in Pushes(w, current, edges, dist, n)
    ensures exists j :: 0 <= j < n && e == Extend(current, w, edges[j]) && StrictlyImproves(w, current.dist, edges, dist, j)
  {
    if e !in Pushes(w, current, edges, dist, n - 1) {
      assert e == Extend(current, w, edges[n - 1]);
    } else {
      PushedFrom(w, current, edges, dist, n - 1, e);
    }
  }

  /** Every strictly improving route is pushed. */
  lemma {:induction false} PushedIf(w: Route -> int, current: Entry, edges: seq<Route>, dist: map<City, int>, n: int, j: int)
    requires 0 <= j < n <= |edges| && StrictlyImproves(w, current.dist, edges, dist, j)
    ensures Extend(current, w, edges[j]) in Pushes(w, current, edges, dist, n)
  {
    var before := Pushes(w, current, edges, dist, n - 1);
    if j < n - 1 {
      PushedIf(w, current, edges, dist, n - 1, j);
      assert Extend(current, w, edges[j]) in before;
    } else {
      assert Pushes(w, current, edges, dist, n) == before + [Extend(current, w, edges[j])];
    }
  }

  /** When no route improves, nothing is pushed. */
  lemma {:induction false} NothingPushed(w: Route -> int, current: Entry, edges: seq<Route>, dist: map<City, int>, n: int)
    requires 0 <= n <= |edges|
    requires forall j :: 0 <= j < n ==> !StrictlyImproves(w, current.dist, edges, dist, j)
    ensures Pushes(w, current, edges, dist, n) == []
  {
    if n > 0 {
      NothingPushed(w, current, edges, dist, n - 1);
    }
  }

  /** Every one of the first `n` routes is relaxed in `dist'`. */
  ghost predicate RoutesRelaxed(w: Route -> int, du: int, edges: seq<Route>, n: int, dist': map<City, int>)
    requires 0 <= n <= |edges|
  {
    forall j {:trigger edges[j].destination in dist'} :: 0 <= j < n ==>
      edges[j].destination in dist' && dist'[edges[j].destination] <= du + w(edges[j])
  }

  /** `dist'` knows every city `dist` knows, no farther. */
  ghost predicate NoFarther(dist: map<City, int>, dist': map<City, int>) {
    forall c :: c in dist ==> c in dist' && dist'[c] <= dist[c]
  }

  /** Every distance of `dist'` is the old one or comes through one of the
      first `n` routes. */
  ghost predicate FromRoutes(w: Route -> int, du: int, edges: seq<Route>, n: int, dist: map<City, int>, dist': map<City, int>)
    requires 0 <= n <= |edges|
  {
    forall c :: c in dist' ==>
      || (c in dist && dist'[c] == dist[c])
      || exists j :: 0 <= j < n && edges[j].destination == c && dist'[c] == du + w(edges[j])
  }

  /** Every changed distance has an entry among `pushed`. */
  ghost predicate ChangesPushed(dist: map<City, int>, dist': map<City, int>, pushed: seq<Entry>) {
    forall c :: c in dist' && !(c in dist && dist'[c] == dist[c]) ==>
      exists e :: e in pushed && e.city == c && e.dist == dist'[c]
  }

  /** The effect of relaxing the first `n` routes of `edges` out of
      `current`: `dist` is the distance map before, `dist'` after, and
      `pushed` the entries appended to the queue meanwhile. */
  ghost predicate RelaxedUpTo(w: Route -> int, current: Entry, edges: seq<Route>, n: int,
                              dist: map<City, int>, dist': map<City, int>, pushed: seq<Entry>)
    requires 0 <= n <= |edges|
  {
    && pushed == Pushes(w, current, edges, dist, n)
    && RoutesRelaxed(w, current.dist, edges, n, dist')
    && NoFarther(dist, dist')
    && FromRoutes(w, current.dist, edges, n, dist, dist')
    && ChangesPushed(dist, dist', pushed)
  }

  /** What relaxing all of `edges` does to the distance map and the queue:
      entries are only appended, and `RelaxedUpTo` holds for all routes. */
  ghost predicate Relaxed(w: Route -> int, current: Entry, edges: seq<Route>,
                          dist: map<City, int>, pq: seq<Entry>, dist': map<City, int>, pq': seq<Entry>)
  {
    && |pq| <= |pq'| && pq'[..|pq|] == pq
    && RelaxedUpTo(w, current, edges, |edges|, dist, dist', pq'[|pq|..])
  }

  /** The state of the relaxation loop: the distance map and the entries
      pushed so far. */
  datatype RelaxState = RelaxState(dist: map<City, int>, pushed: seq<Entry>)

  /** Relaxing one route `r` out of `current`: push an extended entry and
      lower the distance of its destination when the route beats it (an
      absent distance counts as infinite). */
  function RelaxRoute(w: Route -> int, current: Entry, r: Route, s: RelaxState): RelaxState {
    var newDistance := current.dist + w(r);
    if r.destination !in s.dist || newDistance < s.dist[r.destination] then
      RelaxState(s.dist[r.destination := newDistance], s.pushed + [Extend(current, w, r)])
    else
      s
  }

  /** The state after relaxing the first `n` routes, in order. */
  function RelaxPrefix(w: Route -> int, current: Entry, edges: seq<Route>, dist: map<City, int>, n: int): RelaxState
    requires 0 <= n <= |edges|
  {
    if n == 0 then RelaxState(dist, [])
    else RelaxRoute(w, current, edges[n - 1], RelaxPrefix(w, current, edges, dist, n - 1))
  }

  /** One relaxation step lowers at most the route's destination, to the
      route's distance, and only appends to the pushed entries. */
  lemma RelaxRouteStep(w: Route -> int, current: Entry, r: Route, s: RelaxState)
    ensures NoFarther(s.dist, RelaxRoute(w, current, r, s).dist)
    ensures r.destination in RelaxRoute(w, current, r, s).dist
    ensures RelaxRoute(w, current, r, s).dist[r.destination] <= current.dist + w(r)
    ensures forall c :: c in RelaxRoute(w, current, r, s).dist ==>
              || (c in s.dist && RelaxRoute(w, current, r, s).dist[c] == s.dist[c])
              || (c == r.destination && RelaxRoute(w, current, r, s).dist[c] == current.dist + w(r))
    ensures forall e :: e in s.pushed ==> e in RelaxRoute(w, current, r, s).pushed
  {
  }

  lemma {:induction false} PrefixNoFarther(w: Route -> int, current: Entry, edges: seq<Route>, dist: map<City, int>, n: int)
    requires 0 <= n <= |edges|
    ensures NoFarther(dist, RelaxPrefix(w, current, edges, dist, n).dist)
  {
    if n > 0 {
      PrefixNoFarther(w, current, edges, dist, n - 1);
      RelaxRouteStep(w, current, edges[n - 1], RelaxPrefix(w, current, edges, dist, n - 1));
    }
  }

  lemma {:induction false} PrefixRoutesRelaxed(w: Route -> int, current: Entry, edges: seq<Route>, dist: map<City, int>, n: int)
    requires 0 <= n <= |edges|
    ensures RoutesRelaxed(w, current.dist, edges, n, RelaxPrefix(w, current, edges, dist, n).dist)
  {
    if n > 0 {
      var s := RelaxPrefix(w, current, edges, dist, n - 1);
      var t := RelaxPrefix(w, current, edges, dist, n);
      PrefixRoutesRelaxed(w, current, edges, dist, n - 1);
      RelaxRouteStep(w, current, edges[n - 1], s);
      forall j | 0 <= j < n
        ensures edges[j].destination in t.dist && t.dist[edges[j].destination] <= current.dist + w(edges[j])
      {
        if j < n - 1 {
          assert edges[j].destination in s.dist;
        }
      }
    }
  }

  lemma {:induction false} PrefixFromRoutes(w: Route -> int, current: Entry, edges: seq<Route>, dist: map<City, int>, n: int)
    requires 0 <= n <= |edges|
    ensures FromRoutes(w, current.dist, edges, n, dist, RelaxPrefix(w, current, edges, dist, n).dist)
  {
    if n > 0 {
      var s := RelaxPrefix(w, current, edges, dist, n - 1);
      var t := RelaxPrefix(w, current, edges, dist, n);
      PrefixFromRoutes(w, current, edges, dist, n - 1);
      RelaxRouteStep(w, current, edges[n - 1], s);
      forall c | c in t.dist
        ensures || (c in dist && t.dist[c] == dist[c])
                || exists j :: 0 <= j < n && edges[j].destination == c && t.dist[c] == current.dist + w(edges[j])
      {
        if c in s.dist && t.dist[c] == s.dist[c] {
          if !(c in dist && s.dist[c] == dist[c]) {
            var j :| 0 <= j < n - 1 && edges[j].destination == c && s.dist[c] == current.dist + w(edges[j]);
          }
        } else {
          assert edges[n - 1].destination == c && t.dist[c] == current.dist + w(edges[n - 1]);
        }
      }
    }
  }

  lemma {:induction false} PrefixChangesPushed(w: Route -> int, current: Entry, edges: seq<Route>, dist: map<City, int>, n: int)
    requires 0 <= n <= |edges|
    ensures ChangesPushed(dist, RelaxPrefix(w, current, edges, dist, n).dist, RelaxPrefix(w, current, edges, dist, n).pushed)
  {
    if n > 0 {
      var s := RelaxPrefix(w, current, edges, dist, n - 1);
      var t := RelaxPrefix(w, current, edges, dist, n);
      PrefixChangesPushed(w, current, edges, dist, n - 1);
      RelaxRouteStep(w, current, edges[n - 1], s);
      forall c | c in t.dist && !(c in dist && t.dist[c] == dist[c])
        ensures exists e :: e in t.pushed && e.city == c && e.dist == t.dist[c]
      {
        if c in s.dist && t.dist[c] == s.dist[c] {
          var e :| e in s.pushed && e.city == c && e.dist == s.dist[c];
        } else {
          assert Extend(current, w, edges[n - 1]) in t.pushed;
        }
      }
    }
  }

  /** Whether route `edges[n]` beats the distance known after the routes
      before it decides whether it strictly improves. */
  lemma PrefixBeatsIffImproves(w: Route -> int, current: Entry, edges: seq<Route>, dist: map<City, int>, n: int)
    requires 0 <= n < |edges|
    ensures var d := RelaxPrefix(w, current, edges, dist, n).dist;
            StrictlyImproves(w, current.dist, edges, dist, n) <==>
              (edges[n].destination !in d || current.dist + w(edges[n]) < d[edges[n].destination])
  {
    PrefixNoFarther(w, current, edges, dist, n);
    PrefixRoutesRelaxed(w, current, edges, dist, n);
    PrefixFromRoutes(w, current, edges, dist, n);
    var d := RelaxPrefix(w, current, edges, dist, n).dist;
    var c := edges[n].destination;
    if c in d && !(c in dist && d[c] == dist[c]) {
      var i :| 0 <= i < n && edges[i].destination == c && d[c] == current.dist + w(edges[i]);
    }
  }

  lemma {:induction false} PrefixPushes(w: Route -> int, current: Entry, edges: seq<Route>, dist: map<City, int>, n: int)
    requires 0 <= n <= |edges|
    ensures RelaxPrefix(w, current, edges, dist, n).pushed == Pushes(w, current, edges, dist, n)
  {
    if n > 0 {
      PrefixPushes(w, current, edges, dist, n - 1);
      PrefixBeatsIffImproves(w, current, edges, dist, n - 1);
    }
  }

  /** Relaxing the first `n` routes in order does what `RelaxedUpTo` says. */
  lemma RelaxPrefixRelaxed(w: Route -> int, current: Entry, edges: seq<Route>, dist: map<City, int>, n: int)
    requires 0 <= n <= |edges|
    ensures RelaxedUpTo(w, current, edges, n, dist, RelaxPrefix(w, current, edges, dist, n).dist, RelaxPrefix(w, current, edges, dist, n).pushed)
  {
    PrefixPushes(w, current, edges, dist, n);
    PrefixNoFarther(w, current, edges, dist, n);
    PrefixRoutesRelaxed(w, current, edges, dist, n);
    PrefixFromRoutes(w, current, edges, dist, n);
    PrefixChangesPushed(w, current, edges, dist, n);
  }

  /** The inner loop of the search: for each route out of the popped city,
      in order, push an extended entry when it strictly improves the known
      distance of its destination (an absent distance counts as infinite). */
  method Relax(w: Route -> int, current: Entry, edges: seq<Route>, dist: map<City, int>, pq: seq<Entry>)
    returns (dist': map<City, int>, pq': seq<Entry>)
    ensures Relaxed(w, current, edges, dist, pq, dist', pq')
  {
    dist' := dist;
    var pushed: seq<Entry> := [];
    var j := 0;
    while j < |edges|
      invariant 0 <= j <= |edges|
      invariant RelaxState(dist', pushed) == RelaxPrefix(w, current, edges, dist, j)
    {
      var r := edges[j];
      var newDistance := current.dist + w(r);
      if r.destination !in dist' || newDistance < dist'[r.destination] {
        dist' := dist'[r.destination := newDistance];
        pushed := pushed + [Extend(current, w, r)];
      }
      j := j + 1;
    }
    RelaxPrefixRelaxed(w, current, edges, dist, |edges|);
    pq' := pq + pushed;
    assert pq'[..|pq|] == pq && pq'[|pq|..] == pushed;
  }

  // ---------------------------------------------------------------------------
  // The search loop and its invariant
  // ---------------------------------------------------------------------------

  /** The start city and every destination of a route: the cities an entry
      can name. */
  function Cities(g: Graph, start: City): set<City> {
    {start} + set c, i | c in g && 0 <= i < |g[c]| :: g[c][i].destination
  }

  /** A queue entry records a walk from the start, with its weight, to a city
      whose best known distance is no larger, and each of its routes won the
      strict-`<` tie-break. */
  ghost predicate EntryOk(g: Graph, w: Route -> int, start: City, dist: map<City, int>, e: Entry) {
    && IsWalk(g, e.path, start, e.city)
    && e.dist == PathWeight(w, e.path)
    && e.city in dist && dist[e.city] <= e.dist
    && e.city in Cities(g, start)
    && TieBroken(g, w, e.path)
  }

  /** Every queued entry is sound. */
  ghost predicate EntriesOk(g: Graph, w: Route -> int, start: City, dist: map<City, int>, pq: seq<Entry>) {
    forall e :: e in pq ==> EntryOk(g, w, start, dist, e)
  }

  /** Every known distance of a city not yet closed has its entry in the queue. */
  ghost predicate Witnessed(dist: map<City, int>, pq: seq<Entry>, closed: set<City>) {
    forall c :: c in dist && c !in closed ==> exists e :: e in pq && e.city == c && e.dist == dist[c]
  }

  /** Every route out of a closed city is relaxed. */
  ghost predicate ClosedRelaxed(g: Graph, w: Route -> int, dist: map<City, int>, closed: set<City>) {
    forall u, j :: u in closed && u in dist && u in g && 0 <= j < |g[u]| ==>
      g[u][j].destination in dist && dist[g[u][j].destination] <= dist[u] + w(g[u][j])
  }

  /** Closed cities are no farther than anything still queued. */
  ghost predicate ClosedNearer(dist: map<City, int>, pq: seq<Entry>, closed: set<City>) {
    forall u, e :: u in closed && u in dist && e in pq ==> dist[u] <= e.dist
  }

  /** The loop invariant. `closed` (ghost) holds the cities whose routes have
      been relaxed. */
  ghost predicate Inv(g: Graph, w: Route -> int, start: City, end: City,
                      dist: map<City, int>, pq: seq<Entry>, closed: set<City>)
  {
    && start in dist && dist[start] == 0
    && end !in closed
    && closed <= dist.Keys
    && closed <= Cities(g, start)
    // when start == end, the first pop returns
    && (start == end ==> pq == [Entry(start, 0, [])])
    && EntriesOk(g, w, start, dist, pq)
    && Witnessed(dist, pq, closed)
    && ClosedRelaxed(g, w, dist, closed)
    && ClosedNearer(dist, pq, closed)
  }

  /** Every walk from the start either ends at a closed city, no shorter than
      that city's distance, or is no lighter than some queued entry. */
  lemma {:induction false} Frontier(g: Graph, w: Route -> int, start: City, end: City,
                                    dist: map<City, int>, pq: seq<Entry>, closed: set<City>,
                                    p: seq<Route>, v: City)
    requires WellFormed(g) && NonNegative(g, w)
    requires Inv(g, w, start, end, dist, pq, closed)
    ensures IsWalk(g, p, start, v) ==>
              || (v in closed && dist[v] <= PathWeight(w, p))
              || exists e :: e in pq && e.dist <= PathWeight(w, p)
  {
    if !IsWalk(g, p, start, v) {
    } else if |p| == 0 {
      if start !in closed {
        var e :| e in pq && e.city == start && e.dist == dist[start];
      }
    } else {
      var q, r := p[..|p| - 1], p[|p| - 1];
      WalkPrefix(g, p, start, v);
      assert p == q + [r];
      PathWeightAppend(w, q, r);
      EdgeWeightNonNegative(g, w, r);
      Frontier(g, w, start, end, dist, pq, closed, q, r.source);
      if r.source in closed && dist[r.source] <= PathWeight(w, q) {
        var j :| 0 <= j < |g[r.source]| && g[r.source][j] == r;
        assert dist[v] <= dist[r.source] + w(r);
        if v !in closed {
          var e :| e in pq && e.city == v && e.dist == dist[v];
        }
      } else {
        var e :| e in pq && e.dist <= PathWeight(w, q);
      }
    }
  }

  /** Some entry of a non-empty queue has minimum weight. */
  lemma MinimumExists(pq: seq<Entry>) returns (k: int)
    requires |pq| > 0
    ensures 0 <= k < |pq| && forall i :: 0 <= i < |pq| ==> pq[k].dist <= pq[i].dist
  {
    k := 0;
    var n := 1;
    while n < |pq|
      invariant 0 <= k < n <= |pq|
      invariant forall i :: 0 <= i < n ==> pq[k].dist <= pq[i].dist
    {
      if pq[n].dist < pq[k].dist {
        k := n;
      }
      n := n + 1;
    }
  }

  /** The queue without its `k`-th entry (`poll` / `heappop`). */
  function Remove(pq: seq<Entry>, k: int): (rest: seq<Entry>)
    requires 0 <= k < |pq|
    ensures |rest| == |pq| - 1
    ensures forall e :: e in rest ==> e in pq
    ensures forall e :: e in pq && e != pq[k] ==> e in rest
  {
    RemoveSubset(pq, k);
    RemoveKeeps(pq, k);
    pq[..k] + pq[k + 1..]
  }

  lemma RemoveSubset(pq: seq<Entry>, k: int)
    requires 0 <= k < |pq|
    ensures forall e :: e in pq[..k] + pq[k + 1..] ==> e in pq
  {
    assert pq == pq[..k] + [pq[k]] + pq[k + 1..];
  }

  lemma RemoveKeeps(pq: seq<Entry>, k: int)
    requires 0 <= k < |pq|
    ensures forall e :: e in pq && e != pq[k] ==> e in pq[..k] + pq[k + 1..]
  {
    assert pq == pq[..k] + [pq[k]] + pq[k + 1..];
  }

  /** The routes leaving `c` (`getOrDefault(city, emptyList)`). */
  function RoutesFrom(g: Graph, c: City): (routes: seq<Route>)
    ensures WellFormed(g) ==> forall r :: r in routes ==> r.source == c && IsEdge(g, r)
  {
    if c in g then g[c] else []
  }

  /** Skipping a stale entry keeps the invariant. */
  lemma SkipPreserves(g: Graph, w: Route -> int, start: City, end: City,
                      dist: map<City, int>, pq: seq<Entry>, closed: set<City>, k: int)
    requires Inv(g, w, start, end, dist, pq, closed)
    requires 0 <= k < |pq| && pq[k].city != end && pq[k].city in dist && pq[k].dist > dist[pq[k].city]
    ensures Inv(g, w, start, end, dist, Remove(pq, k), closed)
  {
    var rest := Remove(pq, k);
    forall c | c in dist && c !in closed ensures exists e :: e in rest && e.city == c && e.dist == dist[c] {
      var e :| e in pq && e.city == c && e.dist == dist[c];
    }
  }

  /** The entry pushed for a strictly improving route out of a sound entry is
      sound once every route out of its city is relaxed. */
  lemma ExtendOk(g: Graph, w: Route -> int, start: City, dist: map<City, int>, dist': map<City, int>,
                 current: Entry, j: int)
    requires WellFormed(g) && EntryOk(g, w, start, dist, current)
    requires 0 <= j < |RoutesFrom(g, current.city)|
    requires StrictlyImproves(w, current.dist, RoutesFrom(g, current.city), dist, j)
    requires RoutesRelaxed(w, current.dist, RoutesFrom(g, current.city), |RoutesFrom(g, current.city)|, dist')
    ensures EntryOk(g, w, start, dist', Extend(current, w, RoutesFrom(g, current.city)[j]))
  {
    var u := current.city;
    var r := g[u][j];
    assert r in RoutesFrom(g, u);
    WalkAppend(g, current.path, start, r);
    PathWeightAppend(w, current.path, r);
    var e := Extend(current, w, r);
    assert FirstBestEdge(g, w, r);
    forall k | 0 <= k < |e.path|
      ensures FirstBestEdge(g, w, e.path[k])
    {
      if k < |current.path| { assert e.path[k] == current.path[k]; } else { assert e.path[k] == r; }
    }
    assert e.city in Cities(g, start);
  }

  /** Relaxation keeps every queued entry sound. */
  lemma ExpandEntries(g: Graph, w: Route -> int, start: City, dist: map<City, int>, pq: seq<Entry>, k: int,
                      dist': map<City, int>, pq': seq<Entry>)
    requires WellFormed(g) && EntriesOk(g, w, start, dist, pq) && 0 <= k < |pq|
    requires Relaxed(w, pq[k], RoutesFrom(g, pq[k].city), dist, Remove(pq, k), dist', pq')
    ensures EntriesOk(g, w, start, dist', pq')
  {
    var current, rest, edges := pq[k], Remove(pq, k), RoutesFrom(g, pq[k].city);
    assert pq' == rest + pq'[|rest|..];
    forall e | e in pq' ensures EntryOk(g, w, start, dist', e) {
      if e in rest {
        assert EntryOk(g, w, start, dist, e);
      } else {
        PushedFrom(w, current, edges, dist, |edges|, e);
        var j :| 0 <= j < |edges| && e == Extend(current, w, edges[j]) && StrictlyImproves(w, current.dist, edges, dist, j);
        assert current in pq;
        ExtendOk(g, w, start, dist, dist', current, j);
      }
    }
  }

  /** No distance drops below the popped one: each changed distance goes
      through a route of non-negative weight out of the popped city. */
  lemma NewDistancesNotNearer(g: Graph, w: Route -> int, u: City, du: int, dist: map<City, int>, dist': map<City, int>)
    requires NonNegative(g, w)
    requires FromRoutes(w, du, RoutesFrom(g, u), |RoutesFrom(g, u)|, dist, dist')
    ensures forall c :: c in dist' ==> (c in dist && dist'[c] == dist[c]) || du <= dist'[c]
  {
    forall c | c in dist' && !(c in dist && dist'[c] == dist[c]) ensures du <= dist'[c] {
      var j :| 0 <= j < |RoutesFrom(g, u)| && RoutesFrom(g, u)[j].destination == c && dist'[c] == du + w(RoutesFrom(g, u)[j]);
      assert g[u][j] == RoutesFrom(g, u)[j];
    }
  }

  /** No queued entry after relaxation is nearer than the popped one. */
  lemma NewQueueNotNearer(g: Graph, w: Route -> int, pq: seq<Entry>, k: int, dist: map<City, int>,
                          dist': map<City, int>, pq': seq<Entry>)
    requires NonNegative(g, w)
    requires 0 <= k < |pq| && forall i :: 0 <= i < |pq| ==> pq[k].dist <= pq[i].dist
    requires Relaxed(w, pq[k], RoutesFrom(g, pq[k].city), dist, Remove(pq, k), dist', pq')
    ensures forall e :: e in pq' ==> pq[k].dist <= e.dist
  {
    var current, rest, edges := pq[k], Remove(pq, k), RoutesFrom(g, pq[k].city);
    assert pq' == rest + pq'[|rest|..];
    forall e | e in pq' ensures current.dist <= e.dist {
      if e !in rest {
        PushedFrom(w, current, edges, dist, |edges|, e);
        var j :| 0 <= j < |edges| && e == Extend(current, w, edges[j]) && StrictlyImproves(w, current.dist, edges, dist, j);
        assert g[current.city][j] == edges[j];
      }
    }
  }

  /** The cities closed after the pop keep their distances. */
  lemma ClosedKeepDistances(dist: map<City, int>, dist': map<City, int>, pq: seq<Entry>, closed: set<City>, k: int)
    requires closed <= dist.Keys && ClosedNearer(dist, pq, closed)
    requires 0 <= k < |pq| && pq[k].city in dist && dist[pq[k].city] == pq[k].dist
    requires NoFarther(dist, dist')
    requires forall c :: c in dist' ==> (c in dist && dist'[c] == dist[c]) || pq[k].dist <= dist'[c]
    ensures forall c :: c in closed + {pq[k].city} ==> c in dist' && dist'[c] == dist[c]
  {
    assert pq[k] in pq;
  }

  /** Relaxation keeps every unclosed distance witnessed. */
  lemma ExpandWitnessed(g: Graph, w: Route -> int, dist: map<City, int>, pq: seq<Entry>, closed: set<City>, k: int,
                        dist': map<City, int>, pq': seq<Entry>)
    requires Witnessed(dist, pq, closed) && 0 <= k < |pq|
    requires Relaxed(w, pq[k], RoutesFrom(g, pq[k].city), dist, Remove(pq, k), dist', pq')
    ensures Witnessed(dist', pq', closed + {pq[k].city})
  {
    var rest := Remove(pq, k);
    assert pq' == rest + pq'[|rest|..];
    forall c | c in dist' && c !in closed + {pq[k].city}
      ensures exists e :: e in pq' && e.city == c && e.dist == dist'[c]
    {
      if c in dist && dist'[c] == dist[c] {
        var e :| e in pq && e.city == c && e.dist == dist[c];
        assert e in rest;
      } else {
        var e :| e in pq'[|rest|..] && e.city == c && e.dist == dist'[c];
      }
    }
  }

  /** Relaxation leaves every route out of a closed city, the popped one
      included, relaxed. */
  lemma ExpandClosedRelaxed(g: Graph, w: Route -> int, dist: map<City, int>, pq: seq<Entry>, closed: set<City>, k: int,
                            dist': map<City, int>, pq': seq<Entry>)
    requires ClosedRelaxed(g, w, dist, closed) && 0 <= k < |pq|
    requires Relaxed(w, pq[k], RoutesFrom(g, pq[k].city), dist, Remove(pq, k), dist', pq')
    requires forall c :: c in closed + {pq[k].city} ==> c in dist && c in dist' && dist'[c] == dist[c]
    requires dist[pq[k].city] == pq[k].dist
    ensures ClosedRelaxed(g, w, dist', closed + {pq[k].city})
  {
    var u := pq[k].city;
    forall v, j | v in closed + {u} && v in dist' && v in g && 0 <= j < |g[v]|
      ensures g[v][j].destination in dist' && dist'[g[v][j].destination] <= dist'[v] + w(g[v][j])
    {
      if v == u {
        assert g[v][j] == RoutesFrom(g, u)[j];
      } else {
        assert g[v][j].destination in dist;
      }
    }
  }

  /** A popped entry that is not stale carries its city's distance, which is
      not negative. */
  lemma PoppedExact(g: Graph, w: Route -> int, start: City, end: City,
                    dist: map<City, int>, pq: seq<Entry>, closed: set<City>, k: int)
    requires WellFormed(g) && NonNegative(g, w)
    requires Inv(g, w, start, end, dist, pq, closed)
    requires 0 <= k < |pq| && !(pq[k].city in dist && pq[k].dist > dist[pq[k].city])
    ensures pq[k].city in dist && dist[pq[k].city] == pq[k].dist && 0 <= pq[k].dist
  {
    assert pq[k] in pq;
    assert EntryOk(g, w, start, dist, pq[k]);
    WalkWeightNonNegative(g, w, pq[k].path, start, pq[k].city);
  }

  /** Relaxing the routes of the popped minimum keeps the start at distance
      zero, keeps the distances of the cities closed with it, and leaves
      those cities no farther than anything queued. */
  lemma ExpandNearer(g: Graph, w: Route -> int, start: City,
                     dist: map<City, int>, pq: seq<Entry>, closed: set<City>, k: int,
                     dist': map<City, int>, pq': seq<Entry>)
    requires NonNegative(g, w)
    requires start in dist && dist[start] == 0
    requires closed <= dist.Keys && ClosedNearer(dist, pq, closed)
    requires 0 <= k < |pq| && forall i :: 0 <= i < |pq| ==> pq[k].dist <= pq[i].dist
    requires pq[k].city in dist && dist[pq[k].city] == pq[k].dist && 0 <= pq[k].dist
    requires Relaxed(w, pq[k], RoutesFrom(g, pq[k].city), dist, Remove(pq, k), dist', pq')
    ensures ClosedNearer(dist', pq', closed + {pq[k].city})
    ensures forall c :: c in closed + {pq[k].city} ==> c in dist && c in dist' && dist'[c] == dist[c]
    ensures start in dist' && dist'[start] == 0
  {
    var u, du := pq[k].city, pq[k].dist;
    NewDistancesNotNearer(g, w, u, du, dist, dist');
    NewQueueNotNearer(g, w, pq, k, dist, dist', pq');
    ClosedKeepDistances(dist, dist', pq, closed, k);
  }

  /** Relaxing the routes of a popped, non-stale entry leaves every closed
      city relaxed; when the city was closed already, nothing is pushed. */
  lemma ExpandClosed(g: Graph, w: Route -> int, start: City, end: City,
                     dist: map<City, int>, pq: seq<Entry>, closed: set<City>, k: int,
                     dist': map<City, int>, pq': seq<Entry>)
    requires WellFormed(g) && NonNegative(g, w)
    requires Inv(g, w, start, end, dist, pq, closed)
    requires 0 <= k < |pq| && pq[k].city in dist && dist[pq[k].city] == pq[k].dist
    requires Relaxed(w, pq[k], RoutesFrom(g, pq[k].city), dist, Remove(pq, k), dist', pq')
    requires forall c :: c in closed + {pq[k].city} ==> c in dist && c in dist' && dist'[c] == dist[c]
    ensures ClosedRelaxed(g, w, dist', closed + {pq[k].city})
    ensures pq[k].city in closed ==> |pq'| == |pq| - 1
    ensures closed + {pq[k].city} <= dist'.Keys && closed + {pq[k].city} <= Cities(g, start)
  {
    var current := pq[k];
    var u, du := current.city, current.dist;
    var edges := RoutesFrom(g, u);
    assert current in pq;
    ExpandClosedRelaxed(g, w, dist, pq, closed, k, dist', pq');
    if u in closed {
      forall j | 0 <= j < |edges| ensures !StrictlyImproves(w, du, edges, dist, j) {
        assert edges[j] == g[u][j];
      }
      NothingPushed(w, current, edges, dist, |edges|);
    }
  }

  /** Relaxing the routes of a popped, non-stale entry and closing its city
      keeps the invariant; when the city was closed already, nothing is
      pushed. */
  lemma ExpandPreserves(g: Graph, w: Route -> int, start: City, end: City,
                        dist: map<City, int>, pq: seq<Entry>, closed: set<City>, k: int,
                        dist': map<City, int>, pq': seq<Entry>)
    requires WellFormed(g) && NonNegative(g, w)
    requires Inv(g, w, start, end, dist, pq, closed)
    requires 0 <= k < |pq| && forall i :: 0 <= i < |pq| ==> pq[k].dist <= pq[i].dist
    requires pq[k].city != end && !(pq[k].city in dist && pq[k].dist > dist[pq[k].city])
    requires Relaxed(w, pq[k], RoutesFrom(g, pq[k].city), dist, Remove(pq, k), dist', pq')
    ensures Inv(g, w, start, end, dist', pq', closed + {pq[k].city})
    ensures pq[k].city in closed ==> |pq'| == |pq| - 1
  {
    PoppedExact(g, w, start, end, dist, pq, closed, k);
    ExpandEntries(g, w, start, dist, pq, k, dist', pq');
    ExpandWitnessed(g, w, dist, pq, closed, k, dist', pq');
    ExpandNearer(g, w, start, dist, pq, closed, k, dist', pq');
    ExpandClosed(g, w, start, end, dist, pq, closed, k, dist', pq');
    assert pq[k] in pq;
  }

  /** A popped minimum entry for the destination answers the search. */
  lemma FoundOptimal(g: Graph, w: Route -> int, start: City, end: City,
                     dist: map<City, int>, pq: seq<Entry>, closed: set<City>, k: int)
    requires WellFormed(g) && NonNegative(g, w)
    requires Inv(g, w, start, end, dist, pq, closed)
    requires 0 <= k < |pq| && forall i :: 0 <= i < |pq| ==> pq[k].dist <= pq[i].dist
    requires pq[k].city == end
    ensures SearchSpec(g, w, start, end, PathResult(pq[k].path, Finite(pq[k].dist)))
  {
    var current := pq[k];
    assert current in pq;
    assert EntryOk(g, w, start, dist, current);
    forall p | IsWalk(g, p, start, end) ensures current.dist <= PathWeight(w, p) {
      Frontier(g, w, start, end, dist, pq, closed, p, end);
    }
  }

  /** An empty queue means the destination cannot be reached. */
  lemma ExhaustedUnreachable(g: Graph, w: Route -> int, start: City, end: City,
                             dist: map<City, int>, closed: set<City>)
    requires WellFormed(g) && NonNegative(g, w)
    requires Inv(g, w, start, end, dist, [], closed)
    ensures SearchSpec(g, w, start, end, PathResult([], Infinite))
  {
    forall p ensures !IsWalk(g, p, start, end) {
      Frontier(g, w, start, end, dist, [], closed, p, end);
    }
  }

  /** The search starts with only the start city known, at distance 0. */
  lemma InitialInv(g: Graph, w: Route -> int, start: City, end: City)
    ensures Inv(g, w, start, end, map[start := 0], [Entry(start, 0, [])], {})
  {
    var e := Entry(start, 0, []);
    assert e in [e];
  }

  /** Closing a city already closed changes nothing. */
  lemma CloseAgain(closed: set<City>, u: City)
    requires u in closed
    ensures closed + {u} == closed
  {
  }

  /** Closing a city not closed before shrinks the set still open. */
  lemma CloseShrinks(cities: set<City>, closed: set<City>, u: City)
    requires u in cities && u !in closed
    ensures |cities - (closed + {u})| < |cities - closed|
  {
    assert cities - (closed + {u}) == (cities - closed) - {u};
  }

  /** `findOptimalPath` / `dijkstra` / `dijkstra_shortest_path`: the search
      from `start` to `end` under route weight `w`. */
  method ShortestPath(g: Graph, w: Route -> int, start: City, end: City) returns (result: PathResult)
    requires WellFormed(g) && NonNegative(g, w)
    ensures start == end ==> result == PathResult([], Finite(0))
    ensures result.distance.Finite? ==>
              Optimal(g, w, start, end, result.path) && result.distance.n == PathWeight(w, result.path)
    ensures result.distance.Infinite? ==> result.path == [] && Unreachable(g, start, end)
    ensures TieBroken(g, w, result.path)
  {
    var dist := map[start := 0];
    var pq := [Entry(start, 0, [])];
    ghost var closed: set<City> := {};
    ghost var cities := Cities(g, start);
    InitialInv(g, w, start, end);
    while |pq| > 0
      invariant Inv(g, w, start, end, dist, pq, closed)
      decreases |cities - closed|, |pq|
    {
      ghost var m := MinimumExists(pq);
      var k :| 0 <= k < |pq| && forall i :: 0 <= i < |pq| ==> pq[k].dist <= pq[i].dist;
      var current := pq[k];
      if current.city == end {
        FoundOptimal(g, w, start, end, dist, pq, closed, k);
        return PathResult(current.path, Finite(current.dist));
      }
      var known := if current.city in dist then Finite(dist[current.city]) else Infinite;
      if known.Finite? && current.dist > known.n {
        SkipPreserves(g, w, start, end, dist, pq, closed, k);
        pq := Remove(pq, k);
        continue;
      }
      ghost var before, distBefore := pq, dist;
      dist, pq := Relax(w, current, RoutesFrom(g, current.city), dist, Remove(pq, k));
      ExpandPreserves(g, w, start, end, distBefore, before, closed, k, dist, pq);
      if current.city !in closed {
        CloseShrinks(cities, closed, current.city);
      } else {
        CloseAgain(closed, current.city);
      }
      closed := closed + {current.city};
    }
    ExhaustedUnreachable(g, w, start, end, dist, closed);
    return PathResult([], Infinite);
  }
}
