/**
 The per-request result: the schedule echoed from the path the search
 returns, the total time and total cost of that path, the value reported for
 the request's criteria, and the trip summary with its sentinel strings.

 `processRequest` (modular Java), the body of `findOptimalRoute`
 (monolithic Java) and the loop body of `optimize_travel` (Python) all
 compute the same record; where they differ (the minute figure handed to
 the summary service) the flavour selects.
 */
module Aggregate {
  import opened Results
  import opened Times
  import opened Routes
  import opened Search

  /** A request as read from the input. */
  datatype Request = Request(id: string, source: City, destination: City, criteria: string)

  /** One line of the reported schedule: the fields of a route the output
      echoes (the parsed minutes and the duration are not echoed). */
  datatype ScheduleEntry = ScheduleEntry(
    source: City,
    destination: City,
    mode: string,
    departureTime: string,
    arrivalTime: string,
    cost: int)

  /** The result record of one request. */
  datatype RequestResult = RequestResult(
    schedule: seq<ScheduleEntry>,
    criteria: string,
    value: int,
    travelSummary: string)

  /** The summary reported when none is generated. */
  const NotGenerated: string := "Not generated"

  /** The summary reported for an empty path when summaries are requested. */
  const NoRoutes: string := "No routes available"

  /** The summary service: given the API key, the number of segments and a
      minute figure, it answers some text. Everything the service does with
      them is its own and differs between the versions: the prompt wording,
      the HTTP exchange, Python's cut of the reply to 200 characters, and the
      fall-backs to "Not generated". None of it is modelled. */
  type SummaryService = (string, nat, int) -> string

  // ---------------------------------------------------------------------------
  // Schedule echo
  // ---------------------------------------------------------------------------

  /** The schedule line of one route. */
  function Echo(r: Route): ScheduleEntry {
    ScheduleEntry(r.source, r.destination, r.mode, r.departureTime, r.arrivalTime, r.cost)
  }

  /** The schedule of a path: one line per route, in path order. */
  function Schedule(p: seq<Route>): (s: seq<ScheduleEntry>)
    ensures |s| == |p|
    ensures forall i :: 0 <= i < |p| ==> s[i] == Echo(p[i])
  {
    if |p| == 0 then [] else [Echo(p[0])] + Schedule(p[1..])
  }

  /** The segment a schedule line describes. */
  function EntrySegment(e: ScheduleEntry): Segment {
    Segment(e.source, e.destination, e.mode, e.departureTime, e.arrivalTime, e.cost)
  }

  /** A schedule line reproduces exactly the input segment its route was
      built from. */
  lemma EchoRoundTrip(f: Flavor, s: Segment)
    requires MakeRoute(f, s).Ok?
    ensures EntrySegment(Echo(MakeRoute(f, s).value)) == s
  {
  }

  // ---------------------------------------------------------------------------
  // Totals
  // ---------------------------------------------------------------------------

  /** Weighs a route by its cost. */
  function CostOf(r: Route): int { r.cost }

  /** Weighs a route by its duration. */
  function DurationOf(r: Route): int { r.duration }

  /** `calculateTotalCost` and the cost accumulation of the other two
      versions: the costs of the path, summed front to back. */
  function TotalCost(p: seq<Route>): int {
    if |p| == 0 then 0 else p[0].cost + TotalCost(p[1..])
  }

  /** Total time as the loops accumulate it: each route's duration, plus the
      wait from its arrival to the next route's departure. */
  function TotalTime(p: seq<Route>): int {
    if |p| == 0 then 0
    else if |p| == 1 then p[0].duration
    else p[0].duration + WaitingTime(p[0].arrival, p[1].departure) + TotalTime(p[1..])
  }

  /** The waits at the connections of a path, accumulated back to front. */
  function Waits(p: seq<Route>): int {
    if |p| < 2 then 0 else Waits(p[..|p| - 1]) + WaitingTime(p[|p| - 2].arrival, p[|p| - 1].departure)
  }

  /** `PathWeight` (summed back to front) also peels off the first route. */
  lemma {:induction false} PathWeightPrepend(w: Route -> int, r: Route, p: seq<Route>)
    ensures PathWeight(w, [r] + p) == w(r) + PathWeight(w, p)
  {
    if |p| > 0 {
      var q := [r] + p;
      assert q[..|q| - 1] == [r] + p[..|p| - 1];
      PathWeightPrepend(w, r, p[..|p| - 1]);
    }
  }

  /** The waits of a path also peel off its first connection. */
  lemma {:induction false} WaitsPrepend(p: seq<Route>)
    requires |p| >= 2
    ensures Waits(p) == WaitingTime(p[0].arrival, p[1].departure) + Waits(p[1..])
  {
    if |p| > 2 {
      var q := p[..|p| - 1];
      WaitsPrepend(q);
      assert q[1..] == p[1..][..|p[1..]| - 1];
    }
  }

  /** Total cost is the path's weight under the Cost criteria. */
  lemma {:induction false} TotalCostIsCostWeight(p: seq<Route>)
    ensures TotalCost(p) == PathWeight(CostOf, p)
  {
    if |p| > 0 {
      TotalCostIsCostWeight(p[1..]);
      PathWeightPrepend(CostOf, p[0], p[1..]);
      assert p == [p[0]] + p[1..];
    }
  }

  /** Total time is the sum of the durations (the path's weight under the
      Time criteria) plus the waits at every connection. */
  lemma {:induction false} TotalTimeSplits(p: seq<Route>)
    ensures TotalTime(p) == PathWeight(DurationOf, p) + Waits(p)
  {
    if |p| > 0 {
      TotalTimeSplits(p[1..]);
      PathWeightPrepend(DurationOf, p[0], p[1..]);
      assert p == [p[0]] + p[1..];
      if |p| >= 2 {
        WaitsPrepend(p);
      }
    }
  }

  /** With every route time a minute of the day, each wait lies in [0, 1440),
      so total time exceeds the summed durations by less than a day per
      connection. */
  lemma {:induction false} WaitsBounds(p: seq<Route>)
    requires forall i :: 0 <= i < |p| ==> IsDayMinute(p[i].departure) && IsDayMinute(p[i].arrival)
    ensures 0 <= Waits(p)
    ensures |p| >= 1 ==> Waits(p) <= (MinutesPerDay - 1) * (|p| - 1)
  {
    if |p| >= 2 {
      WaitsBounds(p[..|p| - 1]);
      var _ := WaitingTime(p[|p| - 2].arrival, p[|p| - 1].departure);
    }
  }

  /** `calculateTotalTime`: the loop of the modular Java version (the same
      loop runs inline in `findOptimalRoute` and in `optimize_travel`). */
  method CalculateTotalTime(p: seq<Route>) returns (total: int)
    ensures total == PathWeight(DurationOf, p) + Waits(p)
  {
    total := 0;
    var i := 0;
    while i < |p|
      invariant 0 <= i <= |p|
      invariant total + TotalTime(p[i..]) == TotalTime(p)
    {
      total := total + p[i].duration;
      if i < |p| - 1 {
        total := total + WaitingTime(p[i].arrival, p[i + 1].departure);
      }
      assert i + 1 < |p| ==> p[i..][1..] == p[i + 1..];
      i := i + 1;
    }
    TotalTimeSplits(p);
  }

  // ---------------------------------------------------------------------------
  // Reported value and summary
  // ---------------------------------------------------------------------------

  /** The value reported for a path found under `criteria`: 0 for the empty
      path; otherwise total time for "Time", total cost for "Cost" and the
      number of segments for anything else. */
  function Value(criteria: string, p: seq<Route>): int {
    if |p| == 0 then 0
    else if criteria == "Time" then TotalTime(p)
    else if criteria == "Cost" then TotalCost(p)
    else |p|
  }

  /** The search weight of a request's criteria. */
  function SearchWeight(f: Flavor, criteria: string): Route -> int {
    r => Weight(f, criteria, r)
  }

  /** A path's hop count is its weight when every route weighs 1. */
  lemma {:induction false} HopsWeight(w: Route -> int, p: seq<Route>)
    requires forall r :: w(r) == 1
    ensures PathWeight(w, p) == |p|
  {
    if |p| > 0 {
      HopsWeight(w, p[..|p| - 1]);
    }
  }

  /** How the reported value relates to the weight the search minimised:
      they are equal for Cost and Hops, and in Python for every criteria
      other than Time; for Time the value adds the waits the search ignored;
      for an unrecognised criteria Java searches by duration but reports the
      hop count. */
  lemma ValueVersusSearch(f: Flavor, criteria: string, p: seq<Route>)
    ensures criteria == "Time" ==> Value(criteria, p) == PathWeight(SearchWeight(f, criteria), p) + Waits(p)
    ensures criteria == "Cost" || criteria == "Hops" || (f == Python && criteria != "Time") ==>
              Value(criteria, p) == PathWeight(SearchWeight(f, criteria), p)
    ensures f == Java && criteria !in {"Time", "Cost", "Hops"} ==>
              Value(criteria, p) == |p| && PathWeight(SearchWeight(f, criteria), p) == PathWeight(DurationOf, p)
  {
    var w := SearchWeight(f, criteria);
    if criteria == "Time" {
      TotalTimeSplits(p);
      SameWeightSamePathWeight(w, DurationOf, p);
    } else if criteria == "Cost" {
      TotalCostIsCostWeight(p);
      SameWeightSamePathWeight(w, CostOf, p);
    } else if criteria == "Hops" || f == Python {
      HopsWeight(w, p);
    } else {
      SameWeightSamePathWeight(w, DurationOf, p);
    }
  }

  /** Weight functions that agree on every route agree on every path. */
  lemma {:induction false} SameWeightSamePathWeight(w1: Route -> int, w2: Route -> int, p: seq<Route>)
    requires forall r :: w1(r) == w2(r)
    ensures PathWeight(w1, p) == PathWeight(w2, p)
  {
    if |p| > 0 {
      SameWeightSamePathWeight(w1, w2, p[..|p| - 1]);
    }
  }

  /** Java searches an unrecognised criteria by duration yet reports hops: a
      single two-hour route under "Fastest" is searched at weight 120 and
      reported with value 1. */
  lemma UnrecognisedCriteriaJava()
    ensures var r := Route("A", "B", "Bus", "08:00", "10:00", 150, 480, 600, 120);
            && PathWeight(SearchWeight(Java, "Fastest"), [r]) == 120
            && Value("Fastest", [r]) == 1
            && PathWeight(SearchWeight(Python, "Fastest"), [r]) == 1
  {
    var r := Route("A", "B", "Bus", "08:00", "10:00", 150, 480, 600, 120);
    assert [r][..0] == [];
  }

  /** The minute figure of the summary prompt: the total time in Java, the
      reported value in Python. */
  function PromptMinutes(f: Flavor, criteria: string, p: seq<Route>): int {
    match f
    case Java => TotalTime(p)
    case Python => Value(criteria, p)
  }

  /** The trip summary. Not requested gives "Not generated"; requested for an
      empty path gives "No routes available"; otherwise a missing or empty
      API key gives "Not generated", and only past these guards is the
      service asked. */
  function Summary(f: Flavor, genSummary: bool, criteria: string, p: seq<Route>,
                   apiKey: Option<string>, service: SummaryService): (s: string)
    ensures !genSummary ==> s == NotGenerated
    ensures genSummary && |p| == 0 ==> s == NoRoutes
    ensures genSummary && |p| > 0 && (apiKey.None? || apiKey.value == "") ==> s == NotGenerated
    ensures genSummary && |p| > 0 && apiKey.Some? && apiKey.value != "" ==>
              s == service(apiKey.value, |p|, PromptMinutes(f, criteria, p))
  {
    if !genSummary then NotGenerated
    else if |p| == 0 then NoRoutes
    else if apiKey.None? || apiKey.value == "" then NotGenerated
    else service(apiKey.value, |p|, PromptMinutes(f, criteria, p))
  }

  /** Before the service is reached (summaries requested, a non-empty path,
      a non-empty key) the summary is a sentinel that neither the key nor the
      service affects. */
  lemma SummaryGuards(f: Flavor, genSummary: bool, criteria: string, p: seq<Route>,
                      apiKey1: Option<string>, service1: SummaryService,
                      apiKey2: Option<string>, service2: SummaryService)
    requires !(genSummary && |p| > 0 && apiKey1.Some? && apiKey1.value != "")
    requires !(genSummary && |p| > 0 && apiKey2.Some? && apiKey2.value != "")
    ensures var s := Summary(f, genSummary, criteria, p, apiKey1, service1);
            && (s == NotGenerated || s == NoRoutes)
            && s == Summary(f, genSummary, criteria, p, apiKey2, service2)
  {
  }

  /** For the Time criteria the two flavours hand the service the same
      segment count and minute figure; under any criteria the Java figure is
      the path's reported Time value. */
  lemma PromptMinutesAgreeOnTime(criteria: string, p: seq<Route>)
    ensures PromptMinutes(Java, "Time", p) == PromptMinutes(Python, "Time", p)
    ensures |p| > 0 ==> PromptMinutes(Java, criteria, p) == Value("Time", p)
  {
  }

  // ---------------------------------------------------------------------------
  // The result record
  // ---------------------------------------------------------------------------

  /** The result of a request whose search returned `p`. */
  function Respond(f: Flavor, criteria: string, p: seq<Route>, genSummary: bool,
                   apiKey: Option<string>, service: SummaryService): (r: RequestResult)
    ensures r.criteria == criteria
    ensures |r.schedule| == |p|
    ensures forall i :: 0 <= i < |p| ==>
              EntrySegment(r.schedule[i])
              == Segment(p[i].source, p[i].destination, p[i].mode, p[i].departureTime, p[i].arrivalTime, p[i].cost)
    ensures |p| == 0 ==> r.value == 0 && r.travelSummary == (if genSummary then NoRoutes else NotGenerated)
  {
    RequestResult(Schedule(p), criteria, Value(criteria, p), Summary(f, genSummary, criteria, p, apiKey, service))
  }

  /** An empty path gives the same record whatever the flavour, the key or
      the service, and it agrees with what the non-empty formula
      would give (every total of the empty path is 0). */
  lemma EmptyResultUniform(f1: Flavor, f2: Flavor, c: string, apiKey1: Option<string>, apiKey2: Option<string>,
                           service1: SummaryService, service2: SummaryService, genSummary: bool)
    ensures Respond(f1, c, [], genSummary, apiKey1, service1) == Respond(f2, c, [], genSummary, apiKey2, service2)
    ensures TotalTime([]) == 0 && TotalCost([]) == 0
  {
  }

  /** What the search promises about the path a request is answered with:
      empty when source and destination coincide or no walk joins them,
      otherwise a minimum-weight walk under the request's criteria each of
      whose routes is the first strictly lightest one its origin lists. */
  ghost predicate Answers(f: Flavor, g: Graph, req: Request, path: seq<Route>) {
    var w := SearchWeight(f, req.criteria);
    && (req.source == req.destination ==> path == [])
    && (path == [] ==> req.source == req.destination || Unreachable(g, req.source, req.destination))
    && (path != [] ==> Optimal(g, w, req.source, req.destination, path))
    && TieBroken(g, w, path)
  }

  /** `processRequest` / `findOptimalRoute` / the loop body of
      `optimize_travel`: search the graph under the request's criteria and
      report the result. The path the result was made from is returned too. */
  method ProcessRequest(f: Flavor, g: Graph, req: Request, genSummary: bool,
                        apiKey: Option<string>, service: SummaryService)
    returns (path: seq<Route>, result: RequestResult)
    requires WellFormed(g) && NonNegative(g, SearchWeight(f, req.criteria))
    ensures Answers(f, g, req, path)
    ensures result == Respond(f, req.criteria, path, genSummary, apiKey, service)
  {
    var found := ShortestPath(g, SearchWeight(f, req.criteria), req.source, req.destination);
    path := found.path;
    if found.distance.Finite? && path == [] {
      assert IsWalk(g, path, req.source, req.destination);
    }
    if path == [] {
      result := RequestResult([], req.criteria, 0, if genSummary then NoRoutes else NotGenerated);
    } else {
      var totalTime := CalculateTotalTime(path);
      TotalTimeSplits(path);
      var totalCost := TotalCost(path);
      var value := if req.criteria == "Time" then totalTime else if req.criteria == "Cost" then totalCost else |path|;
      result := RequestResult(Schedule(path), req.criteria, value,
                              Summary(f, genSummary, req.criteria, path, apiKey, service));
    }
  }

  /** Any two answers to a request are equally heavy under its criteria, and
      both are empty or both are not. */
  lemma AnswersAgree(f: Flavor, g: Graph, req: Request, p1: seq<Route>, p2: seq<Route>)
    requires Answers(f, g, req, p1) && Answers(f, g, req, p2)
    ensures p1 == [] <==> p2 == []
    ensures PathWeight(SearchWeight(f, req.criteria), p1) == PathWeight(SearchWeight(f, req.criteria), p2)
  {
  }

  /** So the reported value does not depend on which minimum-weight entry the
      queue hands out, except for Time (whose value adds waits the search
      ignores) and, in Java, for an unrecognised criteria (reported as hops). */
  lemma ValueDetermined(f: Flavor, g: Graph, req: Request, p1: seq<Route>, p2: seq<Route>)
    requires Answers(f, g, req, p1) && Answers(f, g, req, p2)
    requires req.criteria == "Cost" || req.criteria == "Hops" || (f == Python && req.criteria != "Time")
    ensures Value(req.criteria, p1) == Value(req.criteria, p2)
  {
    AnswersAgree(f, g, req, p1, p2);
    ValueVersusSearch(f, req.criteria, p1);
    ValueVersusSearch(f, req.criteria, p2);
  }
}
