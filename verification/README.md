# Travel optimizer core, modelled in Dafny

The travel optimizer reads two lists. One holds scheduled transit segments:
origin, destination, mode, departure and arrival times as "HH:MM" text, and
a cost. The other holds requests: an id, a source city, a destination city
and a criteria string. For every request it finds a minimum-weight path. The
weight is the segment duration for "Time", the cost for "Cost", and 1 for
"Hops". It then reports a result record under the request id:

- the schedule of the path;
- the criteria;
- a value (total time with connection waits, total cost, or number of segments);
- a trip summary string.

The repository holds three implementations of this engine:

- the modular Java program (`Main`, `TravelOptimizerService`, `TimeUtil`);
- the monolithic `TravelOptimizer.java`;
- the Python script `main.py`.

They share the search, a Dijkstra whose queue entries carry whole paths,
with these rules:

- the search stops when the destination is popped;
- a stale entry is skipped;
- a known distance is replaced only when strictly smaller.

The versions diverge in five places, and the model selects each by a
`Flavor` (`Java` or `Python`):

- the time parser;
- the duration of a segment that departs and arrives at the same time;
- the weight of an unrecognised criteria;
- the order in which a city's segments are visited;
- the minute figure handed to the summary service.

A `Version` also selects whether the graph is built once per batch or once
per request.

Modules:

- `Results`: `Option` and `Result`. `Result` models an exception that
  propagates out of a call.
- `Times`: the time functions.
  - `TimeUtil` and its copies in `TravelOptimizer`.
  - `time_to_minutes`, `minutes_to_time` and `calculate_waiting_time`.
  - Both duration rules.
- `Routes`: segments and routes.
  - The Java graph (origin to segments, in input order).
  - The Python graph (origin to destination to segments, both in
    insertion order), flattened into the order its search visits them.
  - Walks over a graph.
- `Search`: the search as a method.
  - `ShortestPath` contains the relaxation loop `Relax`.
  - It is proved to return a minimum-weight walk, or to report that none
    exists.
  - It is also proved to return a path each of whose segments won the
    strict-`<` tie-break among the segments its origin lists earlier.
  - The queue's choice among equal minimum entries is left open, and every
    property holds for every choice.
- `Aggregate`: the per-request record.
  - Total time and total cost.
  - The reported value.
  - The summary guards.
  - `ProcessRequest`.
- `Batch`: `OptimizeTravel`.
  - It loops over the requests.
  - It builds the graph once or per request.
  - It stores results in an insertion-ordered map, where an id seen again
    keeps its position and takes the later result.
- `Scenarios`: the seven scenarios of the Java test class. Each is stated
  for both flavours, as the unique answer the search contract allows.

The versions differ in these places; the model follows each version's code:

- The Java parser accepts out-of-range times such as "25:00"
  (`Times.JavaTimeAcceptsOutOfRange`).
- The Python version gives a same-time segment a full day rather than 0
  minutes (`Times.PyDurationVersusJava`).
- The Python version weighs an unrecognised criteria as a hop rather than
  by duration (`Search.WeightFlavours`).
- The Python version asks the summary service about the reported value
  rather than the total time (`Aggregate.PromptMinutes`).
- The monolithic Java and Python versions build the graph per request, so
  a malformed time aborts the batch only when there is at least one request
  (`Batch.OptimizeTravel`).

## Model

| member | source | states |
|---|---|---|
| Times.ParseIntDigits | Nice_Java/src/main/java/com/nice/travel/util/TimeUtil.java:5-8 | A field of decimal digits within `int` range parses to its value, leading zeros included. |
| Times.JavaTimeToMinutes | Nice_Java/src/main/java/com/nice/travel/util/TimeUtil.java:5-8 | A time is accepted exactly when it has a colon and `Integer.parseInt` accepts both the text before the first colon and the next field after it; so a missing colon, or an empty or non-numeric field, is rejected. Every rejection reports the offending text. |
| Times.JavaTimeRejectsLetters | Nice_Java/src/main/java/com/nice/travel/util/TimeUtil.java:6-7 | "ab:cd" is rejected, because `Integer.parseInt` throws on a non-numeric field. |
| Times.JavaTimeOfFields | Nice_Java/src/main/java/com/nice/travel/util/TimeUtil.java:5-8 | Two numeric fields around the first colon give hours * 60 + minutes. Anything after a second colon is ignored, and no range is checked. |
| Times.JavaTimeAcceptsOutOfRange | Nice_Java/src/main/java/com/nice/travel/util/TimeUtil.java:5-8 | "25:00" is accepted as 1500 minutes. |
| Times.PyTimeToMinutes | main.py:12-14 | A time without a colon is rejected. Every accepted time is a minute of the day, and every rejection reports the offending text. |
| Times.PyTimeOfFields | main.py:12-14 | "h:m" is accepted exactly when h and m each have one or two ASCII digits, with h <= 23 and m <= 59, and its value is then h * 60 + m. |
| Times.PyTimeRejectsHour24 | main.py:12-14 | "24:00" is rejected, whereas the Java parser accepts out-of-range hours. |
| Times.PyTimeRejectsMinute60 | main.py:12-14 | "1:60" is rejected. |
| Times.PyTimeAgreesWithJava | main.py:12-14 | Every time the Python parser accepts, the Java parser accepts with the same value. |
| Times.MinutesToTimeRoundTrip | main.py:16-19 | Formatting a minute of the day gives five characters that both parsers read back as that minute. |
| Times.Duration | Nice_Java/src/main/java/com/nice/travel/util/TimeUtil.java:10-14 | For in-day times, the duration is a minute of the day equal to (arrival - departure) mod 1440. |
| Times.WaitingTime | Nice_Java/src/main/java/com/nice/travel/util/TimeUtil.java:16-20 | For in-day times, the wait is (departure - arrival) mod 1440, and it is 0 when the two times coincide. |
| Times.PyDuration | main.py:126-128 | For in-day times, the Python duration lies in [1, 1440] and equals ((arrival - departure - 1) mod 1440) + 1. |
| Times.WaitingTimeIsDuration | main.py:21-27 | The waiting time and the Java duration are the same wrapped difference. |
| Times.PyDurationVersusJava | main.py:126-128 | A same-time segment lasts 0 minutes in Java and 1440 in Python. Otherwise the two rules agree. |
| Times.DurationThereAndBack | Nice_Java/src/main/java/com/nice/travel/TravelOptimizer.java:179-183 | Going x to y and back takes exactly one day when x != y, and 0 when x == y. |
| Times.DurationAcrossMidnight | Nice_Java/src/main/java/com/nice/travel/util/TimeUtil.java:10-14 | A segment arriving before it departs lasts 1440 - departure + arrival minutes. |
| Times.MidnightExample | Nice_Java/src/main/java/com/nice/travel/util/TimeUtil.java:10-14 | 23:00 to 01:00 lasts 120 minutes. |
| Routes.MakeRoute | Nice_Java/src/main/java/com/nice/travel/Main.java:64-74 | A segment builds exactly when both of its times parse. The route keeps every input field and carries the parsed minutes and the flavour's duration. A failure names the first time that does not parse, in the flavour's order: departure first in Java, arrival first in Python. |
| Routes.RouteDurationBounds | main.py:126-128 | Python durations lie in [1, 1440]. Java durations of in-day times lie in [0, 1440). Equal time strings last 0 minutes in Java and a day in Python. |
| Routes.BuildRoutes | Nice_Java/src/main/java/com/nice/travel/TravelOptimizer.java:113-131 | All segments build in order, position by position. Otherwise the batch fails with the error of the first segment that does not build. |
| Routes.Index | Nice_Java/src/main/java/com/nice/travel/Main.java:61-80 | The keys of the Java graph are exactly the origins, and each origin lists its outgoing routes in input order. |
| Routes.IndexWellFormed | Nice_Java/src/main/java/com/nice/travel/Main.java:76 | Every listed route is listed under its own origin, and no key has an empty list. |
| Routes.OutgoingCount | Nice_Java/src/main/java/com/nice/travel/Main.java:76 | Under its origin a route appears exactly as often as in the input, and under any other key it does not appear. |
| Routes.BuildGraph | Nice_Java/src/main/java/com/nice/travel/Main.java:61-80 | The Java graph builds exactly when every segment builds; otherwise it fails with the first failing segment's error. Its keys are exactly the segments' origins, and each origin lists its built routes in input order. |
| Routes.BuildGraphPlacement | Nice_Java/src/main/java/com/nice/travel/Main.java:73-76 | Every segment's route sits under its origin as often as it was given, with the Java duration. |
| Routes.PyIndex | main.py:115-138 | The keys of the Python graph are exactly the origins. |
| Routes.AddToBucketsOf | main.py:121-130 | Appending a route to an origin's destination dict keeps the dict equal to its routes grouped by destination, in order of first appearance. |
| Routes.PyIndexBuckets | main.py:115-138 | Each origin's dict holds its routes grouped by destination, destinations in first-seen order. |
| Routes.PyAdjacencyOrder | main.py:87-88 | The Python search visits an origin's routes grouped by neighbour, with neighbours in first-seen order and each group in input order. |
| Routes.GroupByNeighbourMembers | main.py:87-88 | Grouping by neighbour neither drops nor adds a route. |
| Routes.GroupByNeighbourKeepsOrder | main.py:87-88 | The routes to any one destination come in the same order in the Python graph as in the input. |
| Routes.PyBuildGraph | main.py:115-138 | The Python graph builds exactly when every segment builds under the Python rules; otherwise it fails with the first failing segment's error. Its keys are exactly the segments' origins, and each origin holds its built routes grouped by destination, destinations in first-seen order, input order within a group. |
| Routes.Adjacency | main.py:115-138 | Either flavour's graph builds exactly when every segment builds under that flavour. |
| Routes.WalkAppend | Nice_Java/src/main/java/com/nice/travel/service/TravelOptimizerService.java:32-41 | Extending a walk by a route leaving its end gives a walk. |
| Routes.WalkPrefix | Nice_Java/src/main/java/com/nice/travel/service/TravelOptimizerService.java:32-41 | A non-empty walk minus its last route is a walk to that route's origin. |
| Routes.SameEdgesSameWalks | main.py:87-101 | Graphs with the same edges, in any order, have the same walks. |
| Routes.PyAdjacencySameEdges | main.py:115-138 | The Python and the Java graph of one route list have the same edges. |
| Routes.PyAdjacencySameWalks | main.py:87-88 | The Python and the Java graph of one route list have the same walks, whatever order they list their routes in. |
| Routes.IndexEdges | Nice_Java/src/main/java/com/nice/travel/Main.java:61-80 | A route is an edge of the Java graph exactly when it is among the built routes. |
| Routes.AdjacencyEdges | Nice_Java/src/main/java/com/nice/travel/TravelOptimizer.java:113-131 | In both flavours, every route is listed under its own origin, and the edges are exactly the built routes. |
| Search.WeightFlavours | Nice_Java/src/main/java/com/nice/travel/service/TravelOptimizerService.java:48-55 | The flavours weigh "Time", "Cost" and "Hops" alike. An unrecognised criteria is weighed by duration in Java and by 1 in Python. |
| Search.PathWeightAppend | Nice_Java/src/main/java/com/nice/travel/service/TravelOptimizerService.java:34 | A path's weight grows by exactly the weight of an appended route. |
| Search.WalkWeightNonNegative | Nice_Java/src/main/java/com/nice/travel/service/TravelOptimizerService.java:32-41 | With non-negative edge weights every walk weighs at least 0. |
| Search.PushedFrom | main.py:98-101 | Every pushed entry extends the popped path by a route that strictly improves on the earlier known distance. |
| Search.PushedIf | main.py:98-101 | Every strictly improving route is pushed. |
| Search.NothingPushed | main.py:98-101 | When no route strictly improves, nothing is pushed. |
| Search.RelaxRouteStep | Nice_Java/src/main/java/com/nice/travel/service/TravelOptimizerService.java:35-40 | One relaxation lowers at most the route's destination, to the route's distance, and only appends to the queue. |
| Search.PrefixBeatsIffImproves | Nice_Java/src/main/java/com/nice/travel/service/TravelOptimizerService.java:36 | A route is pushed exactly when it beats, by strict `<`, both the distance known before and every earlier route to the same city. |
| Search.RelaxPrefixRelaxed | Nice_Java/src/main/java/com/nice/travel/TravelOptimizer.java:155-164 | Relaxing the first n routes in order relaxes each of them. Every changed distance comes through one of them and is witnessed by a queued entry, and the pushes are exactly the strictly improving routes. |
| Search.Relax | Nice_Java/src/main/java/com/nice/travel/service/TravelOptimizerService.java:32-41 | The loop over a popped city's routes does what relaxing them in order does, and it only appends to the queue. |
| Search.Frontier | Nice_Java/src/main/java/com/nice/travel/TravelOptimizer.java:141-166 | Every walk from the start either ends at a closed city no lighter than that city's distance, or is no lighter than some queued entry. |
| Search.MinimumExists | Nice_Java/src/main/java/com/nice/travel/service/TravelOptimizerService.java:22 | A non-empty queue has an entry of minimum weight. |
| Search.Remove | main.py:79 | Popping removes exactly one entry, and every other entry stays queued. |
| Search.SkipPreserves | Nice_Java/src/main/java/com/nice/travel/service/TravelOptimizerService.java:28-30 | Skipping a stale entry keeps the search invariant. |
| Search.ExpandPreserves | Nice_Java/src/main/java/com/nice/travel/service/TravelOptimizerService.java:28-41 | Relaxing the routes of a popped non-stale minimum and closing its city keeps the search invariant. Popping an already closed city pushes nothing. |
| Search.FoundOptimal | Nice_Java/src/main/java/com/nice/travel/service/TravelOptimizerService.java:24-26 | A popped minimum entry for the destination is a minimum-weight walk each of whose routes won the strict-`<` tie-break. |
| Search.ExhaustedUnreachable | Nice_Java/src/main/java/com/nice/travel/service/TravelOptimizerService.java:45 | An exhausted queue means no walk reaches the destination. |
| Search.ShortestPath | Nice_Java/src/main/java/com/nice/travel/service/TravelOptimizerService.java:12-46 | The search returns the empty path at weight 0 when start equals end. Otherwise it returns a minimum-weight walk with its weight, or "infinite" with the empty path exactly when no walk exists. Each route of a returned path is strictly lighter than every route its origin lists earlier to the same city. |
| Aggregate.Schedule | Nice_Java/src/main/java/com/nice/travel/Main.java:95-105 | The schedule has one line per route of the path, in path order. |
| Aggregate.EchoRoundTrip | main.py:156-163 | A schedule line reproduces exactly the input segment its route was built from. |
| Aggregate.TotalCostIsCostWeight | Nice_Java/src/main/java/com/nice/travel/service/TravelOptimizerService.java:89-91 | The total cost is the path's weight under the "Cost" criteria. |
| Aggregate.TotalTimeSplits | Nice_Java/src/main/java/com/nice/travel/service/TravelOptimizerService.java:75-87 | The total time is the summed durations (the "Time" search weight) plus the waits at every connection. |
| Aggregate.WaitsBounds | main.py:168-171 | With in-day times, the waits are non-negative and below one day per connection. |
| Aggregate.CalculateTotalTime | Nice_Java/src/main/java/com/nice/travel/service/TravelOptimizerService.java:75-87 | The loop returns the summed durations plus every connection's wait. |
| Aggregate.HopsWeight | Nice_Java/src/main/java/com/nice/travel/service/TravelOptimizerService.java:53 | Under a weight of 1 per route, a path weighs its number of segments. |
| Aggregate.ValueVersusSearch | Nice_Java/src/main/java/com/nice/travel/Main.java:107-111 | The reported value equals the searched weight for "Cost", for "Hops", and in Python for everything but "Time". For "Time" it adds the waits the search ignored. For an unrecognised criteria, Java searches by duration but reports the hop count. |
| Aggregate.UnrecognisedCriteriaJava | Nice_Java/src/main/java/com/nice/travel/TravelOptimizer.java:102-104 | A single two-hour route under "Fastest" is searched at weight 120 and reported with value 1 in Java. |
| Aggregate.Summary | Nice_Java/src/main/java/com/nice/travel/service/TravelOptimizerService.java:57-73 | The summary is "Not generated" when not requested, "No routes available" for an empty path, and "Not generated" without a non-empty key. Only past these guards is the service asked. |
| Aggregate.SummaryGuards | Nice_Java/src/main/java/com/nice/travel/api/HuggingFaceClient.java:16-18 | Before the service is reached, the summary is a sentinel that neither the key nor the service affects. |
| Aggregate.PromptMinutesAgreeOnTime | main.py:38-40 | For "Time", both flavours hand the service the same minute figure; under any criteria the Java figure is the path's total time. |
| Aggregate.Respond | Nice_Java/src/main/java/com/nice/travel/Main.java:82-121 | The record echoes the criteria and the path's segments in order. For an empty path it holds value 0 and the sentinel matching whether summaries were requested. |
| Aggregate.EmptyResultUniform | main.py:143-149 | An empty path gives the same record whatever the flavour, key or service. |
| Aggregate.ProcessRequest | Nice_Java/src/main/java/com/nice/travel/TravelOptimizer.java:59-111 | The request is answered by a minimum-weight walk, or by the empty path when source equals destination or nothing reaches it, and the record is built from that path. |
| Aggregate.AnswersAgree | Nice_Java/src/main/java/com/nice/travel/service/TravelOptimizerService.java:12-46 | Any two answers to a request are both empty or both not, and they weigh the same under its criteria. |
| Aggregate.ValueDetermined | Nice_Java/src/main/java/com/nice/travel/Main.java:110-111 | The reported value for "Cost", for "Hops", and for non-"Time" Python requests does not depend on which minimum entry the queue hands out. |
| Batch.PutLookup | main.py:191 | After storing under an id, that id holds the new result and every other id keeps its own. |
| Batch.PutKeys | Nice_Java/src/main/java/com/nice/travel/Main.java:55 | Storing keeps the id order and appends an id only when it is new. |
| Batch.FirstIds | Nice_Java/src/main/java/com/nice/travel/TravelOptimizer.java:39-57 | The stored ids are distinct and are exactly the request ids. |
| Batch.AdmissibleWeights | Nice_Java/src/main/java/com/nice/travel/service/TravelOptimizerService.java:48-55 | Without negative costs or durations in the input, every criteria weighs every edge at least 0. |
| Batch.ServedAll | main.py:109-191 | After the loop, the ids are stored in order of first appearance, every request is answered, and each id holds the record of its last request. |
| Batch.OptimizeTravel | Nice_Java/src/main/java/com/nice/travel/Main.java:36-59 | The batch fails exactly when some time is malformed and the graph is built (always in the modular version, and only for a non-empty batch otherwise), with that error. On success, each id, stored in order of first appearance, holds the record of its last request, whose path answers it in the built graph. |
| Scenarios.ClockTime | main.py:12-14 | Both parsers read a well-formed "HH:MM" string as the minute it names. |
| Scenarios.SameLegGraph | main.py:121-130 | Two routes on one leg are listed under their origin in input order by both flavours. |
| Scenarios.TriangleWalks | Nice_Java/src/main/java/com/nice/travel/service/TravelOptimizerService.java:32-41 | With only A-C, A-B and B-C edges, the walks from A to C are the direct route and the two-hop connection. |
| Scenarios.FirstListedWins | Nice_Java/src/main/java/com/nice/travel/service/TravelOptimizerService.java:36 | Of two routes on one leg, the first listed is the answer when it is no heavier: a later route of equal weight never replaces it. |
| Scenarios.DirectWins | Nice_Java/src/main/java/com/nice/travel/TravelOptimizer.java:133-168 | A direct route lighter than the connection is the only answer. |
| Scenarios.ConnectionWins | main.py:66-103 | A connection lighter than the direct route is the only answer. |
| Scenarios.NothingWins | Nice_Java/src/main/java/com/nice/travel/service/TravelOptimizerService.java:45 | A city no route reaches is answered only by the empty path. |
| Scenarios.TimeTest | Nice_Java/src/test/java/com/nice/travel/TravelOptimizerTest.java:28-39 | By "Time", the direct flight is the only answer: value 120, summary "Not generated". |
| Scenarios.CostTest | Nice_Java/src/test/java/com/nice/travel/TravelOptimizerTest.java:41-52 | By "Cost", the two buses are the only answer: value 300. |
| Scenarios.HopsTest | Nice_Java/src/test/java/com/nice/travel/TravelOptimizerTest.java:54-65 | By "Hops", the direct flight is the only answer: value 1. |
| Scenarios.TieTest | Nice_Java/src/test/java/com/nice/travel/TravelOptimizerTest.java:67-78 | Between two equally fast routes, the first listed is the only answer, with value 120. This is stronger than the test's positive-value check. |
| Scenarios.NoRouteTest | Nice_Java/src/test/java/com/nice/travel/TravelOptimizerTest.java:80-93 | An unreachable city gives an empty schedule, value 0 and "Not generated". |
| Scenarios.MultiHopTest | Nice_Java/src/test/java/com/nice/travel/TravelOptimizerTest.java:95-107 | The only way is both buses, with 120 + 30 waiting + 120 = 270 minutes and two schedule lines. |
| Scenarios.SummaryTest | Nice_Java/src/test/java/com/nice/travel/TravelOptimizerTest.java:109-120 | With summaries requested but no API key, the summary is "Not generated". |

## Left out

- Reading the JSON input, writing the JSON output, and the command line: I/O. Segments and requests are given as values.
- The summary service's HTTP exchange: a network call. It is a function parameter of the model.
  - Its 200-character truncation is not modelled.
  - Its exception handler, which turns a failed call into "Not generated", is not modelled.
  - The prompt's exact wording is not modelled. Only the segment count and the minute figure it is built from are.
- Reading the API key from the environment: it is a parameter. Python reads it once per batch and Java once per request, which is the same value within one batch.
- The TechSpire and MyTeam implementations: they are separate programs, outside this engine.
- Java `int` overflow: the model does not wrap `hours * 60 + minutes`, path distances, or `Integer.MAX_VALUE` as "no distance". The model uses unbounded integers and an explicit `Infinite`.
- Search.ShortestPath: requires non-negative edge weights. With a negative cost, the search's correctness is not claimed, and a negative cycle could keep the source's loop running.
- Aggregate.ProcessRequest: requires non-negative edge weights under the request's criteria, for the same reason.
- Batch.OptimizeTravel: requires an input without negative costs or durations (`Batch.Admissible`), for the same reason.
- Which of several equal-weight queue entries is popped: Java's queue compares weights only, and Python's heap also compares city names and then path lists. The model lets the pop choose any minimum entry, and `Search.ShortestPath` holds for every choice.
- The `paths` maps that the modular and the monolithic Java searches fill but never read: they never affect a result.
- Python `KeyError` and Java `NullPointerException` on a missing JSON field: these are input-format failures, outside the model of well-formed records.
- Non-ASCII digits accepted by `strptime` and `Integer.parseInt`: only the ASCII digits '0' to '9' are modelled.
- Times.MinutesToTime: modelled only for non-negative minutes. Python's floor division on negative input is never exercised by the engine.
