# hobo: the bus-tracking core, in Dafny

hobo follows the Hoboken "HOP" shuttle buses. It reads three payloads from the
Passio transit feed: the routes, the stops (stop details, each route's stop list and
polyline, and the excluded route ids) and the buses. From them it builds a route
table, a station table and a bus table. It then maps every station of a route to the
nearest node of the route's polyline. For a bus, it finds the node nearest the bus,
picks the next station ahead of that node, and walks the polyline forward, node by
node, to measure the distance to that station.

This project models that core in two snapshots of the service:

- the current one, `src/main.ts`, which measures in miles;
- an earlier one, `main.ts`. Its `mapStationsToNodes` and `getNextStation` measure in
  the default unit (kilometres). Its `getNextStation` returns a pair. Its
  `getDistanceToNextStation` picks the next station itself and sums in metres.

Code the two snapshots share is modelled once. The unit is a parameter of that code.
The earlier snapshot's copies are these:

- `parseRoutesAndStations` (main.ts:205-254), which does not copy the route name;
- `parseBuses` (main.ts:256-275), `min` (main.ts:277-288), `argMin` (main.ts:290-303) and
  `radiansToLength` (main.ts:433-442), which are identical;
- `mapStationsToNodes` (main.ts:307-321), called with the default unit.

Each is modelled by the same member as its current counterpart.

Modules:

- `Wrappers`: `Option` and `Result`.
- `Records`: a JavaScript object used as a dictionary. It holds the value under each
  key and the order in which `Object.keys`, `Object.values` and `Object.entries`
  enumerate the keys.
- `Geometry`:
  - positions;
  - the unit table `Factors`;
  - `radiansToLength`;
  - `distance`, with its haversine trigonometry abstracted as a function parameter
    that gives the central angle between two positions.
- `Selection`: the linear scans `min` and `argMin`, as loops proved against their
  specification functions.
- `Domain`: the raw payload records, the route, station and bus records, and `Fault`,
  the ways the core throws.
- `FeedParser`: `parseRoutesAndStations` and `parseBuses`, as loops over the payloads.
- `Tracker`, the current snapshot:
  - `mapStationsToNodes`;
  - `getNextStation`;
  - `getDistanceToNextStation`;
  - the data part of `testHopDistance`.
- `EarlyTracker`: the earlier snapshot's `getNextStation` and `getDistanceToNextStation`,
  and lemmas relating them to the current snapshot.

A thrown exception, or a `TypeError` from reading a property of `undefined`, is a
`Failure` carrying a `Fault`. Payload numbers that the source parses from text with
`parseFloat` or `parseInt` arrive here already parsed.

## Model

| member | source | states |
|---|---|---|
| Geometry.FactorsTable | src/main.ts:453-469 | the table has an entry under the name of every member of the `Units` union, and that entry is the member's factor |
| Geometry.FactorsHasOnlyUnits | src/main.ts:453-469 | every key of the table is the name of a member of the `Units` union |
| Geometry.FactorIsPositive | src/main.ts:453-469 | every factor in the table is positive, so the `!factor` guard rejects exactly the names missing from the table |
| Geometry.RadiansToLength | src/main.ts:471-480 | fails exactly when the unit name is not in the table, with the message `<units> units is invalid`; a missing unit means `kilometers` |
| Geometry.RadiansToLengthOfUnit | src/main.ts:471-480 | for every member of the union, the conversion succeeds with the angle times that member's factor |
| Geometry.LookupSucceeds | src/main.ts:471-480 | a unit name found in the table converts the angle by multiplying it with the name's entry |
| Geometry.UnitConversion | src/main.ts:453-480 | two successful conversions of one angle differ exactly by the ratio of the two units' factors |
| Geometry.ParsePosition | src/main.ts:218-220 | a position is the pair of the latitude and the longitude, in that order |
| Geometry.Distance | src/main.ts:482-502 | fails exactly when the unit name (`kilometers` when absent) is not in the table; otherwise it is the central angle between the two positions times that unit's factor |
| Geometry.MeasureIsDistance | src/main.ts:482-502 | `distance` with a member of the union, or no unit, never throws, and gives the central angle times the unit's factor (kilometres by default) |
| Geometry.MeasureOrdersLikeAngle | src/main.ts:482-502 | in any unit, one distance is smaller than another exactly when its central angle is smaller |
| Selection.ArgMinOf | src/main.ts:315-328 | -1 for an empty array; otherwise the earliest position holding a smallest element |
| Selection.EarliestMinIsUnique | src/main.ts:315-328 | at most one position is the earliest smallest one, so that property determines `argMin` |
| Selection.ArgMin | src/main.ts:315-328 | the loop returns -1 for an empty array, otherwise the earliest position of a smallest element |
| Selection.ArgMinOfOrderInvariant | src/main.ts:315-328 | two arrays whose elements compare alike have the same `argMin` |
| Selection.MinOf | src/main.ts:302-313 | null exactly for an empty array; otherwise an element of the array no greater than any element |
| Selection.Min | src/main.ts:302-313 | the loop returns null exactly for an empty array, otherwise an element no greater than any element |
| Records.PutAllLastWins | src/main.ts:252 | after successive writes to an object, a key holds the value of the last write naming it; a key no write names keeps its old value |
| Records.PutAllAppend | src/main.ts:233-272 | writing two runs of entries in turn equals writing their concatenation |
| FeedParser.PathSlots | src/main.ts:237 | `.slice(2)`: the stop list without its first two slots, element for element, empty when there are fewer than two |
| FeedParser.DecimalString | src/main.ts:232 | `String` of a whole number: one digit exactly below ten, and otherwise the decimal string of the number divided by ten followed by the digit of the remainder |
| FeedParser.DecimalStringInjective | src/main.ts:232-236 | distinct ids have distinct decimal strings |
| FeedParser.ExcludedRoutes | src/main.ts:232 | one string per excluded id, in order, each the id's decimal string |
| FeedParser.ExcludedExactly | src/main.ts:232-236 | the string of an id is among the excluded strings exactly when the id is among the excluded ids |
| FeedParser.StationOf | src/main.ts:240-251 | the station has the entry's stop id, and the stop detail's name, route id, position, radius and coordinates |
| FeedParser.ParseStation | src/main.ts:238-252 | a slot parses exactly when it is an entry whose stop detail exists under `"ID"` + its stop id, into the station built from that detail under the stop id; a slot that is not an entry is `MalformedStopEntry`, an entry without a detail `MissingStop` |
| FeedParser.ParseNodes | src/main.ts:255-256 | one node per polyline point, in order, each the point's latitude and longitude |
| FeedParser.ParsePath | src/main.ts:238-254 | the path succeeds exactly when every entry parses; it then holds one station per entry, in order, each the entry's parse |
| FeedParser.ParseRoute | src/main.ts:237-270 | a retained route parses exactly when its stop list, its polyline and the detail of every station entry exist; the route keeps the feed's id, name, activity and message, and its path and nodes are those the payload describes |
| FeedParser.ParseRetained | src/main.ts:233-272 | succeeds exactly when every route that is not excluded parses; no parsed route is excluded, and each matches the payload |
| FeedParser.ParseFeed | src/main.ts:222-276 | `parseRoutesAndStations` succeeds exactly when every route of the feed that is not excluded can be resolved from the stops payload |
| FeedParser.ParseRetainedCovers | src/main.ts:233-272 | every route of the feed that is not excluded is parsed |
| FeedParser.ParseRetainedIds | src/main.ts:233-272 | every parsed route has the id of a route of the feed |
| FeedParser.RouteTable | src/main.ts:269 | the route table holds exactly the ids of the parsed routes, each under its own id |
| FeedParser.ParseFeedRoutes | src/main.ts:222-276 | in the route table, no key is excluded, every route sits under its own id, and every route is built as the stops payload describes it |
| FeedParser.ParseFeedRouteKeys | src/main.ts:222-276 | the route table's keys are exactly the ids of the feed's routes that are not excluded |
| FeedParser.ParseFeedStations | src/main.ts:222-276 | every station-table entry is built from the stop detail of its own id, and every station on a parsed route's path is in the table exactly as the path holds it |
| FeedParser.SamePathForSameId | src/main.ts:237-253 | two routes parsed from one payload under the same id have the same path |
| FeedParser.StationKeyOnRoute | src/main.ts:222-276 | a key of the station table built from parsed routes is the id of a stop on the path of a route in the route table |
| FeedParser.ParseFeedStationKeys | src/main.ts:222-276 | every key of the station table is the id of a stop on the path of a route in the route table, so the station table holds nothing else |
| FeedParser.ParsePathInto | src/main.ts:238-253 | the path loop returns what `ParsePath` specifies and writes each station into the station table, in path order |
| FeedParser.ParseRoutesAndStations | src/main.ts:222-276 | the loop over the feed returns exactly `ParseFeed`: the same failure, or the same route table, station table and excluded ids |
| FeedParser.KeptKeys | src/main.ts:283-286 | a key is kept exactly when it is a payload key that is not excluded and has a report; no more keys are kept than the payload has |
| FeedParser.KeptKeysInOrder | src/main.ts:283-286 | the kept keys appear in the payload's key order: each sits at a position of the payload's keys, and the positions increase |
| FeedParser.ParseBuses | src/main.ts:278-300 | one bus per payload key that is not excluded and has a report, built from its first report, in key order |
| FeedParser.BusOf | src/main.ts:287-296 | the bus has the payload key as its id, and the first report's name, route id, position and course; it is active exactly when the report's `outdated` is 1 |
| Tracker.Distances | src/main.ts:337-339 | one distance per node, in node order, each from the given position to that node |
| Tracker.NearestNode | src/main.ts:354-356 | -1 when the route has no node; otherwise the earliest node at the smallest distance |
| Tracker.NearestNodeIsUnitFree | src/main.ts:336-340 | the nearest node is the `argMin` of the central angles, whatever the unit |
| Tracker.RouteIndexKeys | src/main.ts:334-344 | a route's station index has exactly the station ids of the route's path as keys |
| Tracker.RouteIndexNearest | src/main.ts:334-344 | each station id maps to the nearest node to the last path station with that id; the node index is valid, and no node is strictly closer |
| Tracker.RouteIndexWellIndexed | src/main.ts:332-346 | every value in the index is -1 for a route without nodes, and otherwise a node position |
| Tracker.RouteIndexIsUnitFree | main.ts:307-321 | the index is the same in any unit, so the default-unit index of the earlier snapshot equals the miles index of the current one |
| Tracker.IndexRoute | src/main.ts:335-343 | the inner loop builds exactly the route's station index |
| Tracker.MapStationsToNodes | src/main.ts:332-346 | the result has one entry per route, under the route's key and in the routes' key order; each entry is that route's station index |
| Tracker.MappedIndexesMatchRoutes | src/main.ts:332-346 | over routes keyed by their own ids, every index the function builds holds only valid node indexes of its route |
| Tracker.Ahead | src/main.ts:361 | the filter keeps exactly the indexes strictly ahead of the current node; it is empty exactly when none is ahead |
| Tracker.FirstWith | src/main.ts:363-365 | `find` over the keys: -1 when no key maps to the target; otherwise the first key that does |
| Tracker.BestFit | src/main.ts:362 | `min(ahead) || min(all)` is absent exactly when there is no index, and is otherwise one of the indexes |
| Tracker.BestFitAhead | src/main.ts:361-362 | from an existing node, the best fit is the smallest index strictly ahead; when none is ahead, it is the smallest overall |
| Tracker.ValuesOfIndex | src/main.ts:360 | `Object.values` holds exactly the node indexes the station ids map to |
| Tracker.SelectNext | src/main.ts:359-365 | absent exactly when the route has no station; otherwise a station id mapped to the chosen index, and the first such id in key order |
| Tracker.IndexBestFitAhead | src/main.ts:359-362 | over a route's index, the chosen node index is the smallest strictly ahead of the current node; when none is ahead, it is the smallest overall |
| Tracker.SelectNextIsBestFit | src/main.ts:362-365 | the selected node index is the best fit of the index's values |
| Tracker.GetNextStationPicksAhead | src/main.ts:348-390 | with an index and a station for the route, and a node to stand on: the current index is the bus's nearest node; the next station maps to the next index; that index is the smallest ahead, or the smallest overall when none is ahead |
| Tracker.GetNextStation | src/main.ts:348-390 | fails with `MissingStationIndex` for a route without an index and with `NoStationOnRoute` for a route without stations, and succeeds otherwise; the current index is the bus's nearest node in miles, the next index is the best fit of the index's values, and the next station maps to it |
| Tracker.NextStopInRange | src/main.ts:348-390 | with a valid index, both returned indexes are valid node indexes of the route |
| Tracker.StepFromIsModular | src/main.ts:400 | a step is to the following node modulo the node count |
| Tracker.StepsIsForwardGap | src/main.ts:392-407 | the walk takes the forward gap between the two nodes, modulo the node count |
| Tracker.ArrivesAfterSteps | src/main.ts:392-407 | the walk reaches the next station's node after exactly that many steps, and not before |
| Tracker.ForwardLengthSplit | src/main.ts:392-407 | a forward walk splits into the walk to any intermediate node plus the walk from it |
| Tracker.ThereAndBackIsOneLap | src/main.ts:392-407 | the distance from the bus's node to a station's node, plus the distance back, is the length of the whole loop |
| Tracker.ForwardLengthUnitConversion | src/main.ts:399-403 | the same walk measured with two factors gives lengths in the ratio of the factors |
| Tracker.GetDistanceToNextStation | src/main.ts:392-407 | 0 when the two indexes are equal; `MissingNode` when they differ and the current index is no node of the route, where the first segment reads `undefined`; otherwise the sum of the segment lengths along the forward walk from the current node to the next station's node, a walk of `Steps` segments (the forward gap modulo the node count, by `StepsIsForwardGap`) |
| Tracker.FirstBusOn | src/main.ts:728 | `find`: absent exactly when no bus is on the route; otherwise the first bus on it |
| Tracker.HopDistance | src/main.ts:720-750 | fails with "No bus data" exactly when no bus is on the route |
| Tracker.TestHopDistance | src/main.ts:720-750 | the composition returns exactly `HopDistance`: the same failure, or the same report |
| Tracker.HopDistanceComposes | src/main.ts:729-745 | a report comes from the first bus on the route, the route's next stop, the next station's name and the forward distance to it |
| Tracker.HopDistanceOfFirstBus | src/main.ts:720-750 | a report gives the first bus's position, and the name of and forward distance to a station of the route's index, walked from the bus's nearest node in miles |
| Tracker.StopReportsStationAhead | src/main.ts:729-745 | a report built from the next stop names that stop's station, and walks to its node |
| EarlyTracker.GetNextStation | main.ts:323-363 | fails exactly when the route has no index; the first component is the nearest node in the default unit; the second is absent exactly when the route has no station |
| EarlyTracker.NextIndexIsBestFit | main.ts:335-362 | the returned node index is `bestFitIdx` itself: the best fit of the index's values |
| EarlyTracker.SnapshotsAgree | main.ts:323-363 | both snapshots fail alike for a route without an index; where the current one finds a stop, the earlier one returns the same two node indexes; where the current one throws for a route without stations, the earlier one returns the current node and no index |
| EarlyTracker.GetDistanceToNextStation | main.ts:365-388 | `MissingStationIndex` for a route without an index; for a route without nodes, 0 when the station's index is -1 and `MissingNode` otherwise; for a route with nodes, the distance in metres along the forward walk from the bus's nearest node to the chosen station's node |
| EarlyTracker.WalksAgree | main.ts:365-388 | the earlier snapshot walks between the same two valid node indexes that the current one returns |
| EarlyTracker.ForwardLengthInUnits | main.ts:380-386 | the metres walk times the miles factor equals the miles walk times the metres factor |

## Left out

- The haversine trigonometry of `distance` (`degreesToRadians`, `sin`, `cos`,
  `atan2`, `sqrt`) is a function parameter `angle`. Its properties (symmetry, the
  triangle inequality) are not modelled.
- Numbers are exact reals and integers. IEEE-754 rounding, `NaN` and infinities are
  not modelled. In particular, `ForwardLength` sums exactly, and the rounded
  `toFixed(2)`/`toFixed(3)` outputs are not modelled.
- `parseFloat`, `parseInt` and `String(...)` of payload fields: the model receives
  numbers, except the excluded route ids, which are turned into decimal strings.
  The bus `load` keeps the passenger count and capacity; the formatted ratio is not
  modelled.
- The HTTP fetches (`getRoutes`, `getStops`, `getBuses`), `prepareData`, the logger,
  the SQLite database, the web server and the live-reload script are I/O and are not
  part of this model. `testHopDistance` is modelled on the tables it would receive.
- JavaScript enumerates integer-like keys (station, route and bus ids are numeric
  strings) in ascending numeric order, before other keys. `Records` enumerates keys
  in insertion order instead. This matters where the source takes the first match:
  - `find` over `Object.keys(stationsForRoute)`, when two stations share a node;
  - `Object.values(buses).find(...)`, when several buses run on one route.
- The previous-station block of the current `getNextStation` is not modelled. It
  sorts the indexes (lexicographically, as `sort()` does), reads the previous
  station, and logs it. For a route with stations it reads only keys of the route's
  index, which `ParseFeedStations` shows are in the station table when both tables
  come from the same parse. Its one modelled effect is on a route without stations,
  where `stations[undefined]` throws: that case is `NoStationOnRoute`.
- Tracker.GetNextStation does not dereference `stations[bestFitStation]` the way the
  log line does. `TestHopDistance` fails with `MissingStation` at that point instead.
- A stop-list slot after the first two that is not a `[index, stopId, groupId]` entry
  is reported as `MalformedStopEntry`. The source would read index 1 of whatever is
  there.
- Keys inherited from `Object.prototype` (`"constructor"`, `"toString"`, ...) are not
  keys of `Factors` in the model. In JavaScript, `Factors[units]` finds a function
  under them and returns `NaN` rather than throwing.
- The earlier snapshot's `Route` has no `name` field. The model keeps one route record
  for both snapshots.
- EarlyTracker.GetDistanceToNextStation requires, for a route with nodes, that
  `getNextStation` return a node of the route as the station's index. Otherwise the
  source's loop never ends: the target is `undefined` (a route without stations) or
  an index outside the nodes, and `curr`, which stays on the route's nodes, never
  equals it. The other cases are modelled: no index throws at main.ts:335, and a
  route without nodes gives 0 or a `TypeError` at main.ts:451.
- Tracker.GetDistanceToNextStation requires that when the current index is a node of
  the route, the next index is one too. Otherwise the source's loop never ends. A
  current index that is no node gives `MissingNode`, the `TypeError` at
  src/main.ts:489. Every index the model's `mapStationsToNodes` builds meets the
  requirement (`NextStopInRange`).
- The earlier snapshot's `DEBUG` block (main.ts:342-360) is switched off by
  `DEBUG = false` and is not modelled.
