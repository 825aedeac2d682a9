/**
 * `parseRoutesAndStations` and `parseBuses`: the raw payloads turned into the
 * route, station and bus tables.
 */
module FeedParser {
  import opened Wrappers
  import opened Records
  import opened Geometry
  import opened Domain

  /** `String(n)` of a non-negative integer id: its decimal digits. */
  function DecimalString(n: nat): (s: string)
    ensures |s| >= 1 && (n < 10 <==> |s| == 1)
    ensures s[|s| - 1] == (48 + n % 10) as char
    ensures n >= 10 ==> s[..|s| - 1] == DecimalString(n / 10)
    decreases n
  {
    var digit := [(48 + n % 10) as char];
    if n < 10 then digit else DecimalString(n / 10) + digit
  }

  /** Distinct ids have distinct decimal strings, so the `includes` test on the strings
      excludes exactly the routes whose id is in the excluded list. */
  lemma {:induction false} DecimalStringInjective(a: nat, b: nat)
    requires DecimalString(a) == DecimalString(b)
    ensures a == b
    decreases a
  {
    if a >= 10 && b >= 10 {
      DecimalStringInjective(a / 10, b / 10);
    }
  }

  /** `excludedRoutesID.map(String)` */
  function ExcludedRoutes(ids: seq<nat>): (excluded: seq<string>)
    ensures |excluded| == |ids|
    ensures forall i :: 0 <= i < |ids| ==> excluded[i] == DecimalString(ids[i])
  {
    seq(|ids|, i requires 0 <= i < |ids| => DecimalString(ids[i]))
  }

  /** The string of an id is excluded exactly when the id is in the excluded list. */
  lemma ExcludedExactly(ids: seq<nat>, n: nat)
    ensures DecimalString(n) in ExcludedRoutes(ids) <==> n in ids
  {
    var excluded := ExcludedRoutes(ids);
    if DecimalString(n) in excluded {
      var i :| 0 <= i < |excluded| && excluded[i] == DecimalString(n);
      DecimalStringInjective(ids[i], n);
    }
    if n in ids {
      var i :| 0 <= i < |ids| && ids[i] == n;
      assert excluded[i] == DecimalString(n);
    }
  }

  /** The station record built from a stop detail. */
  function StationOf(stationId: string, rawStop: RawStop): (station: Station)
    ensures station.id == stationId && station.name == rawStop.name && station.routeId == rawStop.routeId
    ensures station.index == rawStop.position && station.radius == rawStop.radius
    ensures station.position == ParsePosition(rawStop.latitude, rawStop.longitude)
  {
    Station(stationId, rawStop.name, rawStop.routeId, rawStop.position,
            ParsePosition(rawStop.latitude, rawStop.longitude), rawStop.radius)
  }

  /** `.slice(2)`: the stop list without its name and colour slots. */
  function PathSlots(slots: seq<StopSlot>): (rest: seq<StopSlot>)
    ensures |rest| == if |slots| < 2 then 0 else |slots| - 2
    ensures forall i :: 0 <= i < |rest| ==> rest[i] == slots[i + 2]
  {
    if |slots| <= 2 then [] else slots[2..]
  }

  /** One step of the path `map`: the station id is the entry's slot 1, and its detail
      is looked up under `"ID" + id`; a missing detail is a `TypeError` in the source. */
  function ParseStation(routeId: string, slot: StopSlot, stops: map<string, RawStop>): (r: Result<Station, Fault>)
    ensures r.Success? <==> slot.Entry? && "ID" + slot.stopId in stops
    ensures r.Success? ==> r.value.id == slot.stopId && r.value == StationOf(slot.stopId, stops["ID" + slot.stopId])
    ensures slot.Label? ==> r == Failure(MalformedStopEntry(routeId))
    ensures slot.Entry? && "ID" + slot.stopId !in stops ==> r == Failure(MissingStop(slot.stopId))
  {
    match slot
    case Label(_) => Failure(MalformedStopEntry(routeId))
    case Entry(_, stationId, _) =>
      if "ID" + stationId in stops then Success(StationOf(stationId, stops["ID" + stationId]))
      else Failure(MissingStop(stationId))
  }

  /** The path `map` over the stop entries, in order; the first entry that cannot be
      parsed aborts it. */
  function ParsePath(routeId: string, slots: seq<StopSlot>, stops: map<string, RawStop>): (r: Result<seq<Station>, Fault>)
    ensures r.Success? <==> forall i :: 0 <= i < |slots| ==> ParseStation(routeId, slots[i], stops).Success?
    ensures r.Success? ==> |r.value| == |slots|
    ensures r.Success? ==> forall i :: 0 <= i < |slots| ==> ParseStation(routeId, slots[i], stops) == Success(r.value[i])
    decreases |slots|
  {
    if slots == [] then Success([])
    else
      var path :- ParsePath(routeId, slots[..|slots| - 1], stops);
      var station :- ParseStation(routeId, slots[|slots| - 1], stops);
      Success(path + [station])
  }

  /** `rawNodes.map(node => parsePosition(node.lat, node.lng))` */
  function ParseNodes(points: seq<RoutePoint>): (nodes: seq<Coord>)
    ensures |nodes| == |points|
    ensures forall i :: 0 <= i < |points| ==> nodes[i] == ParsePosition(points[i].lat, points[i].lng)
  {
    seq(|points|, i requires 0 <= i < |points| => ParsePosition(points[i].lat, points[i].lng))
  }

  /** The stops payload has everything route `id` needs: a stop list, a polyline, and a
      detail for every station entry of the stop list. */
  ghost predicate Resolvable(id: string, stopsData: StopsResponse) {
    && id in stopsData.routes
    && id in stopsData.routePoints
    && var slots := PathSlots(stopsData.routes[id]);
       forall i :: 0 <= i < |slots| ==> slots[i].Entry? && "ID" + slots[i].stopId in stopsData.stops
  }

  /** The route's path is its stop list without the first two slots, one station per
      entry, in order; its nodes are its polyline, in order. */
  ghost predicate MatchesFeed(route: Route, stopsData: StopsResponse) {
    && route.id in stopsData.routes
    && route.id in stopsData.routePoints
    && (var slots := PathSlots(stopsData.routes[route.id]);
        && |route.path| == |slots|
        && (forall i :: 0 <= i < |slots| ==>
              && slots[i].Entry?
              && "ID" + slots[i].stopId in stopsData.stops
              && route.path[i] == StationOf(slots[i].stopId, stopsData.stops["ID" + slots[i].stopId])))
    && (var points := stopsData.routePoints[route.id];
        && |route.nodes| == |points|
        && (forall i :: 0 <= i < |points| ==> route.nodes[i] == ParsePosition(points[i].lat, points[i].lng)))
  }

  /** One step of the route `forEach` for a route that is not excluded. */
  function ParseRoute(raw: RawRoute, stopsData: StopsResponse): (r: Result<Route, Fault>)
    ensures r.Success? <==> Resolvable(raw.myid, stopsData)
    ensures r.Success? ==> r.value.id == raw.myid && MatchesFeed(r.value, stopsData)
    ensures r.Success? ==> r.value.name == raw.name && r.value.active == (raw.outdated == "1")
                           && r.value.message == raw.serviceTime
  {
    if raw.myid !in stopsData.routes then Failure(MissingStopList(raw.myid))
    else
      var slots := PathSlots(stopsData.routes[raw.myid]);
      var path :- ParsePath(raw.myid, slots, stopsData.stops);
      if raw.myid !in stopsData.routePoints then Failure(MissingRoutePoints(raw.myid))
      else
        Success(Route(raw.myid, raw.name, raw.outdated == "1",
                      ParsePosition(raw.latitude, raw.longitude), raw.distance, raw.timezone,
                      raw.groupId, raw.serviceTime, path, ParseNodes(stopsData.routePoints[raw.myid])))
  }

  /** The routes the `forEach` builds, in processing order, skipping excluded ids. */
  function ParseRetained(rawRoutes: seq<RawRoute>, stopsData: StopsResponse, excluded: seq<string>): (r: Result<seq<Route>, Fault>)
    ensures r.Success? <==> forall i :: 0 <= i < |rawRoutes| && rawRoutes[i].myid !in excluded ==> Resolvable(rawRoutes[i].myid, stopsData)
    ensures r.Success? ==> forall j :: 0 <= j < |r.value| ==> r.value[j].id !in excluded && MatchesFeed(r.value[j], stopsData)
    decreases |rawRoutes|
  {
    if rawRoutes == [] then Success([])
    else
      var done :- ParseRetained(rawRoutes[..|rawRoutes| - 1], stopsData, excluded);
      var raw := rawRoutes[|rawRoutes| - 1];
      if raw.myid in excluded then Success(done)
      else
        var route :- ParseRoute(raw, stopsData);
        Success(done + [route])
  }

  /** `routes[route.id] = route`, for each route in turn. */
  function RouteEntries(routes: seq<Route>): seq<(string, Route)> {
    seq(|routes|, i requires 0 <= i < |routes| => (routes[i].id, routes[i]))
  }

  /** `stations[station.id] = station`, for each station of a path in turn. */
  function PathEntries(path: seq<Station>): seq<(string, Station)> {
    seq(|path|, i requires 0 <= i < |path| => (path[i].id, path[i]))
  }

  /** The station writes of all routes, in processing order. */
  function StationEntries(routes: seq<Route>): seq<(string, Station)>
    decreases |routes|
  {
    if routes == [] then []
    else StationEntries(routes[..|routes| - 1]) + PathEntries(routes[|routes| - 1].path)
  }

  datatype ParsedFeed = ParsedFeed(routes: Record<Route>, stations: Record<Station>, excludedRoutes: seq<string>)

  /** What `parseRoutesAndStations` returns, or the fault it throws. */
  function ParseFeed(routeData: seq<RawRoute>, stopsData: StopsResponse): (r: Result<ParsedFeed, Fault>)
    ensures r.Success? <==> forall i :: 0 <= i < |routeData| && routeData[i].myid !in ExcludedRoutes(stopsData.excludedRoutesID) ==>
                              Resolvable(routeData[i].myid, stopsData)
  {
    var excluded := ExcludedRoutes(stopsData.excludedRoutesID);
    var parsed :- ParseRetained(routeData, stopsData, excluded);
    Success(ParsedFeed(PutAll(Empty(), RouteEntries(parsed)), PutAll(Empty(), StationEntries(parsed)), excluded))
  }

  /** A station record built from the stop detail its own id names. */
  ghost predicate FromStopDetail(station: Station, stops: map<string, RawStop>) {
    "ID" + station.id in stops && station == StationOf(station.id, stops["ID" + station.id])
  }

  /** The route table holds exactly the ids of the parsed routes, each under its own id. */
  lemma RouteTable(parsed: seq<Route>)
    ensures forall k :: k in PutAll(Empty(), RouteEntries(parsed)).entries <==> exists route :: route in parsed && route.id == k
    ensures forall k :: k in PutAll(Empty(), RouteEntries(parsed)).entries ==>
              PutAll(Empty(), RouteEntries(parsed)).entries[k] in parsed && PutAll(Empty(), RouteEntries(parsed)).entries[k].id == k
  {
    var kvs := RouteEntries(parsed);
    forall k ensures k in PutAll(Empty(), kvs).entries <==> exists route :: route in parsed && route.id == k {
      PutAllLastWins(Empty(), kvs, k);
      if exists route :: route in parsed && route.id == k {
        var route :| route in parsed && route.id == k;
        var j :| 0 <= j < |parsed| && parsed[j] == route;
        assert kvs[j].0 == k;
      }
    }
    forall k | k in PutAll(Empty(), kvs).entries
      ensures PutAll(Empty(), kvs).entries[k] in parsed && PutAll(Empty(), kvs).entries[k].id == k
    {
      PutAllLastWins(Empty(), kvs, k);
    }
  }

  /** Every station write comes from the stop detail of its id, and every path station
      of every parsed route is written. */
  lemma {:induction false} StationEntriesFromFeed(routes: seq<Route>, stopsData: StopsResponse)
    requires forall j :: 0 <= j < |routes| ==> MatchesFeed(routes[j], stopsData)
    ensures forall e :: e in StationEntries(routes) ==> e.0 == e.1.id && FromStopDetail(e.1, stopsData.stops)
    ensures forall j, i :: 0 <= j < |routes| && 0 <= i < |routes[j].path| ==>
              (routes[j].path[i].id, routes[j].path[i]) in StationEntries(routes)
    decreases |routes|
  {
    if routes != [] {
      var init := routes[..|routes| - 1];
      var last := routes[|routes| - 1];
      StationEntriesFromFeed(init, stopsData);
      var slots := PathSlots(stopsData.routes[last.id]);
      assert MatchesFeed(last, stopsData);
      forall e | e in PathEntries(last.path) ensures e.0 == e.1.id && FromStopDetail(e.1, stopsData.stops) {
        var i :| 0 <= i < |last.path| && PathEntries(last.path)[i] == e;
        assert last.path[i] == StationOf(slots[i].stopId, stopsData.stops["ID" + slots[i].stopId]);
      }
      forall j, i | 0 <= j < |routes| && 0 <= i < |routes[j].path|
        ensures (routes[j].path[i].id, routes[j].path[i]) in StationEntries(routes)
      {
        if j < |routes| - 1 {
          assert routes[j] == init[j];
        } else {
          assert PathEntries(last.path)[i] == (routes[j].path[i].id, routes[j].path[i]);
        }
      }
    }
  }

  /** Every route of the feed that is not excluded is parsed. */
  lemma {:induction false} ParseRetainedCovers(rawRoutes: seq<RawRoute>, stopsData: StopsResponse, excluded: seq<string>)
    requires ParseRetained(rawRoutes, stopsData, excluded).Success?
    ensures forall i :: 0 <= i < |rawRoutes| && rawRoutes[i].myid !in excluded ==>
              exists route :: route in ParseRetained(rawRoutes, stopsData, excluded).value && route.id == rawRoutes[i].myid
    decreases |rawRoutes|
  {
    if rawRoutes != [] {
      var init := rawRoutes[..|rawRoutes| - 1];
      ParseRetainedCovers(init, stopsData, excluded);
      var parsed := ParseRetained(rawRoutes, stopsData, excluded).value;
      forall i | 0 <= i < |rawRoutes| && rawRoutes[i].myid !in excluded
        ensures exists route :: route in parsed && route.id == rawRoutes[i].myid
      {
        if i < |init| {
          assert init[i] == rawRoutes[i];
          var route :| route in ParseRetained(init, stopsData, excluded).value && route.id == init[i].myid;
          assert route in parsed;
        } else {
          assert parsed[|parsed| - 1].id == rawRoutes[i].myid;
        }
      }
    }
  }

  /** Every parsed route has the id of a route of the feed. */
  lemma {:induction false} ParseRetainedIds(rawRoutes: seq<RawRoute>, stopsData: StopsResponse, excluded: seq<string>)
    requires ParseRetained(rawRoutes, stopsData, excluded).Success?
    ensures forall route :: route in ParseRetained(rawRoutes, stopsData, excluded).value ==>
              exists i :: 0 <= i < |rawRoutes| && rawRoutes[i].myid == route.id
    decreases |rawRoutes|
  {
    if rawRoutes != [] {
      var init := rawRoutes[..|rawRoutes| - 1];
      ParseRetainedIds(init, stopsData, excluded);
      forall route | route in ParseRetained(rawRoutes, stopsData, excluded).value
        ensures exists i :: 0 <= i < |rawRoutes| && rawRoutes[i].myid == route.id
      {
        if route in ParseRetained(init, stopsData, excluded).value {
          var i :| 0 <= i < |init| && init[i].myid == route.id;
          assert rawRoutes[i] == init[i];
        } else {
          assert rawRoutes[|rawRoutes| - 1].myid == route.id;
        }
      }
    }
  }

  /** A route table key is the id of a route of the feed, and is not excluded. */
  lemma RouteTableKeysFromFeed(routeData: seq<RawRoute>, excluded: seq<string>, parsed: seq<Route>, k: string)
    requires forall j :: 0 <= j < |parsed| ==> parsed[j].id !in excluded
    requires forall route :: route in parsed ==> exists i :: 0 <= i < |routeData| && routeData[i].myid == route.id
    requires k in PutAll(Empty(), RouteEntries(parsed)).entries
    ensures k !in excluded && exists i :: 0 <= i < |routeData| && routeData[i].myid == k
  {
    RouteTable(parsed);
    var route :| route in parsed && route.id == k;
    var j :| 0 <= j < |parsed| && parsed[j] == route;
  }

  /** The id of a parsed route is a route table key. */
  lemma RouteTableKeysCover(parsed: seq<Route>, route: Route)
    requires route in parsed
    ensures route.id in PutAll(Empty(), RouteEntries(parsed)).entries
  {
    RouteTable(parsed);
  }

  /** The route table of a successful parse: no excluded id is a key, and every key maps
      to the route with that id, built as the stops payload describes it. */
  lemma ParseFeedRoutes(routeData: seq<RawRoute>, stopsData: StopsResponse)
    requires ParseFeed(routeData, stopsData).Success?
    ensures var feed := ParseFeed(routeData, stopsData).value;
      && feed.excludedRoutes == ExcludedRoutes(stopsData.excludedRoutesID)
      && forall k :: k in feed.routes.entries ==>
           && k !in feed.excludedRoutes
           && feed.routes.entries[k].id == k
           && MatchesFeed(feed.routes.entries[k], stopsData)
  {
    var excluded := ExcludedRoutes(stopsData.excludedRoutesID);
    var parsed := ParseRetained(routeData, stopsData, excluded).value;
    RouteTable(parsed);
    var table := PutAll(Empty(), RouteEntries(parsed));
    forall k | k in table.entries ensures k !in excluded && MatchesFeed(table.entries[k], stopsData) {
      var j :| 0 <= j < |parsed| && parsed[j] == table.entries[k];
    }
  }

  /** The keys of the route table of a successful parse are exactly the ids of the route
      feed that are not excluded. */
  lemma ParseFeedRouteKeys(routeData: seq<RawRoute>, stopsData: StopsResponse)
    requires ParseFeed(routeData, stopsData).Success?
    ensures forall k :: k in ParseFeed(routeData, stopsData).value.routes.entries ==>
              k !in ExcludedRoutes(stopsData.excludedRoutesID) && exists i :: 0 <= i < |routeData| && routeData[i].myid == k
    ensures forall i :: 0 <= i < |routeData| && routeData[i].myid !in ExcludedRoutes(stopsData.excludedRoutesID) ==>
              routeData[i].myid in ParseFeed(routeData, stopsData).value.routes.entries
  {
    var excluded := ExcludedRoutes(stopsData.excludedRoutesID);
    var parsed := ParseRetained(routeData, stopsData, excluded).value;
    forall k | k in PutAll(Empty(), RouteEntries(parsed)).entries
      ensures k !in excluded && exists i :: 0 <= i < |routeData| && routeData[i].myid == k
    {
      ParseRetainedIds(routeData, stopsData, excluded);
      RouteTableKeysFromFeed(routeData, excluded, parsed, k);
    }
    forall i | 0 <= i < |routeData| && routeData[i].myid !in excluded
      ensures routeData[i].myid in PutAll(Empty(), RouteEntries(parsed)).entries
    {
      ParseRetainedCovers(routeData, stopsData, excluded);
      var route :| route in parsed && route.id == routeData[i].myid;
      RouteTableKeysCover(parsed, route);
    }
  }

  /** The station table of a successful parse: every entry is the station built from the
      stop detail of its key, and every station on the path of a parsed route is in it.
      Repeated writes of one id all carry that same record, so whichever write lands
      last, the table holds the station each route's path holds. */
  lemma ParseFeedStations(routeData: seq<RawRoute>, stopsData: StopsResponse)
    requires ParseFeed(routeData, stopsData).Success?
    ensures var feed := ParseFeed(routeData, stopsData).value;
      && (forall k :: k in feed.stations.entries ==>
            "ID" + k in stopsData.stops && feed.stations.entries[k] == StationOf(k, stopsData.stops["ID" + k]))
      && (forall k, i :: k in feed.routes.entries && 0 <= i < |feed.routes.entries[k].path| ==>
            && feed.routes.entries[k].path[i].id in feed.stations.entries
            && feed.stations.entries[feed.routes.entries[k].path[i].id] == feed.routes.entries[k].path[i])
  {
    var excluded := ExcludedRoutes(stopsData.excludedRoutesID);
    var parsed := ParseRetained(routeData, stopsData, excluded).value;
    RouteTable(parsed);
    StationsFromDetails(parsed, stopsData);
    StationsCoverPaths(parsed, stopsData);
    var routes := PutAll(Empty(), RouteEntries(parsed));
    forall k, i | k in routes.entries && 0 <= i < |routes.entries[k].path|
      ensures var stations := PutAll(Empty(), StationEntries(parsed));
        routes.entries[k].path[i].id in stations.entries && stations.entries[routes.entries[k].path[i].id] == routes.entries[k].path[i]
    {
      var j :| 0 <= j < |parsed| && parsed[j] == routes.entries[k];
    }
  }

  /** Every entry of the station table is the station of its key's stop detail. */
  /** Where an entry of the station list comes from: a station of some route's path. */
  lemma {:induction false} StationEntryOrigin(routes: seq<Route>, e: (string, Station)) returns (j: int, i: int)
    requires e in StationEntries(routes)
    ensures 0 <= j < |routes| && 0 <= i < |routes[j].path| && e == (routes[j].path[i].id, routes[j].path[i])
    decreases |routes|
  {
    var init := routes[..|routes| - 1];
    var last := routes[|routes| - 1];
    if e in StationEntries(init) {
      j, i := StationEntryOrigin(init, e);
      assert routes[j] == init[j];
    } else {
      i :| 0 <= i < |last.path| && PathEntries(last.path)[i] == e;
      j := |routes| - 1;
    }
  }

  /** Where an entry of the route table comes from: a position of the parsed list. */
  lemma RouteTableOrigin(parsed: seq<Route>, r: string) returns (q: int)
    requires r in PutAll(Empty(), RouteEntries(parsed)).entries
    ensures 0 <= q < |parsed| && parsed[q] == PutAll(Empty(), RouteEntries(parsed)).entries[r] && parsed[q].id == r
  {
    RouteTable(parsed);
    q :| 0 <= q < |parsed| && parsed[q] == PutAll(Empty(), RouteEntries(parsed)).entries[r];
  }

  /** Two routes read from the same feed under one id have one path: the path is built
      from the stop list stored under that id. */
  lemma SamePathForSameId(parsed: seq<Route>, stopsData: StopsResponse, a: int, b: int)
    requires forall j :: 0 <= j < |parsed| ==> MatchesFeed(parsed[j], stopsData)
    requires 0 <= a < |parsed| && 0 <= b < |parsed| && parsed[a].id == parsed[b].id
    ensures parsed[a].path == parsed[b].path
  {
    assert MatchesFeed(parsed[a], stopsData) && MatchesFeed(parsed[b], stopsData);
    var slots := PathSlots(stopsData.routes[parsed[a].id]);
    assert forall i :: 0 <= i < |slots| ==> parsed[a].path[i] == parsed[b].path[i];
  }

  /** One key of the station table, traced back to a route of the route table. */
  lemma StationKeyOnRoute(parsed: seq<Route>, stopsData: StopsResponse, k: string)
    requires forall j :: 0 <= j < |parsed| ==> MatchesFeed(parsed[j], stopsData)
    requires k in PutAll(Empty(), StationEntries(parsed)).entries
    ensures var routes := PutAll(Empty(), RouteEntries(parsed));
      exists r, i :: r in routes.entries && 0 <= i < |routes.entries[r].path| && routes.entries[r].path[i].id == k
  {
    var routes := PutAll(Empty(), RouteEntries(parsed));
    var kvs := StationEntries(parsed);
    PutAllLastWins(Empty(), kvs, k);
    var last := LastIndexOf(kvs, k);
    assert kvs[last] in kvs;
    var j, i := StationEntryOrigin(parsed, kvs[last]);
    var r := parsed[j].id;
    RouteTableKeysCover(parsed, parsed[j]);
    var q := RouteTableOrigin(parsed, r);
    SamePathForSameId(parsed, stopsData, q, j);
    assert routes.entries[r].path[i].id == k;
  }

  /** Every station in the station table is a stop on the path of a route in the route
      table: the table holds the stations of the retained routes and nothing else. */
  lemma ParseFeedStationKeys(routeData: seq<RawRoute>, stopsData: StopsResponse)
    requires ParseFeed(routeData, stopsData).Success?
    ensures var feed := ParseFeed(routeData, stopsData).value;
      forall k :: k in feed.stations.entries ==>
        exists r, i :: r in feed.routes.entries && 0 <= i < |feed.routes.entries[r].path| && feed.routes.entries[r].path[i].id == k
  {
    var parsed := ParseRetained(routeData, stopsData, ExcludedRoutes(stopsData.excludedRoutesID)).value;
    forall k | k in PutAll(Empty(), StationEntries(parsed)).entries
      ensures var routes := PutAll(Empty(), RouteEntries(parsed));
        exists r, i :: r in routes.entries && 0 <= i < |routes.entries[r].path| && routes.entries[r].path[i].id == k
    {
      StationKeyOnRoute(parsed, stopsData, k);
    }
  }

  lemma StationsFromDetails(parsed: seq<Route>, stopsData: StopsResponse)
    requires forall j :: 0 <= j < |parsed| ==> MatchesFeed(parsed[j], stopsData)
    ensures var stations := PutAll(Empty(), StationEntries(parsed));
      forall k :: k in stations.entries ==>
        "ID" + k in stopsData.stops && stations.entries[k] == StationOf(k, stopsData.stops["ID" + k])
  {
    StationEntriesFromFeed(parsed, stopsData);
    var kvs := StationEntries(parsed);
    var stations := PutAll(Empty(), kvs);
    forall k | k in stations.entries
      ensures "ID" + k in stopsData.stops && stations.entries[k] == StationOf(k, stopsData.stops["ID" + k])
    {
      PutAllLastWins(Empty(), kvs, k);
      var j := LastIndexOf(kvs, k);
      assert kvs[j] in kvs;
    }
  }

  /** Every station on the path of a parsed route is in the station table, as the path
      holds it. */
  lemma StationsCoverPaths(parsed: seq<Route>, stopsData: StopsResponse)
    requires forall j :: 0 <= j < |parsed| ==> MatchesFeed(parsed[j], stopsData)
    ensures var stations := PutAll(Empty(), StationEntries(parsed));
      forall j, i :: 0 <= j < |parsed| && 0 <= i < |parsed[j].path| ==>
        parsed[j].path[i].id in stations.entries && stations.entries[parsed[j].path[i].id] == parsed[j].path[i]
  {
    StationEntriesFromFeed(parsed, stopsData);
    var kvs := StationEntries(parsed);
    var stations := PutAll(Empty(), kvs);
    forall j, i | 0 <= j < |parsed| && 0 <= i < |parsed[j].path|
      ensures parsed[j].path[i].id in stations.entries && stations.entries[parsed[j].path[i].id] == parsed[j].path[i]
    {
      var station := parsed[j].path[i];
      assert (station.id, station) in kvs;
      PutAllLastWins(Empty(), kvs, station.id);
      var last := LastIndexOf(kvs, station.id);
      assert kvs[last] in kvs;
    }
  }

  lemma {:induction false} ParsePathFailurePersists(routeId: string, slots: seq<StopSlot>, stops: map<string, RawStop>, n: nat)
    requires n <= |slots|
    requires ParsePath(routeId, slots[..n], stops).Failure?
    ensures ParsePath(routeId, slots, stops) == ParsePath(routeId, slots[..n], stops)
    decreases |slots| - n
  {
    if n < |slots| {
      assert slots[..n + 1][..n] == slots[..n];
      ParsePathFailurePersists(routeId, slots, stops, n + 1);
    } else {
      assert slots[..n] == slots;
    }
  }

  lemma {:induction false} ParseRetainedFailurePersists(rawRoutes: seq<RawRoute>, stopsData: StopsResponse, excluded: seq<string>, n: nat)
    requires n <= |rawRoutes|
    requires ParseRetained(rawRoutes[..n], stopsData, excluded).Failure?
    ensures ParseRetained(rawRoutes, stopsData, excluded) == ParseRetained(rawRoutes[..n], stopsData, excluded)
    decreases |rawRoutes| - n
  {
    if n < |rawRoutes| {
      assert rawRoutes[..n + 1][..n] == rawRoutes[..n];
      ParseRetainedFailurePersists(rawRoutes, stopsData, excluded, n + 1);
    } else {
      assert rawRoutes[..n] == rawRoutes;
    }
  }

  lemma ParsePathStep(routeId: string, slots: seq<StopSlot>, stops: map<string, RawStop>, j: nat)
    requires j < |slots|
    ensures ParsePath(routeId, slots[..j + 1], stops) ==
            match ParsePath(routeId, slots[..j], stops)
            case Failure(f) => Failure(f)
            case Success(path) =>
              match ParseStation(routeId, slots[j], stops)
              case Failure(f) => Failure(f)
              case Success(station) => Success(path + [station])
  {
    assert slots[..j + 1][..j] == slots[..j];
  }

  lemma PutPathEntriesStep(r: Record<Station>, path: seq<Station>, station: Station)
    ensures PutAll(r, PathEntries(path + [station])) == Put(PutAll(r, PathEntries(path)), station.id, station)
  {
    var kvs := PathEntries(path + [station]);
    assert kvs[..|path|] == PathEntries(path);
  }

  /** The path `map` of one route, whose callback also writes each station into the
      station table. */
  method ParsePathInto(routeId: string, rawPath: seq<StopSlot>, stops: map<string, RawStop>, stations: Record<Station>)
    returns (r: Result<seq<Station>, Fault>, stations': Record<Station>)
    ensures r == ParsePath(routeId, rawPath, stops)
    ensures r.Success? ==> stations' == PutAll(stations, PathEntries(r.value))
  {
    stations' := stations;
    var parsedPath: seq<Station> := [];
    for j := 0 to |rawPath|
      invariant ParsePath(routeId, rawPath[..j], stops) == Success(parsedPath)
      invariant stations' == PutAll(stations, PathEntries(parsedPath))
    {
      ParsePathStep(routeId, rawPath, stops, j);
      var step := ParseStation(routeId, rawPath[j], stops);
      if step.Failure? {
        r := Failure(step.error);
        ParsePathFailurePersists(routeId, rawPath, stops, j + 1);
        return;
      }
      var station := step.value;
      stations' := Put(stations', station.id, station);
      PutPathEntriesStep(stations, parsedPath, station);
      parsedPath := parsedPath + [station];
    }
    assert rawPath[..|rawPath|] == rawPath;
    r := Success(parsedPath);
  }

  lemma ParseRetainedStep(rawRoutes: seq<RawRoute>, stopsData: StopsResponse, excluded: seq<string>, i: nat)
    requires i < |rawRoutes|
    ensures ParseRetained(rawRoutes[..i + 1], stopsData, excluded) ==
            match ParseRetained(rawRoutes[..i], stopsData, excluded)
            case Failure(f) => Failure(f)
            case Success(done) =>
              if rawRoutes[i].myid in excluded then Success(done)
              else
                match ParseRoute(rawRoutes[i], stopsData)
                case Failure(f) => Failure(f)
                case Success(route) => Success(done + [route])
  {
    assert rawRoutes[..i + 1][..i] == rawRoutes[..i];
  }

  /** Appending a route appends its write to the route table and its path's writes to
      the station table. */
  lemma TablesStep(parsed: seq<Route>, route: Route)
    ensures PutAll(Empty(), RouteEntries(parsed + [route])) == Put(PutAll(Empty(), RouteEntries(parsed)), route.id, route)
    ensures PutAll(Empty(), StationEntries(parsed + [route])) == PutAll(PutAll(Empty(), StationEntries(parsed)), PathEntries(route.path))
  {
    assert (parsed + [route])[..|parsed|] == parsed;
    PutAllAppend(Empty(), StationEntries(parsed), PathEntries(route.path));
    assert RouteEntries(parsed + [route])[..|parsed|] == RouteEntries(parsed);
  }

  /** `parseRoutesAndStations(routeData, stopsData)` */
  method ParseRoutesAndStations(routeData: seq<RawRoute>, stopsData: StopsResponse) returns (r: Result<ParsedFeed, Fault>)
    ensures r == ParseFeed(routeData, stopsData)
  {
    var stations: Record<Station> := Empty();
    var routes: Record<Route> := Empty();
    var excludedRoutes := ExcludedRoutes(stopsData.excludedRoutesID);
    ghost var parsed: seq<Route> := [];
    for i := 0 to |routeData|
      invariant ParseRetained(routeData[..i], stopsData, excludedRoutes) == Success(parsed)
      invariant routes == PutAll(Empty(), RouteEntries(parsed))
      invariant stations == PutAll(Empty(), StationEntries(parsed))
    {
      var rawRoute := routeData[i];
      ParseRetainedStep(routeData, stopsData, excludedRoutes, i);
      if rawRoute.myid in excludedRoutes {
        continue;
      }
      if rawRoute.myid !in stopsData.routes {
        ParseRetainedFailurePersists(routeData, stopsData, excludedRoutes, i + 1);
        return Failure(MissingStopList(rawRoute.myid));
      }
      var rawPath := PathSlots(stopsData.routes[rawRoute.myid]);
      var parsedPath, stations' := ParsePathInto(rawRoute.myid, rawPath, stopsData.stops, stations);
      if parsedPath.Failure? {
        ParseRetainedFailurePersists(routeData, stopsData, excludedRoutes, i + 1);
        return Failure(parsedPath.error);
      }
      stations := stations';
      if rawRoute.myid !in stopsData.routePoints {
        ParseRetainedFailurePersists(routeData, stopsData, excludedRoutes, i + 1);
        return Failure(MissingRoutePoints(rawRoute.myid));
      }
      var nodes := ParseNodes(stopsData.routePoints[rawRoute.myid]);
      var route := Route(rawRoute.myid, rawRoute.name, rawRoute.outdated == "1",
                         ParsePosition(rawRoute.latitude, rawRoute.longitude), rawRoute.distance,
                         rawRoute.timezone, rawRoute.groupId, rawRoute.serviceTime, parsedPath.value, nodes);
      assert ParseRoute(rawRoute, stopsData) == Success(route);
      routes := Put(routes, rawRoute.myid, route);
      TablesStep(parsed, route);
      parsed := parsed + [route];
    }
    assert routeData[..|routeData|] == routeData;
    return Success(ParsedFeed(routes, stations, excludedRoutes));
  }

  /** The bus built from the first report listed under `busId`; its `load` keeps the
      passenger count and capacity the rounded ratio is formatted from. */
  function BusOf(busId: string, raw: RawBus): (bus: Bus)
    ensures bus.id == busId && bus.name == raw.busName && bus.routeId == raw.routeId
    ensures bus.active == (raw.outdated == 1) && bus.load == Load(raw.paxLoad, raw.totalCap)
    ensures bus.position == ParsePosition(raw.latitude, raw.longitude) && bus.bearing == raw.calculatedCourse
  {
    Bus(busId, raw.busName, raw.routeId, raw.outdated == 1, Load(raw.paxLoad, raw.totalCap),
        ParsePosition(raw.latitude, raw.longitude), raw.calculatedCourse)
  }

  /** A key of the buses payload yields a bus: it is not an excluded route id and its
      report list is not empty. */
  predicate Kept(busesData: BusesResponse, excluded: seq<string>, busId: string) {
    busId in busesData.buses.entries && busId !in excluded && |busesData.buses.entries[busId]| > 0
  }

  /** The kept keys among `keys`, in their order. */
  function KeptKeys(keys: seq<string>, busesData: BusesResponse, excluded: seq<string>): (kept: seq<string>)
    ensures forall k :: k in kept <==> k in keys && Kept(busesData, excluded, k)
    ensures |kept| <= |keys|
    decreases |keys|
  {
    if keys == [] then []
    else
      var rest := KeptKeys(keys[..|keys| - 1], busesData, excluded);
      var k := keys[|keys| - 1];
      if Kept(busesData, excluded, k) then rest + [k] else rest
  }

  /** The positions in `keys` of the kept keys. */
  ghost function KeptPositions(keys: seq<string>, busesData: BusesResponse, excluded: seq<string>): seq<int>
    decreases |keys|
  {
    if keys == [] then []
    else
      var rest := KeptPositions(keys[..|keys| - 1], busesData, excluded);
      if Kept(busesData, excluded, keys[|keys| - 1]) then rest + [|keys| - 1] else rest
  }

  /** The kept keys appear in the payload's key order: each sits at a position of
      `keys`, and the positions increase. */
  lemma {:induction false} KeptKeysInOrder(keys: seq<string>, busesData: BusesResponse, excluded: seq<string>)
    ensures var kept, pos := KeptKeys(keys, busesData, excluded), KeptPositions(keys, busesData, excluded);
      && |pos| == |kept|
      && (forall i :: 0 <= i < |pos| ==> 0 <= pos[i] < |keys| && keys[pos[i]] == kept[i])
      && (forall i, j :: 0 <= i < j < |pos| ==> pos[i] < pos[j])
    decreases |keys|
  {
    if keys != [] {
      KeptKeysInOrder(keys[..|keys| - 1], busesData, excluded);
    }
  }

  lemma KeptKeysStep(keys: seq<string>, busesData: BusesResponse, excluded: seq<string>, i: nat)
    requires i < |keys|
    ensures KeptKeys(keys[..i + 1], busesData, excluded) ==
            if Kept(busesData, excluded, keys[i]) then KeptKeys(keys[..i], busesData, excluded) + [keys[i]]
            else KeptKeys(keys[..i], busesData, excluded)
    ensures forall k :: k in keys[..i + 1] <==> k in keys[..i] || k == keys[i]
  {
    assert keys[..i + 1][..i] == keys[..i];
    assert keys[..i + 1] == keys[..i] + [keys[i]];
  }

  /** `parseBuses(busesData, excludedRoutes)`: one bus per kept key, built from the
      key's first report, in the payload's key order. */
  method ParseBuses(busesData: BusesResponse, excludedRoutes: seq<string>) returns (buses: Record<Bus>)
    ensures buses.keys == KeptKeys(busesData.buses.keys, busesData, excludedRoutes)
    ensures forall k :: k in buses.entries <==> Kept(busesData, excludedRoutes, k)
    ensures forall k :: k in buses.entries ==> buses.entries[k] == BusOf(k, busesData.buses.entries[k][0])
  {
    buses := Empty();
    var busIds := busesData.buses.keys;
    for i := 0 to |busIds|
      invariant buses.keys == KeptKeys(busIds[..i], busesData, excludedRoutes)
      invariant forall k :: k in buses.entries <==> k in busIds[..i] && Kept(busesData, excludedRoutes, k)
      invariant forall k :: k in buses.entries ==> buses.entries[k] == BusOf(k, busesData.buses.entries[k][0])
    {
      var busId := busIds[i];
      KeptKeysStep(busIds, busesData, excludedRoutes, i);
      assert busId !in busIds[..i] by { FreshKey(busesData.buses, i); }
      var rawBuses := busesData.buses.entries[busId];
      if busId in excludedRoutes || |rawBuses| == 0 {
        continue;
      }
      var bus := BusOf(busId, rawBuses[0]);
      buses := Put(buses, bus.id, bus);
    }
    assert busIds[..|busIds|] == busIds;
  }
}
