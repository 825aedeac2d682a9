/**
 * The provider's payloads (as the feed client returns them, with the numeric
 * text the decoder parses already turned into numbers) and the domain records
 * built from them.
 */
module Domain {
  import opened Records
  import opened Geometry

  /** A route as the route feed lists it (`PassioRoute`, only the fields the parser reads). */
  datatype RawRoute = RawRoute(
    name: string,
    myid: string,
    outdated: string,
    distance: real,
    latitude: real,
    longitude: real,
    timezone: string,
    groupId: string,
    serviceTime: string)

  /** A stop detail record (`PassioStop`); `position` is the `parseInt` of its text. */
  datatype RawStop = RawStop(
    routeId: string,
    position: int,
    name: string,
    latitude: real,
    longitude: real,
    radius: real)

  /** One slot of a route's stop list: the two leading label slots (name, colour),
      then `[index, stopId, groupId]` entries. */
  datatype StopSlot =
    | Label(text: string)
    | Entry(index: string, stopId: string, groupId: int)

  /** A polyline point (`PassioRoutePoint`). */
  datatype RoutePoint = RoutePoint(lat: real, lng: real)

  /** The stops payload (`StopsResponse`): stop details keyed by `"ID" + stopId`, stop
      lists and polylines keyed by route id, and the ids of the excluded routes. */
  datatype StopsResponse = StopsResponse(
    stops: map<string, RawStop>,
    routes: map<string, seq<StopSlot>>,
    routePoints: map<string, seq<RoutePoint>>,
    excludedRoutesID: seq<nat>)

  /** A vehicle report (`PassioBus`); `calculatedCourse` is the `parseFloat` of its text. */
  datatype RawBus = RawBus(
    busName: string,
    routeId: string,
    outdated: int,
    paxLoad: real,
    totalCap: real,
    latitude: real,
    longitude: real,
    calculatedCourse: real)

  /** The buses payload (`BusesResponse`): report lists keyed by route id. */
  datatype BusesResponse = BusesResponse(buses: Record<seq<RawBus>>, excludedRoutes: seq<nat>)

  datatype Station = Station(
    id: string,
    name: string,
    routeId: string,
    index: int,
    position: Coord,
    radius: real)

  datatype Route = Route(
    id: string,
    name: string,
    active: bool,
    position: Coord,
    distance: real,
    timezone: string,
    groupId: string,
    message: string,
    path: seq<Station>,
    nodes: seq<Coord>)

  /** The passenger load and capacity the bus's `load` is computed from. */
  datatype Load = Load(paxLoad: real, totalCap: real)

  datatype Bus = Bus(
    id: string,
    name: string,
    routeId: string,
    active: bool,
    load: Load,
    position: Coord,
    bearing: real)

  /** The ways the core fails. Each stands for the exception the source raises, or for
      the `TypeError` of reading a property of `undefined`. */
  datatype Fault =
    | MissingStopList(routeId: string)
    | MalformedStopEntry(routeId: string)
    | MissingStop(stationId: string)
    | MissingRoutePoints(routeId: string)
    | MissingStationIndex(routeId: string)
    | NoStationOnRoute(routeId: string)
    | MissingNode(routeId: string)
    | MissingRoute(routeId: string)
    | MissingStation(stationId: string)
    | NoBusData
}
