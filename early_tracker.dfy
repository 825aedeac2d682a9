/**
 * The tracking engine of the earlier snapshot (`main.ts`): the same index and walk as
 * the current service, except that `getNextStation` returns the pair of the current
 * node and the next station's node index, measures in the default unit, and
 * `getDistanceToNextStation` picks the next station itself and sums in metres.
 */
module EarlyTracker {
  import opened Wrappers
  import opened Records
  import opened Geometry
  import opened Domain
  import Tracker

  /** `getNextStation(bus, route, stationsToNodes, stations)` with `DEBUG` off: the
      bus's nearest node (distances in the default unit) and the node index of the
      chosen station, absent when the route's index has no station. A route without an
      index throws reading its values. */
  function GetNextStation(angle: CentralAngle, bus: Bus, route: Route, stationsToNodes: Tracker.StationsToNodes)
    : (r: Result<(int, Option<int>), Fault>)
    ensures r.Failure? <==> route.id !in stationsToNodes.entries
    ensures r.Failure? ==> r.error == MissingStationIndex(route.id)
    ensures r.Success? ==> r.value.0 == Tracker.NearestNode(angle, bus.position, route.nodes, None)
    ensures r.Success? ==> (r.value.1.None? <==> stationsToNodes.entries[route.id].entries == map[])
  {
    var currIdx := Tracker.NearestNode(angle, bus.position, route.nodes, None);
    if route.id !in stationsToNodes.entries then Failure(MissingStationIndex(route.id))
    else
      var stationsForRoute := stationsToNodes.entries[route.id];
      match Tracker.SelectNext(stationsForRoute, currIdx)
      case None => Success((currIdx, None))
      case Some(pick) => Success((currIdx, Some(stationsForRoute.entries[pick.1])))
  }

  /** The returned node index is `bestFitIdx` itself: the station found by matching that
      index maps back to it, so it is the best fit among the route's station indexes. */
  lemma NextIndexIsBestFit(angle: CentralAngle, bus: Bus, route: Route, stationsToNodes: Tracker.StationsToNodes)
    requires route.id in stationsToNodes.entries
    ensures var r := GetNextStation(angle, bus, route, stationsToNodes).value;
            var index := stationsToNodes.entries[route.id];
            r.1 == Tracker.BestFit(Values(index), r.0)
  {
    var index := stationsToNodes.entries[route.id];
    var currIdx := Tracker.NearestNode(angle, bus.position, route.nodes, None);
    Tracker.ValuesOfIndex(index);
    assert |index.keys| > 0 ==> index.keys[0] in index.entries;
    assert |index.keys| > 0 ==> index.entries[index.keys[0]] in Values(index);
  }

  /** The two snapshots choose alike: from the same data, the earlier one fails exactly
      when the current one has no index for the route; when the current one finds a
      station, the earlier one returns the same current node and the same station node
      index; when the current one throws for a route without stations, the earlier one
      returns the current node and no index. */
  lemma {:induction false} SnapshotsAgree(angle: CentralAngle, bus: Bus, route: Route, stationsToNodes: Tracker.StationsToNodes)
    ensures var early := GetNextStation(angle, bus, route, stationsToNodes);
            var current := Tracker.GetNextStation(angle, bus, route, stationsToNodes);
      && (early.Failure? <==> current == Failure(MissingStationIndex(route.id)))
      && (current.Success? ==>
            early == Success((current.value.currStationIdx, Some(current.value.nextStationIdx))))
      && (current == Failure(NoStationOnRoute(route.id)) ==>
            early == Success((Tracker.NearestNode(angle, bus.position, route.nodes, Some(Tracker.UNIT)), None)))
  {
    Tracker.NearestNodeIsUnitFree(angle, bus.position, route.nodes, None);
    Tracker.NearestNodeIsUnitFree(angle, bus.position, route.nodes, Some(Tracker.UNIT));
  }

  /** `getDistanceToNextStation(bus, route, stationsToNodes, stations)`: the walk from the
      bus's nearest node to the next station's node, in metres. A route without an index
      throws in `getNextStation`; a route without nodes gives 0 when the station's index
      is -1 too and throws reading the first segment otherwise. The loop never ends when
      the route has nodes but the target is `undefined` or no node of the route, so the
      caller must rule that out. */
  method GetDistanceToNextStation(angle: CentralAngle, bus: Bus, route: Route, stationsToNodes: Tracker.StationsToNodes)
    returns (r: Result<real, Fault>)
    requires var next := GetNextStation(angle, bus, route, stationsToNodes);
      next.Success? && route.nodes != [] ==> next.value.1.Some? && 0 <= next.value.1.value < |route.nodes|
    ensures var next := GetNextStation(angle, bus, route, stationsToNodes);
      && (next.Failure? ==> r == Failure(MissingStationIndex(route.id)))
      && (next.Success? && route.nodes == [] ==>
            r == if next.value.1 == Some(-1) then Success(0.0) else Failure(MissingNode(route.id)))
      && (next.Success? && route.nodes != [] ==>
            r == Success(Tracker.ForwardLength(Tracker.Segment(angle, Some(Meters)), route.nodes, next.value.0,
                                               Tracker.Steps(next.value.0, next.value.1.value, |route.nodes|))))
  {
    var next := GetNextStation(angle, bus, route, stationsToNodes);
    if next.Failure? {
      return Failure(next.error);
    }
    var (currIdx, nextStationIdx) := next.value;
    if nextStationIdx.None? {
      // The target is `undefined` and the route has no nodes: the first segment reads
      // node -1, which does not exist.
      return Failure(MissingNode(route.id));
    }
    r := Tracker.GetDistanceToNextStation(angle, currIdx, nextStationIdx.value, route, Some(Meters));
  }

  /** Where the earlier snapshot walks from the bus's nearest node to a station's node,
      the current one walks between the same two nodes, both valid for the route; by
      `ForwardLengthInUnits` the two distances then differ by the ratio of the factors
      of miles and metres. */
  lemma {:induction false} WalksAgree(angle: CentralAngle, bus: Bus, route: Route, stationsToNodes: Tracker.StationsToNodes,
                                          c: int, x: int)
    requires route.id in stationsToNodes.entries
    requires stationsToNodes.entries[route.id].entries != map[]
    requires Tracker.WellIndexed(stationsToNodes.entries[route.id], route.nodes)
    requires GetNextStation(angle, bus, route, stationsToNodes) == Success((c, Some(x)))
    ensures Tracker.GetNextStation(angle, bus, route, stationsToNodes).Success?
    ensures var stop := Tracker.GetNextStation(angle, bus, route, stationsToNodes).value;
            stop.currStationIdx == c && stop.nextStationIdx == x
    ensures Tracker.ValidNodeIndex(c, |route.nodes|) && Tracker.ValidNodeIndex(x, |route.nodes|)
  {
    SnapshotsAgree(angle, bus, route, stationsToNodes);
    var index := stationsToNodes.entries[route.id];
    var pick := Tracker.SelectNext(index, c).value;
    assert Tracker.ValidNodeIndex(pick.0, |route.nodes|);
  }

  /** The walk between two nodes, measured in metres and in miles: each length is the
      other times the ratio of the two factors. */
  lemma ForwardLengthInUnits(angle: CentralAngle, nodes: seq<Coord>, c: int, x: int)
    requires Tracker.ValidNodeIndex(c, |nodes|) && Tracker.ValidNodeIndex(x, |nodes|)
    ensures Tracker.ForwardLength(Tracker.Segment(angle, Some(Meters)), nodes, c, Tracker.Steps(c, x, |nodes|))
              * Factor(Tracker.UNIT)
         == Tracker.ForwardLength(Tracker.Segment(angle, Some(Tracker.UNIT)), nodes, c, Tracker.Steps(c, x, |nodes|))
              * Factor(Meters)
  {
    Tracker.ForwardLengthUnitConversion(angle, nodes, c, Tracker.Steps(c, x, |nodes|), Factor(Tracker.UNIT), Factor(Meters));
  }
}
