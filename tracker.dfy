/**
 * The tracking engine of the current service: the station-to-node index, the
 * next-station choice and the forward walk along a route's polyline.
 */
module Tracker {
  import opened Wrappers
  import opened Records
  import opened Geometry
  import opened Selection
  import opened Domain

  /** The unit the current service measures in. */
  const UNIT: Unit := Miles

  /** For each route id, the node index of each station id of that route. */
  type StationIndex = Record<int>
  type StationsToNodes = Record<StationIndex>

  /** The distance from `from` to each node, in node order. */
  function Distances(angle: CentralAngle, from: Coord, nodes: seq<Coord>, units: Option<Unit>): (ds: seq<real>)
    ensures |ds| == |nodes|
    ensures forall i :: 0 <= i < |nodes| ==> ds[i] == Measure(angle, from, nodes[i], units)
  {
    seq(|nodes|, i requires 0 <= i < |nodes| => Measure(angle, from, nodes[i], units))
  }

  /** `argMin` of the distances from `p` to the nodes: the earliest of the nearest nodes,
      or -1 when there is no node. */
  function NearestNode(angle: CentralAngle, p: Coord, nodes: seq<Coord>, units: Option<Unit>): (i: int)
    ensures nodes == [] ==> i == -1
    ensures nodes != [] ==> 0 <= i < |nodes|
    ensures nodes != [] ==> forall j :: 0 <= j < |nodes| ==> Measure(angle, p, nodes[i], units) <= Measure(angle, p, nodes[j], units)
    ensures nodes != [] ==> forall j :: 0 <= j < i ==> Measure(angle, p, nodes[i], units) < Measure(angle, p, nodes[j], units)
  {
    ArgMinOf(Distances(angle, p, nodes, units))
  }

  /** The nearest node does not depend on the unit: it is the earliest node at the
      smallest central angle. */
  lemma {:induction false} NearestNodeIsUnitFree(angle: CentralAngle, p: Coord, nodes: seq<Coord>, units: Option<Unit>)
    ensures NearestNode(angle, p, nodes, units) == ArgMinOf(seq(|nodes|, i requires 0 <= i < |nodes| => angle(p, nodes[i])))
  {
    var ds := Distances(angle, p, nodes, units);
    var angles := seq(|nodes|, i requires 0 <= i < |nodes| => angle(p, nodes[i]));
    forall i, j | 0 <= i < |ds| && 0 <= j < |ds| ensures ds[i] < ds[j] <==> angles[i] < angles[j] {
      MeasureOrdersLikeAngle(angle, p, nodes[i], p, nodes[j], units);
    }
    ArgMinOfOrderInvariant(ds, angles);
  }

  /** The valid value of a node index into `n` nodes: -1 (what `argMin` gives) when there
      is no node, otherwise a position of a node. */
  predicate ValidNodeIndex(v: int, n: nat) {
    if n == 0 then v == -1 else 0 <= v < n
  }

  /** Every station of the index names a valid node index into the route's nodes. */
  predicate WellIndexed(index: StationIndex, nodes: seq<Coord>) {
    forall k :: k in index.entries ==> ValidNodeIndex(index.entries[k], |nodes|)
  }

  /** `stationsPerRouteToNode[station.id] = bestNode`, for each path station in turn. */
  function IndexEntries(angle: CentralAngle, route: Route, units: Option<Unit>): seq<(string, int)> {
    seq(|route.path|, i requires 0 <= i < |route.path| =>
      (route.path[i].id, NearestNode(angle, route.path[i].position, route.nodes, units)))
  }

  /** The station index `mapStationsToNodes` builds for one route. */
  function RouteIndex(angle: CentralAngle, route: Route, units: Option<Unit>): StationIndex {
    PutAll(Empty(), IndexEntries(angle, route, units))
  }

  /** The station ids of the index are exactly those of the route's path. */
  lemma RouteIndexKeys(angle: CentralAngle, route: Route, units: Option<Unit>)
    ensures forall k :: k in RouteIndex(angle, route, units).entries <==>
              exists i :: 0 <= i < |route.path| && route.path[i].id == k
  {
    var kvs := IndexEntries(angle, route, units);
    forall k ensures k in PutAll(Empty(), kvs).entries <==> exists i :: 0 <= i < |route.path| && route.path[i].id == k {
      PutAllLastWins(Empty(), kvs, k);
      if exists i :: 0 <= i < |route.path| && route.path[i].id == k {
        var i :| 0 <= i < |route.path| && route.path[i].id == k;
        assert kvs[i].0 == k;
      }
    }
  }

  /** Each station id maps to the node nearest to the last path station with that id:
      no node of the route is strictly closer to it, and no earlier node is as close. */
  lemma RouteIndexNearest(angle: CentralAngle, route: Route, units: Option<Unit>, i: int)
    requires 0 <= i < |route.path|
    requires forall j :: i < j < |route.path| ==> route.path[j].id != route.path[i].id
    ensures route.path[i].id in RouteIndex(angle, route, units).entries
    ensures var v := RouteIndex(angle, route, units).entries[route.path[i].id];
      && v == NearestNode(angle, route.path[i].position, route.nodes, units)
      && ValidNodeIndex(v, |route.nodes|)
      && forall n :: 0 <= n < |route.nodes| ==>
           Measure(angle, route.path[i].position, route.nodes[v], units) <= Measure(angle, route.path[i].position, route.nodes[n], units)
  {
    var kvs := IndexEntries(angle, route, units);
    PutAllLastWins(Empty(), kvs, route.path[i].id);
    assert kvs[i].0 == route.path[i].id;
    var j := LastIndexOf(kvs, route.path[i].id);
    assert j == i;
  }

  /** Every node index of the index is valid for the route's nodes. */
  lemma RouteIndexWellIndexed(angle: CentralAngle, route: Route, units: Option<Unit>)
    ensures WellIndexed(RouteIndex(angle, route, units), route.nodes)
  {
    var kvs := IndexEntries(angle, route, units);
    forall k | k in PutAll(Empty(), kvs).entries ensures ValidNodeIndex(PutAll(Empty(), kvs).entries[k], |route.nodes|) {
      PutAllLastWins(Empty(), kvs, k);
    }
  }

  /** The index is the same whichever unit the distances are measured in. */
  lemma RouteIndexIsUnitFree(angle: CentralAngle, route: Route, u: Option<Unit>, v: Option<Unit>)
    ensures RouteIndex(angle, route, u) == RouteIndex(angle, route, v)
  {
    forall i | 0 <= i < |route.path|
      ensures NearestNode(angle, route.path[i].position, route.nodes, u) == NearestNode(angle, route.path[i].position, route.nodes, v)
    {
      NearestNodeIsUnitFree(angle, route.path[i].position, route.nodes, u);
      NearestNodeIsUnitFree(angle, route.path[i].position, route.nodes, v);
    }
    assert IndexEntries(angle, route, u) == IndexEntries(angle, route, v);
  }

  /** The inner `forEach` of `mapStationsToNodes`: one route's station index. */
  method IndexRoute(angle: CentralAngle, route: Route, units: Option<Unit>) returns (index: StationIndex)
    ensures index == RouteIndex(angle, route, units)
  {
    ghost var kvs := IndexEntries(angle, route, units);
    index := Empty();
    for i := 0 to |route.path|
      invariant index == PutAll(Empty(), kvs[..i])
    {
      var station := route.path[i];
      var distancesToStation := Distances(angle, station.position, route.nodes, units);
      var bestNode := ArgMin(distancesToStation);
      index := Put(index, station.id, bestNode);
      PutAllStep(Empty(), kvs, i);
    }
    assert kvs[..|route.path|] == kvs;
  }

  /** `mapStationsToNodes(routes)`, measuring in `units`: one station index per route,
      under the route's key, in the routes' key order. */
  method MapStationsToNodes(angle: CentralAngle, routes: Record<Route>, units: Option<Unit>) returns (stationsToNodes: StationsToNodes)
    ensures stationsToNodes.keys == routes.keys
    ensures forall k :: k in stationsToNodes.entries <==> k in routes.entries
    ensures forall k :: k in stationsToNodes.entries ==> stationsToNodes.entries[k] == RouteIndex(angle, routes.entries[k], units)
  {
    stationsToNodes := Empty();
    for i := 0 to |routes.keys|
      invariant stationsToNodes.keys == routes.keys[..i]
      invariant forall k :: k in stationsToNodes.entries <==> k in routes.keys[..i]
      invariant forall k :: k in stationsToNodes.entries ==> stationsToNodes.entries[k] == RouteIndex(angle, routes.entries[k], units)
    {
      var routeId := routes.keys[i];
      FreshKey(routes, i);
      assert routes.keys[..i + 1] == routes.keys[..i] + [routeId];
      var stationsPerRouteToNode := IndexRoute(angle, routes.entries[routeId], units);
      stationsToNodes := Put(stationsToNodes, routeId, stationsPerRouteToNode);
    }
    assert routes.keys[..|routes.keys|] == routes.keys;
  }

  /** `stationIdxes.filter(idx => idx > currIdx)` */
  function Ahead(idxs: seq<int>, curr: int): (ahead: seq<int>)
    ensures forall x :: x in ahead <==> x in idxs && x > curr
    ensures ahead == [] <==> forall x :: x in idxs ==> x <= curr
    decreases |idxs|
  {
    if idxs == [] then []
    else
      var rest := Ahead(idxs[..|idxs| - 1], curr);
      var x := idxs[|idxs| - 1];
      assert idxs == idxs[..|idxs| - 1] + [x];
      assert x in idxs;
      if x > curr then rest + [x] else rest
  }

  /** `Object.keys(index).find(id => index[id] === target)`, as a position in `keys`:
      the first key whose value is `target`, or -1. */
  function FirstWith(keys: seq<string>, entries: map<string, int>, target: int): (p: int)
    requires forall k :: k in keys ==> k in entries
    ensures -1 <= p < |keys|
    ensures p == -1 <==> forall q :: 0 <= q < |keys| ==> entries[keys[q]] != target
    ensures p >= 0 ==> entries[keys[p]] == target && forall q :: 0 <= q < p ==> entries[keys[q]] != target
    decreases |keys|
  {
    if keys == [] then -1
    else if entries[keys[0]] == target then 0
    else
      var p := FirstWith(keys[1..], entries, target);
      if p < 0 then -1 else p + 1
  }

  /** `min(futureStations) || min(stationIdxes)`: the smallest index ahead of `curr`,
      unless there is none or it is 0, which `||` treats as false and replaces by the
      smallest index overall; `None` for no index at all. */
  function BestFit(idxs: seq<int>, curr: int): (b: Option<int>)
    ensures b.None? <==> idxs == []
    ensures b.Some? ==> b.value in idxs
  {
    var ahead := MinOf(Ahead(idxs, curr));
    if ahead.Some? && ahead.value != 0 then ahead else MinOf(idxs)
  }

  /** From a node that exists, the best fit is the smallest index strictly ahead, or the
      smallest overall when none is ahead. */
  lemma BestFitAhead(idxs: seq<int>, curr: int)
    requires curr >= 0 && idxs != []
    ensures (exists x :: x in idxs && x > curr) ==>
              BestFit(idxs, curr).value > curr && forall x :: x in idxs && x > curr ==> BestFit(idxs, curr).value <= x
    ensures (forall x :: x in idxs ==> x <= curr) ==> forall x :: x in idxs ==> BestFit(idxs, curr).value <= x
  {
    var ahead := Ahead(idxs, curr);
    if exists x :: x in idxs && x > curr {
      var x :| x in idxs && x > curr;
      assert x in ahead;
    }
  }

  /** The values of an index are the node indexes its station ids map to. */
  lemma ValuesOfIndex(index: StationIndex)
    ensures forall x :: x in Values(index) <==> exists k :: k in index.entries && index.entries[k] == x
  {
    var idxs := Values(index);
    forall k | k in index.entries ensures index.entries[k] in idxs {
      var q :| 0 <= q < |index.keys| && index.keys[q] == k;
      assert idxs[q] == index.entries[k];
    }
  }

  /** The selection of `getNextStation`: the best fit and the first station id mapped to
      it; `None` when the route has no station. */
  function SelectNext(index: StationIndex, curr: int): (pick: Option<(int, string)>)
    ensures pick.None? <==> index.entries == map[]
    ensures pick.Some? ==>
      && pick.value.1 in index.entries
      && index.entries[pick.value.1] == pick.value.0
      && exists p :: 0 <= p < |index.keys| && index.keys[p] == pick.value.1 &&
           forall q :: 0 <= q < p ==> index.entries[index.keys[q]] != pick.value.0
  {
    ValuesOfIndex(index);
    assert |index.keys| > 0 ==> index.keys[0] in index.entries;
    match BestFit(Values(index), curr)
    case None => None
    case Some(idx) =>
      var p := FirstWith(index.keys, index.entries, idx);
      if p < 0 then None else Some((idx, index.keys[p]))
  }

  /** With a current node that exists, the best fit among an index's node indexes is
      the smallest one strictly ahead of it, or, when none is ahead, the smallest one
      overall. */
  lemma IndexBestFitAhead(index: StationIndex, curr: int)
    requires curr >= 0 && index.entries != map[]
    ensures BestFit(Values(index), curr).Some?
    ensures var idx := BestFit(Values(index), curr).value;
      && ((exists k :: k in index.entries && index.entries[k] > curr) ==>
            idx > curr && forall k :: k in index.entries && index.entries[k] > curr ==> idx <= index.entries[k])
      && ((forall k :: k in index.entries ==> index.entries[k] <= curr) ==>
            forall k :: k in index.entries ==> idx <= index.entries[k])
  {
    var idxs := Values(index);
    ValuesOfIndex(index);
    var k0 :| k0 in index.entries;
    assert index.entries[k0] in idxs;
    BestFitAhead(idxs, curr);
    var idx := BestFit(idxs, curr).value;
    if exists k :: k in index.entries && index.entries[k] > curr {
      var k :| k in index.entries && index.entries[k] > curr;
      assert index.entries[k] in idxs;
      AheadOfValues(index, idxs, curr, idx);
    } else {
      AllOfValues(index, idxs, idx);
    }
  }

  /** The chosen index is the best fit among the index's values. */
  lemma SelectNextIsBestFit(index: StationIndex, curr: int)
    ensures SelectNext(index, curr).Some? ==> SelectNext(index, curr).value.0 == BestFit(Values(index), curr).value
  {
  }

  lemma AheadOfValues(index: StationIndex, idxs: seq<int>, curr: int, idx: int)
    requires forall k :: k in index.entries ==> index.entries[k] in idxs
    requires forall x :: x in idxs && x > curr ==> idx <= x
    ensures forall k :: k in index.entries && index.entries[k] > curr ==> idx <= index.entries[k]
  {
    forall k | k in index.entries && index.entries[k] > curr ensures idx <= index.entries[k] {
    }
  }

  lemma AllOfValues(index: StationIndex, idxs: seq<int>, idx: int)
    requires forall k :: k in index.entries ==> index.entries[k] in idxs
    requires forall x :: x in idxs ==> idx <= x
    ensures forall k :: k in index.entries ==> idx <= index.entries[k]
  {
    forall k | k in index.entries ensures idx <= index.entries[k] {
    }
  }

  /** What `getNextStation` returns. */
  datatype NextStop = NextStop(currStationIdx: int, nextStationIdx: int, nextStation: string)

  /** `getNextStation(bus, route, stationsToNodes, stations)`: the bus's nearest node and
      the next station ahead of it. A route without an index throws reading its values,
      and a route without stations throws in the log line that names the station before
      the next one. */
  function GetNextStation(angle: CentralAngle, bus: Bus, route: Route, stationsToNodes: StationsToNodes): (r: Result<NextStop, Fault>)
    ensures route.id !in stationsToNodes.entries ==> r == Failure(MissingStationIndex(route.id))
    ensures route.id in stationsToNodes.entries && stationsToNodes.entries[route.id].entries == map[] ==>
      r == Failure(NoStationOnRoute(route.id))
    ensures r.Success? <==> route.id in stationsToNodes.entries && stationsToNodes.entries[route.id].entries != map[]
    ensures r.Success? ==>
      var index := stationsToNodes.entries[route.id];
      && r.value.currStationIdx == NearestNode(angle, bus.position, route.nodes, Some(UNIT))
      && BestFit(Values(index), r.value.currStationIdx) == Some(r.value.nextStationIdx)
      && r.value.nextStation in index.entries
      && index.entries[r.value.nextStation] == r.value.nextStationIdx
  {
    var currIdx := NearestNode(angle, bus.position, route.nodes, Some(UNIT));
    if route.id !in stationsToNodes.entries then Failure(MissingStationIndex(route.id))
    else
      match SelectNext(stationsToNodes.entries[route.id], currIdx)
      case None => Failure(NoStationOnRoute(route.id))
      case Some(pick) => Success(NextStop(currIdx, pick.0, pick.1))
  }

  /** With an index for the route, a station on it and a node to stand on, the current
      node is the bus's nearest node and the next station index is the smallest station
      node index strictly ahead of it, or the smallest overall when none is ahead; the
      next station is a station id mapped to that index. */
  lemma GetNextStationPicksAhead(angle: CentralAngle, bus: Bus, route: Route, stationsToNodes: StationsToNodes)
    requires route.id in stationsToNodes.entries && stationsToNodes.entries[route.id].entries != map[]
    requires route.nodes != []
    ensures GetNextStation(angle, bus, route, stationsToNodes).Success?
    ensures var stop := GetNextStation(angle, bus, route, stationsToNodes).value;
            var index := stationsToNodes.entries[route.id];
      && stop.currStationIdx == NearestNode(angle, bus.position, route.nodes, Some(UNIT))
      && stop.nextStation in index.entries
      && index.entries[stop.nextStation] == stop.nextStationIdx
      && ((exists k :: k in index.entries && index.entries[k] > stop.currStationIdx) ==>
            && stop.nextStationIdx > stop.currStationIdx
            && forall k :: k in index.entries && index.entries[k] > stop.currStationIdx ==> stop.nextStationIdx <= index.entries[k])
      && ((forall k :: k in index.entries ==> index.entries[k] <= stop.currStationIdx) ==>
            forall k :: k in index.entries ==> stop.nextStationIdx <= index.entries[k])
  {
    var currIdx := NearestNode(angle, bus.position, route.nodes, Some(UNIT));
    SelectNextIsBestFit(stationsToNodes.entries[route.id], currIdx);
    IndexBestFitAhead(stationsToNodes.entries[route.id], currIdx);
  }

  /** With an index valid for the route, both indexes of a next stop are valid node
      indexes of the route. */
  lemma NextStopInRange(angle: CentralAngle, bus: Bus, route: Route, stationsToNodes: StationsToNodes)
    requires route.id in stationsToNodes.entries && WellIndexed(stationsToNodes.entries[route.id], route.nodes)
    requires GetNextStation(angle, bus, route, stationsToNodes).Success?
    ensures var stop := GetNextStation(angle, bus, route, stationsToNodes).value;
      ValidNodeIndex(stop.currStationIdx, |route.nodes|) && ValidNodeIndex(stop.nextStationIdx, |route.nodes|)
  {
    var index := stationsToNodes.entries[route.id];
    var curr := NearestNode(angle, bus.position, route.nodes, Some(UNIT));
    var pick := SelectNext(index, curr).value;
    assert ValidNodeIndex(index.entries[pick.1], |route.nodes|);
  }

  /** The node after node `i` of `n` nodes: the next one, or node 0 after the last. */
  function StepFrom(i: int, n: int): int {
    if i + 1 >= n then 0 else i + 1
  }

  /** A step moves to the following node modulo the number of nodes. */
  lemma StepFromIsModular(i: int, n: int)
    requires 0 <= i < n
    ensures StepFrom(i, n) == (i + 1) % n
  {
    if i + 1 == n {
      assert (i + 1) % n == 0;
    }
  }

  /** The number of forward steps from node `c` to node `x`. */
  function Steps(c: int, x: int, n: int): int {
    if c <= x then x - c else n - c + x
  }

  /** The forward gap is the difference of the two nodes modulo the number of nodes. */
  lemma StepsIsForwardGap(c: int, x: int, n: int)
    requires 0 <= c < n && 0 <= x < n
    ensures Steps(c, x, n) == (x - c) % n
  {
    if c > x {
      var d := x - c + n;
      assert 0 <= d < n;
      assert x - c == -1 * n + d;
    }
  }

  /** The node reached after `k` steps from node `c`. */
  function Walk(c: int, k: nat, n: int): int
    decreases k
  {
    if k == 0 then c else Walk(StepFrom(c, n), k - 1, n)
  }

  /** One step from a node other than the target brings the walk one step closer. */
  lemma StepCloser(c: int, x: int, n: int)
    requires 0 <= c < n && 0 <= x < n && c != x
    ensures 0 <= StepFrom(c, n) < n
    ensures Steps(StepFrom(c, n), x, n) == Steps(c, x, n) - 1
  {
  }

  /** The walk from `c` reaches `x` after exactly `Steps(c, x, n)` steps, and not before. */
  lemma {:induction false} ArrivesAfterSteps(c: int, x: int, n: int)
    requires 0 <= c < n && 0 <= x < n
    ensures Steps(c, x, n) >= 0
    ensures Walk(c, Steps(c, x, n), n) == x
    ensures forall k :: 0 <= k < Steps(c, x, n) ==> Walk(c, k, n) != x
    decreases Steps(c, x, n)
  {
    if c != x {
      StepCloser(c, x, n);
      var c' := StepFrom(c, n);
      ArrivesAfterSteps(c', x, n);
      forall k | 0 <= k < Steps(c, x, n) ensures Walk(c, k, n) != x {
        if k > 0 {
          assert Walk(c, k, n) == Walk(c', k - 1, n);
        }
      }
    }
  }

  /** The length of one segment of the polyline, measured in `units`. */
  function Segment(angle: CentralAngle, units: Option<Unit>): (Coord, Coord) -> real {
    Scaled(angle, Factor(units.GetOr(DEFAULT_UNITS)))
  }

  /** The central angle between two positions times a fixed factor. */
  function Scaled(angle: CentralAngle, factor: real): (Coord, Coord) -> real {
    (a: Coord, b: Coord) => angle(a, b) * factor
  }

  /** The length of `steps` forward segments from node `start`, each from a node to the
      node after it, with `seg` giving the length of a segment. */
  function ForwardLength(seg: (Coord, Coord) -> real, nodes: seq<Coord>, start: int, steps: nat): real
    requires steps == 0 || 0 <= start < |nodes|
    decreases steps
  {
    if steps == 0 then 0.0
    else
      var next := StepFrom(start, |nodes|);
      seg(nodes[start], nodes[next]) + ForwardLength(seg, nodes, next, steps - 1)
  }

  /** A forward walk splits at any intermediate node. */
  lemma {:induction false} ForwardLengthSplit(seg: (Coord, Coord) -> real, nodes: seq<Coord>, start: int, a: nat, b: nat)
    requires 0 <= start < |nodes|
    ensures 0 <= Walk(start, a, |nodes|) < |nodes|
    ensures ForwardLength(seg, nodes, start, a + b)
         == ForwardLength(seg, nodes, start, a) + ForwardLength(seg, nodes, Walk(start, a, |nodes|), b)
    decreases a
  {
    if a > 0 {
      ForwardLengthSplit(seg, nodes, StepFrom(start, |nodes|), a - 1, b);
      assert a + b - 1 == (a - 1) + b;
    }
  }

  /** From node `c` to node `x` and on back to `c` is exactly one lap of the route. */
  lemma StepsAroundLoop(c: int, x: int, n: int)
    requires 0 <= c < n && 0 <= x < n && c != x
    ensures Steps(c, x, n) + Steps(x, c, n) == n
  {
  }

  /** The distance to the next station plus the distance from there back to the bus's
      node is the length of the whole polyline loop. */
  lemma ThereAndBackIsOneLap(seg: (Coord, Coord) -> real, nodes: seq<Coord>, c: int, x: int)
    requires 0 <= c < |nodes| && 0 <= x < |nodes| && c != x
    ensures ForwardLength(seg, nodes, c, Steps(c, x, |nodes|)) + ForwardLength(seg, nodes, x, Steps(x, c, |nodes|))
         == ForwardLength(seg, nodes, c, |nodes|)
  {
    StepsAroundLoop(c, x, |nodes|);
    ArrivesAfterSteps(c, x, |nodes|);
    ForwardLengthSplit(seg, nodes, c, Steps(c, x, |nodes|), Steps(x, c, |nodes|));
  }

  /** Two walks whose segments are in the proportion `f' : f` are in that proportion. */
  lemma {:induction false} ForwardLengthScales(seg: (Coord, Coord) -> real, f: real, seg': (Coord, Coord) -> real, f': real,
                                               nodes: seq<Coord>, start: int, steps: nat)
    requires steps == 0 || 0 <= start < |nodes|
    requires forall a, b :: seg'(a, b) * f == seg(a, b) * f'
    ensures ForwardLength(seg', nodes, start, steps) * f == ForwardLength(seg, nodes, start, steps) * f'
    decreases steps
  {
    if steps > 0 {
      var next := StepFrom(start, |nodes|);
      ForwardLengthScales(seg, f, seg', f', nodes, next, steps - 1);
      Distribute(seg'(nodes[start], nodes[next]), ForwardLength(seg', nodes, next, steps - 1), f);
      Distribute(seg(nodes[start], nodes[next]), ForwardLength(seg, nodes, next, steps - 1), f');
    }
  }

  lemma Distribute(a: real, b: real, r: real)
    ensures (a + b) * r == a * r + b * r
  {
  }

  /** Segments scaled by two factors are in the proportion of the factors. */
  lemma ScaledProportional(angle: CentralAngle, fu: real, fv: real)
    ensures forall a, b :: Scaled(angle, fv)(a, b) * fu == Scaled(angle, fu)(a, b) * fv
  {
    forall a, b ensures Scaled(angle, fv)(a, b) * fu == Scaled(angle, fu)(a, b) * fv {
      Commute(angle(a, b), fv, fu);
    }
  }

  lemma Commute(x: real, y: real, z: real)
    ensures x * y * z == x * z * y
  {
  }

  /** The same walk measured with two factors: the lengths are in the proportion of the
      factors, so each is the other times the ratio of the factors. */
  lemma ForwardLengthUnitConversion(angle: CentralAngle, nodes: seq<Coord>, start: int, steps: nat, fu: real, fv: real)
    requires steps == 0 || 0 <= start < |nodes|
    ensures ForwardLength(Scaled(angle, fv), nodes, start, steps) * fu
         == ForwardLength(Scaled(angle, fu), nodes, start, steps) * fv
  {
    ScaledProportional(angle, fu, fv);
    ForwardLengthScales(Scaled(angle, fu), fu, Scaled(angle, fv), fv, nodes, start, steps);
  }

  /** A walk to another node is its first segment followed by the walk from the next node. */
  lemma ForwardLengthStep(seg: (Coord, Coord) -> real, nodes: seq<Coord>, c: int, x: int)
    requires 0 <= c < |nodes| && 0 <= x < |nodes| && c != x
    ensures 0 <= StepFrom(c, |nodes|) < |nodes|
    ensures Steps(StepFrom(c, |nodes|), x, |nodes|) == Steps(c, x, |nodes|) - 1
    ensures ForwardLength(seg, nodes, c, Steps(c, x, |nodes|))
         == seg(nodes[c], nodes[StepFrom(c, |nodes|)]) + ForwardLength(seg, nodes, StepFrom(c, |nodes|), Steps(StepFrom(c, |nodes|), x, |nodes|))
  {
    StepCloser(c, x, |nodes|);
  }

  /** One segment of the walk is the distance between its two nodes. */
  lemma MeasureIsSegment(angle: CentralAngle, a: Coord, b: Coord, units: Option<Unit>)
    ensures Measure(angle, a, b, units) == Segment(angle, units)(a, b)
  {
  }

  /** `getDistanceToNextStation(currStationIdx, nextStationIdx, route)`, measuring in
      `units`: the walk from the current node to the next station's node, stepping to
      the following node and from the last node back to node 0. The walk ends only if
      the two indexes are equal or both name nodes of the route. */
  method GetDistanceToNextStation(angle: CentralAngle, currStationIdx: int, nextStationIdx: int, route: Route, units: Option<Unit>)
    returns (r: Result<real, Fault>)
    requires 0 <= currStationIdx < |route.nodes| ==> 0 <= nextStationIdx < |route.nodes|
    ensures currStationIdx == nextStationIdx ==> r == Success(0.0)
    ensures currStationIdx != nextStationIdx && !(0 <= currStationIdx < |route.nodes|) ==> r == Failure(MissingNode(route.id))
    ensures 0 <= currStationIdx < |route.nodes| ==>
      r == Success(ForwardLength(Segment(angle, units), route.nodes, currStationIdx,
                                 Steps(currStationIdx, nextStationIdx, |route.nodes|)))
  {
    if currStationIdx != nextStationIdx && !(0 <= currStationIdx < |route.nodes|) {
      // The first segment starts at a node the route does not have: reading its
      // coordinates throws.
      return Failure(MissingNode(route.id));
    }
    var totalDistance := 0.0;
    ghost var n := |route.nodes|;
    ghost var total := Steps(currStationIdx, nextStationIdx, n);
    var curr := currStationIdx;
    while curr != nextStationIdx
      invariant curr == nextStationIdx || (0 <= curr < n && 0 <= nextStationIdx < n)
      invariant Steps(curr, nextStationIdx, n) >= 0
      invariant totalDistance + ForwardLength(Segment(angle, units), route.nodes, curr, Steps(curr, nextStationIdx, n))
             == ForwardLength(Segment(angle, units), route.nodes, currStationIdx, total)
      decreases Steps(curr, nextStationIdx, n)
    {
      var nextIdx := if curr + 1 >= |route.nodes| then 0 else curr + 1;
      ForwardLengthStep(Segment(angle, units), route.nodes, curr, nextStationIdx);
      assert nextIdx == StepFrom(curr, n);
      MeasureIsSegment(angle, route.nodes[curr], route.nodes[nextIdx], units);
      totalDistance := totalDistance + Measure(angle, route.nodes[curr], route.nodes[nextIdx], units);
      curr := nextIdx;
    }
    return Success(totalDistance);
  }

  /** The first bus of `buses` whose route id is `routeId`. */
  function FirstBusOn(buses: seq<Bus>, routeId: string): (b: Option<Bus>)
    ensures b.None? <==> forall i :: 0 <= i < |buses| ==> buses[i].routeId != routeId
    ensures b.Some? ==> exists i :: 0 <= i < |buses| && buses[i] == b.value && b.value.routeId == routeId &&
                          forall j :: 0 <= j < i ==> buses[j].routeId != routeId
    decreases |buses|
  {
    if buses == [] then None
    else if buses[0].routeId == routeId then Some(buses[0])
    else
      var b := FirstBusOn(buses[1..], routeId);
      if b.Some? then
        var i :| 0 <= i < |buses[1..]| && buses[1..][i] == b.value && b.value.routeId == routeId &&
                 forall j :: 0 <= j < i ==> buses[1..][j].routeId != routeId;
        assert buses[i + 1] == b.value;
        b
      else b
  }

  /** The stations-to-nodes table names, for each route the route table holds, node
      indexes valid for that route, as `mapStationsToNodes` over the same routes does. */
  ghost predicate IndexesMatchRoutes(routes: Record<Route>, stationsToNodes: StationsToNodes) {
    forall k :: k in routes.entries && routes.entries[k].id in stationsToNodes.entries ==>
      WellIndexed(stationsToNodes.entries[routes.entries[k].id], routes.entries[k].nodes)
  }

  /** The index `mapStationsToNodes` builds over routes keyed by their own ids matches them. */
  lemma MappedIndexesMatchRoutes(angle: CentralAngle, routes: Record<Route>, units: Option<Unit>, stationsToNodes: StationsToNodes)
    requires forall k :: k in routes.entries ==> routes.entries[k].id == k
    requires forall k :: k in stationsToNodes.entries <==> k in routes.entries
    requires forall k :: k in stationsToNodes.entries ==> stationsToNodes.entries[k] == RouteIndex(angle, routes.entries[k], units)
    ensures IndexesMatchRoutes(routes, stationsToNodes)
  {
    forall k | k in routes.entries && routes.entries[k].id in stationsToNodes.entries
      ensures WellIndexed(stationsToNodes.entries[routes.entries[k].id], routes.entries[k].nodes)
    {
      RouteIndexWellIndexed(angle, routes.entries[k], units);
    }
  }

  /** What `testHopDistance` reports: the next station's name, the distance to it and
      the bus's position. */
  datatype HopReport = HopReport(stationName: string, distance: real, busPos: Coord)

  /** The report for the first bus on `routeId`, or the fault the composition raises. */
  function HopDistance(angle: CentralAngle, routeId: string, routes: Record<Route>, stations: Record<Station>,
                       buses: Record<Bus>, stationsToNodes: StationsToNodes): (r: Result<HopReport, Fault>)
    requires IndexesMatchRoutes(routes, stationsToNodes)
    ensures r == Failure(NoBusData) <==> forall b :: b in Values(buses) ==> b.routeId != routeId
  {
    match FirstBusOn(Values(buses), routeId)
    case None => Failure(NoBusData)
    case Some(bus) =>
      if bus.routeId !in routes.entries then Failure(MissingRoute(bus.routeId))
      else
        var route := routes.entries[bus.routeId];
        var stop :- GetNextStation(angle, bus, route, stationsToNodes);
        if stop.nextStation !in stations.entries then Failure(MissingStation(stop.nextStation))
        else
          var n := |route.nodes|;
          var steps := Steps(stop.currStationIdx, stop.nextStationIdx, n);
          Success(HopReport(stations.entries[stop.nextStation].name,
                            ForwardLength(Segment(angle, Some(UNIT)), route.nodes, stop.currStationIdx, steps), bus.position))
  }

  /** The data part of `testHopDistance(routeId)`: the first bus on the route, its next
      station and the distance to it, measured by walking the route's nodes. */
  method TestHopDistance(angle: CentralAngle, routeId: string, routes: Record<Route>, stations: Record<Station>,
                         buses: Record<Bus>, stationsToNodes: StationsToNodes) returns (r: Result<HopReport, Fault>)
    requires IndexesMatchRoutes(routes, stationsToNodes)
    ensures r == HopDistance(angle, routeId, routes, stations, buses, stationsToNodes)
  {
    var found := FirstBusOn(Values(buses), routeId);
    if found.None? {
      return Failure(NoBusData);
    }
    var bus := found.value;
    if bus.routeId !in routes.entries {
      return Failure(MissingRoute(bus.routeId));
    }
    var route := routes.entries[bus.routeId];
    var next := GetNextStation(angle, bus, route, stationsToNodes);
    if next.Failure? {
      return Failure(next.error);
    }
    var stop := next.value;
    if stop.nextStation !in stations.entries {
      return Failure(MissingStation(stop.nextStation));
    }
    NextStopInRange(angle, bus, route, stationsToNodes);
    var walked := GetDistanceToNextStation(angle, stop.currStationIdx, stop.nextStationIdx, route, Some(UNIT));
    return Success(HopReport(stations.entries[stop.nextStation].name, walked.value, bus.position));
  }

  /** The report names a station of the route's index and gives the forward distance,
      in the service's unit, from the node nearest `position` to that station's node. */
  ghost predicate ReportsStationAhead(angle: CentralAngle, report: HopReport, position: Coord, route: Route,
                                      index: StationIndex, stations: Record<Station>) {
    var curr := NearestNode(angle, position, route.nodes, Some(UNIT));
    exists id :: id in index.entries && id in stations.entries
      && report.stationName == stations.entries[id].name
      && var next := index.entries[id];
         && (curr == next || (0 <= curr < |route.nodes| && 0 <= next < |route.nodes|))
         && report.distance == ForwardLength(Segment(angle, Some(UNIT)), route.nodes, curr, Steps(curr, next, |route.nodes|))
  }

  /** A report describes the first bus on the route: its position, and the name of and
      forward distance to a station of the route's index, walked from the bus's nearest
      node. */
  lemma HopDistanceOfFirstBus(angle: CentralAngle, routeId: string, routes: Record<Route>, stations: Record<Station>,
                              buses: Record<Bus>, stationsToNodes: StationsToNodes)
    requires IndexesMatchRoutes(routes, stationsToNodes)
    requires HopDistance(angle, routeId, routes, stations, buses, stationsToNodes).Success?
    ensures var report := HopDistance(angle, routeId, routes, stations, buses, stationsToNodes).value;
            var bus := FirstBusOn(Values(buses), routeId).value;
      && bus in Values(buses) && bus.routeId == routeId
      && report.busPos == bus.position
      && routeId in routes.entries && routes.entries[routeId].id in stationsToNodes.entries
      && ReportsStationAhead(angle, report, bus.position, routes.entries[routeId],
                             stationsToNodes.entries[routes.entries[routeId].id], stations)
  {
    var bus := FirstBusOn(Values(buses), routeId).value;
    var i :| 0 <= i < |Values(buses)| && Values(buses)[i] == bus;
    HopDistanceComposes(angle, routeId, routes, stations, buses, stationsToNodes);
    var route := routes.entries[routeId];
    var stop := GetNextStation(angle, bus, route, stationsToNodes).value;
    var report := HopDistance(angle, routeId, routes, stations, buses, stationsToNodes).value;
    assert routes.entries[routeId].id in stationsToNodes.entries;
    NextStopInRange(angle, bus, route, stationsToNodes);
    StopReportsStationAhead(angle, bus, route, stationsToNodes, stations, report);
  }

  /** A successful composition: the first bus on the route, its route, a next stop, and
      the report built from them. */
  lemma HopDistanceComposes(angle: CentralAngle, routeId: string, routes: Record<Route>, stations: Record<Station>,
                            buses: Record<Bus>, stationsToNodes: StationsToNodes)
    requires IndexesMatchRoutes(routes, stationsToNodes)
    requires HopDistance(angle, routeId, routes, stations, buses, stationsToNodes).Success?
    ensures FirstBusOn(Values(buses), routeId).Some?
    ensures var bus := FirstBusOn(Values(buses), routeId).value;
      && bus.routeId == routeId && routeId in routes.entries
      && var route := routes.entries[routeId];
         var next := GetNextStation(angle, bus, route, stationsToNodes);
         && next.Success? && next.value.nextStation in stations.entries
         && HopDistance(angle, routeId, routes, stations, buses, stationsToNodes).value
            == HopReport(stations.entries[next.value.nextStation].name,
                         ForwardLength(Segment(angle, Some(UNIT)), route.nodes, next.value.currStationIdx,
                                       Steps(next.value.currStationIdx, next.value.nextStationIdx, |route.nodes|)),
                         bus.position)
  {
  }

  /** The report built from a next stop names that stop's station and walks to its node. */
  lemma StopReportsStationAhead(angle: CentralAngle, bus: Bus, route: Route, stationsToNodes: StationsToNodes,
                                stations: Record<Station>, report: HopReport)
    requires route.id in stationsToNodes.entries && WellIndexed(stationsToNodes.entries[route.id], route.nodes)
    requires GetNextStation(angle, bus, route, stationsToNodes).Success?
    requires var stop := GetNextStation(angle, bus, route, stationsToNodes).value;
      && ValidNodeIndex(stop.currStationIdx, |route.nodes|) && ValidNodeIndex(stop.nextStationIdx, |route.nodes|)
      && stop.nextStation in stations.entries
      && report.stationName == stations.entries[stop.nextStation].name
      && report.distance == ForwardLength(Segment(angle, Some(UNIT)), route.nodes, stop.currStationIdx,
                                          Steps(stop.currStationIdx, stop.nextStationIdx, |route.nodes|))
    ensures ReportsStationAhead(angle, report, bus.position, route, stationsToNodes.entries[route.id], stations)
  {
    var stop := GetNextStation(angle, bus, route, stationsToNodes).value;
    var index := stationsToNodes.entries[route.id];
    var pick := SelectNext(index, stop.currStationIdx).value;
    assert stop.nextStation == pick.1 && index.entries[pick.1] == stop.nextStationIdx;
  }
}
