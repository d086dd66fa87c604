/**
 * The route builder of backend/src/utils/mapbox.js: the request of a route
 * through given waypoints (`getRouteGeoJSON`) and the pooled route of a
 * group (`generateOptimizedRoute`). The routing service is a parameter: a
 * function from the requested coordinate string to its reply.
 */
module Mapbox {
  import opened Wrappers
  import opened Basics
  import opened GroupModel
  import opened MapboxText
  import opened MapboxSort
  import opened MapboxWalk

  /** A group member as the route builder reads it: the user and, when present, the two ends of their ride. */
  datatype RouteMember = RouteMember(
    userId: UserId,
    fullName: string,
    avatar: string,
    source: Option<Coord>,
    destination: Option<Coord>)

  datatype RouteError =
    | TooFewWaypoints
    | FetchFailed
    | NoRoute
    | ApiKeyMissing
    | MissingCoordinates(userId: UserId)
    | DirectionsFailed

  /** The routing service's reply to a route request: a failed response, or the geometries of the routes found. */
  datatype RouteReply = NotOk | Ok(routes: seq<string>)

  /** A GeoJSON feature holding the first route's geometry. */
  datatype Feature = Feature(geometry: string)

  /** `getRouteGeoJSON`: at least two waypoints, a successful reply and at least one route. */
  function RouteGeoJSON(waypoints: seq<Coord>, fetchRoute: string -> RouteReply): (r: Result<Feature, RouteError>)
    ensures |waypoints| < 2 ==> r == Failure(TooFewWaypoints)
    ensures r.Success? <==>
      |waypoints| >= 2 && fetchRoute(CoordsString(waypoints)).Ok? && |fetchRoute(CoordsString(waypoints)).routes| > 0
    ensures r.Success? ==> r.value.geometry == fetchRoute(CoordsString(waypoints)).routes[0]
    ensures |waypoints| >= 2 && fetchRoute(CoordsString(waypoints)).NotOk? ==> r == Failure(FetchFailed)
    ensures |waypoints| >= 2 && fetchRoute(CoordsString(waypoints)) == Ok([]) ==> r == Failure(NoRoute)
  {
    if |waypoints| < 2 then Failure(TooFewWaypoints)
    else
      var reply := fetchRoute(CoordsString(waypoints));
      if reply.NotOk? then Failure(FetchFailed)
      else if |reply.routes| == 0 then Failure(NoRoute)
      else Success(Feature(reply.routes[0]))
  }

  /** The requested coordinate string names exactly the waypoints, in order. */
  lemma RouteRequestNamesWaypoints(waypoints: seq<Coord>)
    ensures ParseCoords(CoordsString(waypoints)) == Some(waypoints)
  {
    CoordsRoundTrip(waypoints);
  }

  predicate Complete(m: RouteMember) {
    m.source.Some? && m.destination.Some?
  }

  function PickupOf(m: RouteMember): (w: Waypoint)
    requires Complete(m)
    ensures w.kind == Pickup && w.userId == m.userId && w.location == m.source.value
  {
    Waypoint(m.userId, m.fullName, m.avatar, Pickup, m.source.value)
  }

  function DropOf(m: RouteMember): (w: Waypoint)
    requires Complete(m)
    ensures w.kind == Drop && w.userId == m.userId && w.location == m.destination.value
  {
    Waypoint(m.userId, m.fullName, m.avatar, Drop, m.destination.value)
  }

  /**
   * The stops of the members: for each member in turn a pickup at the
   * ride's source and a drop at its destination; the first member lacking
   * either end stops the build.
   */
  function PointsFor(members: seq<RouteMember>): (r: Result<seq<Waypoint>, RouteError>)
    ensures r.Success? <==> forall k :: 0 <= k < |members| ==> Complete(members[k])
    ensures r.Success? ==> |r.value| == 2 * |members|
    ensures r.Success? ==> forall k :: 0 <= k < |members| ==>
      r.value[2 * k] == PickupOf(members[k]) && r.value[2 * k + 1] == DropOf(members[k])
    ensures r.Failure? ==> exists k ::
      && 0 <= k < |members| && !Complete(members[k])
      && (forall j :: 0 <= j < k ==> Complete(members[j]))
      && r.error == MissingCoordinates(members[k].userId)
  {
    if |members| == 0 then Success([])
    else
      var init, m := members[..|members| - 1], members[|members| - 1];
      assert forall k :: 0 <= k < |init| ==> init[k] == members[k];
      match PointsFor(init)
      case Failure(e) => Failure(e)
      case Success(ps) =>
        if !Complete(m) then Failure(MissingCoordinates(m.userId))
        else Success(ps + [PickupOf(m), DropOf(m)])
  }

  /** The loop of generateOptimizedRoute that builds the stops. */
  method BuildPoints(members: seq<RouteMember>) returns (r: Result<seq<Waypoint>, RouteError>)
    ensures r == PointsFor(members)
  {
    var points: seq<Waypoint> := [];
    for i := 0 to |members|
      invariant PointsFor(members[..i]) == Success(points)
      invariant forall j :: 0 <= j < i ==> Complete(members[j])
    {
      var m := members[i];
      if m.source.None? || m.destination.None? {
        FirstGap(members, i);
        return Failure(MissingCoordinates(m.userId));
      }
      PointsForPrefix(members, i, points);
      points := points + [PickupOf(m), DropOf(m)];
    }
    assert members[..|members|] == members;
    r := Success(points);
  }

  /** The build stops at the first member lacking an end of their ride. */
  lemma FirstGap(members: seq<RouteMember>, i: int)
    requires 0 <= i < |members| && !Complete(members[i])
    requires forall j :: 0 <= j < i ==> Complete(members[j])
    ensures PointsFor(members) == Failure(MissingCoordinates(members[i].userId))
  {
    var r := PointsFor(members);
    var k :| && 0 <= k < |members| && !Complete(members[k])
             && (forall j :: 0 <= j < k ==> Complete(members[j]))
             && r.error == MissingCoordinates(members[k].userId);
    assert !(k < i);
    assert !(i < k);
  }

  /** One more member extends the stops built so far, or stops the build. */
  lemma PointsForPrefix(members: seq<RouteMember>, i: int, ps: seq<Waypoint>)
    requires 0 <= i < |members| && PointsFor(members[..i]) == Success(ps)
    ensures PointsFor(members[..i + 1]) ==
      if Complete(members[i]) then Success(ps + [PickupOf(members[i]), DropOf(members[i])])
      else Failure(MissingCoordinates(members[i].userId))
  {
    assert members[..i + 1][..i] == members[..i];
  }

  /** No two members are the same user. */
  predicate DistinctUsers(members: seq<RouteMember>) {
    forall a, b :: 0 <= a < b < |members| ==> members[a].userId != members[b].userId
  }

  /** The stop at `i` is the pickup or the drop of member `i / 2`. */
  lemma StopAt(members: seq<RouteMember>, i: int)
    requires PointsFor(members).Success? && 0 <= i < 2 * |members|
    ensures var p, m := PointsFor(members).value[i], members[i / 2];
      p.userId == m.userId && (p.kind == Pickup <==> i % 2 == 0)
  {
    var k, ps := i / 2, PointsFor(members).value;
    if i % 2 == 0 {
      assert i == 2 * k;
      assert ps[i] == PickupOf(members[k]);
    } else {
      assert i == 2 * k + 1;
      assert ps[i] == DropOf(members[k]);
    }
  }

  /** Every built drop has its user's pickup just before it. */
  lemma BuiltDropsHavePickups(members: seq<RouteMember>)
    requires PointsFor(members).Success?
    ensures DropsHavePickups(PointsFor(members).value)
  {
    var ps := PointsFor(members).value;
    forall u | u in DropUsers(ps) ensures u in PickupUsers(ps) {
      var d :| d in ps && d.kind == Drop && d.userId == u;
      var i :| 0 <= i < |ps| && ps[i] == d;
      StopAt(members, i);
      StopAt(members, i - 1);
      assert ps[i - 1] in ps;
    }
  }

  /** Members that are distinct users give stops with unique roles. */
  lemma BuiltTagsUnique(members: seq<RouteMember>)
    requires PointsFor(members).Success? && DistinctUsers(members)
    ensures UniqueTags(PointsFor(members).value)
  {
    var ps := PointsFor(members).value;
    forall i, j | 0 <= i < j < |ps| ensures ps[i].userId != ps[j].userId || ps[i].kind != ps[j].kind {
      StopAt(members, i);
      StopAt(members, j);
      if i / 2 != j / 2 {
        assert i / 2 < j / 2;
      }
    }
  }

  /** A permutation has the same pickup and drop users. */
  lemma UsersPerm(a: seq<Waypoint>, b: seq<Waypoint>)
    requires multiset(a) == multiset(b)
    ensures PickupUsers(a) == PickupUsers(b) && DropUsers(a) == DropUsers(b)
  {
    forall p ensures p in a <==> p in b {
      assert p in a <==> p in multiset(a);
    }
  }

  /** The locations of the stops, in order (`finalOrder.map(p => p.loc)`). */
  function Locations(order: seq<Waypoint>): (cs: seq<Coord>)
    ensures |cs| == |order|
    ensures forall k :: 0 <= k < |order| ==> cs[k] == order[k].location
  {
    seq(|order|, k requires 0 <= k < |order| => order[k].location)
  }

  /** `!MAPBOX_API_KEY` is false: the key is set and not empty. */
  predicate KeySet(apiKey: Option<string>) {
    apiKey.Some? && apiKey.value != ""
  }

  /** The stops of `points` sorted along the dominant axis in the direction of travel. */
  function SortedStops(points: seq<Waypoint>): (s: seq<Waypoint>)
    ensures |s| == |points|
    ensures multiset(s) == multiset(points)
  {
    var axis := ChooseAxis(points);
    SortByAxis(points, axis, ChooseAscending(points, axis))
  }

  /**
   * `generateOptimizedRoute`: build the stops, sort them along the dominant
   * axis, place each drop after its user's pickup, and ask the routing
   * service for directions through the resulting coordinates.
   */
  method GenerateOptimizedRoute(members: seq<RouteMember>, apiKey: Option<string>,
                                directionsFor: string -> Option<Directions>)
    returns (r: Result<PooledRoute, RouteError>)
    ensures !KeySet(apiKey) ==> r == Failure(ApiKeyMissing)
    ensures KeySet(apiKey) && PointsFor(members).Failure? ==> r == Failure(PointsFor(members).error)
    ensures KeySet(apiKey) && PointsFor(members).Success? && r.Failure? ==> r.error == DirectionsFailed
    ensures KeySet(apiKey) && PointsFor(members).Success? && (forall s :: directionsFor(s).Some?) ==> r.Success?
    ensures r.Success? ==> KeySet(apiKey) && PointsFor(members).Success?
    ensures r.Success? ==> r.value.orderedCoordinates == Locations(r.value.waypointOrder)
    ensures r.Success? ==> directionsFor(CoordsString(r.value.orderedCoordinates)) == Some(r.value.directions)
    ensures r.Success? ==> r.value.waypointOrder == Placed(SortedStops(PointsFor(members).value))
    ensures r.Success? ==> Arranged(PointsFor(members).value, r.value.waypointOrder)
    ensures r.Success? && DistinctUsers(members) ==> ArrangedExactly(PointsFor(members).value, r.value.waypointOrder)
  {
    if apiKey.None? || apiKey.value == "" {
      return Failure(ApiKeyMissing);
    }
    var built := BuildPoints(members);
    if built.Failure? {
      return Failure(built.error);
    }
    var points := built.value;
    BuiltDropsHavePickups(members);
    if DistinctUsers(members) {
      BuiltTagsUnique(members);
    }
    r := RouteThrough(points, directionsFor);
  }

  /**
   * The second half of `generateOptimizedRoute`: order the built stops, and
   * ask the routing service for directions through their locations.
   */
  method RouteThrough(points: seq<Waypoint>, directionsFor: string -> Option<Directions>)
    returns (r: Result<PooledRoute, RouteError>)
    requires DropsHavePickups(points)
    ensures r.Failure? ==> r.error == DirectionsFailed
    ensures (forall s :: directionsFor(s).Some?) ==> r.Success?
    ensures r.Success? ==> r.value.orderedCoordinates == Locations(r.value.waypointOrder)
    ensures r.Success? ==> directionsFor(CoordsString(r.value.orderedCoordinates)) == Some(r.value.directions)
    ensures r.Success? ==> r.value.waypointOrder == Placed(SortedStops(points))
    ensures r.Success? ==> Arranged(points, r.value.waypointOrder)
    ensures r.Success? && UniqueTags(points) ==> ArrangedExactly(points, r.value.waypointOrder)
  {
    var order := OrderStops(points);
    var coords := Locations(order);
    var reply := directionsFor(CoordsString(coords));
    if reply.None? {
      return Failure(DirectionsFailed);
    }
    r := Success(PooledRoute(order, coords, reply.value));
  }

  /**
   * `order` arranges the stops `points`: drawn from them, every pickup kept,
   * and every drop after a pickup of its user.
   */
  ghost predicate Arranged(points: seq<Waypoint>, order: seq<Waypoint>) {
    && multiset(order) <= multiset(points)
    && (forall j :: 0 <= j < |points| && points[j].kind == Pickup ==> points[j] in order)
    && (forall a :: 0 <= a < |order| && order[a].kind == Drop ==> PickupBefore(order, a))
  }

  /**
   * With unique roles: `order` is a permutation of `points` with each pickup
   * before its drop, and each drop met before its pickup in the sorted stops
   * right after that pickup.
   */
  ghost predicate ArrangedExactly(points: seq<Waypoint>, order: seq<Waypoint>) {
    && multiset(order) == multiset(points)
    && PickupsFirst(order)
    && DeferredFollow(SortedStops(points), |points|, order)
  }

  /** The ordering part of generateOptimizedRoute: axis, direction, sort and walk. */
  method OrderStops(points: seq<Waypoint>) returns (order: seq<Waypoint>)
    requires DropsHavePickups(points)
    ensures order == Placed(SortedStops(points))
    ensures Arranged(points, order)
    ensures UniqueTags(points) ==> ArrangedExactly(points, order)
  {
    var axis := ChooseAxis(points);
    var ascending := ChooseAscending(points, axis);
    var sorted := SortByAxis(points, axis, ascending);
    order := PlaceDrops(sorted);
    assert sorted == SortedStops(points);
    PlacedProperties(sorted);
    if UniqueTags(points) {
      UniqueTagsPerm(points, sorted);
    }
    OrderProperties(points, sorted, order);
  }

  /** What the walk's guarantees on the sorted stops mean for the stops themselves. */
  lemma OrderProperties(points: seq<Waypoint>, sorted: seq<Waypoint>, order: seq<Waypoint>)
    requires DropsHavePickups(points) && sorted == SortedStops(points)
    requires multiset(order) <= multiset(sorted)
    requires forall j :: 0 <= j < |sorted| && sorted[j].kind == Pickup ==> sorted[j] in order
    requires DropsAfterPickups(sorted, order)
    requires UniqueTags(sorted) ==> multiset(order) == multiset(sorted)
    requires UniqueTags(sorted) ==> DeferredFollow(sorted, |sorted|, order)
    ensures Arranged(points, order)
    ensures UniqueTags(points) ==> ArrangedExactly(points, order)
  {
    UsersPerm(points, sorted);
    forall j | 0 <= j < |points| && points[j].kind == Pickup ensures points[j] in order {
      assert points[j] in multiset(sorted);
      assert points[j] in sorted;
    }
    forall a | 0 <= a < |order| && order[a].kind == Drop ensures PickupBefore(order, a) {
      assert order[a] in multiset(sorted);
      assert order[a].userId in DropUsers(sorted);
    }
    if UniqueTags(points) {
      UniqueTagsPerm(points, sorted);
      PickupsPrecede(sorted, order);
    }
  }

  /**
   * The route visits the pickups monotonically along the dominant axis, in
   * the direction of travel: increasing when the drops lie further along the
   * axis than the pickups, decreasing otherwise.
   */
  lemma PickupsInTravelOrder(points: seq<Waypoint>)
    ensures var axis := ChooseAxis(points);
      SortedOn(OfKind(Placed(SortedStops(points)), Pickup), axis, ChooseAscending(points, axis))
  {
    var axis := ChooseAxis(points);
    var ascending := ChooseAscending(points, axis);
    var sorted := SortedStops(points);
    PlacedPickups(sorted);
    SortSorted(points, axis, ascending);
    OfKindSorted(sorted, Pickup, axis, ascending);
  }
}
