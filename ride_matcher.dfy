/**
 * Ride matching of backend/src/controllers/ride.controller.js
 * (`getRideMatches`): the rides near in time, start and end, and optionally
 * the rides whose route crosses the ride's route heading the same way,
 * merged by ride id. The distance, bearing and intersection computations are
 * parameters.
 */
module RideMatcher {
  import opened Wrappers
  import opened Basics
  import opened RideModel

  /** What `Math.atan2(y, x) * 180 / Math.PI` can return: degrees in [-180, 180]. */
  type Atan2Degrees = x: real | -180.0 <= x <= 180.0

  /**
   * The geometry the matcher relies on: the haversine distance in
   * kilometres, the database's spherical distance in metres used by `$near`,
   * the initial bearing from one point to another before normalisation, and
   * the database's `$geoIntersects` test of a ride against a line string.
   */
  datatype Geo = Geo(
    haversineKm: (Coord, Coord) -> real,
    sphereMeters: (Coord, Coord) -> real,
    rawBearing: (Coord, Coord) -> Atan2Degrees,
    intersects: (seq<Coord>, Ride) -> bool)

  /** Half an hour in milliseconds: the time window on either side of the ride. */
  const TimeWindow: int := 30 * 60 * 1000

  /** The largest angle between two directions still counted as the same way, in degrees. */
  const DirectionThreshold: real := 45.0

  /**
   * `(brng + 360) % 360`: the bearing as a compass direction in [0, 360).
   * The dividend is positive, where JavaScript's truncating `%` and the
   * flooring remainder written here agree.
   */
  function Normalize(b: Atan2Degrees): (r: real)
    ensures 0.0 <= r < 360.0
    ensures r == b || r == b + 360.0
  {
    var x := b + 360.0;
    x - (x / 360.0).Floor as real * 360.0
  }

  /** `getBearing`: the compass direction from `a` to `b`. */
  function Bearing(geo: Geo, a: Coord, b: Coord): (r: real)
    ensures 0.0 <= r < 360.0
  {
    Normalize(geo.rawBearing(a, b))
  }

  function Abs(x: real): real {
    if x < 0.0 then -x else x
  }

  /** The smaller angle between two compass directions. */
  function BearingDiff(a: real, b: real): (d: real)
    requires 0.0 <= a < 360.0 && 0.0 <= b < 360.0
    ensures 0.0 <= d <= 180.0
    ensures d == Abs(a - b) || d == 360.0 - Abs(a - b)
  {
    var diff := Abs(a - b);
    if diff > 180.0 then 360.0 - diff else diff
  }

  lemma BearingDiffSymmetric(a: real, b: real)
    requires 0.0 <= a < 360.0 && 0.0 <= b < 360.0
    ensures BearingDiff(a, b) == BearingDiff(b, a)
    ensures BearingDiff(a, a) == 0.0
  {
  }

  /** The first stored ride with the id (`Ride.findById`). */
  function FindRide(store: seq<Ride>, id: RideId): (r: Option<Ride>)
    ensures r.Some? <==> exists k :: 0 <= k < |store| && store[k].id == id
    ensures r.Some? ==> r.value in store && r.value.id == id
  {
    if |store| == 0 then None
    else if store[0].id == id then Some(store[0])
    else
      var r := FindRide(store[1..], id);
      assert forall k :: 1 <= k < |store| ==> store[k] == store[1..][k - 1];
      r
  }

  /** `req.query?.checkOverlap !== 'false'`. */
  function CheckOverlap(query: Option<string>): (b: bool)
    ensures !b <==> query == Some("false")
  {
    !(query.Some? && query.value == "false")
  }

  /** `proximityRadiusMeters`: a tenth of the ride's length, in metres. */
  function ProximityRadius(geo: Geo, ride: Ride): real {
    geo.haversineKm(ride.sourceLocation, ride.destinationLocation) * 0.1 * 1000.0
  }

  /** The destination test compares with the radius in kilometres: a tenth of the ride's length. */
  lemma DeviationBound(geo: Geo, ride: Ride, dev: real)
    ensures dev <= ProximityRadius(geo, ride) / 1000.0 <==>
      dev <= geo.haversineKm(ride.sourceLocation, ride.destinationLocation) / 10.0
  {
  }

  /** Within half an hour of the ride, both bounds included. */
  predicate InWindow(ride: Ride, c: Ride) {
    ride.datetime - TimeWindow <= c.datetime <= ride.datetime + TimeWindow
  }

  /** `genderPreference: { $in: ['Any', ride.genderPreference] }`. */
  predicate GenderCompatible(ride: Ride, c: Ride) {
    c.genderPreference == Any || c.genderPreference == ride.genderPreference
  }

  /** The part of both queries that concerns the candidate alone: someone else's open ride of a compatible preference. */
  predicate Eligible(ride: Ride, requester: UserId, c: Ride) {
    c.user != requester && c.status == Open && GenderCompatible(ride, c)
  }

  /** The proximity query and the destination filter. */
  predicate NearMatch(geo: Geo, ride: Ride, requester: UserId, c: Ride) {
    var radius := ProximityRadius(geo, ride);
    && Eligible(ride, requester, c)
    && InWindow(ride, c)
    && geo.sphereMeters(ride.sourceLocation, c.sourceLocation) <= radius
    && geo.haversineKm(ride.destinationLocation, c.destinationLocation) <= radius / 1000.0
  }

  /** The candidate's route runs the same way as `rideRoute`, to within the threshold. */
  predicate SameDirection(geo: Geo, rideRoute: seq<Coord>, c: Ride)
    requires |rideRoute| > 1
  {
    && c.route.Some? && |c.route.value| >= 2
    && var cr := c.route.value;
       BearingDiff(Bearing(geo, rideRoute[0], rideRoute[|rideRoute| - 1]), Bearing(geo, cr[0], cr[|cr| - 1]))
         <= DirectionThreshold
  }

  /** The overlap query and, when the ride's route has two or more points, the direction filter. */
  predicate OverlapMatch(geo: Geo, ride: Ride, requester: UserId, c: Ride)
    requires ride.route.Some?
  {
    && Eligible(ride, requester, c)
    && geo.intersects(ride.route.value, c)
    && (|ride.route.value| > 1 ==> SameDirection(geo, ride.route.value, c))
  }

  /** The stored rides that pass the proximity query and the destination filter, in store order. */
  function NearMatches(geo: Geo, ride: Ride, requester: UserId, store: seq<Ride>): (r: seq<Ride>)
    ensures forall c :: c in r <==> c in store && NearMatch(geo, ride, requester, c)
  {
    if |store| == 0 then []
    else
      (if NearMatch(geo, ride, requester, store[0]) then [store[0]] else [])
      + NearMatches(geo, ride, requester, store[1..])
  }

  /** The stored rides of the overlap pass; none when it is switched off or the ride has no route. */
  function OverlapMatches(geo: Geo, ride: Ride, requester: UserId, store: seq<Ride>, checkOverlap: bool): (r: seq<Ride>)
    ensures forall c :: c in r <==>
      checkOverlap && ride.route.Some? && c in store && OverlapMatch(geo, ride, requester, c)
  {
    if !checkOverlap || ride.route.None? || |store| == 0 then []
    else
      (if OverlapMatch(geo, ride, requester, store[0]) then [store[0]] else [])
      + OverlapMatches(geo, ride, requester, store[1..], checkOverlap)
  }

  predicate DistinctIds(rs: seq<Ride>) {
    forall a, b :: 0 <= a < b < |rs| ==> rs[a].id != rs[b].id
  }

  /** The ids of the rides of `rs`. */
  function Ids(rs: seq<Ride>): set<RideId> {
    set r | r in rs :: r.id
  }

  lemma IdsSnoc(rs: seq<Ride>, x: Ride)
    ensures Ids(rs + [x]) == Ids(rs) + {x.id}
  {
    forall r ensures r in rs + [x] <==> r in rs || r == x { }
  }

  /** The ride ids in order of first occurrence. */
  function FirstIds(rs: seq<Ride>): (ids: seq<RideId>)
    ensures forall id :: id in ids <==> id in Ids(rs)
    ensures forall a, b :: 0 <= a < b < |ids| ==> ids[a] != ids[b]
  {
    if |rs| == 0 then []
    else
      var init, x := rs[..|rs| - 1], rs[|rs| - 1];
      assert rs == init + [x];
      IdsSnoc(init, x);
      var ids := FirstIds(init);
      if x.id in ids then ids else ids + [x.id]
  }

  /** The last ride with each id (`uniqueRides[r._id] = r` in turn). */
  function LastById(rs: seq<Ride>): (m: map<RideId, Ride>)
    ensures m.Keys == Ids(rs)
    ensures forall id :: id in m ==> m[id].id == id && m[id] in rs
  {
    if |rs| == 0 then map[]
    else
      var init, x := rs[..|rs| - 1], rs[|rs| - 1];
      assert rs == init + [x];
      IdsSnoc(init, x);
      LastById(init)[x.id := x]
  }

  /** `Object.values(uniqueRides)`: one ride per id, the last of its id, in order of first occurrence. */
  function DedupById(rs: seq<Ride>): (r: seq<Ride>)
  {
    var ids, m := FirstIds(rs), LastById(rs);
    seq(|ids|, k requires 0 <= k < |ids| => m[ids[k]])
  }

  /** One ride per id in the result of dedup, each stored in `rs` and the last stored under its id. */
  lemma DedupProperties(rs: seq<Ride>)
    ensures DistinctIds(DedupById(rs))
    ensures forall r :: r in DedupById(rs) ==> r in rs
    ensures forall k :: 0 <= k < |rs| ==> exists d :: d in DedupById(rs) && d.id == rs[k].id
    ensures forall d, k :: d in DedupById(rs) && k in LastIndices(rs, d.id) ==> rs[k] == d
  {
    DedupIds(rs);
    DedupCovers(rs);
    DedupLast(rs);
  }

  lemma DedupIds(rs: seq<Ride>)
    ensures forall k :: 0 <= k < |DedupById(rs)| ==> DedupById(rs)[k].id == FirstIds(rs)[k]
    ensures DistinctIds(DedupById(rs))
    ensures forall r :: r in DedupById(rs) ==> r in rs
  {
    var out := DedupById(rs);
    assert forall k :: 0 <= k < |out| ==> out[k] == LastById(rs)[FirstIds(rs)[k]];
  }

  lemma DedupCovers(rs: seq<Ride>)
    ensures forall k :: 0 <= k < |rs| ==> exists d :: d in DedupById(rs) && d.id == rs[k].id
  {
    var ids, m, out := FirstIds(rs), LastById(rs), DedupById(rs);
    forall k | 0 <= k < |rs| ensures exists d :: d in out && d.id == rs[k].id {
      var id := rs[k].id;
      assert rs[k] in rs;
      assert id in Ids(rs);
      var t :| 0 <= t < |ids| && ids[t] == id;
      assert out[t] == m[id];
    }
  }

  lemma DedupLast(rs: seq<Ride>)
    ensures forall d, k :: d in DedupById(rs) && k in LastIndices(rs, d.id) ==> rs[k] == d
  {
    var ids, m, out := FirstIds(rs), LastById(rs), DedupById(rs);
    forall d, k | d in out && k in LastIndices(rs, d.id) ensures rs[k] == d {
      var t :| 0 <= t < |out| && out[t] == d;
      assert d == m[ids[t]];
      LastByIdIsLast(rs, d.id);
    }
  }

  /** The positions in `rs` of the last ride with `id` (at most one). */
  function LastIndices(rs: seq<Ride>, id: RideId): set<int> {
    set k | 0 <= k < |rs| && rs[k].id == id && (forall j :: k < j < |rs| ==> rs[j].id != id)
  }

  lemma {:induction false} LastByIdIsLast(rs: seq<Ride>, id: RideId)
    ensures forall k :: k in LastIndices(rs, id) ==> id in LastById(rs) && LastById(rs)[id] == rs[k]
  {
    if |rs| > 0 {
      var init := rs[..|rs| - 1];
      LastByIdIsLast(init, id);
      forall k | k in LastIndices(rs, id) ensures id in LastById(rs) && LastById(rs)[id] == rs[k] {
        if k < |rs| - 1 {
          assert rs[|rs| - 1].id != id;
          assert init[k] == rs[k];
          assert k in LastIndices(init, id);
        }
      }
    }
  }

  /** The `forEach` over the merged matches filling `uniqueRides`, then `Object.values`. */
  method UniqueById(rs: seq<Ride>) returns (matches: seq<Ride>)
    ensures matches == DedupById(rs)
  {
    var order: seq<RideId> := [];
    var unique: map<RideId, Ride> := map[];
    for i := 0 to |rs|
      invariant order == FirstIds(rs[..i]) && unique == LastById(rs[..i])
    {
      var r := rs[i];
      assert rs[..i + 1][..i] == rs[..i] && rs[..i + 1][i] == r;
      if r.id !in unique {
        order := order + [r.id];
      }
      unique := unique[r.id := r];
    }
    assert rs[..|rs|] == rs;
    matches := seq(|order|, k requires 0 <= k < |order| => unique[order[k]]);
  }

  datatype MatchError = RideNotFound

  /** The reply: the matches and the name of the method used. */
  datatype MatchReply = MatchReply(matches: seq<Ride>, methodName: string)

  function MethodName(checkOverlap: bool): string {
    if checkOverlap then "time + proximity OR route-overlap" else "time + proximity"
  }

  /** The matches of a found ride: both passes merged by id. */
  function MatchesOf(geo: Geo, ride: Ride, requester: UserId, store: seq<Ride>, checkOverlap: bool): seq<Ride> {
    DedupById(NearMatches(geo, ride, requester, store) + OverlapMatches(geo, ride, requester, store, checkOverlap))
  }

  lemma SameIdSameRide(store: seq<Ride>, c: Ride, d: Ride)
    requires DistinctIds(store) && c in store && d in store && c.id == d.id
    ensures c == d
  {
    var i :| 0 <= i < |store| && store[i] == c;
    var j :| 0 <= j < |store| && store[j] == d;
    assert i == j;
  }

  /** `getRideMatches` for the ride `rideId` asked for by `requester`. */
  method GetRideMatches(geo: Geo, store: seq<Ride>, rideId: RideId, requester: UserId, query: Option<string>)
    returns (r: Result<MatchReply, MatchError>)
    ensures FindRide(store, rideId).None? <==> r == Failure(RideNotFound)
    ensures r.Success? ==> var ride, check := FindRide(store, rideId).value, CheckOverlap(query);
      r.value == MatchReply(MatchesOf(geo, ride, requester, store, check), MethodName(check))
  {
    var found := FindRide(store, rideId);
    if found.None? {
      return Failure(RideNotFound);
    }
    var ride := found.value;
    var checkOverlap := CheckOverlap(query);
    var nearby := NearMatches(geo, ride, requester, store);
    var overlapping := OverlapMatches(geo, ride, requester, store, checkOverlap);
    var matches := UniqueById(nearby + overlapping);
    r := Success(MatchReply(matches, MethodName(checkOverlap)));
  }

  /** Every match is someone else's open ride, of a compatible preference, found by one of the two passes. */
  lemma MatchesSound(geo: Geo, ride: Ride, requester: UserId, store: seq<Ride>, checkOverlap: bool)
    ensures DistinctIds(MatchesOf(geo, ride, requester, store, checkOverlap))
    ensures forall c :: c in MatchesOf(geo, ride, requester, store, checkOverlap) ==>
      && c in store
      && c.user != requester && c.status == Open && GenderCompatible(ride, c)
      && (NearMatch(geo, ride, requester, c) ||
          (checkOverlap && ride.route.Some? && OverlapMatch(geo, ride, requester, c)))
  {
    DedupProperties(NearMatches(geo, ride, requester, store) + OverlapMatches(geo, ride, requester, store, checkOverlap));
  }

  /** Every ride found by either pass is among the matches, up to its id; exactly itself when stored ids are unique. */
  lemma MatchesComplete(geo: Geo, ride: Ride, requester: UserId, store: seq<Ride>, checkOverlap: bool, c: Ride)
    requires c in store
    requires NearMatch(geo, ride, requester, c) || (checkOverlap && ride.route.Some? && OverlapMatch(geo, ride, requester, c))
    ensures exists d :: d in MatchesOf(geo, ride, requester, store, checkOverlap) && d.id == c.id
    ensures DistinctIds(store) ==> c in MatchesOf(geo, ride, requester, store, checkOverlap)
  {
    var near, over := NearMatches(geo, ride, requester, store), OverlapMatches(geo, ride, requester, store, checkOverlap);
    var all := near + over;
    assert c in all by {
      if NearMatch(geo, ride, requester, c) {
        assert c in near;
      } else {
        assert c in over;
      }
    }
    assert forall x :: x in all ==> x in store;
    DedupCovers(all);
    var k :| 0 <= k < |all| && all[k] == c;
    var d :| d in DedupById(all) && d.id == c.id;
    if DistinctIds(store) {
      DedupIds(all);
      SameIdSameRide(store, c, d);
    }
  }
}
