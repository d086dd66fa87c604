/** The group document (backend/src/models/group.model.js). */
module GroupModel {
  import opened Wrappers
  import opened Basics

  /** An invitation: the invited user and the ride they would bring. */
  datatype Invite = Invite(user: UserId, ride: RideId)

  /** A request to join: the requesting user and their ride. */
  datatype Request = Request(user: UserId, ride: RideId)

  /** A member with their ride and whether they confirmed readiness. */
  datatype Member = Member(user: UserId, ride: RideId, isReady: bool)

  datatype GroupStatus = Open | Locked | Closed

  datatype WaypointType = Pickup | Drop

  /** One stop of the pooled route: whose stop it is, its role, and where. */
  datatype Waypoint = Waypoint(
    userId: UserId,
    fullName: string,
    avatar: string,
    kind: WaypointType,
    location: Coord)

  /** The routing service's answer, stored verbatim (a free-form JSON object). */
  datatype Directions = Directions(json: string)

  /** The group's computed route. */
  datatype PooledRoute = PooledRoute(
    waypointOrder: seq<Waypoint>,
    orderedCoordinates: seq<Coord>,
    directions: Directions)

  /**
   * The subdocument validation of an invite: both references are required.
   */
  function InviteRecord(user: Option<UserId>, ride: Option<RideId>): (r: Option<Invite>)
    ensures r.Some? <==> user.Some? && ride.Some?
    ensures r.Some? ==> r.value.user == user.value && r.value.ride == ride.value
  {
    if user.Some? && ride.Some? then Some(Invite(user.value, ride.value)) else None
  }

  /** The subdocument validation of a join request: both references are required. */
  function RequestRecord(user: Option<UserId>, ride: Option<RideId>): (r: Option<Request>)
    ensures r.Some? <==> user.Some? && ride.Some?
    ensures r.Some? ==> r.value.user == user.value && r.value.ride == ride.value
  {
    if user.Some? && ride.Some? then Some(Request(user.value, ride.value)) else None
  }

  /**
   * The subdocument validation of a member: both references are required,
   * and a missing `isReady` is stored as false.
   */
  function MemberRecord(user: Option<UserId>, ride: Option<RideId>, isReady: Option<bool>): (r: Option<Member>)
    ensures r.Some? <==> user.Some? && ride.Some?
    ensures r.Some? ==> r.value.user == user.value && r.value.ride == ride.value
    ensures r.Some? ==> (r.value.isReady <==> isReady == Some(true))
  {
    if user.Some? && ride.Some? then Some(Member(user.value, ride.value, isReady.GetOr(false))) else None
  }

  /** A member added without a readiness value: not ready. */
  function NewMember(user: UserId, ride: RideId): (m: Member)
    ensures m == MemberRecord(Some(user), Some(ride), None).value
    ensures !m.isReady
  {
    Member(user, ride, false)
  }

  function StatusName(s: GroupStatus): string {
    match s
    case Open => "open"
    case Locked => "locked"
    case Closed => "closed"
  }

  /** The schema's enum check on `status`; a missing value takes the default `open`. */
  function StatusField(v: Option<string>): (r: Option<GroupStatus>)
    ensures v.None? ==> r == Some(Open)
    ensures v.Some? ==> (r.Some? <==> v.value == "open" || v.value == "closed" || v.value == "locked")
    ensures r.Some? && v.Some? ==> StatusName(r.value) == v.value
  {
    match v
    case None => Some(Open)
    case Some(s) =>
      if s == "open" then Some(Open)
      else if s == "closed" then Some(Closed)
      else if s == "locked" then Some(Locked)
      else None
  }

  function WaypointTypeName(t: WaypointType): string {
    match t
    case Pickup => "pickup"
    case Drop => "drop"
  }

  /** The schema's enum check on a waypoint's `type`. */
  function ParseWaypointType(s: string): (r: Option<WaypointType>)
    ensures r.Some? <==> s == "pickup" || s == "drop"
    ensures r.Some? ==> WaypointTypeName(r.value) == s
  {
    if s == "pickup" then Some(Pickup) else if s == "drop" then Some(Drop) else None
  }

  /**
   * The route of a group that has none computed yet: no waypoints, no
   * coordinates, and an empty directions object.
   */
  function DefaultRoute(): (r: PooledRoute)
    ensures |r.waypointOrder| == 0 && |r.orderedCoordinates| == 0
    ensures r.directions.json == "{}"
  {
    PooledRoute([], [], Directions("{}"))
  }
}
