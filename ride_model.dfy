/** The ride document (backend/src/models/ride.model.js). */
module RideModel {
  import opened Wrappers
  import opened Basics

  datatype GenderPreference = Any | Male | Female

  datatype RideStatus = Open | Matched | Completed | Cancelled

  /**
   * A stored ride. Source and destination are GeoJSON points whose
   * coordinates are required; the route is an optional GeoJSON line string,
   * a list of positions. `datetime` is in milliseconds since the epoch.
   */
  datatype Ride = Ride(
    id: RideId,
    user: UserId,
    source: string,
    destination: string,
    datetime: int,
    sourceLocation: Coord,
    destinationLocation: Coord,
    route: Option<seq<Coord>>,
    genderPreference: GenderPreference,
    status: RideStatus)

  function GenderName(g: GenderPreference): string {
    match g
    case Any => "Any"
    case Male => "Male"
    case Female => "Female"
  }

  /** The schema's enum check on `genderPreference`. */
  function ParseGender(s: string): (r: Option<GenderPreference>)
    ensures r.Some? <==> s == "Any" || s == "Male" || s == "Female"
    ensures r.Some? ==> GenderName(r.value) == s
  {
    if s == "Any" then Some(Any)
    else if s == "Male" then Some(Male)
    else if s == "Female" then Some(Female)
    else None
  }

  lemma GenderNameRoundTrip(g: GenderPreference)
    ensures ParseGender(GenderName(g)) == Some(g)
  {
    match g
    case Any =>
    case Male => assert GenderName(g) != "Any";
    case Female => assert GenderName(g) != "Any" && GenderName(g) != "Male";
  }

  /**
   * The stored value of `genderPreference` for a field that was given (Some)
   * or left out (None): a missing value takes the default `Any`, a given one
   * must be one of the three names.
   */
  function GenderField(v: Option<string>): (r: Option<GenderPreference>)
    ensures v.None? ==> r == Some(Any)
    ensures v.Some? ==> (r.Some? <==> v.value == "Any" || v.value == "Male" || v.value == "Female")
    ensures r.Some? && v.Some? ==> GenderName(r.value) == v.value
  {
    match v
    case None => Some(Any)
    case Some(s) => ParseGender(s)
  }

  function StatusName(s: RideStatus): string {
    match s
    case Open => "Open"
    case Matched => "Matched"
    case Completed => "Completed"
    case Cancelled => "Cancelled"
  }

  /** The schema's enum check on `status`. */
  function ParseStatus(s: string): (r: Option<RideStatus>)
    ensures r.Some? <==> s == "Open" || s == "Matched" || s == "Completed" || s == "Cancelled"
    ensures r.Some? ==> StatusName(r.value) == s
  {
    if s == "Open" then Some(Open)
    else if s == "Matched" then Some(Matched)
    else if s == "Completed" then Some(Completed)
    else if s == "Cancelled" then Some(Cancelled)
    else None
  }

  lemma StatusNameRoundTrip(s: RideStatus)
    ensures ParseStatus(StatusName(s)) == Some(s)
  {
    match s
    case Open =>
    case Matched => assert StatusName(s) != "Open";
    case Completed => assert StatusName(s) != "Open" && StatusName(s) != "Matched";
    case Cancelled =>
      assert StatusName(s) != "Open" && StatusName(s) != "Matched" && StatusName(s) != "Completed";
  }

  /** The stored `status`: a missing value takes the default `Open`. */
  function StatusField(v: Option<string>): (r: Option<RideStatus>)
    ensures v.None? ==> r == Some(Open)
    ensures v.Some? ==> (r.Some? <==> v.value == "Open" || v.value == "Matched" || v.value == "Completed" || v.value == "Cancelled")
    ensures r.Some? && v.Some? ==> StatusName(r.value) == v.value
  {
    match v
    case None => Some(Open)
    case Some(s) => ParseStatus(s)
  }
}
