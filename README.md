# Ride-Sharing backend core, modelled in Dafny

This project models the logic of the Ride-Sharing backend (an Express,
MongoDB and socket.io server):

- **Multi-stop route sequencer** (`backend/src/utils/mapbox.js`). A pooled
  group's members become a pickup stop and a drop stop each. The stops are
  sorted along the dominant axis in the direction of travel. They are then
  walked so that every rider is picked up before being dropped. The
  ordered coordinates are serialised as `lng,lat;lng,lat;…` for the
  directions service.
- **Group lifecycle** (`backend/src/controllers/group.controller.js`). A
  group document holds invite, join-request and member lists and a status
  `open → locked → closed`. Each handler acts for a calling user and answers
  with an outcome: `Done(...)` or `Refused(<failure>)`. The ride countdown
  is two steps: `StartCountdown`, which locks the group, and `Finalize`,
  which runs after the 30-second wait. Finalize keeps the ready members,
  marks their rides `Matched` and closes the group.
- **Ride matching** (`backend/src/controllers/ride.controller.js`). It
  finds open rides near the requested one in time and space, plus rides
  whose routes head the same way. The two result lists are joined into one
  list with unique ride ids.
- **Records** (`group.model.js`, `ride.model.js`). The group and ride
  schemas become datatypes. Enum fields get parse and default functions.

Files:

| file | module | what |
|---|---|---|
| `wrappers.dfy` | `Wrappers`, `Basics` | `Option`, `Result`; user and ride ids; the `Coord` fixed-point `[lng, lat]` pair |
| `ride_model.dfy` | `RideModel` | the ride record, gender preference and ride status enums |
| `group_model.dfy` | `GroupModel` | invite, request and member records, group status, waypoints and the stored route |
| `mapbox_text.dfy` | `MapboxText` | printing and parsing of coordinates as JavaScript prints numbers; the `;`-joined coordinate list |
| `mapbox_sort.dfy` | `MapboxSort` | axis and direction choice; the stable sort along an axis |
| `mapbox_walk.dfy` | `MapboxWalk` | the pickup-before-drop walk with its `seenPickup` set and `pendingDrop` map, and the final flush |
| `mapbox.dfy` | `Mapbox` | point building, `generateOptimizedRoute`, `getRouteGeoJSON` |
| `ride_matcher.dfy` | `RideMatcher` | bearings, eligibility, the proximity and overlap passes, the de-duplicating union, `getRideMatches` |
| `group_coordinator.dfy` | `GroupCoordinator` | the `Group` class and its handlers, the `RideStore` class, the name default |

Coordinates are integers in millionths of a degree. The serialiser prints
them the way JavaScript prints the corresponding decimal number, e.g.
`-73.5` or `40.712`.

The store queries become inputs:
- The geo-indexed candidate rides are a sequence.
- The distance and bearing computations are the function fields of a
  `Geo` value: haversine kilometres, the index's metres, the raw `atan2`
  bearing and the `$geoIntersects` test.
- The directions service is a function from the coordinate string to an
  optional reply.
- The clock is a `now` parameter.

Where the code and the documented behaviour differ, the model follows the
code:
- A requester whose preference is `Any` matches only `Any` candidates,
  because the filter is `genderPreference ∈ {Any, requester's preference}`.
- The admin can be removed and can leave.
- Nothing keeps a user in a single role. Invite ignores pending requests,
  and accepting a join request does not check membership.
- Neither toggle handler checks the status. The HTTP toggle has no caller
  check.
- Finalize does not re-check the status.
- A repeated join request is a success that changes nothing.
- The overlap query has no time window.
- Matching excludes rides owned by the requesting user, not by the ride's
  owner.

## Model

| member | source | states |
|---|---|---|
| `RideModel.ParseGender` | backend/src/models/ride.model.js:54-58 | exactly the names `Any`, `Male`, `Female` are accepted, and each parses to the preference that prints as it |
| `RideModel.GenderNameRoundTrip` | backend/src/models/ride.model.js:54-58 | every preference parses back from its stored name |
| `RideModel.GenderField` | backend/src/models/ride.model.js:54-58 | an absent preference defaults to `Any`; a present one is valid iff it is one of the three names |
| `RideModel.ParseStatus` | backend/src/models/ride.model.js:59-63 | exactly `Open`, `Matched`, `Completed`, `Cancelled` are accepted, each to the status that prints as it |
| `RideModel.StatusNameRoundTrip` | backend/src/models/ride.model.js:59-63 | every ride status parses back from its stored name |
| `RideModel.StatusField` | backend/src/models/ride.model.js:59-63 | an absent status defaults to `Open`; a present one is valid iff it is one of the four names |
| `GroupModel.InviteRecord` | backend/src/models/group.model.js:15-28 | an invite exists iff both its user and its ride are given, and carries them |
| `GroupModel.RequestRecord` | backend/src/models/group.model.js:29-42 | a join request exists iff both its user and its ride are given, and carries them |
| `GroupModel.MemberRecord` | backend/src/models/group.model.js:43-60 | a member exists iff user and ride are given; it is ready only when `isReady` is given as true |
| `GroupModel.NewMember` | backend/src/models/group.model.js:55-58 | a member added without a readiness flag is not ready |
| `GroupModel.StatusField` | backend/src/models/group.model.js:61-65 | an absent group status is `open`; a present one is valid iff it is `open`, `closed` or `locked` |
| `GroupModel.ParseWaypointType` | backend/src/models/group.model.js:79-82 | exactly `pickup` and `drop` are waypoint types, each parsing to the type that prints as it |
| `GroupModel.DefaultRoute` | backend/src/models/group.model.js:89-96 | a new group's route has no waypoints, no coordinates and the empty directions object |
| `MapboxText.FormatDegrees` | backend/src/utils/mapbox.js:7 | a printed coordinate is non-empty and made only of digits, `-` and `.` |
| `MapboxText.DegreesRoundTrip` | backend/src/utils/mapbox.js:7 | parsing a printed coordinate gives back exactly the coordinate, so no precision is lost in the request |
| `MapboxText.SplitJoin` | backend/src/utils/mapbox.js:7 | splitting a joined list on a separator none of its parts contains gives back the parts |
| `MapboxText.FormatCoord` | backend/src/utils/mapbox.js:7 | a printed `lng,lat` pair never contains the `;` that separates pairs |
| `MapboxText.CoordRoundTrip` | backend/src/utils/mapbox.js:7 | a printed `lng,lat` pair parses back to the same pair |
| `MapboxText.CoordsRoundTrip` | backend/src/utils/mapbox.js:99-100 | the coordinate string parses back to exactly the ordered coordinates |
| `MapboxText.CoordsString` | backend/src/utils/mapbox.js:99-100 | the coordinate string: each position printed as `lng,lat`, joined with `;` (its round trip is `CoordsRoundTrip`) |
| `MapboxSort.Spread` | backend/src/utils/mapbox.js:43-46 | the spread is at least every difference of two coordinates and equals one of them |
| `MapboxSort.ChooseAxis` | backend/src/utils/mapbox.js:43-47 | the chosen axis has the larger spread; an exact tie chooses latitude |
| `MapboxSort.Keys` | backend/src/utils/mapbox.js:43-44 | one coordinate per stop, in order: the stop's coordinate on the axis |
| `MapboxSort.Max` | backend/src/utils/mapbox.js:45-46 | `Math.max` of a non-empty list is one of its values and no value exceeds it |
| `MapboxSort.Min` | backend/src/utils/mapbox.js:45-46 | `Math.min` of a non-empty list is one of its values and no value is below it |
| `MapboxSort.OfKindMembers` | backend/src/utils/mapbox.js:50-51 | the filtered stops are exactly the stops of the given kind |
| `MapboxSort.OfKind` | backend/src/utils/mapbox.js:50-51 | `filter` by stop type: never longer than the stops; its members, order and multiplicities are stated by `OfKindMembers`, `OfKindAppend` and `OfKindCount` |
| `MapboxSort.OfKindAppend` | backend/src/utils/mapbox.js:50-51 | filtering a concatenation filters each part, so the filter keeps the stops' order |
| `MapboxSort.OfKindCount` | backend/src/utils/mapbox.js:50-51 | every stop of the kind occurs in the filtered list as often as in the stops; no other stop occurs |
| `MapboxSort.OfKindSorted` | backend/src/utils/mapbox.js:50-63 | the stops of one kind, taken from a list sorted on an axis, are sorted on that axis in the same direction |
| `MapboxSort.Sum` | backend/src/utils/mapbox.js:52-53 | the `reduce` that adds the stops' coordinates before each mean is taken |
| `MapboxSort.ChooseAscending` | backend/src/utils/mapbox.js:50-57 | with as many drops as pickups, the order is ascending iff the drops' coordinates sum to more than the pickups' |
| `MapboxSort.SortByAxis` | backend/src/utils/mapbox.js:60-63 | the sorted stops are a permutation of the stops |
| `MapboxSort.Insert` | backend/src/utils/mapbox.js:60-63 | inserting one stop into a list gives that list plus the stop, as a multiset, one longer |
| `MapboxSort.SortSorted` | backend/src/utils/mapbox.js:60-63 | the sorted stops are non-decreasing (ascending) or non-increasing (descending) on the axis |
| `MapboxSort.SortStable` | backend/src/utils/mapbox.js:60-63 | stops with equal coordinates keep their relative order |
| `MapboxSort.StableSortUnique` | backend/src/utils/mapbox.js:60-63 | two sorted arrangements with the same per-key order are equal |
| `MapboxSort.SortIsTheStableSort` | backend/src/utils/mapbox.js:60-63 | any sorted, stable arrangement of the stops is the modelled sort's result, whatever algorithm the library uses |
| `MapboxWalk.Walk` | backend/src/utils/mapbox.js:65-91 | the loop computes exactly `WalkOver` of the stops: the emitted order, the `seenPickup` set, the `pendingDrop` map and the order in which its users were first held |
| `MapboxWalk.AppendPending` | backend/src/utils/mapbox.js:93-96 | the held drops are appended in the order their users were first held |
| `MapboxWalk.NothingHeldAtEnd` | backend/src/utils/mapbox.js:93-96 | when every dropped user also has a pickup, no drop is still held after the pass |
| `MapboxWalk.WalkDone` | backend/src/utils/mapbox.js:65-96 | a state meeting the pass invariant at the end of the stops, followed by the flush, yields the guarantees of `PlacedProperties` |
| `MapboxWalk.PlaceDrops` | backend/src/utils/mapbox.js:65-96 | the loop and the flush compute exactly `Placed`, the walk over the stops in the order given |
| `MapboxWalk.Step` | backend/src/utils/mapbox.js:72-90 | one step of the walk: a pickup is emitted, then its held drop; a drop is emitted after its pickup, else held, the later one replacing an earlier one |
| `MapboxWalk.WalkOver` | backend/src/utils/mapbox.js:67-91 | the walk over a list of stops, one `Step` per stop in order; the users it records as held are exactly the keys of `pendingDrop` |
| `MapboxWalk.Placed` | backend/src/utils/mapbox.js:65-96 | the final order: the emitted stops, then the drops still held, in the order their users were first held |
| `MapboxWalk.WalkOverWalked` | backend/src/utils/mapbox.js:71-91 | after every prefix of the stops the walk state meets the pass invariant: seen users are those picked up, every pickup emitted, emitted drops follow their pickup, held drops lack one |
| `MapboxWalk.StepWalked` | backend/src/utils/mapbox.js:72-90 | one step of the walk, by each of its five branches, keeps the pass invariant |
| `MapboxWalk.PlacedProperties` | backend/src/utils/mapbox.js:65-96 | the final order is drawn from the stops and keeps every pickup; each drop of a user with a pickup comes after one; drops of users without a pickup come last; with one stop per user and kind it is a permutation and each deferred drop directly follows its pickup |
| `MapboxWalk.WalkOverPickups` | backend/src/utils/mapbox.js:72-74 | the walk emits the pickups in the order it meets them, and holds only drops |
| `MapboxWalk.PendingStopsNoPickup` | backend/src/utils/mapbox.js:93-96 | the flush appends no pickup |
| `MapboxWalk.PlacedPickups` | backend/src/utils/mapbox.js:65-96 | the pickups of the final order are exactly the pickups of the stops, in their order |
| `MapboxWalk.UniqueTagsPerm` | backend/src/utils/mapbox.js:60-63 | reordering the stops keeps "one stop per user and kind" |
| `MapboxWalk.PickupsPrecede` | backend/src/utils/mapbox.js:71-91 | with one stop per user and kind and every dropped user picked up, a permutation in which each drop comes after a pickup of its user puts that user's pickup before the drop |
| `Mapbox.RouteGeoJSON` | backend/src/utils/mapbox.js:3-19 | fewer than two waypoints is refused; a failed reply is `FetchFailed`, a reply without routes is `NoRoute`; otherwise the feature holds the geometry of the first route |
| `Mapbox.RouteRequestNamesWaypoints` | backend/src/utils/mapbox.js:7 | the request names exactly the waypoints given, in order |
| `Mapbox.PickupOf` | backend/src/utils/mapbox.js:38 | a pickup stop is at the member's ride source |
| `Mapbox.DropOf` | backend/src/utils/mapbox.js:39 | a drop stop is at the member's ride destination |
| `Mapbox.PointsFor` | backend/src/utils/mapbox.js:26-40 | points are built iff every member's ride has both endpoints; otherwise the first incomplete member is reported; member k gives stop 2k (its pickup) and stop 2k+1 (its drop), 2·N stops in all |
| `Mapbox.BuildPoints` | backend/src/utils/mapbox.js:26-40 | the push loop builds exactly `PointsFor` |
| `Mapbox.FirstGap` | backend/src/utils/mapbox.js:27-36 | the build fails on the first member whose ride lacks an end, naming that member |
| `Mapbox.StopAt` | backend/src/utils/mapbox.js:38-39 | stop i belongs to member i/2 and is its pickup for even i and its drop for odd i |
| `Mapbox.BuiltDropsHavePickups` | backend/src/utils/mapbox.js:38-39 | every user with a drop stop also has a pickup stop |
| `Mapbox.BuiltTagsUnique` | backend/src/utils/mapbox.js:38-39 | with distinct member ids, no two stops share user and kind |
| `Mapbox.UsersPerm` | backend/src/utils/mapbox.js:60-63 | reordering the stops keeps the sets of users picked up and dropped |
| `Mapbox.Locations` | backend/src/utils/mapbox.js:99 | `orderedCoordinates` is the element-wise image of the order |
| `Mapbox.SortedStops` | backend/src/utils/mapbox.js:43-63 | the axis-sorted stops are a permutation of the stops |
| `Mapbox.OrderStops` | backend/src/utils/mapbox.js:43-96 | the order is exactly `Placed` of the axis-sorted stops; so pickups are kept, every drop follows its pickup, and with distinct users it is a permutation with each deferred drop right after its pickup |
| `Mapbox.OrderProperties` | backend/src/utils/mapbox.js:60-96 | the walk's guarantees on the sorted stops carry over to the unsorted stops |
| `Mapbox.GenerateOptimizedRoute` | backend/src/utils/mapbox.js:21-123 | a missing key and a missing coordinate are reported; otherwise only the directions call can fail, and never does if directions are always available; on success the waypoint order is exactly `Placed` of the axis-sorted built stops, the coordinates mirror it, and the directions are those for its coordinate string |
| `Mapbox.RouteThrough` | backend/src/utils/mapbox.js:98-123 | the same for stops already built: the order is `Placed` of the sorted stops, the coordinates mirror it, and a failure is the directions call's |
| `Mapbox.PickupsInTravelOrder` | backend/src/utils/mapbox.js:43-96 | the pickups of the final order are sorted along the dominant axis in the travel direction |
| `RideMatcher.Normalize` | backend/src/controllers/ride.controller.js:28 | the normalised bearing lies in [0, 360) and is the raw bearing or the raw bearing plus 360 |
| `RideMatcher.Bearing` | backend/src/controllers/ride.controller.js:20-30 | every bearing lies in [0, 360) |
| `RideMatcher.BearingDiff` | backend/src/controllers/ride.controller.js:106-107 | the wrapped difference lies in [0, 180] and is the plain difference or its complement to 360 |
| `RideMatcher.BearingDiffSymmetric` | backend/src/controllers/ride.controller.js:106-107 | the wrapped difference is symmetric and zero for equal bearings |
| `RideMatcher.FindRide` | backend/src/controllers/ride.controller.js:37-38 | a ride is found iff one has the id, and the found ride has it |
| `RideMatcher.CheckOverlap` | backend/src/controllers/ride.controller.js:35 | the overlap pass is off exactly when the query value is the string `false` |
| `RideMatcher.ProximityRadius` | backend/src/controllers/ride.controller.js:45-50 | the radius in metres: a tenth of the ride's length in kilometres, times 1000 |
| `RideMatcher.InWindow` | backend/src/controllers/ride.controller.js:41-43 | a candidate departs within 30 minutes either side of the ride, both bounds included |
| `RideMatcher.GenderCompatible` | backend/src/controllers/ride.controller.js:57 | a candidate's preference is `Any` or the ride's own |
| `RideMatcher.Eligible` | backend/src/controllers/ride.controller.js:54-57 | a candidate belongs to another user, is `Open` and has a compatible preference |
| `RideMatcher.NearMatch` | backend/src/controllers/ride.controller.js:53-79 | an eligible candidate in the time window, starting within the radius and ending within radius/1000 km |
| `RideMatcher.SameDirection` | backend/src/controllers/ride.controller.js:96-109 | a candidate with a route of two or more points whose start-to-end bearing differs from the ride's by at most 45 degrees |
| `RideMatcher.OverlapMatch` | backend/src/controllers/ride.controller.js:83-111 | an eligible candidate whose route meets the ride's, in the same direction when the ride's route has two or more points |
| `RideMatcher.DeviationBound` | backend/src/controllers/ride.controller.js:46-78 | a deviation is within radius/1000 km iff it is within a tenth of the trip length |
| `RideMatcher.NearMatches` | backend/src/controllers/ride.controller.js:53-79 | the proximity matches are exactly the stored rides that are eligible (±30 min inclusive, not the requester's, `Open`, compatible preference), within the radius and with a destination within a tenth of the trip |
| `RideMatcher.OverlapMatches` | backend/src/controllers/ride.controller.js:82-111 | with the pass on and a route present, the overlap matches are exactly the eligible rides whose route crosses it and, when the route has two or more points, that have two or more points and head within 45° of it; otherwise none |
| `RideMatcher.FirstIds` | backend/src/controllers/ride.controller.js:113-121 | the ids of the union, each once, are exactly the ids met |
| `RideMatcher.LastById` | backend/src/controllers/ride.controller.js:113-121 | every id met is kept, with a ride of that id from the list |
| `RideMatcher.DedupProperties` | backend/src/controllers/ride.controller.js:113-121 | the union has distinct ids, draws from the list, covers every id met, and keeps the last ride met for each id |
| `RideMatcher.LastByIdIsLast` | backend/src/controllers/ride.controller.js:113-121 | the ride kept for an id is the one at its last position |
| `RideMatcher.UniqueById` | backend/src/controllers/ride.controller.js:113-121 | the `forEach` over the concatenated lists builds exactly the de-duplicated union |
| `RideMatcher.DedupById` | backend/src/controllers/ride.controller.js:113-119 | `Object.values` of the id-keyed map: the ids in order of first occurrence, each with the ride stored last under it |
| `RideMatcher.MethodName` | backend/src/controllers/ride.controller.js:120 | the `method` field of the reply names the overlap pass exactly when it was on |
| `RideMatcher.GetRideMatches` | backend/src/controllers/ride.controller.js:32-127 | a missing ride is reported as not found and nothing else is; otherwise the reply holds the de-duplicated union of both passes and names the method used |
| `RideMatcher.MatchesSound` | backend/src/controllers/ride.controller.js:32-127 | every match has a unique id, is a stored ride, is eligible, and passes the proximity or the overlap test |
| `RideMatcher.MatchesComplete` | backend/src/controllers/ride.controller.js:32-127 | every stored ride that passes a test has its id among the matches, and is itself a match when stored ids are distinct |
| `GroupCoordinator.SpanStart` | backend/src/controllers/group.controller.js:16 | the text starts after a run of spaces, at a non-space |
| `GroupCoordinator.SpanEnd` | backend/src/controllers/group.controller.js:16 | the text ends before a run of spaces, after a non-space |
| `GroupCoordinator.Trim` | backend/src/controllers/group.controller.js:16 | the trimmed name is a slice with only spaces cut on either side, and starts and ends with a non-space |
| `GroupCoordinator.TrimIdempotent` | backend/src/models/group.model.js:5-9 | the schema's own trim leaves an already trimmed name unchanged |
| `GroupCoordinator.TrimKeepsText` | backend/src/controllers/group.controller.js:16 | a name holding any non-space character does not trim to nothing |
| `GroupCoordinator.GroupName` | backend/src/controllers/group.controller.js:16 | a new group's name is the trimmed requested name unless that is absent or blank, and then the creator's name with "'s Group"; it is never empty, so the required name is always present |
| `GroupCoordinator.FirstIndex` | backend/src/controllers/group.controller.js:136-138 | the index found is that of the first entry of the user, or -1 exactly when there is none |
| `GroupCoordinator.RemoveAt` | backend/src/controllers/group.controller.js:146 | `splice(i, 1)`: the list loses one entry |
| `GroupCoordinator.RemoveAtCount` | backend/src/controllers/group.controller.js:146 | removing one entry takes exactly that entry out of the list's contents |
| `GroupCoordinator.RemoveAtKeepsOthers` | backend/src/controllers/group.controller.js:146 | the entries before the removed one stay in place and the later ones move up by one, in order |
| `GroupCoordinator.ToggleAt` | backend/src/controllers/group.controller.js:410 | only the targeted member's readiness flips; user and ride stay |
| `GroupCoordinator.ToggleTwice` | backend/src/controllers/group.controller.js:410 | toggling the same member twice restores the members |
| `GroupCoordinator.ReadyOnly` | backend/src/controllers/group.controller.js:569 | the kept members are exactly the ready ones |
| `GroupCoordinator.ReadyOnlyAppend` | backend/src/controllers/group.controller.js:569 | the ready members keep their original order |
| `GroupCoordinator.ReadyOnlyAllReady` | backend/src/controllers/group.controller.js:569-571 | filtering leaves the members unchanged iff all are ready |
| `GroupCoordinator.ReadyOnlyIdempotent` | backend/src/controllers/group.controller.js:569-571 | filtering twice is filtering once |
| `GroupCoordinator.RidesOf` | backend/src/controllers/group.controller.js:573-577 | the rides updated are those of the kept members, in order |
| `GroupCoordinator.MarkOne` | backend/src/controllers/group.controller.js:575 | one ride update: the stored ride of that id becomes `Matched`, every other ride and the set of ids stay |
| `GroupCoordinator.MarkAll` | backend/src/controllers/group.controller.js:573-577 | the updates applied one by one, in the order of the ids |
| `GroupCoordinator.MarkAllEffect` | backend/src/controllers/group.controller.js:573-577 | marking keeps every stored ride; the listed ones become `Matched` and the others are untouched; a missing ride is ignored |
| `GroupCoordinator.RideStore.MarkMatched` | backend/src/controllers/group.controller.js:575 | one stored ride becomes `Matched`; an unknown id changes nothing |
| `GroupCoordinator.RideStore.MarkAllMatched` | backend/src/controllers/group.controller.js:573-577 | the update loop marks the listed rides one after the other |
| `GroupCoordinator.Group.Create` | backend/src/controllers/group.controller.js:15-26 | the creator is admin and sole, not-ready member on the given ride; the given invites are pending; status `open`; empty route |
| `GroupCoordinator.Group.IsAdmin` | backend/src/controllers/group.controller.js:6-8 | the user is the group's admin |
| `GroupCoordinator.Group.Invite` | backend/src/controllers/group.controller.js:73-105 | a non-admin is refused, then an invited user, then a member, each with no change; otherwise an invite without a ride is rejected with no change, and one with a ride is appended and nothing else changes |
| `GroupCoordinator.Group.AcceptInvite` | backend/src/controllers/group.controller.js:136-150 | without an invite the caller is refused with no change; otherwise the first invite is removed and one member with its user and ride is appended |
| `GroupCoordinator.Group.RejectInvite` | backend/src/controllers/group.controller.js:173-184 | without an invite the caller is refused with no change; otherwise only the first invite is removed |
| `GroupCoordinator.Group.RequestToJoin` | backend/src/controllers/group.controller.js:195-235 | in order: a repeated request succeeds with no change; a member is refused; a `closed` group refuses (a `locked` one does not); a pending invite is accepted; otherwise a request without a ride is rejected with no change, and one with a ride is appended |
| `GroupCoordinator.Group.AcceptJoinRequest` | backend/src/controllers/group.controller.js:256-273 | a non-admin is refused, then a user without a request, with no change; otherwise the request moves to the members |
| `GroupCoordinator.Group.RejectJoinRequest` | backend/src/controllers/group.controller.js:300-312 | a non-admin is refused, then a user without a request, with no change; otherwise only that request is removed |
| `GroupCoordinator.Group.Remove` | backend/src/controllers/group.controller.js:337-349 | a non-admin is refused with no change; otherwise the user's first member entry, the admin's included, is removed, or a non-member is refused |
| `GroupCoordinator.Group.Leave` | backend/src/controllers/group.controller.js:373-379 | the caller's first member entry is removed, the admin's included; a non-member is refused with no change |
| `GroupCoordinator.Group.ToggleReady` | backend/src/controllers/group.controller.js:403-512 | `toggleMemberReadyStatus` (the member named in the request, by any caller) and `toggleReadyStatus` (the calling member): the member's readiness flips whatever the status and nothing else changes; a non-member is refused with no change |
| `GroupCoordinator.Group.StartCountdown` | backend/src/controllers/group.controller.js:544-556 | a non-admin is refused, then any status but `open`, with no change; otherwise the group is locked and the countdown ends 30000 ms after `now` |
| `GroupCoordinator.Group.Finalize` | backend/src/controllers/group.controller.js:569-580 | members become exactly the ready members in order, their rides are marked, and the group is closed, from any status |
| `GroupCoordinator.FinalizeEffect` | backend/src/controllers/group.controller.js:569-580 | after finalizing, no non-ready member remains, no ready member is lost, and every stored ride of a kept member is `Matched` |

## Left out

- Network: the directions and route `fetch` calls, their URLs, the HTTP
  status checks and JSON decoding (`mapbox.js:9-13`, `:102-111`). The
  service is a function from the coordinate string to an optional reply,
  and the directions payload is opaque text.
- Trigonometry: `haversineDistance` and the `atan2` inside `getBearing`
  are uninterpreted function fields. The `$near` distance and
  `$geoIntersects` are too. Only the normalisation, the wrap and the
  thresholds are modelled, over exact reals rather than floating point.
- The store: `findById`, `save`, `populate` and the query result order.
  Candidate rides are a sequence in the order the store returns them. A
  handler acts on a `Group` object that exists, so the 404 "group not
  found" answers are not modelled.
- HTTP status codes and messages: each refusal is a `Failure` kind, and
  the codes are not modelled.
- Timer and sockets: the 30-second `setTimeout` and every socket.io emit.
  The countdown's two halves are separate methods.
  `triggerRouteOptimization`, chat, the read-only group queries and ride
  CRUD are not part of this model.
- Concurrency: each handler is one atomic step on the group. In the
  source, the read of the group, the checks and the save are separated by
  `await`s (`group.controller.js:536-554`, and every handler's
  `findById` ... `save`). Two countdown starts can both pass the `open`
  check, and two concurrent edits of the same group can overwrite each
  other. Neither interleaving is modelled.
- Missing request fields other than the ride of an invite or a join
  request (an absent `userId`, `groupId` or `name`) are not modelled: the
  handlers take them as given values.
- Create: schema validation failures, and a missing `fullName` printed as
  `undefined`, are not modelled. `fullName` is a given string.
- MapboxSort.SortByAxis: the library sort works in place on the array.
  The model sorts a sequence with a stable insertion sort, and
  `SortIsTheStableSort` shows that any stable sort gives the same order.
  Stability is guaranteed by the ECMAScript specification for
  `Array.prototype.sort`.
- MapboxWalk.PlacedProperties: with two members of the same user, the
  code can hold two drops for that user. `pendingDrop.set` keeps the later
  one, so one drop is lost; `Placed` does the same. In that case the lemma
  states only that the order is drawn from the stops (a sub-multiset). A
  permutation is promised only when no two stops share user and kind.
- MapboxSort.ChooseAscending: the contract compares sums only when there
  are as many drops as pickups, which the point builder always produces.
- MapboxSort.ChooseAxis: the spreads are compared exactly, in millionths
  of a degree. The code subtracts floating-point numbers, so spreads that
  tie as decimals can differ in the last bit: with longitudes 1.1 and 0.8
  against latitudes 0.3 and 0.0, the longitude spread is
  0.30000000000000004 and the code chooses longitude where the model
  chooses latitude. Such exact decimal ties can be decided the other way.
- MapboxSort.ChooseAscending: the sums are compared exactly, while the
  code compares floating-point means. When the sums tie as decimals,
  rounding in the `reduce` or the division can decide the direction the
  other way.
- Mapbox.GenerateOptimizedRoute: the waypoint order it promises is the
  code's order except on such exact decimal ties of the spreads or sums,
  where the code may sort along the other axis or in the other direction.
- Coordinates: source and destination are `[lng, lat]` pairs in
  millionths of a degree. Longer or shorter coordinate arrays, and values
  finer than 1e-6 degree, are not modelled.
- Ride fields the handlers only store (address text, timestamps) are
  datatype fields with no behaviour.
