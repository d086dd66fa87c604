/**
 * The group lifecycle of backend/src/controllers/group.controller.js: a
 * group document whose invite, join-request and member lists and whose
 * status the handlers change in place. Each handler is a method of `Group`
 * acting for a caller and answering with an outcome; the 30-second wait of
 * the ride countdown separates its two steps, `StartCountdown` and
 * `Finalize`.
 */
module GroupCoordinator {
  import opened Wrappers
  import opened Basics
  import opened GroupModel
  import RideModel

  // ---------------------------------------------------------------- names

  /**
   * The characters `String.prototype.trim` removes: the ECMAScript
   * WhiteSpace (tab, vertical tab, form feed, no-break space, byte order
   * mark and every space separator) and LineTerminator characters.
   */
  predicate IsJsSpace(c: char) {
    || c == '\t' || c == '\n' || c == '\U{B}' || c == '\U{C}' || c == '\r' || c == ' '
    || c == '\U{A0}' || c == '\U{1680}' || ('\U{2000}' <= c <= '\U{200A}')
    || c == '\U{2028}' || c == '\U{2029}' || c == '\U{202F}' || c == '\U{205F}'
    || c == '\U{3000}' || c == '\U{FEFF}'
  }

  predicate AllSpace(s: string) {
    forall k :: 0 <= k < |s| ==> IsJsSpace(s[k])
  }

  /** Where the text of `s` starts: past every leading space. */
  function SpanStart(s: string): (i: nat)
    ensures i <= |s| && AllSpace(s[..i])
    ensures i < |s| ==> !IsJsSpace(s[i])
  {
    if |s| == 0 || !IsJsSpace(s[0]) then 0
    else
      var i := 1 + SpanStart(s[1..]);
      assert forall k :: 1 <= k < i ==> s[..i][k] == s[1..][..i - 1][k - 1];
      i
  }

  /** Where the text of `s` ends: before every trailing space. */
  function SpanEnd(s: string): (j: nat)
    ensures j <= |s| && AllSpace(s[j..])
    ensures j > 0 ==> !IsJsSpace(s[j - 1])
  {
    if |s| == 0 || !IsJsSpace(s[|s| - 1]) then |s|
    else
      var j := SpanEnd(s[..|s| - 1]);
      assert forall k :: j <= k < |s| - 1 ==> s[k] == s[..|s| - 1][k];
      j
  }

  /** `String.prototype.trim`. */
  function Trim(s: string): (t: string)
    ensures exists i, j :: 0 <= i <= j <= |s| && t == s[i..j] && AllSpace(s[..i]) && AllSpace(s[j..])
    ensures |t| > 0 ==> !IsJsSpace(t[0]) && !IsJsSpace(t[|t| - 1])
  {
    var i := SpanStart(s);
    if i == |s| then
      assert s[i..i] == [] && AllSpace(s[i..]);
      ""
    else
      var j := SpanEnd(s);
      SpaceOutside(s, 0, j, i);
      s[i..j]
  }

  /** Trimming text that starts and ends with non-space characters leaves it as it is. */
  lemma TrimOfTrimmed(t: string)
    requires |t| == 0 || (!IsJsSpace(t[0]) && !IsJsSpace(t[|t| - 1]))
    ensures Trim(t) == t
  {
    if |t| > 0 {
      assert SpanStart(t) == 0;
      assert SpanEnd(t) == |t|;
      assert t[0..|t|] == t;
    }
  }

  /** Trimming is idempotent: the stored name is unchanged by the schema's own trim. */
  lemma TrimIdempotent(s: string)
    ensures Trim(Trim(s)) == Trim(s)
  {
    TrimOfTrimmed(Trim(s));
  }

  /** Text holding a non-space character does not trim to nothing. */
  lemma TrimKeepsText(s: string, k: int)
    requires 0 <= k < |s| && !IsJsSpace(s[k])
    ensures Trim(s) != ""
  {
    var t := Trim(s);
    var i, j :| 0 <= i <= j <= |s| && t == s[i..j] && AllSpace(s[..i]) && AllSpace(s[j..]);
    SpaceOutside(s, i, j, k);
    assert t[k - i] == s[k];
  }

  /** Outside the span `[i, j)` that trimming keeps, every character is a space. */
  lemma SpaceOutside(s: string, i: int, j: int, k: int)
    ensures 0 <= i <= j <= |s| && AllSpace(s[..i]) && AllSpace(s[j..]) && 0 <= k < |s| && (k < i || j <= k)
      ==> IsJsSpace(s[k])
  {
    if 0 <= i <= j <= |s| && 0 <= k < |s| {
      if k < i {
        assert s[..i][k] == s[k];
      } else if j <= k {
        assert s[j..][k - j] == s[k];
      }
    }
  }

  /**
   * The name of a new group: the requested name trimmed, unless it is
   * absent or blank; then the creator's full name followed by "'s Group".
   * The schema trims the stored value once more.
   */
  function GroupName(requested: Option<string>, fullName: string): (n: string)
    ensures |n| > 0
    ensures Trim(n) == n
    ensures requested.Some? && Trim(requested.value) != "" ==> n == Trim(requested.value)
    ensures requested.None? || Trim(requested.value) == "" ==> n == Trim(fullName + "'s Group")
  {
    var fallback := fullName + "'s Group";
    var n := if requested.Some? && Trim(requested.value) != "" then Trim(requested.value) else Trim(fallback);
    TrimKeepsText(fallback, |fallback| - 1);
    TrimIdempotent(n);
    TrimIdempotent(if requested.Some? then requested.value else fallback);
    TrimIdempotent(fallback);
    n
  }

  // ------------------------------------------------------------ list helpers

  /** The users of the invites, join requests or members, in order. */
  function InviteUsers(s: seq<Invite>): (us: seq<UserId>)
    ensures |us| == |s| && forall k :: 0 <= k < |s| ==> us[k] == s[k].user
  {
    seq(|s|, k requires 0 <= k < |s| => s[k].user)
  }

  function RequestUsers(s: seq<Request>): (us: seq<UserId>)
    ensures |us| == |s| && forall k :: 0 <= k < |s| ==> us[k] == s[k].user
  {
    seq(|s|, k requires 0 <= k < |s| => s[k].user)
  }

  function MemberUsers(s: seq<Member>): (us: seq<UserId>)
    ensures |us| == |s| && forall k :: 0 <= k < |s| ==> us[k] == s[k].user
  {
    seq(|s|, k requires 0 <= k < |s| => s[k].user)
  }

  /** `findIndex` of the first entry belonging to `u`, or -1. */
  function FirstIndex(users: seq<UserId>, u: UserId): (i: int)
    ensures -1 <= i < |users|
    ensures i == -1 <==> u !in users
    ensures 0 <= i ==> users[i] == u && u !in users[..i]
  {
    if |users| == 0 then -1
    else if users[0] == u then 0
    else
      var i := FirstIndex(users[1..], u);
      assert users == [users[0]] + users[1..];
      if i == -1 then -1
      else
        assert users[..i + 1] == [users[0]] + users[1..][..i];
        i + 1
  }

  /** `splice(i, 1)`. */
  function RemoveAt<T>(s: seq<T>, i: int): (r: seq<T>)
    requires 0 <= i < |s|
    ensures |r| == |s| - 1
  {
    seq(|s| - 1, k requires 0 <= k < |s| - 1 => if k < i then s[k] else s[k + 1])
  }

  /** Exactly the one entry at `i` is removed. */
  lemma RemoveAtCount<T>(s: seq<T>, i: int)
    requires 0 <= i < |s|
    ensures multiset(RemoveAt(s, i)) + multiset{s[i]} == multiset(s)
  {
    assert RemoveAt(s, i) == s[..i] + s[i + 1..];
    assert s == s[..i] + [s[i]] + s[i + 1..];
  }

  /** Removing one entry keeps the others in their order. */
  lemma RemoveAtKeepsOthers<T>(s: seq<T>, i: int)
    requires 0 <= i < |s|
    ensures forall k :: 0 <= k < i ==> RemoveAt(s, i)[k] == s[k]
    ensures forall k :: i <= k < |s| - 1 ==> RemoveAt(s, i)[k] == s[k + 1]
  {
  }

  /** `members[i].isReady = !members[i].isReady`. */
  function ToggleAt(ms: seq<Member>, i: int): (r: seq<Member>)
    requires 0 <= i < |ms|
    ensures |r| == |ms|
    ensures r[i].user == ms[i].user && r[i].ride == ms[i].ride && r[i].isReady == !ms[i].isReady
    ensures forall k :: 0 <= k < |ms| && k != i ==> r[k] == ms[k]
  {
    ms[i := ms[i].(isReady := !ms[i].isReady)]
  }

  /** Toggling the same member twice restores the list. */
  lemma ToggleTwice(ms: seq<Member>, i: int)
    requires 0 <= i < |ms|
    ensures ToggleAt(ToggleAt(ms, i), i) == ms
  {
    var r := ToggleAt(ToggleAt(ms, i), i);
    assert r[i] == ms[i];
    assert forall k :: 0 <= k < |ms| ==> r[k] == ms[k];
  }

  /** `members.filter(m => m.isReady === true)`. */
  function ReadyOnly(ms: seq<Member>): (r: seq<Member>)
    ensures |r| <= |ms|
    ensures forall m :: m in r <==> m in ms && m.isReady
  {
    if |ms| == 0 then []
    else (if ms[0].isReady then [ms[0]] else []) + ReadyOnly(ms[1..])
  }

  /** The filter keeps the original order: it distributes over concatenation. */
  lemma {:induction false} ReadyOnlyAppend(a: seq<Member>, b: seq<Member>)
    ensures ReadyOnly(a + b) == ReadyOnly(a) + ReadyOnly(b)
  {
    if |a| > 0 {
      var head := if a[0].isReady then [a[0]] else [];
      assert (a + b)[0] == a[0];
      assert (a + b)[1..] == a[1..] + b;
      ReadyOnlyAppend(a[1..], b);
      calc {
        ReadyOnly(a + b);
        head + ReadyOnly(a[1..] + b);
        head + (ReadyOnly(a[1..]) + ReadyOnly(b));
        (head + ReadyOnly(a[1..])) + ReadyOnly(b);
      }
    } else {
      assert a + b == b;
    }
  }

  /** The filter keeps a list of ready members whole, and so is idempotent. */
  lemma {:induction false} ReadyOnlyAllReady(ms: seq<Member>)
    ensures (forall m :: m in ms ==> m.isReady) <==> ReadyOnly(ms) == ms
  {
    if |ms| > 0 {
      ReadyOnlyAllReady(ms[1..]);
      if ReadyOnly(ms) == ms {
        assert ms[0] in ReadyOnly(ms);
      }
    }
  }

  lemma ReadyOnlyIdempotent(ms: seq<Member>)
    ensures ReadyOnly(ReadyOnly(ms)) == ReadyOnly(ms)
  {
    ReadyOnlyAllReady(ReadyOnly(ms));
  }

  /** The rides of the members, in order. */
  function RidesOf(ms: seq<Member>): (ids: seq<RideId>)
    ensures |ids| == |ms|
    ensures forall k :: 0 <= k < |ms| ==> ids[k] == ms[k].ride
  {
    seq(|ms|, k requires 0 <= k < |ms| => ms[k].ride)
  }

  // ---------------------------------------------------------------- rides

  /** `Ride.findByIdAndUpdate(id, { status: 'Matched' })` on a map of rides; a missing id changes nothing. */
  function MarkOne(rides: map<RideId, RideModel.Ride>, id: RideId): (r: map<RideId, RideModel.Ride>)
    ensures r.Keys == rides.Keys
    ensures id in rides ==> r[id] == rides[id].(status := RideModel.Matched)
    ensures forall x :: x in rides && x != id ==> r[x] == rides[x]
  {
    if id in rides then rides[id := rides[id].(status := RideModel.Matched)] else rides
  }

  /** The rides after marking each of `ids` in turn. */
  function MarkAll(rides: map<RideId, RideModel.Ride>, ids: seq<RideId>): map<RideId, RideModel.Ride> {
    if |ids| == 0 then rides else MarkOne(MarkAll(rides, ids[..|ids| - 1]), ids[|ids| - 1])
  }

  /**
   * Marking keeps the stored rides, sets every listed stored ride to
   * `Matched` and leaves every other ride as it was.
   */
  lemma {:induction false} MarkAllEffect(rides: map<RideId, RideModel.Ride>, ids: seq<RideId>)
    ensures MarkAll(rides, ids).Keys == rides.Keys
    ensures forall id :: id in rides ==>
      MarkAll(rides, ids)[id] == if id in ids then rides[id].(status := RideModel.Matched) else rides[id]
  {
    if |ids| > 0 {
      var init := ids[..|ids| - 1];
      MarkAllEffect(rides, init);
      assert forall id :: id in ids <==> id in init || id == ids[|ids| - 1] by {
        assert ids == init + [ids[|ids| - 1]];
      }
    }
  }

  /** The database's rides, as far as the group handlers change them. */
  class RideStore {
    var rides: map<RideId, RideModel.Ride>

    constructor (rides: map<RideId, RideModel.Ride>)
      ensures this.rides == rides
    {
      this.rides := rides;
    }

    method MarkMatched(id: RideId)
      modifies this
      ensures rides == MarkOne(old(rides), id)
    {
      if id in rides {
        rides := rides[id := rides[id].(status := RideModel.Matched)];
      }
    }

    /** Marks the rides `ids` one after the other. */
    method MarkAllMatched(ids: seq<RideId>)
      modifies this
      ensures rides == MarkAll(old(rides), ids)
    {
      for k := 0 to |ids|
        invariant rides == MarkAll(old(rides), ids[..k])
      {
        assert ids[..k + 1][..k] == ids[..k];
        MarkMatched(ids[k]);
      }
      assert ids[..|ids|] == ids;
    }
  }

  // ---------------------------------------------------------------- groups

  datatype Failure =
    | NotAuthorized     // the caller is not the admin
    | AlreadyInvited
    | AlreadyMember
    | NoInvite          // the caller has no pending invite
    | NoJoinRequest
    | NotAMember
    | GroupClosed       // no join requests to a closed group
    | AlreadyStarted    // the countdown needs an open group
    | InvalidRecord     // a required field of the new entry is missing, so the save is rejected

  datatype Ack =
    | Updated
    | AlreadyRequested            // a repeated join request changes nothing
    | CountdownStarted(endTime: int)

  datatype Outcome = Done(ack: Ack) | Refused(failure: Failure)

  /** The countdown before a ride starts, in milliseconds. */
  const CountdownMillis: int := 30000

  class Group {
    var name: string
    var admin: UserId
    var invites: seq<Invite>
    var requests: seq<Request>
    var members: seq<Member>
    var status: GroupStatus
    var route: PooledRoute

    /** `isGroupAdmin`. */
    predicate IsAdmin(u: UserId)
      reads this
    {
      admin == u
    }

    /**
     * `createNewGroup` by `creator`: the creator is the admin and the only
     * member, riding `rideId`; the given invites are pending; the status
     * and the route take their defaults.
     */
    constructor Create(creator: UserId, fullName: string, requestedName: Option<string>,
                       initialInvites: seq<Invite>, rideId: RideId)
      ensures name == GroupName(requestedName, fullName)
      ensures admin == creator
      ensures invites == initialInvites && requests == []
      ensures members == [NewMember(creator, rideId)]
      ensures status == Open && route == DefaultRoute()
    {
      name := GroupName(requestedName, fullName);
      admin := creator;
      invites := initialInvites;
      requests := [];
      members := [Member(creator, rideId, false)];
      status := Open;
      route := PooledRoute([], [], Directions("{}"));
    }

    /**
     * `inviteInGroup`: the admin invites `user` riding `rideId`. The ride of
     * an invite is a required field, so an invite without one is not saved.
     */
    method Invite(caller: UserId, user: UserId, rideId: Option<RideId>) returns (o: Outcome)
      modifies this
      ensures !old(IsAdmin(caller)) ==> o == Refused(NotAuthorized)
      ensures old(IsAdmin(caller)) && user in InviteUsers(old(invites)) ==> o == Refused(AlreadyInvited)
      ensures old(IsAdmin(caller)) && user !in InviteUsers(old(invites)) && user in MemberUsers(old(members))
        ==> o == Refused(AlreadyMember)
      ensures old(IsAdmin(caller)) && user !in InviteUsers(old(invites)) && user !in MemberUsers(old(members))
        ==> o == if rideId.Some? then Done(Updated) else Refused(InvalidRecord)
      ensures o.Refused? ==> unchanged(this)
      ensures o.Done? ==>
        rideId.Some? && o == Done(Updated) && invites == old(invites) + [GroupModel.Invite(user, rideId.value)]
      ensures o.Done? ==> (name == old(name) && admin == old(admin) && requests == old(requests) &&
        members == old(members) && status == old(status) && route == old(route))
    {
      if !IsAdmin(caller) {
        return Refused(NotAuthorized);
      }
      var inviteIndex := FirstIndex(InviteUsers(invites), user);
      var memberIndex := FirstIndex(MemberUsers(members), user);
      if inviteIndex != -1 {
        return Refused(AlreadyInvited);
      }
      if memberIndex != -1 {
        return Refused(AlreadyMember);
      }
      if rideId.None? {
        return Refused(InvalidRecord);
      }
      invites := invites + [GroupModel.Invite(user, rideId.value)];
      o := Done(Updated);
    }

    /** `acceptInvite`: the caller's first invite becomes a member with that invite's ride. */
    method AcceptInvite(caller: UserId) returns (o: Outcome)
      modifies this
      ensures var i := FirstIndex(InviteUsers(old(invites)), caller);
        if i == -1 then o == Refused(NoInvite) && unchanged(this)
        else
          && o == Done(Updated)
          && invites == RemoveAt(old(invites), i)
          && members == old(members) + [NewMember(old(invites)[i].user, old(invites)[i].ride)]
          && name == old(name) && admin == old(admin) && requests == old(requests)
          && status == old(status) && route == old(route)
    {
      var inviteIndex := FirstIndex(InviteUsers(invites), caller);
      if inviteIndex == -1 {
        return Refused(NoInvite);
      }
      var invite := invites[inviteIndex];
      invites := RemoveAt(invites, inviteIndex);
      members := members + [Member(invite.user, invite.ride, false)];
      o := Done(Updated);
    }

    /** `rejectInvite`: the caller's first invite is dropped. */
    method RejectInvite(caller: UserId) returns (o: Outcome)
      modifies this
      ensures var i := FirstIndex(InviteUsers(old(invites)), caller);
        if i == -1 then o == Refused(NoInvite) && unchanged(this)
        else
          && o == Done(Updated)
          && invites == RemoveAt(old(invites), i)
          && name == old(name) && admin == old(admin) && requests == old(requests)
          && members == old(members) && status == old(status) && route == old(route)
    {
      var inviteIndex := FirstIndex(InviteUsers(invites), caller);
      if inviteIndex == -1 {
        return Refused(NoInvite);
      }
      invites := RemoveAt(invites, inviteIndex);
      o := Done(Updated);
    }

    /**
     * `requestToJoinGroup`: a repeated request changes nothing, a member
     * cannot ask, a closed group takes no requests, a pending invite is
     * accepted instead, and otherwise the request is recorded, provided it
     * names the caller's ride (a required field of a request).
     */
    method RequestToJoin(caller: UserId, rideId: Option<RideId>) returns (o: Outcome)
      modifies this
      ensures caller in RequestUsers(old(requests)) ==> o == Done(AlreadyRequested) && unchanged(this)
      ensures caller !in RequestUsers(old(requests)) && caller in MemberUsers(old(members))
        ==> o == Refused(AlreadyMember) && unchanged(this)
      ensures (caller !in RequestUsers(old(requests)) && caller !in MemberUsers(old(members)) &&
        old(status) == Closed) ==> o == Refused(GroupClosed) && unchanged(this)
      ensures (caller !in RequestUsers(old(requests)) && caller !in MemberUsers(old(members)) &&
        old(status) != Closed && caller in InviteUsers(old(invites))) ==>
          var i := FirstIndex(InviteUsers(old(invites)), caller);
          && 0 <= i
          && o == Done(Updated)
          && invites == RemoveAt(old(invites), i)
          && members == old(members) + [NewMember(caller, old(invites)[i].ride)]
          && requests == old(requests)
      ensures (caller !in RequestUsers(old(requests)) && caller !in MemberUsers(old(members)) &&
        old(status) != Closed && caller !in InviteUsers(old(invites))) ==>
          if rideId.None? then o == Refused(InvalidRecord) && unchanged(this)
          else
            && o == Done(Updated)
            && requests == old(requests) + [Request(caller, rideId.value)]
            && invites == old(invites) && members == old(members)
      ensures name == old(name) && admin == old(admin) && status == old(status) && route == old(route)
    {
      if FirstIndex(RequestUsers(requests), caller) != -1 {
        return Done(AlreadyRequested);
      }
      if FirstIndex(MemberUsers(members), caller) != -1 {
        return Refused(AlreadyMember);
      }
      if status == Closed {
        return Refused(GroupClosed);
      }
      if FirstIndex(InviteUsers(invites), caller) != -1 {
        o := AcceptInvite(caller);
        return;
      }
      if rideId.None? {
        return Refused(InvalidRecord);
      }
      requests := requests + [Request(caller, rideId.value)];
      o := Done(Updated);
    }

    /** `acceptGroupJoinRequest`: the admin turns `user`'s first request into a member. */
    method AcceptJoinRequest(caller: UserId, user: UserId) returns (o: Outcome)
      modifies this
      ensures !old(IsAdmin(caller)) ==> o == Refused(NotAuthorized) && unchanged(this)
      ensures old(IsAdmin(caller)) ==> var i := FirstIndex(RequestUsers(old(requests)), user);
        if i == -1 then o == Refused(NoJoinRequest) && unchanged(this)
        else
          && o == Done(Updated)
          && requests == RemoveAt(old(requests), i)
          && members == old(members) + [NewMember(old(requests)[i].user, old(requests)[i].ride)]
          && name == old(name) && admin == old(admin) && invites == old(invites)
          && status == old(status) && route == old(route)
    {
      if !IsAdmin(caller) {
        return Refused(NotAuthorized);
      }
      var requestIndex := FirstIndex(RequestUsers(requests), user);
      if requestIndex == -1 {
        return Refused(NoJoinRequest);
      }
      var request := requests[requestIndex];
      requests := RemoveAt(requests, requestIndex);
      members := members + [Member(request.user, request.ride, false)];
      o := Done(Updated);
    }

    /** `rejectGroupJoinRequest`: the admin drops `user`'s first request. */
    method RejectJoinRequest(caller: UserId, user: UserId) returns (o: Outcome)
      modifies this
      ensures !old(IsAdmin(caller)) ==> o == Refused(NotAuthorized) && unchanged(this)
      ensures old(IsAdmin(caller)) ==> var i := FirstIndex(RequestUsers(old(requests)), user);
        if i == -1 then o == Refused(NoJoinRequest) && unchanged(this)
        else
          && o == Done(Updated)
          && requests == RemoveAt(old(requests), i)
          && name == old(name) && admin == old(admin) && invites == old(invites)
          && members == old(members) && status == old(status) && route == old(route)
    {
      if !IsAdmin(caller) {
        return Refused(NotAuthorized);
      }
      var requestIndex := FirstIndex(RequestUsers(requests), user);
      if requestIndex == -1 {
        return Refused(NoJoinRequest);
      }
      requests := RemoveAt(requests, requestIndex);
      o := Done(Updated);
    }

    /** `leaveGroup`: the caller's first member entry is removed; the admin may leave too. */
    method Leave(caller: UserId) returns (o: Outcome)
      modifies this
      ensures var i := FirstIndex(MemberUsers(old(members)), caller);
        if i == -1 then o == Refused(NotAMember) && unchanged(this)
        else
          && o == Done(Updated)
          && members == RemoveAt(old(members), i)
          && name == old(name) && admin == old(admin) && invites == old(invites)
          && requests == old(requests) && status == old(status) && route == old(route)
    {
      var memberIndex := FirstIndex(MemberUsers(members), caller);
      if memberIndex == -1 {
        return Refused(NotAMember);
      }
      members := RemoveAt(members, memberIndex);
      o := Done(Updated);
    }

    /** `removeFromGroup`: the admin removes `user`'s first member entry, the admin's own included. */
    method Remove(caller: UserId, user: UserId) returns (o: Outcome)
      modifies this
      ensures !old(IsAdmin(caller)) ==> o == Refused(NotAuthorized) && unchanged(this)
      ensures old(IsAdmin(caller)) ==> var i := FirstIndex(MemberUsers(old(members)), user);
        if i == -1 then o == Refused(NotAMember) && unchanged(this)
        else
          && o == Done(Updated)
          && members == RemoveAt(old(members), i)
          && name == old(name) && admin == old(admin) && invites == old(invites)
          && requests == old(requests) && status == old(status) && route == old(route)
    {
      if !IsAdmin(caller) {
        return Refused(NotAuthorized);
      }
      o := Leave(user);
    }

    /**
     * `toggleMemberReadyStatus` (for the `user` named in the request, by
     * any caller) and `toggleReadyStatus` (for the calling user): the first
     * member entry of `user` flips its readiness, whatever the status.
     */
    method ToggleReady(user: UserId) returns (o: Outcome)
      modifies this
      ensures var i := FirstIndex(MemberUsers(old(members)), user);
        if i == -1 then o == Refused(NotAMember) && unchanged(this)
        else
          && o == Done(Updated)
          && members == ToggleAt(old(members), i)
          && name == old(name) && admin == old(admin) && invites == old(invites)
          && requests == old(requests) && status == old(status) && route == old(route)
    {
      var memberIndex := FirstIndex(MemberUsers(members), user);
      if memberIndex == -1 {
        return Refused(NotAMember);
      }
      members := ToggleAt(members, memberIndex);
      o := Done(Updated);
    }

    /**
     * The first step of `handleStartRideCountdown`: only the admin, only
     * from `open`; the group is locked and the countdown ends 30 seconds
     * after `now`.
     */
    method StartCountdown(caller: UserId, now: int) returns (o: Outcome)
      modifies this
      ensures !old(IsAdmin(caller)) ==> o == Refused(NotAuthorized) && unchanged(this)
      ensures old(IsAdmin(caller)) && old(status) != Open ==> o == Refused(AlreadyStarted) && unchanged(this)
      ensures old(IsAdmin(caller)) && old(status) == Open ==>
        && o == Done(CountdownStarted(now + CountdownMillis))
        && status == Locked
        && name == old(name) && admin == old(admin) && invites == old(invites)
        && requests == old(requests) && members == old(members) && route == old(route)
    {
      if !IsAdmin(caller) {
        return Refused(NotAuthorized);
      }
      if status != Open {
        return Refused(AlreadyStarted);
      }
      status := Locked;
      o := Done(CountdownStarted(now + CountdownMillis));
    }

    /**
     * The second step, after the wait: only the ready members stay, their
     * rides become `Matched`, and the group is closed. The status is not
     * checked again.
     */
    method Finalize(store: RideStore)
      modifies this, store
      ensures members == ReadyOnly(old(members))
      ensures store.rides == MarkAll(old(store.rides), RidesOf(members))
      ensures status == Closed
      ensures name == old(name) && admin == old(admin) && invites == old(invites)
      ensures requests == old(requests) && route == old(route)
    {
      members := ReadyOnly(members);
      store.MarkAllMatched(RidesOf(members));
      status := Closed;
    }
  }

  /**
   * After finalizing, every member is ready, was a ready member before, and
   * every stored ride of a member is `Matched`.
   */
  lemma FinalizeEffect(before: seq<Member>, rides: map<RideId, RideModel.Ride>)
    ensures var after := ReadyOnly(before);
      && (forall m :: m in after ==> m.isReady && m in before)
      && (forall m :: m in before && m.isReady ==> m in after)
      && MarkAll(rides, RidesOf(after)).Keys == rides.Keys
      && (forall m :: m in after && m.ride in rides ==>
            MarkAll(rides, RidesOf(after))[m.ride].status == RideModel.Matched)
  {
    var after := ReadyOnly(before);
    MarkAllEffect(rides, RidesOf(after));
    forall m | m in after && m.ride in rides
      ensures MarkAll(rides, RidesOf(after))[m.ride].status == RideModel.Matched
    {
      var k :| 0 <= k < |after| && after[k] == m;
      assert RidesOf(after)[k] == m.ride;
    }
  }
}
