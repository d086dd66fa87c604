/**
 * The precedence walk of `generateOptimizedRoute`
 * (backend/src/utils/mapbox.js): the stops, already sorted along the axis,
 * are emitted in order, except that a drop whose pickup has not been emitted
 * yet is held back and emitted right after that pickup; drops still held at
 * the end are appended.
 */
module MapboxWalk {
  import opened Basics
  import opened GroupModel
  import MapboxSort

  /** Users with a pickup among `s`. */
  function PickupUsers(s: seq<Waypoint>): set<UserId> {
    set p | p in s && p.kind == Pickup :: p.userId
  }

  /** Users with a drop among `s`. */
  function DropUsers(s: seq<Waypoint>): set<UserId> {
    set p | p in s && p.kind == Drop :: p.userId
  }

  /** No two stops of `s` are the same role of the same user. */
  ghost predicate UniqueTags(s: seq<Waypoint>) {
    forall i, j :: 0 <= i < j < |s| ==> s[i].userId != s[j].userId || s[i].kind != s[j].kind
  }

  /** Every user with a drop also has a pickup. */
  ghost predicate DropsHavePickups(s: seq<Waypoint>) {
    DropUsers(s) <= PickupUsers(s)
  }

  /** A pickup of the same user stands somewhere before position `a`. */
  ghost predicate PickupBefore(s: seq<Waypoint>, a: int)
    requires 0 <= a < |s|
  {
    exists b :: 0 <= b < a && s[b].kind == Pickup && s[b].userId == s[a].userId
  }

  /** Every user's pickups come before their drops. */
  ghost predicate PickupsFirst(s: seq<Waypoint>) {
    forall a, b ::
      (0 <= a < |s| && 0 <= b < |s| && s[a].kind == Drop && s[b].kind == Pickup && s[a].userId == s[b].userId)
      ==> b < a
  }

  /** `y` immediately follows `x` somewhere in `s`. */
  ghost predicate FollowedBy(s: seq<Waypoint>, x: Waypoint, y: Waypoint) {
    exists b :: 0 <= b < |s| - 1 && s[b] == x && s[b + 1] == y
  }

  /**
   * Every drop met before its own pickup among the first `n` input stops is,
   * in `out`, right after that pickup.
   */
  ghost predicate DeferredFollow(points: seq<Waypoint>, n: int, out: seq<Waypoint>)
    requires 0 <= n <= |points|
  {
    forall j1, j2 ::
      (0 <= j1 < j2 < n && points[j1].kind == Drop && points[j2].kind == Pickup &&
       points[j1].userId == points[j2].userId)
      ==> FollowedBy(out, points[j2], points[j1])
  }

  predicate Distinct(keys: seq<UserId>) {
    forall a, b :: 0 <= a < b < |keys| ==> keys[a] != keys[b]
  }

  /** `keys` without `u`, the others in their order (`Map.prototype.delete`). */
  function RemoveKey(keys: seq<UserId>, u: UserId): (r: seq<UserId>)
    ensures forall k :: k in r <==> k in keys && k != u
  {
    if |keys| == 0 then []
    else if keys[0] == u then RemoveKey(keys[1..], u)
    else [keys[0]] + RemoveKey(keys[1..], u)
  }

  lemma {:induction false} RemoveKeyDistinct(keys: seq<UserId>, u: UserId)
    requires Distinct(keys)
    ensures Distinct(RemoveKey(keys, u))
  {
    if |keys| > 0 {
      assert Distinct(keys[1..]);
      RemoveKeyDistinct(keys[1..], u);
      assert keys[0] !in keys[1..];
    }
  }

  /** The held drops in the map's insertion order. */
  function PendingStops(keys: seq<UserId>, pending: map<UserId, Waypoint>): (r: seq<Waypoint>)
    requires forall k :: k in keys ==> k in pending
    ensures |r| == |keys|
  {
    if |keys| == 0 then [] else [pending[keys[0]]] + PendingStops(keys[1..], pending)
  }

  lemma {:induction false} PendingStopsAt(keys: seq<UserId>, pending: map<UserId, Waypoint>, t: int)
    requires forall k :: k in keys ==> k in pending
    requires 0 <= t < |keys|
    ensures PendingStops(keys, pending)[t] == pending[keys[t]]
  {
    if t > 0 {
      PendingStopsAt(keys[1..], pending, t - 1);
    }
  }

  lemma {:induction false} PendingStopsFrame(keys: seq<UserId>, pending: map<UserId, Waypoint>, u: UserId, p: Waypoint)
    requires forall k :: k in keys ==> k in pending
    requires u !in keys
    ensures PendingStops(keys, pending[u := p]) == PendingStops(keys, pending)
  {
    if |keys| > 0 {
      PendingStopsFrame(keys[1..], pending, u, p);
    }
  }

  lemma {:induction false} PendingStopsRemove(keys: seq<UserId>, pending: map<UserId, Waypoint>, u: UserId)
    requires forall k :: k in keys ==> k in pending
    requires Distinct(keys) && u in keys
    ensures multiset(PendingStops(RemoveKey(keys, u), pending - {u})) + multiset{pending[u]}
         == multiset(PendingStops(keys, pending))
  {
    var rest := keys[1..];
    assert Distinct(rest);
    assert PendingStops(keys, pending) == [pending[keys[0]]] + PendingStops(rest, pending);
    if keys[0] == u {
      assert u !in rest;
      RemoveKeyAbsent(rest, u);
      PendingStopsRestrict(rest, pending, u);
    } else {
      PendingStopsRemove(rest, pending, u);
      var m := pending - {u};
      var x := pending[keys[0]];
      assert m[keys[0]] == x;
      assert RemoveKey(keys, u) == [keys[0]] + RemoveKey(rest, u);
      assert PendingStops(RemoveKey(keys, u), m) == [x] + PendingStops(RemoveKey(rest, u), m);
      assert multiset(PendingStops(RemoveKey(keys, u), m)) == multiset{x} + multiset(PendingStops(RemoveKey(rest, u), m));
      assert multiset(PendingStops(keys, pending)) == multiset{x} + multiset(PendingStops(rest, pending));
    }
  }

  lemma {:induction false} RemoveKeyAbsent(keys: seq<UserId>, u: UserId)
    requires u !in keys
    ensures RemoveKey(keys, u) == keys
  {
    if |keys| > 0 {
      RemoveKeyAbsent(keys[1..], u);
      assert [keys[0]] + keys[1..] == keys;
    }
  }

  lemma {:induction false} PendingStopsRestrict(keys: seq<UserId>, pending: map<UserId, Waypoint>, u: UserId)
    requires forall k :: k in keys ==> k in pending
    requires u !in keys
    ensures PendingStops(keys, pending - {u}) == PendingStops(keys, pending)
  {
    if |keys| > 0 {
      PendingStopsRestrict(keys[1..], pending, u);
    }
  }

  lemma {:induction false} PendingStopsReplace(keys: seq<UserId>, pending: map<UserId, Waypoint>, u: UserId, p: Waypoint)
    requires forall k :: k in keys ==> k in pending
    requires Distinct(keys) && u in keys
    ensures multiset(PendingStops(keys, pending[u := p])) + multiset{pending[u]}
         == multiset(PendingStops(keys, pending)) + multiset{p}
  {
    var rest := keys[1..];
    assert Distinct(rest);
    var m := pending[u := p];
    assert PendingStops(keys, pending) == [pending[keys[0]]] + PendingStops(rest, pending);
    assert PendingStops(keys, m) == [m[keys[0]]] + PendingStops(rest, m);
    if keys[0] == u {
      assert u !in rest;
      PendingStopsFrame(rest, pending, u, p);
    } else {
      PendingStopsReplace(rest, pending, u, p);
      var x := pending[keys[0]];
      assert m[keys[0]] == x;
      assert multiset(PendingStops(keys, m)) == multiset{x} + multiset(PendingStops(rest, m));
      assert multiset(PendingStops(keys, pending)) == multiset{x} + multiset(PendingStops(rest, pending));
      ConsSwap(x, multiset(PendingStops(rest, pending)), multiset(PendingStops(rest, m)), pending[u], p);
    }
  }

  /** Putting one more element in front keeps a swap of `d` for `p` balanced. */
  lemma ConsSwap(x: Waypoint, b: multiset<Waypoint>, b': multiset<Waypoint>, d: Waypoint, p: Waypoint)
    requires b' + multiset{d} == b + multiset{p}
    ensures (multiset{x} + b') + multiset{d} == (multiset{x} + b) + multiset{p}
  {
    assert (multiset{x} + b') + multiset{d} == multiset{x} + (b' + multiset{d});
  }

  lemma PickupUsersSnoc(s: seq<Waypoint>, x: Waypoint)
    ensures PickupUsers(s + [x]) == PickupUsers(s) + (if x.kind == Pickup then {x.userId} else {})
    ensures DropUsers(s + [x]) == DropUsers(s) + (if x.kind == Drop then {x.userId} else {})
  {
    forall q ensures q in s + [x] <==> q in s || q == x { }
  }

  lemma {:induction false} PendingStopsSnoc(keys: seq<UserId>, pending: map<UserId, Waypoint>, u: UserId)
    requires forall k :: k in keys ==> k in pending
    requires u in pending
    ensures PendingStops(keys + [u], pending) == PendingStops(keys, pending) + [pending[u]]
  {
    if |keys| > 0 {
      assert (keys + [u])[1..] == keys[1..] + [u];
      PendingStopsSnoc(keys[1..], pending, u);
    }
  }

  /** The walk's bookkeeping of seen pickups and held drops after `i` stops. */
  ghost predicate Held(points: seq<Waypoint>, i: int, seen: set<UserId>,
                       pending: map<UserId, Waypoint>, keys: seq<UserId>)
    requires 0 <= i <= |points|
  {
    && seen == PickupUsers(points[..i])
    && (forall u :: u in pending ==>
          pending[u] in points[..i] && pending[u].kind == Drop && pending[u].userId == u && u !in seen)
    && (forall u :: u in DropUsers(points[..i]) && u !in seen ==> u in pending)
    && (forall u :: u in pending <==> u in keys)
    && Distinct(keys)
  }

  /** What the emitted stops `out` hold after `i` stops. */
  ghost predicate Emitted(points: seq<Waypoint>, i: int, out: seq<Waypoint>, seen: set<UserId>)
    requires 0 <= i <= |points|
  {
    && (forall j :: 0 <= j < i && points[j].kind == Pickup ==> points[j] in out)
    && (forall a :: 0 <= a < |out| && out[a].kind == Drop ==> out[a].userId in seen && PickupBefore(out, a))
  }

  /** Emitted and held stops together are drawn from the first `i` stops, and are all of them under unique roles. */
  ghost predicate Counted(points: seq<Waypoint>, i: int, out: seq<Waypoint>,
                          pending: map<UserId, Waypoint>, keys: seq<UserId>)
    requires 0 <= i <= |points|
    requires forall k :: k in keys ==> k in pending
  {
    && multiset(out) + multiset(PendingStops(keys, pending)) <= multiset(points[..i])
    && (UniqueTags(points) ==> multiset(out) + multiset(PendingStops(keys, pending)) == multiset(points[..i]))
  }

  /** What holds after the walk has taken the first `i` sorted stops. */
  ghost predicate Walked(points: seq<Waypoint>, i: int, out: seq<Waypoint>, seen: set<UserId>,
                         pending: map<UserId, Waypoint>, keys: seq<UserId>)
  {
    && 0 <= i <= |points|
    && Held(points, i, seen, pending, keys)
    && Emitted(points, i, out, seen)
    && Counted(points, i, out, pending, keys)
    && (UniqueTags(points) ==> DeferredFollow(points, i, out))
  }

  lemma WalkStart(points: seq<Waypoint>)
    ensures Walked(points, 0, [], {}, map[], [])
  {
    assert points[..0] == [];
  }

  /** Under unique roles, the pickup at `i` is the first pickup of its user. */
  lemma FirstPickup(points: seq<Waypoint>, i: int)
    requires UniqueTags(points) && 0 <= i < |points| && points[i].kind == Pickup
    ensures points[i].userId !in PickupUsers(points[..i])
  {
    forall q | q in points[..i] && q.kind == Pickup
      ensures q.userId != points[i].userId
    {
      var j :| 0 <= j < i && points[..i][j] == q;
      assert points[j] == q;
    }
  }

  /** Under unique roles, the drop of a user in a prefix is the one at `j1`. */
  lemma OnlyDrop(points: seq<Waypoint>, i: int, d: Waypoint, j1: int)
    requires UniqueTags(points) && 0 <= j1 < i <= |points|
    requires d in points[..i] && d.kind == Drop && points[j1].kind == Drop && d.userId == points[j1].userId
    ensures d == points[j1]
  {
    var j :| 0 <= j < i && points[..i][j] == d;
    assert points[j] == d;
  }

  /** A second drop of a user whose drop is already held breaks unique roles. */
  lemma SecondDrop(points: seq<Waypoint>, i: int, d: Waypoint)
    requires 0 <= i < |points| && points[i].kind == Drop
    requires d in points[..i] && d.kind == Drop && d.userId == points[i].userId
    ensures !UniqueTags(points)
  {
    var j :| 0 <= j < i && points[..i][j] == d;
    assert points[j] == d;
  }

  /** `out + tail` keeps every adjacency of `out`. */
  lemma FollowExtends(points: seq<Waypoint>, i: int, out: seq<Waypoint>, tail: seq<Waypoint>)
    requires 0 <= i <= |points| && DeferredFollow(points, i, out)
    ensures DeferredFollow(points, i, out + tail)
  {
    forall j1, j2 | 0 <= j1 < j2 < i && points[j1].kind == Drop && points[j2].kind == Pickup &&
      points[j1].userId == points[j2].userId
      ensures FollowedBy(out + tail, points[j2], points[j1])
    {
      var b :| 0 <= b < |out| - 1 && out[b] == points[j2] && out[b + 1] == points[j1];
      assert (out + tail)[b] == out[b] && (out + tail)[b + 1] == out[b + 1];
    }
  }

  /** `out + tail` keeps every pickup-before fact of `out`. */
  lemma BeforeExtends(out: seq<Waypoint>, tail: seq<Waypoint>, a: int)
    requires 0 <= a < |out| && PickupBefore(out, a)
    ensures PickupBefore(out + tail, a)
  {
    var b :| 0 <= b < a && out[b].kind == Pickup && out[b].userId == out[a].userId;
    assert (out + tail)[b] == out[b] && (out + tail)[a] == out[a];
  }

  lemma PickupHeld(points: seq<Waypoint>, i: int, seen: set<UserId>, pending: map<UserId, Waypoint>, keys: seq<UserId>)
    requires 0 <= i < |points| && points[i].kind == Pickup && Held(points, i, seen, pending, keys)
    ensures var u := points[i].userId;
      if u in pending then Held(points, i + 1, seen + {u}, pending - {u}, RemoveKey(keys, u))
      else Held(points, i + 1, seen + {u}, pending, keys)
  {
    assert points[..i + 1] == points[..i] + [points[i]];
    PickupUsersSnoc(points[..i], points[i]);
    RemoveKeyDistinct(keys, points[i].userId);
  }

  lemma PickupEmitted(points: seq<Waypoint>, i: int, out: seq<Waypoint>, seen: set<UserId>,
                      pending: map<UserId, Waypoint>, keys: seq<UserId>)
    requires 0 <= i < |points| && points[i].kind == Pickup && Walked(points, i, out, seen, pending, keys)
    ensures var p, u := points[i], points[i].userId;
      if u in pending then Emitted(points, i + 1, out + [p] + [pending[u]], seen + {u})
      else Emitted(points, i + 1, out + [p], seen + {u})
  {
    var p, u := points[i], points[i].userId;
    var out' := if u in pending then out + [p] + [pending[u]] else out + [p];
    assert out' == out + out'[|out|..];
    forall a | 0 <= a < |out'| && out'[a].kind == Drop
      ensures out'[a].userId in seen + {u} && PickupBefore(out', a)
    {
      if a < |out| {
        BeforeExtends(out, out'[|out|..], a);
      } else {
        assert a == |out| + 1 && out'[|out|] == p;
      }
    }
  }

  lemma PickupReleaseCounted(points: seq<Waypoint>, i: int, out: seq<Waypoint>,
                             pending: map<UserId, Waypoint>, keys: seq<UserId>)
    requires 0 <= i < |points| && points[i].userId in pending
    requires (forall k :: k in pending <==> k in keys) && Distinct(keys)
    requires Counted(points, i, out, pending, keys)
    ensures var p, u := points[i], points[i].userId;
      Counted(points, i + 1, out + [p] + [pending[u]], pending - {u}, RemoveKey(keys, u))
  {
    var p, u := points[i], points[i].userId;
    var d := pending[u];
    assert points[..i + 1] == points[..i] + [p];
    PendingStopsRemove(keys, pending, u);
    assert multiset(out + [p] + [d]) == multiset(out) + multiset{p} + multiset{d};
    ReleaseWithin(multiset(out), multiset(PendingStops(keys, pending)),
                  multiset(PendingStops(RemoveKey(keys, u), pending - {u})), d, p, multiset(points[..i]));
  }

  /** Emitting `p` together with one held element `d` adds `p` to a bag's bound. */
  lemma ReleaseWithin(a: multiset<Waypoint>, b: multiset<Waypoint>, b': multiset<Waypoint>,
                      d: Waypoint, p: Waypoint, bound: multiset<Waypoint>)
    requires b' + multiset{d} == b
    ensures a + b <= bound ==> a + multiset{p} + multiset{d} + b' <= bound + multiset{p}
    ensures a + b == bound ==> a + multiset{p} + multiset{d} + b' == bound + multiset{p}
  {
    assert a + multiset{p} + multiset{d} + b' == (a + b) + multiset{p};
  }

  lemma PickupFollow(points: seq<Waypoint>, i: int, out: seq<Waypoint>, seen: set<UserId>,
                     pending: map<UserId, Waypoint>, keys: seq<UserId>)
    requires 0 <= i < |points| && points[i].kind == Pickup && Walked(points, i, out, seen, pending, keys)
    requires UniqueTags(points)
    ensures var p, u := points[i], points[i].userId;
      if u in pending then DeferredFollow(points, i + 1, out + [p] + [pending[u]])
      else DeferredFollow(points, i + 1, out + [p])
  {
    var p, u := points[i], points[i].userId;
    var out' := if u in pending then out + [p] + [pending[u]] else out + [p];
    assert out' == out + out'[|out|..];
    FollowExtends(points, i, out, out'[|out|..]);
    forall j1, j2 | 0 <= j1 < j2 < i + 1 && points[j1].kind == Drop && points[j2].kind == Pickup &&
      points[j1].userId == points[j2].userId
      ensures FollowedBy(out', points[j2], points[j1])
    {
      if j2 == i {
        FirstPickup(points, i);
        assert points[j1] in points[..i];
        assert u in DropUsers(points[..i]);
        OnlyDrop(points, i, pending[u], j1);
        assert out'[|out|] == p && out'[|out| + 1] == pending[u];
      }
    }
  }

  lemma PickupReleases(points: seq<Waypoint>, i: int, out: seq<Waypoint>, seen: set<UserId>,
                       pending: map<UserId, Waypoint>, keys: seq<UserId>)
    requires Walked(points, i, out, seen, pending, keys) && i < |points| && points[i].kind == Pickup
    requires points[i].userId in pending
    ensures var p, u := points[i], points[i].userId;
      Walked(points, i + 1, out + [p] + [pending[u]], seen + {u}, pending - {u}, RemoveKey(keys, u))
  {
    PickupHeld(points, i, seen, pending, keys);
    PickupEmitted(points, i, out, seen, pending, keys);
    PickupReleaseCounted(points, i, out, pending, keys);
    if UniqueTags(points) {
      PickupFollow(points, i, out, seen, pending, keys);
    }
  }

  lemma PickupFirst(points: seq<Waypoint>, i: int, out: seq<Waypoint>, seen: set<UserId>,
                    pending: map<UserId, Waypoint>, keys: seq<UserId>)
    requires Walked(points, i, out, seen, pending, keys) && i < |points| && points[i].kind == Pickup
    requires points[i].userId !in pending
    ensures Walked(points, i + 1, out + [points[i]], seen + {points[i].userId}, pending, keys)
  {
    PickupHeld(points, i, seen, pending, keys);
    PickupEmitted(points, i, out, seen, pending, keys);
    EmitCounted(points, i, out, pending, keys);
    if UniqueTags(points) {
      PickupFollow(points, i, out, seen, pending, keys);
    }
  }

  lemma DropAfterPickup(points: seq<Waypoint>, i: int, out: seq<Waypoint>, seen: set<UserId>,
                        pending: map<UserId, Waypoint>, keys: seq<UserId>)
    requires Walked(points, i, out, seen, pending, keys) && i < |points| && points[i].kind == Drop
    requires points[i].userId in seen
    ensures Walked(points, i + 1, out + [points[i]], seen, pending, keys)
  {
    DropSeenHeld(points, i, seen, pending, keys);
    DropEmitted(points, i, out, seen);
    EmitCounted(points, i, out, pending, keys);
    if UniqueTags(points) {
      FollowExtends(points, i, out, [points[i]]);
    }
    DropFollow(points, i, out + [points[i]]);
  }

  lemma DropSeenHeld(points: seq<Waypoint>, i: int, seen: set<UserId>,
                     pending: map<UserId, Waypoint>, keys: seq<UserId>)
    requires 0 <= i < |points| && points[i].kind == Drop && points[i].userId in seen
    requires Held(points, i, seen, pending, keys)
    ensures Held(points, i + 1, seen, pending, keys)
  {
    assert points[..i + 1] == points[..i] + [points[i]];
    PickupUsersSnoc(points[..i], points[i]);
  }

  lemma EmitCounted(points: seq<Waypoint>, i: int, out: seq<Waypoint>,
                        pending: map<UserId, Waypoint>, keys: seq<UserId>)
    requires 0 <= i < |points| && forall k :: k in keys ==> k in pending
    requires Counted(points, i, out, pending, keys)
    ensures Counted(points, i + 1, out + [points[i]], pending, keys)
  {
    assert points[..i + 1] == points[..i] + [points[i]];
    assert multiset(out + [points[i]]) == multiset(out) + multiset{points[i]};
  }

  lemma DropReplaces(points: seq<Waypoint>, i: int, out: seq<Waypoint>, seen: set<UserId>,
                     pending: map<UserId, Waypoint>, keys: seq<UserId>)
    requires Walked(points, i, out, seen, pending, keys) && i < |points| && points[i].kind == Drop
    requires points[i].userId !in seen && points[i].userId in pending
    ensures Walked(points, i + 1, out, seen, pending[points[i].userId := points[i]], keys)
  {
    DropReplacesHeld(points, i, seen, pending, keys);
    DropKeepsEmitted(points, i, out, seen);
    DropReplacesCounted(points, i, out, pending, keys);
    DropFollow(points, i, out);
  }

  lemma DropReplacesHeld(points: seq<Waypoint>, i: int, seen: set<UserId>,
                         pending: map<UserId, Waypoint>, keys: seq<UserId>)
    requires 0 <= i < |points| && points[i].kind == Drop
    requires points[i].userId !in seen && points[i].userId in pending
    requires Held(points, i, seen, pending, keys)
    ensures Held(points, i + 1, seen, pending[points[i].userId := points[i]], keys)
  {
    var p := points[i];
    assert points[..i + 1] == points[..i] + [p];
    PickupUsersSnoc(points[..i], p);
  }

  lemma DropReplacesCounted(points: seq<Waypoint>, i: int, out: seq<Waypoint>,
                            pending: map<UserId, Waypoint>, keys: seq<UserId>)
    requires 0 <= i < |points| && points[i].kind == Drop && points[i].userId in pending
    requires pending[points[i].userId] in points[..i] && pending[points[i].userId].kind == Drop
    requires pending[points[i].userId].userId == points[i].userId
    requires (forall k :: k in pending <==> k in keys) && Distinct(keys)
    requires Counted(points, i, out, pending, keys)
    ensures Counted(points, i + 1, out, pending[points[i].userId := points[i]], keys)
  {
    var p, u := points[i], points[i].userId;
    var pending' := pending[u := p];
    assert points[..i + 1] == points[..i] + [p];
    SecondDrop(points, i, pending[u]);
    PendingStopsReplace(keys, pending, u, p);
    assert multiset(points[..i + 1]) == multiset(points[..i]) + multiset{p};
    SwapWithin(multiset(out), multiset(PendingStops(keys, pending)), multiset(PendingStops(keys, pending')),
               pending[u], p, multiset(points[..i]));
  }

  /** Swapping one held element `d` for `p` keeps a bag within its bound grown by `p`. */
  lemma SwapWithin(a: multiset<Waypoint>, b: multiset<Waypoint>, b': multiset<Waypoint>,
                   d: Waypoint, p: Waypoint, bound: multiset<Waypoint>)
    requires b' + multiset{d} == b + multiset{p}
    requires a + b <= bound
    ensures a + b' <= bound + multiset{p}
  {
    forall x ensures (a + b')[x] <= (bound + multiset{p})[x] {
      assert (b' + multiset{d})[x] == (b + multiset{p})[x];
    }
  }

  /** A drop adds no pickup-drop pair to follow. */
  lemma DropFollow(points: seq<Waypoint>, i: int, out: seq<Waypoint>)
    requires 0 <= i < |points| && points[i].kind == Drop
    requires UniqueTags(points) ==> DeferredFollow(points, i, out)
    ensures UniqueTags(points) ==> DeferredFollow(points, i + 1, out)
  {
  }

  lemma DropHeld(points: seq<Waypoint>, i: int, out: seq<Waypoint>, seen: set<UserId>,
                 pending: map<UserId, Waypoint>, keys: seq<UserId>)
    requires Walked(points, i, out, seen, pending, keys) && i < |points| && points[i].kind == Drop
    requires points[i].userId !in seen && points[i].userId !in pending
    ensures Walked(points, i + 1, out, seen, pending[points[i].userId := points[i]], keys + [points[i].userId])
  {
    DropHeldHeld(points, i, seen, pending, keys);
    DropKeepsEmitted(points, i, out, seen);
    DropHeldCounted(points, i, out, pending, keys);
    DropFollow(points, i, out);
  }

  lemma DropHeldHeld(points: seq<Waypoint>, i: int, seen: set<UserId>,
                     pending: map<UserId, Waypoint>, keys: seq<UserId>)
    requires 0 <= i < |points| && points[i].kind == Drop
    requires points[i].userId !in seen && points[i].userId !in pending
    requires Held(points, i, seen, pending, keys)
    ensures Held(points, i + 1, seen, pending[points[i].userId := points[i]], keys + [points[i].userId])
  {
    var p, u := points[i], points[i].userId;
    assert points[..i + 1] == points[..i] + [p];
    PickupUsersSnoc(points[..i], p);
    assert Distinct(keys + [u]);
  }

  lemma DropKeepsEmitted(points: seq<Waypoint>, i: int, out: seq<Waypoint>, seen: set<UserId>)
    requires 0 <= i < |points| && points[i].kind == Drop && Emitted(points, i, out, seen)
    ensures Emitted(points, i + 1, out, seen)
  {
  }

  lemma DropHeldCounted(points: seq<Waypoint>, i: int, out: seq<Waypoint>,
                        pending: map<UserId, Waypoint>, keys: seq<UserId>)
    requires 0 <= i < |points| && points[i].userId !in pending
    requires (forall k :: k in pending <==> k in keys) && Counted(points, i, out, pending, keys)
    ensures Counted(points, i + 1, out, pending[points[i].userId := points[i]], keys + [points[i].userId])
  {
    var p, u := points[i], points[i].userId;
    var pending', keys' := pending[u := p], keys + [u];
    assert points[..i + 1] == points[..i] + [p];
    PendingStopsFrame(keys, pending, u, p);
    PendingStopsSnoc(keys, pending', u);
    assert multiset(PendingStops(keys', pending')) == multiset(PendingStops(keys, pending)) + multiset{p};
  }

  lemma DropEmitted(points: seq<Waypoint>, i: int, out: seq<Waypoint>, seen: set<UserId>)
    requires 0 <= i < |points| && points[i].kind == Drop
    requires seen == PickupUsers(points[..i]) && Emitted(points, i, out, seen)
    requires points[i].userId in seen
    ensures Emitted(points, i + 1, out + [points[i]], seen)
  {
    var p := points[i];
    var out' := out + [p];
    var q :| q in points[..i] && q.kind == Pickup && q.userId == p.userId;
    var j :| 0 <= j < i && points[..i][j] == q;
    assert points[j] == q && q in out;
    var b :| 0 <= b < |out| && out[b] == q;
    assert out'[b] == q && out'[|out|] == p;
    forall a | 0 <= a < |out'| && out'[a].kind == Drop
      ensures out'[a].userId in seen && PickupBefore(out', a)
    {
      if a < |out| {
        BeforeExtends(out, [p], a);
      }
    }
  }

  /** Every drop of a user who has a pickup among `points` comes after one of that user's pickups. */
  ghost predicate DropsAfterPickups(points: seq<Waypoint>, order: seq<Waypoint>) {
    forall a :: 0 <= a < |order| && order[a].kind == Drop && order[a].userId in PickupUsers(points) ==>
      PickupBefore(order, a)
  }

  /** Drops of users without any pickup form a suffix of `order`. */
  ghost predicate OrphansLast(points: seq<Waypoint>, order: seq<Waypoint>) {
    forall a, b ::
      (0 <= a < b < |order| && order[a].kind == Drop && order[a].userId !in PickupUsers(points))
      ==> order[b].kind == Drop && order[b].userId !in PickupUsers(points)
  }

  /** The flushed stop at position `t` is a drop of a user without pickup. */
  lemma FlushedAt(points: seq<Waypoint>, out: seq<Waypoint>, seen: set<UserId>,
                  pending: map<UserId, Waypoint>, keys: seq<UserId>, t: int)
    requires Walked(points, |points|, out, seen, pending, keys) && 0 <= t < |keys|
    ensures var order := out + PendingStops(keys, pending);
      order[|out| + t].kind == Drop && order[|out| + t].userId !in PickupUsers(points)
  {
    assert points[..|points|] == points;
    PendingStopsAt(keys, pending, t);
  }

  /** When every dropped user also has a pickup, the walk ends with no drop held back. */
  lemma NothingHeldAtEnd(points: seq<Waypoint>, out: seq<Waypoint>, seen: set<UserId>,
                         pending: map<UserId, Waypoint>, keys: seq<UserId>)
    requires Walked(points, |points|, out, seen, pending, keys)
    requires DropsHavePickups(points)
    ensures pending == map[] && keys == []
  {
    assert points[..|points|] == points;
    forall u ensures u in pending ==> u in PickupUsers(points) {
      HeldDropHasPickup(points, pending, u);
    }
    NoKeysLeft(keys);
  }

  lemma HeldDropHasPickup(points: seq<Waypoint>, pending: map<UserId, Waypoint>, u: UserId)
    ensures (u in pending && pending[u] in points && pending[u].kind == Drop && pending[u].userId == u &&
             DropsHavePickups(points)) ==> u in PickupUsers(points)
  {
    if u in pending && pending[u] in points && pending[u].kind == Drop && pending[u].userId == u {
      assert u in DropUsers(points);
    }
  }

  lemma NoKeysLeft(keys: seq<UserId>)
    ensures (forall k :: k !in keys) ==> keys == []
  {
    if keys != [] {
      assert keys[0] in keys;
    }
  }

  /** What the whole walk, flush included, delivers. */
  lemma WalkDone(points: seq<Waypoint>, out: seq<Waypoint>, seen: set<UserId>,
                 pending: map<UserId, Waypoint>, keys: seq<UserId>, order: seq<Waypoint>)
    requires Walked(points, |points|, out, seen, pending, keys)
    requires order == out + PendingStops(keys, pending)
    ensures multiset(order) <= multiset(points)
    ensures forall j :: 0 <= j < |points| && points[j].kind == Pickup ==> points[j] in order
    ensures DropsAfterPickups(points, order)
    ensures OrphansLast(points, order)
    ensures UniqueTags(points) ==> multiset(order) == multiset(points)
    ensures UniqueTags(points) ==> DeferredFollow(points, |points|, order)
  {
    WalkDoneCount(points, out, seen, pending, keys, order);
    WalkDoneDrops(points, out, seen, pending, keys, order);
    WalkDoneOrphans(points, out, seen, pending, keys, order);
    if UniqueTags(points) {
      FollowExtends(points, |points|, out, PendingStops(keys, pending));
    }
  }

  lemma WalkDoneCount(points: seq<Waypoint>, out: seq<Waypoint>, seen: set<UserId>,
                      pending: map<UserId, Waypoint>, keys: seq<UserId>, order: seq<Waypoint>)
    requires Walked(points, |points|, out, seen, pending, keys)
    requires order == out + PendingStops(keys, pending)
    ensures multiset(order) <= multiset(points)
    ensures forall j :: 0 <= j < |points| && points[j].kind == Pickup ==> points[j] in order
    ensures UniqueTags(points) ==> multiset(order) == multiset(points)
  {
    assert points[..|points|] == points;
  }

  lemma WalkDoneDrops(points: seq<Waypoint>, out: seq<Waypoint>, seen: set<UserId>,
                      pending: map<UserId, Waypoint>, keys: seq<UserId>, order: seq<Waypoint>)
    requires Walked(points, |points|, out, seen, pending, keys)
    requires order == out + PendingStops(keys, pending)
    ensures DropsAfterPickups(points, order)
  {
    assert points[..|points|] == points;
    forall a | 0 <= a < |order| && order[a].kind == Drop && order[a].userId in PickupUsers(points)
      ensures PickupBefore(order, a)
    {
      if a < |out| {
        BeforeExtends(out, PendingStops(keys, pending), a);
      } else {
        FlushedAt(points, out, seen, pending, keys, a - |out|);
        assert false;
      }
    }
  }

  lemma WalkDoneOrphans(points: seq<Waypoint>, out: seq<Waypoint>, seen: set<UserId>,
                        pending: map<UserId, Waypoint>, keys: seq<UserId>, order: seq<Waypoint>)
    requires Walked(points, |points|, out, seen, pending, keys)
    requires order == out + PendingStops(keys, pending)
    ensures OrphansLast(points, order)
  {
    forall a, b | 0 <= a < b < |order| && order[a].kind == Drop && order[a].userId !in PickupUsers(points)
      ensures order[b].kind == Drop && order[b].userId !in PickupUsers(points)
    {
      assert |out| <= a;
      FlushedAt(points, out, seen, pending, keys, b - |out|);
    }
  }

  /** The walk's variables: `finalOrder`, `seenPickup`, and `pendingDrop` with its keys in insertion order. */
  datatype WalkState = WalkState(out: seq<Waypoint>, seen: set<UserId>, pending: map<UserId, Waypoint>, keys: seq<UserId>)

  /**
   * One turn of the walk on the stop `p`: a pickup is emitted, followed by
   * its user's held drop if there is one; a drop is emitted if its user was
   * picked up, and otherwise held, replacing an earlier held drop of that
   * user (`Map.prototype.set` keeps the key's first insertion position).
   */
  function Step(st: WalkState, p: Waypoint): WalkState {
    var u := p.userId;
    if p.kind == Pickup then
      if u in st.pending then WalkState(st.out + [p] + [st.pending[u]], st.seen + {u}, st.pending - {u}, RemoveKey(st.keys, u))
      else WalkState(st.out + [p], st.seen + {u}, st.pending, st.keys)
    else if u in st.seen then WalkState(st.out + [p], st.seen, st.pending, st.keys)
    else if u in st.pending then WalkState(st.out, st.seen, st.pending[u := p], st.keys)
    else WalkState(st.out, st.seen, st.pending[u := p], st.keys + [u])
  }

  /** The walk's variables once the loop has taken the stops of `points` in order. */
  function WalkOver(points: seq<Waypoint>): (st: WalkState)
    ensures forall k :: k in st.keys <==> k in st.pending
  {
    if |points| == 0 then WalkState([], {}, map[], [])
    else Step(WalkOver(points[..|points| - 1]), points[|points| - 1])
  }

  /** The route order the walk produces from the sorted stops: its output, then the drops still held. */
  function Placed(points: seq<Waypoint>): seq<Waypoint> {
    var st := WalkOver(points);
    st.out + PendingStops(st.keys, st.pending)
  }

  /** The walk's invariant holds of its variables after every prefix of the stops. */
  lemma {:induction false} WalkOverWalked(points: seq<Waypoint>, i: int)
    requires 0 <= i <= |points|
    ensures var st := WalkOver(points[..i]); Walked(points, i, st.out, st.seen, st.pending, st.keys)
  {
    if i == 0 {
      assert points[..0] == [];
      WalkStart(points);
    } else {
      WalkOverWalked(points, i - 1);
      StepWalked(points, i - 1);
    }
  }

  /** One step of the walk keeps its invariant. */
  lemma StepWalked(points: seq<Waypoint>, i: int)
    requires 0 <= i < |points|
    requires var st := WalkOver(points[..i]); Walked(points, i, st.out, st.seen, st.pending, st.keys)
    ensures var st := WalkOver(points[..i + 1]); Walked(points, i + 1, st.out, st.seen, st.pending, st.keys)
  {
    var st := WalkOver(points[..i]);
    assert points[..i + 1][..i] == points[..i];
    assert WalkOver(points[..i + 1]) == Step(st, points[i]);
    var p, u := points[i], points[i].userId;
    if p.kind == Pickup {
      if u in st.pending {
        PickupReleases(points, i, st.out, st.seen, st.pending, st.keys);
      } else {
        PickupFirst(points, i, st.out, st.seen, st.pending, st.keys);
      }
    } else if u in st.seen {
      DropAfterPickup(points, i, st.out, st.seen, st.pending, st.keys);
    } else if u in st.pending {
      DropReplaces(points, i, st.out, st.seen, st.pending, st.keys);
    } else {
      DropHeld(points, i, st.out, st.seen, st.pending, st.keys);
    }
  }

  /**
   * The route order keeps the stops drawn from the sorted stops and every
   * pickup; each drop of a picked-up user comes after a pickup of that user;
   * drops of users never picked up come last; under unique roles it is a
   * permutation in which each drop met before its pickup follows it directly.
   */
  lemma PlacedProperties(points: seq<Waypoint>)
    ensures var order := Placed(points);
      && multiset(order) <= multiset(points)
      && (forall j :: 0 <= j < |points| && points[j].kind == Pickup ==> points[j] in order)
      && DropsAfterPickups(points, order)
      && OrphansLast(points, order)
      && (UniqueTags(points) ==> multiset(order) == multiset(points))
      && (UniqueTags(points) ==> DeferredFollow(points, |points|, order))
  {
    WalkOverWalked(points, |points|);
    assert points[..|points|] == points;
    var st := WalkOver(points);
    WalkDone(points, st.out, st.seen, st.pending, st.keys, Placed(points));
  }

  /** The walk emits the pickups exactly in the order of the sorted stops, and holds only drops. */
  lemma {:induction false} WalkOverPickups(points: seq<Waypoint>)
    ensures MapboxSort.OfKind(WalkOver(points).out, Pickup) == MapboxSort.OfKind(points, Pickup)
    ensures forall u :: u in WalkOver(points).pending ==> WalkOver(points).pending[u].kind == Drop
  {
    if |points| > 0 {
      var init, p := points[..|points| - 1], points[|points| - 1];
      WalkOverPickups(init);
      var st := WalkOver(init);
      assert points == init + [p];
      MapboxSort.OfKindAppend(init, [p], Pickup);
      var u := p.userId;
      if p.kind == Pickup && u in st.pending {
        MapboxSort.OfKindAppend(st.out + [p], [st.pending[u]], Pickup);
        MapboxSort.OfKindAppend(st.out, [p], Pickup);
      } else if p.kind == Pickup || u in st.seen {
        MapboxSort.OfKindAppend(st.out, [p], Pickup);
      }
    }
  }

  /** Only drops are held, so the flush adds no pickup. */
  lemma {:induction false} PendingStopsNoPickup(keys: seq<UserId>, pending: map<UserId, Waypoint>)
    requires forall k :: k in keys ==> k in pending
    requires forall u :: u in pending ==> pending[u].kind == Drop
    ensures MapboxSort.OfKind(PendingStops(keys, pending), Pickup) == []
  {
    if |keys| > 0 {
      PendingStopsNoPickup(keys[1..], pending);
      MapboxSort.OfKindAppend([pending[keys[0]]], PendingStops(keys[1..], pending), Pickup);
    }
  }

  /** The route visits the pickups in the order of the sorted stops. */
  lemma PlacedPickups(points: seq<Waypoint>)
    ensures MapboxSort.OfKind(Placed(points), Pickup) == MapboxSort.OfKind(points, Pickup)
  {
    var st := WalkOver(points);
    WalkOverPickups(points);
    PendingStopsNoPickup(st.keys, st.pending);
    MapboxSort.OfKindAppend(st.out, PendingStops(st.keys, st.pending), Pickup);
  }

  /**
   * The walk over the sorted stops (mapbox.js): the loop followed by the
   * flush of the drops still held.
   */
  method PlaceDrops(points: seq<Waypoint>) returns (order: seq<Waypoint>)
    ensures order == Placed(points)
  {
    var finalOrder, seenPickup, pendingDrop, pendingKeys := Walk(points);
    order := AppendPending(finalOrder, pendingDrop, pendingKeys);
  }

  /** The main loop of the walk, leaving the still-held drops in `pendingDrop`. */
  method Walk(points: seq<Waypoint>)
    returns (finalOrder: seq<Waypoint>, seenPickup: set<UserId>,
             pendingDrop: map<UserId, Waypoint>, pendingKeys: seq<UserId>)
    ensures WalkState(finalOrder, seenPickup, pendingDrop, pendingKeys) == WalkOver(points)
  {
    finalOrder, seenPickup, pendingDrop, pendingKeys := [], {}, map[], [];
    assert points[..0] == [];
    for i := 0 to |points|
      invariant WalkState(finalOrder, seenPickup, pendingDrop, pendingKeys) == WalkOver(points[..i])
    {
      var p := points[i];
      var u := p.userId;
      assert points[..i + 1][..i] == points[..i];
      if p.kind == Pickup {
        finalOrder := finalOrder + [p];
        seenPickup := seenPickup + {u};
        if u in pendingDrop {
          finalOrder := finalOrder + [pendingDrop[u]];
          pendingDrop := pendingDrop - {u};
          pendingKeys := RemoveKey(pendingKeys, u);
        }
      } else if u in seenPickup {
        finalOrder := finalOrder + [p];
      } else if u in pendingDrop {
        pendingDrop := pendingDrop[u := p];
      } else {
        pendingKeys := pendingKeys + [u];
        pendingDrop := pendingDrop[u := p];
      }
    }
    assert points[..|points|] == points;
  }

  /** Appends the held drops in the map's insertion order. */
  method AppendPending(out: seq<Waypoint>, pending: map<UserId, Waypoint>, keys: seq<UserId>)
    returns (order: seq<Waypoint>)
    requires forall k :: k in keys ==> k in pending
    ensures order == out + PendingStops(keys, pending)
  {
    order := out;
    for k := 0 to |keys|
      invariant order == out + PendingStops(keys[..k], pending)
    {
      assert keys[..k + 1] == keys[..k] + [keys[k]];
      PendingStopsSnoc(keys[..k], pending, keys[k]);
      order := order + [pending[keys[k]]];
    }
    assert keys[..|keys|] == keys;
  }

  /** With two equal elements at `i` and `j`, that element occurs at least twice. */
  lemma TwoIndicesCount(s: seq<Waypoint>, i: int, j: int)
    ensures 0 <= i < j < |s| && s[i] == s[j] ==> multiset(s)[s[i]] >= 2
  {
    if 0 <= i < j < |s| && s[i] == s[j] {
      assert s == s[..j] + s[j..];
      assert s[i] in s[..j] && s[j] in s[j..];
    }
  }

  /** An element occurring twice sits at two positions. */
  lemma {:induction false} CountTwoIndices(s: seq<Waypoint>, x: Waypoint)
    ensures multiset(s)[x] >= 2 ==> exists i, j :: 0 <= i < j < |s| && s[i] == x && s[j] == x
  {
    if |s| > 0 && multiset(s)[x] >= 2 {
      assert s == [s[0]] + s[1..];
      if s[0] == x {
        assert x in multiset(s[1..]);
        var k :| 0 <= k < |s[1..]| && s[1..][k] == x;
        assert s[k + 1] == x;
      } else {
        CountTwoIndices(s[1..], x);
        var i, j :| 0 <= i < j < |s[1..]| && s[1..][i] == x && s[1..][j] == x;
        assert s[i + 1] == x && s[j + 1] == x;
      }
    }
  }

  /** Unique roles survive any permutation. */
  lemma UniqueTagsPerm(a: seq<Waypoint>, b: seq<Waypoint>)
    requires multiset(a) == multiset(b) && UniqueTags(a)
    ensures UniqueTags(b)
  {
    forall i, j | 0 <= i < j < |b|
      ensures b[i].userId != b[j].userId || b[i].kind != b[j].kind
    {
      if b[i] == b[j] {
        TwoIndicesCount(b, i, j);
        CountTwoIndices(a, b[i]);
        assert false;
      } else {
        assert b[i] in multiset(a) && b[j] in multiset(a);
        var i' :| 0 <= i' < |a| && a[i'] == b[i];
        var j' :| 0 <= j' < |a| && a[j'] == b[j];
        if i' < j' {
          assert a[i'].userId != a[j'].userId || a[i'].kind != a[j'].kind;
        } else {
          assert a[j'].userId != a[i'].userId || a[j'].kind != a[i'].kind;
        }
      }
    }
  }

  /**
   * With unique roles and a pickup for every drop, a permutation in which
   * every drop follows some pickup of its user puts each user's pickup
   * before their drop.
   */
  lemma PickupsPrecede(points: seq<Waypoint>, order: seq<Waypoint>)
    requires UniqueTags(points) && DropsHavePickups(points)
    requires multiset(order) == multiset(points) && DropsAfterPickups(points, order)
    ensures PickupsFirst(order)
  {
    UniqueTagsPerm(points, order);
    forall a, b | 0 <= a < |order| && 0 <= b < |order| && order[a].kind == Drop && order[b].kind == Pickup &&
      order[a].userId == order[b].userId
      ensures b < a
    {
      assert order[a] in multiset(points);
      assert order[a].userId in DropUsers(points);
      var c :| 0 <= c < a && order[c].kind == Pickup && order[c].userId == order[a].userId;
    }
  }
}
