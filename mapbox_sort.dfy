/**
 * Choosing the sequencing axis and direction, and sorting the stops along it
 * (backend/src/utils/mapbox.js, `generateOptimizedRoute`).
 */
module MapboxSort {
  import opened Basics
  import opened GroupModel

  /** The coordinate the stops are ordered by: 0 is longitude, 1 latitude. */
  datatype Axis = Lng | Lat

  function Other(axis: Axis): Axis {
    if axis == Lng then Lat else Lng
  }

  function Key(p: Waypoint, axis: Axis): int {
    if axis == Lng then p.location.lng else p.location.lat
  }

  /** `points.map(p => p.loc[axis])`. */
  function Keys(ps: seq<Waypoint>, axis: Axis): (ks: seq<int>)
    ensures |ks| == |ps|
    ensures forall i :: 0 <= i < |ps| ==> ks[i] == Key(ps[i], axis)
  {
    if |ps| == 0 then [] else [Key(ps[0], axis)] + Keys(ps[1..], axis)
  }

  /** `Math.max(...xs)` of a non-empty list. */
  function Max(xs: seq<int>): (m: int)
    requires |xs| > 0
    ensures exists i :: 0 <= i < |xs| && xs[i] == m
    ensures forall i :: 0 <= i < |xs| ==> xs[i] <= m
  {
    if |xs| == 1 then xs[0]
    else
      var m := Max(xs[1..]);
      assert forall i :: 1 <= i < |xs| ==> xs[i] == xs[1..][i - 1];
      if xs[0] > m then xs[0] else m
  }

  /** `Math.min(...xs)` of a non-empty list. */
  function Min(xs: seq<int>): (m: int)
    requires |xs| > 0
    ensures exists i :: 0 <= i < |xs| && xs[i] == m
    ensures forall i :: 0 <= i < |xs| ==> m <= xs[i]
  {
    if |xs| == 1 then xs[0]
    else
      var m := Min(xs[1..]);
      assert forall i :: 1 <= i < |xs| ==> xs[i] == xs[1..][i - 1];
      if xs[0] < m then xs[0] else m
  }

  /**
   * The spread of a list of coordinates, `Math.max(...xs) - Math.min(...xs)`:
   * the largest difference between two of them. An empty list has spread 0,
   * which decides the axis exactly as the infinite spreads JavaScript
   * computes for it do (a tie).
   */
  function Spread(xs: seq<int>): (r: int)
    ensures r >= 0
    ensures forall i, j :: 0 <= i < |xs| && 0 <= j < |xs| ==> xs[i] - xs[j] <= r
    ensures |xs| > 0 ==> exists i, j :: 0 <= i < |xs| && 0 <= j < |xs| && xs[i] - xs[j] == r
  {
    if |xs| == 0 then 0 else Max(xs) - Min(xs)
  }

  /**
   * The dominant axis: the one whose coordinates spread further. Longitude
   * only when its spread is strictly larger; a tie goes to latitude.
   */
  function ChooseAxis(points: seq<Waypoint>): (axis: Axis)
    ensures Spread(Keys(points, axis)) >= Spread(Keys(points, Other(axis)))
    ensures Spread(Keys(points, Lng)) == Spread(Keys(points, Lat)) ==> axis == Lat
  {
    if Spread(Keys(points, Lng)) > Spread(Keys(points, Lat)) then Lng else Lat
  }

  /** `points.filter(p => p.type === kind)`. */
  function OfKind(ps: seq<Waypoint>, kind: WaypointType): (r: seq<Waypoint>)
    ensures |r| <= |ps|
  {
    if |ps| == 0 then []
    else (if ps[0].kind == kind then [ps[0]] else []) + OfKind(ps[1..], kind)
  }

  /** The filtered stops are exactly the stops of the given kind. */
  lemma {:induction false} OfKindMembers(ps: seq<Waypoint>, kind: WaypointType)
    ensures forall p :: p in OfKind(ps, kind) <==> p in ps && p.kind == kind
  {
    if |ps| > 0 {
      OfKindMembers(ps[1..], kind);
      assert ps == [ps[0]] + ps[1..];
    }
  }

  /** Filtering distributes over concatenation: the kept stops stay in their order. */
  lemma {:induction false} OfKindAppend(a: seq<Waypoint>, b: seq<Waypoint>, kind: WaypointType)
    ensures OfKind(a + b, kind) == OfKind(a, kind) + OfKind(b, kind)
  {
    if |a| > 0 {
      OfKindAppend(a[1..], b, kind);
      assert (a + b)[1..] == a[1..] + b;
    } else {
      assert a + b == b;
    }
  }

  /** Every stop of the kind is kept as often as it occurs, and no other stop. */
  lemma {:induction false} OfKindCount(ps: seq<Waypoint>, kind: WaypointType)
    ensures forall p :: multiset(OfKind(ps, kind))[p] == if p.kind == kind then multiset(ps)[p] else 0
  {
    if |ps| > 0 {
      OfKindCount(ps[1..], kind);
      assert ps == [ps[0]] + ps[1..];
      assert multiset(ps) == multiset{ps[0]} + multiset(ps[1..]);
    }
  }

  /** Filtering a sorted list keeps it sorted. */
  lemma {:induction false} OfKindSorted(s: seq<Waypoint>, kind: WaypointType, axis: Axis, ascending: bool)
    requires SortedOn(s, axis, ascending)
    ensures SortedOn(OfKind(s, kind), axis, ascending)
  {
    if |s| > 0 {
      SortedOnTail(s, axis, ascending);
      OfKindSorted(s[1..], kind, axis, ascending);
      var t := OfKind(s[1..], kind);
      var r := OfKind(s, kind);
      if s[0].kind == kind {
        assert r == [s[0]] + t;
        forall i, j | 0 <= i < j < |r|
          ensures InOrder(ascending, Key(r[i], axis), Key(r[j], axis))
        {
          if i == 0 {
            OfKindMembers(s[1..], kind);
            assert r[j] == t[j - 1] && t[j - 1] in s[1..];
            var m :| 0 <= m < |s[1..]| && s[1..][m] == r[j];
            assert s[m + 1] == r[j];
          } else {
            assert r[i] == t[i - 1] && r[j] == t[j - 1];
          }
        }
      }
    }
  }

  function Sum(xs: seq<int>): int {
    if |xs| == 0 then 0 else xs[0] + Sum(xs[1..])
  }

  /**
   * `avgDrop > avgPickup`. An empty list has mean NaN in JavaScript, and every
   * comparison with NaN is false.
   */
  predicate MeanGreater(drops: seq<int>, pickups: seq<int>) {
    |drops| > 0 && |pickups| > 0 &&
    (Sum(drops) as real) / (|drops| as real) > (Sum(pickups) as real) / (|pickups| as real)
  }

  lemma DivideBoth(x: real, y: real, n: real)
    requires n > 0.0
    ensures x / n > y / n <==> x > y
  {
    var a, b := x / n, y / n;
    assert a * n == x && b * n == y;
    assert x - y == (a - b) * n;
  }

  /**
   * The direction of travel along `axis`: ascending exactly when the drops'
   * mean coordinate is strictly greater than the pickups' mean. When there
   * are as many drops as pickups this is a comparison of the two sums.
   */
  function ChooseAscending(points: seq<Waypoint>, axis: Axis): (ascending: bool)
    ensures var ds, ps := Keys(OfKind(points, Drop), axis), Keys(OfKind(points, Pickup), axis);
      |ds| == |ps| ==> (ascending <==> Sum(ds) > Sum(ps))
  {
    var ds, ps := Keys(OfKind(points, Drop), axis), Keys(OfKind(points, Pickup), axis);
    if |ds| == |ps| && |ds| > 0 then DivideBoth(Sum(ds) as real, Sum(ps) as real, |ds| as real); MeanGreater(ds, ps)
    else MeanGreater(ds, ps)
  }

  /** `x` may stand before `y` in the chosen direction. */
  predicate InOrder(ascending: bool, x: int, y: int) {
    if ascending then x <= y else x >= y
  }

  ghost predicate SortedOn(s: seq<Waypoint>, axis: Axis, ascending: bool) {
    forall i, j :: 0 <= i < j < |s| ==> InOrder(ascending, Key(s[i], axis), Key(s[j], axis))
  }

  /** The stops of `s` whose coordinate on `axis` is `k`, in their order in `s`. */
  function WithKey(s: seq<Waypoint>, axis: Axis, k: int): seq<Waypoint> {
    if |s| == 0 then []
    else (if Key(s[0], axis) == k then [s[0]] else []) + WithKey(s[1..], axis, k)
  }

  /** WithKey keeps exactly the stops of `s` whose key is `k`. */
  lemma {:induction false} WithKeyMembers(s: seq<Waypoint>, axis: Axis, k: int)
    ensures forall p :: p in WithKey(s, axis, k) <==> p in s && Key(p, axis) == k
  {
    if |s| > 0 {
      WithKeyMembers(s[1..], axis, k);
      assert s == [s[0]] + s[1..];
    }
  }

  /** Puts `x` before the first stop it may precede, so equal keys keep their order. */
  function Insert(x: Waypoint, s: seq<Waypoint>, axis: Axis, ascending: bool): (r: seq<Waypoint>)
    ensures |r| == |s| + 1
    ensures multiset(r) == multiset{x} + multiset(s)
  {
    if |s| == 0 then [x]
    else if InOrder(ascending, Key(x, axis), Key(s[0], axis)) then [x] + s
    else
      assert s == [s[0]] + s[1..];
      [s[0]] + Insert(x, s[1..], axis, ascending)
  }

  /**
   * `points.sort(...)` with the comparator of generateOptimizedRoute: a
   * stable sort by the coordinate on `axis`, ascending or descending.
   */
  function SortByAxis(s: seq<Waypoint>, axis: Axis, ascending: bool): (r: seq<Waypoint>)
    ensures |r| == |s|
    ensures multiset(r) == multiset(s)
  {
    if |s| == 0 then []
    else
      assert s == [s[0]] + s[1..];
      Insert(s[0], SortByAxis(s[1..], axis, ascending), axis, ascending)
  }

  lemma {:induction false} InsertSorted(x: Waypoint, s: seq<Waypoint>, axis: Axis, ascending: bool)
    requires SortedOn(s, axis, ascending)
    ensures SortedOn(Insert(x, s, axis, ascending), axis, ascending)
  {
    if |s| > 0 && !InOrder(ascending, Key(x, axis), Key(s[0], axis)) {
      var rest := Insert(x, s[1..], axis, ascending);
      InsertSorted(x, s[1..], axis, ascending);
      var r := [s[0]] + rest;
      forall j | 0 < j < |r|
        ensures InOrder(ascending, Key(s[0], axis), Key(r[j], axis))
      {
        assert r[j] in multiset(rest);
        assert r[j] == x || r[j] in s[1..];
      }
    }
  }

  lemma {:induction false} SortSorted(s: seq<Waypoint>, axis: Axis, ascending: bool)
    ensures SortedOn(SortByAxis(s, axis, ascending), axis, ascending)
  {
    if |s| > 0 {
      SortSorted(s[1..], axis, ascending);
      InsertSorted(s[0], SortByAxis(s[1..], axis, ascending), axis, ascending);
    }
  }

  lemma {:induction false} WithKeyAppend(a: seq<Waypoint>, b: seq<Waypoint>, axis: Axis, k: int)
    ensures WithKey(a + b, axis, k) == WithKey(a, axis, k) + WithKey(b, axis, k)
  {
    if |a| > 0 {
      WithKeyAppend(a[1..], b, axis, k);
      assert (a + b)[1..] == a[1..] + b;
    } else {
      assert a + b == b;
    }
  }

  /** The contribution of one stop to WithKey. */
  function Picked(p: Waypoint, axis: Axis, k: int): seq<Waypoint> {
    if Key(p, axis) == k then [p] else []
  }

  lemma WithKeyCons(p: Waypoint, t: seq<Waypoint>, axis: Axis, k: int)
    ensures WithKey([p] + t, axis, k) == Picked(p, axis, k) + WithKey(t, axis, k)
  {
    assert ([p] + t)[0] == p && ([p] + t)[1..] == t;
  }

  lemma SwapPicked(a: seq<Waypoint>, b: seq<Waypoint>, w: seq<Waypoint>)
    requires a == [] || b == []
    ensures a + (b + w) == b + (a + w)
  {
    if a == [] { assert a + (b + w) == b + w; assert a + w == w; }
    else { assert b + (a + w) == a + w; assert b + w == w; }
  }

  lemma {:induction false} InsertStable(x: Waypoint, s: seq<Waypoint>, axis: Axis, ascending: bool, k: int)
    ensures WithKey(Insert(x, s, axis, ascending), axis, k) == WithKey([x] + s, axis, k)
  {
    if |s| > 0 && !InOrder(ascending, Key(x, axis), Key(s[0], axis)) {
      var s' := s[1..];
      var r' := Insert(x, s', axis, ascending);
      InsertStable(x, s', axis, ascending, k);
      var hx, h0, w := Picked(x, axis, k), Picked(s[0], axis, k), WithKey(s', axis, k);
      assert WithKey(Insert(x, s, axis, ascending), axis, k) == h0 + (hx + w) by {
        assert Insert(x, s, axis, ascending) == [s[0]] + r';
        WithKeyCons(s[0], r', axis, k);
        WithKeyCons(x, s', axis, k);
      }
      assert WithKey([x] + s, axis, k) == hx + (h0 + w) by {
        WithKeyCons(s[0], s', axis, k);
        assert [s[0]] + s' == s;
        WithKeyCons(x, s, axis, k);
      }
      SwapPicked(h0, hx, w);
    }
  }

  lemma {:induction false} SortStable(s: seq<Waypoint>, axis: Axis, ascending: bool, k: int)
    ensures WithKey(SortByAxis(s, axis, ascending), axis, k) == WithKey(s, axis, k)
  {
    if |s| > 0 {
      var rest := SortByAxis(s[1..], axis, ascending);
      SortStable(s[1..], axis, ascending, k);
      InsertStable(s[0], rest, axis, ascending, k);
      assert ([s[0]] + rest)[1..] == rest;
    }
  }

  lemma FirstHasOwnKey(s: seq<Waypoint>, axis: Axis)
    requires |s| > 0
    ensures s[0] in WithKey(s, axis, Key(s[0], axis))
  {
  }

  /**
   * A stable sort has only one possible result: two lists that are both
   * sorted on the axis and keep, key by key, the same stops in the same order
   * are equal. So the sort of the model agrees with any stable sort the
   * JavaScript engine uses.
   */
  lemma {:induction false} StableSortUnique(r1: seq<Waypoint>, r2: seq<Waypoint>, axis: Axis, ascending: bool)
    requires SortedOn(r1, axis, ascending) && SortedOn(r2, axis, ascending)
    requires forall k :: WithKey(r1, axis, k) == WithKey(r2, axis, k)
    ensures r1 == r2
  {
    if |r1| == 0 || |r2| == 0 {
      if |r1| > 0 { FirstHasOwnKey(r1, axis); }
      if |r2| > 0 { FirstHasOwnKey(r2, axis); }
    } else {
      var k1, k2 := Key(r1[0], axis), Key(r2[0], axis);
      HeadsShareKey(r1, r2, axis, ascending);
      HeadsEqual(r1, r2, axis);
      forall k
        ensures WithKey(r1[1..], axis, k) == WithKey(r2[1..], axis, k)
      {
        TailsWithKey(r1, r2, axis, k);
      }
      SortedOnTail(r1, axis, ascending);
      SortedOnTail(r2, axis, ascending);
      StableSortUnique(r1[1..], r2[1..], axis, ascending);
      assert r1 == [r1[0]] + r1[1..] && r2 == [r2[0]] + r2[1..];
    }
  }

  /** Two sorted lists with the same stops per key start on the same key. */
  lemma HeadsShareKey(r1: seq<Waypoint>, r2: seq<Waypoint>, axis: Axis, ascending: bool)
    requires |r1| > 0 && |r2| > 0
    requires SortedOn(r1, axis, ascending) && SortedOn(r2, axis, ascending)
    requires WithKey(r1, axis, Key(r1[0], axis)) == WithKey(r2, axis, Key(r1[0], axis))
    requires WithKey(r1, axis, Key(r2[0], axis)) == WithKey(r2, axis, Key(r2[0], axis))
    ensures Key(r1[0], axis) == Key(r2[0], axis)
  {
    var k1, k2 := Key(r1[0], axis), Key(r2[0], axis);
    FirstHasOwnKey(r1, axis);
    FirstHasOwnKey(r2, axis);
    WithKeyMembers(r2, axis, k1);
    WithKeyMembers(r1, axis, k2);
    assert r1[0] in r2;
    assert r2[0] in r1;
    var i :| 0 <= i < |r2| && r2[i] == r1[0];
    var j :| 0 <= j < |r1| && r1[j] == r2[0];
    if i > 0 { assert InOrder(ascending, Key(r2[0], axis), Key(r2[i], axis)); }
    if j > 0 { assert InOrder(ascending, Key(r1[0], axis), Key(r1[j], axis)); }
  }

  /** Lists that agree on the stops with the key both start on start with the same stop. */
  lemma HeadsEqual(r1: seq<Waypoint>, r2: seq<Waypoint>, axis: Axis)
    requires |r1| > 0 && |r2| > 0 && Key(r1[0], axis) == Key(r2[0], axis)
    requires WithKey(r1, axis, Key(r1[0], axis)) == WithKey(r2, axis, Key(r1[0], axis))
    ensures r1[0] == r2[0]
  {
    var k := Key(r1[0], axis);
    assert WithKey(r1, axis, k)[0] == r1[0];
    assert WithKey(r2, axis, k)[0] == r2[0];
  }

  /** Dropping a shared first stop keeps the two lists' stops with key `k` equal. */
  lemma TailsWithKey(r1: seq<Waypoint>, r2: seq<Waypoint>, axis: Axis, k: int)
    requires |r1| > 0 && |r2| > 0 && r1[0] == r2[0]
    requires WithKey(r1, axis, k) == WithKey(r2, axis, k)
    ensures WithKey(r1[1..], axis, k) == WithKey(r2[1..], axis, k)
  {
    var h := Picked(r1[0], axis, k);
    WithKeyCons(r1[0], r1[1..], axis, k);
    WithKeyCons(r2[0], r2[1..], axis, k);
    assert [r1[0]] + r1[1..] == r1 && [r2[0]] + r2[1..] == r2;
    assert WithKey(r1[1..], axis, k) == (h + WithKey(r1[1..], axis, k))[|h|..];
    assert WithKey(r2[1..], axis, k) == (h + WithKey(r2[1..], axis, k))[|h|..];
  }

  lemma SortedOnTail(r: seq<Waypoint>, axis: Axis, ascending: bool)
    requires |r| > 0 && SortedOn(r, axis, ascending)
    ensures SortedOn(r[1..], axis, ascending)
  {
    forall i, j | 0 <= i < j < |r| - 1
      ensures InOrder(ascending, Key(r[1..][i], axis), Key(r[1..][j], axis))
    {
      assert r[1..][i] == r[i + 1] && r[1..][j] == r[j + 1];
    }
  }

  /**
   * The sort of the model is sorted on the axis and is the only stable sort
   * of its input.
   */
  lemma SortIsTheStableSort(s: seq<Waypoint>, r: seq<Waypoint>, axis: Axis, ascending: bool)
    requires SortedOn(r, axis, ascending)
    requires forall k :: WithKey(r, axis, k) == WithKey(s, axis, k)
    ensures SortedOn(SortByAxis(s, axis, ascending), axis, ascending)
    ensures r == SortByAxis(s, axis, ascending)
  {
    var t := SortByAxis(s, axis, ascending);
    SortSorted(s, axis, ascending);
    forall k ensures WithKey(t, axis, k) == WithKey(r, axis, k) {
      SortStable(s, axis, ascending, k);
    }
    StableSortUnique(t, r, axis, ascending);
  }
}
