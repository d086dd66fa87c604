/**
 * The coordinate string sent to the Mapbox Directions API
 * (backend/src/utils/mapbox.js): each position is written `lng,lat` and the
 * positions are joined with `;`. Degrees are printed as a JavaScript number
 * prints: an optional minus sign, the integer part, and, when the value is
 * not whole, a point followed by the fraction without trailing zeros.
 */
module MapboxText {
  import opened Wrappers
  import opened Basics

  /** Fixed-point units per degree. */
  const Scale: nat := 1_000_000

  /** Decimal places a fixed-point value can carry. */
  const FractionDigits: nat := 6

  predicate IsDigit(c: char) {
    '0' <= c <= '9'
  }

  predicate AllDigits(s: string) {
    forall i :: 0 <= i < |s| ==> IsDigit(s[i])
  }

  function DigitValue(c: char): nat
    requires IsDigit(c)
  {
    c as int - '0' as int
  }

  function DigitChar(d: nat): (c: char)
    requires d < 10
    ensures IsDigit(c) && DigitValue(c) == d
  {
    (d + '0' as int) as char
  }

  function Pow10(k: nat): (p: nat)
    ensures p > 0
  {
    if k == 0 then 1 else 10 * Pow10(k - 1)
  }

  /** The number a string of decimal digits denotes. */
  function DigitsValue(s: string): nat
    requires AllDigits(s)
  {
    if s == [] then 0 else DigitsValue(s[..|s| - 1]) * 10 + DigitValue(s[|s| - 1])
  }

  lemma DigitsValueSnoc(s: string, c: char)
    requires AllDigits(s) && IsDigit(c)
    ensures AllDigits(s + [c]) && DigitsValue(s + [c]) == DigitsValue(s) * 10 + DigitValue(c)
  {
    assert (s + [c])[..|s|] == s;
  }

  /** Decimal digits of `n`, without leading zeros. */
  function NatToString(n: nat): (s: string)
    ensures |s| > 0 && AllDigits(s)
  {
    if n < 10 then [DigitChar(n)] else NatToString(n / 10) + [DigitChar(n % 10)]
  }

  lemma {:induction false} NatToStringValue(n: nat)
    ensures DigitsValue(NatToString(n)) == n
  {
    if n >= 10 {
      NatToStringValue(n / 10);
      DigitsValueSnoc(NatToString(n / 10), DigitChar(n % 10));
    }
  }

  /** The last `k` decimal digits of `n`, with leading zeros. */
  function PadDigits(n: nat, k: nat): (s: string)
    ensures |s| == k && AllDigits(s)
  {
    if k == 0 then [] else PadDigits(n / 10, k - 1) + [DigitChar(n % 10)]
  }

  lemma MulAtLeast(d: int, k: int)
    requires d > 0 && k >= 1
    ensures d * k >= d
  {
    assert d * k == d * (k - 1) + d;
    if k > 1 { MulAtLeast(d, k - 1); }
  }

  lemma DivModUnique(n: int, d: int, q: int, r: int)
    requires d > 0 && 0 <= r < d && n == d * q + r
    ensures n / d == q && n % d == r
  {
    var q', r' := n / d, n % d;
    assert n == d * q' + r' && 0 <= r' < d;
    var k := q - q';
    assert d * k == r' - r;
    if k >= 1 {
      MulAtLeast(d, k);
    } else if k <= -1 {
      MulAtLeast(d, -k);
    }
  }

  lemma ModStep(n: nat, p: nat)
    requires p > 0
    ensures ((n / 10) % p) * 10 + n % 10 == n % (10 * p)
  {
    var q, r := n / 10, n % 10;
    var a, b := q / p, q % p;
    assert n == 10 * q + r;
    assert q == p * a + b;
    assert n == (10 * p) * a + (10 * b + r);
    DivModUnique(n, 10 * p, a, 10 * b + r);
  }

  lemma {:induction false} PadDigitsValue(n: nat, k: nat)
    ensures DigitsValue(PadDigits(n, k)) == n % Pow10(k)
  {
    if k > 0 {
      PadDigitsValue(n / 10, k - 1);
      DigitsValueSnoc(PadDigits(n / 10, k - 1), DigitChar(n % 10));
      ModStep(n, Pow10(k - 1));
    }
  }

  /** `s` without its trailing '0' characters. */
  function TrimTrailingZeros(s: string): (t: string)
    ensures |t| <= |s| && t == s[..|t|]
    ensures |t| > 0 ==> t[|t| - 1] != '0'
  {
    if |s| > 0 && s[|s| - 1] == '0' then TrimTrailingZeros(s[..|s| - 1]) else s
  }

  lemma {:induction false} TrimTrailingZerosValue(s: string)
    requires AllDigits(s)
    ensures AllDigits(TrimTrailingZeros(s))
    ensures DigitsValue(s) == DigitsValue(TrimTrailingZeros(s)) * Pow10(|s| - |TrimTrailingZeros(s)|)
  {
    if |s| > 0 && s[|s| - 1] == '0' {
      var s' := s[..|s| - 1];
      TrimTrailingZerosValue(s');
      var t := TrimTrailingZeros(s');
      var k := |s'| - |t|;
      assert TrimTrailingZeros(s) == t;
      assert s' + [s[|s| - 1]] == s;
      DigitsValueSnoc(s', s[|s| - 1]);
      assert Pow10(k + 1) == 10 * Pow10(k);
      ShiftOnce(DigitsValue(s), DigitsValue(s'), DigitsValue(t), Pow10(k));
    }
  }

  lemma ShiftOnce(v: nat, w: nat, d: nat, p: nat)
    requires v == w * 10 && w == d * p
    ensures v == d * (10 * p)
  {
  }

  /** A fixed-point coordinate component printed as decimal degrees. */
  function FormatDegrees(v: int): (s: string)
    ensures |s| > 0
    ensures forall i :: 0 <= i < |s| ==> IsDigit(s[i]) || s[i] == '-' || s[i] == '.'
  {
    var a := if v < 0 then -v else v;
    var sign := if v < 0 then "-" else "";
    sign + UnsignedText(a)
  }

  /** Position of the first `c` in `s`, or `|s|` when there is none. */
  function IndexOf(s: string, c: char): (i: nat)
    ensures i <= |s| && c !in s[..i]
    ensures i < |s| ==> s[i] == c
  {
    if |s| == 0 then 0 else if s[0] == c then 0 else 1 + IndexOf(s[1..], c)
  }

  lemma IndexOfAfter(p: string, c: char, q: string)
    requires c !in p
    ensures IndexOf(p + [c] + q, c) == |p|
  {
    var s := p + [c] + q;
    assert s[|p|] == c;
    assert s[..|p|] == p;
  }

  lemma IndexOfAbsent(s: string, c: char)
    requires c !in s
    ensures IndexOf(s, c) == |s|
  {
  }

  /** Reads back what FormatDegrees writes. */
  function ParseDegrees(s: string): Option<int> {
    if |s| > 0 && s[0] == '-' then
      match ParseUnsigned(s[1..])
      case Some(a) => Some(0 - a as int)
      case None => None
    else
      match ParseUnsigned(s)
      case Some(a) => Some(a)
      case None => None
  }

  /** The fixed-point value of `whole` degrees and `frac` read as `fracLen` decimal places. */
  function FromParts(whole: nat, frac: nat, fracLen: nat): nat
    requires fracLen <= FractionDigits
  {
    whole * Scale + frac * Pow10(FractionDigits - fracLen)
  }

  function ParseUnsigned(s: string): Option<nat> {
    var k := IndexOf(s, '.');
    var whole := s[..k];
    if |whole| == 0 || !AllDigits(whole) then None
    else if k == |s| then Some(DigitsValue(whole) * Scale)
    else
      var frac := s[k + 1..];
      if |frac| == 0 || |frac| > FractionDigits || !AllDigits(frac) then None
      else Some(FromParts(DigitsValue(whole), DigitsValue(frac), |frac|))
  }

  /** The fraction part FormatDegrees writes for `a` units: empty for a whole number. */
  function FractionText(a: nat): string {
    if a % Scale == 0 then "" else "." + TrimTrailingZeros(PadDigits(a % Scale, FractionDigits))
  }

  /** A non-negative value written without sign. */
  function UnsignedText(a: nat): (s: string)
    ensures |s| > 0 && IsDigit(s[0])
    ensures forall i :: 0 <= i < |s| ==> IsDigit(s[i]) || s[i] == '.'
  {
    NatToString(a / Scale) + FractionText(a)
  }

  lemma ScaleIsPow10()
    ensures Pow10(FractionDigits) == Scale
  {
  }

  /** The trimmed fraction digits read back as the fraction's value. */
  lemma FractionDigitsValue(f: nat)
    requires 0 < f < Scale
    ensures var t := TrimTrailingZeros(PadDigits(f, FractionDigits));
      0 < |t| <= FractionDigits && AllDigits(t) && DigitsValue(t) * Pow10(FractionDigits - |t|) == f
  {
    var pad := PadDigits(f, FractionDigits);
    var t := TrimTrailingZeros(pad);
    PadDigitsValue(f, FractionDigits);
    ScaleIsPow10();
    assert f % Scale == f;
    assert DigitsValue(pad) == f;
    TrimTrailingZerosValue(pad);
    var v, p := DigitsValue(t), Pow10(FractionDigits - |t|);
    assert v * p == f;
    assert v != 0;
    assert |t| != 0;
  }

  lemma NoPointInDigits(s: string)
    requires AllDigits(s)
    ensures '.' !in s
  {
  }

  lemma ParseWhole(whole: string)
    requires |whole| > 0 && AllDigits(whole)
    ensures ParseUnsigned(whole) == Some(DigitsValue(whole) * Scale)
  {
    NoPointInDigits(whole);
    IndexOfAbsent(whole, '.');
    assert whole[..|whole|] == whole;
  }

  lemma ParseWithFraction(whole: string, t: string)
    requires |whole| > 0 && AllDigits(whole)
    requires 0 < |t| <= FractionDigits && AllDigits(t)
    ensures ParseUnsigned(whole + "." + t) == Some(FromParts(DigitsValue(whole), DigitsValue(t), |t|))
  {
    NoPointInDigits(whole);
    var s := whole + "." + t;
    assert s == whole + ['.'] + t;
    IndexOfAfter(whole, '.', t);
    var k := IndexOf(s, '.');
    assert k == |whole|;
    assert s[..k] == whole;
    assert k != |s|;
    assert s[k + 1..] == t;
  }

  lemma ScaleSplit(a: nat)
    ensures a == FromParts(a / Scale, 0, FractionDigits) + a % Scale
  {
  }

  lemma WholeRoundTrip(a: nat)
    requires a % Scale == 0
    ensures ParseUnsigned(UnsignedText(a)) == Some(a)
  {
    var w := a / Scale;
    var whole := NatToString(w);
    NatToStringValue(w);
    ScaleSplit(a);
    assert UnsignedText(a) == whole;
    ParseWhole(whole);
    assert FromParts(w, 0, FractionDigits) == w * Scale;
  }

  lemma FractionRoundTrip(a: nat)
    requires a % Scale != 0
    ensures ParseUnsigned(UnsignedText(a)) == Some(a)
  {
    var w, f := a / Scale, a % Scale;
    var whole := NatToString(w);
    var t := TrimTrailingZeros(PadDigits(f, FractionDigits));
    assert UnsignedText(a) == whole + "." + t by {
      assert FractionText(a) == "." + t;
    }
    NatToStringValue(w);
    FractionDigitsValue(f);
    ParseWithFraction(whole, t);
    FromPartsFraction(a, t);
  }

  lemma FromPartsFraction(a: nat, t: string)
    requires 0 < |t| <= FractionDigits && AllDigits(t)
    requires DigitsValue(t) * Pow10(FractionDigits - |t|) == a % Scale
    ensures FromParts(a / Scale, DigitsValue(t), |t|) == a
  {
    ScaleSplit(a);
  }

  lemma DegreesRoundTrip(v: int)
    ensures ParseDegrees(FormatDegrees(v)) == Some(v)
  {
    var a := if v < 0 then -v else v;
    UnsignedRoundTrip(a);
    if v < 0 {
      assert FormatDegrees(v) == "-" + UnsignedText(a);
      SignedRoundTrip(UnsignedText(a), a);
    } else {
      assert FormatDegrees(v) == UnsignedText(a);
      PlainRoundTrip(UnsignedText(a), a);
    }
  }

  lemma UnsignedRoundTrip(a: nat)
    ensures ParseUnsigned(UnsignedText(a)) == Some(a)
  {
    if a % Scale == 0 { WholeRoundTrip(a); } else { FractionRoundTrip(a); }
  }

  lemma SignedRoundTrip(u: string, a: nat)
    requires ParseUnsigned(u) == Some(a)
    ensures ParseDegrees("-" + u) == Some(-(a as int))
  {
    assert ("-" + u)[1..] == u;
  }

  lemma PlainRoundTrip(u: string, a: nat)
    requires |u| > 0 && IsDigit(u[0]) && ParseUnsigned(u) == Some(a)
    ensures ParseDegrees(u) == Some(a)
  {
  }

  /** `parts` joined with `sep`, as JavaScript's `Array.prototype.join`. */
  function Join(parts: seq<string>, sep: char): string {
    if |parts| == 0 then ""
    else if |parts| == 1 then parts[0]
    else parts[0] + [sep] + Join(parts[1..], sep)
  }

  /** The pieces of `s` between occurrences of `sep`. */
  function Split(s: string, sep: char): (parts: seq<string>)
    ensures |parts| > 0
    decreases |s|
  {
    var i := IndexOf(s, sep);
    if i == |s| then [s] else [s[..i]] + Split(s[i + 1..], sep)
  }

  lemma {:induction false} SplitJoin(parts: seq<string>, sep: char)
    requires |parts| > 0
    requires forall k :: 0 <= k < |parts| ==> sep !in parts[k]
    ensures Split(Join(parts, sep), sep) == parts
  {
    if |parts| == 1 {
      IndexOfAbsent(parts[0], sep);
      assert parts[0][..|parts[0]|] == parts[0];
    } else {
      var rest := Join(parts[1..], sep);
      var s := parts[0] + [sep] + rest;
      IndexOfAfter(parts[0], sep, rest);
      assert s[..|parts[0]|] == parts[0];
      assert s[|parts[0]| + 1..] == rest;
      SplitJoin(parts[1..], sep);
    }
  }

  /** One position as `[lng, lat].join(',')`. */
  function FormatCoord(c: Coord): (s: string)
    ensures ';' !in s
  {
    var x, y := FormatDegrees(c.lng), FormatDegrees(c.lat);
    var s := Join([x, y], ',');
    assert [x, y][1..] == [y];
    assert Join([y], ',') == y;
    assert s == x + [','] + y;
    assert ';' !in x && ';' !in y;
    s
  }

  function FormatAll(cs: seq<Coord>): (r: seq<string>)
    ensures |r| == |cs|
    ensures forall i :: 0 <= i < |cs| ==> r[i] == FormatCoord(cs[i])
  {
    if |cs| == 0 then [] else [FormatCoord(cs[0])] + FormatAll(cs[1..])
  }

  /** The path segment of a Directions request: positions joined with `;`. */
  function CoordsString(cs: seq<Coord>): string {
    Join(FormatAll(cs), ';')
  }

  function ParseCoord(s: string): Option<Coord> {
    var ps := Split(s, ',');
    if |ps| != 2 then None
    else match (ParseDegrees(ps[0]), ParseDegrees(ps[1]))
      case (Some(lng), Some(lat)) => Some(Coord(lng, lat))
      case _ => None
  }

  function ParseEach(parts: seq<string>): Option<seq<Coord>> {
    if |parts| == 0 then Some([])
    else match (ParseCoord(parts[0]), ParseEach(parts[1..]))
      case (Some(c), Some(cs)) => Some([c] + cs)
      case _ => None
  }

  /** Reads back what CoordsString writes. */
  function ParseCoords(s: string): Option<seq<Coord>> {
    if s == "" then Some([]) else ParseEach(Split(s, ';'))
  }

  lemma CoordRoundTrip(c: Coord)
    ensures ParseCoord(FormatCoord(c)) == Some(c)
  {
    var x, y := FormatDegrees(c.lng), FormatDegrees(c.lat);
    assert ',' !in x by {
      forall i | 0 <= i < |x| ensures x[i] != ',' { }
    }
    assert ',' !in y by {
      forall i | 0 <= i < |y| ensures y[i] != ',' { }
    }
    SplitJoin([x, y], ',');
    DegreesRoundTrip(c.lng);
    DegreesRoundTrip(c.lat);
  }

  lemma ParseEachFormatAll(cs: seq<Coord>)
    ensures ParseEach(FormatAll(cs)) == Some(cs)
  {
    var fs := FormatAll(cs);
    forall i | 0 <= i < |cs|
      ensures ParseCoord(fs[i]) == Some(cs[i])
    {
      CoordRoundTrip(cs[i]);
    }
    ParseEachAll(fs, cs);
  }

  /** Parsing a list succeeds with `cs` when every element parses to its counterpart. */
  lemma {:induction false} ParseEachAll(parts: seq<string>, cs: seq<Coord>)
    requires |parts| == |cs|
    requires forall i :: 0 <= i < |parts| ==> ParseCoord(parts[i]) == Some(cs[i])
    ensures ParseEach(parts) == Some(cs)
  {
    if |parts| > 0 {
      ParseEachAll(parts[1..], cs[1..]);
      assert [cs[0]] + cs[1..] == cs;
    }
  }

  /** Every coordinate list survives being written into a request and read back. */
  lemma CoordsRoundTrip(cs: seq<Coord>)
    ensures ParseCoords(CoordsString(cs)) == Some(cs)
  {
    if |cs| > 0 {
      var parts := FormatAll(cs);
      SplitJoin(parts, ';');
      assert |Join(parts, ';')| > 0 by {
        if |parts| > 1 { assert |parts[0]| > 0; } else { assert |parts[0]| > 0; }
      }
      ParseEachFormatAll(cs);
    }
  }
}
