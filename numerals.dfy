/**
 * Decimal numerals as Python reads and writes them in these scripts:
 * `str(n)` and `f"{n:0w}"` for non-negative integers, `int(s)` on a run of
 * ASCII digits, `float(s)` on a plain decimal literal and `f"{x:.{d}f}"`.
 * Numbers are exact: integers are unbounded and times are `real`s.
 */
module Numerals {
  import opened Wrappers
  import opened Strings

  predicate IsDigit(c: char) {
    '0' <= c <= '9'
  }

  predicate AllDigits(s: string) {
    forall i :: 0 <= i < |s| ==> IsDigit(s[i])
  }

  function Pow10(k: nat): (r: nat)
    ensures r >= 1
  {
    if k == 0 then 1 else 10 * Pow10(k - 1)
  }

  function DigitChar(d: nat): (c: char)
    requires d < 10
    ensures IsDigit(c)
  {
    ('0' as int + d) as char
  }

  function DigitValue(c: char): (d: nat)
    requires IsDigit(c)
    ensures d < 10
  {
    c as int - '0' as int
  }

  /** The value of a run of ASCII digits, most significant first. */
  function DigitsValue(s: string): (v: nat)
    requires AllDigits(s)
    ensures v < Pow10(|s|)
  {
    if s == [] then 0 else DigitsValue(s[..|s| - 1]) * 10 + DigitValue(s[|s| - 1])
  }

  /** Python's `str(n)` for a non-negative integer: its digits, no leading zero. */
  function NatToString(n: nat): (s: string)
    ensures s != [] && AllDigits(s)
    ensures DigitsValue(s) == n
    ensures |s| == 1 || s[0] != '0'
  {
    if n < 10 then [DigitChar(n)]
    else
      var s := NatToString(n / 10) + [DigitChar(n % 10)];
      assert s[..|s| - 1] == NatToString(n / 10);
      s
  }

  /** A number below `10^k` has at most `k` digits. */
  lemma {:induction false} NatToStringLength(n: nat, k: nat)
    requires 1 <= k && n < Pow10(k)
    ensures |NatToString(n)| <= k
    decreases n
  {
    if n >= 10 {
      NatToStringLength(n / 10, k - 1);
    }
  }

  function Zeros(k: nat): (s: string)
    ensures |s| == k && AllDigits(s)
    ensures forall i :: 0 <= i < k ==> s[i] == '0'
  {
    seq(k, _ => '0')
  }

  /** Leading zeros do not change the value of a numeral. */
  lemma {:induction false} DigitsValueLeadingZeros(k: nat, s: string)
    requires AllDigits(s)
    ensures DigitsValue(Zeros(k) + s) == DigitsValue(s)
    decreases |s|
  {
    var z := Zeros(k) + s;
    if s == [] {
      assert z == Zeros(k);
      ZerosValue(k);
    } else {
      assert z[..|z| - 1] == Zeros(k) + s[..|s| - 1];
      DigitsValueLeadingZeros(k, s[..|s| - 1]);
    }
  }

  lemma {:induction false} ZerosValue(k: nat)
    ensures DigitsValue(Zeros(k)) == 0
  {
    if k > 0 {
      assert Zeros(k)[..k - 1] == Zeros(k - 1);
      ZerosValue(k - 1);
    }
  }

  /** Python's `f"{n:0{width}}"` for a non-negative integer: its digits,
      left-padded with zeros to at least `width` characters. */
  function ZeroPad(n: nat, width: nat): (s: string)
    ensures AllDigits(s) && DigitsValue(s) == n
    ensures |s| == if |NatToString(n)| < width then width else |NatToString(n)|
  {
    var digits := NatToString(n);
    if |digits| < width then
      DigitsValueLeadingZeros(width - |digits|, digits);
      Zeros(width - |digits|) + digits
    else digits
  }

  /** A number below `10^width` is padded to exactly `width` characters. */
  lemma ZeroPadWidth(n: nat, width: nat)
    requires 1 <= width && n < Pow10(width)
    ensures |ZeroPad(n, width)| == width
  {
    NatToStringLength(n, width);
  }

  /** The value written `a.b` (whole part `a`, fraction digits `b`): the
      integer with the digits of `a` then `b`, over `10^|b|`. */
  function DecimalValue(a: string, b: string): real
    requires AllDigits(a) && AllDigits(b)
  {
    (DigitsValue(a) * Pow10(|b|) + DigitsValue(b)) as real / Pow10(|b|) as real
  }

  /** Python's `float(s)` on an unsigned decimal literal: digits with at most
      one '.', and at least one digit; anything else raises (`None`). */
  function ParseUnsigned(s: string): (r: Option<real>)
    ensures r.Some? ==> r.value >= 0.0
  {
    var pieces := Split(s, '.');
    if |pieces| == 1 then
      if pieces[0] != [] && AllDigits(pieces[0]) then Some(DigitsValue(pieces[0]) as real) else None
    else if |pieces| == 2 && AllDigits(pieces[0]) && AllDigits(pieces[1]) && |pieces[0]| + |pieces[1]| > 0 then
      Some(DecimalValue(pieces[0], pieces[1]))
    else None
  }

  /** Python's `float(s)` on a decimal literal with an optional sign. */
  function ParseDecimal(s: string): (r: Option<real>)
    ensures r.Some? && r.value < 0.0 ==> s != [] && s[0] == '-'
  {
    if s != [] && (s[0] == '+' || s[0] == '-') then
      match ParseUnsigned(s[1..])
      case None => None
      case Some(v) => Some(if s[0] == '-' then -v else v)
    else ParseUnsigned(s)
  }

  /** `x * 10^places` is a whole number: `x` has at most `places` decimals. */
  predicate HasPlaces(x: real, places: nat) {
    IsWhole(x * Pow10(places) as real)
  }

  predicate IsWhole(y: real) {
    y.Floor as real == y
  }

  /** `x * 10^places` rounded to the nearest integer, ties to the even one:
      the rounding Python's fixed-point formatting applies to a float's exact value. */
  function RoundScaled(x: real, places: nat): (m: nat)
    requires x >= 0.0
    ensures m as real - 1.0 / 2.0 <= x * Pow10(places) as real <= m as real + 1.0 / 2.0
    ensures HasPlaces(x, places) ==> m as real == x * Pow10(places) as real
  {
    var y := x * Pow10(places) as real;
    var f := y.Floor;
    var frac := y - f as real;
    if frac < 1.0 / 2.0 || (frac == 1.0 / 2.0 && f % 2 == 0) then f else f + 1
  }

  /** Python's `f"{x:.{places}f}"` for `x >= 0` and at least one decimal place. */
  function FormatUnsigned(x: real, places: nat): (s: string)
    requires x >= 0.0 && places >= 1
  {
    var m, b := RoundScaled(x, places), Pow10(places);
    DivMod(m, b);
    NatToString(m / b) + "." + ZeroPad(m % b, places)
  }

  lemma DivMod(m: nat, b: nat)
    requires b >= 1
    ensures 0 <= m / b && 0 <= m % b < b && m == (m / b) * b + m % b
  {
  }

  /** Python's `f"{x:.{places}f}"`: a minus sign for negative `x`, then the magnitude. */
  function FormatFixed(x: real, places: nat): (s: string)
    requires places >= 1
  {
    if x < 0.0 then "-" + FormatUnsigned(-x, places) else FormatUnsigned(x, places)
  }

  /** Reading back an integer with its fraction digits gives its value. */
  lemma DecimalValueOfSplit(m: nat, p: nat, q: nat, r: nat)
    requires p >= 1 && r < Pow10(p) && m == q * Pow10(p) + r
    ensures DecimalValue(NatToString(q), ZeroPad(r, p)) == m as real / Pow10(p) as real
  {
    ZeroPadWidth(r, p);
  }

  /** What `FormatUnsigned` writes, `float()` reads back exactly, when `x`
      has no more decimals than are written. */
  lemma FormatUnsignedRoundTrip(x: real, places: nat)
    requires x >= 0.0 && places >= 1 && HasPlaces(x, places)
    ensures ParseUnsigned(FormatUnsigned(x, places)) == Some(x)
  {
    ParseFormatUnsigned(x, places);
    RoundScaledExact(x, places);
  }

  /** A value with at most `places` decimals is not changed by rounding. */
  lemma RoundScaledExact(x: real, places: nat)
    requires x >= 0.0 && HasPlaces(x, places)
    ensures RoundScaled(x, places) as real / Pow10(places) as real == x
  {
    var b := Pow10(places) as real;
    assert RoundScaled(x, places) as real == x * b;
    CancelScale(x, b);
  }

  /** `float()` reads back the rounded value `FormatUnsigned` writes. */
  lemma ParseFormatUnsigned(x: real, places: nat)
    requires x >= 0.0 && places >= 1
    ensures ParseUnsigned(FormatUnsigned(x, places)) == Some(RoundScaled(x, places) as real / Pow10(places) as real)
  {
    var m, b := RoundScaled(x, places), Pow10(places);
    DivMod(m, b);
    var whole, frac := NatToString(m / b), ZeroPad(m % b, places);
    assert FormatUnsigned(x, places) == Join([whole, frac], '.');
    ParseJoinedDecimal(whole, frac);
    DecimalValueOfSplit(m, places, m / b, m % b);
  }

  lemma ParseJoinedDecimal(whole: string, frac: string)
    requires AllDigits(whole) && AllDigits(frac) && whole != []
    ensures ParseUnsigned(Join([whole, frac], '.')) == Some(DecimalValue(whole, frac))
  {
    assert '.' !in whole by { assert AllDigits(whole); }
    assert '.' !in frac by { assert AllDigits(frac); }
    SplitJoin([whole, frac], '.');
  }

  lemma CancelScale(x: real, b: real)
    requires b > 0.0
    ensures (x * b) / b == x
  {
  }

  /** `float(f"{x:.{places}f}") == x` whenever `x` has at most `places` decimals. */
  lemma FormatFixedRoundTrip(x: real, places: nat)
    requires places >= 1 && HasPlaces(x, places)
    ensures ParseDecimal(FormatFixed(x, places)) == Some(x)
  {
    if x < 0.0 {
      HasPlacesNeg(x, places);
      FormatUnsignedRoundTrip(-x, places);
      var s := FormatFixed(x, places);
      assert s[0] == '-' && s[1..] == FormatUnsigned(-x, places);
    } else {
      FormatUnsignedRoundTrip(x, places);
      FormatUnsignedStartsWithDigit(x, places);
    }
  }

  lemma HasPlacesNeg(x: real, places: nat)
    requires HasPlaces(x, places)
    ensures HasPlaces(-x, places)
  {
    assert (-x) * Pow10(places) as real == -(x * Pow10(places) as real);
    WholeNeg(x * Pow10(places) as real);
  }

  lemma WholeNeg(y: real)
    requires IsWhole(y)
    ensures IsWhole(-y)
  {
    var k := y.Floor;
    assert -y == (-k) as real;
    assert (-y).Floor == -k;
  }

  lemma FormatUnsignedStartsWithDigit(x: real, places: nat)
    requires x >= 0.0 && places >= 1
    ensures FormatUnsigned(x, places) != [] && IsDigit(FormatUnsigned(x, places)[0])
  {
    var m, b := RoundScaled(x, places), Pow10(places);
    DivMod(m, b);
    var whole := NatToString(m / b);
    assert FormatUnsigned(x, places)[0] == whole[0];
  }

  /** The characters a fixed-point rendering can hold. */
  predicate NumeralChar(c: char) {
    IsDigit(c) || c == '.' || c == '-'
  }

  lemma FormatFixedChars(x: real, places: nat)
    requires places >= 1
    ensures forall i :: 0 <= i < |FormatFixed(x, places)| ==> NumeralChar(FormatFixed(x, places)[i])
  {
    var y := if x < 0.0 then -x else x;
    var m, b := RoundScaled(y, places), Pow10(places);
    DivMod(m, b);
    var u := FormatUnsigned(y, places);
    var whole, frac := NatToString(m / b), ZeroPad(m % b, places);
    assert u == whole + "." + frac;
    assert forall i :: 0 <= i < |u| ==> NumeralChar(u[i]) by {
      forall i | 0 <= i < |u|
        ensures NumeralChar(u[i])
      {
        if i < |whole| {
          assert u[i] == whole[i];
        } else if i > |whole| {
          assert u[i] == frac[i - |whole| - 1];
        }
      }
    }
    if x < 0.0 {
      assert FormatFixed(x, places) == "-" + u;
    }
  }
}
