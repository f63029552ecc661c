/**
 * `time_to_str` (utils/utils.py): a non-negative float number of seconds as
 * `HH:MM:SS,mmm`. The hours are the floor of the time over 3600, padded to two
 * digits; the minutes are the floor of what remains over 60, padded to two
 * digits; the seconds left are written with three decimals (rounded, ties to
 * even) in a six-character field, with ',' in place of '.'.
 */
module TimeFormat {
  import opened Wrappers
  import opened Strings
  import opened Numerals
  import Timestamps

  /** The argument: a Python float, or a value of any other type. */
  datatype Value = Float(x: real) | NotFloat

  /** The two `ValueError`s `time_to_str` raises. */
  datatype TimeError = NotFloatingPoint | Negative

  // ---------------------------------------------------------------------------
  // The fields as text

  /** `'00'`, `'0' + str(h)` below 10, `str(h)` otherwise. */
  function HoursText(h: nat): (s: string)
    ensures s == ZeroPad(h, 2)
  {
    if h == 0 then "00"
    else if h < 10 then "0" + NatToString(h)
    else NatToString(h)
  }

  /** `'0' + str(m)` below 10, `str(m)` otherwise. */
  function MinutesText(m: nat): (s: string)
    ensures s == ZeroPad(m, 2)
  {
    if m < 10 then "0" + NatToString(m) else NatToString(m)
  }

  /** Left-pads with '0' to at least `width` characters, as the `0` flag of a
      format does for a non-negative number. */
  function ZeroFill(s: string, width: nat): (r: string)
    ensures |r| == if |s| < width then width else |s|
  {
    if |s| < width then Zeros(width - |s|) + s else s
  }

  /** `'{0:06.3f}'.format(t).replace('.', ',')` for `t >= 0`. */
  function SecondsText(t: real): string
    requires t >= 0.0
  {
    ReplaceChar(ZeroFill(FormatUnsigned(t, 3), 6), '.', ',')
  }

  // ---------------------------------------------------------------------------
  // The conversion

  /** The hours, minutes and remaining seconds of a non-negative time, by the
      successive subtractions of the source. */
  function HoursOf(x: real): (h: nat)
    requires x >= 0.0
  {
    (x / 3600.0).Floor
  }

  function AfterHours(x: real): (r: real)
    requires x >= 0.0
    ensures 0.0 <= r < 3600.0
  {
    x - HoursOf(x) as real * 3600.0
  }

  function MinutesOf(x: real): (m: nat)
    requires x >= 0.0
    ensures m < 60
  {
    (AfterHours(x) / 60.0).Floor
  }

  function AfterMinutes(x: real): (r: real)
    requires x >= 0.0
    ensures 0.0 <= r < 60.0
  {
    AfterHours(x) - MinutesOf(x) as real * 60.0
  }

  /** What `time_to_str` returns for a non-negative time. */
  function TimeText(x: real): string
    requires x >= 0.0
  {
    HoursText(HoursOf(x)) + ":" + MinutesText(MinutesOf(x)) + ":" + SecondsText(AfterMinutes(x))
  }

  /** `time_to_str`, statement by statement. */
  method TimeToStr(v: Value) returns (r: Result<string, TimeError>)
    ensures v.NotFloat? ==> r == Err(NotFloatingPoint)
    ensures v.Float? && v.x < 0.0 ==> r == Err(Negative)
    ensures v.Float? && v.x >= 0.0 ==> r == Ok(TimeText(v.x))
  {
    if v.NotFloat? {
      return Err(NotFloatingPoint);
    }
    var timeVal := v.x;
    if timeVal < 0.0 {
      return Err(Negative);
    }
    ghost var x := v.x;
    var hours: nat := (timeVal / 3600.0).Floor;
    assert hours == HoursOf(x);
    var s: string;
    if hours == 0 {
      s := "00";
    } else if hours < 10 {
      s := "0" + NatToString(hours);
    } else {
      s := NatToString(hours);
    }
    assert s == HoursText(HoursOf(x));
    s := s + ":";
    timeVal := timeVal - hours as real * 3600.0;
    assert timeVal == AfterHours(x);
    var minutes: nat := (timeVal / 60.0).Floor;
    assert minutes == MinutesOf(x);
    ghost var head := s;
    if minutes < 10 {
      s := s + "0" + NatToString(minutes);
      assert s == head + ("0" + NatToString(minutes));
    } else {
      s := s + NatToString(minutes);
    }
    assert s == head + MinutesText(MinutesOf(x));
    timeVal := timeVal - minutes as real * 60.0;
    assert timeVal == AfterMinutes(x);
    s := s + ":";
    s := s + ReplaceChar(ZeroFill(FormatUnsigned(timeVal, 3), 6), '.', ',');
    return Ok(s);
  }

  // ---------------------------------------------------------------------------
  // Properties

  lemma ReplaceCharAppend(a: string, b: string, c: char, d: char)
    ensures ReplaceChar(a + b, c, d) == ReplaceChar(a, c, d) + ReplaceChar(b, c, d)
  {
  }

  lemma ReplaceCharDigits(s: string, c: char, d: char)
    requires AllDigits(s) && !IsDigit(c)
    ensures ReplaceChar(s, c, d) == s
  {
  }

  /** The seconds field is the rounded milliseconds `m` as `SS,mmm`, whenever
      they stay below a minute. */
  lemma SecondsTextFields(t: real)
    requires t >= 0.0 && RoundScaled(t, 3) < 60000
    ensures var m := RoundScaled(t, 3);
      SecondsText(t) == ZeroPad(m / 1000, 2) + "," + ZeroPad(m % 1000, 3)
  {
    var m := RoundScaled(t, 3);
    assert Pow10(3) == 1000;
    var whole, frac := NatToString(m / 1000), ZeroPad(m % 1000, 3);
    ZeroPadWidth(m % 1000, 3);
    NatToStringLength(m / 1000, 2);
    var f := FormatUnsigned(t, 3);
    assert f == whole + "." + frac;
    var filled := ZeroFill(f, 6);
    assert filled == ZeroPad(m / 1000, 2) + "." + frac by {
      if |whole| == 1 {
        assert filled == Zeros(1) + whole + "." + frac;
      }
    }
    ReplaceCharAppend(ZeroPad(m / 1000, 2) + ".", frac, '.', ',');
    ReplaceCharAppend(ZeroPad(m / 1000, 2), ".", '.', ',');
    ReplaceCharDigits(ZeroPad(m / 1000, 2), '.', ',');
    ReplaceCharDigits(frac, '.', ',');
  }

  /** With whole milliseconds the remaining seconds have whole milliseconds. */
  lemma AfterMinutesPlaces(x: real)
    requires x >= 0.0 && HasPlaces(x, 3)
    ensures HasPlaces(AfterMinutes(x), 3)
    ensures RoundScaled(AfterMinutes(x), 3) as real == AfterMinutes(x) * 1000.0
    ensures HoursOf(x) * 3600000 + MinutesOf(x) * 60000 + RoundScaled(AfterMinutes(x), 3)
      == (x * 1000.0).Floor
  {
    assert Pow10(3) == 1000;
    var k := HoursOf(x) * 3600000 + MinutesOf(x) * 60000;
    assert AfterMinutes(x) * 1000.0 == x * 1000.0 - k as real;
    Timestamps.FloorShift(x * 1000.0, k);
  }

  lemma AppendSeconds(prefix: string, sec: string, a: string, b: string)
    requires sec == a + "," + b
    ensures prefix + sec == prefix + a + "," + b
  {
  }

  /** For a time with whole milliseconds, the fields are the clock digits of
      that time: `H` (at least two digits), `MM`, `SS` and `mmm`. */
  lemma TimeTextFields(x: real)
    requires x >= 0.0 && HasPlaces(x, 3)
    ensures var m := RoundScaled(AfterMinutes(x), 3);
      TimeText(x) == ZeroPad(HoursOf(x), 2) + ":" + ZeroPad(MinutesOf(x), 2) + ":"
                     + ZeroPad(m / 1000, 2) + "," + ZeroPad(m % 1000, 3)
  {
    var t := AfterMinutes(x);
    AfterMinutesPlaces(x);
    var m := RoundScaled(t, 3);
    assert m < 60000;
    SecondsTextFields(t);
    var prefix := ZeroPad(HoursOf(x), 2) + ":" + ZeroPad(MinutesOf(x), 2) + ":";
    assert TimeText(x) == prefix + SecondsText(t);
    AppendSeconds(prefix, SecondsText(t), ZeroPad(m / 1000, 2), ZeroPad(m % 1000, 3));
  }

  /** For a time with whole milliseconds, the text reads back as that time:
      hours, minutes and seconds recombine to the input. */
  lemma TimeTextRoundTrip(x: real)
    requires x >= 0.0 && HasPlaces(x, 3)
    ensures Timestamps.ReadTimestamp(TimeText(x)) == Some((x * 1000.0).Floor)
  {
    var h, mi, m := HoursOf(x), MinutesOf(x), RoundScaled(AfterMinutes(x), 3);
    var sec, ms := m / 1000, m % 1000;
    var text := ZeroPad(h, 2) + ":" + ZeroPad(mi, 2) + ":" + ZeroPad(sec, 2) + "," + ZeroPad(ms, 3);
    assert TimeText(x) == text by {
      TimeTextFields(x);
    }
    var v := h * 3600000 + mi * 60000 + sec * 1000 + ms;
    assert (x * 1000.0).Floor == v by {
      AfterMinutesPlaces(x);
    }
    Timestamps.ReadPadded(h, mi, sec, ms, text, v);
  }

  // ---------------------------------------------------------------------------
  // The seconds field can read 60

  /** As written, a time just under a minute renders its seconds as `60,000`:
      the seconds are rounded to milliseconds only after the minutes are
      taken, so the rounding can carry into a minute the text never shows. */
  lemma SecondsReachSixty()
    ensures TimeText(59.9996) == "00:00:60,000"
  {
    var x := 59.9996;
    assert HoursOf(x) == 0;
    assert MinutesOf(x) == 0;
    assert AfterMinutes(x) == x;
    assert Pow10(3) == 1000;
    assert RoundScaled(x, 3) == 60000;
    assert NatToString(60) == "60";
    assert ZeroPad(0, 3) == "000";
    assert FormatUnsigned(x, 3) == "60.000";
    assert SecondsText(x) == "60,000";
  }

  /** The intended rendering: the whole time is rounded to milliseconds first,
      and the hours, minutes, seconds and milliseconds are the digits of that
      count in the mixed radix 60/60/1000. */
  function TimeTextRounded(x: real): string
    requires x >= 0.0
  {
    var m := RoundScaled(x, 3);
    ZeroPad(m / 3600000, 2) + ":" + ZeroPad(m / 60000 % 60, 2) + ":" + ZeroPad(m / 1000 % 60, 2)
    + "," + ZeroPad(m % 1000, 3)
  }

  /** A count of milliseconds is its hours, minutes, seconds and milliseconds. */
  lemma MixedRadix(m: nat)
    ensures m == m / 3600000 * 3600000 + m / 60000 % 60 * 60000 + m / 1000 % 60 * 1000 + m % 1000
  {
    var s, mi := m / 1000, m / 60000;
    assert m == s * 1000 + m % 1000;
    assert s / 60 == mi;
    assert s == mi * 60 + s % 60;
    assert mi / 60 == m / 3600000;
    assert mi == mi / 60 * 60 + mi % 60;
  }

  /** The digits of `h * 3600000 + mi * 60000 + r` with `mi < 60` and
      `r < 60000` are `h`, `mi`, and the seconds and milliseconds of `r`. */
  lemma MixedRadixDigits(m: nat, h: nat, mi: nat, r: nat)
    requires mi < 60 && r < 60000 && m == h * 3600000 + mi * 60000 + r
    ensures m / 3600000 == h && m / 60000 % 60 == mi
    ensures m / 1000 % 60 == r / 1000 && m % 1000 == r % 1000
  {
    assert m / 1000 == h * 3600 + mi * 60 + r / 1000;
    assert m / 60000 == h * 60 + mi;
    assert m / 3600000 == h;
  }

  /** The corrected text reads back as the time rounded to milliseconds, and
      its minutes and seconds are below 60. */
  lemma TimeTextRoundedRoundTrip(x: real)
    requires x >= 0.0
    ensures Timestamps.ReadTimestamp(TimeTextRounded(x)) == Some(RoundScaled(x, 3))
    ensures Timestamps.ParseTimestamp(TimeTextRounded(x)).Some?
    ensures var c := Timestamps.ParseTimestamp(TimeTextRounded(x)).value;
      Timestamps.IsNumber(c.minutes) && Timestamps.IsNumber(c.seconds)
      && DigitsValue(c.minutes) < 60 && DigitsValue(c.seconds) < 60
  {
    var m := RoundScaled(x, 3);
    var h, mi, sec, ms := m / 3600000, m / 60000 % 60, m / 1000 % 60, m % 1000;
    var text := ZeroPad(h, 2) + ":" + ZeroPad(mi, 2) + ":" + ZeroPad(sec, 2) + "," + ZeroPad(ms, 3);
    assert TimeTextRounded(x) == text;
    MixedRadix(m);
    Timestamps.ReadPadded(h, mi, sec, ms, text, m);
    var c := Timestamps.Clock(ZeroPad(h, 2), ZeroPad(mi, 2), ZeroPad(sec, 2), ZeroPad(ms, 3));
    Timestamps.ZeroPadIsNumber(h, 2);
    Timestamps.ZeroPadIsNumber(mi, 2);
    Timestamps.ZeroPadIsNumber(sec, 2);
    Timestamps.ZeroPadIsNumber(ms, 3);
    Timestamps.ParseFields(c);
  }

  /** Wherever the source is right (whole milliseconds), the corrected text is
      what it writes. */
  lemma TimeTextRoundedAgrees(x: real)
    requires x >= 0.0 && HasPlaces(x, 3)
    ensures TimeTextRounded(x) == TimeText(x)
  {
    var h, mi, r := HoursOf(x), MinutesOf(x), RoundScaled(AfterMinutes(x), 3);
    var m := RoundScaled(x, 3);
    assert m == h * 3600000 + mi * 60000 + r by {
      AfterMinutesPlaces(x);
      assert Pow10(3) == 1000;
    }
    assert r < 60000 by {
      AfterMinutesPlaces(x);
    }
    var text := ZeroPad(h, 2) + ":" + ZeroPad(mi, 2) + ":" + ZeroPad(r / 1000, 2) + "," + ZeroPad(r % 1000, 3);
    assert TimeText(x) == text by {
      TimeTextFields(x);
    }
    MixedRadixDigits(m, h, mi, r);
    assert TimeTextRounded(x) == text;
  }

  /** The corrected text of the time above carries the minute. */
  lemma TimeTextRoundedCarries()
    ensures TimeTextRounded(59.9996) == "00:01:00,000"
  {
    var m := RoundScaled(59.9996, 3);
    assert m == 60000 by {
      assert Pow10(3) == 1000;
    }
    assert m / 3600000 == 0 && m / 60000 % 60 == 1 && m / 1000 % 60 == 0 && m % 1000 == 0;
    assert ZeroPad(0, 2) == "00" && ZeroPad(1, 2) == "01" && ZeroPad(0, 3) == "000" by {
      assert NatToString(0) == "0" && NatToString(1) == "1";
    }
  }
}
