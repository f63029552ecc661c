/**
 * The subtitle-style rendering of a diarization timeline
 * (`convert_seconds_to_timestamp` and `convert_diarization_file` in
 * utils/postprocessing.py): each line that starts with
 * `start=<number>s stop=<number>s speaker_SPEAKER_<digits>` becomes
 * `HH:MM:SS,mmm - HH:MM:SS,mmm - speaker_SPEAKER_<digits>`; other lines are
 * skipped. Times are exact reals.
 */
module Timestamps {
  import opened Wrappers
  import opened Strings
  import opened Numerals
  import opened Sequences
  import SpeakerTimeline

  // ---------------------------------------------------------------------------
  // Clock fields of a time in seconds

  /** `int(seconds // 3600)`. */
  function Hours(x: real): int {
    (x / 3600.0).Floor
  }

  /** `int((seconds % 3600) // 60)`. */
  function Minutes(x: real): (m: nat)
    ensures m < 60
  {
    FloorDiv(x / 60.0, 60);
    ((x - 3600.0 * Hours(x) as real) / 60.0).Floor
  }

  /** `int(seconds % 60)`. */
  function Seconds(x: real): (s: nat)
    ensures s < 60
  {
    (x - 60.0 * (x / 60.0).Floor as real).Floor
  }

  /** `int((seconds % 1) * 1000)`. */
  function Millis(x: real): (ms: nat)
    ensures ms < 1000
  {
    ((x - x.Floor as real) * 1000.0).Floor
  }

  /** Flooring a quotient by a whole divisor is dividing the floor. */
  lemma FloorDiv(y: real, m: nat)
    requires m >= 1
    ensures (y / m as real).Floor == y.Floor / m
  {
    var f := y.Floor;
    var q, r := f / m, f % m;
    assert f == q * m + r && 0 <= r < m;
    var z := y / m as real;
    assert z * m as real == y;
    assert q as real * m as real <= z * m as real;
    assert z * m as real < (q + 1) as real * m as real;
    MulCancelLe(q as real, z, m as real);
    MulCancelLt(z, (q + 1) as real, m as real);
  }

  lemma MulCancelLe(a: real, b: real, c: real)
    requires c > 0.0 && a * c <= b * c
    ensures a <= b
  {
  }

  lemma MulCancelLt(a: real, b: real, c: real)
    requires c > 0.0 && a * c < b * c
    ensures a < b
  {
  }

  lemma FloorShift(y: real, k: int)
    ensures (y - k as real).Floor == y.Floor - k
  {
  }

  /** The clock fields are the digits, in the mixed radix 60/60/1000, of the
      time truncated to whole milliseconds; the hours are not bounded. */
  lemma ClockFields(x: real)
    ensures Hours(x) == (x * 1000.0).Floor / 3600000
    ensures Hours(x) * 3600000 + Minutes(x) * 60000 + Seconds(x) * 1000 + Millis(x)
         == (x * 1000.0).Floor
  {
    var n, a, b, h := (x * 1000.0).Floor, x.Floor, (x / 60.0).Floor, Hours(x);
    FloorShift(x * 1000.0, 1000 * a);
    assert (x - a as real) * 1000.0 == x * 1000.0 - (1000 * a) as real;
    assert Millis(x) == n - 1000 * a;
    FloorShift(x, 60 * b);
    assert Seconds(x) == a - 60 * b;
    FloorShift(x / 60.0, 60 * h);
    assert (x - 3600.0 * h as real) / 60.0 == x / 60.0 - (60 * h) as real;
    assert Minutes(x) == b - 60 * h;
    FloorDiv(x * 1000.0, 3600000);
    assert x * 1000.0 / 3600000.0 == x / 3600.0;
  }

  // ---------------------------------------------------------------------------
  // The timestamp text

  /** `f"{n:0{width}}"` for any integer: a minus sign, then the magnitude
      padded so that the whole is at least `width` characters. */
  function PadInt(n: int, width: nat): (s: string)
    ensures |s| >= width
    ensures n >= 0 ==> AllDigits(s) && DigitsValue(s) == n
    ensures n < 0 ==> |s| >= 2 && s[0] == '-' && AllDigits(s[1..]) && DigitsValue(s[1..]) == -n
    ensures n >= 0 ==> s == ZeroPad(n, width)
  {
    if n < 0 then "-" + ZeroPad(-n, if width >= 1 then width - 1 else 0) else ZeroPad(n, width)
  }

  /** `convert_seconds_to_timestamp`: `HH:MM:SS,mmm`, the hours padded to at
      least two digits. */
  function Timestamp(x: real): string {
    PadInt(Hours(x), 2) + ":" + ZeroPad(Minutes(x), 2) + ":" + ZeroPad(Seconds(x), 2)
    + "," + ZeroPad(Millis(x), 3)
  }

  /** The four digit fields of a timestamp as text. */
  datatype Clock = Clock(hours: string, minutes: string, seconds: string, millis: string)

  /** Splits `H:MM:SS,mmm` (any number of digits in each field) into its
      fields. */
  function ParseTimestamp(t: string): Option<Clock> {
    var fields := Split(t, ':');
    if |fields| != 3 then None
    else
      var last := Split(fields[2], ',');
      if |last| != 2 then None
      else if !(IsNumber(fields[0]) && IsNumber(fields[1]) && IsNumber(last[0]) && IsNumber(last[1])) then None
      else Some(Clock(fields[0], fields[1], last[0], last[1]))
  }

  /** The number of milliseconds a clock reading stands for. */
  function ClockMillis(c: Clock): int
    requires IsNumber(c.hours) && IsNumber(c.minutes) && IsNumber(c.seconds) && IsNumber(c.millis)
  {
    DigitsValue(c.hours) * 3600000 + DigitsValue(c.minutes) * 60000
    + DigitsValue(c.seconds) * 1000 + DigitsValue(c.millis)
  }

  /** Reads a timestamp back as a count of milliseconds. */
  function ReadTimestamp(t: string): (r: Option<int>)
    ensures r.Some? ==> r.value >= 0
  {
    match ParseTimestamp(t)
    case None => None
    case Some(c) => Some(ClockMillis(c))
  }

  predicate IsNumber(s: string) {
    s != [] && AllDigits(s)
  }

  lemma DigitsExclude(s: string, c: char)
    requires AllDigits(s) && !IsDigit(c)
    ensures c !in s
  {
  }

  lemma ZeroPadIsNumber(n: nat, width: nat)
    ensures IsNumber(ZeroPad(n, width))
  {
  }

  /** Padded fields joined by ':', ':' and ',' read back as the number of
      milliseconds they stand for. */
  lemma ReadPadded(h: nat, mi: nat, s: nat, ms: nat, text: string, v: int)
    requires text == ZeroPad(h, 2) + ":" + ZeroPad(mi, 2) + ":" + ZeroPad(s, 2) + "," + ZeroPad(ms, 3)
    requires v == h * 3600000 + mi * 60000 + s * 1000 + ms
    ensures ReadTimestamp(text) == Some(v)
  {
    var c := Clock(ZeroPad(h, 2), ZeroPad(mi, 2), ZeroPad(s, 2), ZeroPad(ms, 3));
    ZeroPadIsNumber(h, 2);
    ZeroPadIsNumber(mi, 2);
    ZeroPadIsNumber(s, 2);
    ZeroPadIsNumber(ms, 3);
    ParseFields(c);
  }

  /** `H:MM:SS,mmm`: digit fields, the hours at least two digits, separated
      by ':', ':' and ','. */
  predicate ClockLayout(t: string) {
    var k := |t| - 10;
    k >= 2 && AllDigits(t[..k]) && t[k] == ':' && AllDigits(t[k + 1..k + 3]) && t[k + 3] == ':'
    && AllDigits(t[k + 4..k + 6]) && t[k + 6] == ',' && AllDigits(t[k + 7..])
  }

  lemma FieldsLayout(hh: string, mm: string, ss: string, ms: string, t: string)
    requires |hh| >= 2 && |mm| == 2 && |ss| == 2 && |ms| == 3
    requires AllDigits(hh) && AllDigits(mm) && AllDigits(ss) && AllDigits(ms)
    requires t == hh + ":" + mm + ":" + ss + "," + ms
    ensures ClockLayout(t)
  {
    var k := |hh|;
    assert t[..k] == hh;
    assert t[k + 1..k + 3] == mm;
    assert t[k + 4..k + 6] == ss;
    assert t[k + 7..] == ms;
  }

  /** A non-negative time is written in the clock layout. */
  lemma TimestampLayout(x: real)
    requires x >= 0.0
    ensures ClockLayout(Timestamp(x))
  {
    var h, mi, s, ms := Hours(x), Minutes(x), Seconds(x), Millis(x);
    assert h >= 0;
    ZeroPadWidth(mi, 2);
    ZeroPadWidth(s, 2);
    ZeroPadWidth(ms, 3);
    FieldsLayout(ZeroPad(h, 2), ZeroPad(mi, 2), ZeroPad(s, 2), ZeroPad(ms, 3), Timestamp(x));
  }

  /** Reading a timestamp back gives the time truncated to whole milliseconds. */
  lemma TimestampRoundTrip(x: real)
    requires x >= 0.0
    ensures ReadTimestamp(Timestamp(x)) == Some((x * 1000.0).Floor)
  {
    var h, mi, s, ms := Hours(x), Minutes(x), Seconds(x), Millis(x);
    assert h >= 0;
    var v := (x * 1000.0).Floor;
    assert v == h * 3600000 + mi * 60000 + s * 1000 + ms by {
      ClockFields(x);
    }
    ReadPadded(h, mi, s, ms, Timestamp(x), v);
  }

  /** Any four digit strings in the timestamp layout split back into themselves. */
  lemma ParseFields(c: Clock)
    requires IsNumber(c.hours) && IsNumber(c.minutes) && IsNumber(c.seconds) && IsNumber(c.millis)
    ensures ParseTimestamp(c.hours + ":" + c.minutes + ":" + c.seconds + "," + c.millis) == Some(c)
  {
    var hh, mm, ss, ms := c.hours, c.minutes, c.seconds, c.millis;
    DigitsExclude(hh, ':');
    DigitsExclude(mm, ':');
    DigitsExclude(ss, ':');
    DigitsExclude(ss, ',');
    DigitsExclude(ms, ',');
    var tail := ss + [','] + ms;
    assert ':' !in tail;
    assert hh + ":" + mm + ":" + ss + "," + ms == hh + [':'] + (mm + [':'] + tail);
    SplitAfterPiece(hh, ':', mm + [':'] + tail);
    SplitAfterPiece(mm, ':', tail);
    SplitNoSep(tail, ':');
    SplitAfterPiece(ss, ',', ms);
    SplitNoSep(ms, ',');
  }

  // ---------------------------------------------------------------------------
  // Matching a timeline line

  const StartHead: string := "start="
  const StopHead: string := "s stop="
  const SpeakerHead: string := "s speaker_SPEAKER_"
  const SpeakerPrefix: string := "speaker_SPEAKER_"

  /** A character of the pattern's `[\d\.]` class (`dots`) or of `\d`. */
  predicate Accepts(c: char, dots: bool) {
    IsDigit(c) || (dots && c == '.')
  }

  predicate AllAccepted(s: string, dots: bool) {
    forall i :: 0 <= i < |s| ==> Accepts(s[i], dots)
  }

  /** Length of the greedy run of accepted characters at the front of `s`. */
  function Run(s: string, dots: bool): (n: nat)
    ensures n <= |s| && AllAccepted(s[..n], dots)
    ensures n == |s| || !Accepts(s[n], dots)
    decreases |s|
  {
    if s == [] || !Accepts(s[0], dots) then 0 else 1 + Run(s[1..], dots)
  }

  lemma {:induction false} RunOf(a: string, rest: string, dots: bool)
    requires AllAccepted(a, dots)
    requires rest == [] || !Accepts(rest[0], dots)
    ensures Run(a + rest, dots) == |a|
    decreases |a|
  {
    if a == [] {
      assert a + rest == rest;
    } else {
      assert (a + rest)[1..] == a[1..] + rest;
      RunOf(a[1..], rest, dots);
    }
  }

  /** The three groups of a match; the speaker group is `speaker_SPEAKER_`
      followed by `number`. */
  datatype TimelineMatch = TimelineMatch(start: string, stop: string, number: string)

  function Speaker(m: TimelineMatch): string {
    SpeakerPrefix + m.number
  }

  /** Groups the pattern can capture: non-empty runs of its classes. */
  predicate WellFormed(m: TimelineMatch) {
    m.start != [] && AllAccepted(m.start, true) && m.stop != [] && AllAccepted(m.stop, true)
    && m.number != [] && AllAccepted(m.number, false)
  }

  /** The text the pattern consumed. */
  function MatchedText(m: TimelineMatch): string {
    StartHead + m.start + StopHead + m.stop + SpeakerHead + m.number
  }

  /** A non-empty greedy run of accepted characters that must be followed by
      `follow`: the run and what comes after `follow`. */
  function TakeRun(s: string, dots: bool, follow: string): Option<(string, string)> {
    var n := Run(s, dots);
    if n == 0 || !StartsWith(s[n..], follow) then None
    else Some((s[..n], s[n..][|follow|..]))
  }

  lemma TakeRunSound(s: string, dots: bool, follow: string)
    requires TakeRun(s, dots, follow).Some?
    ensures var (a, rest) := TakeRun(s, dots, follow).value;
      a != [] && AllAccepted(a, dots) && s == a + follow + rest
  {
    var n := Run(s, dots);
    assert s[n..] == follow + s[n..][|follow|..];
    assert s == s[..n] + s[n..];
  }

  lemma TakeRunOf(a: string, dots: bool, follow: string, rest: string)
    requires a != [] && AllAccepted(a, dots)
    requires follow != [] && !Accepts(follow[0], dots)
    ensures TakeRun(a + follow + rest, dots, follow) == Some((a, rest))
  {
    var s := a + follow + rest;
    assert s == a + (follow + rest);
    RunOf(a, follow + rest, dots);
    assert s[|a|..] == follow + rest;
    assert s[..|a|] == a;
    assert (follow + rest)[|follow|..] == rest;
  }

  /** `re.match(pattern, s)`: anchored at the start, not at the end. A
      `[\d\.]+` group cannot give back characters, since what follows it
      starts with 's'; the `\d+` group is greedy. */
  function MatchAt(s: string): Option<TimelineMatch> {
    if !StartsWith(s, StartHead) then None
    else match TakeRun(s[|StartHead|..], true, StopHead)
      case None => None
      case Some((a, r2)) =>
        match TakeRun(r2, true, SpeakerHead)
        case None => None
        case Some((b, r3)) =>
          var n := Run(r3, false);
          if n == 0 then None else Some(TimelineMatch(a, b, r3[..n]))
  }

  /** The match of one input line, which is stripped first. */
  function MatchLine(line: string): Option<TimelineMatch> {
    MatchAt(Strip(line))
  }

  /** A match consumed the front of the stripped line, with well-formed groups
      and a maximal digit run. */
  lemma MatchAtSound(s: string)
    requires MatchAt(s).Some?
    ensures var m := MatchAt(s).value;
      WellFormed(m) && StartsWith(s, MatchedText(m))
      && (|s| == |MatchedText(m)| || !IsDigit(s[|MatchedText(m)|]))
  {
    var m := MatchAt(s).value;
    var r1 := s[|StartHead|..];
    var (a, r2) := TakeRun(r1, true, StopHead).value;
    var (b, r3) := TakeRun(r2, true, SpeakerHead).value;
    var n := Run(r3, false);
    assert m == TimelineMatch(a, b, r3[..n]);
    assert a != [] && AllAccepted(a, true) && r1 == a + StopHead + r2 by {
      TakeRunSound(r1, true, StopHead);
    }
    assert b != [] && AllAccepted(b, true) && r2 == b + SpeakerHead + r3 by {
      TakeRunSound(r2, true, SpeakerHead);
    }
    var tail := r3[n..];
    assert r3 == m.number + tail by {
      Halves(r3, n);
    }
    assert s == StartHead + r1 by {
      Halves(s, |StartHead|);
    }
    assert s == MatchedText(m) + tail by {
      Glue(StartHead, a, StopHead, b, SpeakerHead, m.number, tail);
    }
    assert (MatchedText(m) + tail)[..|MatchedText(m)|] == MatchedText(m);
  }

  lemma Halves(s: string, n: nat)
    requires n <= |s|
    ensures s == s[..n] + s[n..]
  {
  }

  lemma Glue(p1: string, p2: string, p3: string, p4: string, p5: string, p6: string, p7: string)
    ensures p1 + (p2 + p3 + (p4 + p5 + (p6 + p7))) == p1 + p2 + p3 + p4 + p5 + p6 + p7
  {
  }

  /** Every line that starts with well-formed groups in the pattern's shape
      matches, with those groups, whatever follows a non-digit. */
  lemma MatchAtComplete(m: TimelineMatch, rest: string)
    requires WellFormed(m)
    requires rest == [] || !IsDigit(rest[0])
    ensures MatchAt(MatchedText(m) + rest) == Some(m)
  {
    var s := MatchedText(m) + rest;
    var r3 := m.number + rest;
    var r2 := m.stop + SpeakerHead + r3;
    var r1 := m.start + StopHead + r2;
    assert StartsWith(s, StartHead) && s[|StartHead|..] == r1 by {
      Glue(StartHead, m.start, StopHead, m.stop, SpeakerHead, m.number, rest);
      assert s == StartHead + r1;
    }
    assert TakeRun(r1, true, StopHead) == Some((m.start, r2)) by {
      TakeRunOf(m.start, true, StopHead, r2);
    }
    assert TakeRun(r2, true, SpeakerHead) == Some((m.stop, r3)) by {
      TakeRunOf(m.stop, true, SpeakerHead, r3);
    }
    assert Run(r3, false) == |m.number| && r3[..|m.number|] == m.number by {
      RunOf(m.number, rest, false);
    }
  }

  // ---------------------------------------------------------------------------
  // Converting the file

  /** `float()` of a captured time failed; the source's `ValueError` aborts the
      run before the output file is opened. */
  datatype ConvertError = BadTime(text: string)

  /** The output line for one match, or the error its times raise. */
  function ConvertMatch(m: TimelineMatch): Result<string, ConvertError> {
    match ParseDecimal(m.start)
    case None => Err(BadTime(m.start))
    case Some(a) =>
      match ParseDecimal(m.stop)
      case None => Err(BadTime(m.stop))
      case Some(b) => Ok(Timestamp(a) + " - " + Timestamp(b) + " - " + Speaker(m))
  }

  /** What the pattern finds on each line, in order. */
  function Found(lines: seq<string>): seq<Option<TimelineMatch>> {
    Each(MatchLine, lines)
  }

  /** The matches found, in order; lines without one are skipped. */
  function Somes<T>(found: seq<Option<T>>): (ms: seq<T>)
    ensures |ms| <= |found|
  {
    if found == [] then []
    else
      var prev := Somes(found[..|found| - 1]);
      match found[|found| - 1]
      case None => prev
      case Some(m) => prev + [m]
  }

  /** The matches of the lines, in input order. */
  function Matches(lines: seq<string>): seq<TimelineMatch> {
    Somes(Found(lines))
  }

  /** The conversion of each match, in order. */
  function Conversions(ms: seq<TimelineMatch>): seq<Result<string, ConvertError>> {
    Each(ConvertMatch, ms)
  }

  /** The output lines of a run of conversions, in order, or the first error. */
  function Collect(results: seq<Result<string, ConvertError>>): Result<seq<string>, ConvertError> {
    if results == [] then Ok([])
    else
      match Collect(results[..|results| - 1])
      case Err(e) => Err(e)
      case Ok(out) =>
        match results[|results| - 1]
        case Err(e) => Err(e)
        case Ok(text) => Ok(out + [text])
  }

  /** On success there is one output line per conversion, each its value. */
  lemma {:induction false} CollectOk(results: seq<Result<string, ConvertError>>)
    requires Collect(results).Ok?
    ensures |Collect(results).value| == |results|
    ensures forall k :: 0 <= k < |results| ==> results[k] == Ok(Collect(results).value[k])
  {
    if results != [] {
      var n := |results| - 1;
      CollectOk(results[..n]);
      var out := Collect(results[..n]).value;
      var all := Collect(results).value;
      assert all == out + [results[n].value];
      forall k | 0 <= k < |results|
        ensures results[k] == Ok(all[k])
      {
        if k < n {
          assert results[..n][k] == results[k];
          assert all[k] == out[k];
        }
      }
    }
  }

  /** On failure the error is that of the first failing conversion. */
  lemma {:induction false} CollectErr(results: seq<Result<string, ConvertError>>) returns (k: nat)
    requires Collect(results).Err?
    ensures k < |results| && results[k] == Err(Collect(results).error)
    ensures forall j :: 0 <= j < k ==> results[j].Ok?
  {
    var n := |results| - 1;
    if Collect(results[..n]).Err? {
      k := CollectErr(results[..n]);
      forall j | 0 <= j < k
        ensures results[j].Ok?
      {
        assert results[..n][j] == results[j];
      }
      assert results[..n][k] == results[k];
    } else {
      k := n;
      CollectOk(results[..n]);
      forall j | 0 <= j < k
        ensures results[j].Ok?
      {
        assert results[..n][j] == results[j];
      }
    }
  }

  /** Once a conversion fails, later ones do not change the outcome. */
  lemma {:induction false} CollectStopsAt(results: seq<Result<string, ConvertError>>, i: nat)
    requires i <= |results| && Collect(results[..i]).Err?
    ensures Collect(results) == Collect(results[..i])
    decreases |results|
  {
    if i == |results| {
      assert results[..i] == results;
    } else {
      var n := |results| - 1;
      assert results[..n][..i] == results[..i];
      CollectStopsAt(results[..n], i);
    }
  }

  /** `converted_lines` once the loop has read all of `lines`, or the error
      that stops it. */
  function Convert(lines: seq<string>): Result<seq<string>, ConvertError> {
    Collect(Conversions(Matches(lines)))
  }

  /** On success the file conversion writes one line per matching line, in
      input order, each the conversion of its match. */
  lemma ConvertOk(lines: seq<string>)
    requires Convert(lines).Ok?
    ensures |Convert(lines).value| == |Matches(lines)| == |MatchingLines(lines)|
    ensures forall k :: 0 <= k < |Matches(lines)| ==> ConvertMatch(Matches(lines)[k]) == Ok(Convert(lines).value[k])
  {
    var ms := Matches(lines);
    var results := Conversions(ms);
    MatchesCount(lines);
    CollectOk(results);
    forall k | 0 <= k < |ms|
      ensures ConvertMatch(ms[k]) == Ok(Convert(lines).value[k])
    {
      assert results[k] == ConvertMatch(ms[k]);
    }
  }

  /** On failure the error is that of the first match whose time does not
      read as a number. */
  lemma ConvertErr(lines: seq<string>) returns (k: nat)
    requires Convert(lines).Err?
    ensures k < |Matches(lines)| && ConvertMatch(Matches(lines)[k]) == Err(Convert(lines).error)
    ensures forall j :: 0 <= j < k ==> ConvertMatch(Matches(lines)[j]).Ok?
  {
    var ms := Matches(lines);
    var results := Conversions(ms);
    k := CollectErr(results);
    assert results[k] == ConvertMatch(ms[k]);
    forall j | 0 <= j < k
      ensures ConvertMatch(ms[j]).Ok?
    {
      assert results[j] == ConvertMatch(ms[j]);
    }
  }

  /** `convert_diarization_file`, with the file contents as `lines`: the lines
      it writes, or the error that stops it before writing. */
  method ConvertDiarizationFile(lines: seq<string>) returns (r: Result<seq<string>, ConvertError>)
    ensures r == Convert(lines)
  {
    var converted: seq<string> := [];
    for i := 0 to |lines|
      invariant Convert(lines[..i]) == Ok(converted)
    {
      ConversionsSnoc(lines, i);
      var found := MatchLine(lines[i]);
      if found.Some? {
        var line := ConvertMatch(found.value);
        CollectSnoc(Conversions(Matches(lines[..i])), line);
        if line.Err? {
          ConvertStopsAt(lines, i + 1);
          return Err(line.error);
        }
        converted := converted + [line.value];
      }
    }
    assert lines[..|lines|] == lines;
    return Ok(converted);
  }

  /** One more line read: its match, if any, is converted after the others. */
  lemma ConversionsSnoc(lines: seq<string>, i: nat)
    requires i < |lines|
    ensures var before := Conversions(Matches(lines[..i]));
      Conversions(Matches(lines[..i + 1]))
      == if MatchLine(lines[i]).Some? then before + [ConvertMatch(MatchLine(lines[i]).value)] else before
  {
    MatchesSnoc(lines, i);
    if MatchLine(lines[i]).Some? {
      ConversionsAppend(Matches(lines[..i]), MatchLine(lines[i]).value);
    }
  }

  lemma ConversionsAppend(ms: seq<TimelineMatch>, m: TimelineMatch)
    ensures Conversions(ms + [m]) == Conversions(ms) + [ConvertMatch(m)]
  {
  }

  lemma CollectSnoc(results: seq<Result<string, ConvertError>>, x: Result<string, ConvertError>)
    requires Collect(results).Ok?
    ensures Collect(results + [x]) == match x
      case Err(e) => Err(e)
      case Ok(text) => Ok(Collect(results).value + [text])
  {
    assert (results + [x])[..|results|] == results;
  }

  /** Reading one more line adds its match, if any, at the end. */
  lemma MatchesSnoc(lines: seq<string>, i: nat)
    requires i < |lines|
    ensures var prev := Matches(lines[..i]);
      Matches(lines[..i + 1]) == if MatchLine(lines[i]).Some? then prev + [MatchLine(lines[i]).value] else prev
  {
    FoundSnoc(lines, i);
    SomesSnoc(Found(lines[..i]), MatchLine(lines[i]));
  }

  lemma FoundSnoc(lines: seq<string>, i: nat)
    requires i < |lines|
    ensures Found(lines[..i + 1]) == Found(lines[..i]) + [MatchLine(lines[i])]
  {
    EachSnoc(MatchLine, lines, i);
  }

  lemma SomesSnoc<T>(found: seq<Option<T>>, x: Option<T>)
    ensures Somes(found + [x]) == if x.Some? then Somes(found) + [x.value] else Somes(found)
  {
    assert (found + [x])[..|found|] == found;
  }

  lemma ConvertStopsAt(lines: seq<string>, i: nat)
    requires i <= |lines| && Convert(lines[..i]).Err?
    ensures Convert(lines) == Convert(lines[..i])
  {
    PipelineStopsAt(MatchLine, ConvertMatch, lines, i);
  }

  /** Filtering, mapping and collecting stop at the first error, whatever the
      filter and the conversion. */
  lemma PipelineStopsAt<A, T>(f: A -> Option<T>, g: T -> Result<string, ConvertError>, s: seq<A>, i: nat)
    requires i <= |s| && Collect(Each(g, Somes(Each(f, s[..i])))).Err?
    ensures Collect(Each(g, Somes(Each(f, s)))) == Collect(Each(g, Somes(Each(f, s[..i]))))
  {
    var head, ms := s[..i], Somes(Each(f, s));
    var k := |Somes(Each(f, head))|;
    assert ms[..k] == Somes(Each(f, head)) by {
      assert head + s[i..] == s;
      EachAppend(f, head, s[i..]);
      SomesAppend(Each(f, head), Each(f, s[i..]));
    }
    EachPrefix(g, ms, k);
    CollectStopsAt(Each(g, ms), k);
  }

  lemma {:induction false} SomesAppend<T>(a: seq<Option<T>>, b: seq<Option<T>>)
    ensures Somes(a + b) == Somes(a) + Somes(b)
    decreases |b|
  {
    if b == [] {
      assert a + b == a;
    } else {
      var n := |b| - 1;
      assert (a + b)[..|a + b| - 1] == a + b[..n];
      SomesAppend(a, b[..n]);
    }
  }

  /** Matching keeps input order: the matches of two pieces of a file are the
      matches of the first piece followed by those of the second. */
  lemma MatchesAppend(a: seq<string>, b: seq<string>)
    ensures Matches(a + b) == Matches(a) + Matches(b)
  {
    EachAppend(MatchLine, a, b);
    SomesAppend(Found(a), Found(b));
  }

  /** The positions that hold a match. */
  function Positions<T>(found: seq<Option<T>>): set<int> {
    set i | 0 <= i < |found| && found[i].Some?
  }

  lemma {:induction false} SomesCount<T>(found: seq<Option<T>>)
    ensures |Somes(found)| == |Positions(found)|
  {
    if found != [] {
      var n := |found| - 1;
      SomesCount(found[..n]);
      var extra: set<int> := if found[n].Some? then {n} else {};
      forall i
        ensures i in Positions(found) <==> i in Positions(found[..n]) + extra
      {
        if 0 <= i < n {
          assert found[..n][i] == found[i];
        }
      }
      assert Positions(found) == Positions(found[..n]) + extra;
      assert n !in Positions(found[..n]);
    }
  }

  /** The positions of the lines that match. */
  function MatchingLines(lines: seq<string>): set<int> {
    set i | 0 <= i < |lines| && MatchLine(lines[i]).Some?
  }

  /** Exactly the matching lines contribute: one match per such line. */
  lemma MatchesCount(lines: seq<string>)
    ensures |Matches(lines)| == |MatchingLines(lines)|
  {
    SomesCount(Found(lines));
    assert Positions(Found(lines)) == MatchingLines(lines);
  }

  // ---------------------------------------------------------------------------
  // From the merged timeline to timestamps

  /** A line written by the timeline post-processing, for a speaker named
      `speaker_SPEAKER_<digits>` and non-negative times with one decimal,
      converts to the timestamps of those very times. */
  lemma ProcessedLineConverts(seg: SpeakerTimeline.Segment, number: string)
    requires seg.start >= 0.0 && seg.stop >= 0.0
    requires HasPlaces(seg.start, 1) && HasPlaces(seg.stop, 1)
    requires number != [] && AllDigits(number) && seg.speaker == SpeakerPrefix + number
    ensures MatchLine(SpeakerTimeline.RenderLine(seg))
         == Some(TimelineMatch(FormatFixed(seg.start, 1), FormatFixed(seg.stop, 1), number))
    ensures ConvertMatch(TimelineMatch(FormatFixed(seg.start, 1), FormatFixed(seg.stop, 1), number))
         == Ok(Timestamp(seg.start) + " - " + Timestamp(seg.stop) + " - " + seg.speaker)
  {
    var m := TimelineMatch(FormatFixed(seg.start, 1), FormatFixed(seg.stop, 1), number);
    FormattedTimeAccepted(seg.start);
    FormattedTimeAccepted(seg.stop);
    assert AllAccepted(number, false);
    RenderLineText(seg, m);
    MatchAtComplete(m, []);
    assert MatchedText(m) + [] == MatchedText(m);
    StripOfStripped(MatchedText(m));
    FormatFixedRoundTrip(seg.start, 1);
    FormatFixedRoundTrip(seg.stop, 1);
  }

  lemma RenderLineText(seg: SpeakerTimeline.Segment, m: TimelineMatch)
    requires m.start == FormatFixed(seg.start, 1) && m.stop == FormatFixed(seg.stop, 1)
    requires seg.speaker == SpeakerPrefix + m.number && m.number != [] && AllAccepted(m.number, false)
    ensures SpeakerTimeline.RenderLine(seg) == MatchedText(m)
    ensures !IsSpace(MatchedText(m)[0]) && !IsSpace(MatchedText(m)[|MatchedText(m)| - 1])
  {
    RenderedText(m);
    var t := MatchedText(m);
    assert t[|t| - 1] == m.number[|m.number| - 1];
    assert Accepts(m.number[|m.number| - 1], false);
  }

  lemma RenderedText(m: TimelineMatch)
    ensures "start=" + m.start + "s stop=" + m.stop + "s " + (SpeakerPrefix + m.number) == MatchedText(m)
  {
    assert "s " + SpeakerPrefix == SpeakerHead;
  }

  /** A non-negative time written with one decimal is digits and one '.'. */
  lemma FormattedTimeAccepted(x: real)
    requires x >= 0.0
    ensures FormatFixed(x, 1) != [] && AllAccepted(FormatFixed(x, 1), true)
  {
    FormatFixedChars(x, 1);
    FormatUnsignedStartsWithDigit(x, 1);
    NoMinus(x);
    var s := FormatFixed(x, 1);
    forall i | 0 <= i < |s|
      ensures Accepts(s[i], true)
    {
      assert NumeralChar(s[i]) && s[i] != '-';
    }
  }

  lemma NoMinus(x: real)
    requires x >= 0.0
    ensures '-' !in FormatFixed(x, 1)
  {
    var m := RoundScaled(x, 1);
    DivMod(m, 10);
    var a, b := NatToString(m / 10), ZeroPad(m % 10, 1);
    assert FormatFixed(x, 1) == a + "." + b;
    DigitsExclude(a, '-');
    DigitsExclude(b, '-');
  }
}
