/**
 * Post-processing of a diarization timeline (`process_speaker_segments` in
 * utils/postprocessing.py). Each input line reads `start=<t>s stop=<t>s <speaker>`.
 * The first loop reads the lines in order, skips zero-length intervals and
 * merges same-speaker neighbours whose boundary gap is at most 0.1 s; then the
 * intervals lasting at most 1.0 s are dropped, and a second loop coalesces the
 * same-speaker neighbours left. Times are exact reals.
 */
module SpeakerTimeline {
  import opened Wrappers
  import opened Strings
  import opened Numerals
  import opened Sequences

  /** One `[start, stop, speaker]` entry of the source's lists. */
  datatype Segment = Segment(start: real, stop: real, speaker: string)

  /** Why a line cannot be read: a field is missing (`IndexError`) or a time
      is not a number (`ValueError`). */
  datatype LineFault = MissingField | BadNumber

  /** The exception that aborts the whole run, with the index of its line. */
  datatype ParseError = ParseError(line: nat, fault: LineFault)

  /** Same-speaker neighbours whose boundary gap is at most this are merged. */
  const MaxGap: real := 0.1

  /** Intervals lasting this long or less are dropped. */
  const MinDuration: real := 1.0

  function Abs(x: real): real {
    if x < 0.0 then -x else x
  }

  function Duration(s: Segment): real {
    s.stop - s.start
  }

  function Last(segs: seq<Segment>): Segment
    requires segs != []
  {
    segs[|segs| - 1]
  }

  // ---------------------------------------------------------------------------
  // Reading the lines

  /** `float(part.split("=")[1][:-1])`: the text after the first '=' (up to
      any second one), with its last character dropped. */
  function ParseTime(part: string): Result<real, LineFault>
  {
    var fields := Split(part, '=');
    if |fields| < 2 then Err(MissingField)
    else
      var text := fields[1];
      var number := if text == [] then [] else text[..|text| - 1];
      match ParseDecimal(number)
      case None => Err(BadNumber)
      case Some(t) => Ok(t)
  }

  /** One line: its whitespace-separated tokens are read in the order the
      source evaluates them, so the first failing field decides the fault.
      Tokens after the third are ignored. */
  function ParseLine(line: string): (r: Result<Segment, LineFault>)
    ensures |Words(line)| < 3 ==> r.Err?
    ensures r.Ok? ==> ParseTime(Words(line)[0]) == Ok(r.value.start)
                      && ParseTime(Words(line)[1]) == Ok(r.value.stop)
                      && r.value.speaker == Words(line)[2]
    ensures r == Err(BadNumber) ==>
      Words(line) != []
      && (ParseTime(Words(line)[0]) == Err(BadNumber)
          || (ParseTime(Words(line)[0]).Ok? && |Words(line)| >= 2 && ParseTime(Words(line)[1]) == Err(BadNumber)))
  {
    var parts := Words(line);
    if |parts| < 1 then Err(MissingField)
    else match ParseTime(parts[0])
      case Err(f) => Err(f)
      case Ok(start) =>
        if |parts| < 2 then Err(MissingField)
        else match ParseTime(parts[1])
          case Err(f) => Err(f)
          case Ok(stop) =>
            if |parts| < 3 then Err(MissingField)
            else Ok(Segment(start, stop, parts[2]))
  }

  /** All lines, in order; the first line that cannot be read aborts the run. */
  function ParseLines(lines: seq<string>): (r: Result<seq<Segment>, ParseError>)
    ensures r.Ok? ==> (|r.value| == |lines|
                       && forall i :: 0 <= i < |lines| ==> ParseLine(lines[i]) == Ok(r.value[i]))
    ensures r.Err? ==> (r.error.line < |lines|
                        && ParseLine(lines[r.error.line]) == Err(r.error.fault)
                        && forall i :: 0 <= i < r.error.line ==> ParseLine(lines[i]).Ok?)
  {
    match ReadEach(ParseLine, lines)
    case Err((n, fault)) => Err(ParseError(n, fault))
    case Ok(segs) => Ok(segs)
  }

  /** The line written for a segment: `start=<start:.1f>s stop=<stop:.1f>s <speaker>`. */
  function RenderLine(seg: Segment): string {
    "start=" + FormatFixed(seg.start, 1) + "s stop=" + FormatFixed(seg.stop, 1) + "s " + seg.speaker
  }

  // ---------------------------------------------------------------------------
  // Stage 1 and 2: the first loop

  /** What the first loop does with one line already read: skip a zero-length
      interval; open a new interval when the list is empty or the speaker
      changes; for the same speaker, extend the last interval to this stop when
      its end lies within `MaxGap` of this start (on either side), else open one. */
  function MergeStep(merged: seq<Segment>, seg: Segment): (r: seq<Segment>)
    ensures seg.start == seg.stop ==> r == merged
    ensures |merged| <= |r| <= |merged| + 1
    ensures merged == [] || r[..|merged| - 1] == merged[..|merged| - 1]
    ensures seg.start != seg.stop ==> r != [] && Last(r).speaker == seg.speaker && Last(r).stop == seg.stop
  {
    if seg.start == seg.stop then merged
    else if merged == [] || Last(merged).speaker != seg.speaker then merged + [seg]
    else if Abs(Last(merged).stop - seg.start) <= MaxGap then
      merged[|merged| - 1 := Last(merged).(stop := seg.stop)]
    else merged + [seg]
  }

  /** Same-speaker neighbours are at more than `MaxGap` from each other. */
  predicate GapsSeparate(merged: seq<Segment>) {
    forall i :: 0 <= i < |merged| - 1 && merged[i].speaker == merged[i + 1].speaker
      ==> Abs(merged[i].stop - merged[i + 1].start) > MaxGap
  }

  /** `merged_segments` after the first loop has read all of `raw`. */
  function Merge(raw: seq<Segment>): (merged: seq<Segment>)
    ensures |merged| <= |raw|
    ensures GapsSeparate(merged)
  {
    if raw == [] then [] else MergeStep(Merge(raw[..|raw| - 1]), raw[|raw| - 1])
  }

  // ---------------------------------------------------------------------------
  // Stage 3: duration filter, then coalescing

  /** `[seg for seg in merged if seg[1] - seg[0] > 1.0]`. */
  function KeepLong(merged: seq<Segment>): (kept: seq<Segment>)
    ensures |kept| <= |merged|
    ensures forall s :: s in kept <==> s in merged && Duration(s) > MinDuration
  {
    if merged == [] then []
    else if Duration(merged[0]) > MinDuration then [merged[0]] + KeepLong(merged[1..])
    else KeepLong(merged[1..])
  }

  /** The filter keeps the order of what it keeps: it works piecewise. */
  lemma {:induction false} KeepLongAppend(a: seq<Segment>, b: seq<Segment>)
    ensures KeepLong(a + b) == KeepLong(a) + KeepLong(b)
    decreases |a|
  {
    if a == [] {
      assert a + b == b;
    } else {
      assert (a + b)[1..] == a[1..] + b;
      KeepLongAppend(a[1..], b);
    }
  }

  /** One interval is kept exactly when it lasts more than `MinDuration`. */
  lemma KeepLongOne(s: Segment)
    ensures KeepLong([s]) == if Duration(s) > MinDuration then [s] else []
  {
    assert [s][1..] == [];
  }

  /** What the second loop does with one interval: append it when the list is
      empty or the speaker changes, else extend the last interval to its end,
      with no gap test. */
  function CoalesceStep(final: seq<Segment>, seg: Segment): seq<Segment> {
    if final == [] || Last(final).speaker != seg.speaker then final + [seg]
    else final[|final| - 1 := Last(final).(stop := seg.stop)]
  }

  /** No two consecutive entries share a speaker. */
  predicate NoRepeatedSpeaker(segs: seq<Segment>) {
    forall i :: 0 <= i < |segs| - 1 ==> segs[i].speaker != segs[i + 1].speaker
  }

  /** `final_segments` after the second loop has read all of `kept`. */
  function Coalesce(kept: seq<Segment>): (final: seq<Segment>)
    ensures |final| <= |kept|
    ensures NoRepeatedSpeaker(final)
    ensures kept != [] ==> (final != [] && final[0].start == kept[0].start
                            && Last(final).stop == Last(kept).stop
                            && Last(final).speaker == Last(kept).speaker)
  {
    if kept == [] then [] else CoalesceStep(Coalesce(kept[..|kept| - 1]), Last(kept))
  }

  /** Extending the list after its last entry leaves the entries before it
      alone. */
  lemma CoalesceStepAppend(p: seq<Segment>, q: seq<Segment>, seg: Segment)
    requires q != []
    ensures CoalesceStep(p + q, seg) == p + CoalesceStep(q, seg)
  {
    assert Last(p + q) == Last(q);
  }

  /** Coalescing works run by run: where the speaker changes, the two sides
      are coalesced on their own. */
  lemma {:induction false} CoalesceAppend(a: seq<Segment>, b: seq<Segment>)
    requires a != [] && b != [] && Last(a).speaker != b[0].speaker
    ensures Coalesce(a + b) == Coalesce(a) + Coalesce(b)
    decreases |b|
  {
    var n := |b| - 1;
    assert (a + b)[..|a + b| - 1] == a + b[..n];
    assert Last(a + b) == b[n];
    if n == 0 {
      assert Coalesce(b) == [b[0]] by {
        assert b[..0] == [];
      }
    } else {
      CoalesceAppend(a, b[..n]);
      CoalesceStepAppend(Coalesce(a), Coalesce(b[..n]), b[n]);
    }
  }

  /** A run of one speaker becomes one interval, from the start of its first
      entry to the stop of its last. */
  lemma {:induction false} CoalesceRun(run: seq<Segment>)
    requires run != [] && forall i :: 0 <= i < |run| ==> run[i].speaker == run[0].speaker
    ensures Coalesce(run) == [Segment(run[0].start, Last(run).stop, run[0].speaker)]
    decreases |run|
  {
    var n := |run| - 1;
    if n > 0 {
      CoalesceRun(run[..n]);
    } else {
      assert run[..0] == [];
    }
  }

  /** The timeline the source writes for `lines`, or the error that stops it
      before the output file is opened. */
  function Timeline(lines: seq<string>): Result<seq<Segment>, ParseError> {
    match ParseLines(lines)
    case Err(e) => Err(e)
    case Ok(raw) => Ok(Coalesce(KeepLong(Merge(raw))))
  }

  /** The lines of the output file (each is written followed by a newline). */
  function RenderTimeline(t: Result<seq<Segment>, ParseError>): Result<seq<string>, ParseError> {
    match t
    case Err(e) => Err(e)
    case Ok(final) => Ok(seq(|final|, i requires 0 <= i < |final| => RenderLine(final[i])))
  }

  // ---------------------------------------------------------------------------
  // The source's loops

  /** `process_speaker_segments`, with the file contents as `lines`: on success
      the lines it writes, on a malformed line the error it raises (and then
      nothing is written). */
  method ProcessSpeakerSegments(lines: seq<string>) returns (r: Result<seq<string>, ParseError>)
    ensures r == RenderTimeline(Timeline(lines))
  {
    var merged := ReadAndMerge(lines);
    if merged.Err? {
      return Err(merged.error);
    }
    var kept := KeepLong(merged.value);
    var final := CoalesceNeighbours(kept);
    assert Timeline(lines) == Ok(final);
    return Ok(seq(|final|, i requires 0 <= i < |final| => RenderLine(final[i])));
  }

  /** The first loop: reads every line and builds `merged_segments`, or stops
      at the first malformed line. */
  method ReadAndMerge(lines: seq<string>) returns (r: Result<seq<Segment>, ParseError>)
    ensures ParseLines(lines).Err? ==> r == Err(ParseLines(lines).error)
    ensures ParseLines(lines).Ok? ==> r == Ok(Merge(ParseLines(lines).value))
  {
    var merged: seq<Segment> := [];
    ghost var raw: seq<Segment> := [];
    for i := 0 to |lines|
      invariant ParseLines(lines[..i]) == Ok(raw)
      invariant merged == Merge(raw)
    {
      var parsed := ParseLine(lines[i]);
      if parsed.Err? {
        ParseLinesStopsAt(lines, i);
        return Err(ParseError(i, parsed.error));
      }
      var seg := parsed.value;
      merged := AddSegment(merged, seg);
      ParseLinesSnoc(lines, i);
      MergeSnoc(raw, seg);
      raw := raw + [seg];
    }
    assert lines[..|lines|] == lines;
    return Ok(merged);
  }

  /** The body of the first loop for one line already read. */
  method AddSegment(merged: seq<Segment>, seg: Segment) returns (next: seq<Segment>)
    ensures next == MergeStep(merged, seg)
  {
    next := merged;
    if seg.start == seg.stop {
      // the source's `continue`
    } else if next == [] || next[|next| - 1].speaker != seg.speaker {
      next := next + [seg];
    } else if Abs(next[|next| - 1].stop - seg.start) <= MaxGap {
      next := next[|next| - 1 := next[|next| - 1].(stop := seg.stop)];
    } else {
      next := next + [seg];
    }
  }

  lemma ParseLinesSnoc(lines: seq<string>, i: nat)
    requires i < |lines| && ParseLines(lines[..i]).Ok? && ParseLine(lines[i]).Ok?
    ensures ParseLines(lines[..i + 1]) == Ok(ParseLines(lines[..i]).value + [ParseLine(lines[i]).value])
  {
    ReadEachSnoc(ParseLine, lines, i);
  }

  lemma MergeSnoc(raw: seq<Segment>, seg: Segment)
    ensures Merge(raw + [seg]) == MergeStep(Merge(raw), seg)
  {
    assert (raw + [seg])[..|raw|] == raw;
  }

  /** The second loop: builds `final_segments` from the kept intervals. */
  method CoalesceNeighbours(kept: seq<Segment>) returns (final: seq<Segment>)
    ensures final == Coalesce(kept)
  {
    final := [];
    for j := 0 to |kept|
      invariant final == Coalesce(kept[..j])
    {
      assert kept[..j + 1][..j] == kept[..j];
      var seg := kept[j];
      if final == [] || final[|final| - 1].speaker != seg.speaker {
        final := final + [seg];
      } else {
        final := final[|final| - 1 := final[|final| - 1].(stop := seg.stop)];
      }
    }
    assert kept[..|kept|] == kept;
  }

  /** Once a line fails to parse, nothing after it is read. */
  lemma ParseLinesStopsAt(lines: seq<string>, i: nat)
    requires i < |lines| && ParseLines(lines[..i]).Ok? && ParseLine(lines[i]).Err?
    ensures ParseLines(lines) == Err(ParseError(i, ParseLine(lines[i]).error))
  {
    ReadEachStopsAt(ParseLine, lines, i);
  }

  // ---------------------------------------------------------------------------
  // Properties of the first loop

  /** The first loop continued over `more`, from the list `merged`. */
  function MergeOnto(merged: seq<Segment>, more: seq<Segment>): seq<Segment> {
    if more == [] then merged else MergeStep(MergeOnto(merged, more[..|more| - 1]), Last(more))
  }

  /** Reading `a` then `b` is reading `b` from where `a` left the list. */
  lemma {:induction false} MergeAppend(a: seq<Segment>, b: seq<Segment>)
    ensures Merge(a + b) == MergeOnto(Merge(a), b)
    decreases |b|
  {
    if b == [] {
      assert a + b == a;
    } else {
      var n := |b| - 1;
      assert (a + b)[..|a + b| - 1] == a + b[..n];
      MergeAppend(a, b[..n]);
    }
  }

  /** Whether the first loop opens a new interval for `seg` after `merged`:
      the list is empty, the speaker changes, or the boundary gap exceeds
      `MaxGap`. */
  predicate Opens(merged: seq<Segment>, seg: Segment) {
    merged == [] || Last(merged).speaker != seg.speaker || Abs(Last(merged).stop - seg.start) > MaxGap
  }

  /** Extending or appending after the last entry leaves the entries before
      it alone. */
  lemma MergeStepAppend(p: seq<Segment>, q: seq<Segment>, seg: Segment)
    requires q != []
    ensures MergeStep(p + q, seg) == p + MergeStep(q, seg)
  {
    assert Last(p + q) == Last(q);
    var x := Last(q).(stop := seg.stop);
    assert (p + q)[|p + q| - 1 := x] == p + q[|q| - 1 := x];
  }

  /** Once an interval is opened, the list before it is never touched again. */
  lemma {:induction false} MergeOntoBreaks(p: seq<Segment>, b: seq<Segment>)
    requires b != [] && b[0].start != b[0].stop && Opens(p, b[0])
    ensures MergeOnto([], b) != []
    ensures MergeOnto(p, b) == p + MergeOnto([], b)
    decreases |b|
  {
    var n := |b| - 1;
    if n == 0 {
      assert b[..0] == [];
    } else {
      assert b[..n][0] == b[0];
      MergeOntoBreaks(p, b[..n]);
      MergeStepAppend(p, MergeOnto([], b[..n]), b[n]);
    }
  }

  /** Where the first loop opens a new interval, the merge splits: intervals
      on either side are never joined. */
  lemma MergeBreaks(a: seq<Segment>, b: seq<Segment>)
    requires b != [] && b[0].start != b[0].stop && Opens(Merge(a), b[0])
    ensures Merge(a + b) == Merge(a) + Merge(b)
  {
    MergeAppend(a, b);
    MergeAppend([], b);
    assert [] + b == b;
    MergeOntoBreaks(Merge(a), b);
  }

  /** A chain of non-degenerate intervals of one speaker, each starting within
      `MaxGap` of the previous stop, merges into one interval from the first
      start to the last stop. */
  lemma {:induction false} MergeChain(run: seq<Segment>)
    requires run != []
    requires forall i :: 0 <= i < |run| ==> run[i].speaker == run[0].speaker && run[i].start != run[i].stop
    requires forall i :: 0 < i < |run| ==> Abs(run[i - 1].stop - run[i].start) <= MaxGap
    ensures Merge(run) == [Segment(run[0].start, Last(run).stop, run[0].speaker)]
    decreases |run|
  {
    var n := |run| - 1;
    if n == 0 {
      assert run[..0] == [];
    } else {
      assert run[..n][0] == run[0] && Last(run[..n]) == run[n - 1];
      MergeChain(run[..n]);
    }
  }

  /** A zero-length interval is skipped entirely: it neither opens an interval
      nor breaks a same-speaker merge chain around it. */
  lemma MergeSkipsZeroLength(a: seq<Segment>, z: Segment, b: seq<Segment>)
    requires z.start == z.stop
    ensures Merge(a + [z] + b) == Merge(a + b)
  {
    MergeAppend(a + [z], b);
    MergeAppend(a, b);
    assert (a + [z])[..|a|] == a;
  }

  /** Every merged interval starts where a non-degenerate input interval of
      the same speaker starts, and ends where some input interval stops. */
  predicate MadeOfInput(merged: seq<Segment>, raw: seq<Segment>) {
    forall k :: 0 <= k < |merged| ==>
      (exists j :: 0 <= j < |raw| && raw[j].start == merged[k].start
                   && raw[j].speaker == merged[k].speaker && raw[j].start != raw[j].stop)
      && (exists j :: 0 <= j < |raw| && raw[j].stop == merged[k].stop)
  }

  lemma {:induction false} MergeMadeOfInput(raw: seq<Segment>)
    ensures MadeOfInput(Merge(raw), raw)
  {
    if raw != [] {
      var n := |raw| - 1;
      var prev, seg := Merge(raw[..n]), raw[n];
      MergeMadeOfInput(raw[..n]);
      var merged := Merge(raw);
      forall k | 0 <= k < |merged|
        ensures exists j :: 0 <= j < |raw| && raw[j].start == merged[k].start
                  && raw[j].speaker == merged[k].speaker && raw[j].start != raw[j].stop
        ensures exists j :: 0 <= j < |raw| && raw[j].stop == merged[k].stop
      {
        if k < |prev| && merged[k].start == prev[k].start && merged[k].speaker == prev[k].speaker {
          var j :| 0 <= j < n && raw[..n][j].start == prev[k].start
                   && raw[..n][j].speaker == prev[k].speaker && raw[..n][j].start != raw[..n][j].stop;
          assert raw[j] == raw[..n][j];
        } else {
          assert raw[n].start == merged[k].start && raw[n].speaker == merged[k].speaker;
        }
        if k < |prev| && merged[k].stop == prev[k].stop {
          var j :| 0 <= j < n && raw[..n][j].stop == prev[k].stop;
          assert raw[j] == raw[..n][j];
        } else {
          assert raw[n].stop == merged[k].stop;
        }
      }
    }
  }

  /** The input intervals arrive with non-decreasing stop times. */
  predicate StopsAscending(segs: seq<Segment>) {
    forall i, j :: 0 <= i < j < |segs| ==> segs[i].stop <= segs[j].stop
  }

  /** No merged interval ends after the latest input stop. */
  lemma {:induction false} MergeStopsBelow(raw: seq<Segment>, bound: real)
    requires forall j :: 0 <= j < |raw| ==> raw[j].stop <= bound
    ensures forall k :: 0 <= k < |Merge(raw)| ==> Merge(raw)[k].stop <= bound
  {
    if raw != [] {
      var n := |raw| - 1;
      assert forall j :: 0 <= j < n ==> raw[..n][j] == raw[j];
      MergeStopsBelow(raw[..n], bound);
      MergeStepStopsBelow(Merge(raw[..n]), raw[n], bound);
    }
  }

  /** One step of the first loop only writes the stop of the interval read. */
  lemma MergeStepStopsBelow(merged: seq<Segment>, seg: Segment, bound: real)
    requires forall k :: 0 <= k < |merged| ==> merged[k].stop <= bound
    requires seg.stop <= bound
    ensures forall k :: 0 <= k < |MergeStep(merged, seg)| ==> MergeStep(merged, seg)[k].stop <= bound
  {
  }

  lemma MergeStepKeepsStopOrder(merged: seq<Segment>, seg: Segment)
    requires StopsAscending(merged)
    requires forall k :: 0 <= k < |merged| ==> merged[k].stop <= seg.stop
    ensures StopsAscending(MergeStep(merged, seg))
  {
  }

  /** When the input stops are in order, so are the merged stops. */
  lemma {:induction false} MergeKeepsStopOrder(raw: seq<Segment>)
    requires StopsAscending(raw)
    ensures StopsAscending(Merge(raw))
  {
    if raw != [] {
      var n := |raw| - 1;
      assert StopsAscending(raw[..n]);
      MergeKeepsStopOrder(raw[..n]);
      MergeStopsBelow(raw[..n], raw[n].stop);
      MergeStepKeepsStopOrder(Merge(raw[..n]), raw[n]);
    }
  }

  /** The input intervals arrive with non-decreasing start times, as a
      diarizer lists its turns. */
  predicate StartsAscending(segs: seq<Segment>) {
    forall i, j :: 0 <= i < j < |segs| ==> segs[i].start <= segs[j].start
  }

  /** No merged interval starts after the latest input start. */
  lemma {:induction false} MergeStartsBelow(raw: seq<Segment>, bound: real)
    requires forall j :: 0 <= j < |raw| ==> raw[j].start <= bound
    ensures forall k :: 0 <= k < |Merge(raw)| ==> Merge(raw)[k].start <= bound
  {
    if raw != [] {
      var n := |raw| - 1;
      assert forall j :: 0 <= j < n ==> raw[..n][j] == raw[j];
      MergeStartsBelow(raw[..n], bound);
      MergeStepStartsBelow(Merge(raw[..n]), raw[n], bound);
    }
  }

  lemma MergeStepStartsBelow(merged: seq<Segment>, seg: Segment, bound: real)
    requires forall k :: 0 <= k < |merged| ==> merged[k].start <= bound
    requires seg.start <= bound
    ensures forall k :: 0 <= k < |MergeStep(merged, seg)| ==> MergeStep(merged, seg)[k].start <= bound
  {
  }

  lemma MergeStepKeepsStartOrder(merged: seq<Segment>, seg: Segment)
    requires StartsAscending(merged)
    requires forall k :: 0 <= k < |merged| ==> merged[k].start <= seg.start
    ensures StartsAscending(MergeStep(merged, seg))
  {
  }

  /** When the input starts are in order, so are the merged starts. */
  lemma {:induction false} MergeKeepsStartOrder(raw: seq<Segment>)
    requires StartsAscending(raw)
    ensures StartsAscending(Merge(raw))
  {
    if raw != [] {
      var n := |raw| - 1;
      var prev := Merge(raw[..n]);
      assert StartsAscending(raw[..n]);
      MergeKeepsStartOrder(raw[..n]);
      MergeStartsBelow(raw[..n], raw[n].start);
      MergeStepKeepsStartOrder(prev, raw[n]);
    }
  }

  // ---------------------------------------------------------------------------
  // Properties of stage 3

  lemma {:induction false} KeepLongKeepsStopOrder(merged: seq<Segment>)
    requires StopsAscending(merged)
    ensures StopsAscending(KeepLong(merged))
    decreases |merged|
  {
    if merged != [] {
      var rest := KeepLong(merged[1..]);
      KeepLongKeepsStopOrder(merged[1..]);
      if Duration(merged[0]) > MinDuration {
        forall k | 0 <= k < |rest|
          ensures merged[0].stop <= rest[k].stop
        {
          assert rest[k] in merged[1..];
          var j :| 0 <= j < |merged[1..]| && merged[1..][j] == rest[k];
          assert merged[j + 1] == rest[k];
        }
        ConsAscending(merged[0], rest);
      }
    }
  }

  lemma ConsAscending(x: Segment, rest: seq<Segment>)
    requires StopsAscending(rest)
    requires forall k :: 0 <= k < |rest| ==> x.stop <= rest[k].stop
    ensures StopsAscending([x] + rest)
  {
    var l := [x] + rest;
    forall i, j | 0 <= i < j < |l|
      ensures l[i].stop <= l[j].stop
    {
      assert l[j] == rest[j - 1];
      if i > 0 {
        assert l[i] == rest[i - 1];
      }
    }
  }

  lemma {:induction false} KeepLongKeepsStartOrder(merged: seq<Segment>)
    requires StartsAscending(merged)
    ensures StartsAscending(KeepLong(merged))
    decreases |merged|
  {
    if merged != [] {
      var rest := KeepLong(merged[1..]);
      KeepLongKeepsStartOrder(merged[1..]);
      if Duration(merged[0]) > MinDuration {
        forall k | 0 <= k < |rest|
          ensures merged[0].start <= rest[k].start
        {
          assert rest[k] in merged[1..];
          var j :| 0 <= j < |merged[1..]| && merged[1..][j] == rest[k];
          assert merged[j + 1] == rest[k];
        }
        ConsStartsAscending(merged[0], rest);
      }
    }
  }

  lemma ConsStartsAscending(x: Segment, rest: seq<Segment>)
    requires StartsAscending(rest)
    requires forall k :: 0 <= k < |rest| ==> x.start <= rest[k].start
    ensures StartsAscending([x] + rest)
  {
    var l := [x] + rest;
    forall i, j | 0 <= i < j < |l|
      ensures l[i].start <= l[j].start
    {
      assert l[j] == rest[j - 1];
      if i > 0 {
        assert l[i] == rest[i - 1];
      }
    }
  }

  predicate AllLong(segs: seq<Segment>) {
    forall i :: 0 <= i < |segs| ==> Duration(segs[i]) > MinDuration
  }

  /** With stops in order, coalescing only lengthens intervals, so every
      coalesced interval still lasts more than `MinDuration`. */
  lemma {:induction false} CoalesceKeepsLong(kept: seq<Segment>)
    requires StopsAscending(kept) && AllLong(kept)
    ensures AllLong(Coalesce(kept))
  {
    if kept != [] {
      var n := |kept| - 1;
      assert StopsAscending(kept[..n]) && AllLong(kept[..n]);
      CoalesceKeepsLong(kept[..n]);
      var prev := Coalesce(kept[..n]);
      if prev != [] && Last(prev).speaker == kept[n].speaker {
        assert Last(prev).stop == kept[n - 1].stop;
        assert kept[n - 1].stop <= kept[n].stop;
      }
    }
  }

  lemma CoalesceStepKeepsStopOrder(prev: seq<Segment>, seg: Segment)
    requires StopsAscending(prev)
    requires forall k :: 0 <= k < |prev| ==> prev[k].stop <= seg.stop
    ensures StopsAscending(CoalesceStep(prev, seg))
  {
  }

  /** When the kept stops are in order, so are the coalesced stops: each one is
      the stop of the last interval of its run. */
  lemma {:induction false} CoalesceKeepsStopOrder(kept: seq<Segment>)
    requires StopsAscending(kept)
    ensures StopsAscending(Coalesce(kept))
  {
    if kept != [] {
      var n := |kept| - 1;
      var prev := Coalesce(kept[..n]);
      assert StopsAscending(kept[..n]);
      CoalesceKeepsStopOrder(kept[..n]);
      if prev != [] {
        assert Last(prev).stop == kept[n - 1].stop <= kept[n].stop;
        assert forall k :: 0 <= k < |prev| ==> prev[k].stop <= Last(prev).stop;
      }
      CoalesceStepKeepsStopOrder(prev, kept[n]);
    }
  }

  lemma CoalesceStepKeepsStartOrder(prev: seq<Segment>, seg: Segment)
    requires StartsAscending(prev)
    requires forall k :: 0 <= k < |prev| ==> prev[k].start <= seg.start
    ensures StartsAscending(CoalesceStep(prev, seg))
    ensures Last(CoalesceStep(prev, seg)).start <= seg.start
  {
  }

  /** When the kept starts are in order, so are the coalesced starts, and the
      last one is no later than the last kept start. */
  lemma {:induction false} CoalesceKeepsStartOrder(kept: seq<Segment>)
    requires StartsAscending(kept)
    ensures StartsAscending(Coalesce(kept))
    ensures kept != [] ==> Last(Coalesce(kept)).start <= Last(kept).start
  {
    if kept != [] {
      var n := |kept| - 1;
      var prev := Coalesce(kept[..n]);
      assert StartsAscending(kept[..n]);
      CoalesceKeepsStartOrder(kept[..n]);
      if prev != [] {
        assert Last(prev).start <= kept[n - 1].start <= kept[n].start;
        assert forall k :: 0 <= k < |prev| ==> prev[k].start <= Last(prev).start;
      }
      CoalesceStepKeepsStartOrder(prev, kept[n]);
    }
  }

  /** With starts in order, a coalesced run lasts from its first start to its
      last stop, which is at least as long as its last interval, so every
      coalesced interval still lasts more than `MinDuration`. */
  lemma {:induction false} CoalesceKeepsLongByStarts(kept: seq<Segment>)
    requires StartsAscending(kept) && AllLong(kept)
    ensures AllLong(Coalesce(kept))
  {
    if kept != [] {
      var n := |kept| - 1;
      assert StartsAscending(kept[..n]) && AllLong(kept[..n]);
      CoalesceKeepsLongByStarts(kept[..n]);
      var prev := Coalesce(kept[..n]);
      if prev != [] && Last(prev).speaker == kept[n].speaker {
        CoalesceKeepsStartOrder(kept[..n]);
        assert Last(prev).start <= kept[n - 1].start <= kept[n].start;
        assert Duration(kept[n]) > MinDuration;
      }
    }
  }

  /** Without any order on the input, coalescing can produce an interval that
      ends before it starts. */
  lemma CoalesceUnordered()
    ensures Coalesce([Segment(5.0, 7.0, "A"), Segment(0.0, 2.0, "A")]) == [Segment(5.0, 2.0, "A")]
  {
    var run := [Segment(5.0, 7.0, "A"), Segment(0.0, 2.0, "A")];
    CoalesceRun(run);
  }

  /** The speaker labels, in order. */
  function Speakers(segs: seq<Segment>): (r: seq<string>)
    ensures |r| == |segs|
  {
    seq(|segs|, i requires 0 <= i < |segs| => segs[i].speaker)
  }

  /** A head sequence with each run of equal neighbours reduced to one head. */
  function Collapse(labels: seq<string>): seq<string>
    decreases |labels|
  {
    if |labels| <= 1 then labels
    else if labels[0] == labels[1] then Collapse(labels[1..])
    else [labels[0]] + Collapse(labels[1..])
  }

  lemma {:induction false} CollapseFirst(labels: seq<string>)
    requires labels != []
    ensures Collapse(labels) != [] && Collapse(labels)[0] == labels[0]
    decreases |labels|
  {
    if |labels| > 1 && labels[0] == labels[1] {
      CollapseFirst(labels[1..]);
    }
  }

  lemma {:induction false} CollapseSnoc(labels: seq<string>, x: string)
    requires labels != []
    ensures Collapse(labels + [x])
         == if labels[|labels| - 1] == x then Collapse(labels) else Collapse(labels) + [x]
    decreases |labels|
  {
    var l := labels + [x];
    if |labels| == 1 {
      assert l[1..] == [x];
    } else {
      assert l[1..] == labels[1..] + [x];
      CollapseSnoc(labels[1..], x);
      CollapseFirst(labels[1..]);
    }
  }

  lemma {:induction false} CollapseLast(labels: seq<string>)
    requires labels != []
    ensures Collapse(labels) != [] && Collapse(labels)[|Collapse(labels)| - 1] == labels[|labels| - 1]
    decreases |labels|
  {
    if |labels| > 1 {
      CollapseLast(labels[1..]);
    }
  }

  /** Coalescing reduces each run of same-speaker intervals to one interval:
      the speakers left are the input's speakers with runs collapsed. */
  lemma {:induction false} CoalesceCollapsesSpeakers(kept: seq<Segment>)
    ensures Speakers(Coalesce(kept)) == Collapse(Speakers(kept))
  {
    if kept != [] {
      var n := |kept| - 1;
      CoalesceCollapsesSpeakers(kept[..n]);
      var prev := Coalesce(kept[..n]);
      assert Speakers(kept) == Speakers(kept[..n]) + [kept[n].speaker];
      if n == 0 {
        assert Speakers(kept) == [kept[0].speaker];
      } else {
        CollapseSnoc(Speakers(kept[..n]), kept[n].speaker);
        SpeakersCoalesceStep(prev, kept[n]);
      }
    }
  }

  /** One step of the second loop either adds the interval's speaker or
      leaves the speakers as they were. */
  lemma SpeakersCoalesceStep(prev: seq<Segment>, seg: Segment)
    requires prev != []
    ensures Speakers(CoalesceStep(prev, seg))
         == if Last(prev).speaker == seg.speaker then Speakers(prev) else Speakers(prev) + [seg.speaker]
  {
  }

  /** A list without repeated neighbours is left as it is. */
  lemma {:induction false} CoalesceNoRepeats(kept: seq<Segment>)
    requires NoRepeatedSpeaker(kept)
    ensures Coalesce(kept) == kept
  {
    if kept != [] {
      var n := |kept| - 1;
      CoalesceNoRepeats(kept[..n]);
      assert kept[..n] + [kept[n]] == kept;
    }
  }

  lemma CoalesceIdempotent(kept: seq<Segment>)
    ensures Coalesce(Coalesce(kept)) == Coalesce(kept)
  {
    CoalesceNoRepeats(Coalesce(kept));
  }

  // ---------------------------------------------------------------------------
  // The whole timeline

  /** What the written timeline guarantees: no two consecutive entries share a
      speaker; the order of the input's starts and of its stops is kept; and,
      when either is in order, every entry lasts more than `MinDuration`. */
  lemma TimelineGuarantees(lines: seq<string>)
    requires Timeline(lines).Ok?
    ensures NoRepeatedSpeaker(Timeline(lines).value)
    ensures StartsAscending(ParseLines(lines).value) ==>
      StartsAscending(Timeline(lines).value) && AllLong(Timeline(lines).value)
    ensures StopsAscending(ParseLines(lines).value) ==>
      StopsAscending(Timeline(lines).value) && AllLong(Timeline(lines).value)
  {
    var raw := ParseLines(lines).value;
    var kept := KeepLong(Merge(raw));
    KeptAreLong(Merge(raw));
    if StartsAscending(raw) {
      MergeKeepsStartOrder(raw);
      KeepLongKeepsStartOrder(Merge(raw));
      CoalesceKeepsStartOrder(kept);
      CoalesceKeepsLongByStarts(kept);
    }
    if StopsAscending(raw) {
      MergeKeepsStopOrder(raw);
      KeepLongKeepsStopOrder(Merge(raw));
      CoalesceKeepsStopOrder(kept);
      CoalesceKeepsLong(kept);
    }
  }

  lemma KeptAreLong(merged: seq<Segment>)
    ensures AllLong(KeepLong(merged))
  {
    var kept := KeepLong(merged);
    forall i | 0 <= i < |kept|
      ensures Duration(kept[i]) > MinDuration
    {
      assert kept[i] in kept;
    }
  }

  /** A blank line, or one without a speaker, aborts the run at that line. */
  lemma MissingFieldAborts(lines: seq<string>, i: nat)
    requires i < |lines| && |Words(lines[i])| < 3
    requires forall k :: 0 <= k < i ==> ParseLine(lines[k]).Ok?
    ensures Timeline(lines).Err? && Timeline(lines).error.line == i
  {
    if ParseLines(lines).Ok? {
      assert false;
    }
  }

  // ---------------------------------------------------------------------------
  // Writing and reading back

  /** A speaker head as the line format can carry it: one token. */
  predicate IsToken(s: string) {
    s != [] && NoSpace(s)
  }

  /** A number as `FormatFixed` writes it holds neither '=' nor whitespace. */
  predicate IsNumeral(a: string) {
    forall i :: 0 <= i < |a| ==> NumeralChar(a[i])
  }

  /** A time field head such as `start=`: one '=', at its end. */
  predicate IsFieldHead(head: string) {
    head != [] && head[|head| - 1] == '=' && '=' !in head[..|head| - 1] && NoSpace(head)
  }

  lemma FieldHeads()
    ensures IsFieldHead("start=") && IsFieldHead("stop=")
  {
  }

  lemma TimeTokenRoundTrip(head: string, x: real)
    requires HasPlaces(x, 1) && IsFieldHead(head)
    ensures ParseTime(head + FormatFixed(x, 1) + "s") == Ok(x)
  {
    var a := FormatFixed(x, 1);
    FormatFixedChars(x, 1);
    TimeTokenFields(head, a);
    FormatFixedRoundTrip(x, 1);
    assert (a + "s")[..|a + "s"| - 1] == a;
  }

  /** The text after '=' in a time token, less its unit, is the number. */
  lemma TimeTokenFields(head: string, a: string)
    requires IsNumeral(a) && IsFieldHead(head)
    ensures Split(head + a + "s", '=') == [head[..|head| - 1], a + "s"]
  {
    assert '=' !in a + "s" by {
      forall i | 0 <= i < |a + "s"|
        ensures (a + "s")[i] != '='
      {
        if i < |a| {
          assert NumeralChar(a[i]);
        }
      }
    }
    var key := head[..|head| - 1];
    SplitAfterPiece(key, '=', a + "s");
    SplitNoSep(a + "s", '=');
    assert head + a + "s" == key + ['='] + (a + "s");
  }

  lemma TimeTokenIsWord(head: string, a: string)
    requires IsFieldHead(head) && IsNumeral(a)
    ensures IsToken(head + a + "s")
  {
    var t := head + a + "s";
    forall i | 0 <= i < |t|
      ensures !IsSpace(t[i])
    {
      if |head| <= i < |head| + |a| {
        assert t[i] == a[i - |head|];
        assert NumeralChar(a[i - |head|]);
      } else if i < |head| {
        assert t[i] == head[i];
      }
    }
  }

  /** A written line reads back as the interval it was written from, when
      the times have at most one decimal (as the diarization writer emits
      them) and the speaker is one token. */
  lemma RenderLineRoundTrip(seg: Segment)
    requires HasPlaces(seg.start, 1) && HasPlaces(seg.stop, 1) && IsToken(seg.speaker)
    ensures ParseLine(RenderLine(seg)) == Ok(seg)
  {
    var t1, t2 := "start=" + FormatFixed(seg.start, 1) + "s", "stop=" + FormatFixed(seg.stop, 1) + "s";
    RenderLineTokens(seg);
    FieldHeads();
    TimeTokenRoundTrip("start=", seg.start);
    TimeTokenRoundTrip("stop=", seg.stop);
    ParseLineOfTokens(RenderLine(seg), t1, t2, seg);
  }

  lemma RenderLineTokens(seg: Segment)
    requires IsToken(seg.speaker)
    ensures Words(RenderLine(seg))
         == ["start=" + FormatFixed(seg.start, 1) + "s", "stop=" + FormatFixed(seg.stop, 1) + "s", seg.speaker]
  {
    FormatFixedChars(seg.start, 1);
    FormatFixedChars(seg.stop, 1);
    RenderLineWords(FormatFixed(seg.start, 1), FormatFixed(seg.stop, 1), seg.speaker);
  }

  lemma ParseLineOfTokens(line: string, t1: string, t2: string, seg: Segment)
    requires Words(line) == [t1, t2, seg.speaker]
    requires ParseTime(t1) == Ok(seg.start) && ParseTime(t2) == Ok(seg.stop)
    ensures ParseLine(line) == Ok(seg)
  {
  }

  /** A written line has exactly three tokens: the two times and the speaker. */
  lemma RenderLineWords(a: string, b: string, speaker: string)
    requires IsNumeral(a) && IsNumeral(b) && IsToken(speaker)
    ensures Words("start=" + a + "s stop=" + b + "s " + speaker)
         == ["start=" + a + "s", "stop=" + b + "s", speaker]
  {
    var t1 := "start=" + a + "s";
    var t2 := "stop=" + b + "s";
    assert "start=" + a + "s stop=" + b + "s " + speaker == t1 + " " + (t2 + " " + speaker);
    FieldHeads();
    TimeTokenIsWord("start=", a);
    TimeTokenIsWord("stop=", b);
    ThreeWords(t1, t2, speaker);
  }

  lemma ThreeWords(t1: string, t2: string, t3: string)
    requires IsToken(t1) && IsToken(t2) && IsToken(t3)
    ensures Words(t1 + " " + (t2 + " " + t3)) == [t1, t2, t3]
  {
    WordsCons(t1, t2 + " " + t3);
    WordsCons(t2, t3);
    WordsSingle(t3);
  }

  // ---------------------------------------------------------------------------
  // Worked examples

  /** A(0,2), A(2.05,4), B(4,4.3), A(4.3,6): the first two merge (gap 0.05),
      B is dropped as too short, and the two A intervals left coalesce. */
  lemma WorkedExample()
    ensures Coalesce(KeepLong(Merge([Segment(0.0, 2.0, "A"), Segment(2.05, 4.0, "A"),
                                     Segment(4.0, 4.3, "B"), Segment(4.3, 6.0, "A")])))
         == [Segment(0.0, 6.0, "A")]
  {
    WorkedExampleSteps(Segment(0.0, 2.0, "A"), Segment(2.05, 4.0, "A"),
                       Segment(4.0, 4.3, "B"), Segment(4.3, 6.0, "A"));
  }

  /** The worked example, one loop step at a time. */
  lemma WorkedExampleSteps(a: Segment, b: Segment, c: Segment, d: Segment)
    requires a == Segment(0.0, 2.0, "A") && b == Segment(2.05, 4.0, "A")
    requires c == Segment(4.0, 4.3, "B") && d == Segment(4.3, 6.0, "A")
    ensures Coalesce(KeepLong(Merge([a, b, c, d]))) == [Segment(0.0, 6.0, "A")]
  {
    var ab := Segment(0.0, 4.0, "A");
    WorkedExampleMerge(a, b, c, d, ab);
    WorkedExampleKeep(ab, c, d);
    WorkedExampleCoalesce(ab, d);
  }

  /** The first two intervals are 0.05 apart and merge; B starts a new one. */
  lemma WorkedExampleMerge(a: Segment, b: Segment, c: Segment, d: Segment, ab: Segment)
    requires a == Segment(0.0, 2.0, "A") && b == Segment(2.05, 4.0, "A")
    requires c == Segment(4.0, 4.3, "B") && d == Segment(4.3, 6.0, "A")
    requires ab == Segment(0.0, 4.0, "A")
    ensures Merge([a, b, c, d]) == [ab, c, d]
  {
    WorkedExampleMergeThree(a, b, c, ab);
    MergeSnocAppends([a, b, c], d, [ab, c]);
    SnocLiteral(a, b, c, d);
    SnocLiteral(ab, c, d, d);
  }

  lemma WorkedExampleMergeThree(a: Segment, b: Segment, c: Segment, ab: Segment)
    requires a == Segment(0.0, 2.0, "A") && b == Segment(2.05, 4.0, "A")
    requires c == Segment(4.0, 4.3, "B") && ab == Segment(0.0, 4.0, "A")
    ensures Merge([a, b, c]) == [ab, c]
  {
    WorkedExampleMergeTwo(a, b, ab);
    MergeSnoc([a, b], c);
    assert [a, b] + [c] == [a, b, c];
    MergeStepAppends([ab], c);
  }

  lemma WorkedExampleMergeTwo(a: Segment, b: Segment, ab: Segment)
    requires a == Segment(0.0, 2.0, "A") && b == Segment(2.05, 4.0, "A")
    requires ab == Segment(0.0, 4.0, "A")
    ensures Merge([a, b]) == [ab]
  {
    MergeSnoc([], a);
    assert [] + [a] == [a];
    MergeSnoc([a], b);
    assert [a] + [b] == [a, b];
  }

  lemma SnocLiteral<T>(x: T, y: T, z: T, w: T)
    ensures [x, y] + [z] == [x, y, z] && [x, y, z] + [w] == [x, y, z, w]
  {
  }

  lemma ConsLiteral<T>(x: T, y: T, z: T)
    ensures [x] + [y, z] == [x, y, z] && [y] + [z] == [y, z] && [z] + [] == [z]
  {
  }

  /** An interval of another speaker is appended as it is. */
  lemma MergeStepAppends(merged: seq<Segment>, seg: Segment)
    requires merged != [] && Last(merged).speaker != seg.speaker && seg.start != seg.stop
    ensures MergeStep(merged, seg) == merged + [seg]
  {
  }

  lemma MergeSnocAppends(raw: seq<Segment>, seg: Segment, merged: seq<Segment>)
    requires Merge(raw) == merged
    requires merged != [] && Last(merged).speaker != seg.speaker && seg.start != seg.stop
    ensures Merge(raw + [seg]) == merged + [seg]
  {
    MergeSnoc(raw, seg);
    MergeStepAppends(merged, seg);
  }

  /** The 0.3-second B interval is dropped. */
  lemma WorkedExampleKeep(ab: Segment, c: Segment, d: Segment)
    requires ab == Segment(0.0, 4.0, "A") && c == Segment(4.0, 4.3, "B")
    requires d == Segment(4.3, 6.0, "A")
    ensures KeepLong([ab, c, d]) == [ab, d]
  {
    KeepLongCons(ab, [c, d]);
    KeepLongCons(c, [d]);
    KeepLongCons(d, []);
    ConsLiteral(ab, c, d);
  }

  lemma KeepLongCons(s: Segment, rest: seq<Segment>)
    ensures KeepLong([s] + rest) == (if Duration(s) > MinDuration then [s] else []) + KeepLong(rest)
  {
    assert ([s] + rest)[1..] == rest;
  }

  /** The two A intervals coalesce across the 0.3-second hole. */
  lemma WorkedExampleCoalesce(ab: Segment, d: Segment)
    requires ab == Segment(0.0, 4.0, "A") && d == Segment(4.3, 6.0, "A")
    ensures Coalesce([ab, d]) == [Segment(0.0, 6.0, "A")]
  {
    CoalesceRun([ab, d]);
    assert Last([ab, d]) == d;
  }

  /** A gap of exactly 0.1 is bridged; 0.101 is not. Neither is an overlap of
      more than 0.1, since the test is on the absolute difference. */
  lemma GapThreshold()
    ensures Merge([Segment(0.0, 1.0, "A"), Segment(1.1, 3.0, "A")]) == [Segment(0.0, 3.0, "A")]
    ensures Merge([Segment(0.0, 1.0, "A"), Segment(1.101, 3.0, "A")])
         == [Segment(0.0, 1.0, "A"), Segment(1.101, 3.0, "A")]
    ensures Merge([Segment(0.0, 5.0, "A"), Segment(4.8, 6.0, "A")])
         == [Segment(0.0, 5.0, "A"), Segment(4.8, 6.0, "A")]
  {
    var a := [Segment(0.0, 1.0, "A"), Segment(1.1, 3.0, "A")];
    assert a[..1] == [a[0]];
    var b := [Segment(0.0, 1.0, "A"), Segment(1.101, 3.0, "A")];
    assert b[..1] == [b[0]];
    var c := [Segment(0.0, 5.0, "A"), Segment(4.8, 6.0, "A")];
    assert c[..1] == [c[0]];
  }
}
