# Interview-analysis post-processing, modelled in Dafny

This project models the deterministic core of an interview-analysis pipeline.
The pipeline diarizes recorded interviews, recognises their speech and cleans
up the transcripts. The model covers five parts of it:

- **Speaker timeline** (`utils/postprocessing.py`). `process_speaker_segments`
  reads `start=<t>s stop=<t>s <speaker>` lines, skips zero-length intervals and
  merges same-speaker neighbours whose boundary gap is at most 0.1 s. It drops
  intervals of 1 s or less, coalesces same-speaker neighbours again and writes
  the timeline with one decimal. `convert_seconds_to_timestamp` and
  `convert_diarization_file` render that timeline as
  `HH:MM:SS,mmm - HH:MM:SS,mmm - speaker_SPEAKER_<n>` lines. The modules are
  `SpeakerTimeline` and `Timestamps`.
- **WAV decoding** (`wav_io/wav_io.py`). This covers the byte-to-sample mapping
  of `_read_and_decode`, the stereo split, and the fast-path test of
  `load_sound`. It also covers the checks of `transform_to_wavpcm` and the
  order in which they raise. The module is `WavIo`.
- **Recognition results** (`speech_recognition_validation/extract_final_texts.py`).
  `process_file` picks the refined alternative or falls back to the final one,
  dedupes by `end_time_ms` (refined entries win), sorts by `int(time_ms)` and
  derives the output name. The module is `RecognitionResults`.
- **`time_to_str`** (`utils/utils.py`). The module is `TimeFormat`.
- **Transcript clean-up** (`postprocessing.py`). This covers `clean_text`, the
  paragraph filter of `process_docx` and the suffix dispatch of
  `process_transcription_file`. The module is `Transcripts`. The same
  functions appear again, line for line, at the top of `utils/postprocessing.py`
  (lines 5-46); they are modelled once.

Supporting modules:

- `Strings` holds the Python `str` operations the scripts use: `strip`,
  `split(sep)`, `split()`, `join`, `endswith`, `rfind` and `replace`.
- `Numerals` holds digit strings, `str(int)`, zero padding, `float()` of a
  decimal literal and fixed-point formatting (`:.1f`, `:.3f`).
- `Wrappers` holds `Option` and `Result`.

Times are exact `real`s. A Python float that the pipeline writes with one
decimal is a real with at most one decimal place (`HasPlaces(x, 1)`). Fixed-point
formatting rounds the exact value half to even. Raised exceptions are `Err`
values. File contents are parameters: a file is its list of lines, a document
its paragraphs, and a WAV file its header fields and data bytes. The file system
and the audio converter are a `Disk` value of functions.

The code merges the first two `A`s of `A(0,2), A(2.05,4), B(4,4.3), A(4.3,6)`
(gap 0.05), drops `B` (0.3 s), and then coalesces the remaining `A(0,4)` and
`A(4.3,6)` with no gap test. A single `(0.0, 6.0, A)` comes out; see
`SpeakerTimeline.WorkedExample`.

## Model

| member | source | states |
|---|---|---|
| SpeakerTimeline.ParseLines | utils/postprocessing.py:54-58 | The read succeeds iff every line parses. It then yields one segment per line, each that line's parse. On failure it names the first failing line and its fault (`IndexError` or `ValueError`), and every earlier line parses. |
| SpeakerTimeline.ParseLinesStopsAt | utils/postprocessing.py:54-58 | A malformed line aborts the whole read with that line's index and fault, whatever follows it. |
| SpeakerTimeline.MissingFieldAborts | utils/postprocessing.py:55-58 | A line with fewer than three tokens (a blank line included) makes the run fail at that line, before anything is written. |
| SpeakerTimeline.ParseLine | utils/postprocessing.py:55-58 | A line of fewer than three tokens fails. A parsed line has the times that `float` reads from its first two tokens and its third token as speaker. A `ValueError` comes from the first bad time token. |
| SpeakerTimeline.Merge | utils/postprocessing.py:60-72 | Merging never adds intervals. In the result, same-speaker neighbours are more than 0.1 apart at their boundary, on either side. |
| SpeakerTimeline.MergeStep | utils/postprocessing.py:60-72 | A zero-length interval leaves the list as it is. Otherwise at most one interval is added, everything before the last interval is kept, and the list ends with the new speaker and the new stop. |
| SpeakerTimeline.MergeSnoc | utils/postprocessing.py:54-72 | The merge of one more line is one `MergeStep` on the previous merge. |
| SpeakerTimeline.MergeAppend | utils/postprocessing.py:54-72 | Merging `a + b` is merging `b` onto the merge of `a`. |
| SpeakerTimeline.MergeSkipsZeroLength | utils/postprocessing.py:60-62 | A zero-length interval anywhere in the input changes nothing. It neither opens an interval nor breaks a same-speaker chain. |
| SpeakerTimeline.GapThreshold | utils/postprocessing.py:69-72 | A gap of exactly 0.1 merges and a gap of 0.101 does not. An overlap of 0.2 also splits, because the test is on the absolute difference. |
| SpeakerTimeline.MergeBreaks | utils/postprocessing.py:64-72 | Where the loop opens a new interval (empty list, another speaker, or a boundary more than 0.1 off on either side), the merge splits: merging `a + b` is merging `a`, then `b` on its own. |
| SpeakerTimeline.MergeChain | utils/postprocessing.py:64-72 | Non-degenerate intervals of one speaker, each starting within 0.1 of the previous stop, merge into one interval from the first start to the last stop. |
| SpeakerTimeline.MergeMadeOfInput | utils/postprocessing.py:64-72 | Every merged interval starts where a non-degenerate input interval of the same speaker starts. It ends where some input interval stops. |
| SpeakerTimeline.MergeStopsBelow | utils/postprocessing.py:64-72 | No merged interval ends after the latest input stop. |
| SpeakerTimeline.MergeStepKeepsStopOrder | utils/postprocessing.py:64-72 | One merge step keeps stop times non-decreasing when the new stop is the latest. |
| SpeakerTimeline.MergeKeepsStopOrder | utils/postprocessing.py:64-72 | Input with non-decreasing stops merges into intervals with non-decreasing stops. |
| SpeakerTimeline.MergeStartsBelow | utils/postprocessing.py:64-72 | No merged interval starts after the latest input start. |
| SpeakerTimeline.MergeKeepsStartOrder | utils/postprocessing.py:64-72 | Input with non-decreasing starts merges into intervals with non-decreasing starts. |
| SpeakerTimeline.KeepLong | utils/postprocessing.py:75 | A merged interval survives the filter iff it lasts strictly more than 1.0. |
| SpeakerTimeline.KeepLongAppend | utils/postprocessing.py:75 | The filter works piecewise: filtering `a + b` is filtering `a`, then `b`, so the kept intervals keep their order. |
| SpeakerTimeline.KeepLongOne | utils/postprocessing.py:75 | One interval is kept iff it lasts more than 1.0. |
| SpeakerTimeline.KeepLongKeepsStopOrder | utils/postprocessing.py:75 | The filter keeps stop times in order. |
| SpeakerTimeline.KeepLongKeepsStartOrder | utils/postprocessing.py:75 | The filter keeps start times in order. |
| SpeakerTimeline.Coalesce | utils/postprocessing.py:78-83 | No two consecutive entries share a speaker. The first start, the last stop and the last speaker of a non-empty input are kept. |
| SpeakerTimeline.CoalesceAppend | utils/postprocessing.py:78-83 | Where the speaker changes between `a` and `b`, coalescing `a + b` is coalescing each part. |
| SpeakerTimeline.CoalesceRun | utils/postprocessing.py:78-83 | A run of one speaker becomes one interval, from the run's first start to its last stop. |
| SpeakerTimeline.CoalesceCollapsesSpeakers | utils/postprocessing.py:78-83 | The output's speakers are the input's speakers with runs of equal neighbours collapsed to one. |
| SpeakerTimeline.CoalesceNoRepeats | utils/postprocessing.py:78-83 | An input with no repeated neighbouring speaker is left unchanged. |
| SpeakerTimeline.CoalesceIdempotent | utils/postprocessing.py:78-83 | Coalescing twice is coalescing once. |
| SpeakerTimeline.CoalesceKeepsLong | utils/postprocessing.py:75-83 | If stops ascend and every kept interval lasts more than 1.0, so does every coalesced one. |
| SpeakerTimeline.CoalesceKeepsLongByStarts | utils/postprocessing.py:75-83 | If starts ascend and every kept interval lasts more than 1.0, so does every coalesced one: a run lasts at least as long as its last interval. |
| SpeakerTimeline.CoalesceKeepsStopOrder | utils/postprocessing.py:78-83 | Coalescing keeps stop times in order. |
| SpeakerTimeline.CoalesceKeepsStartOrder | utils/postprocessing.py:78-83 | Coalescing keeps start times in order, and the last output start is no later than the last input start. |
| SpeakerTimeline.CoalesceUnordered | utils/postprocessing.py:78-83 | Without order, coalescing `A(5,7), A(0,2)` writes `(5.0, 2.0, A)`, an interval that ends before it starts. |
| SpeakerTimeline.TimelineGuarantees | utils/postprocessing.py:54-83 | A written timeline never repeats a speaker between neighbours. If the input's starts ascend, the timeline's starts ascend; if its stops ascend, its stops ascend. In either case every interval it writes lasts more than 1.0. |
| SpeakerTimeline.WorkedExample | utils/postprocessing.py:54-83 | `A(0,2), A(2.05,4), B(4,4.3), A(4.3,6)` yields the single interval `(0.0, 6.0, A)`. |
| SpeakerTimeline.WorkedExampleMerge | utils/postprocessing.py:60-72 | In that input the first two `A` intervals (gap 0.05) merge into `A(0,4)`, and `B` and the last `A` are appended. |
| SpeakerTimeline.WorkedExampleKeep | utils/postprocessing.py:75 | The 0.3-second `B` interval is dropped. |
| SpeakerTimeline.WorkedExampleCoalesce | utils/postprocessing.py:78-83 | `A(0,4)` and `A(4.3,6)` coalesce into `A(0,6)` although 0.3 apart. |
| SpeakerTimeline.ReadAndMerge | utils/postprocessing.py:49-72 | The first loop returns the parse error, or the merge of the parsed lines. |
| SpeakerTimeline.AddSegment | utils/postprocessing.py:60-72 | One pass of the first loop's body, in place on the last interval, is `MergeStep`. |
| SpeakerTimeline.CoalesceNeighbours | utils/postprocessing.py:78-83 | The second loop, extending the last entry in place, computes `Coalesce`. |
| SpeakerTimeline.ProcessSpeakerSegments | utils/postprocessing.py:48-88 | The lines written are the rendered timeline, or the error raised before the output file is opened. |
| SpeakerTimeline.RenderLineRoundTrip | utils/postprocessing.py:88 | A written line with one-decimal times reads back as the same interval. |
| SpeakerTimeline.RenderLineTokens | utils/postprocessing.py:88 | A written line splits into exactly its three tokens. |
| SpeakerTimeline.TimeTokenRoundTrip | utils/postprocessing.py:56-57 | A start time that line 88 writes as `start=<x:.1f>s` reads back, through `split("=")[1][:-1]` and `float`, as `x`. |
| Timestamps.ClockFields | utils/postprocessing.py:92-97 | The hours are `floor(1000x) div 3600000`. Hours, minutes, seconds and milliseconds recombine to the time truncated to whole milliseconds. |
| Timestamps.Minutes | utils/postprocessing.py:95 | Minutes lie in [0, 60). |
| Timestamps.Seconds | utils/postprocessing.py:96 | Seconds lie in [0, 60). |
| Timestamps.Millis | utils/postprocessing.py:97 | Milliseconds lie in [0, 1000). |
| Timestamps.PadInt | utils/postprocessing.py:98 | `f"{n:02}"` is at least as wide as the width. For `n >= 0` it is `n` zero-padded; for `n < 0` it is '-' followed by the digits of `-n`. |
| Timestamps.TimestampLayout | utils/postprocessing.py:98 | A timestamp is at least two hour digits, ':', two minute digits, ':', two second digits, ',' and three millisecond digits. |
| Timestamps.TimestampRoundTrip | utils/postprocessing.py:92-98 | Reading a timestamp back gives the time truncated to whole milliseconds. |
| Timestamps.ParseFields | utils/postprocessing.py:98 | Any four digit strings laid out as `H:MM:SS,mmm` split back into those four fields. |
| Timestamps.Run | utils/postprocessing.py:110 | The greedy `[\d\.]+` or `\d+` run is the longest prefix of accepted characters. |
| Timestamps.MatchAtSound | utils/postprocessing.py:110 | A match is a prefix of the stripped line: `start=<run>s stop=<run>s speaker_SPEAKER_<digits>`, with the digit run maximal. |
| Timestamps.MatchAtComplete | utils/postprocessing.py:110 | Every such prefix followed by a non-digit or the end is matched, with exactly its fields. |
| Timestamps.CollectOk | utils/postprocessing.py:107-119 | On success every conversion succeeded, and the lines are their results, in order. |
| Timestamps.CollectErr | utils/postprocessing.py:112-113 | On failure the error is the first failing conversion's, and all before it succeeded. |
| Timestamps.ConvertOk | utils/postprocessing.py:107-119 | One output line per matching input line, in input order, each the conversion of its match. |
| Timestamps.ConvertErr | utils/postprocessing.py:112-113 | A bad time (say `1.2.3`) raises at the first matching line that has one. |
| Timestamps.ConvertStopsAt | utils/postprocessing.py:107-113 | Once a line raises, later lines do not matter. |
| Timestamps.MatchesAppend | utils/postprocessing.py:108-119 | Non-matching lines are skipped and the order is kept: the matches of `a + b` are those of `a`, then those of `b`. |
| Timestamps.MatchesCount | utils/postprocessing.py:108-119 | There are as many matches as matching lines. |
| Timestamps.ConvertDiarizationFile | utils/postprocessing.py:100-124 | The loop returns exactly `Convert(lines)`. |
| Timestamps.ProcessedLineConverts | utils/postprocessing.py:110-119 | A line that `process_speaker_segments` writes (line 88) is matched by `convert_diarization_file`, with its speaker number. It becomes `<start timestamp> - <stop timestamp> - <speaker>`. |
| Timestamps.FormattedTimeAccepted | utils/postprocessing.py:110 | A non-negative time written with `:.1f` (line 88) lies in the pattern's `[\d\.]+` class. |
| WavIo.Int16At | wav_io/wav_io.py:36 | Two little-endian bytes read as a signed 16-bit value in [-32768, 32768), congruent to `lo + 256*hi` mod 65536. |
| WavIo.Int16RoundTrip | wav_io/wav_io.py:36 | Encoding a 16-bit value and reading it back gives the value. |
| WavIo.Int16BytesRoundTrip | wav_io/wav_io.py:36 | Reading two bytes and encoding the value gives the bytes. |
| WavIo.Int16sOfEncoding | wav_io/wav_io.py:36 | Decoding an encoded sample list gives it back. |
| WavIo.EncodingOfInt16s | wav_io/wav_io.py:36 | Encoding the decoding of an even-length buffer gives the buffer. |
| WavIo.SampleRange | wav_io/wav_io.py:41-45 | 8-bit samples map into [-1, 127/128]; 16-bit samples into [-1, 32767/32768]. |
| WavIo.SampleInverse | wav_io/wav_io.py:43-45 | The scaling is `(v-128)/128` for width 1 and `v/32768` otherwise. |
| WavIo.InterleaveSplit | wav_io/wav_io.py:47-48 | Re-interleaving the two channels gives back the decoded sequence. |
| WavIo.SplitInterleave | wav_io/wav_io.py:47-48 | Splitting an interleaving gives back its two channels. |
| WavIo.ChannelLengths | wav_io/wav_io.py:47-48 | Channel 1 has as many samples as channel 2, or one more. They are equal iff the sample count is even. |
| WavIo.ScaleSplit | wav_io/wav_io.py:47-58 | Scaling each channel equals splitting the scaled samples. |
| WavIo.ReadAndDecode | wav_io/wav_io.py:22-58 | Zero frames give `None` and nothing else does. The call raises iff frames are present, the width is not 1 and the byte count is odd. Otherwise mono iff one channel, and each sample is the scaled value of its buffer element. |
| WavIo.DecodedSamples | wav_io/wav_io.py:33-58 | Each decoded sample is the scaled integer at its place: mono sample `i` is element `i` of the buffer, left sample `i` is element `2i` and right sample `i` element `2i+1` (bytes for width 1, little-endian pairs otherwise). |
| WavIo.DecodedInUnitRange | wav_io/wav_io.py:41-58 | Every decoded sample lies in [-1, 1). |
| WavIo.StereoIsSplitMono | wav_io/wav_io.py:41-58 | The stereo channels interleave back to the mono decoding of the same bytes. |
| WavIo.ExtensionSplit | wav_io/wav_io.py:78-86 | The extension is what follows the last '.'. |
| WavIo.Extension | wav_io/wav_io.py:86 | The extension holds no '.'. |
| WavIo.CannotOpenMessage | wav_io/wav_io.py:98-100 | The message is `The file "<src>" cannot be opened.`, plus a space and the cause only when the cause is non-empty. |
| WavIo.TransformErrorOrder | wav_io/wav_io.py:77-101 | No '.' raises `ValueError` before the existence check. A missing file raises `IOError`. A decode failure raises `IOError` "cannot be opened". Otherwise it succeeds. |
| WavIo.FastPathIgnoresConverter | wav_io/wav_io.py:66-67 | A 16 kHz file with 1-2 channels and 1-2 byte samples is decoded directly, whatever the converter does. |
| WavIo.SlowPathDecodesTemporary | wav_io/wav_io.py:68-72 | Any other file is converted first, and the converter's error propagates. On success the temporary file is decoded. |
| WavIo.WaveErrorIsValueError | wav_io/wav_io.py:74-75 | A `wave.Error` becomes `ValueError` `"<fname>": cannot be read as a valid WAV file. <detail>`. |
| WavIo.TruncatedHeaderEscapes | wav_io/wav_io.py:60-75 | The `EOFError` that the WAV reader raises for an empty file or a cut-short header is not a `wave.Error`. It escapes `load_sound` unchanged, whether the loaded file or the temporary file is cut short, and it is the only source of an `EOFError`. |
| WavIo.EmptyFileIsSilence | wav_io/wav_io.py:30-31 | A file with no frames decodes to `None`, and `load_sound` (lines 66-72) passes that on. |
| RecognitionResults.Put | speech_recognition_validation/extract_final_texts.py:50 | Assigning a present key replaces its value in place. A new key is appended. Keys stay unique. |
| RecognitionResults.RefinedAltChosen | speech_recognition_validation/extract_final_texts.py:32-36 | When `entry["final_refinement"]["normalized_text"]["alternatives"]` is a list whose head is not null, that head is the alternative. |
| RecognitionResults.FinalAltChosen | speech_recognition_validation/extract_final_texts.py:29-42 | When the refined list is empty or starts with null (or there is no refinement) and `entry["final"]["alternatives"]` is a non-empty list, its head is the alternative, or none if that head is null. |
| RecognitionResults.MissingRefinedKeyFallsBack | speech_recognition_validation/extract_final_texts.py:33-42 | A refinement object without `normalized_text` behaves as no refinement: the `KeyError` is caught and `final` is tried. |
| RecognitionResults.RefinementNotObjectRaises | speech_recognition_validation/extract_final_texts.py:33-36 | A refinement that is not an object raises `TypeError`, which the `except` does not catch. |
| RecognitionResults.Step | speech_recognition_validation/extract_final_texts.py:27-50 | One entry faults iff its alternative does. Otherwise keys stay unique. |
| RecognitionResults.Fold | speech_recognition_validation/extract_final_texts.py:27-50 | The map built so far has unique times. |
| RecognitionResults.BuildMap | speech_recognition_validation/extract_final_texts.py:26-50 | The loop computes `Dedupe(data)`. |
| RecognitionResults.FoldErr | speech_recognition_validation/extract_final_texts.py:27-50 | A failing run fails with the first faulting entry's error. |
| RecognitionResults.FoldStopsAt | speech_recognition_validation/extract_final_texts.py:27-50 | After a fault, later entries do not matter. |
| RecognitionResults.Lookup | speech_recognition_validation/extract_final_texts.py:48 | `time_ms in filtered_map` and the value stored there. |
| RecognitionResults.PutLookup | speech_recognition_validation/extract_final_texts.py:50 | After storing, the key maps to the new item and every other key is unchanged. |
| RecognitionResults.StepLookup | speech_recognition_validation/extract_final_texts.py:44-50 | An entry overwrites a time iff it offers that time and is refined or the time is new. |
| RecognitionResults.FoldHasTime | speech_recognition_validation/extract_final_texts.py:26-50 | A time is in the map iff some entry offers it. |
| RecognitionResults.RefinedWins | speech_recognition_validation/extract_final_texts.py:48-50 | The last refined entry offering a time decides its item. |
| RecognitionResults.FirstWins | speech_recognition_validation/extract_final_texts.py:48-50 | With no refined entry for a time, the first entry offering it decides its item. |
| RecognitionResults.IntOfText | speech_recognition_validation/extract_final_texts.py:53 | `int()` of a digit string is its value. |
| RecognitionResults.IntOfTextRoundTrip | speech_recognition_validation/extract_final_texts.py:53 | `int(str(n)) == n` for every integer. |
| RecognitionResults.IntOf | speech_recognition_validation/extract_final_texts.py:53 | `int()` of a float truncates toward zero. `int()` of null, a list or an object raises `TypeError`. |
| RecognitionResults.Keys | speech_recognition_validation/extract_final_texts.py:53 | Either every time has an integer key, or the sort raises the fault of the first time that has none, all earlier ones having keys. |
| RecognitionResults.SortByKey | speech_recognition_validation/extract_final_texts.py:53 | `sorted` returns a permutation of its input, ordered by key. |
| RecognitionResults.InsertPermutes | speech_recognition_validation/extract_final_texts.py:53 | One insertion step adds exactly the new element. |
| RecognitionResults.InsertSorted | speech_recognition_validation/extract_final_texts.py:53 | One insertion step keeps the order. |
| RecognitionResults.SortByKeyStable | speech_recognition_validation/extract_final_texts.py:53 | The sort is stable: elements with equal keys keep their relative order. |
| RecognitionResults.SortByKeyDistinct | speech_recognition_validation/extract_final_texts.py:53-54 | Sorting keeps times distinct. |
| RecognitionResults.SortSameItems | speech_recognition_validation/extract_final_texts.py:53-54 | The sorted values are the same items. |
| RecognitionResults.Basename | speech_recognition_validation/extract_final_texts.py:57 | The basename holds no '/'. |
| RecognitionResults.SplitExt | speech_recognition_validation/extract_final_texts.py:58 | `name + ext` is the basename. The extension is empty or one '.' followed by no other '.'. It is non-empty exactly when some '.' of the name has something other than dots before it, and then the stem is not all dots. |
| RecognitionResults.BasenameAfterSlash | speech_recognition_validation/extract_final_texts.py:57 | The basename is what follows the last '/'. |
| RecognitionResults.SplitExtAtDot | speech_recognition_validation/extract_final_texts.py:58 | `splitext` splits at the last '.' whenever the stem before it is not all dots, even when the stem holds dots itself (`recognition_result_2024.05.01_interview.json`). |
| RecognitionResults.OutputNameKeepsExtension | speech_recognition_validation/extract_final_texts.py:57-59 | `dir/stem.ext` is written as `stem_filtered.ext` for every stem that is not all dots, dotted stems included. |
| RecognitionResults.SortedItemsGuarantees | speech_recognition_validation/extract_final_texts.py:53-54 | The sorted list has exactly the map's items, each once, with unique times, in ascending integer time. |
| RecognitionResults.ProcessFileGuarantees | speech_recognition_validation/extract_final_texts.py:17-64 | The output is named from the input path. It holds exactly the deduplicated items, each once, sorted by integer time. |
| TimeFormat.HoursText | utils/utils.py:13-18 | The three-way hour branch is zero padding to two digits. |
| TimeFormat.MinutesText | utils/utils.py:22-25 | The two-way minute branch is zero padding to two digits. |
| TimeFormat.AfterHours | utils/utils.py:20 | What remains after the hours lies in [0, 3600). |
| TimeFormat.MinutesOf | utils/utils.py:21 | The minutes lie in [0, 60). |
| TimeFormat.AfterMinutes | utils/utils.py:26 | What remains after the minutes lies in [0, 60). |
| TimeFormat.TimeToStr | utils/utils.py:7-29 | A non-float raises the not-floating-point error and a negative time the negative error. Otherwise the result is `TimeText`. |
| TimeFormat.SecondsTextFields | utils/utils.py:28 | Below a rounded minute, `{0:06.3f}` with ',' is two second digits, ',' and three millisecond digits. |
| TimeFormat.AfterMinutesPlaces | utils/utils.py:12-26 | For whole milliseconds, hours, minutes and remaining milliseconds recombine to `floor(1000x)`. |
| TimeFormat.TimeTextFields | utils/utils.py:7-29 | For whole milliseconds the text is `HH:MM:SS,mmm` of the time's clock fields. |
| TimeFormat.TimeTextRoundTrip | utils/utils.py:7-29 | For whole milliseconds the text reads back as the time in milliseconds. |
| TimeFormat.SecondsReachSixty | utils/utils.py:26-28 | As written, `59.9996` is rendered `00:00:60,000`. |
| TimeFormat.MixedRadix | utils/utils.py:12-28 | A millisecond count is its hours, minutes, seconds and milliseconds, each in range. |
| TimeFormat.MixedRadixDigits | utils/utils.py:12-28 | Those digits are unique. |
| TimeFormat.TimeTextRoundedRoundTrip | utils/utils.py:7-29 | The corrected text reads back as the time rounded to milliseconds. Its minute and second fields are below 60. |
| TimeFormat.TimeTextRoundedAgrees | utils/utils.py:7-29 | For whole milliseconds the corrected text equals the source's. |
| TimeFormat.TimeTextRoundedCarries | utils/utils.py:26-28 | The corrected text of `59.9996` is `00:01:00,000`. |
| Transcripts.NonBlank | postprocessing.py:8 | Every kept line is non-empty, with no whitespace at either end, and there are no more of them than input lines. |
| Transcripts.TrimmedIff | postprocessing.py:8 | A line is non-empty and trimmed iff it is non-empty and equals its own strip. |
| Transcripts.NonBlankOne | postprocessing.py:8 | One line contributes its strip when that is non-empty, else nothing. |
| Transcripts.NonBlankAppend | postprocessing.py:8 | Each line is kept or dropped on its own, and the kept ones stay in order. |
| Transcripts.NonBlankOfClean | postprocessing.py:8 | Lines already stripped and non-empty are all kept. |
| Transcripts.NonBlankIdempotent | postprocessing.py:8 | Filtering twice is filtering once. |
| Transcripts.CleanTextLines | postprocessing.py:5-9 | The output lines are exactly the stripped non-blank input lines, in order. None is empty and each equals its own strip. An input with none gives "". |
| Transcripts.CleanTextStripped | postprocessing.py:5-9 | The cleaned text has no whitespace at either end. |
| Transcripts.CleanTextIdempotent | postprocessing.py:5-9 | Cleaning a cleaned text changes nothing. |
| Transcripts.ProcessSrt | postprocessing.py:11-20 | What is written is the cleaned content, which is already clean. |
| Transcripts.FilterParagraphs | postprocessing.py:25-30 | The loop keeps exactly the non-empty stripped paragraphs, in order. |
| Transcripts.NewDocument | postprocessing.py:32-34 | The new document holds one paragraph per kept text, in order. |
| Transcripts.ProcessDocx | postprocessing.py:22-36 | The written document's paragraphs are the non-blank stripped paragraphs of the source. |
| Transcripts.SuffixCaseMatters | postprocessing.py:41-46 | Suffix matching is case-sensitive: `.SRT` and `.DOCX` are not handled. |
| Transcripts.ProcessTranscriptionFile | postprocessing.py:39-46 | A `.srt` file is written cleaned and a `.docx` file filtered. Any other file writes nothing. |
| Strings.StripShape | postprocessing.py:7-8 | `strip()` keeps a middle slice and removes only whitespace around it. |
| Strings.StripIdempotent | postprocessing.py:8 | Stripping twice is stripping once. |
| Strings.Split | postprocessing.py:7 | `split(sep)` gives at least one piece and no piece holds the separator. |
| Strings.SplitJoin | postprocessing.py:7-9 | Splitting a join of separator-free parts gives back the parts. |
| Strings.JoinSplit | postprocessing.py:7-9 | Joining the pieces of a split gives back the text. |
| Strings.Words | utils/postprocessing.py:55 | `split()` gives non-empty pieces with no whitespace, and no pieces at all iff the text is all whitespace. |
| Strings.WordsSplitAtSpace | utils/postprocessing.py:55 | Whitespace separates words: the words of `a + [c] + b`, for whitespace `c`, are those of `a` followed by those of `b`. |
| Strings.LastIndexOf | wav_io/wav_io.py:78 | `rfind` is -1 iff the character is absent. Otherwise it is the index of the last occurrence. |
| Strings.ReplaceCharUndo | utils/utils.py:28 | When `b` does not occur in `s`, replacing `a` by `b` and then `b` by `a` gives back `s`: only the `a` characters change, and all of them do. |
| Numerals.NatToString | utils/utils.py:16-18 | `str(n)` is non-empty decimal digits with value `n` and no leading zero. |
| Numerals.ZeroPad | utils/postprocessing.py:98 | A zero-padded number is digits with its value, as wide as the width or the number. |
| Numerals.ZeroPadWidth | utils/postprocessing.py:98 | A number below `10^width` pads to exactly `width` digits. |
| Numerals.RoundScaled | utils/utils.py:28 | Fixed-point rounding is within half a unit of the last place, and exact when the value has that many places. |
| Numerals.ParseFormatUnsigned | utils/utils.py:28 | The formatted text reads back as the rounded value. |
| Numerals.FormatFixedRoundTrip | utils/postprocessing.py:56-57 | A value with at most `p` places, formatted with `p` places (as line 88 writes times), reads back through `float()` as itself. |
| Numerals.FormatFixedChars | utils/postprocessing.py:88 | A formatted number holds only digits, '.' and '-'. |

## Left out

- File and console I/O, `print`, `os.makedirs`, `json.dump` layout and the temporary file's lifetime are left out. Contents are parameters and results.
- The pydub re-encoding (`wav_io/wav_io.py:102-109`) is not modelled. The decoder is a `Disk` parameter, and only its success or failure and message are used.
- Binary floating point is not modelled. Times and samples are exact reals: `float()` of a literal is its exact decimal value, and formatting rounds that value half to even. Most one-decimal times have no exact binary form, so Python's subtractions, comparisons and remainders on them can differ from the model's in the last bit. Near a formatting tie Python can round the other way, and the lines below name the thresholds and fields where the difference shows.
- `float()` forms other than an optional sign, ASCII digits and one '.' are left out: exponents, `inf`, `nan`, underscores and non-ASCII digits. `int()` on JSON strings has the same restriction.
- `Timestamps.Run`, `Timestamps.MatchAt` and `Timestamps.Accepts`: the `\d` of the `[\d\.]+` and `\d+` classes in `convert_diarization_file` (`utils/postprocessing.py:110`) matches every Unicode decimal digit in Python; the model accepts ASCII digits only.
- Python dictionary keys that are equal across types (`True == 1`, `1 == 1.0`) are distinct keys in the model.
- `RecognitionResults.ProcessFile`: a top level that is not a JSON array, and array entries that are not objects, are outside the model. JSON `Infinity`/`NaN` literals are also outside it.
- `WavIo.LoadSound`: the WAV header parser is not modelled. The `Disk` parameter decides which files `wave.open` rejects with `wave.Error` and which end inside their header and raise `EOFError`; the model only fixes how `load_sound` passes each of them on.
- `WavIo.ReadAndDecode`: the `len(data.shape) != 1` check (`wav_io/wav_io.py:38-39`) can never fire for `frombuffer` output and is not modelled.
- `TimeFormat.TimeToStr`: the error values carry no message, because the message embeds Python's float `repr`.
- `TimeFormat.TimeTextRoundTrip` and `TimeFormat.TimeTextFields` are stated for times with whole milliseconds. For other times the source's text can be off, as the finding below shows.
- `SpeakerTimeline.TimelineGuarantees`: the minimum-duration and order guarantees are stated for input whose starts or whose stops ascend. For input with neither, coalescing without a gap test can write an interval that ends before it starts (`SpeakerTimeline.CoalesceUnordered`).
- `SpeakerTimeline.GapThreshold`: on binary floats `2.1 - 2.0` is slightly above 0.1, so a stop of 2.0 followed by a same-speaker start of 2.1 is not merged by the source, while the model on exact reals merges it.
- `SpeakerTimeline.KeepLong`: on binary floats `2.2 - 1.2` is slightly above 1.0, so the source keeps the interval (1.2, 2.2), which the model drops.
- `Timestamps.ClockFields`: on binary floats `1.2 % 1` is slightly below 0.2, so the source writes `00:00:01,199` for 1.2 (and `,299` for 4.3) where the model writes `,200`. `Timestamps.TimestampRoundTrip` and `Timestamps.ProcessedLineConverts` inherit this: they hold on exact reals only.
- `Timestamps.ConvertMatch`: a time run such as `1.2.3` that `float()` rejects raises at that line. The model keeps the rejected text, but not Python's message wording.
- `download_diarization_models`, `get_device`, the argparse and glob drivers, `diarization.py`, `main.py` and `config.py` are not part of this model. They are model downloads, device choice and command-line plumbing.

## Findings

| source | as written | input that shows it | evidently intended | confidence | as-written member | corrected member |
|---|---|---|---|---|---|---|
| utils/utils.py:26-28 | The seconds are rounded to three decimals only after the hours and minutes are taken, so the rounding can carry into a minute that is never shown | `time_to_str(59.9996)` gives `00:00:60,000` | `00:01:00,000`: round to milliseconds first, then split into fields (minutes and seconds below 60) | not executed; reasoned on exact reals, and the double nearest 59.9996 also rounds to 60.000 | TimeFormat.SecondsReachSixty | TimeFormat.TimeTextRoundedRoundTrip |
