/**
 * Loading a WAV file as float samples (`load_sound` and `transform_to_wavpcm`
 * in wav_io/wav_io.py). A file that is already 16 kHz with one or two channels
 * of 8- or 16-bit samples is decoded directly; any other file is first
 * re-encoded to a temporary mono 16 kHz 16-bit file, which is then decoded.
 * Decoding maps 8-bit unsigned bytes to `(v - 128) / 128` and 16-bit
 * little-endian signed values to `v / 32768`; a stereo buffer is split into
 * its even-index and odd-index samples. The file system and the audio
 * re-encoder are parameters.
 */
module WavIo {
  import opened Wrappers
  import opened Strings

  type byte = b: int | 0 <= b < 256

  const TargetRate: int := 16000

  /** The exceptions the loader lets escape, with their messages: its own
      `ValueError` and `IOError`, and the `EOFError` the WAV reader raises on
      an empty file or a header cut short, which the `except wave.Error`
      clause does not catch. */
  datatype PyError = ValueError(message: string) | IOError(message: string) | EOFError(message: string)

  /** What `wave.open` reads from a WAV file: the header fields and the bytes
      `readframes(nframes)` returns. */
  datatype WavFile = WavFile(channels: int, rate: int, width: int, frames: int, data: seq<byte>)

  /** Opening a path with `wave.open`: the file, a `wave.Error` with its text,
      an `EOFError` for a file that ends inside its header (an empty file, a
      short chunk header or a short fmt chunk), or an operating-system error
      (a missing file, say) with its text. */
  datatype WaveOpen =
    | Opened(file: WavFile)
    | WaveError(detail: string)
    | Truncated(detail: string)
    | OsFailure(detail: string)

  /** The decoded sound: nothing for a file without frames, one channel, or
      the two channels of a stereo file. */
  datatype Sound = Silence | Mono(samples: seq<real>) | Stereo(left: seq<real>, right: seq<real>)

  /** The world `load_sound` sees. `open` is `wave.open` on a path (the
      temporary file reads back what the re-encoder exported to it); `isFile`
      is `os.path.isfile`; `decodeAs` is the re-encoder's `from_file` for a
      path and a format: success, or the text of the exception it raised. */
  datatype Disk = Disk(
    open: string -> WaveOpen,
    isFile: string -> bool,
    decodeAs: (string, string) -> Result<(), string>)

  // ---------------------------------------------------------------------------
  // Bytes to integers

  /** A little-endian signed 16-bit value from its two bytes. */
  function Int16At(lo: byte, hi: byte): (v: int)
    ensures -32768 <= v < 32768
    ensures (v + 65536) % 65536 == lo + 256 * hi
  {
    var u := lo + 256 * hi;
    if u >= 32768 then u - 65536 else u
  }

  /** The two little-endian bytes of a signed 16-bit value. */
  function Int16Bytes(v: int): (b: seq<byte>)
    requires -32768 <= v < 32768
    ensures |b| == 2
  {
    var u := if v < 0 then v + 65536 else v;
    [u % 256, u / 256]
  }

  lemma Int16RoundTrip(v: int)
    requires -32768 <= v < 32768
    ensures var b := Int16Bytes(v); Int16At(b[0], b[1]) == v
  {
  }

  lemma Int16BytesRoundTrip(lo: byte, hi: byte)
    ensures Int16Bytes(Int16At(lo, hi)) == [lo, hi]
  {
  }

  /** `np.frombuffer(data, dtype=np.int16)` on a buffer of even length. */
  function Int16s(data: seq<byte>): (vs: seq<int>)
    requires |data| % 2 == 0
    ensures |vs| == |data| / 2
    ensures forall k :: 0 <= k < |vs| ==> -32768 <= vs[k] < 32768
  {
    seq(|data| / 2, k requires 0 <= k < |data| / 2 => Int16At(data[2 * k], data[2 * k + 1]))
  }

  predicate InInt16Range(vs: seq<int>) {
    forall k :: 0 <= k < |vs| ==> -32768 <= vs[k] < 32768
  }

  /** The little-endian 16-bit encoding of a sequence of values. */
  function EncodePcm16(vs: seq<int>): (data: seq<byte>)
    requires InInt16Range(vs)
    ensures |data| == 2 * |vs|
  {
    if vs == [] then [] else EncodePcm16(vs[..|vs| - 1]) + Int16Bytes(vs[|vs| - 1])
  }

  /** Reading 16-bit values back from their encoding gives the values. */
  lemma {:induction false} Int16sOfEncoding(vs: seq<int>)
    requires InInt16Range(vs)
    ensures Int16s(EncodePcm16(vs)) == vs
  {
    if vs != [] {
      var n := |vs| - 1;
      var front := EncodePcm16(vs[..n]);
      Int16sOfEncoding(vs[..n]);
      var data := EncodePcm16(vs);
      assert data == front + Int16Bytes(vs[n]);
      forall k | 0 <= k < |vs|
        ensures Int16s(data)[k] == vs[k]
      {
        if k < n {
          assert data[2 * k] == front[2 * k] && data[2 * k + 1] == front[2 * k + 1];
          assert Int16s(front)[k] == vs[..n][k];
        } else {
          Int16RoundTrip(vs[n]);
        }
      }
    }
  }

  /** The encoding of the values read from an even-length buffer is the buffer. */
  lemma {:induction false} EncodingOfInt16s(data: seq<byte>)
    requires |data| % 2 == 0
    ensures EncodePcm16(Int16s(data)) == data
    decreases |data|
  {
    if data != [] {
      var n := |data| - 2;
      var front := data[..n];
      var vs := Int16s(data);
      EncodingOfInt16s(front);
      assert vs[..|vs| - 1] == Int16s(front);
      Int16BytesRoundTrip(data[n], data[n + 1]);
      assert data == front + [data[n], data[n + 1]];
    }
  }

  /** The integer array `np.frombuffer` makes of the frame bytes: unsigned
      bytes for width 1, signed 16-bit values for every other width. An odd
      number of bytes cannot be read as 16-bit values. */
  function Ints(width: int, data: seq<byte>): (r: Result<seq<int>, PyError>)
    ensures r.Err? <==> width != 1 && |data| % 2 != 0
    ensures r.Ok? && width == 1 ==> r.value == data
    ensures r.Ok? && width != 1 ==> r.value == Int16s(data)
  {
    if width == 1 then Ok(data)
    else if |data| % 2 != 0 then Err(ValueError("buffer size must be a multiple of element size"))
    else Ok(Int16s(data))
  }

  // ---------------------------------------------------------------------------
  // Integers to samples

  /** One sample: `(v - 128) / 128` for 8-bit data, `v / 32768` otherwise. */
  function SampleOf(width: int, v: int): real {
    if width == 1 then (v as real - 128.0) / 128.0 else v as real / 32768.0
  }

  /** An 8-bit sample lies in [-1, 127/128], a 16-bit one in [-1, 32767/32768]. */
  lemma SampleRange(width: int, v: int)
    requires width == 1 ==> 0 <= v < 256
    requires width != 1 ==> -32768 <= v < 32768
    ensures width == 1 ==> -1.0 <= SampleOf(width, v) <= 127.0 / 128.0
    ensures width != 1 ==> -1.0 <= SampleOf(width, v) <= 32767.0 / 32768.0
  {
  }

  /** No information is lost: the value is recovered from its sample. */
  lemma SampleInverse(width: int, v: int)
    ensures width == 1 ==> SampleOf(width, v) * 128.0 + 128.0 == v as real
    ensures width != 1 ==> SampleOf(width, v) * 32768.0 == v as real
  {
  }

  /** Every integer of the buffer scaled to a sample. */
  function Scale(width: int, vs: seq<int>): (xs: seq<real>)
    ensures |xs| == |vs|
    ensures forall i :: 0 <= i < |vs| ==> xs[i] == SampleOf(width, vs[i])
  {
    seq(|vs|, i requires 0 <= i < |vs| => SampleOf(width, vs[i]))
  }

  /** `data[0::2]`: the samples at even positions. */
  function Evens<T>(s: seq<T>): (r: seq<T>)
    ensures |r| == (|s| + 1) / 2
    ensures forall i :: 0 <= i < |r| ==> r[i] == s[2 * i]
  {
    seq((|s| + 1) / 2, i requires 0 <= i < (|s| + 1) / 2 => s[2 * i])
  }

  /** `data[1::2]`: the samples at odd positions. */
  function Odds<T>(s: seq<T>): (r: seq<T>)
    ensures |r| == |s| / 2
    ensures forall i :: 0 <= i < |r| ==> r[i] == s[2 * i + 1]
  {
    seq(|s| / 2, i requires 0 <= i < |s| / 2 => s[2 * i + 1])
  }

  /** Two channels merged frame by frame, left first. */
  function Interleave<T>(a: seq<T>, b: seq<T>): (r: seq<T>)
    requires |b| <= |a| <= |b| + 1
    ensures |r| == |a| + |b|
  {
    seq(|a| + |b|, i requires 0 <= i < |a| + |b| => if i % 2 == 0 then a[i / 2] else b[i / 2])
  }

  /** Re-interleaving the two halves of a split gives back the sequence. */
  lemma InterleaveSplit<T>(s: seq<T>)
    ensures Interleave(Evens(s), Odds(s)) == s
  {
    var r := Interleave(Evens(s), Odds(s));
    forall i | 0 <= i < |s|
      ensures r[i] == s[i]
    {
      if i % 2 == 0 {
        assert 2 * (i / 2) == i;
      } else {
        assert 2 * (i / 2) + 1 == i;
      }
    }
  }

  /** Splitting an interleaving gives back the two channels. */
  lemma SplitInterleave<T>(a: seq<T>, b: seq<T>)
    requires |b| <= |a| <= |b| + 1
    ensures Evens(Interleave(a, b)) == a && Odds(Interleave(a, b)) == b
  {
    var s := Interleave(a, b);
    forall i | 0 <= i < |a|
      ensures Evens(s)[i] == a[i]
    {
      assert (2 * i) % 2 == 0 && (2 * i) / 2 == i;
    }
    forall i | 0 <= i < |b|
      ensures Odds(s)[i] == b[i]
    {
      assert (2 * i + 1) % 2 == 1 && (2 * i + 1) / 2 == i;
    }
  }

  /** The channels have the same length exactly when the sample count is even. */
  lemma ChannelLengths<T>(s: seq<T>)
    ensures |Odds(s)| <= |Evens(s)| <= |Odds(s)| + 1
    ensures |Evens(s)| == |Odds(s)| <==> |s| % 2 == 0
  {
  }

  /** Scaling the channels separately is scaling the whole and then splitting. */
  lemma ScaleSplit(width: int, vs: seq<int>)
    ensures Scale(width, Evens(vs)) == Evens(Scale(width, vs))
    ensures Scale(width, Odds(vs)) == Odds(Scale(width, vs))
  {
  }

  // ---------------------------------------------------------------------------
  // Decoding a file

  /** `_read_and_decode` on an opened file. */
  function ReadAndDecode(f: WavFile): (r: Result<Sound, PyError>)
    ensures r == Ok(Silence) <==> f.frames == 0
    ensures r.Err? <==> f.frames != 0 && f.width != 1 && |f.data| % 2 != 0
    ensures r.Ok? && f.frames != 0 ==> (r.value.Mono? <==> f.channels == 1)
  {
    if f.frames == 0 then Ok(Silence)
    else
      match Ints(f.width, f.data)
      case Err(e) => Err(e)
      case Ok(vs) =>
        if f.channels == 1 then Ok(Mono(Scale(f.width, vs)))
        else Ok(Stereo(Scale(f.width, Evens(vs)), Scale(f.width, Odds(vs))))
  }

  /** The number of integers the frame bytes hold at a sample width. */
  function IntCount(width: int, data: seq<byte>): nat {
    if width == 1 then |data| else |data| / 2
  }

  /** Sample `k` read straight from the frame bytes: byte `k` as
      `(v - 128) / 128` at width 1, the little-endian signed pair at `2k` as
      `v / 32768` at any other width. */
  function SampleAt(width: int, data: seq<byte>, k: nat): real
    requires k < IntCount(width, data)
  {
    if width == 1 then (data[k] as real - 128.0) / 128.0
    else Int16At(data[2 * k], data[2 * k + 1]) as real / 32768.0
  }

  /** The values `_read_and_decode` returns: a mono file gives sample `i` of
      its bytes as its `i`-th sample; a stereo file gives samples `2i` and
      `2i + 1` as the `i`-th left and right samples. */
  lemma DecodedSamples(f: WavFile)
    requires f.frames != 0 && ReadAndDecode(f).Ok?
    ensures var n := IntCount(f.width, f.data);
      match ReadAndDecode(f).value
      case Silence => false
      case Mono(xs) =>
        |xs| == n && forall i :: 0 <= i < n ==> xs[i] == SampleAt(f.width, f.data, i)
      case Stereo(l, r) =>
        |l| == (n + 1) / 2 && |r| == n / 2
        && (forall i :: 0 <= i < |l| ==> l[i] == SampleAt(f.width, f.data, 2 * i))
        && (forall i :: 0 <= i < |r| ==> r[i] == SampleAt(f.width, f.data, 2 * i + 1))
  {
    var vs := Ints(f.width, f.data).value;
    var n := IntCount(f.width, f.data);
    assert |vs| == n;
    forall k | 0 <= k < n
      ensures SampleOf(f.width, vs[k]) == SampleAt(f.width, f.data, k)
    {
      if f.width != 1 {
        assert vs[k] == Int16At(f.data[2 * k], f.data[2 * k + 1]);
      }
    }
  }

  /** Every decoded sample lies in [-1, 1), in each channel. */
  predicate InUnitRange(xs: seq<real>) {
    forall i :: 0 <= i < |xs| ==> -1.0 <= xs[i] < 1.0
  }

  lemma ScaleInUnitRange(width: int, vs: seq<int>)
    requires width == 1 ==> forall i :: 0 <= i < |vs| ==> 0 <= vs[i] < 256
    requires width != 1 ==> InInt16Range(vs)
    ensures InUnitRange(Scale(width, vs))
  {
    forall i | 0 <= i < |vs|
      ensures -1.0 <= Scale(width, vs)[i] < 1.0
    {
      SampleRange(width, vs[i]);
    }
  }

  lemma DecodedInUnitRange(f: WavFile)
    requires ReadAndDecode(f).Ok?
    ensures match ReadAndDecode(f).value
      case Silence => true
      case Mono(xs) => InUnitRange(xs)
      case Stereo(l, r) => InUnitRange(l) && InUnitRange(r)
  {
    if f.frames != 0 {
      var vs := Ints(f.width, f.data).value;
      ScaleInUnitRange(f.width, vs);
      ScaleSplit(f.width, vs);
      if f.channels != 1 {
        assert InUnitRange(Evens(Scale(f.width, vs)));
        assert InUnitRange(Odds(Scale(f.width, vs)));
      }
    }
  }

  /** A stereo result is the mono decoding of the same bytes, de-interleaved:
      merging its channels gives that decoding back, and the channels have
      equal length exactly when the buffer holds an even number of samples. */
  lemma StereoIsSplitMono(f: WavFile)
    requires ReadAndDecode(f).Ok? && ReadAndDecode(f).value.Stereo?
    ensures var mono := ReadAndDecode(f.(channels := 1)).value.samples;
      var Stereo(l, r) := ReadAndDecode(f).value;
      |r| <= |l| <= |r| + 1 && Interleave(l, r) == mono
      && (|l| == |r| <==> |mono| % 2 == 0)
  {
    var vs := Ints(f.width, f.data).value;
    ScaleSplit(f.width, vs);
    InterleaveSplit(Scale(f.width, vs));
  }

  // ---------------------------------------------------------------------------
  // Re-encoding

  /** `src.rfind('.')`. */
  function DotIndex(src: string): int {
    LastIndexOf(src, '.')
  }

  /** The format handed to the re-encoder: the text after the last dot. */
  function Extension(src: string): (ext: string)
    requires DotIndex(src) >= 0
    ensures '.' !in ext
  {
    src[DotIndex(src) + 1..]
  }

  lemma ExtensionSplit(src: string)
    requires '.' in src
    ensures src == src[..DotIndex(src)] + "." + Extension(src)
  {
    var k := DotIndex(src);
    assert src == src[..k] + [src[k]] + src[k + 1..];
  }

  function UnknownExtensionMessage(src: string): string {
    "The extension of the file \"" + src + "\" is unknown. So, I cannot determine a format of this sound file."
  }

  function MissingMessage(src: string): string {
    "The file \"" + src + "\" does not exist!"
  }

  /** The message of a failed decode: the cause follows a space, unless it is empty. */
  function CannotOpenMessage(src: string, cause: string): (msg: string)
    ensures |msg| >= |src| + 29
    ensures msg[..|src| + 29] == "The file \"" + src + "\" cannot be opened."
    ensures cause == "" <==> |msg| == |src| + 29
    ensures cause != "" ==> msg[|src| + 29..] == " " + cause
  {
    var head := "The file \"" + src + "\" cannot be opened.";
    assert |head| == |src| + 29;
    if cause != "" then head + " " + cause else head
  }

  /** `transform_to_wavpcm` up to the export, whose result the temporary file
      holds: the name must have a dot, the file must exist, and the re-encoder
      must decode it in the format its extension names. */
  function TransformToWavPcm(src: string, disk: Disk): Result<(), PyError> {
    if DotIndex(src) < 0 then Err(ValueError(UnknownExtensionMessage(src)))
    else if !disk.isFile(src) then Err(IOError(MissingMessage(src)))
    else
      match disk.decodeAs(src, Extension(src))
      case Err(cause) => Err(IOError(CannotOpenMessage(src, cause)))
      case Ok(_) => Ok(())
  }

  /** The checks run in a fixed order: a name without a dot is a `ValueError`
      whether or not the file exists, a missing file an `IOError` before any
      decoding, and a decoder failure an `IOError` naming the cause. */
  lemma TransformErrorOrder(src: string, disk: Disk)
    ensures '.' !in src ==> TransformToWavPcm(src, disk) == Err(ValueError(UnknownExtensionMessage(src)))
    ensures '.' in src && !disk.isFile(src) ==> TransformToWavPcm(src, disk) == Err(IOError(MissingMessage(src)))
    ensures '.' in src && disk.isFile(src) ==>
      (TransformToWavPcm(src, disk).Ok? <==> disk.decodeAs(src, Extension(src)).Ok?)
    ensures '.' in src && disk.isFile(src) && disk.decodeAs(src, Extension(src)).Err? ==>
      TransformToWavPcm(src, disk) == Err(IOError(CannotOpenMessage(src, disk.decodeAs(src, Extension(src)).error)))
  {
  }

  // ---------------------------------------------------------------------------
  // Loading

  /** The fast path: the file is decoded as it is. */
  predicate Direct(f: WavFile) {
    f.channels in {1, 2} && f.rate == TargetRate && f.width in {1, 2}
  }

  function NotWavMessage(fname: string, detail: string): string {
    "\"" + fname + "\": cannot be read as a valid WAV file. " + detail
  }

  /** `_read_and_decode` of a path, inside the `try` of `load_sound`: a
      `wave.Error` becomes a `ValueError` naming the loaded file. */
  function ReadPath(fname: string, outcome: WaveOpen): Result<Sound, PyError> {
    match outcome
    case WaveError(d) => Err(ValueError(NotWavMessage(fname, d)))
    case Truncated(d) => Err(EOFError(d))
    case OsFailure(d) => Err(IOError(d))
    case Opened(f) => ReadAndDecode(f)
  }

  /** `load_sound(fname)`, with `tmp` the temporary file's name. */
  function LoadSound(fname: string, tmp: string, disk: Disk): Result<Sound, PyError> {
    match disk.open(fname)
    case WaveError(d) => Err(ValueError(NotWavMessage(fname, d)))
    case Truncated(d) => Err(EOFError(d))
    case OsFailure(d) => Err(IOError(d))
    case Opened(f) =>
      if Direct(f) then ReadPath(fname, disk.open(fname))
      else
        match TransformToWavPcm(fname, disk)
        case Err(e) => Err(e)
        case Ok(_) => ReadPath(fname, disk.open(tmp))
  }

  /** A file on the fast path is decoded as it is: the re-encoder and the
      temporary file play no part. */
  lemma FastPathIgnoresConverter(fname: string, tmp: string, disk: Disk, other: Disk)
    requires disk.open(fname).Opened? && Direct(disk.open(fname).file)
    requires other.open(fname) == disk.open(fname)
    ensures LoadSound(fname, tmp, disk) == ReadAndDecode(disk.open(fname).file)
    ensures LoadSound(fname, tmp, other) == LoadSound(fname, tmp, disk)
  {
  }

  /** Any other file is decoded only from the re-encoded temporary file, and
      only once the re-encoding succeeded. */
  lemma SlowPathDecodesTemporary(fname: string, tmp: string, disk: Disk)
    requires disk.open(fname).Opened? && !Direct(disk.open(fname).file)
    ensures TransformToWavPcm(fname, disk).Err? ==>
      LoadSound(fname, tmp, disk) == Err(TransformToWavPcm(fname, disk).error)
    ensures TransformToWavPcm(fname, disk).Ok? && disk.open(tmp).Opened? ==>
      LoadSound(fname, tmp, disk) == ReadAndDecode(disk.open(tmp).file)
  {
  }

  /** A file the WAV reader rejects is reported as a `ValueError` naming it. */
  lemma WaveErrorIsValueError(fname: string, tmp: string, disk: Disk)
    requires disk.open(fname).WaveError?
    ensures LoadSound(fname, tmp, disk) == Err(ValueError(NotWavMessage(fname, disk.open(fname).detail)))
  {
  }

  /** A file that ends inside its header is not a `wave.Error`: its
      `EOFError` escapes `load_sound` unchanged, on the fast path and when it
      is the temporary file that is cut short. */
  lemma TruncatedHeaderEscapes(fname: string, tmp: string, disk: Disk)
    ensures disk.open(fname).Truncated? ==>
      LoadSound(fname, tmp, disk) == Err(EOFError(disk.open(fname).detail))
    ensures (disk.open(fname).Opened? && !Direct(disk.open(fname).file) &&
             TransformToWavPcm(fname, disk).Ok? && disk.open(tmp).Truncated?) ==>
      LoadSound(fname, tmp, disk) == Err(EOFError(disk.open(tmp).detail))
    ensures (LoadSound(fname, tmp, disk).Err? && LoadSound(fname, tmp, disk).error.EOFError?) ==>
      disk.open(fname).Truncated? || disk.open(tmp).Truncated?
  {
  }

  /** A file without frames loads as nothing, on either path, rather than failing. */
  lemma EmptyFileIsSilence(fname: string, tmp: string, disk: Disk)
    requires disk.open(fname).Opened? && disk.open(fname).file.frames == 0
    requires !Direct(disk.open(fname).file) ==>
      TransformToWavPcm(fname, disk).Ok? && disk.open(tmp).Opened? && disk.open(tmp).file.frames == 0
    ensures LoadSound(fname, tmp, disk) == Ok(Silence)
  {
  }
}
