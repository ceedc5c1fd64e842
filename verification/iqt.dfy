/**
 `read_iqt`: an IQT file opens with a length-prefixed text header (one digit
 `d`, then `d` digits giving the header size `h`, then `h` bytes of
 `key = value` lines) and continues with frames of 4120 bytes: a 24-byte frame
 header and 2048 little-endian 16-bit words, alternately Q and I. The reader
 seeks to the start frame, reads the requested frames, and writes the samples
 of frame `i` to positions `1024 * i` onwards of a zero-filled buffer.
 */
module Iqt {
  import opened Common
  import opened Text
  import TextHeader
  import opened Window

  const FrameHeaderSize: nat := 24
  const SamplesPerFrame: nat := 1024

  /** Frame header plus 2 * 1024 words of two bytes. */
  const FrameSize: nat := 4120

  // ---------------------------------------------------------------------------
  // Header prefix

  /** `int(b.decode('utf8'))` */
  function ReadNumber(b: seq<byte>): Result<nat>
  {
    match Decode(b)
    case Err(e) => Err(e)
    case Ok(t) => ParseInt(t)
  }

  /**
   The header prefix: the digit count `d`, the header size `h`, the header
   bytes as read (fewer than `h` at the end of the file), and the offset of the
   first frame.
   */
  datatype Prefix = Prefix(digits: nat, headerSize: nat, header: seq<byte>, dataOffset: nat)

  function ParsePrefix(file: seq<byte>): (r: Result<Prefix>)
    ensures r.Ok? ==> r.value.dataOffset == 1 + r.value.digits + r.value.headerSize
    ensures r.Ok? ==> |r.value.header| <= r.value.headerSize
  {
    match ReadNumber(ReadAt(file, 0, 1))
    case Err(e) => Err(e)
    case Ok(d) =>
      match ReadNumber(ReadAt(file, 1, d))
      case Err(e) => Err(e)
      case Ok(h) => Ok(Prefix(d, h, ReadAt(file, 1 + d, h), 1 + d + h))
  }

  /** Printing a number in ASCII and reading it back gives the number. */
  lemma ReadNumberText(n: nat)
    ensures IsAscii(DecimalText(n))
    ensures ReadNumber(AsciiBytes(DecimalText(n))) == Ok(n)
  {
    var s := DecimalText(n);
    assert IsAscii(s);
    DecodeAsciiBytes(s);
    StripUnchanged(s);
    ParseDecimalText(n);
  }

  /** The prefix that announces a header of `|header|` bytes. */
  function EncodePrefix(header: seq<byte>): (b: seq<byte>)
    requires |DecimalText(|header|)| <= 9
  {
    var ds := DecimalText(|header|);
    ReadNumberText(|ds|);
    ReadNumberText(|header|);
    AsciiBytes(DecimalText(|ds|)) + AsciiBytes(ds) + header
  }

  lemma ReadAtMiddle(a: seq<byte>, b: seq<byte>, c: seq<byte>)
    ensures ReadAt(a + b + c, |a|, |b|) == b
  {
    assert (a + b + c)[|a|..|a| + |b|] == b;
  }

  /** A prefix read with `d` digits announcing `h` header bytes, of which `header` were read. */
  predicate Announces(r: Result<Prefix>, d: nat, h: nat, header: seq<byte>)
  {
    r.Ok? && r.value.digits == d && r.value.headerSize == h && r.value.header == header &&
    r.value.dataOffset == 1 + d + h
  }

  /** Where the two numbers read well, the prefix is the one they announce. */
  lemma ParsePrefixAt(file: seq<byte>, d: nat, h: nat)
    requires ReadNumber(ReadAt(file, 0, 1)) == Ok(d) && ReadNumber(ReadAt(file, 1, d)) == Ok(h)
    ensures Announces(ParsePrefix(file), d, h, ReadAt(file, 1 + d, h))
  {
  }

  lemma ParsePrefixParts(file: seq<byte>, a: seq<byte>, b: seq<byte>, header: seq<byte>)
    requires ReadAt(file, 0, 1) == a && ReadAt(file, 1, |b|) == b && ReadAt(file, 1 + |b|, |header|) == header
    requires ReadNumber(a) == Ok(|b|) && ReadNumber(b) == Ok(|header|)
    ensures Announces(ParsePrefix(file), |b|, |header|, header)
  {
    ParsePrefixAt(file, |b|, |header|);
  }

  lemma ReadAtsOf(a: seq<byte>, b: seq<byte>, header: seq<byte>, rest: seq<byte>)
    requires |a| == 1
    ensures var file := a + b + header + rest;
      ReadAt(file, 0, 1) == a && ReadAt(file, 1, |b|) == b && ReadAt(file, 1 + |b|, |header|) == header
  {
    var file := a + b + header + rest;
    assert file == [] + a + (b + header + rest);
    ReadAtMiddle([], a, b + header + rest);
    assert file == a + b + (header + rest);
    ReadAtMiddle(a, b, header + rest);
    ReadAtMiddle(a + b, header, rest);
  }

  /** A one-byte digit count, the digits of the header size, the header, then anything. */
  lemma ParsePrefixOf(a: seq<byte>, b: seq<byte>, header: seq<byte>, rest: seq<byte>)
    requires |a| == 1 && ReadNumber(a) == Ok(|b|) && ReadNumber(b) == Ok(|header|)
    ensures Announces(ParsePrefix(a + b + header + rest), |b|, |header|, header)
  {
    ReadAtsOf(a, b, header, rest);
    ParsePrefixParts(a + b + header + rest, a, b, header);
  }

  lemma EncodePrefixParts(header: seq<byte>, rest: seq<byte>)
    requires |DecimalText(|header|)| <= 9
    ensures var ds := DecimalText(|header|);
      |AsciiBytes(DecimalText(|ds|))| == 1 &&
      EncodePrefix(header) + rest == AsciiBytes(DecimalText(|ds|)) + AsciiBytes(ds) + header + rest
  {
  }

  /** The prefix reader takes back the header a prefix announces, whatever follows it. */
  lemma PrefixRoundTrip(header: seq<byte>, rest: seq<byte>)
    requires |DecimalText(|header|)| <= 9
    ensures var ds := DecimalText(|header|);
      Announces(ParsePrefix(EncodePrefix(header) + rest), |ds|, |header|, header)
  {
    var ds := DecimalText(|header|);
    ReadNumberText(|ds|);
    ReadNumberText(|header|);
    EncodePrefixParts(header, rest);
    ParsePrefixOf(AsciiBytes(DecimalText(|ds|)), AsciiBytes(ds), header, rest);
  }

  // ---------------------------------------------------------------------------
  // Header dictionary

  /** The key whose value `fs` divides by. */
  const FrameLengthKey: string := "FrameLength"

  /** Keys read with `float()`, in the order the reader looks them up. */
  const FloatKeys: seq<string> := ["MaxInputLevel", "LevelOffset", FrameLengthKey, "GainOffset", "CenterFrequency", "Span"]

  /** The keys looked up after `FFTPoints`, in order. */
  const KeysAfterPoints: seq<string> := FloatKeys + ["ValidFrames", "DateTime"]

  /** Every key the reader looks up, in the order it looks them up. */
  const RequiredKeys: seq<string> := ["FFTPoints"] + KeysAfterPoints

  /** The first of `keys` missing from `d`. */
  function FirstMissing(d: map<string, string>, keys: seq<string>): (r: Option<string>)
    ensures r.None? <==> forall k :: 0 <= k < |keys| ==> keys[k] in d
    ensures r.Some? ==> r.value in keys && r.value !in d
  {
    if |keys| == 0 then None
    else if keys[0] !in d then Some(keys[0])
    else FirstMissing(d, keys[1..])
  }

  lemma {:induction false} FirstMissingAppend(d: map<string, string>, a: seq<string>, b: seq<string>)
    ensures FirstMissing(d, a + b) == if FirstMissing(d, a).Some? then FirstMissing(d, a) else FirstMissing(d, b)
  {
    if |a| > 0 {
      assert (a + b)[0] == a[0] && (a + b)[1..] == a[1..] + b;
      FirstMissingAppend(d, a[1..], b);
    } else {
      assert a + b == b;
    }
  }

  /**
   What the reader takes from the header: the frame length it divides by and
   the sampling frequency `fs = FFTPoints / FrameLength` come with the counts.
   */
  datatype IqtHeader = IqtHeader(
    lines: seq<string>, fftPoints: nat, validFrames: nat, dateTime: string,
    numberSamples: nat, frameLength: real, fs: real, dataOffset: nat)

  /** `int(d[key])`: a `KeyError` when the key is missing. */
  function Count(d: map<string, string>, key: string): (r: Result<nat>)
    ensures r.Ok? ==> key in d && ParseInt(d[key]) == r
    ensures r.Err? && r.error.KeyError? ==> key !in d && r.error.key == key
    ensures key in d ==> r == ParseInt(d[key])
    ensures key !in d ==> r == Err(KeyError(key))
  {
    if key !in d then Err(KeyError(key)) else ParseInt(d[key])
  }

  /**
   `float(d[key])` for each of `keys` in turn, where `toFloat` is Python's
   `float()` of a header value (`None` where it raises `ValueError`): the first
   key that is missing or unreadable stops the lookups.
   */
  function Floats(d: map<string, string>, keys: seq<string>, toFloat: string -> Option<real>): (r: Result<seq<real>>)
    ensures r.Ok? <==> forall k :: 0 <= k < |keys| ==> keys[k] in d && toFloat(d[keys[k]]).Some?
    ensures r.Ok? ==> (
      |r.value| == |keys| &&
      forall k :: 0 <= k < |keys| ==> keys[k] in d && toFloat(d[keys[k]]) == Some(r.value[k]))
    ensures r.Err? ==> r.error.KeyError? || r.error.ValueError?
    ensures r.Err? && r.error.KeyError? ==> FirstMissing(d, keys) == Some(r.error.key)
  {
    if |keys| == 0 then Ok([])
    else if keys[0] !in d then Err(KeyError(keys[0]))
    else
      match toFloat(d[keys[0]])
      case None => Err(ValueError(d[keys[0]]))
      case Some(x) =>
        match Floats(d, keys[1..], toFloat)
        case Err(e) => Err(e)
        case Ok(xs) =>
          assert forall k :: 1 <= k < |keys| ==> keys[k] == keys[1..][k - 1];
          Ok([x] + xs)
  }

  /** Every float-valued key is present and readable. */
  predicate FloatsRead(d: map<string, string>, toFloat: string -> Option<real>)
  {
    forall k :: 0 <= k < |FloatKeys| ==> FloatKeys[k] in d && toFloat(d[FloatKeys[k]]).Some?
  }

  /**
   A header the lookups accept: no required key missing, both counts
   numerals, every float value readable and a frame length other than zero.
   */
  predicate HeaderComplete(d: map<string, string>, toFloat: string -> Option<real>)
  {
    FirstMissing(d, RequiredKeys).None? &&
    Count(d, "FFTPoints").Ok? && Count(d, "ValidFrames").Ok? &&
    FloatsRead(d, toFloat) &&
    FrameLengthKey in d && toFloat(d[FrameLengthKey]) != Some(0.0)
  }

  /** The header fields that a successful lookup on `d` reports. */
  predicate Reports(d: map<string, string>, toFloat: string -> Option<real>, h: IqtHeader)
  {
    Count(d, "FFTPoints") == Ok(h.fftPoints) &&
    Count(d, "ValidFrames") == Ok(h.validFrames) &&
    "DateTime" in d && h.dateTime == d["DateTime"] &&
    h.numberSamples == h.validFrames * h.fftPoints &&
    FrameLengthKey in d && toFloat(d[FrameLengthKey]) == Some(h.frameLength) &&
    h.frameLength != 0.0 && h.fs == h.fftPoints as real / h.frameLength
  }

  /**
   The header lookups on the dictionary `d` of `lines`, in the reader's order:
   `FFTPoints` as a numeral, the float-valued keys, `ValidFrames` as a numeral
   and `DateTime`; then `fs = FFTPoints / FrameLength`, which divides by zero
   for a zero frame length.
   */
  function Lookup(d: map<string, string>, lines: seq<string>, dataOffset: nat, toFloat: string -> Option<real>): (r: Result<IqtHeader>)
    ensures r.Err? && r.error.KeyError? ==> r.error.key !in d
    ensures r.Ok? ==> r.value.lines == lines && r.value.dataOffset == dataOffset && Reports(d, toFloat, r.value)
  {
    match Count(d, "FFTPoints")
    case Err(e) => Err(e)
    case Ok(fft) => LookupAfterPoints(d, lines, dataOffset, toFloat, fft)
  }

  /** The lookups after `FFTPoints` has been read as `fft`. */
  function LookupAfterPoints(d: map<string, string>, lines: seq<string>, dataOffset: nat, toFloat: string -> Option<real>, fft: nat): (r: Result<IqtHeader>)
    ensures r.Err? && r.error.KeyError? ==> r.error.key !in d
    ensures r.Ok? ==> r.value.lines == lines && r.value.dataOffset == dataOffset && r.value.fftPoints == fft
    ensures r.Ok? && Count(d, "FFTPoints") == Ok(fft) ==> Reports(d, toFloat, r.value)
  {
    match Floats(d, FloatKeys, toFloat)
    case Err(e) => Err(e)
    case Ok(fl) =>
      match Count(d, "ValidFrames")
      case Err(e) => Err(e)
      case Ok(vf) =>
        if "DateTime" !in d then Err(KeyError("DateTime"))
        else
          assert FloatKeys[2] == FrameLengthKey;
          var frameLength := fl[2];
          if frameLength == 0.0 then Err(ZeroDivisionError)
          else Ok(MakeHeader(lines, fft, vf, d["DateTime"], frameLength, dataOffset))
  }

  /** The header the lookups assemble, with `number_samples` and `fs` derived from the counts. */
  function MakeHeader(lines: seq<string>, fft: nat, vf: nat, dateTime: string, frameLength: real, dataOffset: nat): (h: IqtHeader)
    requires frameLength != 0.0
    ensures h.lines == lines && h.fftPoints == fft && h.validFrames == vf && h.dateTime == dateTime
    ensures h.frameLength == frameLength && h.dataOffset == dataOffset
    ensures h.numberSamples == vf * fft && h.fs == fft as real / frameLength
  {
    IqtHeader(lines, fft, vf, dateTime, vf * fft, frameLength, fft as real / frameLength, dataOffset)
  }

  lemma FirstMissingOne(d: map<string, string>, key: string)
    ensures FirstMissing(d, [key]) == if key in d then None else Some(key)
  {
    assert [key][1..] == [];
  }

  /**
   The lookups succeed exactly when the header is complete; a `KeyError`
   names the first missing key in lookup order.
   */
  lemma LookupKeys(d: map<string, string>, lines: seq<string>, dataOffset: nat, toFloat: string -> Option<real>)
    ensures Lookup(d, lines, dataOffset, toFloat).Ok? <==> HeaderComplete(d, toFloat)
    ensures var r := Lookup(d, lines, dataOffset, toFloat);
      r.Err? && r.error.KeyError? ==> FirstMissing(d, RequiredKeys) == Some(r.error.key)
    ensures FirstMissing(d, RequiredKeys).None? && Count(d, "FFTPoints").Ok? && !FloatsRead(d, toFloat) ==>
      Lookup(d, lines, dataOffset, toFloat).Err? && Lookup(d, lines, dataOffset, toFloat).error.ValueError?
    ensures (FirstMissing(d, RequiredKeys).None? && Count(d, "FFTPoints").Ok? && Count(d, "ValidFrames").Ok? &&
      FloatsRead(d, toFloat) && FrameLengthKey in d && toFloat(d[FrameLengthKey]) == Some(0.0)) ==>
      Lookup(d, lines, dataOffset, toFloat) == Err(ZeroDivisionError)
  {
    FirstMissingAppend(d, ["FFTPoints"], KeysAfterPoints);
    FirstMissingOne(d, "FFTPoints");
    if Count(d, "FFTPoints").Ok? {
      var fft := Count(d, "FFTPoints").value;
      AfterPointsOk(d, lines, dataOffset, toFloat, fft);
      AfterPointsKeyError(d, lines, dataOffset, toFloat, fft);
      if FirstMissing(d, KeysAfterPoints).None? && !FloatsRead(d, toFloat) {
        AfterPointsValueError(d, lines, dataOffset, toFloat, fft);
      }
      if FirstMissing(d, KeysAfterPoints).None? && Count(d, "ValidFrames").Ok? && FloatsRead(d, toFloat) &&
        FrameLengthKey in d && toFloat(d[FrameLengthKey]) == Some(0.0) {
        AfterPointsZero(d, lines, dataOffset, toFloat, fft);
      }
    }
  }

  /** The lookups after `FFTPoints` succeed exactly when the rest of the header is complete. */
  lemma AfterPointsOk(d: map<string, string>, lines: seq<string>, dataOffset: nat, toFloat: string -> Option<real>, fft: nat)
    ensures LookupAfterPoints(d, lines, dataOffset, toFloat, fft).Ok? <==> (
      FirstMissing(d, KeysAfterPoints).None? && Count(d, "ValidFrames").Ok? &&
      FloatsRead(d, toFloat) && FrameLengthKey in d && toFloat(d[FrameLengthKey]) != Some(0.0))
  {
    FirstMissingAppend(d, FloatKeys, ["ValidFrames", "DateTime"]);
    FirstMissingAppend(d, ["ValidFrames"], ["DateTime"]);
    assert ["ValidFrames"] + ["DateTime"] == ["ValidFrames", "DateTime"];
    FirstMissingOne(d, "ValidFrames");
    FirstMissingOne(d, "DateTime");
    assert FloatKeys[2] == FrameLengthKey;
  }

  /** A `KeyError` after `FFTPoints` names the first of the later keys that is missing. */
  lemma AfterPointsKeyError(d: map<string, string>, lines: seq<string>, dataOffset: nat, toFloat: string -> Option<real>, fft: nat)
    ensures var r := LookupAfterPoints(d, lines, dataOffset, toFloat, fft);
      r.Err? && r.error.KeyError? ==> FirstMissing(d, KeysAfterPoints) == Some(r.error.key)
  {
    FirstMissingAppend(d, FloatKeys, ["ValidFrames", "DateTime"]);
    FirstMissingAppend(d, ["ValidFrames"], ["DateTime"]);
    assert ["ValidFrames"] + ["DateTime"] == ["ValidFrames", "DateTime"];
    FirstMissingOne(d, "ValidFrames");
    FirstMissingOne(d, "DateTime");
  }

  /** With every later key present, an unreadable float value raises `ValueError`. */
  lemma AfterPointsValueError(d: map<string, string>, lines: seq<string>, dataOffset: nat, toFloat: string -> Option<real>, fft: nat)
    requires FirstMissing(d, KeysAfterPoints).None? && !FloatsRead(d, toFloat)
    ensures var r := LookupAfterPoints(d, lines, dataOffset, toFloat, fft);
      r.Err? && r.error.ValueError?
  {
    FirstMissingAppend(d, FloatKeys, ["ValidFrames", "DateTime"]);
  }

  /** With everything else readable, a zero frame length raises `ZeroDivisionError`. */
  lemma AfterPointsZero(d: map<string, string>, lines: seq<string>, dataOffset: nat, toFloat: string -> Option<real>, fft: nat)
    requires FirstMissing(d, KeysAfterPoints).None? && Count(d, "ValidFrames").Ok? && FloatsRead(d, toFloat)
    requires FrameLengthKey in d && toFloat(d[FrameLengthKey]) == Some(0.0)
    ensures LookupAfterPoints(d, lines, dataOffset, toFloat, fft) == Err(ZeroDivisionError)
  {
    FirstMissingAppend(d, FloatKeys, ["ValidFrames", "DateTime"]);
    FirstMissingAppend(d, ["ValidFrames"], ["DateTime"]);
    assert ["ValidFrames"] + ["DateTime"] == ["ValidFrames", "DateTime"];
    FirstMissingOne(d, "DateTime");
    assert FloatKeys[2] == FrameLengthKey;
  }

  /** The header of a file: prefix, text decoding, line split and lookups. */
  function ReadIqtHeader(file: seq<byte>, toFloat: string -> Option<real>): (r: Result<IqtHeader>)
    ensures r.Ok? <==> (
      ParsePrefix(file).Ok? && Decode(ParsePrefix(file).value.header).Ok? &&
      HeaderComplete(TextHeader.Parse(Split(Decode(ParsePrefix(file).value.header).value, '\n')), toFloat))
    ensures ParsePrefix(file).Ok? && Decode(ParsePrefix(file).value.header).Ok? && r.Err? && r.error.KeyError? ==>
      FirstMissing(TextHeader.Parse(Split(Decode(ParsePrefix(file).value.header).value, '\n')), RequiredKeys) == Some(r.error.key)
    ensures r.Ok? ==> r.value.dataOffset == ParsePrefix(file).value.dataOffset
    ensures r.Ok? ==> r.value.lines == Split(Decode(ParsePrefix(file).value.header).value, '\n')
    ensures r.Ok? ==> Reports(TextHeader.Parse(r.value.lines), toFloat, r.value)
  {
    match ParsePrefix(file)
    case Err(e) => Err(e)
    case Ok(p) =>
      match Decode(p.header)
      case Err(e) => Err(e)
      case Ok(text) =>
        var lines := Split(text, '\n');
        LookupKeys(TextHeader.Parse(lines), lines, p.dataOffset, toFloat);
        Lookup(TextHeader.Parse(lines), lines, p.dataOffset, toFloat)
  }

  // ---------------------------------------------------------------------------
  // Frames

  /** Data word `j` of a frame: a little-endian 16-bit integer after the frame header. */
  function DataWord(frame: seq<byte>, j: nat): int
    requires FrameHeaderSize + 2 * j + 2 <= |frame|
  {
    Int16LE(frame[FrameHeaderSize + 2 * j], frame[FrameHeaderSize + 2 * j + 1])
  }

  /** The samples of one frame: word `2k` is Q and word `2k + 1` is I of sample `k`. */
  function FrameSamples(frame: seq<byte>): (xs: seq<IQ>)
    requires |frame| == FrameSize
    ensures |xs| == SamplesPerFrame
    ensures forall k :: 0 <= k < SamplesPerFrame ==> xs[k] == IQ(DataWord(frame, 2 * k + 1), DataWord(frame, 2 * k))
  {
    seq(SamplesPerFrame, k requires 0 <= k < SamplesPerFrame => IQ(DataWord(frame, 2 * k + 1), DataWord(frame, 2 * k)))
  }

  /** Frame `i` of a buffer of whole frames. */
  function FrameAt(ba: seq<byte>, i: nat): (frame: seq<byte>)
    requires (i + 1) * FrameSize <= |ba|
    ensures |frame| == FrameSize
  {
    ba[i * FrameSize..(i + 1) * FrameSize]
  }

  /** The samples of the first `m` frames, one after the other. */
  function FrameRun(ba: seq<byte>, m: nat): (xs: seq<IQ>)
    requires m * FrameSize <= |ba|
    ensures |xs| == SamplesPerFrame * m
  {
    if m == 0 then [] else FrameRun(ba, m - 1) + FrameSamples(FrameAt(ba, m - 1))
  }

  /** `np.zeros(n, np.complex64)` */
  function Zeros(n: nat): (xs: seq<IQ>)
    ensures |xs| == n && forall k :: 0 <= k < n ==> xs[k] == IQ(0, 0)
  {
    seq(n, k => IQ(0, 0))
  }

  /**
   The buffer the frame loop fills from `ba`: the samples of every whole frame
   read, then zeros up to `1024 * n` samples.
   */
  function Filled(ba: seq<byte>, n: nat): (xs: seq<IQ>)
    requires |ba| % FrameSize == 0 && |ba| <= n * FrameSize
    ensures |xs| == SamplesPerFrame * n
  {
    FrameRun(ba, |ba| / FrameSize) + Zeros(SamplesPerFrame * (n - |ba| / FrameSize))
  }

  /** Sample `k` of frame `i` sits at position `1024 * i + k` of the run. */
  lemma {:induction false} FrameRunAt(ba: seq<byte>, m: nat, i: nat, k: nat)
    requires m * FrameSize <= |ba| && i < m && k < SamplesPerFrame
    ensures (i + 1) * FrameSize <= |ba|
    ensures FrameRun(ba, m)[SamplesPerFrame * i + k] == FrameSamples(FrameAt(ba, i))[k]
  {
    var j := SamplesPerFrame * i + k;
    if i < m - 1 {
      FrameRunAt(ba, m - 1, i, k);
      FrameRunPrefix(ba, m, j);
      assert FrameRun(ba, m)[j] == FrameRun(ba, m - 1)[j];
    } else {
      FrameRunLast(ba, m, k);
      assert j == SamplesPerFrame * (m - 1) + k;
    }
  }

  /** Adding a frame leaves the samples before it alone. */
  lemma FrameRunPrefix(ba: seq<byte>, m: nat, j: nat)
    requires 0 < m && m * FrameSize <= |ba| && j < SamplesPerFrame * (m - 1)
    ensures FrameRun(ba, m)[j] == FrameRun(ba, m - 1)[j]
  {
    var run := FrameRun(ba, m - 1);
    assert FrameRun(ba, m) == run + FrameSamples(FrameAt(ba, m - 1));
  }

  /** The samples of the last frame of a run come last. */
  lemma FrameRunLast(ba: seq<byte>, m: nat, k: nat)
    requires 0 < m && m * FrameSize <= |ba| && k < SamplesPerFrame
    ensures FrameRun(ba, m)[SamplesPerFrame * (m - 1) + k] == FrameSamples(FrameAt(ba, m - 1))[k]
  {
    var run := FrameRun(ba, m - 1);
    var last := FrameSamples(FrameAt(ba, m - 1));
    assert FrameRun(ba, m) == run + last;
    assert SamplesPerFrame * (m - 1) + k == |run| + k;
  }

  /**
   The frame loop: a zero buffer of `1024 * n` samples, in which the samples of
   every whole frame read are written at `1024 * i`.
   */
  method Deinterleave(ba: seq<byte>, n: nat) returns (out: seq<IQ>)
    requires |ba| % FrameSize == 0 && |ba| <= n * FrameSize
    ensures out == Filled(ba, n)
  {
    var frames := |ba| / FrameSize;
    out := Zeros(SamplesPerFrame * n);
    var i := 0;
    while i < frames
      invariant 0 <= i <= frames
      invariant out == FrameRun(ba, i) + Zeros(SamplesPerFrame * (n - i))
    {
      var temp := FrameSamples(FrameAt(ba, i));
      ghost var run := FrameRun(ba, i);
      ZerosSplit(run, SamplesPerFrame * (n - i));
      out := out[..SamplesPerFrame * i] + temp + out[SamplesPerFrame * (i + 1)..];
      i := i + 1;
    }
  }

  lemma ZerosSplit(run: seq<IQ>, m: nat)
    requires m >= SamplesPerFrame
    ensures (run + Zeros(m))[..|run|] == run
    ensures (run + Zeros(m))[|run| + SamplesPerFrame..] == Zeros(m - SamplesPerFrame)
  {
  }

  // ---------------------------------------------------------------------------
  // Frame encoding

  /** The data words of a frame: Q then I of every sample, little-endian. */
  function PairWords(xs: seq<IQ>): (b: seq<byte>)
    requires forall k :: 0 <= k < |xs| ==> IsInt16(xs[k].i) && IsInt16(xs[k].q)
    ensures |b| == 4 * |xs|
  {
    if |xs| == 0 then [] else Int16LEBytes(xs[0].q) + Int16LEBytes(xs[0].i) + PairWords(xs[1..])
  }

  /** A frame holding `xs` behind the 24-byte frame header `hdr`. */
  function EncodeFrame(hdr: seq<byte>, xs: seq<IQ>): (frame: seq<byte>)
    requires |hdr| == FrameHeaderSize && |xs| == SamplesPerFrame
    requires forall k :: 0 <= k < |xs| ==> IsInt16(xs[k].i) && IsInt16(xs[k].q)
    ensures |frame| == FrameSize
  {
    hdr + PairWords(xs)
  }

  lemma {:induction false} PairWordsAt(xs: seq<IQ>, k: nat)
    requires forall k :: 0 <= k < |xs| ==> IsInt16(xs[k].i) && IsInt16(xs[k].q)
    requires k < |xs|
    ensures var b := PairWords(xs);
      Int16LE(b[4 * k], b[4 * k + 1]) == xs[k].q && Int16LE(b[4 * k + 2], b[4 * k + 3]) == xs[k].i
  {
    var b := PairWords(xs);
    if k == 0 {
      var q, i := Int16LEBytes(xs[0].q), Int16LEBytes(xs[0].i);
      assert b[0] == q[0] && b[1] == q[1] && b[2] == i[0] && b[3] == i[1];
    } else {
      PairWordsAt(xs[1..], k - 1);
      var rest := PairWords(xs[1..]);
      var j := 4 * (k - 1);
      assert b[4 * k] == rest[j] && b[4 * k + 1] == rest[j + 1];
      assert b[4 * k + 2] == rest[j + 2] && b[4 * k + 3] == rest[j + 3];
    }
  }

  /** The samples of an encoded frame are the samples encoded, whatever its frame header. */
  lemma FrameRoundTrip(hdr: seq<byte>, xs: seq<IQ>)
    requires |hdr| == FrameHeaderSize && |xs| == SamplesPerFrame
    requires forall k :: 0 <= k < |xs| ==> IsInt16(xs[k].i) && IsInt16(xs[k].q)
    ensures FrameSamples(EncodeFrame(hdr, xs)) == xs
  {
    var frame := EncodeFrame(hdr, xs);
    var ys := FrameSamples(frame);
    forall k | 0 <= k < SamplesPerFrame
      ensures ys[k] == xs[k]
    {
      PairWordsAt(xs, k);
      var b := PairWords(xs);
      assert frame[FrameHeaderSize + 4 * k] == b[4 * k];
      assert frame[FrameHeaderSize + 4 * k + 1] == b[4 * k + 1];
      assert frame[FrameHeaderSize + 4 * k + 2] == b[4 * k + 2];
      assert frame[FrameHeaderSize + 4 * k + 3] == b[4 * k + 3];
    }
  }

  // ---------------------------------------------------------------------------
  // The reader

  /** File position of the first requested frame. */
  function FramesStart(dataOffset: nat, req: Request): nat
    requires Valid(req)
  {
    dataOffset + (req.sframes - 1) * FrameSize
  }

  /** The bytes the reader gets for the requested frames. */
  function FrameBytes(file: seq<byte>, dataOffset: nat, req: Request): (ba: seq<byte>)
    requires Valid(req)
    ensures |ba| <= req.nframes * FrameSize
  {
    ReadAt(file, FramesStart(dataOffset, req), req.nframes * FrameSize)
  }

  /**
   `read_iqt`: the header lookups, then the frames from `sframes` on. The
   buffer always holds `1024 * nframes` samples, zero after the frames read;
   a read that ends inside a frame is refused by numpy.
   */
  method ReadIqt(file: seq<byte>, toFloat: string -> Option<real>, req: Request, st: ReaderState) returns (r: Result<(ReaderState, IqtHeader)>)
    requires Valid(req)
    ensures r.Err? <==> (
      ReadIqtHeader(file, toFloat).Err? ||
      |FrameBytes(file, ReadIqtHeader(file, toFloat).value.dataOffset, req)| % FrameSize != 0)
    ensures ReadIqtHeader(file, toFloat).Ok? && |FrameBytes(file, ReadIqtHeader(file, toFloat).value.dataOffset, req)| % FrameSize != 0 ==>
      r == Err(BufferSizeError(|FrameBytes(file, ReadIqtHeader(file, toFloat).value.dataOffset, req)|, FrameSize))
    ensures r.Ok? ==>
      var ba := FrameBytes(file, r.value.1.dataOffset, req);
      r.value.1 == ReadIqtHeader(file, toFloat).value &&
      r.value.0.lframes == req.lframes && r.value.0.nframes == req.nframes &&
      r.value.0.data == Some(Filled(ba, req.nframes))
  {
    var st1 := st.(lframes := req.lframes, nframes := req.nframes);
    var hdr := ReadIqtHeader(file, toFloat);
    if hdr.Err? {
      return Err(hdr.error);
    }
    var ba := FrameBytes(file, hdr.value.dataOffset, req);
    if |ba| % FrameSize != 0 {
      return Err(BufferSizeError(|ba|, FrameSize));
    }
    var out := Deinterleave(ba, req.nframes);
    return Ok((st1.(data := Some(out)), hdr.value));
  }

  /**
   When the requested frames lie inside the file, every one of them is read:
   sample `k` of requested frame `i` is taken from frame `sframes - 1 + i`
   counted from the data offset.
   */
  lemma ReadIqtFullWindow(file: seq<byte>, dataOffset: nat, req: Request, i: nat, k: nat)
    requires Valid(req) && FramesStart(dataOffset, req) + req.nframes * FrameSize <= |file|
    requires i < req.nframes && k < SamplesPerFrame
    ensures var ba := FrameBytes(file, dataOffset, req);
      var p := dataOffset + (req.sframes - 1 + i) * FrameSize;
      |ba| / FrameSize == req.nframes && p + FrameSize <= |file| &&
      FrameRun(ba, req.nframes)[SamplesPerFrame * i + k] == FrameSamples(file[p..p + FrameSize])[k]
  {
    var ba := FrameBytes(file, dataOffset, req);
    var s := FramesStart(dataOffset, req);
    var n := req.nframes;
    assert ba == file[s..s + n * FrameSize];
    assert |ba| / FrameSize == n by {
      DivideWhole(n);
    }
    FrameRunAt(ba, n, i, k);
    var p := dataOffset + (req.sframes - 1 + i) * FrameSize;
    assert p == s + i * FrameSize;
    SliceOfSlice(file, s, s + n * FrameSize, i * FrameSize, (i + 1) * FrameSize);
  }

  lemma DivideWhole(n: nat)
    ensures (n * FrameSize) / FrameSize == n
  {
  }

  lemma SliceOfSlice<T>(s: seq<T>, lo: nat, hi: nat, x: nat, y: nat)
    requires lo <= hi <= |s| && x <= y <= hi - lo
    ensures s[lo..hi][x..y] == s[lo + x..lo + y]
  {
    var a := s[lo..hi];
    forall j | 0 <= j < y - x
      ensures a[x..y][j] == s[lo + x..lo + y][j]
    {
      assert a[x..y][j] == a[x + j] == s[lo + x + j];
    }
  }
}
