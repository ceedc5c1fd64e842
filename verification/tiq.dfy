/**
 `read_tiq`: a TIQ file opens with an XML header whose first line carries the
 header size between double quotes; the payload after it is a flat run of
 little-endian 32-bit integers, I then Q for every sample.
 */
module Tiq {
  import opened Common
  import opened Text
  import opened Window

  // ---------------------------------------------------------------------------
  // Data offset

  /** Whether a byte ends a line when the file is read as text: `\n` or `\r`. */
  predicate IsLineEnd(b: byte)
  {
    b == 10 || b == 13
  }

  /**
   `f.readline()` on a file opened in text mode: the bytes up to the first line
   end, followed by a newline, or the whole file when it has no line end. A
   `\r` and a `\r\n` end the line like a `\n` and are read as one `\n`.
   */
  function FirstLine(file: seq<byte>): (line: seq<byte>)
    ensures |line| <= |file|
    ensures forall k :: 0 <= k < |line| - 1 ==> line[k] == file[k] && !IsLineEnd(line[k])
    ensures (forall k :: 0 <= k < |file| ==> !IsLineEnd(file[k])) ==> line == file
    ensures (exists k :: 0 <= k < |file| && IsLineEnd(file[k])) ==>
      |line| > 0 && line[|line| - 1] == 10 && IsLineEnd(file[|line| - 1])
  {
    if |file| == 0 then []
    else if IsLineEnd(file[0]) then [10]
    else
      var tail := FirstLine(file[1..]);
      assert forall k :: 1 <= k < |file| ==> file[k] == file[1..][k - 1];
      [file[0]] + tail
  }

  /** `int(line.split('"')[1])`: the header size written between the first two quotes. */
  function DataOffset(file: seq<byte>): (r: Result<nat>)
    ensures r.Ok? ==> Decode(FirstLine(file)).Ok?
    ensures r.Ok? ==> (
      var pieces := Split(Decode(FirstLine(file)).value, '"');
      |pieces| >= 2 && ParseInt(pieces[1]) == r)
    ensures Decode(FirstLine(file)).Ok? && |Split(Decode(FirstLine(file)).value, '"')| < 2 ==> r == Err(IndexError)
  {
    match Decode(FirstLine(file))
    case Err(e) => Err(e)
    case Ok(line) =>
      var pieces := Split(line, '"');
      if |pieces| < 2 then Err(IndexError) else ParseInt(pieces[1])
  }

  /** The header's first line without its line end: the header size between quotes, anywhere in the line. */
  function QuotedLine(before: string, n: nat, after: string): string
  {
    before + ['"'] + DecimalText(n) + ['"'] + after
  }

  lemma QuotedLineAscii(before: string, n: nat, after: string)
    requires '"' !in before && '\n' !in before && '\r' !in before && '\n' !in after && '\r' !in after
    requires IsAscii(before) && IsAscii(after)
    ensures var line := QuotedLine(before, n, after);
      IsAscii(line) && forall k :: 0 <= k < |line| ==> line[k] != '\n' && line[k] != '\r'
  {
    var ds := DecimalText(n);
    var line := QuotedLine(before, n, after);
    assert forall k :: 0 <= k < |ds| ==> ds[k] != '\n' && ds[k] != '\r' && ds[k] as int < 128;
    forall k | 0 <= k < |line|
      ensures line[k] as int < 128 && line[k] != '\n' && line[k] != '\r'
    {
      if k < |before| {
        assert line[k] == before[k];
      } else if k == |before| || k == |before| + |ds| + 1 {
      } else if k <= |before| + |ds| {
        assert line[k] == ds[k - |before| - 1];
      } else {
        assert line[k] == after[k - |before| - |ds| - 2];
      }
    }
  }

  lemma DataOffsetOf(file: seq<byte>, line: string, n: nat)
    requires Decode(FirstLine(file)) == Ok(line)
    requires var pieces := Split(line, '"'); |pieces| >= 2 && pieces[1] == DecimalText(n)
    ensures DataOffset(file) == Ok(n)
  {
    StripUnchanged(DecimalText(n));
    ParseDecimalText(n);
  }

  /**
   A first line with the header size between quotes gives that size back,
   whichever of `\n`, `\r` or `\r\n` ends it and whatever follows it.
   */
  lemma DataOffsetOfLine(before: string, n: nat, after: string, ending: seq<byte>, rest: seq<byte>)
    requires '"' !in before && '\n' !in before && '\r' !in before && '\n' !in after && '\r' !in after
    requires IsAscii(before) && IsAscii(after)
    requires ending == [10] || ending == [13] || ending == [13, 10]
    ensures IsAscii(QuotedLine(before, n, after))
    ensures DataOffset(AsciiBytes(QuotedLine(before, n, after)) + ending + rest) == Ok(n)
  {
    var line := QuotedLine(before, n, after);
    QuotedLineAscii(before, n, after);
    var b := AsciiBytes(line);
    FirstLineOf(b, ending, rest);
    var text := line + ['\n'];
    assert IsAscii(text);
    assert b + [10] == AsciiBytes(text);
    DecodeAsciiBytes(text);
    assert text == before + ['"'] + DecimalText(n) + ['"'] + (after + ['\n']);
    SecondQuoted(before, DecimalText(n), after + ['\n']);
    DataOffsetOf(b + ending + rest, text, n);
  }

  /** The first line of bytes without a line end, ended by `\n`, `\r` or `\r\n`, followed by anything. */
  lemma {:induction false} FirstLineOf(body: seq<byte>, ending: seq<byte>, rest: seq<byte>)
    requires forall k :: 0 <= k < |body| ==> !IsLineEnd(body[k])
    requires ending == [10] || ending == [13] || ending == [13, 10]
    ensures FirstLine(body + ending + rest) == body + [10]
  {
    if |body| > 0 {
      assert (body + ending + rest)[1..] == body[1..] + ending + rest;
      FirstLineOf(body[1..], ending, rest);
    } else {
      assert body + ending + rest == ending + rest;
    }
  }

  /** The second piece of a split at quotes is the text between the first two quotes. */
  lemma SecondQuoted(before: string, middle: string, after: string)
    requires '"' !in before && '"' !in middle
    ensures var pieces := Split(before + ['"'] + middle + ['"'] + after, '"');
      |pieces| >= 2 && pieces[1] == middle
  {
    var s := before + ['"'] + middle + ['"'] + after;
    assert s == before + ['"'] + (middle + ['"'] + after);
    PartitionAtFirst(before, middle + ['"'] + after, '"');
    assert '"' in s by {
      assert s[|before|] == '"';
    }
    var tail := middle + ['"'] + after;
    assert '"' in tail by {
      assert tail[|middle|] == '"';
    }
    PartitionAtFirst(middle, after, '"');
  }

  // ---------------------------------------------------------------------------
  // Payload

  /** Sample `k`: the little-endian 32-bit I at byte `8k` and Q at byte `8k + 4`. */
  function PairAt(ba: seq<byte>, k: nat): IQ
    requires 8 * k + 8 <= |ba|
  {
    IQ(Int32LE(ba[8 * k], ba[8 * k + 1], ba[8 * k + 2], ba[8 * k + 3]),
       Int32LE(ba[8 * k + 4], ba[8 * k + 5], ba[8 * k + 6], ba[8 * k + 7]))
  }

  /**
   `np.fromstring(ba, '<i4')` viewed as 16-byte complex values: the buffer must
   hold a whole number of 32-bit values, and those a whole number of pairs.
   */
  function DecodePairs(ba: seq<byte>): (r: Result<seq<IQ>>)
    ensures r.Ok? <==> |ba| % 8 == 0
    ensures r.Ok? ==> 8 * |r.value| == |ba|
    ensures r.Ok? ==> forall k :: 0 <= k < |r.value| ==> r.value[k] == PairAt(ba, k)
    ensures r.Ok? ==> forall k :: 0 <= k < |r.value| ==> IsInt32(r.value[k].i) && IsInt32(r.value[k].q)
  {
    if |ba| % 4 != 0 then Err(BufferSizeError(|ba|, 4))
    else if (|ba| / 4) % 2 != 0 then Err(BufferSizeError(|ba| / 4, 2))
    else Ok(seq(|ba| / 8, k requires 0 <= k < |ba| / 8 => PairAt(ba, k)))
  }

  /** The bytes that store a run of 32-bit I/Q pairs. */
  function EncodePairs(xs: seq<IQ>): (ba: seq<byte>)
    requires forall k :: 0 <= k < |xs| ==> IsInt32(xs[k].i) && IsInt32(xs[k].q)
    ensures |ba| == 8 * |xs|
  {
    if |xs| == 0 then []
    else Int32LEBytes(xs[0].i) + Int32LEBytes(xs[0].q) + EncodePairs(xs[1..])
  }

  /** Sample `k` of a buffer is sample `k - 1` of the buffer without its first eight bytes. */
  lemma PairAtShift(ba: seq<byte>, k: nat)
    requires 1 <= k && 8 * k + 8 <= |ba|
    ensures PairAt(ba, k) == PairAt(ba[8..], k - 1)
  {
    var rest, j := ba[8..], 8 * (k - 1);
    assert ba[8 * k] == rest[j] && ba[8 * k + 1] == rest[j + 1];
    assert ba[8 * k + 2] == rest[j + 2] && ba[8 * k + 3] == rest[j + 3];
    assert ba[8 * k + 4] == rest[j + 4] && ba[8 * k + 5] == rest[j + 5];
    assert ba[8 * k + 6] == rest[j + 6] && ba[8 * k + 7] == rest[j + 7];
  }

  lemma PairAtFirst(i: seq<byte>, q: seq<byte>, rest: seq<byte>)
    requires |i| == 4 && |q| == 4
    ensures PairAt(i + q + rest, 0) == IQ(Int32LE(i[0], i[1], i[2], i[3]), Int32LE(q[0], q[1], q[2], q[3]))
  {
    var ba := i + q + rest;
    assert ba[0] == i[0] && ba[1] == i[1] && ba[2] == i[2] && ba[3] == i[3];
    assert ba[4] == q[0] && ba[5] == q[1] && ba[6] == q[2] && ba[7] == q[3];
  }

  lemma {:induction false} EncodePairsAt(xs: seq<IQ>, k: nat)
    requires forall k :: 0 <= k < |xs| ==> IsInt32(xs[k].i) && IsInt32(xs[k].q)
    requires k < |xs|
    ensures PairAt(EncodePairs(xs), k) == xs[k]
  {
    var ba := EncodePairs(xs);
    var i, q := Int32LEBytes(xs[0].i), Int32LEBytes(xs[0].q);
    var rest := EncodePairs(xs[1..]);
    assert ba == i + q + rest;
    if k == 0 {
      PairAtFirst(i, q, rest);
    } else {
      assert ba[8..] == rest;
      PairAtShift(ba, k);
      EncodePairsAt(xs[1..], k - 1);
    }
  }

  lemma Octuple(n: nat)
    ensures (8 * n) % 4 == 0 && ((8 * n) / 4) % 2 == 0
    ensures (8 * n) % 8 == 0 && (8 * n) / 8 == n
  {
    assert (8 * n) / 4 == 2 * n;
  }

  /** Decoding the stored bytes of a run of pairs gives the run back. */
  lemma DecodeEncodePairs(xs: seq<IQ>)
    requires forall k :: 0 <= k < |xs| ==> IsInt32(xs[k].i) && IsInt32(xs[k].q)
    ensures DecodePairs(EncodePairs(xs)) == Ok(xs)
  {
    var ba := EncodePairs(xs);
    Octuple(|xs|);
    var v := DecodePairs(ba).value;
    assert |v| == |xs|;
    forall k | 0 <= k < |xs|
      ensures v[k] == xs[k]
    {
      EncodePairsAt(xs, k);
      assert v[k] == PairAt(ba, k);
    }
    assert v == xs;
  }

  /** Decoding is positional: the samples of a slice are a slice of the samples. */
  lemma DecodeSlice(p: seq<byte>, a: nat, c: nat)
    requires |p| % 8 == 0
    ensures var d := DecodePairs(Slice(p, 8 * a, 8 * a + 8 * c));
      d.Ok? && d.value == Slice(DecodePairs(p).value, a, a + c)
  {
    var s := Slice(p, 8 * a, 8 * a + 8 * c);
    var all := DecodePairs(p).value;
    SliceSize(p, a, c);
    var d := DecodePairs(s).value;
    var w := Slice(all, a, a + c);
    assert |d| == |w|;
    forall k | 0 <= k < |d|
      ensures d[k] == w[k]
    {
      PairAtOffset(p, s, a, k);
      assert d[k] == PairAt(s, k);
      assert w[k] == all[a + k];
    }
  }

  lemma SliceSize(p: seq<byte>, a: nat, c: nat)
    requires |p| % 8 == 0
    ensures var n, s := |p| / 8, Slice(p, 8 * a, 8 * a + 8 * c);
      |s| % 8 == 0 && |s| / 8 == if a < n then Min(a + c, n) - a else 0
  {
    var n := |p| / 8;
    assert |p| == 8 * n;
    var m := if a < n then Min(a + c, n) - a else 0;
    assert |Slice(p, 8 * a, 8 * a + 8 * c)| == 8 * m;
    Octuple(m);
  }

  lemma PairAtOffset(p: seq<byte>, s: seq<byte>, a: nat, k: nat)
    requires 8 * k + 8 <= |s| && 8 * a + |s| <= |p|
    requires forall j :: 0 <= j < |s| ==> s[j] == p[8 * a + j]
    ensures 8 * (a + k) + 8 <= |p| && PairAt(s, k) == PairAt(p, a + k)
  {
    var m := 8 * (a + k);
    assert s[8 * k] == p[m] && s[8 * k + 1] == p[m + 1] && s[8 * k + 2] == p[m + 2] && s[8 * k + 3] == p[m + 3];
    assert s[8 * k + 4] == p[m + 4] && s[8 * k + 5] == p[m + 5] && s[8 * k + 6] == p[m + 6] && s[8 * k + 7] == p[m + 7];
  }

  // ---------------------------------------------------------------------------
  // The reader

  /** What the reader keeps besides the samples. */
  datatype TiqInfo = TiqInfo(dataOffset: nat, header: seq<byte>, numberSamples: nat, nframesTot: nat)

  /** The payload bytes of the requested window: eight bytes per sample. */
  function WindowBytes(file: seq<byte>, dataOffset: nat, req: Request): (ba: seq<byte>)
    requires Valid(req)
    ensures |ba| <= 8 * WindowSize(req)
    ensures |ba| < 8 * WindowSize(req) ==> dataOffset + 8 * StartSample(req) + |ba| >= |file|
    ensures forall k :: 0 <= k < |ba| ==>
      dataOffset + 8 * StartSample(req) + k < |file| && ba[k] == file[dataOffset + 8 * StartSample(req) + k]
  {
    ReadAt(file, dataOffset + 8 * StartSample(req), 8 * WindowSize(req))
  }

  /**
   `read_tiq`. The XML header is not parsed here: `numberSamples` stands for
   the `NumberSamples` element the header carries, and `fs` for the sampling
   frequency in effect once the header is read (the `SamplingFrequency`
   element, or the object's earlier value, `0.0` when never set).
   */
  method ReadTiq(file: seq<byte>, numberSamples: nat, fs: real, req: Request, st: ReaderState)
    returns (r: Result<(ReaderState, TiqInfo)>)
    requires Valid(req)
    ensures DataOffset(file).Err? ==> r == Err(DataOffset(file).error)
    ensures DataOffset(file).Ok? && (fs == 0.0 || req.lframes == 0) ==> r == Err(ZeroDivisionError)
    ensures r.Ok? <==> (
      DataOffset(file).Ok? && fs != 0.0 && req.lframes > 0 &&
      |WindowBytes(file, DataOffset(file).value, req)| % 8 == 0)
    ensures r.Ok? ==> (
      var off := DataOffset(file).value;
      var ba := WindowBytes(file, off, req);
      r.value.1.dataOffset == off && r.value.1.header == ReadAt(file, 0, off) &&
      r.value.1.numberSamples == numberSamples &&
      Ok(r.value.1.nframesTot) == FramesTotal(numberSamples, req.lframes) &&
      r.value.0.lframes == req.lframes && r.value.0.nframes == req.nframes &&
      r.value.0.data == Some(DecodePairs(ba).value))
  {
    var st1 := st.(lframes := req.lframes, nframes := req.nframes);
    var off := DataOffset(file);
    if off.Err? {
      return Err(off.error);
    }
    if fs == 0.0 {
      // The log line reporting the frame duration divides by `fs`.
      return Err(ZeroDivisionError);
    }
    var header := ReadAt(file, 0, off.value);
    var tot := FramesTotal(numberSamples, req.lframes);
    if tot.Err? {
      return Err(tot.error);
    }
    var ba := WindowBytes(file, off.value, req);
    var samples := DecodePairs(ba);
    if samples.Err? {
      return Err(samples.error);
    }
    return Ok((st1.(data := Some(samples.value)), TiqInfo(off.value, header, numberSamples, tot.value)));
  }

  /**
   When the payload is a whole number of samples, the reader's window is the
   window of the payload's samples, cut short at the end of the file.
   */
  lemma ReadTiqWindow(file: seq<byte>, dataOffset: nat, req: Request)
    requires Valid(req) && dataOffset <= |file| && (|file| - dataOffset) % 8 == 0
    ensures var d := DecodePairs(WindowBytes(file, dataOffset, req));
      d.Ok? && d.value == TakeWindow(DecodePairs(file[dataOffset..]).value, req)
  {
    var p := file[dataOffset..];
    var a, c := StartSample(req), WindowSize(req);
    var ba := WindowBytes(file, dataOffset, req);
    assert ba == Slice(p, 8 * a, 8 * a + 8 * c) by {
      var s := Slice(p, 8 * a, 8 * a + 8 * c);
      assert |ba| == |s|;
      forall k | 0 <= k < |ba|
        ensures ba[k] == s[k]
      {
      }
    }
    DecodeSlice(p, a, c);
  }

  // ---------------------------------------------------------------------------
  // Header parameters

  /**
   A `NumericParameter` element of the XML header: its attributes and the text
   of its `Value` child (`None` when it has no such child).
   */
  datatype Element = Element(attrib: map<string, string>, value: Option<string>)

  predicate Named(e: Element, name: string)
  {
    "name" in e.attrib && e.attrib["name"] == name
  }

  /** The element the reader takes a parameter from: both `name` and `pid` agree. */
  predicate Matches(e: Element, name: string, pid: string)
  {
    Named(e, name) && "pid" in e.attrib && e.attrib["pid"] == pid
  }

  /**
   An element the loop passes without raising: one with the name also carries a
   `pid`, and one that matches also has a `Value` child.
   */
  predicate Readable(e: Element, name: string, pid: string)
  {
    Named(e, name) ==> "pid" in e.attrib && (e.attrib["pid"] == pid ==> e.value.Some?)
  }

  /**
   The loop over `NumericParameter` elements that sets `rbw` or `span`: every
   matching element overwrites the value, starting from `current`; the
   first element that cannot be read raises.
   */
  function ScanParameter(elems: seq<Element>, name: string, pid: string, current: string): (r: Result<string>)
    ensures r.Err? <==> exists i :: 0 <= i < |elems| && !Readable(elems[i], name, pid)
  {
    if |elems| == 0 then Ok(current)
    else
      var e := elems[0];
      assert forall i :: 1 <= i < |elems| ==> elems[i] == elems[1..][i - 1];
      if Named(e, name) then
        if "pid" !in e.attrib then Err(KeyError("pid"))
        else if e.attrib["pid"] != pid then ScanParameter(elems[1..], name, pid, current)
        else
          match e.value
          case None => Err(AttributeError("text"))
          case Some(v) => ScanParameter(elems[1..], name, pid, v)
      else ScanParameter(elems[1..], name, pid, current)
  }

  /** With no matching element, the value is left as it was. */
  lemma {:induction false} ScanNoMatch(elems: seq<Element>, name: string, pid: string, current: string)
    requires forall i :: 0 <= i < |elems| ==> Readable(elems[i], name, pid) && !Matches(elems[i], name, pid)
    ensures ScanParameter(elems, name, pid, current) == Ok(current)
  {
    if |elems| > 0 {
      assert forall i :: 0 <= i < |elems| - 1 ==> elems[1..][i] == elems[i + 1];
      ScanNoMatch(elems[1..], name, pid, current);
    }
  }

  /** The value is that of the last matching element. */
  lemma {:induction false} ScanLastMatch(elems: seq<Element>, name: string, pid: string, current: string, i: nat)
    requires forall j :: 0 <= j < |elems| ==> Readable(elems[j], name, pid)
    requires i < |elems| && Matches(elems[i], name, pid) && elems[i].value.Some?
    requires forall j :: i < j < |elems| ==> !Matches(elems[j], name, pid)
    ensures ScanParameter(elems, name, pid, current) == Ok(elems[i].value.value)
  {
    assert forall j :: 0 <= j < |elems| - 1 ==> elems[1..][j] == elems[j + 1];
    if i == 0 {
      ScanNoMatch(elems[1..], name, pid, elems[0].value.value);
    } else {
      var next := if Matches(elems[0], name, pid) then elems[0].value.value else current;
      ScanLastMatch(elems[1..], name, pid, next, i - 1);
    }
  }
}
