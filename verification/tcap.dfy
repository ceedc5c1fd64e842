/**
 `read_tcap`: a TCAP capture is 15625 blocks of 131160 bytes, each an 88-byte
 block header followed by 2^17 bytes of big-endian 16-bit I/Q pairs. The
 first block header opens with the time register, the PIO word and the
 scalers. The reader copies the requested bytes one at a time and jumps over
 88 bytes whenever the file position is a multiple of the block size.
 */
module Tcap {
  import opened Common
  import opened Window
  import opened TcapTime

  const BlockHeaderSize: nat := 88
  const BlockDataSize: nat := 0x2_0000
  const BlockSize: nat := 131160
  const BlockCount: nat := 15625

  /** The only file size the reader accepts. */
  const FileSize: nat := 15625 * 131160

  /** The payload of all blocks together, in bytes. */
  const PayloadSize: nat := 15625 * 0x2_0000

  /** `number_samples`: I/Q pairs in a file. */
  const SamplesPerFile: nat := 15625 * 32768

  /** `fs` and `span`, in Hz. */
  const SampleRate: nat := 312500

  // ---------------------------------------------------------------------------
  // The byte-copy loop

  /**
   Where the next byte is read from when the position is `p`: a position on a
   block boundary first jumps over the 88-byte block header.
   */
  function Visit(p: nat): (q: nat)
  {
    if p % BlockSize == 0 then p + BlockHeaderSize else p
  }

  /** The position a byte is read from is never on a block boundary, so it is not moved again. */
  lemma VisitSettled(p: nat)
    ensures Visit(p) % BlockSize != 0
    ensures Visit(Visit(p)) == Visit(p)
  {
    if p % BlockSize == 0 {
      assert (p + BlockHeaderSize) % BlockSize == BlockHeaderSize;
    }
  }

  /**
   The file position the `k`-th copied byte is read from (counting from 0),
   for a copy that starts at `start` and has not yet met the end of the file.
   */
  function Pos(start: nat, k: nat): (p: nat)
    ensures p >= start
  {
    if k == 0 then Visit(start) else Visit(Pos(start, k - 1) + 1)
  }

  /**
   Consecutive bytes are read from consecutive positions, except that 88
   bytes are skipped exactly when the next position is a block boundary.
   */
  lemma PosStep(start: nat, k: nat)
    ensures (Pos(start, k) + 1) % BlockSize != 0 ==> Pos(start, k + 1) == Pos(start, k) + 1
    ensures (Pos(start, k) + 1) % BlockSize == 0 ==> Pos(start, k + 1) == Pos(start, k) + 1 + BlockHeaderSize
  {
  }

  /** Bytes are copied in increasing file order. */
  lemma {:induction false} PosIncreasing(start: nat, j: nat, k: nat)
    requires j < k
    ensures Pos(start, j) < Pos(start, k)
    decreases k
  {
    if j < k - 1 {
      PosIncreasing(start, j, k - 1);
    }
  }

  /**
   The bytes a copy of `n` bytes from `start` yields: one byte per step, read
   from `Pos(start, k)`, until a read meets the end of the file; from then on
   every read gives nothing.
   */
  function CopyBytes(file: seq<byte>, start: nat, n: nat): (ba: seq<byte>)
    ensures |ba| <= n
  {
    if n == 0 then []
    else
      var prev := CopyBytes(file, start, n - 1);
      if |prev| == n - 1 && Pos(start, n - 1) < |file| then prev + [file[Pos(start, n - 1)]] else prev
  }

  /**
   The copy is a prefix of the bytes at `Pos(start, 0)`, `Pos(start, 1)`, ...,
   and it stops short only at a position past the end of the file.
   */
  lemma {:induction false} CopyBytesSpec(file: seq<byte>, start: nat, n: nat)
    ensures var ba := CopyBytes(file, start, n);
      (forall k :: 0 <= k < |ba| ==> Pos(start, k) < |file| && ba[k] == file[Pos(start, k)]) &&
      (|ba| < n ==> Pos(start, |ba|) >= |file|)
  {
    if n > 0 {
      CopyBytesSpec(file, start, n - 1);
      var prev := CopyBytes(file, start, n - 1);
      var ba := CopyBytes(file, start, n);
      if |prev| == n - 1 && Pos(start, n - 1) < |file| {
        assert ba == prev + [file[Pos(start, n - 1)]];
        forall k | 0 <= k < |ba|
          ensures Pos(start, k) < |file| && ba[k] == file[Pos(start, k)]
        {
          if k < n - 1 {
            assert ba[k] == prev[k];
          }
        }
      } else {
        assert ba == prev;
      }
    }
  }

  /** When the last requested byte lies inside the file, the copy is complete. */
  lemma CopyBytesFull(file: seq<byte>, start: nat, n: nat)
    requires n > 0 && Pos(start, n - 1) < |file|
    ensures |CopyBytes(file, start, n)| == n
  {
    var ba := CopyBytes(file, start, n);
    CopyBytesSpec(file, start, n);
    PosOrder(start, |ba|, n - 1);
  }

  lemma PosOrder(start: nat, j: nat, k: nat)
    ensures j < k ==> Pos(start, j) < Pos(start, k)
  {
    if j < k {
      PosIncreasing(start, j, k);
    }
  }

  /**
   The copy loop: `count` times, jump over the block header when the position
   is a multiple of the block size, then read one byte. At the end of the file
   the read gives nothing and the position stays put.
   */
  method TcapCopy(file: seq<byte>, start: nat, count: nat) returns (ba: seq<byte>)
    ensures ba == CopyBytes(file, start, count)
  {
    var pos: nat := start;
    ba := [];
    var i := 0;
    while i < count
      invariant 0 <= i <= count
      invariant CopyState(file, start, i, ba, pos)
    {
      CopyStep(file, start, i, ba, pos);
      if pos % BlockSize == 0 {
        pos := pos + BlockHeaderSize;
      }
      var b := ReadAt(file, pos, 1);
      ba := ba + b;
      pos := pos + |b|;
      i := i + 1;
    }
  }

  /**
   The copy loop after `i` steps: the bytes so far, and the position, which is
   one past the last byte read while every read has given a byte, and the
   position of the first failed read otherwise.
   */
  predicate CopyState(file: seq<byte>, start: nat, i: nat, ba: seq<byte>, pos: nat)
  {
    ba == CopyBytes(file, start, i) &&
    (|ba| == i ==> pos == (if i == 0 then start else Pos(start, i - 1) + 1)) &&
    (|ba| < i ==> pos == Pos(start, |ba|))
  }

  /** One step of the copy loop: jump over a block header if on a boundary, then read a byte. */
  lemma CopyStep(file: seq<byte>, start: nat, i: nat, ba: seq<byte>, pos: nat)
    requires CopyState(file, start, i, ba, pos)
    ensures var b := ReadAt(file, Visit(pos), 1);
      CopyState(file, start, i + 1, ba + b, Visit(pos) + |b|)
  {
    if |ba| == i {
      CopyStepReading(file, start, i, ba, pos);
    } else {
      CopyStepStopped(file, start, i, ba, pos);
    }
  }

  lemma CopyStepReading(file: seq<byte>, start: nat, i: nat, ba: seq<byte>, pos: nat)
    requires CopyState(file, start, i, ba, pos) && |ba| == i
    ensures var b := ReadAt(file, Visit(pos), 1);
      CopyState(file, start, i + 1, ba + b, Visit(pos) + |b|)
  {
    var p := Pos(start, i);
    assert Visit(pos) == p;
    var b := ReadAt(file, p, 1);
    if p < |file| {
      assert b == [file[p]];
      assert CopyBytes(file, start, i + 1) == ba + b;
    } else {
      assert b == [];
      assert CopyBytes(file, start, i + 1) == ba;
      assert ba + b == ba;
    }
  }

  lemma CopyStepStopped(file: seq<byte>, start: nat, i: nat, ba: seq<byte>, pos: nat)
    requires CopyState(file, start, i, ba, pos) && |ba| < i
    ensures var b := ReadAt(file, Visit(pos), 1);
      CopyState(file, start, i + 1, ba + b, Visit(pos) + |b|)
  {
    CopyBytesSpec(file, start, i);
    VisitSettled(if |ba| == 0 then start else Pos(start, |ba| - 1) + 1);
    assert Visit(pos) == pos && pos >= |file|;
    var b := ReadAt(file, pos, 1);
    assert b == [];
    assert CopyBytes(file, start, i + 1) == ba;
    assert ba + b == ba;
  }

  // ---------------------------------------------------------------------------
  // Payload addressing

  /** The file position of byte `j` of the concatenated block payloads. */
  function PayloadAddr(j: nat): nat
  {
    (j / BlockDataSize) * BlockSize + BlockHeaderSize + j % BlockDataSize
  }

  /** A position inside a block header. */
  predicate IsHeaderByte(p: nat)
  {
    p % BlockSize < BlockHeaderSize
  }

  /** Where payload byte `j` lives: its block and its place after the block header. */
  lemma PayloadAddrParts(j: nat)
    ensures PayloadAddr(j) / BlockSize == j / BlockDataSize
    ensures PayloadAddr(j) % BlockSize == BlockHeaderSize + j % BlockDataSize
  {
    var q, r := j / BlockDataSize, j % BlockDataSize;
    assert PayloadAddr(j) == q * BlockSize + (BlockHeaderSize + r);
  }

  /** The payload index of a position outside every block header. */
  function PayloadIndex(p: nat): nat
    requires !IsHeaderByte(p)
  {
    (p / BlockSize) * BlockDataSize + p % BlockSize - BlockHeaderSize
  }

  /** Payload addresses are exactly the positions outside the block headers. */
  lemma PayloadAddrRoundTrip(j: nat, p: nat)
    ensures !IsHeaderByte(PayloadAddr(j)) && PayloadIndex(PayloadAddr(j)) == j
    ensures !IsHeaderByte(p) ==> PayloadAddr(PayloadIndex(p)) == p
  {
    PayloadAddrParts(j);
    if !IsHeaderByte(p) {
      var q, r := p / BlockSize, p % BlockSize - BlockHeaderSize;
      assert PayloadIndex(p) == q * BlockDataSize + r;
      assert PayloadIndex(p) / BlockDataSize == q && PayloadIndex(p) % BlockDataSize == r;
    }
  }

  /** Payload byte `j` lies inside a file of the accepted size exactly when `j` is a payload index. */
  lemma PayloadAddrInFile(j: nat)
    ensures PayloadAddr(j) < FileSize <==> j < PayloadSize
  {
    var q := j / BlockDataSize;
    PayloadAddrParts(j);
    if j < PayloadSize {
      assert q < BlockCount;
      assert PayloadAddr(j) < (q + 1) * BlockSize;
    } else {
      assert q >= BlockCount;
      assert PayloadAddr(j) >= q * BlockSize;
    }
  }

  /** From a payload byte, the copy loop moves on to the next payload byte. */
  lemma PayloadNext(j: nat)
    ensures Visit(PayloadAddr(j)) == PayloadAddr(j)
    ensures Visit(PayloadAddr(j) + 1) == PayloadAddr(j + 1)
  {
    PayloadAddrParts(j);
    var q, r := j / BlockDataSize, j % BlockDataSize;
    if r + 1 < BlockDataSize {
      assert (j + 1) / BlockDataSize == q && (j + 1) % BlockDataSize == r + 1;
      assert PayloadAddr(j) + 1 == q * BlockSize + (BlockHeaderSize + r + 1);
    } else {
      assert (j + 1) / BlockDataSize == q + 1 && (j + 1) % BlockDataSize == 0;
      assert PayloadAddr(j) + 1 == (q + 1) * BlockSize;
    }
  }

  /**
   A copy that starts at a payload byte reads the payload bytes that follow it
   in order, block headers skipped.
   */
  lemma {:induction false} PosFromPayload(j: nat, k: nat)
    ensures Pos(PayloadAddr(j), k) == PayloadAddr(j + k)
  {
    if k == 0 {
      PayloadNext(j);
    } else {
      var i: nat := j + (k - 1);
      PosFromPayload(j, k - 1);
      PayloadNext(i);
      assert i + 1 == j + k;
      PosAfter(PayloadAddr(j), k, PayloadAddr(i), PayloadAddr(j + k));
    }
  }

  /** The `k`-th byte is read from where the copy moves on to from the byte before it. */
  lemma PosAfter(start: nat, k: nat, before: nat, next: nat)
    requires k >= 1 && Pos(start, k - 1) == before && Visit(before + 1) == next
    ensures Pos(start, k) == next
  {
  }

  /** The payloads of all blocks of a file of the accepted size, concatenated. */
  function Payload(file: seq<byte>): (p: seq<byte>)
    requires |file| == FileSize
    ensures |p| == PayloadSize
    ensures forall j :: 0 <= j < PayloadSize ==> p[j] == file[PayloadAddr(j)]
  {
    seq(PayloadSize, j requires 0 <= j < PayloadSize => PayloadInFile(j); file[PayloadAddr(j)])
  }

  lemma PayloadInFile(j: nat)
    requires j < PayloadSize
    ensures PayloadAddr(j) < FileSize
  {
    PayloadAddrInFile(j);
  }

  /** A copy started at payload byte `j0` yields the payload from `j0` on, cut at its end. */
  lemma CopyFromPayload(file: seq<byte>, j0: nat, count: nat)
    requires |file| == FileSize
    ensures CopyBytes(file, PayloadAddr(j0), count) == Slice(Payload(file), j0, j0 + count)
  {
    var ba := CopyBytes(file, PayloadAddr(j0), count);
    var s := Slice(Payload(file), j0, j0 + count);
    CopyPayloadLength(file, j0, count);
    CopyPayloadBytes(file, j0, count);
    assert forall k :: 0 <= k < |ba| ==> ba[k] == s[k];
  }

  /** Each copied byte is the payload byte at the same distance from `j0`. */
  lemma CopyPayloadBytes(file: seq<byte>, j0: nat, count: nat)
    requires |file| == FileSize
    ensures var ba := CopyBytes(file, PayloadAddr(j0), count);
      forall k :: 0 <= k < |ba| ==> j0 + k < PayloadSize && ba[k] == Payload(file)[j0 + k]
  {
    var ba := CopyBytes(file, PayloadAddr(j0), count);
    CopyBytesSpec(file, PayloadAddr(j0), count);
    forall k | 0 <= k < |ba|
      ensures j0 + k < PayloadSize && ba[k] == Payload(file)[j0 + k]
    {
      PosFromPayload(j0, k);
      PayloadAddrInFile(j0 + k);
    }
  }

  /** The copy stops exactly at the end of the payload. */
  lemma CopyPayloadLength(file: seq<byte>, j0: nat, count: nat)
    requires |file| == FileSize
    ensures |CopyBytes(file, PayloadAddr(j0), count)| == |Slice(Payload(file), j0, j0 + count)|
  {
    var n := |CopyBytes(file, PayloadAddr(j0), count)|;
    CopyBytesSpec(file, PayloadAddr(j0), count);
    if n < count {
      PosFromPayload(j0, n);
      PayloadAddrInFile(j0 + n);
      assert j0 + n >= PayloadSize;
    }
    if n > 0 {
      PosFromPayload(j0, n - 1);
      PayloadAddrInFile(j0 + n - 1);
      assert j0 + n - 1 < PayloadSize;
    }
  }

  // ---------------------------------------------------------------------------
  // Sample decoding

  /** Sample `k` of a buffer of big-endian 16-bit I and Q values. */
  function SampleAt(ba: seq<byte>, k: nat): IQ
    requires 4 * k + 4 <= |ba|
  {
    IQ(Int16BE(ba[4 * k], ba[4 * k + 1]), Int16BE(ba[4 * k + 2], ba[4 * k + 3]))
  }

  /**
   `np.frombuffer(ba, '>i2')` viewed as complex pairs: the buffer must hold a
   whole number of 16-bit values, and those a whole number of pairs.
   */
  function DecodeSamples(ba: seq<byte>): (r: Result<seq<IQ>>)
    ensures r.Ok? <==> |ba| % 4 == 0
    ensures r.Ok? ==> 4 * |r.value| == |ba|
    ensures r.Ok? ==> forall k :: 0 <= k < |r.value| ==> r.value[k] == SampleAt(ba, k)
    ensures r.Ok? ==> forall k :: 0 <= k < |r.value| ==> IsInt16(r.value[k].i) && IsInt16(r.value[k].q)
  {
    if |ba| % 2 != 0 then Err(BufferSizeError(|ba|, 2))
    else if (|ba| / 2) % 2 != 0 then Err(BufferSizeError(|ba| / 2, 2))
    else Ok(seq(|ba| / 4, k requires 0 <= k < |ba| / 4 => SampleAt(ba, k)))
  }

  /** The bytes that store a run of 16-bit I/Q pairs. */
  function EncodeSamples(xs: seq<IQ>): (ba: seq<byte>)
    requires forall k :: 0 <= k < |xs| ==> IsInt16(xs[k].i) && IsInt16(xs[k].q)
    ensures |ba| == 4 * |xs|
  {
    if |xs| == 0 then []
    else Int16BEBytes(xs[0].i) + Int16BEBytes(xs[0].q) + EncodeSamples(xs[1..])
  }

  lemma {:induction false} EncodeSamplesAt(xs: seq<IQ>, k: nat)
    requires forall k :: 0 <= k < |xs| ==> IsInt16(xs[k].i) && IsInt16(xs[k].q)
    requires k < |xs|
    ensures SampleAt(EncodeSamples(xs), k) == xs[k]
  {
    var ba := EncodeSamples(xs);
    if k == 0 {
      var hi, lo := Int16BEBytes(xs[0].i), Int16BEBytes(xs[0].q);
      assert ba[0] == hi[0] && ba[1] == hi[1] && ba[2] == lo[0] && ba[3] == lo[1];
    } else {
      EncodeSamplesAt(xs[1..], k - 1);
      var rest := EncodeSamples(xs[1..]);
      var j := 4 * (k - 1);
      assert ba[4 * k] == rest[j] && ba[4 * k + 1] == rest[j + 1];
      assert ba[4 * k + 2] == rest[j + 2] && ba[4 * k + 3] == rest[j + 3];
    }
  }

  /** Decoding the stored bytes of a run of pairs gives the run back. */
  lemma DecodeEncodeSamples(xs: seq<IQ>)
    requires forall k :: 0 <= k < |xs| ==> IsInt16(xs[k].i) && IsInt16(xs[k].q)
    ensures DecodeSamples(EncodeSamples(xs)) == Ok(xs)
  {
    var ba := EncodeSamples(xs);
    Quadruple(|xs|);
    var v := DecodeSamples(ba).value;
    assert |v| == |xs|;
    forall k | 0 <= k < |xs|
      ensures v[k] == xs[k]
    {
      EncodeSamplesAt(xs, k);
      assert v[k] == SampleAt(ba, k);
    }
    assert v == xs;
  }

  lemma Quadruple(n: nat)
    ensures (4 * n) % 2 == 0 && ((4 * n) / 2) % 2 == 0
    ensures (4 * n) % 4 == 0 && (4 * n) / 4 == n
  {
    assert (4 * n) / 2 == 2 * n;
  }

  /** Decoding is positional: the samples of a slice are a slice of the samples. */
  lemma DecodeSlice(p: seq<byte>, a: nat, c: nat)
    requires |p| % 4 == 0
    ensures var d := DecodeSamples(Slice(p, 4 * a, 4 * a + 4 * c));
      d.Ok? && d.value == Slice(DecodeSamples(p).value, a, a + c)
  {
    var s := Slice(p, 4 * a, 4 * a + 4 * c);
    var all := DecodeSamples(p).value;
    SliceSize(p, a, c);
    var d := DecodeSamples(s).value;
    var w := Slice(all, a, a + c);
    assert |d| == |w|;
    forall k | 0 <= k < |d|
      ensures d[k] == w[k]
    {
      SampleAtOffset(p, s, a, k);
      assert d[k] == SampleAt(s, k);
      assert w[k] == all[a + k];
    }
  }

  lemma SliceSize(p: seq<byte>, a: nat, c: nat)
    requires |p| % 4 == 0
    ensures var n, s := |p| / 4, Slice(p, 4 * a, 4 * a + 4 * c);
      |s| % 4 == 0 && |s| / 4 == if a < n then Min(a + c, n) - a else 0
  {
    var n := |p| / 4;
    assert |p| == 4 * n;
    var m := if a < n then Min(a + c, n) - a else 0;
    assert |Slice(p, 4 * a, 4 * a + 4 * c)| == 4 * m;
    Quadruple(m);
  }

  lemma SampleAtOffset(p: seq<byte>, s: seq<byte>, a: nat, k: nat)
    requires 4 * k + 4 <= |s| && 4 * a + |s| <= |p|
    requires forall j :: 0 <= j < |s| ==> s[j] == p[4 * a + j]
    ensures 4 * (a + k) + 4 <= |p| && SampleAt(s, k) == SampleAt(p, a + k)
  {
    var m := 4 * (a + k);
    assert s[4 * k] == p[m] && s[4 * k + 1] == p[m + 1] && s[4 * k + 2] == p[m + 2] && s[4 * k + 3] == p[m + 3];
  }

  // ---------------------------------------------------------------------------
  // The reader

  /** What the first block header and the fixed metadata of a TCAP file give. */
  datatype TcapInfo = TcapInfo(
    tfp: seq<byte>, pio: seq<byte>, scalers: seq<byte>, time: TimeRegister,
    sampleRate: nat, span: nat, numberSamples: nat, nframesTot: nat)

  /**
   File position the copy starts at, as the source computes it: it skips the
   first block header only, so it falls short of the file address of the
   first requested payload byte by one header per block boundary before it.
   */
  function AsWrittenStart(req: Request): (start: nat)
    requires Valid(req)
    ensures start + BlockHeaderSize * (4 * StartSample(req) / BlockDataSize) == PayloadAddr(4 * StartSample(req))
  {
    BlockHeaderSize + 4 * StartSample(req)
  }

  /**
   `nframes_tot` as the source computes it: the samples of a file divided by
   the number of requested frames, where the other readers divide by the frame
   length.
   */
  function AsWrittenFramesTotal(req: Request): Result<nat>
  {
    FramesTotal(SamplesPerFile, req.nframes)
  }

  /** Number of bytes the copy asks for: two 16-bit values per sample. */
  function ByteCount(req: Request): nat
  {
    4 * WindowSize(req)
  }

  /**
   `read_tcap`: a file of any size but the expected one is refused and keeps
   the previous buffer; otherwise the header fields and the fixed metadata
   are recorded, `nframes_tot` is the sample count divided by the frame count,
   and the buffer holds the pairs copied from `AsWrittenStart`.
   */
  method ReadTcap(file: seq<byte>, req: Request, st: ReaderState) returns (r: Result<(ReaderState, Option<TcapInfo>)>)
    requires Valid(req)
    ensures |file| != FileSize ==> r == Ok((st.(lframes := req.lframes, nframes := req.nframes), None))
    ensures |file| == FileSize ==>
      (r.Err? <==> req.nframes == 0 || |CopyBytes(file, AsWrittenStart(req), ByteCount(req))| % 4 != 0)
    ensures |file| == FileSize && req.nframes == 0 ==> r == Err(ZeroDivisionError)
    ensures r.Ok? ==> r.value.0.lframes == req.lframes && r.value.0.nframes == req.nframes
    ensures r.Ok? && |file| == FileSize ==>
      r.value.1.Some? && ValidInfo(r.value.1.value, file) &&
      r.value.1.value.time == ParseTcapTfp(file[..12]) &&
      AsWrittenFramesTotal(req) == Ok(r.value.1.value.nframesTot) &&
      r.value.1.value.nframesTot * req.nframes <= SamplesPerFile < (r.value.1.value.nframesTot + 1) * req.nframes &&
      r.value.0.data == Some(DecodeSamples(CopyBytes(file, AsWrittenStart(req), ByteCount(req))).value)
  {
    var st1 := st.(lframes := req.lframes, nframes := req.nframes);
    if |file| != FileSize {
      return Ok((st1, None));
    }
    var tfp, pio, scalers := file[..12], file[12..24], file[24..88];
    var time := ParseTcapTfp(tfp);
    var tot := AsWrittenFramesTotal(req);
    if tot.Err? {
      return Err(tot.error);
    }
    var info := TcapInfo(tfp, pio, scalers, time, SampleRate, SampleRate, SamplesPerFile, tot.value);
    var ba := TcapCopy(file, AsWrittenStart(req), ByteCount(req));
    var decoded := DecodeSamples(ba);
    match decoded
    case Err(e) =>
      return Err(e);
    case Ok(samples) =>
      return Ok((st1.(data := Some(samples)), Some(info)));
  }

  /** The header fields and fixed metadata recorded for an accepted file. */
  predicate ValidInfo(info: TcapInfo, file: seq<byte>)
    requires |file| == FileSize
  {
    info.tfp == file[..12] && info.pio == file[12..24] && info.scalers == file[24..88] &&
    info.sampleRate == SampleRate && info.span == SampleRate && info.numberSamples == SamplesPerFile
  }

  /**
   When the window's last byte lies inside the file, the as-written copy is
   complete: byte `t` comes from `Pos(start, t)`, and the read succeeds with
   one pair per requested sample.
   */
  lemma ReadTcapFullWindow(file: seq<byte>, req: Request)
    requires Valid(req) && |file| == FileSize && ByteCount(req) > 0
    requires Pos(AsWrittenStart(req), ByteCount(req) - 1) < |file|
    ensures var ba := CopyBytes(file, AsWrittenStart(req), ByteCount(req));
      |ba| == ByteCount(req) &&
      (forall t :: 0 <= t < |ba| ==> Pos(AsWrittenStart(req), t) < |file| && ba[t] == file[Pos(AsWrittenStart(req), t)]) &&
      DecodeSamples(ba).Ok? && |DecodeSamples(ba).value| == WindowSize(req)
  {
    var ba := CopyBytes(file, AsWrittenStart(req), ByteCount(req));
    CopyBytesFull(file, AsWrittenStart(req), ByteCount(req));
    CopyBytesSpec(file, AsWrittenStart(req), ByteCount(req));
    Quadruple(WindowSize(req));
    assert |ba| == 4 * WindowSize(req);
  }

  // ---------------------------------------------------------------------------
  // The reader as evidently intended

  /** The copy start that addresses sample `S - 1` of the payload stream. */
  function PayloadStart(req: Request): nat
    requires Valid(req)
  {
    PayloadAddr(4 * StartSample(req))
  }

  /** Every sample of the file: the payloads decoded as one stream of pairs. */
  function PayloadSamples(file: seq<byte>): (xs: seq<IQ>)
    requires |file| == FileSize
    ensures |xs| == SamplesPerFile
  {
    DecodeSamples(Payload(file)).value
  }

  /**
   The as-written start is the payload start while the window begins in the
   first block (and on the first byte of the second, where the jump lands
   right), so the two copies agree there.
   */
  lemma StartsAgreeInFirstBlock(req: Request, k: nat)
    requires Valid(req) && 4 * StartSample(req) <= BlockDataSize
    ensures Pos(AsWrittenStart(req), k) == Pos(PayloadStart(req), k)
  {
    var j := 4 * StartSample(req);
    if j < BlockDataSize {
      assert PayloadAddr(j) == BlockHeaderSize + j;
    } else {
      assert AsWrittenStart(req) == BlockSize;
      assert PayloadAddr(j) == BlockSize + BlockHeaderSize;
    }
    AgreeFrom(AsWrittenStart(req), PayloadStart(req), k);
  }

  lemma {:induction false} AgreeFrom(a: nat, b: nat, k: nat)
    requires Visit(a) == Visit(b)
    ensures Pos(a, k) == Pos(b, k)
  {
    if k > 0 {
      AgreeFrom(a, b, k - 1);
    }
  }

  /**
   The window that starts at sample 32769 with one-sample frames: the source
   seeks to 131164, four bytes into the header of the second block, and reads
   that header byte as sample data; the payload start is 131252.
   */
  lemma AsWrittenStartReadsHeader()
    ensures var req := Request(1, 1, 32770);
      AsWrittenStart(req) == 131164 && Pos(AsWrittenStart(req), 0) == 131164 &&
      IsHeaderByte(Pos(AsWrittenStart(req), 0)) &&
      PayloadStart(req) == 131252 && !IsHeaderByte(Pos(PayloadStart(req), 0))
  {
    var req := Request(1, 1, 32770);
    PayloadAddrParts(4 * StartSample(req));
    PayloadNext(4 * StartSample(req));
  }

  /**
   `read_tcap` with the copy started at `PayloadStart`, the time register read
   with the nibble mask, and `nframes_tot` counted in frames of `lframes`
   samples: the buffer is exactly the requested window of the file's sample
   stream, cut short at its end.
   */
  method ReadTcapCorrected(file: seq<byte>, req: Request, st: ReaderState) returns (r: Result<(ReaderState, Option<TcapInfo>)>)
    requires Valid(req)
    ensures |file| != FileSize ==> r == Ok((st.(lframes := req.lframes, nframes := req.nframes), None))
    ensures |file| == FileSize && req.lframes == 0 ==> r == Err(ZeroDivisionError)
    ensures |file| == FileSize && req.lframes > 0 ==>
      r.Ok? && r.value.1.Some? && ValidInfo(r.value.1.value, file) &&
      r.value.1.value.time == ParseTcapTfpBcd(file[..12]) &&
      r.value.1.value.nframesTot * req.lframes <= SamplesPerFile < (r.value.1.value.nframesTot + 1) * req.lframes &&
      r.value.0 == ReaderState(req.lframes, req.nframes, Some(TakeWindow(PayloadSamples(file), req)))
  {
    var st1 := st.(lframes := req.lframes, nframes := req.nframes);
    if |file| != FileSize {
      return Ok((st1, None));
    }
    var tfp, pio, scalers := file[..12], file[12..24], file[24..88];
    var time := ParseTcapTfpBcd(tfp);
    var tot := FramesTotal(SamplesPerFile, req.lframes);
    if tot.Err? {
      return Err(tot.error);
    }
    var info := TcapInfo(tfp, pio, scalers, time, SampleRate, SampleRate, SamplesPerFile, tot.value);
    var ba := TcapCopy(file, PayloadStart(req), ByteCount(req));
    CorrectedCopyIsWindow(file, req);
    var samples := DecodeSamples(ba).value;
    return Ok((st1.(data := Some(samples)), Some(info)));
  }

  /** The copy from the payload start decodes to the requested window of the sample stream. */
  lemma CorrectedCopyIsWindow(file: seq<byte>, req: Request)
    requires Valid(req) && |file| == FileSize
    ensures var d := DecodeSamples(CopyBytes(file, PayloadStart(req), ByteCount(req)));
      d.Ok? && d.value == TakeWindow(PayloadSamples(file), req)
  {
    var s, w := StartSample(req), WindowSize(req);
    CopyDecodesSamples(file, s, w);
    assert TakeWindow(PayloadSamples(file), req) == Slice(PayloadSamples(file), s, s + w);
  }

  /** Copying `4 * w` bytes from payload sample `s` and decoding gives samples `[s, s + w)`, cut at the end. */
  lemma CopyDecodesSamples(file: seq<byte>, s: nat, w: nat)
    requires |file| == FileSize
    ensures var d := DecodeSamples(CopyBytes(file, PayloadAddr(4 * s), 4 * w));
      d.Ok? && d.value == Slice(PayloadSamples(file), s, s + w)
  {
    var p := Payload(file);
    assert |p| % 4 == 0;
    CopyFromPayload(file, 4 * s, 4 * w);
    assert CopyBytes(file, PayloadAddr(4 * s), 4 * w) == Slice(p, 4 * s, 4 * s + 4 * w);
    DecodeSlice(p, s, w);
    assert PayloadSamples(file) == DecodeSamples(p).value;
  }

  /**
   The total frame count divides by the frame count instead of the frame
   length: a request for one frame reports every sample of the file as a
   frame, which is more frames than the file holds whenever a frame has more
   than one sample; for frames of 1024 samples that is 512000000 reported
   frames against 500000.
   */
  lemma AsWrittenFramesTotalCountsSamples(req: Request)
    requires req.nframes == 1 && req.lframes > 1
    ensures AsWrittenFramesTotal(req) == Ok(SamplesPerFile)
    ensures FramesTotal(SamplesPerFile, req.lframes).Ok?
    ensures FramesTotal(SamplesPerFile, req.lframes).value < SamplesPerFile
    ensures req.lframes == 1024 ==> FramesTotal(SamplesPerFile, req.lframes) == Ok(500000)
  {
    var t := FramesTotal(SamplesPerFile, req.lframes).value;
    assert t * 2 <= t * req.lframes <= SamplesPerFile;
    if req.lframes == 1024 {
      assert 500000 * 1024 == SamplesPerFile;
    }
  }
}
