/**
 Shared vocabulary of the I/Q capture decoders: bytes, the error conditions the
 readers can raise, integer I/Q pairs, Python's clamping slice (which is also how
 a seek followed by a bounded read behaves at end of file), and the fixed-width
 integer encodings the formats store their samples in.
 */
module Common {

  /** One byte of a capture file. */
  type byte = x: int | 0 <= x < 256

  datatype Option<T> = None | Some(value: T)

  /** The exceptions the readers raise instead of returning a buffer. */
  datatype Error =
    | IndexError                           // subscript past the end of a list
    | KeyError(key: string)                // a required header key is absent
    | ValueError(text: string)             // int() or float() of text it cannot read
    | BufferSizeError(size: nat, item: nat) // numpy buffer not a multiple of its item size
    | AttributeError(name: string)         // attribute looked up on a missing XML element
    | ZeroDivisionError
    | ShapeError(got: nat, want: nat)      // numpy ValueError: `got` values assigned to a slice of `want`

  datatype Result<T> = Ok(value: T) | Err(error: Error)

  /** One complex sample as the integer pair it is stored as, before scaling. */
  datatype IQ = IQ(i: int, q: int)

  /** The part of the reader object every windowed read updates. */
  datatype ReaderState = ReaderState(lframes: nat, nframes: nat, data: Option<seq<IQ>>)

  /** A fresh reader: no data buffer yet. */
  function InitialState(): (st: ReaderState)
    ensures st.data.None?
  {
    ReaderState(0, 0, None)
  }

  function Min(a: int, b: int): int
  {
    if a <= b then a else b
  }

  /**
   Python's `s[lo:hi]` for non-negative bounds: a bound past the end is clamped
   to the length, and an empty range gives the empty sequence.
   */
  function Slice<T>(s: seq<T>, lo: nat, hi: nat): (r: seq<T>)
    ensures |r| == (if lo < hi && lo < |s| then Min(hi, |s|) - lo else 0)
    ensures forall k :: 0 <= k < |r| ==> lo + k < |s| && r[k] == s[lo + k]
  {
    var h := Min(hi, |s|);
    if lo < h then s[lo..h] else []
  }

  /**
   `f.seek(pos); f.read(n)` on a file holding `file`: at most `n` bytes, fewer
   only when the end of the file is reached.
   */
  function ReadAt(file: seq<byte>, pos: nat, n: nat): (r: seq<byte>)
    ensures pos + n <= |file| ==> r == file[pos..pos + n]
    ensures pos + n > |file| ==> r == (if pos < |file| then file[pos..] else [])
  {
    Slice(file, pos, pos + n)
  }

  predicate IsInt16(x: int)
  {
    -0x8000 <= x < 0x8000
  }

  predicate IsInt32(x: int)
  {
    -0x8000_0000 <= x < 0x8000_0000
  }

  /** Two's complement reading of an unsigned value `u` of width `2 * half`. */
  function Signed(u: nat, half: int): (v: int)
    requires 0 < half && u < 2 * half
    ensures -half <= v < half
    ensures v == u || v == u - 2 * half
  {
    if u >= half then u - 2 * half else u
  }

  /** Inverse of `Signed`: the unsigned pattern that stores `v`. */
  function Unsigned(v: int, half: int): (u: nat)
    requires 0 < half && -half <= v < half
    ensures u < 2 * half
    ensures Signed(u, half) == v
  {
    if v < 0 then v + 2 * half else v
  }

  /** numpy `'>i2'`: a big-endian signed 16-bit integer. */
  function Int16BE(hi: byte, lo: byte): (v: int)
    ensures IsInt16(v)
  {
    Signed(hi * 0x100 + lo, 0x8000)
  }

  /** numpy `'<i2'`: a little-endian signed 16-bit integer. */
  function Int16LE(lo: byte, hi: byte): (v: int)
    ensures IsInt16(v)
  {
    Int16BE(hi, lo)
  }

  /** The unsigned value of two bytes, least significant first. */
  function Word(lo: byte, hi: byte): (w: nat)
    ensures w < 0x1_0000
  {
    lo + 0x100 * hi
  }

  /** numpy `'<i4'`: a little-endian signed 32-bit integer. */
  function Int32LE(b0: byte, b1: byte, b2: byte, b3: byte): (v: int)
    ensures IsInt32(v)
  {
    Signed(Word(b0, b1) + 0x1_0000 * Word(b2, b3), 0x8000_0000)
  }

  /** The two bytes, most significant first, that store a 16-bit integer. */
  function Int16BEBytes(v: int): (r: seq<byte>)
    requires IsInt16(v)
    ensures |r| == 2 && Int16BE(r[0], r[1]) == v
  {
    var u := Unsigned(v, 0x8000);
    [u / 0x100, u % 0x100]
  }

  /** The two bytes, least significant first, that store a 16-bit integer. */
  function Int16LEBytes(v: int): (r: seq<byte>)
    requires IsInt16(v)
    ensures |r| == 2 && Int16LE(r[0], r[1]) == v
  {
    var b := Int16BEBytes(v);
    [b[1], b[0]]
  }

  /** The four bytes, least significant first, that store a 32-bit integer. */
  function Int32LEBytes(v: int): (r: seq<byte>)
    requires IsInt32(v)
    ensures |r| == 4 && Int32LE(r[0], r[1], r[2], r[3]) == v
  {
    var u := Unsigned(v, 0x8000_0000);
    var lo, hi := u % 0x1_0000, u / 0x1_0000;
    assert Word(lo % 0x100, lo / 0x100) == lo;
    assert Word(hi % 0x100, hi / 0x100) == hi;
    [lo % 0x100, lo / 0x100, hi % 0x100, hi / 0x100]
  }

  /** Every byte pair is the encoding of the integer it decodes to. */
  lemma Int16BEBytesOfDecode(hi: byte, lo: byte)
    ensures Int16BEBytes(Int16BE(hi, lo)) == [hi, lo]
  {
  }

  /** Every byte quadruple is the encoding of the integer it decodes to. */
  lemma Int32LEBytesOfDecode(b0: byte, b1: byte, b2: byte, b3: byte)
    ensures Int32LEBytes(Int32LE(b0, b1, b2, b3)) == [b0, b1, b2, b3]
  {
    var lo, hi := Word(b0, b1), Word(b2, b3);
    var u := lo + 0x1_0000 * hi;
    UnsignedSigned(u, 0x8000_0000);
    assert Unsigned(Int32LE(b0, b1, b2, b3), 0x8000_0000) == u;
    DivModParts(lo, hi, 0x1_0000);
    DivModParts(b0, b1, 0x100);
    DivModParts(b2, b3, 0x100);
  }

  lemma UnsignedSigned(u: nat, half: int)
    requires 0 < half && u < 2 * half
    ensures Unsigned(Signed(u, half), half) == u
  {
  }

  /** The digits of a two-digit number in base `base`. */
  lemma DivModParts(lo: nat, hi: nat, base: nat)
    requires base == 0x100 || base == 0x1_0000
    requires lo < base
    ensures (lo + base * hi) / base == hi && (lo + base * hi) % base == lo
  {
  }
}
