/**
 The TCAP time register (`parse_tcap_tfp`): nine bytes of binary-coded decimal
 digits giving days, hours, minutes, seconds and seven decimal places of a
 second. Each digit is taken out of its byte with a shift and a mask. The
 source masks with `0x17` where a nibble mask is `0x0F`, so the decoder is
 modelled twice: as written, and with the nibble mask.
 */
module TcapTime {
  import opened Common

  /** Python's `x & m` on non-negative integers, bit by bit. */
  function And(x: nat, m: nat): nat
    decreases x
  {
    if x == 0 || m == 0 then 0
    else 2 * And(x / 2, m / 2) + (if x % 2 == 1 && m % 2 == 1 then 1 else 0)
  }

  /** Python's `x >> n` on a non-negative integer, for the two shifts used here. */
  function ShiftRight(x: nat, n: nat): nat
    requires n == 0 || n == 4
  {
    if n == 0 then x else x / 16
  }

  /** The mask the source applies to every digit. */
  const AsWrittenMask: nat := 0x17

  /** The mask that isolates one BCD digit. */
  const NibbleMask: nat := 0x0F

  /** `(b >> shift) & mask` */
  function Field(b: byte, shift: nat, mask: nat): nat
    requires shift == 0 || shift == 4
  {
    And(ShiftRight(b, shift), mask)
  }

  /**
   The decoded register: the digits of the day count, hours, minutes and
   seconds, and the seven digits of the fraction of a second (tenths first).
   */
  datatype TimeRegister = TimeRegister(
    daysHundreds: nat, daysTens: nat, daysUnits: nat,
    hoursTens: nat, hoursUnits: nat,
    minutesTens: nat, minutesUnits: nat,
    secondsTens: nat, secondsUnits: nat,
    fraction: seq<nat>)

  /**
   The register laid out in the bytes of the time table, given the value of
   the high-nibble and the low-nibble field of each byte: byte 3 holds the
   hundreds of days in its low nibble, bytes 4 to 7 two digits each, and
   bytes 8 to 11 the seven digits of the fraction.
   */
  function RegisterOf(hi: seq<nat>, lo: seq<nat>): (r: TimeRegister)
    requires |hi| == 12 && |lo| == 12
    ensures |r.fraction| == 7
  {
    TimeRegister(lo[3], hi[4], lo[4], hi[5], lo[5], hi[6], lo[6], hi[7], lo[7],
      [hi[8], lo[8], hi[9], lo[9], hi[10], lo[10], hi[11]])
  }

  /** Every field of the register taken out of bytes 3 to 11 with `mask`. */
  function DecodeRegister(tfp: seq<byte>, mask: nat): (r: TimeRegister)
    requires |tfp| >= 12
    ensures |r.fraction| == 7
  {
    RegisterOf(seq(12, k requires 0 <= k < 12 => Field(tfp[k], 4, mask)),
               seq(12, k requires 0 <= k < 12 => Field(tfp[k], 0, mask)))
  }

  /**
   What the `0x17` mask keeps of a byte: the high-nibble field loses the top
   bit of its digit, and the low-nibble field loses bit 3 of its digit and
   gains bit 0 of the high nibble, worth 16.
   */
  lemma AsWrittenField(b: byte)
    ensures Field(b, 4, AsWrittenMask) == (b / 16) % 8
    ensures Field(b, 0, AsWrittenMask) == b % 8 + 16 * ((b / 16) % 2)
  {
    And17(b / 16);
    And17(b);
  }

  lemma And17(x: nat)
    requires x < 256
    ensures And(x, 0x17) == x % 8 + 16 * ((x / 16) % 2)
  {
    var a := x / 2;
    var b := a / 2;
    var c := b / 2;
    var d := c / 2;
    assert And(x, 0x17) == 2 * And(a, 11) + x % 2;
    assert And(a, 11) == 2 * And(b, 5) + a % 2;
    assert And(b, 5) == 2 * And(c, 2) + b % 2;
    assert And(c, 2) == 2 * And(d, 1);
    And01(d);
    assert d == x / 16;
    HalfMod8(x);
    HalfMod4(a);
    assert a % 4 == 2 * (b % 2) + a % 2;
  }

  /** A digit the high-nibble extraction can give under the `0x17` mask. */
  predicate HighDigit(x: nat)
  {
    x <= 7
  }

  /** A digit the low-nibble extraction can give under the `0x17` mask: bit 3 is always clear. */
  predicate LowDigit(x: nat)
  {
    x <= 23 && x % 16 < 8
  }

  lemma AsWrittenBounds(b: byte)
    ensures HighDigit(Field(b, 4, AsWrittenMask)) && LowDigit(Field(b, 0, AsWrittenMask))
  {
    AsWrittenField(b);
    LowField(b % 8, (b / 16) % 2);
  }

  lemma LowField(lo: nat, c: nat)
    requires lo < 8 && c < 2
    ensures LowDigit(lo + 16 * c)
  {
    if c == 0 {
      assert lo + 16 * c == lo;
    } else {
      assert lo + 16 * c == lo + 16;
    }
  }

  /** The fields the `0x17` mask gives, byte by byte. */
  lemma AsWrittenRegister(tfp: seq<byte>)
    requires |tfp| >= 12
    ensures var r := DecodeRegister(tfp, AsWrittenMask);
      LowDigit(r.daysHundreds) && HighDigit(r.daysTens) && LowDigit(r.daysUnits) &&
      HighDigit(r.hoursTens) && LowDigit(r.hoursUnits) &&
      HighDigit(r.minutesTens) && LowDigit(r.minutesUnits) &&
      HighDigit(r.secondsTens) && LowDigit(r.secondsUnits) &&
      HighDigit(r.fraction[0]) && LowDigit(r.fraction[1]) && HighDigit(r.fraction[2]) &&
      LowDigit(r.fraction[3]) && HighDigit(r.fraction[4]) && LowDigit(r.fraction[5]) &&
      HighDigit(r.fraction[6])
  {
    forall k | 3 <= k < 12
      ensures HighDigit(Field(tfp[k], 4, AsWrittenMask)) && LowDigit(Field(tfp[k], 0, AsWrittenMask))
    {
      AsWrittenBounds(tfp[k]);
    }
  }

  /**
   `parse_tcap_tfp` as written: only bytes 3 to 11 are read, high-nibble
   fields are at most 7 and low-nibble fields at most 23 with bit 3 clear.
   */
  function ParseTcapTfp(tfp: seq<byte>): (r: TimeRegister)
    requires |tfp| >= 12
    ensures |r.fraction| == 7
    ensures LowDigit(r.daysHundreds) && HighDigit(r.daysTens) && LowDigit(r.daysUnits)
    ensures HighDigit(r.hoursTens) && LowDigit(r.hoursUnits)
    ensures HighDigit(r.minutesTens) && LowDigit(r.minutesUnits)
    ensures HighDigit(r.secondsTens) && LowDigit(r.secondsUnits)
    ensures HighDigit(r.fraction[0]) && LowDigit(r.fraction[1]) && HighDigit(r.fraction[2])
    ensures LowDigit(r.fraction[3]) && HighDigit(r.fraction[4]) && LowDigit(r.fraction[5])
    ensures HighDigit(r.fraction[6])
  {
    AsWrittenRegister(tfp);
    DecodeRegister(tfp, AsWrittenMask)
  }

  /** Bytes 0 to 2 and everything after byte 11 play no part in the time. */
  lemma ParseReadsBytes3To11(a: seq<byte>, b: seq<byte>)
    requires |a| >= 12 && |b| >= 12 && a[3..12] == b[3..12]
    ensures ParseTcapTfp(a) == ParseTcapTfp(b)
  {
    assert forall k :: 3 <= k < 12 ==> a[k] == a[3..12][k - 3] && b[k] == b[3..12][k - 3];
  }

  // ---------------------------------------------------------------------------
  // Time arithmetic, in ticks of 1e-7 s

  const TicksPerSecond: nat := 10_000_000

  function Days(r: TimeRegister): nat
  {
    r.daysHundreds * 100 + r.daysTens * 10 + r.daysUnits
  }

  function Hours(r: TimeRegister): nat
  {
    r.hoursTens * 10 + r.hoursUnits
  }

  function Minutes(r: TimeRegister): nat
  {
    r.minutesTens * 10 + r.minutesUnits
  }

  /** The whole seconds since the epoch the register counts from. */
  function WholeSeconds(r: TimeRegister): nat
  {
    r.secondsTens * 10 + r.secondsUnits + 60 * (Minutes(r) + 60 * (Hours(r) + 24 * Days(r)))
  }

  /** The fraction of a second, in ticks: tenths are worth 10^6 ticks, down to 1 tick. */
  function FractionTicks(f: seq<nat>): nat
    requires |f| == 7
  {
    f[0] * 1_000_000 + f[1] * 100_000 + f[2] * 10_000 + f[3] * 1_000 + f[4] * 100 + f[5] * 10 + f[6]
  }

  /**
   `ts_epoch` in ticks: whole seconds and fraction added, so that while the
   fraction stays below one second the two are read back apart.
   */
  function Ticks(r: TimeRegister): (t: nat)
    requires |r.fraction| == 7
    ensures FractionTicks(r.fraction) < TicksPerSecond ==>
      t / TicksPerSecond == WholeSeconds(r) && t % TicksPerSecond == FractionTicks(r.fraction)
  {
    WholeSeconds(r) * TicksPerSecond + FractionTicks(r.fraction)
  }

  /**
   Even with the widened low-nibble digits the fraction stays below one
   second, so the timestamp's whole seconds and its fraction never mix.
   */
  lemma ParseTicksSplit(tfp: seq<byte>)
    requires |tfp| >= 12
    ensures FractionTicks(ParseTcapTfp(tfp).fraction) < TicksPerSecond
    ensures Ticks(ParseTcapTfp(tfp)) / TicksPerSecond == WholeSeconds(ParseTcapTfp(tfp))
    ensures Ticks(ParseTcapTfp(tfp)) % TicksPerSecond == FractionTicks(ParseTcapTfp(tfp).fraction)
  {
    var r := ParseTcapTfp(tfp);
    var f := FractionTicks(r.fraction);
    assert f <= 7 * 1_000_000 + 23 * 100_000 + 7 * 10_000 + 23 * 1_000 + 7 * 100 + 23 * 10 + 7;
    DivModUnique(Ticks(r), WholeSeconds(r), f);
  }

  lemma DivModUnique(x: nat, q: nat, r: nat)
    requires r < TicksPerSecond && x == q * TicksPerSecond + r
    ensures x / TicksPerSecond == q && x % TicksPerSecond == r
  {
  }

  // ---------------------------------------------------------------------------
  // Encoding, and the decoder with the nibble mask

  predicate IsDigit(x: nat)
  {
    x <= 9
  }

  /** A register whose every field is a decimal digit. */
  predicate ValidRegister(r: TimeRegister)
  {
    IsDigit(r.daysHundreds) && IsDigit(r.daysTens) && IsDigit(r.daysUnits) &&
    IsDigit(r.hoursTens) && IsDigit(r.hoursUnits) &&
    IsDigit(r.minutesTens) && IsDigit(r.minutesUnits) &&
    IsDigit(r.secondsTens) && IsDigit(r.secondsUnits) &&
    |r.fraction| == 7 && forall k :: 0 <= k < 7 ==> IsDigit(r.fraction[k])
  }

  /** Two BCD digits packed into one byte, the first in the high nibble. */
  function Pack(hi: nat, lo: nat): (b: byte)
    requires hi < 16 && lo < 16
  {
    hi * 16 + lo
  }

  lemma PackFields(hi: nat, lo: nat)
    requires hi < 16 && lo < 16
    ensures Pack(hi, lo) / 16 == hi && Pack(hi, lo) % 16 == lo
  {
  }

  /** The digit stored in the high nibble of each register byte (zero where none is). */
  function HighDigits(r: TimeRegister): (d: seq<nat>)
    requires ValidRegister(r)
    ensures |d| == 12 && forall k :: 0 <= k < 12 ==> d[k] < 16
  {
    var f := r.fraction;
    [0, 0, 0, 0, r.daysTens, r.hoursTens, r.minutesTens, r.secondsTens, f[0], f[2], f[4], f[6]]
  }

  /** The digit stored in the low nibble of each register byte (zero where none is). */
  function LowDigits(r: TimeRegister): (d: seq<nat>)
    requires ValidRegister(r)
    ensures |d| == 12 && forall k :: 0 <= k < 12 ==> d[k] < 16
  {
    var f := r.fraction;
    [0, 0, 0, r.daysHundreds, r.daysUnits, r.hoursUnits, r.minutesUnits, r.secondsUnits, f[1], f[3], f[5], 0]
  }

  /**
   The twelve register bytes that store `r` in the layout of the time table;
   bytes 0 to 2, the status nibble and the undefined nibble are zero.
   */
  function EncodeTfp(r: TimeRegister): (tfp: seq<byte>)
    requires ValidRegister(r)
    ensures |tfp| == 12
  {
    var hi, lo := HighDigits(r), LowDigits(r);
    seq(12, k requires 0 <= k < 12 => Pack(hi[k], lo[k]))
  }

  function HighNibbles(tfp: seq<byte>): (d: seq<nat>)
    requires |tfp| >= 12
    ensures |d| == 12
  {
    seq(12, k requires 0 <= k < 12 => tfp[k] / 16)
  }

  function LowNibbles(tfp: seq<byte>): (d: seq<nat>)
    requires |tfp| >= 12
    ensures |d| == 12
  {
    seq(12, k requires 0 <= k < 12 => tfp[k] % 16)
  }

  /**
   The register read one BCD digit per nibble: what `parse_tcap_tfp` decodes
   when every field is masked with `0x0F` (`NibbleMaskDecodes`).
   */
  function ParseTcapTfpBcd(tfp: seq<byte>): (r: TimeRegister)
    requires |tfp| >= 12
    ensures |r.fraction| == 7
    ensures forall k :: 0 <= k < 7 ==> r.fraction[k] < 16
    ensures r.daysHundreds < 16 && r.daysTens < 16 && r.daysUnits < 16 && r.hoursTens < 16 && r.hoursUnits < 16
    ensures r.minutesTens < 16 && r.minutesUnits < 16 && r.secondsTens < 16 && r.secondsUnits < 16
  {
    RegisterOf(HighNibbles(tfp), LowNibbles(tfp))
  }

  /** Masking every field with `0x0F` reads each digit from its own nibble. */
  lemma NibbleMaskDecodes(tfp: seq<byte>)
    requires |tfp| >= 12
    ensures DecodeRegister(tfp, NibbleMask) == ParseTcapTfpBcd(tfp)
  {
    forall k | 0 <= k < 12
      ensures Field(tfp[k], 4, NibbleMask) == HighNibbles(tfp)[k] && Field(tfp[k], 0, NibbleMask) == LowNibbles(tfp)[k]
    {
      NibbleField(tfp[k]);
    }
  }

  /** The nibble mask gives the two nibbles of a byte. */
  lemma NibbleField(b: byte)
    ensures Field(b, 4, NibbleMask) == b / 16
    ensures Field(b, 0, NibbleMask) == b % 16
  {
    HighNibbleField(b);
    LowNibbleField(b);
  }

  lemma HighNibbleField(b: byte)
    ensures Field(b, 4, NibbleMask) == b / 16
  {
    var h := ShiftRight(b, 4);
    assert h == b / 16 && h < 16;
    assert h % 16 == h;
    And0F(h);
    assert Field(b, 4, NibbleMask) == And(h, 0x0F);
  }

  lemma LowNibbleField(b: byte)
    ensures Field(b, 0, NibbleMask) == b % 16
  {
    assert ShiftRight(b, 0) == b;
    And0F(b);
  }

  lemma And0F(x: nat)
    ensures And(x, 0x0F) == x % 16
  {
    And07(x / 2);
    HalfMod(x, 8);
  }

  lemma And07(x: nat)
    ensures And(x, 7) == x % 8
  {
    And03(x / 2);
    HalfMod(x, 4);
  }

  lemma And03(x: nat)
    ensures And(x, 3) == x % 4
  {
    And01(x / 2);
    HalfMod(x, 2);
  }

  lemma And01(x: nat)
    ensures And(x, 1) == x % 2
  {
    assert And(x / 2, 0) == 0;
  }

  /** Taking the low bit off and the rest modulo `k` gives the number modulo `2k`. */
  lemma HalfMod(x: nat, k: nat)
    requires k == 2 || k == 4 || k == 8
    ensures x % (2 * k) == 2 * ((x / 2) % k) + x % 2
  {
    if k == 2 {
      HalfMod4(x);
    } else if k == 4 {
      HalfMod8(x);
    } else {
      HalfMod16(x);
    }
  }

  lemma HalfMod4(x: nat)
    ensures x % 4 == 2 * ((x / 2) % 2) + x % 2
  {
    var q := x / 2;
    assert x == 2 * q + x % 2;
    assert q == 2 * (q / 2) + q % 2;
    assert x == 4 * (q / 2) + (2 * (q % 2) + x % 2);
  }

  lemma HalfMod8(x: nat)
    ensures x % 8 == 2 * ((x / 2) % 4) + x % 2
  {
    var q := x / 2;
    assert x == 2 * q + x % 2;
    assert q == 4 * (q / 4) + q % 4;
    assert x == 8 * (q / 4) + (2 * (q % 4) + x % 2);
  }

  lemma HalfMod16(x: nat)
    ensures x % 16 == 2 * ((x / 2) % 8) + x % 2
  {
    var q := x / 2;
    assert x == 2 * q + x % 2;
    assert q == 8 * (q / 8) + q % 8;
    assert x == 16 * (q / 8) + (2 * (q % 8) + x % 2);
  }

  /** Decoding with the nibble mask gives back every encoded register. */
  lemma BcdRoundTrip(r: TimeRegister)
    requires ValidRegister(r)
    ensures ParseTcapTfpBcd(EncodeTfp(r)) == r
  {
    var t := EncodeTfp(r);
    var hi, lo := HighDigits(r), LowDigits(r);
    forall k | 0 <= k < 12
      ensures HighNibbles(t)[k] == hi[k] && LowNibbles(t)[k] == lo[k]
    {
      PackFields(hi[k], lo[k]);
    }
    assert HighNibbles(t) == hi && LowNibbles(t) == lo;
  }

  /**
   A time whose seconds are 19 stores the byte 0x19. The `0x17` mask reads its
   units digit as 17 instead of 9, so the seconds come out as 27; the nibble
   mask reads the whole register back unchanged.
   */
  lemma AsWrittenMisreadsNineteen(r: TimeRegister)
    requires ValidRegister(r) && r.secondsTens == 1 && r.secondsUnits == 9
    ensures EncodeTfp(r)[7] == 0x19
    ensures ParseTcapTfp(EncodeTfp(r)).secondsUnits == 17
    ensures ParseTcapTfp(EncodeTfp(r)).secondsTens * 10 + ParseTcapTfp(EncodeTfp(r)).secondsUnits == 27
    ensures ParseTcapTfpBcd(EncodeTfp(r)) == r
  {
    var tfp := EncodeTfp(r);
    BcdRoundTrip(r);
    assert tfp[7] == 0x19 by {
      PackFields(1, 9);
    }
    var p := ParseTcapTfp(tfp);
    assert p.secondsTens == Field(tfp[7], 4, AsWrittenMask) && p.secondsUnits == Field(tfp[7], 0, AsWrittenMask);
    AsWrittenField(tfp[7]);
  }
}
