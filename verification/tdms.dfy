/**
 The TDMS reader (`read_tdms_information`, `read_tdms`). A TDMS capture is a
 sequence of segments; after the first, every acquisition record occupies the
 same number of bytes. A probe learns the size of the first record and the
 stride of the others; a windowed read then maps the sample window to records,
 reads record 1, jumps over the records it does not need, reads the needed
 ones, drops the duplicate first record and slices out the window.

 The segment parser of the TDMS library is not part of this model: a segment
 is given by the samples it appends to each channel and the file offset at
 which it ends, and a record by its I and Q samples.
 */
module Tdms {
  import opened Common
  import opened Window

  // ---------------------------------------------------------------------------
  // Records and channel streams

  /** One acquisition record: its I samples and its Q samples. */
  datatype Record = Record(i: seq<int>, q: seq<int>)

  datatype Channel = I | Q

  function Samples(r: Record, c: Channel): seq<int>
  {
    match c
    case I => r.i
    case Q => r.q
  }

  /** Every record holds `n` samples on each channel. */
  predicate Uniform(recs: seq<Record>, n: nat)
  {
    forall k :: 0 <= k < |recs| ==> |recs[k].i| == n && |recs[k].q| == n
  }

  /** The samples of one channel across a run of records, in file order. */
  function Stream(recs: seq<Record>, c: Channel): seq<int>
  {
    if |recs| == 0 then [] else Samples(recs[0], c) + Stream(recs[1..], c)
  }

  lemma {:induction false} StreamAppend(a: seq<Record>, b: seq<Record>, c: Channel)
    ensures Stream(a + b, c) == Stream(a, c) + Stream(b, c)
  {
    if |a| == 0 {
      assert a + b == b;
    } else {
      assert (a + b)[1..] == a[1..] + b;
      StreamAppend(a[1..], b, c);
    }
  }

  lemma {:induction false} StreamLength(recs: seq<Record>, n: nat, c: Channel)
    requires Uniform(recs, n)
    ensures |Stream(recs, c)| == |recs| * n
  {
    if |recs| > 0 {
      StreamLength(recs[1..], n, c);
      assert |recs| * n == n + (|recs| - 1) * n;
    }
  }

  lemma UniformSlice(recs: seq<Record>, n: nat, a: nat, b: nat)
    requires Uniform(recs, n) && a <= b <= |recs|
    ensures Uniform(recs[a..b], n)
  {
    forall k | 0 <= k < b - a
      ensures |recs[a..b][k].i| == n && |recs[a..b][k].q| == n
    {
      assert recs[a..b][k] == recs[a + k];
    }
  }

  lemma MulAdd(a: nat, d: nat, n: nat)
    ensures a * n + d * n == (a + d) * n
  {
  }

  /** The records `[a, b)` carry the stream's samples between those of the records before `a` and before `b`. */
  lemma StreamPrefix(recs: seq<Record>, a: nat, b: nat, c: Channel)
    requires a <= b <= |recs|
    ensures |Stream(recs[..a], c)| <= |Stream(recs[..b], c)| <= |Stream(recs, c)|
    ensures Stream(recs[a..b], c) == Stream(recs, c)[|Stream(recs[..a], c)|..|Stream(recs[..b], c)|]
  {
    var x, y, z := recs[..a], recs[a..b], recs[b..];
    assert recs == x + y + z;
    assert recs[..b] == x + y;
    StreamAppend(x + y, z, c);
    StreamAppend(x, y, c);
    var sx, sy, sz := Stream(x, c), Stream(y, c), Stream(z, c);
    assert Stream(recs, c) == sx + sy + sz;
    assert (sx + sy + sz)[|sx|..|sx| + |sy|] == sy;
  }

  /** The records `[a, b)` carry exactly the samples `[a*n, b*n)` of the stream. */
  lemma StreamRange(recs: seq<Record>, n: nat, a: nat, b: nat, c: Channel)
    requires Uniform(recs, n) && a <= b <= |recs|
    ensures a * n <= b * n <= |Stream(recs, c)|
    ensures Stream(recs[a..b], c) == Stream(recs, c)[a * n..b * n]
  {
    StreamPrefix(recs, a, b, c);
    UniformSlice(recs, n, 0, a);
    UniformSlice(recs, n, 0, b);
    assert recs[..a] == recs[0..a] && recs[..b] == recs[0..b];
    StreamLength(recs[..a], n, c);
    StreamLength(recs[..b], n, c);
    StreamLength(recs, n, c);
    MulMono(b, |recs|, n);
  }

  // ---------------------------------------------------------------------------
  // Window decomposition (`read_tdms`, first half)

  /**
   The geometry the probe learns: samples per record, records per file, the
   end offset of the first record and the byte stride of every later record.
   */
  datatype Geometry = Geometry(samplesPerRecord: nat, recordsPerFile: nat, firstRecSize: int, otherRecSize: int)

  /** The records a window needs: 1-based first record, offset into it, and count. */
  datatype Plan = Plan(startRecord: nat, within: nat, nRecords: nat)

  /**
   The record decomposition of a window. The conditions below fix all three
   numbers uniquely: the start record and offset address the first requested
   sample, and the record count is one more than the number of whole records
   the offset plus the window span, so the records always cover the window.
   */
  function Decompose(req: Request, n: nat): (p: Plan)
    requires Valid(req) && n > 0
    ensures p.startRecord >= 1 && p.nRecords >= 1
    ensures (p.startRecord - 1) * n + p.within == StartSample(req)
    ensures p.within < n
    ensures (p.nRecords - 1) * n <= p.within + WindowSize(req) < p.nRecords * n
  {
    var start := StartSample(req);
    var w := start % n;
    var m := (w + WindowSize(req)) / n;
    assert (m + 1) * n == m * n + n;
    Plan(start / n + 1, w, m + 1)
  }

  /**
   The read gives up when the start record plus the count exceeds the records
   per file: exactly when the window reaches the file's last record.
   */
  predicate Refused(req: Request, g: Geometry): (b: bool)
    requires Valid(req) && g.samplesPerRecord > 0
    ensures b <==> StartSample(req) + WindowSize(req) >= (g.recordsPerFile - 1) * g.samplesPerRecord
  {
    var p := Decompose(req, g.samplesPerRecord);
    RefusedBound(StartSample(req) + WindowSize(req), p.startRecord - 1 + p.nRecords, g.recordsPerFile, g.samplesPerRecord);
    p.startRecord + p.nRecords > g.recordsPerFile
  }

  /** `e` lies in the `(m - 1)`-th block of `n`; that block is at least `r - 1` iff `e` reaches `(r - 1) * n`. */
  lemma RefusedBound(e: nat, m: nat, r: nat, n: nat)
    requires n > 0 && m >= 1 && (m - 1) * n <= e < m * n
    ensures m + 1 > r <==> e >= (r - 1) * n
  {
    if m + 1 > r {
      if r >= 1 {
        MulMono(r - 1, m - 1, n);
      }
    } else {
      MulMono(m, r - 1, n);
    }
  }

  /** An accepted window never needs the file's last record. */
  lemma AcceptedAvoidsLastRecord(req: Request, g: Geometry)
    requires Valid(req) && g.samplesPerRecord > 0 && !Refused(req, g)
    ensures var p := Decompose(req, g.samplesPerRecord);
      p.startRecord + p.nRecords - 1 < g.recordsPerFile
    ensures StartSample(req) + WindowSize(req) < (g.recordsPerFile - 1) * g.samplesPerRecord
  {
    var n := g.samplesPerRecord;
    var p := Decompose(req, n);
    assert StartSample(req) + WindowSize(req) < (p.startRecord - 1 + p.nRecords) * n;
    assert p.startRecord - 1 + p.nRecords <= g.recordsPerFile - 1;
    MulMono(p.startRecord - 1 + p.nRecords, g.recordsPerFile - 1, n);
  }

  lemma MulMono(a: nat, b: nat, n: nat)
    requires a <= b
    ensures a * n <= b * n
  {
  }

  /** With 1024-sample records, two 1024-sample frames from frame 2 take three records from record 2. */
  lemma DecomposeExample()
    ensures Decompose(Request(2, 1024, 2), 1024) == Plan(2, 0, 3)
  {
  }

  // ---------------------------------------------------------------------------
  // Read plan (`read_tdms`, read loop)

  /** File offset at which the 1-based record `k` starts. */
  function RecordStart(g: Geometry, k: nat): int
    requires k >= 1
  {
    if k == 1 then 0 else g.firstRecSize + (k - 2) * g.otherRecSize
  }

  /** File offset at which the 1-based record `k` ends. */
  function RecordEnd(g: Geometry, k: nat): int
    requires k >= 1
  {
    g.firstRecSize + (k - 1) * g.otherRecSize
  }

  /** The 1-based record numbers `[a, b)`. */
  function Range(a: nat, b: nat): (r: seq<nat>)
    ensures |r| == if a <= b then b - a else 0
    ensures forall k :: 0 <= k < |r| ==> r[k] == a + k
    decreases b - a
  {
    if a >= b then [] else [a] + Range(a + 1, b)
  }

  lemma StrideOrder(g: Geometry, j: int, k: int)
    requires g.otherRecSize > 0
    ensures j < k <==> j * g.otherRecSize < k * g.otherRecSize
  {
    if j < k {
      assert k * g.otherRecSize == j * g.otherRecSize + (k - j) * g.otherRecSize;
    } else {
      assert j * g.otherRecSize == k * g.otherRecSize + (j - k) * g.otherRecSize;
    }
  }

  /**
   The record sizes the probe can leave behind: both start at 0, the first
   becomes the end offset of the first record it counts and the stride the
   distance to the end of the second, so neither is negative and there is no
   stride without a first size.
   */
  predicate Learned(g: Geometry)
  {
    g.firstRecSize >= 0 && g.otherRecSize >= 0 && (g.firstRecSize == 0 ==> g.otherRecSize == 0)
  }

  /**
   The records the read loop parses, in order. Parsing starts at offset 0;
   once the end of the first record is reached and the start record is past 1,
   the file position jumps `(startRecord - 2) * otherRecSize` bytes; parsing
   stops at `firstRecSize + (startRecord + nRecords - 2) * otherRecSize`. The
   result is record 1 followed by the `nRecords` records from the start record
   (only the latter when the start record is 1). With a zero stride the stop
   offset is the end of record 1, so only record 1 is parsed, and with no
   first record size either nothing is.
   */
  method ReadOrder(g: Geometry, p: Plan) returns (order: seq<nat>)
    requires Learned(g)
    requires p.startRecord >= 1 && p.nRecords >= 1
    ensures g.otherRecSize > 0 && p.startRecord == 1 ==> order == Range(1, p.nRecords + 1)
    ensures g.otherRecSize > 0 && p.startRecord > 1 ==> order == [1] + Range(p.startRecord, p.startRecord + p.nRecords)
    ensures g.otherRecSize == 0 && g.firstRecSize > 0 ==> order == [1]
    ensures g.firstRecSize == 0 ==> order == []
  {
    var start, n := p.startRecord, p.nRecords;
    var absoluteSize := g.firstRecSize + (start + n - 2) * g.otherRecSize;
    assert absoluteSize == RecordEnd(g, start + n - 1);
    var pos := 0;
    var next: nat := 1;
    order := [];
    while pos < absoluteSize
      invariant 1 <= next <= start + n && pos == RecordStart(g, next)
      invariant OrderSoFar(start, n, next, order)
      invariant g.otherRecSize == 0 ==> next == 1 || (next == 2 && pos == absoluteSize && g.firstRecSize > 0)
      decreases start + n - next
    {
      if g.otherRecSize > 0 {
        Positions(g, next, start + n - 1);
      } else {
        NoStride(g, start + n - 1);
      }
      if start > 1 && pos == g.firstRecSize {
        // end of the first record: jump to the start record
        pos := pos + (start - 2) * g.otherRecSize;
        OrderJump(start, n, order);
        next := start;
        Positions(g, next, start + n - 1);
      }
      // the segment at `pos` is record `next`
      OrderStep(start, n, next, order);
      order := order + [next];
      pos := RecordEnd(g, next);
      next := next + 1;
    }
    OrderExit(g, start, n, next, order);
  }

  /** With a zero stride every record ends where the first does. */
  lemma NoStride(g: Geometry, m: nat)
    requires g.otherRecSize == 0 && m >= 1
    ensures RecordEnd(g, m) == RecordEnd(g, 1) == g.firstRecSize
  {
  }

  /** Where the read loop stops, the order it built is complete. */
  lemma OrderExit(g: Geometry, start: nat, n: nat, next: nat, order: seq<nat>)
    requires Learned(g) && start >= 1 && n >= 1 && 1 <= next <= start + n && OrderSoFar(start, n, next, order)
    requires RecordStart(g, next) >= RecordEnd(g, start + n - 1)
    requires g.otherRecSize == 0 ==> next == 1 || (next == 2 && g.firstRecSize > 0)
    ensures g.otherRecSize > 0 && start == 1 ==> order == Range(1, n + 1)
    ensures g.otherRecSize > 0 && start > 1 ==> order == [1] + Range(start, start + n)
    ensures g.otherRecSize == 0 && g.firstRecSize > 0 ==> order == [1]
    ensures g.firstRecSize == 0 ==> order == []
  {
    if g.otherRecSize > 0 {
      Positions(g, next, start + n - 1);
    } else if next == 2 {
      assert Range(1, 2) == [1] + Range(2, 2);
    }
  }

  /**
   The read loop's order after the records before `next`: the records from 1
   while the first record has not ended, and record 1 followed by the records
   from the start record after the jump.
   */
  predicate OrderSoFar(start: nat, n: nat, next: nat, order: seq<nat>)
  {
    if start <= 1 then next <= n + 1 && order == Range(1, next)
    else (next <= 2 && order == Range(1, next)) || (start <= next <= start + n && order == [1] + Range(start, next))
  }

  /** At the end of the first record the jump lands on the start record. */
  lemma OrderJump(start: nat, n: nat, order: seq<nat>)
    requires start > 1 && OrderSoFar(start, n, 2, order)
    ensures OrderSoFar(start, n, start, order)
  {
    if order == Range(1, 2) {
      assert Range(1, 2) == [1] + Range(2, 2);
      assert Range(start, start) == [];
    }
  }

  /** Parsing record `next` appends it to the order. */
  lemma OrderStep(start: nat, n: nat, next: nat, order: seq<nat>)
    requires 1 <= next < start + n && OrderSoFar(start, n, next, order)
    requires start <= 1 || next == 1 || start <= next
    ensures OrderSoFar(start, n, next + 1, order + [next])
  {
    if start <= 1 || next == 1 {
      RangeSnoc(1, next);
    } else {
      RangeSnoc(start, next);
      assert order == [1] + Range(start, next);
      assert order + [next] == [1] + Range(start, next + 1);
    }
  }

  lemma RangeSnoc(a: nat, b: nat)
    requires a <= b
    ensures Range(a, b + 1) == Range(a, b) + [b]
  {
    var x, y := Range(a, b + 1), Range(a, b) + [b];
    assert |x| == |y|;
    forall k | 0 <= k < |x|
      ensures x[k] == y[k]
    {
      if k < b - a {
        assert y[k] == Range(a, b)[k];
      }
    }
  }

  /**
   Record `k` starts before record `m` ends exactly when `k <= m`, and only
   record 2 starts where the first record ends.
   */
  lemma Positions(g: Geometry, k: nat, m: nat)
    requires g.firstRecSize > 0 && g.otherRecSize > 0 && k >= 1 && m >= 1
    ensures RecordStart(g, k) < RecordEnd(g, m) <==> k <= m
    ensures RecordStart(g, k) == g.firstRecSize <==> k == 2
    ensures RecordEnd(g, k) == RecordStart(g, k + 1)
  {
    StrideOrder(g, 0, m - 1);
    if k >= 2 {
      StrideOrder(g, k - 2, m - 1);
      StrideOrder(g, k - 2, 0);
      StrideOrder(g, 0, k - 2);
    }
  }

  /**
   The samples of one channel of the records listed in `order`, concatenated
   (a record number outside the file contributes nothing).
   */
  function Gather(recs: seq<Record>, order: seq<nat>, c: Channel): seq<int>
  {
    if |order| == 0 then []
    else (if 1 <= order[0] <= |recs| then Samples(recs[order[0] - 1], c) else []) + Gather(recs, order[1..], c)
  }

  lemma {:induction false} GatherRange(recs: seq<Record>, a: nat, b: nat, c: Channel)
    requires 1 <= a <= b <= |recs| + 1
    ensures Gather(recs, Range(a, b), c) == Stream(recs[a - 1..b - 1], c)
    decreases b - a
  {
    if a < b {
      GatherRange(recs, a + 1, b, c);
      assert Range(a, b)[1..] == Range(a + 1, b);
      assert recs[a - 1..b - 1][1..] == recs[a..b - 1];
    } else {
      assert recs[a - 1..b - 1] == [];
    }
  }

  /** Pairs I and Q samples into complex samples. */
  function Interleave(ii: seq<int>, qq: seq<int>): (r: seq<IQ>)
    requires |ii| == |qq|
    ensures |r| == |ii|
    ensures forall k :: 0 <= k < |r| ==> r[k].i == ii[k] && r[k].q == qq[k]
  {
    seq(|ii|, k requires 0 <= k < |ii| => IQ(ii[k], qq[k]))
  }

  /** One channel of the loop's output after dropping the duplicate record and slicing. */
  function Trimmed(raw: seq<int>, p: Plan, n: nat, size: nat): seq<int>
  {
    var ii := if p.startRecord > 1 then Slice(raw, n, |raw|) else raw;
    Slice(ii, p.within, p.within + size)
  }

  /**
   Dropping the first record (when the start record is past 1) and slicing at
   the offset leaves exactly the samples `[start, start + size)` of the channel
   stream, for any plan that decomposes that window and fits in the file.
   */
  lemma TrimmedIsWindow(recs: seq<Record>, n: nat, p: Plan, start: nat, size: nat, order: seq<nat>, c: Channel)
    requires Uniform(recs, n) && p.startRecord >= 1 && p.nRecords >= 1 && p.startRecord + p.nRecords <= |recs|
    requires (p.startRecord - 1) * n + p.within == start && p.within + size < p.nRecords * n
    requires p.startRecord == 1 ==> order == Range(1, p.nRecords + 1)
    requires p.startRecord > 1 ==> order == [1] + Range(p.startRecord, p.startRecord + p.nRecords)
    ensures start + size <= |Stream(recs, c)|
    ensures Trimmed(Gather(recs, order, c), p, n, size) == Stream(recs, c)[start..start + size]
  {
    if p.startRecord > 1 {
      DropFirstRecord(recs, n, p.startRecord, p.nRecords, order, c);
      WindowAfterDrop(recs, n, p, start, size, Gather(recs, order, c), c);
    } else {
      TrimmedWithoutDrop(recs, n, p, start, size, order, c);
    }
  }

  /**
   `TrimmedIsWindow` when the start record is past 1: `raw` is record 1's
   samples followed by the needed run, and dropping the former leaves the window.
   */
  lemma WindowAfterDrop(recs: seq<Record>, n: nat, p: Plan, start: nat, size: nat, raw: seq<int>, c: Channel)
    requires Uniform(recs, n) && p.startRecord > 1 && p.startRecord + p.nRecords <= |recs|
    requires (p.startRecord - 1) * n + p.within == start && p.within + size < p.nRecords * n
    requires Slice(raw, n, |raw|) == Stream(recs[p.startRecord - 1..p.startRecord - 1 + p.nRecords], c)
    ensures start + size <= |Stream(recs, c)|
    ensures Trimmed(raw, p, n, size) == Stream(recs, c)[start..start + size]
  {
    DropThenSlice(raw, Stream(recs[p.startRecord - 1..p.startRecord - 1 + p.nRecords], c), p, n, size);
    RunCoversWindow(recs, n, p.startRecord - 1, p.nRecords, p.within, start, size, c);
  }

  /** `TrimmedIsWindow` when the start record is 1, so nothing is dropped. */
  lemma TrimmedWithoutDrop(recs: seq<Record>, n: nat, p: Plan, start: nat, size: nat, order: seq<nat>, c: Channel)
    requires Uniform(recs, n) && p.startRecord == 1 && p.startRecord + p.nRecords <= |recs|
    requires p.within == start && p.within + size < p.nRecords * n
    requires order == Range(1, p.nRecords + 1)
    ensures start + size <= |Stream(recs, c)|
    ensures Trimmed(Gather(recs, order, c), p, n, size) == Stream(recs, c)[start..start + size]
  {
    RunCoversWindow(recs, n, 0, p.nRecords, p.within, start, size, c);
    GatherRange(recs, 1, p.nRecords + 1, c);
    assert recs[1 - 1..p.nRecords + 1 - 1] == recs[0..0 + p.nRecords];
  }

  /** Dropping the first `n` samples and slicing at the plan's offset slices what remains. */
  lemma DropThenSlice(raw: seq<int>, run: seq<int>, p: Plan, n: nat, size: nat)
    requires p.startRecord > 1 && Slice(raw, n, |raw|) == run
    ensures Trimmed(raw, p, n, size) == Slice(run, p.within, p.within + size)
  {
  }

  /**
   When the start record is past 1, the samples gathered in read order with
   the first `n` (record 1's) dropped are the run of records the window needs.
   */
  lemma DropFirstRecord(recs: seq<Record>, n: nat, s: nat, m: nat, order: seq<nat>, c: Channel)
    requires Uniform(recs, n) && 1 < s && s - 1 + m <= |recs|
    requires order == [1] + Range(s, s + m)
    ensures n <= |Gather(recs, order, c)|
    ensures Slice(Gather(recs, order, c), n, |Gather(recs, order, c)|) == Stream(recs[s - 1..s - 1 + m], c)
  {
    GatherOrder(recs, s, m, order, c);
    SamplesLength(recs, n, 0, c);
    SliceAfter(Samples(recs[0], c), Stream(recs[s - 1..s - 1 + m], c));
  }

  lemma SamplesLength(recs: seq<Record>, n: nat, k: nat, c: Channel)
    requires Uniform(recs, n) && k < |recs|
    ensures |Samples(recs[k], c)| == n
  {
    assert |recs[k].i| == n && |recs[k].q| == n;
  }

  /** Slicing off a prefix leaves what follows it. */
  lemma SliceAfter<T>(x: seq<T>, y: seq<T>)
    ensures Slice(x + y, |x|, |x + y|) == y
  {
    if |y| > 0 {
      assert (x + y)[|x|..] == y;
    }
  }

  /** The samples gathered in read order are record 1 (when the start is past 1) then the needed run. */
  lemma GatherOrder(recs: seq<Record>, start: nat, count: nat, order: seq<nat>, c: Channel)
    requires 1 <= start && start - 1 + count <= |recs|
    requires start == 1 ==> order == Range(1, count + 1)
    requires start > 1 ==> order == [1] + Range(start, start + count)
    ensures Gather(recs, order, c) ==
      (if start > 1 then Samples(recs[0], c) else []) + Stream(recs[start - 1..start - 1 + count], c)
  {
    var run := Stream(recs[start - 1..start - 1 + count], c);
    GatherRange(recs, start, start + count, c);
    if start > 1 {
      assert order[0] == 1;
      assert order[1..] == Range(start, start + count);
      assert Gather(recs, order, c) == Samples(recs[0], c) + Gather(recs, order[1..], c);
    } else {
      assert [] + run == run;
    }
  }

  /**
   Within the `m` records from `a`, the samples `[w, w + size)` are the
   stream's samples from `a * n + w`, provided they end before the records do.
   */
  lemma RunCoversWindow(recs: seq<Record>, n: nat, a: nat, m: nat, w: nat, start: nat, size: nat, c: Channel)
    requires Uniform(recs, n) && a + m <= |recs|
    requires w + size < m * n && a * n + w == start
    ensures start + size <= |Stream(recs, c)|
    ensures Slice(Stream(recs[a..a + m], c), w, w + size) == Stream(recs, c)[start..start + size]
  {
    var b := a + m;
    StreamRange(recs, n, a, b, c);
    assert b - a == m;
    SubWindow(Stream(recs, c), Stream(recs[a..b], c), a, b, n, w, start, size);
  }

  lemma SubWindow(st: seq<int>, run: seq<int>, a: nat, b: nat, n: nat, w: nat, start: nat, size: nat)
    requires a <= b && b * n <= |st| && run == st[a * n..b * n]
    requires w + size < (b - a) * n && a * n + w == start
    ensures start + size <= |st|
    ensures Slice(run, w, w + size) == st[start..start + size]
  {
    assert a * n + (b - a) * n == b * n;
    assert w + size < |run|;
    assert Slice(run, w, w + size) == run[w..w + size];
  }

  /**
   With a zero stride the loop parses record 1 only. Trimmed, it is the window
   while the window stays inside record 1; otherwise it holds only the part of
   the window record 1 has, which is nothing when the window starts past it.
   */
  lemma StrideZeroTrimmed(recs: seq<Record>, n: nat, p: Plan, start: nat, size: nat, c: Channel)
    requires Uniform(recs, n) && p.startRecord >= 1 && p.startRecord + p.nRecords <= |recs|
    requires (p.startRecord - 1) * n + p.within == start && p.within < n && p.within + size < p.nRecords * n
    ensures start + size <= |Stream(recs, c)|
    ensures var t := Trimmed(Gather(recs, [1], c), p, n, size);
      (start + size <= n || size == 0 ==> t == Stream(recs, c)[start..start + size]) &&
      (start + size > n ==> |t| == (if start < n then n - start else 0)) &&
      (start < n && size > 0 ==> |t| >= 1 && t[0] == Stream(recs, c)[start])
  {
    RunCoversWindow(recs, n, p.startRecord - 1, p.nRecords, p.within, start, size, c);
    SamplesLength(recs, n, 0, c);
    var first := Samples(recs[0], c);
    assert [1][1..] == [];
    assert Gather(recs, [1], c) == first + Gather(recs, [], c);
    assert Stream(recs, c) == first + Stream(recs[1..], c);
    if p.startRecord > 1 {
      PastRecordOne(first, Stream(recs, c), p, n, start, size);
    } else {
      InRecordOne(first, Stream(recs, c), p, n, start, size);
    }
  }

  /** A window starting past record 1 keeps nothing of record 1 alone. */
  lemma PastRecordOne(first: seq<int>, st: seq<int>, p: Plan, n: nat, start: nat, size: nat)
    requires |first| == n && p.startRecord > 1 && (p.startRecord - 1) * n + p.within == start
    ensures start >= n && Trimmed(first, p, n, size) == []
  {
    assert (p.startRecord - 1) * n == (p.startRecord - 2) * n + n;
  }

  /** A window starting in record 1 keeps what record 1 has of it. */
  lemma InRecordOne(first: seq<int>, st: seq<int>, p: Plan, n: nat, start: nat, size: nat)
    requires |first| == n && n <= |st| && st[..n] == first && start + size <= |st|
    requires p.startRecord == 1 && p.within == start && start < n
    ensures var t := Trimmed(first, p, n, size);
      |t| == Min(start + size, n) - start && (size > 0 ==> t[0] == st[start]) &&
      (start + size <= n ==> t == st[start..start + size])
  {
    var t := Trimmed(first, p, n, size);
    if start + size <= n {
      assert t == first[start..start + size];
    }
  }

  /**
   numpy's `a[::2] = x` (or `a[1::2] = x`) into a target of `size` elements:
   `x` when the lengths agree, its one element repeated when it has one, and a
   ValueError otherwise.
   */
  function Fill(x: seq<int>, size: nat): (r: Result<seq<int>>)
    ensures r.Ok? <==> |x| == size || |x| == 1
    ensures r.Ok? ==> |r.value| == size
    ensures r.Ok? && |x| == size ==> r.value == x
    ensures r.Ok? && |x| != size ==> forall k :: 0 <= k < size ==> r.value[k] == x[0]
    ensures r.Err? ==> r.error == ShapeError(|x|, size)
  {
    if |x| == size then Ok(x)
    else if |x| == 1 then Ok(seq(size, _ => x[0]))
    else Err(ShapeError(|x|, size))
  }

  /**
   One channel as the read assigns it into the data buffer, given the records
   the loop parsed: the window itself with a positive stride or while the
   window lies in record 1; with a zero stride and a window running past
   record 1, the window's first sample repeated when that is record 1's last,
   and a ValueError otherwise.
   */
  lemma ChannelFill(recs: seq<Record>, g: Geometry, p: Plan, order: seq<nat>, start: nat, size: nat, c: Channel)
    requires Learned(g) && g.firstRecSize > 0 && Uniform(recs, g.samplesPerRecord) && g.samplesPerRecord > 0
    requires p.startRecord >= 1 && p.nRecords >= 1 && p.startRecord + p.nRecords <= |recs|
    requires (p.startRecord - 1) * g.samplesPerRecord + p.within == start && p.within < g.samplesPerRecord
    requires p.within + size < p.nRecords * g.samplesPerRecord
    requires g.otherRecSize > 0 && p.startRecord == 1 ==> order == Range(1, p.nRecords + 1)
    requires g.otherRecSize > 0 && p.startRecord > 1 ==> order == [1] + Range(p.startRecord, p.startRecord + p.nRecords)
    requires g.otherRecSize == 0 ==> order == [1]
    ensures start + size <= |Stream(recs, c)|
    ensures var n, f := g.samplesPerRecord, Fill(Trimmed(Gather(recs, order, c), p, g.samplesPerRecord, size), size);
      (g.otherRecSize > 0 || start + size <= n || size == 0 ==> f == Ok(Stream(recs, c)[start..start + size])) &&
      (g.otherRecSize == 0 && start + size > n && size > 0 ==>
        if start + 1 == n then f.Ok? && |f.value| == size && forall k :: 0 <= k < size ==> f.value[k] == Stream(recs, c)[start]
        else f == Err(ShapeError(if start < n then n - start else 0, size)))
  {
    if g.otherRecSize > 0 {
      TrimmedIsWindow(recs, g.samplesPerRecord, p, start, size, order, c);
    } else {
      StrideZeroTrimmed(recs, g.samplesPerRecord, p, start, size, c);
    }
  }

  /** The key the read looks the I channel up under once the loop has run. */
  const RecordDataI := "/'RecordData'/'I'"

  /**
   The part of `read_tdms` past the refusal check: parse the records, trim
   both channels to the window and assign them into the data buffer. With a
   positive stride, or while the window lies in record 1, the result is the
   window. With a zero stride only record 1 is parsed, so a window running
   past it gives record 1's last sample repeated when the window starts on
   it, and a ValueError otherwise. With no first record size nothing is
   parsed and the channel lookup fails.
   */
  method ReadWindow(recs: seq<Record>, g: Geometry, req: Request, p: Plan) returns (r: Result<seq<IQ>>)
    requires Valid(req) && Learned(g) && g.samplesPerRecord > 0
    requires p == Decompose(req, g.samplesPerRecord) && p.startRecord + p.nRecords <= g.recordsPerFile
    requires |recs| == g.recordsPerFile && Uniform(recs, g.samplesPerRecord)
    ensures g.firstRecSize == 0 ==> r == Err(KeyError(RecordDataI))
    ensures g.firstRecSize > 0 &&
            (g.otherRecSize > 0 || StartSample(req) + WindowSize(req) <= g.samplesPerRecord || WindowSize(req) == 0) ==>
      var start, size := StartSample(req), WindowSize(req);
      start + size <= |Stream(recs, I)| && start + size <= |Stream(recs, Q)| &&
      r == Ok(Interleave(Stream(recs, I)[start..start + size], Stream(recs, Q)[start..start + size]))
    ensures g.firstRecSize > 0 && g.otherRecSize == 0 &&
            StartSample(req) + WindowSize(req) > g.samplesPerRecord && WindowSize(req) > 0 ==>
      var n, start, size := g.samplesPerRecord, StartSample(req), WindowSize(req);
      if start + 1 == n then
        r.Ok? && |r.value| == size && start < |Stream(recs, I)| && start < |Stream(recs, Q)| &&
        forall k :: 0 <= k < size ==> r.value[k] == IQ(Stream(recs, I)[start], Stream(recs, Q)[start])
      else
        r == Err(ShapeError(if start < n then n - start else 0, size))
  {
    var n := g.samplesPerRecord;
    var order := ReadOrder(g, p);
    if |order| == 0 {
      // no segment was parsed, so the raw data holds no I channel
      return Err(KeyError(RecordDataI));
    }
    r := Assign(recs, order, p, n, WindowSize(req));
    AssignedWindow(recs, g, req, p, order);
    if g.otherRecSize == 0 {
      AssignedPastRecordOne(recs, g, req, p, order);
    }
  }

  /**
   `data_array[::2], data_array[1::2] = ii, qq` after trimming both channels
   of the parsed records; the I assignment comes first.
   */
  function Assign(recs: seq<Record>, order: seq<nat>, p: Plan, n: nat, size: nat): (r: Result<seq<IQ>>)
    ensures r.Ok? ==> |r.value| == size
  {
    var ii := Fill(Trimmed(Gather(recs, order, I), p, n, size), size);
    var qq := Fill(Trimmed(Gather(recs, order, Q), p, n, size), size);
    if ii.Err? then Err(ii.error)
    else if qq.Err? then Err(qq.error)
    else Ok(Interleave(ii.value, qq.value))
  }

  /** `ChannelFill` for both channels, paired by `Assign`: the window itself, in the terms of `ReadWindow`. */
  lemma AssignedWindow(recs: seq<Record>, g: Geometry, req: Request, p: Plan, order: seq<nat>)
    requires Valid(req) && Learned(g) && g.firstRecSize > 0 && g.samplesPerRecord > 0
    requires p == Decompose(req, g.samplesPerRecord) && p.startRecord + p.nRecords <= g.recordsPerFile
    requires |recs| == g.recordsPerFile && Uniform(recs, g.samplesPerRecord)
    requires g.otherRecSize > 0 && p.startRecord == 1 ==> order == Range(1, p.nRecords + 1)
    requires g.otherRecSize > 0 && p.startRecord > 1 ==> order == [1] + Range(p.startRecord, p.startRecord + p.nRecords)
    requires g.otherRecSize == 0 ==> order == [1]
    ensures var r := Assign(recs, order, p, g.samplesPerRecord, WindowSize(req));
      (g.otherRecSize > 0 || StartSample(req) + WindowSize(req) <= g.samplesPerRecord || WindowSize(req) == 0) ==>
      var start, size := StartSample(req), WindowSize(req);
      start + size <= |Stream(recs, I)| && start + size <= |Stream(recs, Q)| &&
      r == Ok(Interleave(Stream(recs, I)[start..start + size], Stream(recs, Q)[start..start + size]))
  {
    var n, start, size := g.samplesPerRecord, StartSample(req), WindowSize(req);
    ChannelFill(recs, g, p, order, start, size, I);
    ChannelFill(recs, g, p, order, start, size, Q);
    if g.otherRecSize > 0 || start + size <= n || size == 0 {
      AssignPairs(recs, order, p, n, size);
    }
  }

  /**
   `ChannelFill` for both channels, paired by `Assign`: a zero-stride window
   running past record 1, in the terms of `ReadWindow`.
   */
  lemma AssignedPastRecordOne(recs: seq<Record>, g: Geometry, req: Request, p: Plan, order: seq<nat>)
    requires Valid(req) && Learned(g) && g.firstRecSize > 0 && g.samplesPerRecord > 0
    requires p == Decompose(req, g.samplesPerRecord) && p.startRecord + p.nRecords <= g.recordsPerFile
    requires |recs| == g.recordsPerFile && Uniform(recs, g.samplesPerRecord)
    requires g.otherRecSize == 0 && order == [1]
    ensures var r := Assign(recs, order, p, g.samplesPerRecord, WindowSize(req));
      (StartSample(req) + WindowSize(req) > g.samplesPerRecord && WindowSize(req) > 0) ==>
      var n, start, size := g.samplesPerRecord, StartSample(req), WindowSize(req);
      if start + 1 == n then
        r.Ok? && |r.value| == size && start < |Stream(recs, I)| && start < |Stream(recs, Q)| &&
        forall k :: 0 <= k < size ==> r.value[k] == IQ(Stream(recs, I)[start], Stream(recs, Q)[start])
      else
        r == Err(ShapeError(if start < n then n - start else 0, size))
  {
    var n, start, size := g.samplesPerRecord, StartSample(req), WindowSize(req);
    ChannelFill(recs, g, p, order, start, size, I);
    ChannelFill(recs, g, p, order, start, size, Q);
    if start + size > n && size > 0 && start + 1 == n {
      var fi := Fill(Trimmed(Gather(recs, order, I), p, n, size), size);
      var fq := Fill(Trimmed(Gather(recs, order, Q), p, n, size), size);
      AssignPairs(recs, order, p, n, size);
      AssignRepeats(fi.value, fq.value, Assign(recs, order, p, n, size).value, Stream(recs, I)[start], Stream(recs, Q)[start]);
    }
  }

  /** When both channels fill, `Assign` pairs what they fill with. */
  lemma AssignPairs(recs: seq<Record>, order: seq<nat>, p: Plan, n: nat, size: nat)
    requires Fill(Trimmed(Gather(recs, order, I), p, n, size), size).Ok?
    requires Fill(Trimmed(Gather(recs, order, Q), p, n, size), size).Ok?
    ensures Assign(recs, order, p, n, size) ==
      Ok(Interleave(Fill(Trimmed(Gather(recs, order, I), p, n, size), size).value,
                    Fill(Trimmed(Gather(recs, order, Q), p, n, size), size).value))
  {
  }

  /** Pairing two constant channels gives a constant run of pairs. */
  lemma AssignRepeats(ii: seq<int>, qq: seq<int>, r: seq<IQ>, x: int, y: int)
    requires |ii| == |qq| && r == Interleave(ii, qq)
    requires forall k :: 0 <= k < |ii| ==> ii[k] == x
    requires forall k :: 0 <= k < |qq| ==> qq[k] == y
    ensures forall k :: 0 <= k < |r| ==> r[k] == IQ(x, y)
  {
  }

  /**
   `read_tdms`: the frame counters always change; a window reaching the
   file's last record is refused and keeps any earlier data buffer; otherwise
   the data buffer is what `ReadWindow` assigns, or its error.
   */
  method ReadTdms(recs: seq<Record>, g: Geometry, req: Request, st: ReaderState) returns (r: Result<ReaderState>)
    requires Valid(req) && Learned(g)
    requires |recs| == g.recordsPerFile && Uniform(recs, g.samplesPerRecord)
    ensures g.samplesPerRecord == 0 ==> r == Err(ZeroDivisionError)
    ensures r.Ok? ==> r.value.lframes == req.lframes && r.value.nframes == req.nframes
    ensures g.samplesPerRecord > 0 && Refused(req, g) ==> r.Ok? && r.value.data == st.data
    ensures g.samplesPerRecord > 0 && !Refused(req, g) && g.firstRecSize == 0 ==> r == Err(KeyError(RecordDataI))
    ensures g.samplesPerRecord > 0 && !Refused(req, g) && g.firstRecSize > 0 &&
            (g.otherRecSize > 0 || StartSample(req) + WindowSize(req) <= g.samplesPerRecord || WindowSize(req) == 0) ==>
      var start, size := StartSample(req), WindowSize(req);
      r.Ok? && start + size <= |Stream(recs, I)| && start + size <= |Stream(recs, Q)| &&
      r.value.data == Some(Interleave(Stream(recs, I)[start..start + size], Stream(recs, Q)[start..start + size]))
    ensures g.samplesPerRecord > 0 && !Refused(req, g) && g.firstRecSize > 0 && g.otherRecSize == 0 &&
            StartSample(req) + WindowSize(req) > g.samplesPerRecord && WindowSize(req) > 0 ==>
      var n, start, size := g.samplesPerRecord, StartSample(req), WindowSize(req);
      if start + 1 == n then
        r.Ok? && r.value.data.Some? && |r.value.data.value| == size &&
        start < |Stream(recs, I)| && start < |Stream(recs, Q)| &&
        forall k :: 0 <= k < size ==> r.value.data.value[k] == IQ(Stream(recs, I)[start], Stream(recs, Q)[start])
      else
        r == Err(ShapeError(if start < n then n - start else 0, size))
  {
    var st1 := st.(lframes := req.lframes, nframes := req.nframes);
    if g.samplesPerRecord == 0 {
      return Err(ZeroDivisionError);
    }
    var p := Decompose(req, g.samplesPerRecord);
    if p.startRecord + p.nRecords > g.recordsPerFile {
      return Ok(st1);
    }
    var d := ReadWindow(recs, g, req, p);
    if d.Err? {
      return Err(d.error);
    }
    return Ok(st1.(data := Some(d.value)));
  }

  // ---------------------------------------------------------------------------
  // Probe (`read_tdms_information`)

  /** One parsed segment: the samples it appends to each channel and its end offset. */
  datatype Segment = Segment(i: seq<int>, q: seq<int>, endOffset: nat)

  /** Everything appended to a channel by a run of segments. */
  function Appended(segs: seq<Segment>, c: Channel): seq<int>
  {
    if |segs| == 0 then []
    else Appended(segs[..|segs| - 1], c) + (match c case I => segs[|segs| - 1].i case Q => segs[|segs| - 1].q)
  }

  /** What the probe sees after a segment: the last I and Q sample so far, and the offset. */
  datatype Observation = Observation(lastI: int, lastQ: int, endOffset: nat)

  /** The probe's view after segment `k`, when both channels hold data by then. */
  function ObservationAt(segs: seq<Segment>, k: nat): (o: Option<Observation>)
    requires k < |segs|
    ensures o.Some? ==> o.value.endOffset == segs[k].endOffset
  {
    var ai, aq := Appended(segs[..k + 1], I), Appended(segs[..k + 1], Q);
    if |ai| > 0 && |aq| > 0 then Some(Observation(ai[|ai| - 1], aq[|aq| - 1], segs[k].endOffset)) else None
  }

  /**
   The end offsets of every segment, from `k` on, that would be counted as a
   new record if the probe never stopped: one whose last I and last Q both
   differ from those of the previously counted record (`li`, `lq`).
   */
  function CountedEnds(segs: seq<Segment>, k: nat, li: int, lq: int): (r: seq<nat>)
    requires k <= |segs|
    ensures |r| <= |segs| - k
    decreases |segs| - k
  {
    if k == |segs| then []
    else match ObservationAt(segs, k)
      case Some(o) =>
        if o.lastI != li && o.lastQ != lq then [o.endOffset] + CountedEnds(segs, k + 1, o.lastI, o.lastQ)
        else CountedEnds(segs, k + 1, li, lq)
      case None => CountedEnds(segs, k + 1, li, lq)
  }

  /** The file position after each segment: past the lead-in, and moving forward. */
  predicate Ascending(segs: seq<Segment>)
  {
    (forall a :: 0 <= a < |segs| ==> segs[a].endOffset > 0) &&
    (forall a :: 0 < a < |segs| ==> segs[a - 1].endOffset < segs[a].endOffset)
  }

  /** Counted ends are ends of segments from `k` on, so they ascend as those do. */
  lemma {:induction false} CountedAscending(segs: seq<Segment>, k: nat, li: int, lq: int)
    requires k <= |segs| && Ascending(segs)
    ensures forall j :: 0 <= j < |CountedEnds(segs, k, li, lq)| ==>
      k < |segs| && segs[k].endOffset <= CountedEnds(segs, k, li, lq)[j]
    ensures forall j :: 0 < j < |CountedEnds(segs, k, li, lq)| ==>
      CountedEnds(segs, k, li, lq)[j - 1] < CountedEnds(segs, k, li, lq)[j]
    decreases |segs| - k
  {
    if k < |segs| {
      var r := CountedEnds(segs, k, li, lq);
      var o := ObservationAt(segs, k);
      var counted := o.Some? && o.value.lastI != li && o.value.lastQ != lq;
      var li', lq' := if counted then o.value.lastI else li, if counted then o.value.lastQ else lq;
      CountedAscending(segs, k + 1, li', lq');
      var rest := CountedEnds(segs, k + 1, li', lq');
      if k + 1 < |segs| {
        assert segs[k + 1 - 1].endOffset < segs[k + 1].endOffset;
      }
      if counted {
        assert r == [segs[k].endOffset] + rest;
      } else {
        assert r == rest;
      }
      forall j | 0 <= j < |r|
        ensures segs[k].endOffset <= r[j]
      {
        if counted && j > 0 {
          assert r[j] == rest[j - 1];
        } else if !counted {
          assert r[j] == rest[j];
        }
      }
      forall j | 0 < j < |r|
        ensures r[j - 1] < r[j]
      {
        if counted {
          assert r[j] == rest[j - 1];
        } else {
          assert r[j] == rest[j];
        }
      }
    } else {
      assert |CountedEnds(segs, k, li, lq)| == 0;
    }
  }

  /**
   The sizes the probe leaves satisfy `Learned` whenever the sizes it started
   from did: counted, the first is a positive end offset and the stride the
   gap between two ascending ones.
   */
  lemma ProbeLearned(segs: seq<Segment>, n: nat, m: nat, priorFirst: int, priorOther: int)
    requires Ascending(segs) && Learned(Geometry(n, m, priorFirst, priorOther))
    ensures var c := CountedEnds(segs, 0, 0, 0);
      Learned(Geometry(n, m, FirstSize(c, priorFirst), OtherSize(c, priorOther)))
  {
    CountedAscending(segs, 0, 0, 0);
  }

  /** What `read_tdms_information` records about the file. */
  datatype Info = Info(firstRecSize: int, otherRecSize: int, numberSamples: nat, nframesTot: nat)

  /** `first_rec_size` after the records `counted`: the end of the first, if any. */
  function FirstSize(counted: seq<nat>, prior: int): int
  {
    if |counted| >= 1 then counted[0] else prior
  }

  /** `other_rec_size` after the records `counted`: the distance between the first two ends, if any. */
  function OtherSize(counted: seq<nat>, prior: int): int
  {
    if |counted| >= 2 then counted[1] as int - counted[0] as int else prior
  }

  /**
   The segment loop of `read_tdms_information`: parses segments until the
   second record is seen. `first` becomes the end offset of the first counted
   record and `other` the distance from there to the end of the second; when
   fewer records are seen they keep their previous values.
   */
  method ProbeRecords(segs: seq<Segment>, priorFirst: int, priorOther: int) returns (first: int, other: int)
    ensures var c := CountedEnds(segs, 0, 0, 0);
      (|c| >= 1 ==> first == c[0]) && (|c| == 0 ==> first == priorFirst) &&
      (|c| >= 2 ==> other == c[1] as int - c[0] as int) && (|c| < 2 ==> other == priorOther)
  {
    first, other := priorFirst, priorOther;
    var accI: seq<int>, accQ: seq<int> := [], [];
    var howMany := 0;
    var lastIff, lastQff := 0, 0;
    ghost var counted: seq<nat> := [];
    var k := 0;
    // The loop stops at the second counted record, where the source breaks out.
    while k < |segs| && howMany < 2
      invariant 0 <= k <= |segs|
      invariant accI == Appended(segs[..k], I) && accQ == Appended(segs[..k], Q)
      invariant howMany == |counted| <= 2
      invariant counted + CountedEnds(segs, k, lastIff, lastQff) == CountedEnds(segs, 0, 0, 0)
      invariant first == FirstSize(counted, priorFirst) && other == OtherSize(counted, priorOther)
    {
      accI := accI + segs[k].i;
      accQ := accQ + segs[k].q;
      CountedStep(segs, k, lastIff, lastQff, accI, accQ);
      CountedSplit(segs, k, lastIff, lastQff, counted, accI, accQ);
      var isNew, lastI, lastQ := NewRecord(accI, accQ, lastIff, lastQff);
      if isNew {
        var offset: nat := segs[k].endOffset;
        SizesAppend(counted, offset, priorFirst, priorOther);
        howMany := howMany + 1;
        lastIff, lastQff := lastI, lastQ;
        counted := counted + [offset];
        if howMany == 1 {
          first := offset;
        }
        if howMany == 2 {
          other := offset - first;
        }
      }
      k := k + 1;
    }
    ProbeExit(segs, k, lastIff, lastQff, counted);
  }

  /** Counting one more record end changes the learned sizes only while fewer than two were counted. */
  lemma SizesAppend(counted: seq<nat>, offset: nat, priorFirst: int, priorOther: int)
    ensures FirstSize(counted + [offset], priorFirst) == if |counted| == 0 then offset else FirstSize(counted, priorFirst)
    ensures OtherSize(counted + [offset], priorOther) ==
      if |counted| == 1 then offset - counted[0] else OtherSize(counted, priorOther)
  {
    if |counted| >= 1 {
      assert (counted + [offset])[0] == counted[0];
    }
    if |counted| >= 2 {
      assert (counted + [offset])[1] == counted[1];
    }
  }

  /**
   Whether the data seen so far ends a new record: both channels hold data and
   their last samples both differ from those of the last counted record.
   */
  method NewRecord(accI: seq<int>, accQ: seq<int>, lastIff: int, lastQff: int) returns (isNew: bool, lastI: int, lastQ: int)
    ensures isNew <==> |accI| > 0 && |accQ| > 0 && accI[|accI| - 1] != lastIff && accQ[|accQ| - 1] != lastQff
    ensures isNew ==> lastI == accI[|accI| - 1] && lastQ == accQ[|accQ| - 1]
  {
    isNew, lastI, lastQ := false, lastIff, lastQff;
    if |accI| > 0 && |accQ| > 0 {
      lastI, lastQ := accI[|accI| - 1], accQ[|accQ| - 1];
      isNew := lastIff != lastI && lastQff != lastQ;
    }
  }

  /**
   `read_tdms_information`: the record sizes the segment loop learns, the
   sample count (records per file times samples per record) and the number of
   whole frames in it.
   */
  method Probe(segs: seq<Segment>, samplesPerRecord: nat, recordsPerFile: nat, lframes: nat,
               priorFirst: int, priorOther: int) returns (r: Result<Info>)
    ensures r.Err? <==> lframes == 0
    ensures r.Ok? ==> r.value.numberSamples == samplesPerRecord * recordsPerFile
    ensures r.Ok? ==> r.value.nframesTot * lframes <= r.value.numberSamples < r.value.nframesTot * lframes + lframes
    ensures r.Ok? ==> var c := CountedEnds(segs, 0, 0, 0);
      (|c| >= 1 ==> r.value.firstRecSize == c[0]) && (|c| == 0 ==> r.value.firstRecSize == priorFirst) &&
      (|c| >= 2 ==> r.value.otherRecSize == c[1] as int - c[0] as int) && (|c| < 2 ==> r.value.otherRecSize == priorOther)
  {
    var first, other := ProbeRecords(segs, priorFirst, priorOther);
    var total := samplesPerRecord * recordsPerFile;
    match FramesTotal(total, lframes)
    case Err(e) =>
      return Err(e);
    case Ok(tot) =>
      return Ok(Info(first, other, total, tot));
  }

  /**
   When the probe stops, the records it counted start the list of all records
   it would count, and are that whole list when it ran out of segments.
   */
  lemma ProbeExit(segs: seq<Segment>, k: nat, li: int, lq: int, counted: seq<nat>)
    requires k <= |segs| && (k == |segs| || |counted| >= 2)
    requires counted + CountedEnds(segs, k, li, lq) == CountedEnds(segs, 0, 0, 0)
    ensures var c := CountedEnds(segs, 0, 0, 0);
      |c| >= |counted| && c[..|counted|] == counted && (|counted| < 2 ==> c == counted)
  {
    var c := CountedEnds(segs, 0, 0, 0);
    assert c[..|counted|] == counted;
  }

  /** One more segment appends its samples to what the earlier ones appended. */
  lemma AppendedStep(segs: seq<Segment>, k: nat)
    requires k < |segs|
    ensures Appended(segs[..k + 1], I) == Appended(segs[..k], I) + segs[k].i
    ensures Appended(segs[..k + 1], Q) == Appended(segs[..k], Q) + segs[k].q
  {
    assert segs[..k + 1][..k] == segs[..k];
  }

  /** The invariant of the probe loop carried over segment `k`. */
  lemma CountedSplit(segs: seq<Segment>, k: nat, li: int, lq: int, counted: seq<nat>, accI: seq<int>, accQ: seq<int>)
    requires k < |segs|
    requires counted + CountedEnds(segs, k, li, lq) == CountedEnds(segs, 0, 0, 0)
    requires CountedEnds(segs, k, li, lq) ==
      if |accI| > 0 && |accQ| > 0 && accI[|accI| - 1] != li && accQ[|accQ| - 1] != lq
      then [segs[k].endOffset] + CountedEnds(segs, k + 1, accI[|accI| - 1], accQ[|accQ| - 1])
      else CountedEnds(segs, k + 1, li, lq)
    ensures |accI| > 0 && |accQ| > 0 && accI[|accI| - 1] != li && accQ[|accQ| - 1] != lq ==>
      (counted + [segs[k].endOffset]) + CountedEnds(segs, k + 1, accI[|accI| - 1], accQ[|accQ| - 1]) ==
      CountedEnds(segs, 0, 0, 0)
    ensures !(|accI| > 0 && |accQ| > 0 && accI[|accI| - 1] != li && accQ[|accQ| - 1] != lq) ==>
      counted + CountedEnds(segs, k + 1, li, lq) == CountedEnds(segs, 0, 0, 0)
  {
    if |accI| > 0 && |accQ| > 0 && accI[|accI| - 1] != li && accQ[|accQ| - 1] != lq {
      var rest := CountedEnds(segs, k + 1, accI[|accI| - 1], accQ[|accQ| - 1]);
      assert counted + ([segs[k].endOffset] + rest) == (counted + [segs[k].endOffset]) + rest;
    }
  }

  /**
   The counting decision at segment `k`, in terms of the data accumulated up to
   and including that segment.
   */
  lemma CountedStep(segs: seq<Segment>, k: nat, li: int, lq: int, accI: seq<int>, accQ: seq<int>)
    requires k < |segs|
    requires accI == Appended(segs[..k], I) + segs[k].i && accQ == Appended(segs[..k], Q) + segs[k].q
    ensures accI == Appended(segs[..k + 1], I) && accQ == Appended(segs[..k + 1], Q)
    ensures CountedEnds(segs, k, li, lq) ==
      if |accI| > 0 && |accQ| > 0 && accI[|accI| - 1] != li && accQ[|accQ| - 1] != lq
      then [segs[k].endOffset] + CountedEnds(segs, k + 1, accI[|accI| - 1], accQ[|accQ| - 1])
      else CountedEnds(segs, k + 1, li, lq)
  {
    AppendedStep(segs, k);
    var o := ObservationAt(segs, k);
    assert o.Some? <==> |accI| > 0 && |accQ| > 0;
    assert o.Some? ==> o.value.lastI == accI[|accI| - 1] && o.value.lastQ == accQ[|accQ| - 1];
  }
}
