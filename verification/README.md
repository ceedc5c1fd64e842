# IQData window readers, modelled in Dafny

This project models the sample-addressing and byte-decoding core of the
`IQData` class of `iqdata.py`. Every reader takes a request of `nframes`
frames of `lframes` samples that starts at the 1-based frame `sframes`. It
maps the request to byte or record ranges of the capture file and rebuilds
integer I/Q pairs from that file's on-disk layout:

- **TDMS** (`read_tdms_information`, `read_tdms`): the window becomes a start
  record, an offset into it and a record count. The read plan is record 1,
  then a seek, then the needed records. The duplicate first record is dropped
  and the window is sliced out. A probe learns the first record's size and
  the record stride.
- **TCAP** (`read_tcap`, `parse_tcap_tfp`): the exact file size is checked.
  Bytes are copied one at a time, jumping over the 88-byte block header
  whenever the position is a multiple of 131160. The result is decoded as
  big-endian 16-bit pairs. The nine-byte BCD time register is decoded
  separately.
- **IQT** (`read_iqt`): a length-prefixed `key = value` header whose
  counts, float values and `fs = FFTPoints / FrameLength` are looked up in
  order, then 4120-byte frames whose Q/I words are swapped into a
  zero-filled buffer at `1024 * i`. Python's `float()` is a parameter.
- **TIQ** (`read_tiq`): the header size is taken from between the quotes of
  the first line, followed by a flat payload of little-endian 32-bit I/Q
  pairs. The `NumericParameter` scan is modelled too.
- **BIN / WAV** (`read_bin`, `read_wav`): Python slice windows over a flat
  sample array.
- **`text_header_parser`**: key/value lines with unit-letter substitution and
  the AM/PM exception.

Files become byte sequences (`seq<byte>`). `f.seek(p); f.read(n)` is
`Common.ReadAt`, which cuts the result short at the end of the file. numpy's
`frombuffer`/`fromstring` size errors are `Err(BufferSizeError(..))`. Python
exceptions are the `Error` values of a `Result`. Samples are the integer
pairs stored in the file, taken before any scale factor is applied. The part
of the reader object that a windowed read updates (`lframes`, `nframes`,
`data_array`) is a `ReaderState` value.

Modules: `Common` (results, bytes, slices, integer codecs), `Text` (Python
string operations), `TextHeader`, `Window` (the request, `read_bin`,
`read_wav`), `Tdms`, `TcapTime`, `Tcap`, `Iqt`, `Tiq`.

## Model

| member | source | states |
|---|---|---|
| Common.Slice | iqdata.py:221 | A Python slice `s[lo:hi]` clamps `hi` to the length and is empty when `lo` lies past the end; element `k` of the result is `s[lo + k]`. |
| Common.ReadAt | iqdata.py:374-375 | `seek(pos); read(n)` yields exactly `file[pos..pos+n]` when that lies in the file, the rest of the file when it runs past the end, and nothing when `pos` is past the end. |
| Common.Int16BEBytes | iqdata.py:534 | Every 16-bit value has a two-byte big-endian encoding that `'>i2'` decodes back to the value. |
| Common.Int16LEBytes | iqdata.py:362 | Every 16-bit value has a two-byte little-endian encoding that `'<i2'` decodes back to the value. |
| Common.Int32LEBytes | iqdata.py:465 | Every 32-bit value has a four-byte little-endian encoding that `'<i4'` decodes back to the value. |
| Common.Int16BEBytesOfDecode | iqdata.py:534 | Every byte pair is the encoding of the `'>i2'` value it decodes to, so the decoding is a bijection. |
| Common.Int32LEBytesOfDecode | iqdata.py:465 | Every four-byte group is the encoding of the `'<i4'` value it decodes to. |
| Text.Decode | iqdata.py:329 | Decoding succeeds exactly when every byte is ASCII; the text has one character per byte, with the byte's code. |
| Text.DecodeAsciiBytes | iqdata.py:329 | Decoding the stored bytes of an ASCII string gives the string back. |
| Text.Strip | iqdata.py:909 | `strip()` leaves the input with whitespace-only margins removed in front and behind, and what it leaves starts and ends with a non-space character. |
| Text.StripUnique | iqdata.py:909 | Any text obtained by removing whitespace-only margins that starts and ends with non-space (or is empty) is the result of `strip()`, so the two properties of `Text.Strip` determine it. |
| Text.StripBounds | iqdata.py:909 | `strip()` removes whitespace only; what remains starts and ends with a non-space. |
| Text.StripIdempotent | iqdata.py:909 | Stripping twice is stripping once. |
| Text.Partition | iqdata.py:908 | The part before the separator does not contain it; when the separator occurs, the string is before + separator + after; otherwise the whole string is before and after is empty. |
| Text.Replace | iqdata.py:910-915 | After replacing `c` by `rep`, a character occurs exactly when it occurred and is not `c`, or it is in `rep` and `c` occurred. |
| Text.ReplaceKeepsPair | iqdata.py:910-914 | Replacing a letter other than `A`, `M`, `P` by text free of them neither creates nor destroys an `AM` or `PM`. |
| Text.Split | iqdata.py:336 | The pieces of `split(sep)` are separator-free and joined with `sep` give the string back. |
| Text.SplitJoin | iqdata.py:336 | Splitting the join of separator-free pieces gives the pieces back. |
| Text.ParseDecimal | iqdata.py:332 | A numeral is accepted exactly when it is a non-empty run of decimal digits. |
| Text.ParseDecimalText | iqdata.py:332 | Parsing the decimal text of `n` gives `n`. |
| Text.ParseInt | iqdata.py:339 | `int(s)` succeeds exactly when the stripped text is a decimal numeral, and gives its value. |
| TextHeader.Key | iqdata.py:908-916 | The key is the text before the first `=` with whitespace-only margins removed, starting and ending with non-space and holding no `=`: by `Text.StripUnique`, the `strip()` of that text. |
| TextHeader.RawValue | iqdata.py:908-909 | The value is the text after the first `=` with whitespace-only margins removed, starting and ending with non-space (so the `strip()` of that text, by `Text.StripUnique`), and empty for a line without `=`. |
| TextHeader.Substitute | iqdata.py:910-915 | A substituted value holds no `k`, `m` or `u`; it holds an `M` exactly when the raw value has an `M` and contains `AM` or `PM`. |
| TextHeader.TimeOfDayKept | iqdata.py:910-914 | The three replacements before the AM/PM test neither create nor destroy an `AM` or `PM`, so the test sees the raw value's time of day. |
| TextHeader.ChainIsOnePass | iqdata.py:910-915 | The chain of four `replace` calls equals a single pass that rewrites each character on its own; no replacement text is rewritten again. |
| TextHeader.SubstituteIsOnePass | iqdata.py:910-915 | The value rewriting is that one-pass expansion, with the time-of-day flag taken from the raw value. |
| TextHeader.Parse | iqdata.py:900-917 | The dictionary's keys are exactly the keys of the lines, and no stored value holds a `k`, `m` or `u`. |
| TextHeader.StoreLastWins | iqdata.py:916 | Storing entries in order leaves under each key the value of its last entry. |
| TextHeader.StoreValues | iqdata.py:916 | Every stored value is the value of some entry with that key. |
| TextHeader.ParseLastWins | iqdata.py:907-916 | A later line with the same key overwrites an earlier one: the value under a key is that of the last line carrying it. |
| Window.FramesTotal | iqdata.py:215 | `int(n / lframes)` is the number of whole frames in `n` samples; a zero frame length raises `ZeroDivisionError`. |
| Window.TakeWindow | iqdata.py:218-221 | The window holds the samples from `(sframes-1)*lframes` on, `nframes*lframes` of them, cut short at the end of the data and empty past it. |
| Window.WindowSplit | iqdata.py:218-221 | Reading `a` frames and then the `b` frames after them gives the same samples as reading `a + b` frames at once. |
| Window.ReadBin | iqdata.py:207-221 | An empty file raises `IndexError`, and a zero frame length `ZeroDivisionError`; otherwise the first value is the rate/centre pair, the sample count excludes it, `nframes_tot` is the number of whole frames in the rest (`int(number_samples / lframes)`), and the data is the window of the rest. |
| Window.ReadWav | iqdata.py:241-265 | The sample count is the length; `nframes_tot` is the number of whole frames; the data is the window, and it is complete when the window lies inside the data. |
| TcapTime.AsWrittenField | iqdata.py:574-593 | Under the `0x17` mask the high-nibble field is the nibble modulo 8, and the low-nibble field is the nibble's three low bits plus 16 times bit 4 of the byte. |
| TcapTime.AsWrittenRegister | iqdata.py:574-593 | Every high-nibble field of the as-written register is at most 7, and every low-nibble field is at most 23 with bit 3 clear. |
| TcapTime.ParseTcapTfp | iqdata.py:572-593 | The as-written decoder yields seven fraction digits; its high-nibble fields are at most 7 and its low-nibble fields at most 23. |
| TcapTime.ParseReadsBytes3To11 | iqdata.py:572-593 | Only bytes 3 to 11 decide the register: two inputs that agree there decode alike. |
| TcapTime.ParseTicksSplit | iqdata.py:595-600 | Even with the widened digits, the fraction stays below one second, so the timestamp in 1e-7 s ticks splits uniquely into whole seconds and fraction. |
| TcapTime.Ticks | iqdata.py:595-600 | The timestamp in 1e-7 s ticks adds whole seconds and fraction so that, while the fraction is below one second, both are read back apart. |
| TcapTime.NibbleMaskDecodes | iqdata.py:574-593 | Masking every field with `0x0F` reads each digit from its own nibble. |
| TcapTime.BcdRoundTrip | iqdata.py:557-565 | Decoding with the nibble mask gives back every register stored in the layout of the time table. |
| TcapTime.AsWrittenMisreadsNineteen | iqdata.py:583-584 | Seconds of 19 are stored as the byte 0x19; the `0x17` mask reads them as 27, while the nibble mask reads the register back unchanged. |
| Tcap.VisitSettled | iqdata.py:522-528 | A byte is never read from a block boundary, so a position already moved past a header is not moved again. |
| Tcap.PosStep | iqdata.py:521-530 | Consecutive bytes come from consecutive positions, except that exactly 88 bytes are skipped when the next position is a multiple of 131160. |
| Tcap.PosIncreasing | iqdata.py:521-530 | Bytes are copied in strictly increasing file order. |
| Tcap.CopyBytesSpec | iqdata.py:519-530 | Copied byte `k` is the file byte at the `k`-th visited position; the copy stops short only at a position past the end of the file. |
| Tcap.CopyBytesFull | iqdata.py:519-530 | When the last visited position lies inside the file, exactly the requested number of bytes is copied. |
| Tcap.TcapCopy | iqdata.py:518-530 | The byte-at-a-time loop with the header jump yields the visited-position copy. |
| Tcap.CopyStep | iqdata.py:521-530 | One iteration of the copy loop keeps the relation between bytes copied and file position. |
| Tcap.PayloadAddrParts | iqdata.py:483-485 | Payload byte `j` lives in block `j / 2^17`, at offset `88 + j mod 2^17` within it. |
| Tcap.PayloadAddrRoundTrip | iqdata.py:483-485 | Payload addresses are exactly the positions outside the block headers, and address and index are inverse maps. |
| Tcap.PayloadAddrInFile | iqdata.py:490 | In a file of the accepted size, payload byte `j` lies in the file exactly when `j` is below 15625 * 2^17. |
| Tcap.PayloadNext | iqdata.py:522-530 | From one payload byte the copy loop moves to the next payload byte. |
| Tcap.PosFromPayload | iqdata.py:521-530 | A copy that starts at a payload byte visits the following payload bytes in order, headers skipped. |
| Tcap.CopyFromPayload | iqdata.py:519-530 | A copy started at payload byte `j0` yields the concatenated payload from `j0` on, cut at its end. |
| Tcap.DecodeSamples | iqdata.py:534 | `frombuffer(ba, '>i2')` as pairs succeeds exactly on a multiple of four bytes; sample `k` is the big-endian pair at bytes `4k` and `4k+2`. |
| Tcap.DecodeEncodeSamples | iqdata.py:534 | Decoding the stored bytes of a run of 16-bit pairs gives the run back. |
| Tcap.DecodeSlice | iqdata.py:534 | Decoding a slice of whole samples gives the corresponding slice of the decoded samples. |
| Tcap.ReadTcap | iqdata.py:474-537 | A file of the wrong size changes only the frame counters; `nframes = 0` raises `ZeroDivisionError`; otherwise the header fields and fixed metadata are recorded, `nframes_tot` is the sample count divided by `nframes`, and the data is the decoded copy from `88 + 4*(sframes-1)*lframes`. |
| Tcap.AsWrittenStart | iqdata.py:516-520 | The copy start skips only the first block header: it falls short of the file address of the first requested payload byte by 88 bytes for every block boundary before that byte. |
| Tcap.ReadTcapFullWindow | iqdata.py:515-534 | When the last visited position lies inside the file, the copy holds `4*nframes*lframes` bytes from the visited positions and decodes to one pair per requested sample. |
| Tcap.StartsAgreeInFirstBlock | iqdata.py:520 | While the window starts in the first block, the as-written start and the payload start visit the same positions. |
| Tcap.AsWrittenStartReadsHeader | iqdata.py:516-522 | For one-sample frames from frame 32770, the as-written copy reads its first byte from the second block's header (position 131164); the payload start is 131252. |
| Tcap.ReadTcapCorrected | iqdata.py:474-537 | With the payload start, the nibble mask and frames of `lframes` samples, an accepted file yields exactly the requested window of the file's sample stream, cut at its end. |
| Tcap.CorrectedCopyIsWindow | iqdata.py:515-534 | The copy from the payload start decodes to the requested window of the payload samples. |
| Tcap.AsWrittenFramesTotalCountsSamples | iqdata.py:510 | A request for one frame reports every sample of the file as a frame, more than the file holds whenever frames have more than one sample: 512000000 against 500000 for 1024-sample frames. |
| Iqt.ParsePrefix | iqdata.py:325-334 | The data offset is `1 + d + h`, and at most `h` header bytes are read. |
| Iqt.ReadNumberText | iqdata.py:329-332 | Writing a number in ASCII digits and reading it with `int(b.decode())` gives the number. |
| Iqt.ParsePrefixOf | iqdata.py:325-334 | A one-byte digit count, the digits of the header size and the header are read back as those numbers and that header, whatever follows. |
| Iqt.PrefixRoundTrip | iqdata.py:325-334 | The prefix reader takes back the header that a prefix announces, with offset `1 + d + h`. |
| Iqt.FirstMissing | iqdata.py:339-347 | It returns nothing exactly when every key is present; otherwise it returns a key of the list that is missing. |
| Iqt.Count | iqdata.py:339 | `int(d[key])` raises `KeyError` naming the key exactly when it is missing, and otherwise parses its value. |
| Iqt.Floats | iqdata.py:340-345 | `float()` of each key in turn succeeds exactly when every key is present and its value readable, giving each key's value in order; a `KeyError` names the first missing key. |
| Iqt.Lookup | iqdata.py:339-350 | A successful lookup has `FFTPoints` and `ValidFrames` as parsed counts, `DateTime` as stored, `number_samples = ValidFrames * FFTPoints`, the frame length `float()` reads (not zero) and `fs = FFTPoints / FrameLength`; a `KeyError` names a missing key. |
| Iqt.LookupKeys | iqdata.py:339-350 | The lookups succeed exactly when no required key is missing, both counts parse, every float value is readable and the frame length is not zero. A `KeyError` names the first missing key in lookup order, an unreadable float value with every key present gives `ValueError`, and a zero frame length gives `ZeroDivisionError`. |
| Iqt.ReadIqtHeader | iqdata.py:325-350 | The header is read exactly when the prefix parses, the header decodes and the dictionary of its lines is complete. Its lines are the decoded header split at newlines, and its fields are those the lookups report on the dictionary of those lines; a `KeyError` names the first missing key. |
| Iqt.FrameRunAt | iqdata.py:379-384 | Sample `k` of frame `i` lands at index `1024*i + k` of the run of frames. |
| Iqt.FrameSamples | iqdata.py:379-383 | Sample `k` of a frame takes I from data word `2k+1` and Q from data word `2k`, for all 1024 samples of the frame. |
| Iqt.Deinterleave | iqdata.py:370-384 | The frame loop leaves a buffer of `1024*n` samples: those of every whole frame read, then zeros. |
| Iqt.FrameRoundTrip | iqdata.py:356-364 | Sample `k` of a frame is `(word 2k+1, word 2k)`, so the frame's samples are exactly the pairs stored Q-then-I behind any 24-byte frame header. |
| Iqt.ReadIqt | iqdata.py:311-387 | The read fails exactly when the header fails (a bad prefix, a missing key, a value `int()` or `float()` cannot read, a zero `FrameLength`) or the bytes read are not whole frames; otherwise the buffer always has `1024*nframes` samples, filled frame by frame from `data_offset + (sframes-1)*4120`. |
| Iqt.ReadIqtFullWindow | iqdata.py:366-384 | When the requested frames lie in the file, sample `1024*i + k` of the buffer is sample `k` of frame `sframes-1+i` counted from the data offset. |
| Tiq.FirstLine | iqdata.py:413-414 | Text-mode `readline()` ends the line at the first `\n`, `\r` or `\r\n`, reading that line end as one `\n`; a file without a line end is one line. |
| Tiq.DataOffset | iqdata.py:413-415 | The data offset is the integer between the first two quotes of the first line; a line with no quote raises `IndexError`. |
| Tiq.DataOffsetOfLine | iqdata.py:413-415 | A first line carrying `"n"` gives the data offset `n` back, whichever of `\n`, `\r` or `\r\n` ends it and whatever follows it. |
| Tiq.SecondQuoted | iqdata.py:415 | The second piece of a split at quotes is the text between the first two quotes. |
| Tiq.DecodePairs | iqdata.py:465-469 | `'<i4'` as 16-byte complex values succeeds exactly on a multiple of eight bytes; sample `k` is the little-endian pair at `8k` and `8k+4`. |
| Tiq.DecodeEncodePairs | iqdata.py:465 | Decoding the stored bytes of a run of 32-bit pairs gives the run back. |
| Tiq.DecodeSlice | iqdata.py:465 | Decoding a slice of whole samples gives the corresponding slice of the decoded samples. |
| Tiq.ReadTiq | iqdata.py:389-469 | A bad first line raises its error; a zero sampling frequency or a zero frame length raises `ZeroDivisionError` (the frame-duration log line divides by `fs` first); otherwise the header is the first `data_offset` bytes, `nframes_tot` is the whole-frame count and the data is the pairs read from `data_offset + 8*(sframes-1)*lframes`, refused when not whole pairs. |
| Tiq.WindowBytes | iqdata.py:457-462 | The bytes read are the file's bytes from `data_offset + 8*(sframes-1)*lframes` on, `8*nframes*lframes` of them, fewer only when the end of the file is reached. |
| Tiq.ReadTiqWindow | iqdata.py:457-465 | For a payload of whole samples, the reader's data is the requested window of the payload's samples, cut at its end. |
| Tiq.ScanParameter | iqdata.py:430-432 | The scan raises exactly when some element cannot be read (a named element without `pid`, or a match without `Value`). |
| Tiq.ScanNoMatch | iqdata.py:430-432 | With no matching element the value keeps its previous setting. |
| Tiq.ScanLastMatch | iqdata.py:437-439 | The value is that of the last element whose `name` and `pid` both match. |
| Tdms.StreamAppend | iqdata.py:178 | The channel stream of two runs of records is the concatenation of their streams. |
| Tdms.StreamRange | iqdata.py:187-196 | Records `[a, b)` of `n` samples each carry exactly the stream samples `[a*n, b*n)`. |
| Tdms.Decompose | iqdata.py:143-152 | The start record and offset address sample `(sframes-1)*lframes`, the offset is below the record length, and the record count covers the window with fewer than one record to spare. |
| Tdms.AcceptedAvoidsLastRecord | iqdata.py:155-156 | A window that is not refused never needs the file's last record, and it ends before that record's samples. |
| Tdms.Refused | iqdata.py:155-156 | The read gives up exactly when the window, end included, reaches the first sample of the file's last record. |
| Tdms.DecomposeExample | iqdata.py:148-152 | For 1024-sample records, two 1024-sample frames from frame 2 take three records, starting at record 2, because `n_records` counts the whole records spanned plus one. |
| Tdms.Positions | iqdata.py:159-175 | Record `k` starts before record `m` ends exactly when `k <= m`, and only record 2 starts where the first record ends. |
| Tdms.ReadOrder | iqdata.py:159-178 | With a positive stride the read loop parses record 1 followed by the `n_records` records from the start record, or records `1..n_records` when that is record 1. With a zero stride the stop offset is the end of record 1, so it parses record 1 only; with no first record size it parses nothing. |
| Tdms.OrderExit | iqdata.py:168 | Where the loop condition `f.tell() < absolute_size` fails, the records parsed so far are the whole order above, for every stride the probe can leave. |
| Tdms.GatherRange | iqdata.py:178-188 | Gathering records `[a, b)` in order gives the stream of exactly those records. |
| Tdms.TrimmedIsWindow | iqdata.py:190-196 | Dropping the duplicate first record and slicing at the offset leaves exactly the stream samples `[start, start + size)`. |
| Tdms.Interleave | iqdata.py:199-200 | The output has one complex sample per I sample, sample `k` pairing `ii[k]` with `qq[k]`. |
| Tdms.StrideZeroTrimmed | iqdata.py:187-195 | With only record 1 parsed, the trimmed channel is the window while the window lies in record 1; past it, it holds only what record 1 has of the window (nothing when the window starts after record 1), beginning with the window's first sample. |
| Tdms.Fill | iqdata.py:200 | Assigning `x` to a `size`-element strided slice succeeds exactly when `x` has `size` elements (stored as they are) or one (repeated); otherwise it is numpy's `ValueError`, carried as `ShapeError(len(x), size)`. |
| Tdms.ChannelFill | iqdata.py:186-200 | One channel as assigned into the buffer: the window itself with a positive stride or a window inside record 1; with a zero stride and a window past record 1, the first sample repeated when record 1 has exactly one sample of the window, and `ShapeError` otherwise. |
| Tdms.ReadWindow | iqdata.py:159-200 | Past the refusal check: no first record size raises `KeyError` on the I channel; a positive stride, or a window inside record 1, gives the window of the I and Q streams, paired; a zero stride with the window past record 1 gives its first sample repeated when record 1 ends one sample into the window, and `ShapeError` otherwise. |
| Tdms.ReadTdms | iqdata.py:129-201 | A zero record length raises `ZeroDivisionError`; the frame counters always change; a refused window keeps the earlier data buffer; otherwise the data is what `ReadWindow` assigns, with the same errors. |
| Tdms.NewRecord | iqdata.py:104-113 | A segment ends a new record exactly when both channels hold data and their last samples both differ from those of the last counted record. |
| Tdms.ProbeRecords | iqdata.py:92-118 | The first record size is the end offset of the first counted record, and the stride is the distance to the end of the second; each keeps its previous value when fewer records are seen. |
| Tdms.ProbeExit | iqdata.py:116-118 | The records counted before the loop stops begin the list of all records it would count, and are the whole list when the segments ran out. |
| Tdms.CountedAscending | iqdata.py:101-118 | The end offsets of the records the probe counts ascend, and none is below the end of the segment the count starts at. |
| Tdms.ProbeLearned | iqdata.py:108-117 | Starting from sizes that are both 0 (as the constructor sets them) or learned earlier, the probe leaves a first size and a stride that are not negative, and no stride without a first size: the geometries `ReadOrder` and `ReadTdms` accept. |
| Tdms.Probe | iqdata.py:81-127 | It records the record sizes learned by the segment loop, `number_samples = samples per record * records per file`, and the number of whole frames in it. |

## Left out

- File I/O (`open`, `seek`, `read`, `os.path.getsize`, `np.fromfile`, `wavfile.read`): a file is a byte sequence, and a WAV or BIN file is its array of samples.
- Scale factors and floats: the TDMS gain, the IQT `sqrt`/`pow` scale, the TIQ and TCAP scale, the `float32`/`complex64` conversions. Samples stay integer pairs before scaling.
- Iqt.Floats: Python's `float()` of an IQT header value is the parameter `toFloat`, which gives `None` where `float()` raises `ValueError`. Its grammar (signs, exponents, `inf`, `nan`, underscores) is not modelled. Of the float values only `FrameLength` is kept, for `fs`; `center`, `span` and the scale are not.
- Time formatting (`time.ctime`, `datetime.fromtimestamp(...).strftime`): the TCAP register is decoded and turned into ticks of 1e-7 s, but not into a date string.
- `pyTDMS.readSegment` is not part of this model: a TDMS segment is the samples it appends to each channel plus its end offset, and a record is its I and Q samples. The `objects` metadata (`IQRate`, `NSamplesPerRecord`, ...) enters as parameters.
- Tdms.ReadTdms: it assumes that the file holds exactly `NRecordsPerFile` records of `NSamplesPerRecord` samples each (`|recs| == recordsPerFile` and `Uniform`). It also accepts only the record sizes `Tdms.Learned` describes: neither size negative, and no stride without a first size. `Tdms.ProbeLearned` shows the probe leaves nothing else when segment end offsets are positive and ascend. A file whose records differ in length, and sizes set by hand, are outside the model.
- Tdms.ReadWindow: after the read loop only the I and Q channel lookups are modelled. The `gain` lookup at iqdata.py:202 and its `KeyError` are left out with the scale.
- Iqt.FrameSamples: the frame words are read as `np.int16`, which is native byte order (iqdata.py:356-362). The model takes that order to be little-endian (`Common.Int16LE`); a big-endian host is not modelled.
- Tiq.ReadTiq: the XML header is not parsed. `NumberSamples` and the sampling frequency in effect (`fs`) are parameters, and the `NumericParameter` elements are an abstract list (`Tiq.ScanParameter`). Tags other than `NumericParameter`, and `float()` of their text, are left out.
- Text.Decode: refuses every non-ASCII byte, where UTF-8 decoding accepts multi-byte characters. The TIQ first line is read in text mode and modelled as the same decoding.
- Tiq.FirstLine: only the bytes of the first line are decoded. Text-mode reading decodes a whole buffered chunk, so an undecodable byte after the line but inside that chunk raises `UnicodeDecodeError` in the source and not in the model.
- Text.ParseInt: accepts only unsigned decimal numerals with surrounding whitespace; signs, underscores and non-ASCII digits are not modelled.
- Iqt.ParsePrefix: its contract states only the offset arithmetic; what it reads is stated by `Iqt.PrefixRoundTrip`.
- Window.FramesTotal: `int(n / lframes)` is exact floor division here; float rounding of quotients above 2^53 is not modelled.
- Tdms.Decompose: `int(start_n_bytes / nSamplesPerRecord)` and the record count are exact floor divisions here; float rounding of quotients above 2^53 is not modelled.
- Tcap.ReadTcap: `int(15625 * 32768 / nframes)` is exact floor division here (`Tcap.AsWrittenFramesTotal`); float rounding is not modelled.
- Window.Valid: every reader requires `sframes >= 1`, and the request fields are natural numbers. The source checks neither, so `sframes = 0` (a slice from the end in `read_bin`/`read_wav`, a seek into the header or before the file in `read_iqt`/`read_tiq`/`read_tcap`, a negative quotient in `read_tdms`) and negative values are outside the model.
- Tdms.Probe: a channel counts as present only when it holds data. A channel key present with an empty array raises `IndexError` at `[-1]` in the source; that error path is not modelled.
- The object state that an exception leaves behind (`lframes` and `nframes` are set before any error) is not modelled: an error result carries no state.
- `parse_tcap_header` (its call is commented out), `read_iq` (unfinished), `read_ascii` (a numpy text parse), spectra, plotting, export and `iqtools/__main__.py` are outside the modelled core.

## Findings

| source | as written | input that shows it | evidently intended | confidence | as-written member | corrected member |
|---|---|---|---|---|---|---|
| iqdata.py:574-593 | every BCD digit is masked with `0x17` | seconds 19, stored as byte 0x19: the units digit reads as 17 and the seconds as 27 | mask each nibble with `0x0F`, reading every digit back | high, not executed | TcapTime.AsWrittenMisreadsNineteen | TcapTime.BcdRoundTrip |
| iqdata.py:520 | the copy starts at `88 + 4*(sframes-1)*lframes`, counting only the first block header | `nframes=1, lframes=1, sframes=32770`: the first byte read is 131164, inside the second block's header | start at the file address of payload byte `4*(sframes-1)*lframes`, so the window is the sample stream's window | high, not executed | Tcap.AsWrittenStartReadsHeader | Tcap.CorrectedCopyIsWindow |
| iqdata.py:510 | `nframes_tot = int(15625 * 32768 / nframes)` divides by the frame count | `nframes=1, lframes=1024`: reports 512000000 frames where the file holds 500000 frames of 1024 samples | divide by `lframes`, as every other reader does | medium, not executed | Tcap.AsWrittenFramesTotalCountsSamples | Tcap.ReadTcapCorrected |

The corrected reader `Tcap.ReadTcapCorrected` uses all three corrections.
`Tcap.ReadTcap` keeps the code as written.
