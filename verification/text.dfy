/**
 The handful of Python string operations the header readers rely on:
 `bytes.decode`, `str.strip`, `str.partition`, `str.replace` of one character,
 the substring test `sub in s` for two-character `sub`, `str.split`, and `int()`
 of a decimal numeral.
 */
module Text {
  import opened Common

  /** The ASCII characters `str.strip()` removes. */
  predicate IsSpace(c: char)
  {
    (9 <= c as int <= 13) || (28 <= c as int <= 32)
  }

  predicate IsDigit(c: char)
  {
    '0' <= c <= '9'
  }

  /** `b.decode('utf8')` for bytes that are all ASCII; any other byte is refused. */
  function Decode(b: seq<byte>): (r: Result<string>)
    ensures r.Ok? <==> forall k :: 0 <= k < |b| ==> b[k] < 128
    ensures r.Ok? ==> |r.value| == |b| && forall k :: 0 <= k < |b| ==> r.value[k] as int == b[k]
  {
    if forall k :: 0 <= k < |b| ==> b[k] < 128 then
      Ok(seq(|b|, k requires 0 <= k < |b| => b[k] as char))
    else
      Err(ValueError("utf-8 decode"))
  }

  predicate IsAscii(s: string)
  {
    forall k :: 0 <= k < |s| ==> s[k] as int < 128
  }

  /** The bytes that store an ASCII string. */
  function AsciiBytes(s: string): (b: seq<byte>)
    requires IsAscii(s)
    ensures |b| == |s| && forall k :: 0 <= k < |s| ==> b[k] == s[k] as int
  {
    seq(|s|, k requires 0 <= k < |s| => s[k] as int)
  }

  /** Decoding the stored bytes of an ASCII string gives the string back. */
  lemma DecodeAsciiBytes(s: string)
    requires IsAscii(s)
    ensures Decode(AsciiBytes(s)) == Ok(s)
  {
    var r := Decode(AsciiBytes(s));
    assert forall k :: 0 <= k < |s| ==> r.value[k] as int == s[k] as int;
    assert r.value == s;
  }

  /** Number of whitespace characters at the front of `s`. */
  function LeadingSpace(s: string): (n: nat)
    ensures n <= |s|
    ensures forall k :: 0 <= k < n ==> IsSpace(s[k])
    ensures n < |s| ==> !IsSpace(s[n])
  {
    if |s| > 0 && IsSpace(s[0]) then 1 + LeadingSpace(s[1..]) else 0
  }

  /** Number of whitespace characters at the back of `s`. */
  function TrailingSpace(s: string): (n: nat)
    ensures n <= |s|
    ensures forall k :: |s| - n <= k < |s| ==> IsSpace(s[k])
    ensures n < |s| ==> !IsSpace(s[|s| - n - 1])
  {
    if |s| > 0 && IsSpace(s[|s| - 1]) then 1 + TrailingSpace(s[..|s| - 1]) else 0
  }

  /**
   The bounds `[lo, hi)` of `s.strip()`: everything outside them is whitespace
   and, unless the result is empty, its first and last characters are not.
   */
  function StripBounds(s: string): (b: (nat, nat))
    ensures b.0 <= b.1 <= |s|
    ensures forall k :: 0 <= k < b.0 ==> IsSpace(s[k])
    ensures forall k :: b.1 <= k < |s| ==> IsSpace(s[k])
    ensures b.0 < b.1 ==> !IsSpace(s[b.0]) && !IsSpace(s[b.1 - 1])
  {
    var lo := LeadingSpace(s);
    (lo, |s| - TrailingSpace(s[lo..]))
  }

  /**
   `r` is `s` with a whitespace-only margin of `lo` characters removed in
   front and a whitespace-only margin removed behind.
   */
  predicate Margins(s: string, lo: nat, r: string)
  {
    lo + |r| <= |s| && s[lo..lo + |r|] == r &&
    (forall k :: 0 <= k < lo ==> IsSpace(s[k])) &&
    (forall k :: lo + |r| <= k < |s| ==> IsSpace(s[k]))
  }

  /** `s.strip()`: `s` with whitespace margins removed, starting and ending with non-space. */
  function Strip(s: string): (r: string)
    ensures exists lo :: Margins(s, lo, r)
    ensures |r| == 0 || (!IsSpace(r[0]) && !IsSpace(r[|r| - 1]))
  {
    var b := StripBounds(s);
    assert Margins(s, b.0, s[b.0..b.1]);
    s[b.0..b.1]
  }

  /**
   The strip is the only text left by removing whitespace margins that starts
   and ends with non-space (or is empty).
   */
  lemma StripUnique(s: string, lo: nat, r: string)
    requires Margins(s, lo, r)
    requires |r| == 0 || (!IsSpace(r[0]) && !IsSpace(r[|r| - 1]))
    ensures r == Strip(s)
  {
    var b := StripBounds(s);
    var hi := lo + |r|;
    if |r| > 0 {
      assert s[lo] == r[0] && s[hi - 1] == r[|r| - 1];
    }
  }

  /** A character absent from `s` is absent from its strip. */
  lemma StripKeepsOut(s: string, c: char)
    requires c !in s
    ensures c !in Strip(s)
  {
    var b := StripBounds(s);
    assert forall k :: b.0 <= k < b.1 ==> Strip(s)[k - b.0] == s[k];
  }

  /** Stripping a string that starts and ends with non-space leaves it unchanged. */
  lemma StripUnchanged(s: string)
    requires |s| == 0 || (!IsSpace(s[0]) && !IsSpace(s[|s| - 1]))
    ensures Strip(s) == s
  {
  }

  /** Stripping twice is stripping once. */
  lemma StripIdempotent(s: string)
    ensures Strip(Strip(s)) == Strip(s)
  {
    StripUnchanged(Strip(s));
  }

  /**
   `s.partition(sep)` without the separator: the text before the first `sep`
   and the text after it (empty when `sep` does not occur).
   */
  function Partition(s: string, sep: char): (r: (string, string))
    ensures sep !in r.0
    ensures sep in s ==> s == r.0 + [sep] + r.1
    ensures sep !in s ==> r.0 == s && r.1 == []
  {
    if |s| == 0 then ([], [])
    else if s[0] == sep then ([], s[1..])
    else
      var p := Partition(s[1..], sep);
      assert s == [s[0]] + s[1..];
      ([s[0]] + p.0, p.1)
  }

  /** `s.replace(c, rep)` for a one-character `c`. */
  function Replace(s: string, c: char, rep: string): (r: string)
    ensures c !in rep ==> c !in r
    ensures forall x :: x in r <==> (x in s && x != c) || (c in s && x in rep)
  {
    if |s| == 0 then []
    else
      assert s == [s[0]] + s[1..];
      (if s[0] == c then rep else [s[0]]) + Replace(s[1..], c, rep)
  }

  /** Python's `a + b in s`: the two characters occur next to each other in `s`. */
  predicate HasPair(s: string, a: char, b: char)
  {
    |s| >= 2 && ((s[0] == a && s[1] == b) || HasPair(s[1..], a, b))
  }

  lemma {:induction false} HasPairAppend(x: string, y: string, a: char, b: char)
    ensures HasPair(x + y, a, b) <==>
      HasPair(x, a, b) || HasPair(y, a, b) || (|x| > 0 && |y| > 0 && x[|x| - 1] == a && y[0] == b)
  {
    if |x| == 0 {
      assert x + y == y;
    } else if |x| == 1 {
      assert !HasPair(x, a, b);
      if |y| > 0 {
        assert (x + y)[1..] == y;
      }
    } else {
      assert (x + y)[1..] == x[1..] + y;
      HasPairAppend(x[1..], y, a, b);
    }
  }

  /**
   Replacing a character other than `a` and `b` by non-empty text free of `a`
   and `b` neither creates nor destroys an occurrence of the pair `ab`.
   */
  lemma {:induction false} ReplaceKeepsPair(s: string, c: char, rep: string, a: char, b: char)
    requires c != a && c != b && a !in rep && b !in rep && |rep| > 0
    ensures HasPair(Replace(s, c, rep), a, b) <==> HasPair(s, a, b)
  {
    if |s| == 0 {
    } else {
      var head := if s[0] == c then rep else [s[0]];
      var tail := Replace(s[1..], c, rep);
      assert Replace(s, c, rep) == head + tail;
      HasPairAppend(head, tail, a, b);
      ReplaceKeepsPair(s[1..], c, rep, a, b);
      if s[0] == c {
        assert !HasPair(rep, a, b) by {
          if HasPair(rep, a, b) { PairMembers(rep, a, b); }
        }
      } else {
        assert !HasPair(head, a, b);
        if |s| >= 2 {
          assert s[1..][0] == s[1];
          if s[1] == c {
            assert tail == rep + Replace(s[2..], c, rep) by {
              assert s[1..][1..] == s[2..];
            }
            assert tail[0] == rep[0];
            assert rep[0] in rep;
          } else {
            assert s[1..][1..] == s[2..];
            assert tail[0] == s[1];
          }
        }
      }
    }
  }

  lemma {:induction false} PairMembers(s: string, a: char, b: char)
    requires HasPair(s, a, b)
    ensures a in s && b in s
  {
    if s[0] == a && s[1] == b {
    } else {
      PairMembers(s[1..], a, b);
    }
  }

  /** `sep.join(pieces)` */
  function Join(pieces: seq<string>, sep: char): (r: string)
    requires |pieces| > 0
  {
    if |pieces| == 1 then pieces[0] else pieces[0] + [sep] + Join(pieces[1..], sep)
  }

  /** `s.split(sep)`: the maximal runs between separators, empty runs included. */
  function Split(s: string, sep: char): (r: seq<string>)
    ensures |r| > 0
    ensures forall k :: 0 <= k < |r| ==> sep !in r[k]
    ensures Join(r, sep) == s
    decreases |s|
  {
    if sep !in s then [s]
    else
      var p := Partition(s, sep);
      [p.0] + Split(p.1, sep)
  }

  /** Splitting the join of separator-free pieces gives the pieces back. */
  lemma {:induction false} SplitJoin(pieces: seq<string>, sep: char)
    requires |pieces| > 0
    requires forall k :: 0 <= k < |pieces| ==> sep !in pieces[k]
    ensures Split(Join(pieces, sep), sep) == pieces
  {
    if |pieces| == 1 {
    } else {
      var rest := Join(pieces[1..], sep);
      var s := pieces[0] + [sep] + rest;
      assert s[|pieces[0]|] == sep;
      PartitionAtFirst(pieces[0], rest, sep);
      SplitJoin(pieces[1..], sep);
    }
  }

  lemma {:induction false} PartitionAtFirst(head: string, tail: string, sep: char)
    requires sep !in head
    ensures Partition(head + [sep] + tail, sep) == (head, tail)
  {
    var s := head + [sep] + tail;
    if |head| == 0 {
      assert s == [sep] + tail;
    } else {
      assert head[0] in head;
      assert s[0] == head[0] != sep;
      assert s[1..] == head[1..] + [sep] + tail;
      assert [head[0]] + head[1..] == head;
      PartitionAtFirst(head[1..], tail, sep);
    }
  }

  /** The value of a non-empty run of decimal digits. */
  function DecimalValue(s: string): nat
    requires forall k :: 0 <= k < |s| ==> IsDigit(s[k])
  {
    if |s| == 0 then 0
    else
      assert IsDigit(s[|s| - 1]);
      DecimalValue(s[..|s| - 1]) * 10 + (s[|s| - 1] as int - '0' as int)
  }

  /** `int(s)` for ASCII decimal numerals, refusing anything else. */
  function ParseDecimal(s: string): (r: Option<nat>)
    ensures r.Some? <==> |s| > 0 && forall k :: 0 <= k < |s| ==> IsDigit(s[k])
  {
    if |s| > 0 && forall k :: 0 <= k < |s| ==> IsDigit(s[k]) then Some(DecimalValue(s)) else None
  }

  /** The shortest decimal numeral of `n`. */
  function DecimalText(n: nat): (s: string)
    ensures |s| > 0 && forall k :: 0 <= k < |s| ==> IsDigit(s[k])
  {
    var d := ['0' + (n % 10) as char];
    if n < 10 then d else DecimalText(n / 10) + d
  }

  /** Printing a number and parsing it back gives the number. */
  lemma {:induction false} ParseDecimalText(n: nat)
    ensures ParseDecimal(DecimalText(n)) == Some(n)
  {
    var s := DecimalText(n);
    assert s[|s| - 1] as int - '0' as int == n % 10;
    if n >= 10 {
      ParseDecimalText(n / 10);
      assert s[..|s| - 1] == DecimalText(n / 10);
      assert DecimalValue(s) == (n / 10) * 10 + n % 10;
    } else {
      assert s[..|s| - 1] == [];
      assert DecimalValue(s) == n;
    }
  }

  /** `int(s)`: a decimal numeral, optionally surrounded by whitespace. */
  function ParseInt(s: string): (r: Result<nat>)
    ensures r.Ok? <==> ParseDecimal(Strip(s)).Some?
    ensures r.Ok? ==> r.value == ParseDecimal(Strip(s)).value
  {
    match ParseDecimal(Strip(s))
    case Some(n) => Ok(n)
    case None => Err(ValueError(s))
  }
}
