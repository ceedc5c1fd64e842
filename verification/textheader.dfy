/**
 `text_header_parser`: the `key = value` header of IQT files, turned into a
 dictionary whose values have their unit letters rewritten as exponents.
 */
module TextHeader {
  import opened Common
  import opened Text

  /** The key of a header line: the text before the first `=`, stripped. */
  function Key(line: string): (k: string)
    ensures exists lo :: Margins(Partition(line, '=').0, lo, k)
    ensures |k| == 0 || (!IsSpace(k[0]) && !IsSpace(k[|k| - 1]))
    ensures '=' !in k
  {
    var p := Partition(line, '=');
    StripKeepsOut(p.0, '=');
    Strip(p.0)
  }

  /** The raw value of a header line: the text after the first `=`, stripped. */
  function RawValue(line: string): (v: string)
    ensures exists lo :: Margins(Partition(line, '=').1, lo, v)
    ensures |v| == 0 || (!IsSpace(v[0]) && !IsSpace(v[|v| - 1]))
    ensures '=' !in line ==> v == []
  {
    Strip(Partition(line, '=').1)
  }

  /** A value holding `AM` or `PM` is a time of day, whose `M` is not a unit. */
  predicate IsTimeOfDay(v: string)
  {
    HasPair(v, 'A', 'M') || HasPair(v, 'P', 'M')
  }

  /**
   The unit rewriting of a value: `k`, `m` and `u` are replaced by `e3`, `e-3`
   and `e-6` in that order, then `M` by `e6` unless the value is a time of day.
   */
  function Substitute(v: string): (r: string)
    ensures 'k' !in r && 'm' !in r && 'u' !in r
    ensures 'M' in r <==> 'M' in v && IsTimeOfDay(v)
  {
    var w := Replace(Replace(Replace(v, 'k', "e3"), 'm', "e-3"), 'u', "e-6");
    assert 'M' in w <==> 'M' in v;
    assert IsTimeOfDay(w) <==> IsTimeOfDay(v) by {
      TimeOfDayKept(v);
    }
    if !HasPair(w, 'P', 'M') && !HasPair(w, 'A', 'M') then Replace(w, 'M', "e6") else w
  }

  lemma TimeOfDayKept(v: string)
    ensures var w := Replace(Replace(Replace(v, 'k', "e3"), 'm', "e-3"), 'u', "e-6");
      (HasPair(w, 'A', 'M') <==> HasPair(v, 'A', 'M')) && (HasPair(w, 'P', 'M') <==> HasPair(v, 'P', 'M'))
  {
    var w1 := Replace(v, 'k', "e3");
    var w2 := Replace(w1, 'm', "e-3");
    ReplaceKeepsPair(v, 'k', "e3", 'A', 'M');
    ReplaceKeepsPair(w1, 'm', "e-3", 'A', 'M');
    ReplaceKeepsPair(w2, 'u', "e-6", 'A', 'M');
    ReplaceKeepsPair(v, 'k', "e3", 'P', 'M');
    ReplaceKeepsPair(w1, 'm', "e-3", 'P', 'M');
    ReplaceKeepsPair(w2, 'u', "e-6", 'P', 'M');
  }

  /** The rewriting of one character on its own. */
  function UnitText(c: char, timeOfDay: bool): string
  {
    if c == 'k' then "e3"
    else if c == 'm' then "e-3"
    else if c == 'u' then "e-6"
    else if c == 'M' && !timeOfDay then "e6"
    else [c]
  }

  /** A single left-to-right pass that rewrites each character independently. */
  function ExpandUnits(v: string, timeOfDay: bool): string
  {
    if |v| == 0 then [] else UnitText(v[0], timeOfDay) + ExpandUnits(v[1..], timeOfDay)
  }

  lemma {:induction false} ReplaceAppend(x: string, y: string, c: char, rep: string)
    ensures Replace(x + y, c, rep) == Replace(x, c, rep) + Replace(y, c, rep)
  {
    if |x| == 0 {
      assert x + y == y;
    } else {
      assert (x + y)[0] == x[0];
      assert (x + y)[1..] == x[1..] + y;
      ReplaceAppend(x[1..], y, c, rep);
    }
  }

  /** The four successive replacements in one step, applied to `s`. */
  function Chain(s: string, timeOfDay: bool): string
  {
    var w := Replace(Replace(Replace(s, 'k', "e3"), 'm', "e-3"), 'u', "e-6");
    if timeOfDay then w else Replace(w, 'M', "e6")
  }

  lemma ChainAppend(x: string, y: string, timeOfDay: bool)
    ensures Chain(x + y, timeOfDay) == Chain(x, timeOfDay) + Chain(y, timeOfDay)
  {
    var x1, y1 := Replace(x, 'k', "e3"), Replace(y, 'k', "e3");
    var x2, y2 := Replace(x1, 'm', "e-3"), Replace(y1, 'm', "e-3");
    var x3, y3 := Replace(x2, 'u', "e-6"), Replace(y2, 'u', "e-6");
    ReplaceAppend(x, y, 'k', "e3");
    ReplaceAppend(x1, y1, 'm', "e-3");
    ReplaceAppend(x2, y2, 'u', "e-6");
    ReplaceAppend(x3, y3, 'M', "e6");
  }

  lemma ReplaceOne(x: char, c: char, rep: string)
    ensures Replace([x], c, rep) == if x == c then rep else [x]
  {
    assert [x][1..] == [];
  }

  lemma {:induction false} ReplaceAbsent(s: string, c: char, rep: string)
    requires c !in s
    ensures Replace(s, c, rep) == s
  {
    if |s| > 0 {
      assert s[0] in s;
      ReplaceAbsent(s[1..], c, rep);
    }
  }

  lemma ChainOne(c: char, timeOfDay: bool)
    ensures Chain([c], timeOfDay) == UnitText(c, timeOfDay)
  {
    ReplaceOne(c, 'k', "e3");
    if c == 'k' {
      ReplaceAbsent("e3", 'm', "e-3");
      ReplaceAbsent("e3", 'u', "e-6");
      ReplaceAbsent("e3", 'M', "e6");
    } else {
      ReplaceOne(c, 'm', "e-3");
      if c == 'm' {
        ReplaceAbsent("e-3", 'u', "e-6");
        ReplaceAbsent("e-3", 'M', "e6");
      } else {
        ReplaceOne(c, 'u', "e-6");
        if c == 'u' {
          ReplaceAbsent("e-6", 'M', "e6");
        } else {
          ReplaceOne(c, 'M', "e6");
        }
      }
    }
  }

  /**
   The chain of `str.replace` calls rewrites every character independently:
   no replacement text is touched by a later replacement.
   */
  lemma {:induction false} ChainIsOnePass(v: string, timeOfDay: bool)
    ensures Chain(v, timeOfDay) == ExpandUnits(v, timeOfDay)
  {
    if |v| > 0 {
      assert v == [v[0]] + v[1..];
      ChainAppend([v[0]], v[1..], timeOfDay);
      ChainOne(v[0], timeOfDay);
      ChainIsOnePass(v[1..], timeOfDay);
    }
  }

  /** `Substitute` rewrites each unit letter of the value on its own. */
  lemma SubstituteIsOnePass(v: string)
    ensures Substitute(v) == ExpandUnits(v, IsTimeOfDay(v))
  {
    TimeOfDayKept(v);
    ChainIsOnePass(v, IsTimeOfDay(v));
  }

  /** The value stored for a header line. */
  function Value(line: string): (v: string)
    ensures 'k' !in v && 'm' !in v && 'u' !in v
  {
    Substitute(RawValue(line))
  }

  /** Each line read as its (key, value) entry. */
  function Entries(lines: seq<string>): (e: seq<(string, string)>)
    ensures |e| == |lines|
    ensures forall i :: 0 <= i < |lines| ==> e[i] == (Key(lines[i]), Value(lines[i]))
  {
    seq(|lines|, i requires 0 <= i < |lines| => (Key(lines[i]), Value(lines[i])))
  }

  /** Storing entries into a dictionary in order: later entries overwrite earlier ones. */
  function Store(entries: seq<(string, string)>): (d: map<string, string>)
    ensures forall key :: key in d ==> exists i :: 0 <= i < |entries| && entries[i].0 == key
    ensures forall i :: 0 <= i < |entries| ==> entries[i].0 in d
  {
    if |entries| == 0 then map[]
    else
      var init := entries[..|entries| - 1];
      var d := Store(init);
      assert forall i :: 0 <= i < |init| ==> init[i] == entries[i];
      d[entries[|entries| - 1].0 := entries[|entries| - 1].1]
  }

  /** The value stored under a key is that of the last entry with the key. */
  lemma {:induction false} StoreLastWins(entries: seq<(string, string)>, i: nat)
    requires i < |entries|
    requires forall j :: i < j < |entries| ==> entries[j].0 != entries[i].0
    ensures Store(entries)[entries[i].0] == entries[i].1
  {
    if i < |entries| - 1 {
      var init := entries[..|entries| - 1];
      assert init[i] == entries[i];
      StoreLastWins(init, i);
    }
  }

  /** Every stored value is the value of some entry. */
  lemma {:induction false} StoreValues(entries: seq<(string, string)>, key: string)
    requires key in Store(entries)
    ensures exists i :: 0 <= i < |entries| && entries[i] == (key, Store(entries)[key])
  {
    var last := entries[|entries| - 1];
    var init := entries[..|entries| - 1];
    if key != last.0 {
      StoreValues(init, key);
      var i :| 0 <= i < |init| && init[i] == (key, Store(init)[key]);
      assert entries[i] == init[i];
    }
  }

  /**
   `text_header_parser(lines)`: each line stores its value under its key; a
   later line with the same key overwrites an earlier one. Keys are exactly the
   keys of the lines, and no stored value contains a `k`, `m` or `u`.
   */
  function Parse(lines: seq<string>): (d: map<string, string>)
    ensures forall key :: key in d <==> exists i :: 0 <= i < |lines| && Key(lines[i]) == key
    ensures forall key :: key in d ==> 'k' !in d[key] && 'm' !in d[key] && 'u' !in d[key]
  {
    StoreClean(Entries(lines));
    Store(Entries(lines))
  }

  /** Stored values are values of lines, so none holds a unit letter. */
  lemma StoreClean(e: seq<(string, string)>)
    requires forall i :: 0 <= i < |e| ==> 'k' !in e[i].1 && 'm' !in e[i].1 && 'u' !in e[i].1
    ensures forall key :: key in Store(e) ==> 'k' !in Store(e)[key] && 'm' !in Store(e)[key] && 'u' !in Store(e)[key]
  {
    forall key | key in Store(e)
      ensures 'k' !in Store(e)[key] && 'm' !in Store(e)[key] && 'u' !in Store(e)[key]
    {
      StoreValues(e, key);
    }
  }

  /** The value under a key is that of the last line carrying the key. */
  lemma ParseLastWins(lines: seq<string>, i: nat)
    requires i < |lines|
    requires forall j :: i < j < |lines| ==> Key(lines[j]) != Key(lines[i])
    ensures Parse(lines)[Key(lines[i])] == Value(lines[i])
  {
    StoreLastWins(Entries(lines), i);
  }
}
