/** The plain-text score file: each list is written as space-separated
    decimal numbers on its own line, and the loader splits the content at
    its first newline and parses each part. */
module SaveFormat {

  import opened Wrappers

  /** `u32::MAX`. */
  const U32Max: nat := 4294967295

  predicate IsDigit(c: char)
  {
    '0' <= c <= '9'
  }

  predicate AllDigits(s: string)
  {
    forall i :: 0 <= i < |s| ==> IsDigit(s[i])
  }

  function DigitChar(d: nat): (c: char)
    requires d < 10
    ensures IsDigit(c) && c as int - '0' as int == d
  {
    (d + '0' as int) as char
  }

  /** The number a string of decimal digits denotes. */
  function DigitsValue(s: string): nat
    requires AllDigits(s)
  {
    if |s| == 0 then 0 else DigitsValue(s[..|s| - 1]) * 10 + (s[|s| - 1] as int - '0' as int)
  }

  /** `u32::to_string`: the decimal digits of `n`, most significant first,
      without leading zeros. */
  function ToDecimal(n: nat): (s: string)
    ensures |s| > 0 && AllDigits(s)
    ensures s[0] != '0' || s == "0"
  {
    if n < 10 then [DigitChar(n)] else ToDecimal(n / 10) + [DigitChar(n % 10)]
  }

  lemma {:induction false} DecimalValue(n: nat)
    ensures DigitsValue(ToDecimal(n)) == n
  {
    if n >= 10 {
      DecimalValue(n / 10);
      var s := ToDecimal(n / 10) + [DigitChar(n % 10)];
      assert s[..|s| - 1] == ToDecimal(n / 10);
    }
  }

  /** `str::parse::<u32>`: an optional leading `+`, then one or more decimal
      digits whose value fits in 32 bits; anything else fails. */
  function ParseU32(s: string): (r: Option<nat>)
    ensures r.Some? ==> r.value <= U32Max
    ensures r.Some? ==> exists k :: 0 <= k <= 1 && k < |s| && (k == 1 ==> s[0] == '+') &&
                                   AllDigits(s[k..]) && r.value == DigitsValue(s[k..])
    ensures |s| == 0 ==> r.None?
    ensures |s| > 0 && AllDigits(s) && DigitsValue(s) <= U32Max ==> r == Some(DigitsValue(s))
    ensures |s| > 1 && s[0] == '+' && AllDigits(s[1..]) && DigitsValue(s[1..]) <= U32Max ==> r == Some(DigitsValue(s[1..]))
  {
    var k := if |s| > 0 && s[0] == '+' then 1 else 0;
    var digits := s[k..];
    if |digits| == 0 || !AllDigits(digits) || DigitsValue(digits) > U32Max then None
    else Some(DigitsValue(digits))
  }

  /** A value printed by `to_string` parses back. */
  lemma ParseDecimal(n: nat)
    requires n <= U32Max
    ensures ParseU32(ToDecimal(n)) == Some(n)
  {
    DecimalValue(n);
  }

  /** A string ending in a newline never parses: the newline is not a digit. */
  lemma ParseRejectsNewline(s: string)
    ensures ParseU32(s + "\n").None?
  {
    var t := s + "\n";
    var k := if |t| > 0 && t[0] == '+' then 1 else 0;
    assert t[k..][|t| - k - 1] == '\n';
  }

  /** `str::split` on one character: the pieces between separators, in order;
      the empty string gives one empty piece. */
  function Split(s: string, sep: char): (r: seq<string>)
    ensures |r| > 0
    ensures forall i :: 0 <= i < |r| ==> sep !in r[i]
  {
    if |s| == 0 then [""]
    else
      var rest := Split(s[1..], sep);
      if s[0] == sep then [""] + rest
      else [[s[0]] + rest[0]] + rest[1..]
  }

  /** The combined length of the pieces. */
  function TotalLength(parts: seq<string>): nat
  {
    if |parts| == 0 then 0 else |parts[0]| + TotalLength(parts[1..])
  }

  /** `[String]::join`: the pieces with one separator between neighbours. */
  function Join(parts: seq<string>, sep: char): (s: string)
    ensures |parts| == 0 ==> s == ""
    ensures |parts| > 0 ==> |s| == TotalLength(parts) + |parts| - 1
    ensures |parts| > 0 ==> |parts[0]| <= |s| && s[..|parts[0]|] == parts[0]
    ensures |parts| > 1 ==> s[|parts[0]|] == sep
  {
    if |parts| == 0 then ""
    else if |parts| == 1 then parts[0]
    else parts[0] + [sep] + Join(parts[1..], sep)
  }

  /** Splitting a piece free of separators, then a separator, then the rest
      yields the piece followed by the rest's pieces. */
  lemma {:induction false} SplitAfterPiece(a: string, sep: char, b: string)
    requires sep !in a
    ensures Split(a + [sep] + b, sep) == [a] + Split(b, sep)
    decreases |a|
  {
    if |a| == 0 {
      assert a + [sep] + b == [sep] + b;
      assert ([sep] + b)[1..] == b;
    } else {
      SplitAfterPiece(a[1..], sep, b);
      assert (a + [sep] + b)[1..] == a[1..] + [sep] + b;
      assert [a[0]] + a[1..] == a;
    }
  }

  /** Splitting at a separator that occurs in no piece undoes joining. */
  lemma {:induction false} SplitJoin(parts: seq<string>, sep: char)
    requires |parts| > 0
    requires forall i :: 0 <= i < |parts| ==> sep !in parts[i]
    ensures Split(Join(parts, sep), sep) == parts
    decreases |parts|
  {
    if |parts| == 1 {
      SplitPlain(parts[0], sep);
    } else {
      SplitJoin(parts[1..], sep);
      SplitAfterPiece(parts[0], sep, Join(parts[1..], sep));
      assert [parts[0]] + parts[1..] == parts;
    }
  }

  /** A string free of the separator splits into itself. */
  lemma {:induction false} SplitPlain(a: string, sep: char)
    requires sep !in a
    ensures Split(a, sep) == [a]
    decreases |a|
  {
    if |a| > 0 {
      SplitPlain(a[1..], sep);
      assert [a[0]] + a[1..] == a;
    }
  }

  /** A separator-free string split after the last separator-free piece. */
  lemma {:induction false} SplitLastPiece(parts: seq<string>, sep: char, tail: string)
    requires |parts| > 0
    requires forall i :: 0 <= i < |parts| ==> sep !in parts[i]
    requires sep !in tail
    ensures Split(Join(parts, sep) + tail, sep) == parts[..|parts| - 1] + [parts[|parts| - 1] + tail]
    decreases |parts|
  {
    if |parts| == 1 {
      SplitPlain(parts[0] + tail, sep);
    } else {
      SplitLastPiece(parts[1..], sep, tail);
      assert Join(parts, sep) + tail == parts[0] + [sep] + (Join(parts[1..], sep) + tail);
      SplitAfterPiece(parts[0], sep, Join(parts[1..], sep) + tail);
      assert [parts[0]] + parts[1..][..|parts| - 2] == parts[..|parts| - 1];
    }
  }

  function Decimals(v: seq<nat>): (r: seq<string>)
    ensures |r| == |v|
    ensures forall i :: 0 <= i < |r| ==> r[i] == ToDecimal(v[i])
  {
    if |v| == 0 then [] else [ToDecimal(v[0])] + Decimals(v[1..])
  }

  /** The parsed values of the pieces, skipping those that do not parse
      (`filter_map` over `parse().ok()`). */
  function ParseAll(parts: seq<string>): (r: seq<nat>)
    ensures |r| <= |parts|
    ensures forall i :: 0 <= i < |r| ==> r[i] <= U32Max
  {
    if |parts| == 0 then []
    else
      match ParseU32(parts[0])
      case Some(n) => [n] + ParseAll(parts[1..])
      case None => ParseAll(parts[1..])
  }

  lemma {:induction false} ParseAllDecimals(v: seq<nat>)
    requires forall i :: 0 <= i < |v| ==> v[i] <= U32Max
    ensures ParseAll(Decimals(v)) == v
    decreases |v|
  {
    if |v| > 0 {
      ParseDecimal(v[0]);
      ParseAllDecimals(v[1..]);
      assert Decimals(v)[1..] == Decimals(v[1..]);
      assert [v[0]] + v[1..] == v;
    }
  }

  lemma {:induction false} ParseAllAppend(a: seq<string>, b: seq<string>)
    ensures ParseAll(a + b) == ParseAll(a) + ParseAll(b)
    decreases |a|
  {
    if |a| > 0 {
      ParseAllAppend(a[1..], b);
      assert (a + b)[1..] == a[1..] + b;
    } else {
      assert a + b == b;
    }
  }

  lemma DecimalHasNoBreak(n: nat)
    ensures ' ' !in ToDecimal(n) && '\n' !in ToDecimal(n)
  {
    var s := ToDecimal(n);
    forall i | 0 <= i < |s|
      ensures s[i] != ' ' && s[i] != '\n'
    {
      assert IsDigit(s[i]);
    }
  }

  /** `slice_to_string`: the values in decimal, separated by single spaces. */
  function SliceToString(v: seq<nat>): (s: string)
    ensures '\n' !in s
  {
    var parts := Decimals(v);
    forall i | 0 <= i < |parts|
      ensures '\n' !in parts[i]
    {
      DecimalHasNoBreak(v[i]);
    }
    NoBreakInJoin(parts, ' ', '\n');
    Join(parts, ' ')
  }

  lemma {:induction false} NoBreakInJoin(parts: seq<string>, sep: char, c: char)
    requires c != sep
    requires forall i :: 0 <= i < |parts| ==> c !in parts[i]
    ensures c !in Join(parts, sep)
    decreases |parts|
  {
    if |parts| > 1 {
      NoBreakInJoin(parts[1..], sep, c);
    }
  }

  /** `line_to_slice`: split at spaces and keep every piece that parses. */
  function LineToSlice(line: string): (r: seq<nat>)
    ensures forall i :: 0 <= i < |r| ==> r[i] <= U32Max
    ensures |r| <= |Split(line, ' ')|
  {
    ParseAll(Split(line, ' '))
  }

  /** One line round-trips: every list of 32-bit values reads back as it was
      written, the empty list included. */
  lemma LineRoundTrip(v: seq<nat>)
    requires forall i :: 0 <= i < |v| ==> v[i] <= U32Max
    ensures LineToSlice(SliceToString(v)) == v
  {
    var parts := Decimals(v);
    if |v| == 0 {
      assert SliceToString(v) == "";
      assert Split("", ' ') == [""];
      assert ParseU32("").None?;
    } else {
      forall i | 0 <= i < |parts|
        ensures ' ' !in parts[i]
      {
        DecimalHasNoBreak(v[i]);
      }
      SplitJoin(parts, ' ');
      ParseAllDecimals(v);
    }
  }

  /** The text `save_highscore_and_lines` writes: both lines, each followed
      by a newline. */
  function SaveContent(scores: seq<nat>, lines: seq<nat>): (r: string)
    ensures |r| > 0 && r[|r| - 1] == '\n'
    ensures SliceToString(scores) + "\n" <= r
    ensures SplitFirst(r) == [SliceToString(scores), SliceToString(lines) + "\n"]
  {
    var a := SliceToString(scores);
    var b := SliceToString(lines) + "\n";
    SplitFirstAt(a, b);
    assert a + "\n" + SliceToString(lines) + "\n" == a + "\n" + b;
    a + "\n" + SliceToString(lines) + "\n"
  }

  /** `splitn(2, '\n')`: the text before the first newline and everything
      after it, or the whole text as a single piece when it has no newline. */
  function SplitFirst(s: string): (r: seq<string>)
    ensures 1 <= |r| <= 2
    ensures |r| == 1 <==> '\n' !in s
    ensures |r| == 1 ==> r[0] == s
    ensures |r| == 2 ==> '\n' !in r[0] && s == r[0] + "\n" + r[1]
  {
    if |s| == 0 then [s]
    else if s[0] == '\n' then ["", s[1..]]
    else
      var rest := SplitFirst(s[1..]);
      if |rest| == 1 then [s] else [[s[0]] + rest[0], rest[1]]
  }

  /** The text before the first newline is the first piece. */
  lemma {:induction false} SplitFirstAt(a: string, b: string)
    requires '\n' !in a
    ensures SplitFirst(a + "\n" + b) == [a, b]
    decreases |a|
  {
    var s := a + "\n" + b;
    if |a| == 0 {
      assert s == "\n" + b && s[1..] == b;
    } else {
      assert s[0] == a[0] && s[1..] == a[1..] + "\n" + b;
      SplitFirstAt(a[1..], b);
      assert [a[0]] + a[1..] == a;
    }
  }

  /** `load_highscores_and_lines` once the file has been read: both lists
      when the content has a newline, nothing otherwise. */
  function Load(content: string): (r: Option<(seq<nat>, seq<nat>)>)
    ensures r.Some? <==> '\n' in content
  {
    var pieces := SplitFirst(content);
    if |pieces| == 2 then Some((LineToSlice(pieces[0]), LineToSlice(pieces[1]))) else None
  }

  /** A line that still ends in its newline loses its last value: that
      piece carries the newline and does not parse. */
  lemma TerminatedLineLosesLast(v: seq<nat>)
    requires forall i :: 0 <= i < |v| ==> v[i] <= U32Max
    ensures LineToSlice(SliceToString(v) + "\n") == if |v| == 0 then [] else v[..|v| - 1]
  {
    var line := SliceToString(v) + "\n";
    if |v| == 0 {
      assert line == "\n";
      SplitPlain(line, ' ');
      ParseRejectsNewline("");
    } else {
      var parts := Decimals(v);
      var n := |parts|;
      forall i | 0 <= i < n
        ensures ' ' !in parts[i]
      {
        DecimalHasNoBreak(v[i]);
      }
      SplitLastPiece(parts, ' ', "\n");
      assert Split(line, ' ') == parts[..n - 1] + [parts[n - 1] + "\n"];
      ParseAllAppend(parts[..n - 1], [parts[n - 1] + "\n"]);
      ParseRejectsNewline(parts[n - 1]);
      assert ParseAll([parts[n - 1] + "\n"]) == [];
      assert Decimals(v[..n - 1]) == parts[..n - 1];
      ParseAllDecimals(v[..n - 1]);
    }
  }

  /** As written, loading saved lists gives the first list back intact but
      loses the last value of the second: that value still carries the final
      newline, fails to parse and is skipped. */
  lemma LoadLosesLastLine(scores: seq<nat>, lines: seq<nat>)
    requires forall i :: 0 <= i < |scores| ==> scores[i] <= U32Max
    requires forall i :: 0 <= i < |lines| ==> lines[i] <= U32Max
    ensures Load(SaveContent(scores, lines)) ==
            Some((scores, if |lines| == 0 then [] else lines[..|lines| - 1]))
  {
    SplitFirstAt(SliceToString(scores), SliceToString(lines) + "\n");
    assert SaveContent(scores, lines) == SliceToString(scores) + "\n" + (SliceToString(lines) + "\n");
    LineRoundTrip(scores);
    TerminatedLineLosesLast(lines);
  }

  /** A game's single score and line count, saved by themselves, read back
      as the score and an empty lines list. */
  lemma SingleLineCountLost(score: nat, lines: nat)
    requires score <= U32Max && lines <= U32Max
    ensures Load(SaveContent([score], [lines])) == Some(([score], []))
  {
    LoadLosesLastLine([score], [lines]);
  }

  /** The loader with the line terminator of the second line removed before
      it is parsed. */
  function LoadTrimmed(content: string): (r: Option<(seq<nat>, seq<nat>)>)
    ensures r.Some? <==> '\n' in content
  {
    var pieces := SplitFirst(content);
    if |pieces| == 2 then
      var second := pieces[1];
      var body := if |second| > 0 && second[|second| - 1] == '\n' then second[..|second| - 1] else second;
      Some((LineToSlice(pieces[0]), LineToSlice(body)))
    else None
  }

  /** With the terminator removed, both saved lists read back exactly. */
  lemma LoadTrimmedRoundTrip(scores: seq<nat>, lines: seq<nat>)
    requires forall i :: 0 <= i < |scores| ==> scores[i] <= U32Max
    requires forall i :: 0 <= i < |lines| ==> lines[i] <= U32Max
    ensures LoadTrimmed(SaveContent(scores, lines)) == Some((scores, lines))
  {
    var second := SliceToString(lines) + "\n";
    SplitFirstAt(SliceToString(scores), second);
    assert SaveContent(scores, lines) == SliceToString(scores) + "\n" + second;
    assert second[..|second| - 1] == SliceToString(lines);
    LineRoundTrip(scores);
    LineRoundTrip(lines);
  }

}
