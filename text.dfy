/** The handful of Python `str` operations the programs rely on, written out
    exactly: `split()`, `split(sep)`, `sep.join(...)`, `rsplit(" ", 2)`,
    `strip()`, `lower()`, `pat in s`, `s.replace(pat, "")`, `str(n)` and
    `int(s)`. Strings are sequences of code points. */
module Text {
  import opened Wrappers

  /** `c.isspace()`: the ASCII whitespace and separator controls and the
      Unicode space characters. */
  predicate IsSpace(c: char)
  {
    var n := c as int;
    (9 <= n <= 13) || (0x1c <= n <= 0x20) || n == 0x85 || n == 0xa0 || n == 0x1680
    || (0x2000 <= n <= 0x200a) || n == 0x2028 || n == 0x2029 || n == 0x202f
    || n == 0x205f || n == 0x3000
  }

  predicate NoSpace(s: string)
  {
    forall i :: 0 <= i < |s| ==> !IsSpace(s[i])
  }

  // ---------------------------------------------------------------------
  // s.split() with no argument: maximal runs of non-space characters

  /** `s.lstrip()` */
  function SkipSpace(s: string): (r: string)
    ensures |r| <= |s|
    ensures r != [] ==> !IsSpace(r[0])
  {
    if s != [] && IsSpace(s[0]) then SkipSpace(s[1..]) else s
  }

  /** The longest prefix of `s` without a space character. */
  function WordPrefix(s: string): (w: string)
    ensures |w| <= |s| && NoSpace(w)
    ensures s != [] && !IsSpace(s[0]) ==> |w| >= 1
  {
    if s != [] && !IsSpace(s[0]) then [s[0]] + WordPrefix(s[1..]) else []
  }

  /** `s.split()`: the words of `s`, in order. */
  function Words(s: string): (r: seq<string>)
    ensures forall i :: 0 <= i < |r| ==> r[i] != [] && NoSpace(r[i])
    decreases |s|
  {
    var t := SkipSpace(s);
    if t == [] then []
    else
      var w := WordPrefix(t);
      [w] + Words(t[|w|..])
  }

  /** `" ".join(ws)` */
  function JoinSpaced(ws: seq<string>): string
  {
    if |ws| == 0 then ""
    else if |ws| == 1 then ws[0]
    else ws[0] + " " + JoinSpaced(ws[1..])
  }

  lemma {:induction false} WordPrefixOfSpaced(w: string, rest: string)
    requires w != [] && NoSpace(w)
    requires rest == [] || IsSpace(rest[0])
    ensures WordPrefix(w + rest) == w
    decreases |w|
  {
    var s := w + rest;
    assert s[0] == w[0] && !IsSpace(s[0]);
    assert WordPrefix(s) == [w[0]] + WordPrefix(s[1..]);
    if |w| > 1 {
      assert s[1..] == w[1..] + rest;
      WordPrefixOfSpaced(w[1..], rest);
      assert [w[0]] + w[1..] == w;
    } else {
      assert s[1..] == rest;
      assert WordPrefix(rest) == [];
    }
  }

  lemma WordsOfWordThen(w: string, rest: string)
    requires w != [] && NoSpace(w)
    requires rest == [] || IsSpace(rest[0])
    ensures Words(w + rest) == [w] + Words(rest)
  {
    var s := w + rest;
    assert SkipSpace(s) == s;
    WordPrefixOfSpaced(w, rest);
    assert s[|w|..] == rest;
  }

  lemma WordsOfSpaceThen(s: string)
    ensures Words(" " + s) == Words(s)
  {
    assert (" " + s)[1..] == s;
    assert SkipSpace(" " + s) == SkipSpace(s);
  }

  /** Words separated by single spaces split back into the same words; this
      holds for every command line the programs build. */
  lemma {:induction false} WordsOfJoinSpaced(ws: seq<string>)
    requires forall i :: 0 <= i < |ws| ==> ws[i] != [] && NoSpace(ws[i])
    ensures Words(JoinSpaced(ws)) == ws
  {
    if |ws| == 1 {
      WordsOfWordThen(ws[0], []);
      assert ws[0] + [] == ws[0];
    } else if |ws| > 1 {
      var tail := JoinSpaced(ws[1..]);
      var rest := " " + tail;
      assert JoinSpaced(ws) == ws[0] + rest;
      assert ws[0] != [] && NoSpace(ws[0]);
      assert IsSpace(rest[0]);
      WordsOfWordThen(ws[0], rest);
      WordsOfSpaceThen(tail);
      WordsOfJoinSpaced(ws[1..]);
      assert [ws[0]] + ws[1..] == ws;
    }
  }

  // ---------------------------------------------------------------------
  // s.strip()

  /** `s.rstrip()` */
  function SkipSpaceRight(s: string): (r: string)
    ensures |r| <= |s| && r == s[..|r|]
    ensures r != [] ==> !IsSpace(r[|r| - 1])
  {
    if s != [] && IsSpace(s[|s| - 1]) then SkipSpaceRight(s[..|s| - 1]) else s
  }

  /** `s.strip()` */
  function Strip(s: string): string
  {
    SkipSpaceRight(SkipSpace(s))
  }

  lemma StripNoSpace(s: string)
    requires NoSpace(s)
    ensures Strip(s) == s
  {
  }

  // ---------------------------------------------------------------------
  // s.split(sep) and sep.join(parts) for a one-character separator

  /** `s.split(sep)`: the pieces between separators, empty pieces kept. */
  function SplitOn(s: string, sep: char): (r: seq<string>)
    ensures |r| >= 1
  {
    if s == [] then [""]
    else
      var rest := SplitOn(s[1..], sep);
      if s[0] == sep then [""] + rest else [[s[0]] + rest[0]] + rest[1..]
  }

  /** `sep.join(parts)` */
  function Join(sep: char, parts: seq<string>): string
  {
    if |parts| == 0 then ""
    else if |parts| == 1 then parts[0]
    else parts[0] + [sep] + Join(sep, parts[1..])
  }

  lemma {:induction false} SplitOnNoSep(s: string, sep: char, tail: string)
    requires sep !in s
    ensures SplitOn(s + [sep] + tail, sep) == [s] + SplitOn(tail, sep)
    ensures SplitOn(s, sep) == [s]
  {
    if s != [] {
      assert (s + [sep] + tail)[1..] == s[1..] + [sep] + tail;
      SplitOnNoSep(s[1..], sep, tail);
      assert [s[0]] + s[1..] == s;
    } else {
      assert s + [sep] + tail == [sep] + tail;
    }
  }

  /** Splitting a join gives the parts back when no part holds the separator. */
  lemma {:induction false} SplitOnJoin(parts: seq<string>, sep: char)
    requires |parts| >= 1
    requires forall i :: 0 <= i < |parts| ==> sep !in parts[i]
    ensures SplitOn(Join(sep, parts), sep) == parts
  {
    if |parts| == 1 {
      SplitOnNoSep(parts[0], sep, "");
    } else {
      SplitOnNoSep(parts[0], sep, Join(sep, parts[1..]));
      SplitOnJoin(parts[1..], sep);
    }
  }

  // ---------------------------------------------------------------------
  // s.rsplit(" ", 2)

  /** The position of the last `c` in `s`, if any. */
  function LastIndex(s: string, c: char): (r: Option<nat>)
    ensures r.None? <==> c !in s
    ensures r.Some? ==> r.value < |s| && s[r.value] == c && c !in s[r.value + 1..]
  {
    if s == [] then None
    else if s[|s| - 1] == c then Some(|s| - 1)
    else
      var r := LastIndex(s[..|s| - 1], c);
      assert s == s[..|s| - 1] + [s[|s| - 1]];
      if r.Some? then assert s[r.value + 1..] == s[..|s| - 1][r.value + 1..] + [s[|s| - 1]]; r else r
  }

  /** `s.rsplit(" ", 2)`: split at the last two single spaces, counted from the right. */
  function RSplit2(s: string): (r: seq<string>)
    ensures 1 <= |r| <= 3
  {
    match LastIndex(s, ' ')
    case None => [s]
    case Some(j) =>
      var left, right := s[..j], s[j + 1..];
      match LastIndex(left, ' ')
      case None => [left, right]
      case Some(k) => [left[..k], left[k + 1..], right]
  }

  /** A line "a b c" whose last two fields hold no space splits into exactly
      those three fields, whatever `a` contains. */
  lemma RSplit2OfFields(a: string, b: string, c: string)
    requires ' ' !in b && ' ' !in c
    ensures RSplit2(a + " " + b + " " + c) == [a, b, c]
  {
    var s := a + " " + b + " " + c;
    var j := |a| + 1 + |b|;
    assert s[j] == ' ' && s[j + 1..] == c;
    assert LastIndex(s, ' ') == Some(j);
    assert s[..j] == a + " " + b;
    var left := s[..j];
    assert left[|a|] == ' ' && left[|a| + 1..] == b;
    assert LastIndex(left, ' ') == Some(|a|);
    assert left[..|a|] == a;
  }

  // ---------------------------------------------------------------------
  // s.lower(), pat in s, s.replace(pat, "")

  function LowerChar(c: char): char
  {
    if 'A' <= c <= 'Z' then (c as int + 32) as char else c
  }

  /** `s.lower()` for ASCII letters. */
  function Lower(s: string): (r: string)
    ensures |r| == |s| && forall i :: 0 <= i < |s| ==> r[i] == LowerChar(s[i])
  {
    seq(|s|, i requires 0 <= i < |s| => LowerChar(s[i]))
  }

  /** `pat in s` */
  predicate Contains(s: string, pat: string)
  {
    if |pat| <= |s| && s[..|pat|] == pat then true
    else if s == [] then false
    else Contains(s[1..], pat)
  }

  /** `s.replace(pat, "")`: every occurrence found scanning left to right is
      removed; occurrences do not overlap, and the text left behind is not
      scanned again. */
  function RemoveAll(s: string, pat: string): string
    requires pat != []
  {
    if |pat| <= |s| && s[..|pat|] == pat then RemoveAll(s[|pat|..], pat)
    else if s == [] then []
    else [s[0]] + RemoveAll(s[1..], pat)
  }

  lemma {:induction false} NotContainsRemoveAll(s: string, pat: string)
    requires pat != [] && !Contains(s, pat)
    ensures RemoveAll(s, pat) == s
  {
    if s != [] {
      NotContainsRemoveAll(s[1..], pat);
    }
  }

  // ---------------------------------------------------------------------
  // str(n) and int(s) in base 10

  predicate IsDigit(c: char)
  {
    '0' <= c <= '9'
  }

  function DigitChar(d: nat): char
    requires d < 10
  {
    ('0' as int + d) as char
  }

  /** The decimal digits of `n`, without leading zeros. */
  function NatToString(n: nat): (r: string)
    ensures r != [] && forall i :: 0 <= i < |r| ==> IsDigit(r[i])
  {
    if n < 10 then [DigitChar(n)] else NatToString(n / 10) + [DigitChar(n % 10)]
  }

  /** `str(n)`: a minus sign before the digits of a negative number. */
  function IntToString(n: int): (r: string)
    ensures r != [] && NoSpace(r)
  {
    if n < 0 then "-" + NatToString(-n) else NatToString(n)
  }

  /** The digit string `int()` accepts after the sign: decimal digits, with
      single underscores allowed between two digits. */
  predicate DigitString(s: string)
  {
    && |s| > 0 && IsDigit(s[0]) && IsDigit(s[|s| - 1])
    && (forall i :: 0 <= i < |s| ==> IsDigit(s[i]) || s[i] == '_')
    && (forall i :: 0 <= i < |s| - 1 && s[i] == '_' ==> IsDigit(s[i + 1]))
  }

  /** The number a digit string denotes, underscores skipped. */
  function DigitsValue(s: string): nat
  {
    if s == [] then 0
    else if IsDigit(s[|s| - 1]) then DigitsValue(s[..|s| - 1]) * 10 + (s[|s| - 1] as int - '0' as int)
    else DigitsValue(s[..|s| - 1])
  }

  /** `int(s)`: surrounding whitespace stripped, an optional sign, then a digit
      string; `None` where Python raises `ValueError`. */
  function ParseInt(s: string): Option<int>
  {
    var t := Strip(s);
    var signed := |t| > 0 && (t[0] == '-' || t[0] == '+');
    var body := if signed then t[1..] else t;
    if !DigitString(body) then None
    else
      var v: int := DigitsValue(body);
      if signed && t[0] == '-' then Some(-v) else Some(v)
  }

  lemma {:induction false} NatToStringDigits(n: nat)
    ensures DigitString(NatToString(n))
    ensures DigitsValue(NatToString(n)) == n
  {
    var s := NatToString(n);
    if n >= 10 {
      NatToStringDigits(n / 10);
      assert s[..|s| - 1] == NatToString(n / 10);
    }
  }

  /** `int(str(n)) == n` for every integer. */
  lemma ParseIntOfString(n: int)
    ensures ParseInt(IntToString(n)) == Some(n)
  {
    var s := IntToString(n);
    StripNoSpace(s);
    NatToStringDigits(if n < 0 then -n else n);
    if n < 0 {
      assert s[1..] == NatToString(-n);
    } else {
      assert s[0] != '-' && s[0] != '+';
    }
  }
}
