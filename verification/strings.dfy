/**
 The handful of Python `str` operations the downloader relies on, stated over
 `string` (a sequence of Unicode scalar values): `strip()`, `split(sep)`,
 `sep.join(parts)`, `startswith`/`endswith`, `rfind`, and the decimal
 rendering of a natural number used by f-strings.
 */
module Strings {

  /** Python's `str.isspace()` for one character: exactly the characters that
      `str.strip()` without an argument removes from either end. */
  predicate IsSpace(c: char) {
    var n := c as int;
    (0x09 <= n <= 0x0D) || (0x1C <= n <= 0x20) || n == 0x85 || n == 0xA0
    || n == 0x1680 || (0x2000 <= n <= 0x200A) || n == 0x2028 || n == 0x2029
    || n == 0x202F || n == 0x205F || n == 0x3000
  }

  /** `s.startswith(p)` */
  predicate StartsWith(s: string, p: string) {
    |p| <= |s| && s[..|p|] == p
  }

  /** `s.endswith(x)` */
  predicate EndsWith(s: string, x: string) {
    |x| <= |s| && s[|s| - |x|..] == x
  }

  /** A concatenation starts with its first part and ends with its last. */
  lemma ConcatEnds(a: string, m: string, b: string)
    ensures StartsWith(a + m + b, a) && EndsWith(a + m + b, b)
  {
    var u := a + m + b;
    assert u[..|a|] == a;
    assert u[|u| - |b|..] == b;
  }

  /** Indexing into a suffix is indexing further into the whole. */
  lemma DropAt(s: string, n: nat, k: nat)
    requires n <= |s| && k < |s| - n
    ensures s[n..][k] == s[n + k]
  {
  }

  /** A suffix of `a + b` that starts inside `b` is a suffix of `b`. */
  lemma DropAppend(a: string, b: string, n: nat, m: nat)
    requires |a| <= n <= |a| + |b| && m == n - |a|
    ensures (a + b)[n..] == b[m..]
  {
  }

  /** A suffix of `a + b` that starts inside `a` is a suffix of `a` followed by `b`. */
  lemma DropWithin(a: string, b: string, n: nat)
    requires n <= |a|
    ensures (a + b)[n..] == a[n..] + b
  {
  }

  /** Leading whitespace removed: the longest suffix of `s` that does not
      start with whitespace, everything cut off being whitespace. */
  function TrimStart(s: string): (r: string)
    ensures |r| <= |s| && r == s[|s| - |r|..]
    ensures forall i :: 0 <= i < |s| - |r| ==> IsSpace(s[i])
    ensures r == [] || !IsSpace(r[0])
    decreases |s|
  {
    if |s| > 0 && IsSpace(s[0]) then TrimStart(s[1..]) else s
  }

  /** Trailing whitespace removed: the longest prefix of `s` that does not
      end with whitespace, everything cut off being whitespace. */
  function TrimEnd(s: string): (r: string)
    ensures |r| <= |s| && r == s[..|r|]
    ensures forall i :: |r| <= i < |s| ==> IsSpace(s[i])
    ensures r == [] || !IsSpace(r[|r| - 1])
    decreases |s|
  {
    if |s| > 0 && IsSpace(s[|s| - 1]) then TrimEnd(s[..|s| - 1]) else s
  }

  /** Python's `s.strip()`. */
  function Strip(s: string): (r: string)
    ensures r == [] || (!IsSpace(r[0]) && !IsSpace(r[|r| - 1]))
  {
    TrimEnd(TrimStart(s))
  }

  /** `strip()` keeps one contiguous slice `s[lo..lo + |r|]` of its argument
      and removes only whitespace around it. */
  lemma StripIsSlice(s: string) returns (lo: nat)
    ensures lo + |Strip(s)| <= |s|
    ensures Strip(s) == s[lo..lo + |Strip(s)|]
    ensures forall i :: 0 <= i < lo ==> IsSpace(s[i])
    ensures forall i :: lo + |Strip(s)| <= i < |s| ==> IsSpace(s[i])
  {
    var t := TrimStart(s);
    lo := |s| - |t|;
    var r := TrimEnd(t);
    assert t == s[lo..];
    assert r == t[..|r|];
    assert r == s[lo..lo + |r|];
    forall i | lo + |r| <= i < |s|
      ensures IsSpace(s[i])
    {
      assert |r| <= i - lo < |t|;
      assert IsSpace(t[i - lo]);
    }
  }

  /** A character that is not in `s` is not in `strip(s)` either. */
  lemma StripKeepsAbsence(s: string, c: char)
    requires c !in s
    ensures c !in Strip(s)
  {
    var lo := StripIsSlice(s);
    forall k | 0 <= k < |Strip(s)|
      ensures Strip(s)[k] != c
    {
      assert Strip(s)[k] == s[lo + k];
    }
  }

  /** A whitespace character that can only be the last character of `s`
      (such as the newline ending a line read from a file) is not in
      `strip(s)`. */
  lemma StripDropsFinalSpace(s: string, c: char)
    requires IsSpace(c)
    requires |s| > 0 ==> c !in s[..|s| - 1]
    ensures c !in Strip(s)
  {
    var lo := StripIsSlice(s);
    var r := Strip(s);
    forall k | 0 <= k < |r|
      ensures r[k] != c
    {
      assert r[k] == s[lo + k];
      if lo + k < |s| - 1 {
        assert s[lo + k] == s[..|s| - 1][lo + k];
      } else {
        assert k == |r| - 1;
      }
    }
  }

  /** A string without surrounding whitespace is its own stripped form. */
  lemma StripUnchanged(s: string)
    requires s == [] || (!IsSpace(s[0]) && !IsSpace(s[|s| - 1]))
    ensures Strip(s) == s
  {
  }

  /** Stripping twice is the same as stripping once. */
  lemma StripIdempotent(s: string)
    ensures Strip(Strip(s)) == Strip(s)
  {
    StripUnchanged(Strip(s));
  }

  /** `sep.join(parts)` */
  function Join(parts: seq<string>, sep: char): string
    decreases |parts|
  {
    if |parts| == 0 then ""
    else if |parts| == 1 then parts[0]
    else parts[0] + [sep] + Join(parts[1..], sep)
  }

  /** Python's `s.split(sep)` for a one-character separator: the pieces
      between separators, in order. There is always at least one piece, and
      no piece holds the separator; `SplitJoin` shows that joining them
      with the separator gives `s` back. */
  function Split(s: string, sep: char): (parts: seq<string>)
    ensures |parts| >= 1
    ensures forall i :: 0 <= i < |parts| ==> sep !in parts[i]
    decreases |s|
  {
    if |s| == 0 then [""]
    else
      var rest := Split(s[1..], sep);
      if s[0] == sep then [""] + rest
      else [[s[0]] + rest[0]] + rest[1..]
  }

  /** Joining the pieces of a split with its separator restores the text. */
  lemma {:induction false} SplitJoin(s: string, sep: char)
    ensures Join(Split(s, sep), sep) == s
    decreases |s|
  {
    if |s| > 0 {
      var rest := Split(s[1..], sep);
      SplitJoin(s[1..], sep);
      if s[0] == sep {
        assert s == [sep] + s[1..];
      } else {
        var parts := [[s[0]] + rest[0]] + rest[1..];
        assert parts[1..] == rest[1..];
        assert s == [s[0]] + s[1..];
      }
    }
  }

  /** Joining with a separator that some part lacks puts that separator
      between the parts: with two or more parts the result contains it. */
  lemma JoinHasSep(parts: seq<string>, sep: char)
    requires |parts| >= 2
    ensures sep in Join(parts, sep)
  {
    assert Join(parts, sep)[|parts[0]|] == sep;
  }

  /** The last piece splits off after the final separator. */
  lemma {:induction false} JoinSnoc(parts: seq<string>, sep: char)
    requires |parts| >= 2
    ensures Join(parts, sep) == Join(parts[..|parts| - 1], sep) + [sep] + parts[|parts| - 1]
    decreases |parts|
  {
    if |parts| > 2 {
      JoinSnoc(parts[1..], sep);
      assert parts[1..][..|parts| - 2] == parts[..|parts| - 1][1..];
    }
  }

  /** Splitting a string that does not contain the separator yields it alone. */
  lemma SplitWithoutSep(s: string, sep: char)
    requires sep !in s
    ensures Split(s, sep) == [s]
  {
    var parts := Split(s, sep);
    SplitJoin(s, sep);
    if |parts| >= 2 {
      JoinHasSep(parts, sep);
    }
  }

  /** Splitting a text at its first separator. */
  lemma {:induction false} SplitAtFirst(a: string, b: string, sep: char)
    requires sep !in a
    ensures Split(a + [sep] + b, sep) == [a] + Split(b, sep)
    decreases |a|
  {
    if |a| == 0 {
      assert a + [sep] + b == [sep] + b;
      assert (a + [sep] + b)[1..] == b;
    } else {
      SplitAtFirst(a[1..], b, sep);
      assert (a + [sep] + b)[1..] == a[1..] + [sep] + b;
      assert [a[0]] + a[1..] == a;
    }
  }

  /** Python's `s.rfind(c)`: the index of the last `c`, or -1. */
  function LastIndexOf(s: string, c: char): (i: int)
    ensures -1 <= i < |s|
    ensures i >= 0 ==> s[i] == c
    ensures forall j :: i < j < |s| ==> s[j] != c
    decreases |s|
  {
    if |s| == 0 then -1
    else if s[|s| - 1] == c then |s| - 1
    else LastIndexOf(s[..|s| - 1], c)
  }

  /** `rfind` is pinned down by its contract: index `i` holds `c` (or is -1)
      and no later index does. */
  lemma LastIndexOfIs(s: string, c: char, i: int)
    requires -1 <= i < |s|
    requires i >= 0 ==> s[i] == c
    requires forall j :: i < j < |s| ==> s[j] != c
    ensures LastIndexOf(s, c) == i
  {
  }

  /** The index of the first `c` in `s`, or `|s|` when there is none. */
  function FirstIndexOf(s: string, c: char): (i: nat)
    ensures i <= |s|
    ensures i < |s| ==> s[i] == c
    ensures forall j :: 0 <= j < i ==> s[j] != c
    decreases |s|
  {
    if |s| == 0 || s[0] == c then 0 else 1 + FirstIndexOf(s[1..], c)
  }

  /** The first-index search is pinned down by its contract: index `i`
      holds `c` (or is `|s|`) and no earlier index does. */
  lemma FirstIndexOfIs(s: string, c: char, i: nat)
    requires i <= |s|
    requires i < |s| ==> s[i] == c
    requires forall j :: 0 <= j < i ==> s[j] != c
    ensures FirstIndexOf(s, c) == i
  {
  }

  /** The text before the first `c`, or all of `s` when there is none. */
  function BeforeFirst(s: string, c: char): string
  {
    s[..FirstIndexOf(s, c)]
  }

  /** The text after the last `c`, or all of `s` when there is none. */
  function AfterLast(s: string, c: char): string
  {
    s[LastIndexOf(s, c) + 1..]
  }

  /** The characters of `AfterLast(s, c)` sit in `s` just after the last `c`. */
  lemma AfterLastAt(s: string, c: char, k: nat)
    requires k < |AfterLast(s, c)|
    ensures LastIndexOf(s, c) + 1 + k < |s|
    ensures AfterLast(s, c)[k] == s[LastIndexOf(s, c) + 1 + k]
  {
    DropAt(s, LastIndexOf(s, c) + 1, k);
  }

  /** A separator-free prefix that ends at the end or at a separator is the
      text before the first separator. */
  lemma BeforeFirstUnique(s: string, c: char, a: string)
    requires a <= s && c !in a
    requires |a| == |s| || s[|a|] == c
    ensures BeforeFirst(s, c) == a
  {
  }

  /** A separator-free suffix that starts at the start or after a separator
      is the text after the last separator. */
  lemma AfterLastUnique(s: string, c: char, b: string)
    requires |b| <= |s| && b == s[|s| - |b|..] && c !in b
    requires |b| == |s| || s[|s| - |b| - 1] == c
    ensures AfterLast(s, c) == b
  {
  }

  /** The part after the last `c` is a `c`-free suffix that starts at the
      start or right after a `c`; `AfterLastUnique` is the converse. */
  lemma AfterLastShape(s: string, c: char)
    ensures |AfterLast(s, c)| <= |s| && AfterLast(s, c) == s[|s| - |AfterLast(s, c)|..]
    ensures c !in AfterLast(s, c)
    ensures |AfterLast(s, c)| == |s| || s[|s| - |AfterLast(s, c)| - 1] == c
  {
    forall k | 0 <= k < |AfterLast(s, c)|
      ensures AfterLast(s, c)[k] != c
    {
      AfterLastAt(s, c, k);
    }
  }

  /** Whatever precedes a `c` has no bearing on the part after the last `c`. */
  lemma AfterLastAfterSep(a: string, b: string, c: char)
    requires |a| >= 1 && a[|a| - 1] == c
    ensures AfterLast(a + b, c) == AfterLast(b, c)
  {
    var t := AfterLast(b, c);
    AfterLastShape(b, c);
    var u := a + b;
    DropAppend(a, b, |u| - |t|, |b| - |t|);
    if |t| == |b| {
      assert u[|u| - |t| - 1] == a[|a| - 1];
    } else {
      assert u[|u| - |t| - 1] == b[|b| - |t| - 1];
    }
    AfterLastUnique(u, c, t);
  }

  /** Text appended without a `c` stays in the part after the last `c`. */
  lemma AfterLastAppendFree(s: string, t: string, c: char)
    requires c !in t
    ensures AfterLast(s + t, c) == AfterLast(s, c) + t
  {
    var r := AfterLast(s, c);
    AfterLastShape(s, c);
    var u := s + t;
    DropWithin(s, t, |s| - |r|);
    if |r| < |s| {
      assert u[|u| - |r + t| - 1] == s[|s| - |r| - 1];
    }
    AfterLastUnique(u, c, r + t);
  }

  /** Appending text that is empty or starts with `c` leaves the part before
      the first `c` alone, and so does any text once `s` holds a `c`. */
  lemma BeforeFirstAppend(s: string, t: string, c: char)
    requires c in s || t == [] || t[0] == c
    ensures BeforeFirst(s + t, c) == BeforeFirst(s, c)
  {
    var u := s + t;
    var i := FirstIndexOf(s, c);
    if i == |s| && t != [] {
      assert u[i] == t[0];
    }
    forall j | 0 <= j < i
      ensures u[j] != c
    {
      assert u[j] == s[j];
    }
    FirstIndexOfIs(u, c, i);
    assert u[..i] == s[..i];
  }

  /** The text before the first `c` lacks whatever `s` lacks. */
  lemma BeforeFirstKeepsAbsence(s: string, c: char, d: char)
    requires d !in s
    ensures d !in BeforeFirst(s, c)
  {
    var r := BeforeFirst(s, c);
    forall k | 0 <= k < |r|
      ensures r[k] != d
    {
      assert r[k] == s[k];
    }
  }

  /** The text after the last `c` lacks whatever `s` lacks. */
  lemma AfterLastKeepsAbsence(s: string, c: char, d: char)
    requires d !in s
    ensures d !in AfterLast(s, c)
  {
    var r := AfterLast(s, c);
    forall k | 0 <= k < |r|
      ensures r[k] != d
    {
      assert r[k] == s[|s| - |r| + k];
    }
  }

  /** `s.split(c)[0]` is the text before the first `c`. */
  lemma SplitFirst(s: string, c: char)
    ensures Split(s, c)[0] == BeforeFirst(s, c)
  {
    var parts := Split(s, c);
    SplitJoin(s, c);
    if |parts| >= 2 {
      assert s == parts[0] + [c] + Join(parts[1..], c);
      assert s[|parts[0]|] == c;
    }
    BeforeFirstUnique(s, c, parts[0]);
  }

  /** The last piece of a split is a suffix of the text without the
      separator, and it is either all of the text or preceded by a separator. */
  lemma SplitLastPiece(s: string, c: char) returns (last: string)
    ensures last == Split(s, c)[|Split(s, c)| - 1]
    ensures |last| <= |s| && last == s[|s| - |last|..] && c !in last
    ensures |last| == |s| || s[|s| - |last| - 1] == c
  {
    var parts := Split(s, c);
    var n := |parts|;
    last := parts[n - 1];
    SplitJoin(s, c);
    if n >= 2 {
      var init := Join(parts[..n - 1], c);
      JoinSnoc(parts, c);
      assert s[|init| + 1..] == last;
      assert s[|init|] == c;
    }
  }

  /** `s.split(c)[-1]` is the text after the last `c`. */
  lemma SplitLast(s: string, c: char)
    ensures Split(s, c)[|Split(s, c)| - 1] == AfterLast(s, c)
  {
    var last := SplitLastPiece(s, c);
    AfterLastUnique(s, c, last);
  }

  /** The text a loop of `f.write(line + '\n')` produces: each line followed
      by a newline. */
  function Unlines(lines: seq<string>): string
    decreases |lines|
  {
    if |lines| == 0 then "" else lines[0] + "\n" + Unlines(lines[1..])
  }

  lemma {:induction false} UnlinesSnoc(lines: seq<string>, line: string)
    ensures Unlines(lines + [line]) == Unlines(lines) + line + "\n"
    decreases |lines|
  {
    if |lines| == 0 {
      assert lines + [line] == [line];
    } else {
      assert (lines + [line])[1..] == lines[1..] + [line];
      UnlinesSnoc(lines[1..], line);
    }
  }

  /** Splitting such a text at its newlines gives the lines back in order,
      followed by the empty remainder after the final newline, as long as no
      line contains a newline itself. */
  lemma {:induction false} UnlinesReadBack(lines: seq<string>)
    requires forall i :: 0 <= i < |lines| ==> '\n' !in lines[i]
    ensures Split(Unlines(lines), '\n') == lines + [""]
    decreases |lines|
  {
    if |lines| > 0 {
      UnlinesReadBack(lines[1..]);
      SplitAtFirst(lines[0], Unlines(lines[1..]), '\n');
      assert lines[0] + "\n" + Unlines(lines[1..]) == lines[0] + ['\n'] + Unlines(lines[1..]);
      assert lines + [""] == [lines[0]] + (lines[1..] + [""]);
    }
  }

  predicate IsDigit(c: char) {
    '0' <= c <= '9'
  }

  function DigitChar(d: nat): (c: char)
    requires d < 10
    ensures IsDigit(c)
  {
    ('0' as int + d) as char
  }

  function DigitValue(c: char): nat
    requires IsDigit(c)
  {
    c as int - '0' as int
  }

  predicate AllDigits(s: string) {
    forall i :: 0 <= i < |s| ==> IsDigit(s[i])
  }

  /** The number a string of decimal digits denotes. */
  function ParseDigits(s: string): nat
    requires AllDigits(s)
    decreases |s|
  {
    if |s| == 0 then 0 else 10 * ParseDigits(s[..|s| - 1]) + DigitValue(s[|s| - 1])
  }

  /** `str(n)` for a natural number: a non-empty string of decimal digits
      without a leading zero that denotes `n`. */
  function NatToString(n: nat): (s: string)
    ensures |s| >= 1 && AllDigits(s)
    ensures |s| > 1 ==> s[0] != '0'
    ensures ParseDigits(s) == n
    decreases n
  {
    if n < 10 then [DigitChar(n)]
    else
      var s := NatToString(n / 10) + [DigitChar(n % 10)];
      assert s[..|s| - 1] == NatToString(n / 10);
      s
  }

  /** Distinct numbers render as distinct strings. */
  lemma NatToStringInjective(a: nat, b: nat)
    requires NatToString(a) == NatToString(b)
    ensures a == b
  {
  }
}
