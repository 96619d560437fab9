/**
 * The parts of Python's `str` behaviour that the three programs rely on:
 * `strip()`, `startswith`/`endswith`, the `in` operator on strings, `find`,
 * `split(sep)`, `sep.join`, `replace`, `count` and `str()` of a non-negative
 * integer.  Each operation is defined once, as CPython computes it, and the
 * lemmas tie the independent definitions to each other.
 */
module PyStr {
  import opened Wrappers

  /** `c.isspace()`: the ASCII and Unicode white-space characters Python strips. */
  predicate IsSpace(c: char)
  {
    var n := c as int;
    || n == 0x20 || (0x09 <= n <= 0x0D) || (0x1C <= n <= 0x1F) || n == 0x85 || n == 0xA0
    || n == 0x1680 || (0x2000 <= n <= 0x200A) || n == 0x2028 || n == 0x2029
    || n == 0x202F || n == 0x205F || n == 0x3000
  }

  /** `s.lstrip()`: the longest suffix of `s` that does not start with white space. */
  function StripStart(s: string): (r: string)
    ensures |r| <= |s| && r == s[|s| - |r|..]
    ensures forall k :: 0 <= k < |s| - |r| ==> IsSpace(s[k])
    ensures r == [] || !IsSpace(r[0])
    decreases |s|
  {
    if |s| > 0 && IsSpace(s[0]) then StripStart(s[1..]) else s
  }

  /** `s.rstrip()`: the longest prefix of `s` that does not end with white space. */
  function StripEnd(s: string): (r: string)
    ensures |r| <= |s| && r == s[..|r|]
    ensures forall k :: |r| <= k < |s| ==> IsSpace(s[k])
    ensures r == [] || !IsSpace(r[|r| - 1])
    decreases |s|
  {
    if |s| > 0 && IsSpace(s[|s| - 1]) then StripEnd(s[..|s| - 1]) else s
  }

  /** `s.strip()`: `s` with the white space at both ends removed. */
  function Strip(s: string): string
  {
    StripEnd(StripStart(s))
  }

  /** A stripped string neither starts nor ends with white space. */
  lemma StripEnds(s: string)
    ensures var r := Strip(s);
            r == [] || (!IsSpace(r[0]) && !IsSpace(r[|r| - 1]))
  {
    var t := StripStart(s);
    var r := StripEnd(t);
    if r != [] {
      assert r[0] == t[0];
    }
  }

  /** Past the kept text, the end of `s` that `strip()` drops is white space. */
  lemma StripTail(s: string)
    ensures var i := |s| - |StripStart(s)|;
            var r := Strip(s);
            && i + |r| <= |s| && s[i..][..|r|] == r
            && (forall k :: i + |r| <= k < |s| ==> IsSpace(s[k]))
  {
    var t := StripStart(s);
    var r := StripEnd(t);
    var i := |s| - |t|;
    assert t == s[i..];
    forall k | i + |r| <= k < |s|
      ensures IsSpace(s[k])
    {
      assert s[k] == t[k - i];
    }
  }

  /** `strip()` removes only white space, only at the ends, and all of it there. */
  lemma StripSpec(s: string)
    ensures var r := Strip(s);
            r == [] || (!IsSpace(r[0]) && !IsSpace(r[|r| - 1]))
    ensures var r := Strip(s);
            exists i :: 0 <= i <= |s| - |r| && s[i..][..|r|] == r
                     && (forall k :: 0 <= k < i ==> IsSpace(s[k]))
                     && (forall k :: i + |r| <= k < |s| ==> IsSpace(s[k]))
  {
    StripEnds(s);
    StripTail(s);
    var i := |s| - |StripStart(s)|;
    assert forall k :: 0 <= k < i ==> IsSpace(s[k]);
  }

  /** `strip()` only removes characters, so a character absent from `s` is absent from the result. */
  lemma StripKeepsOut(s: string, c: char)
    requires c !in s
    ensures c !in Strip(s)
  {
    var t := StripStart(s);
    var r := StripEnd(t);
    forall k | 0 <= k < |r|
      ensures r[k] != c
    {
      assert r[k] == t[k] == s[|s| - |t| + k];
    }
  }

  /** Stripping is idempotent: a stripped string has nothing left to strip. */
  lemma StripIdempotent(s: string)
    ensures Strip(Strip(s)) == Strip(s)
  {
    var r := Strip(s);
    StripSpec(s);
    assert StripStart(r) == r;
    assert StripEnd(r) == r;
  }

  /** `s.startswith(p)`. */
  predicate StartsWith(s: string, p: string)
  {
    |p| <= |s| && s[..|p|] == p
  }

  /** `s.endswith(p)`. */
  predicate EndsWith(s: string, p: string)
  {
    |p| <= |s| && s[|s| - |p|..] == p
  }

  /** `p` occurs in `s` starting at index `i`. */
  predicate IsOccurrence(s: string, p: string, i: int)
  {
    0 <= i && i + |p| <= |s| && s[i..i + |p|] == p
  }

  /** `s.find(p)`: the index of the leftmost occurrence of `p` in `s`, if any. */
  function FindFirst(s: string, p: string): (r: Option<nat>)
    ensures r.Some? ==> IsOccurrence(s, p, r.value)
    ensures r.Some? ==> forall j :: 0 <= j < r.value ==> !IsOccurrence(s, p, j)
    ensures r.None? ==> forall j :: !IsOccurrence(s, p, j)
    decreases |s|
  {
    if |s| < |p| then None
    else if s[..|p|] == p then Some(0)
    else
      ShiftOccurrence(s, p);
      match FindFirst(s[1..], p)
      case None => None
      case Some(i) => Some(i + 1)
  }

  /** An occurrence in `s[1..]` is an occurrence in `s`, one place further on. */
  lemma ShiftOccurrence(s: string, p: string)
    requires |s| > 0
    ensures forall j {:trigger IsOccurrence(s[1..], p, j)} ::
              0 <= j ==> (IsOccurrence(s[1..], p, j) <==> IsOccurrence(s, p, j + 1))
    ensures forall j :: 1 <= j ==> (IsOccurrence(s, p, j) <==> IsOccurrence(s[1..], p, j - 1))
  {
    forall j | 0 <= j
      ensures IsOccurrence(s[1..], p, j) <==> IsOccurrence(s, p, j + 1)
    {
      if 0 <= j && j + |p| <= |s| - 1 {
        assert s[1..][j..j + |p|] == s[j + 1..j + 1 + |p|];
      }
    }
  }

  /** Python's `p in s`. */
  predicate Contains(s: string, p: string)
  {
    FindFirst(s, p).Some?
  }

  /** A string that lacks the first character of `p` does not contain `p`. */
  lemma LacksFirstChar(s: string, p: string)
    requires |p| > 0 && p[0] !in s
    ensures !Contains(s, p)
  {
    forall j | 0 <= j && j + |p| <= |s|
      ensures !IsOccurrence(s, p, j)
    {
      assert s[j..j + |p|][0] == s[j];
    }
  }

  /** Looking for one character: `find` reports its first position, or
      nothing when the character does not occur. */
  lemma FindChar(s: string, c: char)
    ensures FindFirst(s, [c]).None? <==> c !in s
    ensures FindFirst(s, [c]).Some? ==>
              var k := FindFirst(s, [c]).value; k < |s| && s[k] == c && c !in s[..k]
  {
    forall k | 0 <= k < |s|
      ensures IsOccurrence(s, [c], k) <==> s[k] == c
    {
      assert s[k..k + 1] == [s[k]];
    }
    if FindFirst(s, [c]).Some? {
      var k := FindFirst(s, [c]).value;
      assert s[k..k + 1] == [c];
      forall j | 0 <= j < k
        ensures s[..k][j] != c
      {
        assert !IsOccurrence(s, [c], j);
      }
    }
  }

  /** A string that occurs inside `s` at a known place is contained in it. */
  lemma ContainsAt(s: string, p: string, i: nat)
    requires IsOccurrence(s, p, i)
    ensures Contains(s, p)
  {
  }

  /** Anything contained in `a` is contained in `a + b`. */
  lemma ContainsInPrefix(a: string, b: string, p: string)
    requires Contains(a, p)
    ensures Contains(a + b, p)
  {
    var i := FindFirst(a, p).value;
    assert (a + b)[i..i + |p|] == a[i..i + |p|];
    ContainsAt(a + b, p, i);
  }

  /** An occurrence that ends within the first `n` characters lies in `s[..n]`. */
  lemma OccurrenceInPrefix(s: string, p: string, n: nat)
    requires n <= |s|
    ensures forall j :: IsOccurrence(s[..n], p, j) ==> IsOccurrence(s, p, j)
  {
    forall j | IsOccurrence(s[..n], p, j)
      ensures IsOccurrence(s, p, j)
    {
      assert s[..n][j..j + |p|] == s[j..j + |p|];
    }
  }

  /** `s.split(sep)` for a non-empty separator: the pieces between the leftmost
      non-overlapping occurrences of `sep`. */
  function SplitOn(s: string, sep: string): (parts: seq<string>)
    requires |sep| > 0
    ensures |parts| >= 1
    ensures forall k :: 0 <= k < |parts| ==> !Contains(parts[k], sep)
    decreases |s|
  {
    match FindFirst(s, sep)
    case None => [s]
    case Some(i) =>
      OccurrenceInPrefix(s, sep, i);
      [s[..i]] + SplitOn(s[i + |sep|..], sep)
  }

  /** The pieces of `s.split(sep)` are cut from `s`: a character absent from `s` is absent from each. */
  lemma {:induction false} SplitPiecesLack(s: string, sep: string, c: char)
    requires |sep| > 0 && c !in s
    ensures forall k :: 0 <= k < |SplitOn(s, sep)| ==> c !in SplitOn(s, sep)[k]
    decreases |s|
  {
    var f := FindFirst(s, sep);
    if f.Some? {
      var i := f.value;
      var t := s[i + |sep|..];
      assert forall j :: 0 <= j < |t| ==> t[j] == s[i + |sep| + j];
      assert forall j :: 0 <= j < i ==> s[..i][j] == s[j];
      SplitPiecesLack(t, sep, c);
      assert SplitOn(s, sep) == [s[..i]] + SplitOn(t, sep);
    }
  }

  /** `s.split(sep)` has a second piece exactly when `sep` occurs in `s`. */
  lemma SplitLengthIff(s: string, sep: string)
    requires |sep| > 0
    ensures |SplitOn(s, sep)| >= 2 <==> Contains(s, sep)
  {
    if FindFirst(s, sep).Some? {
      var i := FindFirst(s, sep).value;
      assert |SplitOn(s, sep)| == 1 + |SplitOn(s[i + |sep|..], sep)|;
    }
  }

  /** `sep.join(parts)`. */
  function Join(parts: seq<string>, sep: string): string
  {
    if |parts| == 0 then ""
    else if |parts| == 1 then parts[0]
    else parts[0] + sep + Join(parts[1..], sep)
  }

  /** Joining a non-empty list behind a first piece puts one separator between them. */
  lemma JoinCons(a: string, rest: seq<string>, sep: string)
    requires |rest| >= 1
    ensures Join([a] + rest, sep) == a + sep + Join(rest, sep)
  {
    assert ([a] + rest)[1..] == rest;
  }

  /** Cutting `s` around an occurrence of `p` and gluing the pieces back with `p` gives `s`. */
  lemma RejoinAt(s: string, p: string, i: nat)
    requires IsOccurrence(s, p, i)
    ensures s[..i] + p + s[i + |p|..] == s
  {
    assert s[..i] + s[i..i + |p|] + s[i + |p|..] == s;
  }

  /** Splitting and joining back with the same separator gives the string back. */
  lemma {:induction false} SplitJoinRoundTrip(s: string, sep: string)
    requires |sep| > 0
    ensures Join(SplitOn(s, sep), sep) == s
    decreases |s|
  {
    var f := FindFirst(s, sep);
    if f.None? {
      assert SplitOn(s, sep) == [s];
    } else {
      var i := f.value;
      var t := s[i + |sep|..];
      SplitJoinRoundTrip(t, sep);
      var rest := SplitOn(t, sep);
      assert SplitOn(s, sep) == [s[..i]] + rest;
      JoinCons(s[..i], rest, sep);
      assert Join(rest, sep) == t;
      RejoinAt(s, sep, i);
      calc {
        Join(SplitOn(s, sep), sep);
        s[..i] + sep + Join(rest, sep);
        s[..i] + sep + t;
        s;
      }
    }
  }

  /** When `head` does not contain `sep`, splitting `head + sep + tail` yields
      `head` and then the pieces of `tail`. */
  lemma SplitAfterFree(head: string, sep: string, tail: string)
    requires |sep| > 0 && !Contains(head, sep)
    requires forall j :: 0 <= j < |head| ==> !IsOccurrence(head + sep + tail, sep, j)
    ensures SplitOn(head + sep + tail, sep) == [head] + SplitOn(tail, sep)
  {
    var s := head + sep + tail;
    assert IsOccurrence(s, sep, |head|) by {
      assert s[|head|..|head| + |sep|] == sep;
    }
    var f := FindFirst(s, sep);
    assert f == Some(|head|);
    assert s[..|head|] == head;
    assert s[|head| + |sep|..] == tail;
  }

  /** Splitting at a one-character separator: the text before its first
      occurrence is the first piece. */
  lemma SplitAfterChar(head: string, c: char, tail: string)
    requires c !in head
    ensures SplitOn(head + [c] + tail, [c]) == [head] + SplitOn(tail, [c])
  {
    var s := head + [c] + tail;
    forall j | 0 <= j < |head|
      ensures !IsOccurrence(s, [c], j)
    {
      assert s[j] == head[j];
      assert s[j..j + 1] == [s[j]];
    }
    LacksFirstChar(head, [c]);
    SplitAfterFree(head, [c], tail);
  }

  /** `s.replace(p, r)` for a non-empty pattern, scanning left to right as CPython does. */
  function ReplaceAll(s: string, p: string, r: string): string
    requires |p| > 0
    decreases |s|
  {
    if |s| < |p| then s
    else if s[..|p|] == p then r + ReplaceAll(s[|p|..], p, r)
    else [s[0]] + ReplaceAll(s[1..], p, r)
  }

  /** Replacement copies a stretch that holds no occurrence of the pattern unchanged. */
  lemma {:induction false} ReplaceSkip(s: string, p: string, r: string, i: nat)
    requires |p| > 0 && i <= |s|
    requires forall j :: 0 <= j < i ==> !IsOccurrence(s, p, j)
    ensures ReplaceAll(s, p, r) == s[..i] + ReplaceAll(s[i..], p, r)
    decreases i
  {
    if i == 0 {
      assert s[i..] == s;
    } else if |s| < |p| {
      assert s == s[..i] + s[i..];
    } else {
      assert !IsOccurrence(s, p, 0);
      ShiftOccurrence(s, p);
      ReplaceSkip(s[1..], p, r, i - 1);
      assert s[1..][i - 1..] == s[i..];
      assert s[..i] == [s[0]] + s[1..][..i - 1];
    }
  }

  /** `s.replace(p, r)` is `r.join(s.split(p))`: every occurrence the split cuts
      at is replaced, and nothing else changes. */
  lemma {:induction false} ReplaceIsJoinOfSplit(s: string, p: string, r: string)
    requires |p| > 0
    ensures ReplaceAll(s, p, r) == Join(SplitOn(s, p), r)
    decreases |s|
  {
    var f := FindFirst(s, p);
    if f.None? {
      ReplaceSkip(s, p, r, |s|);
      assert s[..|s|] == s;
      assert ReplaceAll(s[|s|..], p, r) == [];
    } else {
      var i := f.value;
      ReplaceSkip(s, p, r, i);
      var t := s[i + |p|..];
      assert s[i..][..|p|] == p;
      assert s[i..][|p|..] == t;
      assert ReplaceAll(s[i..], p, r) == r + ReplaceAll(t, p, r);
      ReplaceIsJoinOfSplit(t, p, r);
      var rest := SplitOn(t, p);
      assert SplitOn(s, p) == [s[..i]] + rest;
      JoinCons(s[..i], rest, r);
    }
  }

  /** A suffix holds no character the whole text lacks. */
  lemma SuffixKeepsOut(s: string, i: nat, c: char)
    requires i <= |s| && c !in s
    ensures c !in s[i..]
  {
    forall j | 0 <= j < |s| - i
      ensures s[i..][j] != c
    {
      assert s[i..][j] == s[i + j];
    }
  }

  /** Replacing never brings in a character that neither the text nor the
      replacement holds. */
  lemma {:induction false} ReplaceKeepsOut(s: string, p: string, r: string, c: char)
    requires |p| > 0 && c !in s && c !in r
    ensures c !in ReplaceAll(s, p, r)
    decreases |s|
  {
    if |s| < |p| {
    } else if s[..|p|] == p {
      assert forall j :: 0 <= j < |s| - |p| ==> s[|p|..][j] == s[|p| + j];
      ReplaceKeepsOut(s[|p|..], p, r, c);
    } else {
      assert forall j :: 0 <= j < |s| - 1 ==> s[1..][j] == s[1 + j];
      ReplaceKeepsOut(s[1..], p, r, c);
    }
  }

  /** Replacing a pattern that does not occur leaves the string unchanged. */
  lemma ReplaceAbsent(s: string, p: string, r: string)
    requires |p| > 0 && !Contains(s, p)
    ensures ReplaceAll(s, p, r) == s
  {
    ReplaceIsJoinOfSplit(s, p, r);
  }

  /** `s.count(p)`: the number of non-overlapping occurrences, and `len(s) + 1`
      for the empty pattern. */
  function Count(s: string, p: string): nat
    decreases |s|
  {
    if |p| == 0 then |s| + 1
    else if |s| < |p| then 0
    else if s[..|p|] == p then 1 + Count(s[|p|..], p)
    else Count(s[1..], p)
  }

  /** Counting skips a stretch that holds no occurrence of the pattern. */
  lemma {:induction false} CountSkip(s: string, p: string, i: nat)
    requires |p| > 0 && i <= |s|
    requires forall j :: 0 <= j < i ==> !IsOccurrence(s, p, j)
    ensures Count(s, p) == Count(s[i..], p)
    decreases i
  {
    if i == 0 {
      assert s[i..] == s;
    } else if |s| < |p| {
    } else {
      assert !IsOccurrence(s, p, 0);
      ShiftOccurrence(s, p);
      CountSkip(s[1..], p, i - 1);
      assert s[1..][i - 1..] == s[i..];
    }
  }

  /** A pattern that does not occur is counted zero times. */
  lemma CountAbsent(s: string, p: string)
    requires |p| > 0 && !Contains(s, p)
    ensures Count(s, p) == 0
  {
    CountSkip(s, p, |s|);
    assert s[|s|..] == [];
  }

  /** `s.count(p)` is one less than the number of pieces `s.split(p)` returns. */
  lemma {:induction false} CountIsSplitLength(s: string, p: string)
    requires |p| > 0
    ensures Count(s, p) == |SplitOn(s, p)| - 1
    decreases |s|
  {
    var f := FindFirst(s, p);
    if f.None? {
      CountSkip(s, p, |s|);
    } else {
      var i := f.value;
      CountSkip(s, p, i);
      var t := s[i + |p|..];
      assert s[i..][..|p|] == p;
      assert s[i..][|p|..] == t;
      CountIsSplitLength(t, p);
    }
  }

  /** A decimal digit character. */
  predicate IsDigit(c: char)
  {
    '0' <= c <= '9'
  }

  /** The character of decimal digit `d`. */
  function DigitChar(d: nat): (c: char)
    requires d < 10
    ensures IsDigit(c) && c as int - '0' as int == d
  {
    ('0' as int + d) as char
  }

  /** `str(n)` for a non-negative integer: its decimal digits, with no leading zero. */
  function NatToString(n: nat): (s: string)
    ensures |s| >= 1
    ensures forall k :: 0 <= k < |s| ==> IsDigit(s[k])
    ensures s[0] == '0' ==> n == 0
    decreases n
  {
    if n < 10 then [DigitChar(n)] else NatToString(n / 10) + [DigitChar(n % 10)]
  }

  /** The value of a string of decimal digits, as `int(s)` reads it. */
  function DigitsValue(s: string): nat
    requires forall k :: 0 <= k < |s| ==> IsDigit(s[k])
  {
    if |s| == 0 then 0
    else DigitsValue(s[..|s| - 1]) * 10 + DigitValue(s[|s| - 1])
  }

  /** The value of one decimal digit character. */
  function DigitValue(c: char): nat
    requires IsDigit(c)
  {
    c as int - '0' as int
  }

  /** How many decimal digits `s` ends with. */
  function TrailingDigits(s: string): (n: nat)
    ensures n <= |s|
  {
    if |s| == 0 || !IsDigit(s[|s| - 1]) then 0 else 1 + TrailingDigits(s[..|s| - 1])
  }

  /** Digits written right after a non-digit are exactly the trailing digits. */
  lemma {:induction false} TrailingDigitsAfter(p: string, d: string)
    requires |p| > 0 && !IsDigit(p[|p| - 1])
    requires forall k :: 0 <= k < |d| ==> IsDigit(d[k])
    ensures TrailingDigits(p + d) == |d|
  {
    if |d| > 0 {
      var d' := d[..|d| - 1];
      assert (p + d)[..|p + d| - 1] == p + d';
      TrailingDigitsAfter(p, d');
    } else {
      assert p + d == p;
    }
  }

  /** `int(str(n)) == n`. */
  lemma {:induction false} NatToStringRoundTrip(n: nat)
    ensures DigitsValue(NatToString(n)) == n
    decreases n
  {
    if n >= 10 {
      NatToStringRoundTrip(n / 10);
      var s := NatToString(n);
      assert s[..|s| - 1] == NatToString(n / 10);
    }
  }

  /** Distinct numbers have distinct decimal representations. */
  lemma NatToStringInjective(m: nat, n: nat)
    requires NatToString(m) == NatToString(n)
    ensures m == n
  {
    NatToStringRoundTrip(m);
    NatToStringRoundTrip(n);
  }
}
