/** Character classes and the small string operations of Python's `str` that
    the subtitle scripts rely on: `strip`, `isdigit`, `in`, `startswith`,
    `join`, `split(sep)` and `splitlines`. */
module Chars {

  /** Python's whitespace: the characters for which `str.isspace()` holds.
      The same set is used by `str.strip()`, `str.split()` and the regular
      expression class `\s` on `str` patterns. */
  predicate IsSpace(c: char) {
    || ('\t' <= c <= '\r')
    || ('\U{1C}' <= c <= '\U{1F}')
    || c == ' '
    || c == '\U{85}'
    || c == '\U{A0}'
    || c == '\U{1680}'
    || ('\U{2000}' <= c <= '\U{200A}')
    || c == '\U{2028}'
    || c == '\U{2029}'
    || c == '\U{202F}'
    || c == '\U{205F}'
    || c == '\U{3000}'
  }

  /** A decimal digit (ASCII; see README for non-ASCII digits). */
  predicate IsDigit(c: char) {
    '0' <= c <= '9'
  }

  /** The value of a decimal digit. */
  function DigitValue(c: char): (d: nat)
    requires IsDigit(c)
    ensures d < 10
  {
    (c as int - '0' as int) as nat
  }

  /** `c.isascii() and c.isalnum()` */
  predicate IsAsciiAlnum(c: char) {
    ('0' <= c <= '9') || ('a' <= c <= 'z') || ('A' <= c <= 'Z')
  }

  predicate AllSpace(s: string) {
    forall i :: 0 <= i < |s| ==> IsSpace(s[i])
  }

  predicate NoSpace(s: string) {
    forall i :: 0 <= i < |s| ==> !IsSpace(s[i])
  }

  /** `s.isdigit()` on ASCII text: non-empty and made of digits only. */
  predicate IsDigits(s: string) {
    |s| > 0 && forall i :: 0 <= i < |s| ==> IsDigit(s[i])
  }

  /** Number of leading whitespace characters. */
  function LeadSpaces(s: string): (k: nat)
    ensures k <= |s|
  {
    if s != [] && IsSpace(s[0]) then 1 + LeadSpaces(s[1..]) else 0
  }

  lemma {:induction false} LeadSpacesSpec(s: string)
    ensures forall i :: 0 <= i < LeadSpaces(s) ==> IsSpace(s[i])
    ensures LeadSpaces(s) < |s| ==> !IsSpace(s[LeadSpaces(s)])
  {
    if s != [] && IsSpace(s[0]) {
      LeadSpacesSpec(s[1..]);
    }
  }

  /** Number of trailing whitespace characters. */
  function TrailSpaces(s: string): (k: nat)
    ensures k <= |s|
  {
    if s != [] && IsSpace(s[|s| - 1]) then 1 + TrailSpaces(s[..|s| - 1]) else 0
  }

  lemma {:induction false} TrailSpacesSpec(s: string)
    ensures forall i :: |s| - TrailSpaces(s) <= i < |s| ==> IsSpace(s[i])
    ensures TrailSpaces(s) < |s| ==> !IsSpace(s[|s| - 1 - TrailSpaces(s)])
  {
    if s != [] && IsSpace(s[|s| - 1]) {
      TrailSpacesSpec(s[..|s| - 1]);
    }
  }

  /** The slice bounds of `s.strip()` inside `s`. */
  function StripStart(s: string): nat
    ensures StripStart(s) <= |s|
  {
    LeadSpaces(s)
  }

  function StripEnd(s: string): (e: nat)
    ensures StripStart(s) <= e <= |s|
  {
    var a := s[LeadSpaces(s)..];
    LeadSpaces(s) + |a| - TrailSpaces(a)
  }

  /** `s.strip()`: the text between the leading and the trailing whitespace. */
  function Strip(s: string): string {
    s[StripStart(s)..StripEnd(s)]
  }

  /** What `strip` removes is whitespace, and what it keeps neither starts
      nor ends with whitespace; it is empty exactly for all-whitespace text. */
  lemma StripSpec(s: string)
    ensures AllSpace(s[..StripStart(s)]) && AllSpace(s[StripEnd(s)..])
    ensures IsStripped(Strip(s))
    ensures Strip(s) == [] <==> AllSpace(s)
  {
    var a := s[LeadSpaces(s)..];
    LeadSpacesSpec(s);
    TrailSpacesSpec(a);
    assert Strip(s) == a[..|a| - TrailSpaces(a)];
    assert a != [] ==> !IsSpace(a[0]);
    assert a == [] ==> LeadSpaces(s) == |s|;
    assert forall i :: 0 <= i < |s[..StripStart(s)]| ==> s[..StripStart(s)][i] == s[i];
  }

  /** A string that has no whitespace at either end. */
  predicate IsStripped(s: string) {
    s == [] || (!IsSpace(s[0]) && !IsSpace(s[|s| - 1]))
  }

  lemma StrippedFixed(s: string)
    requires IsStripped(s)
    ensures Strip(s) == s
  {
    assert LeadSpaces(s) == 0;
    assert TrailSpaces(s) == 0;
  }

  lemma StripIdempotent(s: string)
    ensures Strip(Strip(s)) == Strip(s)
  {
    StripSpec(s);
    StrippedFixed(Strip(s));
  }

  /** A string whose first character is not whitespace does not strip to "". */
  lemma StripNonEmpty(s: string)
    requires s != [] && !IsSpace(s[0])
    ensures Strip(s) != []
  {
    StripSpec(s);
  }

  /** Stripping keeps every non-whitespace character, at the same place
      relative to the start of the stripped text. */
  lemma StripKeeps(s: string, k: nat)
    requires k < |s| && !IsSpace(s[k])
    ensures StripStart(s) <= k < StripEnd(s)
    ensures Strip(s)[k - StripStart(s)] == s[k]
  {
    StripBounds(s, k);
  }

  lemma StripBounds(s: string, k: nat)
    requires k < |s| && !IsSpace(s[k])
    ensures StripStart(s) <= k < StripEnd(s)
  {
    var a, e := StripStart(s), StripEnd(s);
    StripSpec(s);
    assert forall i :: 0 <= i < a ==> s[..a][i] == s[i];
    assert forall i :: e <= i < |s| ==> s[e..][i - e] == s[i];
  }

  // ---------------------------------------------------------------------
  // Substrings

  predicate StartsWith(s: string, p: string) {
    |p| <= |s| && s[..|p|] == p
  }

  /** Python's `p in s`. */
  predicate Contains(s: string, p: string)
    decreases |s|
  {
    StartsWith(s, p) || (s != [] && Contains(s[1..], p))
  }

  lemma ContainsAt(s: string, p: string, k: nat)
    requires k + |p| <= |s| && s[k..k + |p|] == p
    ensures Contains(s, p)
    decreases k
  {
    if k > 0 {
      assert s[1..][k - 1..k - 1 + |p|] == s[k..k + |p|];
      ContainsAt(s[1..], p, k - 1);
    }
  }

  /** `p` occurs in `s` starting at index `k`. */
  predicate OccursAt(s: string, p: string, k: nat) {
    k + |p| <= |s| && s[k..k + |p|] == p
  }

  /** `k` is the first index where `p` starts in `s`. */
  predicate FirstAt(s: string, p: string, k: nat) {
    OccursAt(s, p, k) && forall j: nat :: j < k ==> !OccursAt(s, p, j)
  }

  /** With no index where `p` starts, `p in s` is false. */
  lemma {:induction false} NoOccurrenceNotContained(s: string, p: string)
    requires forall k: nat :: !OccursAt(s, p, k)
    ensures !Contains(s, p)
    decreases |s|
  {
    assert !OccursAt(s, p, 0);
    if s != [] {
      forall k: nat ensures !OccursAt(s[1..], p, k) {
        assert !OccursAt(s, p, k + 1);
        if k + |p| <= |s| - 1 {
          assert s[1..][k..k + |p|] == s[k + 1..k + 1 + |p|];
        }
      }
      NoOccurrenceNotContained(s[1..], p);
    }
  }

  /** An occurrence of `p` has an index. */
  lemma ContainsIndex(s: string, p: string) returns (k: nat)
    requires Contains(s, p)
    ensures k + |p| <= |s| && s[k..k + |p|] == p
    decreases |s|
  {
    if StartsWith(s, p) {
      k := 0;
    } else {
      var k' := ContainsIndex(s[1..], p);
      k := k' + 1;
      assert s[k..k + |p|] == s[1..][k'..k' + |p|];
    }
  }

  /** A slice of a slice is a slice. */
  lemma SliceOfSlice(s: string, a: nat, e: nat, i: nat, j: nat)
    requires a <= e <= |s| && i <= j <= e - a
    ensures s[a..e][i..j] == s[a + i..a + j]
  {
    assert forall k :: 0 <= k < j - i ==> s[a..e][i..j][k] == s[a + i..a + j][k];
  }

  /** A pattern that neither starts nor ends with whitespace occurs in `s`
      exactly when it occurs in `s.strip()`. */
  lemma ContainsStripped(s: string, p: string)
    requires p != [] && !IsSpace(p[0]) && !IsSpace(p[|p| - 1])
    ensures Contains(Strip(s), p) <==> Contains(s, p)
  {
    if Contains(Strip(s), p) {
      var k := ContainsIndex(Strip(s), p);
      SliceOfSlice(s, StripStart(s), StripEnd(s), k, k + |p|);
      ContainsAt(s, p, StripStart(s) + k);
    }
    if Contains(s, p) {
      ContainedInStripped(s, p);
    }
  }

  lemma ContainedInStripped(s: string, p: string)
    requires p != [] && !IsSpace(p[0]) && !IsSpace(p[|p| - 1]) && Contains(s, p)
    ensures Contains(Strip(s), p)
  {
    var k := ContainsIndex(s, p);
    var a, e := StripStart(s), StripEnd(s);
    var last := k + |p| - 1;
    assert s[k..k + |p|][0] == s[k];
    assert s[k..k + |p|][|p| - 1] == s[last];
    StripBounds(s, k);
    StripBounds(s, last);
    var t := s[a..e];
    SliceOfSlice(s, a, e, k - a, k - a + |p|);
    assert t[k - a..k - a + |p|] == p;
    ContainsAt(t, p, k - a);
  }

  /** Every character of an occurring pattern is in the text. */
  lemma ContainsChar(s: string, p: string, c: char)
    requires Contains(s, p) && c in p
    ensures c in s
  {
    var k := ContainsIndex(s, p);
    var j :| 0 <= j < |p| && p[j] == c;
    assert s[k..k + |p|][j] == s[k + j];
  }

  /** A pattern with a character the text lacks does not occur in it. */
  lemma MissingChar(s: string, p: string, c: char)
    requires c in p && c !in s
    ensures !Contains(s, p)
  {
    if Contains(s, p) {
      ContainsChar(s, p, c);
    }
  }

  /** A text containing `a + b` contains `b`. */
  lemma ContainsSuffix(s: string, a: string, b: string)
    requires Contains(s, a + b)
    ensures Contains(s, b)
  {
    var k := ContainsIndex(s, a + b);
    assert s[k + |a|..k + |a| + |b|] == (a + b)[|a|..];
    ContainsAt(s, b, k + |a|);
  }

  /** A pattern longer than the text does not occur in it. */
  lemma {:induction false} TooLongNotContained(s: string, p: string)
    requires |s| < |p|
    ensures !Contains(s, p)
    decreases |s|
  {
    if s != [] {
      TooLongNotContained(s[1..], p);
    }
  }

  /** A pattern as long as the text occurs in it only as the whole text. */
  lemma ContainsSameLength(s: string, p: string)
    requires |s| == |p|
    ensures Contains(s, p) <==> s == p
  {
    if s != [] {
      TooLongNotContained(s[1..], p);
    }
  }

  /** A line that contains `-->` is neither empty nor a digits line. */
  lemma ArrowLine(s: string)
    requires Contains(s, "-->")
    ensures s != [] && !IsDigits(s)
  {
    var k := ContainsIndex(s, "-->");
    assert s[k..k + 3][0] == s[k];
    assert s[k] == '-';
  }

  /** A string that contains `-->` is not a digits line, even after `strip`. */
  lemma ArrowNotDigits(s: string)
    requires Contains(s, "-->")
    ensures !IsDigits(Strip(s))
    ensures Strip(s) != []
  {
    var k := ContainsIndex(s, "-->");
    assert s[k..k + 3][0] == s[k];
    assert s[k] == '-';
    StripKeeps(s, k);
  }

  // ---------------------------------------------------------------------
  // Growing a prefix or a slice by one element

  lemma PrefixSnoc<T>(s: seq<T>, k: nat)
    requires k < |s|
    ensures s[..k + 1] == s[..k] + [s[k]]
  {
  }

  lemma SliceSnoc<T>(s: seq<T>, a: nat, b: nat)
    requires a <= b < |s|
    ensures s[a..b + 1] == s[a..b] + [s[b]]
  {
  }

  // ---------------------------------------------------------------------
  // Joining and splitting

  /** `"".join(xs)` */
  function Concat(xs: seq<string>): string {
    if xs == [] then [] else xs[0] + Concat(xs[1..])
  }

  lemma {:induction false} ConcatAppend(xs: seq<string>, ys: seq<string>)
    ensures Concat(xs + ys) == Concat(xs) + Concat(ys)
  {
    if xs == [] {
      assert xs + ys == ys;
    } else {
      assert (xs + ys)[0] == xs[0];
      assert (xs + ys)[1..] == xs[1..] + ys;
      ConcatAppend(xs[1..], ys);
    }
  }

  lemma ConcatSnoc(xs: seq<string>, x: string)
    ensures Concat(xs + [x]) == Concat(xs) + x
  {
    ConcatAppend(xs, [x]);
  }

  /** `sep.join(xs)` */
  function Join(sep: string, xs: seq<string>): string {
    if xs == [] then []
    else if |xs| == 1 then xs[0]
    else xs[0] + sep + Join(sep, xs[1..])
  }

  lemma JoinSnoc(sep: string, xs: seq<string>, x: string)
    requires xs != []
    ensures Join(sep, xs + [x]) == Join(sep, xs) + sep + x
  {
    if |xs| > 1 {
      assert (xs + [x])[1..] == xs[1..] + [x];
      JoinSnoc(sep, xs[1..], x);
    }
  }

  /** One step of splitting: put `c` in front of the first piece. */
  function PrependFirst(c: char, pieces: seq<string>): seq<string>
    requires pieces != []
  {
    [[c] + pieces[0]] + pieces[1..]
  }

  /** Python's `s.split(sep)` for a non-empty separator: cut at every
      leftmost, non-overlapping occurrence of `sep`. */
  function SplitOn(s: string, sep: string): (r: seq<string>)
    requires sep != []
    ensures r != []
    decreases |s|
  {
    if |s| < |sep| then [s]
    else if s[..|sep|] == sep then [[]] + SplitOn(s[|sep|..], sep)
    else PrependFirst(s[0], SplitOn(s[1..], sep))
  }

  lemma JoinCons(sep: string, x: string, rest: seq<string>)
    requires rest != []
    ensures Join(sep, [x] + rest) == x + sep + Join(sep, rest)
  {
    assert ([x] + rest)[1..] == rest;
  }

  /** Putting a character in front of the first piece puts it in front of
      the joined text. */
  lemma JoinPrependFirst(sep: string, c: char, pieces: seq<string>)
    requires pieces != []
    ensures Join(sep, PrependFirst(c, pieces)) == [c] + Join(sep, pieces)
  {
    var p := PrependFirst(c, pieces);
    if |pieces| > 1 {
      assert p == [[c] + pieces[0]] + pieces[1..];
      JoinCons(sep, [c] + pieces[0], pieces[1..]);
      JoinCons(sep, pieces[0], pieces[1..]);
      assert pieces == [pieces[0]] + pieces[1..];
    }
  }

  /** Joining the pieces with the separator gives the text back. */
  lemma {:induction false} JoinSplitOn(s: string, sep: string)
    requires sep != []
    ensures Join(sep, SplitOn(s, sep)) == s
    decreases |s|
  {
    if |s| < |sep| {
    } else if s[..|sep|] == sep {
      var rest := SplitOn(s[|sep|..], sep);
      assert SplitOn(s, sep) == [[]] + rest;
      JoinSplitOn(s[|sep|..], sep);
      JoinCons(sep, [], rest);
      assert Join(sep, SplitOn(s, sep)) == sep + s[|sep|..];
      assert s == s[..|sep|] + s[|sep|..];
    } else {
      var rest := SplitOn(s[1..], sep);
      assert SplitOn(s, sep) == PrependFirst(s[0], rest);
      JoinSplitOn(s[1..], sep);
      JoinPrependFirst(sep, s[0], rest);
      assert s == [s[0]] + s[1..];
    }
  }

  /** Splitting text without the separator character gives it back whole. */
  lemma {:induction false} SplitOnNone(s: string, c: char)
    requires c !in s
    ensures SplitOn(s, [c]) == [s]
    decreases |s|
  {
    if |s| >= 1 {
      assert s[..1] != [c] by { assert s[0] != c; }
      SplitOnNone(s[1..], c);
      assert s == [s[0]] + s[1..];
    }
  }

  lemma {:induction false} SplitOnConcat(a: string, b: string, c: char)
    requires c !in a
    ensures SplitOn(a + [c] + b, [c]) == [a] + SplitOn(b, [c])
    decreases |a|
  {
    if a == [] {
      assert ([c] + b)[..1] == [c];
      assert ([c] + b)[1..] == b;
      assert a + [c] + b == [c] + b;
    } else {
      var s := a + [c] + b;
      assert s[..1] != [c] by { assert s[0] == a[0] != c; }
      assert s[1..] == a[1..] + [c] + b;
      SplitOnConcat(a[1..], b, c);
      assert [a[0]] + a[1..] == a;
    }
  }

  /** Splitting on a one-character separator undoes joining with it, as
      long as no piece contains that character. */
  lemma {:induction false} SplitOnJoin(xs: seq<string>, c: char)
    requires xs != []
    requires forall i :: 0 <= i < |xs| ==> c !in xs[i]
    ensures SplitOn(Join([c], xs), [c]) == xs
  {
    if |xs| == 1 {
      SplitOnNone(xs[0], c);
    } else {
      SplitOnJoin(xs[1..], c);
      SplitOnConcat(xs[0], Join([c], xs[1..]), c);
    }
  }

  /** No piece of a split on one character holds that character. */
  lemma {:induction false} SplitOnLacks(s: string, c: char)
    ensures forall i :: 0 <= i < |SplitOn(s, [c])| ==> c !in SplitOn(s, [c])[i]
    decreases |s|
  {
    if |s| >= 1 {
      SplitOnLacks(s[1..], c);
      if s[..1] != [c] {
        assert s[0] != c;
      }
    }
  }

  /** A line boundary of `str.splitlines()`. */
  predicate IsLineBreak(c: char) {
    || c == '\n' || c == '\r' || c == '\U{0B}' || c == '\U{0C}'
    || c == '\U{1C}' || c == '\U{1D}' || c == '\U{1E}' || c == '\U{85}'
    || c == '\U{2028}' || c == '\U{2029}'
  }

  /** Index of the first line boundary, or |s| when there is none. */
  function LineEnd(s: string): (k: nat)
    ensures k <= |s|
    ensures forall i :: 0 <= i < k ==> !IsLineBreak(s[i])
    ensures k < |s| ==> IsLineBreak(s[k])
  {
    if s == [] || IsLineBreak(s[0]) then 0 else 1 + LineEnd(s[1..])
  }

  /** `s.splitlines()`: lines without their boundaries; `\r\n` is one
      boundary, and a boundary at the very end does not open an empty line. */
  function SplitLines(s: string): (r: seq<string>)
    ensures forall i, j :: 0 <= i < |r| && 0 <= j < |r[i]| ==> !IsLineBreak(r[i][j])
    decreases |s|
  {
    if s == [] then []
    else
      var k := LineEnd(s);
      var skip := if k == |s| then 0
                  else if s[k] == '\r' && k + 1 < |s| && s[k + 1] == '\n' then 2
                  else 1;
      [s[..k]] + SplitLines(s[k + skip..])
  }

  // ---------------------------------------------------------------------
  // "The same text with some whitespace removed"

  /** `a` is `b` with some of its whitespace characters deleted and nothing
      else changed. */
  predicate SpacesRemoved(a: string, b: string)
    decreases |b|
  {
    if b == [] then a == []
    else
      || (IsSpace(b[0]) && SpacesRemoved(a, b[1..]))
      || (a != [] && a[0] == b[0] && SpacesRemoved(a[1..], b[1..]))
  }

  lemma {:induction false} SpacesRemovedRefl(a: string)
    ensures SpacesRemoved(a, a)
  {
    if a != [] {
      SpacesRemovedRefl(a[1..]);
    }
  }

  lemma {:induction false} AllSpaceRemoved(b: string)
    requires AllSpace(b)
    ensures SpacesRemoved([], b)
  {
    if b != [] {
      AllSpaceRemoved(b[1..]);
    }
  }

  lemma {:induction false} SpacesRemovedAppend(a1: string, b1: string, a2: string, b2: string)
    requires SpacesRemoved(a1, b1) && SpacesRemoved(a2, b2)
    ensures SpacesRemoved(a1 + a2, b1 + b2)
    decreases |b1|
  {
    if b1 == [] {
      assert a1 + a2 == a2 && b1 + b2 == b2;
    } else {
      assert (b1 + b2)[0] == b1[0] && (b1 + b2)[1..] == b1[1..] + b2;
      if IsSpace(b1[0]) && SpacesRemoved(a1, b1[1..]) {
        SpacesRemovedAppend(a1, b1[1..], a2, b2);
      } else {
        SpacesRemovedAppend(a1[1..], b1[1..], a2, b2);
        assert (a1 + a2)[0] == a1[0] && (a1 + a2)[1..] == a1[1..] + a2;
      }
    }
  }

  lemma {:induction false} SpacesRemovedTrans(a: string, b: string, c: string)
    requires SpacesRemoved(a, b) && SpacesRemoved(b, c)
    ensures SpacesRemoved(a, c)
    decreases |c|
  {
    if c == [] {
    } else if IsSpace(c[0]) && SpacesRemoved(b, c[1..]) {
      SpacesRemovedTrans(a, b, c[1..]);
    } else {
      assert b != [] && b[0] == c[0] && SpacesRemoved(b[1..], c[1..]);
      if IsSpace(b[0]) && SpacesRemoved(a, b[1..]) {
        SpacesRemovedTrans(a, b[1..], c[1..]);
      } else {
        SpacesRemovedTrans(a[1..], b[1..], c[1..]);
      }
    }
  }

  /** `s.strip()` only removes whitespace. */
  lemma StripSpacesRemoved(s: string)
    ensures SpacesRemoved(Strip(s), s)
  {
    var a, e := StripStart(s), StripEnd(s);
    StripSpec(s);
    assert s == s[..a] + (s[a..e] + s[e..]);
    AllSpaceRemoved(s[..a]);
    AllSpaceRemoved(s[e..]);
    SpacesRemovedRefl(s[a..e]);
    SpacesRemovedAppend(s[a..e], s[a..e], [], s[e..]);
    assert s[a..e] + [] == s[a..e];
    SpacesRemovedAppend([], s[..a], s[a..e], s[a..e] + s[e..]);
    assert [] + s[a..e] == s[a..e];
    assert Strip(s) == s[a..e];
  }
}
