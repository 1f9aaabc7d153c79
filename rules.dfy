/** Literal substitution rules: Python's `str.replace`, the per-rule
    replacement loop every script runs, the length sort the scripts apply to
    their rule lists, and the insertion-ordered dictionary that
    check_and_fix_srt_global.py uses as its rule table. */
module Rules {
  import opened Chars

  /** One `(old, new)` pair of a replacement table. */
  datatype Rule = Rule(pattern: string, replacement: string)

  // ---------------------------------------------------------------------
  // str.replace

  /** `s.replace("", q)`: `q` before every character and at the end. */
  function InsertEverywhere(s: string, q: string): (r: string)
    ensures |r| == |s| + (|s| + 1) * |q|
  {
    if s == [] then q else q + [s[0]] + InsertEverywhere(s[1..], q)
  }

  /** `s.replace(p, q)`: every leftmost, non-overlapping occurrence of `p`
      is replaced, scanning left to right; text produced by `q` is never
      looked at again in the same call. */
  function Replace(s: string, p: string, q: string): string
    decreases |s|
  {
    if p == [] then InsertEverywhere(s, q)
    else if |s| < |p| then s
    else if s[..|p|] == p then q + Replace(s[|p|..], p, q)
    else [s[0]] + Replace(s[1..], p, q)
  }

  /** An identity rule such as ("Dify", "Dify") changes nothing. */
  lemma {:induction false} ReplaceIdentity(s: string, p: string)
    ensures Replace(s, p, p) == s
    decreases |s|
  {
    if p == [] {
      InsertEverywhereEmpty(s);
    } else if |s| < |p| {
    } else if s[..|p|] == p {
      ReplaceIdentity(s[|p|..], p);
      assert s == s[..|p|] + s[|p|..];
    } else {
      ReplaceIdentity(s[1..], p);
      assert s == [s[0]] + s[1..];
    }
  }

  /** `p.replace(p, q) == q` */
  lemma ReplaceWhole(p: string, q: string)
    requires p != []
    ensures Replace(p, p, q) == q
  {
    assert p[|p|..] == [];
  }

  /** A text matching the pattern at its start: the match is replaced and
      the scan goes on after it. */
  lemma ReplaceHere(s: string, p: string, q: string)
    requires p != [] && StartsWith(s, p)
    ensures Replace(s, p, q) == q + Replace(s[|p|..], p, q)
  {
  }

  /** A text whose first character cannot start the pattern: the
      character is copied and the scan goes on after it. */
  lemma ReplaceSkip(s: string, p: string, q: string)
    requires s != [] && p != [] && s[0] != p[0]
    ensures Replace(s, p, q) == [s[0]] + Replace(s[1..], p, q)
  {
    if |s| < |p| {
      assert s == [s[0]] + s[1..];
    } else {
      assert s[..|p|][0] == s[0];
    }
  }

  lemma {:induction false} InsertEverywhereEmpty(s: string)
    ensures InsertEverywhere(s, []) == s
  {
    if s != [] {
      InsertEverywhereEmpty(s[1..]);
      assert s == [s[0]] + s[1..];
    }
  }

  /** Replacing a pattern that does not occur changes nothing. */
  lemma {:induction false} ReplaceAbsent(s: string, p: string, q: string)
    requires p != [] && !Contains(s, p)
    ensures Replace(s, p, q) == s
    decreases |s|
  {
    if |s| >= |p| {
      assert s[..|p|] != p;
      ReplaceAbsent(s[1..], p, q);
      assert s == [s[0]] + s[1..];
    }
  }

  /** As long as the result shows no `q[0]`, `Replace` has only been copying. */
  lemma {:induction false} CopiedPrefix(t: string, p: string, q: string, m: nat)
    requires p != [] && q != []
    requires m <= |Replace(t, p, q)|
    requires forall i :: 0 <= i < m ==> Replace(t, p, q)[i] != q[0]
    ensures m <= |t| && Replace(t, p, q)[..m] == t[..m]
    decreases |t|
  {
    var r := Replace(t, p, q);
    if |t| < |p| {
      assert r == t;
    } else if t[..|p|] == p {
      ReplaceHere(t, p, q);
      assert r[0] == q[0];
    } else if m > 0 {
      var r' := Replace(t[1..], p, q);
      assert r == [t[0]] + r';
      assert forall i :: 0 <= i < m - 1 ==> r'[i] == r[i + 1];
      CopiedPrefix(t[1..], p, q, m - 1);
      assert r[..m] == [t[0]] + r'[..m - 1];
      assert t[..m] == [t[0]] + t[1..][..m - 1];
    }
  }

  /** After one pass, no occurrence of `p` is left, provided the replacement
      cannot form a new one with its neighbours: `p` does not contain the
      first character of `q`, and `q` does not contain the first character
      of `p`. */
  lemma {:induction false} ReplaceLeavesNone(s: string, p: string, q: string)
    requires p != [] && q != []
    requires q[0] !in p && p[0] !in q
    ensures forall k: nat :: !OccursAt(Replace(s, p, q), p, k)
    decreases |s|
  {
    var r := Replace(s, p, q);
    if |s| < |p| {
      assert r == s;
    } else if s[..|p|] == p {
      var r' := Replace(s[|p|..], p, q);
      ReplaceLeavesNone(s[|p|..], p, q);
      assert r == q + r';
      forall k: nat ensures !OccursAt(r, p, k) {
        if k + |p| <= |r| {
          if k < |q| {
            assert r[k] == q[k] && r[k..k + |p|][0] == r[k];
          } else {
            assert !OccursAt(r', p, k - |q|);
            assert r[k..k + |p|] == r'[k - |q|..k - |q| + |p|];
          }
        }
      }
    } else {
      var r' := Replace(s[1..], p, q);
      ReplaceLeavesNone(s[1..], p, q);
      assert r == [s[0]] + r';
      forall k: nat ensures !OccursAt(r, p, k) {
        if k + |p| <= |r| {
          if k > 0 {
            assert !OccursAt(r', p, k - 1);
            assert r[k..k + |p|] == r'[k - 1..k - 1 + |p|];
          } else if exists i :: 0 <= i < |p| - 1 && r'[i] == q[0] {
            var i :| 0 <= i < |p| - 1 && r'[i] == q[0];
            assert r[..|p|][i + 1] == q[0] && p[i + 1] in p;
          } else {
            CopiedPrefix(s[1..], p, q, |p| - 1);
            assert s[..|p|] == [s[0]] + s[1..][..|p| - 1];
            assert r[..|p|] == [s[0]] + r'[..|p| - 1];
          }
        }
      }
    }
  }

  /** A second pass of the same rule finds nothing to replace. */
  lemma ReplaceTwice(s: string, p: string, q: string)
    requires p != [] && q != []
    requires q[0] !in p && p[0] !in q
    ensures !Contains(Replace(s, p, q), p)
    ensures Replace(Replace(s, p, q), p, q) == Replace(s, p, q)
  {
    ReplaceLeavesNone(s, p, q);
    NoOccurrenceNotContained(Replace(s, p, q), p);
    ReplaceAbsent(Replace(s, p, q), p, q);
  }

  /** Replacing a single character by text without it removes it entirely. */
  lemma {:induction false} ReplaceCharGone(s: string, c: char, q: string)
    requires c !in q
    ensures c !in Replace(s, [c], q)
    decreases |s|
  {
    if |s| >= 1 {
      ReplaceCharGone(s[1..], c, q);
    }
  }

  /** `s.replace(p, q)` never touches text without `c` when neither `p`
      nor `q` holds it: the character stays absent. */
  lemma {:induction false} ReplaceKeepsAbsent(s: string, p: string, q: string, c: char)
    requires c !in s && c !in q
    ensures c !in Replace(s, p, q)
    decreases |s|
  {
    if p == [] {
      InsertEverywhereKeepsAbsent(s, q, c);
    } else if |s| < |p| {
    } else if s[..|p|] == p {
      ReplaceKeepsAbsent(s[|p|..], p, q, c);
    } else {
      ReplaceKeepsAbsent(s[1..], p, q, c);
    }
  }

  lemma {:induction false} InsertEverywhereKeepsAbsent(s: string, q: string, c: char)
    requires c !in s && c !in q
    ensures c !in InsertEverywhere(s, q)
  {
    if s != [] {
      InsertEverywhereKeepsAbsent(s[1..], q, c);
    }
  }

  /** JavaScript's `s.replace(p, q)` with a string pattern: only the first
      occurrence is replaced. */
  function ReplaceFirst(s: string, p: string, q: string): (r: string)
    ensures !Contains(s, p) ==> r == s
    ensures StartsWith(s, p) ==> r == q + s[|p|..]
    ensures Contains(s, p) ==> exists i: nat :: FirstAt(s, p, i) && r == s[..i] + q + s[i + |p|..]
    decreases |s|
  {
    if StartsWith(s, p) then
      assert FirstAt(s, p, 0);
      q + s[|p|..]
    else if s == [] then s
    else
      var r' := ReplaceFirst(s[1..], p, q);
      ReplaceFirstStep(s, p, q, r');
      [s[0]] + r'
  }

  /** Past a character where `p` does not start, the first occurrence in
      the tail is the first occurrence in `s`, one index further on. */
  lemma FirstAtTail(s: string, p: string, i: nat)
    requires s != [] && !StartsWith(s, p) && FirstAt(s[1..], p, i)
    ensures FirstAt(s, p, i + 1)
  {
    assert s[i + 1..i + 1 + |p|] == s[1..][i..i + |p|];
    forall j: nat | j < i + 1
      ensures !OccursAt(s, p, j)
    {
      if j > 0 && OccursAt(s, p, j) {
        assert s[1..][j - 1..j - 1 + |p|] == s[j..j + |p|];
        assert OccursAt(s[1..], p, j - 1);
        assert false;
      }
    }
  }

  /** Putting the first character back in front of a splice of the tail. */
  lemma ConsSplice(s: string, i: nat, n: nat, q: string)
    requires i + 1 + n <= |s|
    ensures [s[0]] + (s[1..][..i] + q + s[1..][i + n..]) == s[..i + 1] + q + s[i + 1 + n..]
  {
    assert [s[0]] + s[1..][..i] == s[..i + 1];
    assert s[1..][i + n..] == s[i + 1 + n..];
  }

  /** The step of `ReplaceFirst` past a character where `p` does not start. */
  lemma ReplaceFirstStep(s: string, p: string, q: string, r': string)
    requires s != [] && !StartsWith(s, p)
    requires Contains(s[1..], p) ==> exists i: nat :: FirstAt(s[1..], p, i) && r' == s[1..][..i] + q + s[1..][i + |p|..]
    ensures Contains(s, p) ==> exists i: nat :: FirstAt(s, p, i) && [s[0]] + r' == s[..i] + q + s[i + |p|..]
  {
    if Contains(s, p) {
      assert Contains(s[1..], p);
      var i: nat :| FirstAt(s[1..], p, i) && r' == s[1..][..i] + q + s[1..][i + |p|..];
      FirstAtTail(s, p, i);
      var k := i + 1;
      ConsSplice(s, i, |p|, q);
      assert FirstAt(s, p, k) && [s[0]] + r' == s[..k] + q + s[k + |p|..];
    }
  }


  // ---------------------------------------------------------------------
  // Applying a rule list

  /** `for old, new in rules: content = content.replace(old, new)` */
  function ApplyRules(s: string, rules: seq<Rule>): string
    decreases |rules|
  {
    if rules == [] then s
    else ApplyRules(Replace(s, rules[0].pattern, rules[0].replacement), rules[1..])
  }

  lemma {:induction false} ApplyRulesAppend(s: string, a: seq<Rule>, b: seq<Rule>)
    ensures ApplyRules(s, a + b) == ApplyRules(ApplyRules(s, a), b)
    decreases |a|
  {
    if a == [] {
      assert a + b == b;
    } else {
      assert (a + b)[0] == a[0] && (a + b)[1..] == a[1..] + b;
      ApplyRulesAppend(Replace(s, a[0].pattern, a[0].replacement), a[1..], b);
    }
  }

  /** Rules whose pattern equals their replacement have no effect. */
  lemma {:induction false} IdentityRulesNoEffect(s: string, rules: seq<Rule>)
    requires forall i :: 0 <= i < |rules| ==> rules[i].pattern == rules[i].replacement
    ensures ApplyRules(s, rules) == s
    decreases |rules|
  {
    if rules != [] {
      ReplaceIdentity(s, rules[0].pattern);
      IdentityRulesNoEffect(s, rules[1..]);
    }
  }

  /** The replacement loop: `content` is rebound once per rule, in list order. */
  method ApplyRulesInOrder(content: string, rules: seq<Rule>) returns (result: string)
    ensures result == ApplyRules(content, rules)
  {
    result := content;
    for k := 0 to |rules|
      invariant ApplyRules(result, rules[k..]) == ApplyRules(content, rules)
    {
      assert rules[k..][1..] == rules[k + 1..];
      result := Replace(result, rules[k].pattern, rules[k].replacement);
    }
  }

  // ---------------------------------------------------------------------
  // rules.sort(key=lambda x: len(x[0]), reverse=True)

  function PatternLength(r: Rule): nat {
    |r.pattern|
  }

  /** Non-increasing pattern length. */
  predicate LongestFirst(rules: seq<Rule>) {
    forall i, j :: 0 <= i < j < |rules| ==> PatternLength(rules[i]) >= PatternLength(rules[j])
  }

  /** The rules whose pattern has length `n`, in list order. */
  function OfLength(rules: seq<Rule>, n: nat): seq<Rule> {
    if rules == [] then []
    else (if PatternLength(rules[0]) == n then [rules[0]] else []) + OfLength(rules[1..], n)
  }

  lemma {:induction false} OfLengthAppend(a: seq<Rule>, b: seq<Rule>, n: nat)
    ensures OfLength(a + b, n) == OfLength(a, n) + OfLength(b, n)
  {
    if a == [] {
      assert a + b == b;
    } else {
      assert (a + b)[0] == a[0] && (a + b)[1..] == a[1..] + b;
      OfLengthAppend(a[1..], b, n);
    }
  }

  /** Put `x` in front of the first rule that is not longer than it, so that
      among rules of equal length `x` comes first. */
  function Insert(x: Rule, sorted: seq<Rule>): seq<Rule> {
    if sorted == [] then [x]
    else if PatternLength(sorted[0]) <= PatternLength(x) then [x] + sorted
    else [sorted[0]] + Insert(x, sorted[1..])
  }

  lemma {:induction false} InsertPermutes(x: Rule, sorted: seq<Rule>)
    ensures multiset(Insert(x, sorted)) == multiset(sorted) + multiset{x}
  {
    if sorted != [] && PatternLength(sorted[0]) > PatternLength(x) {
      InsertPermutes(x, sorted[1..]);
      assert sorted == [sorted[0]] + sorted[1..];
    }
  }

  /** `x` is the first of its length after insertion; other lengths are untouched. */
  lemma {:induction false} InsertOfLength(x: Rule, sorted: seq<Rule>, n: nat)
    ensures OfLength(Insert(x, sorted), n) ==
            (if PatternLength(x) == n then [x] else []) + OfLength(sorted, n)
  {
    var r := Insert(x, sorted);
    if sorted == [] {
      assert r == [x];
      assert OfLength(r, n) == (if PatternLength(x) == n then [x] else []) + OfLength(r[1..], n);
    } else if PatternLength(sorted[0]) <= PatternLength(x) {
      assert r == [x] + sorted;
      assert r[0] == x && r[1..] == sorted;
    } else {
      var rest := Insert(x, sorted[1..]);
      InsertOfLength(x, sorted[1..], n);
      assert r == [sorted[0]] + rest;
      assert r[0] == sorted[0] && r[1..] == rest;
      var h := if PatternLength(sorted[0]) == n then [sorted[0]] else [];
      assert OfLength(r, n) == h + OfLength(rest, n);
      assert OfLength(sorted, n) == h + OfLength(sorted[1..], n);
      if PatternLength(x) == n {
        assert h == [];
        assert OfLength(r, n) == [x] + OfLength(sorted[1..], n);
      } else {
        assert OfLength(rest, n) == OfLength(sorted[1..], n);
      }
    }
  }

  predicate AllAtMost(rules: seq<Rule>, n: nat) {
    forall i :: 0 <= i < |rules| ==> PatternLength(rules[i]) <= n
  }

  lemma {:induction false} InsertAtMost(x: Rule, sorted: seq<Rule>, n: nat)
    requires AllAtMost(sorted, n) && PatternLength(x) <= n
    ensures AllAtMost(Insert(x, sorted), n)
  {
    if sorted != [] && PatternLength(sorted[0]) > PatternLength(x) {
      InsertAtMost(x, sorted[1..], n);
    }
  }

  lemma ConsLongestFirst(h: Rule, t: seq<Rule>)
    requires LongestFirst(t) && AllAtMost(t, PatternLength(h))
    ensures LongestFirst([h] + t)
  {
  }

  lemma {:induction false} InsertLongestFirst(x: Rule, sorted: seq<Rule>)
    requires LongestFirst(sorted)
    ensures LongestFirst(Insert(x, sorted))
  {
    if sorted == [] {
    } else if PatternLength(sorted[0]) <= PatternLength(x) {
      ConsLongestFirst(x, sorted);
    } else {
      InsertLongestFirst(x, sorted[1..]);
      InsertAtMost(x, sorted[1..], PatternLength(sorted[0]));
      ConsLongestFirst(sorted[0], Insert(x, sorted[1..]));
    }
  }

  /** Python's stable descending sort on pattern length. */
  function SortByLength(rules: seq<Rule>): (r: seq<Rule>)
    ensures LongestFirst(r)
    ensures forall n :: OfLength(r, n) == OfLength(rules, n)
  {
    if rules == [] then []
    else
      var rest := SortByLength(rules[1..]);
      assert rules == [rules[0]] + rules[1..];
      InsertLongestFirst(rules[0], rest);
      assert forall n :: OfLength(Insert(rules[0], rest), n) == OfLength(rules, n) by {
        forall n ensures OfLength(Insert(rules[0], rest), n) == OfLength(rules, n) {
          InsertOfLength(rules[0], rest, n);
        }
      }
      Insert(rules[0], rest)
  }

  /** The sort is a permutation: no rule is lost or duplicated. */
  lemma {:induction false} SortPermutes(rules: seq<Rule>)
    ensures multiset(SortByLength(rules)) == multiset(rules)
  {
    if rules != [] {
      SortPermutes(rules[1..]);
      InsertPermutes(rules[0], SortByLength(rules[1..]));
      assert rules == [rules[0]] + rules[1..];
    }
  }

  lemma OfLengthHas(rules: seq<Rule>, n: nat) returns (i: nat)
    requires OfLength(rules, n) != []
    ensures i < |rules| && PatternLength(rules[i]) == n
  {
    if PatternLength(rules[0]) == n {
      i := 0;
    } else {
      var i' := OfLengthHas(rules[1..], n);
      i := i' + 1;
    }
  }

  lemma OfLengthHead(rules: seq<Rule>)
    requires rules != []
    ensures OfLength(rules, PatternLength(rules[0])) ==
            [rules[0]] + OfLength(rules[1..], PatternLength(rules[0]))
    ensures forall n :: n != PatternLength(rules[0]) ==> OfLength(rules, n) == OfLength(rules[1..], n)
  {
  }

  /** A longest-first list is determined by its rules of each length taken
      in order: that is what "stable" means. */
  lemma {:induction false} StableSortUnique(a: seq<Rule>, b: seq<Rule>)
    requires LongestFirst(a) && LongestFirst(b)
    requires forall n :: OfLength(a, n) == OfLength(b, n)
    ensures a == b
    decreases |a|
  {
    if a != [] {
      OfLengthHead(a);
      assert OfLength(b, PatternLength(a[0])) != [];
    }
    if b != [] {
      OfLengthHead(b);
      assert OfLength(a, PatternLength(b[0])) != [];
    }
    if a != [] {
      var la, lb := PatternLength(a[0]), PatternLength(b[0]);
      OfLengthHead(a);
      OfLengthHead(b);
      var ib := OfLengthHas(b, la);
      var ia := OfLengthHas(a, lb);
      assert la <= lb && lb <= la;
      assert a[0] == OfLength(a, la)[0] == OfLength(b, la)[0] == b[0];
      forall n ensures OfLength(a[1..], n) == OfLength(b[1..], n) {
        if n == la {
          assert OfLength(a[1..], n) == OfLength(a, n)[1..];
          assert OfLength(b[1..], n) == OfLength(b, n)[1..];
        }
      }
      StableSortUnique(a[1..], b[1..]);
      assert a == [a[0]] + a[1..] && b == [b[0]] + b[1..];
    }
  }

  /** Sorting an already sorted list changes nothing. */
  lemma SortSorted(rules: seq<Rule>)
    requires LongestFirst(rules)
    ensures SortByLength(rules) == rules
  {
    StableSortUnique(SortByLength(rules), rules);
  }

  /** Sorting, appending more rules and sorting again is the same as one
      sort of the whole list: equal lengths still keep list order. */
  lemma SortAppendSort(a: seq<Rule>, b: seq<Rule>)
    ensures SortByLength(SortByLength(a) + b) == SortByLength(a + b)
  {
    forall n ensures OfLength(SortByLength(SortByLength(a) + b), n) == OfLength(SortByLength(a + b), n) {
      OfLengthAppend(SortByLength(a), b, n);
      OfLengthAppend(a, b, n);
    }
    StableSortUnique(SortByLength(SortByLength(a) + b), SortByLength(a + b));
  }

  /** After the sort, a rule with a longer pattern comes before one with
      a shorter pattern, and both are still there. */
  lemma SortedBefore(rules: seq<Rule>, a: Rule, b: Rule)
    requires a in rules && b in rules && PatternLength(a) > PatternLength(b)
    ensures a in SortByLength(rules) && b in SortByLength(rules)
    ensures forall i, j ::
              0 <= i < |SortByLength(rules)| && 0 <= j < |SortByLength(rules)| &&
              SortByLength(rules)[i] == a && SortByLength(rules)[j] == b
              ==> i < j
  {
    SortPermutes(rules);
    assert a in multiset(SortByLength(rules)) && b in multiset(SortByLength(rules));
  }

  /** A sorted list that keeps the rules of each length in list order is
      the result of the sort. */
  lemma SortedAs(rules: seq<Rule>, sorted: seq<Rule>)
    requires LongestFirst(sorted) && forall n :: OfLength(sorted, n) == OfLength(rules, n)
    ensures SortByLength(rules) == sorted
  {
    StableSortUnique(SortByLength(rules), sorted);
  }

  /** A rule listed twice in a row does nothing the second time when its
      pattern cannot reappear: the replacement neither starts a new
      occurrence nor does the pattern start inside the replacement. */
  lemma DuplicateRuleIdle(s: string, before: seq<Rule>, r: Rule, after: seq<Rule>)
    requires r.pattern != [] && r.replacement != []
    requires r.replacement[0] !in r.pattern && r.pattern[0] !in r.replacement
    ensures ApplyRules(s, before + [r, r] + after) == ApplyRules(s, before + [r] + after)
  {
    var t := ApplyRules(s, before);
    var once := Replace(t, r.pattern, r.replacement);
    ApplyRulesAppend(s, before, [r, r] + after);
    ApplyRulesAppend(s, before, [r] + after);
    assert before + [r, r] + after == before + ([r, r] + after);
    assert before + [r] + after == before + ([r] + after);
    ReplaceTwice(t, r.pattern, r.replacement);
    ReplaceAbsent(once, r.pattern, r.replacement);
    assert ([r, r] + after)[1..] == [r] + after;
    assert ([r] + after)[1..] == after;
  }

  /** Inserting a rule next to itself puts the copy right before it. */
  lemma {:induction false} InsertTwice(r: Rule, sorted: seq<Rule>) returns (p: seq<Rule>, q: seq<Rule>)
    ensures Insert(r, sorted) == p + [r] + q
    ensures Insert(r, Insert(r, sorted)) == p + [r, r] + q
  {
    if sorted == [] {
      p, q := [], [];
    } else if PatternLength(sorted[0]) <= PatternLength(r) {
      p, q := [], sorted;
      assert ([r] + sorted)[0] == r;
    } else {
      var p0, q0 := InsertTwice(r, sorted[1..]);
      p, q := [sorted[0]] + p0, q0;
      var once := [sorted[0]] + Insert(r, sorted[1..]);
      assert once[0] == sorted[0] && once[1..] == p0 + [r] + q0;
    }
  }

  /** One step of `Insert` on a non-empty list. */
  lemma InsertCons(x: Rule, a: Rule, rest: seq<Rule>)
    ensures PatternLength(a) <= PatternLength(x) ==> Insert(x, [a] + rest) == [x, a] + rest
    ensures PatternLength(a) > PatternLength(x) ==> Insert(x, [a] + rest) == [a] + Insert(x, rest)
  {
    assert ([a] + rest)[0] == a && ([a] + rest)[1..] == rest;
  }

  /** Inserting another rule never separates two adjacent copies of `r`. */
  lemma {:induction false} InsertPair(x: Rule, p: seq<Rule>, r: Rule, q: seq<Rule>) returns (p': seq<Rule>, q': seq<Rule>)
    ensures Insert(x, p + [r, r] + q) == p' + [r, r] + q'
    ensures Insert(x, p + [r] + q) == p' + [r] + q'
  {
    if p == [] {
      assert p + [r, r] + q == [r] + ([r] + q) && p + [r] + q == [r] + q;
      InsertCons(x, r, [r] + q);
      InsertCons(x, r, q);
      if PatternLength(r) <= PatternLength(x) {
        p', q' := [x], q;
      } else {
        p', q' := [], Insert(x, q);
      }
    } else {
      var a := p[0];
      var tail2, tail1 := p[1..] + [r, r] + q, p[1..] + [r] + q;
      assert p + [r, r] + q == [a] + tail2 && p + [r] + q == [a] + tail1;
      InsertCons(x, a, tail2);
      InsertCons(x, a, tail1);
      if PatternLength(a) <= PatternLength(x) {
        p', q' := [x] + p, q;
      } else {
        var p0, q0 := InsertPair(x, p[1..], r, q);
        p', q' := [a] + p0, q0;
      }
    }
  }

  /** Two adjacent copies of a rule stay adjacent through the sort, and
      the rest of the sorted list is what it is with a single copy. */
  lemma {:induction false} SortPair(a: seq<Rule>, r: Rule, b: seq<Rule>) returns (p: seq<Rule>, q: seq<Rule>)
    ensures SortByLength(a + [r, r] + b) == p + [r, r] + q
    ensures SortByLength(a + [r] + b) == p + [r] + q
  {
    if a == [] {
      var rest := SortByLength(b);
      assert a + [r, r] + b == [r] + ([r] + b) && ([r] + ([r] + b))[1..] == [r] + b;
      assert a + [r] + b == [r] + b && ([r] + b)[1..] == b;
      p, q := InsertTwice(r, rest);
    } else {
      var p0, q0 := SortPair(a[1..], r, b);
      assert (a + [r, r] + b)[0] == a[0] && (a + [r, r] + b)[1..] == a[1..] + [r, r] + b;
      assert (a + [r] + b)[0] == a[0] && (a + [r] + b)[1..] == a[1..] + [r] + b;
      p, q := InsertPair(a[0], p0, r, q0);
    }
  }

  /** A rule listed twice in a row is idle the second time even after the
      rule list is sorted. */
  lemma SortedDuplicateIdle(s: string, a: seq<Rule>, r: Rule, b: seq<Rule>)
    requires r.pattern != [] && r.replacement != []
    requires r.replacement[0] !in r.pattern && r.pattern[0] !in r.replacement
    ensures ApplyRules(s, SortByLength(a + [r, r] + b)) == ApplyRules(s, SortByLength(a + [r] + b))
  {
    var p, q := SortPair(a, r, b);
    DuplicateRuleIdle(s, p, r, q);
  }

  /** An identity rule anywhere in the list can be dropped. */
  lemma IdentityRuleDroppable(s: string, a: seq<Rule>, p: string, b: seq<Rule>)
    ensures ApplyRules(s, a + [Rule(p, p)] + b) == ApplyRules(s, a + b)
  {
    ApplyRulesAppend(s, a, [Rule(p, p)] + b);
    ApplyRulesAppend(s, a, b);
    assert a + [Rule(p, p)] + b == a + ([Rule(p, p)] + b);
    assert ([Rule(p, p)] + b)[0] == Rule(p, p) && ([Rule(p, p)] + b)[1..] == b;
    ReplaceIdentity(ApplyRules(s, a), p);
  }

  // ---------------------------------------------------------------------
  // A dict literal used as a rule table

  /** Position of the entry with key `k`, or |d| when there is none. */
  function KeyIndex(d: seq<Rule>, k: string): (i: nat)
    ensures i <= |d|
    ensures i < |d| ==> d[i].pattern == k
    ensures forall j :: 0 <= j < i ==> d[j].pattern != k
  {
    if d == [] then 0
    else if d[0].pattern == k then 0
    else 1 + KeyIndex(d[1..], k)
  }

  /** `d[k] = v` on an insertion-ordered dict: an existing key keeps its
      place and takes the new value; a new key goes to the end. */
  function Put(d: seq<Rule>, k: string, v: string): seq<Rule> {
    var i := KeyIndex(d, k);
    if i < |d| then d[i := Rule(k, v)] else d + [Rule(k, v)]
  }

  /** The dict built by a literal `{k1: v1, k2: v2, ...}`. */
  function DictFromPairs(pairs: seq<Rule>): seq<Rule>
    decreases |pairs|
  {
    if pairs == [] then []
    else
      var last := pairs[|pairs| - 1];
      Put(DictFromPairs(pairs[..|pairs| - 1]), last.pattern, last.replacement)
  }

  function Keys(rules: seq<Rule>): seq<string> {
    seq(|rules|, i requires 0 <= i < |rules| => rules[i].pattern)
  }

  /** The keys in the order they first appear. */
  function FirstOccurrences(keys: seq<string>): seq<string>
    decreases |keys|
  {
    if keys == [] then []
    else
      var prev := FirstOccurrences(keys[..|keys| - 1]);
      if keys[|keys| - 1] in prev then prev else prev + [keys[|keys| - 1]]
  }

  /** The value of the last pair with key `k`. */
  function LastValue(pairs: seq<Rule>, k: string): string
    decreases |pairs|
  {
    if pairs == [] then []
    else if pairs[|pairs| - 1].pattern == k then pairs[|pairs| - 1].replacement
    else LastValue(pairs[..|pairs| - 1], k)
  }

  predicate DistinctKeys(d: seq<Rule>) {
    forall i, j :: 0 <= i < j < |d| ==> d[i].pattern != d[j].pattern
  }

  /** A repeated key keeps the position of its first occurrence and the
      value of its last; no key appears twice. */
  lemma {:induction false} DictFromPairsOrder(pairs: seq<Rule>)
    ensures DistinctKeys(DictFromPairs(pairs))
    ensures Keys(DictFromPairs(pairs)) == FirstOccurrences(Keys(pairs))
    ensures forall i :: 0 <= i < |DictFromPairs(pairs)| ==>
              DictFromPairs(pairs)[i].replacement == LastValue(pairs, DictFromPairs(pairs)[i].pattern)
    decreases |pairs|
  {
    if pairs != [] {
      var init := pairs[..|pairs| - 1];
      var last := pairs[|pairs| - 1];
      var d := DictFromPairs(init);
      DictFromPairsOrder(init);
      assert Keys(pairs)[..|pairs| - 1] == Keys(init);
      var i := KeyIndex(d, last.pattern);
      var d' := DictFromPairs(pairs);
      if i < |d| {
        assert Keys(d)[i] == last.pattern;
        assert Keys(d') == Keys(d);
        forall j | 0 <= j < |d'| ensures d'[j].replacement == LastValue(pairs, d'[j].pattern) {
          if j != i {
            assert d'[j] == d[j];
          }
        }
      } else {
        assert last.pattern !in Keys(d) by {
          forall j | 0 <= j < |d| ensures Keys(d)[j] != last.pattern {
          }
        }
        assert Keys(d') == Keys(d) + [last.pattern];
        forall j | 0 <= j < |d'| ensures d'[j].replacement == LastValue(pairs, d'[j].pattern) {
          if j < |d| {
            assert d'[j] == d[j];
          }
        }
      }
    }
  }
}
