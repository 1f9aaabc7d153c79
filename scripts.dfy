/** The six subtitle-processing scripts put together: each builds its rule
    list, applies it to the whole file content with `str.replace`, splits
    the result into lines and runs the re-wrapping scanner. They differ in
    how the rule list is built and whether the stray-timecode branch is
    present. The concrete rule pairs below are the ones whose effect the
    scripts' comments and rule order are about. */
module Scripts {
  import opened Chars
  import opened Rules
  import opened Srt
  import opened Rewrap

  /** What every script does to the file content once its rule list is
      ready: replace, `splitlines`, scan, `"\n".join`. */
  function Transform(content: string, rules: seq<Rule>, orphan: bool): string {
    Join("\n", RewrapOutput(SplitLines(ApplyRules(content, rules)), orphan))
  }

  /** The replace loop followed by the scanner. */
  method ProcessContent(content: string, rules: seq<Rule>, orphan: bool) returns (result: string)
    ensures result == Transform(content, rules, orphan)
  {
    var replaced := ApplyRulesInOrder(content, rules);
    var lines := SplitLines(replaced);
    result := RewrapText(lines, orphan);
  }

  // ---------------------------------------------------------------------
  // process_global_srt.py: rules extended by file path, then sorted again

  /** Rules added when the file path contains one of the markers. */
  datatype Extension = Extension(markers: seq<string>, rules: seq<Rule>)

  predicate AnyContained(path: string, markers: seq<string>) {
    exists k :: 0 <= k < |markers| && Contains(path, markers[k])
  }

  /** The extensions whose markers occur in the path, in order. */
  function Selected(path: string, exts: seq<Extension>): (r: seq<Rule>) {
    if exts == [] then []
    else (if AnyContained(path, exts[0].markers) then exts[0].rules else []) + Selected(path, exts[1..])
  }

  /** The extension list for `dify1-1.srt`, `dify1-2.srt`, `dify1-3.srt`
      is tested with two markers, the full name and its ending; the full
      name adds nothing, since any path containing it contains the ending. */
  lemma MarkerRedundant(path: string, name: string)
    ensures AnyContained(path, ["dify" + name, name]) <==> Contains(path, name)
  {
    var markers := ["dify" + name, name];
    if Contains(path, markers[0]) {
      ContainsSuffix(path, "dify", name);
    }
    if Contains(path, name) {
      assert Contains(path, markers[1]);
    }
  }

  /** `get_replacements` (sorted), the path extensions and the general
      additions, sorted again. */
  function GlobalRules(path: string, base: seq<Rule>, exts: seq<Extension>, misc: seq<Rule>): seq<Rule> {
    SortByLength(SortByLength(base) + Selected(path, exts) + misc)
  }

  /** Sorting twice is sorting the whole list once: longest pattern first,
      rules of equal length in list order, no rule lost or added. */
  lemma GlobalRulesSortedOnce(path: string, base: seq<Rule>, exts: seq<Extension>, misc: seq<Rule>)
    ensures GlobalRules(path, base, exts, misc) == SortByLength(base + Selected(path, exts) + misc)
    ensures LongestFirst(GlobalRules(path, base, exts, misc))
    ensures multiset(GlobalRules(path, base, exts, misc)) == multiset(base + Selected(path, exts) + misc)
  {
    var sel := Selected(path, exts);
    var extra := sel + misc;
    var whole := base + sel + misc;
    assert SortByLength(base) + sel + misc == SortByLength(base) + extra;
    assert whole == base + extra;
    SortAppendSort(base, extra);
    SortPermutes(whole);
  }

  /** The transformation of `process_srt` in process_global_srt.py. */
  method ProcessGlobal(path: string, content: string, base: seq<Rule>, exts: seq<Extension>, misc: seq<Rule>)
    returns (result: string)
    ensures result == Transform(content, SortByLength(base + Selected(path, exts) + misc), true)
  {
    var rules := SortByLength(base);
    rules := rules + Selected(path, exts);
    rules := rules + misc;
    rules := SortByLength(rules);
    GlobalRulesSortedOnce(path, base, exts, misc);
    result := ProcessContent(content, rules, true);
  }

  // ---------------------------------------------------------------------
  // process_srt_global_review.py, process_srt_ch4.py, process_all_srt.py

  /** A fixed rule list sorted once, then the scanner with the
      stray-timecode branch. */
  method ProcessSorted(content: string, rules: seq<Rule>) returns (result: string)
    ensures result == Transform(content, SortByLength(rules), true)
  {
    var sorted := SortByLength(rules);
    result := ProcessContent(content, sorted, true);
  }

  /** process_srt_ch4.py: the base list extended by the chapter-4 rules,
      sorted once. */
  method ProcessCh4(content: string, base: seq<Rule>, chapter: seq<Rule>) returns (result: string)
    ensures result == Transform(content, SortByLength(base + chapter), true)
  {
    var rules := base;
    rules := rules + chapter;
    result := ProcessSorted(content, rules);
  }

  // ---------------------------------------------------------------------
  // process_all_srt_ch2.py and process_srt.py: a pre-correction first

  /** `content.replace("ON的版本", "ARM 的版本")` */
  function PreCorrect(content: string): string {
    Replace(content, "ON的版本", "ARM 的版本")
  }

  /** After the pre-correction no "ON的版本" is left for the ("ON", "ARM")
      rule to turn into "ARM的版本". */
  lemma PreCorrectLeavesNone(content: string)
    ensures !Contains(PreCorrect(content), "ON的版本")
  {
    assert "ARM 的版本"[0] == 'A' && "ON的版本"[0] == 'O';
    ReplaceTwice(content, "ON的版本", "ARM 的版本");
  }

  /** process_all_srt_ch2.py */
  method ProcessCh2(content: string, rules: seq<Rule>) returns (result: string)
    ensures result == Transform(PreCorrect(content), SortByLength(rules), true)
  {
    var sorted := SortByLength(rules);
    var corrected := PreCorrect(content);
    result := ProcessContent(corrected, sorted, true);
  }

  /** `[r for r in rules if r[0] not in [pattern]]` */
  function WithoutPattern(rules: seq<Rule>, pattern: string): seq<Rule> {
    if rules == [] then []
    else (if rules[0].pattern != pattern then [rules[0]] else []) + WithoutPattern(rules[1..], pattern)
  }

  /** The filter keeps exactly the rules with another pattern. */
  lemma {:induction false} WithoutPatternSpec(rules: seq<Rule>, pattern: string)
    ensures forall x :: x in WithoutPattern(rules, pattern) <==> x in rules && x.pattern != pattern
  {
    if rules != [] {
      WithoutPatternSpec(rules[1..], pattern);
      assert rules == [rules[0]] + rules[1..];
    }
  }

  /** The filter keeps the kept rules in list order. */
  lemma {:induction false} WithoutPatternAppend(a: seq<Rule>, b: seq<Rule>, pattern: string)
    ensures WithoutPattern(a + b, pattern) == WithoutPattern(a, pattern) + WithoutPattern(b, pattern)
  {
    if a == [] {
      assert a + b == b;
    } else {
      assert (a + b)[0] == a[0] && (a + b)[1..] == a[1..] + b;
      WithoutPatternAppend(a[1..], b, pattern);
    }
  }

  /** process_srt.py: "Replicate" rules removed, the rest sorted, the
      pre-correction, and the scanner without the stray-timecode branch;
      the text is returned. */
  method ProcessSrt(content: string, rules: seq<Rule>) returns (result: string)
    ensures result == Transform(PreCorrect(content), SortByLength(WithoutPattern(rules, "Replicate")), false)
  {
    var kept := WithoutPattern(rules, "Replicate");
    kept := SortByLength(kept);
    var corrected := PreCorrect(content);
    result := ProcessContent(corrected, kept, false);
  }

  /** No rule of process_srt.py's sorted list rewrites "Replicate". */
  lemma ReplicateNotRewritten(rules: seq<Rule>)
    ensures forall x :: x in SortByLength(WithoutPattern(rules, "Replicate")) ==> x.pattern != "Replicate"
  {
    WithoutPatternSpec(rules, "Replicate");
    SortPermutes(WithoutPattern(rules, "Replicate"));
    forall x | x in SortByLength(WithoutPattern(rules, "Replicate"))
      ensures x.pattern != "Replicate"
    {
      assert x in multiset(SortByLength(WithoutPattern(rules, "Replicate")));
    }
  }

  // ---------------------------------------------------------------------
  // Rule pairs from the scripts' tables

  /** Running a short rule list one `str.replace` at a time. */
  lemma Chain1(s0: string, s1: string, r0: Rule)
    requires Replace(s0, r0.pattern, r0.replacement) == s1
    ensures ApplyRules(s0, [r0]) == s1
  {
    assert [r0][1..] == [];
  }

  lemma Chain2(s0: string, s1: string, s2: string, r0: Rule, r1: Rule)
    requires Replace(s0, r0.pattern, r0.replacement) == s1
    requires Replace(s1, r1.pattern, r1.replacement) == s2
    ensures ApplyRules(s0, [r0, r1]) == s2
  {
    Chain1(s1, s2, r1);
    assert [r0, r1][1..] == [r1];
  }

  lemma Chain3(s0: string, s1: string, s2: string, s3: string, r0: Rule, r1: Rule, r2: Rule)
    requires Replace(s0, r0.pattern, r0.replacement) == s1
    requires Replace(s1, r1.pattern, r1.replacement) == s2
    requires Replace(s2, r2.pattern, r2.replacement) == s3
    ensures ApplyRules(s0, [r0, r1, r2]) == s3
  {
    Chain2(s1, s2, s3, r1, r2);
    assert [r0, r1, r2][1..] == [r1, r2];
  }

  lemma Chain4(s0: string, s1: string, s2: string, s3: string, s4: string, r0: Rule, r1: Rule, r2: Rule, r3: Rule)
    requires Replace(s0, r0.pattern, r0.replacement) == s1
    requires Replace(s1, r1.pattern, r1.replacement) == s2
    requires Replace(s2, r2.pattern, r2.replacement) == s3
    requires Replace(s3, r3.pattern, r3.replacement) == s4
    ensures ApplyRules(s0, [r0, r1, r2, r3]) == s4
  {
    Chain3(s1, s2, s3, s4, r1, r2, r3);
    assert [r0, r1, r2, r3][1..] == [r1, r2, r3];
  }

  const EsaCommunity := Rule("ESA社區", "Exa Search")
  const EsaGroup := Rule("ESA社群", "Exa Search")
  const EsaSearch := Rule("ESA Search", "Exa Search")
  const Esa := Rule("ESA", "Exa")

  /** The four ESA rules of process_srt_global_review.py, in list order. */
  const EsaRules := [EsaCommunity, EsaGroup, EsaSearch, Esa]

  /** The sort puts "ESA Search" first and "ESA" last; the two 5-character
      rules keep their order. */
  lemma EsaSorted()
    ensures SortByLength(EsaRules) == [EsaSearch, EsaCommunity, EsaGroup, Esa]
  {
    assert EsaRules[1..] == [EsaGroup, EsaSearch, Esa];
    assert EsaRules[1..][1..] == [EsaSearch, Esa];
    assert EsaRules[1..][1..][1..] == [Esa];
    assert SortByLength([Esa]) == [Esa];
    assert SortByLength([EsaSearch, Esa]) == Insert(EsaSearch, [Esa]) == [EsaSearch, Esa];
    assert SortByLength([EsaGroup, EsaSearch, Esa]) == Insert(EsaGroup, [EsaSearch, Esa]) == [EsaSearch, EsaGroup, Esa];
    assert Insert(EsaCommunity, [EsaSearch, EsaGroup, Esa]) == [EsaSearch, EsaCommunity, EsaGroup, Esa];
  }

  lemma EsaStep1()
    ensures Replace("ESA社區", "ESA Search", "Exa Search") == "ESA社區"
  {
    TooLongNotContained("ESA社區", "ESA Search");
    ReplaceAbsent("ESA社區", "ESA Search", "Exa Search");
  }

  lemma EsaStep2()
    ensures Replace("ESA社區", "ESA社區", "Exa Search") == "Exa Search"
  {
    ReplaceWhole("ESA社區", "Exa Search");
  }

  lemma EsaStep3()
    ensures Replace("Exa Search", "ESA社群", "Exa Search") == "Exa Search"
  {
    MissingChar("Exa Search", "ESA社群", '群');
    ReplaceAbsent("Exa Search", "ESA社群", "Exa Search");
  }

  lemma EsaStep4()
    ensures Replace("Exa Search", "ESA", "Exa") == "Exa Search"
  {
    MissingChar("Exa Search", "ESA", 'A');
    ReplaceAbsent("Exa Search", "ESA", "Exa");
  }

  /** "ESA社區" becomes "Exa Search". */
  lemma EsaExample()
    ensures ApplyRules("ESA社區", SortByLength(EsaRules)) == "Exa Search"
  {
    EsaSorted();
    EsaStep1();
    EsaStep2();
    EsaStep3();
    EsaStep4();
    Chain4("ESA社區", "ESA社區", "Exa Search", "Exa Search", "Exa Search", EsaSearch, EsaCommunity, EsaGroup, Esa);
  }

  lemma EsaShortStep()
    ensures Replace("ESA社區", "ESA", "Exa") == "Exa社區"
    ensures Replace("Exa社區", "ESA社區", "Exa Search") == "Exa社區"
  {
    ReplaceHere("ESA社區", "ESA", "Exa");
    assert "ESA社區"[3..] == "社區";
    TooLongNotContained("社區", "ESA");
    ReplaceAbsent("社區", "ESA", "Exa");
    MissingChar("Exa社區", "ESA社區", 'S');
    ReplaceAbsent("Exa社區", "ESA社區", "Exa Search");
  }

  /** Had ("ESA", "Exa") run first, the result would be "Exa社區", which
      no later ESA rule matches. */
  lemma EsaShortFirst()
    ensures ApplyRules("ESA社區", [Esa, EsaCommunity]) == "Exa社區"
  {
    EsaShortStep();
    Chain2("ESA社區", "Exa社區", "Exa社區", Esa, EsaCommunity);
  }

  /** In every list holding both rules, the sorted list puts ("ESA社區",
      "Exa Search") before ("ESA", "Exa"). */
  lemma EsaCommunityFirst(rules: seq<Rule>)
    requires EsaCommunity in rules && Esa in rules
    ensures forall i, j ::
              0 <= i < |SortByLength(rules)| && 0 <= j < |SortByLength(rules)| &&
              SortByLength(rules)[i] == EsaCommunity && SortByLength(rules)[j] == Esa
              ==> i < j
  {
    SortedBefore(rules, EsaCommunity, Esa);
  }

  const FindTuning := Rule("Find Tuning", "Fine-tuning")
  const FindTuring := Rule("Find Turing", "Fine-tuning")
  const Turing := Rule("Turing", "tuning")

  /** The three rules as listed in process_srt_global_review.py and
      process_srt_ch4.py. */
  const FindRules := [FindTuning, FindTuring, Turing]

  lemma FindSorted()
    ensures SortByLength(FindRules) == FindRules
  {
    assert FindRules[1..] == [FindTuring, Turing] && FindRules[1..][1..] == [Turing];
    assert [Turing][1..] == [];
    assert SortByLength([Turing]) == [Turing];
    assert SortByLength([FindTuring, Turing]) == [FindTuring, Turing];
  }

  lemma FindStep1()
    ensures Replace("Find Turing", "Find Tuning", "Fine-tuning") == "Find Turing"
  {
    ContainsSameLength("Find Turing", "Find Tuning");
    ReplaceAbsent("Find Turing", "Find Tuning", "Fine-tuning");
  }

  lemma FindStep2()
    ensures Replace("Find Turing", "Find Turing", "Fine-tuning") == "Fine-tuning"
  {
    ReplaceWhole("Find Turing", "Fine-tuning");
  }

  lemma FindStep3()
    ensures Replace("Fine-tuning", "Turing", "tuning") == "Fine-tuning"
  {
    MissingChar("Fine-tuning", "Turing", 'T');
    ReplaceAbsent("Fine-tuning", "Turing", "tuning");
  }

  /** "Find Turing" becomes "Fine-tuning", not "Find tuning". */
  lemma FindTuringExample()
    ensures ApplyRules("Find Turing", SortByLength(FindRules)) == "Fine-tuning"
  {
    FindSorted();
    FindStep1();
    FindStep2();
    FindStep3();
    Chain3("Find Turing", "Find Turing", "Fine-tuning", "Fine-tuning", FindTuning, FindTuring, Turing);
  }

  /** With the chapter-4 additions in any position, both "Find" rules come
      before ("Turing", "tuning") once sorted. */
  lemma FindRulesFirst(rules: seq<Rule>)
    requires FindTuning in rules && FindTuring in rules && Turing in rules
    ensures forall i, j ::
              0 <= i < |SortByLength(rules)| && 0 <= j < |SortByLength(rules)| &&
              SortByLength(rules)[j] == Turing &&
              (SortByLength(rules)[i] == FindTuning || SortByLength(rules)[i] == FindTuring)
              ==> i < j
  {
    SortedBefore(rules, FindTuning, Turing);
    SortedBefore(rules, FindTuring, Turing);
  }

  const Wsl := Rule("WSL", "WSL")
  const Wsl2 := Rule("WSL2", "WSL 2")

  lemma WslSorted()
    ensures SortByLength([Wsl, Wsl2]) == [Wsl2, Wsl]
    ensures SortByLength([Wsl2, Wsl]) == [Wsl2, Wsl]
  {
    assert [Wsl, Wsl2][1..] == [Wsl2] && [Wsl2, Wsl][1..] == [Wsl];
    assert [Wsl2][1..] == [] && [Wsl][1..] == [];
    assert SortByLength([Wsl2]) == [Wsl2];
    assert SortByLength([Wsl]) == [Wsl];
  }

  /** "WSL2" becomes "WSL 2" whichever of the two rules is listed first
      (process_srt.py lists "WSL" first, process_all_srt_ch2.py "WSL2"). */
  lemma WslExample()
    ensures ApplyRules("WSL2", SortByLength([Wsl, Wsl2])) == "WSL 2"
    ensures ApplyRules("WSL2", SortByLength([Wsl2, Wsl])) == "WSL 2"
  {
    WslSorted();
    ReplaceWhole("WSL2", "WSL 2");
    ReplaceIdentity("WSL 2", "WSL");
    Chain2("WSL2", "WSL 2", "WSL 2", Wsl2, Wsl);
  }

  const OnArm := Rule("ON", "ARM")

  lemma PreCorrectStep1()
    ensures PreCorrect("ON的版本") == "ARM 的版本"
  {
    ReplaceWhole("ON的版本", "ARM 的版本");
  }

  lemma PreCorrectStep2()
    ensures Replace("ARM 的版本", "ON", "ARM") == "ARM 的版本"
  {
    MissingChar("ARM 的版本", "ON", 'O');
    ReplaceAbsent("ARM 的版本", "ON", "ARM");
  }

  lemma PreCorrectStep3()
    ensures Replace("ON的版本", "ON", "ARM") == "ARM的版本"
  {
    ReplaceHere("ON的版本", "ON", "ARM");
    assert "ON的版本"[2..] == "的版本";
    MissingChar("的版本", "ON", 'O');
    ReplaceAbsent("的版本", "ON", "ARM");
  }

  /** With the pre-correction "ON的版本" ends as "ARM 的版本"; the
      ("ON", "ARM") rule alone would give "ARM的版本". */
  lemma PreCorrectExample()
    ensures ApplyRules(PreCorrect("ON的版本"), [OnArm]) == "ARM 的版本"
    ensures ApplyRules("ON的版本", [OnArm]) == "ARM的版本"
  {
    PreCorrectStep1();
    PreCorrectStep2();
    PreCorrectStep3();
    Chain1("ARM 的版本", "ARM 的版本", OnArm);
    Chain1("ON的版本", "ARM的版本", OnArm);
  }

  const ReplicateZeabur := Rule("Replicate", "Zeabur")

  /** process_all_srt.py lists ("Replicate", "Zeabur") twice in a row: the
      first pass leaves no "Replicate", and the sorted list gives the same
      result with the second entry removed. */
  lemma ReplicateTwice(s: string, before: seq<Rule>, after: seq<Rule>)
    ensures !Contains(Replace(s, "Replicate", "Zeabur"), "Replicate")
    ensures ApplyRules(s, SortByLength(before + [ReplicateZeabur, ReplicateZeabur] + after)) ==
            ApplyRules(s, SortByLength(before + [ReplicateZeabur] + after))
  {
    assert "Replicate"[0] == 'R' && "Zeabur"[0] == 'Z';
    ReplaceTwice(s, "Replicate", "Zeabur");
    SortedDuplicateIdle(s, before, ReplicateZeabur, after);
  }
}
