/** app.js: the pure helpers and the small state changes of the course
    viewer — time formatting, the flat unit list and its navigation, the
    completed-units toggle, the study timer, image paths and quizzes. */
module Viewer {
  import opened Wrappers
  import opened Chars
  import opened Rules

  // ---------------------------------------------------------------------
  // formatTime

  function DigitChar(d: nat): (c: char)
    requires d < 10
    ensures IsDigit(c)
  {
    ('0' as int + d) as char
  }

  predicate AllDigits(s: string) {
    forall k :: 0 <= k < |s| ==> IsDigit(s[k])
  }

  /** The number a string of decimal digits denotes. */
  function DigitsValue(s: string): nat
    requires AllDigits(s)
    decreases |s|
  {
    if s == [] then 0 else DigitsValue(s[..|s| - 1]) * 10 + DigitValue(s[|s| - 1])
  }

  /** `n.toString()` for a whole number. */
  function NatToString(n: nat): (s: string)
    ensures s != [] && AllDigits(s)
    decreases n
  {
    if n < 10 then [DigitChar(n)] else NatToString(n / 10) + [DigitChar(n % 10)]
  }

  lemma {:induction false} NatToStringValue(n: nat)
    ensures DigitsValue(NatToString(n)) == n
    decreases n
  {
    if n >= 10 {
      NatToStringValue(n / 10);
      var s := NatToString(n);
      assert s[..|s| - 1] == NatToString(n / 10);
    }
  }

  lemma {:induction false} NatToStringShort(n: nat)
    requires n < 100
    ensures |NatToString(n)| <= 2
  {
    if n >= 10 {
      assert NatToString(n) == NatToString(n / 10) + [DigitChar(n % 10)];
    }
  }

  function Zeros(n: nat): (z: string)
    ensures |z| == n && AllDigits(z)
  {
    if n == 0 then [] else "0" + Zeros(n - 1)
  }

  /** `s.padStart(2, '0')` */
  function Pad2(s: string): string {
    if |s| >= 2 then s else Zeros(2 - |s|) + s
  }

  lemma {:induction false} LeadingZerosValue(z: nat, s: string)
    requires AllDigits(s)
    ensures AllDigits(Zeros(z) + s)
    ensures DigitsValue(Zeros(z) + s) == DigitsValue(s)
    decreases |s|
  {
    var t := Zeros(z) + s;
    if s == [] {
      assert t == Zeros(z);
      ZerosValue(z);
    } else {
      var init := s[..|s| - 1];
      LeadingZerosValue(z, init);
      assert t[..|t| - 1] == Zeros(z) + init;
    }
  }

  lemma {:induction false} ZerosValue(n: nat)
    ensures DigitsValue(Zeros(n)) == 0
  {
    if n > 0 {
      var z := Zeros(n);
      assert z == Zeros(n - 1) + "0" by {
        ZerosSnoc(n);
      }
      assert z[..|z| - 1] == Zeros(n - 1);
      ZerosValue(n - 1);
    }
  }

  lemma {:induction false} ZerosSnoc(n: nat)
    requires n > 0
    ensures Zeros(n) == Zeros(n - 1) + "0"
  {
    if n > 1 {
      ZerosSnoc(n - 1);
    }
  }

  /** A padded field keeps its value, has at least two digits, and exactly
      two when the value is below 100. */
  lemma Pad2Spec(n: nat)
    ensures AllDigits(Pad2(NatToString(n)))
    ensures DigitsValue(Pad2(NatToString(n))) == n
    ensures |Pad2(NatToString(n))| >= 2
    ensures n < 100 ==> |Pad2(NatToString(n))| == 2
  {
    var s := NatToString(n);
    NatToStringValue(n);
    if |s| < 2 {
      LeadingZerosValue(2 - |s|, s);
    }
    if n < 100 {
      NatToStringShort(n);
    }
  }

  /** `formatTime(seconds)`: hours, minutes and seconds, each padded to two
      digits, joined by colons. */
  function FormatTime(seconds: nat): string {
    var hours := seconds / 3600;
    var minutes := (seconds % 3600) / 60;
    var secs := seconds % 60;
    Join(":", [Pad2(NatToString(hours)), Pad2(NatToString(minutes)), Pad2(NatToString(secs))])
  }

  /** Reading the three fields back gives h·3600 + m·60 + s = seconds,
      with m and s below 60 and written with exactly two digits. */
  lemma FormatTimeSpec(seconds: nat)
    ensures var f := SplitOn(FormatTime(seconds), ":");
            |f| == 3 && AllDigits(f[0]) && AllDigits(f[1]) && AllDigits(f[2]) &&
            |f[0]| >= 2 && |f[1]| == 2 && |f[2]| == 2 &&
            DigitsValue(f[1]) < 60 && DigitsValue(f[2]) < 60 &&
            DigitsValue(f[0]) * 3600 + DigitsValue(f[1]) * 60 + DigitsValue(f[2]) == seconds
  {
    var hours := seconds / 3600;
    var minutes := (seconds % 3600) / 60;
    var secs := seconds % 60;
    var fields := [Pad2(NatToString(hours)), Pad2(NatToString(minutes)), Pad2(NatToString(secs))];
    Pad2Spec(hours);
    Pad2Spec(minutes);
    Pad2Spec(secs);
    forall i | 0 <= i < |fields|
      ensures ':' !in fields[i]
    {
      assert AllDigits(fields[i]);
    }
    SplitOnJoin(fields, ':');
  }

  // ---------------------------------------------------------------------
  // flatUnits (loadCourseData)

  datatype Unit = Unit(id: string, title: string)

  datatype Chapter = Chapter(id: string, title: string, units: seq<Unit>)

  /** A unit of `flatUnits`: the unit with its chapter's id and title. */
  datatype FlatUnit = FlatUnit(unit: Unit, chapterId: string, chapterTitle: string)

  function Tagged(c: Chapter): (r: seq<FlatUnit>)
    ensures |r| == |c.units|
    ensures forall k :: 0 <= k < |r| ==> r[k] == FlatUnit(c.units[k], c.id, c.title)
  {
    seq(|c.units|, k requires 0 <= k < |c.units| => FlatUnit(c.units[k], c.id, c.title))
  }

  /** The chapters' units, chapter by chapter, in order. */
  function Flatten(chapters: seq<Chapter>): seq<FlatUnit> {
    if chapters == [] then [] else Tagged(chapters[0]) + Flatten(chapters[1..])
  }

  /** Number of units in the chapters before `ci`. */
  function Offset(chapters: seq<Chapter>, ci: nat): nat
    requires ci <= |chapters|
  {
    if ci == 0 then 0 else Offset(chapters, ci - 1) + |chapters[ci - 1].units|
  }

  lemma {:induction false} FlattenSnoc(chapters: seq<Chapter>, c: Chapter)
    ensures Flatten(chapters + [c]) == Flatten(chapters) + Tagged(c)
  {
    if chapters == [] {
      assert [] + [c] == [c];
    } else {
      assert (chapters + [c])[1..] == chapters[1..] + [c];
      FlattenSnoc(chapters[1..], c);
    }
  }

  lemma {:induction false} FlattenPrefix(chapters: seq<Chapter>, ci: nat)
    requires ci <= |chapters|
    ensures |Flatten(chapters[..ci])| == Offset(chapters, ci)
  {
    if ci > 0 {
      FlattenPrefix(chapters, ci - 1);
      assert chapters[..ci] == chapters[..ci - 1] + [chapters[ci - 1]];
      FlattenSnoc(chapters[..ci - 1], chapters[ci - 1]);
    }
  }

  lemma {:induction false} FlattenAppend(xs: seq<Chapter>, ys: seq<Chapter>)
    ensures Flatten(xs + ys) == Flatten(xs) + Flatten(ys)
  {
    if xs == [] {
      assert xs + ys == ys;
    } else {
      assert (xs + ys)[1..] == xs[1..] + ys;
      FlattenAppend(xs[1..], ys);
    }
  }

  /** Unit `ui` of chapter `ci` sits at the chapter's offset plus `ui`,
      tagged with that chapter, and the list is exactly that long. */
  lemma FlattenAt(chapters: seq<Chapter>, ci: nat, ui: nat)
    requires ci < |chapters| && ui < |chapters[ci].units|
    ensures Offset(chapters, ci) + ui < |Flatten(chapters)|
    ensures Flatten(chapters)[Offset(chapters, ci) + ui] ==
            FlatUnit(chapters[ci].units[ui], chapters[ci].id, chapters[ci].title)
  {
    assert chapters == chapters[..ci] + ([chapters[ci]] + chapters[ci + 1..]);
    FlattenAppend(chapters[..ci], [chapters[ci]] + chapters[ci + 1..]);
    FlattenPrefix(chapters, ci);
    assert Flatten([chapters[ci]] + chapters[ci + 1..]) == Tagged(chapters[ci]) + Flatten(chapters[ci + 1..]);
  }

  /** The nested `forEach` of `loadCourseData` pushing into `flatUnits`. */
  method LoadFlatUnits(chapters: seq<Chapter>) returns (flatUnits: seq<FlatUnit>)
    ensures flatUnits == Flatten(chapters)
  {
    flatUnits := [];
    for ci := 0 to |chapters|
      invariant flatUnits == Flatten(chapters[..ci])
    {
      var chapter := chapters[ci];
      ghost var before := flatUnits;
      for ui := 0 to |chapter.units|
        invariant flatUnits == before + Tagged(chapter)[..ui]
      {
        assert Tagged(chapter)[..ui + 1] == Tagged(chapter)[..ui] + [Tagged(chapter)[ui]];
        flatUnits := flatUnits + [FlatUnit(chapter.units[ui], chapter.id, chapter.title)];
      }
      assert Tagged(chapter)[..|chapter.units|] == Tagged(chapter);
      PrefixSnoc(chapters, ci);
      FlattenSnoc(chapters[..ci], chapter);
    }
    assert chapters[..|chapters|] == chapters;
  }

  // ---------------------------------------------------------------------
  // Previous and next unit

  /** `flatUnits.findIndex(u => u.id === unitId)` */
  function FindIndex(flat: seq<FlatUnit>, unitId: string): (i: int)
    ensures -1 <= i < |flat|
    ensures i >= 0 ==> flat[i].unit.id == unitId && forall j :: 0 <= j < i ==> flat[j].unit.id != unitId
    ensures i == -1 ==> forall j :: 0 <= j < |flat| ==> flat[j].unit.id != unitId
  {
    if flat == [] then -1
    else if flat[0].unit.id == unitId then 0
    else
      var i := FindIndex(flat[1..], unitId);
      if i == -1 then -1 else i + 1
  }

  /** The unit the "previous" button leads to, when it is enabled. */
  function PrevUnit(flat: seq<FlatUnit>, unitId: string): Option<FlatUnit> {
    var i := FindIndex(flat, unitId);
    if i > 0 then Some(flat[i - 1]) else None
  }

  /** The unit the "next" button leads to, when it is enabled. */
  function NextUnit(flat: seq<FlatUnit>, unitId: string): Option<FlatUnit> {
    var i := FindIndex(flat, unitId);
    if i < |flat| - 1 then Some(flat[i + 1]) else None
  }

  /** "Previous" is enabled exactly when the index is above 0 and "next"
      exactly when it is below the last; an unknown id has index -1, so
      "next" then leads to the first unit. */
  lemma NavigationSpec(flat: seq<FlatUnit>, unitId: string)
    ensures PrevUnit(flat, unitId).Some? <==> FindIndex(flat, unitId) > 0
    ensures NextUnit(flat, unitId).Some? <==> FindIndex(flat, unitId) < |flat| - 1
    ensures (forall j :: 0 <= j < |flat| ==> flat[j].unit.id != unitId) && flat != [] ==>
              NextUnit(flat, unitId) == Some(flat[0])
  {
  }

  predicate DistinctIds(flat: seq<FlatUnit>) {
    forall a, b :: 0 <= a < b < |flat| ==> flat[a].unit.id != flat[b].unit.id
  }

  lemma FindIndexDistinct(flat: seq<FlatUnit>, k: nat)
    requires DistinctIds(flat) && k < |flat|
    ensures FindIndex(flat, flat[k].unit.id) == k
  {
    var i := FindIndex(flat, flat[k].unit.id);
    assert i != -1;
  }

  /** With distinct ids, going to the next unit and then to the previous
      one comes back, and the other way round. */
  lemma NextThenPrev(flat: seq<FlatUnit>, k: nat)
    requires DistinctIds(flat) && k < |flat|
    ensures NextUnit(flat, flat[k].unit.id).Some? ==>
              PrevUnit(flat, NextUnit(flat, flat[k].unit.id).value.unit.id) == Some(flat[k])
    ensures PrevUnit(flat, flat[k].unit.id).Some? ==>
              NextUnit(flat, PrevUnit(flat, flat[k].unit.id).value.unit.id) == Some(flat[k])
  {
    FindIndexDistinct(flat, k);
    if k + 1 < |flat| {
      FindIndexDistinct(flat, k + 1);
    }
    if k > 0 {
      FindIndexDistinct(flat, k - 1);
    }
  }

  /** What `updateNavigationButtons` shows: each button's state and title. */
  datatype Buttons = Buttons(prevEnabled: bool, prevTitle: string, nextEnabled: bool, nextTitle: string)

  function NavigationButtons(flat: seq<FlatUnit>, unitId: string): Buttons {
    var prev := PrevUnit(flat, unitId);
    var next := NextUnit(flat, unitId);
    Buttons(prev.Some?, if prev.Some? then prev.value.unit.title else "-",
            next.Some?, if next.Some? then next.value.unit.title else "-")
  }

  /** The unit `handleKeyNavigation` moves to: none without a current
      unit, and otherwise the same neighbours as the buttons. */
  function KeyTarget(flat: seq<FlatUnit>, currentUnitId: Option<string>, key: string): Option<string> {
    if currentUnitId.None? || currentUnitId.value == [] then None
    else if key == "ArrowLeft" then
      (var p := PrevUnit(flat, currentUnitId.value); if p.Some? then Some(p.value.unit.id) else None)
    else if key == "ArrowRight" then
      (var n := NextUnit(flat, currentUnitId.value); if n.Some? then Some(n.value.unit.id) else None)
    else None
  }

  /** The arrow keys go where the enabled buttons go, and nowhere when a
      button is disabled. */
  lemma KeysMatchButtons(flat: seq<FlatUnit>, unitId: string)
    requires unitId != []
    ensures var b := NavigationButtons(flat, unitId);
            (KeyTarget(flat, Some(unitId), "ArrowLeft").Some? <==> b.prevEnabled) &&
            (KeyTarget(flat, Some(unitId), "ArrowRight").Some? <==> b.nextEnabled) &&
            (b.prevEnabled ==> KeyTarget(flat, Some(unitId), "ArrowLeft").value == flat[FindIndex(flat, unitId) - 1].unit.id) &&
            (b.nextEnabled ==> KeyTarget(flat, Some(unitId), "ArrowRight").value == flat[FindIndex(flat, unitId) + 1].unit.id)
  {
  }

  // ---------------------------------------------------------------------
  // Completed units and the study timer

  /** `xs.indexOf(x)` */
  function IndexOf(xs: seq<string>, x: string): (i: int)
    ensures -1 <= i < |xs|
    ensures i >= 0 ==> xs[i] == x && x !in xs[..i]
    ensures i == -1 <==> x !in xs
  {
    if xs == [] then -1
    else if xs[0] == x then 0
    else
      var i := IndexOf(xs[1..], x);
      assert i >= 0 ==> xs[..i + 1] == [xs[0]] + xs[1..][..i];
      if i == -1 then -1 else i + 1
  }

  /** The completed list after `toggleUnitComplete`: unchanged without a
      current unit; otherwise the first occurrence of the unit removed, or
      the unit appended when absent. */
  function Toggled(completed: seq<string>, currentUnitId: Option<string>): seq<string> {
    if currentUnitId.None? || currentUnitId.value == [] then completed
    else
      var i := IndexOf(completed, currentUnitId.value);
      if i > -1 then completed[..i] + completed[i + 1..] else completed + [currentUnitId.value]
  }

  predicate Distinct(xs: seq<string>) {
    forall a, b :: 0 <= a < b < |xs| ==> xs[a] != xs[b]
  }

  /** Removing the entry at `i` of a list without duplicates removes
      exactly that unit. */
  lemma RemovedMembers(xs: seq<string>, i: nat)
    requires Distinct(xs) && i < |xs|
    ensures forall x :: x in xs[..i] + xs[i + 1..] <==> x in xs && x != xs[i]
  {
    var t := xs[..i] + xs[i + 1..];
    forall x ensures x in t <==> x in xs && x != xs[i]
    {
      if x in xs && x != xs[i] {
        var k :| 0 <= k < |xs| && xs[k] == x;
        if k < i {
          assert t[k] == x;
        } else {
          assert t[k - 1] == x;
        }
      }
      if x in t {
        var k :| 0 <= k < |t| && t[k] == x;
        if k < i {
          assert xs[k] == x;
        } else {
          assert xs[k + 1] == x;
        }
      }
    }
  }

  /** Removing an entry keeps a list free of duplicates. */
  lemma RemovedDistinct(xs: seq<string>, i: nat)
    requires Distinct(xs) && i < |xs|
    ensures Distinct(xs[..i] + xs[i + 1..])
  {
    var t := xs[..i] + xs[i + 1..];
    forall a, b | 0 <= a < b < |t|
      ensures t[a] != t[b]
    {
      var a' := if a < i then a else a + 1;
      var b' := if b < i then b else b + 1;
      assert t[a] == xs[a'] && t[b] == xs[b'];
    }
  }

  /** On a list without duplicates the toggle flips the membership of the
      current unit, keeps every other unit, and keeps the list free of
      duplicates. */
  lemma ToggledSpec(completed: seq<string>, id: string)
    requires Distinct(completed) && id != []
    ensures forall x :: x in Toggled(completed, Some(id)) <==> (if x == id then id !in completed else x in completed)
    ensures Distinct(Toggled(completed, Some(id)))
  {
    var i := IndexOf(completed, id);
    var t := Toggled(completed, Some(id));
    if i > -1 {
      assert t == completed[..i] + completed[i + 1..];
      RemovedMembers(completed, i);
      RemovedDistinct(completed, i);
    } else {
      assert t == completed + [id];
      assert forall a :: 0 <= a < |completed| ==> t[a] == completed[a];
    }
  }

  /** Without a current unit nothing changes. */
  lemma ToggledNoCurrent(completed: seq<string>, currentUnitId: Option<string>)
    requires currentUnitId.None? || currentUnitId.value == []
    ensures Toggled(completed, currentUnitId) == completed
  {
  }

  /** Toggling the same unit twice restores the set of completed units. */
  lemma ToggleTwice(completed: seq<string>, id: string)
    requires Distinct(completed) && id != []
    ensures forall x :: x in Toggled(Toggled(completed, Some(id)), Some(id)) <==> x in completed
  {
    ToggledSpec(completed, id);
    ToggledSpec(Toggled(completed, Some(id)), id);
  }

  /** The part of `progressData` the toggle and the timer change. */
  class Progress {
    var completedUnits: seq<string>
    var totalStudyTime: nat
    var todayStudyTime: nat

    constructor (completed: seq<string>, total: nat, today: nat)
      ensures completedUnits == completed && totalStudyTime == total && todayStudyTime == today
    {
      completedUnits := completed;
      totalStudyTime := total;
      todayStudyTime := today;
    }

    /** `toggleUnitComplete` on the list (the UI updates are left out). */
    method ToggleUnitComplete(currentUnitId: Option<string>)
      modifies this
      ensures completedUnits == Toggled(old(completedUnits), currentUnitId)
      ensures totalStudyTime == old(totalStudyTime) && todayStudyTime == old(todayStudyTime)
    {
      if currentUnitId.None? || currentUnitId.value == [] {
        return;
      }
      var id := currentUnitId.value;
      var index := IndexOf(completedUnits, id);
      if index > -1 {
        completedUnits := completedUnits[..index] + completedUnits[index + 1..];
      } else {
        completedUnits := completedUnits + [id];
      }
    }

    /** One second of the study timer: both counters advance only while
        the page is visible; `save` says whether the progress is saved. */
    method Tick(isPageVisible: bool) returns (save: bool)
      modifies this
      ensures completedUnits == old(completedUnits)
      ensures !isPageVisible ==> totalStudyTime == old(totalStudyTime) && todayStudyTime == old(todayStudyTime) && !save
      ensures isPageVisible ==> totalStudyTime == old(totalStudyTime) + 1 && todayStudyTime == old(todayStudyTime) + 1
      ensures save <==> isPageVisible && totalStudyTime % 30 == 0
    {
      save := false;
      if !isPageVisible {
        return;
      }
      totalStudyTime := totalStudyTime + 1;
      todayStudyTime := todayStudyTime + 1;
      if totalStudyTime % 30 == 0 {
        save := true;
      }
    }
  }

  /** The number of saves while the total goes from `total` up by `ticks`
      visible seconds. */
  function Saves(total: nat, ticks: nat): nat
    decreases ticks
  {
    if ticks == 0 then 0 else Saves(total, ticks - 1) + (if (total + ticks) % 30 == 0 then 1 else 0)
  }

  /** The progress is saved once per 30 seconds of total study time. */
  lemma {:induction false} SavesEvery30(total: nat, ticks: nat)
    ensures Saves(total, ticks) == (total + ticks) / 30 - total / 30
    decreases ticks
  {
    if ticks > 0 {
      SavesEvery30(total, ticks - 1);
      var n := total + ticks;
      if n % 30 == 0 {
        assert n / 30 == (n - 1) / 30 + 1;
      } else {
        assert n / 30 == (n - 1) / 30;
      }
    }
  }

  // ---------------------------------------------------------------------
  // processContentImages

  /** `s.lastIndexOf(c)` */
  function LastIndexOf(s: string, c: char): (i: int)
    ensures -1 <= i < |s|
    ensures i >= 0 ==> s[i] == c
    ensures forall k :: i < k < |s| ==> s[k] != c
    decreases |s|
  {
    if s == [] then -1
    else if s[|s| - 1] == c then |s| - 1
    else LastIndexOf(s[..|s| - 1], c)
  }

  /** The content file's directory: everything up to and including the
      last `/`, or nothing. */
  function BasePath(contentPath: string): string {
    contentPath[..LastIndexOf(contentPath, '/') + 1]
  }

  /** A relative `src` — non-empty and starting with neither "http" nor
      "/" — is resolved against the content's directory. */
  function ImageSrc(src: string, contentPath: string): string {
    if src != [] && !StartsWith(src, "http") && !StartsWith(src, "/") then BasePath(contentPath) + src else src
  }

  /** The base path is a prefix of the content path that is empty exactly
      when there is no `/`, and otherwise ends at the last `/`. */
  lemma BasePathSpec(contentPath: string)
    ensures var b := BasePath(contentPath);
            contentPath[..|b|] == b &&
            (b == [] <==> '/' !in contentPath) &&
            (b != [] ==> b[|b| - 1] == '/') &&
            '/' !in contentPath[|b|..]
  {
    var b := BasePath(contentPath);
    var i := LastIndexOf(contentPath, '/');
    if '/' in contentPath {
      var k :| 0 <= k < |contentPath| && contentPath[k] == '/';
      assert i >= k;
    }
    assert forall k :: 0 <= k < |contentPath| - |b| ==> contentPath[|b|..][k] == contentPath[|b| + k];
  }

  /** The path is rewritten exactly for relative sources, by prefixing the
      base path; any other source is left alone. */
  lemma ImageSrcSpec(src: string, contentPath: string)
    ensures var relative := src != [] && !StartsWith(src, "http") && !StartsWith(src, "/");
            (relative ==> ImageSrc(src, contentPath) == BasePath(contentPath) + src) &&
            (!relative ==> ImageSrc(src, contentPath) == src)
    ensures var r := ImageSrc(src, contentPath);
            |r| >= |src| && r[|r| - |src|..] == src
  {
  }

  // ---------------------------------------------------------------------
  // Quizzes

  const Unchecked: string := "- [ ]"
  const Checked: string := "- [x]"

  /** A line of a plain-text quiz paragraph: an option or any other line. */
  datatype QuizLine = OptionLine(text: string, correct: bool) | PlainLine(line: string)

  /** How `processTextQuizOptions` reads a line. */
  function Classify(line: string): QuizLine {
    if Contains(line, Unchecked) || Contains(line, Checked) then
      OptionLine(Strip(ReplaceFirst(ReplaceFirst(line, Checked, ""), Unchecked, "")), Contains(line, Checked))
    else PlainLine(line)
  }

  /** A line is an option exactly when it holds a checkbox marker, and a
      correct one exactly when the marker is checked; a line without
      marker is kept as it is. */
  lemma ClassifySpec(line: string)
    ensures Classify(line).OptionLine? <==> Contains(line, "- [ ]") || Contains(line, "- [x]")
    ensures Classify(line).OptionLine? ==> (Classify(line).correct <==> Contains(line, "- [x]"))
    ensures Classify(line).PlainLine? ==> Classify(line).line == line
  {
  }

  /** The checked marker has no dash after its first character. */
  lemma NoDashInsideChecked(line: string, j: nat, k: nat)
    requires OccursAt(line, Checked, j) && j < k < j + |Checked|
    ensures line[k] != '-'
  {
    assert line[k] == line[j..j + |Checked|][k - j] == Checked[k - j];
  }

  /** A correct option line yields the line without its first checked
      marker, stripped, as long as no marker comes before it and no
      unchecked one is left once it is removed. */
  lemma CheckedOptionText(pre: string, rest: string)
    requires !Contains(pre, Checked) && !Contains(pre + rest, Unchecked)
    ensures Classify(pre + Checked + rest) == OptionLine(Strip(pre + rest), true)
  {
    var line := pre + Checked + rest;
    var k := |pre|;
    assert line[k..k + |Checked|] == Checked;
    ContainsAt(line, Checked, k);
    forall j: nat | j < k
      ensures !OccursAt(line, Checked, j)
    {
      if j + |Checked| <= k {
        if OccursAt(line, Checked, j) {
          assert pre[j..j + |Checked|] == line[j..j + |Checked|];
          ContainsAt(pre, Checked, j);
          assert false;
        }
      } else if OccursAt(line, Checked, j) {
        NoDashInsideChecked(line, j, k);
        assert false;
      }
    }
    assert FirstAt(line, Checked, k);
    var once := ReplaceFirst(line, Checked, "");
    var i: nat :| FirstAt(line, Checked, i) && once == line[..i] + "" + line[i + |Checked|..];
    assert i == k by {
      assert !(i < k) && !(k < i);
    }
    assert line[..k] == pre && line[k + |Checked|..] == rest;
    assert once == pre + rest;
  }

  function Render(q: QuizLine): string {
    match q
    case OptionLine(text, correct) =>
      "<div class=\"quiz-item\"><span class=\"quiz-option " + (if correct then "correct" else "incorrect") +
      "\">" + text + "</span></div>"
    case PlainLine(line) => line + "<br>"
  }

  function RenderLines(lines: seq<string>): string {
    if lines == [] then [] else Render(Classify(lines[0])) + RenderLines(lines[1..])
  }

  /** The new content of a quiz paragraph. */
  function QuizContent(content: string): string {
    RenderLines(SplitOn(content, "<br>"))
  }

  lemma {:induction false} RenderLinesSnoc(lines: seq<string>, line: string)
    ensures RenderLines(lines + [line]) == RenderLines(lines) + Render(Classify(line))
  {
    if lines == [] {
      assert [] + [line] == [line];
    } else {
      assert (lines + [line])[1..] == lines[1..] + [line];
      RenderLinesSnoc(lines[1..], line);
    }
  }

  lemma {:induction false} RenderPlainLines(lines: seq<string>)
    requires lines != []
    requires forall k :: 0 <= k < |lines| ==> Classify(lines[k]).PlainLine?
    ensures RenderLines(lines) == Join("<br>", lines) + "<br>"
  {
    if |lines| > 1 {
      RenderPlainLines(lines[1..]);
    }
  }

  /** A paragraph without options only gains a trailing `<br>`. */
  lemma NoOptionsUnchanged(content: string)
    requires forall k :: 0 <= k < |SplitOn(content, "<br>")| ==> Classify(SplitOn(content, "<br>")[k]).PlainLine?
    ensures QuizContent(content) == content + "<br>"
  {
    RenderPlainLines(SplitOn(content, "<br>"));
    JoinSplitOn(content, "<br>");
  }

  /** `processTextQuizOptions`: the `forEach` building `newContent`. */
  method ProcessTextQuizOptions(content: string) returns (newContent: string)
    ensures newContent == QuizContent(content)
  {
    var lines := SplitOn(content, "<br>");
    newContent := "";
    for k := 0 to |lines|
      invariant newContent == RenderLines(lines[..k])
    {
      var line := lines[k];
      PrefixSnoc(lines, k);
      RenderLinesSnoc(lines[..k], line);
      if Contains(line, "- [ ]") || Contains(line, "- [x]") {
        var isCorrect := Contains(line, "- [x]");
        var cleanLine := Strip(ReplaceFirst(ReplaceFirst(line, "- [x]", ""), "- [ ]", ""));
        assert Classify(line) == OptionLine(cleanLine, isCorrect);
        var item := "<div class=\"quiz-item\"><span class=\"quiz-option " +
                    (if isCorrect then "correct" else "incorrect") + "\">" + cleanLine + "</span></div>";
        assert item == Render(Classify(line));
        newContent := newContent + item;
      } else {
        assert Classify(line) == PlainLine(line);
        assert line + "<br>" == Render(Classify(line));
        newContent := newContent + (line + "<br>");
      }
    }
    assert lines[..|lines|] == lines;
  }

  /** What a quiz block shows: whether it is revealed, the options marked
      selected, and the result messages added (true for "correct"). */
  datatype QuizState = QuizState(revealed: bool, selected: set<nat>, results: seq<bool>)

  /** `handleQuizOptionClick` on option `option`. */
  function Click(st: QuizState, option: nat, correct: bool): QuizState {
    if st.revealed then st
    else QuizState(true, st.selected + {option}, st.results + [correct])
  }

  function Clicks(st: QuizState, clicks: seq<(nat, bool)>): QuizState
    decreases |clicks|
  {
    if clicks == [] then st else Clicks(Click(st, clicks[0].0, clicks[0].1), clicks[1..])
  }

  lemma {:induction false} ClicksRevealed(st: QuizState, clicks: seq<(nat, bool)>)
    requires st.revealed
    ensures Clicks(st, clicks) == st
    decreases |clicks|
  {
    if clicks != [] {
      ClicksRevealed(st, clicks[1..]);
    }
  }

  /** Only the first click on a fresh block counts: afterwards the block is
      revealed, that option alone is selected and one result is shown. */
  lemma FirstClickOnly(clicks: seq<(nat, bool)>)
    requires clicks != []
    ensures Clicks(QuizState(false, {}, []), clicks) == QuizState(true, {clicks[0].0}, [clicks[0].1])
  {
    var st := Click(QuizState(false, {}, []), clicks[0].0, clicks[0].1);
    ClicksRevealed(st, clicks[1..]);
  }

  /** A quiz block in the page. */
  class QuizBlock {
    var revealed: bool
    var selected: set<nat>
    var results: seq<bool>

    constructor ()
      ensures revealed == false && selected == {} && results == []
    {
      revealed := false;
      selected := {};
      results := [];
    }

    function State(): QuizState
      reads this
    {
      QuizState(revealed, selected, results)
    }

    /** `handleQuizOptionClick`: nothing once revealed; otherwise reveal,
        mark the option and add the result message. */
    method HandleQuizOptionClick(option: nat, isCorrect: bool)
      modifies this
      ensures State() == Click(old(State()), option, isCorrect)
    {
      if revealed {
        return;
      }
      revealed := true;
      selected := selected + {option};
      results := results + [isCorrect];
    }
  }
}
