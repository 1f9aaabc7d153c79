/** update_course_durations.py: a unit's duration is read from the last
    timestamp of its subtitle file, rounded up to whole minutes (at least
    one), and chapter and course totals are summed from the units. */
module Durations {
  import opened Wrappers
  import opened Chars
  import opened Rules

  // ---------------------------------------------------------------------
  // The pattern (\d{2}):(\d{2}):(\d{2})[,.](\d{3})

  /** The length of every match. */
  const TimestampLength: nat := 12

  predicate DigitsAt(s: string, i: nat, n: nat) {
    i + n <= |s| && forall k :: i <= k < i + n ==> IsDigit(s[k])
  }

  /** The pattern matches at `i`. Only the shape is checked: "75" is an
      acceptable minutes field. */
  predicate IsTimestampAt(s: string, i: nat) {
    i + TimestampLength <= |s| &&
    DigitsAt(s, i, 2) && s[i + 2] == ':' &&
    DigitsAt(s, i + 3, 2) && s[i + 5] == ':' &&
    DigitsAt(s, i + 6, 2) && (s[i + 8] == ',' || s[i + 8] == '.') &&
    DigitsAt(s, i + 9, 3)
  }

  /** `int()` of the `n` digits at `i`. */
  function Number(s: string, i: nat, n: nat): nat
    requires DigitsAt(s, i, n)
    decreases n
  {
    if n == 0 then 0 else Number(s, i, n - 1) * 10 + DigitValue(s[i + n - 1])
  }

  /** The time a match denotes, in milliseconds. */
  function TimestampMs(s: string, i: nat): nat
    requires IsTimestampAt(s, i)
  {
    var hours := Number(s, i, 2);
    var minutes := Number(s, i + 3, 2);
    var seconds := Number(s, i + 6, 2);
    var millis := Number(s, i + 9, 3);
    ((hours * 60 + minutes) * 60 + seconds) * 1000 + millis
  }

  /** `finditer` from `i`: the start of every match, left to right; the
      search goes on after the end of each match. */
  function Matches(s: string, i: nat): (r: seq<nat>)
    ensures forall k :: 0 <= k < |r| ==> i <= r[k] && IsTimestampAt(s, r[k])
    decreases |s| - i
  {
    if i + TimestampLength > |s| then []
    else if IsTimestampAt(s, i) then [i] + Matches(s, i + TimestampLength)
    else Matches(s, i + 1)
  }

  /** The matches do not overlap and come in increasing order. */
  lemma {:induction false} MatchesApart(s: string, i: nat)
    ensures forall a, b :: 0 <= a < b < |Matches(s, i)| ==> Matches(s, i)[a] + TimestampLength <= Matches(s, i)[b]
    decreases |s| - i
  {
    if i + TimestampLength <= |s| {
      if IsTimestampAt(s, i) {
        MatchesApart(s, i + TimestampLength);
        var rest := Matches(s, i + TimestampLength);
        var m := Matches(s, i);
        assert m == [i] + rest;
        forall a, b | 0 <= a < b < |m|
          ensures m[a] + TimestampLength <= m[b]
        {
          assert m[b] == rest[b - 1];
          if a > 0 {
            assert m[a] == rest[a - 1];
          }
        }
      } else {
        MatchesApart(s, i + 1);
      }
    }
  }

  /** Every place from `i` on where the pattern occurs lies inside a match. */
  lemma {:induction false} MatchesCover(s: string, i: nat, p: nat)
    requires i <= p && IsTimestampAt(s, p)
    ensures exists k :: 0 <= k < |Matches(s, i)| && Matches(s, i)[k] <= p < Matches(s, i)[k] + TimestampLength
    decreases |s| - i
  {
    var m := Matches(s, i);
    if IsTimestampAt(s, i) {
      assert m == [i] + Matches(s, i + TimestampLength);
      if p < i + TimestampLength {
        assert m[0] == i;
      } else {
        MatchesCover(s, i + TimestampLength, p);
        var rest := Matches(s, i + TimestampLength);
        var k :| 0 <= k < |rest| && rest[k] <= p < rest[k] + TimestampLength;
        assert m[k + 1] == rest[k];
      }
    } else {
      MatchesCover(s, i + 1, p);
    }
  }

  /** `math.ceil(n / d)` on integers. */
  function CeilDiv(n: nat, d: nat): nat
    requires d > 0
  {
    (n + d - 1) / d
  }

  lemma CeilDivSpec(n: nat, d: nat)
    requires d > 0
    ensures n <= CeilDiv(n, d) * d
    ensures CeilDiv(n, d) == 0 || (CeilDiv(n, d) - 1) * d < n
  {
  }

  /** `parse_duration_from_srt` on the file content: None without a match,
      otherwise the last match rounded up to whole minutes, at least 1. */
  function ParseDuration(content: string): Option<nat> {
    var m := Matches(content, 0);
    if m == [] then None
    else
      var minutes := CeilDiv(TimestampMs(content, m[|m| - 1]), 60000);
      Some(if minutes < 1 then 1 else minutes)
  }

  /** None exactly when the pattern occurs nowhere; otherwise the result
      is the least whole number of minutes, and at least 1, covering the
      last match, and no occurrence starts after that match ends. */
  lemma ParseDurationSpec(content: string)
    ensures ParseDuration(content) == None <==> forall p: nat :: !IsTimestampAt(content, p)
    ensures ParseDuration(content).Some? ==>
              var m := Matches(content, 0);
              var last := m[|m| - 1];
              var minutes := ParseDuration(content).value;
              (forall p: nat :: IsTimestampAt(content, p) ==> p < last + TimestampLength) &&
              1 <= minutes && TimestampMs(content, last) <= minutes * 60000 &&
              (minutes == 1 || (minutes - 1) * 60000 < TimestampMs(content, last))
  {
    var m := Matches(content, 0);
    if m != [] {
      var last := m[|m| - 1];
      CeilDivSpec(TimestampMs(content, last), 60000);
      MatchesApart(content, 0);
      forall p: nat | IsTimestampAt(content, p)
        ensures p < last + TimestampLength
      {
        MatchesCover(content, 0, p);
        var k :| 0 <= k < |m| && m[k] <= p < m[k] + TimestampLength;
        if k < |m| - 1 {
          assert m[k] + TimestampLength <= m[|m| - 1];
        }
      }
    } else {
      forall p: nat | IsTimestampAt(content, p)
        ensures false
      {
        MatchesCover(content, 0, p);
      }
    }
  }

  lemma ExampleMatch()
    ensures IsTimestampAt("00:12:34,500", 0)
    ensures TimestampMs("00:12:34,500", 0) == 754500
  {
  }

  lemma ExampleMatches()
    ensures Matches("00:12:34,500", 0) == [0]
  {
    ExampleMatch();
    assert Matches("00:12:34,500", 12) == [];
  }

  /** `00:12:34,500` is 12 minutes 34.5 seconds and gives 13. */
  lemma Example()
    ensures ParseDuration("00:12:34,500") == Some(13)
  {
    ExampleMatches();
    ExampleMatch();
  }

  /** The minutes field is not range-checked: `00:75:00.000` gives 75. */
  lemma LongMinutesExample()
    ensures ParseDuration("00:75:00.000") == Some(75)
  {
    assert IsTimestampAt("00:75:00.000", 0);
    assert TimestampMs("00:75:00.000", 0) == 4500000;
    assert Matches("00:75:00.000", 12) == [];
    assert Matches("00:75:00.000", 0) == [0];
  }

  lemma ShortMatch()
    ensures IsTimestampAt("00:00:00,001", 0)
    ensures TimestampMs("00:00:00,001", 0) == 1
  {
  }

  lemma ShortMatches()
    ensures Matches("00:00:00,001", 0) == [0]
  {
    ShortMatch();
    assert Matches("00:00:00,001", 12) == [];
  }

  /** Nothing below a minute rounds to 0: `00:00:00,001` gives 1. */
  lemma ShortExample()
    ensures ParseDuration("00:00:00,001") == Some(1)
  {
    ShortMatches();
    ShortMatch();
  }

  /** The search resumes after each match, so a timestamp that begins
      inside the last match is never read. */
  const Overlapping := "00:00:00,000:11:22,333"

  /** The same digits read in two places give the same number. */
  lemma {:induction false} NumberSame(s: string, i: nat, t: string, j: nat, n: nat)
    requires DigitsAt(s, i, n) && DigitsAt(t, j, n)
    requires s[i..i + n] == t[j..j + n]
    ensures Number(s, i, n) == Number(t, j, n)
    decreases n
  {
    if n > 0 {
      assert s[i + n - 1] == s[i..i + n][n - 1] == t[j..j + n][n - 1] == t[j + n - 1];
      assert s[i..i + (n - 1)] == s[i..i + n][..n - 1] == t[j..j + n][..n - 1] == t[j..j + (n - 1)];
      NumberSame(s, i, t, j, n - 1);
    }
  }

  /** Digits copied from `t` at `j` to `s` at `i` are digits there too. */
  lemma DigitsCopy(s: string, i: nat, t: string, j: nat, n: nat)
    requires DigitsAt(t, j, n) && i + n <= |s|
    requires s[i..i + n] == t[j..j + n]
    ensures DigitsAt(s, i, n)
  {
    forall k | i <= k < i + n
      ensures IsDigit(s[k])
    {
      assert s[k] == s[i..i + n][k - i] == t[j..j + n][k - i] == t[j + (k - i)];
    }
  }

  /** A timestamp read from a copy of its twelve characters. */
  lemma TimestampCopy(s: string, i: nat, t: string)
    requires IsTimestampAt(t, 0) && i + TimestampLength <= |s|
    requires s[i..i + TimestampLength] == t[..TimestampLength]
    ensures IsTimestampAt(s, i) && TimestampMs(s, i) == TimestampMs(t, 0)
  {
    var u := s[i..i + TimestampLength];
    assert s[i..i + 2] == u[0..2] == t[0..2];
    assert s[i + 3..i + 5] == u[3..5] == t[3..5];
    assert s[i + 6..i + 8] == u[6..8] == t[6..8];
    assert s[i + 9..i + 12] == u[9..12] == t[9..12];
    assert s[i + 2] == u[2] == t[2] && s[i + 5] == u[5] == t[5] && s[i + 8] == u[8] == t[8];
    DigitsCopy(s, i, t, 0, 2);
    DigitsCopy(s, i + 3, t, 3, 2);
    DigitsCopy(s, i + 6, t, 6, 2);
    DigitsCopy(s, i + 9, t, 9, 3);
    NumberSame(s, i, t, 0, 2);
    NumberSame(s, i + 3, t, 3, 2);
    NumberSame(s, i + 6, t, 6, 2);
    NumberSame(s, i + 9, t, 9, 3);
  }

  lemma OverlapFirst()
    ensures IsTimestampAt(Overlapping, 0) && TimestampMs(Overlapping, 0) == 0
  {
  }

  lemma OverlapSecond()
    ensures IsTimestampAt(Overlapping, 10) && TimestampMs(Overlapping, 10) == 682333
  {
    var t := "00:11:22,333";
    assert IsTimestampAt(t, 0) && TimestampMs(t, 0) == 682333;
    assert Overlapping[10..] == t;
    TimestampCopy(Overlapping, 10, t);
  }

  lemma OverlapMatches()
    ensures Matches(Overlapping, 0) == [0]
  {
    var m := Matches(Overlapping, TimestampLength);
    assert m == [] by {
      assert |Overlapping| == 22;
    }
    assert IsTimestampAt(Overlapping, 0) by {
      OverlapFirst();
    }
  }

  /** `00:11:22,333` starts at offset 10, inside the first match, so the
      result is 1 minute and not 12. */
  lemma OverlapExample()
    ensures IsTimestampAt(Overlapping, 10) && TimestampMs(Overlapping, 10) == 682333
    ensures ParseDuration(Overlapping) == Some(1)
  {
    OverlapMatches();
    OverlapFirst();
    OverlapSecond();
  }

  // ---------------------------------------------------------------------
  // update_courses

  /** A subtitle file in a unit's folder. */
  datatype SrtFile = SrtFile(name: string, content: string)

  /** The fields of a unit the update reads and writes; `duration` is 0 when
      the source has none. */
  datatype Unit = Unit(id: string, contentPath: string, duration: int)

  datatype Chapter = Chapter(units: seq<Unit>, duration: int)

  datatype Course = Course(chapters: seq<Chapter>, estimatedTotalTime: int)

  /** The first file whose name contains the unit id without "unit-";
      failing that the only file, if there is exactly one. */
  function SelectSrt(unitId: string, files: seq<SrtFile>): Option<SrtFile> {
    var short := Replace(unitId, "unit-", "");
    var i := FirstNamed(files, short);
    if i < |files| then Some(files[i])
    else if |files| == 1 then Some(files[0])
    else None
  }

  /** Index of the first file whose name contains `part`, or |files|. */
  function FirstNamed(files: seq<SrtFile>, part: string): (i: nat)
    ensures i <= |files|
    ensures i < |files| ==> Contains(files[i].name, part)
    ensures forall j :: 0 <= j < i ==> !Contains(files[j].name, part)
  {
    if files == [] then 0
    else if Contains(files[0].name, part) then 0
    else 1 + FirstNamed(files[1..], part)
  }

  /** The selection: a name match wins, the first one in listing order;
      a single file is taken without a match; otherwise nothing. */
  lemma SelectSrtSpec(unitId: string, files: seq<SrtFile>)
    ensures var short := Replace(unitId, "unit-", "");
            match SelectSrt(unitId, files)
            case Some(f) =>
              (exists i :: 0 <= i < |files| && files[i] == f && Contains(f.name, short) &&
                 forall j :: 0 <= j < i ==> !Contains(files[j].name, short)) ||
              (|files| == 1 && f == files[0] && !Contains(f.name, short))
            case None =>
              |files| != 1 && forall j :: 0 <= j < |files| ==> !Contains(files[j].name, short)
  {
  }

  /** The duration found for a unit, if any. A unit without a content path
      is not looked up; `listing` gives the .srt files in the folder of a
      content path (empty when the folder does not exist). */
  function FoundDuration(u: Unit, listing: string -> seq<SrtFile>): Option<nat> {
    if u.contentPath == [] then None
    else
      match SelectSrt(u.id, listing(u.contentPath))
      case None => None
      case Some(f) => ParseDuration(f.content)
  }

  /** The unit after the update: the found duration, or unchanged. */
  function UpdatedUnit(u: Unit, listing: string -> seq<SrtFile>): Unit {
    match FoundDuration(u, listing)
    case Some(d) => u.(duration := d)
    case None => u
  }

  function UpdatedUnits(units: seq<Unit>, listing: string -> seq<SrtFile>): (r: seq<Unit>)
    ensures |r| == |units|
  {
    if units == [] then [] else [UpdatedUnit(units[0], listing)] + UpdatedUnits(units[1..], listing)
  }

  function SumUnits(units: seq<Unit>): int {
    if units == [] then 0 else units[0].duration + SumUnits(units[1..])
  }

  function SumChapters(chapters: seq<Chapter>): int {
    if chapters == [] then 0 else chapters[0].duration + SumChapters(chapters[1..])
  }

  /** The chapter after the update. */
  function UpdatedChapter(c: Chapter, listing: string -> seq<SrtFile>): Chapter {
    var units := UpdatedUnits(c.units, listing);
    Chapter(units, SumUnits(units))
  }

  function UpdatedChapters(chapters: seq<Chapter>, listing: string -> seq<SrtFile>): (r: seq<Chapter>)
    ensures |r| == |chapters|
  {
    if chapters == [] then [] else [UpdatedChapter(chapters[0], listing)] + UpdatedChapters(chapters[1..], listing)
  }

  /** The course after `update_courses`. */
  function UpdatedCourse(course: Course, listing: string -> seq<SrtFile>): Course {
    var chapters := UpdatedChapters(course.chapters, listing);
    Course(chapters, SumChapters(chapters))
  }

  lemma {:induction false} UpdatedUnitsAt(units: seq<Unit>, listing: string -> seq<SrtFile>, k: nat)
    requires k < |units|
    ensures UpdatedUnits(units, listing)[k] == UpdatedUnit(units[k], listing)
  {
    if k > 0 {
      UpdatedUnitsAt(units[1..], listing, k - 1);
    }
  }

  lemma {:induction false} UpdatedChaptersAt(chapters: seq<Chapter>, listing: string -> seq<SrtFile>, k: nat)
    requires k < |chapters|
    ensures UpdatedChapters(chapters, listing)[k] == UpdatedChapter(chapters[k], listing)
  {
    if k > 0 {
      UpdatedChaptersAt(chapters[1..], listing, k - 1);
    }
  }

  /** Every unit keeps its id and content path; it takes the found
      duration, or keeps its own when none is found (always when it has
      no content path). */
  lemma UpdatedUnitSpec(u: Unit, listing: string -> seq<SrtFile>)
    ensures UpdatedUnit(u, listing).id == u.id && UpdatedUnit(u, listing).contentPath == u.contentPath
    ensures u.contentPath == [] ==> UpdatedUnit(u, listing) == u
    ensures UpdatedUnit(u, listing).duration == match FoundDuration(u, listing) case Some(d) => d case None => u.duration
    ensures FoundDuration(u, listing).Some? ==> UpdatedUnit(u, listing).duration >= 1
  {
    match FoundDuration(u, listing)
    case Some(d) =>
      assert d >= 1 by {
        var f := SelectSrt(u.id, listing(u.contentPath)).value;
        ParseDurationSpec(f.content);
      }
    case None =>
  }

  /** Every chapter's duration is the sum of its units' durations and the
      course total is the sum of the chapters'. */
  lemma UpdatedCourseSums(course: Course, listing: string -> seq<SrtFile>)
    ensures var c := UpdatedCourse(course, listing);
            |c.chapters| == |course.chapters| &&
            c.estimatedTotalTime == SumChapters(c.chapters) &&
            forall k :: 0 <= k < |c.chapters| ==>
              c.chapters[k].units == UpdatedUnits(course.chapters[k].units, listing) &&
              c.chapters[k].duration == SumUnits(c.chapters[k].units)
  {
    var c := UpdatedCourse(course, listing);
    forall k | 0 <= k < |c.chapters|
      ensures c.chapters[k].units == UpdatedUnits(course.chapters[k].units, listing) &&
              c.chapters[k].duration == SumUnits(c.chapters[k].units)
    {
      UpdatedChaptersAt(course.chapters, listing, k);
    }
  }

  lemma {:induction false} SumUnitsSnoc(units: seq<Unit>, u: Unit)
    ensures SumUnits(units + [u]) == SumUnits(units) + u.duration
  {
    if units == [] {
      assert [] + [u] == [u];
      assert [u][1..] == [];
    } else {
      assert (units + [u])[1..] == units[1..] + [u];
      SumUnitsSnoc(units[1..], u);
    }
  }

  lemma {:induction false} SumChaptersSnoc(chapters: seq<Chapter>, c: Chapter)
    ensures SumChapters(chapters + [c]) == SumChapters(chapters) + c.duration
  {
    if chapters == [] {
      assert [] + [c] == [c];
      assert [c][1..] == [];
    } else {
      assert (chapters + [c])[1..] == chapters[1..] + [c];
      SumChaptersSnoc(chapters[1..], c);
    }
  }

  lemma {:induction false} UpdatedUnitsSnoc(units: seq<Unit>, u: Unit, listing: string -> seq<SrtFile>)
    ensures UpdatedUnits(units + [u], listing) == UpdatedUnits(units, listing) + [UpdatedUnit(u, listing)]
  {
    if units == [] {
      assert [] + [u] == [u];
      assert [u][1..] == [];
    } else {
      assert (units + [u])[1..] == units[1..] + [u];
      UpdatedUnitsSnoc(units[1..], u, listing);
    }
  }

  lemma {:induction false} UpdatedChaptersSnoc(chapters: seq<Chapter>, c: Chapter, listing: string -> seq<SrtFile>)
    ensures UpdatedChapters(chapters + [c], listing) == UpdatedChapters(chapters, listing) + [UpdatedChapter(c, listing)]
  {
    if chapters == [] {
      assert [] + [c] == [c];
      assert [c][1..] == [];
    } else {
      assert (chapters + [c])[1..] == chapters[1..] + [c];
      UpdatedChaptersSnoc(chapters[1..], c, listing);
    }
  }

  /** The inner loop over a chapter's units: `chapter_duration` and the
      updated units. */
  method UpdateChapter(chapter: Chapter, listing: string -> seq<SrtFile>) returns (updated: Chapter)
    ensures updated == UpdatedChapter(chapter, listing)
  {
    var chapterDuration := 0;
    var units: seq<Unit> := [];
    for k := 0 to |chapter.units|
      invariant units == UpdatedUnits(chapter.units[..k], listing)
      invariant chapterDuration == SumUnits(units)
    {
      var unit := chapter.units[k];
      PrefixSnoc(chapter.units, k);
      UpdatedUnitsSnoc(chapter.units[..k], unit, listing);
      var foundDuration := FoundDuration(unit, listing);
      var newUnit := unit;
      if foundDuration.Some? {
        newUnit := unit.(duration := foundDuration.value);
      }
      SumUnitsSnoc(units, newUnit);
      chapterDuration := chapterDuration + newUnit.duration;
      units := units + [newUnit];
    }
    assert chapter.units[..|chapter.units|] == chapter.units;
    updated := Chapter(units, chapterDuration);
  }

  /** `update_courses` on the loaded course data. */
  method UpdateCourses(course: Course, listing: string -> seq<SrtFile>) returns (updated: Course)
    ensures updated == UpdatedCourse(course, listing)
  {
    var totalCourseDuration := 0;
    var chapters: seq<Chapter> := [];
    for k := 0 to |course.chapters|
      invariant chapters == UpdatedChapters(course.chapters[..k], listing)
      invariant totalCourseDuration == SumChapters(chapters)
    {
      var chapter := UpdateChapter(course.chapters[k], listing);
      assert course.chapters[..k + 1] == course.chapters[..k] + [course.chapters[k]];
      UpdatedChaptersSnoc(course.chapters[..k], course.chapters[k], listing);
      SumChaptersSnoc(chapters, chapter);
      totalCourseDuration := totalCourseDuration + chapter.duration;
      chapters := chapters + [chapter];
    }
    assert course.chapters[..|course.chapters|] == course.chapters;
    updated := Course(chapters, totalCourseDuration);
  }
}
