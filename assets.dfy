/** generate_missing_assets.py: a plain-text preview taken from a subtitle
    file, and the list of unit folders that still need a cover image. */
module Assets {
  import opened Chars
  import opened Srt

  // ---------------------------------------------------------------------
  // generate_summary_from_srt

  /** The preview is cut to this many characters. */
  const PreviewLength: nat := 1000

  /** The first blank line at or after `i`, or |ls|: the text collection
      after a header stops only there. */
  function BlankEnd(ls: seq<string>, i: nat): (e: nat)
    requires i <= |ls|
    ensures i <= e <= |ls|
    ensures forall k :: i <= k < e ==> ls[k] != []
    ensures e < |ls| ==> ls[e] == []
    decreases |ls| - i
  {
    if i == |ls| || ls[i] == [] then i else BlankEnd(ls, i + 1)
  }

  /** The text lines collected from line `i` on: after every header its
      index and timecode lines are passed over and the lines up to the
      next blank one are taken; every other line is passed over. */
  function TextLines(ls: seq<string>, i: nat): seq<string>
    requires i <= |ls|
    decreases |ls| - i
  {
    if i == |ls| then []
    else if IsHeaderAt(ls, i) then
      var e := BlankEnd(ls, i + 2);
      ls[i + 2..e] + TextLines(ls, e)
    else TextLines(ls, i + 1)
  }

  /** `s[:n]` */
  function Take(s: string, n: nat): (r: string)
    ensures |r| <= n && |r| <= |s|
    ensures |r| == n || |r| == |s|
    ensures r == s[..|r|]
  {
    if |s| <= n then s else s[..n]
  }

  /** What `generate_summary_from_srt` returns for a file's content. */
  function Summary(content: string): string {
    var ls := StripAll(SplitLines(content));
    Take(Concat(TextLines(ls, 0)), PreviewLength)
  }

  /** The preview is the first 1000 characters of the collected text lines
      joined with nothing between them, or all of it when shorter. */
  lemma SummarySpec(content: string)
    ensures var full := Concat(TextLines(StripAll(SplitLines(content)), 0));
            |Summary(content)| <= PreviewLength &&
            Summary(content) == full[..|Summary(content)|] &&
            (|Summary(content)| == PreviewLength || Summary(content) == full)
  {
  }

  /** No collected line is blank. */
  lemma {:induction false} TextLinesNonEmpty(ls: seq<string>, i: nat)
    requires i <= |ls|
    ensures forall k :: 0 <= k < |TextLines(ls, i)| ==> TextLines(ls, i)[k] != []
    decreases |ls| - i
  {
    if i < |ls| {
      if IsHeaderAt(ls, i) {
        var e := BlankEnd(ls, i + 2);
        TextLinesNonEmpty(ls, e);
      } else {
        TextLinesNonEmpty(ls, i + 1);
      }
    }
  }

  /** Lines outside subtitle blocks are passed over: without a header from
      `i` on nothing is collected. */
  lemma {:induction false} NoHeaderNoText(ls: seq<string>, i: nat)
    requires i <= |ls|
    requires forall k :: i <= k < |ls| ==> !IsHeaderAt(ls, k)
    ensures TextLines(ls, i) == []
    decreases |ls| - i
  {
    if i < |ls| {
      NoHeaderNoText(ls, i + 1);
    }
  }

  /** The lines between a header and the next blank line are collected
      whole, even when they are themselves a header: there is no check for
      the next block. */
  lemma BlockCollected(ls: seq<string>, i: nat)
    requires IsHeaderAt(ls, i)
    ensures var e := BlankEnd(ls, i + 2);
            TextLines(ls, i)[..e - (i + 2)] == ls[i + 2..e] &&
            (forall k :: i + 2 <= k < e ==> ls[k] != []) &&
            (e < |ls| ==> ls[e] == [])
  {
    var e := BlankEnd(ls, i + 2);
    assert TextLines(ls, i) == ls[i + 2..e] + TextLines(ls, e);
  }

  /** The inner loop: the stripped lines from `start` up to the next blank
      line, and where it stops. */
  method CollectBlock(lines: seq<string>, start: nat) returns (texts: seq<string>, i: nat)
    requires start <= |lines|
    ensures i == BlankEnd(StripAll(lines), start)
    ensures texts == StripAll(lines)[start..i]
  {
    ghost var ls := StripAll(lines);
    texts := [];
    i := start;
    while i < |lines| && Strip(lines[i]) != []
      invariant start <= i <= |lines|
      invariant BlankEnd(ls, start) == BlankEnd(ls, i)
      invariant texts == ls[start..i]
      decreases |lines| - i
    {
      StripAllAt(lines, i);
      assert ls[start..i + 1] == ls[start..i] + [ls[i]];
      texts := texts + [Strip(lines[i])];
      i := i + 1;
    }
    if i < |lines| {
      StripAllAt(lines, i);
    }
  }

  /** `generate_summary_from_srt` on the content of the file. */
  method GenerateSummary(content: string) returns (summary: string)
    ensures summary == Summary(content)
  {
    var lines := SplitLines(content);
    ghost var ls := StripAll(lines);
    var textLines: seq<string> := [];
    var i := 0;
    while i < |lines|
      invariant i <= |lines|
      invariant textLines + TextLines(ls, i) == TextLines(ls, 0)
      decreases |lines| - i
    {
      var line := Strip(lines[i]);
      StripAllAt(lines, i);
      HeaderTest(lines, i);
      if IsDigits(line) && i + 1 < |lines| && Contains(lines[i + 1], "-->") {
        ghost var header := i;
        var texts;
        texts, i := CollectBlock(lines, i + 2);
        assert TextLines(ls, header) == texts + TextLines(ls, i);
        assert (textLines + texts) + TextLines(ls, i) == textLines + TextLines(ls, header);
        textLines := textLines + texts;
      } else {
        assert TextLines(ls, i) == TextLines(ls, i + 1);
        i := i + 1;
      }
    }
    assert TextLines(ls, i) == [];
    assert textLines == TextLines(ls, 0);
    var fullText := Concat(textLines);
    summary := Take(fullText, PreviewLength);
  }

  /** A well-formed file yields its text lines only, run together. */
  lemma WellFormedExample()
    ensures var ls := ["1", "00:00:01,000 --> 00:00:02,000", "Hello", "",
                       "2", "00:00:03,000 --> 00:00:04,000", "World"];
            TextLines(ls, 0) == ["Hello", "World"]
  {
    var ls := ["1", "00:00:01,000 --> 00:00:02,000", "Hello", "",
               "2", "00:00:03,000 --> 00:00:04,000", "World"];
    assert IsDigits(ls[0]);
    ContainsAt(ls[1], "-->", 13);
    assert BlankEnd(ls, 2) == 3;
    assert !IsDigits(ls[3]);
    assert IsDigits(ls[4]);
    ContainsAt(ls[5], "-->", 13);
    assert BlankEnd(ls, 6) == 7;
    assert TextLines(ls, 7) == [];
    assert ls[6..7] == ["World"];
    assert TextLines(ls, 4) == ["World"];
    assert TextLines(ls, 3) == ["World"];
    assert ls[2..3] == ["Hello"];
    assert TextLines(ls, 0) == ls[2..3] + TextLines(ls, 3);
  }

  /** Without the blank line between two blocks the second block's index
      and timecode are collected as text. */
  lemma MissingSeparatorExample()
    ensures var ls := ["1", "00:00:01,000 --> 00:00:02,000", "Hello",
                       "2", "00:00:03,000 --> 00:00:04,000", "World"];
            TextLines(ls, 0) == ["Hello", "2", "00:00:03,000 --> 00:00:04,000", "World"]
  {
    var ls := ["1", "00:00:01,000 --> 00:00:02,000", "Hello",
               "2", "00:00:03,000 --> 00:00:04,000", "World"];
    assert IsDigits(ls[0]);
    assert ls[1][13..16] == "-->";
    ContainsAt(ls[1], "-->", 13);
    assert BlankEnd(ls, 2) == 6;
    assert ls[2..6] == ["Hello", "2", "00:00:03,000 --> 00:00:04,000", "World"];
  }

  // ---------------------------------------------------------------------
  // main

  /** The chapter folders whose units are processed. */
  const TargetPrefixes: seq<string> := ["3.", "4.", "5.", "6."]

  /** Whether a name starts with one of the target prefixes. */
  predicate IsTarget(name: string) {
    exists k :: 0 <= k < |TargetPrefixes| && StartsWith(name, TargetPrefixes[k])
  }

  /** A chapter folder is processed exactly when its name is a digit from
      3 to 6 followed by a dot. */
  lemma IsTargetSpec(name: string)
    ensures IsTarget(name) <==> |name| >= 2 && name[1] == '.' && '3' <= name[0] <= '6'
  {
    if |name| >= 2 && name[1] == '.' && '3' <= name[0] <= '6' {
      var k := (name[0] as int) - ('3' as int);
      assert name[..2] == TargetPrefixes[k];
    }
  }

  /** The loop over `target_prefixes` with its early `break`. */
  method CheckTarget(name: string) returns (isTarget: bool)
    ensures isTarget <==> IsTarget(name)
  {
    isTarget := false;
    for k := 0 to |TargetPrefixes|
      invariant !isTarget <==> forall j :: 0 <= j < k ==> !StartsWith(name, TargetPrefixes[j])
    {
      if StartsWith(name, TargetPrefixes[k]) {
        isTarget := true;
        break;
      }
    }
  }

  /** A unit folder as the listing shows it: whether it is a directory, the
      subtitle files in it (name and content) and how many images it has. */
  datatype UnitDir = UnitDir(name: string, isDir: bool, srtFiles: seq<(string, string)>, images: nat)

  datatype ChapterDir = ChapterDir(name: string, isDir: bool, units: seq<UnitDir>)

  /** An entry of `missing_images_list`: the folder and the preview the
      prompt is made from (the first 100 characters of the summary). */
  datatype MissingImage = MissingImage(chapter: string, unit: string, preview: string)

  /** A unit needs a cover when it is a folder with a subtitle file and no
      image. */
  predicate NeedsCover(u: UnitDir) {
    u.isDir && u.srtFiles != [] && u.images == 0
  }

  function UnitEntries(chapter: string, units: seq<UnitDir>): (r: seq<MissingImage>)
    ensures |r| <= |units|
  {
    if units == [] then []
    else
      var u := units[0];
      var rest := UnitEntries(chapter, units[1..]);
      if NeedsCover(u) then [MissingImage(chapter, u.name, Take(Summary(u.srtFiles[0].1), 100))] + rest
      else rest
  }

  /** `missing_images_list` after the loops in `main`. */
  function MissingImages(chapters: seq<ChapterDir>): seq<MissingImage> {
    if chapters == [] then []
    else
      var c := chapters[0];
      var rest := MissingImages(chapters[1..]);
      if IsTarget(c.name) && c.isDir then UnitEntries(c.name, c.units) + rest else rest
  }

  /** Every entry names a unit that needs a cover, with the preview of its
      first subtitle file. */
  lemma {:induction false} UnitEntriesSpec(chapter: string, units: seq<UnitDir>)
    ensures forall e :: e in UnitEntries(chapter, units) ==>
              e.chapter == chapter &&
              exists k :: 0 <= k < |units| && NeedsCover(units[k]) && e.unit == units[k].name &&
                          e.preview == Take(Summary(units[k].srtFiles[0].1), 100)
  {
    if units != [] {
      UnitEntriesSpec(chapter, units[1..]);
      forall e | e in UnitEntries(chapter, units)
        ensures e.chapter == chapter &&
                exists k :: 0 <= k < |units| && NeedsCover(units[k]) && e.unit == units[k].name &&
                            e.preview == Take(Summary(units[k].srtFiles[0].1), 100)
      {
        if e !in UnitEntries(chapter, units[1..]) {
          assert NeedsCover(units[0]);
        } else {
          var k :| 0 <= k < |units[1..]| && NeedsCover(units[1..][k]) && e.unit == units[1..][k].name &&
                   e.preview == Take(Summary(units[1..][k].srtFiles[0].1), 100);
          assert units[k + 1] == units[1..][k];
        }
      }
    }
  }

  /** Every entry comes from a target chapter folder. */
  lemma {:induction false} MissingImagesTargets(chapters: seq<ChapterDir>)
    ensures forall e :: e in MissingImages(chapters) ==> IsTarget(e.chapter)
  {
    if chapters != [] {
      MissingImagesTargets(chapters[1..]);
      var c := chapters[0];
      if IsTarget(c.name) && c.isDir {
        UnitEntriesSpec(c.name, c.units);
      }
    }
  }

  /** Every unit needing a cover in a processed chapter gets one entry:
      the count is the number of such units. */
  function CoverCount(units: seq<UnitDir>): nat {
    if units == [] then 0 else (if NeedsCover(units[0]) then 1 else 0) + CoverCount(units[1..])
  }

  lemma {:induction false} UnitEntriesCount(chapter: string, units: seq<UnitDir>)
    ensures |UnitEntries(chapter, units)| == CoverCount(units)
  {
    if units != [] {
      UnitEntriesCount(chapter, units[1..]);
    }
  }

  lemma {:induction false} UnitEntriesSnoc(chapter: string, units: seq<UnitDir>, u: UnitDir)
    ensures UnitEntries(chapter, units + [u]) == UnitEntries(chapter, units) + UnitEntries(chapter, [u])
  {
    if units == [] {
      assert [] + [u] == [u];
    } else {
      assert (units + [u])[1..] == units[1..] + [u];
      UnitEntriesSnoc(chapter, units[1..], u);
    }
  }

  lemma {:induction false} MissingImagesSnoc(chapters: seq<ChapterDir>, c: ChapterDir)
    ensures MissingImages(chapters + [c]) == MissingImages(chapters) + MissingImages([c])
  {
    if chapters == [] {
      assert [] + [c] == [c];
    } else {
      assert (chapters + [c])[1..] == chapters[1..] + [c];
      MissingImagesSnoc(chapters[1..], c);
    }
  }

  /** The entry for one unit folder, if it needs one. */
  lemma UnitEntriesOne(chapter: string, u: UnitDir)
    ensures UnitEntries(chapter, [u]) ==
            if NeedsCover(u) then [MissingImage(chapter, u.name, Take(Summary(u.srtFiles[0].1), 100))] else []
  {
    assert [u][1..] == [];
  }

  /** The inner loop of `main` over the unit folders of one chapter. */
  method ChapterEntries(c: ChapterDir) returns (entries: seq<MissingImage>)
    ensures entries == UnitEntries(c.name, c.units)
  {
    entries := [];
    for j := 0 to |c.units|
      invariant entries == UnitEntries(c.name, c.units[..j])
    {
      var u := c.units[j];
      PrefixSnoc(c.units, j);
      UnitEntriesSnoc(c.name, c.units[..j], u);
      UnitEntriesOne(c.name, u);
      if !u.isDir || u.srtFiles == [] {
        continue;
      }
      if u.images == 0 {
        var preview := GenerateSummary(u.srtFiles[0].1);
        entries := entries + [MissingImage(c.name, u.name, Take(preview, 100))];
      }
    }
    assert c.units[..|c.units|] == c.units;
  }

  /** The loops of `main` over the listed chapter and unit folders. */
  method FindMissingImages(chapters: seq<ChapterDir>) returns (missing: seq<MissingImage>)
    ensures missing == MissingImages(chapters)
  {
    missing := [];
    for k := 0 to |chapters|
      invariant missing == MissingImages(chapters[..k])
    {
      var c := chapters[k];
      PrefixSnoc(chapters, k);
      MissingImagesSnoc(chapters[..k], c);
      var isTarget := CheckTarget(c.name);
      if !isTarget || !c.isDir {
        continue;
      }
      var entries := ChapterEntries(c);
      missing := missing + entries;
    }
    assert chapters[..|chapters|] == chapters;
  }
}
