/** The per-file body of check_and_fix_srt_global.py: the Simplified to
    Traditional Chinese table applied in dictionary order, the block
    rebuilding scan with its report of blocks holding more than one text
    line, and the final collapse of newline runs.

    As in the re-wrapping scanner, the specification reads the stripped
    lines `ls` (and the raw lines only for the timecode, which this script
    copies without stripping). */
module Rebuild {
  import opened Chars
  import opened Rules
  import opened Srt

  /** What one outer iteration of the scan recognises. */
  datatype Item =
    | Block(index: string, timecode: string, text: seq<string>, skipped: bool)
      // a block: stripped index, raw timecode, stripped text lines, and
      // whether a blank line after the text was consumed
    | Loose(line: string)
      // any other line, stripped

  datatype Entry = Entry(at: nat, item: Item)

  /** One entry of the multi-line report: the block's index and its text lines. */
  datatype Report = Report(id: string, text: seq<string>)

  /** The item at line `i`: a block when a digits line is followed by a
      `-->` line, its text running to the next blank line or header. */
  function ItemAt(lines: seq<string>, ls: seq<string>, i: nat): Item
    requires |ls| == |lines| && i < |ls|
  {
    if IsHeaderAt(ls, i) then
      var e := RunEnd(ls, i + 2);
      Block(ls[i], lines[i + 1], ls[i + 2..e], e < |ls| && ls[e] == [])
    else Loose(ls[i])
  }

  /** The number of lines an item consumes. */
  function Width(item: Item): nat {
    match item
    case Block(_, _, text, skipped) => 2 + |text| + (if skipped then 1 else 0)
    case Loose(_) => 1
  }

  lemma ItemNext(lines: seq<string>, ls: seq<string>, i: nat)
    requires |ls| == |lines| && i < |ls|
    ensures 1 <= Width(ItemAt(lines, ls, i)) && i + Width(ItemAt(lines, ls, i)) <= |ls|
  {
  }

  /** The outer loop as a list of entries, one per iteration. */
  function Items(lines: seq<string>, ls: seq<string>, i: nat): seq<Entry>
    requires |ls| == |lines| && i <= |ls|
    decreases |ls| - i
  {
    if i == |ls| then []
    else
      var item := ItemAt(lines, ls, i);
      ItemNext(lines, ls, i);
      [Entry(i, item)] + Items(lines, ls, i + Width(item))
  }

  /** The lines an item appends to `new_content`: a block is followed by
      one empty line. */
  function RenderItem(item: Item): seq<string> {
    match item
    case Block(index, timecode, text, _) => [index, timecode] + text + [[]]
    case Loose(line) => [line]
  }

  function RenderItems(entries: seq<Entry>): seq<string> {
    if entries == [] then [] else RenderItem(entries[0].item) + RenderItems(entries[1..])
  }

  /** The report entries of blocks with more than one text line. */
  function ReportsOf(entries: seq<Entry>): seq<Report> {
    if entries == [] then []
    else
      var item := entries[0].item;
      (if item.Block? && |item.text| > 1 then [Report(item.index, item.text)] else []) +
      ReportsOf(entries[1..])
  }

  /** `new_content` for a file's lines. */
  function Rebuilt(lines: seq<string>): seq<string> {
    RenderItems(Items(lines, StripAll(lines), 0))
  }

  /** `file_multi_lines` for a file's lines. */
  function MultiLineReports(lines: seq<string>): seq<Report> {
    ReportsOf(Items(lines, StripAll(lines), 0))
  }

  // ---------------------------------------------------------------------
  // What the scan recognises

  /** An item recognised at `at` agrees with the lines it covers. */
  predicate Fits(lines: seq<string>, ls: seq<string>, at: nat, item: Item)
    requires |ls| == |lines|
  {
    match item
    case Block(index, timecode, text, skipped) =>
      var e := at + 2 + |text|;
      IsHeaderAt(ls, at) && index == ls[at] && timecode == lines[at + 1] &&
      e <= |ls| && text == ls[at + 2..e] &&
      (forall k :: at + 2 <= k < e ==> ls[k] != [] && !IsHeaderAt(ls, k)) &&
      (e < |ls| ==> RunStops(ls, e)) &&
      skipped == (e < |ls| && ls[e] == [])
    case Loose(line) =>
      at < |ls| && !IsHeaderAt(ls, at) && line == ls[at]
  }

  lemma ItemAtFits(lines: seq<string>, ls: seq<string>, i: nat)
    requires |ls| == |lines| && i < |ls|
    ensures Fits(lines, ls, i, ItemAt(lines, ls, i))
  {
    if IsHeaderAt(ls, i) {
      RunEndSpec(ls, i + 2);
    }
  }

  lemma ItemsStep(lines: seq<string>, ls: seq<string>, i: nat)
    requires |ls| == |lines| && i < |ls|
    ensures i + Width(ItemAt(lines, ls, i)) <= |ls|
    ensures Items(lines, ls, i) ==
            [Entry(i, ItemAt(lines, ls, i))] + Items(lines, ls, i + Width(ItemAt(lines, ls, i)))
  {
  }

  /** Every entry from `j` on starts at or after `j` and fits its lines. */
  lemma {:induction false} ItemsFit(lines: seq<string>, ls: seq<string>, j: nat)
    requires |ls| == |lines| && j <= |ls|
    ensures forall e :: e in Items(lines, ls, j) ==> j <= e.at && Fits(lines, ls, e.at, e.item)
    decreases |ls| - j
  {
    if j < |ls| {
      ItemsStep(lines, ls, j);
      ItemAtFits(lines, ls, j);
      ItemsFit(lines, ls, j + Width(ItemAt(lines, ls, j)));
    }
  }

  /** A block is recognised exactly where the input has a header, and the
      lines an item consumes after its first hold no header. */
  lemma ItemHeader(lines: seq<string>, ls: seq<string>, i: nat)
    requires |ls| == |lines| && i < |ls|
    ensures ItemAt(lines, ls, i).Block? <==> IsHeaderAt(ls, i)
    ensures forall k :: i < k < i + Width(ItemAt(lines, ls, i)) ==> !IsHeaderAt(ls, k)
  {
    if IsHeaderAt(ls, i) {
      HeadersApart(ls, i);
      RunEndSpec(ls, i + 2);
    }
  }

  lemma {:induction false} ItemsBlocks(lines: seq<string>, ls: seq<string>, j: nat, i: nat)
    requires |ls| == |lines| && j <= i < |ls|
    ensures IsHeaderAt(ls, i) <==> exists e :: e in Items(lines, ls, j) && e.at == i && e.item.Block?
    decreases |ls| - j
  {
    ItemsStep(lines, ls, j);
    ItemHeader(lines, ls, j);
    var w := Width(ItemAt(lines, ls, j));
    ItemsFit(lines, ls, j + w);
    if i == j {
      if !IsHeaderAt(ls, i) {
        forall e | e in Items(lines, ls, j) && e.at == i
          ensures !e.item.Block?
        {
        }
      }
    } else if i < j + w {
      forall e | e in Items(lines, ls, j) && e.at == i
        ensures false
      {
      }
    } else {
      ItemsBlocks(lines, ls, j + w, i);
    }
  }

  /** A stripped digits line followed by a line containing `-->` starts a
      block, and nothing else does; the block holds the stripped index and
      the timecode line as it is. */
  lemma BlockRecognised(lines: seq<string>, i: nat)
    requires i < |lines|
    ensures (exists e :: e in Items(lines, StripAll(lines), 0) && e.at == i && e.item.Block?) <==>
            IsDigits(Strip(lines[i])) && i + 1 < |lines| && Contains(lines[i + 1], "-->")
    ensures forall e :: e in Items(lines, StripAll(lines), 0) && e.item.Block? ==>
              e.at + 1 < |lines| && e.item.index == Strip(lines[e.at]) && e.item.timecode == lines[e.at + 1] &&
              Contains(e.item.timecode, "-->")
  {
    var ls := StripAll(lines);
    ItemsBlocks(lines, ls, 0, i);
    HeaderTest(lines, i);
    ItemsFit(lines, ls, 0);
    forall e | e in Items(lines, ls, 0) && e.item.Block?
      ensures e.at + 1 < |lines| && e.item.index == Strip(lines[e.at]) && e.item.timecode == lines[e.at + 1] &&
              Contains(e.item.timecode, "-->")
    {
      StripAllAt(lines, e.at);
      HeaderTest(lines, e.at);
    }
  }

  /** Lines outside blocks are emitted stripped, blank ones as empty. */
  lemma LooseLinesStripped(lines: seq<string>)
    ensures forall e :: e in Items(lines, StripAll(lines), 0) && e.item.Loose? ==>
              e.at < |lines| && RenderItem(e.item) == [Strip(lines[e.at])]
  {
    var ls := StripAll(lines);
    ItemsFit(lines, ls, 0);
    forall e | e in Items(lines, ls, 0) && e.item.Loose?
      ensures e.at < |lines| && RenderItem(e.item) == [Strip(lines[e.at])]
    {
      StripAllAt(lines, e.at);
    }
  }

  /** A block's text lines are non-empty and end at a blank line or the
      next header, so its output is the index, the timecode, the text and
      exactly one empty line, the last. */
  lemma BlockRendering(lines: seq<string>, ls: seq<string>, at: nat, item: Item)
    requires |ls| == |lines| && item.Block? && Fits(lines, ls, at, item)
    requires Contains(item.timecode, "-->")
    ensures RenderItem(item)[|RenderItem(item)| - 1] == []
    ensures CountEmpty(RenderItem(item)) == 1
  {
    var r := RenderItem(item);
    ArrowLine(item.timecode);
    var t := item.text;
    forall k | 0 <= k < |t| ensures t[k] != [] {
      assert t[k] == ls[at + 2 + k];
    }
    CountEmptyNone(t);
    CountEmptyNone([item.index, item.timecode]);
    CountEmptyAppend([item.index, item.timecode], t);
    CountEmptyAppend([item.index, item.timecode] + t, [[]]);
  }

  // ---------------------------------------------------------------------
  // The report

  /** A block is reported if and only if it has more than one text line;
      the report holds its index and its text lines. */
  lemma {:induction false} ReportsSpec(entries: seq<Entry>)
    ensures forall r :: r in ReportsOf(entries) <==>
              exists e :: e in entries && e.item.Block? && |e.item.text| > 1 &&
                          r == Report(e.item.index, e.item.text)
  {
    if entries != [] {
      ReportsSpec(entries[1..]);
      assert entries == [entries[0]] + entries[1..];
    }
  }

  // ---------------------------------------------------------------------
  // re.sub(r'\n{3,}', '\n\n', text)

  /** The number of newlines `s` starts with. */
  function LeadNewlines(s: string): (k: nat)
    ensures k <= |s|
  {
    if s == [] || s[0] != '\n' then 0 else 1 + LeadNewlines(s[1..])
  }

  lemma {:induction false} LeadNewlinesSpec(s: string)
    ensures forall i :: 0 <= i < LeadNewlines(s) ==> s[i] == '\n'
    ensures LeadNewlines(s) < |s| ==> s[LeadNewlines(s)] != '\n'
  {
    if s != [] && s[0] == '\n' {
      LeadNewlinesSpec(s[1..]);
    }
  }

  /** Every run of three or more newlines becomes two. */
  function Collapse(s: string): string
    decreases |s|
  {
    if s == [] then []
    else if s[0] != '\n' then [s[0]] + Collapse(s[1..])
    else
      var k := LeadNewlines(s);
      (if k >= 3 then "\n\n" else s[..k]) + Collapse(s[k..])
  }

  /** No three newlines in a row. */
  predicate NoTripleNewline(t: string) {
    forall k :: 0 <= k && k + 2 < |t| ==> !(t[k] == '\n' && t[k + 1] == '\n' && t[k + 2] == '\n')
  }

  /** The collapse starts with a newline exactly when its input does. */
  lemma CollapseHead(s: string)
    ensures Collapse(s) != [] <==> s != []
    ensures Collapse(s) != [] ==> (Collapse(s)[0] == '\n' <==> s[0] == '\n')
  {
    if s != [] && s[0] == '\n' {
      LeadNewlinesSpec(s);
    }
  }

  lemma NoTripleCons(c: char, t: string)
    requires c != '\n' && NoTripleNewline(t)
    ensures NoTripleNewline([c] + t)
  {
    var r := [c] + t;
    forall k | 0 <= k && k + 2 < |r|
      ensures !(r[k] == '\n' && r[k + 1] == '\n' && r[k + 2] == '\n')
    {
      if k > 0 {
        assert r[k] == t[k - 1] && r[k + 1] == t[k] && r[k + 2] == t[k + 1];
      }
    }
  }

  lemma NoTripleNewlines(n: string, t: string)
    requires |n| <= 2 && (forall i :: 0 <= i < |n| ==> n[i] == '\n')
    requires NoTripleNewline(t) && (t != [] ==> t[0] != '\n')
    ensures NoTripleNewline(n + t)
  {
    var r := n + t;
    forall k | 0 <= k && k + 2 < |r|
      ensures !(r[k] == '\n' && r[k + 1] == '\n' && r[k + 2] == '\n')
    {
      if k >= |n| {
        assert r[k] == t[k - |n|] && r[k + 1] == t[k + 1 - |n|] && r[k + 2] == t[k + 2 - |n|];
      } else {
        assert r[|n|] == t[0];
      }
    }
  }

  /** After the substitution no run of three or more newlines is left. */
  lemma {:induction false} CollapseNoTriple(s: string)
    ensures NoTripleNewline(Collapse(s))
    decreases |s|
  {
    if s == [] {
    } else if s[0] != '\n' {
      CollapseNoTriple(s[1..]);
      NoTripleCons(s[0], Collapse(s[1..]));
    } else {
      var k := LeadNewlines(s);
      LeadNewlinesSpec(s);
      CollapseNoTriple(s[k..]);
      CollapseHead(s[k..]);
      var n := if k >= 3 then "\n\n" else s[..k];
      NoTripleNewlines(n, Collapse(s[k..]));
    }
  }

  /** The characters other than newlines, in order. */
  function NonNewlines(s: string): string {
    if s == [] then [] else (if s[0] == '\n' then [] else [s[0]]) + NonNewlines(s[1..])
  }

  lemma {:induction false} NonNewlinesAppend(a: string, b: string)
    ensures NonNewlines(a + b) == NonNewlines(a) + NonNewlines(b)
  {
    if a == [] {
      assert a + b == b;
    } else {
      assert (a + b)[0] == a[0] && (a + b)[1..] == a[1..] + b;
      NonNewlinesAppend(a[1..], b);
    }
  }

  lemma {:induction false} NonNewlinesNone(n: string)
    requires forall i :: 0 <= i < |n| ==> n[i] == '\n'
    ensures NonNewlines(n) == []
  {
    if n != [] {
      NonNewlinesNone(n[1..]);
    }
  }

  /** Only newlines are removed: every other character is kept, in order. */
  lemma {:induction false} CollapseKeepsText(s: string)
    ensures NonNewlines(Collapse(s)) == NonNewlines(s)
    decreases |s|
  {
    if s == [] {
    } else if s[0] != '\n' {
      CollapseKeepsText(s[1..]);
      NonNewlinesAppend([s[0]], Collapse(s[1..]));
    } else {
      var k := LeadNewlines(s);
      LeadNewlinesSpec(s);
      CollapseKeepsText(s[k..]);
      var n := if k >= 3 then "\n\n" else s[..k];
      NonNewlinesAppend(n, Collapse(s[k..]));
      NonNewlinesNone(n);
      NonNewlinesNone(s[..k]);
      assert s == s[..k] + s[k..];
      NonNewlinesAppend(s[..k], s[k..]);
    }
  }

  /** Text without a triple newline is left as it is. */
  lemma {:induction false} CollapseIdle(s: string)
    requires NoTripleNewline(s)
    ensures Collapse(s) == s
    decreases |s|
  {
    if s != [] {
      if s[0] != '\n' {
        assert NoTripleNewline(s[1..]) by {
          forall k | 0 <= k && k + 2 < |s[1..]|
            ensures !(s[1..][k] == '\n' && s[1..][k + 1] == '\n' && s[1..][k + 2] == '\n')
          {
            assert s[1..][k] == s[k + 1] && s[1..][k + 1] == s[k + 2] && s[1..][k + 2] == s[k + 3];
          }
        }
        CollapseIdle(s[1..]);
        assert s == [s[0]] + s[1..];
      } else {
        var k := LeadNewlines(s);
        LeadNewlinesSpec(s);
        if |s| >= 3 {
          assert !(s[0] == '\n' && s[1] == '\n' && s[2] == '\n');
        }
        assert k < 3;
        assert NoTripleNewline(s[k..]) by {
          forall j | 0 <= j && j + 2 < |s[k..]|
            ensures !(s[k..][j] == '\n' && s[k..][j + 1] == '\n' && s[k..][j + 2] == '\n')
          {
            assert s[k..][j] == s[k + j] && s[k..][j + 1] == s[k + j + 1] && s[k..][j + 2] == s[k + j + 2];
          }
        }
        CollapseIdle(s[k..]);
        assert s == s[..k] + s[k..];
      }
    }
  }

  /** Collapsing twice is collapsing once. */
  lemma CollapseIdempotent(s: string)
    ensures Collapse(Collapse(s)) == Collapse(s)
  {
    CollapseNoTriple(s);
    CollapseIdle(Collapse(s));
  }

  // ---------------------------------------------------------------------
  // The scan as the script runs it

  lemma {:induction false} RenderItemsSnoc(entries: seq<Entry>, e: Entry)
    ensures RenderItems(entries + [e]) == RenderItems(entries) + RenderItem(e.item)
  {
    if entries == [] {
      assert [] + [e] == [e];
    } else {
      assert (entries + [e])[1..] == entries[1..] + [e];
      RenderItemsSnoc(entries[1..], e);
    }
  }

  lemma {:induction false} ReportsOfSnoc(entries: seq<Entry>, e: Entry)
    ensures ReportsOf(entries + [e]) == ReportsOf(entries) + ReportsOf([e])
  {
    if entries == [] {
      assert [] + [e] == [e];
    } else {
      assert (entries + [e])[1..] == entries[1..] + [e];
      ReportsOfSnoc(entries[1..], e);
    }
  }

  /** One iteration of the scan: the entry at `i` moves from the items
      still to come to the entries done, and its lines and report to the
      output. */
  lemma ItemsAdvance(lines: seq<string>, ls: seq<string>, i: nat, item: Item, done: seq<Entry>)
    requires |ls| == |lines| && i < |ls| && item == ItemAt(lines, ls, i)
    requires done + Items(lines, ls, i) == Items(lines, ls, 0)
    ensures i + Width(item) <= |ls|
    ensures (done + [Entry(i, item)]) + Items(lines, ls, i + Width(item)) == Items(lines, ls, 0)
    ensures RenderItems(done + [Entry(i, item)]) == RenderItems(done) + RenderItem(item)
    ensures ReportsOf(done + [Entry(i, item)]) == ReportsOf(done) + ReportsOf([Entry(i, item)])
  {
    ItemsStep(lines, ls, i);
    assert (done + [Entry(i, item)]) + Items(lines, ls, i + Width(item)) == done + Items(lines, ls, i);
    RenderItemsSnoc(done, Entry(i, item));
    ReportsOfSnoc(done, Entry(i, item));
  }

  /** The text-collection loop of a block: stripped lines from `start`
      until a blank line or the next block. */
  method CollectText(lines: seq<string>, start: nat) returns (textLines: seq<string>, i: nat)
    requires start <= |lines|
    ensures i == RunEnd(StripAll(lines), start)
    ensures textLines == StripAll(lines)[start..i]
  {
    ghost var ls := StripAll(lines);
    textLines := [];
    i := start;
    while i < |lines|
      invariant start <= i <= |lines|
      invariant RunEnd(ls, start) == RunEnd(ls, i)
      invariant textLines == ls[start..i]
      decreases |lines| - i
    {
      var textLine := Strip(lines[i]);
      RunTest(lines, i);
      if textLine == [] {
        assert RunEnd(ls, i) == i;
        break;
      }
      if IsDigits(textLine) && i + 1 < |lines| && Contains(lines[i + 1], "-->") {
        assert RunEnd(ls, i) == i;
        break;
      }
      assert RunEnd(ls, i) == RunEnd(ls, i + 1);
      SliceSnoc(ls, start, i);
      textLines := textLines + [textLine];
      i := i + 1;
    }
  }

  /** One iteration of the outer loop at line `i`: the lines it appends to
      `new_content`, the report entries it adds and where it leaves `i`. */
  method RebuildOnce(lines: seq<string>, i: nat) returns (chunk: seq<string>, found: seq<Report>, next: nat, ghost item: Item)
    requires i < |lines|
    ensures item == ItemAt(lines, StripAll(lines), i)
    ensures chunk == RenderItem(item) && found == ReportsOf([Entry(i, item)]) && next == i + Width(item)
  {
    ghost var ls := StripAll(lines);
    StripAllAt(lines, i);
    HeaderTest(lines, i);
    item := ItemAt(lines, ls, i);
    assert [Entry(i, item)][1..] == [];
    var line := Strip(lines[i]);
    var isIndex := IsDigits(line);
    var isValidBlock := false;
    if isIndex {
      if i + 1 < |lines| && Contains(lines[i + 1], "-->") {
        isValidBlock := true;
      }
    }
    if isValidBlock {
      chunk := [line];
      next := i + 1;
      chunk := chunk + [lines[next]];
      next := next + 1;
      var textLines;
      textLines, next := CollectText(lines, next);
      found := [];
      if |textLines| > 1 {
        found := [Report(line, textLines)];
      }
      chunk := chunk + textLines;
      chunk := chunk + [[]];
      if next < |lines| {
        StripAllAt(lines, next);
      }
      if next < |lines| && Strip(lines[next]) == [] {
        next := next + 1;
      }
    } else {
      if line != [] {
        chunk := [line];
      } else {
        chunk := [[]];
      }
      found := [];
      next := i + 1;
    }
  }

  /** The `while i < len(lines)` loop of `process_files`: `new_content`
      and `file_multi_lines`. */
  method RebuildLines(lines: seq<string>) returns (newContent: seq<string>, multiLines: seq<Report>)
    ensures newContent == Rebuilt(lines)
    ensures multiLines == MultiLineReports(lines)
  {
    ghost var ls := StripAll(lines);
    ghost var done: seq<Entry> := [];
    newContent := [];
    multiLines := [];
    var i := 0;
    while i < |lines|
      invariant i <= |lines|
      invariant done + Items(lines, ls, i) == Items(lines, ls, 0)
      invariant newContent == RenderItems(done) && multiLines == ReportsOf(done)
      decreases |lines| - i
    {
      var chunk, found, next, item := RebuildOnce(lines, i);
      ItemsAdvance(lines, ls, i, item, done);
      done := done + [Entry(i, item)];
      newContent := newContent + chunk;
      multiLines := multiLines + found;
      i := next;
    }
    assert Items(lines, ls, i) == [];
    assert done == Items(lines, ls, 0);
  }

  /** The per-file body of `process_files`: the table in dictionary order,
      `splitlines`, the rebuild, `"\n".join` and the newline collapse. The
      written text never holds three newlines in a row. */
  method ProcessFile(content: string, pairs: seq<Rule>) returns (finalContent: string, multiLines: seq<Report>)
    ensures var lines := SplitLines(ApplyRules(content, DictFromPairs(pairs)));
            finalContent == Collapse(Join("\n", Rebuilt(lines))) && multiLines == MultiLineReports(lines)
    ensures NoTripleNewline(finalContent)
  {
    var table := DictFromPairs(pairs);
    var converted := ApplyRulesInOrder(content, table);
    var lines := SplitLines(converted);
    var newContent;
    newContent, multiLines := RebuildLines(lines);
    finalContent := Collapse(Join("\n", newContent));
    CollapseNoTriple(Join("\n", newContent));
  }

  // ---------------------------------------------------------------------
  // The repeated key of the conversion table

  const SimplifiedPlugin := Rule("插线", "插件")
  const MixedPlugin := Rule("插線", "插件")
  const SimplifiedPluginAgain := Rule("插线", "插線")

  /** "插线" is listed twice, first with "插件" and later with "插線". */
  const PluginPairs := [SimplifiedPlugin, MixedPlugin, SimplifiedPluginAgain]

  /** The dict keeps "插线" in its first place with its last value. */
  lemma PluginTable()
    ensures DictFromPairs(PluginPairs) == [SimplifiedPluginAgain, MixedPlugin]
  {
    assert PluginPairs[..2] == [SimplifiedPlugin, MixedPlugin];
    assert PluginPairs[..2][..1] == [SimplifiedPlugin];
    assert PluginPairs[..2][..1][..0] == [];
    assert DictFromPairs([SimplifiedPlugin]) == [SimplifiedPlugin];
    assert KeyIndex([SimplifiedPlugin], "插線") == 1;
    assert DictFromPairs([SimplifiedPlugin, MixedPlugin]) == [SimplifiedPlugin, MixedPlugin];
    assert KeyIndex([SimplifiedPlugin, MixedPlugin], "插线") == 0;
  }

  lemma PluginStep1()
    ensures Replace("插线", "插线", "插線") == "插線"
  {
    ReplaceWhole("插线", "插線");
  }

  lemma PluginStep2()
    ensures Replace("插線", "插線", "插件") == "插件"
  {
    ReplaceWhole("插線", "插件");
  }

  /** "插线" first becomes "插線"; the later "插線" entry then makes it "插件". */
  lemma PluginExample()
    ensures ApplyRules("插线", DictFromPairs(PluginPairs)) == "插件"
  {
    PluginTable();
    PluginStep1();
    PluginStep2();
    var d := [SimplifiedPluginAgain, MixedPlugin];
    assert d[1..] == [MixedPlugin] && d[1..][1..] == [];
    assert ApplyRules("插線", [MixedPlugin]) == ApplyRules("插件", []);
  }
}
