/** merge_multiline_subs.py: the text lines of each subtitle block are
    merged into one line. The content is split into blocks on blank lines
    ("\n\n"); a block whose first line is an index and whose second line is
    a timecode, with more than one non-empty text line, gets its text lines
    joined, with a space only between two ASCII letters or digits. */
module Merge {
  import opened Wrappers
  import opened Chars
  import opened Rules

  // ---------------------------------------------------------------------
  // Joining the text lines of one block

  /** Both border characters are ASCII letters or digits. */
  predicate NeedSpace(merged: string, next: string) {
    merged != [] && next != [] && IsAsciiAlnum(merged[|merged| - 1]) && IsAsciiAlnum(next[0])
  }

  /** One iteration of the merge loop. */
  function Glue(merged: string, next: string): string {
    if NeedSpace(merged, next) then merged + " " + next else merged + next
  }

  /** `merged_text` after the loop over `text_lines[1:]`. */
  function Merged(ts: seq<string>): string
    requires ts != []
    decreases |ts|
  {
    if |ts| == 1 then ts[0] else Glue(Merged(ts[..|ts| - 1]), ts[|ts| - 1])
  }

  /** The separator between two neighbouring text lines. */
  function Gap(a: string, b: string): string {
    if a != [] && b != [] && IsAsciiAlnum(a[|a| - 1]) && IsAsciiAlnum(b[0]) then " " else ""
  }

  /** The text lines with the separator their own borders call for between
      each neighbouring pair. */
  function Spaced(ts: seq<string>): string
    requires ts != []
  {
    if |ts| == 1 then ts[0] else ts[0] + Gap(ts[0], ts[1]) + Spaced(ts[1..])
  }

  lemma {:induction false} SpacedSnoc(ts: seq<string>, x: string)
    requires ts != []
    ensures Spaced(ts + [x]) == Spaced(ts) + Gap(ts[|ts| - 1], x) + x
  {
    var t := ts + [x];
    assert t[0] == ts[0];
    if |ts| == 1 {
      assert t[1] == x && t[1..] == [x];
    } else {
      assert t[1..] == ts[1..] + [x];
      assert t[1] == ts[1];
      SpacedSnoc(ts[1..], x);
    }
  }

  /** Merging ends with the last character of the last text line. */
  lemma MergedLast(ts: seq<string>)
    requires ts != [] && ts[|ts| - 1] != []
    ensures Merged(ts) != [] && Merged(ts)[|Merged(ts)| - 1] == ts[|ts| - 1][|ts[|ts| - 1]| - 1]
  {
  }

  /** The merged line is the text lines with a space exactly between the
      neighbours whose border characters are both ASCII letters or digits,
      and nothing else added: deleting those spaces gives the lines'
      concatenation. */
  lemma {:induction false} MergedIsSpaced(ts: seq<string>)
    requires ts != [] && forall k :: 0 <= k < |ts| ==> ts[k] != []
    ensures Merged(ts) == Spaced(ts)
    decreases |ts|
  {
    if |ts| > 1 {
      var init := ts[..|ts| - 1];
      var last := ts[|ts| - 1];
      MergedIsSpaced(init);
      MergedLast(init);
      SpacedSnoc(init, last);
      assert init + [last] == ts;
    }
  }

  /** Merging adds no character other than spaces. */
  lemma {:induction false} MergedLacks(ts: seq<string>, c: char)
    requires ts != [] && c != ' ' && forall k :: 0 <= k < |ts| ==> c !in ts[k]
    ensures c !in Merged(ts)
    decreases |ts|
  {
    if |ts| > 1 {
      MergedLacks(ts[..|ts| - 1], c);
    }
  }

  /** The merge loop of `merge_lines_in_file`. */
  method MergeText(textLines: seq<string>) returns (mergedText: string)
    requires textLines != []
    ensures mergedText == Merged(textLines)
  {
    mergedText := textLines[0];
    for k := 1 to |textLines|
      invariant mergedText == Merged(textLines[..k])
    {
      var nextLine := textLines[k];
      var needSpace := false;
      if mergedText != [] && nextLine != [] {
        var lastChar := mergedText[|mergedText| - 1];
        var firstChar := nextLine[0];
        if IsAsciiAlnum(lastChar) && IsAsciiAlnum(firstChar) {
          needSpace := true;
        }
      }
      assert textLines[..k + 1][..k] == textLines[..k];
      if needSpace {
        mergedText := mergedText + " " + nextLine;
      } else {
        mergedText := mergedText + nextLine;
      }
    }
    assert textLines[..|textLines|] == textLines;
  }

  lemma SpaceExample()
    ensures Merged(["abc", "123"]) == "abc 123"
  {
    assert ["abc", "123"][..1] == ["abc"];
  }

  lemma NoSpaceExample()
    ensures Merged(["你好", "世界"]) == "你好世界"
  {
    assert ["你好", "世界"][..1] == ["你好"];
  }

  // ---------------------------------------------------------------------
  // One block

  /** `[l.strip() for l in lines if l.strip()]` */
  function NonEmptyStripped(lines: seq<string>): (r: seq<string>)
    ensures forall k :: 0 <= k < |r| ==> r[k] != []
  {
    if lines == [] then []
    else (if Strip(lines[0]) != [] then [Strip(lines[0])] else []) + NonEmptyStripped(lines[1..])
  }

  /** The stripped lines keep only what the lines held. */
  lemma {:induction false} NonEmptyStrippedLacks(lines: seq<string>, c: char)
    requires forall k :: 0 <= k < |lines| ==> c !in lines[k]
    ensures forall k :: 0 <= k < |NonEmptyStripped(lines)| ==> c !in NonEmptyStripped(lines)[k]
  {
    if lines != [] {
      NonEmptyStrippedLacks(lines[1..], c);
      var s := lines[0];
      assert forall x :: x in s[StripStart(s)..StripEnd(s)] ==> x in s;
    }
  }

  /** An index line followed by a timecode line, with at least one more line. */
  predicate Qualifies(lines: seq<string>) {
    |lines| >= 3 && IsDigits(Strip(lines[0])) && Contains(lines[1], "-->")
  }

  /** The rewritten block, and whether its text lines were merged. */
  datatype Outcome = Outcome(text: string, merged: bool)

  function RewriteBlock(block: string): Outcome {
    var lines := SplitOn(block, "\n");
    if Qualifies(lines) then
      var texts := NonEmptyStripped(lines[2..]);
      if |texts| > 1 then Outcome(Join("\n", [lines[0], lines[1], Merged(texts)]), true)
      else Outcome(Join("\n", [lines[0], lines[1]] + texts), false)
    else Outcome(block, false)
  }

  /** A block is merged if and only if it qualifies and has more than one
      non-empty text line; a merged block is then exactly three lines: its
      index and timecode lines unchanged and the merged text. A block that
      does not qualify is kept as it is. A block that qualifies but has at
      most one non-empty text line is not merged, yet it is still rebuilt:
      its index and timecode lines followed by its stripped non-empty text
      lines. */
  lemma RewriteBlockSpec(block: string)
    ensures var lines := SplitOn(block, "\n");
            RewriteBlock(block).merged <==> Qualifies(lines) && |NonEmptyStripped(lines[2..])| > 1
    ensures var lines := SplitOn(block, "\n");
            RewriteBlock(block).merged ==>
              SplitOn(RewriteBlock(block).text, "\n") ==
              [lines[0], lines[1], Merged(NonEmptyStripped(lines[2..]))]
    ensures var lines := SplitOn(block, "\n");
            Qualifies(lines) && |NonEmptyStripped(lines[2..])| <= 1 ==>
              SplitOn(RewriteBlock(block).text, "\n") == [lines[0], lines[1]] + NonEmptyStripped(lines[2..])
    ensures !Qualifies(SplitOn(block, "\n")) ==> RewriteBlock(block).text == block
  {
    var lines := SplitOn(block, "\n");
    SplitOnLacks(block, '\n');
    if Qualifies(lines) {
      var texts := NonEmptyStripped(lines[2..]);
      NonEmptyStrippedLacks(lines[2..], '\n');
      if |texts| > 1 {
        MergedLacks(texts, '\n');
        var three := [lines[0], lines[1], Merged(texts)];
        SplitOnJoin(three, '\n');
      } else {
        var kept := [lines[0], lines[1]] + texts;
        assert forall k :: 0 <= k < |kept| ==> '\n' !in kept[k] by {
          forall k | 0 <= k < |kept|
            ensures '\n' !in kept[k]
          {
            if k >= 2 {
              assert kept[k] == texts[k - 2];
            }
          }
        }
        SplitOnJoin(kept, '\n');
      }
    }
  }

  // ---------------------------------------------------------------------
  // The whole content

  /** `content.replace('\r\n', '\n').replace('\r', '\n')` */
  function Normalize(content: string): string {
    Replace(Replace(content, "\r\n", "\n"), "\r", "\n")
  }

  /** After normalising no carriage return is left. */
  lemma NormalizeNoReturn(content: string)
    ensures '\r' !in Normalize(content)
  {
    ReplaceCharGone(Replace(content, "\r\n", "\n"), '\r', "\n");
  }

  /** The blocks the loop does not skip: those with a non-whitespace character. */
  function Kept(blocks: seq<string>): seq<string> {
    if blocks == [] then []
    else (if Strip(blocks[0]) != [] then [blocks[0]] else []) + Kept(blocks[1..])
  }

  /** `new_blocks`: every kept block rewritten, in order. */
  function NewBlocks(blocks: seq<string>): (r: seq<string>)
    ensures |r| == |blocks|
  {
    if blocks == [] then [] else [RewriteBlock(blocks[0]).text] + NewBlocks(blocks[1..])
  }

  lemma {:induction false} NewBlocksAt(blocks: seq<string>, k: nat)
    requires k < |blocks|
    ensures NewBlocks(blocks)[k] == RewriteBlock(blocks[k]).text
  {
    if k > 0 {
      NewBlocksAt(blocks[1..], k - 1);
    }
  }

  /** `modified_count`: the number of merged blocks. */
  function MergedCount(blocks: seq<string>): nat {
    if blocks == [] then 0
    else (if RewriteBlock(blocks[0]).merged then 1 else 0) + MergedCount(blocks[1..])
  }

  /** No merge, no count: the count is zero exactly when no kept block is merged. */
  lemma {:induction false} MergedCountZero(blocks: seq<string>)
    ensures MergedCount(blocks) == 0 <==> forall k :: 0 <= k < |blocks| ==> !RewriteBlock(blocks[k]).merged
  {
    if blocks != [] {
      MergedCountZero(blocks[1..]);
      assert forall k :: 1 <= k < |blocks| ==> blocks[k] == blocks[1..][k - 1];
    }
  }

  /** The blocks of a file's content. */
  function Blocks(content: string): seq<string> {
    Kept(SplitOn(Normalize(content), "\n\n"))
  }

  /** What `merge_lines_in_file` writes (nothing when no block was merged)
      and the count it returns. */
  function MergeFile(content: string): (Option<string>, nat) {
    var blocks := Blocks(content);
    var count := MergedCount(blocks);
    (if count > 0 then Some(Join("\n\n", NewBlocks(blocks)) + "\n") else None, count)
  }

  /** The per-content body of `merge_lines_in_file`. */
  method MergeContent(content: string) returns (written: Option<string>, modifiedCount: nat)
    ensures (written, modifiedCount) == MergeFile(content)
    ensures written.Some? <==> modifiedCount > 0
  {
    var normalized := Replace(content, "\r\n", "\n");
    normalized := Replace(normalized, "\r", "\n");
    var blocks := SplitOn(normalized, "\n\n");
    var newBlocks: seq<string> := [];
    ghost var kept: seq<string> := [];
    modifiedCount := 0;
    for k := 0 to |blocks|
      invariant kept == Kept(blocks[..k])
      invariant newBlocks == NewBlocks(kept) && modifiedCount == MergedCount(kept)
    {
      KeptSnoc(blocks[..k], blocks[k]);
      assert blocks[..k + 1] == blocks[..k] + [blocks[k]];
      if Strip(blocks[k]) == [] {
        continue;
      }
      var outcome := RewriteBlock(blocks[k]);
      NewBlocksSnoc(kept, blocks[k]);
      kept := kept + [blocks[k]];
      newBlocks := newBlocks + [outcome.text];
      if outcome.merged {
        modifiedCount := modifiedCount + 1;
      }
    }
    assert blocks[..|blocks|] == blocks;
    if modifiedCount > 0 {
      written := Some(Join("\n\n", newBlocks) + "\n");
    } else {
      written := None;
    }
  }

  lemma {:induction false} KeptSnoc(blocks: seq<string>, b: string)
    ensures Kept(blocks + [b]) == Kept(blocks) + (if Strip(b) != [] then [b] else [])
  {
    if blocks == [] {
      assert [] + [b] == [b];
      assert [b][1..] == [];
    } else {
      assert (blocks + [b])[1..] == blocks[1..] + [b];
      KeptSnoc(blocks[1..], b);
    }
  }

  lemma {:induction false} NewBlocksSnoc(blocks: seq<string>, b: string)
    ensures NewBlocks(blocks + [b]) == NewBlocks(blocks) + [RewriteBlock(b).text]
    ensures MergedCount(blocks + [b]) == MergedCount(blocks) + (if RewriteBlock(b).merged then 1 else 0)
  {
    if blocks == [] {
      assert [] + [b] == [b];
      assert [b][1..] == [];
    } else {
      assert (blocks + [b])[1..] == blocks[1..] + [b];
      NewBlocksSnoc(blocks[1..], b);
    }
  }
}
