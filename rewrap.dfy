/** The re-wrapping line scanner of the processing scripts: block headers,
    blank lines and (when enabled) stray timecode lines pass through;
    every run of text lines is joined with single spaces and re-wrapped by
    `split_text` at 20 characters. process_srt.py has no stray-timecode
    branch, the other five scripts do; `orphan` selects the variant.

    The specification reads the stripped lines `ls`; the methods read the
    raw lines and strip them as they go, as the scripts do. */
module Rewrap {
  import opened Chars
  import opened Srt
  import opened Wrap

  /** The width every script passes to `split_text`. */
  const MaxLength: nat := 20

  /** What the scanner recognises at one position of the input. */
  datatype Segment =
    | Header(index: string, timecode: string)    // the index line and timecode line of a block
    | Orphan(line: string)                       // a `-->` line with no index before it
    | Blank                                      // one blank line
    | Run(text: seq<string>, closed: bool)       // stripped text lines; `closed` if a blank line ended them

  datatype Piece = Piece(at: nat, seg: Segment)

  /** The text run that starts at line `i`: the lines up to the next blank
      line or header, closed if a blank line ended it. */
  function RunAt(ls: seq<string>, i: nat): Segment
    requires i < |ls|
  {
    var e := RunEnd(ls, i + 1);
    Run(ls[i..e], e < |ls| && ls[e] == [])
  }

  /** What one outer iteration of the scan at line `i` recognises. */
  function Scan(ls: seq<string>, i: nat, orphan: bool): Segment
    requires i < |ls|
  {
    if IsHeaderAt(ls, i) then Header(ls[i], ls[i + 1])
    else if orphan && Contains(ls[i], "-->") then Orphan(ls[i])
    else if ls[i] == [] then Blank
    else RunAt(ls, i)
  }

  /** The number of input lines a segment consumes; the next iteration
      starts that many lines on. */
  function Width(seg: Segment): nat {
    match seg
    case Header(_, _) => 2
    case Orphan(_) => 1
    case Blank => 1
    case Run(text, closed) => |text| + (if closed then 1 else 0)
  }

  /** Every iteration consumes at least one line and stays within the input. */
  lemma ScanNext(ls: seq<string>, i: nat, orphan: bool)
    requires i < |ls|
    ensures 1 <= Width(Scan(ls, i, orphan)) && i + Width(Scan(ls, i, orphan)) <= |ls|
  {
  }

  /** The outer loop as a list of pieces, one per iteration. */
  function Parse(ls: seq<string>, i: nat, orphan: bool): seq<Piece>
    requires i <= |ls|
    decreases |ls| - i
  {
    if i == |ls| then []
    else
      var seg := Scan(ls, i, orphan);
      ScanNext(ls, i, orphan);
      [Piece(i, seg)] + Parse(ls, i + Width(seg), orphan)
  }

  /** The output lines of one piece. */
  function Render(seg: Segment): seq<string> {
    match seg
    case Header(index, timecode) => [index, timecode]
    case Orphan(line) => [line]
    case Blank => [[]]
    case Run(text, closed) => Wrap.Wrap(Join(" ", text), MaxLength) + (if closed then [[]] else [])
  }

  function RenderAll(pieces: seq<Piece>): seq<string> {
    if pieces == [] then [] else Render(pieces[0].seg) + RenderAll(pieces[1..])
  }

  /** The scanner's output lines (`new_lines_content`). */
  function RewrapOutput(lines: seq<string>, orphan: bool): seq<string> {
    RenderAll(Parse(StripAll(lines), 0, orphan))
  }

  // ---------------------------------------------------------------------
  // What the scanner recognises

  /** A run at `at` is the lines from a non-blank line that is not a header
      (nor, in the variant with the stray-timecode branch, a `-->` line) up
      to, not including, the next blank line or header; it is closed when a
      blank line ended it. */
  predicate RunFits(ls: seq<string>, at: nat, text: seq<string>, closed: bool, orphan: bool) {
    var e := at + |text|;
    && text != []
    && e + (if closed then 1 else 0) <= |ls|
    && text == ls[at..e]
    && !IsHeaderAt(ls, at)
    && (orphan ==> !Contains(text[0], "-->"))
    && (forall k :: at <= k < e ==> ls[k] != [])
    && (forall k :: at < k < e ==> !IsHeaderAt(ls, k))
    && (e < |ls| ==> RunStops(ls, e))
    && (closed <==> e < |ls| && ls[e] == [])
  }

  /** What the scan recognises at `at` is really there. */
  predicate Faithful(ls: seq<string>, at: nat, seg: Segment, orphan: bool) {
    match seg
    case Header(index, timecode) =>
      IsHeaderAt(ls, at) && index == ls[at] && timecode == ls[at + 1]
    case Orphan(line) =>
      at < |ls| && orphan && !IsHeaderAt(ls, at) && line == ls[at] && Contains(line, "-->")
    case Blank =>
      at < |ls| && ls[at] == []
    case Run(text, closed) =>
      RunFits(ls, at, text, closed, orphan)
  }

  lemma RunAtFaithful(ls: seq<string>, i: nat, orphan: bool)
    requires i < |ls| && ls[i] != [] && !IsHeaderAt(ls, i)
    requires orphan ==> !Contains(ls[i], "-->")
    ensures Faithful(ls, i, RunAt(ls, i), orphan)
  {
    var e := RunEnd(ls, i + 1);
    RunEndSpec(ls, i + 1);
    assert ls[i..e][0] == ls[i];
  }

  lemma ScanFaithful(ls: seq<string>, i: nat, orphan: bool)
    requires i < |ls|
    ensures Faithful(ls, i, Scan(ls, i, orphan), orphan)
  {
    if !IsHeaderAt(ls, i) && !(orphan && Contains(ls[i], "-->")) && ls[i] != [] {
      RunAtFaithful(ls, i, orphan);
    }
  }

  lemma ParseStep(ls: seq<string>, i: nat, orphan: bool)
    requires i < |ls|
    ensures i + Width(Scan(ls, i, orphan)) <= |ls|
    ensures Parse(ls, i, orphan) ==
            [Piece(i, Scan(ls, i, orphan))] + Parse(ls, i + Width(Scan(ls, i, orphan)), orphan)
  {
  }

  /** Every piece of the parse from `j` starts at or after `j` and is
      faithful to the lines it covers. */
  lemma {:induction false} ParseFaithful(ls: seq<string>, j: nat, orphan: bool)
    requires j <= |ls|
    ensures forall p :: p in Parse(ls, j, orphan) ==> j <= p.at && Faithful(ls, p.at, p.seg, orphan)
    decreases |ls| - j
  {
    if j < |ls| {
      var seg := Scan(ls, j, orphan);
      ParseStep(ls, j, orphan);
      ScanFaithful(ls, j, orphan);
      ParseFaithful(ls, j + Width(seg), orphan);
    }
  }

  /** The pieces cover the lines from `j` to `n` one after another: each
      starts where the previous one ended and consumes at least one line. */
  predicate Tiles(pieces: seq<Piece>, j: nat, n: nat) {
    if pieces == [] then j == n
    else pieces[0].at == j && 1 <= Width(pieces[0].seg) &&
         Tiles(pieces[1..], j + Width(pieces[0].seg), n)
  }

  /** The scan index strictly increases: every input line is consumed by
      exactly one iteration and the loop ends at the last line. */
  lemma {:induction false} ParseTiles(ls: seq<string>, j: nat, orphan: bool)
    requires j <= |ls|
    ensures Tiles(Parse(ls, j, orphan), j, |ls|)
    decreases |ls| - j
  {
    if j < |ls| {
      ParseStep(ls, j, orphan);
      ScanNext(ls, j, orphan);
      ParseTiles(ls, j + Width(Scan(ls, j, orphan)), orphan);
    }
  }

  /** A header is recognised exactly where the input has one, and the lines
      a piece consumes after its first hold no header. */
  lemma ScanHeader(ls: seq<string>, i: nat, orphan: bool)
    requires i < |ls|
    ensures Scan(ls, i, orphan).Header? <==> IsHeaderAt(ls, i)
    ensures forall k :: i < k < i + Width(Scan(ls, i, orphan)) ==> !IsHeaderAt(ls, k)
  {
    ScanFaithful(ls, i, orphan);
    if IsHeaderAt(ls, i) {
      HeadersApart(ls, i);
    }
  }

  lemma {:induction false} ParseHeaders(ls: seq<string>, j: nat, orphan: bool, i: nat)
    requires j <= i < |ls|
    ensures IsHeaderAt(ls, i) <==> exists p :: p in Parse(ls, j, orphan) && p.at == i && p.seg.Header?
    decreases |ls| - j
  {
    var next := j + Width(Scan(ls, j, orphan));
    ParseStep(ls, j, orphan);
    ScanHeader(ls, j, orphan);
    ParseFaithful(ls, next, orphan);
    if i >= next {
      ParseHeaders(ls, next, orphan, i);
    }
  }

  /** A header is recognised wherever the input has one, and only there;
      every recognised header is emitted as its stripped index and
      stripped timecode, never passed to `split_text`. */
  lemma HeaderRecognised(lines: seq<string>, orphan: bool, i: nat)
    requires i < |lines|
    ensures IsHeaderAt(StripAll(lines), i) <==>
              exists p :: p in Parse(StripAll(lines), 0, orphan) && p.at == i && p.seg.Header?
    ensures forall p :: p in Parse(StripAll(lines), 0, orphan) && p.seg.Header? ==>
              p.at + 1 < |lines| && Render(p.seg) == [Strip(lines[p.at]), Strip(lines[p.at + 1])]
  {
    var ls := StripAll(lines);
    ParseHeaders(ls, 0, orphan, i);
    ParseFaithful(ls, 0, orphan);
    forall p | p in Parse(ls, 0, orphan) && p.seg.Header?
      ensures p.at + 1 < |lines| && Render(p.seg) == [Strip(lines[p.at]), Strip(lines[p.at + 1])]
    {
      StripAllAt(lines, p.at);
      StripAllAt(lines, p.at + 1);
    }
  }

  /** Every text run of the parse has the shape `RunFits` describes: text
      never absorbs the next block's index and timecode. */
  lemma RunsStopAtHeaders(lines: seq<string>, orphan: bool)
    ensures forall p :: p in Parse(StripAll(lines), 0, orphan) && p.seg.Run? ==>
              RunFits(StripAll(lines), p.at, p.seg.text, p.seg.closed, orphan)
  {
    ParseFaithful(StripAll(lines), 0, orphan);
  }

  /** Without the stray-timecode branch nothing is emitted as an orphan;
      a `-->` line without an index is then taken as text. */
  lemma NoOrphanVariant(lines: seq<string>)
    ensures forall p :: p in Parse(StripAll(lines), 0, false) ==> !p.seg.Orphan?
  {
    ParseFaithful(StripAll(lines), 0, false);
  }

  /** With the branch, a `-->` line that does not follow an index line is
      emitted on its own, stripped. */
  lemma OrphanPassesThrough(lines: seq<string>, i: nat)
    requires i < |lines|
    requires !IsHeaderAt(StripAll(lines), i) && Contains(Strip(lines[i]), "-->")
    ensures Parse(StripAll(lines), i, true)[0] == Piece(i, Orphan(Strip(lines[i])))
    ensures Render(Orphan(Strip(lines[i]))) == [Strip(lines[i])]
  {
    StripAllAt(lines, i);
    ParseStep(StripAll(lines), i, true);
  }

  // ---------------------------------------------------------------------
  // What the output looks like

  /** A run's text is rewrapped into lines of at most 20 characters that,
      read one after the other, are the run joined with spaces, less some
      whitespace. */
  lemma RunRendering(text: seq<string>, closed: bool)
    ensures var w := Wrap.Wrap(Join(" ", text), MaxLength);
            && Render(Run(text, closed)) == w + (if closed then [[]] else [])
            && (forall k :: 0 <= k < |w| ==> |w[k]| <= MaxLength)
            && SpacesRemoved(Concat(w), Join(" ", text))
  {
    WrapFits(Join(" ", text), MaxLength);
    WrapKeepsText(Join(" ", text), MaxLength);
  }

  /** The wrapped lines of a run whose first line is stripped and
      non-empty are never empty. */
  lemma RunLinesNonEmpty(text: seq<string>)
    requires text != [] && text[0] != [] && !IsSpace(text[0][0])
    ensures forall k :: 0 <= k < |Wrap.Wrap(Join(" ", text), MaxLength)| ==>
              Wrap.Wrap(Join(" ", text), MaxLength)[k] != []
  {
    var t := Join(" ", text);
    assert t[0] == text[0][0] by {
      if |text| > 1 {
        assert t == text[0] + (" " + Join(" ", text[1..]));
      }
    }
    StripNonEmpty(t);
    WrapShape(t, MaxLength);
  }

  /** The blank input lines a segment stands for. */
  function Blanks(seg: Segment): nat {
    match seg
    case Blank => 1
    case Run(_, closed) => if closed then 1 else 0
    case _ => 0
  }

  function BlankPieces(pieces: seq<Piece>): nat {
    if pieces == [] then 0 else Blanks(pieces[0].seg) + BlankPieces(pieces[1..])
  }

  /** A segment none of whose own lines is empty: recognised headers and
      stray timecodes, and runs that start with a stripped non-empty line. */
  predicate Solid(seg: Segment) {
    match seg
    case Header(index, timecode) => index != [] && timecode != []
    case Orphan(line) => line != []
    case Blank => true
    case Run(text, _) => text != [] && text[0] != [] && !IsSpace(text[0][0])
  }

  /** A solid segment emits one empty line per blank line it stands for. */
  lemma SegmentBlanks(seg: Segment)
    requires Solid(seg)
    ensures CountEmpty(Render(seg)) == Blanks(seg)
  {
    match seg {
      case Header(index, timecode) =>
        assert Render(seg)[1..] == [timecode] && [timecode][1..] == [];
      case Orphan(_) =>
      case Blank =>
      case Run(text, closed) =>
        var w := Wrap.Wrap(Join(" ", text), MaxLength);
        RunLinesNonEmpty(text);
        CountEmptyNone(w);
        if closed {
          CountEmptyAppend(w, [[]]);
        } else {
          assert w + [] == w;
        }
    }
  }

  lemma {:induction false} RenderAllBlanks(pieces: seq<Piece>)
    requires forall p :: p in pieces ==> Solid(p.seg)
    ensures CountEmpty(RenderAll(pieces)) == BlankPieces(pieces)
  {
    if pieces != [] {
      assert pieces[0] in pieces;
      SegmentBlanks(pieces[0].seg);
      RenderAllBlanks(pieces[1..]);
      CountEmptyAppend(Render(pieces[0].seg), RenderAll(pieces[1..]));
    }
  }

  /** On stripped lines every recognised segment is solid. */
  lemma FaithfulSolid(ls: seq<string>, at: nat, seg: Segment, orphan: bool)
    requires AllStripped(ls) && Faithful(ls, at, seg, orphan)
    ensures Solid(seg)
  {
    match seg {
      case Header(_, _) => HeadersApart(ls, at);
      case Orphan(line) => ArrowLine(line);
      case Blank =>
      case Run(text, _) => assert text[0] == ls[at];
    }
  }

  /** A faithful piece stands for exactly the blank lines it covers. */
  lemma FaithfulBlanks(ls: seq<string>, at: nat, seg: Segment, orphan: bool)
    requires Faithful(ls, at, seg, orphan)
    ensures at + Width(seg) <= |ls|
    ensures Blanks(seg) + CountBlank(ls, at + Width(seg)) == CountBlank(ls, at)
  {
    match seg {
      case Header(_, _) => HeadersApart(ls, at);
      case Orphan(line) => ArrowLine(line);
      case Blank =>
      case Run(text, closed) => CountBlankSkip(ls, at, at + |text|);
    }
  }

  /** The blank lines one iteration consumes are the blank lines it emits. */
  lemma ScanBlanks(ls: seq<string>, j: nat, orphan: bool)
    requires j < |ls|
    ensures j + Width(Scan(ls, j, orphan)) <= |ls|
    ensures Blanks(Scan(ls, j, orphan)) + CountBlank(ls, j + Width(Scan(ls, j, orphan))) == CountBlank(ls, j)
  {
    ScanFaithful(ls, j, orphan);
    FaithfulBlanks(ls, j, Scan(ls, j, orphan), orphan);
  }

  lemma {:induction false} ParseBlanks(ls: seq<string>, j: nat, orphan: bool)
    requires j <= |ls|
    ensures BlankPieces(Parse(ls, j, orphan)) == CountBlank(ls, j)
    decreases |ls| - j
  {
    if j < |ls| {
      var seg := Scan(ls, j, orphan);
      var rest := Parse(ls, j + Width(seg), orphan);
      ParseStep(ls, j, orphan);
      ScanBlanks(ls, j, orphan);
      ParseBlanks(ls, j + Width(seg), orphan);
      BlankPiecesCons(Piece(j, seg), rest);
      assert Parse(ls, j, orphan) == [Piece(j, seg)] + rest;
    }
  }

  lemma BlankPiecesCons(p: Piece, rest: seq<Piece>)
    ensures BlankPieces([p] + rest) == Blanks(p.seg) + BlankPieces(rest)
  {
    assert ([p] + rest)[1..] == rest;
  }

  lemma SolidParse(ls: seq<string>, orphan: bool)
    requires AllStripped(ls)
    ensures forall p :: p in Parse(ls, 0, orphan) ==> Solid(p.seg)
  {
    ParseFaithful(ls, 0, orphan);
    forall p | p in Parse(ls, 0, orphan)
      ensures Solid(p.seg)
    {
      FaithfulSolid(ls, p.at, p.seg, orphan);
    }
  }

  /** Each blank input line gives exactly one empty output line, and no
      other output line is empty. */
  lemma BlankLinesPreserved(lines: seq<string>, orphan: bool)
    ensures CountEmpty(RewrapOutput(lines, orphan)) == CountEmpty(StripAll(lines))
  {
    var ls := StripAll(lines);
    StripAllStripped(lines);
    SolidParse(ls, orphan);
    RenderAllBlanks(Parse(ls, 0, orphan));
    ParseBlanks(ls, 0, orphan);
    CountBlankAll(ls, 0);
    assert ls[0..] == ls;
  }

  // ---------------------------------------------------------------------
  // The loop

  lemma {:induction false} RenderAllSnoc(pieces: seq<Piece>, p: Piece)
    ensures RenderAll(pieces + [p]) == RenderAll(pieces) + Render(p.seg)
  {
    if pieces == [] {
      assert [] + [p] == [p];
    } else {
      assert (pieces + [p])[1..] == pieces[1..] + [p];
      RenderAllSnoc(pieces[1..], p);
    }
  }

  /** One iteration of the scan: the piece at `i` moves from the parse
      still to come to the pieces done, and its lines to the output. */
  lemma ParseAdvance(ls: seq<string>, i: nat, orphan: bool, seg: Segment, done: seq<Piece>)
    requires i < |ls| && seg == Scan(ls, i, orphan)
    requires done + Parse(ls, i, orphan) == Parse(ls, 0, orphan)
    ensures i + Width(seg) <= |ls|
    ensures (done + [Piece(i, seg)]) + Parse(ls, i + Width(seg), orphan) == Parse(ls, 0, orphan)
    ensures RenderAll(done + [Piece(i, seg)]) == RenderAll(done) + Render(seg)
  {
    ParseStep(ls, i, orphan);
    assert (done + [Piece(i, seg)]) + Parse(ls, i + Width(seg), orphan) == done + Parse(ls, i, orphan);
    RenderAllSnoc(done, Piece(i, seg));
  }

  /** The inner loop of the run branch: collects stripped lines from
      `start` until a blank line or a header. */
  method CollectRun(lines: seq<string>, start: nat) returns (textBlock: seq<string>, i: nat)
    requires start < |lines|
    ensures i == RunEnd(StripAll(lines), start + 1)
    ensures textBlock == StripAll(lines)[start..i]
  {
    ghost var ls := StripAll(lines);
    StripAllAt(lines, start);
    textBlock := [Strip(lines[start])];
    i := start + 1;
    while i < |lines|
      invariant start < i <= |lines|
      invariant RunEnd(ls, start + 1) == RunEnd(ls, i)
      invariant textBlock == ls[start..i]
      decreases |lines| - i
    {
      var nextLine := Strip(lines[i]);
      RunTest(lines, i);
      if nextLine == [] {
        assert RunEnd(ls, i) == i;
        break;
      }
      if IsDigits(nextLine) && i + 1 < |lines| && Contains(lines[i + 1], "-->") {
        assert RunEnd(ls, i) == i;
        break;
      }
      assert RunEnd(ls, i) == RunEnd(ls, i + 1);
      SliceSnoc(ls, start, i);
      textBlock := textBlock + [nextLine];
      i := i + 1;
    }
  }

  /** One iteration of the outer loop at line `i`: the lines it appends to
      `new_lines_content` and the index it leaves `i` at. */
  method ScanOnce(lines: seq<string>, i: nat, orphan: bool) returns (chunk: seq<string>, next: nat, ghost seg: Segment)
    requires i < |lines|
    ensures seg == Scan(StripAll(lines), i, orphan)
    ensures chunk == Render(seg) && next == i + Width(seg)
  {
    ghost var ls := StripAll(lines);
    StripAllAt(lines, i);
    HeaderTest(lines, i);
    seg := Scan(ls, i, orphan);
    var line := Strip(lines[i]);
    var isIndex := IsDigits(line);
    var isValidIndex := false;
    if isIndex {
      if i + 1 < |lines| && Contains(lines[i + 1], "-->") {
        isValidIndex := true;
      }
    }
    if isValidIndex {
      StripAllAt(lines, i + 1);
      chunk := [line];
      next := i + 1;
      if next < |lines| {
        chunk := chunk + [Strip(lines[next])];
        next := next + 1;
      }
      return;
    }
    if orphan && Contains(line, "-->") {
      chunk := [line];
      next := i + 1;
      return;
    }
    if line == [] {
      chunk := [[]];
      next := i + 1;
      return;
    }
    var textBlock;
    textBlock, next := CollectRun(lines, i);
    var fullText := Join(" ", textBlock);
    chunk := SplitText(fullText, MaxLength);
    if next < |lines| {
      StripAllAt(lines, next);
    }
    if next < |lines| && Strip(lines[next]) == [] {
      chunk := chunk + [[]];
      next := next + 1;
    }
  }

  /** The `while i < len(lines)` scan of `process_srt`, returning the new
      lines (`new_lines_content`). */
  method RewrapLines(lines: seq<string>, orphan: bool) returns (out: seq<string>)
    ensures out == RewrapOutput(lines, orphan)
    ensures CountEmpty(out) == CountEmpty(StripAll(lines))
  {
    ghost var ls := StripAll(lines);
    ghost var done: seq<Piece> := [];
    out := [];
    var i := 0;
    while i < |lines|
      invariant i <= |lines|
      invariant done + Parse(ls, i, orphan) == Parse(ls, 0, orphan)
      invariant out == RenderAll(done)
      decreases |lines| - i
    {
      var chunk, next, seg := ScanOnce(lines, i, orphan);
      ParseAdvance(ls, i, orphan, seg, done);
      done := done + [Piece(i, seg)];
      out := out + chunk;
      i := next;
    }
    assert Parse(ls, i, orphan) == [];
    assert done == Parse(ls, 0, orphan);
    BlankLinesPreserved(lines, orphan);
  }

  /** `"\n".join(new_lines_content)` */
  method RewrapText(lines: seq<string>, orphan: bool) returns (text: string)
    ensures text == Join("\n", RewrapOutput(lines, orphan))
  {
    var out := RewrapLines(lines, orphan);
    text := Join("\n", out);
  }
}
