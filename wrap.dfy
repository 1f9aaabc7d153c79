/** `split_text(text, max_length=20)`: the subtitle line wrapper shared by
    every processing script. The text is stripped; if it is short enough it
    is one line. Otherwise it is cut into tokens at the break characters
    (`,` `，` `。` `、` and whitespace), the tokens are packed greedily into
    lines of at most `max_length` characters, the lines are stripped and
    blank ones dropped, and a line that is still too long (one long word) is
    cut into fixed-width pieces. */
module Wrap {
  import opened Chars

  /** The separators of `re.split(r'([,，。、\s])', text)`. */
  predicate IsBreak(c: char) {
    c == ',' || c == '\U{FF0C}' || c == '\U{3002}' || c == '\U{3001}' || IsSpace(c)
  }

  predicate NoBreak(s: string) {
    forall i :: 0 <= i < |s| ==> !IsBreak(s[i])
  }

  /** A token of the split: a run of non-break characters (possibly empty)
      or one break character. */
  predicate IsToken(s: string) {
    NoBreak(s) || (|s| == 1 && IsBreak(s[0]))
  }

  // ---------------------------------------------------------------------
  // Tokenising

  /** `re.split` with one capturing group: runs and captured separators
      alternate, starting and ending with a (possibly empty) run. */
  function Tokens(t: string): (r: seq<string>)
    ensures |r| % 2 == 1
  {
    if t == [] then [[]]
    else if IsBreak(t[0]) then [[], [t[0]]] + Tokens(t[1..])
    else PrependFirst(t[0], Tokens(t[1..]))
  }

  lemma {:induction false} TokensAlternate(t: string)
    ensures forall i :: 0 <= i < |Tokens(t)| ==>
              if i % 2 == 0 then NoBreak(Tokens(t)[i]) else |Tokens(t)[i]| == 1 && IsBreak(Tokens(t)[i][0])
  {
    if t != [] {
      TokensAlternate(t[1..]);
      var rest := Tokens(t[1..]);
      if IsBreak(t[0]) {
        assert forall i :: 2 <= i < |Tokens(t)| ==> Tokens(t)[i] == rest[i - 2];
      } else {
        assert NoBreak(rest[0]);
        assert forall i :: 1 <= i < |Tokens(t)| ==> Tokens(t)[i] == rest[i];
      }
    }
  }

  /** Splitting loses nothing: the tokens concatenate back to the text. */
  lemma {:induction false} TokensConcat(t: string)
    ensures Concat(Tokens(t)) == t
  {
    if t == [] {
    } else if IsBreak(t[0]) {
      TokensConcat(t[1..]);
      assert ([[], [t[0]]] + Tokens(t[1..]))[1..] == [[t[0]]] + Tokens(t[1..]);
      assert ([[t[0]]] + Tokens(t[1..]))[1..] == Tokens(t[1..]);
    } else {
      var rest := Tokens(t[1..]);
      TokensConcat(t[1..]);
      assert rest == [rest[0]] + rest[1..];
      assert Concat(rest) == rest[0] + Concat(rest[1..]);
    }
  }

  lemma TokensAreTokens(t: string)
    ensures forall i :: 0 <= i < |Tokens(t)| ==> IsToken(Tokens(t)[i])
  {
    TokensAlternate(t);
  }

  // ---------------------------------------------------------------------
  // Greedy packing

  /** The loop state: finished lines and the line being built. */
  datatype Packing = Packing(lines: seq<string>, current: string)

  /** One iteration of the packing loop. On overflow a non-empty current
      line is finished and the token starts the next one; an empty current
      line is simply replaced by the token. */
  function Step(st: Packing, part: string, m: nat): Packing {
    if |st.current| + |part| > m then
      if st.current != [] then Packing(st.lines + [st.current], part)
      else Packing(st.lines, part)
    else Packing(st.lines, st.current + part)
  }

  /** The state after the loop has consumed `parts`. */
  function Pack(parts: seq<string>, m: nat): Packing
    decreases |parts|
  {
    if parts == [] then Packing([], [])
    else Step(Pack(parts[..|parts| - 1], m), parts[|parts| - 1], m)
  }

  /** The lines after the loop, with the last current line appended when
      it is non-empty. */
  function Packed(parts: seq<string>, m: nat): seq<string> {
    var st := Pack(parts, m);
    if st.current != [] then st.lines + [st.current] else st.lines
  }

  /** `[line.strip() for line in lines if line.strip()]` */
  function StripFilter(lines: seq<string>): seq<string> {
    if lines == [] then []
    else if Strip(lines[0]) == [] then StripFilter(lines[1..])
    else [Strip(lines[0])] + StripFilter(lines[1..])
  }

  /** `[line[i:i+m] for i in range(0, len(line), m)]` */
  function Chunks(line: string, m: nat): seq<string>
    requires m >= 1
    decreases |line|
  {
    if line == [] then []
    else if |line| <= m then [line]
    else [line[..m]] + Chunks(line[m..], m)
  }

  /** One iteration of the last loop: a short line is kept, a long one is
      cut into chunks. */
  function LineChunks(line: string, m: nat): seq<string>
    requires m >= 1
  {
    if |line| <= m then [line] else Chunks(line, m)
  }

  /** The last loop over all lines. */
  function FinalLines(lines: seq<string>, m: nat): seq<string>
    requires m >= 1
  {
    if lines == [] then [] else LineChunks(lines[0], m) + FinalLines(lines[1..], m)
  }

  /** `split_text(text, m)` */
  function Wrap(text: string, m: nat): seq<string>
    requires m >= 1
  {
    var t := Strip(text);
    if |t| <= m then [t]
    else FinalLines(StripFilter(Packed(Tokens(t), m)), m)
  }

  // ---------------------------------------------------------------------
  // Properties of the pieces

  lemma PackPrefix(parts: seq<string>, k: nat, m: nat)
    requires k < |parts|
    ensures Pack(parts[..k + 1], m) == Step(Pack(parts[..k], m), parts[k], m)
  {
    assert parts[..k + 1][..k] == parts[..k];
  }

  /** Packing moves characters between lines but never drops or adds one. */
  lemma {:induction false} PackConcat(parts: seq<string>, m: nat)
    ensures Concat(Pack(parts, m).lines) + Pack(parts, m).current == Concat(parts)
    ensures Concat(Packed(parts, m)) == Concat(parts)
    decreases |parts|
  {
    if parts != [] {
      var init := parts[..|parts| - 1];
      var part := parts[|parts| - 1];
      PackConcat(init, m);
      assert parts == init + [part];
      ConcatSnoc(init, part);
      ConcatSnoc(Pack(init, m).lines, Pack(init, m).current);
    }
    var st := Pack(parts, m);
    if st.current != [] {
      ConcatSnoc(st.lines, st.current);
    }
  }

  /** A packed line is non-empty, and longer than `m` only when it is a
      single word without any break character. */
  predicate Fits(l: string, m: nat) {
    |l| <= m || NoBreak(l)
  }

  lemma {:induction false} PackShape(parts: seq<string>, m: nat)
    requires m >= 1
    requires forall i :: 0 <= i < |parts| ==> IsToken(parts[i])
    ensures forall i :: 0 <= i < |Pack(parts, m).lines| ==>
              Pack(parts, m).lines[i] != [] && Fits(Pack(parts, m).lines[i], m)
    ensures Fits(Pack(parts, m).current, m)
    decreases |parts|
  {
    if parts != [] {
      PackShape(parts[..|parts| - 1], m);
      assert IsToken(parts[|parts| - 1]);
    }
  }

  lemma PackedShape(parts: seq<string>, m: nat)
    requires m >= 1
    requires forall i :: 0 <= i < |parts| ==> IsToken(parts[i])
    ensures forall i :: 0 <= i < |Packed(parts, m)| ==> Fits(Packed(parts, m)[i], m)
  {
    PackShape(parts, m);
  }

  /** A stripped line still fits: a word without breaks has no spaces to strip. */
  lemma StripLineShape(l: string, m: nat)
    requires Fits(l, m)
    ensures Fits(Strip(l), m)
  {
    if NoBreak(l) && l != [] {
      assert !IsBreak(l[0]) && !IsBreak(l[|l| - 1]);
      StrippedFixed(l);
    }
  }

  lemma {:induction false} StripFilterShape(lines: seq<string>, m: nat)
    requires forall i :: 0 <= i < |lines| ==> Fits(lines[i], m)
    ensures forall i :: 0 <= i < |StripFilter(lines)| ==>
              StripFilter(lines)[i] != [] && IsStripped(StripFilter(lines)[i]) && Fits(StripFilter(lines)[i], m)
  {
    if lines != [] {
      StripFilterShape(lines[1..], m);
      StripSpec(lines[0]);
      if Strip(lines[0]) != [] {
        StripLineShape(lines[0], m);
      }
    }
  }

  /** Stripping lines and dropping blank ones only removes whitespace. */
  lemma {:induction false} StripFilterSpaces(lines: seq<string>)
    ensures SpacesRemoved(Concat(StripFilter(lines)), Concat(lines))
  {
    if lines != [] {
      StripFilterSpaces(lines[1..]);
      StripSpacesRemoved(lines[0]);
      StripSpec(lines[0]);
      if Strip(lines[0]) == [] {
        AllSpaceRemoved(lines[0]);
        SpacesRemovedAppend([], lines[0], Concat(StripFilter(lines[1..])), Concat(lines[1..]));
        assert [] + Concat(StripFilter(lines[1..])) == Concat(StripFilter(lines[1..]));
      } else {
        SpacesRemovedAppend(Strip(lines[0]), lines[0], Concat(StripFilter(lines[1..])), Concat(lines[1..]));
      }
    }
  }

  /** Fixed-width chunks are non-empty, at most `m` long, exactly `m` long
      except for the last, and concatenate back to the line. */
  lemma {:induction false} ChunksShape(line: string, m: nat)
    requires m >= 1
    ensures Concat(Chunks(line, m)) == line
    ensures forall i :: 0 <= i < |Chunks(line, m)| ==> 0 < |Chunks(line, m)[i]| <= m
    ensures forall i :: 0 <= i < |Chunks(line, m)| - 1 ==> |Chunks(line, m)[i]| == m
    decreases |line|
  {
    if |line| > m {
      ChunksShape(line[m..], m);
      var rest := Chunks(line[m..], m);
      assert ([line[..m]] + rest)[1..] == rest;
      assert line == line[..m] + line[m..];
    }
  }

  lemma {:induction false} FinalLinesShape(lines: seq<string>, m: nat)
    requires m >= 1
    requires forall i :: 0 <= i < |lines| ==> lines[i] != []
    ensures Concat(FinalLines(lines, m)) == Concat(lines)
    ensures forall i :: 0 <= i < |FinalLines(lines, m)| ==> 0 < |FinalLines(lines, m)[i]| <= m
  {
    if lines != [] {
      FinalLinesShape(lines[1..], m);
      var head := LineChunks(lines[0], m);
      ChunksShape(lines[0], m);
      ConcatAppend(head, FinalLines(lines[1..], m));
      assert Concat(head) == lines[0];
    }
  }

  /** Cutting a line without break characters gives chunks without them. */
  lemma {:induction false} ChunksNoBreak(line: string, m: nat)
    requires m >= 1 && NoBreak(line)
    ensures forall i :: 0 <= i < |Chunks(line, m)| ==> NoBreak(Chunks(line, m)[i])
    decreases |line|
  {
    if |line| > m {
      ChunksNoBreak(line[m..], m);
      assert NoBreak(line[..m]);
      assert ([line[..m]] + Chunks(line[m..], m))[1..] == Chunks(line[m..], m);
    }
  }

  /** The last loop keeps stripped lines stripped: a short line is kept as
      it is, and a long one that fits has no breaks, so neither do its chunks. */
  lemma {:induction false} FinalLinesStripped(lines: seq<string>, m: nat)
    requires m >= 1
    requires forall i :: 0 <= i < |lines| ==> IsStripped(lines[i]) && Fits(lines[i], m)
    ensures forall i :: 0 <= i < |FinalLines(lines, m)| ==> IsStripped(FinalLines(lines, m)[i])
  {
    if lines != [] {
      FinalLinesStripped(lines[1..], m);
      var head := LineChunks(lines[0], m);
      if |lines[0]| > m {
        ChunksNoBreak(lines[0], m);
        ChunksShape(lines[0], m);
        assert forall i :: 0 <= i < |head| ==> IsStripped(head[i]) by {
          forall i | 0 <= i < |head|
            ensures IsStripped(head[i])
          {
            assert NoBreak(head[i]) && head[i] != [];
            assert !IsBreak(head[i][0]) && !IsBreak(head[i][|head[i]| - 1]);
          }
        }
      }
      var tail := FinalLines(lines[1..], m);
      assert FinalLines(lines, m) == head + tail;
      assert forall i :: 0 <= i < |head + tail| ==>
               (head + tail)[i] == (if i < |head| then head[i] else tail[i - |head|]);
    }
  }

  // ---------------------------------------------------------------------
  // What split_text promises

  /** Every line fits: at most `m` characters. */
  lemma WrapFits(text: string, m: nat)
    requires m >= 1
    ensures forall i :: 0 <= i < |Wrap(text, m)| ==> |Wrap(text, m)[i]| <= m
  {
    var t := Strip(text);
    if |t| > m {
      var ls := StripFilter(Packed(Tokens(t), m));
      StripFilterShape(Packed(Tokens(t), m), m) by {
        TokensAreTokens(t);
        PackedShape(Tokens(t), m);
      }
      FinalLinesShape(ls, m);
    }
  }

  /** Wrapping only deletes whitespace: reading the lines one after the
      other gives back the text, less some spaces, with every other
      character kept in order. */
  lemma WrapKeepsText(text: string, m: nat)
    requires m >= 1
    ensures SpacesRemoved(Concat(Wrap(text, m)), text)
  {
    var t := Strip(text);
    StripSpacesRemoved(text);
    if |t| <= m {
      assert Concat([t]) == t;
    } else {
      var packed := Packed(Tokens(t), m);
      var ls := StripFilter(packed);
      TokensConcat(t);
      PackConcat(Tokens(t), m);
      StripFilterSpaces(packed);
      TokensAreTokens(t);
      PackedShape(Tokens(t), m);
      StripFilterShape(packed, m);
      FinalLinesShape(ls, m);
      SpacesRemovedTrans(Concat(ls), t, text);
    }
  }

  /** Short text is one line, the stripped text itself; long text gives
      only non-empty lines; no line has whitespace at either end; and a line
      is cut at a fixed width only inside a word longer than `m`. */
  lemma WrapShape(text: string, m: nat)
    requires m >= 1
    ensures |Strip(text)| <= m ==> Wrap(text, m) == [Strip(text)]
    ensures |Strip(text)| > m ==> forall i :: 0 <= i < |Wrap(text, m)| ==> Wrap(text, m)[i] != []
    ensures forall i :: 0 <= i < |Wrap(text, m)| ==> IsStripped(Wrap(text, m)[i])
    ensures |Strip(text)| > m ==>
              var ls := StripFilter(Packed(Tokens(Strip(text)), m));
              forall i :: 0 <= i < |ls| ==> |ls[i]| > m ==> NoBreak(ls[i])
  {
    var t := Strip(text);
    StripSpec(text);
    if |t| > m {
      TokensAreTokens(t);
      PackedShape(Tokens(t), m);
      StripFilterShape(Packed(Tokens(t), m), m);
      FinalLinesShape(StripFilter(Packed(Tokens(t), m)), m);
      FinalLinesStripped(StripFilter(Packed(Tokens(t), m)), m);
    }
  }

  // ---------------------------------------------------------------------
  // The loops of split_text

  /** `split_text(text, max_length)`, with its three loops. */
  method SplitText(text: string, maxLength: nat) returns (finalLines: seq<string>)
    requires maxLength >= 1
    ensures finalLines == Wrap(text, maxLength)
    ensures forall i :: 0 <= i < |finalLines| ==> |finalLines[i]| <= maxLength
    ensures SpacesRemoved(Concat(finalLines), text)
    ensures forall i :: 0 <= i < |finalLines| ==> IsStripped(finalLines[i])
  {
    WrapFits(text, maxLength);
    WrapKeepsText(text, maxLength);
    WrapShape(text, maxLength);
    var t := Strip(text);
    if |t| <= maxLength {
      return [t];
    }
    var parts := Tokens(t);
    var lines := PackParts(parts, maxLength);
    lines := StripFilter(lines);
    finalLines := CutLongLines(lines, maxLength);
  }

  /** The packing loop over the tokens, with its final flush. */
  method PackParts(parts: seq<string>, maxLength: nat) returns (lines: seq<string>)
    ensures lines == Packed(parts, maxLength)
    ensures Concat(lines) == Concat(parts)
  {
    PackConcat(parts, maxLength);
    lines := [];
    var currentLine: string := [];
    for k := 0 to |parts|
      invariant Pack(parts[..k], maxLength) == Packing(lines, currentLine)
    {
      PackPrefix(parts, k, maxLength);
      var part := parts[k];
      if |currentLine| + |part| > maxLength {
        if currentLine != [] {
          lines := lines + [currentLine];
          currentLine := part;
        } else {
          currentLine := part;
        }
      } else {
        currentLine := currentLine + part;
      }
    }
    assert parts[..|parts|] == parts;
    if currentLine != [] {
      lines := lines + [currentLine];
    }
  }

  lemma {:induction false} FinalLinesAppend(a: seq<string>, b: seq<string>, m: nat)
    requires m >= 1
    ensures FinalLines(a + b, m) == FinalLines(a, m) + FinalLines(b, m)
  {
    if a == [] {
      assert a + b == b;
    } else {
      assert (a + b)[0] == a[0] && (a + b)[1..] == a[1..] + b;
      FinalLinesAppend(a[1..], b, m);
    }
  }

  lemma FinalLinesPrefix(lines: seq<string>, k: nat, m: nat)
    requires m >= 1 && k < |lines|
    ensures FinalLines(lines[..k + 1], m) == FinalLines(lines[..k], m) + LineChunks(lines[k], m)
  {
    assert lines[..k + 1] == lines[..k] + [lines[k]];
    FinalLinesAppend(lines[..k], [lines[k]], m);
    assert FinalLines([lines[k]], m) == LineChunks(lines[k], m) + FinalLines([], m);
  }

  /** The last loop: keep lines that fit, cut the others. */
  method CutLongLines(lines: seq<string>, maxLength: nat) returns (finalLines: seq<string>)
    requires maxLength >= 1
    ensures finalLines == FinalLines(lines, maxLength)
    ensures (forall i :: 0 <= i < |lines| ==> lines[i] != []) ==>
              Concat(finalLines) == Concat(lines) &&
              forall i :: 0 <= i < |finalLines| ==> 0 < |finalLines[i]| <= maxLength
  {
    if forall i :: 0 <= i < |lines| ==> lines[i] != [] {
      FinalLinesShape(lines, maxLength);
    }
    finalLines := [];
    for k := 0 to |lines|
      invariant finalLines == FinalLines(lines[..k], maxLength)
    {
      FinalLinesPrefix(lines, k, maxLength);
      var line := lines[k];
      if |line| <= maxLength {
        finalLines := finalLines + [line];
      } else {
        var chunks := CutLine(line, maxLength);
        finalLines := finalLines + chunks;
      }
    }
    assert lines[..|lines|] == lines;
  }

  /** `for i in range(0, len(line), m): final_lines.append(line[i:i+m])` */
  method CutLine(line: string, m: nat) returns (chunks: seq<string>)
    requires m >= 1
    ensures chunks == Chunks(line, m)
    ensures Concat(chunks) == line
  {
    ChunksShape(line, m);
    chunks := [];
    var i := 0;
    while i < |line|
      invariant chunks + Chunks(line[(if i <= |line| then i else |line|)..], m) == Chunks(line, m)
      decreases |line| - i
    {
      var rest := line[i..];
      if |rest| <= m {
        assert Chunks(rest, m) == [rest];
        chunks := chunks + [line[i..]];
        assert line[|line|..] == [];
      } else {
        assert Chunks(rest, m) == [rest[..m]] + Chunks(rest[m..], m);
        assert rest[..m] == line[i..i + m] && rest[m..] == line[i + m..];
        chunks := chunks + [line[i..i + m]];
      }
      i := i + m;
    }
  }
}
