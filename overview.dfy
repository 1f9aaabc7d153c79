/** generate_overview.py: the text helpers that turn a unit's README into a
    short note for the course overview. */
module Overview {
  import opened Wrappers
  import opened Chars
  import opened Rules

  // ---------------------------------------------------------------------
  // clean_text: ' '.join(text.split())

  /** Length of the run of non-whitespace characters at the start of `s`. */
  function WordEnd(s: string): (n: nat)
    ensures n <= |s|
    ensures forall k :: 0 <= k < n ==> !IsSpace(s[k])
    ensures n < |s| ==> IsSpace(s[n])
    decreases |s|
  {
    if s == [] || IsSpace(s[0]) then 0
    else
      var n := WordEnd(s[1..]);
      assert forall k :: 1 <= k < n + 1 ==> s[k] == s[1..][k - 1];
      1 + n
  }

  /** Python's `s.split()`: the maximal runs of non-whitespace characters. */
  function Words(s: string): seq<string>
    decreases |s|
  {
    if s == [] then []
    else if IsSpace(s[0]) then Words(s[1..])
    else
      var n := WordEnd(s);
      [s[..n]] + Words(s[n..])
  }

  /** A piece `split()` can return. */
  predicate IsWord(w: string) {
    w != [] && NoSpace(w)
  }

  predicate AllWords(ws: seq<string>) {
    forall k :: 0 <= k < |ws| ==> IsWord(ws[k])
  }

  function CleanText(text: string): string {
    Join(" ", Words(text))
  }

  /** The non-whitespace characters of `s`, in order. */
  function Visible(s: string): string
    decreases |s|
  {
    if s == [] then [] else (if IsSpace(s[0]) then [] else [s[0]]) + Visible(s[1..])
  }

  lemma {:induction false} WordsAreWords(s: string)
    ensures AllWords(Words(s))
    decreases |s|
  {
    if s != [] {
      if IsSpace(s[0]) {
        WordsAreWords(s[1..]);
      } else {
        var n := WordEnd(s);
        WordsAreWords(s[n..]);
      }
    }
  }

  lemma {:induction false} VisibleAppend(a: string, b: string)
    ensures Visible(a + b) == Visible(a) + Visible(b)
    decreases |a|
  {
    if a != [] {
      assert (a + b)[1..] == a[1..] + b;
      VisibleAppend(a[1..], b);
    } else {
      assert a + b == b;
    }
  }

  lemma {:induction false} VisibleNoSpace(w: string)
    requires NoSpace(w)
    ensures Visible(w) == w
    decreases |w|
  {
    if w != [] {
      VisibleNoSpace(w[1..]);
    }
  }

  lemma {:induction false} VisibleAllSpace(s: string)
    requires AllSpace(s)
    ensures Visible(s) == []
    decreases |s|
  {
    if s != [] {
      VisibleAllSpace(s[1..]);
    }
  }

  /** The words hold exactly the visible characters. */
  lemma {:induction false} ConcatWords(s: string)
    ensures Concat(Words(s)) == Visible(s)
    decreases |s|
  {
    if s != [] {
      if IsSpace(s[0]) {
        ConcatWords(s[1..]);
      } else {
        var n := WordEnd(s);
        assert s == s[..n] + s[n..];
        VisibleAppend(s[..n], s[n..]);
        VisibleNoSpace(s[..n]);
        ConcatWords(s[n..]);
        assert ([s[..n]] + Words(s[n..]))[1..] == Words(s[n..]);
      }
    }
  }

  lemma {:induction false} VisibleJoin(ws: seq<string>)
    requires AllWords(ws)
    ensures Visible(Join(" ", ws)) == Concat(ws)
    decreases |ws|
  {
    if |ws| == 1 {
      VisibleNoSpace(ws[0]);
      assert Concat(ws) == ws[0] + Concat([]);
    } else if |ws| > 1 {
      VisibleJoin(ws[1..]);
      VisibleAppend(ws[0] + " ", Join(" ", ws[1..]));
      VisibleAppend(ws[0], " ");
      VisibleNoSpace(ws[0]);
      assert Visible(" ") == [];
    }
  }

  /** `clean_text` drops whitespace only: the other characters stay, in
      order. */
  lemma CleanTextVisible(text: string)
    ensures Visible(CleanText(text)) == Visible(text)
  {
    WordsAreWords(text);
    VisibleJoin(Words(text));
    ConcatWords(text);
  }

  lemma {:induction false} WordEndWord(w: string, t: string)
    requires NoSpace(w)
    requires t == [] || IsSpace(t[0])
    ensures WordEnd(w + t) == |w|
    decreases |w|
  {
    if w != [] {
      assert (w + t)[1..] == w[1..] + t;
      WordEndWord(w[1..], t);
    } else {
      assert w + t == t;
    }
  }

  /** A word followed by a space and more text splits off as the first
      word. */
  lemma WordsCons(w: string, rest: string)
    requires IsWord(w)
    ensures Words(w + " " + rest) == [w] + Words(rest)
  {
    var s := w + (" " + rest);
    assert w + " " + rest == s;
    WordEndWord(w, " " + rest);
    assert s[..|w|] == w;
    assert s[|w|..] == " " + rest;
    assert (" " + rest)[1..] == rest;
    assert Words(" " + rest) == Words(rest);
  }

  /** A single word splits into itself. */
  lemma WordsOne(w: string)
    requires IsWord(w)
    ensures Words(w) == [w]
  {
    WordEndWord(w, []);
    assert w + [] == w;
    assert w[|w|..] == [];
    assert w[..|w|] == w;
  }

  /** Splitting words joined by single spaces gives the words back. */
  lemma {:induction false} WordsJoin(ws: seq<string>)
    requires AllWords(ws)
    ensures Words(Join(" ", ws)) == ws
    decreases |ws|
  {
    if |ws| == 1 {
      WordsOne(ws[0]);
    } else if |ws| > 1 {
      WordsJoin(ws[1..]);
      WordsCons(ws[0], Join(" ", ws[1..]));
      assert ws == [ws[0]] + ws[1..];
    }
  }

  /** `clean_text` is idempotent. */
  lemma CleanTextIdempotent(text: string)
    ensures CleanText(CleanText(text)) == CleanText(text)
  {
    WordsAreWords(text);
    WordsJoin(Words(text));
  }

  /** The only whitespace is single spaces, each between two visible
      characters; in particular there is none at either end. */
  predicate SingleSpaced(r: string) {
    forall k :: 0 <= k < |r| && IsSpace(r[k]) ==>
      r[k] == ' ' && 0 < k < |r| - 1 && !IsSpace(r[k - 1]) && !IsSpace(r[k + 1])
  }

  lemma {:induction false} JoinWordsShape(ws: seq<string>)
    requires AllWords(ws)
    ensures ws != [] ==> Join(" ", ws) != [] && !IsSpace(Join(" ", ws)[0]) &&
                         !IsSpace(Join(" ", ws)[|Join(" ", ws)| - 1])
    ensures SingleSpaced(Join(" ", ws))
    decreases |ws|
  {
    if |ws| > 1 {
      JoinWordsShape(ws[1..]);
      var w := ws[0];
      var rest := Join(" ", ws[1..]);
      var r := w + " " + rest;
      assert r[0] == w[0];
      assert r[|r| - 1] == rest[|rest| - 1];
      assert forall k :: 0 <= k < |w| ==> r[k] == w[k];
      forall k | 0 <= k < |r| && IsSpace(r[k])
        ensures r[k] == ' ' && 0 < k < |r| - 1 && !IsSpace(r[k - 1]) && !IsSpace(r[k + 1])
      {
        if k == |w| {
          assert r[k - 1] == w[|w| - 1];
          assert r[k + 1] == rest[0];
        } else {
          var j := k - |w| - 1;
          assert r[k] == rest[j];
          assert 0 < j;
          assert r[k - 1] == rest[j - 1];
          assert r[k + 1] == rest[j + 1];
        }
      }
    }
  }

  /** `clean_text` leaves no whitespace at either end and separates its
      words by exactly one space. */
  lemma CleanTextSpaced(text: string)
    ensures SingleSpaced(CleanText(text))
  {
    WordsAreWords(text);
    JoinWordsShape(Words(text));
  }

  lemma {:induction false} VisibleKeeps(s: string, k: nat)
    requires k < |s| && !IsSpace(s[k])
    ensures s[k] in Visible(s)
    decreases k
  {
    if k > 0 {
      VisibleKeeps(s[1..], k - 1);
    }
  }

  lemma {:induction false} VisibleFrom(s: string, c: char)
    requires c in Visible(s)
    ensures c in s
    decreases |s|
  {
    if c != s[0] {
      VisibleFrom(s[1..], c);
    }
  }

  /** A visible character absent from the text is absent after cleaning. */
  lemma CleanTextLacks(text: string, c: char)
    requires !IsSpace(c) && c !in text
    ensures c !in CleanText(text)
  {
    var r := CleanText(text);
    if c in r {
      var k :| 0 <= k < |r| && r[k] == c;
      VisibleKeeps(r, k);
      CleanTextVisible(text);
      VisibleFrom(text, c);
    }
  }

  lemma CleanTextExample()
    ensures CleanText(" a \t b  ") == "a b"
  {
    assert WordEnd("  ") == 0;
    assert "b  "[1..] == "  ";
    assert "b  "[..1] == "b";
    assert WordEnd("b  ") == 1;
    assert Words(" ") == [];
    assert Words("  ") == [];
    assert Words("b  ") == ["b"];
    assert Words(" b  ") == ["b"];
    assert Words("\t b  ") == ["b"];
    assert Words(" \t b  ") == ["b"];
    assert WordEnd(" \t b  ") == 0;
    assert "a \t b  "[1..] == " \t b  ";
    assert "a \t b  "[..1] == "a";
    assert WordEnd("a \t b  ") == 1;
    assert Words("a \t b  ") == ["a", "b"];
    assert Words(" a \t b  ") == ["a", "b"];
  }

  // ---------------------------------------------------------------------
  // extract_first_paragraph

  /** The test a stripped line must pass to be the overview paragraph. */
  predicate Qualifies(line: string) {
    line != [] &&
    !StartsWith(line, "#") && !StartsWith(line, "!") && !StartsWith(line, ">") &&
    |line| > 20 &&
    (Contains(line, "**") || Contains(line, "：") || Contains(line, "。"))
  }

  /** The index of the first line whose stripped form qualifies, or |lines|. */
  function FirstQualifying(lines: seq<string>): (i: nat)
    ensures i <= |lines|
    ensures i < |lines| ==> Qualifies(Strip(lines[i]))
    ensures forall j :: 0 <= j < i ==> !Qualifies(Strip(lines[j]))
  {
    if lines == [] then 0
    else if Qualifies(Strip(lines[0])) then 0
    else 1 + FirstQualifying(lines[1..])
  }

  /** Bold and italic markers removed. */
  function Unstarred(line: string): string {
    Replace(Replace(line, "**", ""), "*", "")
  }

  function FirstParagraph(content: string): Option<string> {
    var lines := SplitOn(content, "\n");
    var i := FirstQualifying(lines);
    if i < |lines| then Some(CleanText(Unstarred(Strip(lines[i])))) else None
  }

  /** The paragraph is None exactly when no line qualifies; otherwise it
      comes from the first qualifying line (see `FirstQualifying`). */
  lemma FirstParagraphNone(content: string)
    ensures FirstParagraph(content).None? ==>
            forall j :: 0 <= j < |SplitOn(content, "\n")| ==> !Qualifies(Strip(SplitOn(content, "\n")[j]))
    ensures (forall j :: 0 <= j < |SplitOn(content, "\n")| ==> !Qualifies(Strip(SplitOn(content, "\n")[j]))) ==>
            FirstParagraph(content).None?
  {
    var lines := SplitOn(content, "\n");
    var i := FirstQualifying(lines);
    if i < |lines| {
      assert Qualifies(Strip(lines[i]));
    }
  }

  /** The paragraph holds no `*`. */
  lemma FirstParagraphStarless(content: string)
    ensures FirstParagraph(content).Some? ==> '*' !in FirstParagraph(content).value
  {
    var lines := SplitOn(content, "\n");
    var i := FirstQualifying(lines);
    if i < |lines| {
      var line := Strip(lines[i]);
      ReplaceCharGone(Replace(line, "**", ""), '*', "");
      CleanTextLacks(Unstarred(line), '*');
    }
  }

  /** The loop of `extract_first_paragraph` with its early return. */
  method ExtractFirstParagraph(content: string) returns (paragraph: Option<string>)
    ensures paragraph == FirstParagraph(content)
  {
    var lines := SplitOn(content, "\n");
    for i := 0 to |lines|
      invariant forall j :: 0 <= j < i ==> !Qualifies(Strip(lines[j]))
    {
      var line := Strip(lines[i]);
      if line != [] && !StartsWith(line, "#") && !StartsWith(line, "!") && !StartsWith(line, ">") && |line| > 20 {
        if Contains(line, "**") || Contains(line, "：") || Contains(line, "。") {
          assert FirstQualifying(lines) == i;
          return Some(CleanText(Replace(Replace(line, "**", ""), "*", "")));
        }
      }
    }
    assert FirstQualifying(lines) == |lines|;
    return None;
  }

  // ---------------------------------------------------------------------
  // generate_simple_note

  /** The characters `re.split(r'[。！？]', ...)` cuts at. */
  predicate IsStop(c: char) {
    c == '。' || c == '！' || c == '？'
  }

  /** `re.split(r'[。！？]', s)`: the pieces between stop characters,
      empty ones included. */
  function SplitStops(s: string): (r: seq<string>)
    ensures r != []
    decreases |s|
  {
    if s == [] then [[]]
    else
      var rest := SplitStops(s[1..]);
      if IsStop(s[0]) then [[]] + rest else PrependFirst(s[0], rest)
  }

  /** `s` without its stop characters. */
  function Unstopped(s: string): string
    decreases |s|
  {
    if s == [] then [] else (if IsStop(s[0]) then [] else [s[0]]) + Unstopped(s[1..])
  }

  function StopCount(s: string): nat
    decreases |s|
  {
    if s == [] then 0 else (if IsStop(s[0]) then 1 else 0) + StopCount(s[1..])
  }

  /** There is one more piece than there are stops. */
  lemma {:induction false} SplitStopsCount(s: string)
    ensures |SplitStops(s)| == StopCount(s) + 1
    decreases |s|
  {
    if s != [] {
      SplitStopsCount(s[1..]);
    }
  }

  /** Together the pieces hold every character but the stops, in order. */
  lemma {:induction false} SplitStopsConcat(s: string)
    ensures Concat(SplitStops(s)) == Unstopped(s)
    decreases |s|
  {
    if s != [] {
      var rest := SplitStops(s[1..]);
      SplitStopsConcat(s[1..]);
      if IsStop(s[0]) {
        assert ([[]] + rest)[1..] == rest;
      } else {
        var r := PrependFirst(s[0], rest);
        assert r[1..] == rest[1..];
        assert Concat(rest) == rest[0] + Concat(rest[1..]);
        assert Concat(r) == ([s[0]] + rest[0]) + Concat(rest[1..]);
      }
    }
  }

  /** No piece holds a stop. */
  lemma {:induction false} SplitStopsLack(s: string)
    ensures forall k, j :: 0 <= k < |SplitStops(s)| && 0 <= j < |SplitStops(s)[k]| ==> !IsStop(SplitStops(s)[k][j])
    decreases |s|
  {
    if s != [] {
      var rest := SplitStops(s[1..]);
      SplitStopsLack(s[1..]);
      if IsStop(s[0]) {
        var r := [[]] + rest;
        assert forall k :: 1 <= k < |r| ==> r[k] == rest[k - 1];
      } else {
        var r := PrependFirst(s[0], rest);
        forall k, j | 0 <= k < |r| && 0 <= j < |r[k]|
          ensures !IsStop(r[k][j])
        {
          if k == 0 && j > 0 {
            assert r[0][j] == rest[0][j - 1];
          } else if k > 0 {
            assert r[k] == rest[k];
          }
        }
      }
    }
  }

  /** `[s.strip() for s in sentences if s.strip() and len(s.strip()) > 10]` */
  function Candidates(pieces: seq<string>): seq<string> {
    if pieces == [] then []
    else
      var t := Strip(pieces[0]);
      (if t != [] && |t| > 10 then [t] else []) + Candidates(pieces[1..])
  }

  /** The candidates are the stripped pieces longer than 10 characters:
      each candidate is one, and each such piece is a candidate. */
  lemma {:induction false} CandidatesSpec(pieces: seq<string>)
    ensures forall c :: c in Candidates(pieces) ==> |c| > 10 && exists x :: x in pieces && Strip(x) == c
    ensures forall x :: x in pieces && |Strip(x)| > 10 ==> Strip(x) in Candidates(pieces)
  {
    if pieces != [] {
      CandidatesSpec(pieces[1..]);
      forall c | c in Candidates(pieces)
        ensures |c| > 10 && exists x :: x in pieces && Strip(x) == c
      {
        if c !in Candidates(pieces[1..]) {
          assert c == Strip(pieces[0]);
        } else {
          var x :| x in pieces[1..] && Strip(x) == c;
          assert x in pieces;
        }
      }
      forall x | x in pieces && |Strip(x)| > 10
        ensures Strip(x) in Candidates(pieces)
      {
        if x != pieces[0] {
          assert x in pieces[1..];
        }
      }
    }
  }

  /** The longest note text kept before "..." is added. */
  const NoteLength: nat := 80

  /** The tail of the sentence branch: double spaces halved, stripped, cut
      to 80 characters plus "..." when longer, and closed with "。".
      `unmark` stands for the three markdown-removing substitutions. */
  function Finish(sentence: string, unmark: string -> string): string {
    var r := Strip(Replace(unmark(sentence), "  ", " "));
    (if |r| > NoteLength then r[..NoteLength] + "..." else r) + "。"
  }

  /** The note ends in "。", is at most 84 characters long, and starts with
      the tidied sentence: whole when it has at most 80 characters, else
      its first 80 followed by "...". */
  lemma FinishSpec(sentence: string, unmark: string -> string)
    ensures var r := Strip(Replace(unmark(sentence), "  ", " "));
            var note := Finish(sentence, unmark);
            |note| <= NoteLength + 4 && note[|note| - 1] == '。' &&
            (|r| <= NoteLength ==> note == r + "。") &&
            (|r| > NoteLength ==> note[..NoteLength] == r[..NoteLength] && note[NoteLength..] == "...。")
  {
  }

  /** What the README lookup found: nothing, or the intro paragraph matched
      by the "為什麼" or else the "什麼是" heading, and the first learning
      objective. */
  datatype Readme = Missing | Found(intro: Option<string>, objective: Option<string>)

  /** `generate_simple_note` given what the regular expressions found. */
  function SimpleNote(title: string, readme: Readme, unmark: string -> string): string {
    match readme
    case Missing => "課程內容準備中..."
    case Found(intro, objective) =>
      var sentences := if intro.Some? && intro.value != [] then Candidates(SplitStops(intro.value)) else [];
      if sentences != [] then Finish(sentences[0], unmark)
      else if objective.Some? then "本單元將幫助您" + objective.value + "。"
      else "深入學習 " + title + " 的核心概念與實作技巧。"
  }

  /** Every note made from a README ends in "。"; a sentence note comes
      from the first candidate sentence of the intro. */
  lemma SimpleNoteSpec(title: string, readme: Readme, unmark: string -> string)
    ensures readme.Found? ==> var note := SimpleNote(title, readme, unmark);
                              note != [] && note[|note| - 1] == '。'
    ensures readme.Found? && readme.intro.Some? && readme.intro.value != [] &&
            Candidates(SplitStops(readme.intro.value)) != [] ==>
              SimpleNote(title, readme, unmark) == Finish(Candidates(SplitStops(readme.intro.value))[0], unmark)
  {
    if readme.Found? {
      var sentences := if readme.intro.Some? && readme.intro.value != [] then Candidates(SplitStops(readme.intro.value)) else [];
      if sentences != [] {
        FinishSpec(sentences[0], unmark);
      }
    }
  }
}
