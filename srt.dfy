/** Line-level facts shared by the SubRip scanners. Every scanner strips
    each line before it looks at it, so the facts are stated on the
    stripped lines `ls == StripAll(lines)`: what counts as a block header
    (an index line followed by a timecode line), a blank line, and where a
    run of text lines stops. */
module Srt {
  import opened Chars

  /** `[l.strip() for l in lines]` */
  function StripAll(lines: seq<string>): (ls: seq<string>)
    ensures |ls| == |lines|
  {
    if lines == [] then [] else [Strip(lines[0])] + StripAll(lines[1..])
  }

  lemma {:induction false} StripAllAt(lines: seq<string>, k: nat)
    requires k < |lines|
    ensures StripAll(lines)[k] == Strip(lines[k])
  {
    if k > 0 {
      StripAllAt(lines[1..], k - 1);
    }
  }

  /** Every line of `ls` is stripped. */
  predicate AllStripped(ls: seq<string>) {
    forall k :: 0 <= k < |ls| ==> IsStripped(ls[k])
  }

  lemma StripAllStripped(lines: seq<string>)
    ensures AllStripped(StripAll(lines))
  {
    forall k | 0 <= k < |lines|
      ensures IsStripped(StripAll(lines)[k])
    {
      StripAllAt(lines, k);
      StripSpec(lines[k]);
    }
  }

  /** Line `i` opens a subtitle block: it is a digits line and the next
      line contains `-->`. */
  predicate IsHeaderAt(ls: seq<string>, i: nat) {
    i + 1 < |ls| && IsDigits(ls[i]) && Contains(ls[i + 1], "-->")
  }

  /** `lines[i].strip().isdigit() and i + 1 < len(lines) and '-->' in lines[i+1]`,
      the test every scanner makes on the raw lines, is `IsHeaderAt` on
      the stripped lines: `-->` has no whitespace at either end, so
      stripping the timecode line neither creates nor removes it. */
  lemma HeaderTest(lines: seq<string>, i: nat)
    requires i < |lines|
    ensures IsHeaderAt(StripAll(lines), i) <==>
            IsDigits(Strip(lines[i])) && i + 1 < |lines| && Contains(lines[i + 1], "-->")
  {
    StripAllAt(lines, i);
    if i + 1 < |lines| {
      StripAllAt(lines, i + 1);
      ContainsStripped(lines[i + 1], "-->");
    }
  }

  /** The text-collection loops stop at a blank line and before a header. */
  predicate RunStops(ls: seq<string>, i: nat)
    requires i < |ls|
  {
    ls[i] == [] || IsHeaderAt(ls, i)
  }

  /** The two stopping tests of a text-collection loop on the raw lines
      decide where the run on the stripped lines stops. */
  lemma RunTest(lines: seq<string>, i: nat)
    requires i < |lines|
    ensures StripAll(lines)[i] == Strip(lines[i])
    ensures RunStops(StripAll(lines), i) <==>
            Strip(lines[i]) == [] ||
            (IsDigits(Strip(lines[i])) && i + 1 < |lines| && Contains(lines[i + 1], "-->"))
  {
    StripAllAt(lines, i);
    HeaderTest(lines, i);
  }

  /** The first index at or after `i` where a text run stops, or |ls|. */
  function RunEnd(ls: seq<string>, i: nat): (e: nat)
    requires i <= |ls|
    ensures i <= e <= |ls|
    decreases |ls| - i
  {
    if i == |ls| || RunStops(ls, i) then i else RunEnd(ls, i + 1)
  }

  /** The run from `i` holds no blank line and no header, and it stops at
      one of them or at the end of the input. */
  lemma {:induction false} RunEndSpec(ls: seq<string>, i: nat)
    requires i <= |ls|
    ensures forall k :: i <= k < RunEnd(ls, i) ==> ls[k] != [] && !IsHeaderAt(ls, k)
    ensures RunEnd(ls, i) < |ls| ==> RunStops(ls, RunEnd(ls, i))
    decreases |ls| - i
  {
    if i < |ls| && !RunStops(ls, i) {
      RunEndSpec(ls, i + 1);
    }
  }

  /** A run stops no later than any stopping point after its start. */
  lemma {:induction false} RunEndAtMost(ls: seq<string>, i: nat, j: nat)
    requires i <= j < |ls| && RunStops(ls, j)
    ensures RunEnd(ls, i) <= j
    decreases j - i
  {
    if i < j && !RunStops(ls, i) {
      RunEndAtMost(ls, i + 1, j);
    }
  }

  /** The number of blank lines from `i` on. */
  function CountBlank(ls: seq<string>, i: nat): nat
    requires i <= |ls|
    decreases |ls| - i
  {
    if i == |ls| then 0
    else (if ls[i] == [] then 1 else 0) + CountBlank(ls, i + 1)
  }

  lemma {:induction false} CountBlankSkip(ls: seq<string>, i: nat, e: nat)
    requires i <= e <= |ls|
    requires forall k :: i <= k < e ==> ls[k] != []
    ensures CountBlank(ls, i) == CountBlank(ls, e)
    decreases e - i
  {
    if i < e {
      CountBlankSkip(ls, i + 1, e);
    }
  }

  /** The empty strings in a list of output lines. */
  function CountEmpty(xs: seq<string>): nat {
    if xs == [] then 0 else (if xs[0] == [] then 1 else 0) + CountEmpty(xs[1..])
  }

  lemma {:induction false} CountEmptyAppend(xs: seq<string>, ys: seq<string>)
    ensures CountEmpty(xs + ys) == CountEmpty(xs) + CountEmpty(ys)
  {
    if xs == [] {
      assert xs + ys == ys;
    } else {
      assert (xs + ys)[0] == xs[0] && (xs + ys)[1..] == xs[1..] + ys;
      CountEmptyAppend(xs[1..], ys);
    }
  }

  lemma {:induction false} CountEmptyNone(xs: seq<string>)
    requires forall k :: 0 <= k < |xs| ==> xs[k] != []
    ensures CountEmpty(xs) == 0
  {
    if xs != [] {
      CountEmptyNone(xs[1..]);
    }
  }

  /** The number of blank input lines is the number of lines that are
      empty once stripped. */
  lemma {:induction false} CountBlankAll(ls: seq<string>, i: nat)
    requires i <= |ls|
    ensures CountBlank(ls, i) == CountEmpty(ls[i..])
    decreases |ls| - i
  {
    if i < |ls| {
      CountBlankAll(ls, i + 1);
      assert ls[i..][1..] == ls[i + 1..];
    }
  }

  /** The timecode line of a header is neither a header nor blank, so two
      headers never overlap. */
  lemma HeadersApart(ls: seq<string>, i: nat)
    requires IsHeaderAt(ls, i)
    ensures !IsHeaderAt(ls, i + 1)
    ensures ls[i] != [] && ls[i + 1] != []
  {
    ArrowLine(ls[i + 1]);
  }
}
