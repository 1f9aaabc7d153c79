# Subtitle clean-up scripts and course viewer helpers, in Dafny

This project models the text-processing core of a Dify tutorial course
repository. The course ships SRT subtitle files (blocks made of an index
line, a `start --> end` timecode line and text lines, separated by blank
lines) and a single-page viewer for the course units.

The project models these parts of the repository:

- The six subtitle-rewrite scripts (`process_global_srt.py`,
  `process_srt_global_review.py`, `process_srt_ch4.py`,
  `process_all_srt.py`, `process_all_srt_ch2.py`, `process_srt.py`). Each
  builds a list of `(wrong, right)` replacement rules and sorts it
  longest-pattern-first. It applies the rules one `str.replace` at a time,
  then rescans the lines: it keeps index and timecode lines, joins each block's
  text lines with spaces and re-wraps the result at 20 characters with
  `split_text`.
- `check_and_fix_srt_global.py`. It converts simplified to traditional
  Chinese through an insertion-ordered dictionary, rebuilds every block, reports
  blocks with more than one text line and collapses runs of three or more
  newlines.
- `merge_multiline_subs.py`. It merges the text lines of each block into one
  line, inserting a space only between two ASCII letters or digits.
- `update_course_durations.py`. It takes a unit's duration from the last
  timestamp of its subtitle file, rounding up to whole minutes with a minimum
  of 1. It then sums chapter and course totals.
- `generate_missing_assets.py`. It builds a text preview of a subtitle file
  and lists the units of chapters 3 to 6 that have no cover image.
- `generate_overview.py`. It normalises whitespace, finds the first
  qualifying paragraph of a unit README and builds a short "teacher's note".
- The pure helpers of the viewer's `app.js`:
  - unit flattening
  - previous/next navigation, by button and by arrow key
  - the completed-units toggle
  - the study timer with its 30-second save
  - `formatTime`
  - image path rewriting
  - checkbox quiz options

Python's own string operations are modelled explicitly in `Chars` and
`Rules`:

- `strip` and `isspace`, with the exact Unicode whitespace set.
- `str.replace`: leftmost, non-overlapping, and inserting everywhere for an
  empty pattern.
- `split(sep)`, `split()` and `splitlines`.
- The stable `list.sort` with a length key.
- Dictionaries built from pairs.

JavaScript's `String.replace` with a string pattern replaces only the first
occurrence. It is modelled separately as `Rules.ReplaceFirst`.

The six copies of `split_text` are identical: lines 6-38 of each script,
and lines 4-36 of `process_srt.py`. They are modelled once, as `Wrap`. The
line rescans are also identical, and are modelled once, as `Rewrap`:

- `process_srt_global_review.py` lines 188-232;
- `process_srt_ch4.py` lines 182-226;
- `process_all_srt.py` lines 127-179;
- `process_all_srt_ch2.py` lines 136-185;
- `process_global_srt.py` lines 195-240.

The rescan in `process_srt.py`, lines 206-245, is the same except that it
has no orphan-timecode branch.

Every loop of the scripts is a `method` proved equal to a specification
function. The properties are lemmas about those functions. Examples:

- Wrapped lines fit in 20 characters.
- Wrapping only removes whitespace.
- Blank lines survive the rescan.
- Sorting twice is sorting once.
- A duplicated rule does nothing.
- The conversion dictionary keeps first positions and last values.
- `\n{3,}` collapsing is idempotent.

The viewer's mutable progress record and quiz block are classes.

The model follows the code as written:

- The timestamp pattern `\d{2}` accepts minute and second fields up to 99,
  not 0–59 (`Durations.LongMinutesExample`).
- The subtitle preview keeps 1000 characters, although the comment at
  `generate_missing_assets.py:29` says 500.

## Model

| member | source | states |
|---|---|---|
| Chars.StripSpec | process_global_srt.py:197 | `strip()` removes only whitespace from both ends, leaves a result with no whitespace at either end, and yields the empty string exactly when the line is all whitespace |
| Chars.StripIdempotent | process_global_srt.py:28 | stripping an already stripped line changes nothing |
| Chars.StripSpacesRemoved | process_global_srt.py:7 | the stripped text is the original with some whitespace deleted |
| Chars.ContainsStripped | process_global_srt.py:202 | testing for `-->` on a raw line or on its stripped form gives the same answer |
| Chars.JoinSplitOn | merge_multiline_subs.py:11 | joining the pieces of `split(sep)` with `sep` gives back the original content |
| Chars.SplitOnJoin | merge_multiline_subs.py:51-52 | splitting a `"\n".join` of lines that hold no newline gives back those lines |
| Chars.SplitLines | process_global_srt.py:192 | no line produced by `splitlines()` contains a line boundary |
| Srt.HeaderTest | process_global_srt.py:199-203 | a block header is recognised exactly when the stripped line is all digits and the next raw line exists and contains `-->` |
| Srt.RunTest | process_global_srt.py:225-230 | a text run stops at a line exactly when that line strips to empty or starts a block header |
| Srt.RunEndSpec | process_global_srt.py:225-232 | every line collected into a run is non-blank and not a header, and the run ends at the end of the file or at a stopping line |
| Srt.RunEndAtMost | process_global_srt.py:225-232 | a run never reaches past the first stopping line after its start |
| Srt.HeadersApart | process_global_srt.py:199-211 | a header's index and timecode lines are non-blank, and the timecode line never starts another header |
| Wrap.TokensAlternate | process_global_srt.py:11 | splitting on the captured separator class alternates separator-free pieces with single separator characters |
| Wrap.TokensConcat | process_global_srt.py:11 | concatenating the split pieces gives back the text |
| Wrap.PackConcat | process_global_srt.py:15-26 | the greedy packing loop loses and reorders nothing: emitted lines plus the pending line concatenate to the pieces |
| Wrap.PackShape | process_global_srt.py:15-26 | every packed line, and the pending line, is within the limit or holds no separator at all (one oversized piece); emitted lines are non-empty |
| Wrap.ChunksShape | process_global_srt.py:35-36 | slicing a long line every 20 characters gives non-empty chunks of at most 20 that concatenate back, all but the last exactly 20 long |
| Wrap.FinalLinesShape | process_global_srt.py:30-36 | the final pass keeps the text and leaves every line non-empty and within the limit |
| Wrap.WrapShape | process_global_srt.py:7-38 | text that strips to at most the limit comes back as that single stripped line; longer text yields only non-empty lines; no line has whitespace at either end |
| Wrap.WrapFits | process_global_srt.py:6-38 | every line returned by `split_text` is at most `max_length` characters long |
| Wrap.WrapKeepsText | process_global_srt.py:6-38 | the returned lines, concatenated, are the input with some whitespace deleted and nothing else changed |
| Wrap.SplitText | process_global_srt.py:6-38 | the method computes the wrapping function, so its lines fit the limit, keep the text and have no whitespace at either end |
| Wrap.PackParts | process_global_srt.py:15-26 | the packing loop computes the packing function and loses no character |
| Wrap.CutLongLines | process_global_srt.py:30-36 | the final loop computes the final pass; on non-empty lines it keeps the text and bounds every line |
| Wrap.CutLine | process_global_srt.py:35-36 | the `range(0, len, max_length)` loop computes the chunking and concatenates back to the line |
| Rewrap.ParseTiles | process_global_srt.py:195-240 | the scanner's segments cover the lines from start to end, each segment beginning where the previous one ends |
| Rewrap.ScanHeader | process_global_srt.py:199-211 | a step emits a header segment exactly at a block header, and no header lies inside the lines a step consumes |
| Rewrap.HeaderRecognised | process_global_srt.py:199-211 | every block header of the file is emitted as a header segment, which outputs the stripped index and timecode lines |
| Rewrap.RunsStopAtHeaders | process_global_srt.py:223-236 | every text run consists of the stripped lines up to the next blank line or block header, and records whether it ate a trailing blank |
| Rewrap.NoOrphanVariant | process_srt.py:215-226 | without the `-->` branch no orphan-timecode segment is ever produced |
| Rewrap.OrphanPassesThrough | process_global_srt.py:213-216 | a stray timecode line outside a header is copied through stripped, on its own |
| Rewrap.RunRendering | process_global_srt.py:234-240 | a run outputs `split_text` of its lines joined with spaces, each line within 20 characters and keeping the text, plus one blank when it ended on one |
| Rewrap.RunLinesNonEmpty | process_global_srt.py:234-236 | a run whose first line starts with a visible character outputs no empty line |
| Rewrap.BlankLinesPreserved | process_global_srt.py:218-240 | the rescanned output has exactly as many blank lines as the input |
| Rewrap.CollectRun | process_global_srt.py:223-232 | the inner loop collects exactly the stripped lines of the run and stops where the run ends |
| Rewrap.ScanOnce | process_global_srt.py:197-240 | one pass of the outer loop emits the rendering of the segment at `i` and advances past it |
| Rewrap.RewrapLines | process_global_srt.py:195-240 | the outer loop computes the scanner's output, and that output keeps the input's blank-line count |
| Rewrap.RewrapText | process_global_srt.py:192-242 | the file content is the scanner's output lines joined with newlines |
| Rules.ReplaceIdentity | process_global_srt.py:182 | a rule that maps a pattern to itself leaves any content unchanged |
| Rules.ReplaceAbsent | process_global_srt.py:190 | replacing a pattern that does not occur changes nothing |
| Rules.ReplaceLeavesNone | process_global_srt.py:190 | when the replacement cannot start or straddle a new match, no occurrence of the pattern is left |
| Rules.ReplaceTwice | process_all_srt.py:121 | under the same condition, replacing again is a no-op |
| Rules.ReplaceCharGone | process_global_srt.py:190 | replacing a single character by text without it removes every occurrence of that character |
| Rules.ReplaceFirst | app.js:966-968 | JavaScript's string-pattern replace leaves text without the pattern alone; otherwise it replaces the first occurrence only, wherever it starts, and leaves the text around it as it is |
| Rules.ApplyRulesAppend | process_global_srt.py:189-190 | running a concatenated rule list is running the first part, then the second |
| Rules.IdentityRulesNoEffect | process_srt_global_review.py:83 | a list made only of identity rules leaves the content unchanged |
| Rules.IdentityRuleDroppable | process_srt_global_review.py:83 | removing an identity rule from any position of the list does not change the result |
| Rules.ApplyRulesInOrder | process_global_srt.py:189-190 | the `for old, new` loop applies the rules one `str.replace` at a time, in list order |
| Rules.SortByLength | process_global_srt.py:187 | the sorted list is longest pattern first, and for each length it holds the rules of that length in their original order, which is stable sorting |
| Rules.SortPermutes | process_global_srt.py:187 | sorting is a permutation of the rule list |
| Rules.StableSortUnique | process_global_srt.py:187 | only one list is both longest-first and order-preserving within each length, so the sort is determined |
| Rules.SortSorted | process_global_srt.py:187 | sorting an already sorted list returns it unchanged |
| Rules.SortAppendSort | process_global_srt.py:125-187 | sorting, extending and sorting again equals sorting the whole extended list once |
| Rules.SortedBefore | process_global_srt.py:187 | a rule with a longer pattern always runs before one with a shorter pattern |
| Rules.SortedAs | process_global_srt.py:187 | any longest-first, order-preserving arrangement of the rules is the sort's result |
| Rules.DuplicateRuleIdle | process_all_srt.py:72-80 | a rule listed twice in a row has the effect of listing it once, when its replacement cannot rebuild its pattern |
| Rules.SortedDuplicateIdle | process_all_srt.py:72-121 | the same holds after the longest-first sort |
| Rules.KeyIndex | check_and_fix_srt_global.py:6-64 | a dictionary lookup finds the first entry with the key, or reports the key absent |
| Rules.DictFromPairsOrder | check_and_fix_srt_global.py:6-64 | a dict literal has distinct keys in order of first appearance, each bound to its last value |
| Scripts.ProcessContent | process_srt_global_review.py:181-234 | the replace loop followed by the rescan computes the scripts' transformation |
| Scripts.MarkerRedundant | process_global_srt.py:138 | testing for `dify1-1.srt` or `1-1.srt` in the path is the same as testing for `1-1.srt` |
| Scripts.GlobalRulesSortedOnce | process_global_srt.py:133-187 | the pre-sorted base list, the path extensions and the misc rules, once re-sorted, are the whole list sorted once: longest-first and a permutation |
| Scripts.ProcessGlobal | process_global_srt.py:128-245 | the file content becomes the transformation with that sorted rule list and the stray-timecode branch |
| Scripts.ProcessSorted | process_srt_global_review.py:174-234 | a fixed list is sorted once, applied, and the content rescanned |
| Scripts.ProcessCh4 | process_srt_ch4.py:40-228 | the base list extended by the chapter-4 rules is sorted as one list, applied, and rescanned |
| Scripts.PreCorrectLeavesNone | process_all_srt_ch2.py:127 | after the pre-correction no `ON的版本` remains |
| Scripts.ProcessCh2 | process_all_srt_ch2.py:124-187 | the pre-correction runs before the sorted rules, then the rescan |
| Scripts.WithoutPatternSpec | process_srt.py:192 | the filter keeps exactly the rules whose pattern is not `Replicate` |
| Scripts.ProcessSrt | process_srt.py:192-248 | filter, sort, pre-correct, apply, then rescan without the stray-timecode branch |
| Scripts.ReplicateNotRewritten | process_srt.py:192-200 | no rule left after the filter has `Replicate` as its pattern |
| Scripts.EsaExample | process_srt_global_review.py:62-65 | with the four ESA rules sorted, `ESA社區` becomes `Exa Search` |
| Scripts.EsaShortFirst | process_srt_global_review.py:62-65 | had the short rule run first, the result would have been `Exa社區` |
| Scripts.EsaCommunityFirst | process_srt_global_review.py:171 | in any sorted list holding both, `ESA社區` runs before `ESA` |
| Scripts.FindTuringExample | process_srt_global_review.py:128-130 | `Find Turing` becomes `Fine-tuning`, not `Find tuning` |
| Scripts.FindRulesFirst | process_srt_ch4.py:124-126 | in any sorted list holding them, both `Find` rules run before `Turing` |
| Scripts.WslSorted | process_all_srt_ch2.py:86-87 | sorting puts `WSL2` before `WSL` in either listing order |
| Scripts.WslExample | process_srt.py:97-98 | `WSL2` becomes `WSL 2` even though `WSL` is listed first |
| Scripts.PreCorrectExample | process_srt.py:197 | with the pre-correction `ON的版本` ends as `ARM 的版本`; without it the ON rule would give `ARM的版本` |
| Scripts.ReplicateTwice | process_all_srt.py:72-80 | the doubled `Replicate` rule leaves no `Replicate` and acts as one rule |
| Rebuild.BlockRecognised | check_and_fix_srt_global.py:90-101 | a block starts exactly at a digit line followed by a `-->` line, and keeps its stripped index and its raw timecode line |
| Rebuild.LooseLinesStripped | check_and_fix_srt_global.py:133-139 | every line outside a block is copied stripped, a blank one as an empty line |
| Rebuild.BlockRendering | check_and_fix_srt_global.py:125-132 | a rebuilt block ends with exactly one blank separator line |
| Rebuild.ReportsSpec | check_and_fix_srt_global.py:118-122 | a block is reported exactly when it has more than one text line, with its index and text |
| Rebuild.CollapseNoTriple | check_and_fix_srt_global.py:144 | after `re.sub(r'\n{3,}', '\n\n')` no three newlines are adjacent |
| Rebuild.CollapseKeepsText | check_and_fix_srt_global.py:144 | the collapse removes only newlines |
| Rebuild.CollapseIdle | check_and_fix_srt_global.py:144 | text with no triple newline is left unchanged |
| Rebuild.CollapseIdempotent | check_and_fix_srt_global.py:144 | collapsing twice is collapsing once |
| Rebuild.CollectText | check_and_fix_srt_global.py:104-115 | the text loop collects exactly the stripped lines up to the next blank line or header |
| Rebuild.RebuildOnce | check_and_fix_srt_global.py:87-139 | one pass of the loop emits the item at `i`, reports it if it is a multi-line block, and advances past it |
| Rebuild.RebuildLines | check_and_fix_srt_global.py:86-139 | the loop computes the rebuilt lines and the multi-line report of the file |
| Rebuild.ProcessFile | check_and_fix_srt_global.py:77-144 | conversion, rebuild, join and collapse compute the written content, which holds no triple newline |
| Rebuild.PluginTable | check_and_fix_srt_global.py:6-64 | the map's duplicate `插线` key keeps its first position with its last value `插線` |
| Rebuild.PluginExample | check_and_fix_srt_global.py:77-78 | in dict order, `插线` passes through `插線` and becomes `插件` |
| Merge.MergedIsSpaced | merge_multiline_subs.py:31-49 | merging non-empty lines puts a space between two lines exactly when the boundary characters are both ASCII alphanumeric |
| Merge.MergedLacks | merge_multiline_subs.py:31-49 | merging introduces no character other than a space |
| Merge.MergeText | merge_multiline_subs.py:33-48 | the merge loop computes the merge |
| Merge.SpaceExample | merge_multiline_subs.py:40-44 | `abc` and `123` merge as `abc 123` |
| Merge.NoSpaceExample | merge_multiline_subs.py:40-46 | `你好` and `世界` merge as `你好世界` |
| Merge.NonEmptyStripped | merge_multiline_subs.py:29 | the filtered text lines are all non-empty |
| Merge.RewriteBlockSpec | merge_multiline_subs.py:20-55 | a block is merged exactly when it has an index, a timecode and more than one non-blank text line; a merged block keeps its first two lines and one merged text line; a qualifying block with at most one non-blank text line is rebuilt from its index, its timecode and its stripped non-blank text lines; a non-qualifying block is kept as it is |
| Merge.NormalizeNoReturn | merge_multiline_subs.py:10 | after normalisation no carriage return remains |
| Merge.NewBlocksAt | merge_multiline_subs.py:16-55 | each new block is the rewrite of the corresponding kept block |
| Merge.MergedCountZero | merge_multiline_subs.py:57-62 | the modified count is zero exactly when no block was merged |
| Merge.MergeContent | merge_multiline_subs.py:10-62 | the method computes the file rewrite, and content is written exactly when the count is positive |
| Durations.Matches | update_course_durations.py:19-20 | every match found by `finditer` is a timestamp at or after the start |
| Durations.MatchesApart | update_course_durations.py:20 | the matches do not overlap |
| Durations.MatchesCover | update_course_durations.py:20 | every timestamp occurrence overlaps some match |
| Durations.CeilDivSpec | update_course_durations.py:41 | the integer ceiling is the least multiple-count covering the value |
| Durations.ParseDurationSpec | update_course_durations.py:19-44 | no timestamp gives `None`; otherwise the result is the end time of the last match rounded up to whole minutes, and at least 1 |
| Durations.Example | update_course_durations.py:34-44 | a last timestamp of `00:12:34,500` gives 13 minutes |
| Durations.LongMinutesExample | update_course_durations.py:19 | a minute field of 75 is accepted and gives 75 minutes |
| Durations.OverlapExample | update_course_durations.py:20-44 | a timestamp that starts inside an earlier match is skipped: `00:00:00,000:11:22,333` gives 1 minute, not the 12 its second timestamp would give |
| Durations.ShortExample | update_course_durations.py:43-44 | a one-millisecond file still counts as 1 minute |
| Durations.FirstNamed | update_course_durations.py:99-103 | the search returns the first file whose name contains the short unit id |
| Durations.SelectSrtSpec | update_course_durations.py:97-107 | the chosen file is the first name match, else the only file, else none |
| Durations.UpdatedUnitSpec | update_course_durations.py:66-122 | a unit keeps its id and path, is unchanged without a content path, and takes the parsed duration when one is found, else keeps its own |
| Durations.UpdatedCourseSums | update_course_durations.py:59-128 | every chapter's duration is the sum of its updated units and the course total is the sum of the chapters |
| Durations.UpdateChapter | update_course_durations.py:62-125 | the unit loop computes the updated chapter |
| Durations.UpdateCourses | update_course_durations.py:50-128 | the chapter loop computes the updated course |
| Assets.BlankEnd | generate_missing_assets.py:19-21 | text collection stops at the first blank stripped line or the end |
| Assets.Take | generate_missing_assets.py:31 | a Python slice `[:n]` is the longest prefix of at most `n` characters |
| Assets.SummarySpec | generate_missing_assets.py:27-31 | the preview is the first 1000 characters of the concatenated text lines, or all of them |
| Assets.TextLinesNonEmpty | generate_missing_assets.py:19-21 | every collected text line is non-blank |
| Assets.NoHeaderNoText | generate_missing_assets.py:15-23 | a file without a block header contributes no text |
| Assets.BlockCollected | generate_missing_assets.py:17-21 | after a header the text lines up to the next blank line are collected, stripped and in order |
| Assets.CollectBlock | generate_missing_assets.py:19-21 | the inner loop collects exactly those lines |
| Assets.GenerateSummary | generate_missing_assets.py:7-31 | the scanning loop and the truncation compute the preview |
| Assets.WellFormedExample | generate_missing_assets.py:12-23 | two well-formed blocks give their two text lines |
| Assets.MissingSeparatorExample | generate_missing_assets.py:17-21 | without a blank separator the next block's index and timecode are taken as text |
| Assets.IsTargetSpec | generate_missing_assets.py:61-75 | a chapter directory is a target exactly when its name starts with a digit 3 to 6 followed by a dot |
| Assets.CheckTarget | generate_missing_assets.py:67-72 | the prefix loop decides that test |
| Assets.UnitEntriesSpec | generate_missing_assets.py:82-114 | every entry names its chapter and a unit directory with subtitles and no image, with a 100-character preview of the first subtitle file |
| Assets.MissingImagesTargets | generate_missing_assets.py:66-75 | only target chapters contribute entries |
| Assets.UnitEntriesCount | generate_missing_assets.py:82-114 | there is exactly one entry per unit needing a cover |
| Assets.ChapterEntries | generate_missing_assets.py:82-114 | the unit loop computes a chapter's entries |
| Assets.FindMissingImages | generate_missing_assets.py:66-114 | the chapter loop computes the whole list |
| Overview.CleanTextVisible | generate_overview.py:11-13 | `' '.join(text.split())` keeps every non-whitespace character, in order |
| Overview.CleanTextIdempotent | generate_overview.py:11-13 | cleaning twice is cleaning once |
| Overview.CleanTextSpaced | generate_overview.py:11-13 | the result has no leading, trailing or doubled whitespace |
| Overview.CleanTextLacks | generate_overview.py:11-13 | cleaning introduces no visible character |
| Overview.CleanTextExample | generate_overview.py:11-13 | `" a \t b  "` cleans to `"a b"` |
| Overview.WordsJoin | generate_overview.py:13 | `split()` of words joined by single spaces gives the words back |
| Overview.FirstQualifying | generate_overview.py:20-25 | the search finds the first line whose stripped form qualifies |
| Overview.FirstParagraphNone | generate_overview.py:15-27 | `None` is returned exactly when no line qualifies |
| Overview.FirstParagraphStarless | generate_overview.py:26 | a returned paragraph contains no `*` |
| Overview.ExtractFirstParagraph | generate_overview.py:15-27 | the enumerate loop computes the first paragraph |
| Overview.SplitStopsCount | generate_overview.py:50 | `re.split` on the sentence stops gives one more piece than there are stops |
| Overview.SplitStopsConcat | generate_overview.py:50 | the pieces concatenate to the text without its stops |
| Overview.SplitStopsLack | generate_overview.py:50 | no piece contains a stop |
| Overview.CandidatesSpec | generate_overview.py:51 | the kept sentences are exactly the stripped pieces longer than 10 characters |
| Overview.FinishSpec | generate_overview.py:55-64 | a note is its cleaned sentence, cut to 80 characters plus `...` when longer, and always ends with `。` |
| Overview.SimpleNoteSpec | generate_overview.py:29-73 | a note for an existing README always ends with `。`, and comes from the first long sentence of the intro when there is one |
| Viewer.NatToStringValue | app.js:642 | `n.toString()` has decimal value `n` |
| Viewer.Pad2Spec | app.js:642 | `padStart(2, '0')` keeps the value and gives at least two digits, exactly two below 100 |
| Viewer.FormatTimeSpec | app.js:636-644 | `formatTime` gives three colon-separated digit fields, minutes and seconds two digits below 60, whose value is the input seconds |
| Viewer.FlattenAt | app.js:105-114 | unit `ui` of chapter `ci` sits at the chapter's offset plus `ui` in the flat list |
| Viewer.LoadFlatUnits | app.js:105-114 | the nested `forEach` loops compute the flat list |
| Viewer.FindIndex | app.js:374 | `findIndex` returns the first position with the id, or -1 when there is none |
| Viewer.NavigationSpec | app.js:373-402 | the previous button is enabled exactly when the unit is past the first position, the next button exactly when before the last; an unknown id enables next to the first unit |
| Viewer.FindIndexDistinct | app.js:374 | with distinct ids, looking up a unit's id finds that unit |
| Viewer.NextThenPrev | app.js:382-398 | with distinct ids, going next then previous, or previous then next, returns to the unit |
| Viewer.KeysMatchButtons | app.js:778-797 | the arrow keys move exactly when the corresponding button is enabled, and to the same unit |
| Viewer.IndexOf | app.js:558 | `indexOf` returns the first position of the id, and -1 exactly when it is absent |
| Viewer.ToggledSpec | app.js:556-567 | toggling adds the id when absent and removes it when present, leaves other ids alone and keeps the list duplicate-free |
| Viewer.ToggledNoCurrent | app.js:556 | without a current unit the list is unchanged |
| Viewer.ToggleTwice | app.js:558-567 | toggling twice restores the set of completed units |
| Viewer.Progress.constructor | app.js:28-34 | the record holds the given completed list and study times |
| Viewer.Progress.ToggleUnitComplete | app.js:555-568 | the completed list becomes its toggle and the timers are untouched |
| Viewer.Progress.Tick | app.js:608-620 | a visible tick adds one second to both timers and asks to save exactly when the total becomes a multiple of 30; a hidden tick changes nothing |
| Viewer.SavesEvery30 | app.js:616-619 | over a stretch of visible ticks, the saves are the multiples of 30 crossed |
| Viewer.LastIndexOf | app.js:328 | `lastIndexOf` returns the last position of the character, or -1 |
| Viewer.BasePathSpec | app.js:328 | the base path is the longest prefix ending with `/`, and empty when the path has no `/` |
| Viewer.ImageSrcSpec | app.js:328-336 | a relative image source is prefixed with the base path, absolute and `http` sources are kept, and the result always ends with the original source |
| Viewer.ClassifySpec | app.js:964-969 | a line is an option exactly when it holds `- [ ]` or `- [x]`, and it is correct exactly when it holds `- [x]` |
| Viewer.CheckedOptionText | app.js:965-969 | a checked option shows the line without its first checked marker, trimmed, wherever the marker stands, when no unchecked marker is left |
| Viewer.NoOptionsUnchanged | app.js:972-974 | content with no option line is returned with a trailing `<br>` and is otherwise unchanged |
| Viewer.ProcessTextQuizOptions | app.js:958-977 | the `forEach` loop computes the rewritten quiz content |
| Viewer.ClicksRevealed | app.js:995-997 | once revealed, further clicks change nothing |
| Viewer.FirstClickOnly | app.js:993-1009 | after any click sequence only the first click is selected and recorded |
| Viewer.QuizBlock.constructor | app.js:877 | a new quiz block is unrevealed with nothing selected |
| Viewer.QuizBlock.HandleQuizOptionClick | app.js:993-1009 | a click moves the block's state by the click rule |

## Left out

- File I/O, `glob`, directory listing, JSON load and dump, the `main` drivers and every `print` are not modelled. Contents, file names and directory listings are parameters.
- The module-level read and write in `process_srt.py` and the report file written by `check_and_fix_srt_global.py` are not modelled.
- The contents of the replacement tables are not modelled. Rule lists are parameters, and only the rule pairs used in the examples appear as constants.
- `process_global_srt.py` calls `get_replacements` twice (lines 133 and 135). The first result is discarded, so the model calls it once.
- `Rules.SortByLength`: the in-place `list.sort` is modelled as a function on values, with stability stated through per-length subsequences.
- Unicode digits are not modelled: `isdigit` and `\d` accept only ASCII digits.
- `Wrap.SplitText`: requires `maxLength >= 1`. The scripts only pass 20, and a zero `max_length` would make `range` fail.
- `Durations.UpdateCourses`: the in-place update of the JSON dictionaries is modelled as a function returning a new course.
- A missing `duration` key is modelled as 0, and the float `ceil` is computed exactly with integers.
- The exception handlers in `parse_duration_from_srt` and `generate_simple_note` are not modelled.
- `Durations.SelectSrtSpec`: the substring test on file names is modelled as written. A unit id `1-1` therefore also matches `11-1.srt`.
- `Overview.SimpleNoteSpec`: the "why"/"what" and learning-objective regular expressions are not modelled. Their outcome is the `Readme` parameter.
- `Overview.FinishSpec`: the bold, italic and link regexes are not modelled. They are the `unmark` parameter.
- The README writer and image prompt strings of `generate_missing_assets.py` are not modelled.
- `Viewer`: the DOM, `localStorage`, `setInterval`, `Date`, toasts and the floating-point progress percentage in the viewer are not modelled. The viewer is modelled through the values these functions compute.
- `Viewer.CheckedOptionText`: JavaScript's `trim` is modelled by Python's whitespace set, which differs from JavaScript's on a few characters.
