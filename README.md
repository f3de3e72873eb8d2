# Jacarex playground core, modelled in Dafny

Jacarex is an interactive regex playground. The user keeps a list of test
samples. Each sample is a `Word` or a `Line`. The user types patterns, and
every sample is printed with the parts the pattern matched shown in green.
Lines starting with `#` are commands that edit the sample list. While the
user types, the line editor offers completions for those commands.

This project models four parts:

- **Text samples** (`src/text.rs`), module `TextSample`: the `Word | Line`
  enum and its accessors. `is_line` is kept as written, so it holds for
  `Word`.
- **Pattern evaluator**, in two copies:
  - `src/regex_attempt.rs`, the copy the playground uses, is module
    `Evaluator`. It covers one compile of the pattern and one search per
    sample. It also covers the highlight walk (the `while` loop over a
    cursor and a range iterator) and the rendering of each sample.
  - `src/regexattempt.rs` is module `GradedEvaluator`. It adds the
    full-match classifier (`did_not_match`, `passed_all_tests`) and its own
    rendering, which quotes by variant.
  - Both copies have the same `new` (`src/regex_attempt.rs:14-26` and
    `src/regexattempt.rs:15-27`). It is modelled once, as `Evaluator.New`.
  - Printing is modelled as the returned sequence of printed pieces
    (`Plain`, `Green`, `Red`, `Quote`, `Newline`).
- **Session** (`src/playground.rs`), module `Playground`:
  - the class `PlaygroundData`, whose `Parse` trims the line and dispatches
    a command on the sample list in place;
  - `LoadFromFile`;
  - the read loop of `PlaygroundManager::start`, as a two-state machine
    over a sequence of editor results.

  It uses module `Strings` for `trim_start`, `starts_with` and `split(' ')`.
- **Command hints** (`src/prompt.rs`), module `Prompt`: `CommandHint`,
  `suffix`, `completion`, the five built-in hints and `EditorHinter::hint`.

The regex engine is a parameter, defined in module `RegexEngine`:

- A `Compiler` maps a pattern to a `Matcher` or to a `RegexError`.
- A `Matcher` maps a string to `None` (no match) or to one entry per capture
  group. An entry is `None` when the group did not take part, and otherwise
  a byte range.
- `CompilerWellFormed` is the one assumption made about the engine: every
  range it reports lies inside the searched string.

The file system is an oracle from file names to optional contents. The line
editor is a sequence of read results. Strings are sequences of one-byte
characters.

### Where the code and the intended design differ

The model follows the code in each of these cases.

- **Gap before a range.** The walk prints the plain gap before a range as
  the phrase from offset 0 up to the range start. The walk the code intends
  prints it from the cursor: the cursor exists to track what has already
  been printed, and the final step prints only what "wasn't printed"
  (`src/regex_attempt.rs:41` and 46, `src/regexattempt.rs:90`).
  - `Evaluator.Walk` is the walk as written.
  - The first range the engine reports is group 0, the whole match. Any
    gap before it starts at cursor 0, so the quirk shows only after the
    cursor has moved. That happens with a nested group: a gap between two
    groups nested in the match reprints the phrase from offset 0.
    `Evaluator.NestedGapReprintsFromZero` proves this. For example,
    `(a)b(c)` over `abc` gives ranges 0..3, 0..1 and 2..3 and prints
    `abcaabc`.
  - `Evaluator.GapFromZeroDuplicates` states the same quirk for any two
    ranges r1 and r2, not only those the engine reports: a gap after a
    first range starting at 0 makes that range's text print twice.
  - `Evaluator.WalkFromCursor` is the intended walk, with the gap taken
    from the cursor. `Evaluator.WalkFromCursorRoundTrip` proves that it
    prints the phrase back unchanged when the ranges are ascending and
    disjoint.
  - `Evaluator.WalkAgreesWithoutLaterGaps` proves that the two walks agree
    whenever no gap follows a moved cursor.
- **Nested groups.** The walk gets the ranges of every participating group,
  group 0 (the whole match) first. A group nested in the match starts
  before the cursor, so its text is printed again, followed by the rest of
  the phrase from its end. Neither walk prints the phrase back in that case.
  - `Evaluator.NestedGroupReprints` proves this for both walks. For
    example, `c(a)t` over `cat` gives ranges 0..3 and 1..2 and prints
    `catat`.
  - So the round trip above holds only for patterns whose participating
    groups give ascending, disjoint ranges. Group 0 spans every other group,
    so in practice no other group may take part, except an empty one at the
    match's end.
- **Quoting.** `is_line` returns true for Words. So the playground's copy
  quotes matched Words and prints matched Lines bare. Unmatched samples are
  quoted by variant, so an unmatched Line is quoted. The other copy quotes
  matched samples by variant.
- **Pattern submitted.** The pattern tried after each line is the
  left-trimmed line (`src/playground.rs:46`, 77), not the line as typed.
- **`#addword` tokens.** `#addword` splits on single spaces and keeps empty
  tokens. It does not trim them, although its help text says it does.

## Model

| member | source | states |
|---|---|---|
| TextSample.Text.AsRef | src/text.rs:6-13 | a Word views as its word, a Line as its line |
| TextSample.Text.IsLine | src/text.rs:16-18 | true exactly for a Word, so false for every Line |
| TextSample.Text.AsStr | src/text.rs:20-22 | the same string as `as_ref`: the word of a Word, the line of a Line |
| TextSample.SameStringSameView | src/text.rs:6-22 | Word(s) and Line(s) show the same string s, yet `is_line` tells them apart |
| Evaluator.CaptureAll | src/regex_attempt.rs:17-20 | one search result per sample, in sample order, each the matcher applied to that sample's string |
| Evaluator.New | src/regex_attempt.rs:14-26 | a compile error is passed through unchanged; otherwise the attempt keeps the samples and holds, at each index, the search of that sample |
| Evaluator.NewIsConsistent | src/regex_attempt.rs:14-26 | with an engine that reports ranges inside the searched string, every range in the attempt lies inside its own sample |
| Evaluator.Participating | src/regex_attempt.rs:63 | a range is kept exactly when some group reported it; groups that took no part are dropped; never more ranges than groups |
| Evaluator.ParticipatingAppend | src/regex_attempt.rs:63 | `flatten` keeps group order: the ranges of two runs of groups are those of the first run, then those of the second |
| Evaluator.ParticipatingSingle | src/regex_attempt.rs:63 | a group that took part gives its range exactly once; a group that did not gives nothing |
| Evaluator.ParticipatingIn | src/regex_attempt.rs:63 | the kept ranges of a well-formed search all lie inside the sample |
| Evaluator.Walk | src/regex_attempt.rs:37-50 | the walk as written, one step per range: the gap from offset 0 when the range starts past the cursor, the range in green, then the rest from the last cursor; stated by WalkShape, WalkHighlightsEveryRange, SingleRangeRoundTrip, GapFromZeroDuplicates, NestedGapReprintsFromZero and NestedGroupReprints |
| Evaluator.WalkShape | src/regex_attempt.rs:37-50 | the walk prints only plain and green pieces and ends with the rest of the phrase from the last cursor |
| Evaluator.WalkHighlightsEveryRange | src/regex_attempt.rs:39-44 | the green pieces are exactly the texts of the ranges, one each, in the engine's order |
| Evaluator.SingleRangeRoundTrip | src/regex_attempt.rs:39-47 | with exactly one range, the printed pieces concatenate back to the phrase |
| Evaluator.GapFromZeroDuplicates | src/regex_attempt.rs:40-42 | as written, for any two ranges r1, r2 (not only those the engine reports) with r1 starting at 0 and a gap before r2, the gap reprints from offset 0: output is r1's text followed by the whole phrase, never the phrase itself |
| Evaluator.NestedGapReprintsFromZero | src/regex_attempt.rs:37-50 | on ranges the engine reports (the match at offset 0, then two groups nested in it with a gap between them), the walk prints the match, the first group's text again, then the whole phrase from offset 0, never the phrase itself |
| Evaluator.NestedGroupReprints | src/regex_attempt.rs:37-50 | with a group nested in a match that starts the phrase, both walks print the match, then the nested group's text again and the rest from its end, so never the phrase itself when the nested group starts inside the match |
| Evaluator.WalkFromCursorRoundTrip | src/regex_attempt.rs:37-50 | the walk with the gap taken from the cursor prints the phrase from the cursor unchanged for ascending disjoint ranges |
| Evaluator.WalkAgreesWithoutLaterGaps | src/regex_attempt.rs:40-42 | the walk as written and the cursor walk print the same pieces when no gap follows a moved cursor |
| Evaluator.HighlightWalk | src/regex_attempt.rs:37-50 | the cursor loop over the range iterator terminates and prints exactly the walk of the ranges from cursor 0 |
| Evaluator.PrintHighlights | src/regex_attempt.rs:28-57 | a matched sample prints an opening quote when `is_line` holds, the walk, then a closing quote when `is_line` holds, and the line end |
| Evaluator.MatchedQuotedIffWord | src/regex_attempt.rs:31-35 | a matched sample's output opens with a quote, and has a quote before its line end, exactly when it is a Word; it ends the line |
| Evaluator.Unmatched | src/regex_attempt.rs:66-71 | an unmatched Word prints red on its own; an unmatched Line prints red between quotes; stated by UnmatchedWholeRed |
| Evaluator.RenderSample | src/regex_attempt.rs:61-72 | a matched sample prints the highlights of its participating ranges; an unmatched one prints red; stated by MatchedQuotedIffWord, UnmatchedWholeRed and OneLineEndPerSample |
| Evaluator.UnmatchedWholeRed | src/regex_attempt.rs:66-71 | an unmatched sample prints its whole text as its only red piece, with a quote before and after it exactly when it is a Line, and ends the line: four pieces for a Line, two for a Word |
| Evaluator.OneLineEndPerSample | src/regex_attempt.rs:61-72 | every sample's output, matched or not, holds exactly one line end, the one `println!` adds; line breaks inside the sample's own text are not line ends |
| Evaluator.OneLineEndPerPairedSample | src/regex_attempt.rs:59-75 | `print_matches` ends one line per sample paired by `zip` (one `println!` each), as many as the shorter of samples and searches |
| Evaluator.PrintMatches | src/regex_attempt.rs:59-75 | the loop over zipped samples and searches prints each sample's rendering in sample order |
| GradedEvaluator.DidNotMatch | src/regexattempt.rs:30-48 | true when there is no match, or some participating group does not span the whole sample; false exactly when every participating group spans it |
| GradedEvaluator.PassedAllTests | src/regexattempt.rs:52-72 | true exactly when every zipped (sample, search, expectation) triple passes: Match needs a full match, Skip needs no match |
| GradedEvaluator.PartialMatchFails | src/regexattempt.rs:35-40 | one participating group short of the whole sample fails a Match expectation |
| GradedEvaluator.FullMatchPasses | src/regexattempt.rs:30-48 | a Match expectation is met exactly when the sample matched and every participating range is the whole sample |
| GradedEvaluator.ExtraKindsIgnored | src/regexattempt.rs:54-57 | expectations past the shorter of samples and searches are never looked at: appending them changes neither the triples `zip` forms nor whether every triple passes |
| GradedEvaluator.PrintHighlights | src/regexattempt.rs:74-106 | this copy quotes a matched sample exactly when it is a Line, around the same walk |
| GradedEvaluator.RenderSample | src/regexattempt.rs:110-121 | this copy's rendering of one sample: quoted by variant when matched, the same red text when unmatched; stated by QuotedIffLine |
| GradedEvaluator.QuotedIffLine | src/regexattempt.rs:108-124 | here matched and unmatched samples are both quoted exactly when they are Lines, around the same walk as the other copy |
| GradedEvaluator.CopiesDisagreeOnQuotes | src/regexattempt.rs:77-84 | the two copies never render a matched sample alike |
| GradedEvaluator.PrintMatches | src/regexattempt.rs:108-124 | this copy's loop prints each zipped sample's rendering in order |
| Strings.TrimStart | src/playground.rs:46 | the result is a suffix of the line, everything dropped is whitespace, and it does not start with whitespace |
| Strings.TrimStartIdempotent | src/playground.rs:46 | trimming twice is trimming once |
| Strings.Split | src/playground.rs:49 | `split(' ')` always gives at least one piece; SplitPiecesHaveNoSep, JoinSplit and SplitCount state the rest |
| Strings.SplitPiecesHaveNoSep | src/playground.rs:49 | no piece of `split(' ')` holds a space |
| Strings.JoinSplit | src/playground.rs:49 | the pieces joined with single spaces give the line back |
| Strings.SplitCount | src/playground.rs:49 | there is one more piece than there are spaces, so empty pieces are kept |
| Playground.Words | src/playground.rs:58-61 | one Word per token, in token order |
| Playground.AfterLoad | src/playground.rs:34-43 | a readable file adds one Line holding its contents; a failed read leaves the list as it was; stated by LoadFromFile and ReadFileFromOffsetTen |
| Playground.Classify | src/playground.rs:47-73 | the arm the guards of `parse` pick: not a command without a leading `#`, otherwise the first of the five prefixes the line starts with, else no command; stated by ClassifyByPrefix and UnknownCommandKeepsSamples |
| Playground.Dispatch | src/playground.rs:45-75 | the sample list after the command part of `parse`; stated arm by arm by the lemmas below |
| Playground.ClassifyByPrefix | src/playground.rs:50-73 | each of the five command prefixes selects its own arm, whatever follows it |
| Playground.NonCommandKeepsSamples | src/playground.rs:46-47 | a line that does not start with `#` once trimmed leaves the samples unchanged |
| Playground.HelpAndClear | src/playground.rs:51-57 | `#help` changes nothing; `#clear` empties the list |
| Playground.AddWordAppendsTokens | src/playground.rs:58-62 | `#addword` appends one Word per token after the first, one per space, and keeps every earlier sample |
| Playground.AddWordCommand | src/playground.rs:49-62 | `#addword ` followed by text appends one Word per space-separated piece of that text |
| Playground.AddWordRoundTrip | src/playground.rs:49-62 | the Words `#addword` appends, joined back with spaces, are the text after the command |
| Playground.AddWordThree | src/playground.rs:58-62 | `#addword a b c` appends Word(a), Word(b), Word(c) in order |
| Playground.AddLineFromOffsetNine | src/playground.rs:63-67 | `#addline` appends the trimmed line from offset 9 exactly when it is longer than 9, else changes nothing |
| Playground.ReadFileFromOffsetTen | src/playground.rs:68-72 | `#readfile` reads the name from offset 10 only when the line is longer than 10; a readable file adds one Line, an unreadable one nothing |
| Playground.UnknownCommandKeepsSamples | src/playground.rs:73 | a `#` line that is none of the five commands changes nothing |
| Playground.PlaygroundData.AddWords | src/playground.rs:58-62 | the `#addword` loop pushes one Word per token after the first, in order, after the samples already there |
| Playground.TryPattern | src/playground.rs:77-79 | the compile error when the pattern does not compile, otherwise the rendering of every sample |
| Playground.PlaygroundData.constructor | src/playground.rs:17-22 | a new session has no samples |
| Playground.PlaygroundData.LoadFromFile | src/playground.rs:34-43 | a readable file is pushed as one Line; a failed read leaves the list as it was |
| Playground.PlaygroundData.Parse | src/playground.rs:45-80 | the new list is the dispatch of the trimmed line over the old one, and the report is the trimmed line tried as a pattern against the new list |
| Playground.StopAt | src/playground.rs:121-134 | the first read that is not a line: every earlier read is a line |
| Playground.LinesAppend | src/playground.rs:121-134 | the lines passed on from two runs of reads are those of the first run, then those of the second |
| Playground.EmptyLinesIgnored | src/playground.rs:123-124 | an empty line anywhere in the input adds nothing to what is parsed: the lines are those of the input without it |
| Playground.Start | src/playground.rs:117-135 | the loop reads up to and including the first error, parses exactly the non-empty lines before it in order, and saves the history once |
| Prompt.CommandHint.New | src/prompt.rs:26-32 | requires the text to start with the prefix; shows the text and completes up to the prefix's length |
| Prompt.CommandHint.Suffix | src/prompt.rs:34-39 | drops the first k characters: the old text is those k characters followed by the new text; the completion length shrinks by k, stopping at 0 |
| Prompt.CommandHint.Completion | src/prompt.rs:78-84 | None exactly when the completion length is 0; otherwise the prefix of the text of that length |
| Prompt.NewCompletesToPrefix | src/prompt.rs:26-32 | a hint made with a prefix completes to exactly that prefix, or to nothing when it is empty |
| Prompt.SuffixComposes | src/prompt.rs:34-39 | stripping a then b is stripping a + b |
| Prompt.PlaygroundHints | src/prompt.rs:42-50 | five hints, one per command, each completing its whole non-empty text |
| Prompt.EditorHinter.Hint | src/prompt.rs:55-70 | None exactly when the cursor is inside the line, at 0, or no hint starts with the typed text; otherwise some stored hint is the typed text followed by the returned one |
| Prompt.FirstMatch | src/prompt.rs:60-69 | None exactly when the typed text is empty or no hint starts with it; otherwise a matching hint stripped of the typed text |
| Prompt.FirstMatchIsFirst | src/prompt.rs:60-69 | the hint chosen is the first in visiting order that starts with the typed text: no earlier hint does |
| Prompt.FullHintCompletesRest | src/prompt.rs:55-84 | when every stored hint completes in full, a hint shown at the end of the line completes to all that is left of its command, or to nothing once it is typed in full |
| Prompt.BuiltinHintCompletesCommand | src/prompt.rs:42-84 | the editor's own hints complete the rest of the command being typed |

## Left out

- The regex engine (`Regex::new`, `captures`): it is a foreign crate, so it is the parameter `Compiler`. Its ranges are assumed to lie inside the searched string.
- Terminal colouring: the `colored` styles are the segment tags `Green` and `Red`.
- The line editor: `Prompt::new`, `read_line` with `add_history_entry`, `save_history`, and the history file. These wrap an external library and the file system. The editor is a sequence of read results that ends in end of file.
- Playground.Start: a history save is counted, not written; the intro text and the exit messages are not modelled.
- `fs::read_to_string` is an oracle from file names to optional contents.
- `print_help`, `show_regex_error`, `check_readline_error`, `display_intro_text`, the "Test strings cleared!" message and `load_from_file`'s "Problem reading file" error message only print text, so they are not modelled. As a result, a `#readfile` whose read fails and one whose line is too short both leave the list unchanged and report nothing the model can tell apart.
- UTF-8: characters stand for single bytes, so char-boundary panics on byte slicing and non-ASCII whitespace are not modelled.
- `HashSet` hashing: the order in which `hint` visits the hints is a parameter that lists the set, so `hint` returns the first match in some order.
- `Hint::display` is a plain field accessor and is not modelled separately.
- Prompt.CommandHint.New: the `debug_assert` is a precondition, so a release build's unchecked call with a non-prefix is not modelled.
- Playground.Reports: states only its length; its entries are stated by `Playground.Start` and `Playground.PlaygroundData.Parse`.
- `src/tutorial.rs`, which defines `TestKind`, is not part of this model; `GradedEvaluator.TestKind` carries its two cases.
