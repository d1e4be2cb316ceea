# CodeL game core in Dafny

CodeL is a browser game with two modes. In *bug mode* the player sees a
buggy listing. They name the line that holds the bug and type a fix. In
*completion mode* the player types a whole listing and gets line-by-line
feedback, Wordle style: `correct` means the same line at the same place,
`present` means the line occurs elsewhere and is not yet used, and
`absent` means neither. Both modes allow `MAX_TRIES` = 6 guesses.

This project models the game's logic and proves what it guarantees:

- `utils.dfy` (module `Utils`) covers `normalizeLine` and `normalizeLines`.
  - `normalizeLine` drops the trailing whitespace run.
  - `normalizeLines` splits on `\n`, normalises each line, then removes
    empty lines from the front (`shift`) and the back (`pop`).
  - The method keeps the source's loops. `NormalizedLines` is the
    function that specifies it.
- `scoring.dfy` (module `Scoring`) covers `scoreGuess`.
  - It is imperative: a `used` array and an `out` array, a positional
    first pass, then a second pass that takes the leftmost unused equal
    target line (`findIndex`).
  - The method is proved against `ScoreSpec`, a declarative statement of
    the feedback and of which target line each guess line claims.
  - Proved about `ScoreSpec`: at most one feedback satisfies it; target
    lines are claimed at most once; the number of `correct` plus
    `present` lines never exceeds the number of target lines; every line
    is `correct` with equal lengths exactly when guess and target are
    equal.
- `compare.dfy` (module `Compare`) covers `normalizeForComparison`,
  `isFixGuessCorrect` and `bugFixHighlights`.
  - `normalizeForComparison` is proved to equal the text's
    whitespace-separated words joined by single spaces, so it is
    idempotent.
  - For `isFixGuessCorrect`, the seven-step rule chain is proved to reduce
    to a two-part rule. A fix counts when it has a non-blank line, and
    either one of its lines is a changed line of the corrected listing or
    the space-joined fix occurs inside the space-joined corrected listing.
    The exact-match, changed-lines-match, single-line and bug-line rules
    are therefore special cases of these two.
    When the corrected listing has a blank line, the exact-match rule can
    never fire. If that blank line sits between two non-blank lines, the
    pasted non-blank lines are not contained in the joined listing either,
    because the joined listing holds two spaces where the joined fix holds
    one. Such a fix is then accepted only through a shared non-blank changed
    line. A blank corrected line always counts as changed, because its
    comparison form is empty, but it never matches a fix line. A
    blank line at the start or end of the listing only adds a space at an
    edge, and the containment rule still accepts the pasted lines.
  - For `bugFixHighlights`: each highlight is the trimmed text of a fixed
    line that the buggy listing changes. Each is non-empty and trimmed,
    and they come in listing order.
- `session.dfy` (module `Session`) covers the game page's state.
  - Class `Game` has the eight `useState` fields.
  - The derived flags (`wonBugMode`, `gameOver`, `won`, …) are predicates.
  - The handlers (`onSubmit`, `resetGame`, `retryBugMode`, mode choice,
    hint toggle, input fields) are methods.
  - `Game.Valid` is the invariant every handler keeps:
    - the histories stay within `MAX_TRIES`;
    - every recorded bug guess is what `onSubmit` would record;
    - every completion guess has the scorer's feedback.
  - `parseInt` is modelled for the inputs it can see: leading whitespace,
    a sign, `0x` hex and the decimal digits up to the first non-digit.
  - The win conditions are proved to mean what they say. Completion mode
    is won exactly when the last guess's normalised lines equal the
    target. The source tests this as "all correct and same length".

## Model

| member | source | states |
|---|---|---|
| Utils.NormalizeLine | src/lib/utils.ts:1-4 | the result is a prefix of the line, does not end in whitespace, and only whitespace was removed |
| Utils.IsSpace | src/lib/utils.ts:3 | no contract of its own: the ECMAScript `\s` class (white space and line terminators), which `trim` also uses; see NormalizeLine and Compare.Trim |
| Utils.NormalizeLineUnique | src/lib/utils.ts:3 | any prefix that leaves only whitespace and does not end in whitespace is the result of `normalizeLine` |
| Utils.NormalizeLineIdempotent | src/lib/utils.ts:1-4 | normalising a normalised line changes nothing |
| Utils.Split | src/lib/utils.ts:7 | `split("\n")` yields at least one piece and no piece contains the separator |
| Utils.JoinSplit | src/lib/utils.ts:7 | joining the pieces of a split with the separator gives back the text |
| Utils.SplitJoin | src/lib/utils.ts:7 | splitting a join of separator-free pieces gives back the pieces |
| Utils.SplitCount | src/lib/utils.ts:7 | a split has one more piece than the text has separators |
| Utils.Join | src/App.tsx:67-68 | no contract of its own: `join(sep)`; see JoinSplit, SplitJoin and Compare.JoinIncludesPart |
| Utils.MapNormalizeLineAt | src/lib/utils.ts:7 | piece k of the mapped split is `normalizeLine` of raw line k |
| Utils.NormalizedLines | src/lib/utils.ts:6-14 | no contract of its own: the value `normalizeLines` returns; see NormalizeLines and the NormalizedLines… lemmas |
| Utils.NormalizeLines | src/lib/utils.ts:6-14 | the loop-based method returns exactly `NormalizedLines(text)` |
| Utils.ShiftEmpty | src/lib/utils.ts:10 | the `shift` loop removes exactly the leading empty lines |
| Utils.PopEmpty | src/lib/utils.ts:11 | the `pop` loop removes exactly the trailing empty lines |
| Utils.NormalizedLinesSlice | src/lib/utils.ts:6-14 | the result is a contiguous run of the normalised pieces, with only empty pieces dropped on either side |
| Utils.NormalizedLinesEdges | src/lib/utils.ts:10-11 | a non-empty result starts and ends with a non-empty line; the result is empty exactly when every raw line is blank |
| Utils.NormalizedLinesAt | src/lib/utils.ts:7-13 | line i of the result is `normalizeLine` of the matching raw line, has no newline and no trailing whitespace |
| Utils.NormalizedLinesElements | src/lib/utils.ts:7 | every result line is newline-free and already normalised |
| Utils.NormalizedLinesLength | src/lib/utils.ts:7-13 | there are at most one more lines than newlines in the text |
| Utils.NormalizeLinesIdempotent | src/lib/utils.ts:6-14 | normalising the newline-joined result gives the same lines again |
| Scoring.FindUnused | src/lib/scoring.ts:25 | `findIndex` returns the leftmost unused target index holding the line, or -1 when every such index is used |
| Scoring.MarkPositional | src/lib/scoring.ts:14-20 | after the first pass a line is `correct` exactly when it equals the target line at its index, and `used` marks exactly those indices |
| Scoring.SecondPassStep | src/lib/scoring.ts:23-31 | one iteration of the second pass keeps the pass invariant: earlier lines meet the specification, and `used` holds exactly the claimed target lines |
| Scoring.ScoreGuess | src/lib/scoring.ts:10-33 | the feedback keeps every guess line. It is `correct` iff positional match, `present` iff it took the leftmost free equal target line, and `absent` iff none was free. Matched lines never outnumber target lines. An identical guess is all `correct` |
| Scoring.ScoreSpecUnique | src/lib/scoring.ts:10-33 | the specification determines the feedback: two results that meet it are equal |
| Scoring.ClaimsDistinct | src/lib/scoring.ts:11-31 | no two matched guess lines claim the same target line |
| Scoring.MatchedBound | src/lib/scoring.ts:10-33 | the number of `correct` plus `present` lines is at most the number of target lines |
| Scoring.AllCorrectIffEqual | src/lib/scoring.ts:14-20 | all feedback `correct` with equal lengths holds exactly when the guess equals the target |
| Compare.TrimStart | src/App.tsx:187 | only leading whitespace is removed and the result does not start with whitespace |
| Compare.Trim | src/App.tsx:56 | the result has no whitespace at either end |
| Compare.TrimInfix | src/App.tsx:56 | `trim` returns a slice of the text with only whitespace on either side |
| Compare.TrimEmpty | src/App.tsx:196-198 | a text trims to empty exactly when it is all whitespace |
| Compare.CollapseSpaces | src/App.tsx:56 | `replace(/\s+/g, " ")` leaves only single spaces as whitespace, never two in a row, and is empty only for empty input |
| Compare.NormalizeForComparison | src/App.tsx:55-57 | no contract of its own; see NormalizeForComparisonWords, NormalizeForComparisonCanonical, NormalizeForComparisonIdempotent and NormalizeForComparisonEmpty |
| Compare.WordsCollapseSpaces | src/App.tsx:56 | collapsing whitespace keeps the text's words |
| Compare.WordsNormalizeLine | src/App.tsx:56 | dropping trailing whitespace keeps the text's words |
| Compare.NormalizeForComparisonCanonical | src/App.tsx:55-57 | the comparison form has no whitespace at the ends and only single spaces inside |
| Compare.NormalizeForComparisonWords | src/App.tsx:55-57 | the comparison form has the same words as the text and is those words joined by single spaces |
| Compare.NormalizeForComparisonIdempotent | src/App.tsx:55-57 | applying the comparison form twice changes nothing |
| Compare.NormalizeForComparisonEmpty | src/App.tsx:55-57 | the comparison form is empty exactly when the text is all whitespace |
| Compare.DropEmpty | src/App.tsx:62 | `filter(Boolean)` yields only non-empty lines, and a line is in the result exactly when it is a non-empty input line |
| Compare.DropEmptyAppend | src/App.tsx:62 | filtering a concatenation is the concatenation of the filtered parts, so the order of the kept lines is the input order |
| Compare.DropEmptyNonEmpty | src/App.tsx:62 | lines that are all non-empty are kept unchanged, with their order and repetitions |
| Compare.GuessLines | src/App.tsx:60-62 | no contract of its own: the fix's non-blank lines in comparison form; see GuessLinesBlank and IsFixGuessCorrectRules |
| Compare.GuessLinesBlank | src/App.tsx:60-64 | the fix has no non-blank line exactly when it is all whitespace |
| Compare.ChangedLines | src/App.tsx:77-84 | no contract of its own: the `reduce` building `changedLines`; see ChangedIndicesSpec and ChangedLinesAt |
| Compare.ChangedIndicesSpec | src/App.tsx:77-84 | `changedLines` draws from exactly the changed fixed lines, in ascending order |
| Compare.ChangedLinesAt | src/App.tsx:77-84 | entry j of `changedLines` is the comparison form of the j-th changed fixed line |
| Compare.BugLineIndex | src/App.tsx:109 | the index is `bugLineNumber - 1`, or 0 when that would be negative |
| Compare.Includes | src/App.tsx:101-105 | no contract of its own: `includes`, some position where the text holds the substring; see JoinIncludesPart and FixVerdictRules |
| Compare.FixVerdict | src/App.tsx:64-112 | no contract of its own: the rule chain in source order; see FixVerdictRules |
| Compare.IsFixGuessCorrect | src/App.tsx:59-113 | no contract of its own; see IsFixGuessCorrectRules, ExactFixAccepted and BlankFixRejected |
| Compare.FixVerdictRules | src/App.tsx:64-112 | the rule chain accepts iff the guess has a line and either shares a line with the changed lines or its joined form occurs in the joined target |
| Compare.IsFixGuessCorrectRules | src/App.tsx:59-113 | `isFixGuessCorrect` accepts iff the fix has a non-blank line and either shares a line with `changedLines` or occurs, joined, in the joined corrected listing |
| Compare.ExactFixAccepted | src/App.tsx:70-75 | a fix whose lines equal the corrected listing's is accepted |
| Compare.BlankTargetLineBlocksExactMatch | src/App.tsx:62-75 | when the corrected listing has a blank line, the exact-match rule can never fire, because the fix's blank lines are filtered out and the listing's are not |
| Compare.PastedListingWithBlankLine | src/App.tsx:66-112 | the fix `a`, `b` against the listing `a`, blank, `b`, whose only changed line is the blank one, is rejected: with the blank line between two non-blank lines, the joined listing holds two spaces where the joined fix holds one |
| Compare.PastedListingWithTrailingBlankLine | src/App.tsx:66-103 | the fix `a`, `b` against the listing `a`, `b`, blank, whose only changed line is the blank one, is accepted: the joined listing `a b ` contains the joined fix |
| Compare.BlankFixRejected | src/App.tsx:60-64 | a blank fix is rejected |
| Compare.JoinIncludesPart | src/App.tsx:67 | every line occurs in the space-joined listing |
| Compare.BugFixHighlights | src/App.tsx:135-147 | no contract of its own: the `reduce` building the highlights; see HighlightIndicesSpec, BugFixHighlightsAt and BugFixHighlightsTrimmed |
| Compare.HighlightIndicesSpec | src/App.tsx:135-147 | the highlights come from exactly the highlighted fixed lines, in ascending order |
| Compare.BugFixHighlightsAt | src/App.tsx:135-147 | highlight j is the trimmed text of the j-th highlighted fixed line |
| Compare.BugFixHighlightsTrimmed | src/App.tsx:140-143 | every highlight is non-empty and has no whitespace at either end |
| Session.ParseInt | src/App.tsx:187 | no contract of its own: `parseInt` with one argument, `None` for `NaN`; see ParseIntDecimal, ParseIntDigits and ParseIntBlank |
| Session.ParseIntDecimal | src/App.tsx:187 | `parseInt` of a decimal numeral followed by a non-digit returns that number, unless the numeral is `0` and the next character is `x` or `X` (then it is read as hexadecimal) |
| Session.ParseIntDigits | src/App.tsx:187 | on a text starting with a decimal digit and not with `0x` or `0X`, `parseInt` returns the value of the leading decimal digit run |
| Session.ParseIntBlank | src/App.tsx:187-189 | `parseInt` of a blank input is `NaN` |
| Session.BugSubmission | src/App.tsx:186-205 | no contract of its own: the guess the bug branch of `onSubmit` records, or `None`; see BugSubmissionRecorded |
| Session.RecordedAppend | src/App.tsx:207 | appending a well-formed guess keeps the bug history well-formed |
| Session.ScoredAppend | src/App.tsx:212-217 | appending an input with its scorer feedback keeps the completion history well-formed |
| Session.BugSubmissionRecorded | src/App.tsx:187-205 | a guess is recorded iff the line parses into `1..buggyLines.length` and the fix is not blank. It keeps the line and the raw fix, and carries both verdicts |
| Session.ScoredAllCorrect | src/App.tsx:149-166 | for a scored guess, all `correct` with as many lines as the target holds exactly when the normalised guess equals the target |
| Session.WonCompleteModeMeans | src/App.tsx:160-166 | completion mode is won exactly when the last guess's normalised lines equal the target lines |
| Session.WonBugModeMeans | src/App.tsx:153-156 | bug mode is won exactly when some guess names the bug line and its fix is accepted; then the bug line lies within the listing |
| Session.WonIsOver | src/App.tsx:153-179 | a won game is over |
| Session.Game.constructor | src/App.tsx:117-124 | the page starts with no mode, empty inputs and histories, and the hint hidden |
| Session.Game.OnSubmit | src/App.tsx:181-220 | over or no mode: nothing changes. Bug mode: an accepted submission is appended and clears both bug inputs, a rejected one changes nothing. Completion mode: a non-blank input and its scorer feedback are appended and the input is cleared. The invariant is kept |
| Session.Game.SubmitBugGuess | src/App.tsx:185-209 | the bug-mode branch of `onSubmit` |
| Session.Game.SetBugHistory | src/App.tsx:207-209 | the bug history becomes the given one, both bug inputs are cleared, and nothing else changes |
| Session.Game.SubmitCompletionGuess | src/App.tsx:210-219 | the completion-mode branch of `onSubmit` |
| Session.Game.SetCompletionHistory | src/App.tsx:216-218 | the completion history and feedback become the given ones, the input is cleared, and nothing else changes |
| Session.Game.ResetGame | src/App.tsx:222-231 | every field returns to its initial value |
| Session.Game.RetryBugMode | src/App.tsx:233-238 | callable, as its button is shown, only once a bug-mode game is over and not won; the bug inputs and history are cleared and the hint hidden; the mode and completion state are kept |
| Session.Game.SelectMode | src/App.tsx:241-242 | callable only while no mode is selected, with a real mode; only the mode changes |
| Session.Game.ToggleHint | src/App.tsx:360 | only the hint flag changes, to its negation |
| Session.Game.SetBugLineInput | src/App.tsx:284 | only the line-number input changes |
| Session.Game.SetBugFixInput | src/App.tsx:310 | only the fix input changes |
| Session.Game.SetCompleteInput | src/App.tsx:643 | only the completion input changes |

## Left out

- Characters are Dafny `char`s. JavaScript strings are UTF-16 code units.
  `\s` is modelled as ECMAScript's whitespace and line-terminator set.
- `parseInt` is exact: no rounding of very long digit strings to a double,
  and no `Infinity`. A radix argument and `-0` do not arise, because the
  source calls it with one argument and only compares the result.
- The JSX rendering, syntax highlighting, the home page, and loading the
  snippets from JSON are left out. The two puzzles are constructor
  parameters. The source always takes the first snippet of each list.
- React's batched `useState` updates are modelled as one atomic update per
  handler, and `preventDefault` is left out.
- Session.Game.OnSubmit: it is split into `SubmitBugGuess` and
  `SubmitCompletionGuess`, which hand the new history to
  `SetBugHistory` and `SetCompletionHistory`. The completion branch states
  that the feedback meets the scorer's specification, not that it is the
  output of one particular run.
- Scoring.ScoreGuess: the target index each line claims is a ghost output.
  The source does not return it.
- Session.Game.SetBugLineInput, Session.Game.SetBugFixInput, Session.Game.SetCompleteInput and
  Session.Game.ToggleHint: they may be called in any valid state. In the
  page, the input fields are disabled once the game is over
  (src/App.tsx:286, 313, 646) and each is shown only in its own mode.
- The second `setShowHint(!showHint)` button (src/App.tsx:678) is the same
  operation as the one at line 360 and is modelled once, by `ToggleHint`.
- The derived values `lastWasAllCorrect`, `wonBugMode`, `bugGameOver`,
  `wonCompleteMode`, `completeGameOver`, `gameOver`, `won` and
  `bugFixHighlights` are predicates and functions of `Game`. Their
  meaning is stated by the `Won…Means` and `WonIsOver` lemmas and by the
  `BugFixHighlights…` lemmas.
