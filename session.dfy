/** The game session of src/App.tsx: the state fields, the flags derived from
    them and the transitions `onSubmit`, `resetGame` and `retryBugMode`, with
    the `parseInt` that reads the line-number field. Both puzzles are fixed
    for the life of a session, so they are passed in. */
module Session {
  import opened Utils
  import opened Scoring
  import opened Compare

  datatype Option<T> = None | Some(value: T)

  // ---------------------------------------------------------------------------
  // parseInt(string), radix left out
  // ---------------------------------------------------------------------------

  /** `c` is a digit in base `radix` (10 or 16). */
  predicate IsDigit(c: char, radix: nat) {
    || ('0' <= c <= '9')
    || (radix == 16 && (('a' <= c <= 'f') || ('A' <= c <= 'F')))
  }

  function DigitValue(c: char): (d: nat)
    ensures '0' <= c <= '9' ==> d < 10
    ensures d < 16
  {
    if '0' <= c <= '9' then c as nat - '0' as nat
    else if 'a' <= c <= 'f' then c as nat - 'a' as nat + 10
    else if 'A' <= c <= 'F' then c as nat - 'A' as nat + 10
    else 0
  }

  /** Length of the run of base-`radix` digits at the front of `s`. */
  function DigitRun(s: string, radix: nat): (n: nat)
    ensures n <= |s|
    ensures forall i :: 0 <= i < n ==> IsDigit(s[i], radix)
    ensures n < |s| ==> !IsDigit(s[n], radix)
  {
    if s != [] && IsDigit(s[0], radix) then 1 + DigitRun(s[1..], radix) else 0
  }

  /** The number the digits `z` denote in base `radix`. */
  function DigitsValue(z: string, radix: nat): nat {
    if z == [] then 0 else DigitsValue(z[..|z| - 1], radix) * radix + DigitValue(z[|z| - 1])
  }

  /** Drops one leading `+` or `-`. */
  function StripSign(t: string): string {
    if t != [] && (t[0] == '+' || t[0] == '-') then t[1..] else t
  }

  /** `u` starts with `0x` or `0X`. */
  predicate HexPrefix(u: string) {
    |u| >= 2 && u[0] == '0' && (u[1] == 'x' || u[1] == 'X')
  }

  /** The value of the longest run of base-`radix` digits at the front of `v`,
      if there is one. */
  function LeadingNumber(v: string, radix: nat): Option<nat> {
    var z := v[..DigitRun(v, radix)];
    if z == [] then None else Some(DigitsValue(z, radix))
  }

  /** `parseInt(s)`: skips leading whitespace, reads an optional sign, reads a
      `0x`/`0X` prefix as base 16 and otherwise uses base 10, and converts the
      longest run of digits that follows; `None` stands for `NaN`, when there
      is no digit. `-0` is reported as 0. */
  function ParseInt(s: string): Option<int> {
    var t := TrimStart(s);
    var u := StripSign(t);
    var m := if HexPrefix(u) then LeadingNumber(u[2..], 16) else LeadingNumber(u, 10);
    if m.None? then None
    else
      var value: int := m.value;
      Some(if Negative(t) then -value else value)
  }

  /** `t` starts with a minus sign. */
  predicate Negative(t: string) {
    t != [] && t[0] == '-'
  }

  /** `n.toString()` for a non-negative integer. */
  function DecimalString(n: nat): (s: string)
    ensures s != []
    ensures forall i :: 0 <= i < |s| ==> '0' <= s[i] <= '9'
    ensures |s| > 1 ==> s[0] != '0'
  {
    if n < 10 then ['0' + n as char]
    else DecimalString(n / 10) + ['0' + (n % 10) as char]
  }

  lemma {:induction false} DecimalStringValue(n: nat)
    ensures DigitsValue(DecimalString(n), 10) == n
  {
    if n >= 10 {
      DecimalStringValue(n / 10);
      var s := DecimalString(n);
      assert s[..|s| - 1] == DecimalString(n / 10);
    }
  }

  /** `parseInt` reads back what `toString` writes, also with anything after it
      that is not a digit, except that `0x` starts a hexadecimal number. */
  lemma ParseIntDecimal(n: nat, rest: string)
    requires rest == [] || !IsDigit(rest[0], 10)
    requires n == 0 && rest != [] ==> rest[0] != 'x' && rest[0] != 'X'
    ensures ParseInt(DecimalString(n) + rest) == Some(n)
  {
    DecimalStart(n, rest);
    DecimalNotHex(n, rest);
    DecimalLeadingNumber(n, rest);
    ParseIntDigits(DecimalString(n) + rest);
  }

  /** Text that starts with a decimal digit and no hexadecimal prefix is read
      in base 10 from its first character. */
  lemma ParseIntDigits(s: string)
    requires s != [] && '0' <= s[0] <= '9' && TrimStart(s) == s && !HexPrefix(s)
    ensures LeadingNumber(s, 10).None? ==> ParseInt(s).None?
    ensures LeadingNumber(s, 10).Some? ==> ParseInt(s) == Some(LeadingNumber(s, 10).value as int)
  {
    assert !Negative(s);
    assert StripSign(s) == s;
  }

  /** Text starting with a decimal rendering has no leading whitespace. */
  lemma DecimalStart(n: nat, rest: string)
    ensures var s := DecimalString(n) + rest; '0' <= s[0] <= '9' && TrimStart(s) == s
  {
    var s := DecimalString(n) + rest;
    assert s[0] == DecimalString(n)[0];
    RunIs(s, true, 0);
  }

  /** Only `0` followed by `x` or `X` looks like a hexadecimal prefix. */
  lemma DecimalNotHex(n: nat, rest: string)
    requires n == 0 && rest != [] ==> rest[0] != 'x' && rest[0] != 'X'
    ensures !HexPrefix(DecimalString(n) + rest)
  {
    var d := DecimalString(n);
    var s := d + rest;
    assert s[0] == d[0];
    if |d| == 1 {
      if n != 0 {
        assert d == ['0' + n as char];
      } else if rest != [] {
        assert s[1] == rest[0];
      }
    } else {
      assert s[1] == d[1];
    }
  }

  lemma DecimalLeadingNumber(n: nat, rest: string)
    requires rest == [] || !IsDigit(rest[0], 10)
    ensures LeadingNumber(DecimalString(n) + rest, 10) == Some(n)
  {
    var d := DecimalString(n);
    var s := d + rest;
    DigitRunIs(s, 10, |d|);
    assert s[..|d|] == d;
    DecimalStringValue(n);
  }

  lemma DigitRunIs(s: string, radix: nat, n: nat)
    requires n <= |s|
    requires forall i :: 0 <= i < n ==> IsDigit(s[i], radix)
    requires n < |s| ==> !IsDigit(s[n], radix)
    ensures DigitRun(s, radix) == n
  {
  }

  /** A blank line-number field is `NaN`. */
  lemma ParseIntBlank(s: string)
    requires AllSpace(s)
    ensures ParseInt(s) == None
  {
    assert TrimStart(s) == [];
  }

  // ---------------------------------------------------------------------------
  // Session state
  // ---------------------------------------------------------------------------

  /** The number of guesses a round allows. */
  const MAX_TRIES: nat := 6

  datatype GameMode = NoMode | BugMode | CompleteMode

  /** A recorded bug-mode guess. */
  datatype BugGuess = BugGuess(line: int, fix: string, lineCorrect: bool, fixCorrect: bool)

  /** A complete-the-code puzzle: the lines to be guessed. */
  datatype CompletionPuzzle = CompletionPuzzle(lines: seq<string>)

  /** What `onSubmit` records for a bug-mode guess: a line number in range, a
      fix that is not blank, and both verdicts as computed at submission. */
  predicate RecordedBugGuess(puzzle: BugPuzzle, guess: BugGuess) {
    && 1 <= guess.line <= |puzzle.buggyLines|
    && Trim(guess.fix) != []
    && guess.lineCorrect == (guess.line == puzzle.bugLineNumber)
    && guess.fixCorrect == IsFixGuessCorrect(guess.fix, puzzle)
  }

  /** What `onSubmit` records for a completion-mode guess: the raw input has a
      non-blank line and `fb` is the scorer's feedback on its normalised lines. */
  ghost predicate ScoredGuess(puzzle: CompletionPuzzle, input: string, fb: seq<LineFeedback>) {
    && NormalizedLines(input) != []
    && exists claim :: ScoreSpec(NormalizedLines(input), puzzle.lines, fb, claim)
  }

  /** Every entry of a bug-mode history is what `onSubmit` records. */
  predicate AllRecorded(puzzle: BugPuzzle, guesses: seq<BugGuess>) {
    forall i :: 0 <= i < |guesses| ==> RecordedBugGuess(puzzle, guesses[i])
  }

  /** Every completion-mode guess has its feedback, and each pair is what
      `onSubmit` records. */
  ghost predicate AllScored(puzzle: CompletionPuzzle, inputs: seq<string>, fbs: seq<seq<LineFeedback>>) {
    && |inputs| == |fbs|
    && forall i :: 0 <= i < |inputs| ==> ScoredGuess(puzzle, inputs[i], fbs[i])
  }

  /** Appending a well-formed bug guess keeps every history entry well-formed. */
  lemma RecordedAppend(puzzle: BugPuzzle, guesses: seq<BugGuess>, guess: BugGuess)
    requires AllRecorded(puzzle, guesses)
    requires RecordedBugGuess(puzzle, guess)
    ensures AllRecorded(puzzle, guesses + [guess])
  {
    forall i | 0 <= i < |guesses| + 1
      ensures RecordedBugGuess(puzzle, (guesses + [guess])[i])
    {
      if i == |guesses| {
        assert (guesses + [guess])[i] == guess;
      } else {
        assert (guesses + [guess])[i] == guesses[i];
      }
    }
  }

  /** Appending a scored guess keeps every history entry scored. */
  lemma ScoredAppend(puzzle: CompletionPuzzle, inputs: seq<string>, fbs: seq<seq<LineFeedback>>,
                     input: string, fb: seq<LineFeedback>, claim: seq<int>)
    requires AllScored(puzzle, inputs, fbs)
    requires NormalizedLines(input) != [] && ScoreSpec(NormalizedLines(input), puzzle.lines, fb, claim)
    ensures ScoredGuess(puzzle, input, fb)
    ensures AllScored(puzzle, inputs + [input], fbs + [fb])
  {
    forall i | 0 <= i < |inputs| + 1
      ensures ScoredGuess(puzzle, (inputs + [input])[i], (fbs + [fb])[i])
    {
      if i == |inputs| {
        assert (inputs + [input])[i] == input && (fbs + [fb])[i] == fb;
      } else {
        assert (inputs + [input])[i] == inputs[i] && (fbs + [fb])[i] == fbs[i];
      }
    }
  }

  /** The guess `onSubmit` records in bug mode for the given inputs, or
      `None` when it rejects them: the line number must parse to a line of
      the snippet and the fix must not be blank. */
  function BugSubmission(puzzle: BugPuzzle, lineInput: string, fixInput: string): Option<BugGuess>
  {
    var n := ParseInt(lineInput);
    if n.None? || n.value < 1 || n.value > |puzzle.buggyLines| || Trim(fixInput) == [] then None
    else Some(BugGuess(n.value, fixInput, n.value == puzzle.bugLineNumber, IsFixGuessCorrect(fixInput, puzzle)))
  }

  /** An accepted submission names a line of the snippet, keeps the fix as
      typed, carries both verdicts, and may be appended to a well-formed
      history. */
  lemma BugSubmissionRecorded(puzzle: BugPuzzle, lineInput: string, fixInput: string, guesses: seq<BugGuess>)
    requires AllRecorded(puzzle, guesses)
    ensures var g := BugSubmission(puzzle, lineInput, fixInput);
      g.Some? <==> (ParseInt(lineInput).Some? && 1 <= ParseInt(lineInput).value <= |puzzle.buggyLines| && Trim(fixInput) != [])
    ensures var g := BugSubmission(puzzle, lineInput, fixInput);
      g.Some? ==> && g.value.line == ParseInt(lineInput).value && g.value.fix == fixInput
                  && RecordedBugGuess(puzzle, g.value)
                  && AllRecorded(puzzle, guesses + [g.value])
  {
    var g := BugSubmission(puzzle, lineInput, fixInput);
    if g.Some? {
      RecordedAppend(puzzle, guesses, g.value);
    }
  }

  class Game {
    const bugPuzzle: BugPuzzle
    const completionPuzzle: CompletionPuzzle

    var gameMode: GameMode
    var bugLineInput: string
    var bugFixInput: string
    var bugGuesses: seq<BugGuess>
    var completeInput: string
    var completeGuesses: seq<string>
    var allFeedback: seq<seq<LineFeedback>>
    var showHint: bool

    /** The histories stay within `MAX_TRIES`, every completion guess has its
        feedback, and every entry is what `onSubmit` records. */
    ghost predicate Valid()
      reads this
    {
      && |bugGuesses| <= MAX_TRIES
      && |completeGuesses| <= MAX_TRIES
      && AllRecorded(bugPuzzle, bugGuesses)
      && AllScored(completionPuzzle, completeGuesses, allFeedback)
    }

    /** The state of a fresh page: no mode, empty inputs and histories, hint
        hidden. */
    predicate Initial()
      reads this
    {
      && gameMode == NoMode
      && bugLineInput == [] && bugFixInput == [] && bugGuesses == []
      && completeInput == [] && completeGuesses == [] && allFeedback == []
      && !showHint
    }

    constructor(bugPuzzle: BugPuzzle, completionPuzzle: CompletionPuzzle)
      ensures this.bugPuzzle == bugPuzzle && this.completionPuzzle == completionPuzzle
      ensures Initial() && Valid()
    {
      this.bugPuzzle := bugPuzzle;
      this.completionPuzzle := completionPuzzle;
      gameMode := NoMode;
      bugLineInput := [];
      bugFixInput := [];
      bugGuesses := [];
      completeInput := [];
      completeGuesses := [];
      allFeedback := [];
      showHint := false;
    }

    // -------------------------------------------------------------------------
    // Derived flags
    // -------------------------------------------------------------------------

    /** `lastFb?.every(f => f.status === "correct") ?? false` */
    predicate LastWasAllCorrect()
      reads this
    {
      allFeedback != [] && forall f :: f in allFeedback[|allFeedback| - 1] ==> f.status == Correct
    }

    predicate WonBugMode()
      reads this
    {
      gameMode == BugMode && exists guess :: guess in bugGuesses && guess.lineCorrect && guess.fixCorrect
    }

    predicate BugGameOver()
      reads this
    {
      |bugGuesses| >= MAX_TRIES || WonBugMode()
    }

    predicate WonCompleteMode()
      reads this
    {
      && gameMode == CompleteMode
      && LastWasAllCorrect()
      && |completeGuesses| > 0
      && |NormalizedLines(completeGuesses[|completeGuesses| - 1])| == |completionPuzzle.lines|
    }

    predicate CompleteGameOver()
      reads this
    {
      |completeGuesses| >= MAX_TRIES || WonCompleteMode()
    }

    predicate GameOver()
      reads this
    {
      match gameMode
      case BugMode => BugGameOver()
      case CompleteMode => CompleteGameOver()
      case NoMode => false
    }

    predicate Won()
      reads this
    {
      WonBugMode() || WonCompleteMode()
    }

    /** `bugFixHighlights`: only bug mode has a snippet to highlight. */
    function Highlights(): seq<string>
      reads this
    {
      if gameMode == BugMode then BugFixHighlights(bugPuzzle) else []
    }

    // -------------------------------------------------------------------------
    // Transitions
    // -------------------------------------------------------------------------

    /** Submits the current guess of the active mode. Nothing happens when the
        game is over, when no mode is selected, or when the input is rejected:
        in bug mode a line number that does not parse into `1..|buggyLines|` or
        a blank fix, in completion mode an input without a non-blank line. An
        accepted bug guess is appended with both verdicts and clears both bug
        inputs; an accepted completion guess appends the raw input and its
        feedback and clears the completion input. */
    method OnSubmit()
      requires Valid()
      modifies this
      ensures Valid()
      ensures old(GameOver()) || old(gameMode) == NoMode ==> unchanged(this)
      ensures !old(GameOver()) && old(gameMode) == BugMode ==>
        var g := BugSubmission(bugPuzzle, old(bugLineInput), old(bugFixInput));
        if g.Some? then
          && bugGuesses == old(bugGuesses) + [g.value]
          && bugLineInput == [] && bugFixInput == []
          && gameMode == old(gameMode) && completeInput == old(completeInput)
          && completeGuesses == old(completeGuesses) && allFeedback == old(allFeedback) && showHint == old(showHint)
        else
          unchanged(this)
      ensures !old(GameOver()) && old(gameMode) == CompleteMode ==>
        if NormalizedLines(old(completeInput)) != [] then
          && completeGuesses == old(completeGuesses) + [old(completeInput)]
          && |allFeedback| == |old(allFeedback)| + 1 && allFeedback[..|old(allFeedback)|] == old(allFeedback)
          && ScoredGuess(completionPuzzle, old(completeInput), allFeedback[|allFeedback| - 1])
          && completeInput == []
          && gameMode == old(gameMode) && bugLineInput == old(bugLineInput) && bugFixInput == old(bugFixInput)
          && bugGuesses == old(bugGuesses) && showHint == old(showHint)
        else
          unchanged(this)
    {
      if GameOver() {
        return;
      }
      if gameMode == BugMode {
        SubmitBugGuess();
      } else if gameMode == CompleteMode {
        SubmitCompletionGuess();
      }
    }

    /** The bug-mode branch of `onSubmit`. */
    method SubmitBugGuess()
      requires Valid() && gameMode == BugMode && !BugGameOver()
      modifies this
      ensures Valid()
      ensures var g := BugSubmission(bugPuzzle, old(bugLineInput), old(bugFixInput));
        if g.Some? then
          && bugGuesses == old(bugGuesses) + [g.value]
          && bugLineInput == [] && bugFixInput == []
          && gameMode == old(gameMode) && completeInput == old(completeInput)
          && completeGuesses == old(completeGuesses) && allFeedback == old(allFeedback) && showHint == old(showHint)
        else
          unchanged(this)
    {
      var submission := BugSubmission(bugPuzzle, bugLineInput, bugFixInput);
      if submission.None? {
        return;
      }
      BugSubmissionRecorded(bugPuzzle, bugLineInput, bugFixInput, bugGuesses);
      SetBugHistory(bugGuesses + [submission.value]);
    }

    /** Replaces the bug-mode history by a well-formed one and clears both
        bug inputs. */
    method SetBugHistory(guesses: seq<BugGuess>)
      requires Valid() && |guesses| <= MAX_TRIES && AllRecorded(bugPuzzle, guesses)
      modifies this
      ensures Valid()
      ensures bugGuesses == guesses
      ensures bugLineInput == [] && bugFixInput == []
      ensures gameMode == old(gameMode) && completeInput == old(completeInput)
      ensures completeGuesses == old(completeGuesses) && allFeedback == old(allFeedback) && showHint == old(showHint)
    {
      bugGuesses := guesses;
      bugLineInput := [];
      bugFixInput := [];
    }

    /** The completion-mode branch of `onSubmit`. */
    method SubmitCompletionGuess()
      requires Valid() && gameMode == CompleteMode && !CompleteGameOver()
      modifies this
      ensures Valid()
      ensures if NormalizedLines(old(completeInput)) != [] then
          && completeGuesses == old(completeGuesses) + [old(completeInput)]
          && |allFeedback| == |old(allFeedback)| + 1 && allFeedback[..|old(allFeedback)|] == old(allFeedback)
          && ScoredGuess(completionPuzzle, old(completeInput), allFeedback[|allFeedback| - 1])
          && completeInput == []
          && gameMode == old(gameMode) && bugLineInput == old(bugLineInput) && bugFixInput == old(bugFixInput)
          && bugGuesses == old(bugGuesses) && showHint == old(showHint)
        else
          unchanged(this)
    {
      var gLines := NormalizeLines(completeInput);
      if |gLines| == 0 {
        return;
      }
      var fb, claim := ScoreGuess(gLines, completionPuzzle.lines);
      ScoredAppend(completionPuzzle, completeGuesses, allFeedback, completeInput, fb, claim);
      SetCompletionHistory(completeGuesses + [completeInput], allFeedback + [fb]);
    }

    /** Replaces the completion-mode history by a well-formed one and clears
        the completion input. */
    method SetCompletionHistory(inputs: seq<string>, fbs: seq<seq<LineFeedback>>)
      requires Valid() && |inputs| <= MAX_TRIES && AllScored(completionPuzzle, inputs, fbs)
      modifies this
      ensures Valid()
      ensures completeGuesses == inputs && allFeedback == fbs && completeInput == []
      ensures gameMode == old(gameMode) && bugLineInput == old(bugLineInput) && bugFixInput == old(bugFixInput)
      ensures bugGuesses == old(bugGuesses) && showHint == old(showHint)
    {
      completeGuesses := inputs;
      allFeedback := fbs;
      completeInput := [];
    }

    /** `resetGame`: back to the state of a fresh page. */
    method ResetGame()
      modifies this
      ensures Initial() && Valid()
    {
      gameMode := NoMode;
      bugLineInput := [];
      bugFixInput := [];
      bugGuesses := [];
      completeInput := [];
      completeGuesses := [];
      allFeedback := [];
      showHint := false;
    }

    /** `retryBugMode`: the button shown once a bug-mode game is lost starts a
        new round; the mode and the completion-mode state are kept. */
    method RetryBugMode()
      requires Valid() && gameMode == BugMode && GameOver() && !Won()
      modifies this
      ensures Valid()
      ensures bugLineInput == [] && bugFixInput == [] && bugGuesses == [] && !showHint
      ensures gameMode == old(gameMode) && completeInput == old(completeInput)
      ensures completeGuesses == old(completeGuesses) && allFeedback == old(allFeedback)
    {
      bugLineInput := [];
      bugFixInput := [];
      bugGuesses := [];
      showHint := false;
    }

    /** The home page's mode choice (`onSelectMode={setGameMode}`), shown only
        while no mode is selected. */
    method SelectMode(mode: GameMode)
      requires Valid() && gameMode == NoMode && mode != NoMode
      modifies this
      ensures Valid()
      ensures gameMode == mode
      ensures bugLineInput == old(bugLineInput) && bugFixInput == old(bugFixInput) && bugGuesses == old(bugGuesses)
      ensures completeInput == old(completeInput) && completeGuesses == old(completeGuesses)
      ensures allFeedback == old(allFeedback) && showHint == old(showHint)
    {
      gameMode := mode;
    }

    /** The hint button: `setShowHint(!showHint)`. */
    method ToggleHint()
      requires Valid()
      modifies this
      ensures Valid()
      ensures showHint == !old(showHint)
      ensures gameMode == old(gameMode) && bugLineInput == old(bugLineInput) && bugFixInput == old(bugFixInput)
      ensures bugGuesses == old(bugGuesses) && completeInput == old(completeInput)
      ensures completeGuesses == old(completeGuesses) && allFeedback == old(allFeedback)
    {
      showHint := !showHint;
    }

    /** Typing into the line-number field. */
    method SetBugLineInput(text: string)
      requires Valid()
      modifies this
      ensures Valid()
      ensures bugLineInput == text
      ensures gameMode == old(gameMode) && bugFixInput == old(bugFixInput) && bugGuesses == old(bugGuesses)
      ensures completeInput == old(completeInput) && completeGuesses == old(completeGuesses)
      ensures allFeedback == old(allFeedback) && showHint == old(showHint)
    {
      bugLineInput := text;
    }

    /** Typing into the fix field. */
    method SetBugFixInput(text: string)
      requires Valid()
      modifies this
      ensures Valid()
      ensures bugFixInput == text
      ensures gameMode == old(gameMode) && bugLineInput == old(bugLineInput) && bugGuesses == old(bugGuesses)
      ensures completeInput == old(completeInput) && completeGuesses == old(completeGuesses)
      ensures allFeedback == old(allFeedback) && showHint == old(showHint)
    {
      bugFixInput := text;
    }

    /** Typing into the completion field. */
    method SetCompleteInput(text: string)
      requires Valid()
      modifies this
      ensures Valid()
      ensures completeInput == text
      ensures gameMode == old(gameMode) && bugLineInput == old(bugLineInput) && bugFixInput == old(bugFixInput)
      ensures bugGuesses == old(bugGuesses) && completeGuesses == old(completeGuesses)
      ensures allFeedback == old(allFeedback) && showHint == old(showHint)
    {
      completeInput := text;
    }
  }

  // ---------------------------------------------------------------------------
  // What the derived flags mean
  // ---------------------------------------------------------------------------

  /** A recorded completion guess is scored all `correct`, with as many lines
      as the target, exactly when its normalised lines are the target. */
  lemma ScoredAllCorrect(puzzle: CompletionPuzzle, input: string, fb: seq<LineFeedback>)
    requires ScoredGuess(puzzle, input, fb)
    ensures ((forall f :: f in fb ==> f.status == Correct) && |NormalizedLines(input)| == |puzzle.lines|)
            <==> NormalizedLines(input) == puzzle.lines
  {
    var claim :| ScoreSpec(NormalizedLines(input), puzzle.lines, fb, claim);
    AllCorrectIffEqual(NormalizedLines(input), puzzle.lines, fb, claim);
    if NormalizedLines(input) == puzzle.lines {
      forall f | f in fb ensures f.status == Correct {
        var i :| 0 <= i < |fb| && fb[i] == f;
      }
    }
  }

  /** Completion mode is won exactly when the last guess, normalised, is the
      target listing line for line. */
  lemma WonCompleteModeMeans(game: Game)
    requires game.Valid()
    ensures game.WonCompleteMode() <==>
      && game.gameMode == CompleteMode && game.completeGuesses != []
      && NormalizedLines(game.completeGuesses[|game.completeGuesses| - 1]) == game.completionPuzzle.lines
  {
    if game.completeGuesses != [] {
      var k := |game.completeGuesses| - 1;
      assert ScoredGuess(game.completionPuzzle, game.completeGuesses[k], game.allFeedback[k]);
      ScoredAllCorrect(game.completionPuzzle, game.completeGuesses[k], game.allFeedback[k]);
    }
  }

  /** Bug mode is won exactly when some recorded guess named the bug line and
      brought an accepted fix; the bug line is then a line of the listing. */
  lemma WonBugModeMeans(game: Game)
    requires game.Valid()
    ensures game.WonBugMode() <==>
      && game.gameMode == BugMode
      && exists i :: 0 <= i < |game.bugGuesses| && game.bugGuesses[i].line == game.bugPuzzle.bugLineNumber
                     && IsFixGuessCorrect(game.bugGuesses[i].fix, game.bugPuzzle)
    ensures game.WonBugMode() ==> 1 <= game.bugPuzzle.bugLineNumber <= |game.bugPuzzle.buggyLines|
  {
    if game.WonBugMode() {
      var guess :| guess in game.bugGuesses && guess.lineCorrect && guess.fixCorrect;
      var i :| 0 <= i < |game.bugGuesses| && game.bugGuesses[i] == guess;
      assert RecordedBugGuess(game.bugPuzzle, game.bugGuesses[i]);
    }
    if && game.gameMode == BugMode
       && exists i :: 0 <= i < |game.bugGuesses| && game.bugGuesses[i].line == game.bugPuzzle.bugLineNumber
                      && IsFixGuessCorrect(game.bugGuesses[i].fix, game.bugPuzzle)
    {
      var i :| 0 <= i < |game.bugGuesses| && game.bugGuesses[i].line == game.bugPuzzle.bugLineNumber
               && IsFixGuessCorrect(game.bugGuesses[i].fix, game.bugPuzzle);
      assert RecordedBugGuess(game.bugPuzzle, game.bugGuesses[i]);
      assert game.bugGuesses[i] in game.bugGuesses;
    }
  }

  /** A won game is over, so `onSubmit` records nothing more. */
  lemma WonIsOver(game: Game)
    requires game.Won()
    ensures game.GameOver()
  {
  }
}
