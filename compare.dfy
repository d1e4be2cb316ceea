/** The comparison logic of bug mode (src/App.tsx): `normalizeForComparison`,
    the fix-acceptance rule chain `isFixGuessCorrect` and the `bugFixHighlights`
    list, with the JavaScript string primitives they use (`trim`,
    `replace(/\s+/g, " ")`, `includes`). */
module Compare {
  import opened Utils

  // ---------------------------------------------------------------------------
  // Runs of whitespace and of non-whitespace
  // ---------------------------------------------------------------------------

  /** Length of the run at the front of `s` of characters that are whitespace
      (`space`) or that are not (`!space`). */
  function Run(s: string, space: bool): (n: nat)
    ensures n <= |s|
    ensures forall i :: 0 <= i < n ==> IsSpace(s[i]) == space
    ensures n < |s| ==> IsSpace(s[n]) != space
  {
    if s != [] && IsSpace(s[0]) == space then 1 + Run(s[1..], space) else 0
  }

  /** A run is determined by where it stops. */
  lemma RunIs(s: string, space: bool, n: nat)
    requires n <= |s|
    requires forall i :: 0 <= i < n ==> IsSpace(s[i]) == space
    requires n < |s| ==> IsSpace(s[n]) != space
    ensures Run(s, space) == n
  {
  }

  /** The whitespace skip at the start of `parseInt`: drops the whitespace
      run at the front. */
  function TrimStart(s: string): (r: string)
    ensures |r| <= |s| && r == s[|s| - |r|..]
    ensures AllSpace(s[..|s| - |r|])
    ensures r == [] || !IsSpace(r[0])
  {
    s[Run(s, true)..]
  }

  /** `s.trim()`: drops the whitespace runs at both ends. The end is
      `NormalizeLine`, which removes exactly the trailing run. */
  function Trim(s: string): (r: string)
    ensures r == [] || (!IsSpace(r[0]) && !IsSpace(r[|r| - 1]))
  {
    TrimStart(NormalizeLine(s))
  }

  /** What `trim` keeps is a contiguous piece of `s` with only whitespace
      around it. */
  lemma TrimInfix(s: string)
    ensures exists a, b :: 0 <= a <= b <= |s| && Trim(s) == s[a..b] && AllSpace(s[..a]) && AllSpace(s[b..])
  {
    var p := NormalizeLine(s);
    var r := Trim(s);
    var a, b := |p| - |r|, |p|;
    assert p == s[..b];
    assert r == s[a..b];
    assert s[..a] == p[..a];
  }

  /** A string trims to the empty string exactly when it is all whitespace. */
  lemma TrimEmpty(s: string)
    ensures Trim(s) == [] <==> AllSpace(s)
  {
    var p := NormalizeLine(s);
    if Trim(s) == [] {
      assert p == p[..|p| - |Trim(s)|];
      forall i | 0 <= i < |s| ensures IsSpace(s[i]) {
        if i >= |p| {
          assert s[i] == s[|p|..][i - |p|];
        }
      }
    } else {
      assert !IsSpace(p[|p| - 1]) && s[|p| - 1] == p[|p| - 1];
    }
  }

  // ---------------------------------------------------------------------------
  // `replace(/\s+/g, " ")`
  // ---------------------------------------------------------------------------

  /** Every whitespace character is a plain space and is not followed by more
      whitespace. */
  ghost predicate Collapsed(r: string) {
    && (forall i :: 0 <= i < |r| && IsSpace(r[i]) ==> r[i] == ' ')
    && (forall i, j :: 0 <= i < j < |r| && j == i + 1 && IsSpace(r[i]) ==> !IsSpace(r[j]))
  }

  /** Replaces every maximal run of whitespace by one space and copies
      everything else. */
  function CollapseSpaces(s: string): (r: string)
    ensures r == [] <==> s == []
    ensures s != [] && IsSpace(s[0]) ==> r[0] == ' '
    ensures s != [] && !IsSpace(s[0]) ==> r[0] == s[0]
    ensures Collapsed(r)
    decreases |s|
  {
    if s == [] then []
    else if IsSpace(s[0]) then " " + CollapseSpaces(s[Run(s, true)..])
    else
      var w := Run(s, false);
      s[..w] + CollapseSpaces(s[w..])
  }

  // ---------------------------------------------------------------------------
  // Words: the reference for what comparison keeps
  // ---------------------------------------------------------------------------

  /** The maximal runs of non-whitespace characters of `s`, in order. */
  function Words(s: string): seq<string>
    decreases |s|
  {
    if s == [] then []
    else if IsSpace(s[0]) then Words(s[Run(s, true)..])
    else
      var w := Run(s, false);
      [s[..w]] + Words(s[w..])
  }

  /** A word is non-empty and holds no whitespace. */
  predicate IsWord(w: string) {
    w != [] && forall i :: 0 <= i < |w| ==> !IsSpace(w[i])
  }

  lemma {:induction false} WordsAreWords(s: string)
    ensures forall k :: 0 <= k < |Words(s)| ==> IsWord(Words(s)[k])
    decreases |s|
  {
    if s == [] {
    } else if IsSpace(s[0]) {
      WordsAreWords(s[Run(s, true)..]);
    } else {
      var w := Run(s, false);
      WordsAreWords(s[w..]);
    }
  }

  lemma {:induction false} WordsNoneIffAllSpace(s: string)
    ensures Words(s) == [] <==> AllSpace(s)
    decreases |s|
  {
    if s != [] && IsSpace(s[0]) {
      var k := Run(s, true);
      WordsNoneIffAllSpace(s[k..]);
    }
  }

  /** Leading whitespace separates no words. */
  lemma WordsTrimStart(s: string)
    ensures Words(TrimStart(s)) == Words(s)
  {
    if s == [] || !IsSpace(s[0]) {
      assert TrimStart(s) == s;
    }
  }

  /** A space in front of a string separates no words. */
  lemma WordsSpaceCons(x: string)
    ensures Words(" " + x) == Words(x)
  {
    var s := " " + x;
    assert s[1..] == x;
    assert Run(s, true) == 1 + Run(x, true);
    assert s[Run(s, true)..] == TrimStart(x);
    WordsTrimStart(x);
  }

  /** A word followed by whitespace or by nothing is the first word. */
  lemma WordsWordCons(w: string, x: string)
    requires IsWord(w)
    requires x == [] || IsSpace(x[0])
    ensures Words(w + x) == [w] + Words(x)
  {
    var s := w + x;
    RunIs(s, false, |w|);
    assert s[..|w|] == w;
    assert s[|w|..] == x;
  }

  /** Trailing whitespace separates no words. */
  lemma {:induction false} WordsAppendSpaces(p: string, tail: string)
    requires AllSpace(tail)
    ensures Words(p + tail) == Words(p)
    decreases |p|
  {
    var s := p + tail;
    if p == [] {
      assert s == tail;
      WordsNoneIffAllSpace(tail);
    } else if IsSpace(p[0]) {
      var k := Run(p, true);
      if k < |p| {
        RunIs(s, true, k);
        assert s[k..] == p[k..] + tail;
        WordsAppendSpaces(p[k..], tail);
      } else {
        assert AllSpace(s);
        WordsNoneIffAllSpace(s);
        WordsNoneIffAllSpace(p);
      }
    } else {
      var k := Run(p, false);
      if k < |p| {
        RunIs(s, false, k);
        assert s[..k] == p[..k];
        assert s[k..] == p[k..] + tail;
        WordsAppendSpaces(p[k..], tail);
      } else {
        assert p[..k] == p && p[k..] == [];
        WordsWordCons(p, tail);
        WordsNoneIffAllSpace(tail);
      }
    }
  }

  /** Cutting off the trailing whitespace run keeps the words. */
  lemma WordsNormalizeLine(s: string)
    ensures Words(NormalizeLine(s)) == Words(s)
  {
    var p := NormalizeLine(s);
    assert s == p + s[|p|..];
    WordsAppendSpaces(p, s[|p|..]);
  }

  /** Collapsing whitespace runs keeps the words. */
  lemma {:induction false} WordsCollapseSpaces(s: string)
    ensures Words(CollapseSpaces(s)) == Words(s)
    decreases |s|
  {
    if s == [] {
    } else if IsSpace(s[0]) {
      var t := s[Run(s, true)..];
      WordsCollapseSpaces(t);
      WordsSpaceCons(CollapseSpaces(t));
    } else {
      var w := Run(s, false);
      var t := s[w..];
      WordsCollapseSpaces(t);
      WordsWordCons(s[..w], CollapseSpaces(t));
    }
  }

  // ---------------------------------------------------------------------------
  // normalizeForComparison
  // ---------------------------------------------------------------------------

  /** No whitespace at either end, and inside only single plain spaces. */
  ghost predicate Canonical(r: string) {
    && (r == [] || (!IsSpace(r[0]) && !IsSpace(r[|r| - 1])))
    && Collapsed(r)
  }

  /** `normalizeLine(text).replace(/\s+/g, " ").trim()` */
  function NormalizeForComparison(text: string): string {
    Trim(CollapseSpaces(NormalizeLine(text)))
  }

  lemma NormalizeForComparisonCanonical(text: string)
    ensures Canonical(NormalizeForComparison(text))
  {
    var c := CollapseSpaces(NormalizeLine(text));
    var p := NormalizeLine(c);
    assert Collapsed(p) by {
      forall i | 0 <= i < |p| && IsSpace(p[i])
        ensures p[i] == ' ' && (i + 1 < |p| ==> !IsSpace(p[i + 1]))
      {
        assert p[i] == c[i];
        if i + 1 < |p| {
          assert p[i + 1] == c[i + 1];
        }
      }
    }
    var r := TrimStart(p);
    var k := |p| - |r|;
    forall i | 0 <= i < |r| && IsSpace(r[i])
      ensures r[i] == ' ' && i + 1 < |r| && !IsSpace(r[i + 1])
    {
      assert r[i] == p[k + i];
      if i + 1 < |r| {
        assert r[i + 1] == p[k + i + 1];
      }
    }
    if r != [] {
      assert r[|r| - 1] == p[|p| - 1];
    }
  }

  /** What follows the first space of a canonical string is canonical. */
  lemma CanonicalAfterSpace(r: string, k: nat)
    requires Canonical(r) && k < |r| && IsSpace(r[k])
    ensures r[k] == ' ' && k + 1 < |r| && Canonical(r[k + 1..])
  {
    var rest := r[k + 1..];
    forall i | 0 <= i < |rest| && IsSpace(rest[i])
      ensures rest[i] == ' ' && i + 1 < |rest| && !IsSpace(rest[i + 1])
    {
      assert rest[i] == r[k + 1 + i];
      if i + 1 < |rest| {
        assert rest[i + 1] == r[k + 1 + i + 1];
      }
    }
    assert rest[|rest| - 1] == r[|r| - 1];
  }

  /** A word followed by one plain space comes first; the rest gives the
      other words. */
  lemma WordsWordSpace(w: string, x: string)
    requires IsWord(w)
    ensures Words(w + " " + x) == [w] + Words(x)
  {
    assert w + " " + x == w + (" " + x);
    WordsWordCons(w, " " + x);
    WordsSpaceCons(x);
  }

  /** Joining the words of a canonical string with single spaces gives it back. */
  lemma {:induction false} CanonicalJoinWords(r: string)
    requires Canonical(r)
    ensures Join(Words(r), " ") == r
    decreases |r|
  {
    if r != [] {
      var k := Run(r, false);
      if k == |r| {
        assert r[..k] == r && r[k..] == [];
      } else {
        var rest := r[k + 1..];
        CanonicalAfterSpace(r, k);
        assert IsWord(r[..k]);
        assert r == r[..k] + " " + rest;
        WordsWordSpace(r[..k], rest);
        CanonicalJoinWords(rest);
        WordsNoneIffAllSpace(rest);
        var ws := Words(rest);
        assert ([r[..k]] + ws)[1..] == ws;
      }
    }
  }

  /** Comparison keeps exactly the words of the text, joined by single spaces:
      the order and content of the non-whitespace runs is kept, the whitespace
      between them is reduced to one space and the ends lose theirs. */
  lemma NormalizeForComparisonWords(text: string)
    ensures Words(NormalizeForComparison(text)) == Words(text)
    ensures NormalizeForComparison(text) == Join(Words(text), " ")
  {
    var n := NormalizeLine(text);
    var c := CollapseSpaces(n);
    WordsNormalizeLine(text);
    WordsCollapseSpaces(n);
    WordsNormalizeLine(c);
    WordsTrimStart(NormalizeLine(c));
    NormalizeForComparisonCanonical(text);
    CanonicalJoinWords(NormalizeForComparison(text));
  }

  lemma NormalizeForComparisonIdempotent(text: string)
    ensures NormalizeForComparison(NormalizeForComparison(text)) == NormalizeForComparison(text)
  {
    NormalizeForComparisonWords(text);
    NormalizeForComparisonWords(NormalizeForComparison(text));
  }

  /** Only a blank text compares as the empty string. */
  lemma NormalizeForComparisonEmpty(text: string)
    ensures NormalizeForComparison(text) == [] <==> AllSpace(text)
  {
    NormalizeForComparisonWords(text);
    WordsNoneIffAllSpace(text);
    var ws := Words(text);
    if ws != [] {
      WordsAreWords(text);
      JoinNonEmpty(ws, " ");
    }
  }

  /** Joining a list whose first element is non-empty gives a non-empty string. */
  lemma JoinNonEmpty(parts: seq<string>, sep: string)
    requires parts != [] && parts[0] != []
    ensures Join(parts, sep) != []
  {
    if |parts| > 1 {
      assert |Join(parts, sep)| >= |parts[0]|;
    }
  }

  // ---------------------------------------------------------------------------
  // Puzzles and the list primitives of the rule chain
  // ---------------------------------------------------------------------------

  /** A find-the-bug puzzle: the buggy listing, the 1-based number of the line
      holding the bug, and the corrected listing. */
  datatype BugPuzzle = BugPuzzle(buggyLines: seq<string>, bugLineNumber: int, fixedLines: seq<string>)

  /** `sub` occurs in `s` starting at index `k`. */
  predicate OccursAt(s: string, sub: string, k: int) {
    0 <= k <= |s| - |sub| && s[k..k + |sub|] == sub
  }

  /** `s.includes(sub)` */
  predicate Includes(s: string, sub: string) {
    exists k :: 0 <= k <= |s| - |sub| && OccursAt(s, sub, k)
  }

  /** `lines.map(normalizeForComparison)` */
  function MapCompare(lines: seq<string>): (r: seq<string>)
    ensures |r| == |lines|
    ensures forall k :: 0 <= k < |lines| ==> r[k] == NormalizeForComparison(lines[k])
  {
    seq(|lines|, k requires 0 <= k < |lines| => NormalizeForComparison(lines[k]))
  }

  /** `lines.filter(Boolean)`: drops the empty strings and keeps the order. */
  function DropEmpty(lines: seq<string>): (r: seq<string>)
    ensures forall k :: 0 <= k < |r| ==> r[k] != []
    ensures forall x :: x in r <==> x in lines && x != []
  {
    if lines == [] then []
    else if lines[0] == [] then DropEmpty(lines[1..])
    else [lines[0]] + DropEmpty(lines[1..])
  }

  /** Filtering a concatenation filters each part and keeps them in order. */
  lemma {:induction false} DropEmptyAppend(a: seq<string>, b: seq<string>)
    ensures DropEmpty(a + b) == DropEmpty(a) + DropEmpty(b)
  {
    if a == [] {
      assert a + b == b;
    } else {
      assert (a + b)[0] == a[0] && (a + b)[1..] == a[1..] + b;
      DropEmptyAppend(a[1..], b);
    }
  }

  /** Lines that are all non-empty are kept as they are, in order and with
      their repetitions. */
  lemma {:induction false} DropEmptyNonEmpty(lines: seq<string>)
    requires forall k :: 0 <= k < |lines| ==> lines[k] != []
    ensures DropEmpty(lines) == lines
  {
    if lines != [] {
      DropEmptyNonEmpty(lines[1..]);
    }
  }

  /** The non-blank lines of a proposed fix, in comparison form. */
  function GuessLines(fixGuess: string): seq<string> {
    DropEmpty(MapCompare(NormalizedLines(fixGuess)))
  }

  // ---------------------------------------------------------------------------
  // The `reduce` that keeps some of the lines
  // ---------------------------------------------------------------------------

  /** The `reduce` over the first `n` lines that pushes `vals[idx]` for every
      `idx` with `keep[idx]`. */
  function Select(keep: seq<bool>, vals: seq<string>, n: nat): seq<string>
    requires n <= |keep| == |vals|
  {
    if n == 0 then []
    else
      var acc := Select(keep, vals, n - 1);
      if keep[n - 1] then acc + [vals[n - 1]] else acc
  }

  /** The indices below `n` that are kept, ascending. */
  function KeptIndices(keep: seq<bool>, n: nat): seq<nat>
    requires n <= |keep|
  {
    if n == 0 then []
    else
      var acc := KeptIndices(keep, n - 1);
      if keep[n - 1] then acc + [n - 1] else acc
  }

  predicate Ascending(xs: seq<nat>) {
    forall a, b :: 0 <= a < b < |xs| ==> xs[a] < xs[b]
  }

  /** The kept indices are exactly those below `n` whose flag is set, in
      ascending order. */
  lemma {:induction false} KeptIndicesSpec(keep: seq<bool>, n: nat)
    requires n <= |keep|
    ensures var idx := KeptIndices(keep, n);
      && Ascending(idx)
      && (forall j :: 0 <= j < |idx| ==> idx[j] < n)
      && (forall k: nat :: k in idx <==> k < n && keep[k])
  {
    if n > 0 {
      KeptIndicesSpec(keep, n - 1);
    }
  }

  /** The `j`-th value pushed is the value at the `j`-th kept index. */
  lemma {:induction false} SelectAt(keep: seq<bool>, vals: seq<string>, n: nat)
    requires n <= |keep| == |vals|
    ensures var lines, idx := Select(keep, vals, n), KeptIndices(keep, n);
      && |lines| == |idx|
      && (forall j :: 0 <= j < |idx| ==> idx[j] < n && lines[j] == vals[idx[j]])
  {
    if n > 0 {
      SelectAt(keep, vals, n - 1);
      KeptIndicesSpec(keep, n - 1);
    }
  }

  // ---------------------------------------------------------------------------
  // changedLines
  // ---------------------------------------------------------------------------

  /** Fixed line `idx` counts as changed when the buggy line at the same index,
      in comparison form, is empty or differs from the fixed line's (`?? ""`
      turns a missing buggy line into the empty string). */
  predicate LineChanged(fixedLines: seq<string>, buggyLines: seq<string>, idx: nat)
    requires idx < |fixedLines|
  {
    var fixedLine := NormalizeForComparison(fixedLines[idx]);
    var buggyLine := NormalizeForComparison(if idx < |buggyLines| then buggyLines[idx] else "");
    buggyLine == [] || buggyLine != fixedLine
  }

  function ChangedMask(snippet: BugPuzzle): (keep: seq<bool>)
    ensures |keep| == |snippet.fixedLines|
    ensures forall k :: 0 <= k < |keep| ==> keep[k] == LineChanged(snippet.fixedLines, snippet.buggyLines, k)
  {
    seq(|snippet.fixedLines|, k requires 0 <= k < |snippet.fixedLines| =>
      LineChanged(snippet.fixedLines, snippet.buggyLines, k))
  }

  /** `changedLines`: the comparison forms of the changed fixed lines. */
  function ChangedLines(snippet: BugPuzzle): seq<string> {
    Select(ChangedMask(snippet), MapCompare(snippet.fixedLines), |snippet.fixedLines|)
  }

  /** The indices `changedLines` draws from are exactly the changed fixed
      lines, in ascending order. */
  lemma ChangedIndicesSpec(snippet: BugPuzzle)
    ensures var idx := KeptIndices(ChangedMask(snippet), |snippet.fixedLines|);
      && Ascending(idx)
      && (forall k: nat :: k in idx <==> k < |snippet.fixedLines| && LineChanged(snippet.fixedLines, snippet.buggyLines, k))
  {
    var keep := ChangedMask(snippet);
    KeptIndicesSpec(keep, |keep|);
  }

  /** The `j`-th entry of `changedLines` is the comparison form of the fixed
      line at the `j`-th changed index. */
  lemma ChangedLinesAt(snippet: BugPuzzle)
    ensures var lines, idx := ChangedLines(snippet), KeptIndices(ChangedMask(snippet), |snippet.fixedLines|);
      && |lines| == |idx|
      && (forall j :: 0 <= j < |idx| ==>
            idx[j] < |snippet.fixedLines| && lines[j] == NormalizeForComparison(snippet.fixedLines[idx[j]]))
  {
    SelectAt(ChangedMask(snippet), MapCompare(snippet.fixedLines), |snippet.fixedLines|);
  }

  // ---------------------------------------------------------------------------
  // isFixGuessCorrect
  // ---------------------------------------------------------------------------

  /** `Math.max(0, snippet.bugLineNumber - 1)` */
  function BugLineIndex(snippet: BugPuzzle): (i: nat)
    ensures i + 1 == snippet.bugLineNumber || (snippet.bugLineNumber <= 1 && i == 0)
  {
    if snippet.bugLineNumber - 1 > 0 then snippet.bugLineNumber - 1 else 0
  }

  /** `isFixGuessCorrect`: computes the fix's non-blank lines, the corrected
      listing and its changed lines, all in comparison form, and applies the
      rule chain. */
  function IsFixGuessCorrect(fixGuess: string, snippet: BugPuzzle): bool {
    FixVerdict(GuessLines(fixGuess), MapCompare(snippet.fixedLines), ChangedLines(snippet), BugLineIndex(snippet))
  }

  /** The rule chain deciding whether a proposed fix counts, tried in order:
      no non-blank line, exact match, match of the changed lines, any changed
      line, containment in the whole fix, a single contained line, the
      bug line itself. */
  function FixVerdict(guessLines: seq<string>, normalizedTarget: seq<string>, changedLines: seq<string>,
                      lineIndex: nat): bool
  {
    if |guessLines| == 0 then false
    else
      var fullTarget := Join(normalizedTarget, " ");
      var fullGuess := Join(guessLines, " ");
      if guessLines == normalizedTarget then true
      else if |changedLines| > 0 && guessLines == changedLines then true
      else if exists line :: line in guessLines && line in changedLines then true
      else if Includes(fullTarget, fullGuess) then true
      else if |guessLines| == 1 && Includes(fullTarget, guessLines[0]) then true
      else |guessLines| == 1 && lineIndex < |normalizedTarget| && guessLines[0] == normalizedTarget[lineIndex]
  }

  /** `a.includes(b)` when `a` ends with `b`. */
  lemma IncludesSuffix(a: string, b: string, sub: string)
    requires Includes(b, sub)
    ensures Includes(a + b, sub)
  {
    var k :| 0 <= k <= |b| - |sub| && OccursAt(b, sub, k);
    assert (a + b)[|a| + k..|a| + k + |sub|] == sub;
    assert OccursAt(a + b, sub, |a| + k);
  }

  /** The whole string includes itself and every prefix. */
  lemma IncludesPrefix(a: string, b: string)
    ensures Includes(a + b, a)
  {
    assert (a + b)[0..|a|] == a;
    assert OccursAt(a + b, a, 0);
  }

  /** Every part occurs in the joined string. */
  lemma {:induction false} JoinIncludesPart(parts: seq<string>, sep: string, i: nat)
    requires i < |parts|
    ensures Includes(Join(parts, sep), parts[i])
  {
    if |parts| == 1 {
      IncludesPrefix(parts[0], []);
      assert parts[0] + [] == parts[0];
    } else if i == 0 {
      IncludesPrefix(parts[0], sep + Join(parts[1..], sep));
      assert Join(parts, sep) == parts[0] + (sep + Join(parts[1..], sep));
    } else {
      JoinIncludesPart(parts[1..], sep, i - 1);
      IncludesSuffix(parts[0] + sep, Join(parts[1..], sep), parts[i]);
    }
  }

  /** The rule chain reduces to two rules: once the fix has a non-blank line, it
      counts exactly when one of its lines is a changed line or the whole fix
      occurs in the whole corrected listing. The rules for an exact match, for
      the changed lines, for a single contained line and for the bug line
      accept nothing else. */
  lemma FixVerdictRules(guessLines: seq<string>, normalizedTarget: seq<string>, changedLines: seq<string>,
                        lineIndex: nat)
    ensures FixVerdict(guessLines, normalizedTarget, changedLines, lineIndex) <==>
      && guessLines != []
      && (|| (exists line :: line in guessLines && line in changedLines)
          || Includes(Join(normalizedTarget, " "), Join(guessLines, " ")))
  {
    var fullTarget := Join(normalizedTarget, " ");
    if guessLines != [] {
      if guessLines == normalizedTarget {
        IncludesPrefix(fullTarget, []);
        assert fullTarget + [] == fullTarget;
      } else if |changedLines| > 0 && guessLines == changedLines {
        assert guessLines[0] in guessLines;
      } else if |guessLines| == 1 {
        assert Join(guessLines, " ") == guessLines[0];
        if lineIndex < |normalizedTarget| {
          JoinIncludesPart(normalizedTarget, " ", lineIndex);
        }
      }
    }
  }

  /** The same reduction stated for `isFixGuessCorrect`. */
  lemma IsFixGuessCorrectRules(fixGuess: string, snippet: BugPuzzle)
    ensures var guessLines := GuessLines(fixGuess);
      IsFixGuessCorrect(fixGuess, snippet) <==>
        && guessLines != []
        && (|| (exists line :: line in guessLines && line in ChangedLines(snippet))
            || Includes(Join(MapCompare(snippet.fixedLines), " "), Join(guessLines, " ")))
  {
    FixVerdictRules(GuessLines(fixGuess), MapCompare(snippet.fixedLines), ChangedLines(snippet), BugLineIndex(snippet));
  }

  /** A fix whose non-blank lines are exactly the corrected listing counts. */
  lemma ExactFixAccepted(fixGuess: string, snippet: BugPuzzle)
    requires GuessLines(fixGuess) == MapCompare(snippet.fixedLines) != []
    ensures IsFixGuessCorrect(fixGuess, snippet)
  {
  }

  /** When the corrected listing has a blank line, no fix passes the exact
      match: the fix's blank lines are filtered out, the listing's are not. */
  lemma BlankTargetLineBlocksExactMatch(fixGuess: string, snippet: BugPuzzle)
    requires [] in MapCompare(snippet.fixedLines)
    ensures GuessLines(fixGuess) != MapCompare(snippet.fixedLines)
  {
  }

  /** A fix made of the non-blank lines of the listing `a`, blank line, `b`
      is not accepted by the rule chain when `a` and `b` are unchanged, so
      that the blank line is the only changed line: the joined listing holds
      two spaces where the joined fix holds one. */
  lemma PastedListingWithBlankLine()
    ensures !FixVerdict(["a", "b"], ["a", "", "b"], [""], 0)
  {
    var fullTarget := Join(["a", "", "b"], " ");
    var fullGuess := Join(["a", "b"], " ");
    assert fullTarget == "a  b";
    assert fullGuess == "a b";
    forall k | 0 <= k <= |fullTarget| - |fullGuess|
      ensures !OccursAt(fullTarget, fullGuess, k)
    {
      var window := fullTarget[k..k + |fullGuess|];
      assert window[0] == fullTarget[k] && window[2] == fullTarget[k + 2];
      assert window[0] != fullGuess[0] || window[2] != fullGuess[2];
    }
  }

  /** A blank line at the end of the listing only adds a trailing space to
      the joined listing, so the pasted non-blank lines are still contained
      in it and the fix is accepted when the blank line is the only changed
      line. */
  lemma PastedListingWithTrailingBlankLine()
    ensures FixVerdict(["a", "b"], ["a", "b", ""], [""], 0)
  {
    var fullTarget := Join(["a", "b", ""], " ");
    var fullGuess := Join(["a", "b"], " ");
    assert fullTarget == "a b ";
    assert fullGuess == "a b";
    assert OccursAt(fullTarget, fullGuess, 0);
  }

  /** A fix counts only if it has a non-whitespace character. */
  lemma BlankFixRejected(fixGuess: string, snippet: BugPuzzle)
    requires AllSpace(fixGuess)
    ensures !IsFixGuessCorrect(fixGuess, snippet)
  {
    GuessLinesBlank(fixGuess);
  }

  /** A fix has no non-blank line exactly when it is all whitespace. */
  lemma GuessLinesBlank(fixGuess: string)
    ensures GuessLines(fixGuess) == [] <==> AllSpace(fixGuess)
  {
    var lines := NormalizedLines(fixGuess);
    var cmp := MapCompare(lines);
    NormalizedLinesEdges(fixGuess);
    if lines == [] {
      SplitAllSpace(fixGuess, '\n');
    } else {
      NormalizedLinesAt(fixGuess, 0);
      NormalizeForComparisonEmpty(lines[0]);
      assert cmp[0] in DropEmpty(cmp);
      SplitAllSpace(fixGuess, '\n');
    }
  }

  /** Splitting at a whitespace character gives blank pieces exactly when the
      text is blank. */
  lemma SplitAllSpace(s: string, sep: char)
    requires IsSpace(sep)
    ensures AllBlank(Split(s, sep)) <==> AllSpace(s)
  {
    JoinSplit(s, sep);
    JoinAllSpace(Split(s, sep), [sep]);
  }

  /** Joining with a whitespace separator gives a blank string exactly when
      every part is blank. */
  lemma {:induction false} JoinAllSpace(parts: seq<string>, sep: string)
    requires AllSpace(sep)
    ensures AllSpace(Join(parts, sep)) <==> AllBlank(parts)
  {
    if |parts| > 1 {
      JoinAllSpace(parts[1..], sep);
      var j := Join(parts, sep);
      var rest := Join(parts[1..], sep);
      assert j == parts[0] + sep + rest;
      if AllSpace(j) {
        assert AllSpace(parts[0]) by {
          forall i | 0 <= i < |parts[0]| ensures IsSpace(parts[0][i]) {
            assert parts[0][i] == j[i];
          }
        }
        assert AllSpace(rest) by {
          forall i | 0 <= i < |rest| ensures IsSpace(rest[i]) {
            assert rest[i] == j[|parts[0]| + |sep| + i];
          }
        }
        forall k | 0 <= k < |parts| ensures AllSpace(parts[k]) {
          if k > 0 {
            assert parts[k] == parts[1..][k - 1];
          }
        }
      } else {
        if AllBlank(parts) {
          assert AllBlank(parts[1..]) by {
            forall k | 0 <= k < |parts| - 1 ensures AllSpace(parts[1..][k]) {
              assert parts[1..][k] == parts[k + 1];
            }
          }
        }
      }
    }
  }

  // ---------------------------------------------------------------------------
  // bugFixHighlights
  // ---------------------------------------------------------------------------

  /** Fixed line `idx` is highlighted when the buggy line at that index is
      missing or empty, or differs once trailing whitespace is removed, and the
      trimmed fixed line is not empty. */
  predicate Highlighted(fixedLines: seq<string>, buggyLines: seq<string>, idx: nat)
    requires idx < |fixedLines|
  {
    && (idx >= |buggyLines| || buggyLines[idx] == []
        || NormalizeLine(buggyLines[idx]) != NormalizeLine(fixedLines[idx]))
    && Trim(fixedLines[idx]) != []
  }

  function HighlightMask(snippet: BugPuzzle): (keep: seq<bool>)
    ensures |keep| == |snippet.fixedLines|
    ensures forall k :: 0 <= k < |keep| ==> keep[k] == Highlighted(snippet.fixedLines, snippet.buggyLines, k)
  {
    seq(|snippet.fixedLines|, k requires 0 <= k < |snippet.fixedLines| =>
      Highlighted(snippet.fixedLines, snippet.buggyLines, k))
  }

  /** The `line.trim()` that the highlight `reduce` applies to each fixed line
      it keeps, given for every line; `Select` then picks the kept ones. */
  function MapTrim(lines: seq<string>): (r: seq<string>)
    ensures |r| == |lines|
    ensures forall k :: 0 <= k < |lines| ==> r[k] == Trim(lines[k])
  {
    seq(|lines|, k requires 0 <= k < |lines| => Trim(lines[k]))
  }

  /** `bugFixHighlights`: the trimmed highlighted fixed lines. */
  function BugFixHighlights(snippet: BugPuzzle): seq<string> {
    Select(HighlightMask(snippet), MapTrim(snippet.fixedLines), |snippet.fixedLines|)
  }

  /** The indices `bugFixHighlights` draws from are exactly the highlighted
      fixed lines, in ascending order. */
  lemma HighlightIndicesSpec(snippet: BugPuzzle)
    ensures var idx := KeptIndices(HighlightMask(snippet), |snippet.fixedLines|);
      && Ascending(idx)
      && (forall k: nat :: k in idx <==> k < |snippet.fixedLines| && Highlighted(snippet.fixedLines, snippet.buggyLines, k))
  {
    var keep := HighlightMask(snippet);
    KeptIndicesSpec(keep, |keep|);
  }

  /** The `j`-th highlight is the trimmed fixed line at the `j`-th highlighted
      index. */
  lemma BugFixHighlightsAt(snippet: BugPuzzle)
    ensures var lines, idx := BugFixHighlights(snippet), KeptIndices(HighlightMask(snippet), |snippet.fixedLines|);
      && |lines| == |idx|
      && (forall j :: 0 <= j < |idx| ==> idx[j] < |snippet.fixedLines| && lines[j] == Trim(snippet.fixedLines[idx[j]]))
  {
    SelectAt(HighlightMask(snippet), MapTrim(snippet.fixedLines), |snippet.fixedLines|);
  }

  /** Non-empty, with no whitespace at either end. */
  predicate TrimmedNonEmpty(line: string) {
    line != [] && !IsSpace(line[0]) && !IsSpace(line[|line| - 1])
  }

  /** Selecting only values that are trimmed and non-empty gives such values. */
  lemma {:induction false} SelectTrimmed(keep: seq<bool>, vals: seq<string>, n: nat)
    requires n <= |keep| == |vals|
    requires forall k :: 0 <= k < n && keep[k] ==> TrimmedNonEmpty(vals[k])
    ensures forall j :: 0 <= j < |Select(keep, vals, n)| ==> TrimmedNonEmpty(Select(keep, vals, n)[j])
  {
    if n > 0 {
      SelectTrimmed(keep, vals, n - 1);
    }
  }

  /** No highlight is empty or has whitespace at either end. */
  lemma BugFixHighlightsTrimmed(snippet: BugPuzzle)
    ensures var lines := BugFixHighlights(snippet);
      forall j :: 0 <= j < |lines| ==> lines[j] != [] && !IsSpace(lines[j][0]) && !IsSpace(lines[j][|lines[j]| - 1])
  {
    var keep, vals := HighlightMask(snippet), MapTrim(snippet.fixedLines);
    forall k | 0 <= k < |keep| && keep[k]
      ensures TrimmedNonEmpty(vals[k])
    {
      assert Trim(snippet.fixedLines[k]) != [];
    }
    SelectTrimmed(keep, vals, |keep|);
  }
}
