/** Line normalisation shared by both game modes (src/lib/utils.ts), together with
    the JavaScript string primitives it rests on: the `\s` character class and
    `String.prototype.split` / `Array.prototype.join` with a fixed separator. */
module Utils {

  /** The characters matched by `\s` in a JavaScript regular expression:
      WhiteSpace and LineTerminator of ECMAScript. `String.prototype.trim`
      removes exactly the same characters. */
  predicate IsSpace(c: char) {
    ('\t' <= c <= '\r')  // tab, line feed, vertical tab, form feed, carriage return
    || c == ' ' || c == '\U{00A0}' || c == '\U{1680}'
    || ('\U{2000}' <= c <= '\U{200A}')
    || c == '\U{2028}' || c == '\U{2029}' || c == '\U{202F}' || c == '\U{205F}'
    || c == '\U{3000}' || c == '\U{FEFF}'
  }

  predicate AllSpace(s: string) {
    forall i :: 0 <= i < |s| ==> IsSpace(s[i])
  }

  /** Every line is empty or made only of whitespace. */
  predicate AllBlank(lines: seq<string>) {
    forall k :: 0 <= k < |lines| ==> AllSpace(lines[k])
  }

  // ---------------------------------------------------------------------------
  // normalizeLine: `s.replace(/\s+$/, "")`
  // ---------------------------------------------------------------------------

  /** Removes the run of whitespace at the end of `s` and nothing else. */
  function NormalizeLine(s: string): (r: string)
    ensures r <= s
    ensures AllSpace(s[|r|..])
    ensures r == [] || !IsSpace(r[|r| - 1])
    // everything up to the last non-whitespace character is kept
    ensures forall i :: 0 <= i < |s| && !IsSpace(s[i]) ==> i < |r|
  {
    if |s| > 0 && IsSpace(s[|s| - 1]) then NormalizeLine(s[..|s| - 1]) else s
  }

  /** The result of NormalizeLine is the only way to cut `s` into a part that
      does not end in whitespace followed by a part that is all whitespace. */
  lemma {:induction false} NormalizeLineUnique(s: string, p: string)
    requires p <= s && AllSpace(s[|p|..])
    requires p == [] || !IsSpace(p[|p| - 1])
    ensures NormalizeLine(s) == p
  {
    if |s| > |p| {
      assert IsSpace(s[|s| - 1]);
      assert s[..|s| - 1][|p|..] == s[|p|..|s| - 1];
      NormalizeLineUnique(s[..|s| - 1], p);
    }
  }

  lemma NormalizeLineIdempotent(s: string)
    ensures NormalizeLine(NormalizeLine(s)) == NormalizeLine(s)
  {
    NormalizeLineUnique(NormalizeLine(s), NormalizeLine(s));
  }

  /** A line that already ends in a non-whitespace character (or is empty) is
      left as it is. */
  lemma NormalizeLineFixedPoint(s: string)
    requires s == [] || !IsSpace(s[|s| - 1])
    ensures NormalizeLine(s) == s
  {
    NormalizeLineUnique(s, s);
  }

  // ---------------------------------------------------------------------------
  // split / join with a one-character separator
  // ---------------------------------------------------------------------------

  /** Position of the first occurrence of `c` in `s`. */
  function IndexOf(s: string, c: char): (i: nat)
    requires c in s
    ensures i < |s| && s[i] == c && c !in s[..i]
  {
    if s[0] == c then 0 else 1 + IndexOf(s[1..], c)
  }

  /** `s.split(sep)` for a one-character separator: the pieces between
      occurrences of `sep`, always at least one. */
  function Split(s: string, sep: char): (parts: seq<string>)
    ensures |parts| >= 1
    ensures forall k :: 0 <= k < |parts| ==> sep !in parts[k]
    decreases |s|
  {
    if sep in s then
      var i := IndexOf(s, sep);
      [s[..i]] + Split(s[i + 1..], sep)
    else
      [s]
  }

  /** `parts.join(sep)`: the empty array joins to the empty string. */
  function Join(parts: seq<string>, sep: string): string {
    if |parts| == 0 then []
    else if |parts| == 1 then parts[0]
    else parts[0] + sep + Join(parts[1..], sep)
  }

  /** Number of occurrences of `c` in `s`. */
  function Occurrences(s: string, c: char): nat {
    multiset(s)[c]
  }

  /** Joining the pieces of a split restores the text. */
  lemma {:induction false} JoinSplit(s: string, sep: char)
    ensures Join(Split(s, sep), [sep]) == s
    decreases |s|
  {
    if sep in s {
      var i := IndexOf(s, sep);
      var rest := s[i + 1..];
      JoinSplit(rest, sep);
      assert Split(s, sep) == [s[..i]] + Split(rest, sep);
      assert Split(s, sep)[1..] == Split(rest, sep);
      assert s == s[..i] + [sep] + rest;
    }
  }

  /** Splitting the join of pieces that do not contain the separator gives the
      pieces back. */
  lemma {:induction false} SplitJoin(parts: seq<string>, sep: char)
    requires |parts| >= 1
    requires forall k :: 0 <= k < |parts| ==> sep !in parts[k]
    ensures Split(Join(parts, [sep]), sep) == parts
  {
    if |parts| > 1 {
      var s := Join(parts, [sep]);
      assert s == parts[0] + [sep] + Join(parts[1..], [sep]);
      assert s[|parts[0]|] == sep;
      assert s[..|parts[0]|] == parts[0];
      var i := IndexOf(s, sep);
      assert i == |parts[0]| by {
        if i < |parts[0]| {
          assert false;
        }
      }
      assert s[i + 1..] == Join(parts[1..], [sep]);
      SplitJoin(parts[1..], sep);
    } else {
      assert Join(parts, [sep]) == parts[0];
    }
  }

  /** `split` yields one more piece than there are separators. */
  lemma {:induction false} SplitCount(s: string, sep: char)
    ensures |Split(s, sep)| == Occurrences(s, sep) + 1
    decreases |s|
  {
    if sep in s {
      var i := IndexOf(s, sep);
      SplitCount(s[i + 1..], sep);
      assert s == s[..i] + [sep] + s[i + 1..];
      assert multiset(s) == multiset(s[..i]) + multiset([sep]) + multiset(s[i + 1..]);
      assert multiset(s[..i])[sep] == 0;
    } else {
      assert multiset(s)[sep] == 0;
    }
  }

  // ---------------------------------------------------------------------------
  // normalizeLines
  // ---------------------------------------------------------------------------

  /** `lines.map(normalizeLine)` */
  function MapNormalizeLine(lines: seq<string>): (ps: seq<string>)
    ensures |ps| == |lines|
  {
    if lines == [] then [] else [NormalizeLine(lines[0])] + MapNormalizeLine(lines[1..])
  }

  lemma {:induction false} MapNormalizeLineAt(lines: seq<string>, k: nat)
    requires k < |lines|
    ensures MapNormalizeLine(lines)[k] == NormalizeLine(lines[k])
  {
    if k > 0 { MapNormalizeLineAt(lines[1..], k - 1); }
  }

  /** `text.split("\n").map(normalizeLine)` */
  function Pieces(text: string): seq<string> {
    MapNormalizeLine(Split(text, '\n'))
  }

  /** Number of empty strings at the front of `xs`. */
  function LeadingEmpty(xs: seq<string>): (k: nat)
    ensures k <= |xs|
    ensures forall i :: 0 <= i < k ==> xs[i] == ""
    ensures k < |xs| ==> xs[k] != ""
  {
    if |xs| > 0 && xs[0] == "" then 1 + LeadingEmpty(xs[1..]) else 0
  }

  /** Number of empty strings at the back of `xs`. */
  function TrailingEmpty(xs: seq<string>): (k: nat)
    ensures k <= |xs|
    ensures forall i :: |xs| - k <= i < |xs| ==> xs[i] == ""
    ensures k < |xs| ==> xs[|xs| - 1 - k] != ""
  {
    if |xs| > 0 && xs[|xs| - 1] == "" then 1 + TrailingEmpty(xs[..|xs| - 1]) else 0
  }

  /** The slice of `xs` left once the leading and the trailing empty strings are
      dropped. */
  function TrimEmptyEdges(xs: seq<string>): seq<string> {
    var lo := LeadingEmpty(xs);
    var rest := xs[lo..];
    rest[..|rest| - TrailingEmpty(rest)]
  }

  /** The value `normalizeLines(text)` returns. */
  function NormalizedLines(text: string): seq<string> {
    TrimEmptyEdges(Pieces(text))
  }

  /** `normalizeLines` as the source writes it: split and normalise, then shift
      empty lines off the front and pop them off the back. */
  method NormalizeLines(text: string) returns (parts: seq<string>)
    ensures parts == NormalizedLines(text)
  {
    parts := Pieces(text);
    parts := ShiftEmpty(parts);
    parts := PopEmpty(parts);
  }

  /** The first loop of `normalizeLines`: shift empty lines off the front. */
  method ShiftEmpty(xs: seq<string>) returns (parts: seq<string>)
    ensures parts == xs[LeadingEmpty(xs)..]
  {
    parts := xs;
    while |parts| > 0 && parts[0] == ""
      invariant |parts| <= |xs| && parts == xs[|xs| - |parts|..]
      invariant forall i :: 0 <= i < |xs| - |parts| ==> xs[i] == ""
    {
      parts := parts[1..];
    }
    LeadingEmptyIs(xs, |xs| - |parts|);
  }

  /** The second loop of `normalizeLines`: pop empty lines off the back. */
  method PopEmpty(xs: seq<string>) returns (parts: seq<string>)
    ensures parts == xs[..|xs| - TrailingEmpty(xs)]
  {
    parts := xs;
    while |parts| > 0 && parts[|parts| - 1] == ""
      invariant |parts| <= |xs| && parts == xs[..|parts|]
      invariant forall i :: |parts| <= i < |xs| ==> xs[i] == ""
    {
      parts := parts[..|parts| - 1];
    }
    TrailingEmptyIs(xs, |xs| - |parts|);
  }

  lemma LeadingEmptyIs(xs: seq<string>, m: nat)
    requires m <= |xs| && forall i :: 0 <= i < m ==> xs[i] == ""
    requires m < |xs| ==> xs[m] != ""
    ensures LeadingEmpty(xs) == m
  {
  }

  lemma TrailingEmptyIs(xs: seq<string>, m: nat)
    requires m <= |xs| && forall i :: |xs| - m <= i < |xs| ==> xs[i] == ""
    requires m < |xs| ==> xs[|xs| - 1 - m] != ""
    ensures TrailingEmpty(xs) == m
  {
  }

  // ---------------------------------------------------------------------------
  // What normalizeLines promises
  // ---------------------------------------------------------------------------

  /** The result is a contiguous slice of the normalised pieces: everything
      before it and everything after it is an empty line, so only leading and
      trailing empty lines are dropped and inner blank lines stay. */
  lemma NormalizedLinesSlice(text: string)
    ensures var ps, r := Pieces(text), NormalizedLines(text);
      var lo := LeadingEmpty(ps);
      && lo + |r| <= |ps|
      && r == ps[lo..lo + |r|]
      && (forall i :: 0 <= i < lo ==> ps[i] == "")
      && (forall i :: lo + |r| <= i < |ps| ==> ps[i] == "")
  {
    var ps := Pieces(text);
    var lo := LeadingEmpty(ps);
    var rest := ps[lo..];
    var t := TrailingEmpty(rest);
    forall i | lo + |rest| - t <= i < |ps| ensures ps[i] == "" {
      assert ps[i] == rest[i - lo];
    }
  }

  /** A non-empty result starts and ends with a non-empty line; the result is
      empty exactly when every line of the text is blank or whitespace. */
  lemma NormalizedLinesEdges(text: string)
    ensures var r := NormalizedLines(text);
      r != [] ==> r[0] != "" && r[|r| - 1] != ""
    ensures NormalizedLines(text) == [] <==> AllBlank(Split(text, '\n'))
  {
    var ps := Pieces(text);
    var raw := Split(text, '\n');
    var lo := LeadingEmpty(ps);
    var rest := ps[lo..];
    var t := TrailingEmpty(rest);
    var r := NormalizedLines(text);
    if r != [] {
      assert r[0] == rest[0];
      assert r[|r| - 1] == rest[|rest| - 1 - t];
    }
    // a piece normalises to "" exactly when it is all whitespace
    forall k | 0 <= k < |raw| ensures ps[k] == "" <==> AllSpace(raw[k]) {
      MapNormalizeLineAt(raw, k);
      if AllSpace(raw[k]) { NormalizeLineUnique(raw[k], ""); }
    }
    if r == [] {
      assert forall k :: 0 <= k < |raw| ==> ps[k] == "";
    } else {
      assert rest[0] == ps[lo] && ps[lo] != "";
      assert !AllSpace(raw[lo]);
      assert !AllBlank(raw);
    }
  }

  /** Every line of the result is a normalised piece of the text: it holds no
      line feed and does not end in whitespace. */
  lemma NormalizedLinesAt(text: string, i: nat)
    requires i < |NormalizedLines(text)|
    ensures var line := NormalizedLines(text)[i];
      && line == NormalizeLine(Split(text, '\n')[LeadingEmpty(Pieces(text)) + i])
      && '\n' !in line
      && (line == [] || !IsSpace(line[|line| - 1]))
      && NormalizeLine(line) == line
  {
    var raw := Split(text, '\n');
    var lo := LeadingEmpty(Pieces(text));
    NormalizedLinesIndex(text, i);
    NormalizedLineShape(raw[lo + i]);
  }

  /** Line `i` of the result is the normalised piece `i` places after the
      leading empty ones. */
  lemma NormalizedLinesIndex(text: string, i: nat)
    requires i < |NormalizedLines(text)|
    ensures LeadingEmpty(Pieces(text)) + i < |Split(text, '\n')|
    ensures NormalizedLines(text)[i] == NormalizeLine(Split(text, '\n')[LeadingEmpty(Pieces(text)) + i])
  {
    NormalizedLinesSlice(text);
    MapNormalizeLineAt(Split(text, '\n'), LeadingEmpty(Pieces(text)) + i);
  }

  /** Normalising a line without a line feed gives a line without a line feed
      or trailing whitespace, which normalising again keeps. */
  lemma NormalizedLineShape(raw: string)
    requires '\n' !in raw
    ensures var line := NormalizeLine(raw);
      && '\n' !in line
      && (line == [] || !IsSpace(line[|line| - 1]))
      && NormalizeLine(line) == line
  {
    var line := NormalizeLine(raw);
    assert line <= raw;
    NormalizeLineFixedPoint(line);
  }

  lemma NormalizedLinesElements(text: string)
    ensures forall i :: 0 <= i < |NormalizedLines(text)| ==>
      var line := NormalizedLines(text)[i];
      '\n' !in line && NormalizeLine(line) == line
  {
    forall i | 0 <= i < |NormalizedLines(text)|
      ensures '\n' !in NormalizedLines(text)[i]
      ensures NormalizeLine(NormalizedLines(text)[i]) == NormalizedLines(text)[i]
    {
      NormalizedLinesAt(text, i);
    }
  }

  /** There are at most as many result lines as line feeds in the text, plus one. */
  lemma NormalizedLinesLength(text: string)
    ensures |NormalizedLines(text)| <= Occurrences(text, '\n') + 1
  {
    NormalizedLinesSlice(text);
    SplitCount(text, '\n');
  }

  /** A slice of `xs` that starts and ends with a non-empty string has no empty
      edges to trim. */
  lemma TrimEmptyEdgesFixedPoint(xs: seq<string>)
    requires xs != [] ==> xs[0] != "" && xs[|xs| - 1] != ""
    ensures TrimEmptyEdges(xs) == xs
  {
  }

  /** Normalising lines that are already normalised changes nothing. */
  lemma {:induction false} MapNormalizeLineFixedPoint(xs: seq<string>)
    requires forall k :: 0 <= k < |xs| ==> NormalizeLine(xs[k]) == xs[k]
    ensures MapNormalizeLine(xs) == xs
  {
    if xs != [] {
      MapNormalizeLineFixedPoint(xs[1..]);
    }
  }

  /** Splitting normalised lines joined with line feeds and normalising the
      pieces gives the lines back. */
  lemma PiecesOfJoin(r: seq<string>)
    requires r != []
    requires forall i :: 0 <= i < |r| ==> '\n' !in r[i] && NormalizeLine(r[i]) == r[i]
    ensures Pieces(Join(r, "\n")) == r
  {
    SplitJoin(r, '\n');
    MapNormalizeLineFixedPoint(r);
  }

  /** normalizeLines is idempotent once its result is joined back with line feeds. */
  lemma NormalizeLinesIdempotent(text: string)
    ensures NormalizedLines(Join(NormalizedLines(text), "\n")) == NormalizedLines(text)
  {
    var r := NormalizedLines(text);
    NormalizedLinesEdges(text);
    if r == [] {
      assert Pieces("") == [""];
    } else {
      NormalizedLinesElements(text);
      PiecesOfJoin(r);
      TrimEmptyEdgesFixedPoint(r);
    }
  }
}
