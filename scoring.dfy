/** The Wordle-style line scorer of completion mode (src/lib/scoring.ts) and the
    feedback records it produces (src/types.ts). Lines are compared verbatim. */
module Scoring {

  datatype LineStatus = Correct | Present | Absent

  datatype LineFeedback = LineFeedback(line: string, status: LineStatus)

  /** Guess line `j` equals the target line at the same index, so the first pass
      marks target line `j` as used for it. */
  predicate PositionalMatch(guessLines: seq<string>, targetLines: seq<string>, j: int) {
    0 <= j < |guessLines| && j < |targetLines| && guessLines[j] == targetLines[j]
  }

  /** Target line `j` is already used when the second pass reaches a guess line
      whose predecessors claimed the target indices `earlier`: either a
      positional match took it in the first pass, or an earlier line did. */
  predicate Taken(guessLines: seq<string>, targetLines: seq<string>, earlier: seq<int>, j: int) {
    PositionalMatch(guessLines, targetLines, j) || j in earlier
  }

  /** `j` is what `findIndex` returns: the leftmost target line holding `line`
      that is not yet used. */
  predicate LeftmostFree(guessLines: seq<string>, targetLines: seq<string>, earlier: seq<int>, line: string, j: int) {
    && 0 <= j < |targetLines|
    && targetLines[j] == line
    && !Taken(guessLines, targetLines, earlier, j)
    && forall j' :: 0 <= j' < j && targetLines[j'] == line ==> Taken(guessLines, targetLines, earlier, j')
  }

  /** `findIndex` returns -1: every target line holding `line` is already used. */
  predicate NoneFree(guessLines: seq<string>, targetLines: seq<string>, earlier: seq<int>, line: string) {
    forall j :: 0 <= j < |targetLines| && targetLines[j] == line ==> Taken(guessLines, targetLines, earlier, j)
  }

  /** What `scoreGuess` promises of its result `fb`, where `claim[i]` is the
      target index that guess line `i` took (-1 when it took none). */
  ghost predicate ScoreSpec(guessLines: seq<string>, targetLines: seq<string>, fb: seq<LineFeedback>, claim: seq<int>) {
    && |fb| == |guessLines| && |claim| == |guessLines|
    && (forall i :: 0 <= i < |fb| ==> fb[i].line == guessLines[i])
    && (forall i :: 0 <= i < |fb| ==> (fb[i].status == Correct <==> PositionalMatch(guessLines, targetLines, i)))
    && (forall i :: 0 <= i < |fb| && fb[i].status == Correct ==> claim[i] == i)
    && (forall i :: 0 <= i < |fb| && fb[i].status == Present ==>
          LeftmostFree(guessLines, targetLines, claim[..i], guessLines[i], claim[i]))
    && (forall i :: 0 <= i < |fb| && fb[i].status == Absent ==>
          claim[i] == -1 && NoneFree(guessLines, targetLines, claim[..i], guessLines[i]))
  }

  /** Number of lines scored `correct` or `present`. */
  function Matched(fb: seq<LineFeedback>): nat {
    MatchedUpTo(fb, |fb|)
  }

  /** `targetLines.findIndex((tl, ti) => !used[ti] && tl === line)` */
  method FindUnused(used: array<bool>, targetLines: seq<string>, line: string) returns (idx: int)
    requires used.Length == |targetLines|
    ensures -1 <= idx < |targetLines|
    ensures idx == -1 ==> forall j :: 0 <= j < |targetLines| && targetLines[j] == line ==> used[j]
    ensures idx != -1 ==> !used[idx] && targetLines[idx] == line
    ensures idx != -1 ==> forall j :: 0 <= j < idx && targetLines[j] == line ==> used[j]
  {
    idx := 0;
    while idx < |targetLines|
      invariant 0 <= idx <= |targetLines|
      invariant forall j :: 0 <= j < idx && targetLines[j] == line ==> used[j]
    {
      if !used[idx] && targetLines[idx] == line {
        return;
      }
      idx := idx + 1;
    }
    idx := -1;
  }

  /** The first pass of `scoreGuess` (the `guessLines.map` callback): a line
      equal to the target line at its own index is `correct` and uses that
      target line; every other line starts out `absent`. */
  method MarkPositional(guessLines: seq<string>, targetLines: seq<string>, used: array<bool>, out: array<LineFeedback>)
    returns (ghost claim: seq<int>)
    requires used.Length == |targetLines| && out.Length == |guessLines|
    requires forall j :: 0 <= j < used.Length ==> !used[j]
    modifies used, out
    ensures |claim| == |guessLines|
    ensures forall k :: 0 <= k < |guessLines| ==>
      && out[k] == LineFeedback(guessLines[k], if PositionalMatch(guessLines, targetLines, k) then Correct else Absent)
      && claim[k] == if PositionalMatch(guessLines, targetLines, k) then k else -1
    ensures forall j :: 0 <= j < |targetLines| ==> used[j] == PositionalMatch(guessLines, targetLines, j)
  {
    claim := seq(|guessLines|, _ => -1);
    for i := 0 to |guessLines|
      invariant |claim| == |guessLines|
      invariant forall k :: 0 <= k < i ==>
        out[k] == LineFeedback(guessLines[k], if PositionalMatch(guessLines, targetLines, k) then Correct else Absent)
      invariant forall k :: 0 <= k < |guessLines| ==>
        claim[k] == if k < i && PositionalMatch(guessLines, targetLines, k) then k else -1
      invariant forall j :: 0 <= j < |targetLines| ==>
        used[j] == (j < i && PositionalMatch(guessLines, targetLines, j))
    {
      if i < |targetLines| && guessLines[i] == targetLines[i] {
        used[i] := true;
        out[i] := LineFeedback(guessLines[i], Correct);
        claim := claim[i := i];
      } else {
        out[i] := LineFeedback(guessLines[i], Absent);
      }
    }
  }

  /** `scoreGuess`: the first pass marks positional matches `correct`, the second
      lets every other line take the leftmost unused target line with the same
      text (`present`); the rest stay `absent`. The ghost `claim` records which
      target line each guess line took. */
  method ScoreGuess(guessLines: seq<string>, targetLines: seq<string>)
    returns (feedback: seq<LineFeedback>, ghost claim: seq<int>)
    ensures ScoreSpec(guessLines, targetLines, feedback, claim)
    ensures Matched(feedback) <= |targetLines|
    ensures guessLines == targetLines ==>
      forall i :: 0 <= i < |feedback| ==> feedback[i].status == Correct
  {
    var used := new bool[|targetLines|](_ => false);
    var out := new LineFeedback[|guessLines|];

    // 1) positional matches
    claim := MarkPositional(guessLines, targetLines, used, out);

    // 2) displaced matches
    for i := 0 to |guessLines|
      invariant |claim| == |guessLines|
      invariant SecondPassInv(guessLines, targetLines, out[..], claim, used[..], i)
    {
      claim := SecondPassStep(guessLines, targetLines, used, out, claim, i);
    }
    feedback := out[..];
    SecondPassDone(guessLines, targetLines, feedback, claim, used[..]);
    MatchedBound(guessLines, targetLines, feedback, claim);
  }

  /** One iteration of the second pass: an `absent` line takes the leftmost
      unused target line with its text, if there is one, and becomes
      `present`. */
  method SecondPassStep(guessLines: seq<string>, targetLines: seq<string>, used: array<bool>,
                        out: array<LineFeedback>, ghost claim: seq<int>, i: nat)
    returns (ghost claim': seq<int>)
    requires used.Length == |targetLines| && out.Length == |guessLines| && i < |guessLines|
    requires SecondPassInv(guessLines, targetLines, out[..], claim, used[..], i)
    modifies used, out
    ensures |claim'| == |guessLines|
    ensures SecondPassInv(guessLines, targetLines, out[..], claim', used[..], i + 1)
  {
    claim' := claim;
    if out[i].status == Absent {
      var idx := FindUnused(used, targetLines, guessLines[i]);
      if idx != -1 {
        ghost var fb0, used0 := out[..], used[..];
        used[idx] := true;
        out[i] := LineFeedback(guessLines[i], Present);
        claim' := claim[i := idx];
        SecondPassTake(guessLines, targetLines, fb0, claim, used0, i, idx);
        assert out[..] == fb0[i := LineFeedback(guessLines[i], Present)];
        assert used[..] == used0[idx := true];
        return;
      }
    }
    SecondPassKeep(guessLines, targetLines, out[..], claim, used[..], i);
  }

  /** What the first pass leaves at index `k`. */
  function FirstPassStatus(guessLines: seq<string>, targetLines: seq<string>, k: int): LineStatus {
    if PositionalMatch(guessLines, targetLines, k) then Correct else Absent
  }

  /** The invariant of the second pass once guess lines `0..i` are done: lines
      from `i` on are as the first pass left them, lines before `i` meet the
      specification, and `used` holds exactly the target lines taken so far. */
  ghost predicate SecondPassInv(guessLines: seq<string>, targetLines: seq<string>, fb: seq<LineFeedback>,
                                claim: seq<int>, used: seq<bool>, i: nat)
  {
    && |fb| == |guessLines| && |claim| == |guessLines| && |used| == |targetLines| && i <= |guessLines|
    && (forall k :: 0 <= k < |fb| ==> fb[k].line == guessLines[k])
    && (forall k :: 0 <= k < |fb| ==> (fb[k].status == Correct <==> PositionalMatch(guessLines, targetLines, k)))
    && (forall k :: 0 <= k < |fb| && fb[k].status == Correct ==> claim[k] == k)
    && (forall k :: i <= k < |fb| ==> fb[k].status == FirstPassStatus(guessLines, targetLines, k))
    && (forall k :: i <= k < |fb| && fb[k].status == Absent ==> claim[k] == -1)
    && (forall k :: 0 <= k < i && fb[k].status == Present ==>
          LeftmostFree(guessLines, targetLines, claim[..k], guessLines[k], claim[k]))
    && (forall k :: 0 <= k < i && fb[k].status == Absent ==>
          claim[k] == -1 && NoneFree(guessLines, targetLines, claim[..k], guessLines[k]))
    && (forall j :: 0 <= j < |used| ==> used[j] == Taken(guessLines, targetLines, claim[..i], j))
  }

  /** Line `i` keeps its status: it is `correct`, or no unused target line
      holds its text. */
  lemma SecondPassKeep(guessLines: seq<string>, targetLines: seq<string>, fb: seq<LineFeedback>,
                       claim: seq<int>, used: seq<bool>, i: nat)
    requires SecondPassInv(guessLines, targetLines, fb, claim, used, i) && i < |fb|
    requires fb[i].status == Absent ==>
      forall j :: 0 <= j < |targetLines| && targetLines[j] == guessLines[i] ==> used[j]
    ensures SecondPassInv(guessLines, targetLines, fb, claim, used, i + 1)
  {
    assert claim[..i + 1] == claim[..i] + [claim[i]];
    if fb[i].status == Absent {
      assert NoneFree(guessLines, targetLines, claim[..i], guessLines[i]);
    }
    forall j | 0 <= j < |used|
      ensures used[j] == Taken(guessLines, targetLines, claim[..i + 1], j)
    {
      TakenExtend(guessLines, targetLines, claim[..i], claim[i], j);
    }
  }

  /** Claiming `c` adds exactly `c` to the used target lines. */
  lemma TakenExtend(guessLines: seq<string>, targetLines: seq<string>, earlier: seq<int>, c: int, j: int)
    ensures Taken(guessLines, targetLines, earlier + [c], j) <==> Taken(guessLines, targetLines, earlier, j) || j == c
  {
  }

  /** Line `i` takes the leftmost unused target line `idx` with its text. */
  lemma SecondPassTake(guessLines: seq<string>, targetLines: seq<string>, fb: seq<LineFeedback>,
                       claim: seq<int>, used: seq<bool>, i: nat, idx: int)
    requires SecondPassInv(guessLines, targetLines, fb, claim, used, i) && i < |fb|
    requires fb[i].status == Absent
    requires 0 <= idx < |targetLines| && !used[idx] && targetLines[idx] == guessLines[i]
    requires forall j :: 0 <= j < idx && targetLines[j] == guessLines[i] ==> used[j]
    ensures SecondPassInv(guessLines, targetLines, fb[i := LineFeedback(guessLines[i], Present)],
                          claim[i := idx], used[idx := true], i + 1)
  {
    var claim' := claim[i := idx];
    assert claim'[..i + 1] == claim[..i] + [idx];
    assert forall k :: 0 <= k <= i ==> claim'[..k] == claim[..k];
    assert LeftmostFree(guessLines, targetLines, claim'[..i], guessLines[i], idx);
    var used' := used[idx := true];
    forall j | 0 <= j < |used'|
      ensures used'[j] == Taken(guessLines, targetLines, claim'[..i + 1], j)
    {
      TakenExtend(guessLines, targetLines, claim[..i], idx, j);
    }
  }

  /** After the last line the invariant is the specification. */
  lemma SecondPassDone(guessLines: seq<string>, targetLines: seq<string>, fb: seq<LineFeedback>,
                       claim: seq<int>, used: seq<bool>)
    requires SecondPassInv(guessLines, targetLines, fb, claim, used, |guessLines|)
    ensures ScoreSpec(guessLines, targetLines, fb, claim)
  {
  }

  // ---------------------------------------------------------------------------
  // What the specification implies
  // ---------------------------------------------------------------------------

  /** No target line is claimed by two `correct` or `present` guess lines. */
  ghost predicate DistinctClaims(fb: seq<LineFeedback>, claim: seq<int>) {
    && |fb| == |claim|
    && forall i, k :: 0 <= i < k < |fb| && fb[i].status != Absent && fb[k].status != Absent ==>
         claim[i] != claim[k]
  }

  /** The specification gives every target line to at most one guess line. */
  lemma ClaimsDistinct(guessLines: seq<string>, targetLines: seq<string>, fb: seq<LineFeedback>, claim: seq<int>)
    requires ScoreSpec(guessLines, targetLines, fb, claim)
    ensures DistinctClaims(fb, claim)
  {
    forall i, k | 0 <= i < k < |fb| && fb[i].status != Absent && fb[k].status != Absent
      ensures claim[i] != claim[k]
    {
      if fb[k].status == Present {
        assert claim[i] in claim[..k];
      }
    }
  }

  /** The target indices claimed by the first `n` guess lines. */
  ghost function ClaimSet(fb: seq<LineFeedback>, claim: seq<int>, n: nat): set<int>
    requires n <= |fb| <= |claim|
  {
    if n == 0 then {}
    else ClaimSet(fb, claim, n - 1) + (if fb[n - 1].status != Absent then {claim[n - 1]} else {})
  }

  lemma {:induction false} ClaimSetMember(fb: seq<LineFeedback>, claim: seq<int>, n: nat, x: int)
    requires n <= |fb| <= |claim| && x in ClaimSet(fb, claim, n)
    ensures exists i :: 0 <= i < n && fb[i].status != Absent && claim[i] == x
  {
    if fb[n - 1].status == Absent || claim[n - 1] != x {
      ClaimSetMember(fb, claim, n - 1, x);
    }
  }

  /** Number of lines among the first `n` scored `correct` or `present`. */
  function MatchedUpTo(fb: seq<LineFeedback>, n: nat): nat
    requires n <= |fb|
  {
    if n == 0 then 0 else MatchedUpTo(fb, n - 1) + (if fb[n - 1].status != Absent then 1 else 0)
  }

  lemma {:induction false} ClaimSetSize(fb: seq<LineFeedback>, claim: seq<int>, n: nat)
    requires n <= |fb| && DistinctClaims(fb, claim)
    ensures |ClaimSet(fb, claim, n)| == MatchedUpTo(fb, n)
  {
    if n > 0 {
      ClaimSetSize(fb, claim, n - 1);
      if fb[n - 1].status != Absent && claim[n - 1] in ClaimSet(fb, claim, n - 1) {
        ClaimSetMember(fb, claim, n - 1, claim[n - 1]);
        assert false;
      }
    }
  }

  /** A set of indices below `n` has at most `n` elements. */
  lemma {:induction false} BoundedSetSize(s: set<int>, n: nat)
    requires forall x :: x in s ==> 0 <= x < n
    ensures |s| <= n
  {
    if n > 0 {
      BoundedSetSize(s - {n - 1}, n - 1);
    } else {
      forall x | x in s
        ensures false
      {
      }
    }
  }

  /** At most one `correct` or `present` line per target line. */
  lemma MatchedBound(guessLines: seq<string>, targetLines: seq<string>, fb: seq<LineFeedback>, claim: seq<int>)
    requires ScoreSpec(guessLines, targetLines, fb, claim)
    ensures Matched(fb) <= |targetLines|
  {
    ClaimsDistinct(guessLines, targetLines, fb, claim);
    ClaimSetSize(fb, claim, |fb|);
    forall x | x in ClaimSet(fb, claim, |fb|)
      ensures 0 <= x < |targetLines|
    {
      ClaimSetMember(fb, claim, |fb|, x);
      var i :| 0 <= i < |fb| && fb[i].status != Absent && claim[i] == x;
      if fb[i].status == Correct {
        assert PositionalMatch(guessLines, targetLines, i);
      } else {
        assert LeftmostFree(guessLines, targetLines, claim[..i], guessLines[i], claim[i]);
      }
    }
    BoundedSetSize(ClaimSet(fb, claim, |fb|), |targetLines|);
  }

  /** Every line is `correct` and the guess has as many lines as the target
      exactly when the guess is the target. */
  lemma AllCorrectIffEqual(guessLines: seq<string>, targetLines: seq<string>, fb: seq<LineFeedback>, claim: seq<int>)
    requires ScoreSpec(guessLines, targetLines, fb, claim)
    ensures (|guessLines| == |targetLines| && forall i :: 0 <= i < |fb| ==> fb[i].status == Correct)
            <==> guessLines == targetLines
  {
    if |guessLines| == |targetLines| && forall i :: 0 <= i < |fb| ==> fb[i].status == Correct {
      forall i | 0 <= i < |guessLines| ensures guessLines[i] == targetLines[i] {
        assert PositionalMatch(guessLines, targetLines, i);
      }
    }
  }

  /** The specification leaves no freedom: two results meeting it are equal,
      claims included. */
  lemma ScoreSpecUnique(guessLines: seq<string>, targetLines: seq<string>,
                        fb1: seq<LineFeedback>, claim1: seq<int>,
                        fb2: seq<LineFeedback>, claim2: seq<int>)
    requires ScoreSpec(guessLines, targetLines, fb1, claim1)
    requires ScoreSpec(guessLines, targetLines, fb2, claim2)
    ensures fb1 == fb2 && claim1 == claim2
  {
    UniquePrefix(guessLines, targetLines, fb1, claim1, fb2, claim2, |guessLines|);
    assert fb1[..|fb1|] == fb1 && fb2[..|fb2|] == fb2;
    assert claim1[..|claim1|] == claim1 && claim2[..|claim2|] == claim2;
  }

  lemma {:induction false} UniquePrefix(guessLines: seq<string>, targetLines: seq<string>,
                                        fb1: seq<LineFeedback>, claim1: seq<int>,
                                        fb2: seq<LineFeedback>, claim2: seq<int>, n: nat)
    requires ScoreSpec(guessLines, targetLines, fb1, claim1)
    requires ScoreSpec(guessLines, targetLines, fb2, claim2)
    requires n <= |guessLines|
    ensures fb1[..n] == fb2[..n] && claim1[..n] == claim2[..n]
  {
    if n > 0 {
      var i := n - 1;
      UniquePrefix(guessLines, targetLines, fb1, claim1, fb2, claim2, i);
      UniqueAt(guessLines, targetLines, fb1, claim1, fb2, claim2, i);
      PrefixExtend(fb1, fb2, i);
      PrefixExtend(claim1, claim2, i);
    }
  }

  /** Prefixes that agree and are followed by equal elements agree one further. */
  lemma PrefixExtend<T>(a: seq<T>, b: seq<T>, i: nat)
    requires i < |a| && i < |b| && a[..i] == b[..i] && a[i] == b[i]
    ensures a[..i + 1] == b[..i + 1]
  {
    assert a[..i + 1] == a[..i] + [a[i]];
    assert b[..i + 1] == b[..i] + [b[i]];
  }

  /** Guess lines whose predecessors took the same target lines are scored
      alike and take the same target line. */
  lemma UniqueAt(guessLines: seq<string>, targetLines: seq<string>,
                 fb1: seq<LineFeedback>, claim1: seq<int>,
                 fb2: seq<LineFeedback>, claim2: seq<int>, i: nat)
    requires ScoreSpec(guessLines, targetLines, fb1, claim1)
    requires ScoreSpec(guessLines, targetLines, fb2, claim2)
    requires i < |guessLines| && claim1[..i] == claim2[..i]
    ensures fb1[i] == fb2[i] && claim1[i] == claim2[i]
  {
    var earlier := claim1[..i];
    assert claim2[..i] == earlier;
  }
}
