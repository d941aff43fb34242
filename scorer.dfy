/**
 * The duplicate-letter-aware guess scorer, as a reference definition.
 *
 * The repository scores a guess in three places (the page's checkGuess, the
 * keyboard's letterStates, the board's computeRowStates), each with the same
 * two passes over a letter-frequency table. Each copy is modelled as a method
 * with those loops and proved equal to Score below. Score itself is stated
 * declaratively: position i is correct when the letters agree, and otherwise
 * present exactly when fewer earlier non-exact copies of its letter exist than
 * copies of that letter the target has left over after the exact matches.
 *
 * Score is generic in the letter type so that the page's copy, whose target
 * may be the empty string (every read `target[i]` then yields `undefined`),
 * can be stated over Option<char>.
 */
module Scorer {
  import opened JsString

  /** The LetterState union: "correct" | "present" | "absent" | "empty". */
  datatype Verdict = Correct | Present | Absent | Empty

  /** Number of positions i < k with s[i] == c. */
  function Occ<T(==)>(s: seq<T>, c: T, k: nat): nat
    requires k <= |s|
  {
    if k == 0 then 0 else Occ(s, c, k - 1) + (if s[k - 1] == c then 1 else 0)
  }

  /** Number of positions i < k where guess and target both hold c. */
  function Exact<T(==)>(g: seq<T>, t: seq<T>, c: T, k: nat): nat
    requires |g| == |t| && k <= |g|
  {
    if k == 0 then 0 else Exact(g, t, c, k - 1) + (if g[k - 1] == c && t[k - 1] == c then 1 else 0)
  }

  /** Number of positions i < k where the guess holds c and the target does not. */
  function Loose<T(==)>(g: seq<T>, t: seq<T>, c: T, k: nat): nat
    requires |g| == |t| && k <= |g|
  {
    if k == 0 then 0 else Loose(g, t, c, k - 1) + (if g[k - 1] == c && t[k - 1] != c then 1 else 0)
  }

  lemma {:induction false} ExactAtMostOcc<T>(g: seq<T>, t: seq<T>, c: T, k: nat)
    requires |g| == |t| && k <= |g|
    ensures Exact(g, t, c, k) <= Occ(t, c, k)
  {
    if k > 0 {
      ExactAtMostOcc(g, t, c, k - 1);
    }
  }

  lemma {:induction false} ExactMonotone<T>(g: seq<T>, t: seq<T>, c: T, i: nat, j: nat)
    requires |g| == |t| && i <= j <= |g|
    ensures Exact(g, t, c, i) <= Exact(g, t, c, j)
  {
    if i < j {
      ExactMonotone(g, t, c, i, j - 1);
    }
  }

  /** Copies of c in the target that the exact matches leave over: the table entry after pass 1. */
  function Remaining<T(==)>(g: seq<T>, t: seq<T>, c: T): nat
    requires |g| == |t|
  {
    ExactAtMostOcc(g, t, c, |g|);
    Occ(t, c, |t|) - Exact(g, t, c, |g|)
  }

  function Min(a: int, b: int): int {
    if a <= b then a else b
  }

  /** The verdict for position i. */
  function VerdictAt<T(==)>(g: seq<T>, t: seq<T>, i: nat): Verdict
    requires |g| == |t| && i < |g|
  {
    if g[i] == t[i] then Correct
    else if Loose(g, t, g[i], i) < Remaining(g, t, g[i]) then Present
    else Absent
  }

  /** The scorer: one verdict per position, never Empty, Correct exactly where the letters agree. */
  function Score<T(==)>(g: seq<T>, t: seq<T>): (r: seq<Verdict>)
    requires |g| == |t|
    ensures |r| == |g|
    ensures forall i :: 0 <= i < |g| ==> r[i] != Empty
    ensures forall i :: 0 <= i < |g| ==> (r[i] == Correct <==> g[i] == t[i])
  {
    seq(|g|, i requires 0 <= i < |g| => VerdictAt(g, t, i))
  }

  predicate AllCorrect(r: seq<Verdict>) {
    forall i :: 0 <= i < |r| ==> r[i] == Correct
  }

  /** Number of positions i < k where the guess holds c and the verdict is Correct or Present. */
  function Hits<T(==)>(g: seq<T>, r: seq<Verdict>, c: T, k: nat): nat
    requires |g| == |r| && k <= |g|
  {
    if k == 0 then 0
    else Hits(g, r, c, k - 1) + (if g[k - 1] == c && (r[k - 1] == Correct || r[k - 1] == Present) then 1 else 0)
  }

  // ---------------------------------------------------------------------------
  // Laws of the scorer

  /** Every copy of c in the guess is either an exact or a non-exact one. */
  lemma {:induction false} OccSplits<T>(g: seq<T>, t: seq<T>, c: T, k: nat)
    requires |g| == |t| && k <= |g|
    ensures Occ(g, c, k) == Exact(g, t, c, k) + Loose(g, t, c, k)
  {
    if k > 0 {
      OccSplits(g, t, c, k - 1);
    }
  }

  /** Over a prefix, the hits on c are its exact matches plus as many non-exact copies as the table allows. */
  lemma {:induction false} HitsOnPrefix<T>(g: seq<T>, t: seq<T>, c: T, k: nat)
    requires |g| == |t| && k <= |g|
    ensures Hits(g, Score(g, t), c, k) == Exact(g, t, c, k) + Min(Remaining(g, t, c), Loose(g, t, c, k))
  {
    if k > 0 {
      var r := Score(g, t);
      var rem := Remaining(g, t, c);
      var hits, exact, loose := Hits(g, r, c, k - 1), Exact(g, t, c, k - 1), Loose(g, t, c, k - 1);
      HitsOnPrefix(g, t, c, k - 1);
      assert hits == exact + Min(rem, loose);
      var v := VerdictAt(g, t, k - 1);
      assert r[k - 1] == v;
      var hit := if g[k - 1] == c && (v == Correct || v == Present) then 1 else 0;
      assert Hits(g, r, c, k) == hits + hit;
      assert Exact(g, t, c, k) == exact + (if g[k - 1] == c && t[k - 1] == c then 1 else 0);
      assert Loose(g, t, c, k) == loose + (if g[k - 1] == c && t[k - 1] != c then 1 else 0);
    }
  }

  /** Duplicate-letter law: every letter is credited min(copies in guess, copies in target) times. */
  lemma LetterCredit<T>(g: seq<T>, t: seq<T>, c: T)
    requires |g| == |t|
    ensures Hits(g, Score(g, t), c, |g|) == Min(Occ(g, c, |g|), Occ(t, c, |t|))
  {
    HitsOnPrefix(g, t, c, |g|);
    OccSplits(g, t, c, |g|);
    ExactAtMostOcc(g, t, c, |g|);
  }

  lemma {:induction false} LooseMonotone<T>(g: seq<T>, t: seq<T>, c: T, i: nat, j: nat)
    requires |g| == |t| && i <= j <= |g|
    ensures Loose(g, t, c, i) <= Loose(g, t, c, j)
  {
    if i < j {
      LooseMonotone(g, t, c, i, j - 1);
    }
  }

  /**
   * Left-to-right tie-breaking: among the non-exact copies of one letter, a
   * later copy is Present only if every earlier one is.
   */
  lemma PresentGoesLeftmostFirst<T>(g: seq<T>, t: seq<T>, i: nat, j: nat)
    requires |g| == |t| && i < j < |g|
    requires g[i] == g[j] && g[i] != t[i] && g[j] != t[j]
    requires Score(g, t)[j] == Present
    ensures Score(g, t)[i] == Present
  {
    assert VerdictAt(g, t, j) == Present;
    LooseMonotone(g, t, g[i], i, j);
    assert VerdictAt(g, t, i) == Present;
  }

  lemma {:induction false} LeftoverHasWitness<T>(g: seq<T>, t: seq<T>, c: T, k: nat)
    requires |g| == |t| && k <= |g|
    requires Exact(g, t, c, k) < Occ(t, c, k)
    ensures exists j :: 0 <= j < k && t[j] == c && g[j] != c
  {
    if k > 0 && !(t[k - 1] == c && g[k - 1] != c) {
      LeftoverHasWitness(g, t, c, k - 1);
    }
  }

  /** A Present verdict points at a copy of that letter in the target that no exact match used. */
  lemma PresentHasUnmatchedCopy<T>(g: seq<T>, t: seq<T>, i: nat)
    requires |g| == |t| && i < |g|
    requires Score(g, t)[i] == Present
    ensures exists j :: 0 <= j < |t| && t[j] == g[i] && g[j] != t[j]
  {
    LeftoverHasWitness(g, t, g[i], |g|);
  }

  /** A guess scores all Correct exactly when it is the target. */
  lemma AllCorrectIffEqual<T>(g: seq<T>, t: seq<T>)
    requires |g| == |t|
    ensures AllCorrect(Score(g, t)) <==> g == t
  {
    if AllCorrect(Score(g, t)) {
      forall i | 0 <= i < |g| ensures g[i] == t[i] {
        assert Score(g, t)[i] == Correct;
      }
    }
  }

  // ---------------------------------------------------------------------------
  // The frequency table of the two-pass algorithm, step by step
  //
  // Counted, Matched and Claimed give the table as the loops leave it after k
  // steps of the counting pass, pass 1 and pass 2; the lemmas after them say
  // what each entry is in terms of Occ, Exact and Loose.

  /** `freq[t] = (freq[t] || 0) + 1` over the first k target letters. */
  ghost function Counted<T>(t: seq<T>, k: nat): map<T, int>
    requires k <= |t|
  {
    if k == 0 then map[]
    else
      var f := Counted(t, k - 1);
      f[t[k - 1] := (if t[k - 1] in f then f[t[k - 1]] else 0) + 1]
  }

  /** Pass 1 over the first k positions: `freq[guess[i]] -= 1` at each exact match. */
  ghost function Matched<T>(g: seq<T>, t: seq<T>, k: nat): map<T, int>
    requires |g| == |t| && k <= |g|
  {
    if k == 0 then Counted(t, |t|)
    else
      var f := Matched(g, t, k - 1);
      var c := g[k - 1];
      if c == t[k - 1] then f[c := (if c in f then f[c] else 0) - 1] else f
  }

  /** Pass 2 over the first k positions: a non-exact letter with a positive entry takes one copy. */
  ghost function Claimed<T>(g: seq<T>, t: seq<T>, k: nat): map<T, int>
    requires |g| == |t| && k <= |g|
  {
    if k == 0 then Matched(g, t, |g|)
    else
      var f := Claimed(g, t, k - 1);
      var c := g[k - 1];
      if c != t[k - 1] && c in f && f[c] > 0 then f[c := f[c] - 1] else f
  }

  lemma {:induction false} CountedEntry<T>(t: seq<T>, k: nat, c: T)
    requires k <= |t|
    ensures c in Counted(t, k) <==> Occ(t, c, k) > 0
    ensures c in Counted(t, k) ==> Counted(t, k)[c] == Occ(t, c, k)
  {
    if k > 0 {
      CountedEntry(t, k - 1, c);
    }
  }

  lemma {:induction false} OccPositiveAt<T>(t: seq<T>, i: nat, k: nat)
    requires i < k <= |t|
    ensures Occ(t, t[i], k) > 0
  {
    if i < k - 1 {
      OccPositiveAt(t, i, k - 1);
    }
  }

  lemma {:induction false} MatchedEntry<T>(g: seq<T>, t: seq<T>, k: nat, c: T)
    requires |g| == |t| && k <= |g|
    ensures c in Matched(g, t, k) <==> Occ(t, c, |t|) > 0
    ensures c in Matched(g, t, k) ==> Matched(g, t, k)[c] == Occ(t, c, |t|) - Exact(g, t, c, k)
  {
    if k == 0 {
      CountedEntry(t, |t|, c);
    } else {
      MatchedEntry(g, t, k - 1, c);
      if g[k - 1] == t[k - 1] == c {
        OccPositiveAt(t, k - 1, |t|);
      }
    }
  }

  lemma {:induction false} ClaimedEntry<T>(g: seq<T>, t: seq<T>, k: nat, c: T)
    requires |g| == |t| && k <= |g|
    ensures c in Claimed(g, t, k) <==> Occ(t, c, |t|) > 0
    ensures c in Claimed(g, t, k) ==>
      Claimed(g, t, k)[c] == Remaining(g, t, c) - Min(Remaining(g, t, c), Loose(g, t, c, k))
  {
    if k == 0 {
      MatchedEntry(g, t, |g|, c);
    } else {
      ClaimedEntry(g, t, k - 1, c);
    }
  }

  /** The frequency table never holds a negative count, in any pass. */
  lemma TableNeverNegative<T>(g: seq<T>, t: seq<T>, c: T)
    requires |g| == |t|
    ensures forall k :: 0 <= k <= |t| && c in Counted(t, k) ==> Counted(t, k)[c] >= 0
    ensures forall k :: 0 <= k <= |g| && c in Matched(g, t, k) ==> Matched(g, t, k)[c] >= 0
    ensures forall k :: 0 <= k <= |g| && c in Claimed(g, t, k) ==> Claimed(g, t, k)[c] >= 0
  {
    forall k | 0 <= k <= |t| ensures c in Counted(t, k) ==> Counted(t, k)[c] >= 0 {
      CountedEntry(t, k, c);
    }
    forall k | 0 <= k <= |g| ensures c in Matched(g, t, k) ==> Matched(g, t, k)[c] >= 0 {
      MatchedEntry(g, t, k, c);
      ExactAtMostOcc(g, t, c, |g|);
      ExactMonotone(g, t, c, k, |g|);
    }
    forall k | 0 <= k <= |g| ensures c in Claimed(g, t, k) ==> Claimed(g, t, k)[c] >= 0 {
      ClaimedEntry(g, t, k, c);
    }
  }

  /** At an exact match the letter is in the table (pass 1 never decrements a missing entry). */
  lemma MatchedHasExactLetter<T>(g: seq<T>, t: seq<T>, k: nat)
    requires |g| == |t| && k < |g| && g[k] == t[k]
    ensures g[k] in Matched(g, t, k)
  {
    MatchedEntry(g, t, k, g[k]);
    OccPositiveAt(t, k, |t|);
  }

  /** In pass 2 the table lookup decides Present exactly as the reference verdict does. */
  lemma ClaimedDecides<T>(g: seq<T>, t: seq<T>, k: nat)
    requires |g| == |t| && k < |g| && g[k] != t[k]
    ensures (g[k] in Claimed(g, t, k) && Claimed(g, t, k)[g[k]] > 0) <==> VerdictAt(g, t, k) == Present
  {
    ClaimedEntry(g, t, k, g[k]);
    if g[k] !in Claimed(g, t, k) {
      ExactAtMostOcc(g, t, g[k], |g|);
    }
  }

  /** The counting pass: `freq[t] = (freq[t] || 0) + 1` for every target letter. */
  method CountLetters<T(==)>(target: seq<T>) returns (freq: map<T, int>)
    ensures freq == Counted(target, |target|)
  {
    freq := map[];
    for i := 0 to |target|
      invariant freq == Counted(target, i)
    {
      var t := target[i];
      freq := freq[t := (if t in freq then freq[t] else 0) + 1];
    }
  }

  /** Pass 1: exact matches become Correct and take one copy of their letter out of the count. */
  method MarkExact<T(==)>(guess: seq<T>, target: seq<T>, res: array<Verdict>, counted: map<T, int>)
    returns (freq: map<T, int>)
    requires |guess| == |target| == res.Length
    requires counted == Counted(target, |target|)
    requires forall k :: 0 <= k < res.Length ==> res[k] == Absent
    modifies res
    ensures freq == Matched(guess, target, |guess|)
    ensures forall k :: 0 <= k < res.Length ==> res[k] == (if guess[k] == target[k] then Correct else Absent)
  {
    freq := counted;
    for i := 0 to |guess|
      invariant freq == Matched(guess, target, i)
      invariant forall k :: 0 <= k < res.Length ==>
        res[k] == (if k < i && guess[k] == target[k] then Correct else Absent)
    {
      if guess[i] == target[i] {
        MatchedHasExactLetter(guess, target, i);
        res[i] := Correct;
        freq := freq[guess[i] := freq[guess[i]] - 1];
      }
    }
  }

  /** Pass 2: a non-exact letter whose count is still positive becomes Present and spends one copy. */
  method MarkPresent<T(==)>(guess: seq<T>, target: seq<T>, res: array<Verdict>, matched: map<T, int>)
    requires |guess| == |target| == res.Length
    requires matched == Matched(guess, target, |guess|)
    requires forall k :: 0 <= k < res.Length ==> res[k] == (if guess[k] == target[k] then Correct else Absent)
    modifies res
    ensures forall k :: 0 <= k < res.Length ==> res[k] == VerdictAt(guess, target, k)
  {
    var freq := matched;
    for i := 0 to |guess|
      invariant freq == Claimed(guess, target, i)
      invariant forall k :: 0 <= k < i ==> res[k] == VerdictAt(guess, target, k)
      invariant forall k :: i <= k < res.Length ==> res[k] == (if guess[k] == target[k] then Correct else Absent)
    {
      if res[i] == Correct {
        continue;
      }
      ClaimedDecides(guess, target, i);
      var g := guess[i];
      var v := if g in freq && freq[g] > 0 then Present else Absent;
      assert v == VerdictAt(guess, target, i);
      res[i] := v;
      if v == Present {
        freq := freq[g := freq[g] - 1];
      }
    }
  }

  /**
   * The two-pass scorer the page, the keyboard and the board each carry a copy
   * of: count the target's letters, mark exact matches and take them out of
   * the count, then mark a remaining letter Present while its count is
   * positive, spending one copy each time. It computes the reference verdicts.
   */
  method TwoPass<T(==)>(guess: seq<T>, target: seq<T>) returns (result: seq<Verdict>)
    requires |guess| == |target|
    ensures result == Score(guess, target)
  {
    var res := new Verdict[|target|](_ => Absent);
    var freq := CountLetters(target);
    freq := MarkExact(guess, target, res, freq);
    MarkPresent(guess, target, res, freq);
    result := res[..];
  }

  // ---------------------------------------------------------------------------
  // The page's copy reads the target through JavaScript indexing

  lemma {:induction false} OccLifted(s: string, c: char, k: nat)
    requires k <= |s|
    ensures Occ(Lift(s), Some(c), k) == Occ(s, c, k)
  {
    if k > 0 {
      OccLifted(s, c, k - 1);
    }
  }

  lemma {:induction false} ExactLooseLifted(g: string, t: string, c: char, k: nat)
    requires |g| == |t| && k <= |g|
    ensures Exact(Lift(g), Lift(t), Some(c), k) == Exact(g, t, c, k)
    ensures Loose(Lift(g), Lift(t), Some(c), k) == Loose(g, t, c, k)
  {
    if k > 0 {
      ExactLooseLifted(g, t, c, k - 1);
    }
  }

  /** Scoring lifted strings is scoring the strings: the three copies agree on a full-length target. */
  lemma ScoreLifted(g: string, t: string)
    requires |g| == |t|
    ensures Score(Lift(g), View(t, |t|)) == Score(g, t)
  {
    ViewOfFullLength(t);
    forall i | 0 <= i < |g| ensures VerdictAt(Lift(g), Lift(t), i) == VerdictAt(g, t, i) {
      OccLifted(t, g[i], |t|);
      ExactLooseLifted(g, t, g[i], |g|);
      ExactLooseLifted(g, t, g[i], i);
    }
  }

  lemma {:induction false} OccOfUndefined(n: nat, c: char, k: nat)
    requires k <= n
    ensures Occ(View("", n), Some(c), k) == 0
  {
    if k > 0 {
      OccOfUndefined(n, c, k - 1);
    }
  }

  /** Against the empty target (before any word of the day is loaded) every letter is Absent. */
  lemma EmptyTargetAllAbsent(g: string)
    ensures forall i :: 0 <= i < |g| ==> Score(Lift(g), View("", |g|))[i] == Absent
  {
    forall i | 0 <= i < |g| ensures Score(Lift(g), View("", |g|))[i] == Absent {
      OccOfUndefined(|g|, g[i], |g|);
      ExactAtMostOcc(Lift(g), View("", |g|), Some(g[i]), |g|);
    }
  }

  // ---------------------------------------------------------------------------
  // Worked examples

  /** Target CRANE, guess TRACE; and the winning guess. */
  lemma CraneExample()
    ensures Score("TRACE", "CRANE") == [Absent, Correct, Correct, Present, Correct]
    ensures AllCorrect(Score("CRANE", "CRANE"))
  {
    var g, t := "TRACE", "CRANE";
    assert g[0] == 'T' && g[1] == 'R' && g[2] == 'A' && g[3] == 'C' && g[4] == 'E';
    assert t[0] == 'C' && t[1] == 'R' && t[2] == 'A' && t[3] == 'N' && t[4] == 'E';
    assert Occ(t, 'T', 5) == 0;
    assert Occ(t, 'C', 5) == 1 && Exact(g, t, 'C', 5) == 0 && Loose(g, t, 'C', 3) == 0;
    assert VerdictAt(g, t, 0) == Absent && VerdictAt(g, t, 3) == Present;
    var r := Score(g, t);
    assert r == [r[0], r[1], r[2], r[3], r[4]];
  }

  /**
   * Target LLAMA, guess ALLOY: one L of the target is matched exactly, the
   * other is left for the guess's second L; both A's of the target are
   * unmatched, so the guess's A is present.
   */
  lemma LlamaExample()
    ensures Score("ALLOY", "LLAMA") == [Present, Correct, Present, Absent, Absent]
  {
    var g, t := "ALLOY", "LLAMA";
    assert g[0] == 'A' && g[1] == 'L' && g[2] == 'L' && g[3] == 'O' && g[4] == 'Y';
    assert t[0] == 'L' && t[1] == 'L' && t[2] == 'A' && t[3] == 'M' && t[4] == 'A';
    assert Occ(t, 'A', 5) == 2 && Exact(g, t, 'A', 5) == 0 && Loose(g, t, 'A', 0) == 0;
    assert Occ(t, 'L', 5) == 2 && Exact(g, t, 'L', 5) == 1 && Loose(g, t, 'L', 2) == 0;
    assert Occ(t, 'O', 5) == 0 && Occ(t, 'Y', 5) == 0;
    assert VerdictAt(g, t, 0) == Present && VerdictAt(g, t, 2) == Present;
    assert VerdictAt(g, t, 3) == Absent && VerdictAt(g, t, 4) == Absent;
    var r := Score(g, t);
    assert r == [r[0], r[1], r[2], r[3], r[4]];
  }
}
