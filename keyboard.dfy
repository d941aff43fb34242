/**
 * The on-screen keyboard: the colour of each letter key, aggregated over the
 * submitted guesses, and the mapping from physical key presses to commands.
 *
 * A key shows the strongest verdict its letter has received in any guess
 * that counts (a guess counts when it and the target both have five
 * letters): Correct beats Present beats Absent, and a letter never guessed
 * has no entry. The keyboard scores each guess with its own copy of the
 * two-pass scorer, modelled by Scorer.TwoPass.
 */
module Keyboard {
  import opened JsString
  import opened Scorer

  /** The three rows of keys as laid out on screen. */
  function KeyboardRows(): seq<seq<string>> {
    [
      ["Q", "W", "E", "R", "T", "Y", "U", "I", "O", "P"],
      ["A", "S", "D", "F", "G", "H", "J", "K", "L"],
      ["ENTER", "Z", "X", "C", "V", "B", "N", "M", "BACKSPACE"]
    ]
  }

  /** How strongly a verdict colours a key. */
  function Priority(v: Verdict): nat {
    match v
    case Correct => 3
    case Present => 2
    case Absent => 1
    case Empty => 0
  }

  /** `states.get(ch) || "empty"`: a letter without an entry reads as Empty. */
  function Lookup(states: map<char, Verdict>, ch: char): Verdict {
    if ch in states then states[ch] else Empty
  }

  /** A guess colours keys only when it and the target both have five letters. */
  predicate Counts(guess: string, targetWord: string) {
    |Upper(guess)| == 5 && |Upper(targetWord)| == 5
  }

  /**
   * The merge loop over the first k positions of one scored guess: the key
   * of the letter at each position takes that position's verdict when the
   * verdict has a higher priority than what the key shows.
   */
  function MergeRow(states: map<char, Verdict>, word: string, verdicts: seq<Verdict>, k: nat): map<char, Verdict>
    requires k <= |word| && k <= |verdicts|
  {
    if k == 0 then states
    else
      var s := MergeRow(states, word, verdicts, k - 1);
      var ch := word[k - 1];
      if Priority(verdicts[k - 1]) > Priority(Lookup(s, ch)) then s[ch := verdicts[k - 1]] else s
  }

  /** The key colours after merging every counted guess, in order, into an empty map. */
  function Aggregate(guesses: seq<string>, targetWord: string): map<char, Verdict> {
    if guesses == [] then map[]
    else
      var before := Aggregate(guesses[..|guesses| - 1], targetWord);
      var guess := Upper(guesses[|guesses| - 1]);
      var target := Upper(targetWord);
      if |guess| != 5 || |target| != 5 then before
      else MergeRow(before, guess, Score(guess, target), 5)
  }

  /** letterStates: the per-guess scoring and merging loops compute the key colours. */
  method LetterStates(guesses: seq<string>, targetWord: string) returns (states: map<char, Verdict>)
    ensures states == Aggregate(guesses, targetWord)
  {
    var target := Upper(targetWord);
    states := map[];
    for j := 0 to |guesses|
      invariant states == Aggregate(guesses[..j], targetWord)
    {
      assert guesses[..j + 1][..j] == guesses[..j];
      var guess := Upper(guesses[j]);
      if |guess| != 5 || |target| != 5 {
        continue;
      }
      var interim := TwoPass(guess, target);
      ghost var before := states;
      for i := 0 to 5
        invariant states == MergeRow(before, guess, interim, i)
      {
        var ch := guess[i];
        var next := interim[i];
        var prev := if ch in states then states[ch] else Empty;
        if Priority(next) > Priority(prev) {
          states := states[ch := next];
        }
      }
    }
    assert guesses[..|guesses|] == guesses;
  }

  /** getKeyState: ENTER and BACKSPACE are never coloured; a letter key shows its entry. */
  function GetKeyState(key: string, states: map<char, Verdict>): (r: Verdict)
    ensures |key| != 1 ==> r == Empty
    ensures |key| == 1 ==> r == Lookup(states, key[0])
  {
    if key == "ENTER" || key == "BACKSPACE" then Empty
    else if |key| == 1 && key[0] in states then states[key[0]]
    else Empty
  }

  /**
   * handleKeyDown: Enter sends ENTER, Backspace and Delete send BACKSPACE, a
   * key whose upper case is one letter A-Z sends that letter, and every other
   * key sends nothing.
   */
  function KeyAction(key: string): (r: Option<string>)
    ensures r.Some? ==>
      r.value == "ENTER" || r.value == "BACKSPACE" || (|r.value| == 1 && IsUpperLetter(r.value[0]))
    ensures key == "Enter" ==> r == Some("ENTER")
    ensures key == "Backspace" || key == "Delete" ==> r == Some("BACKSPACE")
    ensures key != "Enter" && key != "Backspace" && key != "Delete" ==>
      (r.Some? <==> |key| == 1 && (IsUpperLetter(key[0]) || IsLowerLetter(key[0]))) &&
      (r.Some? ==> r.value == Upper(key))
  {
    if key == "Enter" then Some("ENTER")
    else if key == "Backspace" || key == "Delete" then Some("BACKSPACE")
    else
      var ch := Upper(key);
      assert |key| == 1 ==> ch == [UpperChar(key[0])];
      if |ch| == 1 && IsUpperLetter(ch[0]) then Some(ch) else None
  }

  // ---------------------------------------------------------------------------
  // The reference: a key's colour from the verdicts it has received

  /** Counted guess j has letter ch at position i, and the scorer gave that position verdict v. */
  ghost predicate MarkedAt(guesses: seq<string>, targetWord: string, ch: char, v: Verdict, j: int, i: int) {
    0 <= j < |guesses| && Counts(guesses[j], targetWord) && 0 <= i < 5 &&
    Upper(guesses[j])[i] == ch && Score(Upper(guesses[j]), Upper(targetWord))[i] == v
  }

  /** Some counted guess gave letter ch the verdict v. */
  ghost predicate Marked(guesses: seq<string>, targetWord: string, ch: char, v: Verdict) {
    exists j, i :: MarkedAt(guesses, targetWord, ch, v, j, i)
  }

  /** The strongest verdict among those whose flag is set. */
  function Rank(correct: bool, present: bool, absent: bool): Verdict {
    if correct then Correct else if present then Present else if absent then Absent else Empty
  }

  /** The colour a key should show: the strongest verdict its letter has received. */
  ghost function KeyReference(guesses: seq<string>, targetWord: string, ch: char): Verdict {
    Rank(Marked(guesses, targetWord, ch, Correct),
         Marked(guesses, targetWord, ch, Present),
         Marked(guesses, targetWord, ch, Absent))
  }

  /** Some position below k holds letter ch with verdict v. */
  ghost predicate RowMarked(word: string, verdicts: seq<Verdict>, ch: char, v: Verdict, k: nat)
    requires k <= |word| && k <= |verdicts|
  {
    exists i :: 0 <= i < k && word[i] == ch && verdicts[i] == v
  }

  lemma RowMarkedAt(word: string, verdicts: seq<Verdict>, ch: char, v: Verdict, k: nat, i: nat)
    requires k <= |word| && k <= |verdicts| && i < k && word[i] == ch && verdicts[i] == v
    ensures RowMarked(word, verdicts, ch, v, k)
  {
  }

  lemma RowMarkedStep(word: string, verdicts: seq<Verdict>, ch: char, v: Verdict, k: nat)
    requires 0 < k <= |word| && k <= |verdicts|
    ensures RowMarked(word, verdicts, ch, v, k) <==>
      RowMarked(word, verdicts, ch, v, k - 1) || (word[k - 1] == ch && verdicts[k - 1] == v)
  {
    if RowMarked(word, verdicts, ch, v, k) {
      var i :| 0 <= i < k && word[i] == ch && verdicts[i] == v;
      if i < k - 1 {
        assert RowMarked(word, verdicts, ch, v, k - 1);
      }
    }
  }

  /** Merging a row leaves each key at the strongest of its old colour and the row's verdicts for it. */
  lemma {:induction false} MergeRowLookup(states: map<char, Verdict>, word: string, verdicts: seq<Verdict>, k: nat, ch: char)
    requires k <= |word| && k <= |verdicts|
    ensures Lookup(MergeRow(states, word, verdicts, k), ch) ==
      Rank(Lookup(states, ch) == Correct || RowMarked(word, verdicts, ch, Correct, k),
           Lookup(states, ch) == Present || RowMarked(word, verdicts, ch, Present, k),
           Lookup(states, ch) == Absent || RowMarked(word, verdicts, ch, Absent, k))
  {
    if k > 0 {
      MergeRowLookup(states, word, verdicts, k - 1, ch);
      RowMarkedStep(word, verdicts, ch, Correct, k);
      RowMarkedStep(word, verdicts, ch, Present, k);
      RowMarkedStep(word, verdicts, ch, Absent, k);
    }
  }

  /** The last guess's verdicts, as the merge loop sees them. */
  ghost predicate LastMarked(guesses: seq<string>, targetWord: string, ch: char, v: Verdict)
    requires |guesses| > 0
  {
    var g := guesses[|guesses| - 1];
    Counts(g, targetWord) && RowMarked(Upper(g), Score(Upper(g), Upper(targetWord)), ch, v, 5)
  }

  /** A mark from an earlier guess is a mark of the history without the last guess. */
  lemma MarkedAtEarlier(guesses: seq<string>, targetWord: string, ch: char, v: Verdict, j: int, i: int)
    requires MarkedAt(guesses, targetWord, ch, v, j, i) && j < |guesses| - 1
    ensures Marked(guesses[..|guesses| - 1], targetWord, ch, v)
  {
    var p := guesses[..|guesses| - 1];
    assert p[j] == guesses[j];
    assert MarkedAt(p, targetWord, ch, v, j, i);
  }

  /** A mark from the last guess is one the merge loop sees in that guess's verdicts. */
  lemma MarkedAtLast(guesses: seq<string>, targetWord: string, ch: char, v: Verdict, i: int)
    requires |guesses| > 0 && MarkedAt(guesses, targetWord, ch, v, |guesses| - 1, i)
    ensures LastMarked(guesses, targetWord, ch, v)
  {
    var w := Upper(guesses[|guesses| - 1]);
    RowMarkedAt(w, Score(w, Upper(targetWord)), ch, v, 5, i);
  }

  lemma MarkedSplits(guesses: seq<string>, targetWord: string, ch: char, v: Verdict)
    requires |guesses| > 0 && Marked(guesses, targetWord, ch, v)
    ensures Marked(guesses[..|guesses| - 1], targetWord, ch, v) || LastMarked(guesses, targetWord, ch, v)
  {
    forall j, i | MarkedAt(guesses, targetWord, ch, v, j, i)
      ensures Marked(guesses[..|guesses| - 1], targetWord, ch, v) || LastMarked(guesses, targetWord, ch, v)
    {
      if j < |guesses| - 1 {
        MarkedAtEarlier(guesses, targetWord, ch, v, j, i);
      } else {
        MarkedAtLast(guesses, targetWord, ch, v, i);
      }
    }
  }

  lemma MarkedByEarlier(guesses: seq<string>, targetWord: string, ch: char, v: Verdict)
    requires |guesses| > 0 && Marked(guesses[..|guesses| - 1], targetWord, ch, v)
    ensures Marked(guesses, targetWord, ch, v)
  {
    var j, i :| MarkedAt(guesses[..|guesses| - 1], targetWord, ch, v, j, i);
    assert MarkedAt(guesses, targetWord, ch, v, j, i);
  }

  lemma MarkedByLast(guesses: seq<string>, targetWord: string, ch: char, v: Verdict)
    requires |guesses| > 0 && LastMarked(guesses, targetWord, ch, v)
    ensures Marked(guesses, targetWord, ch, v)
  {
    var g := guesses[|guesses| - 1];
    var i :| 0 <= i < 5 && Upper(g)[i] == ch && Score(Upper(g), Upper(targetWord))[i] == v;
    assert MarkedAt(guesses, targetWord, ch, v, |guesses| - 1, i);
  }

  /** A verdict is marked by all guesses exactly when it is marked by the earlier ones or by the last. */
  lemma MarkedStep(guesses: seq<string>, targetWord: string, ch: char, v: Verdict)
    requires |guesses| > 0
    ensures Marked(guesses, targetWord, ch, v) <==>
      Marked(guesses[..|guesses| - 1], targetWord, ch, v) || LastMarked(guesses, targetWord, ch, v)
  {
    if Marked(guesses, targetWord, ch, v) {
      MarkedSplits(guesses, targetWord, ch, v);
    }
    if Marked(guesses[..|guesses| - 1], targetWord, ch, v) {
      MarkedByEarlier(guesses, targetWord, ch, v);
    }
    if LastMarked(guesses, targetWord, ch, v) {
      MarkedByLast(guesses, targetWord, ch, v);
    }
  }

  /** Ranking the old colour together with new flags is ranking the combined flags. */
  lemma RankCombines(c: bool, p: bool, a: bool, c': bool, p': bool, a': bool)
    ensures var before := Rank(c, p, a);
      Rank(before == Correct || c', before == Present || p', before == Absent || a') == Rank(c || c', p || p', a || a')
  {
  }

  /** The last guess counts: its merge adds its own verdicts to the earlier guesses' colour. */
  lemma AggregateLookupCounted(guesses: seq<string>, targetWord: string, ch: char)
    requires |guesses| > 0 && Counts(guesses[|guesses| - 1], targetWord)
    requires Lookup(Aggregate(guesses[..|guesses| - 1], targetWord), ch) ==
      KeyReference(guesses[..|guesses| - 1], targetWord, ch)
    ensures Lookup(Aggregate(guesses, targetWord), ch) == KeyReference(guesses, targetWord, ch)
  {
    var p := guesses[..|guesses| - 1];
    var before := Aggregate(p, targetWord);
    var g := Upper(guesses[|guesses| - 1]);
    var verdicts := Score(g, Upper(targetWord));
    assert Aggregate(guesses, targetWord) == MergeRow(before, g, verdicts, 5);
    MergeRowLookup(before, g, verdicts, 5, ch);
    MarkedStep(guesses, targetWord, ch, Correct);
    MarkedStep(guesses, targetWord, ch, Present);
    MarkedStep(guesses, targetWord, ch, Absent);
    RankCombines(Marked(p, targetWord, ch, Correct), Marked(p, targetWord, ch, Present),
      Marked(p, targetWord, ch, Absent),
      RowMarked(g, verdicts, ch, Correct, 5), RowMarked(g, verdicts, ch, Present, 5),
      RowMarked(g, verdicts, ch, Absent, 5));
  }

  /** The last guess does not count: nothing changes. */
  lemma AggregateLookupSkipped(guesses: seq<string>, targetWord: string, ch: char)
    requires |guesses| > 0 && !Counts(guesses[|guesses| - 1], targetWord)
    requires Lookup(Aggregate(guesses[..|guesses| - 1], targetWord), ch) ==
      KeyReference(guesses[..|guesses| - 1], targetWord, ch)
    ensures Lookup(Aggregate(guesses, targetWord), ch) == KeyReference(guesses, targetWord, ch)
  {
    MarkedStep(guesses, targetWord, ch, Correct);
    MarkedStep(guesses, targetWord, ch, Present);
    MarkedStep(guesses, targetWord, ch, Absent);
  }

  /** Every key shows exactly the strongest verdict its letter has received in a counted guess. */
  lemma {:induction false} AggregateLookup(guesses: seq<string>, targetWord: string, ch: char)
    ensures Lookup(Aggregate(guesses, targetWord), ch) == KeyReference(guesses, targetWord, ch)
  {
    if guesses == [] {
      assert !Marked(guesses, targetWord, ch, Correct);
      assert !Marked(guesses, targetWord, ch, Present);
      assert !Marked(guesses, targetWord, ch, Absent);
    } else {
      AggregateLookup(guesses[..|guesses| - 1], targetWord, ch);
      if Counts(guesses[|guesses| - 1], targetWord) {
        AggregateLookupCounted(guesses, targetWord, ch);
      } else {
        AggregateLookupSkipped(guesses, targetWord, ch);
      }
    }
  }

  /** A merge never stores Empty. */
  lemma {:induction false} MergeRowNeverEmpty(states: map<char, Verdict>, word: string, verdicts: seq<Verdict>, k: nat)
    requires k <= |word| && k <= |verdicts|
    requires forall ch :: ch in states ==> states[ch] != Empty
    ensures forall ch :: ch in MergeRow(states, word, verdicts, k) ==> MergeRow(states, word, verdicts, k)[ch] != Empty
  {
    if k > 0 {
      MergeRowNeverEmpty(states, word, verdicts, k - 1);
    }
  }

  /** The map has an entry for a letter exactly when the key shows a colour. */
  lemma {:induction false} AggregateNeverEmpty(guesses: seq<string>, targetWord: string)
    ensures forall ch :: ch in Aggregate(guesses, targetWord) ==> Aggregate(guesses, targetWord)[ch] != Empty
  {
    if guesses != [] {
      var n := |guesses|;
      AggregateNeverEmpty(guesses[..n - 1], targetWord);
      var g := Upper(guesses[n - 1]);
      if |g| == 5 && |Upper(targetWord)| == 5 {
        MergeRowNeverEmpty(Aggregate(guesses[..n - 1], targetWord), g, Score(g, Upper(targetWord)), 5);
      }
    }
  }

  /** A letter has an entry exactly when some counted guess contains it. */
  lemma AggregateKeys(guesses: seq<string>, targetWord: string, ch: char)
    ensures ch in Aggregate(guesses, targetWord) <==>
      exists j, i :: 0 <= j < |guesses| && Counts(guesses[j], targetWord) && 0 <= i < 5 && Upper(guesses[j])[i] == ch
  {
    AggregateLookup(guesses, targetWord, ch);
    AggregateNeverEmpty(guesses, targetWord);
    if exists j, i :: 0 <= j < |guesses| && Counts(guesses[j], targetWord) && 0 <= i < 5 && Upper(guesses[j])[i] == ch {
      var j, i :| 0 <= j < |guesses| && Counts(guesses[j], targetWord) && 0 <= i < 5 && Upper(guesses[j])[i] == ch;
      var v := Score(Upper(guesses[j]), Upper(targetWord))[i];
      assert MarkedAt(guesses, targetWord, ch, v, j, i);
    }
  }

  /** A key is green exactly when some counted guess had its letter in the target's position. */
  lemma CorrectKeyMeansPlaced(guesses: seq<string>, targetWord: string, ch: char)
    ensures Lookup(Aggregate(guesses, targetWord), ch) == Correct <==>
      exists j, i :: 0 <= j < |guesses| && Counts(guesses[j], targetWord) && 0 <= i < 5 &&
        Upper(guesses[j])[i] == ch && Upper(targetWord)[i] == ch
  {
    AggregateLookup(guesses, targetWord, ch);
    if Marked(guesses, targetWord, ch, Correct) {
      var j, i :| MarkedAt(guesses, targetWord, ch, Correct, j, i);
      assert Upper(targetWord)[i] == ch;
    }
    if exists j, i :: 0 <= j < |guesses| && Counts(guesses[j], targetWord) && 0 <= i < 5 &&
        Upper(guesses[j])[i] == ch && Upper(targetWord)[i] == ch {
      var j, i :| 0 <= j < |guesses| && Counts(guesses[j], targetWord) && 0 <= i < 5 &&
        Upper(guesses[j])[i] == ch && Upper(targetWord)[i] == ch;
      assert MarkedAt(guesses, targetWord, ch, Correct, j, i);
    }
  }

  /** A further guess never weakens a key's colour; in particular a green key stays green. */
  lemma AggregateMonotone(guesses: seq<string>, guess: string, targetWord: string, ch: char)
    ensures Priority(Lookup(Aggregate(guesses + [guess], targetWord), ch)) >=
      Priority(Lookup(Aggregate(guesses, targetWord), ch))
  {
    var more := guesses + [guess];
    assert more[..|more| - 1] == guesses;
    AggregateLookup(guesses, targetWord, ch);
    AggregateLookup(more, targetWord, ch);
    MarkedStep(more, targetWord, ch, Correct);
    MarkedStep(more, targetWord, ch, Present);
    MarkedStep(more, targetWord, ch, Absent);
  }

  lemma MarkedBySameGuesses(guesses: seq<string>, others: seq<string>, targetWord: string, ch: char, v: Verdict)
    requires forall w :: w in guesses ==> w in others
    ensures Marked(guesses, targetWord, ch, v) ==> Marked(others, targetWord, ch, v)
  {
    if Marked(guesses, targetWord, ch, v) {
      var j, i :| MarkedAt(guesses, targetWord, ch, v, j, i);
      assert guesses[j] in others;
      var j' :| 0 <= j' < |others| && others[j'] == guesses[j];
      assert MarkedAt(others, targetWord, ch, v, j', i);
    }
  }

  /**
   * The key colours depend only on which words were guessed, not on their
   * order or on repetitions.
   */
  lemma AggregateOrderIndependent(guesses: seq<string>, others: seq<string>, targetWord: string)
    requires forall w :: w in guesses <==> w in others
    ensures Aggregate(guesses, targetWord) == Aggregate(others, targetWord)
  {
    var a := Aggregate(guesses, targetWord);
    var b := Aggregate(others, targetWord);
    AggregateNeverEmpty(guesses, targetWord);
    AggregateNeverEmpty(others, targetWord);
    forall ch ensures Lookup(a, ch) == Lookup(b, ch) {
      AggregateLookup(guesses, targetWord, ch);
      AggregateLookup(others, targetWord, ch);
      MarkedBySameGuesses(guesses, others, targetWord, ch, Correct);
      MarkedBySameGuesses(guesses, others, targetWord, ch, Present);
      MarkedBySameGuesses(guesses, others, targetWord, ch, Absent);
      MarkedBySameGuesses(others, guesses, targetWord, ch, Correct);
      MarkedBySameGuesses(others, guesses, targetWord, ch, Present);
      MarkedBySameGuesses(others, guesses, targetWord, ch, Absent);
    }
    forall ch ensures ch in a <==> ch in b {
      assert Lookup(a, ch) == Lookup(b, ch);
    }
    assert a.Keys == b.Keys;
    forall ch | ch in a ensures a[ch] == b[ch] {
      assert Lookup(a, ch) == Lookup(b, ch);
    }
  }

  /** Over the computed map, a letter key shows the reference colour and every other key none. */
  lemma KeyStateReference(guesses: seq<string>, targetWord: string, key: string)
    ensures GetKeyState(key, Aggregate(guesses, targetWord)) ==
      if |key| == 1 then KeyReference(guesses, targetWord, key[0]) else Empty
  {
    if |key| == 1 {
      AggregateLookup(guesses, targetWord, key[0]);
    }
  }

  /** A single-character key sends a command exactly when it is a letter, and then its upper case. */
  lemma KeyActionOnLetters(c: char)
    ensures KeyAction([c]).Some? <==> IsUpperLetter(c) || IsLowerLetter(c)
    ensures KeyAction([c]).Some? ==> KeyAction([c]).value == [UpperChar(c)]
  {
    assert Upper([c]) == [UpperChar(c)];
  }

  /** A command is already upper case, so the page's own upper-casing leaves it unchanged. */
  lemma KeyActionIsUpper(key: string)
    requires KeyAction(key).Some?
    ensures Upper(KeyAction(key).value) == KeyAction(key).value
  {
    var r := KeyAction(key).value;
    if |r| == 1 {
      assert Upper(r)[0] == r[0];
    }
  }

  /** Every on-screen key sends ENTER, BACKSPACE or a single upper-case letter. */
  lemma LayoutKeys()
    ensures forall r, k :: 0 <= r < |KeyboardRows()| && 0 <= k < |KeyboardRows()[r]| ==>
      var key := KeyboardRows()[r][k];
      key == "ENTER" || key == "BACKSPACE" || (|key| == 1 && IsUpperLetter(key[0]))
  {
  }
}
