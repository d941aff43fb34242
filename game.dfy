/**
 * The game page: the board being typed into, the guesses submitted so far,
 * the status of the game and the word-of-the-day fetch that starts a game.
 *
 * The page keeps its state in one record that every event replaces. Here
 * the record is the datatype GameState, the events are the pure transitions
 * Commit, Press and AfterFetch, and the class Session holds the record
 * together with the loading and error flags and replaces it by exactly
 * those transitions. The word validator and the fetched
 * word are inputs: a boolean answer and a Fetched outcome.
 */
module Game {
  import opened JsString
  import opened Scorer
  import Board
  import Keyboard

  const ROWS: nat := 6
  const COLS: nat := 5

  datatype Status = Playing | Won | Lost

  /** The page's game record. */
  datatype GameState = GameState(
    board: seq<seq<string>>,
    currentRow: int,
    currentCol: int,
    gameStatus: Status,
    targetWord: string,
    guesses: seq<string>)

  /** The outcome of the word-of-the-day request. */
  datatype Fetched =
    | HttpError(status: nat)          // the response was not ok
    | Thrown(message: string)         // the request or the JSON decoding threw
    | Body(word: Option<string>)      // the `word` field of the body, None when absent or not a string

  // ---------------------------------------------------------------------------
  // Scoring and the end of the game

  /** checkGuess reads guess[i] and target[i] for i < COLS, either of which may be undefined. */
  function PageScore(guess: string, target: string): (r: seq<Verdict>)
    ensures |r| == COLS
    ensures forall i :: 0 <= i < COLS ==> r[i] != Empty
    ensures forall i :: 0 <= i < COLS ==> (r[i] == Correct <==> At(guess, i) == At(target, i))
  {
    Score(View(guess, COLS), View(target, COLS))
  }

  /** isGameOver: won when every verdict is Correct, else lost from the last row on, else playing. */
  function IsGameOver(states: seq<Verdict>, row: int): (r: Status)
    ensures r == Won <==> AllCorrect(states)
    ensures r == Lost <==> !AllCorrect(states) && row >= ROWS - 1
    ensures r == Playing <==> !AllCorrect(states) && row < ROWS - 1
  {
    if AllCorrect(states) then Won
    else if row >= ROWS - 1 then Lost
    else Playing
  }

  /** The row after a commit: the next one, except that a finished game on the last row stays there. */
  function NextRow(status: Status, row: int): (r: int)
    ensures r == row <==> status != Playing && row >= ROWS - 1
    ensures r != row ==> r == row + 1
  {
    if status == Playing then row + 1
    else if row >= ROWS - 1 then row
    else row + 1
  }

  /** A guess of five letters is scored by the page exactly as by the scorer over characters. */
  lemma PageScoreOfFullWords(guess: string, target: string)
    requires |guess| == COLS && |target| == COLS
    ensures PageScore(guess, target) == Score(guess, target)
  {
    ViewOfFullLength(guess);
    ViewOfFullLength(target);
    ScoreLifted(guess, target);
  }

  /** Before a word has been fetched the target is empty and every letter of a guess is Absent. */
  lemma PageScoreOfEmptyTarget(guess: string)
    requires |guess| == COLS
    ensures forall i :: 0 <= i < COLS ==> PageScore(guess, "")[i] == Absent
  {
    ViewOfFullLength(guess);
    EmptyTargetAllAbsent(guess);
  }

  /** A guess of five letters scores all Correct exactly when it is the target. */
  lemma PageWinIffEqual(guess: string, target: string)
    requires |guess| == COLS && (|target| == 0 || |target| == COLS)
    ensures AllCorrect(PageScore(guess, target)) <==> guess == target
  {
    if |target| == COLS {
      PageScoreOfFullWords(guess, target);
      AllCorrectIffEqual(guess, target);
    } else {
      PageScoreOfEmptyTarget(guess);
      assert PageScore(guess, target)[0] == Absent;
    }
  }

  // ---------------------------------------------------------------------------
  // The shape of a reachable state

  predicate IsCell(c: string) {
    c == "" || (|c| == 1 && IsUpperLetter(c[0]))
  }

  predicate RowFilled(row: seq<string>) {
    forall c :: 0 <= c < |row| ==> row[c] != ""
  }

  predicate RowBlank(row: seq<string>) {
    forall c :: 0 <= c < |row| ==> row[c] == ""
  }

  /** Six rows of five cells, the cursor on the board. */
  predicate Shaped(s: GameState) {
    |s.board| == ROWS && (forall r :: 0 <= r < ROWS ==> |s.board[r]| == COLS) &&
    0 <= s.currentRow < ROWS && 0 <= s.currentCol <= COLS
  }

  /** Every cell is empty or holds one upper-case letter. */
  predicate CellsWellFormed(s: GameState)
    requires Shaped(s)
  {
    forall r, c :: 0 <= r < ROWS && 0 <= c < COLS ==> IsCell(s.board[r][c])
  }

  /** The target is still empty or is an upper-cased five-character word. */
  predicate TargetWellFormed(s: GameState) {
    (|s.targetWord| == 0 || |s.targetWord| == COLS) && Upper(s.targetWord) == s.targetWord
  }

  /**
   * One guess per row above the cursor, except after a finished game on the
   * last row, where the cursor stays on the row of the sixth guess.
   */
  predicate Progress(s: GameState) {
    (s.gameStatus == Playing ==> |s.guesses| == s.currentRow) &&
    (s.gameStatus != Playing ==>
      s.currentCol == 0 &&
      (|s.guesses| == s.currentRow || (s.currentRow == ROWS - 1 && |s.guesses| == ROWS))) &&
    (s.gameStatus == Lost ==> |s.guesses| == ROWS)
  }

  /** Each guess is the joined row it was typed in; the rows after them are blank except the one being typed. */
  predicate History(s: GameState)
    requires Shaped(s) && |s.guesses| <= ROWS
  {
    (forall r :: 0 <= r < |s.guesses| ==> RowFilled(s.board[r]) && s.guesses[r] == Join(s.board[r])) &&
    (forall r :: |s.guesses| <= r < ROWS && !(s.gameStatus == Playing && r == s.currentRow) ==>
      RowBlank(s.board[r]))
  }

  /** While playing, the cells left of the column cursor are filled and the rest are empty. */
  predicate Cursor(s: GameState)
    requires Shaped(s)
  {
    s.gameStatus == Playing ==>
      forall c :: 0 <= c < COLS ==> (s.board[s.currentRow][c] != "" <==> c < s.currentCol)
  }

  /** The game is won exactly when the last guess is the target, and no earlier guess was. */
  predicate Outcome(s: GameState) {
    (forall r :: 0 <= r < |s.guesses| - 1 ==> s.guesses[r] != s.targetWord) &&
    (s.gameStatus == Won <==> |s.guesses| > 0 && s.guesses[|s.guesses| - 1] == s.targetWord)
  }

  predicate ValidState(s: GameState) {
    Shaped(s) && CellsWellFormed(s) && TargetWellFormed(s) && Progress(s) &&
    |s.guesses| <= ROWS && History(s) && Cursor(s) && Outcome(s)
  }

  /** A filled row of letters joins to a word of five upper-case letters, which upper-casing keeps. */
  lemma FilledRowWord(s: GameState, r: nat)
    requires Shaped(s) && CellsWellFormed(s) && r < ROWS && RowFilled(s.board[r])
    ensures |Join(s.board[r])| == COLS
    ensures forall i :: 0 <= i < COLS ==> IsUpperLetter(Join(s.board[r])[i])
    ensures Upper(Join(s.board[r])) == Join(s.board[r])
  {
    var row := s.board[r];
    assert forall c :: 0 <= c < |row| ==> |row[c]| == 1 by {
      forall c | 0 <= c < |row| ensures |row[c]| == 1 {
        assert IsCell(s.board[r][c]);
      }
    }
    forall i | 0 <= i < COLS ensures IsUpperLetter(Join(row)[i]) {
      assert IsCell(s.board[r][i]);
    }
    UpperIdempotent(Join(row));
  }

  // ---------------------------------------------------------------------------
  // The transitions

  function BlankBoard(): (b: seq<seq<string>>)
    ensures |b| == ROWS && forall r :: 0 <= r < ROWS ==> |b[r]| == COLS && RowBlank(b[r])
  {
    seq(ROWS, _ => seq(COLS, _ => ""))
  }

  /** The state the page starts in, before any word has been fetched. */
  function Initial(): GameState {
    GameState(BlankBoard(), 0, 0, Playing, "", [])
  }

  /** The state a successful fetch puts in place: a blank board playing for the given target. */
  function Fresh(target: string): GameState {
    GameState(BlankBoard(), 0, 0, Playing, target, [])
  }

  /** `board.map(r => [...r])` with one cell replaced. */
  function SetCell(board: seq<seq<string>>, r: nat, c: nat, v: string): (b: seq<seq<string>>)
    requires r < |board| && c < |board[r]|
    ensures |b| == |board| && |b[r]| == |board[r]| && b[r][c] == v
    ensures forall r' :: 0 <= r' < |b| && r' != r ==> b[r'] == board[r']
    ensures forall c' :: 0 <= c' < |b[r]| && c' != c ==> b[r][c'] == board[r][c']
  {
    board[r := board[r][c := v]]
  }

  /**
   * commitGuess with the validator's answer: an incomplete row or a rejected
   * word changes nothing; otherwise the word is recorded, the status follows
   * from its verdicts and the cursor moves to the start of the next row.
   */
  function Commit(s: GameState, isValid: bool): (r: GameState)
    requires Shaped(s)
    ensures r.board == s.board && r.targetWord == s.targetWord
    ensures r == s || (r.guesses == s.guesses + [Upper(Join(s.board[s.currentRow]))] && r.currentCol == 0)
  {
    var guess := Upper(Join(s.board[s.currentRow]));
    if |guess| != 5 || "" in s.board[s.currentRow] || !isValid then s
    else
      Accepted(s, guess, IsGameOver(PageScore(guess, s.targetWord), s.currentRow))
  }

  /** The record after an accepted word: the guess recorded, the status set, the cursor at the next row's start. */
  function Accepted(s: GameState, word: string, status: Status): GameState {
    s.(guesses := s.guesses + [word], currentRow := NextRow(status, s.currentRow),
       currentCol := 0, gameStatus := status)
  }

  /**
   * handleKeyPress: ignored once the game is over or while a word is
   * loading; BACKSPACE clears the cell left of the cursor, ENTER commits,
   * a single letter A-Z fills the cell under the cursor, anything else is
   * ignored.
   */
  function Press(s: GameState, loading: bool, rawKey: string, isValid: bool): (r: GameState)
    requires Shaped(s)
    ensures r.targetWord == s.targetWord && |r.board| == |s.board|
    ensures forall i :: 0 <= i < |s.board| && i != s.currentRow ==> r.board[i] == s.board[i]
    ensures r.guesses == s.guesses || r.guesses == s.guesses + [Upper(Join(s.board[s.currentRow]))]
  {
    if s.gameStatus != Playing || loading then s
    else
      var key := Upper(rawKey);
      if key == "BACKSPACE" then
        if s.currentCol > 0 then
          s.(board := SetCell(s.board, s.currentRow, s.currentCol - 1, ""), currentCol := s.currentCol - 1)
        else s
      else if key == "ENTER" then Commit(s, isValid)
      else if |key| == 1 && IsUpperLetter(key[0]) then
        if s.currentCol < COLS then
          s.(board := SetCell(s.board, s.currentRow, s.currentCol, key), currentCol := Min(s.currentCol + 1, COLS))
        else s
      else s
  }

  /** `data.word?.toUpperCase?.() ?? ""` */
  function FetchedTarget(word: Option<string>): (r: string)
    ensures word.None? ==> r == ""
    ensures word.Some? ==> |r| == |word.value| && forall i :: 0 <= i < |r| ==> r[i] == UpperChar(word.value[i])
  {
    if word.Some? then Upper(word.value) else ""
  }

  /** The fetch succeeds when the body's word upper-cases to five characters. */
  predicate FetchSucceeds(outcome: Fetched)
    ensures FetchSucceeds(outcome) <==> outcome.Body? && outcome.word.Some? && |outcome.word.value| == COLS
  {
    outcome.Body? && |FetchedTarget(outcome.word)| == COLS
  }

  /** fetchTargetWord's state update: a fresh game on success, nothing changed otherwise. */
  function AfterFetch(s: GameState, outcome: Fetched): (r: GameState)
    ensures FetchSucceeds(outcome) ==> r == Fresh(FetchedTarget(outcome.word))
    ensures !FetchSucceeds(outcome) ==> r == s
  {
    if FetchSucceeds(outcome) then Fresh(FetchedTarget(outcome.word)) else s
  }

  /** The decimal digits of n, as a template string renders a status code. */
  function Decimal(n: nat): (r: string)
    ensures |r| > 0 && IsDigits(r)
    ensures DigitsValue(r) == n
    ensures n >= 10 ==> r[0] != '0'
  {
    var d := ['0' + (n % 10) as char];
    if n < 10 then d
    else
      var r := Decimal(n / 10) + d;
      assert r[..|r| - 1] == Decimal(n / 10);
      r
  }

  predicate IsDigits(s: string) {
    forall i :: 0 <= i < |s| ==> '0' <= s[i] <= '9'
  }

  /** The number a string of decimal digits spells, most significant digit first. */
  function DigitsValue(s: string): nat
    requires IsDigits(s)
  {
    if |s| == 0 then 0
    else DigitsValue(s[..|s| - 1]) * 10 + (s[|s| - 1] - '0') as nat
  }

  /** The message fetchTargetWord shows: none on success, the thrown error's message otherwise. */
  function FetchError(outcome: Fetched): (r: Option<string>)
    ensures r.None? <==> FetchSucceeds(outcome)
  {
    match outcome
    case HttpError(status) => Some("Failed to fetch target word: " + Decimal(status))
    case Thrown(message) => Some(if message == "" then "Failed to load word of the day" else message)
    case Body(_) =>
      if FetchSucceeds(outcome) then None else Some("Invalid target word received from API")
  }

  // ---------------------------------------------------------------------------
  // What the transitions promise

  lemma InitialValid()
    ensures ValidState(Initial())
  {
  }

  /** A successful fetch starts a valid game for the upper-cased word. */
  lemma FreshValid(outcome: Fetched)
    requires FetchSucceeds(outcome)
    ensures ValidState(AfterFetch(Initial(), outcome))
    ensures AfterFetch(Initial(), outcome).targetWord == Upper(outcome.word.value)
  {
    UpperIdempotent(outcome.word.value);
  }

  /** Any fetch outcome keeps a valid state valid. */
  lemma AfterFetchPreservesValid(s: GameState, outcome: Fetched)
    requires ValidState(s)
    ensures ValidState(AfterFetch(s, outcome))
  {
    if FetchSucceeds(outcome) {
      FreshValid(outcome);
    }
  }

  /** An incomplete row, or a word the validator rejects, is not committed. */
  lemma CommitIgnored(s: GameState, isValid: bool)
    requires ValidState(s)
    requires !RowFilled(s.board[s.currentRow]) || !isValid
    ensures Commit(s, isValid) == s
  {
    if !RowFilled(s.board[s.currentRow]) {
      var c :| 0 <= c < COLS && s.board[s.currentRow][c] == "";
      assert "" in s.board[s.currentRow];
    }
  }

  /**
   * A filled row the validator accepts is recorded as the next guess; the
   * board and target are untouched; the game is won exactly when the word is
   * the target, and lost when it is the sixth guess and not the target.
   */
  lemma CommitAccepted(s: GameState)
    requires ValidState(s) && s.gameStatus == Playing && RowFilled(s.board[s.currentRow])
    ensures var s' := Commit(s, true);
      var word := Join(s.board[s.currentRow]);
      s'.guesses == s.guesses + [word] && s'.board == s.board && s'.targetWord == s.targetWord &&
      s'.currentCol == 0 &&
      (s'.gameStatus == Won <==> word == s.targetWord) &&
      (s'.gameStatus == Lost <==> word != s.targetWord && s.currentRow == ROWS - 1) &&
      (s'.currentRow == s.currentRow <==> s.currentRow == ROWS - 1) &&
      (s'.currentRow != s.currentRow ==> s'.currentRow == s.currentRow + 1)
  {
    var row := s.board[s.currentRow];
    FilledRowWord(s, s.currentRow);
    assert "" !in row;
    PageWinIffEqual(Join(row), s.targetWord);
  }

  /** The status an accepted word gets: won iff it is the target, lost iff not and on the last row. */
  predicate StatusFits(s: GameState, word: string, status: Status) {
    (status == Won <==> word == s.targetWord) &&
    (status == Lost <==> word != s.targetWord && s.currentRow == ROWS - 1)
  }

  lemma AcceptedProgress(s: GameState, word: string, status: Status)
    requires ValidState(s) && s.gameStatus == Playing && StatusFits(s, word, status)
    ensures Shaped(Accepted(s, word, status)) && Progress(Accepted(s, word, status))
    ensures |Accepted(s, word, status).guesses| <= ROWS
  {
  }

  lemma AcceptedHistory(s: GameState, word: string, status: Status)
    requires ValidState(s) && s.gameStatus == Playing && StatusFits(s, word, status)
    requires RowFilled(s.board[s.currentRow]) && word == Join(s.board[s.currentRow])
    ensures Shaped(Accepted(s, word, status)) && |Accepted(s, word, status).guesses| <= ROWS
    ensures History(Accepted(s, word, status))
  {
    var s' := Accepted(s, word, status);
    AcceptedProgress(s, word, status);
    assert forall r :: 0 <= r < |s.guesses| ==> s'.guesses[r] == s.guesses[r];
    assert s'.guesses[|s.guesses|] == word;
  }

  lemma AcceptedCursorOutcome(s: GameState, word: string, status: Status)
    requires ValidState(s) && s.gameStatus == Playing && StatusFits(s, word, status)
    ensures Shaped(Accepted(s, word, status))
    ensures Cursor(Accepted(s, word, status)) && Outcome(Accepted(s, word, status))
  {
    var s' := Accepted(s, word, status);
    AcceptedProgress(s, word, status);
    if status == Playing {
      assert RowBlank(s.board[s'.currentRow]);
    }
    assert forall r :: 0 <= r < |s.guesses| ==> s'.guesses[r] == s.guesses[r];
  }

  lemma CommitPreservesValid(s: GameState, isValid: bool)
    requires ValidState(s) && s.gameStatus == Playing
    ensures ValidState(Commit(s, isValid))
  {
    if RowFilled(s.board[s.currentRow]) && isValid {
      var word := Join(s.board[s.currentRow]);
      CommitAccepted(s);
      var status := Commit(s, isValid).gameStatus;
      assert Commit(s, isValid) == Accepted(s, word, status);
      AcceptedHistory(s, word, status);
      AcceptedCursorOutcome(s, word, status);
    } else {
      CommitIgnored(s, isValid);
    }
  }

  /** Once the game is won or lost, or while a word is loading, key presses change nothing. */
  lemma PressIgnored(s: GameState, loading: bool, rawKey: string, isValid: bool)
    requires Shaped(s) && (s.gameStatus != Playing || loading)
    ensures Press(s, loading, rawKey, isValid) == s
  {
  }

  /** A letter key, in either case, fills the cell under the cursor with its upper case. */
  lemma PressLetter(s: GameState, c: char, isValid: bool)
    requires ValidState(s) && s.gameStatus == Playing && s.currentCol < COLS
    requires IsUpperLetter(c) || IsLowerLetter(c)
    ensures Press(s, false, [c], isValid) ==
      s.(board := SetCell(s.board, s.currentRow, s.currentCol, [UpperChar(c)]), currentCol := s.currentCol + 1)
  {
    assert Upper([c]) == [UpperChar(c)];
  }

  /** BACKSPACE clears the cell left of the cursor and moves the cursor back. */
  lemma PressBackspace(s: GameState, rawKey: string, isValid: bool)
    requires ValidState(s) && s.gameStatus == Playing && s.currentCol > 0
    requires Upper(rawKey) == "BACKSPACE"
    ensures Press(s, false, rawKey, isValid) ==
      s.(board := SetCell(s.board, s.currentRow, s.currentCol - 1, ""), currentCol := s.currentCol - 1)
  {
  }

  /** BACKSPACE at the start of a row, and a letter on a full row, change nothing. */
  lemma PressAtRowEdge(s: GameState, rawKey: string, isValid: bool)
    requires ValidState(s) && s.gameStatus == Playing
    requires (Upper(rawKey) == "BACKSPACE" && s.currentCol == 0) ||
             (|rawKey| == 1 && (IsUpperLetter(rawKey[0]) || IsLowerLetter(rawKey[0])) && s.currentCol == COLS)
    ensures Press(s, false, rawKey, isValid) == s
  {
    if |rawKey| == 1 {
      assert Upper(rawKey) == [UpperChar(rawKey[0])];
    }
  }

  lemma TypingPreservesValid(s: GameState, key: string)
    requires ValidState(s) && s.gameStatus == Playing && s.currentCol < COLS
    requires |key| == 1 && IsUpperLetter(key[0])
    ensures ValidState(s.(board := SetCell(s.board, s.currentRow, s.currentCol, key), currentCol := s.currentCol + 1))
  {
    var s' := s.(board := SetCell(s.board, s.currentRow, s.currentCol, key), currentCol := s.currentCol + 1);
    assert CellsWellFormed(s') by {
      forall r, c | 0 <= r < ROWS && 0 <= c < COLS ensures IsCell(s'.board[r][c]) {
        assert IsCell(s.board[r][c]);
      }
    }
    assert History(s');
  }

  lemma ErasingPreservesValid(s: GameState)
    requires ValidState(s) && s.gameStatus == Playing && s.currentCol > 0
    ensures ValidState(s.(board := SetCell(s.board, s.currentRow, s.currentCol - 1, ""), currentCol := s.currentCol - 1))
  {
    var s' := s.(board := SetCell(s.board, s.currentRow, s.currentCol - 1, ""), currentCol := s.currentCol - 1);
    assert CellsWellFormed(s') by {
      forall r, c | 0 <= r < ROWS && 0 <= c < COLS ensures IsCell(s'.board[r][c]) {
        assert IsCell(s.board[r][c]);
      }
    }
    assert History(s');
  }

  /** Every key press keeps a valid state valid. */
  lemma PressPreservesValid(s: GameState, loading: bool, rawKey: string, isValid: bool)
    requires ValidState(s)
    ensures ValidState(Press(s, loading, rawKey, isValid))
  {
    var s' := Press(s, loading, rawKey, isValid);
    var key := Upper(rawKey);
    if s.gameStatus != Playing || loading {
      assert s' == s;
    } else if key == "BACKSPACE" && s.currentCol > 0 {
      assert s' == s.(board := SetCell(s.board, s.currentRow, s.currentCol - 1, ""), currentCol := s.currentCol - 1);
      ErasingPreservesValid(s);
    } else if key == "ENTER" {
      assert s' == Commit(s, isValid);
      CommitPreservesValid(s, isValid);
    } else if |key| == 1 && IsUpperLetter(key[0]) && s.currentCol < COLS {
      assert s' == s.(board := SetCell(s.board, s.currentRow, s.currentCol, key), currentCol := s.currentCol + 1);
      TypingPreservesValid(s, key);
    } else {
      assert s' == s;
    }
  }

  // ---------------------------------------------------------------------------
  // The page, the board and the keyboard agree

  /**
   * Every row above the cursor is coloured by the board with the verdicts the
   * page computed for that guess.
   */
  lemma BoardAgreesWithPage(s: GameState, r: nat)
    requires ValidState(s) && |s.targetWord| == COLS && r < s.currentRow
    ensures r < |s.guesses|
    ensures Board.Submitted(s.board, s.currentRow, r)
    ensures Board.RowGuess(s.board, r) == s.guesses[r]
    ensures Score(Board.RowGuess(s.board, r), Upper(s.targetWord)) == PageScore(s.guesses[r], s.targetWord)
  {
    FilledRowWord(s, r);
    forall c | 0 <= c < |s.board[r]| ensures |s.board[r][c]| == 1 {
      assert IsCell(s.board[r][c]);
    }
    PageScoreOfFullWords(s.guesses[r], s.targetWord);
  }

  /**
   * After a game finished on the last row the cursor stays there, so the
   * board leaves that row, the sixth guess, uncoloured.
   */
  lemma LastRowNeverColoured(s: GameState)
    requires ValidState(s) && |s.guesses| == ROWS
    ensures s.gameStatus != Playing && s.currentRow == ROWS - 1
    ensures !Board.Submitted(s.board, s.currentRow, ROWS - 1)
  {
  }

  /** The keyboard counts every guess once a word is fetched, and scores it as the page does. */
  lemma KeyboardAgreesWithPage(s: GameState, j: nat)
    requires ValidState(s) && |s.targetWord| == COLS && j < |s.guesses|
    ensures Keyboard.Counts(s.guesses[j], s.targetWord)
    ensures Score(Upper(s.guesses[j]), Upper(s.targetWord)) == PageScore(s.guesses[j], s.targetWord)
  {
    FilledRowWord(s, j);
    PageScoreOfFullWords(s.guesses[j], s.targetWord);
  }

  // ---------------------------------------------------------------------------
  // The page component

  class Session {
    /** The `gameState` record, replaced as a whole by every `setGameState`. */
    var game: GameState
    var loading: bool
    var error: Option<string>

    ghost predicate Valid()
      reads this
    {
      ValidState(game)
    }

    /** The initial state: an empty board, no target yet, not loading, no error. */
    constructor ()
      ensures game == Initial() && !loading && error.None?
      ensures Valid()
    {
      game := Initial();
      loading := false;
      error := None;
      InitialValid();
    }

    /** The start of fetchTargetWord: loading, error cleared, game untouched. */
    method BeginFetch()
      modifies this
      ensures game == old(game) && loading && error.None?
    {
      loading := true;
      error := None;
    }

    /**
     * The end of fetchTargetWord, once the response is in: a fresh game on
     * success, the error message otherwise, and loading over.
     */
    method FinishFetch(outcome: Fetched)
      requires Valid()
      modifies this
      ensures game == AfterFetch(old(game), outcome) && !loading
      ensures FetchSucceeds(outcome) ==> error == old(error)
      ensures !FetchSucceeds(outcome) ==> error == FetchError(outcome)
      ensures Valid()
    {
      AfterFetchPreservesValid(game, outcome);
      var word := outcome.Body? && outcome.word.Some?;
      var target := if word then Upper(outcome.word.value) else "";
      if outcome.Body? && target != "" && |target| == COLS {
        game := game.(board := BlankBoard(), currentRow := 0, currentCol := 0, gameStatus := Playing,
                      targetWord := target, guesses := []);
      } else {
        error := FetchError(outcome);
      }
      loading := false;
    }

    /** fetchTargetWord as a whole, with the response it awaits as a parameter. */
    method FetchTargetWord(outcome: Fetched)
      requires Valid()
      modifies this
      ensures game == AfterFetch(old(game), outcome)
      ensures error == FetchError(outcome) && !loading
      ensures Valid()
    {
      BeginFetch();
      FinishFetch(outcome);
    }

    /** checkGuess: the page's copy of the two-pass scorer, reading through JavaScript indexing. */
    method CheckGuess(guess: string) returns (result: seq<Verdict>)
      ensures result == PageScore(guess, game.targetWord)
      ensures |result| == COLS
    {
      result := TwoPass(View(guess, COLS), View(game.targetWord, COLS));
    }

    /** commitGuess, with the validator's answer for the row's word. */
    method CommitGuess(isValid: bool)
      requires Valid()
      modifies this
      ensures game == Commit(old(game), isValid)
      ensures loading == old(loading) && error == old(error)
      ensures old(game).gameStatus == Playing ==> Valid()
    {
      if game.gameStatus == Playing {
        CommitPreservesValid(game, isValid);
      }
      var currentRow, board := game.currentRow, game.board;
      var guess := Upper(Join(board[currentRow]));
      if |guess| != 5 || "" in board[currentRow] {
        return;
      }
      if !isValid {
        return;
      }
      var states := CheckGuess(guess);
      var status := IsGameOver(states, currentRow);
      var isLastRow := game.currentRow >= ROWS - 1;
      var nextRow := if status == Playing then game.currentRow + 1 else if isLastRow then game.currentRow else game.currentRow + 1;
      game := game.(guesses := game.guesses + [guess], currentRow := nextRow, currentCol := 0, gameStatus := status);
    }

    /** handleKeyPress, with the validator's answer should the key be ENTER. */
    method HandleKeyPress(rawKey: string, isValid: bool)
      requires Valid()
      modifies this
      ensures game == Press(old(game), old(loading), rawKey, isValid)
      ensures loading == old(loading) && error == old(error)
      ensures Valid()
    {
      PressPreservesValid(game, loading, rawKey, isValid);
      if game.gameStatus != Playing || loading {
        return;
      }
      var key := Upper(rawKey);
      var currentRow, currentCol, board := game.currentRow, game.currentCol, game.board;
      if key == "BACKSPACE" {
        if currentCol > 0 {
          var nextBoard := SetCell(board, currentRow, currentCol - 1, "");
          game := game.(board := nextBoard, currentCol := game.currentCol - 1);
        }
        return;
      }
      if key == "ENTER" {
        CommitGuess(isValid);
        return;
      }
      if |key| == 1 && IsUpperLetter(key[0]) {
        if currentCol < COLS {
          var nextBoard := SetCell(board, currentRow, currentCol, key);
          game := game.(board := nextBoard, currentCol := Min(game.currentCol + 1, COLS));
        }
        return;
      }
    }
  }
}
