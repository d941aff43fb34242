/**
 * The board component: which tiles are coloured, and with what verdict.
 *
 * The component receives the page's board, cursor row and target word as
 * properties; here they are parameters. A row is coloured only when it lies
 * strictly above the cursor row and every cell holds exactly one character,
 * and only when the target has as many letters as the board has columns.
 */
module Board {
  import opened JsString
  import opened Scorer

  /** `board[0]?.length ?? 5`: the column count, 5 for a board without rows. */
  function Cols(board: seq<seq<string>>): (n: nat)
    ensures |board| > 0 ==> n == |board[0]|
    ensures |board| == 0 ==> n == 5
  {
    if |board| > 0 then |board[0]| else 5
  }

  /** Every row has the column count of the first: the 6x5 board the page passes in. */
  predicate Rectangular(board: seq<seq<string>>) {
    forall r :: 0 <= r < |board| ==> |board[r]| == Cols(board)
  }

  /** `isSubmitted`: the row is strictly above the cursor row and every cell is a single character. */
  predicate Submitted(board: seq<seq<string>>, currentRow: int, rowIndex: nat)
    requires rowIndex < |board|
  {
    rowIndex < currentRow && forall c :: 0 <= c < |board[rowIndex]| ==> |board[rowIndex][c]| == 1
  }

  /** The row's letters, upper-cased: `guessArr.join("").toUpperCase()`. */
  function RowGuess(board: seq<seq<string>>, rowIndex: nat): string
    requires rowIndex < |board|
  {
    Upper(Join(board[rowIndex]))
  }

  /**
   * computeRowStates: COLS verdicts; Empty everywhere unless the row is
   * submitted and the target has COLS letters, and otherwise the scorer's
   * verdicts for the row against the upper-cased target.
   */
  method ComputeRowStates(board: seq<seq<string>>, currentRow: int, targetWord: string, rowIndex: nat)
    returns (result: seq<Verdict>)
    requires rowIndex < |board| && Rectangular(board)
    ensures |result| == Cols(board)
    ensures Submitted(board, currentRow, rowIndex) && |targetWord| == Cols(board) ==>
      |RowGuess(board, rowIndex)| == Cols(board) &&
      result == Score(RowGuess(board, rowIndex), Upper(targetWord))
    ensures !(Submitted(board, currentRow, rowIndex) && |targetWord| == Cols(board)) ==>
      forall k :: 0 <= k < |result| ==> result[k] == Empty
  {
    var cols := Cols(board);
    var target := Upper(targetWord);
    var guessArr := board[rowIndex];
    var guess := Upper(Join(guessArr));
    var isSubmitted := rowIndex < currentRow && forall c :: 0 <= c < |guessArr| ==> |guessArr[c]| == 1;
    if !isSubmitted || |target| != cols {
      result := seq(cols, _ => Empty);
      return;
    }

    result := TwoPass(guess, target);
  }

  /**
   * getLetterState: Empty on and below the cursor row whatever the cell holds;
   * above it, the col-th verdict of the row.
   */
  method GetLetterState(board: seq<seq<string>>, currentRow: int, targetWord: string, row: nat, col: nat)
    returns (state: Verdict)
    requires row < |board| && col < Cols(board) && Rectangular(board)
    ensures row >= currentRow ==> state == Empty
    ensures Submitted(board, currentRow, row) && |targetWord| == Cols(board) ==>
      |RowGuess(board, row)| == Cols(board) &&
      state == Score(RowGuess(board, row), Upper(targetWord))[col]
    ensures !(Submitted(board, currentRow, row) && |targetWord| == Cols(board)) ==> state == Empty
  {
    if row >= currentRow {
      state := Empty;
      return;
    }
    var states := ComputeRowStates(board, currentRow, targetWord, row);
    state := states[col];
  }
}
