# Wordle clone: a verified model of the game core

This project models the core of a browser Wordle clone: the page that holds
the game state (`app/page.tsx`), the on-screen keyboard that colours its keys
(`components/keyboard.tsx`) and the board that colours its tiles
(`components/game-board.tsx`).

The player has six rows to guess a five-letter word of the day. A row is
committed with ENTER once it is full and the validator accepts the word. The
row is then scored letter by letter:
- **correct**: the letter is in the right place;
- **present**: the letter is elsewhere in the target, for as many copies as
  the target has after the exact matches;
- **absent**: otherwise.

The game is won on a row that scores all correct. It is lost when the sixth
row is a miss.

The modules follow the program's pieces:

- `JsString` (`jsstring.dfy`): the JavaScript string behaviour the game
  relies on:
  - indexing past the end yields `undefined`, modelled as `None`;
  - ASCII `toUpperCase`;
  - `join("")` of a board row.
- `Scorer` (`scorer.dfy`):
  - `Score`, a declarative reference scorer, generic over the letter type. A
    position is Correct when the letters agree. Otherwise it is Present while
    the copies of its letter that are not matched exactly outnumber the
    earlier non-exact uses of that letter.
  - `TwoPass`, the imperative two-pass scorer with its frequency table. It is
    proved to compute `Score`.
  - Laws of the scorer: each letter is credited `min(count in guess, count in
    target)` times; Present goes to the leftmost copies; a Present letter has
    an unmatched copy in the target; all Correct holds exactly when
    guess = target.
  - Worked examples.
- `Board` (`board.dfy`): `computeRowStates` and `getLetterState`. A row is
  coloured only when it lies above the cursor row, every cell holds one
  character, and the target has as many letters as the board has columns.
- `Keyboard` (`keyboard.dfy`):
  - the aggregation loop `letterStates`: each key keeps the highest-priority
    verdict its letter received;
  - `getKeyState`;
  - the physical-key mapping `handleKeyDown`.

  There is a reference definition: a key shows Correct if its letter was ever
  Correct, else Present if ever Present, else Absent if ever guessed, else
  nothing. It is proved equal to the loop's result. It follows that a green
  key stays green, and that the colours do not depend on the order of the
  guesses.
- `Game` (`game.dfy`):
  - the page's state record `GameState`;
  - the pure transitions `Commit` (commitGuess), `Press` (handleKeyPress) and
    `AfterFetch` (the reset done by fetchTargetWord);
  - a state invariant `ValidState` that every transition preserves;
  - the class `Session`, whose fields are the page's `gameState` record and
    its `loading` and `error` flags; its methods replace them by exactly those
    transitions;
  - lemmas tying the page's verdicts to the board's and the keyboard's.

The page, the keyboard and the board each carry their own copy of the
two-pass scorer. All three are modelled by the one method `Scorer.TwoPass`:
- the board and the keyboard call it on characters;
- the page calls it on the `Option<char>` reads `guess[i]` and `target[i]`,
  `i < 5`, because its target can still be `""` before a word has been
  fetched.

`Scorer.ScoreLifted` and `Game.PageScoreOfFullWords` show the copies agree
once the target has five letters. `Game.PageScoreOfEmptyTarget` shows that
with the empty target every letter is absent.

Two consequences of the code are worth stating outright:
- Scoring TRACE against CRANE gives [absent, correct, correct, present,
  correct]: the A at index 2 is an exact match and the C is present
  (`Scorer.CraneExample`).
- A win on any row but the last still moves `currentRow` on
  (app/page.tsx:131-137). Only a finished game on the last row, won or lost,
  leaves `currentRow` at 5. The board therefore never colours the sixth guess
  (`Game.LastRowNeverColoured`). The keyboard does colour it.

## Model

| member | source | states |
|---|---|---|
| JsString.At | app/page.tsx:80 | `s[i]` is the i-th character below the length and undefined (None) from the length on |
| JsString.View | app/page.tsx:79-96 | the loop's reads `s[0..n)`: n reads, each the JavaScript indexing result |
| JsString.UpperChar | components/keyboard.tsx:130 | a lower-case ASCII letter becomes its upper case (32 below); any other character is unchanged |
| JsString.Upper | components/keyboard.tsx:30 | `toUpperCase` keeps the length and upper-cases each character |
| JsString.UpperIdempotent | app/page.tsx:151 | upper-casing twice is upper-casing once; a word of upper-case letters is unchanged |
| JsString.Join | components/game-board.tsx:22 | a row whose cells are single characters joins to the string of those characters, one per cell |
| Scorer.Score | components/game-board.tsx:30-56 | one verdict per letter, never Empty, Correct exactly where guess and target agree |
| Scorer.TwoPass | components/game-board.tsx:30-56 | the count, exact-match and present passes over a frequency table compute exactly the reference verdicts |
| Scorer.CountLetters | components/game-board.tsx:32-36 | the counting loop builds the table of the target's letter counts |
| Scorer.MarkExact | components/game-board.tsx:38-43 | pass 1 marks exactly the matching positions Correct, leaves the rest Absent, and takes each exact match out of the count |
| Scorer.MarkPresent | components/game-board.tsx:45-54 | pass 2 turns every position into its reference verdict |
| Scorer.CountedEntry | components/game-board.tsx:32-36 | after the counting pass a letter has an entry iff it occurs in the target, and the entry is its number of occurrences |
| Scorer.MatchedEntry | components/game-board.tsx:38-43 | after pass 1 each entry is the letter's count in the target minus its exact matches so far |
| Scorer.ClaimedEntry | components/game-board.tsx:45-54 | after pass 2 each entry is the unmatched copies minus those already spent on Present letters |
| Scorer.MatchedHasExactLetter | components/game-board.tsx:39-41 | pass 1 only decrements a letter that has an entry |
| Scorer.ClaimedDecides | components/game-board.tsx:46-53 | pass 2's test `freq[g] > 0` is positive exactly when the reference verdict is Present |
| Scorer.TableNeverNegative | components/game-board.tsx:32-54 | no entry of the frequency table is ever negative |
| Scorer.ExactAtMostOcc | components/game-board.tsx:38-43 | a letter has no more exact matches than copies in the target |
| Scorer.OccSplits | components/game-board.tsx:38-54 | the copies of a letter in the guess are its exact matches plus its other positions |
| Scorer.HitsOnPrefix | components/game-board.tsx:45-54 | over a prefix, a letter's non-Absent verdicts are its exact matches plus as many others as unmatched copies allow |
| Scorer.LetterCredit | components/game-board.tsx:30-56 | each letter gets min(copies in guess, copies in target) non-Absent verdicts |
| Scorer.PresentGoesLeftmostFirst | components/game-board.tsx:45-54 | if a later non-exact copy of a letter is Present, so is every earlier non-exact copy |
| Scorer.PresentHasUnmatchedCopy | components/game-board.tsx:45-54 | a Present letter occurs in the target at a position the guess does not match |
| Scorer.AllCorrectIffEqual | app/page.tsx:107-109 | every verdict is Correct exactly when the guess is the target |
| Scorer.ScoreLifted | app/page.tsx:74-105 | the page's scorer over indexed reads gives the same verdicts as the board's over characters |
| Scorer.EmptyTargetAllAbsent | app/page.tsx:75-102 | with the empty target every letter of a guess is Absent |
| Scorer.CraneExample | app/page.tsx:74-105 | TRACE against CRANE is [absent, correct, correct, present, correct]; CRANE against itself is all correct |
| Scorer.LlamaExample | app/page.tsx:74-105 | ALLOY against LLAMA is [present, correct, present, absent, absent]: the A and the second L are present, O and Y absent |
| Board.Cols | components/game-board.tsx:17 | the column count is the first row's length, 5 for a board without rows |
| Board.ComputeRowStates | components/game-board.tsx:20-57 | all Empty unless the row is above the cursor with single-character cells and the target has COLS letters; then the reference verdicts of the upper-cased row against the upper-cased target |
| Board.GetLetterState | components/game-board.tsx:59-65 | Empty on and below the cursor row; above it the row's verdict for that column |
| Keyboard.LetterStates | components/keyboard.tsx:32-75 | the scoring and merging loops compute the fold of every counted guess into the key map |
| Keyboard.MergeRowLookup | components/keyboard.tsx:64-71 | merging a row leaves each key at the higher-priority of its old colour and the row's verdicts for its letter |
| Keyboard.MarkedStep | components/keyboard.tsx:35-72 | a letter has received a verdict from a list of guesses exactly when it received it from all but the last guess, or from the last guess |
| Keyboard.AggregateLookup | components/keyboard.tsx:32-75 | each key shows Correct if its letter was ever Correct, else Present if ever Present, else Absent if ever guessed, else nothing |
| Keyboard.AggregateNeverEmpty | components/keyboard.tsx:66-70 | the map never stores Empty |
| Keyboard.AggregateKeys | components/keyboard.tsx:35-71 | a letter has an entry exactly when a counted guess contains it |
| Keyboard.CorrectKeyMeansPlaced | components/keyboard.tsx:46-71 | a key is green exactly when some counted guess had its letter where the target has it |
| Keyboard.AggregateMonotone | components/keyboard.tsx:68-70 | another guess never lowers a key's priority; a green key stays green |
| Keyboard.AggregateOrderIndependent | components/keyboard.tsx:35-72 | guess lists with the same words give the same key map, whatever their order or repetitions |
| Keyboard.GetKeyState | components/keyboard.tsx:77-80 | a key that is not one character (ENTER, BACKSPACE) shows nothing; a one-character key shows its letter's entry, nothing when there is none |
| Keyboard.KeyStateReference | components/keyboard.tsx:77-80 | keys that are not one character (ENTER, BACKSPACE) show nothing; a one-character key shows the reference colour of its character |
| Keyboard.KeyAction | components/keyboard.tsx:115-135 | Enter sends ENTER; Backspace and Delete send BACKSPACE; any other key sends its upper case when it is one letter of either case, and nothing otherwise (Shift, F1, digits) |
| Keyboard.KeyActionOnLetters | components/keyboard.tsx:130-134 | a one-character key sends something exactly when it is a letter, and then its upper case |
| Keyboard.KeyActionIsUpper | components/keyboard.tsx:115-135 | what a key press sends is its own upper case, so the page's upper-casing keeps it |
| Keyboard.LayoutKeys | components/keyboard.tsx:12-16 | every on-screen key is ENTER, BACKSPACE or one upper-case letter |
| Game.PageScore | app/page.tsx:74-105 | five verdicts, never Empty, Correct exactly where the reads `guess[i]` and `target[i]` agree, undefined included |
| Game.IsGameOver | app/page.tsx:107-112 | Won iff all Correct; Lost iff not all Correct on the last row; Playing iff neither |
| Game.NextRow | app/page.tsx:130-137 | the row after a commit is the next one, except that a finished game on the last row stays on it |
| Game.PageScoreOfFullWords | app/page.tsx:74-105 | with a five-letter guess and target the page's verdicts are the reference verdicts over characters |
| Game.PageScoreOfEmptyTarget | app/page.tsx:75-102 | before a word is fetched every letter scores Absent |
| Game.PageWinIffEqual | app/page.tsx:128-129 | a five-letter guess wins exactly when it is the target, also while the target is still empty |
| Game.FilledRowWord | app/page.tsx:116 | a filled row joins to five upper-case letters, which upper-casing keeps |
| Game.BlankBoard | app/page.tsx:13 | six rows of five empty cells |
| Game.SetCell | app/page.tsx:156-157 | the copied board differs from the old one in exactly the one cell |
| Game.Commit | app/page.tsx:114-146 | board and target are never changed; either nothing changes or the row's upper-cased word is appended to the guesses and the column returns to 0 |
| Game.Press | app/page.tsx:148-185 | a key press keeps the target and every row but the cursor row, and appends at most the row's word to the guesses |
| Game.FetchedTarget | app/page.tsx:34 | a missing word gives ""; a present word is upper-cased letter by letter, length kept |
| Game.FetchSucceeds | app/page.tsx:36-38 | the fetch succeeds exactly when the body carries a word of five characters |
| Game.AfterFetch | app/page.tsx:34-47 | a word that upper-cases to five characters starts a fresh game; anything else leaves the game unchanged |
| Game.Decimal | app/page.tsx:32 | the status code renders as a non-empty string of decimal digits that spells the code, with no leading zero |
| Game.FetchError | app/page.tsx:32-50 | the error is cleared exactly when the fetch succeeds |
| Game.InitialValid | app/page.tsx:12-19 | the initial state satisfies the state invariant |
| Game.FreshValid | app/page.tsx:39-47 | a successful fetch gives a valid state playing for the upper-cased word |
| Game.AfterFetchPreservesValid | app/page.tsx:34-50 | every fetch outcome keeps the state valid |
| Game.CommitIgnored | app/page.tsx:118-126 | an incomplete row or a rejected word changes nothing |
| Game.CommitAccepted | app/page.tsx:128-145 | an accepted row is appended as a guess, cursor to column 0, board and target untouched; Won iff it is the target; Lost iff not and it was the last row; the row advances except on the last row |
| Game.CommitPreservesValid | app/page.tsx:114-146 | committing while playing keeps the state invariant |
| Game.PressIgnored | app/page.tsx:149 | after the game ends, or while loading, key presses change nothing |
| Game.PressLetter | app/page.tsx:172-181 | a letter key of either case fills the cell under the cursor with its upper case and advances the column; nothing else changes |
| Game.PressBackspace | app/page.tsx:154-164 | BACKSPACE clears the cell left of the cursor and moves the column back; nothing else changes |
| Game.PressAtRowEdge | app/page.tsx:155-182 | BACKSPACE in the first column, and a letter on a full row, change nothing |
| Game.TypingPreservesValid | app/page.tsx:172-181 | typing a letter keeps the state invariant |
| Game.ErasingPreservesValid | app/page.tsx:154-164 | erasing a letter keeps the state invariant |
| Game.PressPreservesValid | app/page.tsx:148-185 | every key press keeps the state invariant |
| Game.BoardAgreesWithPage | components/game-board.tsx:20-28 | every row above the cursor is submitted on the board, holds the recorded guess, and is coloured with the page's verdicts |
| Game.LastRowNeverColoured | app/page.tsx:130-137 | with six guesses the game is over, the cursor stays on the last row, and the board leaves that row uncoloured |
| Game.KeyboardAgreesWithPage | components/keyboard.tsx:35-62 | once a word is fetched the keyboard counts every guess and scores it as the page does |
| Game.Session.constructor | app/page.tsx:12-21 | the initial state with no target, not loading, no error |
| Game.Session.BeginFetch | app/page.tsx:25-26 | loading on, error cleared, game unchanged |
| Game.Session.FinishFetch | app/page.tsx:27-52 | the game becomes the fetch transition's result; a failed fetch sets the error message; loading ends; the invariant is kept |
| Game.Session.FetchTargetWord | app/page.tsx:23-53 | the whole fetch: the game becomes the fetch transition's result, the error is none on success and the failure's message otherwise, loading ends, the invariant is kept |
| Game.Session.CheckGuess | app/page.tsx:74-105 | the page's two-pass loops compute the reference verdicts over the indexed reads |
| Game.Session.CommitGuess | app/page.tsx:114-146 | the game becomes the commit transition's result; loading and error are untouched; the invariant is kept while playing |
| Game.Session.HandleKeyPress | app/page.tsx:148-185 | the game becomes the key-press transition's result; loading and error are untouched; the invariant is kept |

## Left out

- Network I/O is not modelled. The validator's answer for a committed word is
  the `isValid` parameter. The word-of-the-day response is the `Fetched`
  parameter: an HTTP failure, a thrown error, or the body's `word` field.
- `validateWord` is not modelled beyond its boolean answer. Lower-casing the
  word before sending is part of that request, so it is left out too.
- Asynchrony is not modelled. Each commit and each fetch is one atomic step
  on the current state. React's stale closures, overlapping fetches and a
  commit racing a key press are outside the model.
- React machinery is not modelled: `useState`, `useMemo`, `useEffect`,
  listener registration and `preventDefault`. `Session` holds the state the
  hooks would hold.
- Presentation is not modelled: class names, colours, the won and lost
  banners, the loading and error displays, and the "New Game" button beyond
  its call to the fetch routine. The same goes for console logging, including
  the warning for a rejected word. The fetch error's text is modelled
  (`Game.FetchError`).
- `JsString`: a string is a sequence of Unicode scalar values, while
  JavaScript's `length` and `s[i]` count UTF-16 code units. A target holding
  a character outside the Basic Multilingual Plane therefore gets a different
  length check (app/page.tsx:36) and different indexed reads in the source.
- `JsString.UpperChar`, `JsString.Upper`: `toUpperCase` is modelled for ASCII
  letters only. Non-ASCII case mappings are left out, including ones that
  change the length (such as ß to SS). So is the dotless ı, which JavaScript
  upper-cases to I: in the source that key sends the letter I, and in the
  model it sends nothing.
- `Game.FetchError`: the message of a thrown error is taken as given. A thrown
  value without a message is modelled as the empty message.
- `lib/game-logic.ts` is not part of this model. The page does not import it.
- `types/game.ts` only shapes the datatypes `Verdict`, `Status` and
  `GameState`.
- `Keyboard.GetKeyState` reads a key string of one character as a character
  key. The source's map is keyed by one-character strings; for those keys
  the lookup is the same.
- `Keyboard.Priority`, `Keyboard.MergeRow` and `Keyboard.Aggregate` are the
  keyboard loop's specification functions. Their properties are carried by
  the `Keyboard.*Lookup`, `AggregateKeys` and `AggregateOrderIndependent`
  lemmas.
- `Game.Session.CommitGuess`: the source never calls `commitGuess` once the
  game is over. The model computes the same transition in that state but
  promises the invariant only while playing.
