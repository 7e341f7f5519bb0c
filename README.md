# Wordle game screen, modelled in Dafny

This project models the core of a five-letter word-guessing game screen (`app/wordle.tsx`):

- **Scoring a guess.** The two-pass scoring is modelled twice:
  - `Evaluator.EvaluateGuess` and its two passes `MarkCorrect` and `MarkPresent` work in place on an array of tiles, as the source does.
  - `Evaluator.Evaluate` is a declarative reference definition, built from counts over prefixes.
- **The keyboard colouring.** `Keyboard.LetterState` is the game's rule. `Wordle.Session.KeyboardLetterState` is the loop that computes it.
- **The game state.** `Wordle.Session` is a class holding the target word, the board, the attempt index and the letters typed so far. It has:
  - the mount (`constructor`);
  - `NewGame`;
  - `OnKeyPress`, which handles ENTER, BACKSPACE and letter keys.

The modules are:

- **`Tiles`** (`tiles.dfy`): the board dimensions (`WORD_LENGTH` = 5, `MAX_ATTEMPTS` = 6), tile states and blank rows.
- **`Evaluator`** (`evaluator.dfy`):
  - the scoring;
  - the proof that the array algorithm computes `Evaluate`;
  - properties of the scoring: repeated letters are never over-counted, Present marks go left to right, a row is all Correct exactly when the guess is the target, and disjoint words score all Absent.
- **`Keyboard`** (`keyboard.dfy`):
  - the key rank order Correct > Present > Absent > Unused;
  - the game's first-tile-per-row rule and its properties;
  - the every-tile rule, under which a key shows the best state of any tile with its letter, as the standard game colours keys.
- **`Wordle`** (`session.dfy`):
  - the board invariant `ValidBoard`, kept by every key press;
  - the `Session` class.

The word list and the random choice of a target are parameters: the session receives the set of listed words, and `NewGame` receives the chosen word.

## Model

| member | source | states |
|---|---|---|
| Tiles.EmptyRow | app/wordle.tsx:28-31 | An unplayed row has WORD_LENGTH tiles, each with letter "" and state empty. |
| Evaluator.Evaluate | app/wordle.tsx:100-132 | The scored row has WORD_LENGTH tiles. Tile i shows guess letter i and never the empty state. Tile i is Correct exactly when guess[i] == target[i]. |
| Evaluator.EvaluateGuess | app/wordle.tsx:100-132 | The two-pass array algorithm returns exactly `Evaluate(guess, target)`. The set of used target indices is exactly the consumed positions: the positional matches, plus the leftmost unmatched positions of each letter, as many as there are unmatched guess positions with that letter, up to the number the target has. |
| Evaluator.MarkCorrect | app/wordle.tsx:109-116 | First pass: every tile gets its guess letter. Positional matches become Correct, other tiles stay Absent. The used indices are exactly the positional matches. |
| Evaluator.MarkPresent | app/wordle.tsx:118-129 | Second pass: each non-Correct tile becomes Present when it finds an unused target index with its letter. Otherwise it stays Absent. The first such index is taken and the scan stops. The tiles end as `Evaluate` and the used set ends as the consumed positions. |
| Evaluator.NoOverCount | app/wordle.tsx:107-129 | For every letter, the tiles marked Correct or Present for it number min(occurrences in guess, occurrences in target). |
| Evaluator.PresentGoesLeftmost | app/wordle.tsx:119-127 | Of two unmatched guess positions with the same letter, the later one is Present only if the earlier one is Present. |
| Evaluator.ConsumedLeftmost | app/wordle.tsx:122-126 | Unmatched target positions with the same letter are used lowest index first. |
| Evaluator.NoSharedLetters | app/wordle.tsx:110-129 | A guess sharing no letter with the target scores every tile Absent. |
| Evaluator.AllCorrectIff | app/wordle.tsx:110-116 | Every tile is Correct if and only if the guess equals the target. |
| Evaluator.SpeedAgainstErase | app/wordle.tsx:100-132 | SPEED against ERASE scores S Present, P Absent, E Present, E Present, D Absent, since ERASE holds an S and two E's. |
| Evaluator.EerieAgainstCrane | app/wordle.tsx:100-132 | EERIE against CRANE scores E Absent, E Absent, R Present, I Absent, E Correct. The in-place match takes the only E before the earlier E's can. |
| Keyboard.Better | app/wordle.tsx:141-143 | The combined key state ranks at least as high as both inputs and is one of them. |
| Keyboard.FindLetter | app/wordle.tsx:139 | Returns the first index at or after `from` whose tile shows the letter, or the row length when none does. |
| Keyboard.RowStateIsFirstTile | app/wordle.tsx:138-143 | `Keyboard.RowState`, the `row.find` lookup plus the state of the tile found, gives the state of the first tile showing the letter. It gives Unused when no tile does. |
| Keyboard.LetterStateNeverLowers | app/wordle.tsx:134-148 | `Keyboard.LetterState`, the fold over the rows, is never lowered by playing one more row. Afterwards it ranks at least as high as what that row says. |
| Keyboard.LetterStateIsBest | app/wordle.tsx:134-148 | The key state ranks at least as high as what every row says. Unless it is Unused, it equals what some row says, so a later Absent never downgrades a Present. |
| Keyboard.CorrectIsFinal | app/wordle.tsx:141 | A row whose first tile with the letter is Correct makes the key Correct, whatever the other rows say. This justifies the early return. |
| Keyboard.LetterStateIgnoresOrder | app/wordle.tsx:137-145 | The key state depends only on which rows were played, not on their order or repetition. |
| Keyboard.UnusedIffUnseen | app/wordle.tsx:135-145 | On rows where only blank tiles are empty, a key is Unused if and only if no tile shows its letter. |
| Keyboard.TileBestIsBest | app/wordle.tsx:139 | The every-tile rule for one row ranks at least as high as every tile with the letter. Unless it is Unused, it equals one of those tiles. |
| Keyboard.BestLetterStateIsBest | app/wordle.tsx:134-148 | The every-tile rule ranks at least as high as every tile with the letter in every row. Unless it is Unused, it equals one of those tiles. |
| Keyboard.FirstTileAtMostBest | app/wordle.tsx:139 | The game's first-tile rule never ranks a key above the every-tile rule. |
| Keyboard.FirstTileOnly | app/wordle.tsx:139 | For the row EERIE scored against CRANE, the last E is Correct. The game's rule shows key E as Absent, and the every-tile rule shows it as Correct. |
| Wordle.NextAttempt | app/wordle.tsx:78-92 | The attempt index after an accepted ENTER stays put or moves up by one. It stays put on a win. A miss before the last row moves it to the next row. It never leaves the board. |
| Wordle.ScoringKeepsBoardValid | app/wordle.tsx:71-92 | Scoring a listed word into the current row keeps the board valid. The attempt index advances only on a miss before the last row, so it stays below MAX_ATTEMPTS. |
| Wordle.RowWellFormed | app/wordle.tsx:28-31 | On a valid board, every row up to the current one has only blank tiles in the empty state. |
| Wordle.UnusedMeansUnseen | app/wordle.tsx:134-148 | On a valid board, a key is Unused if and only if no row up to the current one shows its letter. |
| Wordle.Session.constructor | app/wordle.tsx:27-51 | Mounting sets up the initial state and then starts a game. The result is a valid session with the chosen target, attempt 0, nothing typed and a blank board. |
| Wordle.Session.NewGame | app/wordle.tsx:43-51 | Sets the target to the chosen word, attempt 0, no letters typed and MAX_ATTEMPTS blank rows. The session is valid afterwards. |
| Wordle.Session.OnKeyPress | app/wordle.tsx:53-98 | ENTER with fewer than WORD_LENGTH letters, or with an unlisted word, raises its alert and changes nothing. An accepted ENTER writes `Evaluate` of the typed word into the current row and clears the letters. On a win it alerts Congratulations. On the last row it alerts Game Over with the target. Otherwise it moves to the next row. BACKSPACE drops the last letter. A letter is appended only while fewer than WORD_LENGTH are typed. The session stays valid. |
| Wordle.Session.KeyboardLetterState | app/wordle.tsx:134-148 | The loop returns `Keyboard.LetterState` of the rows up to and including the current attempt. |

## Left out

- Rendering, styles, theme colours and layout are not modelled. This covers the tile and keyboard views and the `_layout.tsx` screen options.
- Haptic feedback is not modelled. An `Alert.alert` pop-up is modelled as the `Alert` value that `OnKeyPress` returns. The "Play Again" button of an alert is the caller invoking `NewGame`.
- The random choice of a target (`Math.random` over `WORD_LIST`) is the word passed to `NewGame`. The contents of `WORD_LIST` are a set parameter: any set of WORD_LENGTH-letter words.
- React state updates are modelled as immediate field assignments. Batching and deferred `setState`, closures over stale state and `useCallback` dependencies are not modelled.
- Before the first `NewGame` the source's target is the empty string, and the scoring is never run on it. The model scores only guesses and targets of WORD_LENGTH letters.
- Keys are modelled as `Enter`, `Backspace` or one character. A multi-character string other than ENTER or BACKSPACE is not modelled.
- There is no terminal state, as in the source. The code has no guard that rejects an ENTER after a win or after the last row, so further ENTER presses score into the same row again.
- Evaluator.EvaluateGuess: the scoring loop is split into the two methods `MarkCorrect` and `MarkPresent`, one per pass of the source's single function. The used-index set is also returned as a ghost out-parameter so that its final contents can be stated.
- Wordle.Session.KeyboardLetterState: it requires only that the current attempt indexes the board, which is all the loop reads. What the result means on a valid board is stated separately by `Wordle.UnusedMeansUnseen` and the `Keyboard` lemmas.

## Findings

| source | as written | input that shows it | evidently intended | confidence | as-written member | corrected member |
|---|---|---|---|---|---|---|
| app/wordle.tsx:139 | `row.find` takes only the first tile in each row that shows the letter, so a later Correct or Present tile of the same letter in that row is ignored | guess EERIE against target CRANE: the last E is Correct, yet key E is coloured Absent | The key shows the best state of any tile with the letter, never lower than a tile on the board shows | not executed | Keyboard.FirstTileOnly | Keyboard.BestLetterStateIsBest |
