/**
 The game screen's state and its transitions: the target word, the board of
 MAX_ATTEMPTS rows of WORD_LENGTH tiles, the attempt index and the letters
 typed so far. The word list is fixed when the session is made; the random
 choice of a target is the word handed to `NewGame`.
 */
module Wordle {
  import opened Tiles
  import Evaluator
  import Keyboard

  /** A key of the on-screen keyboard. */
  datatype Key = Enter | Backspace | Letter(c: char)

  /** The alert a key press raises, if any. */
  datatype Alert = NoAlert | NotEnoughLetters | NotInWordList | Congratulations | GameOver(word: string)

  /** The word list: every word has WORD_LENGTH letters. */
  predicate IsWordList(words: set<string>)
  {
    forall w :: w in words ==> |w| == WORD_LENGTH
  }

  /** `row` is the scored row of the listed word `word` against `target`. */
  predicate ScoredRow(row: seq<Tile>, word: string, target: string, words: set<string>)
  {
    word in words && Evaluator.Words(word, target) && row == Evaluator.Evaluate(word, target)
  }

  /** `row` scores some listed word; `missed` asks in addition that the word was not the target. */
  ghost predicate Played(row: seq<Tile>, target: string, words: set<string>, missed: bool)
  {
    exists w :: ScoredRow(row, w, target, words) && (missed ==> w != target)
  }

  /**
   The board invariant: MAX_ATTEMPTS rows; every row before the current one
   scores a listed word that was not the target; the current row is blank or
   scored; the rows after it are blank.
   */
  ghost predicate ValidBoard(rows: seq<seq<Tile>>, attempt: nat, target: string, words: set<string>)
  {
    |rows| == MAX_ATTEMPTS && attempt < MAX_ATTEMPTS
    && (forall r :: 0 <= r < attempt ==> Played(rows[r], target, words, true))
    && (rows[attempt] == EmptyRow() || Played(rows[attempt], target, words, false))
    && (forall r :: attempt < r < MAX_ATTEMPTS ==> rows[r] == EmptyRow())
  }

  /** The attempt index after an accepted guess: unchanged on a win or on the last row, else the next row. */
  function NextAttempt(attempt: nat, guess: string, target: string): (r: nat)
    ensures attempt <= r <= attempt + 1
    ensures attempt < MAX_ATTEMPTS ==> r < MAX_ATTEMPTS
    ensures guess == target ==> r == attempt
    ensures guess != target && attempt < MAX_ATTEMPTS - 1 ==> r == attempt + 1
  {
    if guess == target || attempt == MAX_ATTEMPTS - 1 then attempt else attempt + 1
  }

  /**
   Scoring a listed guess into the current row keeps the board valid, and the
   attempt index stays below MAX_ATTEMPTS; a win is never followed by a new row.
   */
  lemma ScoringKeepsBoardValid(rows: seq<seq<Tile>>, attempt: nat, target: string, words: set<string>, guess: string)
    requires ValidBoard(rows, attempt, target, words)
    requires guess in words && Evaluator.Words(guess, target)
    ensures ValidBoard(rows[attempt := Evaluator.Evaluate(guess, target)], NextAttempt(attempt, guess, target), target, words)
  {
    var rows' := rows[attempt := Evaluator.Evaluate(guess, target)];
    var next := NextAttempt(attempt, guess, target);
    assert ScoredRow(rows'[attempt], guess, target, words);
    forall r | 0 <= r < next
      ensures Played(rows'[r], target, words, true)
    {
      if r < attempt {
        assert rows'[r] == rows[r];
      } else {
        assert ScoredRow(rows'[r], guess, target, words);
      }
    }
  }

  /** Every row up to the current one of a valid board is blank or scored, so only blank tiles are Empty. */
  lemma RowWellFormed(rows: seq<seq<Tile>>, attempt: nat, target: string, words: set<string>, r: nat)
    requires ValidBoard(rows, attempt, target, words) && r <= attempt
    ensures WellFormedRow(rows[r])
  {
  }

  /** On a valid board, a key is Unused exactly when no row up to the current one shows its letter. */
  lemma UnusedMeansUnseen(rows: seq<seq<Tile>>, attempt: nat, target: string, words: set<string>, letter: char)
    requires ValidBoard(rows, attempt, target, words)
    ensures Keyboard.LetterState(rows[..attempt + 1], letter) == Keyboard.Unused <==>
      forall r, k :: 0 <= r <= attempt && 0 <= k < |rows[r]| ==> rows[r][k].letter != [letter]
  {
    var played := rows[..attempt + 1];
    assert forall r :: 0 <= r < |played| ==> played[r] == rows[r];
    forall r | 0 <= r < |played|
      ensures WellFormedRow(played[r])
    {
      RowWellFormed(rows, attempt, target, words, r);
    }
    Keyboard.UnusedIffUnseen(played, letter);
  }

  class Session {
    const wordList: set<string>
    var targetWord: string
    var guesses: array<seq<Tile>>
    var currentAttempt: nat
    var currentGuess: seq<char>

    /**
     The session invariant: the word list holds WORD_LENGTH-letter words and
     the target is one of them; at most WORD_LENGTH letters are typed; the
     board is valid.
     */
    ghost predicate Valid()
      reads this, guesses
    {
      IsWordList(wordList) && targetWord in wordList
      && |currentGuess| <= WORD_LENGTH
      && guesses.Length == MAX_ATTEMPTS
      && ValidBoard(guesses[..], currentAttempt, targetWord, wordList)
    }

    /** Mounting the screen: the initial state, then the first `NewGame` with `word`. */
    constructor (words: set<string>, word: string)
      requires IsWordList(words) && word in words
      ensures Valid() && fresh(guesses)
      ensures wordList == words && targetWord == word
      ensures currentAttempt == 0 && currentGuess == []
      ensures guesses[..] == seq(MAX_ATTEMPTS, _ => EmptyRow())
    {
      wordList := words;
      targetWord := "";
      guesses := new seq<Tile>[MAX_ATTEMPTS](_ => EmptyRow());
      currentAttempt := 0;
      currentGuess := [];
      new;
      NewGame(word);
    }

    /** Starts a round with target `word`: attempt 0, nothing typed, a blank board. */
    method NewGame(word: string)
      requires IsWordList(wordList) && word in wordList
      modifies this
      ensures Valid() && fresh(guesses)
      ensures targetWord == word && currentAttempt == 0 && currentGuess == []
      ensures guesses[..] == seq(MAX_ATTEMPTS, _ => EmptyRow())
    {
      targetWord := word;
      currentAttempt := 0;
      currentGuess := [];
      guesses := new seq<Tile>[MAX_ATTEMPTS](_ => EmptyRow());
    }

    /**
     One key press. ENTER with fewer than WORD_LENGTH letters, or with a word
     not in the list, changes nothing. An accepted ENTER scores the typed word
     into the current row and clears the letters; it moves to the next row
     unless the word is the target or the row is the last. BACKSPACE drops the
     last letter; a letter is appended while the row has room.
     */
    method OnKeyPress(key: Key) returns (alert: Alert)
      requires Valid()
      modifies this, guesses
      ensures Valid()
      ensures guesses == old(guesses) && targetWord == old(targetWord)
      ensures key == Enter && |old(currentGuess)| != WORD_LENGTH ==>
        alert == NotEnoughLetters && unchanged(this) && unchanged(guesses)
      ensures key == Enter && |old(currentGuess)| == WORD_LENGTH && old(currentGuess) !in wordList ==>
        alert == NotInWordList && unchanged(this) && unchanged(guesses)
      ensures key == Enter && |old(currentGuess)| == WORD_LENGTH && old(currentGuess) in wordList ==>
        && guesses[..] == old(guesses[..])[old(currentAttempt) := Evaluator.Evaluate(old(currentGuess), targetWord)]
        && currentGuess == []
        && currentAttempt == NextAttempt(old(currentAttempt), old(currentGuess), targetWord)
        && alert == (if old(currentGuess) == targetWord then Congratulations
                     else if old(currentAttempt) == MAX_ATTEMPTS - 1 then GameOver(targetWord)
                     else NoAlert)
      ensures key == Backspace ==>
        && alert == NoAlert && unchanged(guesses) && currentAttempt == old(currentAttempt)
        && currentGuess == if old(currentGuess) == [] then [] else old(currentGuess)[..|old(currentGuess)| - 1]
      ensures key.Letter? ==>
        && alert == NoAlert && unchanged(guesses) && currentAttempt == old(currentAttempt)
        && currentGuess == if |old(currentGuess)| < WORD_LENGTH then old(currentGuess) + [key.c] else old(currentGuess)
    {
      alert := NoAlert;
      if key == Enter {
        if |currentGuess| != WORD_LENGTH {
          return NotEnoughLetters;
        }
        var guess := currentGuess;
        if guess !in wordList {
          return NotInWordList;
        }
        var evaluation, _ := Evaluator.EvaluateGuess(guess, targetWord);
        ScoringKeepsBoardValid(guesses[..], currentAttempt, targetWord, wordList, guess);
        guesses[currentAttempt] := evaluation;
        currentGuess := [];
        if guess == targetWord {
          return Congratulations;
        }
        if currentAttempt == MAX_ATTEMPTS - 1 {
          return GameOver(targetWord);
        }
        currentAttempt := currentAttempt + 1;
      } else if key == Backspace {
        currentGuess := if currentGuess == [] then [] else currentGuess[..|currentGuess| - 1];
      } else if |currentGuess| < WORD_LENGTH {
        currentGuess := currentGuess + [key.c];
      }
    }

    /**
     The colour of the key for `letter`: the best state that the first tile
     showing the letter has in each row up to the current one. A Correct row
     ends the scan early, which `Keyboard.CorrectIsFinal` shows changes nothing.
     */
    method KeyboardLetterState(letter: char) returns (state: Keyboard.KeyState)
      requires currentAttempt < guesses.Length
      ensures state == Keyboard.LetterState(guesses[..currentAttempt + 1], letter)
    {
      state := Keyboard.Unused;
      for i := 0 to currentAttempt + 1
        invariant state == Keyboard.LetterState(guesses[..i], letter) && state != Keyboard.Correct
      {
        var row := guesses[i];
        assert guesses[..i + 1][..i] == guesses[..i] && guesses[..i + 1][i] == row;
        var k := Keyboard.FindLetter(row, letter, 0);
        if k < |row| {
          var letterGuess := row[k];
          if letterGuess.state == Correct {
            Keyboard.CorrectIsFinal(guesses[..currentAttempt + 1], i, letter);
            return Keyboard.Correct;
          }
          if letterGuess.state == Present {
            state := Keyboard.Present;
          } else if letterGuess.state == Absent && state != Keyboard.Present {
            state := Keyboard.Absent;
          }
        }
      }
    }
  }
}
