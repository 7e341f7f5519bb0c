/**
 The colour of a keyboard key: what the board rows played so far say about
 one letter, ranked Correct > Present > Absent > Unused.

 `LetterState` is the game's rule: each row contributes the state of its FIRST
 tile showing the letter, and the key shows the best of those. `BestLetterState`
 is the every-tile rule: a key shows the best state of ANY tile showing its
 letter, as the standard game colours keys. The two differ when a row repeats a
 letter, as `FirstTileOnly` shows.
 */
module Keyboard {
  import Tiles
  import Evaluator

  datatype KeyState = Unused | Absent | Present | Correct

  /** The ranking Correct > Present > Absent > Unused, as numbers. */
  function Rank(s: KeyState): nat
  {
    match s
    case Unused => 0
    case Absent => 1
    case Present => 2
    case Correct => 3
  }

  /** The higher-ranked of two states. */
  function Better(a: KeyState, b: KeyState): (r: KeyState)
    ensures Rank(r) >= Rank(a) && Rank(r) >= Rank(b)
    ensures r == a || r == b
  {
    if Rank(b) > Rank(a) then b else a
  }

  /** The key state a tile's verdict stands for; a blank tile says nothing. */
  function FromTile(s: Tiles.TileState): KeyState
  {
    match s
    case Correct => Correct
    case Present => Present
    case Absent => Absent
    case Empty => Unused
  }

  /**
   Array `find` over a row from index `from`: the first index whose tile shows
   the letter, or `|row|` when there is none.
   */
  function FindLetter(row: seq<Tiles.Tile>, letter: char, from: nat): (k: nat)
    requires from <= |row|
    ensures from <= k <= |row|
    ensures k < |row| ==> row[k].letter == [letter]
    ensures forall p :: from <= p < k ==> row[p].letter != [letter]
    decreases |row| - from
  {
    if from == |row| then from
    else if row[from].letter == [letter] then from
    else FindLetter(row, letter, from + 1)
  }

  /** What one row says about a letter: the state of its first tile showing it, or Unused. */
  function RowState(row: seq<Tiles.Tile>, letter: char): KeyState
  {
    var k := FindLetter(row, letter, 0);
    if k == |row| then Unused else FromTile(row[k].state)
  }

  /** A row speaks for a letter through its first tile showing it, and says Unused when no tile does. */
  lemma RowStateIsFirstTile(row: seq<Tiles.Tile>, letter: char, k: nat)
    requires k <= |row|
    requires forall p :: 0 <= p < k ==> row[p].letter != [letter]
    requires k < |row| ==> row[k].letter == [letter]
    ensures RowState(row, letter) == if k < |row| then FromTile(row[k].state) else Unused
  {
  }

  /**
   The key state after the given rows, folded left to right with `Better`.
   `LetterStateNeverLowers` and `LetterStateIsBest` say what it computes.
   */
  function LetterState(rows: seq<seq<Tiles.Tile>>, letter: char): KeyState
  {
    if rows == [] then Unused
    else Better(LetterState(rows[..|rows| - 1], letter), RowState(rows[|rows| - 1], letter))
  }

  /** Playing one more row never lowers a key, and leaves it at least what that row says. */
  lemma LetterStateNeverLowers(rows: seq<seq<Tiles.Tile>>, row: seq<Tiles.Tile>, letter: char)
    ensures Rank(LetterState(rows, letter)) <= Rank(LetterState(rows + [row], letter))
    ensures Rank(RowState(row, letter)) <= Rank(LetterState(rows + [row], letter))
  {
    assert (rows + [row])[..|rows|] == rows;
  }

  /**
   The key shows the maximum over the rows: at least every row's state (so a
   Present is never downgraded by a later Absent), and equal to one of them
   unless it is Unused.
   */
  lemma {:induction false} LetterStateIsBest(rows: seq<seq<Tiles.Tile>>, letter: char)
    ensures forall i :: 0 <= i < |rows| ==> Rank(RowState(rows[i], letter)) <= Rank(LetterState(rows, letter))
    ensures LetterState(rows, letter) == Unused
         || exists i :: 0 <= i < |rows| && LetterState(rows, letter) == RowState(rows[i], letter)
  {
    if rows != [] {
      var init := rows[..|rows| - 1];
      LetterStateIsBest(init, letter);
      assert forall i :: 0 <= i < |init| ==> init[i] == rows[i];
      var s := LetterState(rows, letter);
      if s == RowState(rows[|rows| - 1], letter) {
      } else if s != Unused {
        var i :| 0 <= i < |init| && LetterState(init, letter) == RowState(init[i], letter);
        assert s == RowState(rows[i], letter);
      }
    }
  }

  /** A row whose first tile showing the letter is Correct makes the key Correct, whatever the other rows say. */
  lemma CorrectIsFinal(rows: seq<seq<Tiles.Tile>>, i: nat, letter: char)
    requires i < |rows| && RowState(rows[i], letter) == Correct
    ensures LetterState(rows, letter) == Correct
  {
  }

  /** The key state does not depend on the order of the rows, nor on repeated rows. */
  lemma LetterStateIgnoresOrder(rows: seq<seq<Tiles.Tile>>, rows': seq<seq<Tiles.Tile>>, letter: char)
    requires forall r :: r in rows <==> r in rows'
    ensures LetterState(rows, letter) == LetterState(rows', letter)
  {
    LetterStateIsBest(rows, letter);
    LetterStateIsBest(rows', letter);
    var a, b := LetterState(rows, letter), LetterState(rows', letter);
    if a != Unused {
      var i :| 0 <= i < |rows| && a == RowState(rows[i], letter);
      assert rows[i] in rows';
      var i' :| 0 <= i' < |rows'| && rows'[i'] == rows[i];
      assert Rank(a) <= Rank(b);
    }
    if b != Unused {
      var i' :| 0 <= i' < |rows'| && b == RowState(rows'[i'], letter);
      assert rows'[i'] in rows;
      var i :| 0 <= i < |rows| && rows[i] == rows'[i'];
      assert Rank(b) <= Rank(a);
    }
  }

  /** On well-formed rows a key is Unused exactly when no tile of any row shows its letter. */
  lemma {:induction false} UnusedIffUnseen(rows: seq<seq<Tiles.Tile>>, letter: char)
    requires forall i :: 0 <= i < |rows| ==> Tiles.WellFormedRow(rows[i])
    ensures LetterState(rows, letter) == Unused
        <==> forall i, k :: 0 <= i < |rows| && 0 <= k < |rows[i]| ==> rows[i][k].letter != [letter]
  {
    if rows != [] {
      var init, last := rows[..|rows| - 1], rows[|rows| - 1];
      UnusedIffUnseen(init, letter);
      assert forall i :: 0 <= i < |init| ==> init[i] == rows[i];
      var k := FindLetter(last, letter, 0);
      if k < |last| {
        assert last[k].letter != "" by {
          assert |last[k].letter| == 1;
        }
      }
    }
  }

  // ----- The every-tile rule: a key shows the best state of any tile with its letter -----

  /** The best state among all tiles of a row that show the letter. */
  function TileBest(row: seq<Tiles.Tile>, letter: char): KeyState
  {
    if row == [] then Unused
    else Better(TileBest(row[..|row| - 1], letter),
                if row[|row| - 1].letter == [letter] then FromTile(row[|row| - 1].state) else Unused)
  }

  /** The every-tile rule: the best state of any tile, in any row, that shows the letter. */
  function BestLetterState(rows: seq<seq<Tiles.Tile>>, letter: char): KeyState
  {
    if rows == [] then Unused
    else Better(BestLetterState(rows[..|rows| - 1], letter), TileBest(rows[|rows| - 1], letter))
  }

  lemma {:induction false} TileBestIsBest(row: seq<Tiles.Tile>, letter: char)
    ensures forall k :: 0 <= k < |row| && row[k].letter == [letter] ==>
      Rank(FromTile(row[k].state)) <= Rank(TileBest(row, letter))
    ensures TileBest(row, letter) == Unused
         || exists k :: 0 <= k < |row| && row[k].letter == [letter] && TileBest(row, letter) == FromTile(row[k].state)
  {
    if row != [] {
      var init := row[..|row| - 1];
      TileBestIsBest(init, letter);
      assert forall k :: 0 <= k < |init| ==> init[k] == row[k];
      var s := TileBest(row, letter);
      if s != Unused && s == TileBest(init, letter) {
        var k :| 0 <= k < |init| && init[k].letter == [letter] && TileBest(init, letter) == FromTile(init[k].state);
        assert row[k] == init[k];
      }
    }
  }

  /**
   The every-tile rule never downgrades: a letter shown Correct (or Present) on any
   tile of any row keeps at least that state, and the key shows the state of
   some tile of that letter unless it is Unused.
   */
  lemma {:induction false} BestLetterStateIsBest(rows: seq<seq<Tiles.Tile>>, letter: char)
    ensures forall i, k :: 0 <= i < |rows| && 0 <= k < |rows[i]| && rows[i][k].letter == [letter] ==>
      Rank(FromTile(rows[i][k].state)) <= Rank(BestLetterState(rows, letter))
    ensures BestLetterState(rows, letter) == Unused
         || exists i, k :: 0 <= i < |rows| && 0 <= k < |rows[i]| && rows[i][k].letter == [letter]
                           && BestLetterState(rows, letter) == FromTile(rows[i][k].state)
  {
    if rows != [] {
      var init, last := rows[..|rows| - 1], rows[|rows| - 1];
      BestLetterStateIsBest(init, letter);
      TileBestIsBest(last, letter);
      assert forall i :: 0 <= i < |init| ==> init[i] == rows[i];
      var s := BestLetterState(rows, letter);
      if s != Unused {
        if s == TileBest(last, letter) {
          var k :| 0 <= k < |last| && last[k].letter == [letter] && s == FromTile(last[k].state);
          assert rows[|rows| - 1][k] == last[k];
        } else {
          var i, k :| 0 <= i < |init| && 0 <= k < |init[i]| && init[i][k].letter == [letter]
                      && BestLetterState(init, letter) == FromTile(init[i][k].state);
          assert rows[i][k] == init[i][k];
        }
      }
    }
  }

  /** The game's rule never shows a key better than the every-tile rule does. */
  lemma FirstTileAtMostBest(rows: seq<seq<Tiles.Tile>>, letter: char)
    ensures Rank(LetterState(rows, letter)) <= Rank(BestLetterState(rows, letter))
  {
    LetterStateIsBest(rows, letter);
    BestLetterStateIsBest(rows, letter);
    if LetterState(rows, letter) != Unused {
      var i :| 0 <= i < |rows| && LetterState(rows, letter) == RowState(rows[i], letter);
      var k := FindLetter(rows[i], letter, 0);
      assert k < |rows[i]| && rows[i][k].letter == [letter];
    }
  }

  /**
   The game's rule looks at the first tile of each row only: with target CRANE,
   the guess EERIE scores its last E Correct, yet the key E shows Absent, where
   the every-tile rule shows Correct.
   */
  lemma FirstTileOnly()
    ensures var row := Evaluator.Evaluate("EERIE", "CRANE");
      row[4] == Tiles.Tile("E", Tiles.Correct)
      && LetterState([row], 'E') == Absent
      && BestLetterState([row], 'E') == Correct
  {
  }
}
