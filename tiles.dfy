/**
 The values shared by the evaluator, the keyboard and the game session: the
 board dimensions and the tile a board cell holds.
 */
module Tiles {

  /** Letters in every word, and tiles in every board row. */
  const WORD_LENGTH: nat := 5

  /** Rows on the board: the number of guesses a round allows. */
  const MAX_ATTEMPTS: nat := 6

  /** The colour of a tile. `Empty` only ever appears on rows not yet played. */
  datatype TileState = Correct | Present | Absent | Empty

  /** One board cell: the letter shown (the empty string on an unplayed row) and its state. */
  datatype Tile = Tile(letter: string, state: TileState)

  /** The tile every cell of a fresh board holds. */
  const BLANK: Tile := Tile("", Empty)

  /** A row that has not been played: WORD_LENGTH blank tiles. */
  function EmptyRow(): (row: seq<Tile>)
    ensures |row| == WORD_LENGTH
    ensures forall k :: 0 <= k < |row| ==> row[k].letter == "" && row[k].state == Empty
  {
    seq(WORD_LENGTH, _ => BLANK)
  }

  /** Every tile that shows a letter also shows a verdict: only blank tiles are `Empty`. */
  predicate WellFormedRow(row: seq<Tile>)
  {
    forall k :: 0 <= k < |row| && row[k].state == Empty ==> row[k].letter == ""
  }
}
