/** The presets and state names of games/minesweeper/js/constants.js. */
module MinesweeperConstants {

  /** A board size and its number of mines. */
  datatype Difficulty = Difficulty(rows: nat, cols: nat, mines: nat)

  const Beginner: Difficulty := Difficulty(9, 9, 10)
  const Intermediate: Difficulty := Difficulty(16, 16, 40)
  const Expert: Difficulty := Difficulty(16, 30, 99)

  /** `CELL_STATE`. */
  datatype CellState = Hidden | Revealed | Flagged

  /** `GAME_STATE`. */
  datatype GameState = NotStarted | Playing | Won | Lost

  /** The cells a first click keeps free of mines: at most a 3-by-3 block. */
  const SafeBlock: nat := 9

  /** Mine placement can finish on a preset: even with the whole safe
      block on the board, enough cells remain for the mines. */
  predicate Placeable(d: Difficulty) {
    d.mines <= d.rows * d.cols - SafeBlock
  }

  lemma PresetsPlaceable()
    ensures Placeable(Beginner) && Placeable(Intermediate) && Placeable(Expert)
  {
  }
}
