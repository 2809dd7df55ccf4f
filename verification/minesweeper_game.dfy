/** The controller of games/minesweeper/js/game.js without its UI: the
    game state around a board, the left and right clicks and a new game. */
module MinesweeperGame {
  import opened MinesweeperConstants
  import opened Optional
  import B = MinesweeperBoard

  datatype Game = Game(state: GameState, board: B.Board)

  /** Every cell without a mine is revealed. */
  ghost predicate Cleared(b: B.Board)
    requires B.Shaped(b.grid)
  {
    forall r, c :: B.InBounds(b.grid, r, c) && !B.At(b.grid, r, c).isMine ==> B.At(b.grid, r, c).state == Revealed
  }

  /** The difficulties the menu offers. */
  predicate IsPreset(d: Difficulty) {
    d == Beginner || d == Intermediate || d == Expert
  }

  /** The board keeps its invariant and a preset's room for the mines; a
      game not started has placed no mines yet, and a won game has every
      safe cell revealed. */
  ghost predicate Inv(g: Game) {
    && B.Inv(g.board)
    && Placeable(Difficulty(g.board.grid.rows, g.board.grid.cols, g.board.totalMines))
    && (g.state == NotStarted ==> g.board.firstClick)
    && (g.state == Won ==> !g.board.firstClick && Cleared(g.board))
  }

  predicate Over(g: Game) {
    g.state == Won || g.state == Lost
  }

  /** The constructor: a beginner board, not started. */
  function NewGame(): (g: Game)
    ensures Inv(g) && g.state == NotStarted
    ensures g.board.grid.rows == Beginner.rows && g.board.grid.cols == Beginner.cols
    ensures g.board.totalMines == Beginner.mines
  {
    PresetsPlaceable();
    Game(NotStarted, B.NewBoard(Beginner.rows, Beginner.cols, Beginner.mines))
  }

  /** `handleCellClick`: ignored once the game is over; otherwise the game
      is under way, a mine loses it and, failing that, `checkWin` wins it.
      `mines` is where a first click's placement puts the mines. */
  function LeftClick(g: Game, row: int, col: int, mines: set<B.Pos>): (g': Game)
    requires B.Shaped(g.board.grid) && B.CountsCorrect(g.board.grid) && B.InBounds(g.board.grid, row, col)
    ensures Over(g) ==> g' == g
    ensures !Over(g) ==> g'.state != NotStarted
    ensures !Over(g) ==> g'.board == B.HandleCellClick(g.board, row, col, mines).board
    ensures !Over(g) ==> (g'.state == Lost <==> B.HandleCellClick(g.board, row, col, mines).hitMine)
    ensures !Over(g) && g'.state != Lost ==> (g'.state == Won <==> B.CheckWin(g'.board))
  {
    if Over(g) then g
    else
      var k := B.HandleCellClick(g.board, row, col, mines);
      var state := if k.hitMine then Lost else if B.CheckWin(k.board) then Won else Playing;
      Game(state, k.board)
  }

  /** A left click keeps the invariant. Once mines are down it wins
      exactly when it leaves every safe cell revealed. */
  lemma LeftClickKeepsInv(g: Game, row: int, col: int, mines: set<B.Pos>)
    requires Inv(g) && B.InBounds(g.board.grid, row, col)
    requires g.board.firstClick && B.At(g.board.grid, row, col).state == Hidden ==> B.ValidLayout(g.board, row, col, mines)
    ensures var g' := LeftClick(g, row, col, mines);
      && Inv(g')
      && (!Over(g) && !g'.board.firstClick ==> (g'.state == Won <==> g'.state != Lost && Cleared(g'.board)))
      && (!Over(g) && g.board.firstClick ==> g'.state != Lost)
  {
    if !Over(g) {
      var g' := LeftClick(g, row, col, mines);
      B.HandleCellClickKeepsInv(g.board, row, col, mines);
      if g'.board.firstClick {
        B.NothingRevealedBeforeFirstClick(g'.board);
      } else {
        B.WinIffAllSafeRevealed(g'.board);
      }
    }
  }

  /** A right click's outcome: the game and the mines-left figure shown,
      or nothing when the click is ignored. */
  datatype RightClickResult = RightClickResult(game: Game, minesLeft: Option<int>)

  /** `handleCellRightClick`: ignored once the game is over; otherwise the
      game is under way, the flag toggles and the figure shown is the
      total number of mines less the flags, negative when there are more
      flags than mines. */
  function RightClick(g: Game, row: int, col: int): (r: RightClickResult)
    requires B.Shaped(g.board.grid) && B.InBounds(g.board.grid, row, col)
    ensures Over(g) <==> r.minesLeft.None?
    ensures Over(g) ==> r.game == g
    ensures !Over(g) ==> r.game.state == Playing && r.game.board == B.ToggleFlagAt(g.board, row, col).board
    ensures r.minesLeft.Some? ==> r.minesLeft.value == g.board.totalMines - r.game.board.flagged
  {
    if Over(g) then RightClickResult(g, None)
    else
      var f := B.ToggleFlagAt(g.board, row, col);
      RightClickResult(Game(Playing, f.board), Some(g.board.totalMines - f.count))
  }

  /** A right click keeps the invariant, and the figure shown is the mines
      less the flagged cells. */
  lemma RightClickKeepsInv(g: Game, row: int, col: int)
    requires Inv(g) && B.InBounds(g.board.grid, row, col)
    ensures var r := RightClick(g, row, col);
      && Inv(r.game)
      && (r.minesLeft.Some? ==> r.minesLeft.value == g.board.totalMines - |B.CellsWhere(r.game.board.grid, B.IsFlagged)|)
  {
    B.ToggleFlagKeepsInv(g.board, row, col);
  }

  /** `startNewGame`: the board is reset, rebuilt when the chosen
      difficulty has another size or mine count, and the game waits for
      its first click. */
  function StartNewGame(g: Game, d: Difficulty): (g': Game)
    requires IsPreset(d)
    ensures Inv(g') && g'.state == NotStarted
    ensures g'.board.grid.rows == d.rows && g'.board.grid.cols == d.cols && g'.board.totalMines == d.mines
    ensures g'.board.flagged == 0 && g'.board.revealed == 0
  {
    PresetsPlaceable();
    var b := B.Reset(g.board);
    if b.grid.rows != d.rows || b.grid.cols != d.cols || b.totalMines != d.mines then
      Game(NotStarted, B.NewBoard(d.rows, d.cols, d.mines))
    else
      Game(NotStarted, b)
  }

  /** Resetting the board in place gives the same game as building a new
      board for the difficulty. */
  lemma StartNewGameIsFresh(g: Game, d: Difficulty)
    requires IsPreset(d)
    ensures StartNewGame(g, d) == Game(NotStarted, B.NewBoard(d.rows, d.cols, d.mines))
  {
  }
}
