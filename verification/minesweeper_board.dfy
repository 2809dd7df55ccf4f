/** The board of games/minesweeper/js/board.js without its DOM: the cell
    grid, the two counters, mine placement around the first click, the
    neighbour counts, the click with its flood fill, flagging, the final
    reveal of the mines, the win test and the reset. */
module MinesweeperBoard {
  import opened MinesweeperConstants
  import opened MinesweeperCell

  datatype Pos = Pos(row: int, col: int)

  /** The `cells` array with its dimensions. */
  datatype Grid = Grid(rows: nat, cols: nat, cells: seq<seq<Cell>>)

  /** `totalMines`, `flaggedCount`, `revealedCount` and `firstClick`
      beside the grid. */
  datatype Board = Board(grid: Grid, totalMines: nat, flagged: int, revealed: nat, firstClick: bool)

  predicate Shaped(g: Grid) {
    |g.cells| == g.rows && forall r :: 0 <= r < g.rows ==> |g.cells[r]| == g.cols
  }

  predicate InBounds(g: Grid, r: int, c: int) {
    0 <= r < g.rows && 0 <= c < g.cols
  }

  function At(g: Grid, r: int, c: int): Cell
    requires Shaped(g) && InBounds(g, r, c)
  {
    g.cells[r][c]
  }

  /** The grid with one cell replaced. */
  function Put(g: Grid, r: int, c: int, v: Cell): (g': Grid)
    requires Shaped(g) && InBounds(g, r, c)
    ensures Shaped(g') && g'.rows == g.rows && g'.cols == g.cols
    ensures forall r', c' :: InBounds(g, r', c') ==>
      At(g', r', c') == if r' == r && c' == c then v else At(g, r', c')
  {
    g.(cells := g.cells[r := g.cells[r][c := v]])
  }

  // ---------------------------------------------------------------------
  // Sets of cells

  /** The positions of the cells satisfying `f`. */
  ghost function CellsWhere(g: Grid, f: Cell -> bool): set<Pos>
    requires Shaped(g)
  {
    set r, c | 0 <= r < g.rows && 0 <= c < g.cols && f(g.cells[r][c]) :: Pos(r, c)
  }

  lemma InCellsWhere(g: Grid, f: Cell -> bool, p: Pos)
    requires Shaped(g)
    ensures p in CellsWhere(g, f) <==> InBounds(g, p.row, p.col) && f(At(g, p.row, p.col))
  {
    if InBounds(g, p.row, p.col) && f(g.cells[p.row][p.col]) {
      assert p == Pos(p.row, p.col);
    }
  }

  /** Replacing one cell moves at most that cell in or out of a set. */
  lemma PutCellsWhere(g: Grid, r0: int, c0: int, v: Cell, f: Cell -> bool)
    requires Shaped(g) && InBounds(g, r0, c0)
    ensures CellsWhere(Put(g, r0, c0, v), f)
      == (CellsWhere(g, f) - {Pos(r0, c0)}) + (if f(v) then {Pos(r0, c0)} else {})
  {
    var g' := Put(g, r0, c0, v);
    forall p
      ensures p in CellsWhere(g', f) <==>
        p in (CellsWhere(g, f) - {Pos(r0, c0)}) + (if f(v) then {Pos(r0, c0)} else {})
    {
      InCellsWhere(g, f, p);
      InCellsWhere(g', f, p);
    }
  }

  /** The size of a set after replacing one cell. */
  lemma PutCount(g: Grid, r0: int, c0: int, v: Cell, f: Cell -> bool)
    requires Shaped(g) && InBounds(g, r0, c0)
    ensures |CellsWhere(Put(g, r0, c0, v), f)|
      == |CellsWhere(g, f)| - (if f(At(g, r0, c0)) then 1 else 0) + (if f(v) then 1 else 0)
  {
    PutCellsWhere(g, r0, c0, v, f);
    InCellsWhere(g, f, Pos(r0, c0));
  }

  /** Grids whose cells agree under `f` have the same `f`-set. */
  lemma SameCellsWhere(g: Grid, g': Grid, f: Cell -> bool)
    requires Shaped(g) && Shaped(g') && g.rows == g'.rows && g.cols == g'.cols
    requires forall r, c :: InBounds(g, r, c) ==> f(At(g, r, c)) == f(At(g', r, c))
    ensures CellsWhere(g, f) == CellsWhere(g', f)
  {
    forall p
      ensures p in CellsWhere(g, f) <==> p in CellsWhere(g', f)
    {
      InCellsWhere(g, f, p);
      InCellsWhere(g', f, p);
    }
  }

  lemma SubsetCard<T>(a: set<T>, b: set<T>)
    requires a <= b
    ensures |a| <= |b| && (|a| == |b| ==> a == b)
  {
    assert b == a + (b - a);
  }

  predicate IsHidden(c: Cell) { c.state == Hidden }
  predicate IsFlagged(c: Cell) { c.state == Flagged }
  predicate IsRevealed(c: Cell) { c.state == Revealed }
  predicate IsMine(c: Cell) { c.isMine }
  predicate IsSafe(c: Cell) { !c.isMine }
  predicate IsRevealedSafe(c: Cell) { c.state == Revealed && !c.isMine }
  predicate AnyCell(c: Cell) { true }

  /** The first `n` rows of a grid with `cols` columns. */
  ghost function Block(n: nat, cols: nat): set<Pos> {
    set r, c | 0 <= r < n && 0 <= c < cols :: Pos(r, c)
  }

  ghost function RowCells(r: int, k: nat): set<Pos> {
    set c | 0 <= c < k :: Pos(r, c)
  }

  lemma {:induction false} RowCellsCard(r: int, k: nat)
    ensures |RowCells(r, k)| == k
  {
    if k > 0 {
      RowCellsCard(r, k - 1);
      assert RowCells(r, k) == RowCells(r, k - 1) + {Pos(r, k - 1)};
    }
  }

  lemma {:induction false} BlockCard(n: nat, cols: nat)
    ensures |Block(n, cols)| == n * cols
  {
    if n > 0 {
      BlockCard(n - 1, cols);
      RowCellsCard(n - 1, cols);
      BlockSplit(n, cols);
      var prev, row := Block(n - 1, cols), RowCells(n - 1, cols);
      assert |prev + row| == |prev| + |row|;
      assert (n - 1) * cols + cols == n * cols;
    }
  }

  /** The first `n` rows are the first `n - 1` and the last row, apart. */
  lemma BlockSplit(n: nat, cols: nat)
    requires n > 0
    ensures Block(n, cols) == Block(n - 1, cols) + RowCells(n - 1, cols)
    ensures Block(n - 1, cols) * RowCells(n - 1, cols) == {}
  {
    var prev, row := Block(n - 1, cols), RowCells(n - 1, cols);
    forall p
      ensures p in Block(n, cols) <==> p in prev + row
      ensures p !in prev * row
    {
      if 0 <= p.row < n && 0 <= p.col < cols {
        assert p == Pos(p.row, p.col);
      }
    }
  }

  /** A grid has `rows * cols` cells. */
  lemma AllCellsCard(g: Grid)
    requires Shaped(g)
    ensures |CellsWhere(g, AnyCell)| == g.rows * g.cols
  {
    BlockCard(g.rows, g.cols);
    forall p
      ensures p in CellsWhere(g, AnyCell) <==> p in Block(g.rows, g.cols)
    {
      InCellsWhere(g, AnyCell, p);
      if InBounds(g, p.row, p.col) {
        assert p == Pos(p.row, p.col);
      }
    }
    assert CellsWhere(g, AnyCell) == Block(g.rows, g.cols);
  }

  // ---------------------------------------------------------------------
  // Neighbour counts

  /** The eight directions, in the order `calculateAdjacentMines` and
      `revealAdjacentCells` visit them. */
  const Directions: seq<(int, int)> :=
    [(-1, -1), (-1, 0), (-1, 1), (0, -1), (0, 1), (1, -1), (1, 0), (1, 1)]

  /** The directions are exactly the offsets of the eight neighbours. */
  lemma InDirections(d: (int, int))
    ensures d in Directions <==> -1 <= d.0 <= 1 && -1 <= d.1 <= 1 && d != (0, 0)
  {
  }

  /** The mines among the neighbours in the first `n` directions. */
  function CountAround(g: Grid, row: int, col: int, n: nat): nat
    requires Shaped(g) && n <= |Directions|
  {
    if n == 0 then 0
    else
      var r := row + Directions[n - 1].0;
      var c := col + Directions[n - 1].1;
      CountAround(g, row, col, n - 1) + (if InBounds(g, r, c) && At(g, r, c).isMine then 1 else 0)
  }

  /** The cell (r, c) is a mine next to (row, col). */
  predicate MineNear(g: Grid, row: int, col: int, r: int, c: int)
    requires Shaped(g)
  {
    -1 <= r - row <= 1 && -1 <= c - col <= 1 && (r != row || c != col)
      && InBounds(g, r, c) && g.cells[r][c].isMine
  }

  /** The reference count: the on-board cells at most one row and one
      column away, other than the cell itself, holding a mine. */
  ghost function NeighbourMines(g: Grid, row: int, col: int): set<Pos>
    requires Shaped(g)
  {
    set r, c | row - 1 <= r <= row + 1 && col - 1 <= c <= col + 1 && MineNear(g, row, col, r, c) :: Pos(r, c)
  }

  /** The mines found in the first `n` directions, as a set. */
  ghost function AroundSet(g: Grid, row: int, col: int, n: nat): set<Pos>
    requires Shaped(g) && n <= |Directions|
  {
    if n == 0 then {}
    else
      var p := Pos(row + Directions[n - 1].0, col + Directions[n - 1].1);
      AroundSet(g, row, col, n - 1) + (if InBounds(g, p.row, p.col) && At(g, p.row, p.col).isMine then {p} else {})
  }

  lemma {:induction false} InAroundSet(g: Grid, row: int, col: int, n: nat, p: Pos)
    requires Shaped(g) && n <= |Directions|
    ensures p in AroundSet(g, row, col, n) <==>
      (p.row - row, p.col - col) in Directions[..n] && InBounds(g, p.row, p.col) && At(g, p.row, p.col).isMine
  {
    if n > 0 {
      InAroundSet(g, row, col, n - 1, p);
      assert Directions[..n] == Directions[..n - 1] + [Directions[n - 1]];
    }
  }

  /** No direction is visited twice. */
  lemma DirectionIsNew(n: nat)
    requires 0 < n <= |Directions|
    ensures Directions[n - 1] !in Directions[..n - 1]
  {
    if n == 1 { } else if n == 2 { } else if n == 3 { } else if n == 4 { }
    else if n == 5 { } else if n == 6 { } else if n == 7 { } else { }
  }

  /** The neighbour in direction `n - 1` is not among those before. */
  lemma FreshNeighbour(g: Grid, row: int, col: int, n: nat)
    requires Shaped(g) && 0 < n <= |Directions|
    ensures Pos(row + Directions[n - 1].0, col + Directions[n - 1].1) !in AroundSet(g, row, col, n - 1)
  {
    var d := Directions[n - 1];
    var p := Pos(row + d.0, col + d.1);
    InAroundSet(g, row, col, n - 1, p);
    DirectionIsNew(n);
    assert (p.row - row, p.col - col) == d;
  }

  lemma {:induction false} CountAroundSet(g: Grid, row: int, col: int, n: nat)
    requires Shaped(g) && n <= |Directions|
    ensures CountAround(g, row, col, n) == |AroundSet(g, row, col, n)|
  {
    if n > 0 {
      CountAroundSet(g, row, col, n - 1);
      FreshNeighbour(g, row, col, n);
    }
  }

  /** The direction loop counts exactly the neighbouring mines. */
  lemma CountAroundIsNeighbours(g: Grid, row: int, col: int)
    requires Shaped(g)
    ensures CountAround(g, row, col, |Directions|) == |NeighbourMines(g, row, col)|
  {
    CountAroundSet(g, row, col, |Directions|);
    forall p
      ensures p in AroundSet(g, row, col, |Directions|) <==> p in NeighbourMines(g, row, col)
    {
      InAroundSet(g, row, col, |Directions|, p);
      InDirections((p.row - row, p.col - col));
      assert Directions[..|Directions|] == Directions;
      if MineNear(g, row, col, p.row, p.col) {
        assert p == Pos(p.row, p.col);
      }
    }
    assert AroundSet(g, row, col, |Directions|) == NeighbourMines(g, row, col);
  }

  /** No mine is counted around, so every neighbour is free of mines. */
  lemma {:induction false} NoMineAround(g: Grid, row: int, col: int, n: nat, i: nat)
    requires Shaped(g) && i < n <= |Directions| && CountAround(g, row, col, n) == 0
    requires InBounds(g, row + Directions[i].0, col + Directions[i].1)
    ensures !At(g, row + Directions[i].0, col + Directions[i].1).isMine
  {
    if i < n - 1 {
      NoMineAround(g, row, col, n - 1, i);
    }
  }

  /** The counts only look at where the mines are. */
  lemma {:induction false} CountAroundSameMines(g: Grid, g': Grid, row: int, col: int, n: nat)
    requires Shaped(g) && Shaped(g') && g.rows == g'.rows && g.cols == g'.cols && n <= |Directions|
    requires forall r, c :: InBounds(g, r, c) ==> At(g, r, c).isMine == At(g', r, c).isMine
    ensures CountAround(g, row, col, n) == CountAround(g', row, col, n)
  {
    if n > 0 {
      CountAroundSameMines(g, g', row, col, n - 1);
    }
  }

  /** Every cell without a mine shows its number of neighbouring mines. */
  ghost predicate CountsCorrect(g: Grid)
    requires Shaped(g)
  {
    forall r, c :: InBounds(g, r, c) && !At(g, r, c).isMine ==>
      At(g, r, c).adjacent == CountAround(g, r, c, |Directions|)
  }

  /** Cells that keep their mine and, without one, their count keep the
      counts right. */
  lemma SameMinesKeepCounts(g: Grid, g': Grid)
    requires Shaped(g) && Shaped(g') && g.rows == g'.rows && g.cols == g'.cols
    requires forall r, c :: InBounds(g, r, c) ==>
      At(g', r, c).isMine == At(g, r, c).isMine
        && (!At(g, r, c).isMine ==> At(g', r, c).adjacent == At(g, r, c).adjacent)
    requires CountsCorrect(g)
    ensures CountsCorrect(g')
  {
    forall r, c | InBounds(g, r, c)
      ensures CountAround(g', r, c, |Directions|) == CountAround(g, r, c, |Directions|)
    {
      CountAroundSameMines(g, g', r, c, |Directions|);
    }
  }

  // ---------------------------------------------------------------------
  // Mine placement

  /** Inside the 3-by-3 block around the first click. */
  predicate InSafeBlock(safeRow: int, safeCol: int, p: Pos) {
    safeRow - 1 <= p.row <= safeRow + 1 && safeCol - 1 <= p.col <= safeCol + 1
  }

  /** A set of mine positions the placement loop can produce: exactly
      `totalMines` cells on the board, none next to the first click. */
  predicate ValidLayout(b: Board, safeRow: int, safeCol: int, mines: set<Pos>) {
    |mines| == b.totalMines
      && forall p :: p in mines ==> InBounds(b.grid, p.row, p.col) && !InSafeBlock(safeRow, safeCol, p)
  }

  /** The loop of `placeMines`, fed with the successive random cells it
      draws (`Math.floor(Math.random() * rows)` and likewise for the
      column). Draws inside the safe block or on a mine are skipped; the
      loop stops once `totalMines` mines are placed. It places no more
      than that, only outside the safe block, and when it stops short every
      usable draw is already a mine, so only further draws can finish it. */
  method PlaceMines(b: Board, safeRow: int, safeCol: int, draws: seq<Pos>) returns (mines: set<Pos>)
    requires forall i :: 0 <= i < |draws| ==> InBounds(b.grid, draws[i].row, draws[i].col)
    ensures |mines| <= b.totalMines
    ensures forall p :: p in mines ==> InBounds(b.grid, p.row, p.col) && !InSafeBlock(safeRow, safeCol, p)
    ensures |mines| == b.totalMines ==> ValidLayout(b, safeRow, safeCol, mines)
    ensures |mines| < b.totalMines ==>
      forall i :: 0 <= i < |draws| && !InSafeBlock(safeRow, safeCol, draws[i]) ==> draws[i] in mines
  {
    mines := {};
    var placed := 0;
    var i := 0;
    while placed < b.totalMines && i < |draws|
      invariant 0 <= i <= |draws| && placed == |mines| <= b.totalMines
      invariant forall p :: p in mines ==> InBounds(b.grid, p.row, p.col) && !InSafeBlock(safeRow, safeCol, p)
      invariant forall k :: 0 <= k < i && !InSafeBlock(safeRow, safeCol, draws[k]) ==> draws[k] in mines
    {
      var p := draws[i];
      i := i + 1;
      if InSafeBlock(safeRow, safeCol, p) || p in mines {
        continue;
      }
      mines := mines + {p};
      placed := placed + 1;
    }
  }

  /** The grid with mines exactly on `mines`; it had none. */
  function LayMines(g: Grid, mines: set<Pos>): (g': Grid)
    requires Shaped(g)
    ensures Shaped(g') && g'.rows == g.rows && g'.cols == g.cols
    ensures forall r, c :: InBounds(g, r, c) ==>
      At(g', r, c).state == At(g, r, c).state && At(g', r, c).isMine == (Pos(r, c) in mines)
  {
    g.(cells := seq(g.rows, r requires 0 <= r < g.rows =>
      seq(g.cols, c requires 0 <= c < g.cols => g.cells[r][c].(isMine := Pos(r, c) in mines))))
  }

  /** `calculateAdjacentMines`: every cell without a mine gets its count;
      mines keep theirs. */
  function CalculateAdjacentMines(g: Grid): (g': Grid)
    requires Shaped(g)
    ensures Shaped(g') && g'.rows == g.rows && g'.cols == g.cols
    ensures forall r, c :: InBounds(g, r, c) ==>
      At(g', r, c).state == At(g, r, c).state && At(g', r, c).isMine == At(g, r, c).isMine
    ensures CountsCorrect(g')
  {
    var g' := g.(cells := seq(g.rows, r requires 0 <= r < g.rows =>
      seq(g.cols, c requires 0 <= c < g.cols =>
        if g.cells[r][c].isMine then g.cells[r][c]
        else g.cells[r][c].(adjacent := CountAround(g, r, c, |Directions|)))));
    forall r, c | InBounds(g, r, c)
      ensures CountAround(g', r, c, |Directions|) == CountAround(g, r, c, |Directions|)
    {
      CountAroundSameMines(g, g', r, c, |Directions|);
    }
    g'
  }

  // ---------------------------------------------------------------------
  // The invariant

  /** What every board reachable through the methods satisfies: the
      counters agree with the cells, the counts with the mines, and before
      the first click nothing is mined or revealed. */
  ghost predicate Inv(b: Board) {
    && Shaped(b.grid)
    && CountsCorrect(b.grid)
    && b.revealed == |CellsWhere(b.grid, IsRevealedSafe)|
    && b.flagged == |CellsWhere(b.grid, IsFlagged)|
    && (b.firstClick ==> CellsWhere(b.grid, IsMine) == {} && CellsWhere(b.grid, IsRevealed) == {})
    && (!b.firstClick ==> |CellsWhere(b.grid, IsMine)| == b.totalMines)
  }

  /** `checkWin`. */
  predicate CheckWin(b: Board) {
    b.revealed == b.grid.rows * b.grid.cols - b.totalMines
  }

  /** The cells without a mine are all cells but the mines. */
  lemma SafeCard(g: Grid)
    requires Shaped(g)
    ensures |CellsWhere(g, IsSafe)| == g.rows * g.cols - |CellsWhere(g, IsMine)|
  {
    var mines, safe := CellsWhere(g, IsMine), CellsWhere(g, IsSafe);
    AllCellsCard(g);
    forall p
      ensures p in CellsWhere(g, AnyCell) <==> p in mines + safe
      ensures p !in mines * safe
    {
      InCellsWhere(g, AnyCell, p);
      InCellsWhere(g, IsMine, p);
      InCellsWhere(g, IsSafe, p);
    }
    assert CellsWhere(g, AnyCell) == mines + safe;
    assert mines * safe == {};
  }

  /** The revealed safe cells are all safe cells exactly when no safe cell
      is left unrevealed. */
  lemma ShownSafe(g: Grid)
    requires Shaped(g)
    ensures CellsWhere(g, IsRevealedSafe) <= CellsWhere(g, IsSafe)
    ensures CellsWhere(g, IsRevealedSafe) == CellsWhere(g, IsSafe) <==>
      forall r, c :: InBounds(g, r, c) && !At(g, r, c).isMine ==> At(g, r, c).state == Revealed
  {
    forall p
      ensures p in CellsWhere(g, IsRevealedSafe) <==> p in CellsWhere(g, IsSafe) && At(g, p.row, p.col).state == Revealed
    {
      InCellsWhere(g, IsRevealedSafe, p);
      InCellsWhere(g, IsSafe, p);
    }
    if forall r, c :: InBounds(g, r, c) && !At(g, r, c).isMine ==> At(g, r, c).state == Revealed {
      assert CellsWhere(g, IsRevealedSafe) == CellsWhere(g, IsSafe);
    }
    if CellsWhere(g, IsRevealedSafe) == CellsWhere(g, IsSafe) {
      forall r, c | InBounds(g, r, c) && !At(g, r, c).isMine
        ensures At(g, r, c).state == Revealed
      {
        InCellsWhere(g, IsSafe, Pos(r, c));
      }
    }
  }

  /** Once the mines are down, the win test holds exactly when every cell
      without a mine is revealed. */
  lemma WinIffAllSafeRevealed(b: Board)
    requires Inv(b) && !b.firstClick
    ensures CheckWin(b) <==>
      forall r, c :: InBounds(b.grid, r, c) && !At(b.grid, r, c).isMine ==> At(b.grid, r, c).state == Revealed
  {
    SafeCard(b.grid);
    ShownSafe(b.grid);
    SubsetCard(CellsWhere(b.grid, IsRevealedSafe), CellsWhere(b.grid, IsSafe));
  }

  /** Before the first click nothing is revealed, so the win test fails
      on any board with a cell left free of mines. */
  lemma NothingRevealedBeforeFirstClick(b: Board)
    requires Inv(b) && b.firstClick
    ensures b.revealed == 0
    ensures CheckWin(b) <==> b.grid.rows * b.grid.cols == b.totalMines
  {
    forall p | p in CellsWhere(b.grid, IsRevealedSafe)
      ensures p in CellsWhere(b.grid, IsRevealed)
    {
      InCellsWhere(b.grid, IsRevealedSafe, p);
      InCellsWhere(b.grid, IsRevealed, p);
    }
  }

  // ---------------------------------------------------------------------
  // Revealing

  /** Each cell is unchanged or went from hidden to revealed without a
      mine. */
  ghost predicate Grew(g: Grid, g': Grid) {
    && Shaped(g) && Shaped(g') && g'.rows == g.rows && g'.cols == g.cols
    && forall r, c :: InBounds(g, r, c) ==>
      (At(g', r, c) == At(g, r, c)
        || (At(g, r, c).state == Hidden && !At(g, r, c).isMine && At(g', r, c) == At(g, r, c).(state := Revealed)))
  }

  lemma GrewTrans(g: Grid, g': Grid, g'': Grid)
    requires Grew(g, g') && Grew(g', g'')
    ensures Grew(g, g'')
  {
  }

  /** Growing keeps the counts right, the flags and the mines, and the
      hidden cells can only shrink. */
  lemma GrewKeeps(g: Grid, g': Grid)
    requires Grew(g, g')
    ensures CountsCorrect(g) ==> CountsCorrect(g')
    ensures CellsWhere(g', IsHidden) <= CellsWhere(g, IsHidden)
    ensures CellsWhere(g', IsFlagged) == CellsWhere(g, IsFlagged)
    ensures CellsWhere(g', IsMine) == CellsWhere(g, IsMine)
  {
    if CountsCorrect(g) {
      SameMinesKeepCounts(g, g');
    }
    forall p | p in CellsWhere(g', IsHidden)
      ensures p in CellsWhere(g, IsHidden)
    {
      InCellsWhere(g', IsHidden, p);
      InCellsWhere(g, IsHidden, p);
    }
    SameCellsWhere(g, g', IsFlagged);
    SameCellsWhere(g, g', IsMine);
  }

  /** `cell.reveal()` on a hidden cell without a mine, with
      `revealedCount++`. */
  function RevealSafe(b: Board, r: int, c: int): (b': Board)
    requires Shaped(b.grid) && InBounds(b.grid, r, c)
    requires At(b.grid, r, c).state == Hidden && !At(b.grid, r, c).isMine
    ensures b' == b.(grid := b'.grid, revealed := b.revealed + 1)
    ensures Grew(b.grid, b'.grid) && At(b'.grid, r, c).state == Revealed
    ensures |CellsWhere(b'.grid, IsRevealedSafe)| == |CellsWhere(b.grid, IsRevealedSafe)| + 1
    ensures |CellsWhere(b'.grid, IsHidden)| == |CellsWhere(b.grid, IsHidden)| - 1
  {
    var v := Reveal(At(b.grid, r, c)).cell;
    PutCount(b.grid, r, c, v, IsRevealedSafe);
    PutCount(b.grid, r, c, v, IsHidden);
    b.(grid := Put(b.grid, r, c, v), revealed := b.revealed + 1)
  }

  /** What a flood from (row, col) needs: the cell is on the board, has
      no mine and counts no neighbouring mine. */
  ghost predicate FloodSource(g: Grid, row: int, col: int) {
    Shaped(g) && InBounds(g, row, col) && CountsCorrect(g) && !At(g, row, col).isMine && At(g, row, col).adjacent == 0
  }

  /** `revealAdjacentCells(row, col)`: every hidden neighbour, in the
      order of `Directions`, is revealed and counted, and the fill goes on
      from those that count no mine. Flagged cells are never touched, and
      no mine is revealed because the source cell counts none. Each step
      reveals a hidden cell, so the recursion ends. */
  function Flood(b: Board, row: int, col: int): (b': Board)
    requires FloodSource(b.grid, row, col)
    ensures b' == b.(grid := b'.grid, revealed := b'.revealed)
    ensures Grew(b.grid, b'.grid)
    ensures b'.revealed + |CellsWhere(b.grid, IsRevealedSafe)| == b.revealed + |CellsWhere(b'.grid, IsRevealedSafe)|
    ensures |CellsWhere(b'.grid, IsHidden)| <= |CellsWhere(b.grid, IsHidden)|
    decreases |CellsWhere(b.grid, IsHidden)|, |Directions| + 1
  {
    FloodFrom(b, row, col, 0)
  }

  /** The directions from index `i` on. */
  function FloodFrom(b: Board, row: int, col: int, i: nat): (b': Board)
    requires FloodSource(b.grid, row, col) && i <= |Directions|
    ensures b' == b.(grid := b'.grid, revealed := b'.revealed)
    ensures Grew(b.grid, b'.grid)
    ensures b'.revealed + |CellsWhere(b.grid, IsRevealedSafe)| == b.revealed + |CellsWhere(b'.grid, IsRevealedSafe)|
    ensures |CellsWhere(b'.grid, IsHidden)| <= |CellsWhere(b.grid, IsHidden)|
    decreases |CellsWhere(b.grid, IsHidden)|, |Directions| - i
  {
    if i == |Directions| then b
    else
      var r := row + Directions[i].0;
      var c := col + Directions[i].1;
      if InBounds(b.grid, r, c) && At(b.grid, r, c).state == Hidden then
        NoMineAround(b.grid, row, col, |Directions|, i);
        var b1 := RevealSafe(b, r, c);
        GrewKeeps(b.grid, b1.grid);
        SubsetCard(CellsWhere(b1.grid, IsHidden), CellsWhere(b.grid, IsHidden));
        var b2 := if At(b1.grid, r, c).adjacent == 0 then Flood(b1, r, c) else b1;
        GrewTrans(b.grid, b1.grid, b2.grid);
        GrewKeeps(b.grid, b2.grid);
        var b3 := FloodFrom(b2, row, col, i + 1);
        GrewTrans(b.grid, b2.grid, b3.grid);
        b3
      else
        FloodFrom(b, row, col, i + 1)
  }

  /** `revealAllMines`: every mine not under a flag is revealed. */
  function RevealAllMines(g: Grid): (g': Grid)
    requires Shaped(g)
    ensures Shaped(g') && g'.rows == g.rows && g'.cols == g.cols
    ensures forall r, c :: InBounds(g, r, c) ==>
      At(g', r, c) == if At(g, r, c).isMine && At(g, r, c).state != Flagged
        then At(g, r, c).(state := Revealed) else At(g, r, c)
  {
    g.(cells := seq(g.rows, r requires 0 <= r < g.rows =>
      seq(g.cols, c requires 0 <= c < g.cols =>
        if g.cells[r][c].isMine && g.cells[r][c].state != Flagged then Reveal(g.cells[r][c]).cell
        else g.cells[r][c])))
  }

  /** Revealing mines changes no counter's set and no count. */
  lemma RevealMinesKeeps(g: Grid, g': Grid)
    requires Shaped(g) && Shaped(g') && g.rows == g'.rows && g.cols == g'.cols && CountsCorrect(g)
    requires forall r, c :: InBounds(g, r, c) ==>
      At(g', r, c) == At(g, r, c)
        || (At(g, r, c).isMine && At(g, r, c).state != Flagged && At(g', r, c) == At(g, r, c).(state := Revealed))
    ensures CountsCorrect(g')
    ensures CellsWhere(g', IsRevealedSafe) == CellsWhere(g, IsRevealedSafe)
    ensures CellsWhere(g', IsFlagged) == CellsWhere(g, IsFlagged)
    ensures CellsWhere(g', IsMine) == CellsWhere(g, IsMine)
  {
    SameMinesKeepCounts(g, g');
    SameCellsWhere(g, g', IsRevealedSafe);
    SameCellsWhere(g, g', IsFlagged);
    SameCellsWhere(g, g', IsMine);
  }

  // ---------------------------------------------------------------------
  // Clicks

  /** The board after a click and whether a mine was hit. */
  datatype Click = Click(board: Board, hitMine: bool)

  /** The board of the first effective click: the mines laid out, the
      counts computed and `firstClick` cleared. */
  function Arm(b: Board, mines: set<Pos>): (b': Board)
    requires Shaped(b.grid)
    ensures b' == b.(grid := b'.grid, firstClick := false)
    ensures Shaped(b'.grid) && CountsCorrect(b'.grid)
    ensures b'.grid.rows == b.grid.rows && b'.grid.cols == b.grid.cols
    ensures forall r, c :: InBounds(b.grid, r, c) ==>
      At(b'.grid, r, c).state == At(b.grid, r, c).state && At(b'.grid, r, c).isMine == (Pos(r, c) in mines)
  {
    b.(grid := CalculateAdjacentMines(LayMines(b.grid, mines)), firstClick := false)
  }

  /** `handleCellClick`: a cell that is not hidden ignores the click. The
      first effective click lays out the mines (`mines`, the outcome of
      `PlaceMines`) around it. A mine ends in `revealAllMines`; otherwise
      the cell is counted as revealed and a cell counting no mine floods
      its neighbours. The counts are right on every board the class
      builds, which the flood relies on. */
  function HandleCellClick(b: Board, row: int, col: int, mines: set<Pos>): (k: Click)
    requires Shaped(b.grid) && CountsCorrect(b.grid) && InBounds(b.grid, row, col)
    ensures At(b.grid, row, col).state != Hidden ==> k == Click(b, false)
    ensures At(b.grid, row, col).state == Hidden ==> !k.board.firstClick
    ensures k.hitMine ==> At(b.grid, row, col).state == Hidden
  {
    if At(b.grid, row, col).state != Hidden then Click(b, false)
    else
      var b1 := if b.firstClick then Arm(b, mines) else b;
      var cell := At(b1.grid, row, col);
      if cell.isMine then
        Click(b1.(grid := RevealAllMines(Put(b1.grid, row, col, Reveal(cell).cell))), true)
      else
        var b2 := RevealSafe(b1, row, col);
        GrewKeeps(b1.grid, b2.grid);
        if cell.adjacent == 0 then Click(Flood(b2, row, col), false) else Click(b2, false)
  }

  lemma ArmKeepsInv(b: Board, row: int, col: int, mines: set<Pos>)
    requires Inv(b) && b.firstClick && ValidLayout(b, row, col, mines)
    ensures Inv(Arm(b, mines)) && Pos(row, col) !in mines
  {
    var g, g' := b.grid, Arm(b, mines).grid;
    forall p
      ensures p in CellsWhere(g', IsMine) <==> p in mines
      ensures p !in CellsWhere(g', IsRevealedSafe)
      ensures p !in CellsWhere(g, IsRevealedSafe)
    {
      InCellsWhere(g', IsMine, p);
      InCellsWhere(g', IsRevealedSafe, p);
      InCellsWhere(g, IsRevealedSafe, p);
      InCellsWhere(g, IsRevealed, p);
    }
    assert CellsWhere(g', IsMine) == mines;
    assert CellsWhere(g', IsRevealedSafe) == CellsWhere(g, IsRevealedSafe);
    SameCellsWhere(g, g', IsFlagged);
  }

  /** A hidden mine clicked: the cell and then every unflagged mine shown. */
  lemma HitKeepsInv(b: Board, row: int, col: int)
    requires Inv(b) && !b.firstClick && InBounds(b.grid, row, col)
    requires At(b.grid, row, col).state == Hidden && At(b.grid, row, col).isMine
    ensures var cell := At(b.grid, row, col);
      Inv(b.(grid := RevealAllMines(Put(b.grid, row, col, Reveal(cell).cell))))
  {
    var cell := At(b.grid, row, col);
    var g1 := Put(b.grid, row, col, Reveal(cell).cell);
    RevealMinesKeeps(b.grid, g1);
    RevealMinesKeeps(g1, RevealAllMines(g1));
  }

  /** A hidden safe cell clicked: revealed and counted, then flooded. */
  lemma SafeClickKeepsInv(b: Board, row: int, col: int)
    requires Inv(b) && !b.firstClick && InBounds(b.grid, row, col)
    requires At(b.grid, row, col).state == Hidden && !At(b.grid, row, col).isMine
    ensures var b2 := RevealSafe(b, row, col);
      Inv(b2) && (At(b.grid, row, col).adjacent == 0 ==> FloodSource(b2.grid, row, col) && Inv(Flood(b2, row, col)))
  {
    var b2 := RevealSafe(b, row, col);
    GrewKeeps(b.grid, b2.grid);
    if At(b.grid, row, col).adjacent == 0 {
      var b3 := Flood(b2, row, col);
      GrewKeeps(b2.grid, b3.grid);
    }
  }

  /** A click keeps the invariant. A hit leaves the revealed count alone
      and shows every unflagged mine; the first click never hits, since
      the clicked cell is in its own safe block. */
  lemma HandleCellClickKeepsInv(b: Board, row: int, col: int, mines: set<Pos>)
    requires Inv(b) && InBounds(b.grid, row, col)
    requires b.firstClick && At(b.grid, row, col).state == Hidden ==> ValidLayout(b, row, col, mines)
    ensures var k := HandleCellClick(b, row, col, mines);
      && Inv(k.board)
      && (b.firstClick ==> !k.hitMine)
      && (k.hitMine ==> k.board.revealed == b.revealed)
      && (k.hitMine ==> forall r, c :: (InBounds(b.grid, r, c) && At(k.board.grid, r, c).isMine
            && At(k.board.grid, r, c).state != Flagged) ==> At(k.board.grid, r, c).state == Revealed)
  {
    if At(b.grid, row, col).state == Hidden {
      var b1 := if b.firstClick then Arm(b, mines) else b;
      if b.firstClick {
        ArmKeepsInv(b, row, col, mines);
      }
      if At(b1.grid, row, col).isMine {
        HitKeepsInv(b1, row, col);
      } else {
        SafeClickKeepsInv(b1, row, col);
      }
    }
  }

  // ---------------------------------------------------------------------
  // Flags

  /** The board after a right click and the flag count it returns. */
  datatype Flagging = Flagging(board: Board, count: int)

  /** `toggleFlag`: a revealed cell is left alone; otherwise the cell's
      flag flips and `flaggedCount` follows it by one. */
  function ToggleFlagAt(b: Board, row: int, col: int): (f: Flagging)
    requires Shaped(b.grid) && InBounds(b.grid, row, col)
    ensures f.count == f.board.flagged
    ensures At(b.grid, row, col).state == Revealed ==> f.board == b
    ensures At(b.grid, row, col).state != Revealed ==>
      f.board == b.(grid := Put(b.grid, row, col, ToggleFlag(At(b.grid, row, col)).cell), flagged := f.count)
      && f.count == b.flagged + (if At(b.grid, row, col).state == Hidden then 1 else -1)
  {
    var cell := At(b.grid, row, col);
    if cell.state == Revealed then Flagging(b, b.flagged)
    else
      var t := ToggleFlag(cell);
      var count := if t.result then b.flagged + 1 else b.flagged - 1;
      Flagging(b.(grid := Put(b.grid, row, col, t.cell), flagged := count), count)
  }

  /** Flagging keeps the flag counter equal to the flagged cells, and the
      rest of the invariant. */
  lemma ToggleFlagKeepsInv(b: Board, row: int, col: int)
    requires Inv(b) && InBounds(b.grid, row, col)
    ensures Inv(ToggleFlagAt(b, row, col).board)
  {
    var cell := At(b.grid, row, col);
    if cell.state != Revealed {
      var v := ToggleFlag(cell).cell;
      var g' := Put(b.grid, row, col, v);
      PutCount(b.grid, row, col, v, IsFlagged);
      SameCellsWhere(b.grid, g', IsRevealedSafe);
      SameCellsWhere(b.grid, g', IsRevealed);
      SameCellsWhere(b.grid, g', IsMine);
      SameMinesKeepCounts(b.grid, g');
    }
  }

  // ---------------------------------------------------------------------
  // Reset

  /** `reset` (and the constructor's `initializeBoard`): every cell back
      to its initial state, both counters 0, waiting for the first click. */
  function Reset(b: Board): (b': Board)
    ensures Inv(b')
    ensures b'.grid.rows == b.grid.rows && b'.grid.cols == b.grid.cols && b'.totalMines == b.totalMines
    ensures b'.flagged == 0 && b'.revealed == 0 && b'.firstClick
    ensures forall r, c :: InBounds(b'.grid, r, c) ==> At(b'.grid, r, c) == NewCell()
  {
    var b' := Board(Grid(b.grid.rows, b.grid.cols, seq(b.grid.rows, _ => seq(b.grid.cols, _ => NewCell()))),
                    b.totalMines, 0, 0, true);
    FreshInv(b');
    b'
  }

  function NewBoard(rows: nat, cols: nat, mines: nat): (b: Board)
    ensures b.grid.rows == rows && b.grid.cols == cols && b.totalMines == mines
    ensures Inv(b) && b.firstClick
  {
    Reset(Board(Grid(rows, cols, []), mines, 0, 0, true))
  }

  /** A board of fresh cells with zero counters satisfies the invariant. */
  lemma FreshInv(b: Board)
    requires Shaped(b.grid) && b.flagged == 0 && b.revealed == 0 && b.firstClick
    requires forall r, c :: InBounds(b.grid, r, c) ==> At(b.grid, r, c) == NewCell()
    ensures Inv(b)
  {
    var g := b.grid;
    forall p
      ensures p !in CellsWhere(g, IsRevealedSafe) && p !in CellsWhere(g, IsFlagged)
      ensures p !in CellsWhere(g, IsMine) && p !in CellsWhere(g, IsRevealed)
    {
      InCellsWhere(g, IsRevealedSafe, p);
      InCellsWhere(g, IsFlagged, p);
      InCellsWhere(g, IsMine, p);
      InCellsWhere(g, IsRevealed, p);
    }
    forall r, c | InBounds(g, r, c)
      ensures CountAround(g, r, c, |Directions|) == 0
    {
      NoMinesCount(g, r, c, |Directions|);
    }
    assert CellsWhere(g, IsRevealedSafe) == {};
    assert CellsWhere(g, IsFlagged) == {};
  }

  lemma {:induction false} NoMinesCount(g: Grid, row: int, col: int, n: nat)
    requires Shaped(g) && n <= |Directions|
    requires forall r, c :: InBounds(g, r, c) ==> !At(g, r, c).isMine
    ensures CountAround(g, row, col, n) == 0
  {
    if n > 0 {
      NoMinesCount(g, row, col, n - 1);
    }
  }
}
