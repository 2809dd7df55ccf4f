/** Connect Four of games/connect4/connect4.js: gravity drops into a
    6-by-7 grid, the run count of `checkDirection`, the win test of
    `checkWin` along four axes, the draw and the turn alternation of
    `makeMove`. Row 0 is the top row; pieces fall toward row 5. */
module Connect4 {

  const Rows: int := 6
  const Cols: int := 7
  /** Pieces in a row needed to win. */
  const Connect: int := 4

  /** 0 is an empty cell, 1 and 2 the players' pieces. */
  type Board = seq<seq<int>>

  predicate IsBoard(b: Board) {
    |b| == Rows && forall r :: 0 <= r < Rows ==> |b[r]| == Cols
  }

  predicate InBounds(r: int, c: int) {
    0 <= r < Rows && 0 <= c < Cols
  }

  /** The player not to move next. */
  function Other(p: int): (q: int)
    ensures p == 1 ==> q == 2
    ensures p == 2 ==> q == 1
  {
    if p == 1 then 2 else 1
  }

  // ---------------------------------------------------------------------
  // Runs of pieces

  /** The four axes `checkWin` tries, in its order. */
  datatype Axis = Horizontal | Vertical | Rising | Falling

  function Dr(a: Axis): int {
    match a
    case Horizontal => 0
    case Vertical => 1
    case Rising => -1
    case Falling => 1
  }

  function Dc(a: Axis): int {
    match a
    case Horizontal => 1
    case Vertical => 0
    case Rising => 1
    case Falling => 1
  }

  /** A step of a ray: each coordinate moves by at most one, not both zero. */
  predicate IsStep(dr: int, dc: int) {
    -1 <= dr <= 1 && -1 <= dc <= 1 && (dr != 0 || dc != 0)
  }

  /** Coordinate `x` moved `j` steps of sign `d`. */
  function At(x: int, d: int, j: int): int {
    if d > 0 then x + j else if d < 0 then x - j else x
  }

  /** How far a ray from an on-board cell can still travel. */
  function Reach(row: int, col: int, dr: int, dc: int): nat
    requires InBounds(row, col)
  {
    (if dr > 0 then Rows - row else if dr < 0 then row + 1 else 0)
      + (if dc > 0 then Cols - col else if dc < 0 then col + 1 else 0)
  }

  /** The number of consecutive pieces of `p` beyond (row, col) along the
      step (dr, dc), stopping at the edge or the first other cell. */
  function Run(b: Board, row: int, col: int, dr: int, dc: int, p: int): nat
    requires IsBoard(b) && InBounds(row, col) && IsStep(dr, dc)
    decreases Reach(row, col, dr, dc)
  {
    if InBounds(row + dr, col + dc) && b[row + dr][col + dc] == p then
      1 + Run(b, row + dr, col + dc, dr, dc, p)
    else 0
  }

  /** The cell `j` steps from (row, col) is on the board and holds `p`. */
  predicate Owned(b: Board, row: int, col: int, dr: int, dc: int, p: int, j: int)
    requires IsBoard(b)
  {
    var r := At(row, dr, j);
    var c := At(col, dc, j);
    InBounds(r, c) && b[r][c] == p
  }

  /** The reference meaning of a win: four cells of `p` in a row along
      axis `a`, one of them (row, col). */
  predicate FourThrough(b: Board, row: int, col: int, a: Axis, p: int)
    requires IsBoard(b)
  {
    exists s :: -Connect < s <= 0 && Window(b, row, col, Dr(a), Dc(a), p, s)
  }

  /** The `Connect` cells from step `s` on all hold `p`. */
  predicate Window(b: Board, row: int, col: int, dr: int, dc: int, p: int, s: int)
    requires IsBoard(b)
  {
    forall j :: s <= j < s + Connect ==> Owned(b, row, col, dr, dc, p, j)
  }

  /** Every cell a run counts holds `p`. */
  lemma {:induction false} RunOwned(b: Board, row: int, col: int, dr: int, dc: int, p: int, j: int)
    requires IsBoard(b) && InBounds(row, col) && IsStep(dr, dc)
    requires 1 <= j <= Run(b, row, col, dr, dc, p)
    ensures Owned(b, row, col, dr, dc, p, j)
    decreases j
  {
    if j > 1 {
      RunOwned(b, row + dr, col + dc, dr, dc, p, j - 1);
      assert At(row + dr, dr, j - 1) == At(row, dr, j);
      assert At(col + dc, dc, j - 1) == At(col, dc, j);
    }
  }

  /** A run counts at least every leading stretch of cells holding `p`. */
  lemma {:induction false} RunAtLeast(b: Board, row: int, col: int, dr: int, dc: int, p: int, m: nat)
    requires IsBoard(b) && InBounds(row, col) && IsStep(dr, dc)
    requires forall j :: 1 <= j <= m ==> Owned(b, row, col, dr, dc, p, j)
    ensures Run(b, row, col, dr, dc, p) >= m
    decreases m
  {
    if m > 0 {
      assert Owned(b, row, col, dr, dc, p, 1);
      var nr, nc := row + dr, col + dc;
      forall j | 1 <= j <= m - 1
        ensures Owned(b, nr, nc, dr, dc, p, j)
      {
        assert Owned(b, row, col, dr, dc, p, j + 1);
        assert At(nr, dr, j) == At(row, dr, j + 1);
        assert At(nc, dc, j) == At(col, dc, j + 1);
      }
      RunAtLeast(b, nr, nc, dr, dc, p, m - 1);
    }
  }

  /** The run through (row, col) along `a`: the cell itself and both
      directions, as `checkDirection` counts it. */
  function Line(b: Board, row: int, col: int, a: Axis, p: int): nat
    requires IsBoard(b) && InBounds(row, col)
  {
    1 + Run(b, row, col, Dr(a), Dc(a), p) + Run(b, row, col, -Dr(a), -Dc(a), p)
  }

  /** Looking back is looking forward with the step reversed. */
  lemma Backward(b: Board, row: int, col: int, dr: int, dc: int, p: int, j: int)
    requires IsBoard(b)
    ensures Owned(b, row, col, -dr, -dc, p, j) == Owned(b, row, col, dr, dc, p, -j)
  {
    assert At(row, -dr, j) == At(row, dr, -j);
    assert At(col, -dc, j) == At(col, dc, -j);
  }

  /** The count reaches four exactly when four pieces in a row pass
      through the cell. */
  lemma LineIffFour(b: Board, row: int, col: int, a: Axis)
    requires IsBoard(b) && InBounds(row, col)
    ensures var p := b[row][col];
      Line(b, row, col, a, p) >= Connect <==> FourThrough(b, row, col, a, p)
  {
    var p := b[row][col];
    var dr, dc := Dr(a), Dc(a);
    var br, bc := -dr, -dc;
    var f := Run(b, row, col, dr, dc, p);
    var k := Run(b, row, col, br, bc, p);
    assert Owned(b, row, col, dr, dc, p, 0);
    if f + k + 1 >= Connect {
      var s := if k >= 3 then -3 else -k;
      forall j | s <= j < s + Connect
        ensures Owned(b, row, col, dr, dc, p, j)
      {
        if j < 0 {
          RunOwned(b, row, col, br, bc, p, -j);
          Backward(b, row, col, dr, dc, p, -j);
        } else if j > 0 {
          RunOwned(b, row, col, dr, dc, p, j);
        }
      }
      assert Window(b, row, col, dr, dc, p, s);
    }
    if FourThrough(b, row, col, a, p) {
      var s :| -Connect < s <= 0 && Window(b, row, col, dr, dc, p, s);
      RunAtLeast(b, row, col, dr, dc, p, s + 3);
      forall j | 1 <= j <= -s
        ensures Owned(b, row, col, br, bc, p, j)
      {
        Backward(b, row, col, dr, dc, p, j);
      }
      RunAtLeast(b, row, col, br, bc, p, -s);
    }
  }

  /** `checkDirection`, with its two loops: count the piece itself, then
      walk forward and backward while the cells hold `player`. */
  method CheckDirection(b: Board, row: int, col: int, dr: int, dc: int, player: int)
    returns (found: bool)
    requires IsBoard(b) && InBounds(row, col) && IsStep(dr, dc)
    ensures found <==> 1 + Run(b, row, col, dr, dc, player) + Run(b, row, col, -dr, -dc, player) >= Connect
  {
    var count := 1;
    var r := row + dr;
    var c := col + dc;
    ghost var pr, pc := row, col;
    while InBounds(r, c) && b[r][c] == player
      invariant InBounds(pr, pc) && r == pr + dr && c == pc + dc
      invariant count - 1 + Run(b, pr, pc, dr, dc, player) == Run(b, row, col, dr, dc, player)
      decreases Reach(pr, pc, dr, dc)
    {
      count := count + 1;
      pr, pc := r, c;
      r := r + dr;
      c := c + dc;
    }
    ghost var forward := count - 1;
    r := row - dr;
    c := col - dc;
    pr, pc := row, col;
    while InBounds(r, c) && b[r][c] == player
      invariant InBounds(pr, pc) && r == pr - dr && c == pc - dc
      invariant forward == Run(b, row, col, dr, dc, player)
      invariant count - 1 - forward + Run(b, pr, pc, -dr, -dc, player) == Run(b, row, col, -dr, -dc, player)
      decreases Reach(pr, pc, -dr, -dc)
    {
      count := count + 1;
      pr, pc := r, c;
      r := r - dr;
      c := c - dc;
    }
    found := count >= Connect;
  }

  /** The piece on (row, col) completes a run of four on some axis. */
  predicate Wins(b: Board, row: int, col: int)
    requires IsBoard(b) && InBounds(row, col)
  {
    var p := b[row][col];
    || Line(b, row, col, Horizontal, p) >= Connect
    || Line(b, row, col, Vertical, p) >= Connect
    || Line(b, row, col, Rising, p) >= Connect
    || Line(b, row, col, Falling, p) >= Connect
  }

  /** `checkWin`: the four axes in turn. */
  method CheckWin(b: Board, row: int, col: int) returns (won: bool)
    requires IsBoard(b) && InBounds(row, col)
    ensures won <==> Wins(b, row, col)
  {
    var player := b[row][col];
    won := CheckDirection(b, row, col, 0, 1, player);
    if won {
      return;
    }
    won := CheckDirection(b, row, col, 1, 0, player);
    if won {
      return;
    }
    won := CheckDirection(b, row, col, -1, 1, player);
    if won {
      return;
    }
    won := CheckDirection(b, row, col, 1, 1, player);
  }

  /** `Wins` is the reference win: four in a row through the cell. */
  lemma WinsIffFour(b: Board, row: int, col: int)
    requires IsBoard(b) && InBounds(row, col)
    ensures Wins(b, row, col) <==> exists a :: FourThrough(b, row, col, a, b[row][col])
  {
    var p := b[row][col];
    forall a: Axis
      ensures FourThrough(b, row, col, a, p) <==> Line(b, row, col, a, p) >= Connect
    {
      LineIffFour(b, row, col, a);
    }
    if exists a :: FourThrough(b, row, col, a, p) {
      var a :| FourThrough(b, row, col, a, p);
      match a
      case Horizontal =>
      case Vertical =>
      case Rising =>
      case Falling =>
    }
  }

  // ---------------------------------------------------------------------
  // Counting and gravity

  /** Non-empty cells among the first `n` of a row. */
  function CountRow(row: seq<int>, n: nat): (k: nat)
    requires n <= |row|
    ensures k <= n
  {
    if n == 0 then 0 else CountRow(row, n - 1) + (if row[n - 1] != 0 then 1 else 0)
  }

  /** Non-empty cells among the first `n` rows. */
  function FilledUpTo(b: Board, n: nat): (k: nat)
    requires IsBoard(b) && n <= Rows
    ensures k <= n * Cols
  {
    if n == 0 then 0 else FilledUpTo(b, n - 1) + CountRow(b[n - 1], Cols)
  }

  function Filled(b: Board): (k: nat)
    requires IsBoard(b)
    ensures k <= Rows * Cols
  {
    FilledUpTo(b, Rows)
  }

  lemma {:induction false} CountRowSet(row: seq<int>, c: nat, v: int, n: nat)
    requires c < |row| && n <= |row| && row[c] == 0 && v != 0
    ensures CountRow(row[c := v], n) == CountRow(row, n) + (if c < n then 1 else 0)
  {
    if n > 0 {
      CountRowSet(row, c, v, n - 1);
    }
  }

  lemma {:induction false} FilledSet(b: Board, r: nat, c: nat, v: int, n: nat)
    requires IsBoard(b) && r < Rows && c < Cols && n <= Rows && b[r][c] == 0 && v != 0
    ensures IsBoard(b[r := b[r][c := v]])
    ensures FilledUpTo(b[r := b[r][c := v]], n) == FilledUpTo(b, n) + (if r < n then 1 else 0)
  {
    if n > 0 {
      FilledSet(b, r, c, v, n - 1);
      if n - 1 == r {
        CountRowSet(b[r], c, v, Cols);
      }
    }
  }

  /** Gravity: no empty cell lies below a piece. */
  predicate Packed(b: Board)
    requires IsBoard(b)
  {
    forall r, c :: 0 <= r < Rows - 1 && 0 <= c < Cols ==> Supported(b, r, c)
  }

  /** A piece on (r, c) has a piece under it. */
  predicate Supported(b: Board, r: int, c: int)
    requires IsBoard(b) && 0 <= r < Rows - 1 && 0 <= c < Cols
  {
    b[r][c] != 0 ==> b[r + 1][c] != 0
  }

  /** The scan of `makeMove` from row `r` upward: the lowest empty cell of
      the column, or -1 when rows 0..r are all taken. */
  function LowestEmpty(b: Board, col: int, r: int): (row: int)
    requires IsBoard(b) && 0 <= col < Cols && -1 <= r < Rows
    ensures -1 <= row <= r
    ensures row >= 0 ==> b[row][col] == 0
    ensures forall k :: row < k <= r ==> b[k][col] != 0
    decreases r + 1
  {
    if r < 0 then -1
    else if b[r][col] == 0 then r
    else LowestEmpty(b, col, r - 1)
  }

  function DropRow(b: Board, col: int): (row: int)
    requires IsBoard(b) && 0 <= col < Cols
    ensures row == -1 <==> forall k :: 0 <= k < Rows ==> b[k][col] != 0
    ensures row >= 0 ==>
      row < Rows && b[row][col] == 0 && forall k :: row < k < Rows ==> b[k][col] != 0
  {
    LowestEmpty(b, col, Rows - 1)
  }

  /** Dropping into the lowest empty cell keeps the board packed. */
  lemma DropKeepsPacked(b: Board, col: int, v: int)
    requires IsBoard(b) && Packed(b) && 0 <= col < Cols && DropRow(b, col) >= 0 && v != 0
    ensures var row := DropRow(b, col);
      IsBoard(b[row := b[row][col := v]]) && Packed(b[row := b[row][col := v]])
  {
    var row := DropRow(b, col);
    var b' := b[row := b[row][col := v]];
    forall r, c | 0 <= r < Rows - 1 && 0 <= c < Cols
      ensures Supported(b', r, c)
    {
      assert Supported(b, r, c);
    }
  }

  // ---------------------------------------------------------------------
  // Wins anywhere on the board

  /** Some four in a row, anywhere. */
  ghost predicate AnyFour(b: Board)
    requires IsBoard(b)
  {
    exists row, col, a :: InBounds(row, col) && b[row][col] != 0 && FourThrough(b, row, col, a, b[row][col])
  }

  /** A four on the board after one drop that was not there before runs
      through the dropped piece. */
  lemma NewFourThroughDrop(b: Board, r0: int, c0: int, v: int)
    requires IsBoard(b) && InBounds(r0, c0) && b[r0][c0] == 0 && v != 0
    requires !AnyFour(b)
    ensures var b' := b[r0 := b[r0][c0 := v]];
      IsBoard(b') && (AnyFour(b') <==> exists a :: FourThrough(b', r0, c0, a, v))
  {
    var b' := b[r0 := b[r0][c0 := v]];
    if AnyFour(b') {
      var row, col, a :| InBounds(row, col) && b'[row][col] != 0 && FourThrough(b', row, col, a, b'[row][col]);
      var p := b'[row][col];
      var dr, dc := Dr(a), Dc(a);
      var s :| -Connect < s <= 0 && Window(b', row, col, dr, dc, p, s);
      if j0 :| s <= j0 < s + Connect && At(row, dr, j0) == r0 && At(col, dc, j0) == c0 {
        assert Owned(b', row, col, dr, dc, p, j0);
        assert p == v;
        forall j | s - j0 <= j < s - j0 + Connect
          ensures Owned(b', r0, c0, dr, dc, v, j)
        {
          assert Owned(b', row, col, dr, dc, p, j + j0);
          assert At(r0, dr, j) == At(row, dr, j + j0);
          assert At(c0, dc, j) == At(col, dc, j + j0);
        }
        assert Window(b', r0, c0, dr, dc, v, s - j0);
        assert -Connect < s - j0 <= 0;
        assert FourThrough(b', r0, c0, a, v);
      } else {
        assert Owned(b', row, col, dr, dc, p, 0);
        forall j | s <= j < s + Connect
          ensures Owned(b, row, col, dr, dc, p, j)
        {
          assert Owned(b', row, col, dr, dc, p, j);
        }
        assert b[row][col] == p;
        assert Window(b, row, col, dr, dc, p, s);
        assert FourThrough(b, row, col, a, b[row][col]);
        assert false;
      }
    }
    if exists a :: FourThrough(b', r0, c0, a, v) {
      var a :| FourThrough(b', r0, c0, a, v);
      assert b'[r0][c0] == v;
      assert InBounds(r0, c0) && b'[r0][c0] != 0 && FourThrough(b', r0, c0, a, b'[r0][c0]);
    }
  }

  // ---------------------------------------------------------------------
  // The game

  /** `gameBoard`, `currentPlayer`, `movesCount`, `gameActive`. */
  datatype Game = Game(board: Board, player: int, moves: nat, active: bool)

  /** What a click on a column did: nothing, a move with play going on,
      a winning move or the drawing last move. */
  datatype Outcome = Ignored | Continued | Won | Drawn

  datatype Turn = Turn(game: Game, outcome: Outcome)

  /** `initGame`: an empty board, player 1 to move. */
  function NewGame(): (g: Game)
    ensures IsBoard(g.board) && forall r, c :: InBounds(r, c) ==> g.board[r][c] == 0
    ensures g.player == 1 && g.moves == 0 && g.active
  {
    Game(seq(Rows, _ => seq(Cols, _ => 0)), 1, 0, true)
  }

  /** `makeMove(col)`: nothing happens while the game is inactive or the
      column is full. Otherwise the player's piece lands in the lowest
      empty cell; a win or a full board ends the game with the player
      unchanged, and otherwise the other player moves next. */
  function MakeMove(g: Game, col: int): (t: Turn)
    requires IsBoard(g.board) && 0 <= col < Cols
    ensures IsBoard(t.game.board)
    ensures t.outcome == Ignored <==> !g.active || forall k :: 0 <= k < Rows ==> g.board[k][col] != 0
    ensures t.outcome == Ignored ==> t.game == g
    ensures t.outcome != Ignored ==>
      var row := DropRow(g.board, col);
      && row >= 0
      && t.game.board == g.board[row := g.board[row][col := g.player]]
      && t.game.moves == g.moves + 1
      && (t.outcome == Won <==> Wins(t.game.board, row, col))
      && (t.outcome == Drawn <==> !Wins(t.game.board, row, col) && t.game.moves == Rows * Cols)
    ensures t.outcome == Won || t.outcome == Drawn ==> !t.game.active && t.game.player == g.player
    ensures t.outcome == Continued ==> t.game.active && t.game.player == Other(g.player)
  {
    if !g.active then Turn(g, Ignored)
    else
      var row := DropRow(g.board, col);
      if row == -1 then Turn(g, Ignored)
      else
        var b := g.board[row := g.board[row][col := g.player]];
        var moves := g.moves + 1;
        if Wins(b, row, col) then Turn(Game(b, g.player, moves, false), Won)
        else if moves == Rows * Cols then Turn(Game(b, g.player, moves, false), Drawn)
        else Turn(Game(b, Other(g.player), moves, true), Continued)
  }

  /** What every reachable game satisfies: a packed board of pieces 0, 1
      and 2, a move counter equal to the pieces on the board, and while
      play goes on, no four in a row and room for another piece. */
  ghost predicate Inv(g: Game) {
    && IsBoard(g.board)
    && (forall r, c :: InBounds(r, c) ==> 0 <= g.board[r][c] <= 2)
    && (g.player == 1 || g.player == 2)
    && Packed(g.board)
    && g.moves == Filled(g.board)
    && (g.active ==> !AnyFour(g.board) && g.moves < Rows * Cols)
  }

  lemma NewGameInv()
    ensures Inv(NewGame())
  {
    var g := NewGame();
    assert FilledUpTo(g.board, 0) == 0;
    assert FilledUpTo(g.board, Rows) == 0 by {
      forall n | 0 <= n <= Rows
        ensures FilledUpTo(g.board, n) == 0
      {
        EmptyRows(g.board, n);
      }
    }
  }

  lemma {:induction false} EmptyRows(b: Board, n: nat)
    requires IsBoard(b) && n <= Rows && forall r, c :: InBounds(r, c) ==> b[r][c] == 0
    ensures FilledUpTo(b, n) == 0
  {
    if n > 0 {
      EmptyRows(b, n - 1);
      EmptyCount(b[n - 1], Cols);
    }
  }

  lemma {:induction false} EmptyCount(row: seq<int>, n: nat)
    requires n <= |row| && forall c :: 0 <= c < |row| ==> row[c] == 0
    ensures CountRow(row, n) == 0
  {
    if n > 0 {
      EmptyCount(row, n - 1);
    }
  }

  /** A move keeps the invariant, and a move is a win exactly when the
      board now shows four in a row somewhere. */
  lemma MakeMoveKeepsInv(g: Game, col: int)
    requires Inv(g) && 0 <= col < Cols
    ensures Inv(MakeMove(g, col).game)
    ensures var t := MakeMove(g, col);
      t.outcome != Ignored ==> (t.outcome == Won <==> AnyFour(t.game.board))
  {
    var t := MakeMove(g, col);
    if t.outcome != Ignored {
      var row := DropRow(g.board, col);
      var b := t.game.board;
      FilledSet(g.board, row, col, g.player, Rows);
      DropKeepsPacked(g.board, col, g.player);
      NewFourThroughDrop(g.board, row, col, g.player);
      WinsIffFour(b, row, col);
      assert b[row][col] == g.player;
    }
  }
}
