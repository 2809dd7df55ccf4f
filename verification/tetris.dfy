/** The rules of games/tetris/tetris.js without the canvas and the frame
    loop: the 20-by-10 well, collision, locking a piece, rotation with its
    wall kicks, the drops, the line sweep with the level it raises, the
    score update and the key handler. A piece matrix is a value here; the
    source shares and mutates the entries of `PIECES`. */
module Tetris {
  import opened Optional

  const Width := 10
  const Height := 20

  /** Rows of cells, 0 for empty and a colour index otherwise. */
  type Matrix = seq<seq<int>>

  /** `PIECES`: I, J, L, O, S, T and Z. */
  const Pieces: seq<Matrix> := [
    [[0, 0, 0, 0], [1, 1, 1, 1], [0, 0, 0, 0], [0, 0, 0, 0]],
    [[2, 0, 0], [2, 2, 2], [0, 0, 0]],
    [[0, 0, 3], [3, 3, 3], [0, 0, 0]],
    [[4, 4], [4, 4]],
    [[0, 5, 5], [5, 5, 0], [0, 0, 0]],
    [[0, 6, 0], [6, 6, 6], [0, 0, 0]],
    [[7, 7, 0], [0, 7, 7], [0, 0, 0]]
  ]

  /** `linePoints` of `updateScore`, indexed by lines cleared. */
  const LinePoints: seq<int> := [0, 100, 300, 500, 800]

  predicate IsSquare(m: Matrix) {
    |m| > 0 && forall i :: 0 <= i < |m| ==> |m[i]| == |m|
  }

  predicate HasBlock(m: Matrix) {
    exists i, j :: 0 <= i < |m| && 0 <= j < |m[i]| && m[i][j] != 0
  }

  /** What every piece matrix is: square, at most 4 wide, with a block. */
  predicate IsShape(m: Matrix) {
    IsSquare(m) && |m| <= 4 && HasBlock(m)
  }

  lemma PieceIsShape(k: nat)
    requires k < |Pieces|
    ensures IsShape(Pieces[k])
  {
    assert Pieces[k][1][1] != 0;
  }

  /** The well: `createMatrix(BOARD_WIDTH, BOARD_HEIGHT)`. */
  predicate IsBoard(b: Matrix) {
    |b| == Height && forall r :: 0 <= r < Height ==> |b[r]| == Width
  }

  function EmptyRow(): (row: seq<int>)
    ensures |row| == Width && forall c :: 0 <= c < Width ==> row[c] == 0
  {
    seq(Width, _ => 0)
  }

  function EmptyRows(k: nat): (rows: Matrix)
    ensures |rows| == k && forall i :: 0 <= i < k ==> rows[i] == EmptyRow()
  {
    seq(k, i => EmptyRow())
  }

  /** The piece: its matrix and `pos`. */
  datatype Player = Player(matrix: Matrix, x: int, y: int)

  // ---------------------------------------------------------------------
  // Collision and merge

  /** `(board[r] && board[r][c]) !== 0`: a missing row or column counts
      as taken, as does a non-zero cell. */
  predicate Blocked(b: Matrix, r: int, c: int)
    requires IsBoard(b)
  {
    !(0 <= r < Height && 0 <= c < Width) || b[r][c] != 0
  }

  /** Some block of the piece is off the board or on a taken cell. */
  predicate Collides(b: Matrix, p: Player)
    requires IsBoard(b)
  {
    exists i, j :: 0 <= i < |p.matrix| && 0 <= j < |p.matrix[i]| && p.matrix[i][j] != 0 && Blocked(b, p.y + i, p.x + j)
  }

  /** `collide`: the two loops over the piece matrix, stopping at the
      first block that is off the board or on a taken cell. */
  method Collide(b: Matrix, p: Player) returns (hit: bool)
    requires IsBoard(b)
    ensures hit <==> Collides(b, p)
  {
    var m := p.matrix;
    var i := 0;
    while i < |m|
      invariant 0 <= i <= |m|
      invariant forall i', j :: 0 <= i' < i && 0 <= j < |m[i']| && m[i'][j] != 0 ==> !Blocked(b, p.y + i', p.x + j)
    {
      var j := 0;
      while j < |m[i]|
        invariant 0 <= j <= |m[i]|
        invariant forall j' :: 0 <= j' < j && m[i][j'] != 0 ==> !Blocked(b, p.y + i, p.x + j')
      {
        if m[i][j] != 0 && Blocked(b, p.y + i, p.x + j) {
          return true;
        }
        j := j + 1;
      }
      i := i + 1;
    }
    return false;
  }

  /** A piece with a block that fits is above the floor. */
  lemma AboveFloor(b: Matrix, p: Player)
    requires IsBoard(b) && HasBlock(p.matrix) && !Collides(b, p)
    ensures p.y < Height
  {
    var i, j :| 0 <= i < |p.matrix| && 0 <= j < |p.matrix[i]| && p.matrix[i][j] != 0;
    assert !Blocked(b, p.y + i, p.x + j);
  }

  /** The piece has a block over board cell (r, c). */
  predicate Under(p: Player, r: int, c: int) {
    0 <= r - p.y < |p.matrix| && 0 <= c - p.x < |p.matrix[r - p.y]| && p.matrix[r - p.y][c - p.x] != 0
  }

  /** `merge`: the piece's blocks are written into the board; every other
      cell keeps its value. */
  function Merge(b: Matrix, p: Player): (b': Matrix)
    requires IsBoard(b)
    ensures IsBoard(b')
    ensures forall r, c :: 0 <= r < Height && 0 <= c < Width && !Under(p, r, c) ==> b'[r][c] == b[r][c]
    ensures forall i, j :: (0 <= i < |p.matrix| && 0 <= j < |p.matrix[i]| && p.matrix[i][j] != 0
      && 0 <= p.y + i < Height && 0 <= p.x + j < Width) ==> b'[p.y + i][p.x + j] == p.matrix[i][j]
  {
    seq(Height, r requires 0 <= r < Height =>
      seq(Width, c requires 0 <= c < Width =>
        if Under(p, r, c) then p.matrix[r - p.y][c - p.x] else b[r][c]))
  }

  /** `merge` writes `board[r][c]` for each block, rows top down. On a
      row above the well `board[r]` is undefined and the write throws; the
      rows before it are higher still, so nothing has been written yet. */
  predicate MergeThrows(p: Player) {
    exists i, j :: 0 <= i < |p.matrix| && 0 <= j < |p.matrix[i]| && p.matrix[i][j] != 0 && p.y + i < 0
  }

  /** A piece that fits has no block above the well, so merging it does
      not throw. */
  lemma FitsNoThrow(b: Matrix, p: Player)
    requires IsBoard(b) && !Collides(b, p)
    ensures !MergeThrows(p)
  {
    forall i, j | 0 <= i < |p.matrix| && 0 <= j < |p.matrix[i]| && p.matrix[i][j] != 0
      ensures p.y + i >= 0
    {
      assert !Blocked(b, p.y + i, p.x + j);
    }
  }

  /** Merging a piece that fits clears no block of the board, and leaves
      the piece's own cells taken. */
  lemma MergeKeepsBlocks(b: Matrix, p: Player)
    requires IsBoard(b) && !Collides(b, p)
    ensures forall r, c :: 0 <= r < Height && 0 <= c < Width && b[r][c] != 0 ==> Merge(b, p)[r][c] == b[r][c]
    ensures HasBlock(p.matrix) ==> Collides(Merge(b, p), p)
  {
    var b' := Merge(b, p);
    forall r, c | 0 <= r < Height && 0 <= c < Width && b[r][c] != 0
      ensures !Under(p, r, c)
    {
    }
    if HasBlock(p.matrix) {
      var i, j :| 0 <= i < |p.matrix| && 0 <= j < |p.matrix[i]| && p.matrix[i][j] != 0;
      assert !Blocked(b, p.y + i, p.x + j);
      assert Blocked(b', p.y + i, p.x + j);
    }
  }

  // ---------------------------------------------------------------------
  // Rotation

  function Transpose(m: Matrix): (t: Matrix)
    requires IsSquare(m)
    ensures IsSquare(t) && |t| == |m|
    ensures forall i, j :: 0 <= i < |m| && 0 <= j < |m| ==> t[i][j] == m[j][i]
  {
    seq(|m|, i requires 0 <= i < |m| => seq(|m|, j requires 0 <= j < |m| => m[j][i]))
  }

  /** `rotate`: the swaps transpose the matrix in place; then a positive
      direction reverses every row (a clockwise quarter turn) and any
      other reverses the order of the rows (counter-clockwise). */
  function Rotate(m: Matrix, dir: int): (r: Matrix)
    requires IsSquare(m)
    ensures IsSquare(r) && |r| == |m|
    ensures dir > 0 ==> forall i, j :: 0 <= i < |m| && 0 <= j < |m| ==> r[i][j] == m[|m| - 1 - j][i]
    ensures dir <= 0 ==> forall i, j :: 0 <= i < |m| && 0 <= j < |m| ==> r[i][j] == m[j][|m| - 1 - i]
  {
    var t := Transpose(m);
    var n := |m|;
    if dir > 0 then seq(n, i requires 0 <= i < n => seq(n, j requires 0 <= j < n => t[i][n - 1 - j]))
    else seq(n, i requires 0 <= i < n => t[n - 1 - i])
  }

  /** A turn one way and back the other restores the matrix. */
  lemma RotateBack(m: Matrix, dir: int)
    requires IsSquare(m) && dir != 0
    ensures Rotate(Rotate(m, dir), -dir) == m
  {
    var r := Rotate(Rotate(m, dir), -dir);
    forall i | 0 <= i < |m|
      ensures r[i] == m[i]
    {
      assert |r[i]| == |m[i]|;
      forall j | 0 <= j < |m|
        ensures r[i][j] == m[i][j]
      {
      }
    }
  }

  /** Four clockwise turns restore the matrix. */
  lemma FourTurns(m: Matrix)
    requires IsSquare(m)
    ensures Rotate(Rotate(Rotate(Rotate(m, 1), 1), 1), 1) == m
  {
    var n := |m|;
    var r := Rotate(Rotate(Rotate(Rotate(m, 1), 1), 1), 1);
    forall i | 0 <= i < n
      ensures r[i] == m[i]
    {
      assert |r[i]| == |m[i]|;
      forall j | 0 <= j < n
        ensures r[i][j] == m[i][j]
      {
        var r1 := Rotate(m, 1);
        var r2 := Rotate(r1, 1);
        var r3 := Rotate(r2, 1);
        assert r[i][j] == r3[n - 1 - j][i];
        assert r3[n - 1 - j][i] == r2[n - 1 - i][n - 1 - j];
        assert r2[n - 1 - i][n - 1 - j] == r1[j][n - 1 - i];
      }
    }
  }

  /** A rotated shape is a shape. */
  lemma RotateKeepsShape(m: Matrix, dir: int)
    requires IsShape(m)
    ensures IsShape(Rotate(m, dir))
  {
    var n := |m|;
    var r := Rotate(m, dir);
    var i, j :| 0 <= i < n && 0 <= j < |m[i]| && m[i][j] != 0;
    if dir > 0 {
      assert r[j][n - 1 - i] == m[i][j];
    } else {
      assert r[n - 1 - j][i] == m[i][j];
    }
  }

  // ---------------------------------------------------------------------
  // Moves

  /** `playerMove`: the shifted piece if it fits, else the piece as it was. */
  function PlayerMove(b: Matrix, p: Player, dir: int): (r: Player)
    requires IsBoard(b)
    ensures r == p.(x := p.x + dir) || r == p
    ensures r == p.(x := p.x + dir) <==> dir == 0 || !Collides(b, p.(x := p.x + dir))
    ensures !Collides(b, p) ==> !Collides(b, r)
  {
    var q := p.(x := p.x + dir);
    if Collides(b, q) then p else q
  }

  function Abs(n: int): nat {
    if n < 0 then -n else n
  }

  /** The kick loop of `playerRotate` at `offset`: while the piece
      collides it is shifted by `offset`, and the next offset is
      `-(offset + sign(offset))`: 1, -2, 3, -4, ... once the next offset
      is positive and wider than the matrix, the turn is undone and the
      column restored to `x0`. The shift made just before undoing is never
      tested. */
  function Kick(b: Matrix, p: Player, offset: int, x0: int, dir: int): (r: Player)
    requires IsBoard(b) && IsSquare(p.matrix)
    requires offset != 0 && -(|p.matrix| + 1) <= offset <= |p.matrix|
    ensures r.y == p.y
    ensures (r.matrix == p.matrix && !Collides(b, r)) || r == Player(Rotate(p.matrix, -dir), x0, p.y)
    ensures !Collides(b, p) ==> r == p
    decreases |p.matrix| + 2 - Abs(offset)
  {
    if !Collides(b, p) then p
    else
      var next := -(offset + (if offset > 0 then 1 else -1));
      if next > |p.matrix[0]| then Player(Rotate(p.matrix, -dir), x0, p.y)
      else Kick(b, p.(x := p.x + offset), next, x0, dir)
  }

  /** `playerRotate`: the piece turned and kicked into a place where it
      fits, or left exactly as it was. */
  function PlayerRotate(b: Matrix, p: Player, dir: int): (r: Player)
    requires IsBoard(b) && IsSquare(p.matrix) && dir != 0
    ensures r == p || (r.matrix == Rotate(p.matrix, dir) && r.y == p.y && !Collides(b, r))
    ensures !Collides(b, p) ==> !Collides(b, r)
  {
    RotateBack(p.matrix, dir);
    Kick(b, p.(matrix := Rotate(p.matrix, dir)), 1, p.x, dir)
  }

  /** The loop of `playerHardDrop`: down while the piece fits, then one
      row back up. The piece ends one row above the first row where it
      collides, having fitted on every row on the way. */
  function Fall(b: Matrix, p: Player): (r: Player)
    requires IsBoard(b) && HasBlock(p.matrix)
    ensures r.matrix == p.matrix && r.x == p.x && r.y >= p.y - 1
    ensures Collides(b, r.(y := r.y + 1))
    ensures forall y :: p.y <= y <= r.y ==> !Collides(b, Player(p.matrix, p.x, y))
    ensures !Collides(b, p) ==> r.y >= p.y && !Collides(b, r)
    ensures Collides(b, p) ==> r == p.(y := p.y - 1)
    decreases Height - p.y
  {
    if Collides(b, p) then p.(y := p.y - 1)
    else
      AboveFloor(b, p);
      Fall(b, p.(y := p.y + 1))
  }

  // ---------------------------------------------------------------------
  // Clearing lines

  predicate Full(row: seq<int>) {
    forall c :: 0 <= c < |row| ==> row[c] != 0
  }

  /** The rows that are not full, in order. */
  function Kept(rows: Matrix): (k: Matrix)
    ensures |k| <= |rows|
    ensures forall i :: 0 <= i < |k| ==> !Full(k[i]) && k[i] in rows
  {
    if |rows| == 0 then []
    else (if Full(rows[0]) then [] else [rows[0]]) + Kept(rows[1..])
  }

  /** The number of full rows. */
  function FullRows(rows: Matrix): (n: nat)
    ensures n + |Kept(rows)| == |rows|
  {
    if |rows| == 0 then 0
    else (if Full(rows[0]) then 1 else 0) + FullRows(rows[1..])
  }

  /** The board after the sweep: an empty row on top for every full row
      removed, then the other rows in their order. */
  function Sweep(b: Matrix): Matrix {
    EmptyRows(FullRows(b)) + Kept(b)
  }

  /** The sweep keeps the well's shape and leaves no full row. */
  lemma SweepShape(b: Matrix)
    requires IsBoard(b)
    ensures IsBoard(Sweep(b))
    ensures forall r :: 0 <= r < Height ==> !Full(Sweep(b)[r])
  {
    var s := Sweep(b);
    var k := FullRows(b);
    forall r | 0 <= r < Height
      ensures |s[r]| == Width && !Full(s[r])
    {
      if r < k {
        assert s[r] == EmptyRow();
        assert EmptyRow()[0] == 0;
      } else {
        assert s[r] == Kept(b)[r - k];
      }
    }
  }

  /** One more row examined from the bottom: a full row joins the
      count, any other row joins the kept rows. */
  lemma KeptStep(b: Matrix, i: nat)
    requires 0 < i <= |b|
    ensures Full(b[i - 1]) ==> Kept(b[i - 1..]) == Kept(b[i..]) && FullRows(b[i - 1..]) == FullRows(b[i..]) + 1
    ensures !Full(b[i - 1]) ==> Kept(b[i - 1..]) == [b[i - 1]] + Kept(b[i..]) && FullRows(b[i - 1..]) == FullRows(b[i..])
  {
    assert b[i - 1..][0] == b[i - 1];
    assert b[i - 1..][1..] == b[i..];
  }

  /** The board part way through the sweep: `k` rows cleared, the
      original rows before `i` not yet examined, the kept rows after. */
  ghost function Stage(k: nat, b: Matrix, i: nat): Matrix
    requires i <= |b|
  {
    EmptyRows(k) + b[..i] + Kept(b[i..])
  }

  /** The row the sweep looks at: the next original row while there is
      one, and otherwise one of the empty rows put on top. */
  lemma StageRow(k: nat, b: Matrix, i: nat, y: int)
    requires i <= |b|
    requires i > 0 ==> y == k + i - 1
    requires i == 0 ==> 0 <= y < k
    ensures 0 <= y < |Stage(k, b, i)|
    ensures i > 0 ==> Stage(k, b, i)[y] == b[i - 1]
    ensures i == 0 ==> !Full(Stage(k, b, i)[y])
  {
    if i == 0 {
      assert Stage(k, b, i)[y] == EmptyRow();
      assert EmptyRow()[0] == 0;
    }
  }

  /** Row `y` cut out and an empty row put on top. */
  function CutRow(s: Matrix, y: nat): (s': Matrix)
    requires y < |s|
    ensures |s'| == |s|
  {
    [EmptyRow()] + s[..y] + s[y + 1..]
  }

  /** Cutting a full row out and putting an empty row on top. */
  lemma StageCut(k: nat, b: Matrix, i: nat)
    requires 0 < i <= |b| && Full(b[i - 1])
    ensures var s := Stage(k, b, i);
      k + i - 1 < |s| && CutRow(s, k + i - 1) == Stage(k + 1, b, i - 1)
      && FullRows(b[i - 1..]) == FullRows(b[i..]) + 1
  {
    KeptStep(b, i);
    var s := Stage(k, b, i);
    assert s[..k + i - 1] == EmptyRows(k) + b[..i - 1];
    assert s[k + i..] == Kept(b[i..]);
  }

  /** Passing over a row that is not full. */
  lemma StageKeep(k: nat, b: Matrix, i: nat)
    requires 0 < i <= |b| && !Full(b[i - 1])
    ensures Stage(k, b, i) == Stage(k, b, i - 1) && FullRows(b[i - 1..]) == FullRows(b[i..])
  {
    KeptStep(b, i);
    assert b[..i] == b[..i - 1] + [b[i - 1]];
  }

  /** Before the sweep nothing is examined. */
  lemma StageStart(b: Matrix)
    ensures Stage(0, b, |b|) == b
  {
    assert b[|b|..] == [];
    assert EmptyRows(0) == [];
    assert b[..|b|] == b;
  }

  /** After the sweep every row is. */
  lemma StageEnd(b: Matrix)
    ensures b[0..] == b && Stage(FullRows(b), b, 0) == Sweep(b)
  {
    assert b[0..] == b;
    assert b[..0] == [];
  }

  /** One step of the sweep, at row `y` of the board part way through:
      a full row is always an original row, and cutting it counts it; any
      other original row is passed over. */
  lemma StageStep(k: nat, b: Matrix, i: nat, y: int)
    requires i <= |b|
    requires i > 0 ==> y == k + i - 1
    requires i == 0 ==> 0 <= y < k
    ensures var s := Stage(k, b, i);
      && 0 <= y < |s|
      && (Full(s[y]) ==> i > 0 && CutRow(s, y) == Stage(k + 1, b, i - 1) && FullRows(b[i - 1..]) == FullRows(b[i..]) + 1)
      && (!Full(s[y]) && i > 0 ==> s == Stage(k, b, i - 1) && FullRows(b[i - 1..]) == FullRows(b[i..]))
  {
    StageRow(k, b, i, y);
    if i > 0 {
      if Full(b[i - 1]) {
        StageCut(k, b, i);
      } else {
        StageKeep(k, b, i);
      }
    }
  }

  /** `sweepLines`' loop, from the bottom row up: a full row is cut out
      and an emptied row put on top, and the same index is examined
      again; any other row moves the index up. */
  method SweepLines(b: Matrix) returns (swept: Matrix, rowCount: nat)
    requires IsBoard(b)
    ensures swept == Sweep(b) && rowCount == FullRows(b)
  {
    swept := b;
    rowCount := 0;
    var y := |b| - 1;
    ghost var i := |b|;
    StageStart(b);
    while y >= 0
      invariant 0 <= i <= |b|
      invariant swept == Stage(rowCount, b, i)
      invariant rowCount == FullRows(b[i..])
      invariant i > 0 ==> y == rowCount + i - 1
      invariant i == 0 ==> -1 <= y < rowCount
      decreases y + 1 + i
    {
      StageStep(rowCount, b, i, y);
      if Full(swept[y]) {
        swept := CutRow(swept, y);
        rowCount := rowCount + 1;
        i := i - 1;
      } else {
        if i > 0 {
          i := i - 1;
        }
        y := y - 1;
      }
    }
    StageEnd(b);
  }

  // ---------------------------------------------------------------------
  // The game

  /** The game's variables: the well, the piece, `player.next`, `score`,
      `level`, `lines` beside `player.lines`, and the two flags. */
  datatype Game = Game(board: Matrix, player: Player, next: Option<Matrix>, score: int, level: int,
                       lines: int, playerLines: int, gameOver: bool, paused: bool)

  /** `playerReset`: the piece becomes the waiting one (or, the first
      time, `Pieces[first]`), `Pieces[second]` waits next, and the piece
      starts on the top row, centred; if it collides there the game is
      over. */
  function Spawn(g: Game, first: nat, second: nat): (g': Game)
    requires IsBoard(g.board) && first < |Pieces| && second < |Pieces|
    requires g.next.Some? ==> IsShape(g.next.value)
    ensures g' == g.(player := g'.player, next := g'.next, gameOver := g'.gameOver)
    ensures g'.player.matrix == (if g.next.Some? then g.next.value else Pieces[first])
    ensures g'.next == Some(Pieces[second]) && g'.player.y == 0
    ensures 3 <= g'.player.x && g'.player.x + |g'.player.matrix| <= 7
    ensures g'.gameOver <==> g.gameOver || Collides(g.board, g'.player)
  {
    var m := if g.next.Some? then g.next.value else Pieces[first];
    PieceIsShape(first);
    var p := Player(m, Width / 2 - |m[0]| / 2, 0);
    g.(player := p, next := Some(Pieces[second]), gameOver := g.gameOver || Collides(g.board, p))
  }

  /** A fresh piece fits on an empty well. */
  lemma SpawnFitsEmpty(m: Matrix)
    requires IsShape(m)
    ensures !Collides(EmptyRows(Height), Player(m, Width / 2 - |m[0]| / 2, 0))
  {
  }

  /** `sweepLines` on the game: the rows cleared are added to `lines`,
      and the level becomes `lines / 10 + 1` when that is higher. With
      nothing cleared only the board is touched, and it is unchanged. */
  function ClearLines(g: Game): (g': Game)
    requires IsBoard(g.board)
    ensures g' == g.(board := g'.board, playerLines := g'.playerLines, lines := g'.lines, level := g'.level)
    ensures g'.board == Sweep(g.board)
    ensures g'.playerLines == g.playerLines + FullRows(g.board)
    ensures FullRows(g.board) > 0 ==> g'.lines == g'.playerLines
    ensures FullRows(g.board) == 0 ==> g'.lines == g.lines && g'.level == g.level
    ensures g'.level >= g.level
    ensures FullRows(g.board) > 0 && g'.lines >= 0 ==> g'.level >= g'.lines / 10 + 1
    ensures g'.level > g.level ==> g'.level == g'.lines / 10 + 1
  {
    var count := FullRows(g.board);
    var g1 := g.(board := Sweep(g.board));
    if count > 0 then
      var total := g.playerLines + count;
      var newLevel := total / 10 + 1;
      g1.(playerLines := total, lines := total, level := if newLevel > g.level then newLevel else g.level)
    else g1
  }

  /** `updateScore`: the rows cleared are taken to be `player.lines -
      lines`, and the score grows by that many rows' points times the
      level. */
  function UpdateScore(g: Game): (g': Game)
    requires g.lines <= g.playerLines
    ensures g' == g.(score := g'.score)
    ensures g.playerLines == g.lines ==> g'.score == g.score
    ensures g.playerLines > g.lines && g.level > 0 ==> g'.score >= g.score + 100 * g.level
  {
    var rowCount := g.playerLines - g.lines;
    g.(score := g.score + LinePoints[if rowCount < 4 then rowCount else 4] * g.level)
  }

  /** What the source's keys keep: a well of the right shape, a piece and
      a next piece that are shapes, `lines` equal to `player.lines` and a
      level of at least 1. */
  ghost predicate Shaped(g: Game) {
    && IsBoard(g.board)
    && IsShape(g.player.matrix)
    && (g.next.Some? ==> IsShape(g.next.value))
    && g.lines == g.playerLines
    && g.level >= 1
  }

  /** What the corrected keys keep besides: a piece that fits unless the
      game is over. */
  ghost predicate Inv(g: Game) {
    && Shaped(g)
    && (!g.gameOver ==> !Collides(g.board, g.player))
  }

  /** Locking the piece as the source orders it: merge, `playerReset`,
      then `sweepLines` and `updateScore`. The new piece is tested
      against the board before its full rows are cleared. */
  function LockAsWritten(g: Game, first: nat, second: nat): (g': Game)
    requires IsBoard(g.board) && first < |Pieces| && second < |Pieces|
    requires g.next.Some? ==> IsShape(g.next.value)
    requires g.lines <= g.playerLines
    ensures IsBoard(g'.board) && g'.board == Sweep(Merge(g.board, g.player))
    ensures g'.player.matrix == (if g.next.Some? then g.next.value else Pieces[first])
    ensures g'.player.y == 0 && g'.next == Some(Pieces[second])
    ensures g'.gameOver <==> g.gameOver || Collides(Merge(g.board, g.player), g'.player)
    ensures g.lines == g.playerLines ==> g'.score == g.score
  {
    var g1 := Spawn(g.(board := Merge(g.board, g.player)), first, second);
    SweepShape(g1.board);
    UpdateScore(ClearLines(g1))
  }

  /** The scoring `updateScore` evidently means: the points for the
      `rowCount` rows this lock cleared, capped at four, times the level. */
  function ScoreRows(g: Game, rowCount: nat): (g': Game)
    ensures g' == g.(score := g'.score)
    ensures rowCount == 0 ==> g'.score == g.score
    ensures g.level > 0 ==> (g'.score > g.score <==> rowCount > 0)
    ensures g.level > 0 && rowCount > 0 ==> g'.score >= g.score + 100 * g.level
    ensures g.level > 0 && rowCount >= 4 ==> g'.score == g.score + 800 * g.level
  {
    g.(score := g.score + LinePoints[if rowCount < 4 then rowCount else 4] * g.level)
  }

  /** The points scored depend only on the score and the level. */
  lemma ScoreRowsReadsScoreAndLevel(a: Game, b: Game, rowCount: nat)
    requires a.score == b.score && a.level == b.level
    ensures ScoreRows(a, rowCount).score == ScoreRows(b, rowCount).score
  {
  }

  /** Locking the piece with the full rows cleared before the new piece
      is tested, so the game ends exactly when the new piece collides
      with the well it will fall into, and with the cleared rows scored. */
  function Lock(g: Game, first: nat, second: nat): (g': Game)
    requires IsBoard(g.board) && first < |Pieces| && second < |Pieces|
    requires g.next.Some? ==> IsShape(g.next.value)
    ensures IsBoard(g'.board) && g'.board == Sweep(Merge(g.board, g.player))
    ensures g'.player.y == 0 && g'.next == Some(Pieces[second])
    ensures g'.gameOver <==> g.gameOver || Collides(g'.board, g'.player)
    ensures g'.level >= g.level
    ensures g'.score == ScoreRows(g.(level := g'.level), FullRows(Merge(g.board, g.player))).score
  {
    var merged := Merge(g.board, g.player);
    var g1 := ClearLines(g.(board := merged));
    SweepShape(g1.board);
    ScoreRows(Spawn(g1, first, second), FullRows(merged))
  }

  /** When only the bottom row is full, the sweep drops every other row
      by one. */
  lemma {:induction false} OnlyLastFull(rows: Matrix)
    requires |rows| > 0 && Full(rows[|rows| - 1])
    requires forall r :: 0 <= r < |rows| - 1 ==> !Full(rows[r])
    ensures Kept(rows) == rows[..|rows| - 1] && FullRows(rows) == 1
  {
    if |rows| > 1 {
      var tail := rows[1..];
      assert tail[|tail| - 1] == rows[|rows| - 1];
      forall r | 0 <= r < |tail| - 1
        ensures !Full(tail[r])
      {
        assert tail[r] == rows[r + 1];
      }
      OnlyLastFull(tail);
      assert tail[..|tail| - 1] == rows[1..|rows| - 1];
      assert rows[..|rows| - 1] == [rows[0]] + rows[1..|rows| - 1];
    }
  }

  /** A row with one block, at column `c`. */
  function RowWith(c: int): (row: seq<int>)
    ensures |row| == Width
  {
    seq(Width, k => if k == c then 1 else 0)
  }

  /** A row taken from column `c` on. */
  function RowFrom(c: int): (row: seq<int>)
    ensures |row| == Width
  {
    seq(Width, k => if k >= c then 1 else 0)
  }

  /** A block at the top in column 5 and a bottom row with a gap of four
      at the left. */
  function ExampleBoard(): (b: Matrix)
    ensures IsBoard(b)
    ensures b[0] == RowWith(5) && b[Height - 1] == RowFrom(4)
    ensures forall r :: 0 < r < Height - 1 ==> b[r] == EmptyRow()
  {
    seq(Height, ExampleRow)
  }

  function ExampleRow(r: int): (row: seq<int>)
    ensures |row| == Width
  {
    if r == 0 then RowWith(5) else if r == Height - 1 then RowFrom(4) else EmptyRow()
  }

  /** An I piece lying over the gap. */
  function ExamplePiece(): Player {
    Player(Pieces[0], 0, Height - 2)
  }

  /** The example board with the I piece about to lock, and a J piece
      waiting. */
  function OverlapExample(): Game {
    Game(ExampleBoard(), ExamplePiece(), Some(Pieces[1]), 0, 1, 0, 0, false, false)
  }

  lemma ExampleFits()
    ensures !Collides(ExampleBoard(), ExamplePiece())
  {
    var b, bottom := ExampleBoard(), RowFrom(4);
    forall i, j | 0 <= i < 4 && 0 <= j < 4 && Pieces[0][i][j] != 0
      ensures !Blocked(b, Height - 2 + i, j)
    {
      assert i == 1 && bottom[j] == 0;
    }
  }

  lemma ExampleInv()
    ensures Inv(OverlapExample())
  {
    PieceIsShape(0);
    PieceIsShape(1);
    ExampleFits();
  }

  /** Merged, the I piece fills the bottom row and nothing else is full. */
  lemma ExampleMerged()
    ensures var m := Merge(ExampleBoard(), ExamplePiece());
      && m[0] == RowWith(5)
      && Full(m[Height - 1])
      && forall r :: 0 <= r < Height - 1 ==> !Full(m[r])
  {
    var b, p := ExampleBoard(), ExamplePiece();
    var m := Merge(b, p);
    forall r, c | 0 <= r < Height - 1 && 0 <= c < Width
      ensures m[r][c] == b[r][c]
    {
      assert !Under(p, r, c);
    }
    assert m[0] == RowWith(5);
    forall r | 0 <= r < Height - 1
      ensures !Full(m[r])
    {
      var row := b[r];
      assert row[0] == 0;
    }
    var last, bottom := m[Height - 1], RowFrom(4);
    forall c | 0 <= c < Width
      ensures last[c] != 0
    {
      if c < 4 {
        assert Pieces[0][1][c] != 0;
      } else {
        assert bottom[c] == 1;
      }
    }
  }

  /** The sweep drops the top block to row 1. */
  lemma ExampleSwept()
    ensures var s := Sweep(Merge(ExampleBoard(), ExamplePiece()));
      |s| == Height && s[1] == RowWith(5)
  {
    var m := Merge(ExampleBoard(), ExamplePiece());
    ExampleMerged();
    OnlyLastFull(m);
  }

  /** The J piece as `playerReset` places it. */
  function ExampleNext(): Player {
    Player(Pieces[1], 4, 0)
  }

  /** The J piece fits on the merged board ... */
  lemma ExampleNextFits()
    ensures !Collides(Merge(ExampleBoard(), ExamplePiece()), ExampleNext())
  {
    var m := Merge(ExampleBoard(), ExamplePiece());
    ExampleMerged();
    var top := RowWith(5);
    forall r, c | 0 < r < Height - 1 && 0 <= c < Width
      ensures m[r][c] == 0
    {
      assert !Under(ExamplePiece(), r, c);
      assert EmptyRow()[c] == 0;
    }
    forall i, k | 0 <= i < 3 && 0 <= k < 3 && Pieces[1][i][k] != 0
      ensures !Blocked(m, i, 4 + k)
    {
      assert i == 0 ==> top[4 + k] == 0;
    }
  }

  /** The J piece at the top is blocked by a block in row 1, column 5. */
  lemma BlockedBelowTop(s: Matrix)
    requires IsBoard(s) && s[1] == RowWith(5)
    ensures Collides(s, ExampleNext())
  {
    var row := s[1];
    assert row[5] == 1;
    assert Pieces[1][1][1] != 0;
    assert Blocked(s, 0 + 1, 4 + 1);
  }

  /** ... but not on the swept one. */
  lemma ExampleNextBlocked()
    ensures IsBoard(Sweep(Merge(ExampleBoard(), ExamplePiece())))
    ensures Collides(Sweep(Merge(ExampleBoard(), ExamplePiece())), ExampleNext())
  {
    var m := Merge(ExampleBoard(), ExamplePiece());
    SweepShape(m);
    ExampleSwept();
    BlockedBelowTop(Sweep(m));
  }

  /** `playerReset` with the J piece waiting places it at column 4. */
  lemma SpawnJ(g: Game)
    requires IsBoard(g.board) && g.next == Some(Pieces[1])
    ensures IsShape(Pieces[1])
    ensures Spawn(g, 0, 0).player == ExampleNext()
  {
    PieceIsShape(1);
    var p := Spawn(g, 0, 0).player;
    assert |Pieces[1][0]| == 3;
    assert p.x == 4;
  }

  /** Locking as written lets the new J piece start over the block that
      the sweep moves down from row 0 to row 1, with the game still
      running. */
  lemma SpawnBeforeSweepOverlaps()
    ensures Inv(OverlapExample())
    ensures var g' := LockAsWritten(OverlapExample(), 0, 0);
      !g'.gameOver && Collides(g'.board, g'.player)
  {
    ExampleInv();
    var g := OverlapExample();
    var m := Merge(g.board, g.player);
    var g1 := Spawn(g.(board := m), 0, 0);
    SpawnJ(g.(board := m));
    ExampleNextFits();
    ExampleNextBlocked();
    var g2 := ClearLines(g1);
    assert g2.player == ExampleNext() && !g2.gameOver && g2.board == Sweep(m);
  }

  /** Locking with the sweep first ends the game on the example instead. */
  lemma SweepFirstEnds()
    ensures Inv(OverlapExample())
    ensures Lock(OverlapExample(), 0, 0).gameOver
  {
    ExampleInv();
    var g := OverlapExample();
    var m := Merge(g.board, g.player);
    var g1 := ClearLines(g.(board := m));
    SweepShape(m);
    SpawnJ(g1);
    ExampleNextBlocked();
    assert Spawn(g1, 0, 0).gameOver;
  }

  /** As written, locking never changes the score: `sweepLines` has
      already set `lines` to `player.lines` when `updateScore` takes their
      difference as the rows cleared. */
  lemma ScoreNeverChanges(g: Game, first: nat, second: nat)
    requires Shaped(g) && first < |Pieces| && second < |Pieces|
    ensures LockAsWritten(g, first, second).score == g.score
  {
  }

  /** On the example one row is cleared: as written it scores nothing,
      while the corrected lock scores 100 at level 1. */
  lemma ClearedRowScoresNothing()
    ensures Inv(OverlapExample())
    ensures FullRows(Merge(ExampleBoard(), ExamplePiece())) == 1
    ensures LockAsWritten(OverlapExample(), 0, 0).score == 0
    ensures Lock(OverlapExample(), 0, 0).score == 100
  {
    ExampleInv();
    ExampleMerged();
    OnlyLastFull(Merge(ExampleBoard(), ExamplePiece()));
  }

  /** Locking scores the rows it clears: the points for their number,
      capped at four, times the level reached, and the score grows exactly
      when some row was cleared. */
  lemma LockScores(g: Game, first: nat, second: nat)
    requires Inv(g) && first < |Pieces| && second < |Pieces|
    ensures var n := FullRows(Merge(g.board, g.player)); var r := Lock(g, first, second);
      && r.level >= g.level
      && r.score == g.score + LinePoints[if n < 4 then n else 4] * r.level
      && (r.score > g.score <==> n > 0)
  {
  }

  /** Locking keeps the invariant and never lowers the score. */
  lemma LockKeepsInv(g: Game, first: nat, second: nat)
    requires Inv(g) && first < |Pieces| && second < |Pieces|
    ensures Inv(Lock(g, first, second)) && Lock(g, first, second).score >= g.score
  {
    PieceIsShape(second);
    PieceIsShape(first);
  }

  /** The two orders lock to the same well, piece, next piece, line
      counters and level: they differ only in the test that ends the game
      and in the score. */
  lemma LockOrdersAgree(g: Game, first: nat, second: nat)
    requires Shaped(g) && first < |Pieces| && second < |Pieces|
    ensures var a, c := LockAsWritten(g, first, second), Lock(g, first, second);
      && a.board == c.board == Sweep(Merge(g.board, g.player))
      && a.player == c.player && a.next == c.next
      && a.lines == c.lines && a.playerLines == c.playerLines && a.level == c.level
      && a.score == g.score
  {
  }

  /** Locking as written keeps everything but the fit of the new piece,
      and leaves the score as it was. */
  lemma LockAsWrittenKeepsShaped(g: Game, first: nat, second: nat)
    requires Shaped(g) && first < |Pieces| && second < |Pieces|
    ensures Shaped(LockAsWritten(g, first, second))
    ensures LockAsWritten(g, first, second).score == g.score
  {
    PieceIsShape(second);
    PieceIsShape(first);
  }

  /** Row `y` is where a piece that fits comes to rest when it drops: it
      fits on every row from its own down to `y`, and collides one row
      lower. */
  predicate Landing(b: Matrix, p: Player, y: int)
    requires IsBoard(b)
  {
    && p.y <= y
    && (forall k :: p.y <= k <= y ==> !Collides(b, Player(p.matrix, p.x, k)))
    && Collides(b, Player(p.matrix, p.x, y + 1))
  }

  /** A piece has one landing row. */
  lemma LandingUnique(b: Matrix, p: Player, y: int, z: int)
    requires IsBoard(b) && Landing(b, p, y) && Landing(b, p, z)
    ensures y == z
  {
  }

  /** A piece that fits falls to its landing row, where merging it does
      not throw. */
  lemma FallLands(b: Matrix, p: Player)
    requires IsBoard(b) && HasBlock(p.matrix) && !Collides(b, p)
    ensures Fall(b, p) == Player(p.matrix, p.x, Fall(b, p).y)
    ensures Landing(b, p, Fall(b, p).y) && !MergeThrows(Fall(b, p))
  {
    FallKeepsColumn(b, p);
    FallReachesLanding(b, p);
    FitsNoThrow(b, Fall(b, p));
  }

  /** The fall changes only the row. */
  lemma FallKeepsColumn(b: Matrix, p: Player)
    requires IsBoard(b) && HasBlock(p.matrix)
    ensures Fall(b, p) == Player(p.matrix, p.x, Fall(b, p).y)
  {
  }

  /** A piece that fits falls exactly to its landing row. */
  lemma FallReachesLanding(b: Matrix, p: Player)
    requires IsBoard(b) && HasBlock(p.matrix) && !Collides(b, p)
    ensures Landing(b, p, Fall(b, p).y)
  {
  }

  /** `playerDrop`: one row down if the piece fits there, else it locks
      where it is, in the source's order. When `merge` throws, the handler
      stops with the piece back in its row and nothing else changed. */
  function Drop(g: Game, first: nat, second: nat): (g': Game)
    requires IsBoard(g.board) && first < |Pieces| && second < |Pieces|
    requires g.next.Some? ==> IsShape(g.next.value)
    requires g.lines <= g.playerLines
    ensures !Collides(g.board, g.player.(y := g.player.y + 1)) ==> g' == g.(player := g.player.(y := g.player.y + 1))
    ensures Collides(g.board, g.player.(y := g.player.y + 1)) && MergeThrows(g.player) ==> g' == g
    ensures Collides(g.board, g.player.(y := g.player.y + 1)) && !MergeThrows(g.player) ==>
      g' == LockAsWritten(g, first, second)
  {
    var down := g.player.(y := g.player.y + 1);
    if !Collides(g.board, down) then g.(player := down)
    else if MergeThrows(g.player) then g
    else LockAsWritten(g, first, second)
  }

  /** `playerHardDrop`: the piece falls as far as it fits and locks, in the
      source's order. A piece that already collides goes one row up
      instead; when that puts a block above the well, `merge` throws and the
      handler stops there. */
  function HardDrop(g: Game, first: nat, second: nat): (g': Game)
    requires IsBoard(g.board) && HasBlock(g.player.matrix) && first < |Pieces| && second < |Pieces|
    requires g.next.Some? ==> IsShape(g.next.value)
    requires g.lines <= g.playerLines
    ensures g.lines == g.playerLines ==> g'.score == g.score
    ensures IsBoard(g'.board)
    ensures !Collides(g.board, g.player) ==> g'.player.y == 0 && g'.next == Some(Pieces[second])
    ensures var up := g.player.(y := g.player.y - 1);
      Collides(g.board, g.player) ==>
        if MergeThrows(up) then g' == g.(player := up)
        else g'.board == Sweep(Merge(g.board, up)) && g'.player.y == 0
  {
    if !Collides(g.board, g.player) then
      LockAsWritten(g.(player := Fall(g.board, g.player)), first, second)
    else
      var up := g.player.(y := g.player.y - 1);
      if MergeThrows(up) then g.(player := up)
      else LockAsWritten(g.(player := up), first, second)
  }

  /** A hard drop of a piece that fits locks it on its landing row, as
      written: the well becomes that merge, swept, and the game ends iff the
      new piece collides with the merge before the sweep. */
  lemma HardDropLands(g: Game, first: nat, second: nat)
    requires IsBoard(g.board) && HasBlock(g.player.matrix) && first < |Pieces| && second < |Pieces|
    requires g.next.Some? ==> IsShape(g.next.value)
    requires g.lines <= g.playerLines && !Collides(g.board, g.player)
    ensures var g' := HardDrop(g, first, second);
      exists y :: && Landing(g.board, g.player, y)
                  && g'.board == Sweep(Merge(g.board, Player(g.player.matrix, g.player.x, y)))
                  && (g'.gameOver <==> g.gameOver || Collides(Merge(g.board, Player(g.player.matrix, g.player.x, y)), g'.player))
  {
    FallLands(g.board, g.player);
    var f := Fall(g.board, g.player);
    var g' := HardDrop(g, first, second);
    assert g' == LockAsWritten(g.(player := f), first, second);
    assert Landing(g.board, g.player, f.y) && g'.board == Sweep(Merge(g.board, f));
  }

  datatype Key = MoveLeft | MoveRight | MoveDown | RotateKey | HardDropKey | PauseKey | OtherKey

  /** The keydown handler: nothing once the game is over; otherwise the
      bound action. Pausing does not stop the keys. `first` and `second`
      are the random piece choices a lock may draw. */
  function HandleKey(g: Game, key: Key, first: nat, second: nat): (g': Game)
    requires Shaped(g) && first < |Pieces| && second < |Pieces|
    ensures g.gameOver ==> g' == g
    ensures !g.gameOver && key == OtherKey ==> g' == g
    ensures !g.gameOver && key == PauseKey ==> g' == g.(paused := !g.paused)
    ensures key == MoveLeft || key == MoveRight || key == RotateKey ==> g'.board == g.board && g'.score == g.score
  {
    if g.gameOver then g
    else
      match key
      case MoveLeft => g.(player := PlayerMove(g.board, g.player, -1))
      case MoveRight => g.(player := PlayerMove(g.board, g.player, 1))
      case MoveDown => Drop(g, first, second)
      case RotateKey => g.(player := PlayerRotate(g.board, g.player, 1))
      case HardDropKey => HardDrop(g, first, second)
      case PauseKey => g.(paused := !g.paused)
      case OtherKey => g
  }

  /** As written, every key keeps the well, the shapes, the line counters
      and the level, and no key ever changes the score. */
  lemma HandleKeyKeepsShaped(g: Game, key: Key, first: nat, second: nat)
    requires Shaped(g) && first < |Pieces| && second < |Pieces|
    ensures Shaped(HandleKey(g, key, first, second)) && HandleKey(g, key, first, second).score == g.score
  {
    if !g.gameOver {
      match key
      case MoveDown =>
        LockAsWrittenKeepsShaped(g, first, second);
      case RotateKey =>
        RotateKeepsShape(g.player.matrix, 1);
      case HardDropKey =>
        LockAsWrittenKeepsShaped(g.(player := Fall(g.board, g.player)), first, second);
      case _ =>
    }
  }

  /** As written, the fit clause of `Inv` does not survive the keys: from
      the example, the down key locks the I piece and leaves a running
      game whose J piece overlaps the swept well. */
  lemma HandleKeyBreaksFit()
    ensures Inv(OverlapExample())
    ensures var g' := HandleKey(OverlapExample(), MoveDown, 0, 0);
      !g'.gameOver && Collides(g'.board, g'.player)
  {
    ExampleInv();
    DownLocksExample();
    SpawnBeforeSweepOverlaps();
  }

  /** As written, a hard drop of a running piece that collides on row 0
      with a block in its top row throws in `merge`: the piece goes up to
      row -1, where that block has no row, and nothing else changes. */
  lemma HardDropThrowsAtTop(g: Game, first: nat, second: nat)
    requires Shaped(g) && !g.gameOver && first < |Pieces| && second < |Pieces|
    requires Collides(g.board, g.player) && g.player.y == 0
    requires exists j :: 0 <= j < |g.player.matrix[0]| && g.player.matrix[0][j] != 0
    ensures HandleKey(g, HardDropKey, first, second) == g.(player := g.player.(y := -1))
  {
    var up := g.player.(y := -1);
    var j :| 0 <= j < |g.player.matrix[0]| && g.player.matrix[0][j] != 0;
    assert up.matrix[0][j] != 0;
    assert MergeThrows(up);
    assert HandleKey(g, HardDropKey, first, second) == HardDrop(g, first, second);
  }

  /** On the example, the down key leaves a running game whose J piece
      overlaps the well from row 0. The J piece has a block in its top
      row, so this is a state in which `HardDropThrowsAtTop` says a hard
      drop throws. */
  lemma DownLeavesJOnTop()
    ensures Shaped(OverlapExample())
    ensures var g1 := HandleKey(OverlapExample(), MoveDown, 0, 0);
      && Shaped(g1) && !g1.gameOver && Collides(g1.board, g1.player)
      && g1.player.y == 0 && g1.player.matrix == Pieces[1]
  {
    HandleKeyBreaksFit();
    var g := OverlapExample();
    HandleKeyKeepsShaped(g, MoveDown, 0, 0);
    DownLocksExample();
  }

  /** On the example the down key locks the I piece as written. */
  lemma DownLocksExample()
    ensures Shaped(OverlapExample())
    ensures var g := OverlapExample(); HandleKey(g, MoveDown, 0, 0) == LockAsWritten(g, 0, 0)
  {
    ExampleInv();
    var g := OverlapExample();
    var down := g.player.(y := g.player.y + 1);
    assert Pieces[0][1][0] != 0;
    assert Blocked(g.board, down.y + 1, down.x + 0);
    FitsNoThrow(g.board, g.player);
  }

  /** The soft drop with the corrected lock. */
  function DropFixed(g: Game, first: nat, second: nat): (g': Game)
    requires IsBoard(g.board) && first < |Pieces| && second < |Pieces|
    requires g.next.Some? ==> IsShape(g.next.value)
    ensures !Collides(g.board, g.player.(y := g.player.y + 1)) ==> g' == g.(player := g.player.(y := g.player.y + 1))
    ensures Collides(g.board, g.player.(y := g.player.y + 1)) && MergeThrows(g.player) ==> g' == g
    ensures Collides(g.board, g.player.(y := g.player.y + 1)) && !MergeThrows(g.player) ==>
      g' == Lock(g, first, second)
  {
    var down := g.player.(y := g.player.y + 1);
    if !Collides(g.board, down) then g.(player := down)
    else if MergeThrows(g.player) then g
    else Lock(g, first, second)
  }

  /** The hard drop with the corrected lock: the cleared rows are scored,
      and the game ends exactly when the new piece collides with the swept
      well. */
  function HardDropFixed(g: Game, first: nat, second: nat): (g': Game)
    requires IsBoard(g.board) && HasBlock(g.player.matrix) && first < |Pieces| && second < |Pieces|
    requires g.next.Some? ==> IsShape(g.next.value)
    ensures IsBoard(g'.board)
    ensures !Collides(g.board, g.player) ==>
      && g'.player.y == 0 && g'.next == Some(Pieces[second])
      && (g'.gameOver <==> g.gameOver || Collides(g'.board, g'.player))
    ensures var up := g.player.(y := g.player.y - 1);
      Collides(g.board, g.player) ==>
        if MergeThrows(up) then g' == g.(player := up)
        else g'.board == Sweep(Merge(g.board, up)) && g'.player.y == 0
  {
    if !Collides(g.board, g.player) then
      Lock(g.(player := Fall(g.board, g.player)), first, second)
    else
      var up := g.player.(y := g.player.y - 1);
      if MergeThrows(up) then g.(player := up)
      else Lock(g.(player := up), first, second)
  }

  /** A hard drop of a piece that fits locks it on its landing row with
      the corrected lock: the well becomes that merge, swept, and the rows it
      cleared are scored at the new level. */
  lemma HardDropFixedLands(g: Game, first: nat, second: nat)
    requires IsBoard(g.board) && HasBlock(g.player.matrix) && first < |Pieces| && second < |Pieces|
    requires g.next.Some? ==> IsShape(g.next.value)
    requires !Collides(g.board, g.player)
    ensures var g' := HardDropFixed(g, first, second);
      exists y :: && Landing(g.board, g.player, y)
                  && g'.board == Sweep(Merge(g.board, Player(g.player.matrix, g.player.x, y)))
                  && g'.score == ScoreRows(g.(level := g'.level), FullRows(Merge(g.board, Player(g.player.matrix, g.player.x, y)))).score
  {
    FallLands(g.board, g.player);
    var f := Fall(g.board, g.player);
    var g' := HardDropFixed(g, first, second);
    var g1 := g.(player := f);
    assert g' == Lock(g1, first, second);
    ScoreRowsReadsScoreAndLevel(g1.(level := g'.level), g.(level := g'.level), FullRows(Merge(g.board, f)));
    assert Landing(g.board, g.player, f.y) && g'.board == Sweep(Merge(g.board, f));
  }

  /** The keydown handler with both drops using the corrected lock. */
  function HandleKeyFixed(g: Game, key: Key, first: nat, second: nat): (g': Game)
    requires Inv(g) && first < |Pieces| && second < |Pieces|
    ensures g.gameOver ==> g' == g
    ensures !g.gameOver && key == OtherKey ==> g' == g
    ensures !g.gameOver && key == PauseKey ==> g' == g.(paused := !g.paused)
    ensures key != MoveDown && key != HardDropKey ==> g' == HandleKey(g, key, first, second)
  {
    if g.gameOver then g
    else
      match key
      case MoveDown => DropFixed(g, first, second)
      case HardDropKey => HardDropFixed(g, first, second)
      case _ => HandleKey(g, key, first, second)
  }

  /** Moving and rotating keep the invariant and the score. */
  lemma ShiftKeepsInv(g: Game, key: Key, first: nat, second: nat)
    requires Inv(g) && !g.gameOver && first < |Pieces| && second < |Pieces|
    requires key == MoveLeft || key == MoveRight || key == RotateKey
    ensures Inv(HandleKey(g, key, first, second)) && HandleKey(g, key, first, second).score == g.score
  {
    var g' := HandleKey(g, key, first, second);
    if key == RotateKey {
      RotateKeepsShape(g.player.matrix, 1);
      assert g' == g.(player := PlayerRotate(g.board, g.player, 1));
    } else {
      assert g' == g.(player := PlayerMove(g.board, g.player, if key == MoveLeft then -1 else 1));
    }
  }

  /** The corrected soft drop keeps the invariant and never lowers the score. */
  lemma DropFixedKeepsInv(g: Game, first: nat, second: nat)
    requires Inv(g) && first < |Pieces| && second < |Pieces|
    ensures Inv(DropFixed(g, first, second)) && DropFixed(g, first, second).score >= g.score
  {
    if Collides(g.board, g.player.(y := g.player.y + 1)) {
      LockKeepsInv(g, first, second);
    }
  }

  /** The corrected hard drop keeps the invariant and never lowers the score. */
  lemma HardDropFixedKeepsInv(g: Game, first: nat, second: nat)
    requires Inv(g) && first < |Pieces| && second < |Pieces|
    ensures Inv(HardDropFixed(g, first, second)) && HardDropFixed(g, first, second).score >= g.score
  {
    var f := g.(player := Fall(g.board, g.player));
    assert Inv(f);
    LockKeepsInv(f, first, second);
  }

  /** With the corrected lock every key keeps the invariant, so a running
      game's piece always fits, and the score never goes down. */
  lemma HandleKeyFixedKeepsInv(g: Game, key: Key, first: nat, second: nat)
    requires Inv(g) && first < |Pieces| && second < |Pieces|
    ensures Inv(HandleKeyFixed(g, key, first, second)) && HandleKeyFixed(g, key, first, second).score >= g.score
  {
    var g' := HandleKeyFixed(g, key, first, second);
    if g.gameOver {
      assert g' == g;
    } else if key == MoveDown {
      assert g' == DropFixed(g, first, second);
      DropFixedKeepsInv(g, first, second);
    } else if key == HardDropKey {
      assert g' == HardDropFixed(g, first, second);
      HardDropFixedKeepsInv(g, first, second);
    } else if key == MoveLeft || key == MoveRight || key == RotateKey {
      assert g' == HandleKey(g, key, first, second);
      ShiftKeepsInv(g, key, first, second);
    } else {
      assert g' == g || g' == g.(paused := !g.paused);
    }
  }

  /** `init`: an empty well, score 0, level 1, no lines, and a new piece. */
  function Init(g: Game, first: nat, second: nat): (g': Game)
    requires first < |Pieces| && second < |Pieces|
    requires g.next.Some? ==> IsShape(g.next.value)
    ensures Inv(g') && !g'.gameOver
    ensures g'.board == EmptyRows(Height) && g'.score == 0 && g'.level == 1 && g'.lines == 0
  {
    PieceIsShape(first);
    PieceIsShape(second);
    var g1 := Game(EmptyRows(Height), g.player, g.next, 0, 1, 0, 0, false, g.paused);
    var g' := Spawn(g1, first, second);
    SpawnFitsEmpty(g'.player.matrix);
    g'
  }
}
