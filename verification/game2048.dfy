/** The 2048 game of games/2048/2048.js: sliding and merging a line of
    tiles (`moveTilesInRow`, `moveTilesInColumn`), the four board moves of
    `handleInput`, the random tile (`addRandomTile`), the end test
    (`isGameOver`) and the score bookkeeping. */
module Game2048 {

  /** `GRID_SIZE`. */
  const Size: nat := 4

  /** The tile value whose creation by a merge wins the game. */
  const WinningTile: nat := 2048

  // ---------------------------------------------------------------------
  // One line

  function Zeros(n: nat): (r: seq<nat>)
    ensures |r| == n && forall j :: 0 <= j < n ==> r[j] == 0
  {
    if n == 0 then [] else Zeros(n - 1) + [0]
  }

  /** The total of the first `n` cells. */
  function SumUpTo(s: seq<nat>, n: nat): nat
    requires n <= |s|
  {
    if n == 0 then 0 else SumUpTo(s, n - 1) + s[n - 1]
  }

  function Sum(s: seq<nat>): nat {
    SumUpTo(s, |s|)
  }

  /** The number of tiles (non-empty cells) among the first `n` cells. */
  function TilesUpTo(s: seq<nat>, n: nat): nat
    requires n <= |s|
  {
    if n == 0 then 0 else TilesUpTo(s, n - 1) + (if s[n - 1] == 0 then 0 else 1)
  }

  /** The outcome of pushing a line of tiles against its wall: the packed
      tiles (nearest the wall first), the points scored and whether some
      merge made a 2048 tile. */
  datatype Collapsed = Collapsed(tiles: seq<nat>, score: nat, hit: bool)

  /** The reference reading of a slide, for the first `n` cells: take the
      tiles from the wall outward and stack them, a tile equal to the
      current top merging into it and scoring the merged value. A freshly
      merged tile can merge again with the next equal tile, as in the
      source. */
  function CollapseUpTo(line: seq<nat>, n: nat): (c: Collapsed)
    requires n <= |line|
    ensures |c.tiles| <= n
    ensures forall j :: 0 <= j < |c.tiles| ==> c.tiles[j] > 0
  {
    if n == 0 then Collapsed([], 0, false)
    else
      var c := CollapseUpTo(line, n - 1);
      var v := line[n - 1];
      if v == 0 then c
      else if |c.tiles| > 0 && c.tiles[|c.tiles| - 1] == v then
        Collapsed(c.tiles[..|c.tiles| - 1] + [2 * v], c.score + 2 * v, c.hit || 2 * v == WinningTile)
      else
        Collapsed(c.tiles + [v], c.score, c.hit)
  }

  /** Stacking never adds tiles: at most one stacked tile per non-empty
      cell. */
  lemma {:induction false} CollapseUpToTiles(line: seq<nat>, n: nat)
    requires n <= |line|
    ensures |CollapseUpTo(line, n).tiles| <= TilesUpTo(line, n) <= n
  {
    if n > 0 {
      CollapseUpToTiles(line, n - 1);
    }
  }

  function Collapse(line: seq<nat>): (c: Collapsed)
    ensures |c.tiles| <= TilesUpTo(line, |line|) <= |line|
    ensures forall j :: 0 <= j < |c.tiles| ==> c.tiles[j] > 0
  {
    CollapseUpToTiles(line, |line|);
    CollapseUpTo(line, |line|)
  }

  /** The line after the slide: packed tiles, then empty cells. */
  function Slide(line: seq<nat>): (r: seq<nat>)
    ensures |r| == |line|
  {
    var c := Collapse(line);
    c.tiles + Zeros(|line| - |c.tiles|)
  }

  /** The value at index `j` of `Slide(line)`. */
  lemma SlideAt(line: seq<nat>, j: nat)
    requires j < |line|
    ensures var t := Collapse(line).tiles;
      Slide(line)[j] == if j < |t| then t[j] else 0
  {
  }

  /** A slide packs the line: no tile follows an empty cell. */
  lemma SlidePacks(line: seq<nat>, i: nat, j: nat)
    requires i < j < |line| && Slide(line)[i] == 0
    ensures Slide(line)[j] == 0
  {
    SlideAt(line, i);
    SlideAt(line, j);
  }

  lemma {:induction false} SumSplit(s: seq<nat>, t: seq<nat>, k: nat)
    requires k <= |t|
    ensures SumUpTo(s + t, |s| + k) == Sum(s) + SumUpTo(t, k)
  {
    if k == 0 {
      SumAgree(s + t, s, |s|);
    } else {
      SumSplit(s, t, k - 1);
    }
  }

  lemma {:induction false} SumAgree(s: seq<nat>, t: seq<nat>, n: nat)
    requires n <= |s| && n <= |t|
    requires forall j :: 0 <= j < n ==> s[j] == t[j]
    ensures SumUpTo(s, n) == SumUpTo(t, n)
  {
    if n > 0 {
      SumAgree(s, t, n - 1);
    }
  }

  lemma SumAppend(s: seq<nat>, t: seq<nat>)
    ensures Sum(s + t) == Sum(s) + Sum(t)
  {
    SumSplit(s, t, |t|);
  }

  lemma SumSingle(v: nat)
    ensures Sum([v]) == v
  {
    assert SumUpTo([v], 1) == SumUpTo([v], 0) + v;
  }

  lemma {:induction false} SumZerosUpTo(n: nat, k: nat)
    requires k <= n
    ensures SumUpTo(Zeros(n), k) == 0
  {
    if k > 0 {
      SumZerosUpTo(n, k - 1);
    }
  }

  /** Sliding neither creates nor destroys value: a merge of `v` and `v`
      leaves one `2 * v`. */
  lemma {:induction false} CollapseKeepsSum(line: seq<nat>, n: nat)
    requires n <= |line|
    ensures Sum(CollapseUpTo(line, n).tiles) == SumUpTo(line, n)
  {
    if n > 0 {
      CollapseKeepsSum(line, n - 1);
      var c := CollapseUpTo(line, n - 1);
      var v := line[n - 1];
      if v != 0 {
        if |c.tiles| > 0 && c.tiles[|c.tiles| - 1] == v {
          var rest := c.tiles[..|c.tiles| - 1];
          assert c.tiles == rest + [v];
          SumAppend(rest, [v]);
          SumAppend(rest, [2 * v]);
          SumSingle(v);
          SumSingle(2 * v);
        } else {
          SumAppend(c.tiles, [v]);
          SumSingle(v);
        }
      }
    }
  }

  lemma SlideKeepsSum(line: seq<nat>)
    ensures Sum(Slide(line)) == Sum(line)
  {
    var c := Collapse(line);
    CollapseKeepsSum(line, |line|);
    SumAppend(c.tiles, Zeros(|line| - |c.tiles|));
    SumZerosUpTo(|line| - |c.tiles|, |line| - |c.tiles|);
  }

  /** A line with no empty cell and no two equal neighbours does not move. */
  lemma {:induction false} CollapseStuck(line: seq<nat>, n: nat)
    requires n <= |line|
    requires forall j :: 0 <= j < |line| ==> line[j] > 0
    requires forall j :: 0 <= j < |line| - 1 ==> line[j] != line[j + 1]
    ensures CollapseUpTo(line, n) == Collapsed(line[..n], 0, false)
  {
    if n > 0 {
      CollapseStuck(line, n - 1);
      assert line[..n] == line[..n - 1] + [line[n - 1]];
    }
  }

  /** The first `n` cells are already what the slide of those cells gives. */
  ghost predicate StableUpTo(line: seq<nat>, n: nat)
    requires n <= |line|
  {
    forall j :: 0 <= j < n ==> StableAt(line, n, j)
  }

  /** Cell `j` already holds what the slide of the first `n` cells puts
      there. */
  ghost predicate StableAt(line: seq<nat>, n: nat, j: nat)
    requires j < n <= |line|
  {
    var t := CollapseUpTo(line, n).tiles;
    line[j] == (if j < |t| then t[j] else 0)
  }

  /** Extending the prefix by one cell keeps it stable exactly when it was
      stable and the new cell is empty or a tile that neither travels nor
      merges. */
  lemma StableStep(line: seq<nat>, n: nat)
    requires n < |line|
    ensures var t := CollapseUpTo(line, n).tiles; var v := line[n];
      StableUpTo(line, n + 1) <==>
        StableUpTo(line, n) && (v == 0 || (|t| == n && (|t| == 0 || t[|t| - 1] != v)))
  {
    var t := CollapseUpTo(line, n).tiles;
    var v := line[n];
    if v != 0 && (|t| < n || (|t| > 0 && t[|t| - 1] == v)) {
      assert |CollapseUpTo(line, n + 1).tiles| <= n;
      assert !StableAt(line, n + 1, n);
    } else {
      StableExtend(line, n);
    }
  }

  /** A cell that stays where it is extends the stable prefix unchanged. */
  lemma StableExtend(line: seq<nat>, n: nat)
    requires n < |line|
    requires var t := CollapseUpTo(line, n).tiles; var v := line[n];
      v == 0 || (|t| == n && (|t| == 0 || t[|t| - 1] != v))
    ensures StableUpTo(line, n + 1) <==> StableUpTo(line, n)
  {
    var m := n + 1;
    var t := CollapseUpTo(line, n).tiles;
    var v := line[n];
    assert CollapseUpTo(line, m).tiles == if v == 0 then t else t + [v];
    forall j | 0 <= j < n
      ensures StableAt(line, m, j) == StableAt(line, n, j)
    {
    }
    assert StableAt(line, m, n);
  }

  /** The whole line is stable exactly when sliding leaves it as it is. */
  lemma StableIffSlid(line: seq<nat>)
    ensures StableUpTo(line, |line|) <==> Slide(line) == line
  {
    forall j | 0 <= j < |line|
      ensures StableAt(line, |line|, j) <==> Slide(line)[j] == line[j]
    {
      SlideAt(line, j);
    }
  }

  /** Cell `j` of the line once the cells before index `col` have been
      processed: the packed prefix, then empty cells, then the untouched
      rest. */
  function Partial(line: seq<nat>, col: nat, j: nat): nat
    requires col <= |line| && j < |line|
  {
    var t := CollapseUpTo(line, col).tiles;
    if j < |t| then t[j] else if j < col then 0 else line[j]
  }

  /** One pass of the outer loop of `moveTilesInRow(row, -1)`: the tile at
      index `col` (if any) slides toward index 0 while the next cell is
      empty, then merges into an equal neighbour. It reports whether
      anything moved, the points of the merge and whether it made 2048. */
  method SettleTile(line: seq<nat>, r0: seq<nat>, col: nat)
    returns (r: seq<nat>, moved: bool, gained: nat, hit: bool)
    requires 1 <= col < |line| && |r0| == |line|
    requires forall j :: 0 <= j < |line| ==> r0[j] == Partial(line, col, j)
    ensures |r| == |line|
    ensures forall j :: 0 <= j < |line| ==> r[j] == Partial(line, col + 1, j)
    ensures var c := CollapseUpTo(line, col); var c' := CollapseUpTo(line, col + 1);
      && c'.score == c.score + gained
      && c'.hit == (c.hit || hit)
      && (moved <==> line[col] != 0 && (|c.tiles| < col || (|c.tiles| > 0 && c.tiles[|c.tiles| - 1] == line[col])))
  {
    ghost var t := CollapseUpTo(line, col).tiles;
    r := r0;
    moved := false;
    gained := 0;
    hit := false;
    var v := r[col];
    if v == 0 {
      return;
    }
    var current;
    r, current := SlideTile(line, r0, col);
    moved := current < col;
    var next := current - 1;
    if next >= 0 && r[next] == r[current] && r[next] != 0 {
      r := r[next := 2 * r[next]][current := 0];
      moved := true;
      gained := r[next];
      if r[next] == WinningTile {
        hit := true;
      }
      assert CollapseUpTo(line, col + 1).tiles == t[..|t| - 1] + [2 * v];
    } else {
      assert CollapseUpTo(line, col + 1).tiles == t + [v];
    }
  }

  /** The inner loop of `moveTilesInRow(row, -1)`: the tile at index `col`
      travels toward index 0 over empty cells and stops next to the packed
      prefix. */
  method SlideTile(line: seq<nat>, r0: seq<nat>, col: nat) returns (r: seq<nat>, current: nat)
    requires 1 <= col < |line| && |r0| == |line| && line[col] != 0
    requires forall j :: 0 <= j < |line| ==> r0[j] == Partial(line, col, j)
    ensures var t := CollapseUpTo(line, col).tiles;
      && current == |t| <= col && |r| == |line|
      && forall j :: 0 <= j < |line| ==>
           r[j] == (if j < |t| then t[j] else if j == current then line[col] else if j <= col then 0 else line[j])
  {
    ghost var t := CollapseUpTo(line, col).tiles;
    var v := r0[col];
    r := r0;
    current := col;
    var next := col - 1;
    while next >= 0 && r[next] == 0
      invariant |t| <= current <= col && next == current - 1
      invariant |r| == |line|
      invariant forall j :: 0 <= j < |line| ==>
        r[j] == (if j < |t| then t[j] else if j == current then v else if j <= col then 0 else line[j])
    {
      r := r[next := r[current]][current := 0];
      current := next;
      next := next - 1;
    }
  }

  /** `moveTilesInRow(row, -1)` run on one line, in place, as written. The
      result is the reference slide, `moved` is set exactly when the line
      changed, and the points and the 2048 flag are those of `Collapse`. */
  method MoveLine(line: seq<nat>) returns (r: seq<nat>, moved: bool, mergedScore: nat, hit: bool)
    requires |line| == Size
    ensures r == Slide(line)
    ensures moved <==> r != line
    ensures mergedScore == Collapse(line).score && hit == Collapse(line).hit
  {
    r := line;
    moved := false;
    mergedScore := 0;
    hit := false;
    StableStep(line, 0);
    var col := 1;
    while col < |line|
      invariant 1 <= col <= |line| && |r| == |line|
      invariant forall j :: 0 <= j < |line| ==> r[j] == Partial(line, col, j)
      invariant mergedScore == CollapseUpTo(line, col).score && hit == CollapseUpTo(line, col).hit
      invariant moved <==> !StableUpTo(line, col)
    {
      StableStep(line, col);
      var m, gained, h;
      r, m, gained, h := SettleTile(line, r, col);
      moved := moved || m;
      mergedScore := mergedScore + gained;
      hit := hit || h;
      col := col + 1;
    }
    forall j | 0 <= j < |line|
      ensures r[j] == Slide(line)[j]
    {
      SlideAt(line, j);
    }
    StableIffSlid(line);
  }

  /** There is no "already merged" mark: a merged tile merges again with
      the next equal tile, so [2, 2, 4, 0] slides to [8, 0, 0, 0] and
      scores 4 + 8. */
  lemma ChainedMerge()
    ensures Slide([2, 2, 4, 0]) == [8, 0, 0, 0]
    ensures Collapse([2, 2, 4, 0]).score == 12
  {
    var line: seq<nat> := [2, 2, 4, 0];
    assert CollapseUpTo(line, 1).tiles == [2];
    assert CollapseUpTo(line, 2).tiles == [4];
    assert CollapseUpTo(line, 3).tiles == [8];
    assert Zeros(3) == [0, 0, 0];
  }

  lemma StableDown(line: seq<nat>, n: nat)
    requires n < |line| && StableUpTo(line, n + 1)
    ensures StableUpTo(line, n)
  {
    StableStep(line, n);
  }

  /** A stable prefix shortens to a stable prefix. */
  lemma StableShrink(line: seq<nat>, m: nat, n: nat)
    requires n <= m <= |line| && StableUpTo(line, m)
    ensures StableUpTo(line, n)
  {
    var k := m;
    while k > n
      invariant n <= k <= m && StableUpTo(line, k)
    {
      StableDown(line, k - 1);
      k := k - 1;
    }
  }

  /** A stable prefix without empty cells is its own packed stack. */
  lemma {:induction false} StablePositive(line: seq<nat>, n: nat)
    requires n <= |line| && StableUpTo(line, n)
    requires forall j :: 0 <= j < n ==> line[j] > 0
    ensures CollapseUpTo(line, n).tiles == line[..n]
  {
    if n > 0 {
      StableStep(line, n - 1);
      StablePositive(line, n - 1);
      assert line[..n] == line[..n - 1] + [line[n - 1]];
    }
  }

  /** A full line with two equal neighbours always moves. */
  lemma EqualPairMoves(line: seq<nat>, j: nat)
    requires j + 1 < |line| && line[j] == line[j + 1]
    requires forall i :: 0 <= i < |line| ==> line[i] > 0
    ensures Slide(line) != line
  {
    if Slide(line) == line {
      forall i | 0 <= i < |line|
        ensures line[i] == (var t := CollapseUpTo(line, |line|).tiles; if i < |t| then t[i] else 0)
      {
        SlideAt(line, i);
      }
      StableShrink(line, |line|, j + 2);
      StableStep(line, j + 1);
      StablePositive(line, j + 1);
      assert false;
    }
  }

  // ---------------------------------------------------------------------
  // The board

  type Grid = seq<seq<nat>>

  predicate IsGrid(b: Grid) {
    |b| == Size && forall r :: 0 <= r < Size ==> |b[r]| == Size
  }

  datatype Direction = Up | Right | Down | Left

  /** The cell holding element `i` of line `k` when tiles move in direction
      `d`: lines are read from the wall the tiles move toward. `Left` and
      `Right` lines are rows, `Up` and `Down` lines are columns; a `Right`
      or `Down` line is the row or column read backwards, which is the
      order `moveTilesInRow` and `moveTilesInColumn` visit it in with
      direction 1. */
  function CellOf(d: Direction, k: nat, i: nat): (p: (nat, nat))
    requires k < Size && i < Size
    ensures p.0 < Size && p.1 < Size
  {
    match d
    case Left => (k, i)
    case Right => (k, Size - 1 - i)
    case Up => (i, k)
    case Down => (Size - 1 - i, k)
  }

  /** The line and index a cell belongs to, for direction `d`. */
  function LineOfCell(d: Direction, row: nat, col: nat): (p: (nat, nat))
    requires row < Size && col < Size
    ensures p.0 < Size && p.1 < Size && CellOf(d, p.0, p.1) == (row, col)
  {
    match d
    case Left => (row, col)
    case Right => (row, Size - 1 - col)
    case Up => (col, row)
    case Down => (col, Size - 1 - row)
  }

  function LineOf(b: Grid, d: Direction, k: nat): (line: seq<nat>)
    requires IsGrid(b) && k < Size
    ensures |line| == Size
    ensures forall i :: 0 <= i < Size ==> line[i] == b[CellOf(d, k, i).0][CellOf(d, k, i).1]
  {
    seq(Size, i requires 0 <= i < Size => b[CellOf(d, k, i).0][CellOf(d, k, i).1])
  }

  /** The board after every line slid in direction `d`. */
  function MoveGrid(b: Grid, d: Direction): (r: Grid)
    requires IsGrid(b)
    ensures IsGrid(r)
    ensures forall k, i :: 0 <= k < Size && 0 <= i < Size ==>
      r[CellOf(d, k, i).0][CellOf(d, k, i).1] == Slide(LineOf(b, d, k))[i]
  {
    var r := seq(Size, row requires 0 <= row < Size =>
      seq(Size, col requires 0 <= col < Size => MovedCell(b, d, row, col)));
    assert forall k, i :: 0 <= k < Size && 0 <= i < Size ==>
      r[CellOf(d, k, i).0][CellOf(d, k, i).1] == Slide(LineOf(b, d, k))[i] by {
      forall k, i | 0 <= k < Size && 0 <= i < Size
        ensures r[CellOf(d, k, i).0][CellOf(d, k, i).1] == Slide(LineOf(b, d, k))[i]
      {
        CellOfInverse(d, k, i);
      }
    }
    r
  }

  /** The value cell (row, col) gets from its line's slide. */
  function MovedCell(b: Grid, d: Direction, row: nat, col: nat): nat
    requires IsGrid(b) && row < Size && col < Size
  {
    var p := LineOfCell(d, row, col);
    Slide(LineOf(b, d, p.0))[p.1]
  }

  lemma CellOfInverse(d: Direction, k: nat, i: nat)
    requires k < Size && i < Size
    ensures LineOfCell(d, CellOf(d, k, i).0, CellOf(d, k, i).1) == (k, i)
  {
  }

  /** Points scored by lines `k..` of a move. */
  function ScoreFrom(b: Grid, d: Direction, k: nat): nat
    requires IsGrid(b) && k <= Size
    decreases Size - k
  {
    if k == Size then 0 else Collapse(LineOf(b, d, k)).score + ScoreFrom(b, d, k + 1)
  }

  /** `moved` of `handleInput`: some line changed. */
  predicate Moved(b: Grid, d: Direction)
    requires IsGrid(b)
  {
    exists k :: 0 <= k < Size && Slide(LineOf(b, d, k)) != LineOf(b, d, k)
  }

  /** Some merge of the move made a 2048 tile. */
  predicate Hit(b: Grid, d: Direction)
    requires IsGrid(b)
  {
    exists k :: 0 <= k < Size && Collapse(LineOf(b, d, k)).hit
  }

  /** `moved` is reported exactly when the board changed. */
  lemma MovedIffChanged(b: Grid, d: Direction)
    requires IsGrid(b)
    ensures Moved(b, d) <==> MoveGrid(b, d) != b
  {
    var r := MoveGrid(b, d);
    if Moved(b, d) {
      var k :| 0 <= k < Size && Slide(LineOf(b, d, k)) != LineOf(b, d, k);
      var i :| 0 <= i < Size && Slide(LineOf(b, d, k))[i] != LineOf(b, d, k)[i];
      assert r[CellOf(d, k, i).0][CellOf(d, k, i).1] != b[CellOf(d, k, i).0][CellOf(d, k, i).1];
    } else {
      forall row, col | 0 <= row < Size && 0 <= col < Size
        ensures r[row][col] == b[row][col]
      {
        var p := LineOfCell(d, row, col);
        assert Slide(LineOf(b, d, p.0)) == LineOf(b, d, p.0);
      }
      assert forall row :: 0 <= row < Size ==> r[row] == b[row];
    }
  }

  // ---------------------------------------------------------------------
  // The end of the game

  /** `isGameOver`: no empty cell, and no two equal tiles side by side or
      one above the other. */
  predicate IsGameOver(b: Grid)
    requires IsGrid(b)
  {
    && (forall row, col :: 0 <= row < Size && 0 <= col < Size ==> b[row][col] != 0)
    && (forall row, col :: 0 <= row < Size && 0 <= col < Size - 1 ==> !SameAsRight(b, row, col))
    && (forall row, col :: 0 <= row < Size - 1 && 0 <= col < Size ==> !SameAsBelow(b, row, col))
  }

  predicate SameAsRight(b: Grid, row: nat, col: nat)
    requires IsGrid(b) && row < Size && col < Size - 1
  {
    b[row][col + 1] == b[row][col]
  }

  predicate SameAsBelow(b: Grid, row: nat, col: nat)
    requires IsGrid(b) && row < Size - 1 && col < Size
  {
    b[row + 1][col] == b[row][col]
  }

  /** When the game is over no direction moves anything. */
  lemma GameOverIsStuck(b: Grid, d: Direction)
    requires IsGrid(b) && IsGameOver(b)
    ensures !Moved(b, d) && MoveGrid(b, d) == b
  {
    forall k | 0 <= k < Size
      ensures Slide(LineOf(b, d, k)) == LineOf(b, d, k)
    {
      var line := LineOf(b, d, k);
      forall j | 0 <= j < Size - 1
        ensures line[j] != line[j + 1]
      {
        var p := CellOf(d, k, j);
        var q := CellOf(d, k, j + 1);
        match d
        case Left => assert !SameAsRight(b, k, j);
        case Right => assert !SameAsRight(b, k, Size - 2 - j);
        case Up => assert !SameAsBelow(b, j, k);
        case Down => assert !SameAsBelow(b, Size - 2 - j, k);
      }
      CollapseStuck(line, |line|);
      assert line[..|line|] == line;
    }
    MovedIffChanged(b, d);
  }

  /** On a full board the converse holds too: a board that is not over
      can move left or up. */
  lemma FullNotOverMoves(b: Grid)
    requires IsGrid(b) && !IsGameOver(b)
    requires forall row, col :: 0 <= row < Size && 0 <= col < Size ==> b[row][col] != 0
    ensures Moved(b, Left) || Moved(b, Up)
  {
    if exists row, col :: 0 <= row < Size && 0 <= col < Size - 1 && SameAsRight(b, row, col) {
      var row, col :| 0 <= row < Size && 0 <= col < Size - 1 && SameAsRight(b, row, col);
      EqualPairMoves(LineOf(b, Left, row), col);
    } else {
      var row, col :| 0 <= row < Size - 1 && 0 <= col < Size && SameAsBelow(b, row, col);
      EqualPairMoves(LineOf(b, Up, col), row);
    }
  }

  // ---------------------------------------------------------------------
  // The random tile

  /** The empty cells, in the row-major order `addRandomTile` lists them,
      from flat index `i` on. */
  function EmptyFrom(b: Grid, i: nat): (r: seq<(nat, nat)>)
    requires IsGrid(b)
    ensures forall p :: p in r <==>
      p.0 < Size && p.1 < Size && p.0 * Size + p.1 >= i && b[p.0][p.1] == 0
    decreases Size * Size - i
  {
    if i >= Size * Size then []
    else
      var p: (nat, nat) := (i / Size, i % Size);
      assert forall q: (nat, nat) :: q.0 < Size && q.1 < Size && q.0 * Size + q.1 == i ==> q == p;
      var rest := EmptyFrom(b, i + 1);
      if b[p.0][p.1] == 0 then [p] + rest else rest
  }

  function EmptyCells(b: Grid): (r: seq<(nat, nat)>)
    requires IsGrid(b)
    ensures forall p :: p in r <==> p.0 < Size && p.1 < Size && b[p.0][p.1] == 0
  {
    EmptyFrom(b, 0)
  }

  /** A tile value a spawn may place: 2 (drawn with probability 0.9) or 4. */
  datatype Spawn = Spawn(pick: nat, four: bool)

  /** `addRandomTile` with its two random draws as the parameter `s`: the
      cell is `s.pick` reduced modulo the number of empty cells, which
      reaches every index `Math.floor(Math.random() * n)` can. A full board
      is left alone. */
  function AddRandomTile(b: Grid, s: Spawn): (r: Grid)
    requires IsGrid(b)
    ensures IsGrid(r)
    ensures GridTiles(b) ==> GridTiles(r)
    ensures EmptyCells(b) == [] ==> r == b
    ensures EmptyCells(b) != [] ==>
      exists row, col :: 0 <= row < Size && 0 <= col < Size && b[row][col] == 0
        && r == b[row := b[row][col := if s.four then 4 else 2]]
  {
    var empty := EmptyCells(b);
    if empty == [] then b
    else
      var p := empty[s.pick % |empty|];
      assert p in empty;
      b[p.0 := b[p.0][p.1 := if s.four then 4 else 2]]
  }

  // ---------------------------------------------------------------------
  // Tile values

  predicate IsPowerOfTwo(v: nat) {
    if v <= 1 then v == 1 else v % 2 == 0 && IsPowerOfTwo(v / 2)
  }

  /** A cell holds nothing (0) or a power of two of at least 2. */
  predicate IsTileValue(v: nat) {
    v == 0 || (v >= 2 && IsPowerOfTwo(v))
  }

  predicate AllTiles(s: seq<nat>) {
    forall j :: 0 <= j < |s| ==> IsTileValue(s[j])
  }

  lemma DoubleTile(v: nat)
    requires v >= 2 && IsPowerOfTwo(v)
    ensures IsTileValue(2 * v)
  {
    assert (2 * v) / 2 == v;
  }

  /** Merging keeps every tile a power of two of at least 2. */
  lemma {:induction false} CollapseKeepsTiles(line: seq<nat>, n: nat)
    requires n <= |line| && AllTiles(line)
    ensures AllTiles(CollapseUpTo(line, n).tiles)
  {
    if n > 0 {
      CollapseKeepsTiles(line, n - 1);
      var c := CollapseUpTo(line, n - 1);
      var v := line[n - 1];
      if v != 0 && |c.tiles| > 0 && c.tiles[|c.tiles| - 1] == v {
        DoubleTile(v);
      }
    }
  }

  predicate GridTiles(b: Grid)
    requires IsGrid(b)
  {
    forall row, col :: 0 <= row < Size && 0 <= col < Size ==> IsTileValue(b[row][col])
  }

  lemma MoveKeepsTiles(b: Grid, d: Direction)
    requires IsGrid(b) && GridTiles(b)
    ensures GridTiles(MoveGrid(b, d))
  {
    var r := MoveGrid(b, d);
    forall row, col | 0 <= row < Size && 0 <= col < Size
      ensures IsTileValue(r[row][col])
    {
      var p := LineOfCell(d, row, col);
      var line := LineOf(b, d, p.0);
      CollapseKeepsTiles(line, |line|);
      SlideAt(line, p.1);
    }
  }

  // ---------------------------------------------------------------------
  // The game

  /** `board`, `score`, `bestScore`, `gameActive`, `won2048`. The best
      score is loaded from storage at start; here it is a parameter. */
  datatype Game = Game(board: Grid, score: nat, best: nat, active: bool, won: bool)

  function EmptyGrid(): (r: Grid)
    ensures IsGrid(r) && forall row, col :: 0 <= row < Size && 0 <= col < Size ==> r[row][col] == 0
  {
    seq(Size, _ => Zeros(Size))
  }

  /** `initGame`: an empty board with two random tiles, score 0, active. */
  function NewGame(storedBest: nat, first: Spawn, second: Spawn): (g: Game)
    ensures IsGrid(g.board) && GridTiles(g.board)
    ensures g.score == 0 && g.best == storedBest && g.active && !g.won
  {
    var e := EmptyGrid();
    assert GridTiles(e);
    var b := AddRandomTile(AddRandomTile(e, first), second);
    Game(b, 0, storedBest, true, false)
  }

  /** `handleInput`: ignored unless active. The lines slide; merged points
      are added to the score (raising the best score when passed); a merge
      to 2048 sets `won2048`. Only when something moved does a random tile
      appear, after which a stuck board ends the game. */
  function HandleInput(g: Game, d: Direction, s: Spawn): (r: Game)
    requires IsGrid(g.board)
    ensures IsGrid(r.board)
    ensures !g.active ==> r == g
    ensures g.active ==>
      && r.score == g.score + ScoreFrom(g.board, d, 0)
      && r.won == (g.won || Hit(g.board, d))
      && (Moved(g.board, d) ==>
            r.board == AddRandomTile(MoveGrid(g.board, d), s) && (r.active <==> !IsGameOver(r.board)))
      && (!Moved(g.board, d) ==> r.board == g.board && r.active)
  {
    if !g.active then g
    else
      var moved := MoveGrid(g.board, d);
      var gained := ScoreFrom(g.board, d, 0);
      var score := g.score + gained;
      var best := if gained > 0 && score > g.best then score else g.best;
      var won := g.won || Hit(g.board, d);
      MovedIffChanged(g.board, d);
      if Moved(g.board, d) then
        var b := AddRandomTile(moved, s);
        Game(b, score, best, !IsGameOver(b), won)
      else
        Game(moved, score, best, true, won)
  }

  /** The "keep going" button after a win. */
  function KeepGoing(g: Game): (r: Game)
    ensures r.active && r.board == g.board && r.score == g.score && r.won == g.won
  {
    g.(active := true)
  }

  /** A move never lowers the score, keeps the best score at least the
      score, keeps every tile a power of two, and never clears the win. */
  lemma HandleInputInvariant(g: Game, d: Direction, s: Spawn)
    requires IsGrid(g.board) && GridTiles(g.board) && g.score <= g.best
    ensures var r := HandleInput(g, d, s);
      && GridTiles(r.board) && g.score <= r.score <= r.best
      && (g.won ==> r.won)
  {
    if g.active {
      MoveKeepsTiles(g.board, d);
      var r := HandleInput(g, d, s);
      var m := MoveGrid(g.board, d);
      MovedIffChanged(g.board, d);
      assert GridTiles(r.board) by {
        if Moved(g.board, d) {
          assert r.board == AddRandomTile(m, s);
        }
      }
    }
  }
}
