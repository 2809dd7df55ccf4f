/** What games/pacman/modules/pacmanController.js and ghosts.js share:
    `CELL_SIZE` from config.js, the four directions, the rounding of a
    pixel position to a maze cell, and the test of whether the cell next
    to a position in a direction can be entered. */
module PacmanGrid {
  /** `CELL_SIZE`, in pixels. */
  const CellSize := 16

  /** The direction strings; `Unknown` stands for any other string. */
  datatype Dir = Up | Down | Left | Right | Unknown

  /** The maze: rows of cells, 1 for a wall. */
  type Maze = seq<seq<int>>

  /** `Math.round(v / CELL_SIZE)` on an integer pixel position: the
      nearest cell, halves rounding up. */
  function Round(v: int): (cell: int)
    ensures CellSize * cell - CellSize / 2 <= v < CellSize * cell + CellSize / 2
  {
    (v + CellSize / 2) / CellSize
  }

  /** Rounding finds the one cell whose half-open span holds `v`. */
  lemma RoundUnique(v: int, cell: int)
    requires CellSize * cell - CellSize / 2 <= v < CellSize * cell + CellSize / 2
    ensures Round(v) == cell
  {
  }

  /** `maze[r][c] !== 1` with row `r` present: a column past either end
      reads `undefined`, which is not a wall. */
  predicate Open(maze: Maze, r: int, c: int)
    requires 0 <= r < |maze|
  {
    !(0 <= c < |maze[r]|) || maze[r][c] != 1
  }

  /** The rows the test of direction `d` reads from cell (gx, gy) exist;
      reading a missing row is a `TypeError` in the source. */
  predicate Readable(maze: Maze, gx: int, gy: int, d: Dir) {
    match d
    case Up => gy <= 0 || gy - 1 < |maze|
    case Down => gy >= |maze| - 1 || 0 <= gy + 1
    case Left => gx <= 0 || 0 <= gy < |maze|
    case Right => 0 < |maze| && (gx >= |maze[0]| - 1 || 0 <= gy < |maze|)
    case Unknown => true
  }

  /** The test `canMove` and `getPossibleDirections` both make on cell
      (gx, gy): the neighbour in direction `d` is inside the maze's border
      and not a wall. Any other direction string fails. */
  predicate Passable(maze: Maze, gx: int, gy: int, d: Dir)
    requires Readable(maze, gx, gy, d)
  {
    match d
    case Up => gy > 0 && Open(maze, gy - 1, gx)
    case Down => gy < |maze| - 1 && Open(maze, gy + 1, gx)
    case Left => gx > 0 && Open(maze, gy, gx - 1)
    case Right => gx < |maze[0]| - 1 && Open(maze, gy, gx + 1)
    case Unknown => false
  }

  /** The neighbouring cell in direction `d`; `y` grows downwards. */
  function Neighbour(gx: int, gy: int, d: Dir): (int, int) {
    match d
    case Up => (gx, gy - 1)
    case Down => (gx, gy + 1)
    case Left => (gx - 1, gy)
    case Right => (gx + 1, gy)
    case Unknown => (gx, gy)
  }

  /** On a rectangular maze and from a cell inside it, a direction passes
      exactly when its neighbour is a cell of the maze that is not a
      wall. */
  lemma PassableIffOpenNeighbour(maze: Maze, gx: int, gy: int, d: Dir)
    requires |maze| > 0 && forall r :: 0 <= r < |maze| ==> |maze[r]| == |maze[0]|
    requires 0 <= gy < |maze| && 0 <= gx < |maze[0]|
    ensures Readable(maze, gx, gy, d)
    ensures var (nx, ny) := Neighbour(gx, gy, d);
      Passable(maze, gx, gy, d) <==> d != Unknown && 0 <= ny < |maze| && 0 <= nx < |maze[0]| && maze[ny][nx] != 1
  {
  }
}
