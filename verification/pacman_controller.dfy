/** Pac-Man's movement from games/pacman/modules/pacmanController.js:
    `canMove`, `alignPacmanToGrid` and `updatePacmanPosition`. Positions
    are whole pixels; the mouth animation is left out. */
module PacmanController {
  import opened PacmanGrid

  datatype Pacman = Pacman(x: int, y: int, direction: Dir, nextDirection: Dir)

  /** `initialPacmanState`: cell (14, 23), heading left. */
  const Initial := Pacman(14 * CellSize, 23 * CellSize, Left, Left)

  /** The neighbour in direction `d` would be past the maze's border. */
  predicate AtBorder(maze: Maze, gx: int, gy: int, d: Dir) {
    match d
    case Up => gy <= 0
    case Down => gy >= |maze| - 1
    case Left => gx <= 0
    case Right => |maze| == 0 || gx >= |maze[0]| - 1
    case Unknown => false
  }

  /** `canMove`: from the cell nearest (x, y), never for an unknown
      direction or through the border; otherwise exactly when the
      neighbouring cell is not a wall. */
  function CanMove(x: int, y: int, d: Dir, maze: Maze): (ok: bool)
    requires Readable(maze, Round(x), Round(y), d)
    ensures d == Unknown ==> !ok
    ensures AtBorder(maze, Round(x), Round(y), d) ==> !ok
    ensures d != Unknown && !AtBorder(maze, Round(x), Round(y), d) ==>
      var (nx, ny) := Neighbour(Round(x), Round(y), d);
      0 <= ny < |maze| && (ok <==> Open(maze, ny, nx))
  {
    Passable(maze, Round(x), Round(y), d)
  }

  /** `alignPacmanToGrid`: each coordinate snaps to the nearest multiple
      of the cell size, halves going up. */
  function Align(p: Pacman): (q: Pacman)
    ensures q.x % CellSize == 0 && p.x - CellSize / 2 < q.x <= p.x + CellSize / 2
    ensures q.y % CellSize == 0 && p.y - CellSize / 2 < q.y <= p.y + CellSize / 2
    ensures Round(q.x) == Round(p.x) && Round(q.y) == Round(p.y)
    ensures q.direction == p.direction && q.nextDirection == p.nextDirection
  {
    var q := p.(x := Round(p.x) * CellSize, y := Round(p.y) * CellSize);
    RoundUnique(q.x, Round(p.x));
    RoundUnique(q.y, Round(p.y));
    q
  }

  /** Aligning twice is aligning once. */
  lemma AlignIdempotent(p: Pacman)
    ensures Align(Align(p)) == Align(p)
  {
  }

  /** The step of two pixels in the current direction, with the tunnel
      wrap: left of 0 goes to the last column, and the right edge goes to
      column 0. */
  function Advance(p: Pacman, maze: Maze): Pacman
    requires |maze| > 0
  {
    match p.direction
    case Up => p.(y := p.y - 2)
    case Down => p.(y := p.y + 2)
    case Left => if p.x - 2 < 0 then p.(x := |maze[0]| * CellSize - CellSize) else p.(x := p.x - 2)
    case Right => if p.x + 2 >= |maze[0]| * CellSize then p.(x := 0) else p.(x := p.x + 2)
    case Unknown => p
  }

  /** The pixel offset of a two-pixel step in direction `d`. */
  function Delta(d: Dir): (int, int) {
    match d
    case Up => (0, -2)
    case Down => (0, 2)
    case Left => (-2, 0)
    case Right => (2, 0)
    case Unknown => (0, 0)
  }

  /** What the source needs to read the maze for both tests. */
  predicate CanUpdate(p: Pacman, maze: Maze) {
    && Readable(maze, Round(p.x), Round(p.y), p.direction)
    && Readable(maze, Round(p.x), Round(p.y), p.nextDirection)
  }

  /** The direction after the turn test: the one asked for when it
      differs and the way is open. */
  function Turn(p: Pacman, maze: Maze): (q: Pacman)
    requires CanUpdate(p, maze)
    ensures Round(q.x) == Round(p.x) && Round(q.y) == Round(p.y) && q.nextDirection == p.nextDirection
    ensures q.direction == p.nextDirection || q == p
    ensures q != p ==> p.nextDirection != p.direction && CanMove(p.x, p.y, p.nextDirection, maze)
    ensures p.nextDirection != p.direction && CanMove(p.x, p.y, p.nextDirection, maze) ==>
      q == Align(p).(direction := p.nextDirection)
  {
    if p.nextDirection != p.direction && CanMove(p.x, p.y, p.nextDirection, maze) then
      Align(p.(direction := p.nextDirection))
    else p
  }

  /** `updatePacmanPosition`: the turn test, then a step of exactly two
      pixels in the direction held when the way is open, and no move at
      all otherwise. The tunnel wrap never fires, so the step is the plain
      two pixels (see `TunnelWrapUnreachable`). */
  function UpdatePosition(p: Pacman, maze: Maze): (r: Pacman)
    requires CanUpdate(p, maze)
    ensures var q := Turn(p, maze);
      && r.direction == q.direction && r.nextDirection == p.nextDirection
      && (CanMove(q.x, q.y, q.direction, maze) ==> r.x == q.x + Delta(q.direction).0 && r.y == q.y + Delta(q.direction).1)
      && (!CanMove(q.x, q.y, q.direction, maze) ==> r == q)
      && (CanMove(q.x, q.y, q.direction, maze) <==> r != q)
  {
    var q := Turn(p, maze);
    if CanMove(q.x, q.y, q.direction, maze) then
      TunnelWrapUnreachable(q.x, q.y, q.direction, maze);
      Advance(q, maze)
    else q
  }

  /** The wrap branches are dead: `canMove` refuses a left step from
      column 0's span and a right step from the last column's, and
      those are the only spans from which two pixels cross the edge. */
  lemma TunnelWrapUnreachable(x: int, y: int, d: Dir, maze: Maze)
    requires Readable(maze, Round(x), Round(y), d) && CanMove(x, y, d, maze)
    ensures |maze| > 0
    ensures d == Left ==> x - 2 >= 0
    ensures d == Right ==> x + 2 < |maze[0]| * CellSize
  {
  }

  /** The test as the tunnel evidently wants it: through the left or right
      border the far column of the same row is tested instead of the move
      being refused. */
  function CanMoveWrapping(x: int, y: int, d: Dir, maze: Maze): (ok: bool)
    requires Readable(maze, Round(x), Round(y), d)
    requires (d == Left || d == Right) ==> 0 <= Round(y) < |maze| && |maze| > 0
    ensures !AtBorder(maze, Round(x), Round(y), d) || d == Up || d == Down ==> ok == CanMove(x, y, d, maze)
    ensures d == Left && AtBorder(maze, Round(x), Round(y), d) ==> (ok <==> Open(maze, Round(y), |maze[0]| - 1))
    ensures d == Right && AtBorder(maze, Round(x), Round(y), d) ==> (ok <==> Open(maze, Round(y), 0))
  {
    var gx, gy := Round(x), Round(y);
    match d
    case Left => if gx <= 0 then Open(maze, gy, |maze[0]| - 1) else CanMove(x, y, d, maze)
    case Right => if gx >= |maze[0]| - 1 then Open(maze, gy, 0) else CanMove(x, y, d, maze)
    case _ => CanMove(x, y, d, maze)
  }

  /** The update with the wrapping test. */
  function UpdateWrapping(p: Pacman, maze: Maze): (r: Pacman)
    requires CanUpdate(p, maze) && |maze| > 0 && 0 <= Round(p.y) < |maze|
    ensures var q := Turn(p, maze);
      && r.direction == q.direction
      && (CanMoveWrapping(q.x, q.y, q.direction, maze) ==> r == Advance(q, maze))
      && (!CanMoveWrapping(q.x, q.y, q.direction, maze) ==> r == q)
  {
    var q := Turn(p, maze);
    if CanMoveWrapping(q.x, q.y, q.direction, maze) then Advance(q, maze) else q
  }

  /** A tunnel row: open at both ends. */
  predicate Tunnel(maze: Maze, gy: int)
    requires 0 <= gy < |maze|
  {
    |maze| > 0 && |maze[gy]| == |maze[0]| > 1 && maze[gy][0] != 1 && maze[gy][|maze[0]| - 1] != 1
  }

  /** In a tunnel row, Pac-Man heading left from 6 pixels into column 0
      stops there for good as written ... */
  lemma StuckAtTunnelMouth(maze: Maze, gy: int)
    requires 0 <= gy < |maze| && Tunnel(maze, gy)
    ensures var p := Pacman(6, gy * CellSize, Left, Left);
      CanUpdate(p, maze) && UpdatePosition(p, maze) == p
  {
    var p := Pacman(6, gy * CellSize, Left, Left);
    RoundUnique(p.y, gy);
  }

  /** ... while with the wrapping test the step from 0 pixels comes out
      in the last column. */
  lemma WrapsThroughTunnel(maze: Maze, gy: int)
    requires 0 <= gy < |maze| && Tunnel(maze, gy)
    ensures var p := Pacman(0, gy * CellSize, Left, Left);
      && CanUpdate(p, maze) && 0 <= Round(p.y) < |maze|
      && UpdateWrapping(p, maze) == p.(x := (|maze[0]| - 1) * CellSize)
      && UpdateWrapping(Pacman(6, gy * CellSize, Left, Left), maze).x == 4
  {
    var p := Pacman(0, gy * CellSize, Left, Left);
    RoundUnique(p.y, gy);
  }
}
