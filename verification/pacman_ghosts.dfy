/** The ghosts of games/pacman/modules/ghosts.js: the directions open to
    a ghost, each ghost's choice among them, the ghost house release and
    the frightened reversal. `Math.random` is a parameter; the timer that
    ends the fright is left out. */
module PacmanGhosts {
  import opened PacmanGrid
  import opened Optional

  datatype Name = Blinky | Pinky | Inky | Clyde | OtherName

  datatype Ghost = Ghost(x: int, y: int, direction: Dir, name: Name, frightened: bool,
                         inGhostHouse: bool, releaseTimer: int)

  /** `initialGhosts`: Blinky outside the house, the others inside with
      2, 4 and 6 seconds to wait. */
  const InitialGhosts: seq<Ghost> := [
    Ghost(14 * CellSize, 11 * CellSize, Up, Blinky, false, false, 0),
    Ghost(13 * CellSize, 14 * CellSize, Up, Pinky, false, true, 2000),
    Ghost(14 * CellSize, 14 * CellSize, Up, Inky, false, true, 4000),
    Ghost(15 * CellSize, 14 * CellSize, Up, Clyde, false, true, 6000)
  ]

  /** `['up', 'down', 'left', 'right']`. */
  const Order: seq<Dir> := [Up, Down, Left, Right]

  /** A direction's place in `Order`. */
  function Rank(d: Dir): nat {
    match d
    case Up => 0
    case Down => 1
    case Left => 2
    case Right => 3
    case Unknown => 4
  }

  /** The directions of `ds` that pass, order kept. */
  function Keep(ds: seq<Dir>, maze: Maze, gx: int, gy: int): (r: seq<Dir>)
    requires forall i :: 0 <= i < |ds| ==> Readable(maze, gx, gy, ds[i])
    ensures |r| <= |ds|
    ensures forall d :: d in r <==> d in ds && Passable(maze, gx, gy, d)
    ensures (forall i, j :: 0 <= i < j < |ds| ==> Rank(ds[i]) < Rank(ds[j])) ==>
      forall i, j :: 0 <= i < j < |r| ==> Rank(r[i]) < Rank(r[j])
  {
    if |ds| == 0 then []
    else
      var rest := Keep(ds[1..], maze, gx, gy);
      if Passable(maze, gx, gy, ds[0]) then
        KeepAfterHead(ds, rest);
        [ds[0]] + rest
      else rest
  }

  /** In a sequence ranked strictly upwards the head ranks below every
      element taken from the tail. */
  lemma KeepAfterHead(ds: seq<Dir>, rest: seq<Dir>)
    requires |ds| > 0 && forall d :: d in rest ==> d in ds[1..]
    ensures (forall i, j :: 0 <= i < j < |ds| ==> Rank(ds[i]) < Rank(ds[j])) ==>
      forall d :: d in rest ==> Rank(ds[0]) < Rank(d)
  {
    if forall i, j :: 0 <= i < j < |ds| ==> Rank(ds[i]) < Rank(ds[j]) {
      forall d | d in rest
        ensures Rank(ds[0]) < Rank(d)
      {
        var j :| 0 <= j < |ds[1..]| && ds[1..][j] == d;
        assert ds[j + 1] == d;
      }
    }
  }

  /** `getPossibleDirections`: of up, down, left and right, in that
      order, those whose neighbour from the ghost's cell is inside the
      border and not a wall. */
  function PossibleDirections(g: Ghost, maze: Maze): (r: seq<Dir>)
    requires forall d :: Readable(maze, Round(g.x), Round(g.y), d)
    ensures forall d :: d in r <==> d != Unknown && Passable(maze, Round(g.x), Round(g.y), d)
    ensures forall i, j :: 0 <= i < j < |r| ==> Rank(r[i]) < Rank(r[j])
  {
    Keep(Order, maze, Round(g.x), Round(g.y))
  }

  /** The ghost's position after one cell in direction `d`. */
  function CellStep(x: int, y: int, d: Dir): (int, int) {
    match d
    case Up => (x, y - CellSize)
    case Down => (x, y + CellSize)
    case Left => (x - CellSize, y)
    case Right => (x + CellSize, y)
    case Unknown => (x, y)
  }

  /** The squared distance from the ghost's next position in direction
      `d` to the target. The source compares square roots, which keep
      the order. */
  function Distance(g: Ghost, d: Dir, tx: int, ty: int): nat {
    var (nx, ny) := CellStep(g.x, g.y, d);
    var dx, dy := nx - tx, ny - ty;
    assert dx * dx >= 0 && dy * dy >= 0;
    dx * dx + dy * dy
  }

  /** The loop of `getDirectionToTarget` from index `i` on, with `m` the
      best index so far: a later direction wins only when strictly
      closer. */
  function FirstNearest(g: Ghost, ds: seq<Dir>, tx: int, ty: int, i: nat, m: nat): (k: nat)
    requires m < i <= |ds|
    requires forall j :: 0 <= j < i ==> Distance(g, ds[m], tx, ty) <= Distance(g, ds[j], tx, ty)
    requires forall j :: 0 <= j < m ==> Distance(g, ds[j], tx, ty) > Distance(g, ds[m], tx, ty)
    ensures k < |ds|
    ensures forall j :: 0 <= j < |ds| ==> Distance(g, ds[k], tx, ty) <= Distance(g, ds[j], tx, ty)
    ensures forall j :: 0 <= j < k ==> Distance(g, ds[j], tx, ty) > Distance(g, ds[k], tx, ty)
    decreases |ds| - i
  {
    if i == |ds| then m
    else if Distance(g, ds[i], tx, ty) < Distance(g, ds[m], tx, ty) then FirstNearest(g, ds, tx, ty, i + 1, i)
    else FirstNearest(g, ds, tx, ty, i + 1, m)
  }

  /** `getDirectionToTarget`: the first of the directions whose step ends
      nearest the target; `undefined`, here `None`, when there is none. */
  function DirectionToTarget(g: Ghost, ds: seq<Dir>, tx: int, ty: int): (r: Option<Dir>)
    ensures r.None? <==> |ds| == 0
    ensures r.Some? ==> exists k :: (0 <= k < |ds| && ds[k] == r.value
      && (forall j :: 0 <= j < |ds| ==> Distance(g, r.value, tx, ty) <= Distance(g, ds[j], tx, ty))
      && (forall j :: 0 <= j < k ==> Distance(g, ds[j], tx, ty) > Distance(g, r.value, tx, ty)))
  {
    if |ds| == 0 then None
    else
      var k := FirstNearest(g, ds, tx, ty, 1, 0);
      Some(ds[k])
  }

  /** The nearest-first choice is unique: any two directions meeting the
      description are the same one. */
  lemma NearestIsFirstMinimum(g: Ghost, ds: seq<Dir>, tx: int, ty: int, k: nat)
    requires k < |ds|
    requires forall j :: 0 <= j < |ds| ==> Distance(g, ds[k], tx, ty) <= Distance(g, ds[j], tx, ty)
    requires forall j :: 0 <= j < k ==> Distance(g, ds[j], tx, ty) > Distance(g, ds[k], tx, ty)
    ensures DirectionToTarget(g, ds, tx, ty) == Some(ds[k])
  {
    var r := DirectionToTarget(g, ds, tx, ty);
    var k' :| 0 <= k' < |ds| && ds[k'] == r.value
      && (forall j :: 0 <= j < |ds| ==> Distance(g, r.value, tx, ty) <= Distance(g, ds[j], tx, ty))
      && (forall j :: 0 <= j < k' ==> Distance(g, ds[j], tx, ty) > Distance(g, r.value, tx, ty));
  }

  /** Pinky's target: four cells ahead of Pac-Man in Pac-Man's
      direction, Pac-Man's own cell for any other direction. */
  function PinkyTarget(px: int, py: int, pd: Dir): (t: (int, int))
    ensures pd != Unknown ==> (t.0 - px) * (t.0 - px) + (t.1 - py) * (t.1 - py) == (4 * CellSize) * (4 * CellSize)
    ensures pd == Up ==> t.0 == px && t.1 < py
    ensures pd == Down ==> t.0 == px && t.1 > py
    ensures pd == Left ==> t.1 == py && t.0 < px
    ensures pd == Right ==> t.1 == py && t.0 > px
    ensures pd == Unknown ==> t == (px, py)
  {
    match pd
    case Up => (px, py - 4 * CellSize)
    case Down => (px, py + 4 * CellSize)
    case Left => (px - 4 * CellSize, py)
    case Right => (px + 4 * CellSize, py)
    case Unknown => (px, py)
  }

  /** A pick from `Math.floor(Math.random() * ds.length)`: below the
      length whenever there is a direction to pick. */
  predicate Pick(ds: seq<Dir>, pick: nat) {
    |ds| > 0 ==> pick < |ds|
  }

  function RandomOf(ds: seq<Dir>, pick: nat): (r: Option<Dir>)
    requires Pick(ds, pick)
    ensures r.None? <==> |ds| == 0
    ensures r.Some? ==> r.value in ds
  {
    if |ds| == 0 then None else Some(ds[pick])
  }

  /** `chooseDirection`: Blinky heads for Pac-Man, Pinky for four cells
      ahead of Pac-Man, Inky keeps its direction unless `erratic` (the 30%
      draw) and Clyde heads for Pac-Man when within eight cells and picks
      at random otherwise, as does any other ghost. `Math.sqrt(d) > 128`
      is `d > 128 * 128` on whole pixels. */
  function ChooseDirection(g: Ghost, ds: seq<Dir>, px: int, py: int, pd: Dir, erratic: bool, pick: nat): (r: Option<Dir>)
    requires Pick(ds, pick)
    ensures g.name == Blinky ==> r == DirectionToTarget(g, ds, px, py)
    ensures g.name == Pinky ==> r == DirectionToTarget(g, ds, PinkyTarget(px, py, pd).0, PinkyTarget(px, py, pd).1)
    ensures g.name == Inky && !erratic ==> r == Some(g.direction)
    ensures g.name == Clyde && (g.x - px) * (g.x - px) + (g.y - py) * (g.y - py) <= (8 * CellSize) * (8 * CellSize) ==>
      r == DirectionToTarget(g, ds, px, py)
    ensures g.name != Inky || erratic ==> (r.None? <==> |ds| == 0)
    ensures g.name != Inky || erratic ==> r.Some? ==> r.value in ds
  {
    match g.name
    case Blinky => DirectionToTarget(g, ds, px, py)
    case Pinky =>
      var t := PinkyTarget(px, py, pd);
      DirectionToTarget(g, ds, t.0, t.1)
    case Inky => if erratic then RandomOf(ds, pick) else Some(g.direction)
    case Clyde =>
      var dx, dy := g.x - px, g.y - py;
      if dx * dx + dy * dy > (8 * CellSize) * (8 * CellSize) then RandomOf(ds, pick)
      else DirectionToTarget(g, ds, px, py)
    case OtherName => RandomOf(ds, pick)
  }

  /** Where a released ghost is put: the house exit on row 11. */
  const ExitY := 11 * CellSize

  /** One tick of `updateGhostHouse` for one ghost. */
  function TickGhost(g: Ghost): (g': Ghost)
    ensures !g.inGhostHouse ==> g' == g
    ensures g.inGhostHouse ==> g'.releaseTimer == g.releaseTimer - 30
    ensures g.inGhostHouse ==> (g'.inGhostHouse <==> g'.releaseTimer > 0)
    ensures g.inGhostHouse && !g'.inGhostHouse ==> g'.y == ExitY
    ensures g' == g.(releaseTimer := g'.releaseTimer, inGhostHouse := g'.inGhostHouse, y := g'.y)
    ensures g'.inGhostHouse ==> g'.y == g.y
  {
    if g.inGhostHouse then
      var t := g.releaseTimer - 30;
      if t <= 0 then g.(releaseTimer := t, inGhostHouse := false, y := ExitY)
      else g.(releaseTimer := t)
    else g
  }

  /** `updateGhostHouse`: every ghost ticks. */
  function UpdateGhostHouse(gs: seq<Ghost>): (gs': seq<Ghost>)
    ensures |gs'| == |gs|
    ensures forall i :: 0 <= i < |gs| ==> gs'[i] == TickGhost(gs[i])
  {
    seq(|gs|, i requires 0 <= i < |gs| => TickGhost(gs[i]))
  }

  /** `k` ticks of one ghost. */
  function Ticks(g: Ghost, k: nat): Ghost {
    if k == 0 then g else TickGhost(Ticks(g, k - 1))
  }

  /** A ghost waiting with timer `t` (positive, as every waiting ghost's
      is) is still in the house after `k`
      ticks exactly when 30 k is below `t`, with `t - 30 k` left; once
      out it stands at the exit and ticks no more. */
  lemma {:induction false} ReleaseAfter(g: Ghost, k: nat)
    requires g.inGhostHouse && g.releaseTimer > 0
    ensures Ticks(g, k).inGhostHouse <==> 30 * k < g.releaseTimer
    ensures 30 * k < g.releaseTimer ==> Ticks(g, k) == g.(releaseTimer := g.releaseTimer - 30 * k)
    ensures !Ticks(g, k).inGhostHouse ==> Ticks(g, k).y == ExitY && Ticks(g, k).releaseTimer >= g.releaseTimer - 30 * k
  {
    if k > 0 {
      ReleaseAfter(g, k - 1);
      var before := Ticks(g, k - 1);
      assert Ticks(g, k) == TickGhost(before);
      if 30 * (k - 1) < g.releaseTimer {
        assert before.inGhostHouse && before.releaseTimer == g.releaseTimer - 30 * (k - 1);
        assert TickGhost(before).releaseTimer == g.releaseTimer - 30 * k;
      } else {
        assert !before.inGhostHouse;
      }
    }
  }

  /** For the starting ghosts: Pinky leaves on tick 67, Inky on tick
      134 and Clyde on tick 200. */
  lemma InitialReleaseTicks()
    ensures Ticks(InitialGhosts[1], 66).inGhostHouse && !Ticks(InitialGhosts[1], 67).inGhostHouse
    ensures Ticks(InitialGhosts[2], 133).inGhostHouse && !Ticks(InitialGhosts[2], 134).inGhostHouse
    ensures Ticks(InitialGhosts[3], 199).inGhostHouse && !Ticks(InitialGhosts[3], 200).inGhostHouse
  {
    ReleaseAfter(InitialGhosts[1], 66);
    ReleaseAfter(InitialGhosts[1], 67);
    ReleaseAfter(InitialGhosts[2], 133);
    ReleaseAfter(InitialGhosts[2], 134);
    ReleaseAfter(InitialGhosts[3], 199);
    ReleaseAfter(InitialGhosts[3], 200);
  }

  /** The reverse of a direction; any other string is kept. */
  function Reverse(d: Dir): (r: Dir)
    ensures d == Unknown <==> r == Unknown
    ensures d != Unknown ==> r != d
  {
    match d
    case Up => Down
    case Down => Up
    case Left => Right
    case Right => Left
    case Unknown => Unknown
  }

  lemma ReverseTwice(d: Dir)
    ensures Reverse(Reverse(d)) == d
  {
  }

  /** `frightenGhosts` without its timer: every ghost frightened and
      turned round. */
  function FrightenGhosts(gs: seq<Ghost>): (gs': seq<Ghost>)
    ensures |gs'| == |gs|
    ensures forall i :: 0 <= i < |gs| ==> gs'[i].frightened
    ensures forall i :: 0 <= i < |gs| ==> gs'[i] == gs[i].(frightened := true, direction := gs'[i].direction)
    ensures forall i :: 0 <= i < |gs| ==> Reverse(gs'[i].direction) == gs[i].direction
  {
    seq(|gs|, i requires 0 <= i < |gs| => gs[i].(frightened := true, direction := Reverse(gs[i].direction)))
  }

  /** Frightening twice turns every ghost back to where it was heading. */
  lemma FrightenTwice(gs: seq<Ghost>)
    ensures |FrightenGhosts(FrightenGhosts(gs))| == |gs|
    ensures forall i :: 0 <= i < |gs| ==> FrightenGhosts(FrightenGhosts(gs))[i] == gs[i].(frightened := true)
  {
    forall i | 0 <= i < |gs|
      ensures FrightenGhosts(FrightenGhosts(gs))[i] == gs[i].(frightened := true)
    {
      ReverseTwice(gs[i].direction);
    }
  }
}
