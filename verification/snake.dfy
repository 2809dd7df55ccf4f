/** The rules of games/snake/snake.js without the canvas, the timer and
    the high score: the snake on a grid of `width` by `height` cells, the
    food, one step of the game loop and the direction keys. The grid's
    size comes from the canvas and is a parameter here; the random food
    cell is a sequence of draws. */
module Snake {
  import opened Optional

  datatype Pos = Pos(x: int, y: int)

  datatype Dir = Up | Down | Left | Right

  /** The snake, head first; `food` is `None` while no free cell has been
      drawn. */
  datatype Game = Game(snake: seq<Pos>, food: Option<Pos>, direction: Dir, nextDirection: Dir,
                       score: int, gameOver: bool, paused: bool)

  function Opposite(d: Dir): Dir {
    match d
    case Up => Down
    case Down => Up
    case Left => Right
    case Right => Left
  }

  /** The cell one step from `p` in direction `d`; `y` grows downwards. */
  function Step(p: Pos, d: Dir): (q: Pos)
    ensures (q.x - p.x) * (q.x - p.x) + (q.y - p.y) * (q.y - p.y) == 1
  {
    var (dx, dy) := match d
      case Up => (0, -1)
      case Down => (0, 1)
      case Left => (-1, 0)
      case Right => (1, 0);
    assert dx * dx + dy * dy == 1;
    Pos(p.x + dx, p.y + dy)
  }

  /** Stepping back the opposite way undoes a step. */
  lemma StepBack(p: Pos, d: Dir)
    ensures Step(Step(p, d), Opposite(d)) == p
    ensures Step(p, d) != Step(p, Opposite(d))
  {
  }

  predicate InGrid(p: Pos, width: int, height: int) {
    0 <= p.x < width && 0 <= p.y < height
  }

  predicate Distinct(s: seq<Pos>) {
    forall i, j :: 0 <= i < j < |s| ==> s[i] != s[j]
  }

  /** Draw `i` is the first draw that is not on the snake. */
  predicate FirstOff(snake: seq<Pos>, draws: seq<Pos>, i: int) {
    && 0 <= i < |draws|
    && draws[i] !in snake
    && forall j :: 0 <= j < i ==> draws[j] in snake
  }

  /** `createFood`: the first draw that is not on the snake; a draw on the
      snake is thrown away and another taken. */
  function CreateFood(snake: seq<Pos>, draws: seq<Pos>): (food: Option<Pos>)
    ensures food.Some? ==> food.value !in snake && food.value in draws
    ensures food.None? <==> forall d :: d in draws ==> d in snake
    ensures food.Some? ==> exists i :: FirstOff(snake, draws, i) && draws[i] == food.value
  {
    if |draws| == 0 then None
    else if draws[0] in snake then
      var food := CreateFood(snake, draws[1..]);
      assert food.Some? ==> exists i :: FirstOff(snake, draws, i) && draws[i] == food.value by {
        if food.Some? {
          var i :| FirstOff(snake, draws[1..], i) && draws[1..][i] == food.value;
          assert FirstOff(snake, draws, i + 1) by {
            forall j | 0 <= j < i + 1 ensures draws[j] in snake {
              if j > 0 { assert draws[j] == draws[1..][j - 1]; }
            }
          }
        }
      }
      food
    else
      assert FirstOff(snake, draws, 0);
      Some(draws[0])
  }

  /** The food is determined by the draws: it is the first draw off the
      snake whenever there is one. */
  lemma FoodIsFirstOff(snake: seq<Pos>, draws: seq<Pos>, i: int)
    requires FirstOff(snake, draws, i)
    ensures CreateFood(snake, draws) == Some(draws[i])
  {
  }

  const Start: seq<Pos> := [Pos(10, 10), Pos(9, 10), Pos(8, 10)]

  /** `init`: three segments heading right from (10, 10), score 0, and
      food off the snake. The pause flag is left as it was. */
  function Init(g: Game, draws: seq<Pos>): (g': Game)
    ensures |g'.snake| == 3 && g'.snake[0] == Pos(10, 10) && Step(g'.snake[1], Right) == g'.snake[0]
    ensures Step(g'.snake[2], Right) == g'.snake[1]
    ensures g'.direction == Right && g'.nextDirection == Right
    ensures g'.score == 0 && !g'.gameOver && g'.paused == g.paused
    ensures g'.food.Some? ==> g'.food.value !in g'.snake
  {
    Game(Start, CreateFood(Start, draws), Right, Right, 0, false, g.paused)
  }

  /** `moveSnake`: the direction becomes the one asked for and the head
      steps that way. A head off the grid or on any segment, the tail
      included, ends the game and leaves the snake where it was. A head
      on the food grows the snake by one, scores 10 and draws new food;
      any other step drops the tail. */
  function MoveSnake(g: Game, width: int, height: int, draws: seq<Pos>): (g': Game)
    requires |g.snake| > 0
    ensures g'.direction == g.nextDirection && g'.nextDirection == g.nextDirection && g'.paused == g.paused
    ensures var head := Step(g.snake[0], g.nextDirection);
      && (g'.gameOver <==> g.gameOver || !InGrid(head, width, height) || head in g.snake)
      && (!InGrid(head, width, height) || head in g.snake ==> g'.snake == g.snake && g'.score == g.score && g'.food == g.food)
      && (InGrid(head, width, height) && head !in g.snake ==> |g'.snake| > 0 && g'.snake[0] == head && g'.snake[1..] <= g.snake)
      && (InGrid(head, width, height) && head !in g.snake && g.food == Some(head) ==>
            g'.snake == [head] + g.snake && g'.score == g.score + 10)
      && (InGrid(head, width, height) && head !in g.snake && g.food != Some(head) ==>
            |g'.snake| == |g.snake| && g'.score == g.score && g'.food == g.food)
  {
    var dir := g.nextDirection;
    var head := Step(g.snake[0], dir);
    var g1 := g.(direction := dir);
    if !InGrid(head, width, height) || head in g.snake then
      g1.(gameOver := true)
    else if g.food == Some(head) then
      var s := [head] + g.snake;
      g1.(snake := s, score := g.score + 10, food := CreateFood(s, draws))
    else
      g1.(snake := [head] + g.snake[..|g.snake| - 1])
  }

  /** `update`: nothing happens once the game is over or while it is
      paused. */
  function Update(g: Game, width: int, height: int, draws: seq<Pos>): (g': Game)
    requires |g.snake| > 0
    ensures g.gameOver || g.paused ==> g' == g
    ensures !g.gameOver && !g.paused ==> g' == MoveSnake(g, width, height, draws)
  {
    if g.gameOver || g.paused then g else MoveSnake(g, width, height, draws)
  }

  datatype Key = KeyLeft | KeyUp | KeyRight | KeyDown | KeyPause | OtherKey

  /** The keydown handler: ignored once the game is over; an arrow asks
      for its direction unless it is the reverse of the current one, and
      the pause key toggles the pause. */
  function HandleKey(g: Game, key: Key): (g': Game)
    ensures g.gameOver ==> g' == g
    ensures g'.nextDirection != Opposite(g.direction) || g'.nextDirection == g.nextDirection
    ensures g' == g.(nextDirection := g'.nextDirection, paused := g'.paused)
    ensures !g.gameOver && key == KeyPause ==> g'.paused == !g.paused
  {
    if g.gameOver then g
    else
      match key
      case KeyLeft => if g.direction != Right then g.(nextDirection := Left) else g
      case KeyUp => if g.direction != Down then g.(nextDirection := Up) else g
      case KeyRight => if g.direction != Left then g.(nextDirection := Right) else g
      case KeyDown => if g.direction != Up then g.(nextDirection := Down) else g
      case KeyPause => g.(paused := !g.paused)
      case OtherKey => g
  }

  /** An arrow key changes the direction asked for exactly when the game
      is running and the arrow does not point back the way the snake is
      going. */
  lemma ArrowTurns(g: Game, key: Key, d: Dir)
    requires (key, d) in {(KeyLeft, Left), (KeyUp, Up), (KeyRight, Right), (KeyDown, Down)}
    ensures HandleKey(g, key).nextDirection == d <==> (!g.gameOver && d != Opposite(g.direction)) || g.nextDirection == d
  {
  }

  /** What holds between steps of a running game: the segments are on the
      grid and pairwise distinct, each segment is one step behind the one
      before it, the head's direction is the one last taken, no reverse
      is asked for, the food is off the snake, and the score counts ten
      for each segment grown from the three of `init`. */
  ghost predicate Inv(g: Game, width: int, height: int) {
    && |g.snake| >= 3
    && (forall i :: 0 <= i < |g.snake| ==> InGrid(g.snake[i], width, height))
    && Distinct(g.snake)
    && Step(g.snake[1], g.direction) == g.snake[0]
    && g.nextDirection != Opposite(g.direction)
    && (g.food.Some? ==> g.food.value !in g.snake)
    && g.score == 10 * (|g.snake| - 3)
  }

  /** A new game on a grid wider and taller than 10 cells meets the
      invariant. */
  lemma InitKeepsInv(g: Game, draws: seq<Pos>, width: int, height: int)
    requires width > 10 && height > 10
    ensures Inv(Init(g, draws), width, height)
  {
  }

  /** The keys keep the invariant. */
  lemma HandleKeyKeepsInv(g: Game, key: Key, width: int, height: int)
    requires Inv(g, width, height)
    ensures Inv(HandleKey(g, key), width, height)
  {
  }

  /** The head never turns back into the neck: asking for any direction
      but the reverse keeps the new head off the second segment. */
  lemma NeverIntoNeck(g: Game)
    requires |g.snake| >= 2 && Step(g.snake[1], g.direction) == g.snake[0]
    requires g.nextDirection != Opposite(g.direction)
    ensures Step(g.snake[0], g.nextDirection) != g.snake[1]
  {
  }

  /** Dropping the last element keeps the others distinct and on the grid. */
  lemma DropTail(s: seq<Pos>, head: Pos, width: int, height: int)
    requires |s| > 0 && Distinct(s) && head !in s && InGrid(head, width, height)
    requires forall i :: 0 <= i < |s| ==> InGrid(s[i], width, height)
    ensures var t := [head] + s[..|s| - 1];
      Distinct(t) && (forall i :: 0 <= i < |t| ==> InGrid(t[i], width, height))
  {
    var t := [head] + s[..|s| - 1];
    forall i, j | 0 <= i < j < |t|
      ensures t[i] != t[j]
    {
      assert t[j] == s[j - 1];
      if i > 0 {
        assert t[i] == s[i - 1];
      }
    }
  }

  /** Growing by a new head keeps the segments distinct and on the grid. */
  lemma Grow(s: seq<Pos>, head: Pos, width: int, height: int)
    requires Distinct(s) && head !in s && InGrid(head, width, height)
    requires forall i :: 0 <= i < |s| ==> InGrid(s[i], width, height)
    ensures var t := [head] + s;
      Distinct(t) && (forall i :: 0 <= i < |t| ==> InGrid(t[i], width, height))
  {
    var t := [head] + s;
    forall i, j | 0 <= i < j < |t|
      ensures t[i] != t[j]
    {
      assert t[j] == s[j - 1];
      if i > 0 {
        assert t[i] == s[i - 1];
      }
    }
  }

  /** A step of the loop keeps the invariant, with the segments distinct
      and on the grid, as long as the game has not ended; and a step that
      does not end the game moves the head one cell. */
  lemma UpdateKeepsInv(g: Game, width: int, height: int, draws: seq<Pos>)
    requires Inv(g, width, height)
    ensures var g' := Update(g, width, height, draws);
      && (!g'.gameOver ==> Inv(g', width, height))
      && (!g.gameOver && !g.paused && !g'.gameOver ==> g'.snake[0] == Step(g.snake[0], g.nextDirection))
      && (!g.gameOver && !g.paused && !g'.gameOver ==> |g'.snake| == |g.snake| || |g'.snake| == |g.snake| + 1)
  {
    var g' := Update(g, width, height, draws);
    if !g.gameOver && !g.paused && !g'.gameOver {
      var head := Step(g.snake[0], g.nextDirection);
      if g.food == Some(head) {
        Grow(g.snake, head, width, height);
      } else {
        DropTail(g.snake, head, width, height);
        assert g'.snake[1] == g.snake[0];
      }
    }
  }
}
