/** games/spaceinvaders/constants.js: the sizes, speeds and the alien
    formation. */
module SpaceInvadersConstants {
  const PlayerWidth: real := 60.0
  const PlayerHeight: real := 20.0
  const PlayerSpeed: real := 5.0

  const BulletSpeed: real := 7.0
  const AlienBulletSpeed: real := 3.0
  const BulletWidth: real := 3.0
  const BulletHeight: real := 15.0

  const AlienRows := 5
  const AlienCols := 11
  const AlienWidth := 40
  const AlienHeight := 30
  const AlienPadding := 10
  const AlienTopOffset := 60
  const AlienLeftOffset := 30
  const AlienMoveDown := 20

  /** Points per alien row, top to bottom. */
  const AlienPoints: seq<int> := [30, 20, 20, 10, 10]
}

/** The object factories and tests of games/spaceinvaders/physics.js.
    Positions are reals, as the source's halves make them. */
module SpaceInvadersPhysics {
  import opened SpaceInvadersConstants
  import opened Optional

  /** What `checkCollision` reads of any object. */
  datatype Box = Box(x: real, y: real, width: real, height: real)

  datatype Player = Player(box: Box, speed: real, isHit: bool, hitTimer: int)

  datatype Bullet = Bullet(box: Box, speed: real)

  datatype Alien = Alien(box: Box, kind: int, alive: bool, points: int, animFrame: int, lastAnimTime: int)

  datatype ShieldPart = ShieldPart(box: Box, health: int)

  datatype Explosion = Explosion(x: real, y: real, size: real, opacity: real, frame: int)

  /** `checkCollision`: the boxes overlap on both axes, strictly. */
  predicate Collide(a: Box, b: Box) {
    a.x < b.x + b.width && a.x + a.width > b.x && a.y < b.y + b.height && a.y + a.height > b.y
  }

  lemma CollideSymmetric(a: Box, b: Box)
    ensures Collide(a, b) <==> Collide(b, a)
  {
  }

  /** Boxes that only touch along an edge do not collide. */
  lemma TouchingDoNotCollide(a: Box, b: Box)
    requires a.x + a.width == b.x || b.x + b.width == a.x || a.y + a.height == b.y || b.y + b.height == a.y
    ensures !Collide(a, b)
  {
  }

  predicate Inside(px: real, py: real, b: Box) {
    b.x < px < b.x + b.width && b.y < py < b.y + b.height
  }

  function Max(a: real, b: real): real { if a < b then b else a }
  function Min(a: real, b: real): real { if a < b then a else b }

  /** Two boxes of positive size collide exactly when some point lies
      strictly inside both; the centre of the overlap is one. */
  lemma CollideIffCommonPoint(a: Box, b: Box)
    requires a.width > 0.0 && a.height > 0.0 && b.width > 0.0 && b.height > 0.0
    ensures Collide(a, b) ==> Inside((Max(a.x, b.x) + Min(a.x + a.width, b.x + b.width)) / 2.0,
                                     (Max(a.y, b.y) + Min(a.y + a.height, b.y + b.height)) / 2.0, a)
    ensures Collide(a, b) ==> Inside((Max(a.x, b.x) + Min(a.x + a.width, b.x + b.width)) / 2.0,
                                     (Max(a.y, b.y) + Min(a.y + a.height, b.y + b.height)) / 2.0, b)
    ensures forall px, py :: Inside(px, py, a) && Inside(px, py, b) ==> Collide(a, b)
  {
    if Collide(a, b) {
      var lo, hi := Max(a.x, b.x), Min(a.x + a.width, b.x + b.width);
      assert lo < (lo + hi) / 2.0 < hi;
      var top, bottom := Max(a.y, b.y), Min(a.y + a.height, b.y + b.height);
      assert top < (top + bottom) / 2.0 < bottom;
    }
  }

  /** `createPlayer` on a canvas of `cw` by `ch`: centred, 20 pixels
      above the bottom. */
  function CreatePlayer(cw: real, ch: real): (p: Player)
    ensures p.box.x + p.box.width / 2.0 == cw / 2.0
    ensures p.box.y + p.box.height + 20.0 == ch
    ensures p.box.width == PlayerWidth && p.box.height == PlayerHeight && !p.isHit && p.hitTimer == 0
  {
    Player(Box(cw / 2.0 - PlayerWidth / 2.0, ch - PlayerHeight - 20.0, PlayerWidth, PlayerHeight), PlayerSpeed, false, 0)
  }

  /** `createPlayerBullet`: a bullet only once the fire interval has
      passed, centred on the player and standing on its top edge. */
  function CreatePlayerBullet(player: Box, lastFire: int, now: int, fireRate: int): (r: Option<Bullet>)
    ensures r.Some? <==> now - lastFire >= fireRate
    ensures r.Some? ==> r.value.box.x + r.value.box.width / 2.0 == player.x + player.width / 2.0
    ensures r.Some? ==> r.value.box.y + r.value.box.height == player.y
    ensures r.Some? ==> r.value.box.width == BulletWidth && r.value.speed == BulletSpeed
  {
    if now - lastFire >= fireRate then
      Some(Bullet(Box(player.x + player.width / 2.0 - BulletWidth / 2.0, player.y - BulletHeight,
                      BulletWidth, BulletHeight), BulletSpeed))
    else None
  }

  /** A fresh player bullet starts clear of the player. */
  lemma BulletClearOfPlayer(player: Box, lastFire: int, now: int, fireRate: int)
    requires CreatePlayerBullet(player, lastFire, now, fireRate).Some?
    ensures !Collide(CreatePlayerBullet(player, lastFire, now, fireRate).value.box, player)
  {
  }

  /** `createAlienBullet`: centred under the alien, from its bottom edge. */
  function CreateAlienBullet(alien: Box): (b: Bullet)
    ensures b.box.x + b.box.width / 2.0 == alien.x + alien.width / 2.0
    ensures b.box.y == alien.y + alien.height
    ensures b.box.width == BulletWidth && b.box.height == BulletHeight && b.speed == AlienBulletSpeed
  {
    Bullet(Box(alien.x + alien.width / 2.0 - BulletWidth / 2.0, alien.y + alien.height, BulletWidth, BulletHeight),
           AlienBulletSpeed)
  }

  /** `createExplosion`: fully opaque at frame 0, 30 pixels across unless
      a size is given. */
  function CreateExplosion(x: real, y: real, size: Option<real>): (e: Explosion)
    ensures e.x == x && e.y == y && e.opacity == 1.0 && e.frame == 0
    ensures size.None? ==> e.size == 30.0
    ensures size.Some? ==> e.size == size.value
  {
    Explosion(x, y, size.GetOr(30.0), 1.0, 0)
  }

  /** The alien the formation puts at `row`, `col`. */
  function AlienAt(row: int, col: int): Alien
    requires 0 <= row < AlienRows
  {
    Alien(Box((col * (AlienWidth + AlienPadding) + AlienLeftOffset) as real,
              (row * (AlienHeight + AlienPadding) + AlienTopOffset) as real,
              AlienWidth as real, AlienHeight as real),
          row, true, AlienPoints[row], 0, 0)
  }

  /** `createAliens`: five rows of eleven, row by row; each alien is alive,
      of its row's type and worth its row's points. */
  method CreateAliens() returns (aliens: seq<Alien>)
    ensures |aliens| == AlienRows * AlienCols == 55
    ensures forall i :: 0 <= i < |aliens| ==> aliens[i] == AlienAt(i / AlienCols, i % AlienCols)
    ensures forall i :: 0 <= i < |aliens| ==>
      aliens[i].alive && aliens[i].kind == i / AlienCols && aliens[i].points == AlienPoints[i / AlienCols]
  {
    aliens := [];
    var row := 0;
    while row < AlienRows
      invariant 0 <= row <= AlienRows
      invariant |aliens| == row * AlienCols
      invariant forall i :: 0 <= i < |aliens| ==> aliens[i] == AlienAt(i / AlienCols, i % AlienCols)
    {
      var col := 0;
      while col < AlienCols
        invariant 0 <= col <= AlienCols
        invariant |aliens| == row * AlienCols + col
        invariant forall i :: 0 <= i < |aliens| ==> aliens[i] == AlienAt(i / AlienCols, i % AlienCols)
      {
        FormationIndex(row, col);
        aliens := aliens + [AlienAt(row, col)];
        col := col + 1;
      }
      row := row + 1;
    }
  }

  /** Position `row * 11 + col` of the formation holds row `row`,
      column `col`. */
  lemma FormationIndex(row: int, col: int)
    requires 0 <= row < AlienRows && 0 <= col < AlienCols
    ensures (row * AlienCols + col) / AlienCols == row && (row * AlienCols + col) % AlienCols == col
  {
  }

  /** No two aliens of the formation overlap. */
  lemma FormationApart(r1: int, c1: int, r2: int, c2: int)
    requires 0 <= r1 < AlienRows && 0 <= r2 < AlienRows
    requires (r1, c1) != (r2, c2)
    ensures !Collide(AlienAt(r1, c1).box, AlienAt(r2, c2).box)
  {
    if c1 != c2 {
      assert c1 < c2 ==> c1 * 50 + 50 <= c2 * 50;
      assert c2 < c1 ==> c2 * 50 + 50 <= c1 * 50;
    } else {
      assert r1 < r2 ==> r1 * 40 + 40 <= r2 * 40;
      assert r2 < r1 ==> r2 * 40 + 40 <= r1 * 40;
    }
  }

  /** An alive alien in the same column, lower down. */
  predicate Below(other: Alien, alien: Alien) {
    other.alive && other.box.x == alien.box.x && other.box.y > alien.box.y
  }

  /** `isBottomAlien`: no alive alien in the list stands below. */
  method IsBottomAlien(alien: Alien, aliens: seq<Alien>) returns (bottom: bool)
    ensures bottom <==> forall i :: 0 <= i < |aliens| ==> !Below(aliens[i], alien)
  {
    var i := 0;
    while i < |aliens|
      invariant 0 <= i <= |aliens|
      invariant forall j :: 0 <= j < i ==> !Below(aliens[j], alien)
    {
      if Below(aliens[i], alien) {
        return false;
      }
      i := i + 1;
    }
    return true;
  }

  /** In the full formation, the aliens with nothing below are those of
      the last row. */
  lemma BottomOfFormation(aliens: seq<Alien>, i: int)
    requires |aliens| == 55 && forall j :: 0 <= j < 55 ==> aliens[j] == AlienAt(j / AlienCols, j % AlienCols)
    requires 0 <= i < 55
    ensures (forall j :: 0 <= j < 55 ==> !Below(aliens[j], aliens[i])) <==> i / AlienCols == AlienRows - 1
  {
    var row, col := i / AlienCols, i % AlienCols;
    if row < AlienRows - 1 {
      var j := i + AlienCols;
      assert j / AlienCols == row + 1 && j % AlienCols == col;
      assert Below(aliens[j], aliens[i]);
    } else {
      forall j | 0 <= j < 55
        ensures !Below(aliens[j], aliens[i])
      {
        assert j / AlienCols <= row;
      }
    }
  }

  // ---------------------------------------------------------------------
  // Shields

  /** Four shields of 8 by 6 parts of 10 by 10 pixels, 60 apart, 150
      pixels above the bottom. */
  const ShieldWidth := 80
  const ShieldHeight := 60
  const ShieldPadding := 60
  const PartsX := 8
  const PartsY := 6

  /** The notch at the foot of a shield: rows 4 and 5, columns 2 to 5. */
  predicate Notch(row: int, col: int) {
    row >= 4 && col >= 2 && col < 6
  }

  /** The part at `row`, `col` of shield `s` on a canvas of `cw` by `ch`. */
  function PartAt(cw: real, ch: real, s: int, row: int, col: int): ShieldPart {
    var partWidth := (ShieldWidth / PartsX) as real;
    var partHeight := (ShieldHeight / PartsY) as real;
    var shieldX := (s * (ShieldWidth + ShieldPadding)) as real + (cw - (4 * ShieldWidth + 3 * ShieldPadding) as real) / 2.0;
    var shieldY := ch - 150.0;
    ShieldPart(Box(shieldX + col as real * partWidth, shieldY + row as real * partHeight, partWidth, partHeight), 3)
  }

  /** The parts a shield has pushed before row `row`. */
  function Before(row: int): int {
    if row <= 4 then 8 * row else 32 + 4 * (row - 4)
  }

  /** The parts row `row` has pushed before column `col`. */
  function InRow(row: int, col: int): int {
    if row < 4 || col <= 2 then col else if col <= 6 then 2 else col - 4
  }

  /** The row and column of the `j`-th part of a shield, `j < 40`. */
  function RowOf(j: int): int {
    if j < 32 then j / 8 else 4 + (j - 32) / 4
  }

  function ColOf(j: int): int {
    if j < 32 then j % 8 else if (j - 32) % 4 < 2 then (j - 32) % 4 else (j - 32) % 4 + 4
  }

  /** The part pushed for a cell outside the notch lands at its index. */
  lemma PartIndex(s: int, row: int, col: int)
    requires 0 <= s && 0 <= row < PartsY && 0 <= col < PartsX && !Notch(row, col)
    ensures var j := Before(row) + InRow(row, col);
      && 0 <= j < 40
      && (40 * s + j) / 40 == s && (40 * s + j) % 40 == j
      && RowOf(j) == row && ColOf(j) == col
  {
  }

  /** The part at index `i` of the list. */
  function PartNo(cw: real, ch: real, i: int): ShieldPart {
    PartAt(cw, ch, i / 40, RowOf(i % 40), ColOf(i % 40))
  }

  /** `createShields`: shield by shield, row by row, column by column,
      every cell but the notch's. */
  method CreateShields(cw: real, ch: real) returns (shields: seq<ShieldPart>)
    ensures |shields| == 160
    ensures forall i :: 0 <= i < |shields| ==> shields[i] == PartNo(cw, ch, i) && shields[i].health == 3
  {
    shields := [];
    var s := 0;
    while s < 4
      invariant 0 <= s <= 4
      invariant |shields| == 40 * s
      invariant forall i :: 0 <= i < |shields| ==> shields[i] == PartNo(cw, ch, i)
    {
      var row := 0;
      while row < PartsY
        invariant 0 <= row <= PartsY
        invariant |shields| == 40 * s + Before(row)
        invariant forall i :: 0 <= i < |shields| ==> shields[i] == PartNo(cw, ch, i)
      {
        var col := 0;
        while col < PartsX
          invariant 0 <= col <= PartsX
          invariant |shields| == 40 * s + Before(row) + InRow(row, col)
          invariant forall i :: 0 <= i < |shields| ==> shields[i] == PartNo(cw, ch, i)
        {
          if !Notch(row, col) {
            PartIndex(s, row, col);
            shields := shields + [PartAt(cw, ch, s, row, col)];
          }
          col := col + 1;
        }
        row := row + 1;
      }
      s := s + 1;
    }
  }

  /** Every part of a shield's forty is a cell outside the notch, and every
      cell outside the notch is one of them, once. */
  lemma ShieldLayout(j: int, row: int, col: int)
    requires 0 <= row < PartsY && 0 <= col < PartsX
    ensures 0 <= j < 40 ==> 0 <= RowOf(j) < PartsY && 0 <= ColOf(j) < PartsX && !Notch(RowOf(j), ColOf(j))
    ensures 0 <= j < 40 && RowOf(j) == row && ColOf(j) == col ==> j == Before(row) + InRow(row, col)
    ensures !Notch(row, col) ==> RowOf(Before(row) + InRow(row, col)) == row && ColOf(Before(row) + InRow(row, col)) == col
  {
    if !Notch(row, col) {
      PartIndex(0, row, col);
    }
  }
}
