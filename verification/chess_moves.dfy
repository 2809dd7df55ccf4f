/** Pseudo-legal move generation of games/chess/chess.js: the per-piece
    rules (`getPawnMoves` ... `getKingMoves`), before the self-check filter.
    Destinations are listed in the order the source pushes them. */
module ChessMoves {

  import opened ChessBoard

  /** Pawn moves: one step onto an empty square, two steps from the start
      row when both squares are empty, and a diagonal step onto an opponent
      piece. There is no en passant, and `hasMoved` is not consulted. */
  function PawnMoves(b: Board, p: Pos, c: Color): (r: seq<Pos>)
    requires OnBoard(p)
    ensures forall q :: q in r ==> OnBoard(q) && !HasColor(b, q, c)
    ensures forall q :: q in r <==>
      || (q == Pos(p.row + Forward(c), p.col) && OnBoard(q) && q !in b)
      || (q == Pos(p.row + 2 * Forward(c), p.col) && p.row == StartRow(c)
          && Pos(p.row + Forward(c), p.col) !in b && q !in b)
      || (q.row == p.row + Forward(c) && (q.col == p.col - 1 || q.col == p.col + 1)
          && OnBoard(q) && HasColor(b, q, Opponent(c)))
  {
    var dir := Forward(c);
    var one := Pos(p.row + dir, p.col);
    var two := Pos(p.row + 2 * dir, p.col);
    var forward :=
      if 0 <= one.row < 8 && one !in b then
        [one] + (if p.row == StartRow(c) && two !in b then [two] else [])
      else [];
    forward + PawnCapture(b, p, Offset(dir, -1), c) + PawnCapture(b, p, Offset(dir, 1), c)
  }

  function PawnCapture(b: Board, p: Pos, o: Offset, c: Color): seq<Pos> {
    var q := Add(p, o);
    if OnBoard(q) && HasColor(b, q, Opponent(c)) then [q] else []
  }

  /** The targets of one sliding ray from `p`, starting `k` steps out: empty
      squares up to the first occupied one, which is included iff it holds an
      opponent piece. */
  function Ray(b: Board, p: Pos, d: Offset, c: Color, k: nat): (r: seq<Pos>)
    requires IsUnit(d) && OnBoard(p)
    decreases 8 - k
  {
    var q := Shift(p, d, k);
    if !OnBoard(q) then []
    else if q !in b then [q] + Ray(b, p, d, c, k + 1)
    else if b[q].color != c then [q]
    else []
  }

  /** A square is on the ray iff it is reached through empty squares and does
      not hold a piece of the mover's colour. */
  lemma {:induction false} RayMembership(b: Board, p: Pos, d: Offset, c: Color, k: nat, q: Pos)
    requires IsUnit(d) && OnBoard(p)
    ensures q in Ray(b, p, d, c, k) <==>
      exists j :: k <= j && q == Shift(p, d, j) && OnBoard(q) && Clear(b, p, d, k, j)
                  && !HasColor(b, q, c)
    decreases 8 - k
  {
    var s := Shift(p, d, k);
    if !OnBoard(s) {
      if exists j :: k <= j && q == Shift(p, d, j) && OnBoard(q) && Clear(b, p, d, k, j) && !HasColor(b, q, c) {
        var j :| k <= j && q == Shift(p, d, j) && OnBoard(q) && Clear(b, p, d, k, j) && !HasColor(b, q, c);
        OffBoardStaysOff(p, d, k, j);
        assert false;
      }
    } else if s !in b {
      ShiftBound(p, d, k);
      RayMembership(b, p, d, c, k + 1, q);
      if q in Ray(b, p, d, c, k) && q != s {
        var j :| k + 1 <= j && q == Shift(p, d, j) && OnBoard(q) && Clear(b, p, d, k + 1, j) && !HasColor(b, q, c);
        assert Clear(b, p, d, k, j);
      }
      if exists j :: k <= j && q == Shift(p, d, j) && OnBoard(q) && Clear(b, p, d, k, j) && !HasColor(b, q, c) {
        var j :| k <= j && q == Shift(p, d, j) && OnBoard(q) && Clear(b, p, d, k, j) && !HasColor(b, q, c);
        if j > k {
          assert Clear(b, p, d, k + 1, j);
        }
      }
    } else {
      if exists j :: k <= j && q == Shift(p, d, j) && OnBoard(q) && Clear(b, p, d, k, j) && !HasColor(b, q, c) {
        var j :| k <= j && q == Shift(p, d, j) && OnBoard(q) && Clear(b, p, d, k, j) && !HasColor(b, q, c);
        assert j == k;
      }
    }
  }

  /** Once a ray leaves the board it does not come back. */
  lemma OffBoardStaysOff(p: Pos, d: Offset, k: int, j: int)
    requires IsUnit(d) && OnBoard(p) && 0 <= k <= j && !OnBoard(Shift(p, d, k))
    ensures !OnBoard(Shift(p, d, j))
  {
  }

  /** The rays of a sliding piece, concatenated in the order of `dirs`. */
  function Slides(b: Board, p: Pos, dirs: seq<Offset>, c: Color): (r: seq<Pos>)
    requires OnBoard(p) && forall i :: 0 <= i < |dirs| ==> IsUnit(dirs[i])
  {
    if dirs == [] then [] else Ray(b, p, dirs[0], c, 1) + Slides(b, p, dirs[1..], c)
  }

  lemma {:induction false} SlidesMembership(b: Board, p: Pos, dirs: seq<Offset>, c: Color, q: Pos)
    requires OnBoard(p) && forall i :: 0 <= i < |dirs| ==> IsUnit(dirs[i])
    ensures q in Slides(b, p, dirs, c) <==> exists i :: 0 <= i < |dirs| && q in Ray(b, p, dirs[i], c, 1)
  {
    if dirs != [] {
      SlidesMembership(b, p, dirs[1..], c, q);
      if q in Slides(b, p, dirs[1..], c) {
        var i :| 0 <= i < |dirs[1..]| && q in Ray(b, p, dirs[1..][i], c, 1);
        assert q in Ray(b, p, dirs[i + 1], c, 1);
      }
      if exists i :: 0 <= i < |dirs| && q in Ray(b, p, dirs[i], c, 1) {
        var i :| 0 <= i < |dirs| && q in Ray(b, p, dirs[i], c, 1);
        if i > 0 {
          assert q in Ray(b, p, dirs[1..][i - 1], c, 1);
        }
      }
    }
  }

  /** A square reached from `p` by sliding along `d`: the reference reading
      of "moves like a rook/bishop" that the rays implement. */
  ghost predicate SlideReaches(b: Board, p: Pos, d: Offset, c: Color, q: Pos)
    requires IsUnit(d)
  {
    exists j :: 1 <= j && q == Shift(p, d, j) && OnBoard(q) && Clear(b, p, d, 1, j) && !HasColor(b, q, c)
  }

  /** The destinations of a sliding piece are exactly the squares it reaches
      along one of its directions. */
  lemma SlidesReach(b: Board, p: Pos, dirs: seq<Offset>, c: Color, q: Pos)
    requires OnBoard(p) && forall i :: 0 <= i < |dirs| ==> IsUnit(dirs[i])
    ensures q in Slides(b, p, dirs, c) <==> exists i :: 0 <= i < |dirs| && SlideReaches(b, p, dirs[i], c, q)
  {
    SlidesMembership(b, p, dirs, c, q);
    forall i | 0 <= i < |dirs|
      ensures q in Ray(b, p, dirs[i], c, 1) <==> SlideReaches(b, p, dirs[i], c, q)
    {
      RayMembership(b, p, dirs[i], c, 1, q);
    }
  }

  /** Fixed-offset moves (knight and king): on-board targets that do not hold
      a piece of the mover's colour. */
  function Leaps(b: Board, p: Pos, offs: seq<Offset>, c: Color): (r: seq<Pos>)
    ensures forall q :: q in r <==>
      exists i :: 0 <= i < |offs| && q == Add(p, offs[i]) && OnBoard(q) && !HasColor(b, q, c)
  {
    if offs == [] then []
    else
      var q := Add(p, offs[0]);
      var rest := Leaps(b, p, offs[1..], c);
      assert forall q' :: q' in rest <==>
        exists i :: 1 <= i < |offs| && q' == Add(p, offs[i]) && OnBoard(q') && !HasColor(b, q', c) by {
        forall q' | q' in rest
          ensures exists i :: 1 <= i < |offs| && q' == Add(p, offs[i]) && OnBoard(q') && !HasColor(b, q', c)
        {
          var i :| 0 <= i < |offs[1..]| && q' == Add(p, offs[1..][i]) && OnBoard(q') && !HasColor(b, q', c);
          assert offs[1..][i] == offs[i + 1];
        }
        forall q' | exists i :: 1 <= i < |offs| && q' == Add(p, offs[i]) && OnBoard(q') && !HasColor(b, q', c)
          ensures q' in rest
        {
          var i :| 1 <= i < |offs| && q' == Add(p, offs[i]) && OnBoard(q') && !HasColor(b, q', c);
          assert offs[1..][i - 1] == offs[i];
        }
      }
      (if OnBoard(q) && !HasColor(b, q, c) then [q] else []) + rest
  }

  function RookMoves(b: Board, p: Pos, c: Color): seq<Pos>
    requires OnBoard(p)
  {
    Slides(b, p, RookDirs, c)
  }

  function BishopMoves(b: Board, p: Pos, c: Color): seq<Pos>
    requires OnBoard(p)
  {
    Slides(b, p, BishopDirs, c)
  }

  /** A queen moves like a rook and a bishop combined. */
  function QueenMoves(b: Board, p: Pos, c: Color): seq<Pos>
    requires OnBoard(p)
  {
    RookMoves(b, p, c) + BishopMoves(b, p, c)
  }

  function KnightMoves(b: Board, p: Pos, c: Color): seq<Pos> {
    Leaps(b, p, KnightOffsets, c)
  }

  /** King steps; there is no castling. */
  function KingMoves(b: Board, p: Pos, c: Color): seq<Pos> {
    Leaps(b, p, KingOffsets, c)
  }

  /** The per-kind dispatch of `getValidMoves`, before the self-check filter.
      An empty square has no moves. */
  function PseudoMoves(b: Board, p: Pos): seq<Pos>
    requires IsBoard(b)
  {
    if p !in b then []
    else
      var c := b[p].color;
      match b[p].kind
      case Pawn => PawnMoves(b, p, c)
      case Rook => RookMoves(b, p, c)
      case Knight => KnightMoves(b, p, c)
      case Bishop => BishopMoves(b, p, c)
      case Queen => QueenMoves(b, p, c)
      case King => KingMoves(b, p, c)
  }

  /** Every pseudo-legal destination is on the board and does not hold a piece
      of the mover's colour, so no move stays in place. */
  lemma PseudoMovesTargets(b: Board, p: Pos, q: Pos)
    requires IsBoard(b) && q in PseudoMoves(b, p)
    ensures p in b && OnBoard(q) && !HasColor(b, q, b[p].color) && q != p
  {
    var c := b[p].color;
    match b[p].kind
    case Pawn =>
    case Knight =>
    case King =>
    case Rook =>
      SlidesReach(b, p, RookDirs, c, q);
    case Bishop =>
      SlidesReach(b, p, BishopDirs, c, q);
    case Queen =>
      SlidesReach(b, p, RookDirs, c, q);
      SlidesReach(b, p, BishopDirs, c, q);
  }
}
