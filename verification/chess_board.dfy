/** The chess board of games/chess/chess.js as a value: squares, pieces,
    direction offsets and the starting position.

    Row 0 is Black's back rank and row 7 is White's. A board is a finite map
    from occupied squares to pieces; a square that is not a key is empty. */
module ChessBoard {

  import opened Optional

  datatype Color = White | Black
  datatype Kind = Pawn | Rook | Knight | Bishop | Queen | King

  /** `hasMoved` is recorded for the history entry only: no rule reads it. */
  datatype Piece = Piece(color: Color, kind: Kind, hasMoved: bool)

  datatype Pos = Pos(row: int, col: int)

  /** A step on the board, `dr` rows and `dc` columns. */
  datatype Offset = Offset(dr: int, dc: int)

  type Board = map<Pos, Piece>

  /** The cached king squares (`kings` in the source). */
  datatype Kings = Kings(white: Pos, black: Pos) {
    function Of(c: Color): Pos {
      if c == White then white else black
    }
    function With(c: Color, p: Pos): (k: Kings)
      ensures k.Of(c) == p && k.Of(Opponent(c)) == Of(Opponent(c))
    {
      if c == White then this.(white := p) else this.(black := p)
    }
  }

  function Opponent(c: Color): (o: Color)
    ensures o != c
  {
    if c == White then Black else White
  }

  predicate OnBoard(p: Pos) {
    0 <= p.row < 8 && 0 <= p.col < 8
  }

  /** Every occupied square lies on the 8x8 grid. */
  predicate IsBoard(b: Board) {
    forall p :: p in b ==> OnBoard(p)
  }

  predicate HasColor(b: Board, p: Pos, c: Color) {
    p in b && b[p].color == c
  }

  predicate HasPiece(b: Board, p: Pos, c: Color, k: Kind) {
    p in b && b[p].color == c && b[p].kind == k
  }

  function Add(p: Pos, o: Offset): Pos {
    Pos(p.row + o.dr, p.col + o.dc)
  }

  function Neg(o: Offset): Offset {
    Offset(-o.dr, -o.dc)
  }

  /** One of the eight king steps: the unit directions of every ray. */
  predicate IsUnit(o: Offset) {
    -1 <= o.dr <= 1 && -1 <= o.dc <= 1 && o != Offset(0, 0)
  }

  predicate IsDiagonal(o: Offset) {
    o.dr != 0 && o.dc != 0
  }

  predicate IsOrthogonal(o: Offset) {
    o.dr == 0 || o.dc == 0
  }

  /** `k * s` for a sign `s`, written without multiplication. */
  function Scale(k: int, s: int): int
    requires -1 <= s <= 1
  {
    if s == 1 then k else if s == -1 then -k else 0
  }

  /** The square `k` unit steps from `p` in direction `d`. */
  function Shift(p: Pos, d: Offset, k: int): Pos
    requires IsUnit(d)
  {
    Pos(p.row + Scale(k, d.dr), p.col + Scale(k, d.dc))
  }

  /** The squares `Shift(p, d, i)` for `lo <= i < hi` are all empty. */
  predicate Clear(b: Board, p: Pos, d: Offset, lo: int, hi: int)
    requires IsUnit(d)
  {
    forall i :: lo <= i < hi ==> Shift(p, d, i) !in b
  }

  /** On an 8x8 board no ray is longer than seven steps. */
  lemma ShiftBound(p: Pos, d: Offset, k: int)
    requires IsUnit(d) && OnBoard(p) && OnBoard(Shift(p, d, k)) && k >= 0
    ensures k <= 7
  {
  }

  /** Walking back along a ray retraces it. */
  lemma ShiftReverse(p: Pos, d: Offset, k: int)
    requires IsUnit(d)
    ensures IsUnit(Neg(d))
    ensures Shift(Shift(p, d, k), Neg(d), k) == p
    ensures forall i :: Shift(Shift(p, d, k), Neg(d), k - i) == Shift(p, d, i)
  {
  }

  /** The squares between two ends of a ray are the same from either end. */
  lemma ClearReverse(b: Board, p: Pos, d: Offset, k: int)
    requires IsUnit(d)
    ensures IsUnit(Neg(d))
    ensures Clear(b, p, d, 1, k) <==> Clear(b, Shift(p, d, k), Neg(d), 1, k)
  {
    var s := Shift(p, d, k);
    ShiftReverse(p, d, k);
    if Clear(b, p, d, 1, k) {
      forall i | 1 <= i < k
        ensures Shift(s, Neg(d), i) !in b
      {
        assert Shift(s, Neg(d), i) == Shift(p, d, k - i);
      }
    }
    if Clear(b, s, Neg(d), 1, k) {
      forall i | 1 <= i < k
        ensures Shift(p, d, i) !in b
      {
        assert Shift(s, Neg(d), k - i) == Shift(p, d, i);
      }
    }
  }

  // Offset tables, in the order the source lists them.

  const KnightOffsets: seq<Offset> :=
    [Offset(-2, -1), Offset(-2, 1), Offset(-1, -2), Offset(-1, 2),
     Offset(1, -2), Offset(1, 2), Offset(2, -1), Offset(2, 1)]

  const KingOffsets: seq<Offset> :=
    [Offset(-1, -1), Offset(-1, 0), Offset(-1, 1), Offset(0, -1),
     Offset(0, 1), Offset(1, -1), Offset(1, 0), Offset(1, 1)]

  const RookDirs: seq<Offset> := [Offset(-1, 0), Offset(1, 0), Offset(0, -1), Offset(0, 1)]

  const BishopDirs: seq<Offset> := [Offset(-1, -1), Offset(-1, 1), Offset(1, -1), Offset(1, 1)]

  /** The eight ray directions `isInCheck` walks from the king. */
  const CheckDirs: seq<Offset> := KingOffsets

  /** The row a pawn of colour `c` advances by. */
  function Forward(c: Color): int {
    if c == White then -1 else 1
  }

  function StartRow(c: Color): int {
    if c == White then 6 else 1
  }

  /** The kinds a pawn may be promoted to. */
  predicate IsPromotionKind(k: Kind) {
    k == Queen || k == Rook || k == Bishop || k == Knight
  }

  // The starting position (`setupPieces`).

  const BackRank: seq<Kind> := [Rook, Knight, Bishop, Queen, King, Bishop, Knight, Rook]

  function InitialSquare(p: Pos): Option<Piece>
    requires OnBoard(p)
  {
    if p.row == 0 then Some(Piece(Black, BackRank[p.col], false))
    else if p.row == 1 then Some(Piece(Black, Pawn, false))
    else if p.row == 6 then Some(Piece(White, Pawn, false))
    else if p.row == 7 then Some(Piece(White, BackRank[p.col], false))
    else None
  }

  function Squares(): (s: set<Pos>)
    ensures forall p :: p in s <==> OnBoard(p)
  {
    set r, c | 0 <= r < 8 && 0 <= c < 8 :: Pos(r, c)
  }

  function InitialBoard(): (b: Board)
    ensures IsBoard(b)
    ensures forall p :: OnBoard(p) ==> (p in b <==> p.row in {0, 1, 6, 7})
    ensures forall p :: p in b ==> b[p] == InitialSquare(p).value
  {
    map p | p in Squares() && InitialSquare(p).Some? :: InitialSquare(p).value
  }

  const InitialKings: Kings := Kings(Pos(7, 4), Pos(0, 4))
}
