/** Check detection of games/chess/chess.js (`isInCheck`): is the square of a
    king of colour `c` attacked by the opponent? The source looks outward from
    the king; the lemma `CheckIffAttacked` shows this agrees with the
    attacker's-eye definition "some opponent piece has a pseudo-legal move
    onto the king". */
module ChessAttack {

  import opened Optional
  import opened ChessBoard
  import opened ChessMoves

  /** Where an opponent pawn must stand to attack a king of colour `c`. */
  function PawnAttackOffsets(c: Color): seq<Offset> {
    if c == White then [Offset(-1, -1), Offset(-1, 1)] else [Offset(1, -1), Offset(1, 1)]
  }

  /** Some square `k + offs[i]` on the board holds a `c` piece of kind `kind`. */
  predicate PieceAtOffset(b: Board, k: Pos, offs: seq<Offset>, c: Color, kind: Kind) {
    exists i :: 0 <= i < |offs| && OnBoard(Add(k, offs[i])) && HasPiece(b, Add(k, offs[i]), c, kind)
  }

  /** The first occupied square on the ray from `p` along `d`, starting `k`
      steps out, or `None` when the ray reaches the edge first. */
  function FirstOccupied(b: Board, p: Pos, d: Offset, k: nat): (r: Option<Pos>)
    requires IsUnit(d) && OnBoard(p)
    ensures r.Some? ==> r.value in b
    decreases 8 - k
  {
    var q := Shift(p, d, k);
    if !OnBoard(q) then None
    else if q in b then Some(q)
    else FirstOccupied(b, p, d, k + 1)
  }

  lemma {:induction false} FirstOccupiedSpec(b: Board, p: Pos, d: Offset, k: nat, s: Pos)
    requires IsUnit(d) && OnBoard(p)
    ensures FirstOccupied(b, p, d, k) == Some(s) <==>
      exists j :: k <= j && s == Shift(p, d, j) && OnBoard(s) && s in b && Clear(b, p, d, k, j)
    decreases 8 - k
  {
    var q := Shift(p, d, k);
    if !OnBoard(q) {
      if exists j :: k <= j && s == Shift(p, d, j) && OnBoard(s) && s in b && Clear(b, p, d, k, j) {
        var j :| k <= j && s == Shift(p, d, j) && OnBoard(s) && s in b && Clear(b, p, d, k, j);
        OffBoardStaysOff(p, d, k, j);
      }
    } else if q in b {
      if exists j :: k <= j && s == Shift(p, d, j) && OnBoard(s) && s in b && Clear(b, p, d, k, j) {
        var j :| k <= j && s == Shift(p, d, j) && OnBoard(s) && s in b && Clear(b, p, d, k, j);
        assert j == k;
      }
    } else {
      ShiftBound(p, d, k);
      FirstOccupiedSpec(b, p, d, k + 1, s);
      if FirstOccupied(b, p, d, k) == Some(s) {
        var j :| k + 1 <= j && s == Shift(p, d, j) && OnBoard(s) && s in b && Clear(b, p, d, k + 1, j);
        assert Clear(b, p, d, k, j);
      }
      if exists j :: k <= j && s == Shift(p, d, j) && OnBoard(s) && s in b && Clear(b, p, d, k, j) {
        var j :| k <= j && s == Shift(p, d, j) && OnBoard(s) && s in b && Clear(b, p, d, k, j);
        assert j != k;
        assert Clear(b, p, d, k + 1, j);
      }
    }
  }

  /** The first piece met along `d` from `k` is an opponent slider that moves
      along `d`: bishop or queen on a diagonal, rook or queen on a line. */
  predicate SliderOnRay(b: Board, k: Pos, d: Offset, c: Color)
    requires IsUnit(d) && OnBoard(k)
  {
    match FirstOccupied(b, k, d, 1)
    case None => false
    case Some(s) =>
      b[s].color == Opponent(c) &&
      if IsDiagonal(d) then b[s].kind == Bishop || b[s].kind == Queen
      else b[s].kind == Rook || b[s].kind == Queen
  }

  lemma CheckDirsAreUnits()
    ensures forall i :: 0 <= i < |CheckDirs| ==> IsUnit(CheckDirs[i])
  {
  }

  predicate SliderThreat(b: Board, k: Pos, c: Color)
    requires OnBoard(k)
  {
    CheckDirsAreUnits();
    exists i :: 0 <= i < |CheckDirs| && SliderOnRay(b, k, CheckDirs[i], c)
  }

  /** `isInCheck(board, kingPos, color)`: an opponent pawn on one of the two
      forward diagonals, an opponent knight an L away, an opponent slider
      first on a matching ray, or the opponent king adjacent. */
  predicate IsInCheck(b: Board, k: Pos, c: Color)
    requires OnBoard(k)
  {
    || PieceAtOffset(b, k, PawnAttackOffsets(c), Opponent(c), Pawn)
    || PieceAtOffset(b, k, KnightOffsets, Opponent(c), Knight)
    || SliderThreat(b, k, c)
    || PieceAtOffset(b, k, KingOffsets, Opponent(c), King)
  }

  /** Two boards with the same occupied squares and the same colour and kind
      on each; they may differ only in the `hasMoved` marks. */
  ghost predicate SameShape(b1: Board, b2: Board) {
    && b1.Keys == b2.Keys
    && forall q :: q in b1 ==> b1[q].color == b2[q].color && b1[q].kind == b2[q].kind
  }

  lemma {:induction false} FirstOccupiedSameKeys(b1: Board, b2: Board, p: Pos, d: Offset, k: nat)
    requires IsUnit(d) && OnBoard(p) && b1.Keys == b2.Keys
    ensures FirstOccupied(b1, p, d, k) == FirstOccupied(b2, p, d, k)
    decreases 8 - k
  {
    var q := Shift(p, d, k);
    if OnBoard(q) && q !in b1 {
      assert q !in b2;
      ShiftBound(p, d, k);
      FirstOccupiedSkip(b1, p, d, k);
      FirstOccupiedSkip(b2, p, d, k);
      FirstOccupiedSameKeys(b1, b2, p, d, k + 1);
    }
  }

  /** An empty square on the ray is passed over. */
  lemma FirstOccupiedSkip(b: Board, p: Pos, d: Offset, k: nat)
    requires IsUnit(d) && OnBoard(p) && OnBoard(Shift(p, d, k)) && Shift(p, d, k) !in b
    ensures FirstOccupied(b, p, d, k) == FirstOccupied(b, p, d, k + 1)
  {
  }

  /** Check detection reads only which squares are occupied and the colour
      and kind of each piece. */
  lemma IsInCheckSameShape(b1: Board, b2: Board, k: Pos, c: Color)
    requires OnBoard(k) && SameShape(b1, b2)
    ensures IsInCheck(b1, k, c) == IsInCheck(b2, k, c)
  {
    CheckDirsAreUnits();
    forall i | 0 <= i < |CheckDirs|
      ensures SliderOnRay(b1, k, CheckDirs[i], c) == SliderOnRay(b2, k, CheckDirs[i], c)
    {
      FirstOccupiedSameKeys(b1, b2, k, CheckDirs[i], 1);
    }
    assert SliderThreat(b1, k, c) == SliderThreat(b2, k, c);
  }

  /** The reference reading: some opponent piece has a pseudo-legal move onto
      square `k`. */
  ghost predicate Attacked(b: Board, k: Pos, c: Color)
    requires IsBoard(b)
  {
    exists s :: s in b && b[s].color == Opponent(c) && k in PseudoMoves(b, s)
  }

  lemma KnightOffsetsSymmetric()
    ensures forall i :: 0 <= i < 8 ==> Neg(KnightOffsets[i]) == KnightOffsets[7 - i]
  {
  }

  lemma KingOffsetsSymmetric()
    ensures forall i :: 0 <= i < 8 ==> Neg(KingOffsets[i]) == KingOffsets[7 - i]
  {
  }

  lemma UnitInCheckDirs(d: Offset)
    requires IsUnit(d)
    ensures exists i :: 0 <= i < |CheckDirs| && CheckDirs[i] == d
  {
    if d == Offset(-1, -1) { assert CheckDirs[0] == d; }
    else if d == Offset(-1, 0) { assert CheckDirs[1] == d; }
    else if d == Offset(-1, 1) { assert CheckDirs[2] == d; }
    else if d == Offset(0, -1) { assert CheckDirs[3] == d; }
    else if d == Offset(0, 1) { assert CheckDirs[4] == d; }
    else if d == Offset(1, -1) { assert CheckDirs[5] == d; }
    else if d == Offset(1, 0) { assert CheckDirs[6] == d; }
    else { assert CheckDirs[7] == d; }
  }

  lemma RookDirOf(d: Offset)
    requires IsUnit(d) && !IsDiagonal(d)
    ensures exists i :: 0 <= i < |RookDirs| && RookDirs[i] == d
  {
    if d == Offset(-1, 0) { assert RookDirs[0] == d; }
    else if d == Offset(1, 0) { assert RookDirs[1] == d; }
    else if d == Offset(0, -1) { assert RookDirs[2] == d; }
    else { assert RookDirs[3] == d; }
  }

  lemma BishopDirOf(d: Offset)
    requires IsUnit(d) && IsDiagonal(d)
    ensures exists i :: 0 <= i < |BishopDirs| && BishopDirs[i] == d
  {
    if d == Offset(-1, -1) { assert BishopDirs[0] == d; }
    else if d == Offset(-1, 1) { assert BishopDirs[1] == d; }
    else if d == Offset(1, -1) { assert BishopDirs[2] == d; }
    else { assert BishopDirs[3] == d; }
  }

  /** A slider at `s` reaching `k` along `d` is the first piece met from `k`
      along the opposite direction. */
  lemma SlideSeenFromTarget(b: Board, s: Pos, d: Offset, c: Color, k: Pos)
    requires IsBoard(b) && s in b && IsUnit(d) && OnBoard(k) && SlideReaches(b, s, d, c, k)
    ensures IsUnit(Neg(d)) && FirstOccupied(b, k, Neg(d), 1) == Some(s)
  {
    var j :| 1 <= j && k == Shift(s, d, j) && OnBoard(k) && Clear(b, s, d, 1, j) && !HasColor(b, k, c);
    ClearReverse(b, s, d, j);
    ShiftReverse(s, d, j);
    FirstOccupiedSpec(b, k, Neg(d), 1, s);
  }

  /** The first piece met from `k` along `d` reaches `k` sliding back along
      the opposite direction, unless `k` holds a piece of its own colour. */
  lemma TargetSeenFromSlider(b: Board, k: Pos, d: Offset, c: Color)
    requires IsBoard(b) && IsUnit(d) && OnBoard(k) && HasColor(b, k, c)
    requires FirstOccupied(b, k, d, 1).Some?
    ensures IsUnit(Neg(d))
    ensures var s := FirstOccupied(b, k, d, 1).value;
      b[s].color == Opponent(c) ==> SlideReaches(b, s, Neg(d), b[s].color, k)
  {
    var s := FirstOccupied(b, k, d, 1).value;
    FirstOccupiedSpec(b, k, d, 1, s);
    var j :| 1 <= j && s == Shift(k, d, j) && OnBoard(s) && s in b && Clear(b, k, d, 1, j);
    ClearReverse(b, k, d, j);
    ShiftReverse(k, d, j);
  }

  /** `isInCheck` agrees with the attacker's-eye definition whenever the
      square it is asked about holds a piece of the king's colour. */
  lemma CheckIffAttacked(b: Board, k: Pos, c: Color)
    requires IsBoard(b) && HasColor(b, k, c)
    ensures IsInCheck(b, k, c) <==> Attacked(b, k, c)
  {
    if IsInCheck(b, k, c) {
      CheckImpliesAttacked(b, k, c);
    }
    if Attacked(b, k, c) {
      AttackedImpliesCheck(b, k, c);
    }
  }

  lemma CheckImpliesAttacked(b: Board, k: Pos, c: Color)
    requires IsBoard(b) && HasColor(b, k, c) && IsInCheck(b, k, c)
    ensures Attacked(b, k, c)
  {
    var o := Opponent(c);
    if PieceAtOffset(b, k, PawnAttackOffsets(c), o, Pawn) {
      PawnThreatAttacks(b, k, c);
    } else if PieceAtOffset(b, k, KnightOffsets, o, Knight) {
      LeapThreatAttacks(b, k, c, Knight);
    } else if PieceAtOffset(b, k, KingOffsets, o, King) {
      LeapThreatAttacks(b, k, c, King);
    } else {
      SliderThreatAttacks(b, k, c);
    }
  }

  lemma PawnThreatAttacks(b: Board, k: Pos, c: Color)
    requires IsBoard(b) && HasColor(b, k, c)
    requires PieceAtOffset(b, k, PawnAttackOffsets(c), Opponent(c), Pawn)
    ensures Attacked(b, k, c)
  {
    var o := Opponent(c);
    var i :| 0 <= i < 2 && OnBoard(Add(k, PawnAttackOffsets(c)[i])) && HasPiece(b, Add(k, PawnAttackOffsets(c)[i]), o, Pawn);
    var s := Add(k, PawnAttackOffsets(c)[i]);
    assert k in PawnMoves(b, s, o);
    assert k in PseudoMoves(b, s);
  }

  lemma LeapThreatAttacks(b: Board, k: Pos, c: Color, kind: Kind)
    requires IsBoard(b) && HasColor(b, k, c) && (kind == Knight || kind == King)
    requires PieceAtOffset(b, k, if kind == Knight then KnightOffsets else KingOffsets, Opponent(c), kind)
    ensures Attacked(b, k, c)
  {
    var o := Opponent(c);
    var s: Pos;
    if kind == Knight {
      s := KnightAttacker(b, k, c);
    } else {
      s := KingAttacker(b, k, c);
    }
    assert s in b && b[s].color == o && k in PseudoMoves(b, s);
  }

  /** A knight at an offset from `k` has `k` among its moves. */
  lemma KnightAttacker(b: Board, k: Pos, c: Color) returns (s: Pos)
    requires IsBoard(b) && HasColor(b, k, c)
    requires PieceAtOffset(b, k, KnightOffsets, Opponent(c), Knight)
    ensures s in b && b[s].color == Opponent(c) && k in PseudoMoves(b, s)
  {
    var o := Opponent(c);
    var i :| 0 <= i < 8 && OnBoard(Add(k, KnightOffsets[i])) && HasPiece(b, Add(k, KnightOffsets[i]), o, Knight);
    s := Add(k, KnightOffsets[i]);
    KnightOffsetsSymmetric();
    LeapBack(b, k, s, KnightOffsets, o, 7 - i);
    PseudoMovesOfKnight(b, s);
  }

  /** A king at an offset from `k` has `k` among its moves. */
  lemma KingAttacker(b: Board, k: Pos, c: Color) returns (s: Pos)
    requires IsBoard(b) && HasColor(b, k, c)
    requires PieceAtOffset(b, k, KingOffsets, Opponent(c), King)
    ensures s in b && b[s].color == Opponent(c) && k in PseudoMoves(b, s)
  {
    var o := Opponent(c);
    var i :| 0 <= i < 8 && OnBoard(Add(k, KingOffsets[i])) && HasPiece(b, Add(k, KingOffsets[i]), o, King);
    s := Add(k, KingOffsets[i]);
    KingOffsetsSymmetric();
    LeapBack(b, k, s, KingOffsets, o, 7 - i);
    PseudoMovesOfKing(b, s);
  }

  /** A knight's pseudo-legal moves are its leaps. */
  lemma PseudoMovesOfKnight(b: Board, p: Pos)
    requires IsBoard(b) && p in b && b[p].kind == Knight
    ensures PseudoMoves(b, p) == KnightMoves(b, p, b[p].color)
  {
  }

  /** A king's pseudo-legal moves are its steps. */
  lemma PseudoMovesOfKing(b: Board, p: Pos)
    requires IsBoard(b) && p in b && b[p].kind == King
    ensures PseudoMoves(b, p) == KingMoves(b, p, b[p].color)
  {
  }

  /** The leap from `s` by `offs[j]` lands on `k`, which does not hold a
      piece of the leaper's colour. */
  lemma LeapBack(b: Board, k: Pos, s: Pos, offs: seq<Offset>, o: Color, j: int)
    requires 0 <= j < |offs| && k == Add(s, offs[j]) && OnBoard(k) && !HasColor(b, k, o)
    ensures k in Leaps(b, s, offs, o)
  {
  }

  lemma SliderThreatAttacks(b: Board, k: Pos, c: Color)
    requires IsBoard(b) && HasColor(b, k, c) && SliderThreat(b, k, c)
    ensures Attacked(b, k, c)
  {
    var o := Opponent(c);
    CheckDirsAreUnits();
    var i :| 0 <= i < |CheckDirs| && SliderOnRay(b, k, CheckDirs[i], c);
    var d := CheckDirs[i];
    var s := FirstOccupied(b, k, d, 1).value;
    TargetSeenFromSlider(b, k, d, c);
    if IsDiagonal(d) {
      BishopDirOf(Neg(d));
      SlidesReach(b, s, BishopDirs, o, k);
      assert k in BishopMoves(b, s, o);
    } else {
      RookDirOf(Neg(d));
      SlidesReach(b, s, RookDirs, o, k);
      assert k in RookMoves(b, s, o);
    }
    assert k in PseudoMoves(b, s);
  }

  /** A slider at `s` that reaches `k` along one of its directions makes `k`
      see it; `diagonal` picks the bishop or the rook directions. */
  lemma SliderThreatFrom(b: Board, k: Pos, c: Color, s: Pos, diagonal: bool)
    requires IsBoard(b) && HasColor(b, k, c) && s in b && OnBoard(s) && b[s].color == Opponent(c)
    requires if diagonal then b[s].kind == Bishop || b[s].kind == Queen
             else b[s].kind == Rook || b[s].kind == Queen
    requires k in Slides(b, s, if diagonal then BishopDirs else RookDirs, b[s].color)
    ensures SliderThreat(b, k, c)
  {
    var dirs := if diagonal then BishopDirs else RookDirs;
    SlidesReach(b, s, dirs, b[s].color, k);
    var i :| 0 <= i < |dirs| && SlideReaches(b, s, dirs[i], b[s].color, k);
    var d := dirs[i];
    assert IsDiagonal(d) == diagonal by {
      SliderDirsShape();
    }
    SlideSeenFromTarget(b, s, d, b[s].color, k);
    UnitInCheckDirs(Neg(d));
    CheckDirsAreUnits();
    var m :| 0 <= m < |CheckDirs| && CheckDirs[m] == Neg(d);
    assert SliderOnRay(b, k, CheckDirs[m], c);
  }

  /** Bishop directions are diagonal, rook directions are not. */
  lemma SliderDirsShape()
    ensures forall i :: 0 <= i < |BishopDirs| ==> IsDiagonal(BishopDirs[i])
    ensures forall i :: 0 <= i < |RookDirs| ==> !IsDiagonal(RookDirs[i])
  {
  }

  lemma AttackedImpliesCheck(b: Board, k: Pos, c: Color)
    requires IsBoard(b) && HasColor(b, k, c) && Attacked(b, k, c)
    ensures IsInCheck(b, k, c)
  {
    var s :| s in b && b[s].color == Opponent(c) && k in PseudoMoves(b, s);
    AttackFromSeen(b, k, c, s);
  }

  lemma AttackFromSeen(b: Board, k: Pos, c: Color, s: Pos)
    requires IsBoard(b) && HasColor(b, k, c)
    requires s in b && b[s].color == Opponent(c) && k in PseudoMoves(b, s)
    ensures IsInCheck(b, k, c)
  {
    var o := Opponent(c);
    assert OnBoard(s);
    var kind := b[s].kind;
    if kind == Pawn {
      PawnAttackSeen(b, k, c, s);
    } else if kind == Knight {
      LeapAttackSeen(b, k, c, s, KnightOffsets);
    } else if kind == King {
      LeapAttackSeen(b, k, c, s, KingOffsets);
    } else {
      SliderAttackSeen(b, k, c, s);
    }
  }

  lemma SliderAttackSeen(b: Board, k: Pos, c: Color, s: Pos)
    requires IsBoard(b) && HasColor(b, k, c) && OnBoard(s)
    requires s in b && b[s].color == Opponent(c)
    requires b[s].kind == Rook || b[s].kind == Bishop || b[s].kind == Queen
    requires k in PseudoMoves(b, s)
    ensures SliderThreat(b, k, c)
  {
    var o := Opponent(c);
    if b[s].kind == Rook || (b[s].kind == Queen && k in RookMoves(b, s, o)) {
      SliderThreatFrom(b, k, c, s, false);
    } else {
      SliderThreatFrom(b, k, c, s, true);
    }
  }

  lemma PawnAttackSeen(b: Board, k: Pos, c: Color, s: Pos)
    requires IsBoard(b) && HasColor(b, k, c) && HasPiece(b, s, Opponent(c), Pawn)
    requires k in PawnMoves(b, s, Opponent(c))
    ensures PieceAtOffset(b, k, PawnAttackOffsets(c), Opponent(c), Pawn)
  {
    var i := if k.col == s.col + 1 then 0 else 1;
    assert Add(k, PawnAttackOffsets(c)[i]) == s;
  }

  lemma LeapAttackSeen(b: Board, k: Pos, c: Color, s: Pos, offs: seq<Offset>)
    requires offs == KnightOffsets || offs == KingOffsets
    requires IsBoard(b) && HasColor(b, k, c) && s in b && b[s].color == Opponent(c)
    requires k in Leaps(b, s, offs, Opponent(c))
    ensures PieceAtOffset(b, k, offs, Opponent(c), b[s].kind)
  {
    var i :| 0 <= i < 8 && k == Add(s, offs[i]);
    KnightOffsetsSymmetric();
    KingOffsetsSymmetric();
    assert Add(k, offs[7 - i]) == s;
  }
}
