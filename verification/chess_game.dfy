/** The chess game state of games/chess/chess.js and its transitions: the
    self-check filter (`getValidMoves`, `wouldBeInCheck`), moving
    (`movePiece`), promotion (`promotePawn`), check and terminal detection
    (`checkForCheck`, `checkForCheckmate`) and undo (`undoMove`). */
module ChessGame {

  import opened Optional
  import opened ChessBoard
  import opened ChessMoves
  import opened ChessAttack

  // ---------------------------------------------------------------------
  // Legal moves

  /** Both cached king squares lie on the board. */
  predicate KingsOnBoard(kings: Kings) {
    OnBoard(kings.white) && OnBoard(kings.black)
  }

  /** The board after moving the piece on `from` to `to` (the scratch copy
      of `wouldBeInCheck`, and the live update of `movePiece`). */
  function Apply(b: Board, from: Pos, to: Pos, moved: Piece): (r: Board)
    ensures from !in r && (from != to ==> to in r && r[to] == moved)
    ensures forall q :: q != from && q != to ==> (q in r <==> q in b) && (q in b ==> r[q] == b[q])
  {
    b[to := moved] - {from}
  }

  /** The king square to test after the move: the destination if the king
      itself moves, the cached square otherwise. */
  function KingAfter(b: Board, kings: Kings, from: Pos, to: Pos): Pos
    requires from in b
  {
    if b[from].kind == King then to else kings.Of(b[from].color)
  }

  /** `wouldBeInCheck`: the mover's king is attacked once the move is made. */
  predicate WouldBeInCheck(b: Board, kings: Kings, from: Pos, to: Pos)
    requires from in b && OnBoard(to) && KingsOnBoard(kings)
  {
    IsInCheck(Apply(b, from, to, b[from]), KingAfter(b, kings, from, to), b[from].color)
  }

  lemma PseudoMovesOnBoard(b: Board, p: Pos)
    requires IsBoard(b)
    ensures forall q :: q in PseudoMoves(b, p) ==> OnBoard(q)
  {
    forall q | q in PseudoMoves(b, p)
      ensures OnBoard(q)
    {
      PseudoMovesTargets(b, p, q);
    }
  }

  /** The candidates of `moves` that do not leave the mover in check, in order. */
  function SafeMoves(b: Board, kings: Kings, from: Pos, moves: seq<Pos>): (r: seq<Pos>)
    requires from in b && KingsOnBoard(kings)
    requires forall q :: q in moves ==> OnBoard(q)
    ensures forall q :: q in r <==> q in moves && !WouldBeInCheck(b, kings, from, q)
  {
    if moves == [] then []
    else
      var rest := SafeMoves(b, kings, from, moves[1..]);
      assert forall q :: q in moves <==> q == moves[0] || q in moves[1..];
      if WouldBeInCheck(b, kings, from, moves[0]) then rest else [moves[0]] + rest
  }

  /** `getValidMoves`: the pseudo-legal moves of the piece on `p` that do not
      leave its own king in check; none for an empty square. */
  function LegalMoves(b: Board, kings: Kings, p: Pos): (r: seq<Pos>)
    requires IsBoard(b) && KingsOnBoard(kings)
    ensures p !in b ==> r == []
    ensures forall q :: q in r <==> p in b && q in PseudoMoves(b, p) && OnBoard(q) && !WouldBeInCheck(b, kings, p, q)
  {
    if p !in b then []
    else
      PseudoMovesOnBoard(b, p);
      SafeMoves(b, kings, p, PseudoMoves(b, p))
  }

  /** The cached king squares hold the kings, and each colour has no other king. */
  ghost predicate KingsConsistent(b: Board, kings: Kings) {
    forall c: Color ::
      && HasPiece(b, kings.Of(c), c, King)
      && forall p :: HasPiece(b, p, c, King) ==> p == kings.Of(c)
  }

  ghost predicate WellPlaced(b: Board, kings: Kings) {
    IsBoard(b) && KingsOnBoard(kings) && KingsConsistent(b, kings)
  }

  /** A legal move leaves the mover's king on a square that no opponent piece
      can move onto, read on the board after the move. */
  lemma LegalMoveLeavesKingSafe(b: Board, kings: Kings, p: Pos, q: Pos)
    requires WellPlaced(b, kings) && q in LegalMoves(b, kings, p)
    ensures p in b && IsBoard(Apply(b, p, q, b[p]))
    ensures HasPiece(Apply(b, p, q, b[p]), KingAfter(b, kings, p, q), b[p].color, King)
    ensures !Attacked(Apply(b, p, q, b[p]), KingAfter(b, kings, p, q), b[p].color)
  {
    PseudoMovesTargets(b, p, q);
    var a := Apply(b, p, q, b[p]);
    var c := b[p].color;
    var k := KingAfter(b, kings, p, q);
    assert HasPiece(b, kings.Of(c), c, King);
    if b[p].kind != King {
      assert k == kings.Of(c) && k != p && k != q;
    }
    CheckIffAttacked(a, k, c);
  }

  // ---------------------------------------------------------------------
  // Game state

  /** A pawn waiting on the last rank for its promotion choice. */
  datatype Pending = Pending(pos: Pos, color: Color)

  /** One executed ply. `piece` is the mover as it was before the move;
      `promotion` is filled in by `Promote`. */
  datatype HistoryEntry = HistoryEntry(
    from: Pos, to: Pos, piece: Piece, captured: Option<Piece>, firstMove: bool,
    promotion: Option<Kind>)

  /** The engine state. The captured lists hold the kinds of the captured
      pieces of that colour, in capture order. */
  datatype Game = Game(
    board: Board,
    turn: Color,
    history: seq<HistoryEntry>,
    whiteCaptured: seq<Kind>,
    blackCaptured: seq<Kind>,
    kings: Kings,
    whiteInCheck: bool,
    blackInCheck: bool,
    gameOver: bool,
    pending: Option<Pending>)
  {
    function Captured(c: Color): seq<Kind> {
      if c == White then whiteCaptured else blackCaptured
    }
    function InCheck(c: Color): bool {
      if c == White then whiteInCheck else blackInCheck
    }
  }

  /** The state invariant the transitions below rely on. */
  ghost predicate Valid(g: Game) {
    && WellPlaced(g.board, g.kings)
    && (forall i :: 0 <= i < |g.history| ==> OnBoard(g.history[i].from) && OnBoard(g.history[i].to))
    && (g.pending.Some? ==> |g.history| > 0 && OnBoard(g.pending.value.pos))
  }

  /** The check flags agree with the board. */
  predicate InCheckAccurate(g: Game)
    requires KingsOnBoard(g.kings)
  {
    && g.whiteInCheck == IsInCheck(g.board, g.kings.white, White)
    && g.blackInCheck == IsInCheck(g.board, g.kings.black, Black)
  }

  /** `checkForCheck`: recompute both check flags from the board. */
  function CheckForCheck(g: Game): (r: Game)
    requires KingsOnBoard(g.kings)
    ensures r.kings == g.kings && InCheckAccurate(r)
    ensures r == g.(whiteInCheck := r.whiteInCheck, blackInCheck := r.blackInCheck)
  {
    g.(whiteInCheck := IsInCheck(g.board, g.kings.white, White),
       blackInCheck := IsInCheck(g.board, g.kings.black, Black))
  }

  /** The piece of colour `c` on `p` has at least one legal move. */
  predicate Movable(b: Board, kings: Kings, c: Color, p: Pos)
    requires IsBoard(b) && KingsOnBoard(kings)
  {
    HasColor(b, p, c) && LegalMoves(b, kings, p) != []
  }

  /** Row-major index of a square. */
  function Index(p: Pos): int {
    p.row * 8 + p.col
  }

  /** Does some square of row-major index `i` or more satisfy `f`? The scan
      of `checkForCheckmate` over the 64 squares. */
  function ScanFrom(f: Pos -> bool, i: nat): bool
    decreases 64 - i
  {
    if i >= 64 then false
    else f(Pos(i / 8, i % 8)) || ScanFrom(f, i + 1)
  }

  ghost predicate HasLegalMove(b: Board, kings: Kings, c: Color)
    requires IsBoard(b) && KingsOnBoard(kings)
  {
    exists p :: Movable(b, kings, c, p)
  }

  lemma IndexOf(p: Pos, i: int)
    requires OnBoard(p) && Index(p) == i
    ensures p == Pos(i / 8, i % 8)
  {
  }

  /** The scan from `i` succeeds iff some on-board square of index `i` or
      more satisfies `f`. */
  lemma {:induction false} ScanFromSpec(f: Pos -> bool, i: nat)
    ensures ScanFrom(f, i) <==> exists p :: OnBoard(p) && f(p) && Index(p) >= i
    decreases 64 - i
  {
    if i < 64 {
      ScanFromSpec(f, i + 1);
      var p0 := Pos(i / 8, i % 8);
      assert OnBoard(p0) && Index(p0) == i;
      if p: Pos :| OnBoard(p) && f(p) && Index(p) >= i {
        if Index(p) == i {
          IndexOf(p, i);
        } else {
          assert Index(p) >= i + 1;
        }
      }
    }
  }

  /** `checkForCheckmate`'s search for any legal move of colour `c`. */
  function AnyLegalMove(b: Board, kings: Kings, c: Color): (r: bool)
    requires IsBoard(b) && KingsOnBoard(kings)
    ensures r <==> HasLegalMove(b, kings, c)
  {
    var f := (p: Pos) => Movable(b, kings, c, p);
    ScanFromSpec(f, 0);
    assert forall p :: Movable(b, kings, c, p) ==> OnBoard(p) && f(p) && Index(p) >= 0;
    ScanFrom(f, 0)
  }

  /** The end of a game as announced: a checkmate win or a stalemate. */
  datatype Result = CheckmateWin(winner: Color) | Stalemate

  /** `checkForCheckmate`: a side to move without any legal move has lost by
      checkmate when in check and is stalemated otherwise. */
  function Terminal(g: Game): (r: Option<Result>)
    requires IsBoard(g.board) && KingsOnBoard(g.kings)
    ensures r.None? <==> HasLegalMove(g.board, g.kings, g.turn)
    ensures r == Some(Stalemate) <==> !HasLegalMove(g.board, g.kings, g.turn) && !g.InCheck(g.turn)
    ensures r.Some? && r != Some(Stalemate) ==> r == Some(CheckmateWin(Opponent(g.turn))) && g.InCheck(g.turn)
  {
    if AnyLegalMove(g.board, g.kings, g.turn) then None
    else if g.InCheck(g.turn) then Some(CheckmateWin(Opponent(g.turn)))
    else Some(Stalemate)
  }

  /** `checkForCheckmate`: set `gameOver` when the side to move is stuck,
      and leave it unchanged otherwise. */
  function CheckForCheckmate(g: Game): (r: Game)
    requires IsBoard(g.board) && KingsOnBoard(g.kings)
    ensures r.gameOver <==> g.gameOver || !HasLegalMove(g.board, g.kings, g.turn)
    ensures r == g.(gameOver := r.gameOver)
  {
    if Terminal(g).Some? then g.(gameOver := true) else g
  }

  /** The turn-completing sequence: flip the turn, recompute the check
      flags, then look for checkmate or stalemate. */
  function FinishTurn(g: Game): (r: Game)
    requires IsBoard(g.board) && KingsOnBoard(g.kings)
    ensures r.board == g.board && r.kings == g.kings && r.history == g.history
    ensures InCheckAccurate(r) && r.turn == Opponent(g.turn)
    ensures r.gameOver <==> g.gameOver || !HasLegalMove(g.board, g.kings, Opponent(g.turn))
    ensures r.whiteCaptured == g.whiteCaptured && r.blackCaptured == g.blackCaptured
    ensures r.pending == g.pending
  {
    CheckForCheckmate(CheckForCheck(g.(turn := Opponent(g.turn))))
  }

  /** The move puts a pawn on the first or last row. */
  predicate IsPromotionMove(b: Board, from: Pos, to: Pos)
    requires from in b
  {
    b[from].kind == Pawn && (to.row == 0 || to.row == 7)
  }

  /** The piece a move onto `to` captures, if any. */
  function CapturedOn(b: Board, to: Pos): (r: Option<Piece>)
    ensures r.Some? <==> to in b
    ensures r.Some? ==> r.value == b[to]
  {
    if to in b then Some(b[to]) else None
  }

  /** Append a captured piece's kind to the list of its colour. */
  function WithCaptured(g: Game, captured: Option<Piece>): (r: Game)
    ensures forall c: Color :: r.Captured(c) == g.Captured(c) +
                                (if captured.Some? && captured.value.color == c then [captured.value.kind] else [])
    ensures r == g.(whiteCaptured := r.whiteCaptured, blackCaptured := r.blackCaptured)
  {
    match captured
    case None => g
    case Some(p) =>
      if p.color == White then g.(whiteCaptured := g.whiteCaptured + [p.kind])
      else g.(blackCaptured := g.blackCaptured + [p.kind])
  }

  /** The bookkeeping `movePiece` does before the promotion test: the ply is
      pushed on the history, the capture lands on its colour's list, the
      mover (now marked as moved) replaces whatever stood on `to` and leaves
      `from`, and a king's cached square follows it. */
  ghost predicate Recorded(g: Game, from: Pos, to: Pos, r: Game)
    requires from in g.board
  {
    var piece := g.board[from];
    var captured := CapturedOn(g.board, to);
    && r.history == g.history + [HistoryEntry(from, to, piece, captured, !piece.hasMoved, None)]
    && r.board == Apply(g.board, from, to, piece.(hasMoved := true))
    && (forall c: Color :: r.Captured(c) == g.Captured(c) +
         (if captured.Some? && captured.value.color == c then [captured.value.kind] else []))
    && r.kings == (if piece.kind == King then g.kings.With(piece.color, to) else g.kings)
  }

  function Record(g: Game, from: Pos, to: Pos): (r: Game)
    requires from in g.board
    ensures Recorded(g, from, to, r)
    ensures r.turn == g.turn && r.pending == g.pending && r.gameOver == g.gameOver
    ensures r.whiteInCheck == g.whiteInCheck && r.blackInCheck == g.blackInCheck
  {
    var piece := g.board[from];
    var captured := CapturedOn(g.board, to);
    WithCaptured(g, captured).(
      history := g.history + [HistoryEntry(from, to, piece, captured, !piece.hasMoved, None)],
      board := Apply(g.board, from, to, piece.(hasMoved := true)),
      kings := if piece.kind == King then g.kings.With(piece.color, to) else g.kings)
  }

  /** `movePiece`: record the ply; then either wait for a promotion choice
      (turn, check flags and `gameOver` untouched) or finish the turn. */
  function MovePiece(g: Game, from: Pos, to: Pos): (r: Game)
    requires IsBoard(g.board) && KingsOnBoard(g.kings) && from in g.board && OnBoard(to)
    ensures Recorded(g, from, to, r)
    ensures IsPromotionMove(g.board, from, to) ==>
      r.pending == Some(Pending(to, g.board[from].color)) && r.turn == g.turn && r.gameOver == g.gameOver
      && r.whiteInCheck == g.whiteInCheck && r.blackInCheck == g.blackInCheck
    ensures !IsPromotionMove(g.board, from, to) ==>
      && r.pending == g.pending && r.turn == Opponent(g.turn) && KingsOnBoard(r.kings) && InCheckAccurate(r)
      && IsBoard(r.board) && (r.gameOver <==> g.gameOver || !HasLegalMove(r.board, r.kings, r.turn))
  {
    var moved := Record(g, from, to);
    assert IsBoard(moved.board);
    if IsPromotionMove(g.board, from, to) then
      moved.(pending := Some(Pending(to, g.board[from].color)))
    else
      FinishTurn(moved)
  }

  /** `promotePawn`: with nothing pending, nothing happens. Otherwise the pawn
      becomes a fresh piece of its colour and the chosen kind, the choice is
      written on the last history entry, and the turn finishes. */
  function Promote(g: Game, kind: Kind): (r: Game)
    requires IsBoard(g.board) && KingsOnBoard(g.kings) && IsPromotionKind(kind)
    requires g.pending.Some? ==> |g.history| > 0 && OnBoard(g.pending.value.pos)
    ensures g.pending.None? ==> r == g
    ensures g.pending.Some? ==>
      var pos := g.pending.value.pos;
      && r.pending.None?
      && r.board == g.board[pos := Piece(g.pending.value.color, kind, false)]
      && |r.history| == |g.history| && r.history[..|g.history| - 1] == g.history[..|g.history| - 1]
      && r.history[|g.history| - 1] == g.history[|g.history| - 1].(promotion := Some(kind))
      && r.kings == g.kings && r.turn == Opponent(g.turn) && InCheckAccurate(r)
      && r.whiteCaptured == g.whiteCaptured && r.blackCaptured == g.blackCaptured
      && IsBoard(r.board) && (r.gameOver <==> g.gameOver || !HasLegalMove(r.board, r.kings, r.turn))
  {
    match g.pending
    case None => g
    case Some(Pending(pos, color)) =>
      var last := |g.history| - 1;
      FinishTurn(g.(
        board := g.board[pos := Piece(color, kind, false)],
        history := g.history[last := g.history[last].(promotion := Some(kind))],
        pending := None))
  }

  function DropLast(s: seq<Kind>): seq<Kind> {
    if s == [] then [] else s[..|s| - 1]
  }

  /** The state restoring part of `undoMove` for a last ply `e`: put the
      mover back with its old `hasMoved`, restore the captured piece (or
      empty the destination), drop the capture from its list, restore the
      king square, pop the ply, flip the turn back and clear `gameOver`. */
  function Unwind(g: Game, e: HistoryEntry): (r: Game)
    requires KingsOnBoard(g.kings) && OnBoard(e.from)
    ensures KingsOnBoard(r.kings) && r.turn == Opponent(g.turn) && !r.gameOver
    ensures r.pending == g.pending
    ensures forall q :: q != e.from && q != e.to ==>
      (q in r.board <==> q in g.board) && (q in g.board ==> r.board[q] == g.board[q])
  {
    var kings := if e.piece.kind == King then g.kings.With(e.piece.color, e.from) else g.kings;
    WithoutCaptured(g, e.captured).(
      history := if |g.history| == 0 then [] else g.history[..|g.history| - 1],
      board := RestoredBoard(g.board, e),
      kings := kings,
      turn := Opponent(g.turn),
      gameOver := false)
  }

  /** The board with ply `e` taken back: the mover on its origin with its
      old `hasMoved`, and the captured piece (or nothing) on the
      destination. */
  function RestoredBoard(b: Board, e: HistoryEntry): Board {
    var placed := b[e.from := e.piece.(hasMoved := !e.firstMove)];
    match e.captured
    case Some(c) => placed[e.to := c]
    case None => placed - {e.to}
  }

  /** Drop the last kind from the captured list of the captured piece's
      colour; the partner of `WithCaptured`. */
  function WithoutCaptured(g: Game, captured: Option<Piece>): (r: Game)
    ensures r == g.(whiteCaptured := r.whiteCaptured, blackCaptured := r.blackCaptured)
  {
    match captured
    case None => g
    case Some(c) =>
      if c.color == White then g.(whiteCaptured := DropLast(g.whiteCaptured))
      else g.(blackCaptured := DropLast(g.blackCaptured))
  }

  /** Dropping a capture takes back what recording it added. */
  lemma WithoutCapturedUndoes(g: Game, m: Game, captured: Option<Piece>)
    requires forall c: Color :: m.Captured(c) == g.Captured(c) +
                                (if captured.Some? && captured.value.color == c then [captured.value.kind] else [])
    ensures var r := WithoutCaptured(m, captured);
      r.whiteCaptured == g.whiteCaptured && r.blackCaptured == g.blackCaptured
  {
    assert m.Captured(White) == m.whiteCaptured && m.Captured(Black) == m.blackCaptured;
    assert g.Captured(White) == g.whiteCaptured && g.Captured(Black) == g.blackCaptured;
    if captured.Some? {
      var c := captured.value;
      assert DropLast(g.Captured(c.color) + [c.kind]) == g.Captured(c.color);
    }
  }

  /** Unwinding keeps every piece on the board. */
  lemma UnwindKeepsBoard(g: Game, e: HistoryEntry)
    requires KingsOnBoard(g.kings) && OnBoard(e.from) && IsBoard(g.board)
    requires e.captured.Some? ==> OnBoard(e.to)
    ensures IsBoard(Unwind(g, e).board)
  {
  }

  /** `undoMove`: a no-op on an empty history or while a promotion is
      pending; otherwise unwind the last ply and recompute check. */
  function Undo(g: Game): (r: Game)
    requires KingsOnBoard(g.kings)
    requires forall i :: 0 <= i < |g.history| ==> OnBoard(g.history[i].from)
    ensures |g.history| == 0 || g.pending.Some? ==> r == g
    ensures |g.history| > 0 && g.pending.None? ==>
      && r.history == g.history[..|g.history| - 1] && r.turn == Opponent(g.turn) && !r.gameOver
      && r.pending.None? && KingsOnBoard(r.kings) && InCheckAccurate(r)
      && var e := g.history[|g.history| - 1];
         forall q :: q != e.from && q != e.to ==>
           (q in r.board <==> q in g.board) && (q in g.board ==> r.board[q] == g.board[q])
  {
    if |g.history| == 0 || g.pending.Some? then g
    else CheckForCheck(Unwind(g, g.history[|g.history| - 1]))
  }

  /** Undo keeps every piece on the board. */
  lemma UndoKeepsBoard(g: Game)
    requires Valid(g)
    ensures IsBoard(Undo(g).board)
  {
    if |g.history| > 0 && g.pending.None? {
      var e := g.history[|g.history| - 1];
      assert OnBoard(e.from) && OnBoard(e.to);
      UnwindKeepsBoard(g, e);
    }
  }

  /** `init`: the starting position, White to move, empty history and
      captured lists, check flags recomputed. */
  function NewGame(): (g: Game)
    ensures Valid(g) && InCheckAccurate(g) && g.turn == White && g.history == []
    ensures g.pending.None? && !g.gameOver && g.whiteCaptured == [] && g.blackCaptured == []
    ensures g.board == InitialBoard() && g.kings == InitialKings
  {
    var b := InitialBoard();
    assert HasPiece(b, Pos(7, 4), White, King);
    assert HasPiece(b, Pos(0, 4), Black, King);
    CheckForCheck(Game(b, White, [], [], [], InitialKings, false, false, false, None))
  }

  // ---------------------------------------------------------------------
  // Undo round trips and the invariant of legal play

  lemma UndoBoard(b: Board, from: Pos, to: Pos)
    requires from in b && from != to
    ensures var placed := Apply(b, from, to, b[from].(hasMoved := true))[from := b[from]];
      b == (match CapturedOn(b, to) case Some(c) => placed[to := c] case None => placed - {to})
  {
    var placed := Apply(b, from, to, b[from].(hasMoved := true))[from := b[from]];
    var restored := match CapturedOn(b, to) case Some(c) => placed[to := c] case None => placed - {to};
    assert restored.Keys == b.Keys;
  }

  /** The precondition `Undo` needs of a state. */
  ghost predicate Undoable(m: Game) {
    && IsBoard(m.board) && KingsOnBoard(m.kings)
    && forall i :: 0 <= i < |m.history| ==> OnBoard(m.history[i].from)
  }

  lemma UndoRecordedBoard(g: Game, from: Pos, to: Pos, m: Game)
    requires from in g.board && from != to && Recorded(g, from, to, m)
    requires Undoable(m) && m.pending.None?
    ensures Undo(m).board == g.board
  {
    var piece := g.board[from];
    assert m.history[|m.history| - 1] == HistoryEntry(from, to, piece, CapturedOn(g.board, to), !piece.hasMoved, None);
    assert piece.(hasMoved := !!piece.hasMoved) == piece;
    UndoBoard(g.board, from, to);
  }

  lemma UndoRecordedKings(g: Game, from: Pos, to: Pos, m: Game)
    requires KingsConsistent(g.board, g.kings)
    requires from in g.board && Recorded(g, from, to, m)
    requires Undoable(m) && m.pending.None?
    ensures Undo(m).kings == g.kings
  {
    var piece := g.board[from];
    assert m.history[|m.history| - 1] == HistoryEntry(from, to, piece, CapturedOn(g.board, to), !piece.hasMoved, None);
    if piece.kind == King {
      assert HasPiece(g.board, from, piece.color, King);
      assert g.kings.Of(piece.color) == from;
      assert g.kings.With(piece.color, to).With(piece.color, from) == g.kings;
    }
  }

  lemma UndoRecordedLists(g: Game, from: Pos, to: Pos, m: Game)
    requires from in g.board && Recorded(g, from, to, m)
    requires Undoable(m) && m.pending.None?
    ensures Undo(m).whiteCaptured == g.whiteCaptured && Undo(m).blackCaptured == g.blackCaptured
  {
    var piece := g.board[from];
    var e := m.history[|m.history| - 1];
    assert e == HistoryEntry(from, to, piece, CapturedOn(g.board, to), !piece.hasMoved, None);
    WithoutCapturedUndoes(g, m, e.captured);
  }

  /** Undo of a state `m` whose last ply was recorded from `g`, with the
      turn passed on and nothing pending, gives back `g`. */
  lemma UndoRecorded(g: Game, from: Pos, to: Pos, m: Game)
    requires Valid(g) && InCheckAccurate(g) && g.pending.None? && !g.gameOver
    requires from in g.board && from != to
    requires Recorded(g, from, to, m) && m.pending.None? && m.turn == Opponent(g.turn)
    requires Undoable(m)
    ensures Undo(m) == g
  {
    UndoRecordedBoard(g, from, to, m);
    UndoRecordedKings(g, from, to, m);
    UndoRecordedLists(g, from, to, m);
    assert m.history[..|m.history| - 1] == g.history;
  }

  /** `undoMove` after a `movePiece` that did not promote gives back exactly
      the game before the move: board, `hasMoved` marks, captured lists,
      king squares, history, turn and check flags. */
  lemma UndoRevertsMove(g: Game, from: Pos, to: Pos)
    requires Valid(g) && InCheckAccurate(g) && g.pending.None? && !g.gameOver
    requires from in g.board && OnBoard(to) && from != to && !IsPromotionMove(g.board, from, to)
    ensures Undo(MovePiece(g, from, to)) == g
  {
    var m := MovePiece(g, from, to);
    assert Undoable(m);
    UndoRecorded(g, from, to, m);
  }

  /** Undo overwrites the destination square of the last ply and ignores
      its promotion note, so states that differ only there undo alike. */
  lemma UnwindForgetsDestination(p: Game, q: Game, ep: HistoryEntry, eq: HistoryEntry)
    requires KingsOnBoard(p.kings) && OnBoard(ep.from)
    requires ep.(promotion := None) == eq.(promotion := None)
    requires forall s :: s != ep.to ==>
      (s in p.board <==> s in q.board) && (s in p.board ==> p.board[s] == q.board[s])
    requires |p.history| == |q.history| > 0
    requires p.history[..|p.history| - 1] == q.history[..|q.history| - 1]
    requires p == q.(board := p.board, history := p.history)
    ensures Unwind(p, ep) == Unwind(q, eq)
  {
    RestoredBoardForgets(p.board, q.board, ep, eq);
  }

  /** Restoring overwrites the destination square. */
  lemma RestoredBoardForgets(b1: Board, b2: Board, e1: HistoryEntry, e2: HistoryEntry)
    requires e1.(promotion := None) == e2.(promotion := None)
    requires forall s :: s != e1.to ==> (s in b1 <==> s in b2) && (s in b1 ==> b1[s] == b2[s])
    ensures RestoredBoard(b1, e1) == RestoredBoard(b2, e2)
  {
    var r1, r2 := RestoredBoard(b1, e1), RestoredBoard(b2, e2);
    assert r1.Keys == r2.Keys;
  }

  lemma UndoForgetsDestination(p: Game, q: Game)
    requires Undoable(p) && Undoable(q) && p.pending.None?
    requires |p.history| == |q.history| > 0
    requires p.history[..|p.history| - 1] == q.history[..|q.history| - 1]
    requires p.history[|p.history| - 1].(promotion := None) == q.history[|q.history| - 1].(promotion := None)
    requires forall s :: s != p.history[|p.history| - 1].to ==>
      (s in p.board <==> s in q.board) && (s in p.board ==> p.board[s] == q.board[s])
    requires p == q.(board := p.board, history := p.history)
    ensures Undo(p) == Undo(q)
  {
    var n := |p.history|;
    UnwindForgetsDestination(p, q, p.history[n - 1], q.history[n - 1]);
  }

  /** Undo of a state `p` that differs from a recorded `m` only on the
      destination square, the promotion note and the turn bookkeeping. */
  lemma UndoPromotedState(g: Game, from: Pos, to: Pos, m: Game, p: Game)
    requires Valid(g) && InCheckAccurate(g) && g.pending.None? && !g.gameOver
    requires from in g.board && OnBoard(to) && from != to
    requires Recorded(g, from, to, m) && IsBoard(m.board) && KingsOnBoard(m.kings)
    requires to in p.board && p.board == m.board[to := p.board[to]]
    requires |p.history| == |m.history|
    requires p.history[..|m.history| - 1] == m.history[..|m.history| - 1]
    requires p.history[|m.history| - 1].(promotion := None) == m.history[|m.history| - 1]
    requires p.kings == m.kings && p.pending.None? && p.turn == Opponent(g.turn)
    requires p.whiteCaptured == m.whiteCaptured && p.blackCaptured == m.blackCaptured
    ensures Undo(p) == g
  {
    var q := p.(board := m.board, history := m.history);
    assert Recorded(g, from, to, q);
    assert Undoable(p) && Undoable(q);
    UndoForgetsDestination(p, q);
    UndoRecorded(g, from, to, q);
  }

  lemma UndoPromoted(g: Game, from: Pos, to: Pos, m: Game, kind: Kind)
    requires Valid(g) && InCheckAccurate(g) && g.pending.None? && !g.gameOver
    requires from in g.board && OnBoard(to) && from != to && IsPromotionKind(kind)
    requires Recorded(g, from, to, m) && m.pending == Some(Pending(to, g.board[from].color))
    requires m.turn == g.turn
    requires IsBoard(m.board) && KingsOnBoard(m.kings)
    ensures Undo(Promote(m, kind)) == g
  {
    var p := Promote(m, kind);
    UndoPromotedState(g, from, to, m, p);
  }

  /** `undoMove` after a promotion (move, then choice of piece) gives back
      the game before the pawn moved. */
  lemma UndoRevertsPromotion(g: Game, from: Pos, to: Pos, kind: Kind)
    requires Valid(g) && InCheckAccurate(g) && g.pending.None? && !g.gameOver
    requires from in g.board && OnBoard(to) && from != to && IsPromotionMove(g.board, from, to)
    requires IsPromotionKind(kind)
    ensures Undo(Promote(MovePiece(g, from, to), kind)) == g
  {
    var m := MovePiece(g, from, to);
    assert IsBoard(m.board);
    UndoPromoted(g, from, to, m, kind);
  }

  /** The state of a game in progress between moves: well placed kings, no
      promotion pending, and the side that just moved not left in check. */
  ghost predicate Playable(g: Game) {
    && Valid(g) && g.pending.None?
    && !IsInCheck(g.board, g.kings.Of(Opponent(g.turn)), Opponent(g.turn))
  }

  lemma KingAt(b: Board, kings: Kings, p: Pos, c: Color)
    requires KingsConsistent(b, kings) && HasPiece(b, p, c, King)
    ensures p == kings.Of(c)
  {
  }

  lemma MoveKeepsKingsConsistent(b: Board, kings: Kings, from: Pos, to: Pos)
    requires WellPlaced(b, kings) && from in b && OnBoard(to) && from != to
    requires !HasColor(b, to, b[from].color) && to != kings.Of(Opponent(b[from].color))
    ensures var piece := b[from];
      KingsConsistent(Apply(b, from, to, piece.(hasMoved := true)),
                      if piece.kind == King then kings.With(piece.color, to) else kings)
  {
    var piece := b[from];
    var c := piece.color;
    var a := Apply(b, from, to, piece.(hasMoved := true));
    var k := if piece.kind == King then kings.With(c, to) else kings;
    assert HasPiece(b, kings.Of(c), c, King);
    assert HasPiece(b, kings.Of(Opponent(c)), Opponent(c), King);
    forall d: Color
      ensures HasPiece(a, k.Of(d), d, King)
      ensures forall p :: HasPiece(a, p, d, King) ==> p == k.Of(d)
    {
      forall p | HasPiece(a, p, d, King)
        ensures p == k.Of(d)
      {
        if p != to {
          assert p != from && HasPiece(b, p, d, King);
          assert p == kings.Of(d);
          if piece.kind == King && d == c {
            KingAt(b, kings, from, c);
          }
        }
      }
    }
  }

  /** The opponent king is never the target of a legal move: the side that
      just moved is not in check, so nothing attacks that king. */
  lemma OpponentKingNotTarget(g: Game, from: Pos, to: Pos)
    requires Playable(g) && HasColor(g.board, from, g.turn)
    requires to in PseudoMoves(g.board, from)
    ensures to != g.kings.Of(Opponent(g.turn))
  {
    var o := Opponent(g.turn);
    var k := g.kings.Of(o);
    if to == k {
      assert HasColor(g.board, k, o);
      assert Attacked(g.board, k, o);
      CheckIffAttacked(g.board, k, o);
      assert false;
    }
  }

  lemma RecordedKeepsPlayable(g: Game, from: Pos, to: Pos, m: Game)
    requires Playable(g) && HasColor(g.board, from, g.turn)
    requires to in PseudoMoves(g.board, from) && OnBoard(to) && !WouldBeInCheck(g.board, g.kings, from, to)
    requires Recorded(g, from, to, m) && m.pending.None? && m.turn == Opponent(g.turn)
    ensures Playable(m)
  {
    var b := g.board;
    var c := g.turn;
    var piece := b[from];
    PseudoMovesTargets(b, from, to);
    OpponentKingNotTarget(g, from, to);
    MoveKeepsKingsConsistent(b, g.kings, from, to);
    var safe := Apply(b, from, to, piece);
    assert SameShape(safe, m.board) by {
      assert safe.Keys == m.board.Keys;
    }
    IsInCheckSameShape(safe, m.board, KingAfter(b, g.kings, from, to), c);
    assert m.kings.Of(c) == KingAfter(b, g.kings, from, to);
    assert Opponent(m.turn) == c;
    assert forall i :: 0 <= i < |m.history| ==> OnBoard(m.history[i].from) && OnBoard(m.history[i].to);
  }

  /** A legal, non-promoting move keeps the game playable: each side still
      has exactly one king, on its cached square, and the mover's king is
      not in check afterwards. */
  lemma LegalMoveKeepsPlayable(g: Game, from: Pos, to: Pos)
    requires Playable(g) && HasColor(g.board, from, g.turn)
    requires to in LegalMoves(g.board, g.kings, from) && !IsPromotionMove(g.board, from, to)
    ensures Playable(MovePiece(g, from, to))
  {
    RecordedKeepsPlayable(g, from, to, MovePiece(g, from, to));
  }

  /** Every piece within two rows and two columns of `k` is of colour `c`. */
  ghost predicate Surrounded(b: Board, k: Pos, c: Color) {
    forall p :: p in b && -2 <= p.row - k.row <= 2 && -2 <= p.col - k.col <= 2 ==> b[p].color == c
  }

  lemma SurroundedNoNearThreat(b: Board, k: Pos, c: Color, offs: seq<Offset>, kind: Kind)
    requires Surrounded(b, k, c)
    requires forall i :: 0 <= i < |offs| ==> -2 <= offs[i].dr <= 2 && -2 <= offs[i].dc <= 2
    ensures !PieceAtOffset(b, k, offs, Opponent(c), kind)
  {
  }

  lemma SurroundedNoSlider(b: Board, k: Pos, c: Color)
    requires OnBoard(k) && Surrounded(b, k, c)
    requires forall i :: 0 <= i < |CheckDirs| ==> var q := Add(k, CheckDirs[i]); !OnBoard(q) || q in b
    ensures !SliderThreat(b, k, c)
  {
    CheckDirsAreUnits();
    forall i | 0 <= i < |CheckDirs|
      ensures !SliderOnRay(b, k, CheckDirs[i], c)
    {
      assert Shift(k, CheckDirs[i], 1) == Add(k, CheckDirs[i]);
    }
  }

  /** A king whose eight neighbours are all occupied or off the board, and
      whose surroundings hold only its own pieces, is not in check. */
  lemma GuardedKing(b: Board, k: Pos, c: Color)
    requires OnBoard(k) && Surrounded(b, k, c)
    requires forall i :: 0 <= i < |CheckDirs| ==> var q := Add(k, CheckDirs[i]); !OnBoard(q) || q in b
    ensures !IsInCheck(b, k, c)
  {
    SurroundedNoNearThreat(b, k, c, PawnAttackOffsets(c), Pawn);
    SurroundedNoNearThreat(b, k, c, KnightOffsets, Knight);
    SurroundedNoNearThreat(b, k, c, KingOffsets, King);
    SurroundedNoSlider(b, k, c);
  }

  /** In the starting position neither king is in check. */
  lemma InitialKingSafe(c: Color)
    ensures !IsInCheck(InitialBoard(), InitialKings.Of(c), c)
  {
    var b := InitialBoard();
    var k := InitialKings.Of(c);
    assert Surrounded(b, k, c);
    GuardedKing(b, k, c);
  }

  /** The new game is playable. */
  lemma NewGamePlayable()
    ensures Playable(NewGame())
  {
    InitialKingSafe(Black);
  }
}
