/** The click-to-move layer of games/chess/chess.js (`handleSquareClick`,
    `selectPiece`, `clearSelection`) and the undo control wired to the undo
    button and key. */
module ChessUi {

  import opened Optional
  import opened ChessBoard
  import opened ChessMoves
  import opened ChessGame

  /** The game plus the current selection and its highlighted moves. */
  datatype Ui = Ui(game: Game, selected: Option<Pos>, validMoves: seq<Pos>)

  /** What `Click` needs to be defined: a well-formed board and kings, and a
      selected square that holds a piece. */
  ghost predicate Clickable(u: Ui) {
    && IsBoard(u.game.board) && KingsOnBoard(u.game.kings)
    && (u.selected.Some? ==> u.selected.value in u.game.board)
    && (forall q :: q in u.validMoves ==> OnBoard(q))
  }

  /** The selection is the one `selectPiece` would make now: a piece of the
      side to move with exactly its legal moves highlighted, or nothing. */
  ghost predicate SelectionSound(u: Ui)
    requires IsBoard(u.game.board) && KingsOnBoard(u.game.kings)
  {
    match u.selected
    case None => u.validMoves == []
    case Some(s) =>
      HasColor(u.game.board, s, u.game.turn) && u.validMoves == LegalMoves(u.game.board, u.game.kings, s)
  }

  /** Clicks are ignored once the game is over or while a promotion is pending. */
  predicate Accepting(u: Ui) {
    !u.game.gameOver && u.game.pending.None?
  }

  /** The click on `p` executes a move of the selected piece. */
  predicate ClickMoves(u: Ui, p: Pos) {
    Accepting(u) && u.selected.Some? && p in u.validMoves
  }

  /** `handleSquareClick` on square `p`: with a selection, a highlighted
      square moves the selected piece and clears the selection, a square of
      the side to move reselects, anything else deselects; without a
      selection, only a square of the side to move selects. */
  function Click(u: Ui, p: Pos): (r: Ui)
    requires OnBoard(p) && Clickable(u)
    ensures !Accepting(u) ==> r == u
    ensures ClickMoves(u, p) ==> r == Ui(MovePiece(u.game, u.selected.value, p), None, [])
    ensures Accepting(u) && !ClickMoves(u, p) ==>
      && r.game == u.game
      && (HasColor(u.game.board, p, u.game.turn) ==>
            r.selected == Some(p) && r.validMoves == LegalMoves(u.game.board, u.game.kings, p))
      && (!HasColor(u.game.board, p, u.game.turn) && u.selected.Some? ==> r.selected.None? && r.validMoves == [])
      && (!HasColor(u.game.board, p, u.game.turn) && u.selected.None? ==> r == u)
  {
    if !Accepting(u) then u
    else if ClickMoves(u, p) then
      Ui(MovePiece(u.game, u.selected.value, p), None, [])
    else if HasColor(u.game.board, p, u.game.turn) then
      u.(selected := Some(p), validMoves := LegalMoves(u.game.board, u.game.kings, p))
    else if u.selected.Some? then
      u.(selected := None, validMoves := [])
    else
      u
  }

  /** A click from a sound selection only ever moves a piece of the side to
      move, and only along one of its legal moves. */
  lemma ClickMovesLegally(u: Ui, p: Pos)
    requires OnBoard(p) && Clickable(u) && SelectionSound(u) && ClickMoves(u, p)
    ensures HasColor(u.game.board, u.selected.value, u.game.turn)
    ensures p in LegalMoves(u.game.board, u.game.kings, u.selected.value)
  {
  }

  /** Clicking keeps the selection sound. */
  lemma ClickKeepsSelectionSound(u: Ui, p: Pos)
    requires OnBoard(p) && Clickable(u) && SelectionSound(u)
    ensures var r := Click(u, p); IsBoard(r.game.board) && KingsOnBoard(r.game.kings) && SelectionSound(r)
  {
    if ClickMoves(u, p) {
      PseudoMovesTargets(u.game.board, u.selected.value, p);
    }
  }

  /** A click on a position in play keeps it in play, unless it is the
      pawn move that waits for a promotion choice. */
  lemma ClickKeepsPlayable(u: Ui, p: Pos)
    requires OnBoard(p) && Clickable(u) && SelectionSound(u) && Playable(u.game)
    requires ClickMoves(u, p) ==> !IsPromotionMove(u.game.board, u.selected.value, p)
    ensures Playable(Click(u, p).game)
  {
    if ClickMoves(u, p) {
      LegalMoveKeepsPlayable(u.game, u.selected.value, p);
    }
  }

  /** The undo button and key as written: `undoMove` alone, which leaves
      the selection and its highlighted moves in place. */
  function UndoKeepingSelection(u: Ui): (r: Ui)
    requires KingsOnBoard(u.game.kings)
    requires forall i :: 0 <= i < |u.game.history| ==> OnBoard(u.game.history[i].from)
    ensures r.selected == u.selected && r.validMoves == u.validMoves
    ensures r.game == Undo(u.game)
  {
    u.(game := Undo(u.game))
  }

  /** The undo control with the selection cleared, as every other turn
      change (`movePiece` followed by `clearSelection`) already does. */
  function UndoClearingSelection(u: Ui): (r: Ui)
    requires KingsOnBoard(u.game.kings)
    requires forall i :: 0 <= i < |u.game.history| ==> OnBoard(u.game.history[i].from)
    ensures r.game == Undo(u.game) && r.selected.None? && r.validMoves == []
  {
    Ui(Undo(u.game), None, [])
  }

  /** The last ply is on the board as recorded: its destination holds a
      piece of the side that made it, its origin is empty. */
  ghost predicate LastPlyOnBoard(g: Game) {
    |g.history| > 0 &&
    var e := g.history[|g.history| - 1];
    HasColor(g.board, e.to, Opponent(g.turn)) && e.from !in g.board
  }

  /** As written, a selection made just before an undo survives it: the next
      click on one of its highlighted squares moves a piece of the side that
      is no longer to move. */
  lemma StaleSelectionAfterUndo(u: Ui, p: Pos)
    requires Valid(u.game) && SelectionSound(u) && u.game.pending.None?
    requires LastPlyOnBoard(u.game) && p in u.validMoves
    ensures var r := UndoKeepingSelection(u);
      && Clickable(r) && ClickMoves(r, p)
      && HasColor(r.game.board, u.selected.value, Opponent(r.game.turn))
  {
    var s := u.selected.value;
    assert HasColor(u.game.board, s, u.game.turn);
    assert forall q :: q in u.validMoves ==> OnBoard(q);
    UndoKeepsOtherColour(u.game, s);
  }

  /** Undo leaves a piece of the side to move where it is, and that side
      is then the one not to move. */
  lemma UndoKeepsOtherColour(g: Game, s: Pos)
    requires Valid(g) && g.pending.None? && LastPlyOnBoard(g) && HasColor(g.board, s, g.turn)
    ensures var r := Undo(g);
      && IsBoard(r.board) && KingsOnBoard(r.kings) && !r.gameOver && r.pending.None?
      && HasColor(r.board, s, Opponent(r.turn))
  {
    var e := g.history[|g.history| - 1];
    assert s != e.to && s != e.from;
    UndoKeepsBoard(g);
  }

  /** With the selection cleared, undo keeps the selection sound, so by
      `ClickMovesLegally` every later click moves a piece of the side to
      move along a legal move. */
  lemma UndoClearingKeepsSound(u: Ui)
    requires Valid(u.game)
    ensures var r := UndoClearingSelection(u);
      IsBoard(r.game.board) && KingsOnBoard(r.game.kings) && Clickable(r) && SelectionSound(r)
  {
    UndoKeepsBoard(u.game);
  }
}
