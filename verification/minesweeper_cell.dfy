/** One cell of games/minesweeper/js/cell.js, without its DOM element: its
    state machine (hidden, flagged, revealed), its mine and its count of
    neighbouring mines. */
module MinesweeperCell {
  import opened MinesweeperConstants

  datatype Cell = Cell(state: CellState, isMine: bool, adjacent: nat)

  /** The constructor: hidden, no mine, count 0. */
  function NewCell(): (c: Cell)
    ensures c.state == Hidden && !c.isMine && c.adjacent == 0
  {
    Cell(Hidden, false, 0)
  }

  /** A changed cell and the boolean its method returns. */
  datatype Answer = Answer(cell: Cell, result: bool)

  /** `reveal`: a hidden cell becomes revealed and reports its mine; any
      other cell is left alone and reports false. Only the state changes. */
  function Reveal(c: Cell): (a: Answer)
    ensures a.cell.isMine == c.isMine && a.cell.adjacent == c.adjacent
    ensures a.cell.state == (if c.state == Flagged then Flagged else Revealed)
    ensures a.result <==> c.state == Hidden && c.isMine
  {
    match c.state
    case Hidden => Answer(c.(state := Revealed), c.isMine)
    case _ => Answer(c, false)
  }

  /** `toggleFlag`: hidden and flagged swap; a revealed cell stays. The
      result is the new flag state. Only the state changes. */
  function ToggleFlag(c: Cell): (a: Answer)
    ensures a.cell.isMine == c.isMine && a.cell.adjacent == c.adjacent
    ensures a.result <==> a.cell.state == Flagged
    ensures (a.cell.state == Revealed) == (c.state == Revealed)
    ensures c.state != Revealed ==> a.cell.state != c.state
  {
    if c.state == Hidden then Answer(c.(state := Flagged), true)
    else if c.state == Flagged then Answer(c.(state := Hidden), false)
    else Answer(c, c.state == Flagged)
  }

  /** `reset`: back to the state the constructor gives. */
  function Reset(c: Cell): (r: Cell)
    ensures r == NewCell()
  {
    Cell(Hidden, false, 0)
  }

  /** Toggling twice restores a hidden or flagged cell. */
  lemma ToggleTwice(c: Cell)
    ensures ToggleFlag(ToggleFlag(c).cell).cell == c
  {
  }

  /** A revealed cell is final: neither method changes it or reports true. */
  lemma RevealedAbsorbing(c: Cell)
    requires c.state == Revealed
    ensures Reveal(c) == Answer(c, false) && ToggleFlag(c) == Answer(c, false)
  {
  }

  /** Revealing twice changes nothing the second time. */
  lemma RevealIdempotent(c: Cell)
    ensures Reveal(Reveal(c).cell).cell == Reveal(c).cell
    ensures !Reveal(Reveal(c).cell).result
  {
  }
}
