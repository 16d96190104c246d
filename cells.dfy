/** Value types of the minesweeper board engine: what a cell holds, how it is
    shown, the overall game state and grid coordinates. */
module Cells {

  datatype Option<+T> = None | Some(value: T)

  /** What a cell holds; set when the board is built and never changed after. */
  datatype CellContent = Mine | Empty(n: nat)

  /** How a cell is shown to the player; changed only by player actions. */
  datatype CellVisibility = Hidden | Revealed | Flagged

  datatype CellStatus = CellStatus(content: CellContent, status: CellVisibility)

  /** The cell every grid position starts with: no mines counted, hidden. */
  function NewCell(): (c: CellStatus)
    ensures c.status == Hidden && c.content.Empty? && c.content.n == 0
  {
    CellStatus(Empty(0), Hidden)
  }

  datatype GameState = Playing | Won | Lost {
    /** The game is on: neither won nor lost. */
    predicate IsPlaying(): (r: bool)
      ensures r <==> this != Won && this != Lost
    {
      this == Playing
    }
  }

  /** A grid position: column `x`, row `y`, both zero-based. */
  datatype Coordinate = Coordinate(x: nat, y: nat)

  /** The flag toggle on one cell: Hidden and Flagged swap, Revealed stays. */
  function Toggled(v: CellVisibility): (r: CellVisibility)
    ensures v == Revealed <==> r == Revealed
    ensures v != Revealed ==> r != v
  {
    match v
    case Hidden => Flagged
    case Flagged => Hidden
    case Revealed => Revealed
  }

  lemma ToggledTwice(v: CellVisibility)
    ensures Toggled(Toggled(v)) == v
  {
  }
}
