/** One square of the board: what it holds, how the player sees it, and how
    many black holes surround it once it has been opened. */
module Cells {

  /** The unsigned 8-bit integer the adjacency count is stored in. */
  newtype byte = n: int | 0 <= n < 256

  /** A cell has at most eight neighbours. */
  const MaxAdjacentCellsCount: byte := 8

  datatype CellContent = BlackHole | Empty

  datatype CellVisibility = Hidden | Open | Flagged

  /** The value of a cell at one moment: used to speak about whole boards. */
  datatype CellState = CellState(content: CellContent, visibility: CellVisibility, count: nat)

  /** Outcome of assigning the adjacency count: the setter either stores the
      value or fails with MaxAdjacentCellsExceededException. */
  datatype SetCountOutcome = Stored | MaxAdjacentCellsExceeded

  class Cell {
    /** Fixed at construction: there is no way to change it afterwards. */
    const content: CellContent
    var visibility: CellVisibility
    var adjacentBlackHolesCount: byte

    constructor (content: CellContent, visibility: CellVisibility)
      ensures this.content == content && this.visibility == visibility
      ensures adjacentBlackHolesCount == 0
    {
      this.content := content;
      this.visibility := visibility;
      adjacentBlackHolesCount := 0;
    }

    /** The cell as a value. */
    function State(): CellState
      reads this
    {
      CellState(content, visibility, adjacentBlackHolesCount as nat)
    }

    /** The Visibility setter: any visibility is accepted, and nothing else
        about the cell changes. */
    method SetVisibility(v: CellVisibility)
      modifies this`visibility
      ensures visibility == v
    {
      visibility := v;
    }

    /** The AdjacentBlackHolesCount setter: a value above eight is refused
        before anything is stored. */
    method SetAdjacentBlackHolesCount(n: byte) returns (outcome: SetCountOutcome)
      modifies this`adjacentBlackHolesCount
      ensures outcome == Stored <==> n <= MaxAdjacentCellsCount
      ensures adjacentBlackHolesCount == if outcome == Stored then n else old(adjacentBlackHolesCount)
    {
      if n > MaxAdjacentCellsCount {
        return MaxAdjacentCellsExceeded;
      }
      adjacentBlackHolesCount := n;
      outcome := Stored;
    }
  }
}
