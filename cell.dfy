/** One square of the maze (Cell.java): a fixed coordinate, four wall
    flags (true means the wall is standing) and the flag the carving
    traversal sets when it enters the cell. */
module Cells {

  /** The mutable part of a cell, as a value. */
  datatype CellState = CellState(top: bool, bottom: bool, left: bool, right: bool, visited: bool)

  /** The state of a new cell: every wall standing, not visited. */
  const Initial := CellState(true, true, true, true, false)

  class Cell {
    const row: int
    const col: int
    var top: bool
    var bottom: bool
    var left: bool
    var right: bool
    var visited: bool

    /** The wall and visited flags of this cell. */
    function State(): CellState
      reads this
    {
      CellState(top, bottom, left, right, visited)
    }

    constructor (row: int, col: int)
      ensures this.row == row && this.col == col
      ensures top && bottom && left && right && !visited
    {
      this.row := row;
      this.col := col;
      top, bottom, left, right := true, true, true, true;
      visited := false;
    }

    method SetVisited(visited: bool)
      modifies this
      ensures this.visited == visited
      ensures top == old(top) && bottom == old(bottom) && left == old(left) && right == old(right)
    {
      this.visited := visited;
    }

    method IsVisited() returns (v: bool)
      ensures v == visited
    {
      v := visited;
    }
  }
}
