/**
 * Grid positions and the search node of the A* pathfinder.
 *
 * A `Cell` is the value identity of a node: two nodes are the same grid
 * position exactly when their (row, col) agree, whatever their search
 * bookkeeping says.
 */
module Nodes {

  /** A grid position; rows and columns are unbounded integers. */
  datatype Cell = Cell(row: int, col: int)

  /**
   * A search node. Its coordinates are fixed when it is built; the
   * search writes `gCost`, `hCost` and `parent` afterwards.
   */
  class Node {
    const row: int
    const col: int
    var gCost: int
    var hCost: int
    var parent: Node?

    /** A fresh node carries the default values of its search fields. */
    constructor (row: int, col: int)
      ensures this.row == row && this.col == col
      ensures gCost == 0 && hCost == 0 && parent == null
    {
      this.row := row;
      this.col := col;
      gCost := 0;
      hCost := 0;
      parent := null;
    }

    /** The position this node stands for. */
    function Pos(): Cell
    {
      Cell(row, col)
    }

    /** The priority of the node in the open set. */
    function FCost(): int
      reads this
    {
      gCost + hCost
    }

    /**
     * Node equality looks at the coordinates only: it holds exactly when
     * the two positions agree, whatever the search fields hold.
     */
    predicate Equals(other: Node)
      ensures Equals(other) <==> Pos() == other.Pos()
    {
      row == other.row && col == other.col
    }
  }

  /** Equality of nodes is equality of their positions, so it ignores the search fields. */
  lemma EqualsIsSamePosition(a: Node, b: Node)
    ensures a.Equals(b) <==> a.Pos() == b.Pos()
    ensures a.Equals(b) <==> b.Equals(a)
  {
  }
}
