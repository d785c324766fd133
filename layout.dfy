/** Where the grid sits in the window, and how a click position in pixels
    becomes a (row, column) of the board. */
module Layout {
  import opened Board

  /** Side of one cell, in pixels. */
  const CellSize: int := 30
  /** Left edge of the grid, in pixels. */
  const Margin: int := 50
  /** Top edge of the grid, in pixels. */
  const TopMargin: int := 100

  /** Whether the grid rectangle of the window contains the point `(x, y)`:
      its left and top edges belong to it, its right and bottom edges do not. */
  predicate InGrid(x: int, y: int) {
    Margin <= x < Margin + GridSize * CellSize &&
    TopMargin <= y < TopMargin + GridSize * CellSize
  }

  /** The cell under the pixel `(x, y)`: column from `x`, row from `y`, each
      by floor division of the offset from the grid's corner. Dafny's `/`
      agrees with floor division for a positive divisor, negative offsets
      included. The result is the unique cell whose square of pixels holds
      the point, and it is on the board exactly when the point is inside
      the grid rectangle. */
  function CellOf(x: int, y: int): (p: Pos)
    ensures Margin + p.1 * CellSize <= x < Margin + (p.1 + 1) * CellSize
    ensures TopMargin + p.0 * CellSize <= y < TopMargin + (p.0 + 1) * CellSize
    ensures InGrid(x, y) <==> InBounds(p.0, p.1)
  {
    var p := ((y - TopMargin) / CellSize, (x - Margin) / CellSize);
    assert InBounds(p.0, p.1) ==>
      Margin <= Margin + p.1 * CellSize && Margin + (p.1 + 1) * CellSize <= Margin + GridSize * CellSize;
    p
  }
}
