// The fixed canvas both layout engines place blocks on: 4 rows of 2 columns.

module Grid {
  import opened Types

  const Rows := 4
  const Columns := 2

  /** The number of cells of one slide (`numColumns * numRows`). */
  const Capacity := Rows * Columns

  /** A cell position on the canvas. */
  datatype Spot = Spot(row: int, col: int)

  /** Cell (r, c) lies in the rectangle of `h` rows and `w` columns whose top-left cell is (row, col). */
  predicate InRect(row: int, col: int, w: int, h: int, r: int, c: int)
  {
    row <= r < row + h && col <= c < col + w
  }

  /** Row-major order on positions: (r1, c1) comes strictly before (r2, c2). */
  predicate Before(r1: int, c1: int, r2: int, c2: int)
  {
    r1 < r2 || (r1 == r2 && c1 < c2)
  }

  /** Whether every cell of rows [r0, r1) and columns [c0, c1) of the grid is empty
      (the nested `break` loops that compute `canPlace`). */
  method RectFree<T>(grid: array2<Option<T>>, r0: int, r1: int, c0: int, c1: int) returns (free: bool)
    requires 0 <= r0 && r1 <= grid.Length0 && 0 <= c0 && c1 <= grid.Length1
    ensures free <==> forall r, c :: r0 <= r < r1 && c0 <= c < c1 ==> grid[r, c].None?
  {
    free := true;
    var r := r0;
    while r < r1
      invariant r0 <= r && free
      invariant forall i, j :: r0 <= i < r && i < r1 && c0 <= j < c1 ==> grid[i, j].None?
      decreases r1 - r
    {
      var c := c0;
      while c < c1
        invariant c0 <= c && free
        invariant forall j :: c0 <= j < c && j < c1 ==> grid[r, j].None?
        decreases c1 - c
      {
        if grid[r, c].Some? {
          free := false;
          break;
        }
        c := c + 1;
      }
      if !free {
        break;
      }
      r := r + 1;
    }
  }
}
