/** Rasters shared by the two annotators: numpy arrays indexed [row, col]. */
module Grids {
  /** A two-dimensional array as rows of cells: `g[row][col]`. */
  type Grid<T> = seq<seq<T>>

  /** A raster position: row first, as numpy indexes it. */
  datatype Cell = Cell(row: int, col: int)

  /** A loaded picture. Only its shape matters to the core; the pixel data
      is handed unchanged to the external image-processing algorithms. */
  datatype Image = Image(height: nat, width: nat, pixels: seq<int>)

  /** `g` has `height` rows of `width` cells each. */
  predicate IsGrid<T>(g: Grid<T>, height: nat, width: nat) {
    |g| == height && forall r :: 0 <= r < height ==> |g[r]| == width
  }

  predicate InBounds(c: Cell, height: nat, width: nat) {
    0 <= c.row < height && 0 <= c.col < width
  }

  /** Two cells that share an edge (the 4-neighbourhood). */
  predicate Adjacent4(a: Cell, b: Cell) {
    (a.row == b.row && (a.col - b.col == 1 || b.col - a.col == 1))
    || (a.col == b.col && (a.row - b.row == 1 || b.row - a.row == 1))
  }

  /** Two distinct cells that touch by an edge or a corner (the 8-neighbourhood). */
  predicate Adjacent8(a: Cell, b: Cell) {
    a != b && -1 <= a.row - b.row <= 1 && -1 <= a.col - b.col <= 1
  }
}
