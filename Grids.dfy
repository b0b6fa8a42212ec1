/**
 * The editor's grid: an array of rows, each an array of one-character
 * strings.  JavaScript arrays may be ragged and may be read past their end,
 * so the helpers here say what such a read yields.
 */
module Grids {
  type Cell = string
  type Grid = seq<seq<Cell>>

  /** The cell every new grid is filled with. */
  const Blank: Cell := "."

  /** What a read past the end of a row yields (`undefined`, which `join`
      renders as the empty string). */
  const Absent: Cell := ""

  /** `grid[0]?.length || 0`: the length of the first row, 0 for no rows. */
  function Width(g: Grid): nat {
    if |g| == 0 then 0 else |g[0]|
  }

  predicate HasShape(g: Grid, h: nat, w: nat) {
    |g| == h && forall r :: 0 <= r < h ==> |g[r]| == w
  }

  /** Every row is as long as the first. */
  predicate Rectangular(g: Grid) {
    HasShape(g, |g|, Width(g))
  }

  /** `grid[r][c]` for an existing row `r`, with `Absent` past its end. */
  function CellAt(g: Grid, r: int, c: int): Cell {
    if 0 <= r < |g| && 0 <= c < |g[r]| then g[r][c] else Absent
  }

  predicate SingleChars(g: Grid) {
    forall r, c :: 0 <= r < |g| && 0 <= c < |g[r]| ==> |g[r][c]| == 1
  }

  /** A grid of a given shape is rectangular (a shape with no rows is the
      empty grid). */
  lemma ShapedIsRectangular(g: Grid, h: nat, w: nat)
    requires HasShape(g, h, w)
    ensures Rectangular(g)
    ensures h > 0 ==> Width(g) == w
  {
  }
}
