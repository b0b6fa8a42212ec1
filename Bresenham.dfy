/**
 * `bresenhamLine` of `src/utils/gridUtils.ts`, whose loop the two editor
 * components repeat in their mouse-enter handlers: the all-octant integer
 * form of Bresenham's line algorithm, with an error term `err` that
 * decides at each step whether the column, the row, or both advance.
 *
 * The path is the spec function `Trace`; the method `BresenhamLine` runs
 * the source's `while (true)` loop and is proved to paint exactly the cells
 * of `Trace` that fall inside the grid.
 */
module Bresenham {
  import opened Grids

  function Abs(n: int): (a: int) ensures a >= 0 { if n < 0 then -n else n }

  /** A stroke from row `r0`, column `c0` to row `r1`, column `c1`. */
  datatype Line = Line(r0: int, c0: int, r1: int, c1: int) {
    function Dx(): int { Abs(c1 - c0) }
    function Dy(): int { Abs(r1 - r0) }
    /** The column step: +1 towards a larger end column, otherwise -1. */
    function Sx(): int { if c0 < c1 then 1 else -1 }
    function Sy(): int { if r0 < r1 then 1 else -1 }
  }

  /** The loop variables: column `x`, row `y` and the error term. */
  datatype Cursor = Cursor(x: int, y: int, err: int)

  /** A grid position as (row, column). */
  type Pos = (int, int)

  function Start(l: Line): Cursor {
    Cursor(l.c0, l.r0, l.Dx() - l.Dy())
  }

  predicate AtEnd(l: Line, p: Cursor) {
    p.x == l.c1 && p.y == l.r1
  }

  /** One pass of the loop body after the break test: both tests read the
      error term as it was before either update. */
  function Step(l: Line, p: Cursor): Cursor {
    var e2 := 2 * p.err;
    var err1 := if e2 > -l.Dy() then p.err - l.Dy() else p.err;
    var x1 := if e2 > -l.Dy() then p.x + l.Sx() else p.x;
    var err2 := if e2 < l.Dx() then err1 + l.Dx() else err1;
    var y1 := if e2 < l.Dx() then p.y + l.Sy() else p.y;
    Cursor(x1, y1, err2)
  }

  /** How many column steps the cursor has taken towards the end. */
  function ColumnSteps(l: Line, p: Cursor): int {
    if l.c0 < l.c1 then p.x - l.c0 else l.c0 - p.x
  }

  function RowSteps(l: Line, p: Cursor): int {
    if l.r0 < l.r1 then p.y - l.r0 else l.r0 - p.y
  }

  /** The cursor has taken `i` column and `j` row steps, neither past the
      end, and the error term is `dx * (1 + j) - dy * (1 + i)`. */
  predicate OnTrack(l: Line, p: Cursor) {
    var i, j := ColumnSteps(l, p), RowSteps(l, p);
    0 <= i <= l.Dx() && 0 <= j <= l.Dy() && p.err == l.Dx() * (1 + j) - l.Dy() * (1 + i)
  }

  /** The steps still to take. */
  function Remaining(l: Line, p: Cursor): int {
    (l.Dx() - ColumnSteps(l, p)) + (l.Dy() - RowSteps(l, p))
  }

  lemma MulMonotone(a: nat, b: int, c: int)
    requires b <= c
    ensures a * b <= a * c
  {
    assert a * c - a * b == a * (c - b);
  }

  /** Once the column is done and the row is not, the column stays put. */
  lemma ColumnDoneStays(l: Line, p: Cursor)
    requires OnTrack(l, p) && ColumnSteps(l, p) == l.Dx() && RowSteps(l, p) < l.Dy()
    ensures 2 * p.err <= -l.Dy()
  {
    MulMonotone(l.Dx(), 1 + RowSteps(l, p), l.Dy());
  }

  /** Once the row is done and the column is not, the row stays put. */
  lemma RowDoneStays(l: Line, p: Cursor)
    requires OnTrack(l, p) && RowSteps(l, p) == l.Dy() && ColumnSteps(l, p) < l.Dx()
    ensures 2 * p.err >= l.Dx()
  {
    MulMonotone(l.Dy(), 1 + ColumnSteps(l, p), l.Dx());
  }

  /** The cursor is at the end exactly when both step counts are full. */
  lemma AtEndIffDone(l: Line, p: Cursor)
    requires OnTrack(l, p)
    ensures AtEnd(l, p) <==> ColumnSteps(l, p) == l.Dx() && RowSteps(l, p) == l.Dy()
  {
  }

  /** A step away from the end stays on track, moves the column by 0 or
      `sx` and the row by 0 or `sy`, moves at least one of them, and
      shortens the way left. */
  lemma StepOnTrack(l: Line, p: Cursor)
    requires OnTrack(l, p) && !AtEnd(l, p)
    ensures OnTrack(l, Step(l, p))
    ensures Remaining(l, Step(l, p)) < Remaining(l, p)
    ensures Step(l, p).x - p.x in {0, l.Sx()} && Step(l, p).y - p.y in {0, l.Sy()}
    ensures Step(l, p).x != p.x || Step(l, p).y != p.y
  {
    var i, j := ColumnSteps(l, p), RowSteps(l, p);
    AtEndIffDone(l, p);
    if i == l.Dx() && j < l.Dy() {
      ColumnDoneStays(l, p);
    } else if j == l.Dy() && i < l.Dx() {
      RowDoneStays(l, p);
    }
    StepCounts(l, p);
    StepError(l.Dx(), l.Dy(), i, j);
  }

  /** What one step does to the two step counts and the error term. */
  lemma StepCounts(l: Line, p: Cursor)
    ensures var e2 := 2 * p.err;
      ColumnSteps(l, Step(l, p)) == ColumnSteps(l, p) + (if e2 > -l.Dy() then 1 else 0)
      && RowSteps(l, Step(l, p)) == RowSteps(l, p) + (if e2 < l.Dx() then 1 else 0)
      && Step(l, p).err == p.err - (if e2 > -l.Dy() then l.Dy() else 0) + (if e2 < l.Dx() then l.Dx() else 0)
  {
  }

  lemma StepError(dx: int, dy: int, i: int, j: int)
    ensures dx * (1 + (j + 1)) == dx * (1 + j) + dx
    ensures dy * (1 + (i + 1)) == dy * (1 + i) + dy
  {
  }

  lemma StartOnTrack(l: Line)
    ensures OnTrack(l, Start(l))
  {
  }

  /** The cells the loop visits from `p` on, in order, ending with the end
      cell. */
  function Trace(l: Line, p: Cursor): (cells: seq<Pos>)
    requires OnTrack(l, p)
    ensures |cells| >= 1 && cells[0] == (p.y, p.x)
    ensures cells[|cells| - 1] == (l.r1, l.c1)
    decreases Remaining(l, p)
  {
    if AtEnd(l, p) then [(p.y, p.x)]
    else
      StepOnTrack(l, p);
      [(p.y, p.x)] + Trace(l, Step(l, p))
  }

  /** The whole path, from the start cell to the end cell. */
  function Path(l: Line): (cells: seq<Pos>)
    ensures |cells| >= 1 && cells[0] == (l.r0, l.c0) && cells[|cells| - 1] == (l.r1, l.c1)
  {
    StartOnTrack(l);
    Trace(l, Start(l))
  }

  /** `b` follows `a` on a path of `l`: it moves by 0 or `sy` rows and 0 or
      `sx` columns, and is a different cell (so the two are 8-neighbours). */
  predicate Follows(l: Line, a: Pos, b: Pos) {
    b.0 - a.0 in {0, l.Sy()} && b.1 - a.1 in {0, l.Sx()} && b != a
  }

  predicate Chained(l: Line, cells: seq<Pos>) {
    forall k :: 0 <= k < |cells| - 1 ==> Follows(l, cells[k], cells[k + 1])
  }

  lemma ChainedCons(l: Line, a: Pos, rest: seq<Pos>)
    requires |rest| >= 1 && Follows(l, a, rest[0]) && Chained(l, rest)
    ensures Chained(l, [a] + rest)
  {
    var cells := [a] + rest;
    forall k | 0 <= k < |cells| - 1
      ensures Follows(l, cells[k], cells[k + 1])
    {
      if k > 0 {
        assert cells[k] == rest[k - 1] && cells[k + 1] == rest[k];
      }
    }
  }

  /** Consecutive cells of a trace follow each other. */
  lemma {:induction false} TraceChained(l: Line, p: Cursor)
    requires OnTrack(l, p)
    ensures Chained(l, Trace(l, p))
    decreases Remaining(l, p)
  {
    if !AtEnd(l, p) {
      TraceStep(l, p);
      StepOnTrack(l, p);
      var q := Step(l, p);
      TraceChained(l, q);
      ChainedCons(l, (p.y, p.x), Trace(l, q));
    }
  }

  /** Consecutive cells of the path are 8-neighbours, moving by 0 or `sy`
      rows and 0 or `sx` columns. */
  lemma PathAdjacent(l: Line)
    ensures forall k :: 0 <= k < |Path(l)| - 1 ==>
              Path(l)[k + 1].0 - Path(l)[k].0 in {0, l.Sy()} &&
              Path(l)[k + 1].1 - Path(l)[k].1 in {0, l.Sx()} &&
              Path(l)[k + 1] != Path(l)[k]
  {
    StartOnTrack(l);
    TraceChained(l, Start(l));
  }

  // ---------------------------------------------------------------- painting

  /** `newGrid[y][x] = ch` on an existing row: a write past the row's end
      lengthens it, leaving `Absent` holes in between. */
  function SetCell(g: Grid, y: int, x: int, ch: Cell): (t: Grid)
    requires 0 <= y < |g| && 0 <= x
    ensures |t| == |g| && |t[y]| >= |g[y]| && |t[y]| > x && t[y][x] == ch
    ensures forall r :: 0 <= r < |g| && r != y ==> t[r] == g[r]
    ensures forall c :: 0 <= c < |g[y]| && c != x ==> t[y][c] == g[y][c]
  {
    if x < |g[y]| then g[y := g[y][x := ch]]
    else g[y := g[y] + seq(x - |g[y]|, _ => Absent) + [ch]]
  }

  /** The loop's bounds test is against the height and the first row's
      length; cells outside are skipped. */
  predicate Inside(g: Grid, pos: Pos) {
    0 <= pos.0 < |g| && 0 <= pos.1 < Width(g)
  }

  function PaintCell(g: Grid, pos: Pos, ch: Cell): (t: Grid)
    ensures |t| == |g| && Width(t) == Width(g)
    ensures Rectangular(g) ==> Rectangular(t)
  {
    if Inside(g, pos) then SetCell(g, pos.0, pos.1, ch) else g
  }

  /** Paints the cells in order. */
  function PaintCells(g: Grid, cells: seq<Pos>, ch: Cell): (t: Grid)
    ensures |t| == |g| && Width(t) == Width(g)
    ensures Rectangular(g) ==> Rectangular(t)
    decreases |cells|
  {
    if cells == [] then g else PaintCells(PaintCell(g, cells[0], ch), cells[1..], ch)
  }

  /** The grid `bresenhamLine` returns. */
  function Drawn(g: Grid, l: Line, ch: Cell): Grid {
    PaintCells(g, Path(l), ch)
  }

  /** `bresenhamLine(grid, startRow, startCol, endRow, endCol, char)`. */
  method BresenhamLine(g: Grid, startRow: int, startCol: int, endRow: int, endCol: int, ch: Cell)
    returns (t: Grid)
    ensures t == Drawn(g, Line(startRow, startCol, endRow, endCol), ch)
  {
    var l := Line(startRow, startCol, endRow, endCol);
    t := g;
    var dx, dy := Abs(endCol - startCol), Abs(endRow - startRow);
    var sx := if startCol < endCol then 1 else -1;
    var sy := if startRow < endRow then 1 else -1;
    var err := dx - dy;
    var x, y := startCol, startRow;
    assert dx == l.Dx() && dy == l.Dy() && sx == l.Sx() && sy == l.Sy();
    StartOnTrack(l);
    assert Cursor(x, y, err) == Start(l);
    while true
      invariant OnTrack(l, Cursor(x, y, err))
      invariant PaintCells(t, Trace(l, Cursor(x, y, err)), ch) == Drawn(g, l, ch)
      decreases Remaining(l, Cursor(x, y, err))
    {
      ghost var p := Cursor(x, y, err);
      ghost var before := t;
      t := Plot(t, y, x, ch);
      if x == endCol && y == endRow {
        PaintLast(before, l, p, ch);
        break;
      }
      PaintStep(before, l, p, ch);
      x, y, err := Advance(l, dx, dy, sx, sy, x, y, err);
    }
  }

  /** The loop's write of `ch` at row `y`, column `x`, skipped outside the
      grid's height and first row's length. */
  method Plot(g: Grid, y: int, x: int, ch: Cell) returns (t: Grid)
    ensures t == PaintCell(g, (y, x), ch)
  {
    t := g;
    if y >= 0 && y < |t| && x >= 0 && x < |t[0]| {
      t := SetCell(t, y, x, ch);
    }
  }

  /** The rest of the loop body: both tests read `e2`, twice the error term
      before either update. */
  method Advance(l: Line, dx: int, dy: int, sx: int, sy: int, x: int, y: int, err: int)
    returns (x1: int, y1: int, err1: int)
    requires dx == l.Dx() && dy == l.Dy() && sx == l.Sx() && sy == l.Sy()
    ensures Cursor(x1, y1, err1) == Step(l, Cursor(x, y, err))
  {
    x1, y1, err1 := x, y, err;
    var e2 := 2 * err;
    if e2 > -dy {
      err1 := err1 - dy;
      x1 := x1 + sx;
    }
    if e2 < dx {
      err1 := err1 + dx;
      y1 := y1 + sy;
    }
  }

  /** Painting the trace from a cursor short of the end paints its cell,
      then the trace from the next cursor. */
  lemma PaintStep(g: Grid, l: Line, p: Cursor, ch: Cell)
    requires OnTrack(l, p) && !AtEnd(l, p)
    ensures OnTrack(l, Step(l, p)) && Remaining(l, Step(l, p)) < Remaining(l, p)
    ensures PaintCells(g, Trace(l, p), ch) == PaintCells(PaintCell(g, (p.y, p.x), ch), Trace(l, Step(l, p)), ch)
  {
    TraceStep(l, p);
    var cells := Trace(l, p);
    assert cells[0] == (p.y, p.x) && cells[1..] == Trace(l, Step(l, p));
  }

  /** Painting the trace from the end cursor paints the end cell alone. */
  lemma PaintLast(g: Grid, l: Line, p: Cursor, ch: Cell)
    requires OnTrack(l, p) && AtEnd(l, p)
    ensures PaintCells(g, Trace(l, p), ch) == PaintCell(g, (p.y, p.x), ch)
  {
    assert Trace(l, p) == [(p.y, p.x)];
  }

  /** The trace from a cursor short of the end: its cell, then the trace
      from the next cursor. */
  lemma TraceStep(l: Line, p: Cursor)
    requires OnTrack(l, p) && !AtEnd(l, p)
    ensures OnTrack(l, Step(l, p)) && Remaining(l, Step(l, p)) < Remaining(l, p)
    ensures Trace(l, p) == [(p.y, p.x)] + Trace(l, Step(l, p))
  {
    StepOnTrack(l, p);
  }

  // ---------------------------------------------------------------- properties

  /** On a rectangular grid, painting keeps the shape and sets exactly the
      listed cells that are inside; every other cell is unchanged. */
  lemma {:induction false} PaintCellsEffect(g: Grid, cells: seq<Pos>, ch: Cell)
    requires Rectangular(g)
    ensures HasShape(PaintCells(g, cells, ch), |g|, Width(g))
    ensures forall r, c :: 0 <= r < |g| && 0 <= c < Width(g) ==>
              PaintCells(g, cells, ch)[r][c] == if (r, c) in cells then ch else g[r][c]
    decreases |cells|
  {
    if cells != [] {
      var g1 := PaintCell(g, cells[0], ch);
      assert HasShape(g1, |g|, Width(g));
      PaintCellsEffect(g1, cells[1..], ch);
      var t := PaintCells(g, cells, ch);
      forall r, c | 0 <= r < |g| && 0 <= c < Width(g)
        ensures t[r][c] == if (r, c) in cells then ch else g[r][c]
      {
        assert (r, c) in cells <==> (r, c) == cells[0] || (r, c) in cells[1..];
      }
    }
  }

  /** `bresenhamLine` keeps a rectangular grid's shape, writes `ch` into
      every cell of the path that lies inside, and leaves the rest alone. */
  lemma DrawnEffect(g: Grid, l: Line, ch: Cell)
    requires Rectangular(g)
    ensures HasShape(Drawn(g, l, ch), |g|, Width(g))
    ensures forall r, c :: 0 <= r < |g| && 0 <= c < Width(g) ==>
              Drawn(g, l, ch)[r][c] == if (r, c) in Path(l) then ch else g[r][c]
  {
    PaintCellsEffect(g, Path(l), ch);
  }

  /** Both end cells are painted when they lie inside the grid. */
  lemma EndsPainted(g: Grid, l: Line, ch: Cell)
    requires Rectangular(g)
    ensures Inside(g, (l.r0, l.c0)) ==> Drawn(g, l, ch)[l.r0][l.c0] == ch
    ensures Inside(g, (l.r1, l.c1)) ==> Drawn(g, l, ch)[l.r1][l.c1] == ch
  {
    DrawnEffect(g, l, ch);
    var path := Path(l);
    assert path[0] in path && path[|path| - 1] in path;
  }

  /** Painting never shrinks a row and never adds or drops one, whatever
      the grid's shape. */
  lemma {:induction false} PaintCellsKeepsRows(g: Grid, cells: seq<Pos>, ch: Cell)
    ensures |PaintCells(g, cells, ch)| == |g|
    ensures forall r :: 0 <= r < |g| ==> |PaintCells(g, cells, ch)[r]| >= |g[r]|
    decreases |cells|
  {
    if cells != [] {
      var g1 := PaintCell(g, cells[0], ch);
      assert forall r :: 0 <= r < |g| ==> |g1[r]| >= |g[r]|;
      PaintCellsKeepsRows(g1, cells[1..], ch);
    }
  }

  /** The diagonal from (0, 0) to (1, 1) on a blank 2 by 2 grid. */
  lemma DiagonalExample()
    ensures Path(Line(0, 0, 1, 1)) == [(0, 0), (1, 1)]
    ensures Drawn([[".", "."], [".", "."]], Line(0, 0, 1, 1), "#") == [["#", "."], [".", "#"]]
  {
    var l := Line(0, 0, 1, 1);
    var p0 := Start(l);
    assert Step(l, p0) == Cursor(1, 1, 0);
    TraceStep(l, p0);
    assert Trace(l, Cursor(1, 1, 0)) == [(1, 1)];
    var g: Grid := [[".", "."], [".", "."]];
    var g1 := SetCell(g, 0, 0, "#");
    assert g1[0] == ["#", "."] && g1[1] == [".", "."];
    var g2 := SetCell(g1, 1, 1, "#");
    assert g2[0] == ["#", "."] && g2[1] == [".", "#"];
    assert PaintCells(g, [(0, 0), (1, 1)], "#") == PaintCells(g1, [(1, 1)], "#");
    assert PaintCells(g1, [(1, 1)], "#") == PaintCells(g2, [], "#");
  }

  /** The path depends on the direction: (0, 0) to (1, 2) passes (0, 1),
      while (1, 2) to (0, 0) passes (1, 1). */
  lemma NotDirectionSymmetric()
    ensures Path(Line(0, 0, 1, 2)) == [(0, 0), (0, 1), (1, 2)]
    ensures Path(Line(1, 2, 0, 0)) == [(1, 2), (1, 1), (0, 0)]
  {
    var l := Line(0, 0, 1, 2);
    var p0 := Start(l);
    StepOnTrack(l, p0);
    var p1 := Step(l, p0);
    assert p1 == Cursor(1, 0, 0);
    StepOnTrack(l, p1);
    assert Step(l, p1) == Cursor(2, 1, 1);
    assert Trace(l, Cursor(2, 1, 1)) == [(1, 2)];

    var m := Line(1, 2, 0, 0);
    var q0 := Start(m);
    StepOnTrack(m, q0);
    var q1 := Step(m, q0);
    assert q1 == Cursor(1, 1, 0);
    StepOnTrack(m, q1);
    assert Step(m, q1) == Cursor(0, 0, 1);
    assert Trace(m, Cursor(0, 0, 1)) == [(0, 0)];
  }
}
