/**
 * What the two editor components (`src/GridEditor.tsx` and its older copy
 * `src/GridEditor.js`) compute before they set any state: the grid a
 * handler builds from the current grid and the height and width texts, the
 * brush a mouse button paints with, the action a key press selects, and
 * the grid a share link carries.  A handler that throws sets nothing, so
 * each result is `None` where the source throws or aborts.
 */
module EditorLogic {
  import opened JsText
  import opened Grids
  import opened History
  import GridUtils
  import Bresenham
  import Base64

  const StartHeight: string := "6"
  const StartWidth: string := "8"
  const StartChar: Cell := "#"

  /** What the components show: the grid, the two dimension texts as typed,
      the brush character, and the stroke in progress. */
  datatype Screen = Screen(
    grid: Grid,
    height: string,
    width: string,
    selectedChar: Cell,
    isDrawing: bool,
    mouseButton: Option<int>,
    lastDrawnCell: Option<(int, int)>)

  /** `h` rows of `Array(w).fill('.')`. */
  function Filled(h: nat, w: nat): (g: Grid)
    ensures HasShape(g, h, w)
    ensures forall r, c :: 0 <= r < h && 0 <= c < w ==> g[r][c] == Blank
  {
    seq(h, _ => seq(w, _ => Blank))
  }

  /** The components' first grid, from `parseInt('6')` and `parseInt('8')`. */
  function StartGrid(): Grid {
    Filled(6, 8)
  }

  /** The text a dimension box is given back: the parsed height and width
      describe the grid's shape. */
  predicate Describes(g: Grid, height: string, width: string) {
    ParseInt(height) == Some(|g|) && ParseInt(width) == Some(Width(g))
  }

  // ---------------------------------------------------------------- resize and clear

  /** `handleGenerateGrid`'s new grid for the parsed height `h` and width
      `w`: nothing when either is NaN or not positive (the handler alerts
      and returns) or too long for `Array` (it throws); otherwise the
      resize of `generateInitialGrid`, keeping the cells that fit. */
  function Resized(g: Grid, h: Option<int>, w: Option<int>): (r: Option<Grid>)
    ensures r.Some? ==> IsPositive(h) && IsPositive(w) && HasShape(r.value, h.value, w.value)
  {
    if !IsPositive(h) || !IsPositive(w) then None
    else if !ArrayLengthOk(h) || !ArrayLengthOk(w) then None
    else Some(GridUtils.GenerateInitialGrid(h.value, w.value, Some(g)))
  }

  /** `handleClearGrid`'s new grid: `Array(h)` rows of `Array(w)` blanks,
      with no check on the numbers.  `Array` throws for a length that is NaN,
      negative or too large; the width is only used when there is a row. */
  function Cleared(h: Option<int>, w: Option<int>): (r: Option<Grid>)
    ensures r.Some? ==> ArrayLengthOk(h) && |r.value| == h.value
    ensures r.Some? && h.value > 0 ==> ArrayLengthOk(w) && HasShape(r.value, h.value, w.value)
    ensures r.Some? ==> forall i, j :: 0 <= i < |r.value| && 0 <= j < |r.value[i]| ==> r.value[i][j] == Blank
  {
    if !ArrayLengthOk(h) then None
    else if h.value == 0 then Some([])
    else if !ArrayLengthOk(w) then None
    else Some(Filled(h.value, w.value))
  }

  // ---------------------------------------------------------------- rotate

  /** `handleRotate`'s new grid and dimension texts, from the grid and the
      parsed height `H` and width `W` (not the grid's own shape): a `W` by
      `H` grid with `newGrid[c][H - 1 - r] = grid[r][c]`, and the texts
      `W.toString()` and `H.toString()`.  Nothing when it throws: `Array(W)`
      for an invalid `W`; with at least one new row, `Array(H)` for an
      invalid `H`, and the read of `grid[r][0]` for a row `r` the grid does
      not have.  With `W` zero the new grid is empty whatever `H` is. */
  function RotatedByText(g: Grid, H: Option<int>, W: Option<int>): (r: Option<Snapshot>)
    ensures r.Some? <==> ArrayLengthOk(W) && (W.value == 0 || (ArrayLengthOk(H) && H.value <= |g|))
    ensures r.Some? ==> r.value.height == NumberToString(W) && r.value.width == NumberToString(H)
    ensures r.Some? ==> Rectangular(r.value.grid) && |r.value.grid| == W.value
  {
    if !ArrayLengthOk(W) then None
    else if W.value == 0 then Some(Snapshot([], NumberToString(W), NumberToString(H)))
    else if !ArrayLengthOk(H) || H.value > |g| then None
    else
      var t := GridUtils.RotatedWindow(g, H.value, W.value);
      ShapedIsRectangular(t, W.value, H.value);
      Some(Snapshot(t, NumberToString(W), NumberToString(H)))
  }

  /** The rotate handler's computation, running the rotation loops. */
  method RotateByText(g: Grid, H: Option<int>, W: Option<int>) returns (r: Option<Snapshot>)
    ensures r == RotatedByText(g, H, W)
  {
    var newHeight := W;
    var newWidth := H;
    if !ArrayLengthOk(newHeight) {
      return None;
    }
    if newHeight.value == 0 {
      return Some(Snapshot([], NumberToString(newHeight), NumberToString(newWidth)));
    }
    if !ArrayLengthOk(newWidth) || newWidth.value > |g| {
      return None;
    }
    var newGrid := GridUtils.RotateWindow(g, newWidth.value, newHeight.value);
    return Some(Snapshot(newGrid, NumberToString(newHeight), NumberToString(newWidth)));
  }

  // ---------------------------------------------------------------- painting

  /** The character a stroke paints: the blank for the right button (2),
      the selected character otherwise. */
  function BrushFor(button: Option<int>, selectedChar: Cell): (ch: Cell)
    ensures ch == Blank || ch == selectedChar
  {
    if button == Some(2) then Blank else selectedChar
  }

  /** The mouse-down repaint: `grid.map` over rows and cells, replacing
      only the cell at (`row`, `col`) if the grid has it. */
  function Repainted(g: Grid, row: int, col: int, ch: Cell): (t: Grid)
    ensures |t| == |g| && forall r :: 0 <= r < |g| ==> |t[r]| == |g[r]|
    ensures Rectangular(g) ==> Rectangular(t)
  {
    seq(|g|, r requires 0 <= r < |g| =>
      seq(|g[r]|, c requires 0 <= c < |g[r]| => if r == row && c == col then ch else g[r][c]))
  }

  // ---------------------------------------------------------------- keys

  datatype KeyAction = NoAction | UndoAction | RedoAction | SelectChar(ch: string)

  /** `key.toLowerCase() === lower` for an ASCII letter `lower`. */
  predicate KeyIs(key: string, lower: char, upper: char) {
    key == [lower] || key == [upper]
  }

  /** The keydown listener: nothing when the focus is in a text box;
      otherwise the undo shortcut (Cmd-Z on a Mac, Ctrl-Z elsewhere, either
      case of the letter), the redo shortcut (the same with Y), or, for any
      single-character key pressed without Ctrl and Cmd, selecting that
      character as the brush. */
  function KeyActionOf(key: string, ctrl: bool, meta: bool, isMac: bool, targetIsInput: bool): (a: KeyAction)
    ensures targetIsInput ==> a == NoAction
    ensures a.SelectChar? ==> a.ch == key && |key| == 1 && !ctrl && !meta
    ensures a == UndoAction ==> (if isMac then meta else ctrl) && KeyIs(key, 'z', 'Z')
    ensures a == RedoAction ==> (if isMac then meta else ctrl) && KeyIs(key, 'y', 'Y')
    ensures !targetIsInput && (if isMac then meta else ctrl) && KeyIs(key, 'z', 'Z') ==> a == UndoAction
    ensures !targetIsInput && (if isMac then meta else ctrl) && KeyIs(key, 'y', 'Y') ==> a == RedoAction
    ensures !targetIsInput && |key| == 1 && !ctrl && !meta ==> a == SelectChar(key)
  {
    if targetIsInput then NoAction
    else
      var shortcut := if isMac then meta else ctrl;
      if shortcut && KeyIs(key, 'z', 'Z') then UndoAction
      else if shortcut && KeyIs(key, 'y', 'Y') then RedoAction
      else if |key| == 1 && !ctrl && !meta then SelectChar(key)
      else NoAction
  }

  // ---------------------------------------------------------------- share links

  /** The mount effect of `src/GridEditor.tsx`: with `h`, `w` and `data`
      all present and non-empty, `data` decodes (a decoding error is
      caught), both dimensions read as positive numbers and the decoded text
      is exactly `h * w` long, the rows cut from it with the texts as given;
      otherwise nothing. */
  function UrlGrid(h: Option<string>, w: Option<string>, data: Option<string>): (r: Option<Snapshot>)
    ensures r.Some? ==> h == Some(r.value.height) && w == Some(r.value.width)
    ensures r.Some? ==> IsPositive(ParseInt(r.value.height)) && IsPositive(ParseInt(r.value.width))
    ensures r.Some? ==> HasShape(r.value.grid, ParseInt(r.value.height).value, ParseInt(r.value.width).value)
    ensures r.Some? ==> SingleChars(r.value.grid) && Rectangular(r.value.grid)
    ensures r.Some? ==> (
      Truthy(h) && Truthy(w) && Truthy(data)
      && Base64.Atob(GridUtils.FromUrlSafe(data.value)).Some?
      && |Base64.Atob(GridUtils.FromUrlSafe(data.value)).value| == ParseInt(h.value).value * ParseInt(w.value).value)
  {
    if Truthy(h) && Truthy(w) && Truthy(data) then
      var newHeight, newWidth := ParseInt(h.value), ParseInt(w.value);
      match Base64.Atob(GridUtils.FromUrlSafe(data.value))
      case None => None
      case Some(d) =>
        if IsPositive(newHeight) && IsPositive(newWidth) && |d| == newHeight.value * newWidth.value then
          GridUtils.RowsShape(d, newHeight.value, newWidth.value);
          RowsSingleChars(d, newHeight.value, newWidth.value);
          ShapedIsRectangular(GridUtils.Rows(d, newHeight.value, newWidth.value), newHeight.value, newWidth.value);
          Some(Snapshot(GridUtils.Rows(d, newHeight.value, newWidth.value), h.value, w.value))
        else None
    else None
  }

  /** The effect's decoding, running the row loop. */
  method ReadUrlGrid(h: Option<string>, w: Option<string>, data: Option<string>) returns (r: Option<Snapshot>)
    ensures r == UrlGrid(h, w, data)
  {
    if !(Truthy(h) && Truthy(w) && Truthy(data)) {
      return None;
    }
    var newHeight := ParseInt(h.value);
    var newWidth := ParseInt(w.value);
    var decodedData := Base64.Atob(GridUtils.FromUrlSafe(data.value));
    if decodedData.None? {
      return None;
    }
    if IsPositive(newHeight) && IsPositive(newWidth) && |decodedData.value| == newHeight.value * newWidth.value {
      var newGrid := GridUtils.SliceRows(decodedData.value, newHeight.value, newWidth.value);
      return Some(Snapshot(newGrid, h.value, w.value));
    }
    return None;
  }

  /** Every cell cut from text is one character. */
  lemma RowsSingleChars(d: string, h: nat, w: nat)
    ensures SingleChars(GridUtils.Rows(d, h, w))
  {
    forall r | 0 <= r < h {
      RowSingleChars(d, h, w, r);
    }
  }

  lemma RowSingleChars(d: string, h: nat, w: nat, r: nat)
    requires r < h
    ensures forall c :: 0 <= c < |GridUtils.Rows(d, h, w)[r]| ==> |GridUtils.Rows(d, h, w)[r][c]| == 1
  {
    var row := GridUtils.Rows(d, h, w)[r];
    assert row == Chars(Substring(d, r * w, (r + 1) * w));
  }

  // ---------------------------------------------------------------- properties

  /** The components start on the grid the hook starts on without a share
      link. */
  lemma StartGridIsDefault()
    ensures StartGrid() == GridUtils.GenerateInitialGrid(6, 8, None)
  {
    var g, d := StartGrid(), GridUtils.GenerateInitialGrid(6, 8, None);
    forall r | 0 <= r < 6 ensures g[r] == d[r] {
    }
  }

  /** Resizing to the dimensions the texts already give returns the grid
      unchanged, so the push that follows adds nothing to the history. */
  lemma ResizeInPlace(g: Grid, height: string, width: string)
    requires Rectangular(g) && |g| > 0 && Width(g) > 0 && Describes(g, height, width)
    requires |g| <= MaxArrayLength && Width(g) <= MaxArrayLength
    ensures Resized(g, ParseInt(height), ParseInt(width)) == Some(g)
  {
    GridUtils.ResizeToSameShape(g);
  }

  /** Clearing to positive dimensions gives the blank grid a resize of no
      grid gives. */
  lemma ClearIsBlankResize(h: nat, w: nat)
    requires 0 < h <= MaxArrayLength && 0 < w <= MaxArrayLength
    ensures Cleared(Some(h), Some(w)) == Some(GridUtils.GenerateInitialGrid(h, w, None))
  {
    var a, b := Filled(h, w), GridUtils.GenerateInitialGrid(h, w, None);
    forall r | 0 <= r < h ensures a[r] == b[r] {
      forall c | 0 <= c < w ensures a[r][c] == b[r][c] {
      }
    }
    assert a == b;
    assert Cleared(Some(h), Some(w)) == Some(a);
  }

  /** Unlike the resize, the clear accepts a zero height (an empty grid,
      whatever the width says) and rejects a width of NaN only when there
      is a row to build. */
  lemma ClearAcceptsZeroHeight()
    ensures Resized([], Some(0), Some(3)) == None
    ensures Cleared(Some(0), None) == Some([])
    ensures Cleared(Some(2), None) == None
  {
  }

  /** When the texts describe a grid that is empty or has columns, the rotate
      handler computes `rotateGrid`'s result, and the new texts describe the
      rotated grid. */
  lemma RotateAgreesWithRotateGrid(g: Grid, height: string, width: string)
    requires Rectangular(g) && (|g| == 0 || Width(g) > 0) && Describes(g, height, width)
    requires |g| <= MaxArrayLength && Width(g) <= MaxArrayLength
    ensures RotatedByText(g, ParseInt(height), ParseInt(width)).Some?
    ensures RotatedByText(g, ParseInt(height), ParseInt(width)).value.grid == GridUtils.Rotated(g)
    ensures var s := RotatedByText(g, ParseInt(height), ParseInt(width)).value;
      Describes(s.grid, s.height, s.width)
  {
    var s := RotatedByText(g, ParseInt(height), ParseInt(width)).value;
    if Width(g) == 0 {
      assert |g| == 0;
      assert s.height == "0" && s.width == "0";
      assert GridUtils.Rotated(g) == [];
      ParseIntOfToString(0);
      assert NatToString(0) == "0";
    } else {
      assert s.grid == GridUtils.Rotated(g);
      ParseIntOfToString(Width(g));
      ParseIntOfToString(|g|);
      assert Width(s.grid) == |g|;
    }
  }

  /** Four presses of rotate on a grid its texts describe give back the
      grid, with texts that read as the same numbers. */
  lemma FourRotations(g: Grid, height: string, width: string)
    requires Rectangular(g) && (|g| == 0 || Width(g) > 0) && Describes(g, height, width)
    requires |g| <= MaxArrayLength && Width(g) <= MaxArrayLength
    ensures var s1 := RotatedByText(g, ParseInt(height), ParseInt(width));
      s1.Some? &&
      var s2 := RotatedByText(s1.value.grid, ParseInt(s1.value.height), ParseInt(s1.value.width));
      s2.Some? &&
      var s3 := RotatedByText(s2.value.grid, ParseInt(s2.value.height), ParseInt(s2.value.width));
      s3.Some? &&
      var s4 := RotatedByText(s3.value.grid, ParseInt(s3.value.height), ParseInt(s3.value.width));
      s4.Some? && s4.value.grid == g && Describes(g, s4.value.height, s4.value.width)
  {
    RotateAgreesWithRotateGrid(g, height, width);
    var s1 := RotatedByText(g, ParseInt(height), ParseInt(width)).value;
    RotationKeepsShape(g);
    RotateAgreesWithRotateGrid(s1.grid, s1.height, s1.width);
    var s2 := RotatedByText(s1.grid, ParseInt(s1.height), ParseInt(s1.width)).value;
    RotationKeepsShape(s1.grid);
    RotateAgreesWithRotateGrid(s2.grid, s2.height, s2.width);
    var s3 := RotatedByText(s2.grid, ParseInt(s2.height), ParseInt(s2.width)).value;
    RotationKeepsShape(s2.grid);
    RotateAgreesWithRotateGrid(s3.grid, s3.height, s3.width);
    GridUtils.FourTurns(g);
  }

  /** A rotated grid that is empty or has columns is again empty or has
      columns, with the dimensions swapped. */
  lemma RotationKeepsShape(g: Grid)
    requires Rectangular(g) && (|g| == 0 || Width(g) > 0)
    ensures var t := GridUtils.Rotated(g);
      Rectangular(t) && (|t| == 0 || Width(t) > 0) && |t| == Width(g) && (|t| == 0 || Width(t) == |g|)
  {
    var t := GridUtils.Rotated(g);
    ShapedIsRectangular(t, Width(g), |g|);
  }

  /** Texts that claim more rows than the grid has make the rotate handler
      throw: with a 1 by 1 grid and texts "2" and "1", it reads a missing
      row. */
  lemma RotateTallTextThrows()
    ensures RotatedByText([["#"]], Some(2), Some(1)) == None
  {
  }

  /** The mouse-down repaint is a one-cell stroke: on a rectangular grid it
      paints what the line from the cell to itself paints. */
  lemma RepaintIsOneCellStroke(g: Grid, row: int, col: int, ch: Cell)
    requires Rectangular(g)
    ensures Repainted(g, row, col, ch) == Bresenham.Drawn(g, Bresenham.Line(row, col, row, col), ch)
  {
    var l := Bresenham.Line(row, col, row, col);
    var p := Bresenham.Start(l);
    Bresenham.StartOnTrack(l);
    assert Bresenham.AtEnd(l, p);
    assert Bresenham.Path(l) == [(row, col)];
    assert Bresenham.Drawn(g, l, ch) == Bresenham.PaintCell(g, (row, col), ch) by {
      assert Bresenham.Drawn(g, l, ch) == Bresenham.PaintCells(g, [(row, col)], ch);
      assert [(row, col)][1..] == [];
      assert Bresenham.PaintCells(g, [(row, col)], ch)
          == Bresenham.PaintCells(Bresenham.PaintCell(g, (row, col), ch), [], ch);
    }
    var t := Repainted(g, row, col, ch);
    if Bresenham.Inside(g, (row, col)) {
      var u := Bresenham.SetCell(g, row, col, ch);
      assert Bresenham.Drawn(g, l, ch) == u;
      forall r | 0 <= r < |g| ensures t[r] == u[r] {
      }
    } else {
      assert Bresenham.Drawn(g, l, ch) == g;
      forall r | 0 <= r < |g| ensures t[r] == g[r] {
      }
    }
  }

  /** Key dispatch: Ctrl-Z undoes and Ctrl-Shift-Z (capital Z) too; on a
      Mac Ctrl-Z does neither and selects nothing; a plain key selects
      itself; keys typed into a text box are left alone. */
  lemma KeyExamples()
    ensures KeyActionOf("z", true, false, false, false) == UndoAction
    ensures KeyActionOf("Z", true, false, false, false) == UndoAction
    ensures KeyActionOf("y", false, true, true, false) == RedoAction
    ensures KeyActionOf("z", true, false, true, false) == NoAction
    ensures KeyActionOf("x", false, false, false, false) == SelectChar("x")
    ensures KeyActionOf("Enter", false, false, false, false) == NoAction
    ensures KeyActionOf("x", false, false, false, true) == NoAction
  {
  }

  /** A share link opens on its grid: for a grid whose texts describe it,
      the parameters `h` and `w` (the texts) and `data` (the encoded grid)
      decode to the grid and the same texts. */
  lemma ShareLinkOpens(g: Grid, height: string, width: string)
    requires Rectangular(g) && |g| > 0 && Width(g) > 0 && SingleChars(g) && Describes(g, height, width)
    requires Base64.IsLatin1(GridUtils.Flatten(g))
    ensures GridUtils.EncodeGrid(g).Some?
    ensures UrlGrid(Some(height), Some(width), GridUtils.EncodeGrid(g)) == Some(Snapshot(g, height, width))
  {
    var h, w := |g|, Width(g);
    var d := GridUtils.Flatten(g);
    GridUtils.DecodeEncode(g, h, w);
    GridUtils.FlattenLength(g, h, w);
    EncodingNotEmpty(g);
    ParseIntOfEmpty();
    UrlGridAccepts(Some(height), Some(width), GridUtils.EncodeGrid(g), d);
    assert GridUtils.Rows(d, h, w) == g by {
      assert GridUtils.Decoded(h, w, GridUtils.EncodeGrid(g).value) == Some(GridUtils.Rows(d, h, w));
    }
  }

  /** The branch of `UrlGrid` that accepts. */
  lemma UrlGridAccepts(h: Option<string>, w: Option<string>, data: Option<string>, d: string)
    requires Truthy(h) && Truthy(w) && Truthy(data)
    requires Base64.Atob(GridUtils.FromUrlSafe(data.value)) == Some(d)
    requires IsPositive(ParseInt(h.value)) && IsPositive(ParseInt(w.value))
    requires |d| == ParseInt(h.value).value * ParseInt(w.value).value
    ensures UrlGrid(h, w, data) == Some(Snapshot(GridUtils.Rows(d, ParseInt(h.value).value, ParseInt(w.value).value), h.value, w.value))
  {
  }

  /** A link whose `h` is one more than the rows its data holds opens on
      nothing (the default grid stays), where the hook would open on the grid
      with an extra empty row. */
  lemma TallerLinkRejected(g: Grid, h: nat, w: nat)
    requires HasShape(g, h, w) && h > 0 && w > 0 && SingleChars(g)
    requires Base64.IsLatin1(GridUtils.Flatten(g))
    ensures GridUtils.EncodeGrid(g).Some?
    ensures UrlGrid(Some(NatToString(h + 1)), Some(NatToString(w)), GridUtils.EncodeGrid(g)) == None
  {
    GridUtils.DecodeEncode(g, h, w);
    GridUtils.FlattenLength(g, h, w);
    ParseIntOfToString(h + 1);
    ParseIntOfToString(w);
    GridUtils.MulStep(h, w);
  }

  lemma EncodingNotEmpty(g: Grid)
    requires Rectangular(g) && |g| > 0 && Width(g) > 0 && SingleChars(g)
    requires Base64.IsLatin1(GridUtils.Flatten(g))
    ensures GridUtils.EncodeGrid(g).Some? && GridUtils.EncodeGrid(g).value != ""
  {
    GridUtils.FlattenLength(g, |g|, Width(g));
    GridUtils.MulMonotone(1, |g|, Width(g));
    GridUtils.DecodeEncode(g, |g|, Width(g));
  }

  lemma ParseIntOfEmpty()
    ensures ParseInt("") == None
  {
  }
}
