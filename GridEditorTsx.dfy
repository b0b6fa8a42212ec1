/**
 * The editor component of `src/GridEditor.tsx`: its state (the grid, the
 * height and width texts, the brush, the stroke in progress, and an undo
 * history of its own) and the handlers that change it.  Each handler's
 * contract gives the whole new state in terms of the old one; the class
 * invariant says the history is well formed, every grid is rectangular,
 * the three stroke fields are set together, and outside a stroke the grid
 * is the current history entry's.
 */
module GridEditorTsx {
  import opened JsText
  import opened Grids
  import opened History
  import opened EditorLogic
  import JudgeText
  import Bresenham

  class GridEditor {
    var height: string
    var width: string
    var grid: Grid
    var selectedChar: Cell
    var isDrawing: bool
    var mouseButton: Option<int>
    var lastDrawnCell: Option<(int, int)>
    var history: seq<Snapshot>
    var currentHistoryIndex: int

    function Log(): Timeline
      reads this
    {
      Timeline(history, currentHistoryIndex)
    }

    function View(): Screen
      reads this
    {
      Screen(grid, height, width, selectedChar, isDrawing, mouseButton, lastDrawnCell)
    }

    /** The history is well formed and holds only rectangular grids. */
    predicate HistoryValid()
      reads this
    {
      Log().Valid() && forall i :: 0 <= i < |history| ==> Rectangular(history[i].grid)
    }

    predicate Valid()
      reads this
    {
      HistoryValid()
      && Rectangular(grid)
      && (isDrawing <==> mouseButton.Some?)
      && (isDrawing <==> lastDrawnCell.Some?)
      && (!isDrawing ==> grid == Log().Current().grid)
    }

    /** The first render: "6" by "8" blanks, brush `#`, no stroke, and a
        history holding that state. */
    constructor()
      ensures Valid()
      ensures View() == Screen(StartGrid(), StartHeight, StartWidth, StartChar, false, None, None)
      ensures Log() == Single(Snapshot(StartGrid(), StartHeight, StartWidth))
    {
      height := StartHeight;
      width := StartWidth;
      grid := StartGrid();
      selectedChar := StartChar;
      isDrawing := false;
      mouseButton := None;
      lastDrawnCell := None;
      history := [Snapshot(StartGrid(), StartHeight, StartWidth)];
      currentHistoryIndex := 0;
    }

    /** `pushToHistory`: records a snapshot; nothing shown changes. */
    method PushToHistory(newGrid: Grid, newHeight: string, newWidth: string)
      requires HistoryValid() && Rectangular(newGrid)
      modifies this
      ensures HistoryValid()
      ensures Log() == Pushed(old(Log()), Snapshot(newGrid, newHeight, newWidth))
      ensures View() == old(View())
    {
      var newState := Snapshot(newGrid, newHeight, newWidth);
      PushedEntries(Log(), newState);
      var currentState := history[currentHistoryIndex];
      if newState == currentState {
        return;
      }
      var newHistory := history[..currentHistoryIndex + 1];
      newHistory := newHistory + [newState];
      if |newHistory| > MaxHistoryCount {
        newHistory := newHistory[|newHistory| - MaxHistoryCount..];
      }
      var newIndex := |newHistory| - 1;
      history := newHistory;
      currentHistoryIndex := newIndex;
    }

    /** The mount effect: a share link whose data fills exactly `h` by `w`
        cells replaces the grid and the texts and restarts the history with
        that state alone; any other query string changes nothing. */
    method ApplyUrlParams(h: Option<string>, w: Option<string>, data: Option<string>)
      requires Valid()
      modifies this
      ensures Valid()
      ensures UrlGrid(h, w, data).None? ==> View() == old(View()) && Log() == old(Log())
      ensures UrlGrid(h, w, data).Some? ==> (
        var s := UrlGrid(h, w, data).value;
        View() == old(View()).(grid := s.grid, height := s.height, width := s.width)
        && Log() == Single(s))
    {
      var loaded := ReadUrlGrid(h, w, data);
      if loaded.Some? {
        Restart(loaded.value);
      }
    }

    /** Shows a snapshot and makes it the only history entry. */
    method Restart(s: Snapshot)
      requires Valid() && Rectangular(s.grid)
      modifies this
      ensures Valid()
      ensures View() == old(View()).(grid := s.grid, height := s.height, width := s.width)
      ensures Log() == Single(s)
    {
      height := s.height;
      width := s.width;
      grid := s.grid;
      history := [Snapshot(s.grid, s.height, s.width)];
      currentHistoryIndex := 0;
    }

    /** Shows a snapshot and pushes it: the common end of the handlers that
        replace the grid and the texts. */
    method ShowAndPush(s: Snapshot)
      requires Valid() && Rectangular(s.grid)
      modifies this
      ensures Valid()
      ensures View() == old(View()).(grid := s.grid, height := s.height, width := s.width)
      ensures Log() == Pushed(old(Log()), s)
    {
      height := s.height;
      width := s.width;
      grid := s.grid;
      PushToHistory(grid, height, width);
    }

    /** `handleUndo`: one entry back, showing it; nothing at the first. */
    method HandleUndo()
      requires Valid()
      modifies this
      ensures Valid()
      ensures Log() == Undone(old(Log()))
      ensures old(Log().CanUndo()) ==>
        var s := Log().Current();
        View() == old(View()).(grid := s.grid, height := s.height, width := s.width)
      ensures !old(Log().CanUndo()) ==> View() == old(View())
    {
      if currentHistoryIndex > 0 {
        var newIndex := currentHistoryIndex - 1;
        currentHistoryIndex := newIndex;
        var previousState := history[newIndex];
        grid := previousState.grid;
        height := previousState.height;
        width := previousState.width;
      }
    }

    /** `handleRedo`: one entry forward, showing it; nothing at the last. */
    method HandleRedo()
      requires Valid()
      modifies this
      ensures Valid()
      ensures Log() == Redone(old(Log()))
      ensures old(Log().CanRedo()) ==>
        var s := Log().Current();
        View() == old(View()).(grid := s.grid, height := s.height, width := s.width)
      ensures !old(Log().CanRedo()) ==> View() == old(View())
    {
      if currentHistoryIndex < |history| - 1 {
        var newIndex := currentHistoryIndex + 1;
        currentHistoryIndex := newIndex;
        var nextState := history[newIndex];
        grid := nextState.grid;
        height := nextState.height;
        width := nextState.width;
      }
    }

    /** `handleDrawingEnd` (mouse up and touch end anywhere in the window):
        a stroke in progress is committed with exactly one push; the stroke
        state is cleared either way. */
    method HandleDrawingEnd()
      requires Valid()
      modifies this
      ensures Valid()
      ensures Log() == if old(isDrawing) then Pushed(old(Log()), Snapshot(old(grid), old(height), old(width))) else old(Log())
      ensures View() == old(View()).(isDrawing := false, mouseButton := None, lastDrawnCell := None)
    {
      if isDrawing {
        PushToHistory(grid, height, width);
      }
      isDrawing := false;
      mouseButton := None;
      lastDrawnCell := None;
    }

    /** The keydown listener: undo, redo or a new brush, as `KeyActionOf`
        selects. */
    method HandleKeyDown(key: string, ctrl: bool, meta: bool, isMac: bool, targetIsInput: bool)
      requires Valid()
      modifies this
      ensures Valid()
      ensures KeyActionOf(key, ctrl, meta, isMac, targetIsInput) == UndoAction ==> Log() == Undone(old(Log()))
      ensures KeyActionOf(key, ctrl, meta, isMac, targetIsInput) == RedoAction ==> Log() == Redone(old(Log()))
      ensures KeyActionOf(key, ctrl, meta, isMac, targetIsInput) == SelectChar(key) ==>
        Log() == old(Log()) && View() == old(View()).(selectedChar := key)
      ensures KeyActionOf(key, ctrl, meta, isMac, targetIsInput) == NoAction ==>
        Log() == old(Log()) && View() == old(View())
    {
      var action := KeyActionOf(key, ctrl, meta, isMac, targetIsInput);
      match action
      case UndoAction => HandleUndo();
      case RedoAction => HandleRedo();
      case SelectChar(ch) => selectedChar := ch;
      case NoAction =>
    }

    /** The copy listener and the copy button: the text a copy puts on the
        clipboard, or nothing when the copy happens inside a text box. */
    method HandleCopy(targetIsInput: bool) returns (text: Option<string>)
      requires Valid()
      ensures targetIsInput ==> text == None
      ensures !targetIsInput ==> text == Some(JudgeText.Export(height, width, grid))
    {
      if targetIsInput {
        return None;
      }
      return Some(JudgeText.Export(height, width, grid));
    }

    /** `handleGenerateGrid`: resizes to the typed dimensions, keeping the
        cells that fit, and pushes; nothing when they do not read as
        positive numbers or `Array` throws. */
    method HandleGenerateGrid()
      requires Valid()
      modifies this
      ensures Valid()
      ensures var r := Resized(old(grid), ParseInt(old(height)), ParseInt(old(width)));
        r.None? ==> View() == old(View()) && Log() == old(Log())
      ensures var r := Resized(old(grid), ParseInt(old(height)), ParseInt(old(width)));
        r.Some? ==> (
          View() == old(View()).(grid := r.value)
          && Log() == Pushed(old(Log()), Snapshot(r.value, old(height), old(width))))
    {
      var h := ParseInt(height);
      var w := ParseInt(width);
      if h.None? || w.None? || h.value <= 0 || w.value <= 0 {
        return;
      }
      var newGrid := Resized(grid, h, w);
      if newGrid.None? {
        return;
      }
      ShapedIsRectangular(newGrid.value, h.value, w.value);
      ShowAndPush(Snapshot(newGrid.value, height, width));
    }

    /** `handleClearGrid`: blanks of the typed dimensions, pushed; nothing
        when `Array` throws. */
    method HandleClearGrid()
      requires Valid()
      modifies this
      ensures Valid()
      ensures var r := Cleared(ParseInt(old(height)), ParseInt(old(width)));
        r.None? ==> View() == old(View()) && Log() == old(Log())
      ensures var r := Cleared(ParseInt(old(height)), ParseInt(old(width)));
        r.Some? ==> (
          View() == old(View()).(grid := r.value)
          && Log() == Pushed(old(Log()), Snapshot(r.value, old(height), old(width))))
    {
      var h := ParseInt(height);
      var w := ParseInt(width);
      var newGrid := Cleared(h, w);
      if newGrid.None? {
        return;
      }
      if h.value > 0 {
        ShapedIsRectangular(newGrid.value, h.value, w.value);
      }
      ShowAndPush(Snapshot(newGrid.value, height, width));
    }

    /** `handleRotate`: a quarter turn clockwise by the typed dimensions,
        with the swapped texts, pushed; nothing when it throws. */
    method HandleRotate()
      requires Valid()
      modifies this
      ensures Valid()
      ensures var r := RotatedByText(old(grid), ParseInt(old(height)), ParseInt(old(width)));
        r.None? ==> View() == old(View()) && Log() == old(Log())
      ensures var r := RotatedByText(old(grid), ParseInt(old(height)), ParseInt(old(width)));
        r.Some? ==> (
          View() == old(View()).(grid := r.value.grid, height := r.value.height, width := r.value.width)
          && Log() == Pushed(old(Log()), r.value))
    {
      var currentHeight := ParseInt(height);
      var currentWidth := ParseInt(width);
      var rotated := RotateByText(grid, currentHeight, currentWidth);
      if rotated.None? {
        return;
      }
      ShowAndPush(rotated.value);
    }

    /** `handleMouseDown`: starts a stroke at the cell and paints it (blank
        for the right button); no push. */
    method HandleMouseDown(rowIndex: int, colIndex: int, button: int)
      requires Valid()
      modifies this
      ensures Valid()
      ensures Log() == old(Log())
      ensures View() == old(View()).(
        grid := Repainted(old(grid), rowIndex, colIndex, BrushFor(Some(button), old(selectedChar))),
        isDrawing := true, mouseButton := Some(button), lastDrawnCell := Some((rowIndex, colIndex)))
    {
      isDrawing := true;
      mouseButton := Some(button);
      lastDrawnCell := Some((rowIndex, colIndex));
      var charToSet := BrushFor(Some(button), selectedChar);
      grid := Repainted(grid, rowIndex, colIndex, charToSet);
    }

    /** `handleTouchStart`: as a left-button mouse-down. */
    method HandleTouchStart(rowIndex: int, colIndex: int)
      requires Valid()
      modifies this
      ensures Valid()
      ensures Log() == old(Log())
      ensures View() == old(View()).(
        grid := Repainted(old(grid), rowIndex, colIndex, old(selectedChar)),
        isDrawing := true, mouseButton := Some(0), lastDrawnCell := Some((rowIndex, colIndex)))
    {
      isDrawing := true;
      mouseButton := Some(0);
      lastDrawnCell := Some((rowIndex, colIndex));
      grid := Repainted(grid, rowIndex, colIndex, selectedChar);
    }

    /** `handleMouseEnter`: during a stroke, draws the line from the last
        cell to this one with the stroke's brush and moves the last cell
        here; no push.  Outside a stroke, nothing. */
    method HandleMouseEnter(rowIndex: int, colIndex: int)
      requires Valid()
      modifies this
      ensures Valid()
      ensures Log() == old(Log())
      ensures !old(isDrawing) ==> View() == old(View())
      ensures old(isDrawing) ==>
        var last := old(lastDrawnCell).value;
        var line := Bresenham.Line(last.0, last.1, rowIndex, colIndex);
        View() == old(View()).(
          grid := Bresenham.Drawn(old(grid), line, BrushFor(old(mouseButton), old(selectedChar))),
          lastDrawnCell := Some((rowIndex, colIndex)))
    {
      if !isDrawing || lastDrawnCell.None? {
        return;
      }
      var startRow := lastDrawnCell.value.0;
      var startCol := lastDrawnCell.value.1;
      var charToSet := BrushFor(mouseButton, selectedChar);
      var newGrid := Bresenham.BresenhamLine(grid, startRow, startCol, rowIndex, colIndex, charToSet);
      grid := newGrid;
      lastDrawnCell := Some((rowIndex, colIndex));
    }

    /** `handleTouchMove`, given the `data-row` and `data-col` of the
        element under the finger (-1 where it has none): during a stroke,
        the mouse-enter of that cell. */
    method HandleTouchMove(rowIndex: int, colIndex: int)
      requires Valid()
      modifies this
      ensures Valid()
      ensures Log() == old(Log())
      ensures !old(isDrawing) || rowIndex == -1 || colIndex == -1 ==> View() == old(View())
      ensures old(isDrawing) && rowIndex != -1 && colIndex != -1 ==>
        var last := old(lastDrawnCell).value;
        var line := Bresenham.Line(last.0, last.1, rowIndex, colIndex);
        View() == old(View()).(
          grid := Bresenham.Drawn(old(grid), line, BrushFor(old(mouseButton), old(selectedChar))),
          lastDrawnCell := Some((rowIndex, colIndex)))
    {
      if !isDrawing {
        return;
      }
      if rowIndex != -1 && colIndex != -1 {
        HandleMouseEnter(rowIndex, colIndex);
      }
    }

    /** `handleLoadGridInput`: on a well-formed text, the grid and the
        texts it declares, pushed; otherwise nothing changes and the error
        is reported. */
    method HandleLoadGridInput(loadInput: string) returns (error: Option<JudgeText.LoadError>)
      requires Valid()
      modifies this
      ensures Valid()
      ensures var r := JudgeText.Parse(loadInput);
        r.Err? ==> error == Some(r.error) && View() == old(View()) && Log() == old(Log())
      ensures var r := JudgeText.Parse(loadInput);
        r.Ok? ==> (
          error == None
          && View() == old(View()).(grid := r.value.grid, height := r.value.height, width := r.value.width)
          && Log() == Pushed(old(Log()), Snapshot(r.value.grid, r.value.height, r.value.width)))
    {
      var r := JudgeText.ReadJudgeText(loadInput);
      if r.Err? {
        return Some(r.error);
      }
      ShowAndPush(Snapshot(r.value.grid, r.value.height, r.value.width));
      return None;
    }

    /** The height box's change handler: the text as typed. */
    method SetHeight(value: string)
      requires Valid()
      modifies this
      ensures Valid()
      ensures Log() == old(Log()) && View() == old(View()).(height := value)
    {
      height := value;
    }

    /** The width box's change handler: the text as typed. */
    method SetWidth(value: string)
      requires Valid()
      modifies this
      ensures Valid()
      ensures Log() == old(Log()) && View() == old(View()).(width := value)
    {
      width := value;
    }

    /** The brush box's change handler: the first character typed, or the
        empty brush when the box is emptied. */
    method SetSelectedChar(value: string)
      requires Valid()
      modifies this
      ensures Valid()
      ensures |selectedChar| <= 1 && selectedChar <= value
      ensures value != [] ==> selectedChar == [value[0]]
      ensures Log() == old(Log()) && View() == old(View()).(selectedChar := value[..Min(1, |value|)])
    {
      selectedChar := value[..Min(1, |value|)];
    }
  }
}
