/**
 * The `useGridEditor` hook (`src/hooks/useGridEditor.ts`): the editor state
 * read once from the page's query string, and the undo history kept beside
 * the grid and the two dimension texts.
 */
module UseGridEditor {
  import opened JsText
  import opened Grids
  import opened History
  import GridUtils
  import Base64

  const DefaultHeight: string := "6"
  const DefaultWidth: string := "8"

  /** The 6 by 8 grid of blanks shown when the query string holds no grid. */
  function DefaultGrid(): (g: Grid)
    ensures HasShape(g, 6, 8)
    ensures forall r, c :: 0 <= r < 6 && 0 <= c < 8 ==> g[r][c] == Blank
  {
    GridUtils.GenerateInitialGrid(6, 8, None)
  }

  function DefaultState(): Snapshot {
    Snapshot(DefaultGrid(), DefaultHeight, DefaultWidth)
  }

  /** `getInitialState` for the parameters `h`, `w` and `data`: when all
      three are present and non-empty, both dimensions read as positive
      numbers and the data decodes, the decoded grid with the dimension
      texts as given; in every other case (including a decoding error,
      which the source catches) the default state. */
  function InitialState(h: Option<string>, w: Option<string>, data: Option<string>): (s: Snapshot)
    ensures s == DefaultState() || (h == Some(s.height) && w == Some(s.width))
  {
    if Truthy(h) && Truthy(w) && Truthy(data) then
      var newHeight, newWidth := ParseInt(h.value), ParseInt(w.value);
      if newHeight.Some? && newWidth.Some? && newHeight.value > 0 && newWidth.value > 0 then
        match GridUtils.Decoded(newHeight.value, newWidth.value, data.value)
        case Some(g) => Snapshot(g, h.value, w.value)
        case None => DefaultState()
      else DefaultState()
    else DefaultState()
  }

  /** `getInitialState`, with the query parameters passed in. */
  method GetInitialState(h: Option<string>, w: Option<string>, data: Option<string>) returns (s: Snapshot)
    ensures s == InitialState(h, w, data)
  {
    s := DefaultState();
    if Truthy(h) && Truthy(w) && Truthy(data) {
      var newHeight := ParseInt(h.value);
      var newWidth := ParseInt(w.value);
      if newHeight.Some? && newWidth.Some? && newHeight.value > 0 && newWidth.value > 0 {
        var newGrid := GridUtils.DecodeGrid(newHeight.value, newWidth.value, data.value);
        if newGrid.Some? {
          s := Snapshot(newGrid.value, h.value, w.value);
        }
      }
    }
  }

  // ---------------------------------------------------------------- the hook's state

  /** The state the hook holds: the grid and the dimension texts being
      edited, and the history with the index of its current entry. */
  class GridEditorHook {
    var grid: Grid
    var height: string
    var width: string
    var history: seq<Snapshot>
    var currentHistoryIndex: int

    function Log(): Timeline
      reads this
    {
      Timeline(history, currentHistoryIndex)
    }

    predicate Valid()
      reads this
    {
      Log().Valid()
    }

    /** The editor state as `undo` and `redo` restore it. */
    function Shown(): Snapshot
      reads this
    {
      Snapshot(grid, height, width)
    }

    /** The first render: the initial state, computed once, is both what is
        shown and the only history entry. */
    constructor(h: Option<string>, w: Option<string>, data: Option<string>)
      ensures Valid()
      ensures Shown() == InitialState(h, w, data)
      ensures history == [InitialState(h, w, data)] && currentHistoryIndex == 0
    {
      var initialData := GetInitialState(h, w, data);
      grid := initialData.grid;
      height := initialData.height;
      width := initialData.width;
      history := [Snapshot(initialData.grid, initialData.height, initialData.width)];
      currentHistoryIndex := 0;
    }

    /** `pushToHistory`: records a state in the history; what is shown does
        not change. */
    method PushToHistory(newGrid: Grid, newHeight: string, newWidth: string)
      requires Valid()
      modifies this
      ensures Valid()
      ensures Log() == Pushed(old(Log()), Snapshot(newGrid, newHeight, newWidth))
      ensures Shown() == old(Shown())
    {
      var newState := Snapshot(newGrid, newHeight, newWidth);
      var currentState := history[currentHistoryIndex];
      if newState == currentState {
        return;
      }
      var newHistory := history[..currentHistoryIndex + 1];
      newHistory := newHistory + [newState];
      if |newHistory| > MaxHistoryCount {
        newHistory := newHistory[|newHistory| - MaxHistoryCount..];
      }
      var newIndex := |newHistory| - 1;
      history := newHistory;
      currentHistoryIndex := newIndex;
    }

    /** `undo`: steps the history back and shows the entry reached; does
        nothing at the first entry. */
    method Undo()
      requires Valid()
      modifies this
      ensures Valid()
      ensures Log() == Undone(old(Log()))
      ensures old(Log().CanUndo()) ==> Shown() == Log().Current()
      ensures !old(Log().CanUndo()) ==> Shown() == old(Shown())
    {
      if currentHistoryIndex > 0 {
        var newIndex := currentHistoryIndex - 1;
        currentHistoryIndex := newIndex;
        var previousState := history[newIndex];
        grid := previousState.grid;
        height := previousState.height;
        width := previousState.width;
      }
    }

    /** `redo`: steps the history forward and shows the entry reached; does
        nothing at the last entry. */
    method Redo()
      requires Valid()
      modifies this
      ensures Valid()
      ensures Log() == Redone(old(Log()))
      ensures old(Log().CanRedo()) ==> Shown() == Log().Current()
      ensures !old(Log().CanRedo()) ==> Shown() == old(Shown())
    {
      if currentHistoryIndex < |history| - 1 {
        var newIndex := currentHistoryIndex + 1;
        currentHistoryIndex := newIndex;
        var nextState := history[newIndex];
        grid := nextState.grid;
        height := nextState.height;
        width := nextState.width;
      }
    }
  }

  // ---------------------------------------------------------------- properties

  /** A share link built from a grid opens on that grid: the query
      parameters `h`, `w` and `data` written as the share code writes them
      give back the grid and the two dimension texts. */
  lemma ShareLinkRoundTrip(g: Grid, h: nat, w: nat)
    requires HasShape(g, h, w) && h > 0 && w > 0 && SingleChars(g)
    requires Base64.IsLatin1(GridUtils.Flatten(g))
    ensures GridUtils.EncodeGrid(g).Some?
    ensures InitialState(Some(NatToString(h)), Some(NatToString(w)), GridUtils.EncodeGrid(g))
         == Snapshot(g, NatToString(h), NatToString(w))
  {
    GridUtils.DecodeEncode(g, h, w);
    EncodedNotEmpty(g, h, w);
    ParseIntOfToString(h);
    ParseIntOfToString(w);
  }

  /** The encoding of a non-empty grid is not the empty string, so the
      `data` parameter counts as present. */
  lemma EncodedNotEmpty(g: Grid, h: nat, w: nat)
    requires HasShape(g, h, w) && h > 0 && w > 0 && SingleChars(g)
    requires Base64.IsLatin1(GridUtils.Flatten(g))
    ensures GridUtils.EncodeGrid(g).Some? && GridUtils.EncodeGrid(g).value != ""
  {
    var d := GridUtils.Flatten(g);
    GridUtils.FlattenLength(g, h, w);
    GridUtils.MulMonotone(1, h, w);
    assert |d| > 0;
    GridUtils.DecodeEncode(g, h, w);
  }

  /** The query string is not checked against the declared height: a link
      whose `h` is one more than the rows encoded in `data` opens on the
      grid with an empty extra row. */
  lemma TallerLinkAddsEmptyRow(g: Grid, h: nat, w: nat)
    requires HasShape(g, h, w) && h > 0 && w > 0 && SingleChars(g)
    requires Base64.IsLatin1(GridUtils.Flatten(g))
    ensures GridUtils.EncodeGrid(g).Some?
    ensures InitialState(Some(NatToString(h + 1)), Some(NatToString(w)), GridUtils.EncodeGrid(g))
         == Snapshot(g + [[]], NatToString(h + 1), NatToString(w))
  {
    GridUtils.DecodeExtraRowIsEmpty(g, h, w);
    EncodedNotEmpty(g, h, w);
    ParseIntOfToString(h + 1);
    ParseIntOfToString(w);
    var hs, ws, e := NatToString(h + 1), NatToString(w), GridUtils.EncodeGrid(g).value;
    assert ParseInt(hs) == Some(h + 1) && ParseInt(ws) == Some(w);
    assert GridUtils.Decoded(h + 1, w, e) == Some(g + [[]]);
    assert Truthy(Some(hs)) && Truthy(Some(ws)) && Truthy(Some(e));
  }

  /** Without the three parameters, or with a dimension that does not read
      as a positive number, the editor opens on the default grid. */
  lemma MissingParameterGivesDefault(h: Option<string>, w: Option<string>, data: Option<string>)
    requires !Truthy(h) || !Truthy(w) || !Truthy(data)
             || !IsPositive(ParseInt(h.value)) || !IsPositive(ParseInt(w.value))
    ensures InitialState(h, w, data) == DefaultState()
  {
  }

  lemma ZeroHeightGivesDefault(w: Option<string>, data: Option<string>)
    ensures InitialState(Some("0"), w, data) == DefaultState()
  {
    assert ParseInt("0") == Some(0) by {
      ParseIntOfToString(0);
      assert NatToString(0) == "0";
    }
  }
}
