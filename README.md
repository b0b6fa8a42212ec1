# Grid editor, modelled in Dafny

Grid Editor is a browser tool for drawing the character grids used in
competitive-programming problems. A grid is a rectangle of one-character
strings, initially 6 rows of 8 `.` cells. The user paints cells with a
brush character. The left mouse button paints the brush and the right
button paints `.`. A drag draws a Bresenham line between successive cells.
The user can also:

- resize the grid, clear it or rotate it a quarter turn clockwise;
- undo and redo through a history of at most 100 snapshots;
- copy the grid in the judge's text format (`H W`, then one line per row),
  or load a grid from that format;
- open a share link whose query string carries the height, the width and
  the cells. The cells are base64-encoded, with `+` and `/` replaced by
  `-` and `_`.

This project models the logic behind all of that. It covers:

- the grid helpers of `src/utils/gridUtils.ts`;
- the `useGridEditor` hook of `src/hooks/useGridEditor.ts`;
- the editor component of `src/GridEditor.tsx`;
- the older copy of that component, `src/GridEditor.js`.

The modules are:

- `JsText`: the JavaScript string operations the code relies on.
  - `parseInt` with radix 10 is lenient: it skips leading blanks, takes a
    sign, reads a digit prefix, and gives NaN (`None`) when there are no
    digits.
  - `trim`, `split`, `split('')`, `substring`, `toString`.
  - The length limit of `Array(n)`.
- `Grids`: grids as sequences of rows.
  - A read past the end of a row gives `undefined`, modelled as the empty
    cell `Absent`.
  - `grid[0]?.length || 0` is `Width`.
- `Base64`: `btoa` and `atob` over Latin-1 strings.
  - `btoa` throws on a character above U+00FF (`None`).
  - `atob` is the forgiving decoder: it drops ASCII white space and accepts
    missing padding.
- `Bresenham`: the line rasteriser as a specification function. It is the
  trace of the error accumulator from the start cursor. The `while (true)`
  loop is proved against it.
- `GridUtils`: `generateInitialGrid`, `rotateGrid` (nested loops), and the
  share-link codec `encodeGrid`/`decodeGrid` (a row loop).
- `History`: the capped undo history as values. It has a de-duplicating
  push, undo and redo, and the invariant `0 <= cursor < |history| <= 100`.
- `UseGridEditor`: the initial state read from the query string, and a
  class holding the hook's state.
- `JudgeText`: the copy text, and the load handler's parser with its four
  errors.
- `EditorLogic`: what the component handlers compute before setting any
  state. `None` stands where the source throws or aborts.
- `GridEditorTsx` and `GridEditorJs`: the two components as classes.
  - The fields are the component's state.
  - Each handler is a method whose contract gives the whole new state.
  - The class invariant says the history is well formed and every grid is
    rectangular.
  - It also says the three stroke fields are set together, and that
    outside a stroke the grid is the current history entry's.

Two behaviours of the code are worth knowing:

- The drawn line is not symmetric in its end points:
  `Bresenham.NotDirectionSymmetric` shows a line and its reverse visiting
  different cells.
- `decodeGrid` does not check the data's length, and neither does the hook:
  - `GridUtils.DecodeExtraRowIsEmpty` shows a declared height one too
    large giving an extra empty row;
  - `UseGridEditor.TallerLinkAddsEmptyRow` shows the same for the hook.

  Only the component's own URL effect compares the length with `h*w`
  (`EditorLogic.UrlGrid`, `EditorLogic.TallerLinkRejected`).

## Model

| member | source | states |
|---|---|---|
| JsText.ParseInt | src/GridEditor.tsx:203-205 | NaN exactly when no digit follows the leading blanks and the optional sign |
| JsText.ParseIntOfToString | src/GridEditor.tsx:384-385 | a number written by `toString` reads back as itself |
| JsText.ParseIntReadsDigitPrefix | src/hooks/useGridEditor.ts:25-28 | `"3x"` reads as 3 and `"x3"` as NaN |
| JsText.ParseIntLeadingZero | src/hooks/useGridEditor.ts:25-28 | `"06"` reads as 6, though the history keeps the text `"06"` |
| JsText.ParseIntSkipsBlanksAndSign | src/GridEditor.tsx:375-377 | `" -12"` reads as -12 and a lone sign as NaN |
| JsText.TrimStart | src/GridEditor.tsx:372 | removes exactly the leading white space: a suffix of the text, starting with no blank |
| JsText.TrimEnd | src/GridEditor.tsx:372 | removes exactly the trailing white space: a prefix of the text, ending with no blank |
| JsText.TrimOfPadded | src/GridEditor.tsx:372 | trimming a text with no blank at either end, followed by blanks, gives that text |
| JsText.Split | src/GridEditor.tsx:372 | at least one piece, no piece holds the separator, and joining the pieces gives the text back |
| JsText.SplitJoin | src/GridEditor.tsx:372 | splitting a join of separator-free pieces gives the pieces back |
| JsText.Chars | src/GridEditor.tsx:382 | `split('')` gives one one-character cell per character, in order |
| JsText.ConcatChars | src/utils/gridUtils.ts:59 | joining the cells of `split('')` gives the text back |
| JsText.CharsConcat | src/utils/gridUtils.ts:68 | splitting the join of one-character cells gives the cells back |
| JsText.Substring | src/utils/gridUtils.ts:68 | `substring` clamps both ends to the text, so a slice past the end is short or empty |
| JsText.NatToString | src/GridEditor.tsx:244-245 | decimal digits with no leading zero, whose value is the number |
| Grids.ShapedIsRectangular | src/utils/gridUtils.ts:16 | an `h` by `w` grid has every row as long as the first, whose length is `w` when there are rows |
| Base64.Btoa | src/utils/gridUtils.ts:60 | succeeds exactly on Latin-1 text and gives a multiple of four characters |
| Base64.EncodeCore | src/utils/gridUtils.ts:60 | only alphabet characters, `(4n+2)/3` of them before the padding, that is `ceil(4n/3)` |
| Base64.Atob | src/utils/gridUtils.ts:65 | a decoded text is Latin-1 |
| Base64.GroupRoundTrip | src/utils/gridUtils.ts:60 | three bytes survive their split into four sextets |
| Base64.BytesOfSextets | src/utils/gridUtils.ts:65 | decoding the sextets of a Latin-1 text gives the text (by induction over three-byte groups) |
| Base64.DecodeEncodeCore | src/utils/gridUtils.ts:60-65 | the unpadded decoder inverts the encoder |
| Base64.AtobBtoa | src/utils/gridUtils.ts:60-65 | `atob(btoa(s)) == s` for every Latin-1 `s` |
| Bresenham.StepOnTrack | src/utils/gridUtils.ts:51-53 | one step keeps the error accumulator invariant, moves by 0 or the step sign on each axis, always moves, and shortens the remaining distance |
| Bresenham.AtEndIffDone | src/utils/gridUtils.ts:50 | the cursor is at the end cell exactly when both axes have taken all their steps |
| Bresenham.Trace | src/utils/gridUtils.ts:46-54 | the visited cells start at the cursor and end exactly at the end cell (the loop terminates) |
| Bresenham.Path | src/utils/gridUtils.ts:42-54 | the visited cells run from the start cell to the end cell |
| Bresenham.TraceChained | src/utils/gridUtils.ts:51-53 | consecutive visited cells differ and are 8-adjacent, moving by the step signs |
| Bresenham.PathAdjacent | src/utils/gridUtils.ts:46-54 | the whole line is a chain of distinct 8-adjacent cells |
| Bresenham.Plot | src/utils/gridUtils.ts:47-49 | the write lands only inside the height and the first row's length, and gives the one-cell painting |
| Bresenham.Advance | src/utils/gridUtils.ts:51-53 | both tests read the error term as it was before either update; the result is the next cursor of the path |
| Bresenham.BresenhamLine | src/utils/gridUtils.ts:29-56 | the `while (true)` loop paints exactly the cells of `Path`, inside the grid, on a copy |
| Bresenham.PaintCellsEffect | src/utils/gridUtils.ts:47-49 | painting keeps the shape; a cell is the brush if visited and unchanged otherwise |
| Bresenham.DrawnEffect | src/utils/gridUtils.ts:37-55 | the drawn grid has the same shape; visited cells hold the brush, all others are unchanged, and cells outside are skipped |
| Bresenham.EndsPainted | src/utils/gridUtils.ts:46-50 | the start and end cells hold the brush when inside the grid |
| Bresenham.PaintCellsKeepsRows | src/utils/gridUtils.ts:37 | painting never removes a row or shortens one |
| Bresenham.DiagonalExample | src/utils/gridUtils.test.ts:19-23 | (0,0) to (1,1) on a 2 by 2 grid of `.` paints the diagonal |
| Bresenham.NotDirectionSymmetric | src/utils/gridUtils.ts:40-53 | (0,0) to (1,2) visits (0,1), but its reverse visits (1,1) |
| GridUtils.GenerateInitialGrid | src/utils/gridUtils.ts:3-11 | `h` rows of `w` cells; an old cell inside the old height and first-row width is kept (an empty text where the old row is shorter), every other cell is `.` |
| GridUtils.ResizeToSameShape | src/utils/gridUtils.ts:3-11 | resizing a rectangular grid to its own shape changes nothing |
| GridUtils.ResizeGrowThenShrink | src/utils/gridUtils.ts:3-11 | growing then shrinking back to the old shape gives the old grid |
| GridUtils.RotatedWindow | src/utils/gridUtils.ts:19-25 | the rotation of an `h` by `w` window is `w` rows of `h` cells |
| GridUtils.Rotated | src/utils/gridUtils.ts:14-27 | the rotation has `Width(g)` rows of `|g|` cells |
| GridUtils.WindowMapsCells | src/utils/gridUtils.ts:21-25 | cell (r, c) of the window moves to (c, h-1-r) |
| GridUtils.RotateMapsCells | src/utils/gridUtils.ts:21-25 | for a rectangular grid, `t[c][H-1-r] == g[r][c]` for every cell |
| GridUtils.RotateGrid | src/utils/gridUtils.ts:14-27 | the nested loops build the rotation, with the height and width swapped |
| GridUtils.RotateWindow | src/utils/gridUtils.ts:19-25 | the nested loops write each cell to its rotated place |
| GridUtils.HalfTurn | src/utils/gridUtils.ts:21-25 | two quarter turns reverse both the rows and the columns |
| GridUtils.FourTurns | src/utils/gridUtils.ts:14-27 | four quarter turns give a rectangular grid back (unless it has rows but no columns) |
| GridUtils.ZeroWidthLosesHeight | src/utils/gridUtils.ts:16-19 | a grid of empty rows rotates to no rows, and rotating back does not restore it |
| GridUtils.RotateExample | src/utils/gridUtils.test.ts:4-10 | the 3 by 2 example rotates to the expected 2 by 3 grid |
| GridUtils.UrlSafe | src/utils/gridUtils.ts:60 | same length, and no `+` or `/` remains |
| GridUtils.FromUrlSafe | src/utils/gridUtils.ts:64 | same length, and no `-` or `_` remains |
| GridUtils.FromUrlSafeUrlSafe | src/utils/gridUtils.ts:60-64 | undoing the swap restores a text that had no `-` or `_` |
| GridUtils.EncodeGrid | src/utils/gridUtils.ts:58-61 | fails exactly when a cell is not Latin-1; the code is padded base64 without `+` or `/` |
| GridUtils.Rows | src/utils/gridUtils.ts:67-69 | exactly `h` rows, whatever the data's length |
| GridUtils.Decoded | src/utils/gridUtils.ts:63-71 | fails only when `atob` throws; otherwise exactly `h` rows, with no length check |
| GridUtils.DecodeGrid | src/utils/gridUtils.ts:63-71 | the row loop computes `Decoded` |
| GridUtils.SliceRows | src/utils/gridUtils.ts:66-69 | row `i` is the characters `i*w` up to `(i+1)*w`, clamped |
| GridUtils.FlattenLength | src/utils/gridUtils.ts:59 | the flattened `h` by `w` grid of single characters has `h*w` characters |
| GridUtils.RowWithinText | src/utils/gridUtils.ts:68 | with `h*w` characters, row `i` is exactly its `w` characters |
| GridUtils.RowsShape | src/utils/gridUtils.ts:67-69 | `h*w` characters slice into an `h` by `w` grid |
| GridUtils.RowsOfFlatten | src/utils/gridUtils.ts:59-68 | slicing a flattened grid gives the grid back |
| GridUtils.BtoaHasNoUrlChars | src/utils/gridUtils.ts:60-64 | standard base64 holds no `-` or `_`, so the swap is undone exactly |
| GridUtils.DecodeEncode | src/utils/gridUtils.ts:58-71 | `decodeGrid(h, w, encodeGrid(g)) == g` for an `h` by `w` grid of Latin-1 characters |
| GridUtils.DecodeExtraRowIsEmpty | src/utils/gridUtils.ts:63-71 | decoding with one row too many adds an empty row, and nothing rejects it |
| GridUtils.RowsPastText | src/utils/gridUtils.ts:68 | a row past the data is empty |
| History.Single | src/hooks/useGridEditor.ts:58-61 | a one-entry history is valid, its entry is current, and neither undo nor redo applies |
| History.Pushed | src/hooks/useGridEditor.ts:63-84 | the push keeps `0 <= cursor < |history| <= 100` and makes the pushed snapshot current |
| History.Undone | src/hooks/useGridEditor.ts:86-95 | the entries are unchanged, and the cursor moves back one when it can |
| History.Redone | src/hooks/useGridEditor.ts:97-106 | the entries are unchanged, and the cursor moves forward one when it can |
| History.PushDuplicateIsNoOp | src/hooks/useGridEditor.ts:65-70 | pushing a snapshot equal to the current one changes nothing |
| History.PushDropsRedoBranch | src/hooks/useGridEditor.ts:72-73 | below the cap, the push keeps the entries up to the cursor, appends, and leaves nothing to redo |
| History.PushEvictsOldest | src/hooks/useGridEditor.ts:75-77 | at the cap, the push drops the oldest entry and keeps 100 |
| History.UndoAfterPush | src/hooks/useGridEditor.ts:63-95 | after a real push, undo is possible and returns to the entry that was current |
| History.PushedEntries | src/hooks/useGridEditor.ts:72-77 | every entry after a push is the pushed snapshot or an old entry |
| History.RedoAfterUndo | src/hooks/useGridEditor.ts:86-106 | redo undoes an undo |
| History.UndoAfterRedo | src/hooks/useGridEditor.ts:86-106 | undo undoes a redo |
| UseGridEditor.DefaultGrid | src/hooks/useGridEditor.ts:16 | 6 by 8 cells, all `.` |
| UseGridEditor.InitialState | src/hooks/useGridEditor.ts:13-48 | the default state, or one whose texts are the `h` and `w` parameters as given; the default whenever a parameter is missing or a dimension is not a positive number (with `MissingParameterGivesDefault`) |
| UseGridEditor.GetInitialState | src/hooks/useGridEditor.ts:13-48 | computes `InitialState`, running the decoder's row loop |
| UseGridEditor.GridEditorHook.constructor | src/hooks/useGridEditor.ts:52-61 | shows the initial state, which is also the only history entry |
| UseGridEditor.GridEditorHook.PushToHistory | src/hooks/useGridEditor.ts:63-84 | the history becomes `Pushed` of the old one; nothing shown changes |
| UseGridEditor.GridEditorHook.Undo | src/hooks/useGridEditor.ts:86-95 | the history becomes `Undone`; the entry reached is shown, or nothing changes at the first entry |
| UseGridEditor.GridEditorHook.Redo | src/hooks/useGridEditor.ts:97-106 | the history becomes `Redone`; the entry reached is shown, or nothing changes at the last entry |
| UseGridEditor.ShareLinkRoundTrip | src/hooks/useGridEditor.ts:24-36 | a link written from a grid opens on that grid and its dimension texts |
| UseGridEditor.EncodedNotEmpty | src/hooks/useGridEditor.ts:24 | the code of a non-empty grid is not empty, so it counts as present |
| UseGridEditor.TallerLinkAddsEmptyRow | src/hooks/useGridEditor.ts:28-36 | with `h` one too large, the grid opens with an extra empty row (`if (newGrid)` is always true) |
| UseGridEditor.MissingParameterGivesDefault | src/hooks/useGridEditor.ts:24-28 | a missing or empty parameter, or a dimension that is not a number or not positive, gives the default state |
| UseGridEditor.ZeroHeightGivesDefault | src/hooks/useGridEditor.ts:28 | `h=0` gives the default state |
| JudgeText.RowTexts | src/GridEditor.tsx:187 | one text per row |
| JudgeText.FirstBadRow | src/GridEditor.tsx:380-383 | the first line that is not `w` long, every line before it being `w` long; none only when all are |
| JudgeText.Parse | src/GridEditor.tsx:370-398 | a loaded grid is non-empty, rectangular, of single characters, and its height and width texts read back as its shape |
| JudgeText.ParseLines | src/GridEditor.tsx:373-383 | as `Parse`, for the lines of the trimmed text |
| JudgeText.ParseRows | src/GridEditor.tsx:378-385 | as `Parse`, for the grid lines under a positive header |
| JudgeText.LoadedOf | src/GridEditor.tsx:380-385 | `h` lines of `w` characters give an `h` by `w` grid, with `toString` texts that read back as `h` and `w` |
| JudgeText.ReadJudgeText | src/GridEditor.tsx:370-385 | the handler's body computes `Parse` |
| JudgeText.ReadLines | src/GridEditor.tsx:373-383 | the header checks compute `ParseLines` |
| JudgeText.ReadRows | src/GridEditor.tsx:378-385 | the `map` that throws on the first bad line computes `ParseRows` |
| JudgeText.FirstBadRowFinds | src/GridEditor.tsx:380-381 | a bad line with only good lines before it is the one named |
| JudgeText.LinesAcceptedIff | src/GridEditor.tsx:373-383 | the lines load exactly when the header is positive, the line count matches and every line has the declared width |
| JudgeText.RowsAcceptedIff | src/GridEditor.tsx:378-383 | the grid lines pass exactly when there are as many as declared and each has the declared width |
| JudgeText.BadRowError | src/GridEditor.tsx:380-381 | with the right line count, the error names the first line of the wrong length, counted from 1 |
| JudgeText.RowErrorNamesFirstBadLine | src/GridEditor.tsx:380-381 | the width error names the first bad line, counted from 1, and its length |
| JudgeText.NeverEmptyInput | src/GridEditor.tsx:372-373 | the empty-input error never happens, since `split` gives at least one line |
| JudgeText.LinesNeverEmpty | src/GridEditor.tsx:373 | lines that exist never give the empty-input error |
| JudgeText.ParseExport | src/GridEditor.tsx:187 | loading the copy text of a grid gives back the grid and its texts, unless the last cell is white space or a cell is a line break |
| JudgeText.RowsParseBack | src/GridEditor.tsx:380-385 | the row texts of an `h` by `w` grid load back as the grid |
| JudgeText.LinesAfterHeader | src/GridEditor.tsx:374-378 | after a positive header, loading is the check of the remaining lines |
| JudgeText.HeaderOfNumbers | src/GridEditor.tsx:374-376 | the header `"H W"` reads as H and W |
| JudgeText.ExportLines | src/GridEditor.tsx:187 | the trimmed copy text splits into the header and the row texts |
| JudgeText.JoinExportLines | src/GridEditor.tsx:187 | joining the header and the rows with line breaks gives the copy text's body |
| JudgeText.ExportLinesUnbroken | src/GridEditor.tsx:187 | no line of the copy text holds a line break |
| JudgeText.TrimExport | src/GridEditor.tsx:187 | trimming the copy text removes only the final line break |
| JudgeText.LastRowEnds | src/GridEditor.tsx:187 | the last row's text ends with the last cell |
| JudgeText.JoinLast | src/GridEditor.tsx:187 | a join ends with its last piece |
| JudgeText.NoBreakInRow | src/GridEditor.tsx:187 | a row with no line-break cell joins to one line |
| JudgeText.LoadExample | src/GridEditor.tsx:370-398 | `"2 4\n####\n.#.#\n"` loads as a 2 by 4 grid |
| JudgeText.RowText | src/GridEditor.tsx:382 | a row of `split('')` joins back to its line |
| JudgeText.TextLines | src/GridEditor.tsx:372 | a body with no blank at either end, followed by a line break, loads as the lines of the body |
| JudgeText.DigitHeader | src/GridEditor.tsx:374-376 | a one-digit header reads as its two digits |
| JudgeText.ShortRowExample | src/GridEditor.tsx:380-381 | a 3-character first row under `2 4` is reported as row 1, length 3, width 4 |
| JudgeText.MissingRowExample | src/GridEditor.tsx:378-379 | two rows under `3 4` are reported as height 3 against 2 rows |
| EditorLogic.Filled | src/GridEditor.tsx:225 | `h` rows of `w` cells, all `.` |
| EditorLogic.StartGridIsDefault | src/GridEditor.tsx:45-49 | the component's first grid is `generateInitialGrid(6, 8)` |
| EditorLogic.Resized | src/GridEditor.tsx:202-217 | the resize happens only for positive dimensions and has exactly that shape |
| EditorLogic.ResizeInPlace | src/GridEditor.tsx:202-217 | resizing to the texts that describe the grid gives the same grid |
| EditorLogic.Cleared | src/GridEditor.tsx:222-225 | succeeds only when `Array(h)` does; `h` rows, each of `w` cells when there are rows, all `.` |
| EditorLogic.ClearIsBlankResize | src/GridEditor.tsx:222-225 | for positive dimensions, clearing is `generateInitialGrid` with no old grid |
| EditorLogic.ClearAcceptsZeroHeight | src/GridEditor.tsx:205-225 | height 0 clears to no rows even with an unreadable width, which the resize refuses |
| EditorLogic.RotatedByText | src/GridEditor.tsx:230-251 | succeeds exactly when no `Array` length is invalid and, for a nonzero width, the height text is at most the rows; the dimension texts are swapped; the result is rectangular with `W` rows |
| EditorLogic.RotateByText | src/GridEditor.tsx:230-242 | the handler's nested loops compute `RotatedByText` |
| EditorLogic.RotateAgreesWithRotateGrid | src/GridEditor.tsx:230-251 | with texts that describe the grid, the handler's rotation is `rotateGrid`'s and its new texts describe the result |
| EditorLogic.FourRotations | src/GridEditor.tsx:230-251 | four presses of rotate give the grid back, with texts that describe it |
| EditorLogic.RotationKeepsShape | src/utils/gridUtils.ts:14-27 | a rotated rectangular grid is rectangular with the dimensions swapped |
| EditorLogic.RotateTallTextThrows | src/GridEditor.tsx:238-240 | a height text larger than the grid makes rotate throw, changing nothing |
| EditorLogic.BrushFor | src/GridEditor.tsx:261 | the brush is `.` or the selected character |
| EditorLogic.Repainted | src/GridEditor.tsx:262-266 | the shape of every row is kept |
| EditorLogic.RepaintIsOneCellStroke | src/GridEditor.tsx:262-266 | the mouse-down repaint is the line from the cell to itself |
| EditorLogic.KeyActionOf | src/GridEditor.tsx:154-170 | nothing inside a text box; outside one, a brush exactly for a one-character key without modifiers, undo exactly for the platform's modifier with `z`, redo exactly for it with `y` |
| EditorLogic.KeyExamples | src/GridEditor.tsx:154-170 | Ctrl+Z undoes, Cmd+Y redoes on a Mac, Ctrl+Z does nothing on a Mac, and `x` selects `x` |
| EditorLogic.UrlGrid | src/GridEditor.tsx:94-114 | an accepted link has all three parameters, keeps its texts as given, declares positive dimensions, its data decodes to exactly `h*w` characters, and it gives a grid of exactly that shape, of single characters |
| EditorLogic.ReadUrlGrid | src/GridEditor.tsx:94-106 | the effect's row loop computes `UrlGrid` |
| EditorLogic.RowsSingleChars | src/GridEditor.tsx:104 | sliced rows hold single characters |
| EditorLogic.ShareLinkOpens | src/GridEditor.tsx:94-114 | a link written from a grid opens on that grid |
| EditorLogic.UrlGridAccepts | src/GridEditor.tsx:94-106 | data of exactly `h*w` characters is accepted, sliced row by row |
| EditorLogic.TallerLinkRejected | src/GridEditor.tsx:101 | a link whose height is one too large is refused |
| EditorLogic.EncodingNotEmpty | src/GridEditor.tsx:94 | the code of a non-empty grid is present |
| EditorLogic.ParseIntOfEmpty | src/GridEditor.tsx:293-294 | the empty text reads as NaN |
| GridEditorTsx.GridEditor.constructor | src/GridEditor.tsx:43-64 | `"6"` by `"8"` blanks, brush `#`, no stroke, and a history of that one state |
| GridEditorTsx.GridEditor.PushToHistory | src/GridEditor.tsx:66-85 | the history becomes `Pushed`; nothing shown changes |
| GridEditorTsx.GridEditor.ApplyUrlParams | src/GridEditor.tsx:87-120 | an accepted link shows its grid and texts and restarts the history with it; otherwise nothing changes |
| GridEditorTsx.GridEditor.HandleUndo | src/GridEditor.tsx:122-131 | the history becomes `Undone` and the entry reached is shown; nothing at the first entry |
| GridEditorTsx.GridEditor.HandleRedo | src/GridEditor.tsx:133-142 | the history becomes `Redone` and the entry reached is shown; nothing at the last entry |
| GridEditorTsx.GridEditor.HandleDrawingEnd | src/GridEditor.tsx:144-151 | exactly one push when a stroke was active and none otherwise; the stroke fields are cleared |
| GridEditorTsx.GridEditor.HandleKeyDown | src/GridEditor.tsx:153-171 | undo, redo, a new brush or nothing, as `KeyActionOf` selects |
| GridEditorTsx.GridEditor.HandleCopy | src/GridEditor.tsx:184-200 | nothing inside a text box, otherwise `"H W\n"`, the rows joined by line breaks, and a final line break |
| GridEditorTsx.GridEditor.HandleGenerateGrid | src/GridEditor.tsx:202-220 | shows and pushes the resized grid; nothing changes on a refusal or a throw |
| GridEditorTsx.GridEditor.HandleClearGrid | src/GridEditor.tsx:222-228 | shows and pushes the cleared grid; nothing changes on a throw |
| GridEditorTsx.GridEditor.HandleRotate | src/GridEditor.tsx:230-251 | shows and pushes the rotation with swapped texts; nothing changes on a throw |
| GridEditorTsx.GridEditor.HandleMouseDown | src/GridEditor.tsx:253-268 | starts a stroke and paints the one cell (`.` for button 2); no push |
| GridEditorTsx.GridEditor.HandleTouchStart | src/GridEditor.tsx:270-284 | as a left-button mouse-down, with the selected character |
| GridEditorTsx.GridEditor.HandleTouchMove | src/GridEditor.tsx:286-300 | during a stroke and on a cell, the mouse-enter of that cell; otherwise nothing |
| GridEditorTsx.GridEditor.HandleMouseEnter | src/GridEditor.tsx:302-332 | during a stroke, draws the line from the last cell with the stroke's brush and moves the last cell; otherwise nothing; no push |
| GridEditorTsx.GridEditor.HandleLoadGridInput | src/GridEditor.tsx:370-398 | on a well-formed text, shows and pushes the grid with `toString` texts; otherwise reports the error and changes nothing |
| GridEditorTsx.GridEditor.SetHeight | src/GridEditor.tsx:406 | the height text becomes the typed text |
| GridEditorTsx.GridEditor.SetWidth | src/GridEditor.tsx:409 | the width text becomes the typed text |
| GridEditorTsx.GridEditor.SetSelectedChar | src/GridEditor.tsx:438 | the brush is the first character typed, or empty |
| GridEditorJs.LegacyError | src/GridEditor.js:267-275 | each load error keeps its kind, and the row error keeps its row number |
| GridEditorJs.LegacyGridEditor.constructor | src/GridEditor.js:28-47 | `"6"` by `"8"` blanks, brush `#`, no stroke, and a history of that one state |
| GridEditorJs.LegacyGridEditor.PushToHistory | src/GridEditor.js:49-68 | the history becomes `Pushed`; nothing shown changes |
| GridEditorJs.LegacyGridEditor.HandleUndo | src/GridEditor.js:70-79 | the history becomes `Undone` and the entry reached is shown; nothing at the first entry |
| GridEditorJs.LegacyGridEditor.HandleRedo | src/GridEditor.js:81-90 | the history becomes `Redone` and the entry reached is shown; nothing at the last entry |
| GridEditorJs.LegacyGridEditor.HandleMouseUp | src/GridEditor.js:92-99 | exactly one push when a stroke was active and none otherwise; the stroke fields are cleared |
| GridEditorJs.LegacyGridEditor.HandleKeyDown | src/GridEditor.js:101-119 | undo, redo, a new brush or nothing, as `KeyActionOf` selects |
| GridEditorJs.LegacyGridEditor.HandleCopy | src/GridEditor.js:130-144 | nothing inside a text box, otherwise the copy text of the grid |
| GridEditorJs.LegacyGridEditor.HandleGenerateGrid | src/GridEditor.js:146-164 | shows and pushes the resized grid; nothing changes on a refusal or a throw |
| GridEditorJs.LegacyGridEditor.HandleClearGrid | src/GridEditor.js:166-172 | shows and pushes the cleared grid; nothing changes on a throw |
| GridEditorJs.LegacyGridEditor.HandleRotate | src/GridEditor.js:174-195 | shows and pushes the rotation with swapped texts; nothing changes on a throw |
| GridEditorJs.LegacyGridEditor.HandleMouseDown | src/GridEditor.js:197-209 | starts a stroke and paints the one cell (`.` for button 2); no push |
| GridEditorJs.LegacyGridEditor.HandleMouseEnter | src/GridEditor.js:211-241 | during a stroke, draws the line from the last cell with the stroke's brush and moves the last cell; otherwise nothing; no push |
| GridEditorJs.LegacyGridEditor.HandleLoadGridInput | src/GridEditor.js:264-292 | on a well-formed text, shows and pushes the grid; otherwise reports the error with less detail and changes nothing |
| GridEditorJs.LegacyGridEditor.SetHeight | src/GridEditor.js:300 | the height text becomes the typed text |
| GridEditorJs.LegacyGridEditor.SetWidth | src/GridEditor.js:303 | the width text becomes the typed text |
| GridEditorJs.LegacyGridEditor.SetSelectedChar | src/GridEditor.js:329 | the brush is the first character typed, or empty |

## Left out

- Rendering with React and MUI, the help dialog, the snackbar, `alert`
  and the wording of every message. The load handlers return the error
  kind instead.
- Browser calls are not modelled:
  - the clipboard writes (the copy text is the result instead);
  - the X share link and `window.open`;
  - `document.elementFromPoint` (touch-move takes the `data-row` and
    `data-col` it reads, -1 for none);
  - blurring the dimension boxes;
  - `preventDefault`;
  - `navigator.platform` (a boolean parameter).
- Adding and removing window listeners, and the React effect schedule. The
  URL effect is a method the caller runs once, and the query string is
  given as three optional strings.
- React batching and stale closures are not modelled. A handler's state
  updates take effect at once, and a handler that calls another sees the
  state it left. In the source, a mouse-enter right after a mouse-down in
  the same frame could still see the old state.
- The raw setters the hook returns (`setGrid`, `setHistory` and the rest)
  are not modelled, because they are not logic.
- The server, the Monaco editor wrapper and the `client` directory are not
  part of this model.
- Numbers are unbounded integers:
  - no 2^53 rounding, no `Infinity`, no exponent form in `toString`;
  - `h*w` and `2*err` never overflow.
- Memory limits for very large `Array(n)` are not modelled.
- Characters are Dafny characters, not UTF-16 code units, so a surrogate
  pair counts as two cells in the source and one here.
- `undefined` cells (a read past a short row) are the empty string.
  `JSON.stringify` renders `undefined` in an array as `null`, so the history
  de-duplication could tell the two apart. The model does not.
- GridEditorJs.LegacyError: the legacy messages are modelled by what they
  report, not by their text.
