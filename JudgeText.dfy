/**
 * The plain-text grid format of online judges, shared by the copy handlers
 * and the load box of both editor components: a header line `H W`, then
 * one line per row, the cells written side by side.
 */
module JudgeText {
  import opened JsText
  import opened Grids

  /** Each row's cells joined with nothing between them. */
  function RowTexts(g: Grid): (rows: seq<string>)
    ensures |rows| == |g|
  {
    seq(|g|, i requires 0 <= i < |g| => Concat(g[i]))
  }

  /** The copied text: `${height} ${width}\n`, the rows joined by `\n`, and
      a final `\n`.  The header holds the height and width texts as they
      stand, whatever the grid's own shape. */
  function Export(height: string, width: string, g: Grid): string {
    height + " " + width + "\n" + Join(RowTexts(g), '\n') + "\n"
  }

  /** Why `handleLoadGridInput` rejects a text.  `EmptyInput` is the check
      on the number of lines, which never fires since splitting always
      yields at least one line (`NeverEmptyInput`). */
  datatype LoadError =
    | EmptyInput
    | InvalidDimensions
    | HeightMismatch(declared: int, actual: nat)
    | RowWidthMismatch(row: nat, length: nat, declared: int)

  datatype Loaded = Loaded(grid: Grid, height: string, width: string)

  datatype Result<T, E> = Ok(value: T) | Err(error: E)

  /** The height and width the header line declares: the first two
      space-separated pieces read by `parseInt`; a missing second piece is
      `undefined`, which reads as NaN. */
  function Header(line: string): (Option<int>, Option<int>) {
    var pieces := Split(line, ' ');
    (ParseInt(pieces[0]), if |pieces| >= 2 then ParseInt(pieces[1]) else None)
  }

  /** The index of the first line that is not `w` long, if any. */
  function FirstBadRow(lines: seq<string>, w: int): (k: Option<nat>)
    ensures k.Some? ==> k.value < |lines| && |lines[k.value]| != w
    ensures k.Some? ==> forall i :: 0 <= i < k.value ==> |lines[i]| == w
    ensures k.None? ==> forall i :: 0 <= i < |lines| ==> |lines[i]| == w
  {
    if lines == [] then None
    else if |lines[0]| != w then Some(0)
    else match FirstBadRow(lines[1..], w)
      case None => None
      case Some(k) => Some(k + 1)
  }

  /** `handleLoadGridInput` as a function of the input text: the text is
      trimmed and split into lines; the header must declare a positive
      height and width; there must be exactly that many further lines, each
      exactly that long; the grid is the lines split into characters, and
      the height and width texts are the numbers written back out. */
  function Parse(text: string): (r: Result<Loaded, LoadError>)
    ensures r.Ok? ==> |r.value.grid| > 0 && Width(r.value.grid) > 0 && Rectangular(r.value.grid)
    ensures r.Ok? ==> SingleChars(r.value.grid)
    ensures r.Ok? ==> ParseInt(r.value.height) == Some(|r.value.grid|)
    ensures r.Ok? ==> ParseInt(r.value.width) == Some(Width(r.value.grid))
  {
    ParseLines(Split(Trim(text), '\n'))
  }

  /** The checks on the lines of the trimmed text. */
  function ParseLines(lines: seq<string>): (r: Result<Loaded, LoadError>)
    ensures r.Ok? ==> |r.value.grid| > 0 && Width(r.value.grid) > 0 && Rectangular(r.value.grid)
    ensures r.Ok? ==> SingleChars(r.value.grid)
    ensures r.Ok? ==> ParseInt(r.value.height) == Some(|r.value.grid|)
    ensures r.Ok? ==> ParseInt(r.value.width) == Some(Width(r.value.grid))
  {
    if |lines| < 1 then Err(EmptyInput)
    else
      var (h, w) := Header(lines[0]);
      if !IsPositive(h) || !IsPositive(w) then Err(InvalidDimensions)
      else ParseRows(lines[1..], h.value, w.value)
  }

  /** The checks on the grid lines, for a declared positive height and width. */
  function ParseRows(gridLines: seq<string>, h: int, w: int): (r: Result<Loaded, LoadError>)
    requires h > 0 && w > 0
    ensures r.Ok? ==> |r.value.grid| > 0 && Width(r.value.grid) > 0 && Rectangular(r.value.grid)
    ensures r.Ok? ==> SingleChars(r.value.grid)
    ensures r.Ok? ==> ParseInt(r.value.height) == Some(|r.value.grid|)
    ensures r.Ok? ==> ParseInt(r.value.width) == Some(Width(r.value.grid))
  {
    if |gridLines| != h then Err(HeightMismatch(h, |gridLines|))
    else match FirstBadRow(gridLines, w)
      case Some(k) => Err(RowWidthMismatch(k + 1, |gridLines[k]|, w))
      case None => Ok(LoadedOf(gridLines, h, w))
  }

  /** The loaded grid and the dimension texts `h.toString()`, `w.toString()`. */
  function LoadedOf(gridLines: seq<string>, h: nat, w: nat): (l: Loaded)
    requires h > 0 && w > 0 && |gridLines| == h
    requires forall i :: 0 <= i < h ==> |gridLines[i]| == w
    ensures HasShape(l.grid, h, w) && Width(l.grid) == w && SingleChars(l.grid)
    ensures ParseInt(l.height) == Some(h) && ParseInt(l.width) == Some(w)
  {
    ParseIntOfToString(h);
    ParseIntOfToString(w);
    Loaded(CharRows(gridLines), NatToString(h), NatToString(w))
  }

  /** `line.split('')` for each line. */
  function CharRows(lines: seq<string>): (g: Grid)
    ensures |g| == |lines| && SingleChars(g)
    ensures forall i :: 0 <= i < |lines| ==> |g[i]| == |lines[i]|
  {
    seq(|lines|, i requires 0 <= i < |lines| => Chars(lines[i]))
  }

  lemma CharRowsSnoc(lines: seq<string>, i: nat)
    requires i < |lines|
    ensures CharRows(lines[..i + 1]) == CharRows(lines[..i]) + [Chars(lines[i])]
  {
    var a, b := CharRows(lines[..i + 1]), CharRows(lines[..i]) + [Chars(lines[i])];
    forall k | 0 <= k <= i ensures a[k] == b[k] {
      assert lines[..i + 1][k] == lines[k];
    }
  }

  /** The load handler's body: trims and splits the text, reads the
      header, then maps the grid lines to rows in a loop that stops at the
      first line of the wrong length. */
  method ReadJudgeText(text: string) returns (r: Result<Loaded, LoadError>)
    ensures r == Parse(text)
  {
    var lines := Split(Trim(text), '\n');
    r := ReadLines(lines);
  }

  method ReadLines(lines: seq<string>) returns (r: Result<Loaded, LoadError>)
    ensures r == ParseLines(lines)
  {
    if |lines| < 1 {
      return Err(EmptyInput);
    }
    var (h, w) := Header(lines[0]);
    if h.None? || w.None? || h.value <= 0 || w.value <= 0 {
      return Err(InvalidDimensions);
    }
    r := ReadRows(lines[1..], h.value, w.value);
  }

  method ReadRows(gridLines: seq<string>, h: int, w: int) returns (r: Result<Loaded, LoadError>)
    requires h > 0 && w > 0
    ensures r == ParseRows(gridLines, h, w)
  {
    if |gridLines| != h {
      return Err(HeightMismatch(h, |gridLines|));
    }
    var newGrid: Grid := [];
    for i := 0 to |gridLines|
      invariant forall k :: 0 <= k < i ==> |gridLines[k]| == w
      invariant newGrid == CharRows(gridLines[..i])
    {
      var line := gridLines[i];
      if |line| != w {
        FirstBadRowFinds(gridLines, w, i);
        return Err(RowWidthMismatch(i + 1, |line|, w));
      }
      CharRowsSnoc(gridLines, i);
      newGrid := newGrid + [Chars(line)];
    }
    assert gridLines[..|gridLines|] == gridLines;
    assert FirstBadRow(gridLines, w).None?;
    return Ok(Loaded(newGrid, NatToString(h), NatToString(w)));
  }

  /** The first line of the wrong length is the one `FirstBadRow` names. */
  lemma FirstBadRowFinds(lines: seq<string>, w: int, i: nat)
    requires i < |lines| && |lines[i]| != w
    requires forall k :: 0 <= k < i ==> |lines[k]| == w
    ensures FirstBadRow(lines, w) == Some(i)
  {
  }

  // ---------------------------------------------------------------- properties

  /** The empty-input error is never raised. */
  lemma NeverEmptyInput(text: string)
    ensures Parse(text) != Err(EmptyInput)
  {
    var lines := Split(Trim(text), '\n');
    assert Parse(text) == ParseLines(lines);
    LinesNeverEmpty(lines);
  }

  /** The lines load exactly when the header declares a positive height
      and width, exactly that many lines follow, and each is exactly that
      long. */
  lemma LinesAcceptedIff(lines: seq<string>)
    requires |lines| >= 1
    ensures ParseLines(lines).Ok? <==>
      (IsPositive(Header(lines[0]).0) && IsPositive(Header(lines[0]).1)
       && |lines| - 1 == Header(lines[0]).0.value
       && forall i :: 1 <= i < |lines| ==> |lines[i]| == Header(lines[0]).1.value)
  {
    var (h, w) := Header(lines[0]);
    if IsPositive(h) && IsPositive(w) {
      ParseLinesOf(lines, h.value, w.value);
      RowsAcceptedIff(lines[1..], h.value, w.value);
      AfterHeaderWidths(lines, lines[1..], w.value, |lines|);
    }
  }

  /** The grid lines pass exactly when there are `h` of them, each `w` long. */
  lemma RowsAcceptedIff(gridLines: seq<string>, h: int, w: int)
    requires h > 0 && w > 0
    ensures ParseRows(gridLines, h, w).Ok? <==>
      (|gridLines| == h && forall i :: 0 <= i < |gridLines| ==> |gridLines[i]| == w)
  {
    if |gridLines| == h && FirstBadRow(gridLines, w).Some? {
      var k := FirstBadRow(gridLines, w).value;
      assert |gridLines[k]| != w;
    }
  }

  /** The lines after the header, up to line `k`, have the widths of lines 1
      to `k - 1`. */
  lemma AfterHeaderWidths(lines: seq<string>, gridLines: seq<string>, w: int, k: nat)
    requires |lines| >= 1 && gridLines == lines[1..] && k <= |lines|
    ensures (forall i :: 1 <= i < k ==> |lines[i]| == w)
        <==> (forall i :: 0 <= i < k - 1 ==> |gridLines[i]| == w)
  {
    assert forall i :: 0 <= i < k - 1 ==> gridLines[i] == lines[i + 1];
    if forall i :: 0 <= i < k - 1 ==> |gridLines[i]| == w {
      forall i | 1 <= i < k ensures |lines[i]| == w {
        assert lines[i] == gridLines[i - 1];
      }
    }
  }

  /** A row-length error names the first grid line (counting from 1) that
      is not as long as declared, with its length. */
  lemma RowErrorNamesFirstBadLine(lines: seq<string>, h: int, w: int, k: nat)
    requires |lines| >= 1 && Header(lines[0]) == (Some(h), Some(w)) && h > 0 && w > 0
    requires |lines| - 1 == h
    requires 1 <= k < |lines| && |lines[k]| != w
    requires forall i :: 1 <= i < k ==> |lines[i]| == w
    ensures ParseLines(lines) == Err(RowWidthMismatch(k, |lines[k]|, w))
  {
    ParseLinesOf(lines, h, w);
    BadLineAfterHeader(lines, lines[1..], h, w, k);
  }

  lemma BadLineAfterHeader(lines: seq<string>, gridLines: seq<string>, h: int, w: int, k: nat)
    requires |lines| >= 1 && gridLines == lines[1..] && h > 0 && w > 0 && |lines| - 1 == h
    requires 1 <= k < |lines| && |lines[k]| != w
    requires forall i :: 1 <= i < k ==> |lines[i]| == w
    ensures ParseRows(gridLines, h, w) == Err(RowWidthMismatch(k, |lines[k]|, w))
  {
    AfterHeaderWidths(lines, gridLines, w, k);
    assert gridLines[k - 1] == lines[k];
    BadRowError(gridLines, h, w, k - 1);
  }

  /** The row checks report the first line of the wrong length. */
  lemma BadRowError(gridLines: seq<string>, h: int, w: int, j: nat)
    requires h > 0 && w > 0 && |gridLines| == h
    requires j < |gridLines| && |gridLines[j]| != w
    requires forall i :: 0 <= i < j ==> |gridLines[i]| == w
    ensures ParseRows(gridLines, h, w) == Err(RowWidthMismatch(j + 1, |gridLines[j]|, w))
  {
    FirstBadRowFinds(gridLines, w, j);
  }

  /** With a header declaring a positive height and width, the lines are
      judged by the row checks on the lines after it. */
  lemma ParseLinesOf(lines: seq<string>, h: int, w: int)
    requires |lines| >= 1 && Header(lines[0]) == (Some(h), Some(w)) && h > 0 && w > 0
    ensures ParseLines(lines) == ParseRows(lines[1..], h, w)
  {
  }

  lemma LinesNeverEmpty(lines: seq<string>)
    requires |lines| >= 1
    ensures ParseLines(lines) != Err(EmptyInput)
  {
  }

  /** Loading what was copied gives back the grid and its dimensions, as
      long as the last cell is not white space (`trim` would drop it) and no
      cell is a line break; the height and width must be written without a
      sign or leading zero, as `toString` writes them. */
  lemma ParseExport(g: Grid, h: nat, w: nat)
    requires HasShape(g, h, w) && h > 0 && w > 0 && SingleChars(g)
    requires forall r, c :: 0 <= r < h && 0 <= c < w ==> g[r][c] != "\n"
    requires !IsJsSpace(g[h - 1][w - 1][0])
    ensures Parse(Export(NatToString(h), NatToString(w), g)) == Ok(Loaded(g, NatToString(h), NatToString(w)))
  {
    var hs, ws := NatToString(h), NatToString(w);
    var header := hs + " " + ws;
    var rows := RowTexts(g);
    ExportLines(g, h, w);
    assert Parse(Export(hs, ws, g)) == ParseLines([header] + rows);
    HeaderOfNumbers(h, w);
    LinesAfterHeader(header, rows, h, w);
    RowsParseBack(g, h, w);
  }

  /** The row texts of a grid of single characters pass the row checks and
      give the grid back. */
  lemma RowsParseBack(g: Grid, h: nat, w: nat)
    requires HasShape(g, h, w) && h > 0 && w > 0 && SingleChars(g)
    ensures ParseRows(RowTexts(g), h, w) == Ok(Loaded(g, NatToString(h), NatToString(w)))
  {
    var rows := RowTexts(g);
    RowTextsBack(g, h, w);
    assert FirstBadRow(rows, w).None?;
  }

  /** Each row text is `w` long and splits back into its row. */
  lemma RowTextsBack(g: Grid, h: nat, w: nat)
    requires HasShape(g, h, w) && SingleChars(g)
    ensures forall i :: 0 <= i < h ==> |RowTexts(g)[i]| == w
    ensures CharRows(RowTexts(g)) == g
  {
    var rows := RowTexts(g);
    forall i | 0 <= i < h ensures |rows[i]| == w && Chars(rows[i]) == g[i] {
      CharsConcat(g[i]);
    }
    var back := CharRows(rows);
    assert forall i :: 0 <= i < h ==> back[i] == Chars(rows[i]);
  }

  lemma LinesAfterHeader(header: string, rows: seq<string>, h: int, w: int)
    requires h > 0 && w > 0 && Header(header) == (Some(h), Some(w))
    ensures ParseLines([header] + rows) == ParseRows(rows, h, w)
  {
    var lines := [header] + rows;
    assert lines[0] == header && lines[1..] == rows;
    ParseLinesOf(lines, h, w);
  }

  /** The header `H W` reads back as the two numbers. */
  lemma HeaderOfNumbers(h: nat, w: nat)
    ensures Header(NatToString(h) + " " + NatToString(w)) == (Some(h), Some(w))
  {
    var hs, ws := NatToString(h), NatToString(w);
    assert ' ' !in hs && ' ' !in ws by {
      assert forall i :: 0 <= i < |hs| ==> IsDigit(hs[i]);
      assert forall i :: 0 <= i < |ws| ==> IsDigit(ws[i]);
    }
    assert Join([hs, ws], ' ') == hs + " " + ws;
    SplitJoin([hs, ws], ' ');
    ParseIntOfToString(h);
    ParseIntOfToString(w);
  }

  /** The copied text, trimmed and split into lines, is the header line
      followed by the row texts. */
  lemma ExportLines(g: Grid, h: nat, w: nat)
    requires HasShape(g, h, w) && h > 0 && w > 0 && SingleChars(g)
    requires forall r, c :: 0 <= r < h && 0 <= c < w ==> g[r][c] != "\n"
    requires !IsJsSpace(g[h - 1][w - 1][0])
    ensures Split(Trim(Export(NatToString(h), NatToString(w), g)), '\n')
         == [NatToString(h) + " " + NatToString(w)] + RowTexts(g)
  {
    var parts := [NatToString(h) + " " + NatToString(w)] + RowTexts(g);
    TrimExport(g, h, w);
    JoinExportLines(g, h, w);
    ExportLinesUnbroken(g, h, w);
    SplitJoin(parts, '\n');
  }

  lemma JoinExportLines(g: Grid, h: nat, w: nat)
    requires |g| > 0
    ensures Join([NatToString(h) + " " + NatToString(w)] + RowTexts(g), '\n')
         == NatToString(h) + " " + NatToString(w) + "\n" + Join(RowTexts(g), '\n')
  {
    var header := NatToString(h) + " " + NatToString(w);
    var rows := RowTexts(g);
    assert ([header] + rows)[1..] == rows;
  }

  lemma ExportLinesUnbroken(g: Grid, h: nat, w: nat)
    requires HasShape(g, h, w) && h > 0 && w > 0 && SingleChars(g)
    requires forall r, c :: 0 <= r < h && 0 <= c < w ==> g[r][c] != "\n"
    ensures forall i :: 0 <= i < |[NatToString(h) + " " + NatToString(w)] + RowTexts(g)| ==>
      '\n' !in ([NatToString(h) + " " + NatToString(w)] + RowTexts(g))[i]
  {
    var hs, ws := NatToString(h), NatToString(w);
    var header := hs + " " + ws;
    var rows := RowTexts(g);
    assert '\n' !in header by {
      assert forall i :: 0 <= i < |hs| ==> IsDigit(hs[i]);
      assert forall i :: 0 <= i < |ws| ==> IsDigit(ws[i]);
    }
    var parts := [header] + rows;
    forall i | 0 <= i < |parts| ensures '\n' !in parts[i] {
      if i > 0 {
        assert parts[i] == rows[i - 1];
        NoBreakInRow(g[i - 1], w);
      }
    }
  }

  /** `trim` removes only the final line break of the copied text. */
  lemma TrimExport(g: Grid, h: nat, w: nat)
    requires HasShape(g, h, w) && h > 0 && w > 0 && SingleChars(g)
    requires !IsJsSpace(g[h - 1][w - 1][0])
    ensures Trim(Export(NatToString(h), NatToString(w), g))
         == NatToString(h) + " " + NatToString(w) + "\n" + Join(RowTexts(g), '\n')
  {
    var hs, ws := NatToString(h), NatToString(w);
    var rows := RowTexts(g);
    var body := hs + " " + ws + "\n" + Join(rows, '\n');
    assert Export(hs, ws, g) == body + "\n";
    assert body[0] == hs[0];
    assert !IsJsSpace(hs[0]) by {
      assert IsDigit(hs[0]);
    }
    LastRowEnds(g, h, w);
    JoinLast(rows, '\n');
    assert body[|body| - 1] == rows[h - 1][w - 1];
    TrimOfPadded(body, "\n");
  }

  lemma LastRowEnds(g: Grid, h: nat, w: nat)
    requires HasShape(g, h, w) && h > 0 && w > 0 && SingleChars(g)
    ensures |RowTexts(g)[h - 1]| == w
    ensures RowTexts(g)[h - 1][w - 1] == g[h - 1][w - 1][0]
  {
    var row := g[h - 1];
    CharsConcat(row);
    assert Chars(Concat(row))[w - 1] == row[w - 1];
  }

  lemma {:induction false} JoinLast(parts: seq<string>, sep: char)
    requires |parts| >= 1
    ensures Join(parts, sep) == Join(parts[..|parts| - 1], sep) + (if |parts| > 1 then [sep] else []) + parts[|parts| - 1]
  {
    if |parts| > 1 {
      JoinLast(parts[1..], sep);
      assert parts[1..][..|parts| - 2] == parts[..|parts| - 1][1..];
      if |parts| == 2 {
        assert parts[..1] == [parts[0]];
      }
    }
  }

  lemma NoBreakInRow(row: seq<Cell>, w: nat)
    requires |row| == w && forall c :: 0 <= c < w ==> |row[c]| == 1 && row[c] != "\n"
    ensures '\n' !in Concat(row)
  {
    CharsConcat(row);
    var s := Concat(row);
    forall i | 0 <= i < |s| ensures s[i] != '\n' {
      assert Chars(s)[i] == row[i];
    }
  }

  /** The example from the help text loads as a 2 by 4 grid. */
  lemma LoadExample()
    ensures Parse("2 4\n####\n.#.#\n") == Ok(Loaded([["#", "#", "#", "#"], [".", "#", ".", "#"]], "2", "4"))
  {
    var g := [["#", "#", "#", "#"], [".", "#", ".", "#"]];
    ExampleExport(g);
    ExampleShape(g);
    assert NatToString(2) == "2" && NatToString(4) == "4";
    ParseExport(g, 2, 4);
  }

  lemma ExampleExport(g: Grid)
    requires g == [["#", "#", "#", "#"], [".", "#", ".", "#"]]
    ensures Export("2", "4", g) == "2 4\n####\n.#.#\n"
  {
    RowText(g[0], "####");
    RowText(g[1], ".#.#");
    assert RowTexts(g) == ["####", ".#.#"];
    assert Join(["####", ".#.#"], '\n') == "####\n.#.#";
  }

  lemma ExampleShape(g: Grid)
    requires g == [["#", "#", "#", "#"], [".", "#", ".", "#"]]
    ensures HasShape(g, 2, 4) && SingleChars(g)
    ensures forall r, c :: 0 <= r < 2 && 0 <= c < 4 ==> g[r][c] != "\n"
    ensures !IsJsSpace(g[1][3][0])
  {
  }

  lemma RowText(cells: seq<Cell>, s: string)
    requires cells == Chars(s)
    ensures Concat(cells) == s
  {
    ConcatChars(s);
  }

  /** The lines of a text: its trimmed body split at line breaks. */
  lemma TextLines(text: string, body: string, parts: seq<string>)
    requires text == body + "\n" && body != [] && !IsJsSpace(body[0]) && !IsJsSpace(body[|body| - 1])
    requires |parts| >= 1 && Join(parts, '\n') == body
    requires forall i :: 0 <= i < |parts| ==> '\n' !in parts[i]
    ensures Parse(text) == ParseLines(parts)
  {
    assert IsJsSpace("\n"[0]);
    TrimOfPadded(body, "\n");
    SplitJoin(parts, '\n');
    ParseOfLines(text, parts);
  }

  lemma ParseOfLines(text: string, lines: seq<string>)
    requires Split(Trim(text), '\n') == lines
    ensures Parse(text) == ParseLines(lines)
  {
  }

  /** The header of the examples: two one-digit numbers. */
  lemma DigitHeader(h: nat, w: nat, line: string)
    requires h < 10 && w < 10 && line == [Digit(h), ' ', Digit(w)]
    ensures Header(line) == (Some(h), Some(w))
  {
    assert NatToString(h) == [Digit(h)] && NatToString(w) == [Digit(w)];
    assert line == NatToString(h) + " " + NatToString(w);
    HeaderOfNumbers(h, w);
  }

  /** A short first row is reported with its 1-based index and length. */
  lemma ShortRowExample()
    ensures Parse("2 4\n###\n.#.#\n") == Err(RowWidthMismatch(1, 3, 4))
  {
    var parts := ["2 4", "###", ".#.#"];
    assert Join(parts, '\n') == "2 4\n###\n.#.#";
    TextLines("2 4\n###\n.#.#\n", "2 4\n###\n.#.#", parts);
    assert Digit(2) == '2' && Digit(4) == '4';
    DigitHeader(2, 4, parts[0]);
    LinesAfterHeader(parts[0], parts[1..], 2, 4);
    assert FirstBadRow(parts[1..], 4) == Some(0);
  }

  /** A header declaring more rows than follow is a height mismatch. */
  lemma MissingRowExample()
    ensures Parse("3 4\n####\n.#.#\n") == Err(HeightMismatch(3, 2))
  {
    var parts := ["3 4", "####", ".#.#"];
    assert Join(parts, '\n') == "3 4\n####\n.#.#";
    TextLines("3 4\n####\n.#.#\n", "3 4\n####\n.#.#", parts);
    assert Digit(3) == '3' && Digit(4) == '4';
    DigitHeader(3, 4, parts[0]);
    LinesAfterHeader(parts[0], parts[1..], 3, 4);
  }
}
