/**
 * The grid helpers of `src/utils/gridUtils.ts`: building a grid that keeps
 * the cells of the old one, the clockwise quarter turn, and the compact
 * codec used in share links (the flattened cells, base64-encoded, with `+`
 * and `/` swapped for `-` and `_`).  The line rasteriser of the same file
 * is the module `Bresenham`.
 */
module GridUtils {
  import opened JsText
  import opened Grids
  import Base64

  // ---------------------------------------------------------------- creation

  /** `generateInitialGrid(h, w, currentGrid)`: an `h` by `w` grid that keeps
      each cell of `current` inside `current`'s height and first-row width
      and is `Blank` elsewhere. */
  function GenerateInitialGrid(h: nat, w: nat, current: Option<Grid>): (g: Grid)
    ensures HasShape(g, h, w)
    ensures forall r, c :: 0 <= r < h && 0 <= c < w && current.Some? && r < |current.value|
                           && c < Width(current.value) && c < |current.value[r]|
                           ==> g[r][c] == current.value[r][c]
    ensures forall r, c :: 0 <= r < h && 0 <= c < w && current.Some? && r < |current.value|
                           && c < Width(current.value) && c >= |current.value[r]|
                           ==> g[r][c] == Absent
    ensures forall r, c :: 0 <= r < h && 0 <= c < w
                           && (current.None? || r >= |current.value| || c >= Width(current.value))
                           ==> g[r][c] == Blank
  {
    seq(h, r => seq(w, c =>
      if current.Some? && r < |current.value| && c < Width(current.value)
      then CellAt(current.value, r, c) else Blank))
  }

  /** Resizing to the grid's own shape changes nothing. */
  lemma ResizeToSameShape(g: Grid)
    requires Rectangular(g)
    ensures GenerateInitialGrid(|g|, Width(g), Some(g)) == g
  {
    var t := GenerateInitialGrid(|g|, Width(g), Some(g));
    forall r | 0 <= r < |g| ensures t[r] == g[r] {
      assert |t[r]| == |g[r]|;
    }
  }

  /** Growing a grid and shrinking it back restores it. */
  lemma ResizeGrowThenShrink(g: Grid, h: nat, w: nat)
    requires Rectangular(g) && |g| <= h && Width(g) <= w
    ensures GenerateInitialGrid(|g|, Width(g), Some(GenerateInitialGrid(h, w, Some(g)))) == g
  {
    var big := GenerateInitialGrid(h, w, Some(g));
    var t := GenerateInitialGrid(|g|, Width(g), Some(big));
    if |g| > 0 {
      assert Width(big) == w;
      forall r | 0 <= r < |g| ensures t[r] == g[r] {
        forall c | 0 <= c < Width(g) ensures t[r][c] == g[r][c] {
          assert t[r][c] == big[r][c];
        }
      }
    }
  }

  // ---------------------------------------------------------------- rotation

  /** The clockwise quarter turn of the top-left `h` by `w` window of `g`:
      `w` rows of `h` cells, row `c` read from column `c` bottom-up. */
  function RotatedWindow(g: Grid, h: nat, w: nat): (t: Grid)
    ensures HasShape(t, w, h)
  {
    seq(w, c => seq(h, k => CellAt(g, h - 1 - k, c)))
  }

  /** The quarter turn of the whole grid, by its row count and first-row width. */
  function Rotated(g: Grid): (t: Grid)
    ensures HasShape(t, Width(g), |g|)
  {
    RotatedWindow(g, |g|, Width(g))
  }

  /** Cell `(r, c)` of an `h` by `w` window lands at `(c, h - 1 - r)`. */
  lemma WindowMapsCells(g: Grid, h: nat, w: nat)
    ensures forall r, c :: 0 <= r < h && 0 <= c < w ==> RotatedWindow(g, h, w)[c][h - 1 - r] == CellAt(g, r, c)
  {
    var t := RotatedWindow(g, h, w);
    forall r, c | 0 <= r < h && 0 <= c < w ensures t[c][h - 1 - r] == CellAt(g, r, c) {
      var k := h - 1 - r;
      assert h - 1 - k == r;
    }
  }

  /** Cell `(r, c)` of a rectangular grid lands at `(c, |g| - 1 - r)`. */
  lemma RotateMapsCells(g: Grid)
    requires Rectangular(g)
    ensures forall r, c :: 0 <= r < |g| && 0 <= c < Width(g) ==> Rotated(g)[c][|g| - 1 - r] == g[r][c]
  {
    WindowMapsCells(g, |g|, Width(g));
  }

  /** `rotateGrid(grid)`: the rotated grid with its height and width. */
  method RotateGrid(g: Grid) returns (t: Grid, h: nat, w: nat)
    ensures t == Rotated(g)
    ensures h == Width(g) && w == |g|
  {
    var currentHeight, currentWidth := |g|, Width(g);
    h, w := currentWidth, currentHeight;
    t := RotateWindow(g, currentHeight, currentWidth);
  }

  /** The nested loops of `rotateGrid` (and of the editors' rotate
      handlers) for `h` source rows and `w` source columns: a blank `w` by
      `h` grid where `newGrid[c][h - 1 - r] = grid[r][c]` is written for
      every source cell; a read past the end of a row gives `Absent`. The
      source rows must exist: reading a missing row throws. */
  method RotateWindow(g: Grid, h: nat, w: nat) returns (t: Grid)
    requires w == 0 || h <= |g|
    ensures t == RotatedWindow(g, h, w)
  {
    t := seq(w, _ => seq(h, _ => Blank));
    var r := 0;
    while r < h
      invariant 0 <= r <= h
      invariant HasShape(t, w, h)
      invariant forall c, k :: 0 <= c < w && 0 <= k < h ==>
                  t[c][k] == if k >= h - r then CellAt(g, h - 1 - k, c) else Blank
    {
      var c := 0;
      while c < w
        invariant 0 <= c <= w
        invariant HasShape(t, w, h)
        invariant forall c', k :: 0 <= c' < w && 0 <= k < h ==>
                    t[c'][k] == if k > h - 1 - r || (k == h - 1 - r && c' < c)
                                then CellAt(g, h - 1 - k, c') else Blank
      {
        t := t[c := t[c][h - 1 - r := CellAt(g, r, c)]];
        c := c + 1;
      }
      r := r + 1;
    }
    forall c | 0 <= c < w ensures t[c] == RotatedWindow(g, h, w)[c] {
    }
  }

  /** Two quarter turns of a non-empty rectangle: the half turn. */
  lemma HalfTurn(g: Grid)
    requires Rectangular(g) && |g| > 0 && Width(g) > 0
    ensures HasShape(Rotated(Rotated(g)), |g|, Width(g))
    ensures forall a, b :: 0 <= a < |g| && 0 <= b < Width(g) ==>
              Rotated(Rotated(g))[a][b] == g[|g| - 1 - a][Width(g) - 1 - b]
  {
    var h, w := |g|, Width(g);
    var once := Rotated(g);
    assert Width(once) == h;
    var twice := Rotated(once);
    forall a, b | 0 <= a < h && 0 <= b < w
      ensures twice[a][b] == g[h - 1 - a][w - 1 - b]
    {
      assert twice[a][b] == CellAt(once, w - 1 - b, a);
      assert once[w - 1 - b][a] == CellAt(g, h - 1 - a, w - 1 - b);
    }
  }

  /** Four quarter turns give back a rectangular grid, unless its rows are
      empty: a grid of empty rows turns into no rows at all, and its height
      is lost (see `ZeroWidthLosesHeight`). */
  lemma FourTurns(g: Grid)
    requires Rectangular(g) && (|g| == 0 || Width(g) > 0)
    ensures Rotated(Rotated(Rotated(Rotated(g)))) == g
  {
    if |g| > 0 {
      var h, w := |g|, Width(g);
      HalfTurn(g);
      var half := Rotated(Rotated(g));
      assert Width(half) == w;
      HalfTurn(half);
      var full := Rotated(Rotated(half));
      forall a | 0 <= a < h ensures full[a] == g[a] {
        forall b | 0 <= b < w ensures full[a][b] == g[a][b] {
          assert full[a][b] == half[h - 1 - a][w - 1 - b];
        }
      }
    }
  }

  lemma ZeroWidthLosesHeight()
    ensures Rotated([[], []]) == []
    ensures Rotated(Rotated([[], []])) != [[], []]
  {
  }

  /** The 3 by 2 example: `#.`, `##`, `..` turns into `.##`, `.#.`. */
  lemma RotateExample()
    ensures Rotated([["#", "."], ["#", "#"], [".", "."]]) == [[".", "#", "#"], [".", "#", "."]]
  {
    var g := [["#", "."], ["#", "#"], [".", "."]];
    var t := Rotated(g);
    assert t[0] == [CellAt(g, 2, 0), CellAt(g, 1, 0), CellAt(g, 0, 0)];
    assert t[1] == [CellAt(g, 2, 1), CellAt(g, 1, 1), CellAt(g, 0, 1)];
  }

  // ---------------------------------------------------------------- codec

  /** `grid.map(row => row.join('')).join('')`: the cells, row by row. */
  function Flatten(g: Grid): string {
    if g == [] then "" else Concat(g[0]) + Flatten(g[1..])
  }

  /** `.replace(/\+/g, '-').replace(/\//g, '_')`. */
  function UrlSafe(t: string): (u: string)
    ensures |u| == |t|
    ensures forall i :: 0 <= i < |u| ==> u[i] != '+' && u[i] != '/'
  {
    seq(|t|, i requires 0 <= i < |t| => if t[i] == '+' then '-' else if t[i] == '/' then '_' else t[i])
  }

  /** `.replace(/-/g, '+').replace(/_/g, '/')`. */
  function FromUrlSafe(u: string): (t: string)
    ensures |t| == |u|
    ensures forall i :: 0 <= i < |t| ==> t[i] != '-' && t[i] != '_'
  {
    seq(|u|, i requires 0 <= i < |u| => if u[i] == '-' then '+' else if u[i] == '_' then '/' else u[i])
  }

  /** Undoing the swap restores any text without `-` or `_`, which base64
      output never holds. */
  lemma FromUrlSafeUrlSafe(t: string)
    requires forall i :: 0 <= i < |t| ==> t[i] != '-' && t[i] != '_'
    ensures FromUrlSafe(UrlSafe(t)) == t
  {
    var u := FromUrlSafe(UrlSafe(t));
    forall i | 0 <= i < |t| ensures u[i] == t[i] {
    }
  }

  /** `encodeGrid(grid)`, or `None` where `btoa` throws on a cell character
      above U+00FF. */
  function EncodeGrid(g: Grid): (r: Option<string>)
    ensures r.Some? <==> Base64.IsLatin1(Flatten(g))
    ensures r.Some? ==> |r.value| % 4 == 0
    ensures r.Some? ==> forall i :: 0 <= i < |r.value| ==> r.value[i] != '+' && r.value[i] != '/'
  {
    match Base64.Btoa(Flatten(g))
    case None => None
    case Some(e) => Some(UrlSafe(e))
  }

  /** The `h` rows `decodeGrid` cuts from decoded text: row `i` is the
      characters from `i * w` to `(i + 1) * w`, clipped to the text, so
      short text gives short or empty rows. */
  function Rows(d: string, h: nat, w: nat): (g: Grid)
    ensures |g| == h
  {
    seq(h, i requires 0 <= i < h => Chars(Substring(d, i * w, (i + 1) * w)))
  }

  /** What `decodeGrid(h, w, encoded)` returns, or `None` where `atob` throws. */
  function Decoded(h: nat, w: nat, encoded: string): (r: Option<Grid>)
    ensures r.Some? <==> Base64.Atob(FromUrlSafe(encoded)).Some?
    ensures r.Some? ==> |r.value| == h
  {
    match Base64.Atob(FromUrlSafe(encoded))
    case None => None
    case Some(d) => Some(Rows(d, h, w))
  }

  /** `decodeGrid(h, w, encodedData)`: undoes the swap, decodes, and pushes
      `h` rows in a loop; there is no check that the text fills them. */
  method DecodeGrid(h: nat, w: nat, encoded: string) returns (r: Option<Grid>)
    ensures r == Decoded(h, w, encoded)
  {
    var data := FromUrlSafe(encoded);
    var decoded := Base64.Atob(data);
    if decoded.None? {
      return None;
    }
    var newGrid := SliceRows(decoded.value, h, w);
    return Some(newGrid);
  }

  /** The row loop of `decodeGrid` (and of the editor's URL effect): pushes
      `substring(i * w, (i + 1) * w).split('')` for each of the `h` rows. */
  method SliceRows(d: string, h: nat, w: nat) returns (newGrid: Grid)
    ensures newGrid == Rows(d, h, w)
  {
    newGrid := [];
    for i := 0 to h
      invariant newGrid == Rows(d, i, w)
    {
      newGrid := newGrid + [Chars(Substring(d, i * w, (i + 1) * w))];
    }
  }

  lemma {:induction false} FlattenLength(g: Grid, h: nat, w: nat)
    requires HasShape(g, h, w) && SingleChars(g)
    ensures |Flatten(g)| == h * w
    decreases h
  {
    if h > 0 {
      assert HasShape(g[1..], h - 1, w);
      FlattenLength(g[1..], h - 1, w);
      CharsConcat(g[0]);
      MulPred(h, w);
    }
  }

  lemma MulStep(i: nat, w: nat)
    ensures (i + 1) * w == i * w + w
  {
  }

  lemma MulMonotone(i: nat, h: nat, w: nat)
    requires i <= h
    ensures i * w <= h * w
  {
    assert h * w == i * w + (h - i) * w;
  }

  /** Row `i` of text that holds at least `i + 1` full rows is `w` long. */
  lemma RowWithinText(d: string, h: nat, w: nat, i: nat)
    requires i < h && |d| == h * w
    ensures i * w + w <= |d|
    ensures Rows(d, h, w)[i] == Chars(d[i * w..i * w + w])
  {
    MulStep(i, w);
    MulMonotone(i + 1, h, w);
  }

  /** Text of exactly `h * w` characters is cut into an `h` by `w` grid. */
  lemma RowsShape(d: string, h: nat, w: nat)
    requires |d| == h * w
    ensures HasShape(Rows(d, h, w), h, w)
  {
    forall i | 0 <= i < h ensures |Rows(d, h, w)[i]| == w {
      RowWithinText(d, h, w, i);
    }
  }

  /** Cutting rows from text whose first row is `w` long: that row, then the
      rows of the rest. */
  lemma RowsOfPrefixed(d: string, h: nat, w: nat)
    requires |d| == (h + 1) * w
    ensures Rows(d, h + 1, w) == [Chars(d[..w])] + Rows(d[w..], h, w)
  {
    var lhs, rhs := Rows(d, h + 1, w), [Chars(d[..w])] + Rows(d[w..], h, w);
    forall i | 0 <= i < h + 1 ensures lhs[i] == rhs[i] {
      RowOfPrefixed(d, h, w, i);
    }
  }

  lemma RowOfPrefixed(d: string, h: nat, w: nat, i: nat)
    requires |d| == (h + 1) * w && i <= h
    ensures w <= |d|
    ensures Rows(d, h + 1, w)[i] == ([Chars(d[..w])] + Rows(d[w..], h, w))[i]
  {
    RowWithinText(d, h + 1, w, 0);
    if i > 0 {
      MulStep(h, w);
      RowShift(d, d[w..], h, w, i);
    }
  }

  /** Row `i > 0` of the text is row `i - 1` of the text after its first row. */
  lemma RowShift(d: string, rest: string, h: nat, w: nat, i: nat)
    requires |d| == (h + 1) * w && |rest| == h * w && w <= |d| && rest == d[w..] && 1 <= i <= h
    ensures Rows(d, h + 1, w)[i] == Rows(rest, h, w)[i - 1]
  {
    MulPred(i, w);
    var a, b := (i - 1) * w, i * w;
    RowAt(d, h + 1, w, i, b);
    RowAt(rest, h, w, i - 1, a);
    SliceShift(d, rest, w, a, b);
  }

  /** Row `i` of text holding `h` full rows starts at offset `b == i * w`. */
  lemma RowAt(d: string, h: nat, w: nat, i: nat, b: int)
    requires i < h && |d| == h * w && b == i * w
    ensures 0 <= b && b + w <= |d|
    ensures Rows(d, h, w)[i] == Chars(d[b..b + w])
  {
    MulMonotone(0, i, w);
    RowWithinText(d, h, w, i);
  }

  lemma MulPred(i: nat, w: nat)
    requires i >= 1
    ensures (i - 1) * w >= 0 && i * w == w + (i - 1) * w
  {
  }

  lemma SliceShift(d: string, rest: string, w: nat, a: nat, b: int)
    requires w <= |d| && rest == d[w..] && b == w + a && b + w <= |d|
    ensures rest[a..a + w] == d[b..b + w]
  {
  }

  lemma SplitAt(a: string, b: string)
    ensures (a + b)[..|a|] == a && (a + b)[|a|..] == b
  {
  }

  /** Cutting the flattened text of an `h` by `w` grid of single characters
      into `h` rows of `w` gives the grid back. */
  lemma {:induction false} RowsOfFlatten(g: Grid, h: nat, w: nat)
    requires HasShape(g, h, w) && SingleChars(g)
    ensures Rows(Flatten(g), h, w) == g
    decreases h
  {
    if h > 0 {
      var first, rest := Concat(g[0]), Flatten(g[1..]);
      assert HasShape(g[1..], h - 1, w) && SingleChars(g[1..]);
      CharsConcat(g[0]);
      FlattenLength(g[1..], h - 1, w);
      MulStep(h - 1, w);
      SplitAt(first, rest);
      RowsOfPrefixed(first + rest, h - 1, w);
      RowsOfFlatten(g[1..], h - 1, w);
      assert g == [g[0]] + g[1..];
    }
  }

  /** The base64 text of a Latin-1 string holds neither `-` nor `_`. */
  lemma BtoaHasNoUrlChars(s: string)
    requires Base64.IsLatin1(s)
    ensures forall i :: 0 <= i < |Base64.Btoa(s).value| ==>
              Base64.Btoa(s).value[i] != '-' && Base64.Btoa(s).value[i] != '_'
  {
    var core := Base64.EncodeCore(s);
    var e := Base64.Btoa(s).value;
    assert e == core + Base64.Padding(|s|);
    forall i | 0 <= i < |e| ensures e[i] != '-' && e[i] != '_' {
      if i < |core| {
        assert Base64.IsBase64Char(core[i]);
      }
    }
  }

  /** `decodeGrid(h, w, encodeGrid(g))` is `g` for an `h` by `w` grid of
      single Latin-1 characters. */
  lemma DecodeEncode(g: Grid, h: nat, w: nat)
    requires HasShape(g, h, w) && SingleChars(g) && Base64.IsLatin1(Flatten(g))
    ensures EncodeGrid(g).Some?
    ensures Base64.Atob(FromUrlSafe(EncodeGrid(g).value)) == Some(Flatten(g))
    ensures Decoded(h, w, EncodeGrid(g).value) == Some(g)
  {
    var d := Flatten(g);
    var e := Base64.Btoa(d).value;
    BtoaHasNoUrlChars(d);
    FromUrlSafeUrlSafe(e);
    Base64.AtobBtoa(d);
    RowsOfFlatten(g, h, w);
  }

  /** Asking for one row more than the text holds is not an error: the extra
      row comes out empty. */
  lemma DecodeExtraRowIsEmpty(g: Grid, h: nat, w: nat)
    requires HasShape(g, h, w) && SingleChars(g) && Base64.IsLatin1(Flatten(g))
    ensures EncodeGrid(g).Some?
    ensures Decoded(h + 1, w, EncodeGrid(g).value) == Some(g + [[]])
  {
    DecodeEncode(g, h, w);
    FlattenLength(g, h, w);
    RowsPastText(Flatten(g), h, w);
    RowsOfFlatten(g, h, w);
    var e := EncodeGrid(g).value;
    assert Decoded(h + 1, w, e) == Some(Rows(Flatten(g), h + 1, w));
  }

  /** A row cut past the end of the text is empty. */
  lemma RowsPastText(d: string, h: nat, w: nat)
    requires |d| == h * w
    ensures Rows(d, h + 1, w) == Rows(d, h, w) + [[]]
  {
    var rows, top := Rows(d, h + 1, w), Rows(d, h, w);
    MulStep(h, w);
    assert rows[h] == Chars(Substring(d, h * w, h * w + w));
    forall i | 0 <= i < h + 1 ensures rows[i] == (top + [[]])[i] {
    }
  }
}
