/**
 * The grid the table renderer builds from an HTML table (`TableToIMG._ParseHTML`),
 * stated over an abstract input: the rows of the table, each a sequence of
 * cell records as BeautifulSoup presents them. The functions here say what
 * the renderer's loops compute; the loops themselves are in TableParse.
 */
module TableGrid {
  import opened Results
  import opened Numbers
  import Articles
  import Reflow

  /** A `td`/`th` tag as the renderer reads it: its name, the attributes it looks at, and its text. */
  datatype CellSpec = CellSpec(
    name: string,
    colspan: Option<string>,
    rowspan: Option<string>,
    width: Option<string>,
    style: Option<string>,
    text: string)

  /** The renderer's `Cell` record. */
  datatype Cell = Cell(
    colspan: int,
    content: string,
    isHeader: bool,
    rowspan: int,
    cssWidth: string,
    row: nat,
    col: nat)

  /** The exceptions the grid build can raise. */
  datatype ParseError =
    | BadColspan(text: string)        // `int(cell.attrs["colspan"])` raised ValueError
    | BadRowspan(text: string)        // `int(cell.attrs["rowspan"])` raised ValueError
    | StyleWithoutWidth(style: string) // "width" is in the style but `width_re` finds nothing: IndexError
    | EmptyTable                      // no cell at all: the division by `total_col_count` raised ZeroDivisionError

  /** `t` occurs in `s` at position `i` or later. */
  predicate OccursFrom(s: string, t: string, i: nat)
    decreases |s| - i
  {
    i + |t| <= |s| && (s[i..i + |t|] == t || OccursFrom(s, t, i + 1))
  }

  /** A character matches the pattern letter `p` under IGNORECASE (`i` also matches U+0130 and U+0131). */
  predicate FoldMatch(c: char, p: char) {
    Articles.Lower(c) == p || (p == 'i' && (c == '\U{130}' || c == '\U{131}'))
  }

  /** `width_re.findall(style)` is non-empty: "width:" occurs, ignoring case, at `i` or later. */
  predicate WidthFrom(s: string, i: nat)
    decreases |s| - i
  {
    i + 6 <= |s|
    && ((FoldMatch(s[i], 'w') && FoldMatch(s[i + 1], 'i') && FoldMatch(s[i + 2], 'd')
         && FoldMatch(s[i + 3], 't') && FoldMatch(s[i + 4], 'h') && s[i + 5] == ':')
        || WidthFrom(s, i + 1))
  }

  lemma {:induction false} OccursAt(s: string, t: string, i: nat, k: nat)
    requires i <= k && k + |t| <= |s| && s[k..k + |t|] == t
    ensures OccursFrom(s, t, i)
    decreases k - i
  {
    if i < k {
      OccursAt(s, t, i + 1, k);
    }
  }

  /** A style that names "width" but holds no "width:" makes the renderer raise. */
  lemma StyleWithoutColon()
    ensures OccursFrom("max-width", "width", 0) && !WidthFrom("max-width", 0)
  {
    assert "max-width"[4..9] == "width";
    OccursAt("max-width", "width", 0, 4);
  }

  /** The cell record for the tag at row `r`, position `c`, or the exception reading it raises. */
  function ReadCell(spec: CellSpec, r: nat, c: nat): (res: Result<Cell, ParseError>)
    ensures res.Ok? ==> res.value.row == r && res.value.col == c && res.value.cssWidth == ""
    ensures res.Ok? ==> res.value.content == spec.text && res.value.isHeader == (spec.name == "th")
  {
    var colspan := if spec.colspan.Some? then ParseInt(spec.colspan.value) else Some(1);
    var rowspan := if spec.rowspan.Some? then ParseInt(spec.rowspan.value) else Some(1);
    if colspan.None? then Err(BadColspan(spec.colspan.value))
    else if rowspan.None? then Err(BadRowspan(spec.rowspan.value))
    else if spec.style.Some? && OccursFrom(spec.style.value, "width", 0) && !WidthFrom(spec.style.value, 0) then
      Err(StyleWithoutWidth(spec.style.value))
    else Ok(Cell(colspan.value, spec.text, spec.name == "th", rowspan.value, "", r, c))
  }

  /** The spans a cell declares are read as Python integers; an absent span is 1. */
  lemma ReadCellSpans(spec: CellSpec, r: nat, c: nat, n: nat)
    requires spec.colspan == Some(NatToString(n)) && spec.rowspan.None? && spec.style.None?
    ensures ReadCell(spec, r, c) == Ok(Cell(n, spec.text, spec.name == "th", 1, "", r, c))
  {
    ParseIntOfNat(n);
  }

  predicate RowOk(rows: seq<seq<CellSpec>>, r: nat)
    requires r < |rows|
  {
    forall c :: 0 <= c < |rows[r]| ==> ReadCell(rows[r][c], r, c).Ok?
  }

  /** Every cell of every row can be read. */
  predicate WellFormed(rows: seq<seq<CellSpec>>) {
    forall r :: 0 <= r < |rows| ==> RowOk(rows, r)
  }

  /** Every cell before position `c` of row `r`, in document order, can be read. */
  predicate OkBefore(rows: seq<seq<CellSpec>>, r: nat, c: nat)
    requires r < |rows| && c <= |rows[r]|
  {
    (forall r' :: 0 <= r' < r ==> RowOk(rows, r'))
    && (forall c' :: 0 <= c' < c ==> ReadCell(rows[r][c'], r, c').Ok?)
  }

  /** The first `c` cells of row `r`. */
  function RowCells(rows: seq<seq<CellSpec>>, r: nat, c: nat): (cs: seq<Cell>)
    requires r < |rows| && c <= |rows[r]|
    requires forall c' :: 0 <= c' < c ==> ReadCell(rows[r][c'], r, c').Ok?
    ensures |cs| == c
    ensures forall c' :: 0 <= c' < c ==> cs[c'] == ReadCell(rows[r][c'], r, c').value
  {
    if c == 0 then [] else RowCells(rows, r, c - 1) + [ReadCell(rows[r][c - 1], r, c - 1).value]
  }

  /** The cells of the first `n` rows, in document order. */
  function CellsUpTo(rows: seq<seq<CellSpec>>, n: nat): (cs: seq<Cell>)
    requires n <= |rows|
    requires forall r :: 0 <= r < n ==> RowOk(rows, r)
    ensures |cs| == Offset(rows, n)
  {
    if n == 0 then []
    else
      assert RowOk(rows, n - 1);
      CellsUpTo(rows, n - 1) + RowCells(rows, n - 1, |rows[n - 1]|)
  }

  /** How many cells the first `n` rows hold. */
  function Offset(rows: seq<seq<CellSpec>>, n: nat): nat
    requires n <= |rows|
  {
    if n == 0 then 0 else Offset(rows, n - 1) + |rows[n - 1]|
  }

  /** The length of the longest of the first `n` rows (0 when there is none). */
  function MaxLen(rows: seq<seq<CellSpec>>, n: nat): (m: nat)
    requires n <= |rows|
    ensures forall r :: 0 <= r < n ==> |rows[r]| <= m
    ensures m == 0 || exists r :: 0 <= r < n && |rows[r]| == m
  {
    if n == 0 then 0 else Max(MaxLen(rows, n - 1), |rows[n - 1]|)
  }

  lemma {:induction false} OffsetMono(rows: seq<seq<CellSpec>>, a: nat, b: nat)
    requires a <= b <= |rows|
    ensures Offset(rows, a) + (if a < b then |rows[a]| else 0) <= Offset(rows, b)
    decreases b - a
  {
    if a < b {
      OffsetMono(rows, a + 1, b);
    }
  }

  /** The cell at position `c` of row `r` sits at index `Offset(rows, r) + c`, made from that tag. */
  lemma {:induction false} CellAt(rows: seq<seq<CellSpec>>, n: nat, r: nat, c: nat)
    requires n <= |rows| && forall r' :: 0 <= r' < n ==> RowOk(rows, r')
    requires r < n && c < |rows[r]|
    ensures Offset(rows, r) + c < |CellsUpTo(rows, n)|
    ensures ReadCell(rows[r][c], r, c).Ok?
    ensures CellsUpTo(rows, n)[Offset(rows, r) + c] == ReadCell(rows[r][c], r, c).value
    decreases n
  {
    assert RowOk(rows, r) && RowOk(rows, n - 1);
    var head := CellsUpTo(rows, n - 1);
    var last := RowCells(rows, n - 1, |rows[n - 1]|);
    assert CellsUpTo(rows, n) == head + last;
    if r < n - 1 {
      CellAt(rows, n - 1, r, c);
      assert CellsUpTo(rows, n)[Offset(rows, r) + c] == head[Offset(rows, r) + c];
    } else {
      assert |head| == Offset(rows, r);
      assert CellsUpTo(rows, n)[Offset(rows, r) + c] == last[c];
    }
  }

  /** Each cell records its own row and its position within that row. */
  lemma {:induction false} CellsUpToShape(rows: seq<seq<CellSpec>>, n: nat, k: nat)
    requires n <= |rows| && forall r' :: 0 <= r' < n ==> RowOk(rows, r')
    requires k < |CellsUpTo(rows, n)|
    ensures var cell := CellsUpTo(rows, n)[k];
      cell.row < n && cell.col < |rows[cell.row]| && k == Offset(rows, cell.row) + cell.col
    decreases n
  {
    assert RowOk(rows, n - 1);
    var head := CellsUpTo(rows, n - 1);
    var last := RowCells(rows, n - 1, |rows[n - 1]|);
    assert CellsUpTo(rows, n) == head + last;
    if k < |head| {
      CellsUpToShape(rows, n - 1, k);
      assert CellsUpTo(rows, n)[k] == head[k];
    } else {
      var c := k - |head|;
      assert CellsUpTo(rows, n)[k] == last[c] == ReadCell(rows[n - 1][c], n - 1, c).value;
    }
  }

  /** Taking one more cell into account adds exactly its column and its row to those in use. */
  lemma UsedStep(cells: seq<Cell>, k: nat)
    requires k < |cells|
    ensures forall c: nat :: ColUsed(cells[..k + 1], c) <==> ColUsed(cells[..k], c) || cells[k].col == c
    ensures forall r: nat :: RowUsed(cells[..k + 1], r) <==> RowUsed(cells[..k], r) || cells[k].row == r
  {
    assert forall i :: 0 <= i < k ==> cells[..k + 1][i] == cells[..k][i];
    assert cells[..k + 1][k] == cells[k];
  }

  /**
   * The cells of the whole table. Every cell lies inside the grid, below the
   * row count and the length of the longest row, and carries no CSS width.
   */
  function Grid(rows: seq<seq<CellSpec>>): (cs: seq<Cell>)
    requires WellFormed(rows)
    ensures forall k :: 0 <= k < |cs| ==> cs[k].row < |rows| && cs[k].col < MaxLen(rows, |rows|) && cs[k].cssWidth == ""
  {
    var cs := CellsUpTo(rows, |rows|);
    assert forall k :: 0 <= k < |cs| ==> cs[k].row < |rows| && cs[k].col < MaxLen(rows, |rows|) && cs[k].cssWidth == "" by {
      forall k | 0 <= k < |cs|
        ensures cs[k].row < |rows| && cs[k].col < MaxLen(rows, |rows|) && cs[k].cssWidth == ""
      {
        CellsUpToShape(rows, |rows|, k);
        CellAt(rows, |rows|, cs[k].row, cs[k].col);
      }
    }
    cs
  }

  /** The cell at row `r`, position `c`, is the first one in document order that cannot be read, and raises `e`. */
  predicate FirstFault(rows: seq<seq<CellSpec>>, r: nat, c: nat, e: ParseError) {
    r < |rows| && c < |rows[r]| && OkBefore(rows, r, c) && ReadCell(rows[r][c], r, c) == Err(e)
  }

  /** The first faulty cell, and so the exception raised, is determined by the table. */
  lemma FirstFaultUnique(rows: seq<seq<CellSpec>>, r1: nat, c1: nat, e1: ParseError, r2: nat, c2: nat, e2: ParseError)
    requires FirstFault(rows, r1, c1, e1) && FirstFault(rows, r2, c2, e2)
    ensures r1 == r2 && c1 == c2 && e1 == e2
  {
    if r2 < r1 || (r2 == r1 && c2 < c1) {
      BeforeFaultOk(rows, r1, c1, r2, c2);
    } else if r1 < r2 || (r1 == r2 && c1 < c2) {
      BeforeFaultOk(rows, r2, c2, r1, c1);
    }
  }

  /** Every cell before a first fault, in document order, can be read. */
  lemma BeforeFaultOk(rows: seq<seq<CellSpec>>, r: nat, c: nat, r': nat, c': nat)
    requires r < |rows| && c <= |rows[r]| && OkBefore(rows, r, c)
    requires r' < |rows| && c' < |rows[r']| && (r' < r || (r' == r && c' < c))
    ensures ReadCell(rows[r'][c'], r', c').Ok?
  {
    if r' < r {
      assert RowOk(rows, r');
    }
  }

  /** A table some cell of which cannot be read has a first faulty cell. */
  lemma FirstFaultExists(rows: seq<seq<CellSpec>>)
    requires !WellFormed(rows)
    ensures exists r, c, e :: FirstFault(rows, r, c, e)
  {
    var r :| 0 <= r < |rows| && !RowOk(rows, r) && forall r' :: 0 <= r' < r ==> RowOk(rows, r') by {
      FirstBadRow(rows, |rows|);
    }
    var c :| 0 <= c < |rows[r]| && ReadCell(rows[r][c], r, c).Err? && forall c' :: 0 <= c' < c ==> ReadCell(rows[r][c'], r, c').Ok? by {
      FirstBadCell(rows, r, |rows[r]|);
    }
    assert FirstFault(rows, r, c, ReadCell(rows[r][c], r, c).error);
  }

  lemma {:induction false} FirstBadRow(rows: seq<seq<CellSpec>>, n: nat)
    requires n <= |rows| && exists r :: 0 <= r < n && !RowOk(rows, r)
    ensures exists r :: 0 <= r < |rows| && !RowOk(rows, r) && (forall r' :: 0 <= r' < r ==> RowOk(rows, r'))
    decreases n
  {
    if exists r :: 0 <= r < n - 1 && !RowOk(rows, r) {
      FirstBadRow(rows, n - 1);
    } else {
      assert !RowOk(rows, n - 1);
    }
  }

  lemma {:induction false} FirstBadCell(rows: seq<seq<CellSpec>>, r: nat, n: nat)
    requires r < |rows| && n <= |rows[r]| && exists c :: 0 <= c < n && ReadCell(rows[r][c], r, c).Err?
    ensures exists c :: 0 <= c < |rows[r]| && ReadCell(rows[r][c], r, c).Err?
                        && (forall c' :: 0 <= c' < c ==> ReadCell(rows[r][c'], r, c').Ok?)
    decreases n
  {
    if exists c :: 0 <= c < n - 1 && ReadCell(rows[r][c], r, c).Err? {
      FirstBadCell(rows, r, n - 1);
    } else {
      assert ReadCell(rows[r][n - 1], r, n - 1).Err?;
    }
  }

  /** Python's `[v] * n`. */
  function Repeat(n: nat, v: int): (r: seq<int>)
    ensures |r| == n && forall k :: 0 <= k < n ==> r[k] == v
  {
    if n == 0 then [] else Repeat(n - 1, v) + [v]
  }

  /** Some cell sits in column `c`. */
  ghost predicate ColUsed(cells: seq<Cell>, c: nat) {
    exists k :: 0 <= k < |cells| && cells[k].col == c
  }

  /** Some cell sits in row `r`. */
  ghost predicate RowUsed(cells: seq<Cell>, r: nat) {
    exists k :: 0 <= k < |cells| && cells[k].row == r
  }

  /**
   * Once every row is read, the columns in use are exactly those below the
   * length of the longest row, and the rows in use are the non-empty ones.
   */
  lemma GridUse(rows: seq<seq<CellSpec>>)
    requires WellFormed(rows)
    ensures forall c: nat :: ColUsed(Grid(rows), c) <==> c < MaxLen(rows, |rows|)
    ensures forall r :: 0 <= r < |rows| ==> (RowUsed(Grid(rows), r) <==> |rows[r]| > 0)
  {
    var cells := Grid(rows);
    var m := MaxLen(rows, |rows|);
    forall c: nat ensures ColUsed(cells, c) <==> c < m {
      if ColUsed(cells, c) {
        var k :| 0 <= k < |cells| && cells[k].col == c;
        CellsUpToShape(rows, |rows|, k);
      }
      if c < m {
        var r :| 0 <= r < |rows| && |rows[r]| == m;
        CellAt(rows, |rows|, r, c);
        assert cells[Offset(rows, r) + c].col == c;
      }
    }
    forall r | 0 <= r < |rows| ensures RowUsed(cells, r) <==> |rows[r]| > 0 {
      if RowUsed(cells, r) {
        var k :| 0 <= k < |cells| && cells[k].row == r;
        CellsUpToShape(rows, |rows|, k);
      }
      if |rows[r]| > 0 {
        CellAt(rows, |rows|, r, 0);
        assert cells[Offset(rows, r)].row == r;
      }
    }
  }

  /** The table has no cell at all exactly when its longest row is empty. */
  lemma EmptyIffNoCells(rows: seq<seq<CellSpec>>)
    requires WellFormed(rows)
    ensures MaxLen(rows, |rows|) == 0 <==> |Grid(rows)| == 0
  {
    var cells := Grid(rows);
    if |cells| > 0 {
      CellsUpToShape(rows, |rows|, 0);
    }
    if MaxLen(rows, |rows|) > 0 {
      var r :| 0 <= r < |rows| && |rows[r]| == MaxLen(rows, |rows|);
      CellAt(rows, |rows|, r, 0);
    }
  }

  // ----- row heights -----------------------------------------------------------

  /** The height `getsize_multiline` measures for a cell's content. */
  function Measured(face: Reflow.Face, cell: Cell): int {
    face.multiline(cell.content).1
  }

  /** `h` raised to the measured height of every cell of row `r` among the first `n` cells, taken in order. */
  function Fit(h: int, cells: seq<Cell>, r: nat, face: Reflow.Face, n: nat): int
    requires n <= |cells|
  {
    if n == 0 then h
    else
      var h' := Fit(h, cells, r, face, n - 1);
      if cells[n - 1].row == r then Max(h', Measured(face, cells[n - 1])) else h'
  }

  /**
   * A fitted row is at least as high as it started and as each of its cells
   * measures, and is one of these heights; a row without cells keeps its height.
   */
  lemma {:induction false} FitBounds(h: int, cells: seq<Cell>, r: nat, face: Reflow.Face, n: nat)
    requires n <= |cells|
    ensures Fit(h, cells, r, face, n) >= h
    ensures forall k :: 0 <= k < n && cells[k].row == r ==> Fit(h, cells, r, face, n) >= Measured(face, cells[k])
    ensures Fit(h, cells, r, face, n) == h
      || exists k :: 0 <= k < n && cells[k].row == r && Fit(h, cells, r, face, n) == Measured(face, cells[k])
    ensures (forall k :: 0 <= k < n ==> cells[k].row != r) ==> Fit(h, cells, r, face, n) == h
  {
    if n > 0 {
      FitBounds(h, cells, r, face, n - 1);
    }
  }

  /** The extent of a cell spanning `span` columns (or rows) of `size` pixels: the width or height it is given. */
  function Spanned(size: int, span: int): int
    decreases if span < 0 then 1 - span else span
  {
    if span < 0 then -Spanned(size, -span)
    else if span == 0 then 0
    else Spanned(size, span - 1) + size
  }

  /** The extent is the product of size and span, as Python's `*` gives it. */
  lemma {:induction false} SpannedIsProduct(size: int, span: int)
    ensures Spanned(size, span) == size * span
    decreases if span < 0 then 1 - span else span
  {
    if span < 0 {
      SpannedIsProduct(size, -span);
    } else if span > 0 {
      SpannedIsProduct(size, span - 1);
    }
  }

  /** A cell with its content reformatted for the width of the columns it spans. */
  function FormatCell(cell: Cell, colWidths: seq<int>, face: Reflow.Face, medianCharWidth: int): (f: Cell)
    requires medianCharWidth >= 1 && cell.col < |colWidths|
  {
    cell.(content := Reflow.FormatField(cell.content, Spanned(colWidths[cell.col], cell.colspan), face, medianCharWidth))
  }

  /** The first `n` cells with their contents reformatted, as the second pass over the cells leaves them. */
  function Formatted(cells: seq<Cell>, colWidths: seq<int>, face: Reflow.Face, medianCharWidth: int, n: nat): (fs: seq<Cell>)
    requires n <= |cells| && medianCharWidth >= 1
    requires forall k :: 0 <= k < |cells| ==> cells[k].col < |colWidths|
    ensures |fs| == n
  {
    if n == 0 then []
    else Formatted(cells, colWidths, face, medianCharWidth, n - 1) + [FormatCell(cells[n - 1], colWidths, face, medianCharWidth)]
  }

  /** Each formatted cell is the original cell, at the same place, with its content reformatted. */
  lemma {:induction false} FormattedAt(cells: seq<Cell>, colWidths: seq<int>, face: Reflow.Face, medianCharWidth: int,
                                       n: nat, k: nat)
    requires k < n <= |cells| && medianCharWidth >= 1
    requires forall i :: 0 <= i < |cells| ==> cells[i].col < |colWidths|
    ensures Formatted(cells, colWidths, face, medianCharWidth, n)[k] == FormatCell(cells[k], colWidths, face, medianCharWidth)
    ensures Formatted(cells, colWidths, face, medianCharWidth, n)[k].row == cells[k].row
    ensures Formatted(cells, colWidths, face, medianCharWidth, n)[k].col == cells[k].col
    ensures Formatted(cells, colWidths, face, medianCharWidth, n)[k].colspan == cells[k].colspan
    decreases n
  {
    if k < n - 1 {
      FormattedAt(cells, colWidths, face, medianCharWidth, n - 1, k);
    }
  }

  // ----- the overflow resize -----------------------------------------------------

  /** The table and image heights after the rows are laid out (`(table_height, img_height)`). */
  function Resized(tableHeight: int, imgHeight: int, captionBoxHeight: int, footerBoxHeight: int,
                   drawFooter: bool, rowsHeight: int): (int, int)
  {
    if rowsHeight > tableHeight then
      (rowsHeight, captionBoxHeight + rowsHeight + (if drawFooter then footerBoxHeight else 50))
    else (tableHeight, imgHeight)
  }

  /**
   * With the table area set up as `GetImage` does, the rows always fit the
   * table area after the resize, and the image never shrinks; it grows
   * exactly when the rows overflow.
   */
  lemma ResizeGrows(tableHeight: int, imgHeight: int, captionBoxHeight: int, footerBoxHeight: int,
                    drawFooter: bool, rowsHeight: int)
    requires tableHeight == imgHeight - captionBoxHeight - (if drawFooter then footerBoxHeight else 0)
    ensures var (t, i) := Resized(tableHeight, imgHeight, captionBoxHeight, footerBoxHeight, drawFooter, rowsHeight);
      rowsHeight <= t && t >= tableHeight && i >= imgHeight
      && (i > imgHeight <==> rowsHeight > tableHeight)
      && (rowsHeight <= tableHeight ==> t == tableHeight && i == imgHeight)
  {
  }

  // ----- the cell rectangles -------------------------------------------------------

  datatype Rect = Rect(x0: int, y0: int, x1: int, y1: int)

  /** Row bands in order: the band of row `r` ends where the band of row `r + 1` starts. */
  lemma SumPrefixStep(xs: seq<int>, r: nat)
    requires r < |xs|
    ensures Sum(xs[..r + 1]) == Sum(xs[..r]) + xs[r]
  {
    assert xs[..r + 1][..r] == xs[..r];
  }

  /** With non-negative row heights, a later row never starts above an earlier one. */
  lemma {:induction false} SumPrefixMono(xs: seq<int>, a: nat, b: nat)
    requires a <= b <= |xs|
    requires forall k :: 0 <= k < |xs| ==> xs[k] >= 0
    ensures Sum(xs[..a]) <= Sum(xs[..b])
    decreases b - a
  {
    if a < b {
      SumPrefixStep(xs, b - 1);
      SumPrefixMono(xs, a, b - 1);
    }
  }
}
