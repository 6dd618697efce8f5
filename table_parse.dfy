/**
 * The grid `TableToIMG._ParseHTML` builds from a table already read into
 * rows: the specification `Parsed` of the state it leaves (or the exception
 * it raises), the loops that compute it over plain values, and what is
 * proved about that state.
 */
module TableParse {
  import opened Results
  import opened Numbers
  import opened TableGrid
  import CssUnits
  import Reflow

  /** Every cell lies inside the grid the widths and heights describe. */
  predicate InGrid(cells: seq<Cell>, colWidths: seq<int>, rowHeights: seq<int>) {
    forall k :: 0 <= k < |cells| ==> cells[k].col < |colWidths| && cells[k].row < |rowHeights|
  }

  /**
   * The first loop of `_ParseHTML`: read every cell in document order,
   * numbering columns within each row, and count the columns of the longest
   * row. The first cell that cannot be read stops the loop with its exception.
   */
  method CollectCells(rows: seq<seq<CellSpec>>) returns (err: Option<ParseError>, cells: seq<Cell>, colCount: nat)
    ensures err.None? <==> WellFormed(rows)
    ensures err.Some? ==> exists r, c :: FirstFault(rows, r, c, err.value)
    ensures err.None? ==> cells == Grid(rows) && colCount == MaxLen(rows, |rows|)
  {
    cells, colCount := [], 0;
    var i := 0;
    var j: nat := 0;
    var lastI: nat := 0;
    while i < |rows|
      invariant 0 <= i <= |rows|
      invariant forall r :: 0 <= r < i ==> RowOk(rows, r)
      invariant cells == CellsUpTo(rows, i)
      invariant Max(colCount, j) == MaxLen(rows, i)
      invariant (i == 0 && j == 0 && lastI == 0) || lastI < i
    {
      err, cells, colCount, j, lastI := CollectRow(rows, i, cells, colCount, j, lastI);
      if err.Some? {
        ghost var c :| FirstFault(rows, i, c, err.value);
        return;
      }
      i := i + 1;
    }
    if j > colCount {
      colCount := j;
    }
    return None, cells, colCount;
  }

  /**
   * One pass of the inner loop of `CollectCells`: read the cells of row
   * `i`, carrying the column counter `j` and the row of the last cell read.
   */
  method CollectRow(rows: seq<seq<CellSpec>>, i: nat, cells0: seq<Cell>, colCount0: nat, j0: nat, lastI0: nat)
    returns (err: Option<ParseError>, cells: seq<Cell>, colCount: nat, j: nat, lastI: nat)
    requires i < |rows| && (forall r :: 0 <= r < i ==> RowOk(rows, r)) && cells0 == CellsUpTo(rows, i)
    requires Max(colCount0, j0) == MaxLen(rows, i) && ((i == 0 && j0 == 0 && lastI0 == 0) || lastI0 < i)
    ensures err.Some? ==> !RowOk(rows, i) && exists c :: FirstFault(rows, i, c, err.value)
    ensures err.None? ==> RowOk(rows, i) && cells == CellsUpTo(rows, i + 1)
    ensures err.None? ==> Max(colCount, j) == MaxLen(rows, i + 1) && lastI < i + 1
  {
    cells, colCount, j, lastI := cells0, colCount0, j0, lastI0;
    var c := 0;
    while c < |rows[i]|
      invariant 0 <= c <= |rows[i]|
      invariant forall c' :: 0 <= c' < c ==> ReadCell(rows[i][c'], i, c').Ok?
      invariant cells == CellsUpTo(rows, i) + RowCells(rows, i, c)
      invariant c == 0 ==> j == j0 && lastI == lastI0 && Max(colCount, j) == MaxLen(rows, i)
      invariant c > 0 ==> lastI == i && j == c && colCount == MaxLen(rows, i)
    {
      if i != lastI {
        colCount := Max(colCount, j);
        j := 0;
      }
      assert j == c;
      var read := ReadCell(rows[i][c], i, j);
      if read.Err? {
        assert FirstFault(rows, i, c, read.error);
        return Some(read.error), cells, colCount, j, lastI;
      }
      assert read == ReadCell(rows[i][c], i, c) && read.Ok?;
      assert forall c' :: 0 <= c' < c + 1 ==> ReadCell(rows[i][c'], i, c').Ok?;
      assert RowCells(rows, i, c + 1) == RowCells(rows, i, c) + [read.value];
      cells := cells + [read.value];
      j := j + 1;
      lastI := i;
      c := c + 1;
    }
    assert RowOk(rows, i);
    assert forall r :: 0 <= r < i + 1 ==> RowOk(rows, r);
    assert CellsUpTo(rows, i + 1) == CellsUpTo(rows, i) + RowCells(rows, i, |rows[i]|);
    err := None;
  }

  /**
   * The second loop of `_ParseHTML`, with the lists it fills: every column a
   * cell starts in gets the standard width (the cells' CSS width is always
   * empty, so `_ConvertToPx` gives 0), every row a cell starts in gets the
   * height of one line of text; columns and rows without cells stay at 0.
   */
  method SizeCells(cells: seq<Cell>, colCount: nat, rowCount: nat, ctx: CssUnits.Context)
    returns (colWidths: seq<int>, rowHeights: seq<int>)
    requires colCount > 0
    requires forall k :: 0 <= k < |cells| ==> cells[k].col < colCount && cells[k].row < rowCount && cells[k].cssWidth == ""
    ensures |colWidths| == colCount && |rowHeights| == rowCount
    ensures forall c :: 0 <= c < colCount ==>
      colWidths[c] == if ColUsed(cells, c) then Max(0, TruncDiv(ctx.tableWidth, colCount)) else 0
    ensures forall r :: 0 <= r < rowCount ==>
      rowHeights[r] == if RowUsed(cells, r) then Max(0, TruncDiv(ctx.fontSize * 13, 10)) else 0
  {
    colWidths := Repeat(colCount, 0);
    rowHeights := Repeat(rowCount, 0);
    var std := TruncDiv(ctx.tableWidth, colCount);
    var k := 0;
    while k < |cells|
      invariant 0 <= k <= |cells| && |colWidths| == colCount && |rowHeights| == rowCount
      invariant forall c :: 0 <= c < colCount ==>
        colWidths[c] == if ColUsed(cells[..k], c) then Max(0, std) else 0
      invariant forall r :: 0 <= r < rowCount ==>
        rowHeights[r] == if RowUsed(cells[..k], r) then Max(0, TruncDiv(ctx.fontSize * 13, 10)) else 0
    {
      var cell := cells[k];
      CssUnits.ConvertEmpty(ctx);
      var width := CssUnits.ConvertToPx(cell.cssWidth, ctx).value;
      if width == 0 {
        width := std;
      }
      var height := TruncDiv(ctx.fontSize * 13, 10);
      UsedStep(cells, k);
      colWidths := colWidths[cell.col := Max(colWidths[cell.col], width)];
      rowHeights := rowHeights[cell.row := Max(rowHeights[cell.row], height)];
      k := k + 1;
    }
    assert cells[..k] == cells;
  }

  /** The second loop of `_ParseHTML` on a whole table: every column gets the standard width, every non-empty row one line. */
  method SizeGrid(rows: seq<seq<CellSpec>>, grid: seq<Cell>, ctx: CssUnits.Context)
    returns (colWidths: seq<int>, rowHeights: seq<int>)
    requires WellFormed(rows) && MaxLen(rows, |rows|) > 0 && grid == Grid(rows)
    ensures colWidths == Repeat(MaxLen(rows, |rows|), Max(0, TruncDiv(ctx.tableWidth, MaxLen(rows, |rows|))))
    ensures rowHeights == LineHeights(rows, Max(0, TruncDiv(ctx.fontSize * 13, 10)), |rows|)
  {
    var m := MaxLen(rows, |rows|);
    var h := Max(0, TruncDiv(ctx.fontSize * 13, 10));
    GridUse(rows);
    colWidths, rowHeights := SizeCells(grid, m, |rows|, ctx);
    forall c | 0 <= c < m
      ensures ColUsed(grid, c)
    {
    }
    forall r | 0 <= r < |rows|
      ensures rowHeights[r] == LineHeights(rows, h, |rows|)[r]
    {
      LineHeightsAt(rows, h, |rows|, r);
    }
  }

  /**
   * The third loop of `_ParseHTML`: reformat each cell's content for the
   * width of the columns it spans and raise its row to the content's
   * measured height.
   */
  method FitCells(cells: seq<Cell>, colWidths: seq<int>, rowHeights: seq<int>, face: Reflow.Face, medianCharWidth: int)
    returns (fitted: seq<Cell>, heights: seq<int>)
    requires medianCharWidth >= 1 && InGrid(cells, colWidths, rowHeights)
    ensures fitted == Formatted(cells, colWidths, face, medianCharWidth, |cells|)
    ensures InGrid(fitted, colWidths, rowHeights)
    ensures |heights| == |rowHeights|
    ensures heights == FitRows(rowHeights, fitted, face, |rowHeights|)
  {
    ghost var target := Formatted(cells, colWidths, face, medianCharWidth, |cells|);
    fitted := cells;
    heights := rowHeights;
    var k := 0;
    while k < |cells|
      invariant 0 <= k <= |cells| && |fitted| == |cells| && |heights| == |rowHeights|
      invariant InGrid(fitted, colWidths, rowHeights)
      invariant forall i :: 0 <= i < k ==> fitted[i] == target[i]
      invariant forall i :: k <= i < |cells| ==> fitted[i] == cells[i]
      invariant forall r :: 0 <= r < |rowHeights| ==> heights[r] == Fit(rowHeights[r], target, r, face, k)
    {
      var cell := fitted[k];
      var content := Reflow.FormatField(cell.content, Spanned(colWidths[cell.col], cell.colspan), face, medianCharWidth);
      FormattedAt(cells, colWidths, face, medianCharWidth, |cells|, k);
      fitted := fitted[k := cell.(content := content)];
      heights := heights[cell.row := Max(heights[cell.row], face.multiline(content).1)];
      k := k + 1;
    }
    assert fitted == target;
    forall r | 0 <= r < |rowHeights|
      ensures heights[r] == FitRows(rowHeights, fitted, face, |rowHeights|)[r]
    {
      FitRowsAt(rowHeights, fitted, face, |rowHeights|, r);
    }
  }

  /** The end of `_ParseHTML`: the table area, and the image with it, grow when the rows do not fit. */
  method GrowTable(tableHeight: int, imgHeight: int, captionBoxHeight: int, footerBoxHeight: int, drawFooter: bool,
                   rowHeights: seq<int>) returns (th: int, ih: int)
    ensures (th, ih) == Resized(tableHeight, imgHeight, captionBoxHeight, footerBoxHeight, drawFooter, Sum(rowHeights))
  {
    var total := Sum(rowHeights);
    th, ih := tableHeight, imgHeight;
    if total > th {
      th := total;
      ih := captionBoxHeight + th + (if drawFooter then footerBoxHeight else 50);
    }
  }

  // ----- the specification ---------------------------------------------------------

  /** The renderer settings `_ParseHTML` reads. */
  datatype Setup = Setup(
    caption: string,
    fontSize: int,
    face: Reflow.Face,
    medianCharWidth: int,
    captionBoxHeight: int,
    tableWidth: int,
    tableHeight: int,
    footerBoxHeight: int,
    imgHeight: int,
    drawFooter: bool)

  /** The renderer fields `_ParseHTML` sets. */
  datatype GridState = GridState(
    caption: string,
    rowCount: nat,
    colCount: nat,
    colWidths: seq<int>,
    rowHeights: seq<int>,
    cells: seq<Cell>,
    tableHeight: int,
    imgHeight: int)

  /** `[0] * total_row_count` after the second loop: one line of height `h` for each of the first `n` rows that has cells. */
  function LineHeights(rows: seq<seq<CellSpec>>, h: int, n: nat): (hs: seq<int>)
    requires n <= |rows|
    ensures |hs| == n
  {
    if n == 0 then [] else LineHeights(rows, h, n - 1) + [if |rows[n - 1]| > 0 then h else 0]
  }

  lemma {:induction false} LineHeightsAt(rows: seq<seq<CellSpec>>, h: int, n: nat, r: nat)
    requires r < n <= |rows|
    ensures LineHeights(rows, h, n)[r] == if |rows[r]| > 0 then h else 0
    decreases n
  {
    if r < n - 1 {
      LineHeightsAt(rows, h, n - 1, r);
    }
  }

  /** The first `n` rows, each raised from its height in `h0` to fit the cells in it. */
  function FitRows(h0: seq<int>, cells: seq<Cell>, face: Reflow.Face, n: nat): (hs: seq<int>)
    requires n <= |h0|
    ensures |hs| == n
  {
    if n == 0 then [] else FitRows(h0, cells, face, n - 1) + [Fit(h0[n - 1], cells, n - 1, face, |cells|)]
  }

  lemma {:induction false} FitRowsAt(h0: seq<int>, cells: seq<Cell>, face: Reflow.Face, n: nat, r: nat)
    requires r < n <= |h0|
    ensures FitRows(h0, cells, face, n)[r] == Fit(h0[r], cells, r, face, |cells|)
    decreases n
  {
    if r < n - 1 {
      FitRowsAt(h0, cells, face, n - 1, r);
    }
  }

  /** The exception of the first cell, in document order, that cannot be read. */
  ghost function FaultOf(rows: seq<seq<CellSpec>>): ParseError
    requires !WellFormed(rows)
  {
    FirstFaultExists(rows);
    var r, c, e :| FirstFault(rows, r, c, e); e
  }

  /**
   * What `_ParseHTML` does with the rows `rows` and the caption
   * `htmlCaption` (when the table has one) under the settings `s`: the
   * exception it raises, or the fields it leaves.
   */
  ghost function Parsed(rows: seq<seq<CellSpec>>, htmlCaption: Option<string>, s: Setup): Result<GridState, ParseError>
    requires s.medianCharWidth >= 1
  {
    if !WellFormed(rows) then Err(FaultOf(rows))
    else if MaxLen(rows, |rows|) == 0 then Err(EmptyTable)
    else
      var m := MaxLen(rows, |rows|);
      var grid := Grid(rows);
      var widths := Repeat(m, Max(0, TruncDiv(s.tableWidth, m)));
      var cells := Formatted(grid, widths, s.face, s.medianCharWidth, |grid|);
      var heights := FitRows(LineHeights(rows, Max(0, TruncDiv(s.fontSize * 13, 10)), |rows|), cells, s.face, |rows|);
      var resized := Resized(s.tableHeight, s.imgHeight, s.captionBoxHeight, s.footerBoxHeight, s.drawFooter, Sum(heights));
      Ok(GridState(if htmlCaption.Some? then htmlCaption.value else s.caption,
                   |rows|, m, widths, heights, cells, resized.0, resized.1))
  }

  /** The three loops of `_ParseHTML` and the resize after them, on values. */
  method ParseGrid(rows: seq<seq<CellSpec>>, htmlCaption: Option<string>, s: Setup) returns (res: Result<GridState, ParseError>)
    requires s.medianCharWidth >= 1
    ensures res == Parsed(rows, htmlCaption, s)
  {
    var err, grid, colCount := CollectCells(rows);
    if err.Some? {
      ghost var r, c :| FirstFault(rows, r, c, err.value);
      FirstFaultExists(rows);
      ghost var r', c', e' :| FirstFault(rows, r', c', e') && e' == FaultOf(rows);
      FirstFaultUnique(rows, r, c, err.value, r', c', e');
      return Err(err.value);
    }
    if colCount == 0 {
      return Err(EmptyTable);
    }
    var widths, heights := SizeGrid(rows, grid, CssUnits.Context(s.tableWidth, s.tableHeight, s.fontSize));
    var fitted, fitHeights := FitCells(grid, widths, heights, s.face, s.medianCharWidth);
    var th, ih := GrowTable(s.tableHeight, s.imgHeight, s.captionBoxHeight, s.footerBoxHeight, s.drawFooter, fitHeights);
    var cap := if htmlCaption.Some? then htmlCaption.value else s.caption;
    return Ok(GridState(cap, |rows|, colCount, widths, fitHeights, fitted, th, ih));
  }

  /** The table is drawn exactly when every cell can be read and some row has a cell; otherwise the exception says why. */
  lemma ParsedOutcome(rows: seq<seq<CellSpec>>, htmlCaption: Option<string>, s: Setup)
    requires s.medianCharWidth >= 1
    ensures Parsed(rows, htmlCaption, s).Ok? <==> WellFormed(rows) && MaxLen(rows, |rows|) > 0
    ensures !WellFormed(rows) ==> exists r, c :: FirstFault(rows, r, c, Parsed(rows, htmlCaption, s).error)
    ensures WellFormed(rows) && MaxLen(rows, |rows|) == 0 ==> Parsed(rows, htmlCaption, s).error == EmptyTable
  {
    if !WellFormed(rows) {
      FirstFaultExists(rows);
    }
  }

  /**
   * The grid of a parsed table: one width per column, all of them the
   * standard width, one height per row, every cell inside the grid, and the
   * caption from the table when it has one.
   */
  lemma ParsedShape(rows: seq<seq<CellSpec>>, htmlCaption: Option<string>, s: Setup)
    requires s.medianCharWidth >= 1 && Parsed(rows, htmlCaption, s).Ok?
    ensures var g := Parsed(rows, htmlCaption, s).value;
      g.rowCount == |rows| && g.colCount == MaxLen(rows, |rows|) > 0
      && |g.colWidths| == g.colCount && |g.rowHeights| == g.rowCount && |g.cells| == |Grid(rows)|
      && (forall c :: 0 <= c < g.colCount ==> g.colWidths[c] == Max(0, TruncDiv(s.tableWidth, g.colCount)))
      && (forall k :: 0 <= k < |g.cells| ==> g.cells[k].row < g.rowCount && g.cells[k].col < g.colCount)
      && g.caption == if htmlCaption.Some? then htmlCaption.value else s.caption
  {
    var g := Parsed(rows, htmlCaption, s).value;
    var grid := Grid(rows);
    forall k | 0 <= k < |g.cells|
      ensures g.cells[k].row < g.rowCount && g.cells[k].col < g.colCount
    {
      FormattedAt(grid, g.colWidths, s.face, s.medianCharWidth, |grid|, k);
    }
  }

  /**
   * Each cell of a parsed table is the cell read from the rows, in the same
   * order and place, with its text cleaned and, when it is too wide, wrapped
   * to the width of the columns it spans.
   */
  lemma ParsedCells(rows: seq<seq<CellSpec>>, htmlCaption: Option<string>, s: Setup, k: nat)
    requires s.medianCharWidth >= 1 && Parsed(rows, htmlCaption, s).Ok?
    requires k < |Grid(rows)|
    ensures var g := Parsed(rows, htmlCaption, s).value; var cell := Grid(rows)[k];
      k < |g.cells|
      && g.cells[k] == cell.(content := Reflow.FormatField(cell.content, Spanned(g.colWidths[cell.col], cell.colspan),
                                                           s.face, s.medianCharWidth))
  {
    var g := Parsed(rows, htmlCaption, s).value;
    FormattedAt(Grid(rows), g.colWidths, s.face, s.medianCharWidth, |Grid(rows)|, k);
  }

  /**
   * The height of row `r` of a parsed table: at least one line when the row
   * has cells and nothing when it has none, at least the height of every
   * cell in it, and no more than the larger of the two.
   */
  lemma ParsedHeights(rows: seq<seq<CellSpec>>, htmlCaption: Option<string>, s: Setup, r: nat)
    requires s.medianCharWidth >= 1 && Parsed(rows, htmlCaption, s).Ok?
    requires r < |rows|
    ensures var g := Parsed(rows, htmlCaption, s).value;
      var line := if |rows[r]| > 0 then Max(0, TruncDiv(s.fontSize * 13, 10)) else 0;
      r < |g.rowHeights|
      && g.rowHeights[r] >= line
      && (forall k :: 0 <= k < |g.cells| && g.cells[k].row == r ==> g.rowHeights[r] >= Measured(s.face, g.cells[k]))
      && (g.rowHeights[r] == line
          || exists k :: 0 <= k < |g.cells| && g.cells[k].row == r && g.rowHeights[r] == Measured(s.face, g.cells[k]))
      && (|rows[r]| == 0 ==> g.rowHeights[r] == 0)
  {
    var g := Parsed(rows, htmlCaption, s).value;
    var grid := Grid(rows);
    var line := Max(0, TruncDiv(s.fontSize * 13, 10));
    var h0 := LineHeights(rows, line, |rows|);
    LineHeightsAt(rows, line, |rows|, r);
    FitRowsAt(h0, g.cells, s.face, |rows|, r);
    FitBounds(h0[r], g.cells, r, s.face, |g.cells|);
    if |rows[r]| == 0 {
      GridUse(rows);
      forall k | 0 <= k < |g.cells|
        ensures g.cells[k].row != r
      {
        FormattedAt(grid, g.colWidths, s.face, s.medianCharWidth, |grid|, k);
        assert !RowUsed(grid, r);
      }
    }
  }

  /**
   * With the table area the image leaves below the caption and above the
   * footer, the table area of a parsed table holds all its rows, and the
   * image grows exactly when the rows do not fit.
   */
  lemma ParsedGrowth(rows: seq<seq<CellSpec>>, htmlCaption: Option<string>, s: Setup)
    requires s.medianCharWidth >= 1 && Parsed(rows, htmlCaption, s).Ok?
    requires s.tableHeight == s.imgHeight - s.captionBoxHeight - (if s.drawFooter then s.footerBoxHeight else 0)
    ensures var g := Parsed(rows, htmlCaption, s).value;
      g.tableHeight >= Sum(g.rowHeights) && g.tableHeight >= s.tableHeight && g.imgHeight >= s.imgHeight
      && (g.imgHeight > s.imgHeight <==> Sum(g.rowHeights) > s.tableHeight)
      && (Sum(g.rowHeights) <= s.tableHeight ==> g.tableHeight == s.tableHeight && g.imgHeight == s.imgHeight)
  {
    var g := Parsed(rows, htmlCaption, s).value;
    ResizeGrows(s.tableHeight, s.imgHeight, s.captionBoxHeight, s.footerBoxHeight, s.drawFooter, Sum(g.rowHeights));
  }
}
