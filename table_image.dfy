/**
 * The table renderer `TableToIMG`: an object whose settings the caller
 * fills in and whose grid state (`cells`, `row_heights`, `col_widths`, the
 * counts) each `GetImage` call rebuilds in place. The drawing itself is
 * reduced to the coordinates the renderer hands to PIL: the caption's
 * corner, one rectangle per cell and the footer layout.
 */
module TableImage {
  import opened Results
  import opened Numbers
  import opened TableGrid
  import opened TableParse
  import CssUnits
  import Reflow

  // ----- the caption -------------------------------------------------------------

  /** The lowercase letters the model capitalises: ASCII `a`..`z` and Latin-1 `à`..`þ` except `÷`. */
  predicate IsLower(c: char) {
    'a' <= c <= 'z' || ('\U{E0}' <= c <= '\U{FE}' && c != '\U{F7}')
  }

  /** Their capitals: ASCII `A`..`Z` and Latin-1 `À`..`Þ` except `×`. */
  predicate IsUpper(c: char) {
    'A' <= c <= 'Z' || ('\U{C0}' <= c <= '\U{DE}' && c != '\U{D7}')
  }

  /** `str.upper()` on one character: a lowercase letter becomes its capital, 32 code points below it. */
  function UpperChar(c: char): (u: char)
    ensures IsLower(c) ==> IsUpper(u) && u as int + 32 == c as int
    ensures !IsLower(c) ==> u == c
    ensures !IsLower(u)
  {
    if IsLower(c) then (c as int - 32) as char else c
  }

  /**
   * `str.upper()`: every lowercase letter is replaced by its capital, every
   * other character stays where it is, and no lowercase letter is left.
   */
  function Upper(s: string): (u: string)
    ensures |u| == |s|
    ensures forall i :: 0 <= i < |s| && IsLower(s[i]) ==> IsUpper(u[i]) && u[i] as int + 32 == s[i] as int
    ensures forall i :: 0 <= i < |s| && !IsLower(s[i]) ==> u[i] == s[i]
    ensures forall i :: 0 <= i < |u| ==> !IsLower(u[i])
  {
    seq(|s|, i requires 0 <= i < |s| => UpperChar(s[i]))
  }

  /** Capitalising twice is capitalising once. */
  lemma UpperIdempotent(s: string)
    ensures Upper(Upper(s)) == Upper(s)
  {
  }

  /** A text is its own capitalisation exactly when it holds no lowercase letter. */
  lemma UpperFixed(s: string)
    ensures Upper(s) == s <==> forall i :: 0 <= i < |s| ==> !IsLower(s[i])
  {
    if Upper(s) == s {
      forall i | 0 <= i < |s| ensures !IsLower(s[i]) {
        assert s[i] == Upper(s)[i];
      }
    }
  }

  /** Where `_DrawHeader` puts the caption of size `dims` in an image of width `imgWidth`. */
  function HeaderPosition(imgWidth: int, captionBoxHeight: int, dims: (int, int)): (int, int) {
    (TruncDiv(imgWidth - dims.0, 2), TruncDiv(captionBoxHeight - dims.1, 2))
  }

  /**
   * Centering along one axis: text that fits keeps within the span with the
   * two margins differing by at most one pixel (the odd pixel on the far
   * side); text that does not fit overhangs both ends.
   */
  lemma Centered(span: int, size: int)
    ensures var p := TruncDiv(span - size, 2);
      (0 <= size <= span ==> 0 <= p && p + size <= span && 0 <= (span - (p + size)) - p <= 1)
      && (size > span ==> p <= 0 && p + size >= span && 0 <= p - (span - (p + size)) <= 1)
  {
  }

  /** The caption is centred in the caption box, horizontally over the image and vertically in the box. */
  lemma HeaderCentered(imgWidth: int, captionBoxHeight: int, dims: (int, int))
    requires 0 <= dims.0 <= imgWidth && 0 <= dims.1 <= captionBoxHeight
    ensures var (x, y) := HeaderPosition(imgWidth, captionBoxHeight, dims);
      0 <= x && x + dims.0 <= imgWidth && 0 <= (imgWidth - (x + dims.0)) - x <= 1
      && 0 <= y && y + dims.1 <= captionBoxHeight && 0 <= (captionBoxHeight - (y + dims.1)) - y <= 1
  {
    Centered(imgWidth, dims.0);
    Centered(captionBoxHeight, dims.1);
  }

  // ----- the footer ----------------------------------------------------------------

  /** What `_DrawFooter` places: the logo box, the separator's x, the text's x and the top of each text line. */
  datatype Footer = Footer(logo: Rect, separatorX: int, textX: int, line1Y: int, line2Y: int, line3Y: int)

  /** `_DrawFooter`'s coordinates: line 2 is set in the large font, lines 1 and 3 in the small one. */
  function FooterLayout(imgHeight: int, footerBoxHeight: int, small: Reflow.Face, large: Reflow.Face,
                        line1: string, line2: string): Footer
  {
    var y0 := imgHeight - footerBoxHeight + 50;
    var line2Y := y0 + small.single(line1).1 + 2;
    Footer(Rect(50, y0, 150, y0 + 100), 160, 171, y0, line2Y, line2Y + large.single(line2).1 + 2)
  }

  /**
   * The logo is a 100-pixel square 50 pixels in from the footer box's left
   * and top edges, and inside the image when the box is at least 150 high;
   * the separator stands 10 pixels right of the logo over its whole height
   * and the text starts 11 pixels right of the separator, level with the
   * logo's top; each text line starts 2 pixels below the previous one's
   * measured height.
   */
  lemma FooterInBox(imgHeight: int, footerBoxHeight: int, small: Reflow.Face, large: Reflow.Face,
                    line1: string, line2: string)
    ensures var f := FooterLayout(imgHeight, footerBoxHeight, small, large, line1, line2);
      f.logo.x1 - f.logo.x0 == 100 && f.logo.y1 - f.logo.y0 == 100
      && f.logo.x0 == 50 && f.logo.y0 == imgHeight - footerBoxHeight + 50
      && (footerBoxHeight >= 150 ==> f.logo.y1 <= imgHeight)
      && f.separatorX == f.logo.x1 + 10 && f.textX == f.separatorX + 11 && f.line1Y == f.logo.y0
      && f.line2Y - f.line1Y == small.single(line1).1 + 2 && f.line3Y - f.line2Y == large.single(line2).1 + 2
      && (small.single(line1).1 >= 0 && large.single(line2).1 >= 0 ==> f.line1Y < f.line2Y < f.line3Y)
  {
  }

  // ----- the cell rectangles --------------------------------------------------------

  /**
   * The rectangles of the first `n` cells, row band after row band: a cell
   * opening a row starts at the table's left edge `left`, any other cell at
   * the right edge of the one before it; the band of row `r` starts `top`
   * plus the heights of the rows above; a cell is as wide and as high as the
   * columns and rows it spans.
   */
  function Layout(cells: seq<Cell>, colWidths: seq<int>, rowHeights: seq<int>, left: int, top: int, n: nat): (rs: seq<Rect>)
    requires n <= |cells| && InGrid(cells, colWidths, rowHeights)
    ensures |rs| == n
  {
    if n == 0 then []
    else
      var prev := Layout(cells, colWidths, rowHeights, left, top, n - 1);
      var c := cells[n - 1];
      var x0 := if n == 1 || c.row != cells[n - 2].row then left else prev[n - 2].x1;
      var y0 := top + Sum(rowHeights[..c.row]);
      prev + [Rect(x0, y0, x0 + Spanned(colWidths[c.col], c.colspan), y0 + Spanned(rowHeights[c.row], c.rowspan))]
  }

  /**
   * The loop of `_DrawCells` over the cells, keeping the cursor `last_x`,
   * `last_y`, `last_row`: the cursor moves back to the left edge and down to
   * the row's band only when the row changes.
   */
  method PlaceCells(cells: seq<Cell>, colWidths: seq<int>, rowHeights: seq<int>, left: int, top: int)
    returns (rects: seq<Rect>)
    requires InGrid(cells, colWidths, rowHeights)
    ensures rects == Layout(cells, colWidths, rowHeights, left, top, |cells|)
  {
    var lastX := left;
    var lastY := top;
    var lastRow: nat := 0;
    rects := [];
    var k := 0;
    while k < |cells|
      invariant 0 <= k <= |cells|
      invariant rects == Layout(cells, colWidths, rowHeights, left, top, k)
      invariant k > 0 ==> lastRow == cells[k - 1].row && lastX == rects[k - 1].x1
      invariant k == 0 ==> lastX == left && lastRow == 0
      invariant lastRow <= |rowHeights| && lastY == top + Sum(rowHeights[..lastRow])
    {
      var cell := cells[k];
      if cell.row != lastRow {
        lastX := left;
        lastY := top + Sum(rowHeights[..cell.row]);
      }
      var x0 := lastX;
      var y0 := lastY;
      var x1 := x0 + Spanned(colWidths[cell.col], cell.colspan);
      var y1 := y0 + Spanned(rowHeights[cell.row], cell.rowspan);
      rects := rects + [Rect(x0, y0, x1, y1)];
      lastX := x1;
      lastRow := cell.row;
      k := k + 1;
    }
  }

  /** The rectangle of each cell, one cell at a time. */
  lemma {:induction false} LayoutAt(cells: seq<Cell>, colWidths: seq<int>, rowHeights: seq<int>, left: int, top: int,
                                    n: nat, k: nat)
    requires InGrid(cells, colWidths, rowHeights) && k < n <= |cells|
    ensures var rs := Layout(cells, colWidths, rowHeights, left, top, n);
      rs[k].y0 == top + Sum(rowHeights[..cells[k].row])
      && rs[k].x1 - rs[k].x0 == Spanned(colWidths[cells[k].col], cells[k].colspan)
      && rs[k].y1 - rs[k].y0 == Spanned(rowHeights[cells[k].row], cells[k].rowspan)
      && (k == 0 || cells[k].row != cells[k - 1].row ==> rs[k].x0 == left)
      && (k > 0 && cells[k].row == cells[k - 1].row ==> rs[k].x0 == rs[k - 1].x1)
    decreases n
  {
    var prev := Layout(cells, colWidths, rowHeights, left, top, n - 1);
    var rs := Layout(cells, colWidths, rowHeights, left, top, n);
    assert rs == prev + [rs[n - 1]];
    if k < n - 1 {
      LayoutAt(cells, colWidths, rowHeights, left, top, n - 1, k);
      assert rs[k] == prev[k];
      if k > 0 {
        assert rs[k - 1] == prev[k - 1];
      }
    } else if k > 0 {
      assert rs[k - 1] == prev[k - 1];
    }
  }

  /**
   * With no negative row height, the rectangle of a cell spanning one row
   * ends above that of every cell of a later row.
   */
  lemma RowsStack(cells: seq<Cell>, colWidths: seq<int>, rowHeights: seq<int>, left: int, top: int, k1: nat, k2: nat)
    requires InGrid(cells, colWidths, rowHeights) && k1 < |cells| && k2 < |cells|
    requires forall r :: 0 <= r < |rowHeights| ==> rowHeights[r] >= 0
    requires cells[k1].row < cells[k2].row && cells[k1].rowspan == 1
    ensures var rs := Layout(cells, colWidths, rowHeights, left, top, |cells|); rs[k1].y1 <= rs[k2].y0
  {
    LayoutAt(cells, colWidths, rowHeights, left, top, |cells|, k1);
    LayoutAt(cells, colWidths, rowHeights, left, top, |cells|, k2);
    SpannedIsProduct(rowHeights[cells[k1].row], 1);
    SumPrefixStep(rowHeights, cells[k1].row);
    SumPrefixMono(rowHeights, cells[k1].row + 1, cells[k2].row);
  }

  /**
   * With no negative column width and no span below one, the cells of a
   * row follow each other left to right: a cell starts no further left than
   * the one before it in the same row ends.
   */
  lemma RowRunsRight(cells: seq<Cell>, colWidths: seq<int>, rowHeights: seq<int>, left: int, top: int, k: nat)
    requires InGrid(cells, colWidths, rowHeights) && 0 < k < |cells| && cells[k].row == cells[k - 1].row
    requires forall c :: 0 <= c < |colWidths| ==> colWidths[c] >= 0
    requires cells[k - 1].colspan >= 1
    ensures var rs := Layout(cells, colWidths, rowHeights, left, top, |cells|); rs[k - 1].x0 <= rs[k - 1].x1 == rs[k].x0
  {
    LayoutAt(cells, colWidths, rowHeights, left, top, |cells|, k);
    LayoutAt(cells, colWidths, rowHeights, left, top, |cells|, k - 1);
    SpannedIsProduct(colWidths[cells[k - 1].col], cells[k - 1].colspan);
  }

  /** What one `GetImage` call puts in the picture. */
  datatype Picture = Picture(
    width: int,
    height: int,
    captionText: string,
    captionAt: (int, int),
    cells: seq<Rect>,
    footer: Option<Footer>)

  // ----- the renderer ------------------------------------------------------------

  /** `TableToIMG`. The font loader `ImageFont.truetype` is a parameter of the methods that load fonts. */
  class TableToImg {
    var caption: string
    var fontName: string
    var logo: string
    var fontSize: int
    var medianCharWidth: int
    var font: Option<Reflow.Face>
    var totalColCount: nat
    var totalRowCount: nat
    var rowHeights: seq<int>
    var colWidths: seq<int>
    var cells: seq<Cell>
    var captionBoxHeight: int
    var tableWidth: int
    var tableHeight: int
    var footerBoxHeight: int
    var imgWidth: int
    var imgHeight: int
    var drawBorders: bool
    var drawFooter: bool
    var footerLine1: string
    var footerLine2: string
    var footerLine3: string

    /** The grid agrees with the counts: one width per column, one height per row, every cell inside. */
    predicate Valid()
      reads this`colWidths, this`totalColCount, this`rowHeights, this`totalRowCount, this`cells
    {
      |colWidths| == totalColCount && |rowHeights| == totalRowCount
      && forall k :: 0 <= k < |cells| ==> cells[k].col < totalColCount && cells[k].row < totalRowCount
    }

    /** No cells and no grid: the state `_ResetObj` leaves. */
    predicate Cleared()
      reads this`colWidths, this`totalColCount, this`rowHeights, this`totalRowCount, this`cells
    {
      totalColCount == 0 && totalRowCount == 0 && rowHeights == [] && colWidths == [] && cells == []
    }

    /** The class defaults. */
    constructor()
      ensures caption == "" && fontName == "" && logo == "" && fontSize == 24 && medianCharWidth == 1 && font.None?
      ensures Cleared() && Valid()
      ensures captionBoxHeight == 100 && tableWidth == 1800 && tableHeight == 780 && footerBoxHeight == 200
      ensures imgWidth == 1920 && imgHeight == 1080 && drawBorders && drawFooter
      ensures footerLine1 == "" && footerLine2 == "" && footerLine3 == ""
    {
      caption := "";
      fontName := "";
      logo := "";
      fontSize := 24;
      medianCharWidth := 1;
      font := None;
      totalColCount := 0;
      totalRowCount := 0;
      rowHeights := [];
      colWidths := [];
      cells := [];
      captionBoxHeight := 100;
      tableWidth := 1800;
      tableHeight := 780;
      footerBoxHeight := 200;
      imgWidth := 1920;
      imgHeight := 1080;
      drawBorders := true;
      drawFooter := true;
      footerLine1 := "";
      footerLine2 := "";
      footerLine3 := "";
    }

    /** `_ResetObj`: drop the grid of the previous table; the settings stay. */
    method ResetObj()
      modifies this`totalColCount, this`totalRowCount, this`rowHeights, this`colWidths, this`cells
      ensures Cleared() && Valid()
    {
      totalColCount := 0;
      totalRowCount := 0;
      rowHeights := [];
      colWidths := [];
      cells := [];
    }

    /** `_CreateFontObj`: load the table font and take the width of "b" as the median character width. */
    method CreateFontObj(load: (string, int) -> Reflow.Face)
      modifies this`font, this`medianCharWidth
      ensures font == Some(load(fontName, fontSize))
      ensures medianCharWidth == load(fontName, fontSize).single("b").0
    {
      var face := load(fontName, fontSize);
      font := Some(face);
      medianCharWidth := face.single("b").0;
    }

    /** The settings `_ParseHTML` reads when `GetImage` is asked for a `width` by `height` image. */
    function ImageSetup(caption0: string, width: int, height: int, load: (string, int) -> Reflow.Face): Setup
      reads this`fontName, this`fontSize, this`captionBoxHeight, this`footerBoxHeight, this`drawFooter
    {
      var face := load(fontName, fontSize);
      Setup(caption0, fontSize, face, face.single("b").0, captionBoxHeight, width - 100,
            height - captionBoxHeight - (if drawFooter then footerBoxHeight else 0), footerBoxHeight, height, drawFooter)
    }

    /** The settings `_ParseHTML` reads. */
    function Settings(): Setup
      requires font.Some?
      reads this`caption, this`fontSize, this`font, this`medianCharWidth, this`captionBoxHeight, this`tableWidth,
            this`tableHeight, this`footerBoxHeight, this`imgHeight, this`drawFooter
    {
      Setup(caption, fontSize, font.value, medianCharWidth, captionBoxHeight, tableWidth, tableHeight,
            footerBoxHeight, imgHeight, drawFooter)
    }

    /** The fields `_ParseHTML` sets. */
    function State(): GridState
      reads this`caption, this`totalRowCount, this`totalColCount, this`colWidths, this`rowHeights, this`cells,
            this`tableHeight, this`imgHeight
    {
      GridState(caption, totalRowCount, totalColCount, colWidths, rowHeights, cells, tableHeight, imgHeight)
    }

    /** Record the grid `_ParseHTML` builds and the table and image heights it leaves. */
    method Store(g: GridState)
      modifies this`caption, this`totalRowCount, this`totalColCount, this`colWidths, this`rowHeights, this`cells,
               this`tableHeight, this`imgHeight
      ensures State() == g
    {
      caption, totalRowCount, totalColCount := g.caption, g.rowCount, g.colCount;
      colWidths, rowHeights, cells, tableHeight, imgHeight := g.colWidths, g.rowHeights, g.cells, g.tableHeight, g.imgHeight;
    }

    /**
     * `_ParseHTML` on a table already read into rows: build the grid, size
     * it, fit the contents, and grow the table area and the image when the
     * rows do not fit, as `Parsed` describes.
     */
    method ParseHtml(rows: seq<seq<CellSpec>>, htmlCaption: Option<string>) returns (err: Option<ParseError>)
      modifies this`caption, this`totalRowCount, this`totalColCount, this`colWidths, this`rowHeights, this`cells,
               this`tableHeight, this`imgHeight
      requires Cleared()
      requires font.Some? && medianCharWidth >= 1
      ensures Parsed(rows, htmlCaption, old(Settings())).Err? <==> err.Some?
      ensures err.Some? ==> err.value == Parsed(rows, htmlCaption, old(Settings())).error
      ensures err.None? ==> State() == Parsed(rows, htmlCaption, old(Settings())).value
    {
      var res := ParseGrid(rows, htmlCaption, Settings());
      if res.Err? {
        return Some(res.error);
      }
      Store(res.value);
      return None;
    }

    /** `_DrawCells`: the rectangle of every cell, in order, as `Layout` describes them. */
    method DrawCells() returns (rects: seq<Rect>)
      requires Valid()
      ensures rects == Layout(cells, colWidths, rowHeights, TruncDiv(imgWidth - tableWidth, 2), captionBoxHeight, |cells|)
    {
      rects := PlaceCells(cells, colWidths, rowHeights, TruncDiv(imgWidth - tableWidth, 2), captionBoxHeight);
    }

    /**
     * The set-up of `GetImage`: reset the grid, give the image the requested
     * size, leave the table area between the caption and the footer (when it
     * is on) and 100 pixels narrower than the image, and load the font.
     */
    method Prepare(width: int, height: int, load: (string, int) -> Reflow.Face)
      modifies this`totalColCount, this`totalRowCount, this`rowHeights, this`colWidths, this`cells,
               this`imgHeight, this`imgWidth, this`tableHeight, this`tableWidth, this`font, this`medianCharWidth
      ensures Cleared()
      ensures imgHeight == height && imgWidth == width && tableWidth == width - 100
      ensures tableHeight == height - captionBoxHeight - (if drawFooter then footerBoxHeight else 0)
      ensures font == Some(load(fontName, fontSize)) && medianCharWidth == load(fontName, fontSize).single("b").0
    {
      ResetObj();
      imgHeight := height;
      imgWidth := width;
      tableHeight := height - captionBoxHeight - (if drawFooter then footerBoxHeight else 0);
      tableWidth := width - 100;
      CreateFontObj(load);
    }

    /**
     * What `GetImage` draws from the current state: the image size, the
     * caption in capitals centred in the caption box in the font 10 points
     * larger, the cell rectangles from the table's left edge below the
     * caption box, and the footer when it is on.
     */
    function Drawn(load: (string, int) -> Reflow.Face): Picture
      requires Valid()
      reads this
    {
      var headerFont := load(fontName, fontSize + 10);
      Picture(imgWidth, imgHeight, Upper(caption), HeaderPosition(imgWidth, captionBoxHeight, headerFont.multiline(Upper(caption))),
              Layout(cells, colWidths, rowHeights, TruncDiv(imgWidth - tableWidth, 2), captionBoxHeight, |cells|),
              if drawFooter then Some(FooterLayout(imgHeight, footerBoxHeight, load(fontName, fontSize), headerFont,
                                                   footerLine1, footerLine2))
              else None)
    }

    /**
     * The drawing half of `GetImage` once the grid is built: the caption in
     * capitals, centred in the caption box in the font 10 points larger, the
     * cells, and the footer when it is on.
     */
    method Render(load: (string, int) -> Reflow.Face) returns (p: Picture)
      requires Valid()
      ensures p.width == imgWidth && p.height == imgHeight
      ensures p.captionText == Upper(caption)
      ensures p.captionAt == HeaderPosition(imgWidth, captionBoxHeight, load(fontName, fontSize + 10).multiline(Upper(caption)))
      ensures p.cells == Layout(cells, colWidths, rowHeights, TruncDiv(imgWidth - tableWidth, 2), captionBoxHeight, |cells|)
      ensures p.footer.Some? <==> drawFooter
      ensures drawFooter ==> p.footer.value == FooterLayout(imgHeight, footerBoxHeight, load(fontName, fontSize),
                                                            load(fontName, fontSize + 10), footerLine1, footerLine2)
      ensures p == Drawn(load)
    {
      var headerFont := load(fontName, fontSize + 10);
      var text := Upper(caption);
      var at := HeaderPosition(imgWidth, captionBoxHeight, headerFont.multiline(text));
      var rects := DrawCells();
      var footer := None;
      if drawFooter {
        footer := Some(FooterLayout(imgHeight, footerBoxHeight, load(fontName, fontSize), headerFont,
                                    footerLine1, footerLine2));
      }
      return Picture(imgWidth, imgHeight, text, at, rects, footer);
    }

    /**
     * `_ParseHTML` and the drawing, as `GetImage` runs them on a prepared
     * renderer: the table is drawn exactly when every cell can be read and
     * some row has one; the table area then holds every row, the image grows
     * exactly when the rows do not fit between the caption and the footer,
     * and the picture is what `Drawn` describes for the grid built.
     */
    method Build(rows: seq<seq<CellSpec>>, htmlCaption: Option<string>, load: (string, int) -> Reflow.Face)
      returns (res: Result<Picture, ParseError>)
      modifies this`caption, this`totalRowCount, this`totalColCount, this`colWidths, this`rowHeights, this`cells,
               this`tableHeight, this`imgHeight
      requires Cleared()
      requires font.Some? && medianCharWidth >= 1
      requires tableHeight == imgHeight - captionBoxHeight - (if drawFooter then footerBoxHeight else 0)
      ensures res.Ok? <==> WellFormed(rows) && MaxLen(rows, |rows|) > 0
      ensures res.Err? && !WellFormed(rows) ==> exists r, c :: FirstFault(rows, r, c, res.error)
      ensures res.Err? && WellFormed(rows) ==> res.error == EmptyTable
      ensures res.Err? ==> res.error == Parsed(rows, htmlCaption, old(Settings())).error
      ensures res.Ok? ==> State() == Parsed(rows, htmlCaption, old(Settings())).value
      ensures res.Ok? ==> Valid() && tableHeight >= Sum(rowHeights) && imgHeight >= old(imgHeight)
      ensures res.Ok? ==> (imgHeight > old(imgHeight) <==> Sum(rowHeights) > old(tableHeight))
      ensures res.Ok? ==> res.value == Drawn(load)
    {
      ghost var s := Settings();
      var err := ParseHtml(rows, htmlCaption);
      ParsedOutcome(rows, htmlCaption, s);
      if err.Some? {
        return Err(err.value);
      }
      ParsedShape(rows, htmlCaption, s);
      ParsedGrowth(rows, htmlCaption, s);
      var picture := Render(load);
      return Ok(picture);
    }

    /**
     * `GetImage` on a table already read into rows, with the font loader as
     * a parameter: set up the image and table areas, build the grid, then
     * draw the caption, the cells and, when it is on, the footer. The
     * settings (font name and size, box heights, footer switch and lines)
     * are outside the frame and stay as they were.
     */
    method GetImage(rows: seq<seq<CellSpec>>, htmlCaption: Option<string>, width: int, height: int,
                    load: (string, int) -> Reflow.Face) returns (res: Result<Picture, ParseError>)
      modifies this`totalColCount, this`totalRowCount, this`rowHeights, this`colWidths, this`cells,
               this`imgHeight, this`imgWidth, this`tableHeight, this`tableWidth, this`font, this`medianCharWidth,
               this`caption
      requires load(fontName, fontSize).single("b").0 >= 1
      ensures res.Ok? <==> WellFormed(rows) && MaxLen(rows, |rows|) > 0
      ensures res.Err? && !WellFormed(rows) ==> exists r, c :: FirstFault(rows, r, c, res.error)
      ensures res.Err? && WellFormed(rows) ==> res.error == EmptyTable
      ensures res.Err? ==> res.error == Parsed(rows, htmlCaption, ImageSetup(old(caption), width, height, load)).error
      ensures font == Some(load(fontName, fontSize)) && medianCharWidth == load(fontName, fontSize).single("b").0
      ensures res.Ok? ==> State() == Parsed(rows, htmlCaption, ImageSetup(old(caption), width, height, load)).value
      ensures res.Ok? ==> Valid() && imgWidth == width && tableWidth == width - 100
      ensures res.Ok? ==> tableHeight >= Sum(rowHeights) && imgHeight >= height
      ensures res.Ok? ==> (imgHeight > height <==>
                           Sum(rowHeights) > height - captionBoxHeight - (if drawFooter then footerBoxHeight else 0))
      ensures res.Ok? ==> res.value == Drawn(load)
    {
      ghost var setup := ImageSetup(caption, width, height, load);
      Prepare(width, height, load);
      assert Settings() == setup;
      res := Build(rows, htmlCaption, load);
      assert ImageSetup(old(caption), width, height, load) == setup;
    }
  }
}
