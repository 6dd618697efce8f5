# Bulletin tables and tweets, modelled in Dafny

This project models the core of a bot that reads the official bulletins of
Argentinian municipalities and posts them as Twitter threads. It has two
parts:

- **The table renderer `TableToIMG`** (`HTMLtoImg.py`). It turns an HTML
  table into a picture. Its grid is a sequence of `Cell` records with one
  width per column and one height per row. Reading it can fail with the
  exceptions the source raises. Each cell's text is cleaned by `spaces_re`
  and wrapped with `textwrap` when it is too wide. Rows grow to fit their
  cells, and the image grows when the rows overflow the table area. What is
  drawn is reduced to coordinates: the caption's corner, one rectangle per
  cell, and the footer's layout.
- **The scraper's pure helpers** (`SIBOM.py`). These are:
  - the article-heading regex `art_regex`, written out in Python's
    backtracking order;
  - `_FormatText`;
  - the thread `GetTweets` builds: a heading tweet, one tweet per article
    cut at 280 characters, and the table images four to a tweet;
  - the two tag filters `_MatchTables` and `_MatchParagraphs`, over an
    abstract tag tree;
  - the index page addresses read by `GetLatestID`.

The modules are:

- `Results` and `Numbers` (numbers.dfy): Python's `int()`, `int(a / b)`,
  `"%s" % n` and `sum`.
- `CssUnits`: `_ConvertToPx`.
- `Reflow`: `_GetMaxChars`, `_WrapText`, `spaces_re` and `_FormatField`.
- `TableGrid`: what `_ParseHTML` computes, as functions.
- `TableParse`: the loops of `_ParseHTML` and their specification `Parsed`.
- `TableImage`: the `TableToImg` class, with header, cell and footer layout.
- `Articles`: `art_regex`.
- `Tweets`: `_FormatText` and `GetTweets`.
- `Bulletin`: the tag filters and page addresses.

Behaviour kept as the code has it:

- The source only ever reads a cell's CSS width into an attribute of the
  BeautifulSoup tag (`cell.width = …`, HTMLtoImg.py:295-300), never into
  the `Cell` record. Every `Cell` therefore has an empty `css_width`, and
  every column gets the standard width `int(table_width /
  total_col_count)`.
- A table with no cell divides by zero at HTMLtoImg.py:323. The model
  returns the error `EmptyTable` there.
- The other exceptions of `_ParseHTML` are modelled as error results:
  - `int()` of a bad `colspan` or `rowspan`;
  - the `IndexError` of a style that names "width" but has no "width:" in
    it.

  The exception reported is the one of the first faulty cell in document
  order.

Where the prose description of the system and the code differ, the model
follows the code:

- A percentage is truncated toward zero, not rounded.
- Line 2 of the footer uses the larger font (`font_size + 10`), and lines 1
  and 3 use the table font.
- When the image grows and there is no footer, 50 pixels are added below
  the table.
- A length whose number part is not an integer (such as "autopx") raises;
  it is not 0.
- An unknown unit gives 0.

## Model

| member | source | states |
|---|---|---|
| Numbers.TruncDivBounds | HTMLtoImg.py:323 | `int(a / b)` for a positive divisor rounds toward zero: down for a non-negative dividend, up for a negative one |
| Numbers.ParseIntOfNat | HTMLtoImg.py:292 | `int()` reads back a decimal numeral, with or without a sign |
| Numbers.ParseInt | HTMLtoImg.py:292-294 | the model's reading of `int()`: surrounding whitespace, an optional sign, ASCII digits; anything else fails (definition; its properties are the next two rows) |
| Numbers.ParseIntRejects | HTMLtoImg.py:292-294 | the model's integer reader fails on any string holding a character that is not an ASCII digit, a sign or whitespace |
| Numbers.NatToStringValue | SIBOM.py:178 | the decimal numeral written by `"%s" % n` denotes `n` |
| CssUnits.ConvertToPx | HTMLtoImg.py:361-394 | `_ConvertToPx`: empty gives 0, "N%" a share of the table width, otherwise the last two characters are the unit and the part before the dot must be an integer (definition; its properties are the next four rows) |
| CssUnits.ConvertEmpty | HTMLtoImg.py:369-371 | the empty length converts to 0 pixels |
| CssUnits.ConvertPercent | HTMLtoImg.py:372-373 | "N%" is N hundredths of the table width, truncated toward zero |
| CssUnits.ConvertWithUnit | HTMLtoImg.py:374-394 | "N\<unit\>" and "N.\<digits\>\<unit\>" drop the fraction and scale N by the unit's factor; "px" gives N; an unknown unit gives 0 |
| CssUnits.ConvertRejectsWords | HTMLtoImg.py:376 | a number part that is not an integer ("autopx") makes the conversion fail |
| Reflow.MaxChars | HTMLtoImg.py:485-495 | the character budget is at least 1; when the width holds one median character it is the largest count whose total width fits |
| Reflow.Fill | HTMLtoImg.py:483 | the line filling of `textwrap.wrap`: every line holds 1 to width characters and no newline (the definition follows `_wrap_chunks`, including the line that keeps its trailing space when a long word gets none of it) |
| Reflow.WrapLines | HTMLtoImg.py:482-483 | every wrapped line holds 1 to max_chars characters and no newline |
| Reflow.WrapText | HTMLtoImg.py:471-483 | `_WrapText`: the lines `textwrap.wrap` gives for the character budget, joined by newlines (definition; its property is the next row) |
| Reflow.WrapKeepsText | HTMLtoImg.py:471-483 | wrapping keeps every non-blank character of the text, in order |
| Reflow.FillKeepsText | HTMLtoImg.py:483 | the greedy line filling of `textwrap.wrap` (long words broken) keeps every non-blank character, in order |
| Reflow.FillPadsLine | HTMLtoImg.py:483 | the line that keeps its trailing space before a long word keeps every non-blank character, in order |
| Reflow.RemoveSpacing | HTMLtoImg.py:123 | `spaces_re.sub("", s)`: a scanner trying the four alternatives in order at each position, with `^` and `$` at line boundaries (definition; its properties are the next four rows) |
| Reflow.RemoveSpacingDeletesBlanks | HTMLtoImg.py:123 | `spaces_re.sub("", s)` only deletes characters, and only spaces and newlines |
| Reflow.RemoveSpacingNoDoubleSpace | HTMLtoImg.py:123 | on a line without newlines the clean-up leaves no two adjacent spaces |
| Reflow.RemoveSpacingDropsRuns | HTMLtoImg.py:123 | on a line without newlines the clean-up deletes exactly the runs of two or more spaces |
| Reflow.RemoveSpacingKeepsClean | HTMLtoImg.py:123 | a line without newlines and double spaces is left unchanged |
| Reflow.FormatField | HTMLtoImg.py:396-410 | `_FormatField`: drop non-breaking spaces, apply `spaces_re`, wrap only when the measured width exceeds the cell (definition; its properties are the next three rows) |
| Reflow.FormatFieldDeletes | HTMLtoImg.py:396-410 | before wrapping `_FormatField` only deletes characters; the result keeps the non-blank characters of the cleaned text and has no non-breaking space |
| Reflow.CleanFieldNoDoubleSpace | HTMLtoImg.py:406-407 | on a line, the clean-up drops the non-breaking spaces, then exactly the runs of spaces, and leaves no double space |
| Reflow.FormatFieldKeepsFitting | HTMLtoImg.py:406-410 | clean text that fits its cell comes back unchanged |
| TableGrid.ReadCell | HTMLtoImg.py:289-305 | a readable cell records its row, its position in the row, its text, whether it is a `th`, and an empty CSS width |
| TableGrid.ReadCellSpans | HTMLtoImg.py:291-294 | a declared colspan is read as an integer; an absent rowspan is 1 |
| TableGrid.StyleWithoutColon | HTMLtoImg.py:297-300 | a style such as "max-width" names "width" but gives `width_re` no match, so the renderer raises |
| TableGrid.FirstFaultUnique | HTMLtoImg.py:283-300 | the first unreadable cell in document order, and so the exception raised, is determined by the table |
| TableGrid.FirstFaultExists | HTMLtoImg.py:283-300 | a table with an unreadable cell has a first one |
| TableGrid.CellAt | HTMLtoImg.py:279-311 | the cell at position c of row r sits at index Offset(r) + c of the cell list and is made from that tag |
| TableGrid.CellsUpToShape | HTMLtoImg.py:304-305 | every cell records its own row and its position within that row |
| TableGrid.MaxLen | HTMLtoImg.py:284-315 | the column count is the length of the longest row (bounds every row and is attained) |
| TableGrid.Grid | HTMLtoImg.py:279-311 | every cell of a readable table lies below the row count and the column count and has no CSS width |
| TableGrid.GridUse | HTMLtoImg.py:318-341 | the columns that hold a cell are exactly those below the column count; the rows that hold one are exactly the non-empty rows |
| TableGrid.EmptyIffNoCells | HTMLtoImg.py:314-323 | the column count is 0 exactly when the table has no cell |
| TableGrid.FitBounds | HTMLtoImg.py:347-351 | a row's fitted height is at least its starting height and every measured cell height in the row, and equals one of them |
| TableGrid.SpannedIsProduct | HTMLtoImg.py:433-434 | a cell's extent is size × span, as Python's `*` gives it |
| TableGrid.FormattedAt | HTMLtoImg.py:347-349 | each formatted cell is the original cell at the same place with its content formatted for the width of its columns |
| TableGrid.Resized | HTMLtoImg.py:353-357 | the resize: when the rows overflow, the table area takes their height and the image the caption box, the rows and the footer box (or 50 pixels) (definition; its property is the next row) |
| TableGrid.ResizeGrows | HTMLtoImg.py:353-357 | after the resize the rows fit the table area, the image never shrinks, and it grows exactly when the rows overflow |
| TableGrid.SumPrefixMono | HTMLtoImg.py:429 | with non-negative row heights a later row never starts above an earlier one |
| TableParse.CollectCells | HTMLtoImg.py:276-315 | the first loop succeeds exactly when every cell can be read; it then yields the whole cell list and the longest row's length; otherwise it yields the first fault's exception |
| TableParse.CollectRow | HTMLtoImg.py:281-310 | one row of the first loop: it appends that row's cells, keeps the column counter, or stops at the row's first fault |
| TableParse.SizeCells | HTMLtoImg.py:317-341 | the second loop gives every column holding a cell the standard width (at least 0) and every row holding a cell one line of height `int(font_size * 1.3)` (at least 0); the others stay 0 |
| TableParse.SizeGrid | HTMLtoImg.py:317-341 | on a whole table, every column gets the standard width and every non-empty row one line |
| TableParse.FitCells | HTMLtoImg.py:346-351 | the third loop formats every cell for its spanned width, and raises each row to the measured height of its cells |
| TableParse.GrowTable | HTMLtoImg.py:353-357 | the resize rule `Resized`, whose consequences `ResizeGrows` states |
| TableParse.LineHeightsAt | HTMLtoImg.py:336-339 | before fitting, a row is one line high when it has cells and 0 otherwise |
| TableParse.FitRowsAt | HTMLtoImg.py:350-351 | each fitted row height is the starting height raised by the row's cells |
| TableParse.Parsed | HTMLtoImg.py:253-359 | the specification of `_ParseHTML`: the first fault's exception, `EmptyTable`, or the grid with standard widths, formatted cells, fitted heights and the resize (definition; its properties are the ParsedOutcome to ParsedGrowth rows) |
| TableParse.ParseGrid | HTMLtoImg.py:253-359 | the loops of `_ParseHTML` compute exactly `Parsed`: the exception raised or the fields left |
| TableParse.ParsedOutcome | HTMLtoImg.py:276-323 | the grid is built exactly when every cell can be read and some row has one; otherwise the exception is the first fault's, or the empty table's |
| TableParse.ParsedShape | HTMLtoImg.py:270-323 | one width per column (all the standard width) and one height per row; every cell inside the grid; the table's caption overrides the set one |
| TableParse.ParsedCells | HTMLtoImg.py:347-349 | each cell is the cell read from the rows, in the same order and place, with its text formatted for the width of the columns it spans |
| TableParse.ParsedHeights | HTMLtoImg.py:336-351 | a row is at least one line high when it has cells and 0 when it has none; it is at least every cell's measured height and equals the line or one of them |
| TableParse.ParsedGrowth | HTMLtoImg.py:353-357 | the table area ends up holding all rows; the image grows exactly when the rows overflow it, and is unchanged otherwise |
| TableImage.Upper | HTMLtoImg.py:220 | every lowercase ASCII or Latin-1 letter becomes its capital, every other character stays in place, and no lowercase letter is left |
| TableImage.UpperIdempotent | HTMLtoImg.py:220 | capitalising twice is capitalising once |
| TableImage.UpperFixed | HTMLtoImg.py:220 | a caption is its own capitalisation exactly when it holds no lowercase letter |
| TableImage.HeaderPosition | HTMLtoImg.py:218-230 | where `_DrawHeader` puts the caption: `int((width - w) / 2)` across, `int((box - h) / 2)` down (definition; its properties are the next two rows) |
| TableImage.HeaderCentered | HTMLtoImg.py:218-230 | a caption that fits is centred over the image and in the caption box, the two margins differing by at most one pixel |
| TableImage.Centered | HTMLtoImg.py:225-226 | centring with `int(x / 2)` keeps text that fits inside the span and lets wider text overhang both ends |
| TableImage.FooterLayout | HTMLtoImg.py:185-216 | the coordinates `_DrawFooter` uses (definition; its property is the next row) |
| TableImage.FooterInBox | HTMLtoImg.py:185-216 | the logo is a 100-pixel square 50 pixels in from the footer box's left and top edges; the separator and text follow at 10 and 11 pixels; each text line starts 2 pixels below the previous one's height |
| TableImage.Layout | HTMLtoImg.py:412-445 | one rectangle per cell: x from the left edge or the previous cell's right edge, y from the rows above, extent from the spans |
| TableImage.PlaceCells | HTMLtoImg.py:422-445 | the cursor loop of `_DrawCells` produces exactly the rectangles `Layout` describes |
| TableImage.LayoutAt | HTMLtoImg.py:426-434 | a cell opening a row starts at the left edge and any other at the previous cell's right edge; its band starts below the rows above; its extent is its spans times the sizes |
| TableImage.RowsStack | HTMLtoImg.py:429-434 | with non-negative heights a one-row cell ends above every cell of a later row |
| TableImage.RowRunsRight | HTMLtoImg.py:431-443 | with non-negative widths the cells of a row follow each other left to right |
| TableImage.TableToImg.constructor | HTMLtoImg.py:115-144 | the class defaults |
| TableImage.TableToImg.ResetObj | HTMLtoImg.py:232-241 | the grid is emptied and the counts zeroed; the settings stay |
| TableImage.TableToImg.CreateFontObj | HTMLtoImg.py:243-251 | loads the table font and takes the width of "b" as the median character width |
| TableImage.TableToImg.ParseHtml | HTMLtoImg.py:253-359 | on a reset renderer, raises exactly `Parsed`'s exception, or leaves exactly `Parsed`'s fields |
| TableImage.TableToImg.DrawCells | HTMLtoImg.py:412-445 | the cell rectangles are the grid's `Layout` from the table's left edge below the caption box |
| TableImage.TableToImg.Prepare | HTMLtoImg.py:162-167 | reset; the image has the requested size; the table area lies between the caption and the footer (when on) and is 100 pixels narrower than the image; the font is loaded |
| TableImage.TableToImg.Drawn | HTMLtoImg.py:171-178 | what `GetImage` draws from the current state: image size, capitalised caption at its centred corner, the cell `Layout`, the footer when on (definition, used by Render, Build and GetImage) |
| TableImage.TableToImg.Render | HTMLtoImg.py:171-178 | the picture is the image size, the capitalised caption at its centred corner, the cell rectangles, and the footer layout exactly when the footer is on; in all, `Drawn` |
| TableImage.TableToImg.Build | HTMLtoImg.py:169-178 | on a prepared renderer the grid is built exactly when the table is readable and non-empty, else the first fault's or the empty table's exception; the new state is exactly `Parsed` of the settings; the table area then holds the rows, the image grows exactly when they overflow, and the picture is `Drawn` |
| TableImage.TableToImg.GetImage | HTMLtoImg.py:147-183 | only the grid, the sizes, the font and the caption change; an image is produced exactly when the table is readable and non-empty, else the first fault's or the empty table's exception; the new state is `Parsed` of the settings for the requested size; the image is at least the requested height and grows exactly when the rows overflow; the picture is `Drawn` |
| Articles.MatchArticle | SIBOM.py:11 | a match ends at a word character and group 1 is one or more decimal digits |
| Articles.MatchArticleIffReading | SIBOM.py:11 | `art_regex.match` succeeds exactly when some reading of the pattern (blanks, "art?culo", blanks, digits, non-word characters on the line, a word character) fits the text |
| Articles.NextWord | SIBOM.py:11 | the lazy `.*?(?=\w)` stops at the first word character before the end of the line |
| Tweets.CollapseSpaces | SIBOM.py:94 | collapsing runs of spaces leaves no double space and keeps every other character, in order |
| Tweets.CollapseIsSurvivors | SIBOM.py:94 | the collapse keeps exactly the characters that are not a space followed by another space |
| Tweets.RunBecomesOneSpace | SIBOM.py:94 | each maximal run of spaces, a single space included, becomes exactly one space |
| Tweets.CollapseKeepsSingleSpaces | SIBOM.py:94 | text without double spaces is unchanged |
| Tweets.ArtSub | SIBOM.py:96 | `art_regex.sub(r"\1: ", s)`: the anchored match, if any, is replaced by its digits and ": " (definition; its properties are the next four rows) |
| Tweets.ArtSubOfHeading | SIBOM.py:95-96 | "Art?culo", blanks, the number, then non-word characters: the whole heading up to the first word character becomes "\<number\>: " |
| Tweets.ArtSubLeavesOthers | SIBOM.py:96 | a text that does not open with the heading is not rewritten |
| Tweets.ArtSubMembers | SIBOM.py:96 | the rewrite adds only digits, a colon and a space |
| Tweets.ArtSubNoDoubleSpace | SIBOM.py:96 | the rewrite creates no double space |
| Tweets.FormatText | SIBOM.py:87-98 | `_FormatText`: the two replacements, the space collapse, then the heading rewrite (definition; its properties are the next two rows) |
| Tweets.FormatTextClean | SIBOM.py:87-98 | a formatted text has no non-breaking space, no masculine ordinal and no double space |
| Tweets.FormatTextExample | SIBOM.py:95-96 | "Artículo 3˚.- Se dispone..." becomes "3: Se dispone..." |
| Tweets.ArticleTweet | SIBOM.py:51-63 | an article tweet has at most 280 characters; a longer text is cut at 269 and marked "... (sigue)" |
| Tweets.FirstTweet | SIBOM.py:54-57 | the heading tweet (definition; its property is the next row) |
| Tweets.FirstTweetShape | SIBOM.py:54-57 | the heading tweet opens with place and date, title and source, ends with the disclaimer, and has the annex note between them exactly when there are annexes |
| Tweets.GroupsPartition | SIBOM.py:65-81 | the images are split, in order, into groups of one to four, all but the last of four |
| Tweets.MediaTweets | SIBOM.py:65-81 | the buffering loop sends exactly one tweet per group of images |
| Tweets.GetTweets | SIBOM.py:44-85 | the thread is the heading tweet, one tweet per article, then the image groups; its length is 1 + articles + ⌈images / 4⌉ |
| Bulletin.AnyTableIffDescendant | SIBOM.py:292 | `tag.find("table")` succeeds exactly when some node below is a table |
| Bulletin.StripEmptyIff | SIBOM.py:294 | stripping "\n\xa0 " leaves text exactly when some other character is present |
| Bulletin.MatchTables | SIBOM.py:275-296 | `_MatchTables`: a table tag with no table below and non-empty stripped text (definition; its property is the next row) |
| Bulletin.MatchTablesIff | SIBOM.py:275-296 | a tag is kept as a table exactly when it is a table, no node below is a table, and its text has a visible character |
| Bulletin.MatchParagraphs | SIBOM.py:256-273 | `_MatchParagraphs`: a tag other than a table whose text `art_regex` matches (definition; its property is the next row) |
| Bulletin.MatchParagraphsIff | SIBOM.py:256-273 | a tag is kept as an article exactly when it is not a table and its text reads as an article heading |
| Bulletin.TablesAreNotArticles | SIBOM.py:256-296 | no tag is taken both as a table and as an article |
| Bulletin.PageUrl | SIBOM.py:177-178 | the address of index page i (definition; its properties are the next two rows) |
| Bulletin.PageUrlShape | SIBOM.py:177-178 | page 1 is the base address; every later page number reads back from "?page=N" |
| Bulletin.PageUrlInjective | SIBOM.py:177-178 | different pages have different addresses |
| Bulletin.IndexPages | SIBOM.py:177-178 | the five pages, in order: the base address, then "?page=2" to "?page=5" |

## Left out

- Parsing HTML: BeautifulSoup is not modelled. A table arrives as its rows
  of cell records (tag name, the `colspan`, `rowspan`, `width` and `style`
  attributes, and text) plus the caption text when there is a `caption` tag.
- Fonts and PIL: a font is a pair of measuring functions (`getsize_multiline`,
  `getsize`), and `GetImage`, `_CreateFontObj` and the footer take the
  loader `ImageFont.truetype` as a parameter. Drawing is reduced to
  coordinates. Not modelled: colours, the header fill, the borders, the
  logo file check, `img_format`, the PNG encoding and the warnings printed.
- The network and the file system: `_GetURL`, `GetAllURLs`,
  `ParsePublicacion`, `cuit_regex` and the search over the index pages in
  `GetLatestID` are not modelled, only the addresses it reads. The image
  files `GetTweets` writes, and their random names, are a parameter.
- Floating point: the factors 1.3 (pt, and the line height) and 3.8 (mm)
  are exact tenths, so `int(x * 1.3)` is `(13 * x) / 10` truncated toward
  zero.
- TableGrid.ReadCell: `int()` also accepts underscores between digits and
  non-ASCII decimal digits; the model's integer reader accepts only an
  optional sign and ASCII digits between whitespace.
- TableImage.TableToImg.ParseHtml: requires the reset state `GetImage`
  always leaves (`_ResetObj` runs first), and a median character width of
  at least 1 (a font whose "b" has no width would divide by zero in
  `_GetMaxChars`).
- TableImage.TableToImg.ParseHtml: when it raises, the model leaves the
  fields as they were. The source may already have set `total_row_count`,
  the caption and part of the cells.
- TableImage.TableToImg.ParseHtml: the `row_heights.append(0)` of the first
  loop is not modelled; the list is replaced before it is read. The
  running `total_table_width` and `accumulated_width` of the second loop
  are not modelled either; they are never read.
- TableImage.Upper: `str.upper()` is modelled for `a`..`z` and for the
  Latin-1 letters `à`..`þ` (except `÷`), whose capitals lie 32 code points
  below. Every other character is left as it is. This differs from Python
  for `ÿ` (capital U+0178), `µ` (capital U+039C), letters beyond Latin-1,
  and `ß`, which Python turns into the two letters "SS", so Python's result
  can be longer than the caption.
- Articles.MatchArticle: group 1 is read as ASCII digits only, while
  Python's `\d` matches every Unicode decimal digit. So a heading numbered
  with other digits (such as fullwidth `３`) matches in Python but not in
  the model, and MatchParagraphs and ArtSub differ from the source for it.
- Articles.SpanDigits: the digit run of `art_regex` uses the ASCII digit
  test, for the reason on the line above.
- Articles.IsWordChar: `\w` is modelled up to the end of Latin Extended-B
  (U+024F); word characters beyond it are not.
- Reflow.WrapLines: `textwrap` is modelled as greedy filling with long
  words broken at the width. It differs from `textwrap` in three ways:
  - runs of whitespace become one space;
  - leading whitespace is dropped;
  - hyphens give no break points.
- Reflow.RemoveSpacingNoDoubleSpace: "no double space" is proved only for
  text without newlines. Deleting only blanks is proved for any text
  (Reflow.RemoveSpacingDeletesBlanks).
- TableImage.TableToImg.GetImage: the result is the picture's layout,
  not the encoded image bytes.
