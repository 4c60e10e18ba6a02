# Table view and TOTP secret filter

This project models two pieces of the NAppGUI-based authenticator sources
in Dafny and proves properties of the model.

**The table view widget (`src/gui/tableview.c`).** Its per-widget record
`TData` is the class `TableView.TData`. It holds:
- the columns;
- the row count;
- the derived row height and document (content) width;
- the control size;
- the pointer position;
- the selection;
- the focus flag.

The event handlers are methods that update these fields in place. They are:
- resize (`i_OnSize`);
- pointer move, exit and press (`i_OnMove`, `i_OnExit`, `i_OnDown`);
- focus (`i_OnFocus`);
- the selection part of key presses (`i_OnKeyDown`);
- the row/column visibility walk of a repaint (`i_OnDraw`).

The public calls that add or change columns and rows are methods as well.
Each method is proved against a pure specification function:
- `ClickSelection` for a mouse press;
- `KeySelection` for a key press;
- `RowHeightOf` and `ContentWidthOf` for the derived sizes;
- `DrawOps` for the list of drawing operations a repaint issues.

The document width is the padded sum of the column widths, widened to the
control's width when narrower, so a row's background fill always spans at
least the control.

Lemmas then state what these functions promise:
- the selection stays a row index or "none" (`UINT32_MAX`) under clicks and
  keys, though `tableview_data_update` can leave it past a shrunken table;
- paging moves by a page and saturates at the ends;
- every drawn cell belongs to an existing row and a visible column, at its
  column's left edge;
- every visible cell of a drawn row is drawn.

C's `uint32_t` arithmetic is modelled as `CInt.uint32` with an explicit
reduction modulo 2^32 (`CInt.Wrap`) wherever the source's sums and products
can overflow.

**The secret field filter (`on_change_totp_secret`, `src/TFACGUI/main.c`).**
It runs on every edit. It copies at most 63 characters of the typed text
into a zeroed 64-byte buffer. Each character is upper-cased, and it is kept
at its own index only when it is a Base32 letter or digit (RFC 4648
section 6: `A`-`Z`, `2`-`7`) or the padding `=`. The field then shows the
buffer read as a C string.

`SecretFilter.OnChangeTotpSecret` keeps that loop and the 64-character
array. It is proved equal to `FilteredSecret`, which keeps the longest
prefix of the upper-cased input that contains only allowed characters, cut
at 63 characters. Several consequences are proved:
- a rejected character ends the secret;
- case does not matter;
- allowed input comes back upper-cased;
- the filter is idempotent.

The on-screen effects of the toolkit (scroll position, repaint requests,
the drawing calls themselves) are represented as follows:
- the repaint returns the list of `Clear`/`Fill`/`Text` operations it would
  issue;
- every float the C code converts with `(uint32_t)` is a `uint32` parameter
  holding the converted value;
- a column's font is represented by the text height it yields.

## Model

| member | source | states |
|---|---|---|
| TableView.RowHeightOf | src/gui/tableview.c:230-243 | the row height is at least every column's text height and equal to one of them; 0 without columns |
| TableView.TData.ComputeRowHeight | src/gui/tableview.c:230-243 | the accumulating loop leaves `rowHeight == RowHeightOf(columns)` |
| TableView.ContentWidthOf | src/gui/tableview.c:257-275 | the document width is at least the control width and at least the wrapped padded width sum, and is one of the two |
| TableView.TData.ComputeDocumentSize | src/gui/tableview.c:247-277 | the `uint32_t` running sum of widths plus both paddings, raised to the control width when below it, is `ContentWidthOf(columns, controlWidth)` (the width part; the height half is not modelled) |
| TableView.ContentWidthCoversControlAndColumns | src/gui/tableview.c:257-275 | the document is never narrower than the control; without overflow it is the larger of the padded width sum and the control width |
| TableView.ColumnsFitDocument | src/gui/tableview.c:257-275 | without overflow every column ends, with the right padding, inside the document width; the last exactly at its edge when the columns are at least as wide as the control |
| TableView.ColumnStartIsPaddingPlusWidths | src/gui/tableview.c:162-179 | when 4 plus the widths of columns 0..k-1 fits in 32 bits, column k starts there, and where column k-1 ends |
| TableView.ColumnStartNext | src/gui/tableview.c:176-179 | the running `x` after column k (modulo 2^32) is where column k+1 starts |
| TableView.UpdateKeepsGeometry | src/gui/tableview.c:587-596 | changing a column field other than its font keeps the row height; other than its width keeps the width sum |
| TableView.RowHeightAppend | src/gui/tableview.c:565-580 | appending a column raises the row height to its height if taller, and adds its width to the sum |
| TableView.TData.constructor | src/gui/tableview.c:75-82 | a new table has no columns, no rows, zero control size and row height, an 8-pixel document width, no focus and no selection (`UINT32_MAX`) |
| TableView.TData.OnSize | src/gui/tableview.c:281-288 | the control size is stored and the document width is recomputed for the new control width (`ContentWidthOf(columns, width)`) |
| TableView.TData.OnMove | src/gui/tableview.c:292-301 | the pointer height is stored |
| TableView.TData.OnExit | src/gui/tableview.c:305-310 | the pointer is forgotten (`UINT32_MAX`) |
| TableView.TData.OnFocus | src/gui/tableview.c:314-319 | the focus flag is stored |
| TableView.ClickSelection | src/gui/tableview.c:323-343 | a press keeps a valid selection (a row index or none) valid |
| TableView.ClickSelectsRowUnderPointer | src/gui/tableview.c:327-336 | with rows present a left click selects the row whose band contains `y`, and selects none exactly when `y` is below the last row; other buttons and empty tables keep the selection |
| TableView.TData.OnDown | src/gui/tableview.c:323-343 | the new selection is `ClickSelection` of the press and the old selection |
| TableView.KeySelection | src/gui/tableview.c:383-515 | a key press keeps a valid selection valid |
| TableView.KeySelectionInRange | src/gui/tableview.c:383-515 | from a valid selection, with rows present every navigation key ends on a row below `n`; LEFT, RIGHT, other keys and empty tables leave the selection alone |
| TableView.PageSizeIsWholeRows | src/gui/tableview.c:460 | a page is the number of whole rows that fit in the control height |
| TableView.PageUpTarget | src/gui/tableview.c:460-464 | PAGEUP from a row moves up by at most a page, by exactly a page unless it stops at row 0, and stops there exactly when the row is within a page of the top |
| TableView.UpDownStep | src/gui/tableview.c:400-433 | from a valid selection, UP goes to row 0 from none, else one row up, stopping at 0; DOWN goes to the last row from none, else one row down, stopping at the last row |
| TableView.HomeEndEnds | src/gui/tableview.c:434-449 | HOME always ends on row 0, END on row `n - 1` |
| TableView.PagingMovesByAPage | src/gui/tableview.c:450-489 | from a valid selection, PAGEUP moves up by `control_height / row_height` rows, saturating at 0; PAGEDOWN moves down by a page, saturating at `n - 1`; from none they go to the first and last row |
| TableView.StaleSelectionAfterShrink | src/gui/tableview.c:636-654 | a selection kept at or past a shrunken row count is not valid; UP moves it one row up, back into the table only when it was the row just past the end; DOWN leaves it; HOME brings it back to row 0 |
| TableView.PageDownTarget | src/gui/tableview.c:480-484 | the intended PAGEDOWN target is a row of the table at or below the current one |
| TableView.PageDownMovesDown | src/gui/tableview.c:480-484 | the intended PAGEDOWN moves down by at most a page, by exactly a page unless it stops at `n - 1`, and stops there exactly when a page would reach it |
| TableView.PageDownAsWritten | src/gui/tableview.c:480-484 | the PAGEDOWN test as written, with the `uint32_t` sum, still lands on a row below `n` |
| TableView.PageDownAgreesWithoutWrap | src/gui/tableview.c:480-484 | whenever `selected + psize` fits in 32 bits the test as written and the corrected one give the same row |
| TableView.PageDownAsWrittenWraps | src/gui/tableview.c:480-484 | with 2^32 - 1 rows, a 20-row page and row 2^32 - 12 selected, the wrapped test jumps to row 8 instead of the last row |
| TableView.TData.OnKeyDown | src/gui/tableview.c:383-515 | the new selection is `KeySelection` of the key and the old selection (PAGEDOWN with the corrected test) |
| TableView.TData.DataUpdate | src/gui/tableview.c:636-654 | the row count becomes what the listener reports; the selection is kept |
| TableView.ColumnTitle | src/gui/tableview.c:574 | a new column's default title starts with "Column " |
| TableView.Decimal | src/gui/tableview.c:574 | the printed number is a non-empty string of decimal digits, beginning with `0` only for 0 itself, which is "0" |
| TableView.DecimalRoundTrip | src/gui/tableview.c:574 | reading back the printed digits gives the number |
| TableView.ColumnTitleNamesIndex | src/gui/tableview.c:574 | a new column's title is "Column " and its index printed by `%d`: the index below 2^31, a minus sign and 2^32 minus the index above; no leading zeros in either case |
| TableView.TData.NewColumnText | src/gui/tableview.c:565-583 | exactly one column is appended, at the old column count, which is returned; it is a centred, non-editable, 150-pixel column titled by its index; existing columns are unchanged; the row height rises to the new column's text height if taller, the width sum grows by 150, and the derived sizes are recomputed |
| TableView.TData.SetColumnWidth | src/gui/tableview.c:587-596 | only the target column's width changes; the document width is recomputed |
| TableView.TData.SetHeaderTitle | src/gui/tableview.c:610-620 | only the target column's title changes |
| TableView.TData.SetHeaderAlign | src/gui/tableview.c:624-632 | only the target column's alignment changes; the derived sizes stay consistent |
| TableView.TData.MouseRowIsPointerRow | src/gui/tableview.c:155 | the pointer's row is the row band holding the pointer height, and none when the pointer has left |
| TableView.TData.StartRowIsFirstVisible | src/gui/tableview.c:153 | the first drawn row is the one whose band holds the top of the visible area |
| TableView.TData.RowStateMeaning | src/gui/tableview.c:161-174 | a row is drawn pressed exactly when selected, hot exactly when under the pointer and not selected, and in a focused state exactly when the control has the focus |
| TableView.TData.EndRow | src/gui/tableview.c:153-154 | the row after the last drawn one never exceeds the row count |
| TableView.TData.RowYNext | src/gui/tableview.c:156-195 | the running `y` of the row loop is row index times row height, modulo 2^32 |
| TableView.TData.CellAtStep | src/gui/tableview.c:176-187 | one step of the column loop: the cell is drawn exactly when neither skip test holds, and the next column starts at the running `x` |
| TableView.TData.DrawCells | src/gui/tableview.c:162-193 | the column loop emits, in column order, the cells of exactly the visible columns at their left edges |
| TableView.TData.CellsUpToFacts | src/gui/tableview.c:176-193 | every cell of a row lies in a visible column at its left edge; every visible column has its cell |
| TableView.TData.RowsBetweenFacts | src/gui/tableview.c:159-196 | the rows' cells lie in those rows and visible columns; fills span the document width and one row; every visible cell is present; the selected row is filled pressed |
| TableView.TData.RowsBetweenFills | src/gui/tableview.c:161-174 | each fill of the rows belongs to a row of the range that is the selected or the pointer's row, at its height and in its state; the pointer's row, when not selected, is filled hot |
| TableView.TData.DrawRow | src/gui/tableview.c:161-195 | one pass of the row loop issues exactly the row's fill (when selected or hot) and its visible cells, `RowOps` |
| TableView.TData.DrawOps | src/gui/tableview.c:138-201 | a repaint always starts by clearing, and does nothing else without columns or rows |
| TableView.TData.DrawnCellsInRange | src/gui/tableview.c:138-201 | a repaint draws cells only of rows from the first visible one below the end row (at most `num_rows`), of visible columns, at the column's left edge and the row's height; it fills only drawn rows that are selected or under the pointer, at the row's height and in the row's state |
| TableView.TData.VisibleCellsDrawn | src/gui/tableview.c:159-195 | every visible column of every drawn row is drawn in the row's state, and the selected row, when drawn, is filled in the pressed state, and the pointer's row, when drawn and not selected, in the hot state |
| TableView.TData.OnDraw | src/gui/tableview.c:138-201 | the repaint issues exactly `DrawOps`, and only the clear when there are no columns or no rows |
| TableView.GuiHelloGeometry | src/howto/guihello/table.c:82-96 | five columns of widths 100, 175, 50, 50, 170 and one text height make a 553-pixel document with rows one line high |
| TableView.GuiHelloNamedColumns | src/howto/guihello/table.c:79-91 | the demo's creation, five new columns and their titles give a consistent table with no rows and no selection whose five columns are "Name", "Address", "City", "Age" and "Position", each one text line high, 150 pixels wide, centred and not editable |
| TableView.AddTextColumns | src/howto/guihello/table.c:82-86 | repeated new text columns on an empty table give that many columns, column j titled "Column j" and otherwise the default 150-pixel centred, non-editable column of the given text height, with that row height; only the columns and derived sizes change |
| TableView.NameColumns | src/howto/guihello/table.c:87-91 | one title per column, in order: each column gets its title and keeps every other field; only the columns change |
| TableView.GuiHelloTable | src/howto/guihello/table.c:79-97 | the whole demo, once sized to 500 x 300, gives a 553-pixel document of 100 rows, and END then selects row 99 |
| SecretFilter.ToUpper | src/TFACGUI/main.c:71 | `toupper` maps each lower-case letter to the upper-case letter at the same place in the alphabet and leaves every other character alone |
| SecretFilter.IsSecretChar | src/TFACGUI/main.c:73-112 | every character the switch keeps is ASCII, not NUL, and already upper case |
| SecretFilter.CString | src/TFACGUI/main.c:115 | the text a buffer shows is its characters before the first NUL |
| SecretFilter.AllowedPrefix | src/TFACGUI/main.c:64-113 | the kept characters are the upper-cased input up to the first character whose upper-case form is not allowed |
| SecretFilter.FilteredSecret | src/TFACGUI/main.c:56-118 | the secret has at most 63 characters, all in `A`-`Z`, `2`-`7` or `=`; a NULL text gives the empty secret |
| SecretFilter.CStringOfFilledBuffer | src/TFACGUI/main.c:62-113 | a buffer holding each allowed upper-cased character at its own index, and NUL elsewhere, reads as the allowed prefix |
| SecretFilter.OnChangeTotpSecret | src/TFACGUI/main.c:56-118 | the loop over the zeroed 64-character buffer yields exactly `FilteredSecret` of the text |
| SecretFilter.LongestAllowedPrefixUnique | src/TFACGUI/main.c:64-113 | the longest allowed prefix within a cap is unique |
| SecretFilter.FilteredSecretIsLongestAllowedPrefix | src/TFACGUI/main.c:62-113 | the secret is the longest prefix of the upper-cased input made of allowed characters, capped at 63; a NUL ends it too |
| SecretFilter.FilterIgnoresCase | src/TFACGUI/main.c:71 | typing the secret in upper or lower case keeps the same secret |
| SecretFilter.AllowedInputKept | src/TFACGUI/main.c:64-113 | up to 63 allowed characters, in either case, come back as their upper-case form |
| SecretFilter.FilterIdempotent | src/TFACGUI/main.c:64-113 | filtering an already filtered secret returns it unchanged |
| SecretFilter.RejectedCharacterEndsSecret | src/TFACGUI/main.c:62-111 | a disallowed `1` in `jbsw1y3dp` cuts the secret to `JBSW` although allowed characters follow |

## Left out

- The height half of `i_document_size` reads the float scroll-bar height from the view and is not modelled. So are the content-size and scroll calls it makes.
- `i_update_sel_top` and `i_update_sel_bottom` scroll the view after a selection change. They go through float view calls and are not modelled; only the selection they follow is.
- The LEFT and RIGHT keys only scroll horizontally through float view calls. Their scrolling is not modelled; the model proves they leave the selection alone.
- `view_update` repaint requests and the `(uint32_t)` conversions of float event fields are not modelled. Each converted value is a `uint32` parameter.
- `i_text_height` and fonts are not modelled. A column's font is represented by the text height it yields (`textHeight`), which `NewColumnText` takes as a parameter. `tableview_header_font` only replaces the header font and is not modelled.
- The cell text is not modelled. It comes from the notify listener (`i_cell_data`), and `i_draw_cell` draws it through the drawing context. A `Text` operation records only its column, row, position and state. The header is not drawn by the source either.
- `tableview_OnNotify` and `tableview_size` only install a listener and size the view. `DataUpdate` takes the listener's answer as its parameter (0 without a listener).
- `TableView.TData.SetHeaderTitle`: the resource-pack lookup of the title (`_gui_respack_text`) is not modelled; the text is taken as given.
- `tableview_create`'s view and event wiring is not modelled, and neither are the destruction of the record and `i_remove_column`.
- `TableView.TData.NewColumnText` requires fewer than 2^32 - 1 columns, because the column index must fit in the `uint32_t` that is returned.
- `TableView.TData.OnDown` requires a non-zero row height for a left click on a non-empty table, because the source divides by it. `OnKeyDown` and `OnDraw` require the same where they divide.
- The column-id checks of `arrst_get` become preconditions (`id < |columns|`).
- `TableView.TData.OnKeyDown`, `TableView.KeySelection`, `TableView.KeySelectionInRange` and `TableView.PagingMovesByAPage` model PAGEDOWN with the corrected bound. `PageDownAsWritten` is the test as written (see Findings), and `PageDownAgreesWithoutWrap` proves the two differ only when `selected + psize` does not fit in 32 bits.
- The rest of `src/TFACGUI/main.c` is not modelled: clipboard, shell, the `update` timer computing the TOTP code, and window setup. The TOTP and Base32 library is not part of this model.
- The secret field passes bytes; the model uses characters. Every character the filter keeps is ASCII, so the two agree for the kept text, and `toupper` is modelled in the "C" locale.

## Findings

| source | as written | input that shows it | evidently intended | confidence | as-written member | corrected member |
|---|---|---|---|---|---|---|
| src/gui/tableview.c:481-484 | PAGEDOWN tests `selected + psize < n - 1` in `uint32_t`, so the sum wraps for selections near 2^32 | `n` = 2^32 - 1 rows, `psize` = 20, `selected` = 2^32 - 12: the sum wraps to 8 and PAGEDOWN jumps to row 8 | move down by a page, saturating at row `n - 1` | low: needs `selected + psize >= 2^32`, that is about 2^32 rows or a control about 2^32 pixels high; not executed | TableView.PageDownAsWritten | TableView.PageDownMovesDown |
