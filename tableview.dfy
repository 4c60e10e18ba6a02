/** The table-view widget of the GUI toolkit: the record its event handlers
    update in place (selected row, row and column geometry, mouse row,
    focus), the keyboard and mouse selection rules, and the window of rows
    and columns a repaint draws. All quantities are `uint32_t` in the
    widget; where its arithmetic can overflow, the model wraps modulo 2^32. */
module TableView {
  import opened CInt

  const LEFT_PADDING: uint32 := 4
  const RIGHT_PADDING: uint32 := 4
  /** Width of a column created by `tableview_new_column_text`. */
  const NEW_COLUMN_WIDTH: uint32 := 150

  datatype Align = Left | Center | Right | Justify

  /** A text column. `textHeight` is the height its font needs for a row
      (what the widget derives from the font's metrics). */
  datatype Column = Column(title: string, textHeight: uint32, width: uint32, align: Align, editable: bool)

  datatype MouseButton = MouseLeft | MouseRight | MouseMiddle

  datatype Key = KeyUp | KeyDown | KeyHome | KeyEnd | KeyPageUp | KeyPageDown
               | KeyLeft | KeyRight | KeyOther

  /** Control states the rows are painted in. */
  datatype CState = Normal | BkNormal | Pressed | BkPressed | Hot | BkHot

  /** What a repaint asks of the drawing context, in order: clear the
      control, fill a row's background, draw a cell's text. */
  datatype DrawOp =
    | Clear
    | Fill(y: uint32, width: uint32, height: uint32, state: CState)
    | Text(col: nat, row: uint32, x: uint32, y: uint32, state: CState)

  /** The visible area a repaint covers, converted to `uint32_t`. */
  datatype Viewport = Viewport(x: uint32, y: uint32, height: uint32)

  // ---------------------------------------------------------------------
  // Column geometry

  /** The height of a row: the tallest column, 0 without columns. */
  function RowHeightOf(cols: seq<Column>): (r: uint32)
    ensures forall k :: 0 <= k < |cols| ==> cols[k].textHeight <= r
    ensures cols == [] ==> r == 0
    ensures cols != [] ==> exists k :: 0 <= k < |cols| && r == cols[k].textHeight
  {
    if cols == [] then 0
    else
      var h := RowHeightOf(cols[..|cols| - 1]);
      var last := cols[|cols| - 1].textHeight;
      if last > h then last else h
  }

  /** Exact sum of the column widths. */
  function SumWidths(cols: seq<Column>): nat
  {
    if cols == [] then 0 else SumWidths(cols[..|cols| - 1]) + cols[|cols| - 1].width
  }

  /** The document width `i_document_size` stores: the width of all columns
      plus both paddings, summed in `uint32_t`, widened to the control's
      width when narrower. */
  function ContentWidthOf(cols: seq<Column>, controlWidth: uint32): (r: uint32)
    ensures r >= controlWidth
    ensures r >= Wrap(SumWidths(cols) + LEFT_PADDING + RIGHT_PADDING)
    ensures r == controlWidth || r == Wrap(SumWidths(cols) + LEFT_PADDING + RIGHT_PADDING)
  {
    var twidth := Wrap(SumWidths(cols) + LEFT_PADDING + RIGHT_PADDING);
    if twidth < controlWidth then controlWidth else twidth
  }

  /** Left edge of column `k` in a row. */
  function ColumnStart(cols: seq<Column>, k: nat): uint32
    requires k <= |cols|
  {
    Wrap(LEFT_PADDING + SumWidths(cols[..k]))
  }

  /** Right edge of column `k` in a row. */
  function ColumnEnd(cols: seq<Column>, k: nat): uint32
    requires k < |cols|
  {
    Wrap(ColumnStart(cols, k) + cols[k].width)
  }

  /** Column `k` is painted unless it lies wholly left of the visible area
      starting at `stx` or starts right of its right edge. */
  predicate ColumnVisible(cols: seq<Column>, k: nat, stx: uint32, controlWidth: uint32)
    requires k < |cols|
  {
    !(ColumnEnd(cols, k) < stx) && !(ColumnStart(cols, k) > Wrap(stx + controlWidth))
  }

  lemma ColumnStartNext(cols: seq<Column>, k: nat)
    requires k < |cols|
    ensures ColumnStart(cols, k + 1) == ColumnEnd(cols, k)
  {
    assert cols[..k + 1][..k] == cols[..k];
    WrapAdd(LEFT_PADDING + SumWidths(cols[..k]), cols[k].width);
  }

  /** The left edge of column `k` is the padding plus the widths of the
      columns before it, whenever those fit in 32 bits. */
  lemma ColumnStartIsPaddingPlusWidths(cols: seq<Column>, k: nat)
    requires k <= |cols|
    requires LEFT_PADDING + SumWidths(cols[..k]) <= UINT32_MAX
    ensures ColumnStart(cols, k) == LEFT_PADDING + SumWidths(cols[..k])
    ensures k > 0 ==> ColumnStart(cols, k) == ColumnEnd(cols, k - 1)
  {
    if k > 0 {
      ColumnStartNext(cols, k - 1);
    }
  }

  lemma {:induction false} SumWidthsPrefix(cols: seq<Column>, k: nat)
    requires k <= |cols|
    ensures SumWidths(cols[..k]) <= SumWidths(cols)
  {
    if k < |cols| {
      assert cols[..|cols| - 1][..k] == cols[..k];
      SumWidthsPrefix(cols[..|cols| - 1], k);
    } else {
      assert cols[..k] == cols;
    }
  }

  /** Unless the widths overflow, every column ends, with the right padding,
      inside the document width. */
  lemma ColumnsFitDocument(cols: seq<Column>, controlWidth: uint32, k: nat)
    requires k < |cols|
    requires SumWidths(cols) + LEFT_PADDING + RIGHT_PADDING <= UINT32_MAX
    ensures ColumnEnd(cols, k) + RIGHT_PADDING <= ContentWidthOf(cols, controlWidth)
    ensures k == |cols| - 1 && SumWidths(cols) + LEFT_PADDING + RIGHT_PADDING >= controlWidth ==>
      ColumnEnd(cols, k) + RIGHT_PADDING == ContentWidthOf(cols, controlWidth)
  {
    SumWidthsPrefix(cols, k + 1);
    ColumnStartNext(cols, k);
    if k == |cols| - 1 {
      assert cols[..k + 1] == cols;
    }
  }

  /** The document is never narrower than the control, and, unless the
      widths overflow, it is exactly the larger of the padded column widths
      and the control's width: the control width when the columns are
      narrower, the padded widths otherwise. */
  lemma ContentWidthCoversControlAndColumns(cols: seq<Column>, controlWidth: uint32)
    ensures ContentWidthOf(cols, controlWidth) >= controlWidth
    ensures SumWidths(cols) + LEFT_PADDING + RIGHT_PADDING <= UINT32_MAX ==>
      && ContentWidthOf(cols, controlWidth) >= SumWidths(cols) + LEFT_PADDING + RIGHT_PADDING
      && (ContentWidthOf(cols, controlWidth) == controlWidth || ContentWidthOf(cols, controlWidth) == SumWidths(cols) + LEFT_PADDING + RIGHT_PADDING)
      && (SumWidths(cols) + LEFT_PADDING + RIGHT_PADDING < controlWidth ==> ContentWidthOf(cols, controlWidth) == controlWidth)
  {
  }

  /** The row height depends on the columns' heights only. */
  lemma {:induction false} SameHeights(a: seq<Column>, b: seq<Column>)
    requires |a| == |b|
    requires forall k :: 0 <= k < |a| ==> a[k].textHeight == b[k].textHeight
    ensures RowHeightOf(a) == RowHeightOf(b)
  {
    if a != [] {
      SameHeights(a[..|a| - 1], b[..|b| - 1]);
    }
  }

  /** The total width depends on the columns' widths only. */
  lemma {:induction false} SameWidths(a: seq<Column>, b: seq<Column>)
    requires |a| == |b|
    requires forall k :: 0 <= k < |a| ==> a[k].width == b[k].width
    ensures SumWidths(a) == SumWidths(b)
  {
    if a != [] {
      SameWidths(a[..|a| - 1], b[..|b| - 1]);
    }
  }

  /** Replacing one column by one of the same height keeps the row height,
      and by one of the same width keeps the total width. */
  lemma UpdateKeepsGeometry(cols: seq<Column>, id: nat, c: Column)
    requires id < |cols|
    ensures c.textHeight == cols[id].textHeight ==> RowHeightOf(cols[id := c]) == RowHeightOf(cols)
    ensures c.width == cols[id].width ==> SumWidths(cols[id := c]) == SumWidths(cols)
  {
    if c.textHeight == cols[id].textHeight {
      SameHeights(cols[id := c], cols);
    }
    if c.width == cols[id].width {
      SameWidths(cols[id := c], cols);
    }
  }

  lemma RowHeightAppend(cols: seq<Column>, c: Column)
    ensures RowHeightOf(cols + [c]) == if c.textHeight > RowHeightOf(cols) then c.textHeight else RowHeightOf(cols)
    ensures SumWidths(cols + [c]) == SumWidths(cols) + c.width
  {
    assert (cols + [c])[..|cols|] == cols;
  }

  lemma AppendAssoc<T>(a: seq<T>, b: seq<T>, c: seq<T>)
    ensures (a + b) + c == a + (b + c)
  {
  }

  // ---------------------------------------------------------------------
  // Selection rules

  /** A selection is a row index or the sentinel `UINT32_MAX` ("none"). */
  predicate SelectionValid(sel: uint32, n: uint32)
  {
    sel < n || sel == UINT32_MAX
  }

  /** Selection after a mouse press at height `y` (`i_OnDown`). */
  function ClickSelection(button: MouseButton, y: uint32, rowHeight: uint32, n: uint32, sel: uint32): (r: uint32)
    requires n > 0 && button == MouseLeft ==> rowHeight > 0
    ensures SelectionValid(sel, n) ==> SelectionValid(r, n)
  {
    if n > 0 && button == MouseLeft then
      var row := y / rowHeight;
      if row >= n then UINT32_MAX else row
    else sel
  }

  /** A left click selects the row under the pointer, or clears the
      selection below the last row; anything else changes nothing. */
  lemma ClickSelectsRowUnderPointer(button: MouseButton, y: uint32, rowHeight: uint32, n: uint32, sel: uint32)
    requires n > 0 && button == MouseLeft ==> rowHeight > 0
    ensures var r := ClickSelection(button, y, rowHeight, n, sel);
      && (n > 0 && button == MouseLeft ==>
            (r < n <==> y < n * rowHeight) &&
            (r < n ==> r * rowHeight <= y < (r + 1) * rowHeight) &&
            (r >= n ==> r == UINT32_MAX))
      && (n == 0 || button != MouseLeft ==> r == sel)
  {
    if n > 0 && button == MouseLeft {
      var q := y / rowHeight;
      DivBounds(y, rowHeight);
      if q < n {
        MulMonotone(q + 1, n, rowHeight);
      } else {
        MulMonotone(n, q, rowHeight);
      }
    }
  }

  lemma DivBounds(y: nat, d: nat)
    requires d > 0
    ensures (y / d) * d <= y < (y / d + 1) * d
  {
    assert y == (y / d) * d + y % d;
    assert (y / d + 1) * d == (y / d) * d + d;
  }

  lemma MulMonotone(a: nat, b: nat, d: nat)
    requires a <= b
    ensures a * d <= b * d
  {
    assert b * d == a * d + (b - a) * d;
  }

  /** Whether handling `key` divides by the row height: PAGEUP or PAGEDOWN
      from a selected row that is not already at the target end. */
  predicate PagingFromRow(key: Key, sel: uint32, n: uint32)
  {
    n > 0 && sel != UINT32_MAX &&
    ((key == KeyPageUp && sel != 0) || (key == KeyPageDown && sel != n - 1))
  }

  /** Rows in a page: as many whole rows as the control is high. */
  function PageSize(controlHeight: uint32, rowHeight: uint32): uint32
    requires rowHeight > 0
  {
    controlHeight / rowHeight
  }

  /** A page is the number of whole rows that fit in the control. */
  lemma PageSizeIsWholeRows(controlHeight: uint32, rowHeight: uint32)
    requires rowHeight > 0
    ensures var p := PageSize(controlHeight, rowHeight);
      p * rowHeight <= controlHeight < (p + 1) * rowHeight
  {
    DivBounds(controlHeight, rowHeight);
  }

  /** PAGEUP from row `sel`: up by `psize` rows, stopping at row 0. */
  function PageUpTarget(sel: uint32, psize: uint32): (r: uint32)
    ensures r <= sel && sel - r <= psize
    ensures r == 0 || sel - r == psize
    ensures r == 0 <==> sel <= psize
  {
    if sel > psize then sel - psize else 0
  }

  /** PAGEDOWN as the widget writes it: the test `selected + psize < n - 1`
      is done in `uint32_t`, so the sum can wrap. */
  function PageDownAsWritten(sel: uint32, n: uint32, psize: uint32): (r: uint32)
    requires n > 0
    ensures r < n
  {
    var s := Wrap(sel + psize);
    if s < n - 1 then s else n - 1
  }

  /** PAGEDOWN as intended: down by `psize` rows, stopping at row `n - 1`. */
  function PageDownTarget(sel: uint32, n: uint32, psize: uint32): (r: uint32)
    requires n > 0
    ensures r < n
    ensures sel < n ==> sel <= r
  {
    if sel + psize < n - 1 then sel + psize else n - 1
  }

  /** The wrapped test lets PAGEDOWN near the end of a huge table jump back
      towards the top. */
  lemma PageDownAsWrittenWraps()
    ensures var sel, n, psize := UINT32_MAX - 11, UINT32_MAX, 20;
      PageDownAsWritten(sel, n, psize) == 8 < sel &&
      PageDownTarget(sel, n, psize) == n - 1
  {
  }

  /** As long as `selected + psize` fits in 32 bits the test as written and
      the corrected one agree: they differ only where the sum wraps. */
  lemma PageDownAgreesWithoutWrap(sel: uint32, n: uint32, psize: uint32)
    requires n > 0 && sel + psize < TWO_32
    ensures PageDownAsWritten(sel, n, psize) == PageDownTarget(sel, n, psize)
  {
  }

  /** The corrected PAGEDOWN moves down by `psize`, saturating at `n - 1`. */
  lemma PageDownMovesDown(sel: uint32, n: uint32, psize: uint32)
    requires 0 < n && sel < n
    ensures var r := PageDownTarget(sel, n, psize);
      && sel <= r < n && r - sel <= psize
      && (r == n - 1 || r == sel + psize)
      && (r == n - 1 <==> sel + psize >= n - 1)
  {
  }

  /** Selection after a key press (the selection part of `i_OnKeyDown`).
      `controlHeight / rowHeight` rows make a page. */
  function KeySelection(key: Key, sel: uint32, n: uint32, controlHeight: uint32, rowHeight: uint32): (r: uint32)
    requires PagingFromRow(key, sel, n) ==> rowHeight > 0
    ensures SelectionValid(sel, n) ==> SelectionValid(r, n)
  {
    if n == 0 then sel
    else
      match key
      case KeyUp =>
        if sel == UINT32_MAX then 0 else if sel > 0 then sel - 1 else sel
      case KeyDown =>
        if sel == UINT32_MAX then n - 1 else if sel < n - 1 then sel + 1 else sel
      case KeyHome => 0
      case KeyEnd => n - 1
      case KeyPageUp =>
        if sel == 0 then sel
        else if sel == UINT32_MAX then 0
        else PageUpTarget(sel, PageSize(controlHeight, rowHeight))
      case KeyPageDown =>
        if sel == n - 1 then sel
        else if sel == UINT32_MAX then n - 1
        else PageDownTarget(sel, n, PageSize(controlHeight, rowHeight))
      case _ => sel
  }

  predicate IsNavigationKey(key: Key)
  {
    key in {KeyUp, KeyDown, KeyHome, KeyEnd, KeyPageUp, KeyPageDown}
  }

  /** With rows present, every navigation key ends on a real row; LEFT,
      RIGHT and other keys, and any key on an empty table, leave the
      selection alone. */
  lemma KeySelectionInRange(key: Key, sel: uint32, n: uint32, controlHeight: uint32, rowHeight: uint32)
    requires PagingFromRow(key, sel, n) ==> rowHeight > 0
    requires SelectionValid(sel, n)
    ensures n > 0 && IsNavigationKey(key) ==> KeySelection(key, sel, n, controlHeight, rowHeight) < n
    ensures n == 0 || !IsNavigationKey(key) ==> KeySelection(key, sel, n, controlHeight, rowHeight) == sel
  {
  }

  /** `tableview_data_update` keeps the selection when the row count
      shrinks, so a row at or past the new count can stay selected. From
      there UP moves one row up, which is back in the table only when the
      old selection was the row just past the end; DOWN stays put; HOME
      returns to row 0. */
  lemma StaleSelectionAfterShrink(sel: uint32, n: uint32, controlHeight: uint32, rowHeight: uint32)
    requires 0 < n <= sel < UINT32_MAX
    ensures !SelectionValid(sel, n)
    ensures var up := KeySelection(KeyUp, sel, n, controlHeight, rowHeight);
      up == sel - 1 && (SelectionValid(up, n) <==> sel == n)
    ensures KeySelection(KeyDown, sel, n, controlHeight, rowHeight) == sel
    ensures KeySelection(KeyHome, sel, n, controlHeight, rowHeight) == 0
  {
  }

  /** UP selects row 0 from no selection, else moves up one row and stays
      at row 0; DOWN selects the last row from no selection, else moves down
      one row and stays at the last row. */
  lemma UpDownStep(sel: uint32, n: uint32, controlHeight: uint32, rowHeight: uint32)
    requires n > 0 && SelectionValid(sel, n)
    ensures var up := KeySelection(KeyUp, sel, n, controlHeight, rowHeight);
      && up < n
      && (sel == UINT32_MAX ==> up == 0)
      && (sel < n ==> up <= sel && sel - up <= 1 && (up == sel <==> sel == 0))
    ensures var down := KeySelection(KeyDown, sel, n, controlHeight, rowHeight);
      && down < n
      && (sel == UINT32_MAX ==> down == n - 1)
      && (sel < n ==> sel <= down && down - sel <= 1 && (down == sel <==> sel == n - 1))
  {
  }

  /** HOME always ends on row 0 and END on the last row. */
  lemma HomeEndEnds(sel: uint32, n: uint32, controlHeight: uint32, rowHeight: uint32)
    requires n > 0
    ensures KeySelection(KeyHome, sel, n, controlHeight, rowHeight) == 0
    ensures KeySelection(KeyEnd, sel, n, controlHeight, rowHeight) == n - 1
  {
  }

  /** PAGEUP moves up a page, saturating at 0; PAGEDOWN moves down a page,
      saturating at the last row; from no selection they go to the first
      and the last row. */
  lemma PagingMovesByAPage(sel: uint32, n: uint32, controlHeight: uint32, rowHeight: uint32)
    requires n > 0 && rowHeight > 0 && SelectionValid(sel, n)
    ensures var psize := PageSize(controlHeight, rowHeight);
      var up := KeySelection(KeyPageUp, sel, n, controlHeight, rowHeight);
      var down := KeySelection(KeyPageDown, sel, n, controlHeight, rowHeight);
      && (sel == UINT32_MAX ==> up == 0 && down == n - 1)
      && (sel < n ==> up <= sel && (up == 0 || sel - up == psize) && (up == 0 <==> sel <= psize))
      && (sel < n ==> sel <= down && (down == n - 1 || down - sel == psize) && (down == n - 1 <==> sel + psize >= n - 1))
  {
  }

  // ---------------------------------------------------------------------
  // Column titles

  function DigitChar(d: nat): char
    requires d < 10
  {
    "0123456789"[d]
  }

  /** Decimal digits of `n`, most significant first, without leading
      zeros: only 0 itself is written with a leading `0`, as "0". */
  function Decimal(n: nat): (s: string)
    ensures |s| >= 1
    ensures forall i :: 0 <= i < |s| ==> '0' <= s[i] <= '9'
    ensures s[0] == '0' <==> n == 0
    ensures n == 0 ==> s == "0"
  {
    if n < 10 then [DigitChar(n)]
    else
      var hi := Decimal(n / 10);
      assert (hi + [DigitChar(n % 10)])[0] == hi[0];
      hi + [DigitChar(n % 10)]
  }

  /** `str_printf("Column %d", n)`: the unsigned index printed through the
      signed conversion `%d`. */
  function ColumnTitle(n: uint32): (t: string)
    ensures |t| > 7 && t[..7] == "Column "
  {
    "Column " + if n < 0x8000_0000 then Decimal(n) else "-" + Decimal(TWO_32 - n)
  }

  /** The number a string of decimal digits denotes. */
  function DigitsValue(s: string): nat
    requires forall i :: 0 <= i < |s| ==> '0' <= s[i] <= '9'
  {
    if s == [] then 0 else DigitsValue(s[..|s| - 1]) * 10 + (s[|s| - 1] as int - '0' as int)
  }

  lemma DigitsValueAppend(s: string, d: nat)
    requires forall i :: 0 <= i < |s| ==> '0' <= s[i] <= '9'
    requires d < 10
    ensures forall i :: 0 <= i < |s + [DigitChar(d)]| ==> '0' <= (s + [DigitChar(d)])[i] <= '9'
    ensures DigitsValue(s + [DigitChar(d)]) == DigitsValue(s) * 10 + d
  {
    var t := s + [DigitChar(d)];
    assert t[..|t| - 1] == s;
    assert DigitChar(d) as int - '0' as int == d;
  }

  /** Reading back the digits `Decimal` writes gives the number. */
  lemma {:induction false} DecimalRoundTrip(n: nat)
    ensures DigitsValue(Decimal(n)) == n
  {
    if n < 10 {
      assert DigitChar(n) as int - '0' as int == n;
      assert [DigitChar(n)][..0] == [];
    } else {
      DecimalRoundTrip(n / 10);
      DigitsValueAppend(Decimal(n / 10), n % 10);
    }
  }

  /** The default title of column `n` is "Column " and the index as a
      signed 32-bit number, the way `%d` prints it: the index itself below
      2^31, and a minus sign followed by 2^32 - n from there on, in either
      case without leading zeros. */
  lemma ColumnTitleNamesIndex(n: uint32)
    ensures var t := ColumnTitle(n);
      && |t| > 7 && t[..7] == "Column "
      && (n < 0x8000_0000 ==> (forall i :: 7 <= i < |t| ==> '0' <= t[i] <= '9') && DigitsValue(t[7..]) == n
                              && (|t| == 8 || t[7] != '0'))
      && (n >= 0x8000_0000 ==> t[7] == '-' && |t| > 8 && (forall i :: 8 <= i < |t| ==> '0' <= t[i] <= '9') && DigitsValue(t[8..]) == TWO_32 - n
                               && t[8] != '0')
  {
    var t := ColumnTitle(n);
    if n < 0x8000_0000 {
      assert t[7..] == Decimal(n);
      DecimalRoundTrip(n);
    } else {
      assert t[8..] == Decimal(TWO_32 - n);
      DecimalRoundTrip(TWO_32 - n);
    }
  }

  // ---------------------------------------------------------------------
  // The widget's record

  class TData {
    var columns: seq<Column>
    var numRows: uint32
    var rowHeight: uint32
    var mouseYPos: uint32
    var controlWidth: uint32
    var controlHeight: uint32
    var contentWidth: uint32
    var selected: uint32
    var focused: bool

    /** The derived sizes agree with the columns and the control size. */
    ghost predicate Valid()
      reads this
    {
      && |columns| <= UINT32_MAX
      && rowHeight == RowHeightOf(columns)
      && contentWidth == ContentWidthOf(columns, controlWidth)
    }

    /** `tableview_create`: a zeroed record with no selection (`i_create_data`),
        whose document size is then computed. */
    constructor ()
      ensures Valid()
      ensures columns == [] && numRows == 0 && rowHeight == 0
      ensures selected == UINT32_MAX && mouseYPos == 0 && !focused
      ensures controlWidth == 0 && controlHeight == 0
      ensures contentWidth == LEFT_PADDING + RIGHT_PADDING
    {
      columns := [];
      numRows, rowHeight, mouseYPos := 0, 0, 0;
      controlWidth, controlHeight, contentWidth := 0, 0, 0;
      selected := UINT32_MAX;
      focused := false;
      new;
      ComputeDocumentSize();
    }

    /** `i_row_height`: the tallest column. */
    method ComputeRowHeight()
      modifies this`rowHeight
      ensures rowHeight == RowHeightOf(columns)
    {
      rowHeight := 0;
      var k := 0;
      while k < |columns|
        invariant 0 <= k <= |columns|
        invariant rowHeight == RowHeightOf(columns[..k])
      {
        assert columns[..k + 1][..k] == columns[..k];
        if columns[k].textHeight > rowHeight {
          rowHeight := columns[k].textHeight;
        }
        k := k + 1;
      }
      assert columns[..k] == columns;
    }

    /** The width half of `i_document_size`. */
    method ComputeDocumentSize()
      modifies this`contentWidth
      ensures contentWidth == ContentWidthOf(columns, controlWidth)
    {
      var twidth: uint32 := 0;
      var k := 0;
      while k < |columns|
        invariant 0 <= k <= |columns|
        invariant twidth == Wrap(SumWidths(columns[..k]))
      {
        assert columns[..k + 1][..k] == columns[..k];
        WrapAdd(SumWidths(columns[..k]), columns[k].width);
        twidth := Wrap(twidth + columns[k].width);
        k := k + 1;
      }
      assert columns[..k] == columns;
      WrapAdd(SumWidths(columns), LEFT_PADDING + RIGHT_PADDING);
      twidth := Wrap(twidth + LEFT_PADDING + RIGHT_PADDING);
      if twidth < controlWidth {
        twidth := controlWidth;
      }
      contentWidth := twidth;
    }

    /** `i_OnSize`: record the control's new size and recompute the document. */
    method OnSize(width: uint32, height: uint32)
      requires Valid()
      modifies this`controlWidth, this`controlHeight, this`contentWidth
      ensures Valid()
      ensures controlWidth == width && controlHeight == height
      ensures contentWidth == ContentWidthOf(columns, width)
    {
      controlWidth := width;
      controlHeight := height;
      ComputeDocumentSize();
    }

    /** `i_OnMove`: remember the pointer's height. */
    method OnMove(y: uint32)
      modifies this`mouseYPos
      ensures mouseYPos == y
    {
      mouseYPos := y;
    }

    /** `i_OnExit`: the pointer left; no row is hot. */
    method OnExit()
      modifies this`mouseYPos
      ensures mouseYPos == UINT32_MAX
    {
      mouseYPos := UINT32_MAX;
    }

    /** `i_OnFocus`. */
    method OnFocus(isFocused: bool)
      modifies this`focused
      ensures focused == isFocused
    {
      focused := isFocused;
    }

    /** `i_OnDown`: a left click selects the row under the pointer. */
    method OnDown(button: MouseButton, y: uint32)
      requires numRows > 0 && button == MouseLeft ==> rowHeight > 0
      modifies this`selected
      ensures selected == ClickSelection(button, y, rowHeight, numRows, old(selected))
    {
      var n := numRows;
      if n > 0 && button == MouseLeft {
        var sel := y / rowHeight;
        if sel >= n {
          sel := UINT32_MAX;
        }
        if sel != selected {
          selected := sel;
        }
      }
    }

    /** The selection part of `i_OnKeyDown`. */
    method OnKeyDown(key: Key)
      requires PagingFromRow(key, selected, numRows) ==> rowHeight > 0
      modifies this`selected
      ensures selected == KeySelection(key, old(selected), numRows, controlHeight, rowHeight)
    {
      var n := numRows;
      if n > 0 {
        match key {
          case KeyUp =>
            if selected == UINT32_MAX {
              selected := 0;
            } else if selected > 0 {
              selected := selected - 1;
            }
          case KeyDown =>
            if selected == UINT32_MAX {
              selected := n - 1;
            } else if selected < n - 1 {
              selected := selected + 1;
            }
          case KeyHome =>
            // the widget tests `selected != 0 || scroll_y > 0`; either way row 0 ends selected
            selected := 0;
          case KeyEnd =>
            if selected != n - 1 {
              selected := n - 1;
            }
          case KeyPageUp =>
            if selected != 0 {
              if selected == UINT32_MAX {
                selected := 0;
              } else {
                var psize := PageSize(controlHeight, rowHeight);
                if selected > psize {
                  selected := selected - psize;
                } else {
                  selected := 0;
                }
              }
            }
          case KeyPageDown =>
            if selected != n - 1 {
              if selected == UINT32_MAX {
                selected := n - 1;
              } else {
                var psize := PageSize(controlHeight, rowHeight);
                // the widget adds in `uint32_t`, which can wrap (PageDownAsWritten)
                if selected + psize < n - 1 {
                  selected := selected + psize;
                } else {
                  selected := n - 1;
                }
              }
            }
          case _ =>
            // LEFT and RIGHT only scroll
        }
      }
    }

    /** `tableview_data_update`: the row count is asked anew (`rows` is what
        the notify listener answers, 0 without one); the selection is kept. */
    method DataUpdate(rows: uint32)
      modifies this`numRows
      ensures numRows == rows
    {
      numRows := rows;
    }

    /** `tableview_new_column_text`: append a default text column and return
        its index. */
    method NewColumnText(textHeight: uint32) returns (id: uint32)
      requires Valid() && |columns| < UINT32_MAX
      modifies this`columns, this`rowHeight, this`contentWidth
      ensures Valid()
      ensures id == |old(columns)|
      ensures columns == old(columns) + [Column(ColumnTitle(id), textHeight, NEW_COLUMN_WIDTH, Center, false)]
      ensures rowHeight == if textHeight > old(rowHeight) then textHeight else old(rowHeight)
      ensures SumWidths(columns) == SumWidths(old(columns)) + NEW_COLUMN_WIDTH
    {
      id := |columns|;
      var c := Column(ColumnTitle(id), textHeight, NEW_COLUMN_WIDTH, Center, false);
      RowHeightAppend(columns, c);
      columns := columns + [c];
      ComputeRowHeight();
      ComputeDocumentSize();
    }

    /** `tableview_column_width`: set one column's width. */
    method SetColumnWidth(id: uint32, width: uint32)
      requires Valid() && id < |columns|
      modifies this`columns, this`contentWidth
      ensures Valid()
      ensures columns == old(columns)[id := old(columns)[id].(width := width)]
    {
      var c := columns[id].(width := width);
      UpdateKeepsGeometry(columns, id, c);
      columns := columns[id := c];
      ComputeDocumentSize();
    }

    /** `tableview_header_title`: set one column's title (`text` is the
        string after resource lookup). */
    method SetHeaderTitle(id: uint32, text: string)
      requires Valid() && id < |columns|
      modifies this`columns
      ensures Valid()
      ensures columns == old(columns)[id := old(columns)[id].(title := text)]
    {
      var c := columns[id].(title := text);
      UpdateKeepsGeometry(columns, id, c);
      columns := columns[id := c];
    }

    /** `tableview_header_align`: set one column's alignment. */
    method SetHeaderAlign(id: uint32, align: Align)
      requires Valid() && id < |columns|
      modifies this`columns
      ensures Valid()
      ensures columns == old(columns)[id := old(columns)[id].(align := align)]
    {
      var c := columns[id].(align := align);
      UpdateKeepsGeometry(columns, id, c);
      columns := columns[id := c];
    }

    // -------------------------------------------------------------------
    // Repainting (`i_OnDraw`)

    function MouseRow(): uint32
      requires rowHeight > 0
      reads this
    {
      if mouseYPos != UINT32_MAX then mouseYPos / rowHeight else UINT32_MAX
    }

    function RowY(i: uint32): uint32
      reads this
    {
      Wrap(i * rowHeight)
    }

    /** The state row `i` is painted in: pressed when selected, hot under
        the pointer, normal otherwise; the "Bk" forms without focus. */
    function RowState(i: uint32, mouseRow: uint32): CState
      reads this
    {
      if selected == i then (if focused then Pressed else BkPressed)
      else if i == mouseRow then (if focused then Hot else BkHot)
      else (if focused then Normal else BkNormal)
    }

    /** A row is pressed exactly when selected, hot exactly when it is the
        pointer's row and not selected, and drawn in a focused state
        exactly when the control has the focus. */
    lemma RowStateMeaning(i: uint32, mouseRow: uint32)
      ensures var r := RowState(i, mouseRow);
        && (r in {Pressed, BkPressed} <==> selected == i)
        && (r in {Hot, BkHot} <==> selected != i && i == mouseRow)
        && (r in {Normal, Pressed, Hot} <==> focused)
    {
    }

    /** The text of column `k` in row `row`, when that column is visible. */
    function CellAt(row: uint32, stx: uint32, state: CState, k: nat): seq<DrawOp>
      requires k < |columns|
      reads this
    {
      if ColumnVisible(columns, k, stx, controlWidth)
      then [Text(k, row, ColumnStart(columns, k), RowY(row), state)]
      else []
    }

    /** The painted cells of columns `0` to `k - 1` of one row. */
    function CellsUpTo(row: uint32, stx: uint32, state: CState, k: nat): seq<DrawOp>
      requires k <= |columns|
      reads this
    {
      if k == 0 then [] else CellsUpTo(row, stx, state, k - 1) + CellAt(row, stx, state, k - 1)
    }

    /** Row `i`: its background fill when selected or hot, then its cells. */
    function RowOps(i: uint32, stx: uint32, mouseRow: uint32): seq<DrawOp>
      reads this
    {
      (if selected == i || i == mouseRow
       then [Fill(RowY(i), contentWidth, rowHeight, RowState(i, mouseRow))]
       else [])
      + CellsUpTo(i, stx, RowState(i, mouseRow), |columns|)
    }

    /** Rows `lo` up to (excluding) `hi`. */
    function RowsBetween(lo: uint32, hi: uint32, stx: uint32, mouseRow: uint32): seq<DrawOp>
      reads this
      decreases hi
    {
      if hi <= lo then [] else RowsBetween(lo, hi - 1, stx, mouseRow) + RowOps(hi - 1, stx, mouseRow)
    }

    lemma RowsBetweenNext(lo: uint32, i: uint32, stx: uint32, mouseRow: uint32)
      requires lo <= i < UINT32_MAX
      ensures RowsBetween(lo, i + 1, stx, mouseRow) == RowsBetween(lo, i, stx, mouseRow) + RowOps(i, stx, mouseRow)
    {
    }

    /** First row a repaint of `vp` draws. */
    function StartRow(vp: Viewport): uint32
      requires rowHeight > 0
      reads this
    {
      vp.y / rowHeight
    }

    /** The pointer's row is the row band holding its height, and none
        when the pointer is outside. */
    lemma MouseRowIsPointerRow()
      requires rowHeight > 0
      ensures mouseYPos == UINT32_MAX ==> MouseRow() == UINT32_MAX
      ensures mouseYPos != UINT32_MAX ==> MouseRow() * rowHeight <= mouseYPos < (MouseRow() + 1) * rowHeight
    {
      DivBounds(mouseYPos, rowHeight);
    }

    /** The first drawn row is the one whose band holds the top of the
        visible area. */
    lemma StartRowIsFirstVisible(vp: Viewport)
      requires rowHeight > 0
      ensures StartRow(vp) * rowHeight <= vp.y < (StartRow(vp) + 1) * rowHeight
    {
      DivBounds(vp.y, rowHeight);
    }

    /** Row after the last one a repaint of `vp` draws: the visible rows
        plus two, but no further than the table. */
    function EndRow(vp: Viewport): (r: uint32)
      requires rowHeight > 0
      reads this
      ensures r <= numRows
    {
      MinU32(numRows, Wrap(StartRow(vp) + vp.height / rowHeight + 2))
    }

    /** Everything a repaint of `vp` draws. */
    function DrawOps(vp: Viewport): (r: seq<DrawOp>)
      requires |columns| > 0 && numRows > 0 ==> rowHeight > 0
      reads this
      ensures |r| >= 1 && r[0] == Clear
      ensures |columns| == 0 || numRows == 0 ==> r == [Clear]
    {
      [Clear] +
      if |columns| > 0 && numRows > 0
      then RowsBetween(StartRow(vp), EndRow(vp), vp.x, MouseRow())
      else []
    }

    /** The column loop of `i_OnDraw` for row `row` at height `y`: a
        running `x` gives each column's left edge, and columns wholly
        outside the visible area are skipped. */
    method DrawCells(row: uint32, y: uint32, stx: uint32, state: CState) returns (cells: seq<DrawOp>)
      requires y == RowY(row)
      ensures cells == CellsUpTo(row, stx, state, |columns|)
    {
      var nc := |columns|;
      var x: uint32 := LEFT_PADDING;
      cells := [];
      var k := 0;
      while k < nc
        invariant 0 <= k <= nc
        invariant x == ColumnStart(columns, k)
        invariant cells == CellsUpTo(row, stx, state, k)
      {
        var colSt := x;
        x := Wrap(x + columns[k].width);
        CellAtStep(row, stx, state, k, colSt, x);
        if x < stx {
          // wholly left of the visible area
        } else if colSt > Wrap(stx + controlWidth) {
          // wholly right of the visible area
        } else {
          cells := cells + [Text(k, row, colSt, y, state)];
        }
        k := k + 1;
      }
    }

    /** One step of the column loop: with `colSt` and `x` the column's
        edges, the cell of column `k` is drawn exactly when neither skip
        test holds, and the next column starts at `x`. */
    lemma CellAtStep(row: uint32, stx: uint32, state: CState, k: nat, colSt: uint32, x: uint32)
      requires k < |columns|
      requires colSt == ColumnStart(columns, k) && x == Wrap(colSt + columns[k].width)
      ensures x == ColumnStart(columns, k + 1)
      ensures CellsUpTo(row, stx, state, k + 1) == CellsUpTo(row, stx, state, k) +
        if x < stx || colSt > Wrap(stx + controlWidth) then [] else [Text(k, row, colSt, RowY(row), state)]
    {
      ColumnStartNext(columns, k);
    }

    /** The running `y` of the row loop is the row's index times the row
        height, modulo 2^32. */
    lemma RowYNext(i: uint32)
      requires i < UINT32_MAX
      ensures RowY(i + 1) == Wrap(RowY(i) + rowHeight)
    {
      WrapAdd(i * rowHeight, rowHeight);
      assert (i + 1) * rowHeight == i * rowHeight + rowHeight;
    }

    lemma {:induction false} CellsUpToFacts(row: uint32, stx: uint32, state: CState, k: nat)
      requires k <= |columns|
      ensures forall op :: op in CellsUpTo(row, stx, state, k) ==>
        && op.Text? && op.row == row && op.col < k && op.state == state && op.y == RowY(row)
        && ColumnVisible(columns, op.col, stx, controlWidth) && op.x == ColumnStart(columns, op.col)
      ensures forall j :: 0 <= j < k && ColumnVisible(columns, j, stx, controlWidth) ==>
        Text(j, row, ColumnStart(columns, j), RowY(row), state) in CellsUpTo(row, stx, state, k)
    {
      if k > 0 {
        CellsUpToFacts(row, stx, state, k - 1);
      }
    }

    lemma {:induction false} RowsBetweenFacts(lo: uint32, hi: uint32, stx: uint32, mouseRow: uint32)
      ensures forall op :: op in RowsBetween(lo, hi, stx, mouseRow) && op.Text? ==>
        && lo <= op.row < hi && op.col < |columns| && op.y == RowY(op.row)
        && op.state == RowState(op.row, mouseRow)
        && ColumnVisible(columns, op.col, stx, controlWidth) && op.x == ColumnStart(columns, op.col)
      ensures forall op :: op in RowsBetween(lo, hi, stx, mouseRow) && op.Fill? ==>
        op.width == contentWidth && op.height == rowHeight && op.state in {Pressed, BkPressed, Hot, BkHot}
      ensures forall i: uint32, j :: lo <= i < hi && 0 <= j < |columns| && ColumnVisible(columns, j, stx, controlWidth) ==>
        Text(j, i, ColumnStart(columns, j), RowY(i), RowState(i, mouseRow)) in RowsBetween(lo, hi, stx, mouseRow)
      ensures lo <= selected < hi ==>
        Fill(RowY(selected), contentWidth, rowHeight, if focused then Pressed else BkPressed) in RowsBetween(lo, hi, stx, mouseRow)
      decreases hi
    {
      if lo < hi {
        RowsBetweenFacts(lo, hi - 1, stx, mouseRow);
        CellsUpToFacts(hi - 1, stx, RowState(hi - 1, mouseRow), |columns|);
      }
    }

    /** The background fills of rows `lo` up to `hi`: each belongs to a row
        of the range that is selected or under the pointer, at its height
        and in its state; the pointer's row, when not selected, is filled
        in the hot state. */
    lemma {:induction false} RowsBetweenFills(lo: uint32, hi: uint32, stx: uint32, mouseRow: uint32)
      ensures forall op :: op in RowsBetween(lo, hi, stx, mouseRow) && op.Fill? ==>
        exists i: uint32 :: lo <= i < hi && (i == selected || i == mouseRow)
          && op.y == RowY(i) && op.state == RowState(i, mouseRow)
      ensures lo <= mouseRow < hi && mouseRow != selected ==>
        Fill(RowY(mouseRow), contentWidth, rowHeight, if focused then Hot else BkHot) in RowsBetween(lo, hi, stx, mouseRow)
      decreases hi
    {
      if lo < hi {
        var last: uint32 := hi - 1;
        RowsBetweenFills(lo, last, stx, mouseRow);
        CellsUpToFacts(last, stx, RowState(last, mouseRow), |columns|);
        forall op | op in RowOps(last, stx, mouseRow) && op.Fill?
          ensures lo <= last < hi && (last == selected || last == mouseRow)
            && op.y == RowY(last) && op.state == RowState(last, mouseRow)
        {
        }
      }
    }

    /** A repaint draws only cells of existing rows and columns: rows from
        the first visible one up to the end row (at most `numRows`), each
        cell at its column's left edge and its row's height, and only
        columns that overlap the visible area. Background fills span the
        document width and one row, and belong to a drawn row that is the
        selected row or the pointer's row, at that row's height and in its
        state. */
    lemma DrawnCellsInRange(vp: Viewport)
      requires |columns| > 0 && numRows > 0 ==> rowHeight > 0
      ensures |columns| > 0 && numRows > 0 ==>
        forall op :: op in DrawOps(vp) && op.Text? ==>
          && StartRow(vp) <= op.row < EndRow(vp) <= numRows
          && op.col < |columns| && ColumnVisible(columns, op.col, vp.x, controlWidth)
          && op.x == ColumnStart(columns, op.col) && op.y == RowY(op.row)
      ensures forall op :: op in DrawOps(vp) && op.Text? ==> op.row < numRows && op.col < |columns|
      ensures forall op :: op in DrawOps(vp) && op.Fill? ==> op.width == contentWidth && op.height == rowHeight
      ensures |columns| > 0 && numRows > 0 ==>
        forall op :: op in DrawOps(vp) && op.Fill? ==>
          exists i: uint32 :: StartRow(vp) <= i < EndRow(vp) && (i == selected || i == MouseRow())
            && op.y == RowY(i) && op.state == RowState(i, MouseRow())
    {
      if |columns| > 0 && numRows > 0 {
        RowsBetweenFacts(StartRow(vp), EndRow(vp), vp.x, MouseRow());
        RowsBetweenFills(StartRow(vp), EndRow(vp), vp.x, MouseRow());
      }
    }

    /** Conversely, every visible column of every drawn row is drawn, in the
        row's state, the selected row is filled in the pressed state
        whenever it is among the drawn rows, and the pointer's row, when
        drawn and not selected, is filled in the hot state. */
    lemma VisibleCellsDrawn(vp: Viewport)
      requires |columns| > 0 && numRows > 0
      requires rowHeight > 0
      ensures forall i: uint32, j :: StartRow(vp) <= i < EndRow(vp) && 0 <= j < |columns| && ColumnVisible(columns, j, vp.x, controlWidth) ==>
        Text(j, i, ColumnStart(columns, j), RowY(i), RowState(i, MouseRow())) in DrawOps(vp)
      ensures StartRow(vp) <= selected < EndRow(vp) ==>
        Fill(RowY(selected), contentWidth, rowHeight, if focused then Pressed else BkPressed) in DrawOps(vp)
      ensures StartRow(vp) <= MouseRow() < EndRow(vp) && MouseRow() != selected ==>
        Fill(RowY(MouseRow()), contentWidth, rowHeight, if focused then Hot else BkHot) in DrawOps(vp)
    {
      RowsBetweenFacts(StartRow(vp), EndRow(vp), vp.x, MouseRow());
      RowsBetweenFills(StartRow(vp), EndRow(vp), vp.x, MouseRow());
    }

    /** One pass of the row loop of `i_OnDraw`: the row's state, its
        background fill when it is selected or under the pointer, then its
        cells. */
    method DrawRow(i: uint32, y: uint32, stx: uint32, mouseRow: uint32) returns (rowOps: seq<DrawOp>)
      requires y == RowY(i)
      ensures rowOps == RowOps(i, stx, mouseRow)
    {
      rowOps := [];
      var state := if focused then Normal else BkNormal;
      if selected == i {
        state := if focused then Pressed else BkPressed;
        rowOps := [Fill(y, contentWidth, rowHeight, state)];
      } else if i == mouseRow {
        state := if focused then Hot else BkHot;
        rowOps := [Fill(y, contentWidth, rowHeight, state)];
      }
      assert state == RowState(i, mouseRow);
      var cells := DrawCells(i, y, stx, state);
      rowOps := rowOps + cells;
    }

    method OnDraw(vp: Viewport) returns (ops: seq<DrawOp>)
      requires |columns| > 0 && numRows > 0 ==> rowHeight > 0
      ensures ops == DrawOps(vp)
      ensures |columns| == 0 || numRows == 0 ==> ops == [Clear]
    {
      var nc := |columns|;
      var nr := numRows;
      ops := [Clear];
      if nc > 0 && nr > 0 {
        var stx := vp.x;
        var strow := StartRow(vp);
        var edrow := EndRow(vp);
        var mouseRow := MouseRow();
        var y: uint32 := RowY(strow);
        var i := strow;
        while i < edrow
          invariant strow <= i && (i <= edrow || i == strow)
          invariant y == RowY(i)
          invariant ops == [Clear] + RowsBetween(strow, i, stx, mouseRow)
          decreases edrow as int - i
        {
          var rowOps := DrawRow(i, y, stx, mouseRow);
          RowsBetweenNext(strow, i, stx, mouseRow);
          AppendAssoc([Clear], RowsBetween(strow, i, stx, mouseRow), rowOps);
          ops := ops + rowOps;
          RowYNext(i);
          y := Wrap(y + rowHeight);
          i := i + 1;
        }
      }
    }
  }

  // ---------------------------------------------------------------------
  // A client: the five-column table of the "guihello" demo

  /** The widths and heights of the demo's columns. */
  ghost predicate GuiHelloColumns(cols: seq<Column>, textHeight: uint32)
  {
    && |cols| == 5
    && cols[0].width == 100 && cols[1].width == 175 && cols[2].width == 50
    && cols[3].width == 50 && cols[4].width == 170
    && forall k :: 0 <= k < 5 ==> cols[k].textHeight == textHeight
  }

  lemma GuiHelloGeometry(cols: seq<Column>, textHeight: uint32)
    requires GuiHelloColumns(cols, textHeight)
    ensures ContentWidthOf(cols, 500) == 553
    ensures RowHeightOf(cols) == textHeight
  {
    assert cols[..1][..0] == [];
    assert SumWidths(cols[..1]) == 100;
    assert cols[..2][..1] == cols[..1];
    assert SumWidths(cols[..2]) == 275;
    assert cols[..3][..2] == cols[..2];
    assert SumWidths(cols[..3]) == 325;
    assert cols[..4][..3] == cols[..3];
    assert SumWidths(cols[..4]) == 375;
    assert cols[..4] == cols[..|cols| - 1];
    assert SumWidths(cols) == 545;
    assert RowHeightOf(cols) <= textHeight;
  }

  /** The first half of the demo: a new table with five new text columns,
      all one text line high, named "Name", "Address", "City", "Age" and
      "Position". The demo's five `tableview_new_column_text` and five
      `tableview_header_title` calls are written as two loops. */
  method GuiHelloNamedColumns(textHeight: uint32) returns (table: TData)
    ensures fresh(table) && table.Valid()
    ensures table.numRows == 0 && table.selected == UINT32_MAX
    ensures |table.columns| == 5
    ensures forall j :: 0 <= j < 5 ==>
      (table.columns[j] == Column(["Name", "Address", "City", "Age", "Position"][j], textHeight, NEW_COLUMN_WIDTH, Center, false))
  {
    table := new TData();
    AddTextColumns(table, 5, textHeight);
    var titles := ["Name", "Address", "City", "Age", "Position"];
    NameColumns(table, titles);
  }

  /** `count` calls of `tableview_new_column_text` on a table without
      columns: column `j` is the default text column titled by `j`. */
  method AddTextColumns(table: TData, count: nat, textHeight: uint32)
    requires table.Valid() && table.columns == [] && count < UINT32_MAX
    modifies table`columns, table`rowHeight, table`contentWidth
    ensures table.Valid()
    ensures |table.columns| == count
    ensures table.rowHeight == if count == 0 then 0 else textHeight
    ensures forall j :: 0 <= j < count ==>
      table.columns[j] == Column(ColumnTitle(j as uint32), textHeight, NEW_COLUMN_WIDTH, Center, false)
  {
    var k := 0;
    while k < count
      invariant 0 <= k <= count
      invariant table.Valid()
      invariant |table.columns| == k
      invariant table.rowHeight == if k == 0 then 0 else textHeight
      invariant forall j :: 0 <= j < k ==>
        table.columns[j] == Column(ColumnTitle(j as uint32), textHeight, NEW_COLUMN_WIDTH, Center, false)
    {
      ghost var before := table.columns;
      var id := table.NewColumnText(textHeight);
      assert table.columns[..k] == before;
      k := k + 1;
    }
  }

  /** One `tableview_header_title` call per column, in column order: each
      column gets its title and keeps everything else. */
  method NameColumns(table: TData, titles: seq<string>)
    requires table.Valid() && |table.columns| == |titles|
    modifies table`columns
    ensures table.Valid()
    ensures |table.columns| == |titles|
    ensures forall j :: 0 <= j < |titles| ==> table.columns[j] == old(table.columns[j]).(title := titles[j])
  {
    var k := 0;
    while k < |titles|
      invariant 0 <= k <= |titles|
      invariant table.Valid()
      invariant |table.columns| == |titles|
      invariant forall j :: 0 <= j < k ==> table.columns[j] == old(table.columns[j]).(title := titles[j])
      invariant forall j :: k <= j < |titles| ==> table.columns[j] == old(table.columns[j])
    {
      table.SetHeaderTitle(k, titles[k]);
      k := k + 1;
    }
  }

  /** The whole demo: after the columns are named, they get widths 100,
      175, 50, 50 and 170 and the listener reports 100 rows. Once the layout
      sizes the control to the requested 500 x 300 pixels (`i_OnSize`), the
      document is the columns plus padding, 553 pixels wide, since that is
      wider than the control; every row is one text line high, and END
      selects the last row. The five `tableview_column_width` calls are
      written as a loop. */
  method GuiHelloTable(textHeight: uint32) returns (table: TData)
    ensures fresh(table) && table.Valid()
    ensures |table.columns| == 5 && table.numRows == 100
    ensures table.columns[0].title == "Name" && table.columns[4].title == "Position"
    ensures table.contentWidth == 553 && table.rowHeight == textHeight
    ensures table.selected == 99
  {
    table := GuiHelloNamedColumns(textHeight);
    ghost var first, last := table.columns[0].title, table.columns[4].title;
    var widths := [100, 175, 50, 50, 170];
    var k := 0;
    while k < 5
      invariant 0 <= k <= 5
      invariant table.Valid()
      invariant |table.columns| == 5
      invariant forall j :: 0 <= j < 5 ==> table.columns[j].textHeight == textHeight
      invariant table.columns[0].title == first && table.columns[4].title == last
      invariant forall j :: 0 <= j < k ==> table.columns[j].width == widths[j]
    {
      table.SetColumnWidth(k, widths[k]);
      k := k + 1;
    }
    GuiHelloGeometry(table.columns, textHeight);
    table.DataUpdate(100);
    table.OnSize(500, 300);
    table.OnKeyDown(KeyEnd);
  }
}
