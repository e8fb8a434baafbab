// The table frame (src/TableFrame.php): columns, data rows, the header row,
// sub-rows where the columns are wider than the table, and the paging of the
// rows over several calcSize/print passes.  The table's own state is a value
// the frame arena stores; the rows are TableRow objects, whose texts the
// sizing of joined cells clears in place.
module Tables {
  import opened Wrappers
  import opened Geometry
  import opened Canvas
  import opened Pens
  import opened Styles
  import opened TableRows
  import opened TableColumns
  import opened FrameBase
  import Rendering
  import Config

  /** C_HEADER_ROW_INDEX. */
  const HeaderRowIndex: int := -1

  datatype TableState = TableState(
    tableData: seq<TableRow>,
    /** The typed property $columns: unset until the first column is added. */
    columns: Option<seq<Column>>,
    width: real,
    rowIndex: int,
    dataRowsFit: int,
    minDataRowsFit: int,
    repeatHeaderRow: bool,
    suppressHeaderRow: bool,
    minHeaderRowHeight: real,
    minDetailRowHeight: real,
    maxHeaderRowHeight: real,
    maxDetailRowHeight: real,
    marginBottomSubtotal: real,
    headerTextStyle: TextStyle,
    detailRowTextStyle: TextStyle,
    alternatingRowTextStyle: TextStyle?,
    subTotalRowTextStyle: TextStyle,
    totalRowTextStyle: TextStyle,
    border: Border,
    innerPenHeaderBottom: Pen,
    innerPenTotalTop: Pen,
    innerPenRow: Pen,
    interRowSpace: real,
    columnLines: bool,
    numSubRows: int,
    /** subRowHeightList: row index + 1, then sub-row number, to height. */
    subRowHeightList: map<int, map<int, real>>,
    headerSizeInit: bool,
    tableHeightForPage: real,
    rowHeights: seq<real>,
    headerRowHeight: real)

  /** The rows measured by the last calcSize cover the rows to print. */
  predicate Valid(t: TableState)
  {
    0 <= t.dataRowsFit <= |t.rowHeights|
  }

  /** The constructor, given the styles registered as TABLE_HEADER, TABLE_ROW,
      TABLE_SUBTOTAL and TABLE_TOTAL: no rows, no columns, headers repeated on
      every page, at least one data row per page, row heights between 0 and
      100, lines under the header and over totals, none between rows, one
      sub-row. The row cursor and the count of rows that fit start at 0; the
      source leaves them unset until beginPrint and calcSize assign them. */
  function NewTable(header: TextStyle, detail: TextStyle, subTotal: TextStyle, total: TextStyle): (t: TableState)
    ensures Valid(t)
    ensures t.tableData == [] && t.columns.None? && t.width == 0.0 && t.rowHeights == []
    ensures t.headerTextStyle == header && t.detailRowTextStyle == detail && t.alternatingRowTextStyle == null
    ensures t.subTotalRowTextStyle == subTotal && t.totalRowTextStyle == total
    ensures t.repeatHeaderRow && !t.suppressHeaderRow && t.minDataRowsFit == 1 && !t.headerSizeInit
    ensures t.minHeaderRowHeight == 0.0 && t.minDetailRowHeight == 0.0
    ensures t.maxHeaderRowHeight == 100.0 && t.maxDetailRowHeight == 100.0
    ensures t.marginBottomSubtotal == Config.ColumnMarginBottomSubtotal && t.interRowSpace == 0.0
    ensures t.innerPenHeaderBottom.extent == Config.ColumnLineHeaderExtent
    ensures t.innerPenTotalTop.extent == Config.ColumnLineTotalExtent
    ensures t.innerPenRow.extent == Config.ColumnLineExtent
    ensures t.border == DefaultBorder && !t.columnLines
    ensures t.numSubRows == 1 && t.subRowHeightList == map[]
    ensures t.tableHeightForPage == 0.0 && t.headerRowHeight == 0.0
  {
    TableState([], None, 0.0, 0, 0, 1, true, false, 0.0, 0.0, 100.0, 100.0, Config.ColumnMarginBottomSubtotal,
               header, detail, null, subTotal, total, DefaultBorder,
               NewPen(Config.ColumnLineHeaderExtent, DefaultColor, "solid"),
               NewPen(Config.ColumnLineTotalExtent, DefaultColor, "solid"),
               NewPen(Config.ColumnLineExtent, DefaultColor, "solid"),
               0.0, false, 1, map[], false, 0.0, [], 0.0)
  }

  /** The columns, or none while the property is unset (count() of them is
      then an error). */
  function Columns(t: TableState): (r: Result<seq<Column>>)
    ensures t.columns.None? <==> r == Err(Uninitialized("columns"))
    ensures t.columns.Some? ==> r == Ok(t.columns.value)
  {
    if t.columns.Some? then Ok(t.columns.value) else Err(Uninitialized("columns"))
  }

  /** addColumn and initColumn: a new column in the table's styles (the
      detail style for alternating rows unless the table has one of its own),
      with the alignment and the extra right padding given, appended; the
      result is the number of columns, as initColumn returns it (addColumn
      itself hands back the new column object). Adding the first column
      creates the array. */
  function AddColumn(t: TableState, fieldName: string, headerText: string, maxWidth: Extent,
                     hAlignment: string, marginRight: real): (r: (TableState, int))
    ensures r.0 == t.(columns := r.0.columns)
    ensures var old_ := if t.columns.Some? then t.columns.value else [];
      r.0.columns.Some? && |r.0.columns.value| == |old_| + 1 && r.0.columns.value[..|old_|] == old_
      && r.1 == |old_| + 1
    ensures var c := r.0.columns.value[r.1 - 1];
      c.columnName == fieldName && c.title == headerText
      && c.width == maxWidth.value && c.widthInPercent == maxWidth.Pct?
      && c.hAlignment == hAlignment && c.paddingRight == marginRight + Config.ColumnPaddingRight
      && c.paddingLeft == Config.ColumnPaddingLeft && !c.lineBreak
      && c.styles.header == t.headerTextStyle && c.styles.detail == t.detailRowTextStyle
      && c.styles.alternating == (if t.alternatingRowTextStyle != null then t.alternatingRowTextStyle else t.detailRowTextStyle)
      && c.styles.subTotal == t.subTotalRowTextStyle && c.styles.total == t.totalRowTextStyle
  {
    var alter: TextStyle := if t.alternatingRowTextStyle != null then t.alternatingRowTextStyle else t.detailRowTextStyle;
    var styles: RowKinds<TextStyle> := RowKinds(t.headerTextStyle, t.detailRowTextStyle, alter, t.subTotalRowTextStyle, t.totalRowTextStyle);
    var tc := NewColumn(fieldName, headerText, maxWidth, styles)
      .(hAlignment := hAlignment, paddingRight := marginRight + Config.ColumnPaddingRight,
        paddingLeft := Config.ColumnPaddingLeft);
    var cols := (if t.columns.Some? then t.columns.value else []) + [tc];
    (t.(columns := Some(cols)), |cols|)
  }

  /** addDataRow: the row is appended; the result is the number of rows. */
  function AddDataRow(t: TableState, row: TableRow): (r: (TableState, int))
    ensures r.0 == t.(tableData := t.tableData + [row]) && r.1 == |t.tableData| + 1
    ensures r.0.tableData[r.1 - 1] == row
  {
    (t.(tableData := t.tableData + [row]), |t.tableData| + 1)
  }

  /** reset, beyond the frame's own: the header is measured again. */
  function TableReset(t: TableState): (r: TableState)
    ensures r == t.(headerSizeInit := false)
  {
    t.(headerSizeInit := false)
  }

  /** doBeginPrint: the rows start at the first data row, or at the header
      row when the header is printed once and not repeated; nothing fits yet. */
  function TableBeginPrint(t: TableState): (r: TableState)
    ensures r == t.(rowIndex := r.rowIndex, dataRowsFit := 0) && Valid(r)
    ensures r.rowIndex == (if t.suppressHeaderRow || t.repeatHeaderRow then 0 else HeaderRowIndex)
  {
    t.(rowIndex := if t.suppressHeaderRow || t.repeatHeaderRow then 0 else HeaderRowIndex, dataRowsFit := 0)
  }

  // ---------------------------------------------------------------------
  // Row heights

  /** getValidHeight: the height clamped to the header or the detail limits
      (the minimum wins when the limits cross). */
  function ValidHeight(t: TableState, height: real, isHeader: bool): (h: real)
    ensures var lo := if isHeader then t.minHeaderRowHeight else t.minDetailRowHeight;
      var hi := if isHeader then t.maxHeaderRowHeight else t.maxDetailRowHeight;
      (height < lo ==> h == lo) && (lo <= height <= hi ==> h == height) && (lo <= height && hi < height ==> h == hi)
  {
    var lo := if isHeader then t.minHeaderRowHeight else t.minDetailRowHeight;
    var hi := if isHeader then t.maxHeaderRowHeight else t.maxDetailRowHeight;
    if height < lo then lo else if height > hi then hi else height
  }

  /** With consistent limits a valid height lies between them. */
  lemma ValidHeightBounds(t: TableState, height: real, isHeader: bool)
    requires isHeader ==> t.minHeaderRowHeight <= t.maxHeaderRowHeight
    requires !isHeader ==> t.minDetailRowHeight <= t.maxDetailRowHeight
    ensures isHeader ==> t.minHeaderRowHeight <= ValidHeight(t, height, isHeader) <= t.maxHeaderRowHeight
    ensures !isHeader ==> t.minDetailRowHeight <= ValidHeight(t, height, isHeader) <= t.maxDetailRowHeight
    ensures ValidHeight(t, ValidHeight(t, height, isHeader), isHeader) == ValidHeight(t, height, isHeader)
  {
  }

  /** getSubRowHeight: the height saved for the sub-row, or 0.0. */
  function GetSubRowHeight(list: map<int, map<int, real>>, row: int, subRow: int): (h: real)
    ensures (row in list && subRow in list[row]) ==> h == list[row][subRow]
    ensures !(row in list && subRow in list[row]) ==> h == 0.0
  {
    if row in list && subRow in list[row] then list[row][subRow] else 0.0
  }

  /** setSubRowHeight: the height is saved, creating the row's entry if
      needed. */
  function SetSubRowHeight(list: map<int, map<int, real>>, row: int, subRow: int, height: real): (r: map<int, map<int, real>>)
    ensures row in r && subRow in r[row] && r[row][subRow] == height
    ensures r.Keys == list.Keys + {row}
    ensures forall k :: k in list && k != row ==> r[k] == list[k]
    ensures row in list ==> r[row] == list[row][subRow := height]
    ensures row !in list ==> r[row] == map[subRow := height]
  {
    if row in list then list[row := list[row][subRow := height]] else list[row := map[subRow := height]]
  }

  /** A saved height is read back; every other height is as it was. */
  lemma SubRowHeightRoundTrip(list: map<int, map<int, real>>, row: int, subRow: int, height: real, row': int, subRow': int)
    ensures GetSubRowHeight(SetSubRowHeight(list, row, subRow, height), row', subRow')
         == if row' == row && subRow' == subRow then height else GetSubRowHeight(list, row', subRow')
  {
    var r := SetSubRowHeight(list, row, subRow, height);
    if row' == row && row in list && subRow' != subRow {
      assert r[row] == list[row][subRow := height];
    }
  }

  // ---------------------------------------------------------------------
  // Column layout

  /** The result of breaking a row of column widths into sub-rows. */
  datatype SubRows = SubRows(breaks: seq<bool>, widest: real, count: nat)

  /** The number of marked entries. */
  function Trues(bs: seq<bool>): nat
    decreases |bs|
  {
    if |bs| == 0 then 0 else (if bs[0] then 1 else 0) + Trues(bs[1..])
  }

  /** The sub-row breaks checkForSubRows inserts: after a column whenever
      the next column would no longer fit into `width`, starting from a
      sub-row `cur` wide; `widest` is the widest sub-row so far, `count`
      the number of breaks. */
  function Breaks(ws: seq<real>, width: real, cur: real, widest: real): (r: SubRows)
    ensures |r.breaks| == |ws|
    decreases |ws|
  {
    if |ws| == 0 then SubRows([], Max(widest, cur), 0)
    else if |ws| == 1 then SubRows([false], Max(widest, cur + ws[0]), 0)
    else
      var c := cur + ws[0];
      if c + ws[1] > width then
        var rest := Breaks(ws[1..], width, 0.0, Max(widest, c));
        assert ([true] + rest.breaks)[1..] == rest.breaks;
        SubRows([true] + rest.breaks, rest.widest, rest.count + 1)
      else
        var rest := Breaks(ws[1..], width, c, widest);
        assert ([false] + rest.breaks)[1..] == rest.breaks;
        SubRows([false] + rest.breaks, rest.widest, rest.count)
  }

  /** The widest sub-row is never narrower than the widest before, the
      count is the number of breaks, and the last column never gets one. */
  lemma {:induction false} BreaksFacts(ws: seq<real>, width: real, cur: real, widest: real)
    ensures var r := Breaks(ws, width, cur, widest);
      r.widest >= widest && r.count == Trues(r.breaks) && (|ws| > 0 ==> !r.breaks[|ws| - 1])
    decreases |ws|
  {
    if |ws| >= 2 {
      var c := cur + ws[0];
      var r := Breaks(ws, width, cur, widest);
      if c + ws[1] > width {
        BreaksFacts(ws[1..], width, 0.0, Max(widest, c));
      } else {
        BreaksFacts(ws[1..], width, c, widest);
      }
      assert r.breaks[1..] == Breaks(ws[1..], width, if c + ws[1] > width then 0.0 else c,
                                     if c + ws[1] > width then Max(widest, c) else widest).breaks;
    }
  }

  /** When no column is wider than the table, no sub-row is either: the
      widest sub-row is no wider than the table (or than what was widest
      before). */
  lemma {:induction false} SubRowsFit(ws: seq<real>, width: real, cur: real, widest: real)
    requires forall k :: 0 <= k < |ws| ==> ws[k] <= width
    requires cur <= width && (|ws| > 0 ==> cur + ws[0] <= width)
    ensures Breaks(ws, width, cur, widest).widest <= Max(widest, width)
    decreases |ws|
  {
    if |ws| >= 2 {
      var c := cur + ws[0];
      if c + ws[1] > width {
        SubRowsFit(ws[1..], width, 0.0, Max(widest, c));
      } else {
        SubRowsFit(ws[1..], width, c, widest);
      }
    }
  }

  /** Columns that together fit into the table need no sub-rows. */
  lemma {:induction false} NoBreaksWhenAllFit(ws: seq<real>, width: real, cur: real, widest: real)
    requires forall k :: 0 <= k < |ws| ==> ws[k] >= 0.0
    requires cur + Sum(ws) <= width
    ensures Breaks(ws, width, cur, widest).count == 0
    ensures Breaks(ws, width, cur, widest).widest == Max(widest, cur + Sum(ws))
    decreases |ws|
  {
    if |ws| >= 2 {
      SumFront(ws);
      SumFront(ws[1..]);
      assert ws[1..][1..] == ws[2..];
      SumNonNegative(ws[2..]);
      NoBreaksWhenAllFit(ws[1..], width, cur + ws[0], widest);
    } else if |ws| == 1 {
      SumFront(ws);
    }
  }

  /** The sum of a sequence of widths. */
  function Sum(ws: seq<real>): real
    decreases |ws|
  {
    if |ws| == 0 then 0.0 else Sum(ws[..|ws| - 1]) + ws[|ws| - 1]
  }

  lemma {:induction false} SumFront(ws: seq<real>)
    requires |ws| > 0
    ensures Sum(ws) == ws[0] + Sum(ws[1..])
    decreases |ws|
  {
    if |ws| > 1 {
      assert ws[..|ws| - 1][1..] == ws[1..][..|ws| - 2];
      SumFront(ws[..|ws| - 1]);
    } else {
      assert ws[..0] == [];
      assert ws[1..] == [];
    }
  }

  /** A prefix one longer adds its last element. */
  lemma SumPrefixStep(ws: seq<real>, k: nat)
    requires k < |ws|
    ensures Sum(ws[..k + 1]) == Sum(ws[..k]) + ws[k]
  {
    assert ws[..k + 1][..k] == ws[..k];
  }

  lemma {:induction false} SumNonNegative(ws: seq<real>)
    requires forall k :: 0 <= k < |ws| ==> ws[k] >= 0.0
    ensures Sum(ws) >= 0.0
    decreases |ws|
  {
    if |ws| > 0 {
      SumNonNegative(ws[..|ws| - 1]);
    }
  }

  /** The five-column example of sub-rows: 50, 30, 80, 50 and 30 mm in a
      180 mm table break after the third column into sub-rows of 160 and
      80 mm. */
  lemma BreaksExample()
    ensures Breaks([50.0, 30.0, 80.0, 50.0, 30.0], 180.0, 0.0, 0.0)
         == SubRows([false, false, true, false, false], 160.0, 1)
  {
    var ws := [50.0, 30.0, 80.0, 50.0, 30.0];
    assert ws[1..] == [30.0, 80.0, 50.0, 30.0];
    assert ws[1..][1..] == [80.0, 50.0, 30.0];
    assert ws[1..][1..][1..] == [50.0, 30.0];
    assert ws[1..][1..][1..][1..] == [30.0];
    assert Breaks([30.0], 180.0, 50.0, 160.0) == SubRows([false], 160.0, 0);
    assert Breaks([50.0, 30.0], 180.0, 0.0, 160.0) == SubRows([false, false], 160.0, 0);
  }

  /** The widths of the columns laid out in a table `width` wide. */
  function LaidOutWidths(cols: seq<Column>, width: real): (ws: seq<real>)
    ensures |ws| == |cols|
    decreases |cols|
  {
    if |cols| == 0 then [] else LaidOutWidths(cols[..|cols| - 1], width) + [CalcWidth(cols[|cols| - 1], width).widthToUse]
  }

  lemma {:induction false} LaidOutWidthsElement(cols: seq<Column>, width: real, k: int)
    requires 0 <= k < |cols|
    ensures LaidOutWidths(cols, width)[k] == CalcWidth(cols[k], width).widthToUse
    decreases |cols|
  {
    if k < |cols| - 1 {
      LaidOutWidthsElement(cols[..|cols| - 1], width, k);
    }
  }

  /** A column laid out in a table `width` wide, with a break after it if
      `broken` (a break it already had stays). */
  function LaidOut(c: Column, width: real, broken: bool): (r: Column)
  {
    CalcWidth(c, width).(lineBreak := c.lineBreak || broken)
  }

  /** The columns laid out, with the breaks given. */
  function LaidOutAll(cols: seq<Column>, width: real, breaks: seq<bool>): (r: seq<Column>)
    requires |breaks| == |cols|
    ensures |r| == |cols|
    decreases |cols|
  {
    if |cols| == 0 then []
    else
      var n := |cols| - 1;
      LaidOutAll(cols[..n], width, breaks[..n]) + [LaidOut(cols[n], width, breaks[n])]
  }

  lemma {:induction false} LaidOutAllElement(cols: seq<Column>, width: real, breaks: seq<bool>, k: int)
    requires |breaks| == |cols| && 0 <= k < |cols|
    ensures LaidOutAll(cols, width, breaks)[k] == LaidOut(cols[k], width, breaks[k])
    decreases |cols|
  {
    var n := |cols| - 1;
    if k < n {
      LaidOutAllElement(cols[..n], width, breaks[..n], k);
    }
  }

  lemma BreaksStep(ws: seq<real>, i: nat, width: real, cur: real, widest: real)
    requires i < |ws|
    ensures var c := cur + ws[i];
      i + 1 < |ws| && c + ws[i + 1] > width ==>
        var rest := Breaks(ws[i + 1..], width, 0.0, Max(widest, c));
        Breaks(ws[i..], width, cur, widest) == SubRows([true] + rest.breaks, rest.widest, rest.count + 1)
    ensures var c := cur + ws[i];
      !(i + 1 < |ws| && c + ws[i + 1] > width) ==>
        var rest := Breaks(ws[i + 1..], width, c, widest);
        Breaks(ws[i..], width, cur, widest) == SubRows([false] + rest.breaks, rest.widest, rest.count)
  {
    var tail := ws[i..];
    assert tail[0] == ws[i] && tail[1..] == ws[i + 1..];
    if i + 1 < |ws| {
      assert tail[1] == ws[i + 1];
    }
  }

  /** What the loop of checkForSubRows has left to do after `i` columns:
      the breaks so far, followed by those of the rest from the running
      width and widest sub-row, make up `b`. */
  ghost predicate BreaksSoFar(ws: seq<real>, width: real, b: SubRows, i: int, done: seq<bool>,
                              cur: real, widest: real, added: nat)
  {
    0 <= i <= |ws| && |done| == i
    && var rest := Breaks(ws[i..], width, cur, widest);
       b == SubRows(done + rest.breaks, rest.widest, added + rest.count)
  }

  /** One column of the loop: a break after column `i` iff the next one
      would overflow the running width. */
  lemma BreaksSoFarStep(ws: seq<real>, width: real, b: SubRows, i: int, done: seq<bool>,
                        cur: real, widest: real, added: nat, c: real, broken: bool,
                        cur': real, widest': real, added': nat)
    requires BreaksSoFar(ws, width, b, i, done, cur, widest, added) && i < |ws|
    requires c == cur + ws[i] && broken == (i + 1 < |ws| && c + ws[i + 1] > width)
    requires cur' == (if broken then 0.0 else c) && widest' == (if broken then Max(widest, c) else widest)
    requires added' == (if broken then added + 1 else added)
    ensures BreaksSoFar(ws, width, b, i + 1, done + [broken], cur', widest', added')
  {
    BreaksStep(ws, i, width, cur, widest);
    var after := Breaks(ws[i + 1..], width, cur', widest');
    assert (done + [broken]) + after.breaks == done + ([broken] + after.breaks);
  }

  lemma LaidOutAllSnoc(cols: seq<Column>, width: real, done: seq<bool>, broken: bool, i: int)
    requires 0 <= i < |cols| && |done| == i
    ensures LaidOutAll(cols[..i], width, done) + [LaidOut(cols[i], width, broken)]
         == LaidOutAll(cols[..i + 1], width, done + [broken])
  {
    assert cols[..i + 1][..i] == cols[..i];
    assert (done + [broken])[..i] == done;
  }

  /** One column of checkForSubRows' loop: the column given its width to
      use, the running width with it, and whether the next column would
      overflow that, which gives the column a line break. */
  method SubRowStep(cols: seq<Column>, width: real, i: nat, colsWidth: real)
    returns (column: Column, broken: bool, c: real)
    requires i < |cols|
    ensures var ws := LaidOutWidths(cols, width);
      c == colsWidth + ws[i] && broken == (i + 1 < |ws| && c + ws[i + 1] > width)
      && column == LaidOut(cols[i], width, broken)
  {
    column := CalcWidth(cols[i], width);
    LaidOutWidthsElement(cols, width, i);
    c := colsWidth + column.widthToUse;
    broken := false;
    if i + 1 < |cols| {
      var nextColumn := CalcWidth(cols[i + 1], width);
      LaidOutWidthsElement(cols, width, i + 1);
      if c + nextColumn.widthToUse > width {
        column := column.(lineBreak := true);
        broken := true;
      }
    }
  }

  /** The loop of checkForSubRows over the columns: the laid-out columns,
      the number of breaks added and the widest sub-row. */
  method SubRowBreaks(cols: seq<Column>, width: real, tableWidth: real)
    returns (out: seq<Column>, added: nat, widest: real)
    ensures var b := Breaks(LaidOutWidths(cols, width), width, 0.0, tableWidth);
      added == b.count && widest == b.widest && out == LaidOutAll(cols, width, b.breaks)
  {
    ghost var ws := LaidOutWidths(cols, width);
    ghost var b := Breaks(ws, width, 0.0, tableWidth);
    ghost var done: seq<bool> := [];
    out := [];
    added := 0;
    widest := tableWidth;
    var colsWidth := 0.0;
    var colNumber := 0;
    assert ws[0..] == ws;
    while colNumber < |cols|
      invariant BreaksSoFar(ws, width, b, colNumber, done, colsWidth, widest, added)
      invariant out == LaidOutAll(cols[..colNumber], width, done)
    {
      var column, broken, c := SubRowStep(cols, width, colNumber, colsWidth);
      ghost var cur, widest0, added0 := colsWidth, widest, added;
      if broken {
        added := added + 1;
        widest := Max(widest, c);
        colsWidth := 0.0;
      } else {
        colsWidth := c;
      }
      BreaksSoFarStep(ws, width, b, colNumber, done, cur, widest0, added0, c, broken, colsWidth, widest, added);
      LaidOutAllSnoc(cols, width, done, broken, colNumber);
      out := out + [column];
      done := done + [broken];
      colNumber := colNumber + 1;
    }
    assert ws[colNumber..] == [];
    assert done + [] == done;
    assert cols[..colNumber] == cols;
    if colsWidth > widest {
      widest := colsWidth;
    }
  }

  /** checkForSubRows: every column gets its width to use for a table
      `width` wide; a column after which the next one would overflow gets a
      line break (one it already had stays); the table counts the new breaks
      as sub-rows and becomes as wide as its widest sub-row. */
  method CheckForSubRows(t: TableState, width: real) returns (r: Result<TableState>)
    ensures t.columns.None? <==> r == Err(Uninitialized("columns"))
    ensures t.columns.Some? ==> r.Ok?
    ensures r.Ok? ==>
      var cols := t.columns.value;
      var b := Breaks(LaidOutWidths(cols, width), width, 0.0, t.width);
      r.value == t.(columns := r.value.columns, numSubRows := t.numSubRows + b.count, width := b.widest)
      && r.value.columns == Some(LaidOutAll(cols, width, b.breaks))
  {
    var cols :- Columns(t);
    var out, added, widest := SubRowBreaks(cols, width, t.width);
    r := Ok(t.(columns := Some(out), numSubRows := t.numSubRows + added, width := widest));
  }

  /** `x` scaled by `factor`. */
  function Scaled(x: real, factor: real): real { x * factor }

  lemma ScaledDistributes(a: real, b: real, factor: real)
    ensures Scaled(a + b, factor) == Scaled(a, factor) + Scaled(b, factor)
  {
  }

  /** The factor adjustColumnsToWidth scales a group of columns by: the
      quotient truncated to four decimals. For a width that is not negative
      the group then fits, short by less than a ten thousandth of itself. */
  function Factor(maxWidth: real, groupWidth: real): (d: real)
    requires groupWidth > 0.0
    ensures maxWidth >= 0.0 ==>
      0.0 <= d && Scaled(groupWidth, d) <= maxWidth && maxWidth - groupWidth / 10000.0 < Scaled(groupWidth, d)
  {
    var q := maxWidth / groupWidth * 10000.0;
    var n := TruncToInt(q);
    FactorBounds(maxWidth, groupWidth, q, n);
    n as real / 10000.0
  }

  lemma FactorBounds(maxWidth: real, groupWidth: real, q: real, n: int)
    requires groupWidth > 0.0 && q == maxWidth / groupWidth * 10000.0
    requires q >= 0.0 ==> 0 <= n && n as real <= q < n as real + 1.0
    ensures maxWidth >= 0.0 ==>
      var d := n as real / 10000.0;
      0.0 <= d && Scaled(groupWidth, d) <= maxWidth && maxWidth - groupWidth / 10000.0 < Scaled(groupWidth, d)
  {
    if maxWidth >= 0.0 {
      QuotientTimes(maxWidth, groupWidth);
      var d := n as real / 10000.0;
      assert n as real * groupWidth == Scaled(groupWidth, d) * 10000.0;
      MulMonotone(n as real, q, groupWidth);
      MulMonotone(q, n as real + 1.0, groupWidth);
      assert (n as real + 1.0) * groupWidth == n as real * groupWidth + groupWidth;
      assert q * groupWidth < n as real * groupWidth + groupWidth;
      assert maxWidth * 10000.0 < Scaled(groupWidth, d) * 10000.0 + groupWidth;
    }
  }

  lemma QuotientTimes(w: real, s: real)
    requires s > 0.0
    ensures w / s * 10000.0 * s == w * 10000.0
    ensures w >= 0.0 ==> w / s >= 0.0
  {
  }

  lemma MulMonotone(a: real, b: real, c: real)
    requires c > 0.0 && a <= b
    ensures a * c <= b * c && (a < b ==> a * c < b * c)
  {
  }

  /** The sum of the widths to use. */
  function WidthsToUse(cols: seq<Column>): real
    decreases |cols|
  {
    if |cols| == 0 then 0.0 else WidthsToUse(cols[..|cols| - 1]) + cols[|cols| - 1].widthToUse
  }

  /** A group closed by a line break: the nominal widths scaled, and the
      width to use set to the new nominal width. */
  function ScaleGroup(cols: seq<Column>, d: real): (r: seq<Column>)
    ensures |r| == |cols|
    decreases |cols|
  {
    if |cols| == 0 then []
    else
      var c := cols[|cols| - 1];
      ScaleGroup(cols[..|cols| - 1], d) + [c.(width := Scaled(c.width, d), widthToUse := Scaled(c.width, d))]
  }

  /** The last group: the widths to use scaled, the nominal widths kept. */
  function ScaleTail(cols: seq<Column>, d: real): (r: seq<Column>)
    ensures |r| == |cols|
    decreases |cols|
  {
    if |cols| == 0 then []
    else
      var c := cols[|cols| - 1];
      ScaleTail(cols[..|cols| - 1], d) + [c.(widthToUse := Scaled(c.widthToUse, d))]
  }

  /** Each column of a closed group gets the scaled nominal width, and
      uses it; nothing else about the column changes. */
  lemma {:induction false} ScaleGroupElements(cols: seq<Column>, d: real, k: int)
    requires 0 <= k < |cols|
    ensures ScaleGroup(cols, d)[k] == cols[k].(width := Scaled(cols[k].width, d), widthToUse := Scaled(cols[k].width, d))
    decreases |cols|
  {
    if k < |cols| - 1 {
      ScaleGroupElements(cols[..|cols| - 1], d, k);
    }
  }

  /** Each column of the last group gets its width to use scaled; nothing
      else about the column changes. */
  lemma {:induction false} ScaleTailElements(cols: seq<Column>, d: real, k: int)
    requires 0 <= k < |cols|
    ensures ScaleTail(cols, d)[k] == cols[k].(widthToUse := Scaled(cols[k].widthToUse, d))
    decreases |cols|
  {
    if k < |cols| - 1 {
      ScaleTailElements(cols[..|cols| - 1], d, k);
    }
  }

  /** The columns adjustColumnsToWidth intends: the columns run in groups,
      a group closed by a column with a line break once its width to use is
      positive; each group is scaled to `maxWidth`. `pending` is the group so
      far and `cur` its width. */
  function Adjust(cols: seq<Column>, maxWidth: real, pending: seq<Column>, cur: real): (r: seq<Column>)
    ensures |r| == |pending| + |cols|
    decreases |cols|
  {
    if |cols| == 0 then
      if cur > 0.0 then ScaleTail(pending, Factor(maxWidth, cur)) else pending
    else
      var c := cur + cols[0].widthToUse;
      if cols[0].lineBreak && c > 0.0 then
        ScaleGroup(pending + [cols[0]], Factor(maxWidth, c)) + Adjust(cols[1..], maxWidth, [], 0.0)
      else
        Adjust(cols[1..], maxWidth, pending + [cols[0]], c)
  }

  /** Scaling the widths to use multiplies their sum. */
  lemma {:induction false} ScaleTailSum(cols: seq<Column>, d: real)
    ensures WidthsToUse(ScaleTail(cols, d)) == Scaled(WidthsToUse(cols), d)
    decreases |cols|
  {
    if |cols| > 0 {
      var n := |cols| - 1;
      var front := ScaleTail(cols[..n], d);
      var last := cols[n].(widthToUse := Scaled(cols[n].widthToUse, d));
      var scaled := front + [last];
      assert scaled == ScaleTail(cols, d);
      assert scaled[..n] == front;
      assert WidthsToUse(scaled) == WidthsToUse(front) + Scaled(cols[n].widthToUse, d);
      ScaleTailSum(cols[..n], d);
      ScaledDistributes(WidthsToUse(cols[..n]), cols[n].widthToUse, d);
    }
  }

  /** Scaling a group whose widths to use are its nominal widths multiplies
      the sum as well. */
  lemma {:induction false} ScaleGroupSum(cols: seq<Column>, d: real)
    requires forall k :: 0 <= k < |cols| ==> cols[k].widthToUse == cols[k].width
    ensures WidthsToUse(ScaleGroup(cols, d)) == Scaled(WidthsToUse(cols), d)
    decreases |cols|
  {
    if |cols| > 0 {
      var n := |cols| - 1;
      var front := ScaleGroup(cols[..n], d);
      var last := cols[n].(width := Scaled(cols[n].width, d), widthToUse := Scaled(cols[n].width, d));
      var scaled := front + [last];
      assert scaled == ScaleGroup(cols, d);
      assert scaled[..n] == front;
      assert WidthsToUse(scaled) == WidthsToUse(front) + Scaled(cols[n].width, d);
      ScaleGroupSum(cols[..n], d);
      ScaledDistributes(WidthsToUse(cols[..n]), cols[n].widthToUse, d);
    }
  }

  /** The last group is scaled to the table's width, short by less than one
      ten thousandth of its own width. */
  lemma TailGroupFits(cols: seq<Column>, maxWidth: real)
    requires maxWidth >= 0.0 && WidthsToUse(cols) > 0.0
    ensures var s := WidthsToUse(ScaleTail(cols, Factor(maxWidth, WidthsToUse(cols))));
      s <= maxWidth && maxWidth - WidthsToUse(cols) / 10000.0 < s
  {
    var d := Factor(maxWidth, WidthsToUse(cols));
    ScaleTailSum(cols, d);
  }

  /** A group closed by a line break is scaled to the table's width as well,
      provided its widths to use were its nominal widths (millimetre
      columns). */
  lemma ClosedGroupFits(cols: seq<Column>, maxWidth: real)
    requires maxWidth >= 0.0 && WidthsToUse(cols) > 0.0
    requires forall k :: 0 <= k < |cols| ==> cols[k].widthToUse == cols[k].width
    ensures var s := WidthsToUse(ScaleGroup(cols, Factor(maxWidth, WidthsToUse(cols))));
      s <= maxWidth && maxWidth - WidthsToUse(cols) / 10000.0 < s
  {
    var d := Factor(maxWidth, WidthsToUse(cols));
    ScaleGroupSum(cols, d);
  }

  /** A table without line breaks is one group: its columns end up filling
      the table's width. */
  lemma {:induction false} AdjustWithoutBreaks(cols: seq<Column>, maxWidth: real, pending: seq<Column>, cur: real)
    requires cur == WidthsToUse(pending)
    requires forall k :: 0 <= k < |cols| ==> !cols[k].lineBreak
    ensures Adjust(cols, maxWidth, pending, cur)
         == if WidthsToUse(pending + cols) > 0.0 then ScaleTail(pending + cols, Factor(maxWidth, WidthsToUse(pending + cols)))
            else pending + cols
    decreases |cols|
  {
    if |cols| == 0 {
      assert pending + cols == pending;
    } else {
      var p := pending + [cols[0]];
      assert WidthsToUse(p) == cur + cols[0].widthToUse by {
        assert p[..|p| - 1] == pending;
      }
      AdjustWithoutBreaks(cols[1..], maxWidth, p, cur + cols[0].widthToUse);
      assert p + cols[1..] == pending + cols;
    }
  }

  /** The rest of adjustColumnsToWidth's loop as written, from the first of
      `cols` on, with the group so far `pending`: it crashes at the first
      group a line break closes, on the call of TableColumn::setWidth (a
      method the column class does not have); otherwise it is the intended
      layout. */
  function AdjustAsWritten(cols: seq<Column>, maxWidth: real, pending: seq<Column>, cur: real): (r: Result<seq<Column>>)
    ensures r.Ok? ==> r.value == Adjust(cols, maxWidth, pending, cur)
    ensures r.Err? ==> r.error == UndefinedMethod("setWidth")
    decreases |cols|
  {
    if |cols| == 0 then Ok(Adjust(cols, maxWidth, pending, cur))
    else
      var c := cur + cols[0].widthToUse;
      if cols[0].lineBreak && c > 0.0 then Err(UndefinedMethod("setWidth"))
      else AdjustAsWritten(cols[1..], maxWidth, pending + [cols[0]], c)
  }

  /** The crash happens exactly when some column with a line break ends a
      prefix of positive width. */
  lemma {:induction false} AdjustAsWrittenFails(cols: seq<Column>, maxWidth: real, pending: seq<Column>, cur: real)
    ensures AdjustAsWritten(cols, maxWidth, pending, cur).Err?
        <==> exists i :: 0 <= i < |cols| && cols[i].lineBreak && cur + WidthsToUse(cols[..i + 1]) > 0.0
    decreases |cols|
  {
    if |cols| > 0 {
      var c := cur + cols[0].widthToUse;
      assert WidthsToUse(cols[..1]) == cols[0].widthToUse by {
        assert cols[..1][..0] == [];
      }
      if !(cols[0].lineBreak && c > 0.0) {
        AdjustAsWrittenFails(cols[1..], maxWidth, pending + [cols[0]], c);
        var rest := AdjustAsWritten(cols[1..], maxWidth, pending + [cols[0]], c);
        assert AdjustAsWritten(cols, maxWidth, pending, cur) == rest;
        forall i | 1 <= i < |cols|
          ensures cur + WidthsToUse(cols[..i + 1]) == c + WidthsToUse(cols[1..][..i])
        {
          PrefixSumShift(cols, i);
        }
        if exists i :: 0 <= i < |cols| && cols[i].lineBreak && cur + WidthsToUse(cols[..i + 1]) > 0.0 {
          var i :| 0 <= i < |cols| && cols[i].lineBreak && cur + WidthsToUse(cols[..i + 1]) > 0.0;
          assert i >= 1;
          assert cols[1..][i - 1].lineBreak && c + WidthsToUse(cols[1..][..i - 1 + 1]) > 0.0;
        }
        if rest.Err? {
          var j :| 0 <= j < |cols[1..]| && cols[1..][j].lineBreak && c + WidthsToUse(cols[1..][..j + 1]) > 0.0;
          assert cols[j + 1].lineBreak && cur + WidthsToUse(cols[..j + 1 + 1]) > 0.0;
        }
      }
    }
  }

  /** Sum of a prefix, split off its first column. */
  lemma {:induction false} PrefixSumShift(cols: seq<Column>, i: nat)
    requires 1 <= i < |cols|
    ensures WidthsToUse(cols[..i + 1]) == cols[0].widthToUse + WidthsToUse(cols[1..][..i])
    decreases i
  {
    assert cols[..i + 1][..i] == cols[..i];
    assert cols[1..][..i][..i - 1] == cols[1..][..i - 1];
    if i == 1 {
      assert cols[..1][..0] == [];
      assert cols[1..][..0] == [];
      assert WidthsToUse(cols[..1]) == cols[0].widthToUse;
    } else {
      PrefixSumShift(cols, i - 1);
    }
  }

  /** Two millimetre columns in two sub-rows: a table that sizes its
      columns to its full width crashes. */
  lemma AdjustAsWrittenExample(a: Column, b: Column)
    requires a.lineBreak && a.widthToUse == 50.0 && !b.lineBreak
    ensures AdjustAsWritten([a, b], 100.0, [], 0.0) == Err(UndefinedMethod("setWidth"))
  {
  }

  /** adjustColumnsToWidth as written: nothing to do without columns or
      without width; otherwise the margins come off the width and the
      columns are scaled group by group, which crashes as soon as a line
      break closes a group. `Some(w)` is the table's new width. */
  function AdjustColumnsToWidthAsWritten(cols: seq<Column>, maxWidth: real, marginLeft: real, marginRight: real)
    : (r: Result<(seq<Column>, Option<real>)>)
    ensures |cols| == 0 || maxWidth <= 0.0 ==> r == Ok((cols, None))
    ensures |cols| > 0 && maxWidth > 0.0 ==>
      (r.Err? <==> exists i :: 0 <= i < |cols| && cols[i].lineBreak && WidthsToUse(cols[..i + 1]) > 0.0)
    ensures |cols| > 0 && maxWidth > 0.0 && r.Ok? ==>
      var w := maxWidth - marginLeft - marginRight;
      r.value == (Adjust(cols, w, [], 0.0), Some(w))
  {
    if |cols| == 0 || maxWidth <= 0.0 then Ok((cols, None))
    else
      var w := maxWidth - marginLeft - marginRight;
      AdjustAsWrittenFails(cols, w, [], 0.0);
      var out :- AdjustAsWritten(cols, w, [], 0.0);
      Ok((out, Some(w)))
  }

  /** The inner loop of adjustColumnsToWidth over a closed group. */
  method ScaleGroupLoop(cols: seq<Column>, lo: nat, hi: nat, d: real) returns (r: seq<Column>)
    requires lo <= hi <= |cols|
    ensures r == ScaleGroup(cols[lo..hi], d)
  {
    r := [];
    var colNr := lo;
    while colNr < hi
      invariant lo <= colNr <= hi && r == ScaleGroup(cols[lo..colNr], d)
    {
      var column := cols[colNr];
      column := column.(width := Scaled(column.width, d));
      column := column.(widthToUse := column.width);
      assert cols[lo..colNr + 1][..colNr - lo] == cols[lo..colNr];
      assert ScaleGroup(cols[lo..colNr + 1], d) == ScaleGroup(cols[lo..colNr], d) + [column];
      r := r + [column];
      colNr := colNr + 1;
    }
  }

  /** The loop of adjustColumnsToWidth over the last group. */
  method ScaleTailLoop(cols: seq<Column>, lo: nat, d: real) returns (r: seq<Column>)
    requires lo <= |cols|
    ensures r == ScaleTail(cols[lo..], d)
  {
    r := [];
    var colNr := lo;
    while colNr < |cols|
      invariant lo <= colNr <= |cols| && r == ScaleTail(cols[lo..colNr], d)
    {
      var column := cols[colNr];
      assert cols[lo..colNr + 1][..colNr - lo] == cols[lo..colNr];
      assert ScaleTail(cols[lo..colNr + 1], d) == ScaleTail(cols[lo..colNr], d) + [column.(widthToUse := Scaled(column.widthToUse, d))];
      r := r + [column.(widthToUse := Scaled(column.widthToUse, d))];
      colNr := colNr + 1;
    }
    assert cols[lo..colNr] == cols[lo..];
  }

  /** What the loop of adjustColumnsToWidth has done after `i` columns:
      the groups before `firstCol` are scaled in `out`, the group from
      `firstCol` is `cur` wide, and the rest follows the intended layout. */
  ghost predicate AdjustSoFar(cols: seq<Column>, w: real, out: seq<Column>, firstCol: int, i: int, cur: real)
  {
    0 <= firstCol <= i <= |cols| && |out| == firstCol
    && cur == WidthsToUse(cols[firstCol..i])
    && Adjust(cols, w, [], 0.0) == out + Adjust(cols[i..], w, cols[firstCol..i], cur)
  }

  /** One column of the loop: it closes its group iff it has a line break
      and the group is then of positive width. */
  lemma AdjustSoFarStep(cols: seq<Column>, w: real, out: seq<Column>, firstCol: int, i: int, cur: real)
    requires AdjustSoFar(cols, w, out, firstCol, i, cur) && i < |cols|
    ensures var c := cur + cols[i].widthToUse;
      if cols[i].lineBreak && c > 0.0
      then AdjustSoFar(cols, w, out + ScaleGroup(cols[firstCol..i + 1], Factor(w, c)), i + 1, i + 1, 0.0)
      else AdjustSoFar(cols, w, out, firstCol, i + 1, c)
  {
    var rest := cols[i..];
    assert rest[0] == cols[i] && rest[1..] == cols[i + 1..];
    assert cols[firstCol..i] + [cols[i]] == cols[firstCol..i + 1];
    assert cols[firstCol..i + 1][..i - firstCol] == cols[firstCol..i];
    assert cols[i + 1..i + 1] == [];
    var c := cur + cols[i].widthToUse;
    if cols[i].lineBreak && c > 0.0 {
      var group := ScaleGroup(cols[firstCol..i + 1], Factor(w, c));
      assert (out + group) + Adjust(cols[i + 1..], w, [], 0.0) == out + (group + Adjust(cols[i + 1..], w, [], 0.0));
    }
  }

  /** After the last column, the last group is what is left to scale. */
  lemma AdjustSoFarDone(cols: seq<Column>, w: real, out: seq<Column>, firstCol: int, cur: real)
    requires AdjustSoFar(cols, w, out, firstCol, |cols|, cur)
    ensures Adjust(cols, w, [], 0.0)
         == out + if cur > 0.0 then ScaleTail(cols[firstCol..], Factor(w, cur)) else cols[firstCol..]
  {
    assert cols[|cols|..] == [] && cols[firstCol..|cols|] == cols[firstCol..];
  }

  /** adjustColumnsToWidth, with the nominal width of each column closed by
      a line break set as evidently intended: the margins come off the
      width, each group is scaled to the rest, and the table becomes that
      wide. `Some(w)` is the table's new width. */
  method AdjustColumnsToWidth(cols: seq<Column>, maxWidth: real, marginLeft: real, marginRight: real)
    returns (out: seq<Column>, tableWidth: Option<real>)
    ensures |cols| == 0 || maxWidth <= 0.0 ==> out == cols && tableWidth.None?
    ensures |cols| > 0 && maxWidth > 0.0 ==>
      var w := maxWidth - marginLeft - marginRight;
      tableWidth == Some(w) && out == Adjust(cols, w, [], 0.0)
    ensures |out| == |cols|
  {
    if |cols| == 0 || maxWidth <= 0.0 {
      return cols, None;
    }
    var w := maxWidth - marginLeft - marginRight;
    out := [];
    var dCurWidth := 0.0;
    var firstCol := 0;
    var colNumber := 0;
    while colNumber < |cols|
      invariant AdjustSoFar(cols, w, out, firstCol, colNumber, dCurWidth)
    {
      AdjustSoFarStep(cols, w, out, firstCol, colNumber, dCurWidth);
      dCurWidth := dCurWidth + cols[colNumber].widthToUse;
      if cols[colNumber].lineBreak && dCurWidth > 0.0 {
        var group := ScaleGroupLoop(cols, firstCol, colNumber + 1, Factor(w, dCurWidth));
        out := out + group;
        firstCol := colNumber + 1;
        dCurWidth := 0.0;
      }
      colNumber := colNumber + 1;
    }
    AdjustSoFarDone(cols, w, out, firstCol, dCurWidth);
    if dCurWidth > 0.0 {
      var tail := ScaleTailLoop(cols, firstCol, Factor(w, dCurWidth));
      out := out + tail;
    } else {
      out := out + cols[firstCol..];
    }
    tableWidth := Some(w);
  }
}
