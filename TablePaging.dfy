// The sizing and printing of a table's rows (src/TableFrame.php): a row is
// measured or painted cell by cell, in sub-rows where columns carry a line
// break; the rows that fit into a rect are counted under the table's
// minimum-rows policy; and a table is sized and printed page by page.
// Drawing is returned as events for the caller to append to the renderer's
// log; the row objects' texts are cleared in place for joined cells.
module TablePaging {
  import opened Wrappers
  import opened Geometry
  import opened Canvas
  import opened Pens
  import opened Styles
  import opened TableRows
  import opened TableColumns
  import opened Tables
  import Rendering

  // ---------------------------------------------------------------------
  // Row lines

  /** The pen of a row line: under the header, over a total, or between rows. */
  function RowLinePen(t: TableState, isHeader: bool, isTotal: bool): (pen: Pen)
    ensures pen == if isHeader then t.innerPenHeaderBottom else if isTotal then t.innerPenTotalTop else t.innerPenRow
  {
    if isHeader then t.innerPenHeaderBottom else if isTotal then t.innerPenTotalTop else t.innerPenRow
  }

  /** rowLine: a pen of extent 0 takes no height and draws nothing; any
      other pen takes its extent and, when printing, draws a line `length`
      long from `x`, centred half its extent above `y`. */
  function RowLine(t: TableState, x: real, y: real, length: real, isHeader: bool, isTotal: bool, sizeOnly: bool)
    : (r: (real, seq<DrawEvent>))
    ensures var pen := RowLinePen(t, isHeader, isTotal);
      (pen.extent == 0.0 ==> r == (0.0, []))
      && (pen.extent != 0.0 ==> r.0 == pen.extent && (r.1 == [] <==> sizeOnly))
      && (pen.extent != 0.0 && !sizeOnly ==>
            var ly := y - pen.extent / 2.0;
            r.1 == [Line(x, ly, x + length, ly, pen.extent, pen.dash, pen.color)])
  {
    var pen := RowLinePen(t, isHeader, isTotal);
    if pen.extent != 0.0 then
      if !sizeOnly then
        var ly := y - pen.extent / 2.0;
        (pen.extent, [Line(x, ly, x + length, ly, pen.extent, pen.dash, pen.color)])
      else (pen.extent, [])
    else (0.0, [])
  }

  // ---------------------------------------------------------------------
  // Joined cells

  /** The nominal widths of columns `lo` to `hi`, summed. */
  function Nominal(cols: seq<Column>, lo: int, hi: int): real
    requires 0 <= lo <= hi + 1 <= |cols|
    decreases hi - lo
  {
    if hi < lo then 0.0 else Nominal(cols, lo, hi - 1) + cols[hi].width
  }

  /** The last column a join starting at `s` (a column) covers: its end, as
      far as there are columns, and at least `s`. */
  function JoinLast(s: int, e: int, n: int): (j: int)
    requires 0 <= s < n
    ensures s <= j < n
    ensures s <= e < n ==> j == e
    ensures e >= n ==> j == n - 1
  {
    if e < s then s else if e > n - 1 then n - 1 else e
  }

  /** The data with the texts of columns `lo` to `hi` set to "". */
  function Cleared(data: map<string, string>, cols: seq<Column>, lo: int, hi: int): (r: map<string, string>)
    requires 0 <= lo <= hi + 1 <= |cols|
    decreases hi - lo
  {
    if hi < lo then data else Cleared(data, cols, lo, hi - 1)[cols[hi].columnName := ""]
  }

  /** Clearing empties exactly the columns' texts. */
  lemma {:induction false} ClearedTexts(data: map<string, string>, cols: seq<Column>, lo: int, hi: int, name: string)
    requires 0 <= lo <= hi + 1 <= |cols|
    ensures TextOf(Cleared(data, cols, lo, hi), name)
         == if exists j :: lo <= j <= hi && cols[j].columnName == name then "" else TextOf(data, name)
    decreases hi - lo
  {
    if lo <= hi {
      ClearedTexts(data, cols, lo, hi - 1, name);
      if exists j :: lo <= j <= hi && cols[j].columnName == name {
        var j :| lo <= j <= hi && cols[j].columnName == name;
        assert j == hi || exists i :: lo <= i <= hi - 1 && cols[i].columnName == name;
      }
    }
  }

  // ---------------------------------------------------------------------
  // sizePrintRow

  /** What sizePrintRow knows of its row when it starts: the row index, the
      header flag, the alternating flag, the row's type (none for no row),
      the join, the texts before any
      join cleared them, where the row starts, and the mode. */
  datatype RowContext = RowContext(rowIndex: int, isHeader: bool, alt: bool, rowType: Option<string>, joined: bool,
                                   joinStart: int, joinEnd: int, before: map<string, string>,
                                   x: real, y: real, sizeOnly: bool, showLine: bool)

  /** The state of sizePrintRow's pass over the columns. */
  datatype RowPass = RowPass(rowHeight: real, curr: real, xPos: real, yPos: real, subRow: int,
                             maxHeight: real, list: map<int, map<int, real>>, events: seq<DrawEvent>)

  /** The style objects the columns draw with. */
  ghost function ColumnChains(c: Column): set<TextStyle>
  {
    c.styles.header.Chain() + c.styles.detail.Chain() + c.styles.alternating.Chain()
    + c.styles.subTotal.Chain() + c.styles.total.Chain()
  }

  ghost function StyleObjects(cols: seq<Column>): set<TextStyle>
  {
    set k, o | 0 <= k < |cols| && o in ColumnChains(cols[k]) :: o
  }

  lemma ChainsInStyleObjects(cols: seq<Column>, k: int)
    requires 0 <= k < |cols|
    ensures ColumnChains(cols[k]) <= StyleObjects(cols)
  {
  }

  /** Styles allocated before stay allocated with their base chains, so a
      call that modifies no style leaves every look as it was. */
  twostate lemma StylesAllocated(cols: seq<Column>)
    ensures old(allocated(StyleObjects(cols)))
  {
    forall k | 0 <= k < |cols|
      ensures old(allocated(ColumnChains(cols[k])))
    {
      var s := cols[k].styles;
      s.header.ChainAllocated();
      s.detail.ChainAllocated();
      s.alternating.ChainAllocated();
      s.subTotal.ChainAllocated();
      s.total.ChainAllocated();
    }
  }

  /** The looks of a column's styles. */
  function LooksOf(c: Column): (l: RowKinds<Look>)
    reads ColumnChains(c)
  {
    RowKinds(LookOf(c.styles.header), LookOf(c.styles.detail), LookOf(c.styles.alternating),
             LookOf(c.styles.subTotal), LookOf(c.styles.total))
  }

  /** The look of the style a cell draws in is the look its column keeps
      for that kind of row. */
  lemma LookOfSelect(c: Column, rowType: Option<string>, isHeader: bool, alt: bool)
    ensures LookOf(c.styles.Select(rowType, isHeader, alt)) == LooksOf(c).Select(rowType, isHeader, alt)
  {
  }

  /** The looks of every column. */
  function ColumnLooks(cols: seq<Column>): (ls: seq<RowKinds<Look>>)
    reads StyleObjects(cols)
    ensures |ls| == |cols|
    decreases |cols|
  {
    if |cols| == 0 then []
    else
      var n := |cols| - 1;
      assert StyleObjects(cols[..n]) <= StyleObjects(cols) by {
        forall o | o in StyleObjects(cols[..n]) ensures o in StyleObjects(cols) {
          var k :| 0 <= k < n && o in ColumnChains(cols[..n][k]);
          assert cols[..n][k] == cols[k];
        }
      }
      ChainsInStyleObjects(cols, n);
      ColumnLooks(cols[..n]) + [LooksOf(cols[n])]
  }

  lemma {:induction false} ColumnLooksElement(cols: seq<Column>, k: int)
    requires 0 <= k < |cols|
    ensures ColumnLooks(cols)[k] == LooksOf(cols[k])
    decreases |cols|
  {
    if k < |cols| - 1 {
      ColumnLooksElement(cols[..|cols| - 1], k);
    }
  }

  /** A cell measured (the size, nothing drawn) or painted. */
  function Cell(m: Metrics, c: Column, text: string, look: Look, x: real, y: real, width: real,
                maxHeight: real, sizeOnly: bool): (r: (Size, seq<DrawEvent>))
    ensures sizeOnly ==> r == (CellSize(m, c, text, look.font, x, y, width, maxHeight), [])
    ensures !sizeOnly ==> r == CellPaint(c, text, look, x, y, width, maxHeight)
  {
    if sizeOnly then (CellSize(m, c, text, look.font, x, y, width, maxHeight), [])
    else CellPaint(c, text, look, x, y, width, maxHeight)
  }

  /** The width of the cell of column `k`: the cell a joined row starts
      spans the nominal widths of the joined columns, as far as there are
      columns; every other cell is its column's width to use. */
  function CellWidth(cols: seq<Column>, ctx: RowContext, k: int): real
    requires 0 <= k < |cols|
  {
    if ctx.joined && k == ctx.joinStart then Nominal(cols, k, JoinLast(k, ctx.joinEnd, |cols|))
    else cols[k].widthToUse
  }

  /** The row's texts once the pass has laid out the first `k` columns:
      from the start of a join on (it clears them before its own text is
      read), the joined columns after it read "". */
  function DataAfter(cols: seq<Column>, ctx: RowContext, k: int): map<string, string>
  {
    if ctx.joined && 0 <= ctx.joinStart < |cols| && k > ctx.joinStart
    then Cleared(ctx.before, cols, ctx.joinStart + 1, JoinLast(ctx.joinStart, ctx.joinEnd, |cols|))
    else ctx.before
  }

  /** The text of column `k`'s cell: the title in the header row, the
      row's text (as the pass left it) in a data row, none without a row. */
  function CellText(cols: seq<Column>, ctx: RowContext, k: int): string
    requires 0 <= k < |cols|
  {
    var c := cols[k];
    if ctx.isHeader then c.title else if ctx.rowType.Some? then TextOf(DataAfter(cols, ctx, k + 1), c.columnName) else ""
  }

  /** The join's clearing happens at its first column and nowhere else. */
  lemma DataAfterStep(cols: seq<Column>, ctx: RowContext, k: int)
    requires 0 <= k < |cols|
    ensures DataAfter(cols, ctx, k + 1)
         == if ctx.joined && k == ctx.joinStart
            then Cleared(DataAfter(cols, ctx, k), cols, k + 1, JoinLast(k, ctx.joinEnd, |cols|))
            else DataAfter(cols, ctx, k)
  {
  }

  /** One cell of sizePrintRow, given its text, look and width: the cell is
      measured (or painted) at the running position, the sub-row becomes as
      high as its highest valid cell, and a line break closes the sub-row:
      when sizing, its height is saved; when printing, the next sub-row's
      saved height becomes the height to print in. */
  function CellAdvance(m: Metrics, t: TableState, c: Column, text: string, look: Look, width: real,
                       x: real, rowIndex: int, isHeader: bool, sizeOnly: bool, p: RowPass)
    : (q: RowPass)
  {
    var cell := Cell(m, c, text, look, p.xPos, p.yPos, width, p.maxHeight, sizeOnly);
    var curr := Max(p.curr, ValidHeight(t, cell.0.height, isHeader));
    if !c.lineBreak then
      p.(curr := curr, xPos := p.xPos + c.widthToUse, events := p.events + cell.1)
    else
      RowPass(p.rowHeight + curr, 0.0, x, p.yPos + curr, p.subRow + 1,
              if sizeOnly then p.maxHeight
              else ValidHeight(t, GetSubRowHeight(p.list, rowIndex + 1, p.subRow + 1), isHeader),
              if sizeOnly then SetSubRowHeight(p.list, rowIndex + 1, p.subRow, curr) else p.list,
              p.events + cell.1)
  }

  /** Column `k` of sizePrintRow: its cell, in the look its column keeps
      for the row's kind. */
  function CellStep(m: Metrics, t: TableState, cols: seq<Column>, looks: seq<RowKinds<Look>>, ctx: RowContext,
                    k: int, p: RowPass)
    : (q: RowPass)
    requires 0 <= k < |cols| == |looks|
  {
    CellAdvance(m, t, cols[k], CellText(cols, ctx, k), looks[k].Select(ctx.rowType, ctx.isHeader, ctx.alt),
                CellWidth(cols, ctx, k), ctx.x, ctx.rowIndex, ctx.isHeader, ctx.sizeOnly, p)
  }

  /** Where the pass starts: when printing sub-rows, the first sub-row's
      saved height replaces the height given. */
  function PassStart(t: TableState, ctx: RowContext, maxHeight: real): RowPass
  {
    RowPass(0.0, 0.0, ctx.x, ctx.y, 0,
            if !ctx.sizeOnly && t.numSubRows > 1
            then ValidHeight(t, GetSubRowHeight(t.subRowHeightList, ctx.rowIndex + 1, 0), ctx.isHeader)
            else maxHeight,
            t.subRowHeightList, [])
  }

  /** The pass over the first `k` columns. */
  function Pass(m: Metrics, t: TableState, cols: seq<Column>, looks: seq<RowKinds<Look>>, ctx: RowContext,
                maxHeight: real, k: int)
    : (p: RowPass)
    requires 0 <= k <= |cols| == |looks|
    decreases k
  {
    if k == 0 then PassStart(t, ctx, maxHeight)
    else CellStep(m, t, cols, looks, ctx, k - 1, Pass(m, t, cols, looks, ctx, maxHeight, k - 1))
  }

  /** sizePrintRow's loop has laid out the first `k` columns into `p`. */
  ghost predicate PassSoFar(m: Metrics, t: TableState, cols: seq<Column>, looks: seq<RowKinds<Look>>, ctx: RowContext,
                            maxHeight: real, k: int, p: RowPass)
  {
    0 <= k <= |cols| == |looks| && p == Pass(m, t, cols, looks, ctx, maxHeight, k)
  }

  lemma PassSoFarStep(m: Metrics, t: TableState, cols: seq<Column>, looks: seq<RowKinds<Look>>, ctx: RowContext,
                      maxHeight: real, k: int, p: RowPass, q: RowPass)
    requires PassSoFar(m, t, cols, looks, ctx, maxHeight, k, p) && k < |cols|
    requires q == CellStep(m, t, cols, looks, ctx, k, p)
    ensures PassSoFar(m, t, cols, looks, ctx, maxHeight, k + 1, q)
  {
  }

  /** The end of sizePrintRow: the row is as high as its sub-rows together
      when sizing sub-rows (and the last one's height is saved), otherwise
      as its last sub-row; then come the row line when asked for, the space
      between data rows, and the line over a subtotal (with its bottom
      margin) or a total. */
  function RowEnd(t: TableState, ctx: RowContext, p: RowPass)
    : (r: (real, map<int, map<int, real>>, seq<DrawEvent>))
  {
    var multi := ctx.sizeOnly && t.numSubRows > 1;
    var height := if multi then p.rowHeight + p.curr else p.curr;
    var list := if multi then SetSubRowHeight(p.list, ctx.rowIndex + 1, p.subRow, p.curr) else p.list;
    var line := if ctx.showLine then RowLine(t, ctx.x, p.yPos + height, t.width, ctx.isHeader, false, ctx.sizeOnly) else (0.0, []);
    var subTotal := ctx.rowType == Some("S");
    var total := ctx.rowType == Some("S") || ctx.rowType == Some("T");
    var totalLine := if total then RowLine(t, ctx.x, ctx.y, t.width, false, true, ctx.sizeOnly) else (0.0, []);
    (height + line.0 + (if !ctx.isHeader then t.interRowSpace else 0.0)
            + totalLine.0 + (if subTotal then t.marginBottomSubtotal else 0.0),
     list, p.events + line.1 + totalLine.1)
  }

  /** The row the index names: none for the header row, and none for an
      index past the data (PHP reads null there). */
  function RowAt(t: TableState, rowIndex: int): (row: TableRow?)
    ensures row == if 0 <= rowIndex < |t.tableData| then t.tableData[rowIndex] else null
  {
    if 0 <= rowIndex < |t.tableData| then t.tableData[rowIndex] else null
  }

  /** The rows sizePrintRow may change: only the one it lays out. */
  function RowsAt(t: TableState, rowIndex: int): (rows: set<TableRow>)
    ensures rows == if 0 <= rowIndex < |t.tableData| then {t.tableData[rowIndex]} else {}
  {
    if 0 <= rowIndex < |t.tableData| then {t.tableData[rowIndex]} else {}
  }

  /** What sizePrintRow computes for row `rowIndex`: its height, the
      sub-row heights as saved, and what it draws. */
  function RowLayout(m: Metrics, t: TableState, rowIndex: int, x: real, y: real, maxHeight: real,
                     sizeOnly: bool, showLine: bool)
    : (real, map<int, map<int, real>>, seq<DrawEvent>)
    requires t.columns.Some?
    reads RowAt(t, rowIndex), StyleObjects(t.columns.value)
  {
    var cols := t.columns.value;
    var ctx := ContextOf(t, rowIndex, x, y, sizeOnly, showLine);
    RowEnd(t, ctx, Pass(m, t, cols, ColumnLooks(cols), ctx, maxHeight, |cols|))
  }

  /** The context sizePrintRow starts from. */
  function ContextOf(t: TableState, rowIndex: int, x: real, y: real, sizeOnly: bool, showLine: bool): RowContext
    reads RowAt(t, rowIndex)
  {
    var row := RowAt(t, rowIndex);
    RowContext(rowIndex, rowIndex == HeaderRowIndex, PhpRem(rowIndex, 2) != 0, TypeOf(row),
               row != null && row.joinStart >= 0 && row.joinEnd >= 0,
               if row != null then row.joinStart else -1, if row != null then row.joinEnd else -1,
               if row != null then row.data else map[], x, y, sizeOnly, showLine)
  }

  /** The cell of a joined row's first column: as wide as the joined
      columns' nominal widths together (as far as there are columns); the
      texts of the columns after it are cleared. */
  method JoinCell(row: TableRow, cols: seq<Column>, s: int) returns (colW: real)
    requires 0 <= s < |cols| && s == row.joinStart
    modifies row`data
    ensures colW == Nominal(cols, s, JoinLast(s, row.joinEnd, |cols|))
    ensures row.data == Cleared(old(row.data), cols, s + 1, JoinLast(s, row.joinEnd, |cols|))
  {
    colW := cols[s].width;
    var joinCol := s + 1;
    while joinCol <= row.joinEnd && joinCol < |cols|
      invariant s + 1 <= joinCol <= |cols| && (joinCol > s + 1 ==> joinCol - 1 <= row.joinEnd)
      invariant colW == Nominal(cols, s, joinCol - 1)
      invariant row.data == Cleared(old(row.data), cols, s + 1, joinCol - 1)
      invariant row.joinStart == old(row.joinStart) && row.joinEnd == old(row.joinEnd)
    {
      var colInJoin := cols[joinCol];
      colW := colW + colInJoin.width;
      row.SetText(colInJoin.columnName, "");
      joinCol := joinCol + 1;
    }
    assert joinCol == JoinLast(s, row.joinEnd, |cols|) + 1;
  }

  /** The row the pass lays out is the one the context was taken from. */
  ghost predicate RowMatches(ctx: RowContext, row: TableRow?)
    reads row
  {
    (row == null ==> ctx.rowType.None? && !ctx.joined)
    && (row != null ==> ctx.rowType == Some(row.rowType) && ctx.joinStart == row.joinStart
                        && ctx.joinEnd == row.joinEnd && ctx.joined == (row.joinStart >= 0 && row.joinEnd >= 0))
  }

  /** One column of sizePrintRow's pass: a joined row's first column first
      takes the joined width and clears the texts after it; then the cell
      is laid out with the column's text and look for the row. */
  method LayOutColumn(m: Metrics, t: TableState, row: TableRow?, cols: seq<Column>, looks: seq<RowKinds<Look>>,
                      ctx: RowContext, colNumber: int, p: RowPass)
    returns (q: RowPass)
    requires 0 <= colNumber < |cols| == |looks| && RowMatches(ctx, row)
    requires row != null ==> row.data == DataAfter(cols, ctx, colNumber)
    modifies (if row == null then {} else {row})`data
    ensures q == CellStep(m, t, cols, looks, ctx, colNumber, p)
    ensures row != null ==> row.data == DataAfter(cols, ctx, colNumber + 1)
  {
    var column := cols[colNumber];
    var colW := column.widthToUse;
    if row != null && row.joinStart >= 0 && row.joinEnd >= 0 && colNumber == row.joinStart {
      colW := JoinCell(row, cols, colNumber);
    }
    DataAfterStep(cols, ctx, colNumber);
    var text := GetString(column, ctx.isHeader, row);
    var look := looks[colNumber].Select(TypeOf(row), ctx.isHeader, ctx.alt);
    q := CellAdvance(m, t, column, text, look, colW, ctx.x, ctx.rowIndex, ctx.isHeader, ctx.sizeOnly, p);
  }

  /** The end of sizePrintRow, after its pass over the columns. */
  method FinishRow(t: TableState, ctx: RowContext, p: RowPass)
    returns (height: real, list: map<int, map<int, real>>, events: seq<DrawEvent>)
    ensures (height, list, events) == RowEnd(t, ctx, p)
  {
    var rowHeight := p.rowHeight + p.curr;
    list, events := p.list, p.events;
    if ctx.sizeOnly && t.numSubRows > 1 {
      list := SetSubRowHeight(list, ctx.rowIndex + 1, p.subRow, p.curr);
    } else {
      rowHeight := p.curr;
    }
    if ctx.showLine {
      var line := RowLine(t, ctx.x, p.yPos + rowHeight, t.width, ctx.isHeader, false, ctx.sizeOnly);
      rowHeight := rowHeight + line.0;
      events := events + line.1;
    }
    if !ctx.isHeader {
      rowHeight := rowHeight + t.interRowSpace;
    }
    if ctx.rowType == Some("S") {
      var line := RowLine(t, ctx.x, ctx.y, t.width, false, true, ctx.sizeOnly);
      rowHeight := rowHeight + line.0;
      events := events + line.1;
      rowHeight := rowHeight + t.marginBottomSubtotal;
    }
    if ctx.rowType == Some("T") {
      var line := RowLine(t, ctx.x, ctx.y, t.width, false, true, ctx.sizeOnly);
      rowHeight := rowHeight + line.0;
      events := events + line.1;
    }
    height := rowHeight;
    ghost var e := RowEnd(t, ctx, p);
    assert height == e.0 && list == e.1 && events == e.2;
  }

  /** sizePrintRow's pass over the columns, from its start. */
  method PassColumns(m: Metrics, t: TableState, row: TableRow?, cols: seq<Column>, looks: seq<RowKinds<Look>>,
                     ctx: RowContext, maxHeight: real)
    returns (p: RowPass)
    requires |looks| == |cols| && RowMatches(ctx, row)
    requires row != null ==> row.data == ctx.before
    modifies (if row == null then {} else {row})`data
    ensures p == Pass(m, t, cols, looks, ctx, maxHeight, |cols|)
    ensures row != null ==> row.data == DataAfter(cols, ctx, |cols|)
  {
    p := PassStart(t, ctx, maxHeight);
    var colNumber := 0;
    while colNumber < |cols|
      invariant 0 <= colNumber <= |cols| && |looks| == |cols| && RowMatches(ctx, row)
      invariant PassSoFar(m, t, cols, looks, ctx, maxHeight, colNumber, p)
      invariant row != null ==> row.data == DataAfter(cols, ctx, colNumber)
    {
      var q := LayOutColumn(m, t, row, cols, looks, ctx, colNumber, p);
      PassSoFarStep(m, t, cols, looks, ctx, maxHeight, colNumber, p, q);
      p := q;
      colNumber := colNumber + 1;
    }
  }

  /** sizePrintRow: measures (or prints) row `rowIndex` at (x, y) in
      `maxHeight`, giving its height, the sub-row heights as saved, and what
      it draws; a joined row's texts of the columns after the join start are
      cleared, and no other row changes (the modifies clause). */
  method SizePrintRow(m: Metrics, t: TableState, rowIndex: int, x: real, y: real, maxHeight: real,
                      sizeOnly: bool, showLine: bool)
    returns (height: real, list: map<int, map<int, real>>, events: seq<DrawEvent>)
    requires t.columns.Some?
    modifies RowsAt(t, rowIndex)`data
    ensures (height, list, events) == old(RowLayout(m, t, rowIndex, x, y, maxHeight, sizeOnly, showLine))
    ensures var row := RowAt(t, rowIndex);
      row != null ==> row.data == DataAfter(t.columns.value, old(ContextOf(t, rowIndex, x, y, sizeOnly, showLine)), |t.columns.value|)
  {
    var cols := t.columns.value;
    var row := RowAt(t, rowIndex);
    var ctx := ContextOf(t, rowIndex, x, y, sizeOnly, showLine);
    var looks := ColumnLooks(cols);
    var p := PassColumns(m, t, row, cols, looks, ctx, maxHeight);
    height, list, events := FinishRow(t, ctx, p);
  }

  // ---------------------------------------------------------------------
  // What a row's layout promises

  /** Sizing a cell draws nothing; printing one leaves the saved sub-row
      heights alone. */
  lemma CellAdvanceModes(m: Metrics, t: TableState, c: Column, text: string, look: Look, width: real,
                         x: real, rowIndex: int, isHeader: bool, sizeOnly: bool, p: RowPass)
    ensures var q := CellAdvance(m, t, c, text, look, width, x, rowIndex, isHeader, sizeOnly, p);
      (sizeOnly ==> q.events == p.events) && (!sizeOnly ==> q.list == p.list)
  {
    var cell := Cell(m, c, text, look, p.xPos, p.yPos, width, p.maxHeight, sizeOnly);
    if sizeOnly {
      assert cell.1 == [];
      assert p.events + cell.1 == p.events;
    }
  }

  /** The same holds for the pass over the first `k` columns. */
  lemma {:induction false} PassModes(m: Metrics, t: TableState, cols: seq<Column>, looks: seq<RowKinds<Look>>,
                                     ctx: RowContext, maxHeight: real, k: int)
    requires 0 <= k <= |cols| == |looks|
    ensures ctx.sizeOnly ==> Pass(m, t, cols, looks, ctx, maxHeight, k).events == []
    ensures !ctx.sizeOnly ==> Pass(m, t, cols, looks, ctx, maxHeight, k).list == t.subRowHeightList
    decreases k
  {
    if k > 0 {
      PassModes(m, t, cols, looks, ctx, maxHeight, k - 1);
      var p := Pass(m, t, cols, looks, ctx, maxHeight, k - 1);
      CellAdvanceModes(m, t, cols[k - 1], CellText(cols, ctx, k - 1), looks[k - 1].Select(ctx.rowType, ctx.isHeader, ctx.alt),
                       CellWidth(cols, ctx, k - 1), ctx.x, ctx.rowIndex, ctx.isHeader, ctx.sizeOnly, p);
    }
  }

  /** A row measured with sizeOnly draws nothing. */
  lemma SizingDrawsNothing(m: Metrics, t: TableState, rowIndex: int, x: real, y: real, maxHeight: real, showLine: bool)
    requires t.columns.Some?
    ensures RowLayout(m, t, rowIndex, x, y, maxHeight, true, showLine).2 == []
  {
    var cols := t.columns.value;
    PassModes(m, t, cols, ColumnLooks(cols), ContextOf(t, rowIndex, x, y, true, showLine), maxHeight, |cols|);
  }

  /** A row printed leaves the saved sub-row heights as they were. */
  lemma PrintingKeepsSubRowHeights(m: Metrics, t: TableState, rowIndex: int, x: real, y: real, maxHeight: real,
                                   showLine: bool)
    requires t.columns.Some?
    ensures RowLayout(m, t, rowIndex, x, y, maxHeight, false, showLine).1 == t.subRowHeightList
  {
    var cols := t.columns.value;
    PassModes(m, t, cols, ColumnLooks(cols), ContextOf(t, rowIndex, x, y, false, showLine), maxHeight, |cols|);
  }

  /** The height sizePrintRow measures for a row in context `ctx`, given
      the looks of the columns: the part of a measurement no saved sub-row
      height enters into. */
  function SizedHeight(m: Metrics, t: TableState, looks: seq<RowKinds<Look>>, ctx: RowContext, maxHeight: real): real
    requires t.columns.Some? && |looks| == |t.columns.value|
  {
    var cols := t.columns.value;
    RowEnd(t, ctx, Pass(m, t, cols, looks, ctx, maxHeight, |cols|)).0
  }

  /** When sizing, the pass over the columns is the same whatever sub-row
      heights were saved before, except for those saved heights. */
  lemma {:induction false} PassIgnoresSavedHeights(m: Metrics, t: TableState, l: map<int, map<int, real>>,
                                                   cols: seq<Column>, looks: seq<RowKinds<Look>>,
                                                   ctx: RowContext, maxHeight: real, k: int)
    requires 0 <= k <= |cols| == |looks| && ctx.sizeOnly
    ensures Pass(m, t.(subRowHeightList := l), cols, looks, ctx, maxHeight, k).(list := map[])
         == Pass(m, t, cols, looks, ctx, maxHeight, k).(list := map[])
    decreases k
  {
    if k > 0 {
      PassIgnoresSavedHeights(m, t, l, cols, looks, ctx, maxHeight, k - 1);
      CellIgnoresSavedHeights(m, t, l, cols[k - 1], CellText(cols, ctx, k - 1),
                              looks[k - 1].Select(ctx.rowType, ctx.isHeader, ctx.alt), CellWidth(cols, ctx, k - 1),
                              ctx.x, ctx.rowIndex, ctx.isHeader,
                              Pass(m, t.(subRowHeightList := l), cols, looks, ctx, maxHeight, k - 1),
                              Pass(m, t, cols, looks, ctx, maxHeight, k - 1));
    }
  }

  /** One cell sized from passes that differ only in their saved heights
      gives passes that differ only there. */
  lemma CellIgnoresSavedHeights(m: Metrics, t: TableState, l: map<int, map<int, real>>, c: Column, text: string,
                                look: Look, width: real, x: real, rowIndex: int, isHeader: bool, p: RowPass, q: RowPass)
    requires p.(list := map[]) == q.(list := map[])
    ensures CellAdvance(m, t.(subRowHeightList := l), c, text, look, width, x, rowIndex, isHeader, true, p).(list := map[])
         == CellAdvance(m, t, c, text, look, width, x, rowIndex, isHeader, true, q).(list := map[])
  {
    assert p.curr == q.curr && p.xPos == q.xPos && p.yPos == q.yPos && p.maxHeight == q.maxHeight;
    assert p.rowHeight == q.rowHeight && p.subRow == q.subRow && p.events == q.events;
  }

  /** A row measured with any saved sub-row heights is as high as
      SizedHeight says for its context. */
  lemma SizedRowLayout(m: Metrics, t: TableState, l: map<int, map<int, real>>, rowIndex: int, x: real, y: real,
                       showLine: bool)
    requires t.columns.Some?
    ensures RowLayout(m, t.(subRowHeightList := l), rowIndex, x, y, t.maxDetailRowHeight, true, showLine).0
         == SizedHeight(m, t, ColumnLooks(t.columns.value), ContextOf(t, rowIndex, x, y, true, showLine), t.maxDetailRowHeight)
  {
    var cols := t.columns.value;
    var looks := ColumnLooks(cols);
    var ctx := ContextOf(t, rowIndex, x, y, true, showLine);
    var u := t.(subRowHeightList := l);
    assert ContextOf(u, rowIndex, x, y, true, showLine) == ctx;
    PassIgnoresSavedHeights(m, t, l, cols, looks, ctx, t.maxDetailRowHeight, |cols|);
    RowEndIgnoresSavedHeights(t, l, ctx, Pass(m, u, cols, looks, ctx, t.maxDetailRowHeight, |cols|),
                              Pass(m, t, cols, looks, ctx, t.maxDetailRowHeight, |cols|));
  }

  /** The end of a row: its height does not depend on saved sub-row heights. */
  lemma RowEndIgnoresSavedHeights(t: TableState, l: map<int, map<int, real>>, ctx: RowContext, p: RowPass, q: RowPass)
    requires p.(list := map[]) == q.(list := map[])
    ensures RowEnd(t.(subRowHeightList := l), ctx, p).0 == RowEnd(t, ctx, q).0
  {
    assert p.rowHeight == q.rowHeight && p.curr == q.curr && p.yPos == q.yPos;
  }

  /** The heights saved for sub-rows 0 to n - 1 of a row, summed. */
  function SavedSum(list: map<int, map<int, real>>, row: int, n: int): real
    decreases n
  {
    if n <= 0 then 0.0 else SavedSum(list, row, n - 1) + GetSubRowHeight(list, row, n - 1)
  }

  /** Saving a later sub-row's height leaves the sum of the earlier ones. */
  lemma {:induction false} SavedSumSet(list: map<int, map<int, real>>, row: int, n: int, subRow: int, h: real)
    requires subRow >= n
    ensures SavedSum(SetSubRowHeight(list, row, subRow, h), row, n) == SavedSum(list, row, n)
    decreases n
  {
    if n > 0 {
      SavedSumSet(list, row, n - 1, subRow, h);
      SubRowHeightRoundTrip(list, row, subRow, h, row, n - 1);
    }
  }

  /** Sizing a cell that closes a sub-row saves the sub-row's height and
      adds it to the row's; any other cell leaves both alone. */
  lemma CellAdvanceSizing(m: Metrics, t: TableState, c: Column, text: string, look: Look, width: real,
                          x: real, rowIndex: int, isHeader: bool, p: RowPass)
    ensures var q := CellAdvance(m, t, c, text, look, width, x, rowIndex, isHeader, true, p);
      (c.lineBreak ==> q.subRow == p.subRow + 1
                       && q.list == SetSubRowHeight(p.list, rowIndex + 1, p.subRow, q.rowHeight - p.rowHeight))
      && (!c.lineBreak ==> q.subRow == p.subRow && q.list == p.list && q.rowHeight == p.rowHeight)
  {
  }

  /** Closing sub-row n with height h after n sub-rows that sum to s: the
      n + 1 sub-rows sum to s + h. */
  lemma SavedSumClose(list: map<int, map<int, real>>, row: int, n: int, s: real, h: real)
    requires n >= 0 && s == SavedSum(list, row, n)
    ensures SavedSum(SetSubRowHeight(list, row, n, h), row, n + 1) == s + h
  {
    SavedSumSet(list, row, n, n, h);
    SubRowHeightRoundTrip(list, row, n, h, row, n);
  }

  /** While sizing, the height of the closed sub-rows is the sum of the
      heights saved for them. */
  lemma {:induction false} PassSubRows(m: Metrics, t: TableState, cols: seq<Column>, looks: seq<RowKinds<Look>>,
                                       ctx: RowContext, maxHeight: real, k: int)
    requires 0 <= k <= |cols| == |looks| && ctx.sizeOnly
    ensures SubRowsSaved(Pass(m, t, cols, looks, ctx, maxHeight, k), ctx.rowIndex + 1)
    decreases k
  {
    if k > 0 {
      PassSubRows(m, t, cols, looks, ctx, maxHeight, k - 1);
      var p := Pass(m, t, cols, looks, ctx, maxHeight, k - 1);
      var text, look, width := CellText(cols, ctx, k - 1), looks[k - 1].Select(ctx.rowType, ctx.isHeader, ctx.alt),
                               CellWidth(cols, ctx, k - 1);
      var q := CellAdvance(m, t, cols[k - 1], text, look, width, ctx.x, ctx.rowIndex, ctx.isHeader, true, p);
      assert Pass(m, t, cols, looks, ctx, maxHeight, k) == q;
      CellAdvanceSizing(m, t, cols[k - 1], text, look, width, ctx.x, ctx.rowIndex, ctx.isHeader, p);
      SubRowsSavedStep(p, q, cols[k - 1].lineBreak, ctx.rowIndex + 1);
    }
  }

  /** The closed sub-rows of a pass are `subRow` many, and as high as the
      heights saved for them. */
  ghost predicate SubRowsSaved(p: RowPass, row: int)
  {
    p.subRow >= 0 && p.rowHeight == SavedSum(p.list, row, p.subRow)
  }

  lemma SubRowsSavedStep(p: RowPass, q: RowPass, lineBreak: bool, row: int)
    requires SubRowsSaved(p, row)
    requires lineBreak ==> q.subRow == p.subRow + 1 && q.list == SetSubRowHeight(p.list, row, p.subRow, q.rowHeight - p.rowHeight)
    requires !lineBreak ==> q.subRow == p.subRow && q.list == p.list && q.rowHeight == p.rowHeight
    ensures SubRowsSaved(q, row)
  {
    if lineBreak {
      SavedSumClose(p.list, row, p.subRow, p.rowHeight, q.rowHeight - p.rowHeight);
    }
  }

  /** What a row adds below its sub-rows: the row line when asked for, the
      space between data rows, and the line over a subtotal (with its
      bottom margin) or a total. */
  function RowExtras(t: TableState, ctx: RowContext): real
  {
    (if ctx.showLine then RowLinePen(t, ctx.isHeader, false).extent else 0.0)
    + (if !ctx.isHeader then t.interRowSpace else 0.0)
    + (if ctx.rowType == Some("S") || ctx.rowType == Some("T") then RowLinePen(t, false, true).extent else 0.0)
    + (if ctx.rowType == Some("S") then t.marginBottomSubtotal else 0.0)
  }

  lemma RowEndSubRows(t: TableState, ctx: RowContext, p: RowPass)
    requires ctx.sizeOnly && t.numSubRows > 1
    requires SubRowsSaved(p, ctx.rowIndex + 1)
    ensures var r := RowEnd(t, ctx, p);
      r.0 == SavedSum(r.1, ctx.rowIndex + 1, p.subRow + 1) + RowExtras(t, ctx)
  {
    SavedSumClose(p.list, ctx.rowIndex + 1, p.subRow, p.rowHeight, p.curr);
  }

  /** When a table of several sub-rows is sized, every sub-row's height is
      saved and the row is as high as they are together, plus its extras. */
  lemma SubRowHeightsAddUp(m: Metrics, t: TableState, cols: seq<Column>, looks: seq<RowKinds<Look>>,
                           ctx: RowContext, maxHeight: real)
    requires |cols| == |looks| && ctx.sizeOnly && t.numSubRows > 1
    ensures var p := Pass(m, t, cols, looks, ctx, maxHeight, |cols|);
      var r := RowEnd(t, ctx, p);
      r.0 == SavedSum(r.1, ctx.rowIndex + 1, p.subRow + 1) + RowExtras(t, ctx)
  {
    PassSubRows(m, t, cols, looks, ctx, maxHeight, |cols|);
    RowEndSubRows(t, ctx, Pass(m, t, cols, looks, ctx, maxHeight, |cols|));
  }

  /** Otherwise the row is as high as its last sub-row, plus its extras. */
  lemma LastSubRowHeight(m: Metrics, t: TableState, cols: seq<Column>, looks: seq<RowKinds<Look>>,
                         ctx: RowContext, maxHeight: real)
    requires |cols| == |looks| && !(ctx.sizeOnly && t.numSubRows > 1)
    ensures var p := Pass(m, t, cols, looks, ctx, maxHeight, |cols|);
      RowEnd(t, ctx, p).0 == p.curr + RowExtras(t, ctx)
  {
  }

  /** A joined row's pass leaves the texts of the columns after the join's
      first one empty, as far as the join and the columns go; every other
      text is as it was. */
  lemma JoinedTextsCleared(cols: seq<Column>, ctx: RowContext, name: string)
    requires ctx.joined && 0 <= ctx.joinStart < |cols|
    ensures var last := JoinLast(ctx.joinStart, ctx.joinEnd, |cols|);
      TextOf(DataAfter(cols, ctx, |cols|), name)
      == if exists j :: ctx.joinStart < j <= last && cols[j].columnName == name then "" else TextOf(ctx.before, name)
  {
    ClearedTexts(ctx.before, cols, ctx.joinStart + 1, JoinLast(ctx.joinStart, ctx.joinEnd, |cols|), name);
  }
}
