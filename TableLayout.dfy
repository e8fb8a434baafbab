// A table frame's page layout (src/TableFrame.php): the columns are laid
// out for the width given, the header row is sized once, the rows that fit
// into a rect are counted under the table's minimum-rows policy, and a page
// of the table is printed: header, rows, row and column lines, border.
// The function-static $saveY of findDataRowsFit is a value the caller keeps
// for all tables; drawing is returned as events.
module TableLayout {
  import opened Wrappers
  import opened Geometry
  import opened Canvas
  import opened Pens
  import opened TableRows
  import opened TableColumns
  import opened Tables
  import opened TablePaging
  import opened FrameBase

  // ---------------------------------------------------------------------
  // Columns and header

  /** The table once resizeColumns has laid its columns out for `width`:
      sub-rows are found, and a table that uses the full width has its
      columns scaled as adjustColumnsToWidth is written, which fails as
      soon as a line break closes a group of positive width. */
  function Resized(t: TableState, b: Base, width: real): (r: Result<TableState>)
    ensures r.Ok? ==> r.value.columns.Some?
  {
    if t.columns.None? then Err(Uninitialized("columns"))
    else
      var cols := t.columns.value;
      var br := Breaks(LaidOutWidths(cols, width), width, 0.0, t.width);
      var laid := LaidOutAll(cols, width, br.breaks);
      var u := t.(columns := Some(laid), numSubRows := t.numSubRows + br.count, width := br.widest);
      if b.useFullWidth then
        var a :- AdjustColumnsToWidthAsWritten(laid, width, b.marginLeft, b.marginRight);
        if a.1.Some? then Ok(u.(columns := Some(a.0), width := a.1.value)) else Ok(u)
      else Ok(u)
  }

  /** Resizing keeps the columns and counts one sub-row more per break; it
      fails iff the table uses its full width, has columns and width, and
      some line break closes a group of positive width. A table that uses
      its full width then becomes as wide as the width less its margins,
      any other as wide as its widest sub-row. */
  lemma ResizedShape(t: TableState, b: Base, width: real)
    requires t.columns.Some?
    ensures var r := Resized(t, b, width);
      var cols := t.columns.value;
      var br := Breaks(LaidOutWidths(cols, width), width, 0.0, t.width);
      var laid := LaidOutAll(cols, width, br.breaks);
      (r.Err? <==> b.useFullWidth && |cols| > 0 && width > 0.0
                   && exists i :: 0 <= i < |laid| && laid[i].lineBreak && WidthsToUse(laid[..i + 1]) > 0.0)
      && (r.Err? ==> r.error == UndefinedMethod("setWidth"))
      && (r.Ok? ==>
            |r.value.columns.value| == |cols|
            && r.value.numSubRows == t.numSubRows + br.count
            && (b.useFullWidth && |cols| > 0 && width > 0.0 ==> r.value.width == width - b.marginLeft - b.marginRight)
            && (!b.useFullWidth ==> r.value.width == br.widest && r.value.columns.value == laid)
            && r.value.tableData == t.tableData && r.value.rowIndex == t.rowIndex)
  {
  }

  /** resizeColumns: checkForSubRows, then adjustColumnsToWidth when the
      table uses the full width. */
  method ResizeColumns(t: TableState, b: Base, width: real) returns (r: Result<TableState>)
    ensures r == Resized(t, b, width)
  {
    var u :- CheckForSubRows(t, width);
    var laid := u.columns.value;
    if b.useFullWidth {
      var a :- AdjustColumnsToWidthAsWritten(laid, width, b.marginLeft, b.marginRight);
      if a.1.Some? {
        u := u.(columns := Some(a.0), width := a.1.value);
      }
    }
    return Ok(u);
  }

  /** getHeaderSize: the table's width by its header row's height. */
  function HeaderSize(t: TableState): (s: Size)
    ensures s.width == t.width && s.height == t.headerRowHeight
  {
    Size(t.width, t.headerRowHeight)
  }

  /** The table calcHeaderSize leaves: unchanged once its header is sized;
      otherwise resized for the rect's width, with the header row measured
      at the rect's corner and its height and sub-row heights saved. */
  ghost function SizedHeader(m: Metrics, t: TableState, b: Base, rect: Rect): Result<TableState>
    reads *
  {
    if t.headerSizeInit then Ok(t)
    else
      var u :- Resized(t, b, Width(rect));
      var row := RowLayout(m, u, HeaderRowIndex, rect.left, rect.top, u.maxDetailRowHeight, true, true);
      Ok(u.(headerRowHeight := row.0, subRowHeightList := row.1, headerSizeInit := true))
  }

  /** calcHeaderSize: the first call lays the columns out for the rect's
      width and measures the header row (saving its sub-row heights); later
      calls change nothing until a reset. */
  method CalcHeaderSize(m: Metrics, t: TableState, b: Base, rect: Rect) returns (r: Result<TableState>)
    ensures r == SizedHeader(m, t, b, rect)
    ensures t.headerSizeInit ==> r == Ok(t)
    ensures !t.headerSizeInit && t.columns.None? ==> r == Err(Uninitialized("columns"))
    ensures !t.headerSizeInit && t.columns.Some? ==>
      var z := Resized(t, b, Width(rect));
      (z.Err? ==> r == Err(z.error))
      && (z.Ok? ==>
            var u := z.value;
            var row := RowLayout(m, u, HeaderRowIndex, rect.left, rect.top, u.maxDetailRowHeight, true, true);
            r == Ok(u.(headerRowHeight := row.0, subRowHeightList := row.1, headerSizeInit := true)))
    ensures r.Ok? ==> r.value.headerSizeInit && r.value.tableData == t.tableData && r.value.rowIndex == t.rowIndex
    ensures r.Ok? ==> r.value.dataRowsFit == t.dataRowsFit && r.value.rowHeights == t.rowHeights
    ensures r.Ok? ==> r.value.minDataRowsFit == t.minDataRowsFit && r.value.border == t.border
    ensures r.Ok? && t.columns.Some? ==> r.value.columns.Some?
    ensures r.Err? ==> r.error == (if t.columns.None? then Uninitialized("columns") else UndefinedMethod("setWidth"))
  {
    if t.headerSizeInit {
      return Ok(t);
    }
    if t.columns.None? {
      return Err(Uninitialized("columns"));
    }
    ResizedShape(t, b, Width(rect));
    var resized := ResizeColumns(t, b, Width(rect));
    if resized.Err? {
      return Err(resized.error);
    }
    var u := MeasureHeader(m, resized.value, rect);
    r := Ok(u);
  }

  /** The header row measured at the rect's top left: its height and its
      sub-row heights are kept, and the header counts as sized. */
  method MeasureHeader(m: Metrics, t: TableState, rect: Rect) returns (u: TableState)
    requires t.columns.Some?
    ensures var row := RowLayout(m, t, HeaderRowIndex, rect.left, rect.top, t.maxDetailRowHeight, true, true);
      u == t.(headerRowHeight := row.0, subRowHeightList := row.1, headerSizeInit := true)
  {
    var height, list, events := SizePrintRow(m, t, HeaderRowIndex, rect.left, rect.top, t.maxDetailRowHeight, true, true);
    StylesAllocated(t.columns.value);
    u := t.(headerRowHeight := height, subRowHeightList := list, headerSizeInit := true);
  }

  /** getTableBounds: without a size, the rect as wide as the header (with
      the border) placed by the horizontal alignment, from the top to the
      bottom of `forRect`; with a size, that size placed by both alignments.
      Either way the right edge is clamped to `forRect`'s. */
  function TableBounds(t: TableState, b: Base, forRect: Rect, size: Option<Size>): (r: Rect)
    ensures size.None? ==>
      var w := AddBorderSize(t.border, HeaderSize(t)).width;
      r.left == AlignedX(forRect, w, b.hAlignment) && r.top == forRect.top && r.bottom == forRect.bottom
      && r.right == (if r.left + w > forRect.right then forRect.right else r.left + w)
    ensures size.Some? ==>
      var w := size.value.width;
      var h := size.value.height;
      r.left == AlignedX(forRect, w, b.hAlignment) && r.top == AlignedY(forRect, h, b.vAlignment)
      && r.right == (if r.left + w > forRect.right then forRect.right else r.left + w)
      && r.bottom == (if r.top + h > forRect.bottom then forRect.bottom else r.top + h)
  {
    if size.None? then
      var placed := WithSizeAndAlign(forRect, Some(AddBorderSize(t.border, HeaderSize(t))), b.hAlignment, b.vAlignment);
      Rect(placed.left, forRect.top, placed.right, forRect.bottom)
    else
      WithSizeAndAlign(forRect, size, b.hAlignment, b.vAlignment)
  }

  /** The header is shown on every page unless it is suppressed or printed
      only once as the first row. */
  predicate HeaderRepeated(t: TableState)
  {
    !t.suppressHeaderRow && t.repeatHeaderRow
  }

  /** sizePrintHeader: a repeated header that fits moves the rect's top
      down by its height (and is printed when not sizing); one that does
      not fit reports false and leaves the rect; without a repeated header
      the result is true and nothing moves. */
  method SizePrintHeader(m: Metrics, t: TableState, inRect: Rect, sizeOnly: bool)
    returns (fits: bool, rect: Rect, events: seq<DrawEvent>)
    requires !sizeOnly ==> t.columns.Some?
    ensures fits <==> !HeaderRepeated(t) || SizeFits(inRect, HeaderSize(t))
    ensures rect == if HeaderRepeated(t) && fits then inRect.(top := inRect.top + t.headerRowHeight) else inRect
    ensures sizeOnly || !HeaderRepeated(t) || !fits ==> events == []
    ensures !sizeOnly && HeaderRepeated(t) && fits ==>
      events == RowLayout(m, t, HeaderRowIndex, inRect.left, inRect.top, t.headerRowHeight, false, false).2
  {
    fits, rect, events := true, inRect, [];
    if HeaderRepeated(t) {
      if SizeFits(inRect, HeaderSize(t)) {
        if !sizeOnly {
          var height, list;
          height, list, events := SizePrintRow(m, t, HeaderRowIndex, inRect.left, inRect.top, t.headerRowHeight, false, false);
          StylesAllocated(t.columns.value);
        }
        rect := rect.(top := rect.top + t.headerRowHeight);
      } else {
        fits := false;
      }
    }
  }

  // ---------------------------------------------------------------------
  // Rows that fit

  /** The minimum-rows-together policy of findDataRowsFit, for `fit` rows
      that fit and `left` rows after them: when a minimum is set and rows
      remain, fewer fitting rows than the minimum print none, and a page
      that would leave fewer than the minimum for later gives rows back. */
  function MinRowsPolicy(minRows: int, fit: nat, left: int): (n: int)
    ensures 0 <= n <= fit
    ensures minRows == 0 || left <= 0 ==> n == fit
  {
    if minRows != 0 && left > 0 then
      if fit < minRows then 0
      else if left + fit < 2 * minRows then 0
      else if minRows > left then fit - (minRows - left)
      else fit
    else fit
  }

  /** No orphans and no widows: with a minimum set and rows remaining, a
      page prints none or at least the minimum, and leaves none or at least
      the minimum (here always some) for the pages after it. */
  lemma MinRowsTogether(minRows: int, fit: nat, left: int)
    requires minRows != 0 && left > 0
    ensures var n := MinRowsPolicy(minRows, fit, left);
      (n == 0 || n >= minRows) && (n > 0 ==> left + (fit - n) >= minRows)
      && (minRows > 0 ==> (n == 0 <==> fit < minRows || left + fit < 2 * minRows))
  {
  }

  /** The rows a page of the table may change: only their texts change
      (the joined cells are cleared). */
  function DataRows(t: TableState): (rows: set<TableRow>)
    ensures forall k :: 0 <= k < |t.tableData| ==> t.tableData[k] in rows
  {
    set r | r in t.tableData
  }

  /** Replacing the last height changes the sum by the difference. */
  lemma SumReplaceLast(hs: seq<real>, h: real)
    requires |hs| > 0
    ensures Sum(hs[..|hs| - 1] + [h]) == Sum(hs) - hs[|hs| - 1] + h
  {
    assert (hs[..|hs| - 1] + [h])[..|hs| - 1] == hs[..|hs| - 1];
  }

  /** No row object is added to the table twice. */
  ghost predicate RowsDistinct(t: TableState)
  {
    forall i :: 0 <= i < |t.tableData| ==> RowOnlyAt(t, i)
  }

  /** The row object at `i` is at no other index. */
  ghost predicate RowOnlyAt(t: TableState, i: int)
    requires 0 <= i < |t.tableData|
  {
    forall j :: 0 <= j < |t.tableData| && j != i ==> t.tableData[j] != t.tableData[i]
  }

  /** What a measurement reads from row `j`: its kind, its join and its
      texts, for a row laid out at the origin. */
  function RowSnapshot(t: TableState, j: int): RowContext
    reads RowAt(t, j)
  {
    ContextOf(t, j, 0.0, 0.0, true, false)
  }

  /** The snapshots of all rows as the table stands. */
  ghost function Snapshots(t: TableState): (s: seq<RowContext>)
    reads DataRows(t)
    ensures |s| == |t.tableData| && forall j :: 0 <= j < |t.tableData| ==> s[j] == RowSnapshot(t, j)
  {
    seq(|t.tableData|, j requires 0 <= j < |t.tableData| reads DataRows(t) => RowSnapshot(t, j))
  }

  /** Row `j` laid out at (x, y) for sizing, read from the snapshots; an
      index without a row (the header row's) reads no row. */
  function Placed(t: TableState, snaps: seq<RowContext>, j: int, x: real, y: real, showLine: bool): RowContext
  {
    var s := if 0 <= j < |snaps| then snaps[j]
             else RowContext(j, j == HeaderRowIndex, PhpRem(j, 2) != 0, None, false, -1, -1, map[], 0.0, 0.0, true, false);
    s.(x := x, y := y, showLine := showLine)
  }

  /** A row's first measurement on a page, at height `y`: with its row
      line unless it is the table's last row. */
  function FirstHeight(m: Metrics, t: TableState, looks: seq<RowKinds<Look>>, snaps: seq<RowContext>,
                       j: int, x: real, y: real): real
    requires t.columns.Some? && |looks| == |t.columns.value|
  {
    SizedHeight(m, t, looks, Placed(t, snaps, j, x, y, j < |t.tableData| - 1), t.maxDetailRowHeight)
  }

  /** A row's snapshot once its first measurement has cleared the texts
      its join covers; where that measurement happened does not matter. */
  function JoinCleared(cols: seq<Column>, s: RowContext): RowContext
  {
    s.(before := DataAfter(cols, s, |cols|))
  }

  /** The texts a join clears do not depend on where the row is laid out. */
  lemma JoinClearedAnywhere(cols: seq<Column>, s: RowContext, x: real, y: real, showLine: bool)
    ensures DataAfter(cols, s.(x := x, y := y, showLine := showLine), |cols|) == DataAfter(cols, s, |cols|)
  {
  }

  /** Row `j`, if there is one, has had its joined texts cleared by its
      first measurement. */
  ghost predicate RowMeasured(t: TableState, snaps: seq<RowContext>, j: int)
    requires t.columns.Some?
    reads RowAt(t, j)
  {
    0 <= j < |snaps| ==> RowSnapshot(t, j) == JoinCleared(t.columns.value, snaps[j])
  }

  /** A row measured again at `y`, without its row line, after its first
      measurement cleared its joined texts. */
  function SecondHeight(m: Metrics, t: TableState, looks: seq<RowKinds<Look>>, snaps: seq<RowContext>,
                        j: int, x: real, y: real): real
    requires t.columns.Some? && |looks| == |t.columns.value|
  {
    SizedHeight(m, t, looks, JoinCleared(t.columns.value, Placed(t, snaps, j, x, y, false)), t.maxDetailRowHeight)
  }

  /** How row `j` measures the first time at height `y` of a page whose
      rows start at `x`. */
  function FirstOf(m: Metrics, t: TableState, looks: seq<RowKinds<Look>>, snaps: seq<RowContext>, x: real)
    : (int, real) -> real
    requires t.columns.Some? && |looks| == |t.columns.value|
  {
    (j: int, y: real) => FirstHeight(m, t, looks, snaps, j, x, y)
  }

  /** How row `j` measures again at `y` after its first measurement. */
  function SecondOf(m: Metrics, t: TableState, looks: seq<RowKinds<Look>>, snaps: seq<RowContext>, x: real)
    : (int, real) -> real
    requires t.columns.Some? && |looks| == |t.columns.value|
  {
    (j: int, y: real) => SecondHeight(m, t, looks, snaps, j, x, y)
  }

  /** `first` gives the rows' first measurements as the snapshots say. */
  ghost predicate FirstMeasure(m: Metrics, t: TableState, looks: seq<RowKinds<Look>>, snaps: seq<RowContext>, x: real,
                               first: (int, real) -> real)
    requires t.columns.Some? && |looks| == |t.columns.value|
  {
    forall j, y {:trigger FirstHeight(m, t, looks, snaps, j, x, y)} :: first(j, y) == FirstHeight(m, t, looks, snaps, j, x, y)
  }

  /** `second` gives the rows' second measurements as the snapshots say. */
  ghost predicate SecondMeasure(m: Metrics, t: TableState, looks: seq<RowKinds<Look>>, snaps: seq<RowContext>, x: real,
                                second: (int, real) -> real)
    requires t.columns.Some? && |looks| == |t.columns.value|
  {
    forall j, y {:trigger SecondHeight(m, t, looks, snaps, j, x, y)} :: second(j, y) == SecondHeight(m, t, looks, snaps, j, x, y)
  }

  /** FirstOf and SecondOf give the measurements they are named for. */
  lemma MeasuresOf(m: Metrics, t: TableState, looks: seq<RowKinds<Look>>, snaps: seq<RowContext>, x: real)
    requires t.columns.Some? && |looks| == |t.columns.value|
    ensures FirstMeasure(m, t, looks, snaps, x, FirstOf(m, t, looks, snaps, x))
    ensures SecondMeasure(m, t, looks, snaps, x, SecondOf(m, t, looks, snaps, x))
  {
  }

  /** Measurement `f` gives row `j` at height `y` the height `h`. */
  predicate Gives(f: (int, real) -> real, j: int, y: real, h: real)
  {
    f(j, y) == h
  }

  /** Every row of `hs` fits in `inRect` where the rows before it end. */
  predicate RowsFit(t: TableState, inRect: Rect, hs: seq<real>)
    decreases |hs|
  {
    |hs| == 0
    || (RowsFit(t, inRect, hs[..|hs| - 1])
        && SizeFits(inRect.(top := inRect.top + Sum(hs[..|hs| - 1])), Size(t.width, hs[|hs| - 1])))
  }

  /** The heights `hs` are the rows' first measurements, from rowIndex on,
      each where the rows before it end. */
  predicate FirstHeights(t: TableState, first: (int, real) -> real, inRect: Rect, hs: seq<real>)
    decreases |hs|
  {
    |hs| == 0
    || (FirstHeights(t, first, inRect, hs[..|hs| - 1])
        && hs[|hs| - 1] == first(t.rowIndex + |hs| - 1, inRect.top + Sum(hs[..|hs| - 1])))
  }

  /** The heights findDataRowsFit keeps for a page in `inRect`, row by row,
      given how rows measure the first time and again. Every height but the
      last is its row's first measurement, and the last row is one of three
      kinds:
      - the table's last row, when it fits: its first measurement;
      - a row that fits but whose successor does not: that row measured
        again where the successor would have started, without its row line;
      - a first row that does not fit on a page starting above 40 at the
        saved position: the whole height of the rect.
      No row is kept when the rows have run out or the first does not fit
      otherwise. */
  predicate PageRowsMeasured(t: TableState, first: (int, real) -> real, second: (int, real) -> real,
                             inRect: Rect, saveY: real, hs: seq<real>)
  {
    var n := |hs|;
    var total := |t.tableData|;
    if n == 0 then
      t.rowIndex >= total
      || (!SizeFits(inRect, Size(t.width, first(t.rowIndex, inRect.top))) && !(saveY < 40.0 && saveY == inRect.top))
    else
      FirstHeights(t, first, inRect, hs[..n - 1])
      && var y := inRect.top + Sum(hs[..n - 1]);
         var h := first(t.rowIndex + n - 1, y);
         var fits := SizeFits(inRect.(top := y), Size(t.width, h));
         if fits && t.rowIndex + n >= total then hs[n - 1] == h
         else if fits then
           !SizeFits(inRect.(top := y + h), Size(t.width, first(t.rowIndex + n, y + h)))
           && hs[n - 1] == second(t.rowIndex + n - 1, y + h)
         else
           n == 1 && t.rowIndex < total && saveY < 40.0 && saveY == inRect.top && hs[0] == Height(inRect)
  }

  /** PageRowsMeasured for the table's rows and styles as they stand. */
  ghost predicate RowsMeasured(m: Metrics, t: TableState, inRect: Rect, saveY: real, hs: seq<real>)
    requires t.columns.Some?
    reads DataRows(t), StyleObjects(t.columns.value)
  {
    var looks := ColumnLooks(t.columns.value);
    var snaps := Snapshots(t);
    PageRowsMeasured(t, FirstOf(m, t, looks, snaps, inRect.left), SecondOf(m, t, looks, snaps, inRect.left),
                     inRect, saveY, hs)
  }

  /** A row that starts where the snapshots say reads what they say. */
  lemma PlacedContext(t: TableState, snaps: seq<RowContext>, j: int, x: real, y: real, showLine: bool)
    requires |snaps| == |t.tableData| && (0 <= j < |snaps| ==> snaps[j] == RowSnapshot(t, j))
    ensures ContextOf(t, j, x, y, true, showLine) == Placed(t, snaps, j, x, y, showLine)
  {
  }

  /** After its first measurement a row reads its cleared texts. */
  lemma SecondContext(t: TableState, snaps: seq<RowContext>, j: int, x: real, y: real)
    requires t.columns.Some? && |snaps| == |t.tableData|
    requires RowMeasured(t, snaps, j)
    ensures ContextOf(t, j, x, y, true, false) == JoinCleared(t.columns.value, Placed(t, snaps, j, x, y, false))
  {
  }

  /** A row that fits where the rows before it end extends the rows that fit. */
  lemma FitsAppended(t: TableState, inRect: Rect, hs: seq<real>, top: real, h: real)
    requires top == inRect.top + Sum(hs) && RowsFit(t, inRect, hs)
    requires SizeFits(inRect.(top := top), Size(t.width, h))
    ensures RowsFit(t, inRect, hs + [h]) && inRect.top + Sum(hs + [h]) == top + h
    ensures (hs + [h])[..|hs + [h]| - 1] == hs
  {
    assert (hs + [h])[..|hs|] == hs;
  }

  /** A row's first measurement where the rows before it end extends the
      first measurements. */
  lemma FirstAppended(t: TableState, first: (int, real) -> real, inRect: Rect, hs: seq<real>, index: int,
                      top: real, h: real)
    requires index == t.rowIndex + |hs| && top == inRect.top + Sum(hs)
    requires FirstHeights(t, first, inRect, hs) && Gives(first, index, top, h)
    ensures FirstHeights(t, first, inRect, hs + [h])
  {
    assert (hs + [h])[..|hs|] == hs;
  }

  /** When every row measured fits and the rows have run out, the heights
      are the rows' first measurements. */
  lemma AllRowsFit(t: TableState, first: (int, real) -> real, second: (int, real) -> real,
                   inRect: Rect, saveY: real, hs: seq<real>)
    requires FirstHeights(t, first, inRect, hs) && RowsFit(t, inRect, hs)
    requires t.rowIndex + |hs| >= |t.tableData|
    requires hs == [] ==> t.rowIndex >= |t.tableData|
    ensures PageRowsMeasured(t, first, second, inRect, saveY, hs)
  {
  }

  /** A row whose successor does not fit is measured again there. */
  lemma Remeasured(t: TableState, first: (int, real) -> real, second: (int, real) -> real,
                   inRect: Rect, saveY: real, hs: seq<real>, index: int, top: real, next: real, h: real)
    requires FirstHeights(t, first, inRect, hs) && RowsFit(t, inRect, hs)
    requires |hs| > 0 && index == t.rowIndex + |hs| < |t.tableData|
    requires top == inRect.top + Sum(hs)
    requires Gives(first, index, top, next) && !SizeFits(inRect.(top := top), Size(t.width, next))
    requires Gives(second, index - 1, top, h)
    ensures var hs' := hs[..|hs| - 1] + [h];
      PageRowsMeasured(t, first, second, inRect, saveY, hs') && RowsFit(t, inRect, hs'[..|hs'| - 1])
  {
    var n := |hs|;
    var rest := hs[..n - 1];
    var hs' := rest + [h];
    assert hs'[..n - 1] == rest && hs'[n - 1] == h;
    var y := inRect.top + Sum(rest);
    assert hs[n - 1] == first(t.rowIndex + n - 1, y);
    assert SizeFits(inRect.(top := y), Size(t.width, hs[n - 1]));
    assert y + hs[n - 1] == top && t.rowIndex + n == index;
    assert first(t.rowIndex + n, y + hs[n - 1]) == next;
    assert second(t.rowIndex + n - 1, y + hs[n - 1]) == h;
  }

  /** A first row that does not fit on a page starting again at the saved
      position above 40 is given the whole rect. */
  lemma ForcedRow(t: TableState, first: (int, real) -> real, second: (int, real) -> real,
                  inRect: Rect, saveY: real, h: real)
    requires t.rowIndex < |t.tableData|
    requires Gives(first, t.rowIndex, inRect.top, h)
    requires !SizeFits(inRect, Size(t.width, h)) && saveY < 40.0 && saveY == inRect.top
    ensures PageRowsMeasured(t, first, second, inRect, saveY, [Height(inRect)])
  {
    assert [Height(inRect)][..0] == [];
    assert inRect.(top := inRect.top + 0.0) == inRect;
  }

  /** A first row that does not fit otherwise leaves the page without rows. */
  lemma NoRowFits(t: TableState, first: (int, real) -> real, second: (int, real) -> real,
                  inRect: Rect, saveY: real, h: real)
    requires Gives(first, t.rowIndex, inRect.top, h)
    requires !SizeFits(inRect, Size(t.width, h)) && !(saveY < 40.0 && saveY == inRect.top)
    ensures PageRowsMeasured(t, first, second, inRect, saveY, [])
  {
  }

  /** Row `index` measured by sizePrintRow for sizing: its height is what
      SizedHeight gives for its context before the call; its joined texts
      are cleared; the styles are not touched. */
  method MeasureRow(m: Metrics, t: TableState, list: map<int, map<int, real>>, index: int, x: real, y: real,
                    showLine: bool, ghost looks: seq<RowKinds<Look>>)
    returns (h: real, l: map<int, map<int, real>>)
    requires t.columns.Some? && looks == ColumnLooks(t.columns.value)
    modifies RowsAt(t, index)`data
    ensures ColumnLooks(t.columns.value) == looks
    ensures h == SizedHeight(m, t, looks, old(ContextOf(t, index, x, y, true, showLine)), t.maxDetailRowHeight)
    ensures RowAt(t, index) != null ==>
      RowSnapshot(t, index)
      == old(RowSnapshot(t, index)).(before := DataAfter(t.columns.value, old(ContextOf(t, index, x, y, true, showLine)),
                                                         |t.columns.value|))
  {
    SizedRowLayout(m, t, list, index, x, y, showLine);
    var ev;
    h, l, ev := SizePrintRow(m, t.(subRowHeightList := list), index, x, y, t.maxDetailRowHeight, true, showLine);
    StylesAllocated(t.columns.value);
  }

  /** Row `index` measured the first time at `y`, with its row line unless
      it is the last: with distinct row objects its height is the row's
      first measurement, the rows after it still read as the snapshots say,
      and it reads its cleared texts. */
  method MeasureFirst(m: Metrics, t: TableState, list: map<int, map<int, real>>, index: int, x: real, y: real,
                      ghost looks: seq<RowKinds<Look>>, ghost snaps: seq<RowContext>, ghost first: (int, real) -> real)
    returns (h: real, l: map<int, map<int, real>>)
    requires t.columns.Some? && looks == ColumnLooks(t.columns.value)
    requires |snaps| == |t.tableData| && FirstMeasure(m, t, looks, snaps, x, first)
    requires RowsDistinct(t) ==> forall j {:trigger RowSnapshot(t, j)} :: index <= j < |t.tableData| && 0 <= j ==> RowSnapshot(t, j) == snaps[j]
    requires RowsDistinct(t) ==> forall j {:trigger RowMeasured(t, snaps, j)} :: t.rowIndex <= j < index ==> RowMeasured(t, snaps, j)
    modifies RowsAt(t, index)`data
    ensures ColumnLooks(t.columns.value) == looks
    ensures RowsDistinct(t) ==> Gives(first, index, y, h)
    ensures RowsDistinct(t) ==> forall j {:trigger RowSnapshot(t, j)} :: index < j < |t.tableData| && 0 <= j ==> RowSnapshot(t, j) == snaps[j]
    ensures RowsDistinct(t) ==> forall j {:trigger RowMeasured(t, snaps, j)} :: t.rowIndex <= j <= index ==> RowMeasured(t, snaps, j)
  {
    h, l := MeasureOnce(m, t, list, index, x, y, looks, snaps, first);
    if RowsDistinct(t) {
      forall j | t.rowIndex <= j < index
        ensures RowMeasured(t, snaps, j)
      {
        assert old(RowMeasured(t, snaps, j));
      }
    }
  }

  /** MeasureAt, leaving the rows after row `index` as they were. */
  method MeasureOnce(m: Metrics, t: TableState, list: map<int, map<int, real>>, index: int, x: real, y: real,
                     ghost looks: seq<RowKinds<Look>>, ghost snaps: seq<RowContext>, ghost first: (int, real) -> real)
    returns (h: real, l: map<int, map<int, real>>)
    requires t.columns.Some? && looks == ColumnLooks(t.columns.value)
    requires |snaps| == |t.tableData| && FirstMeasure(m, t, looks, snaps, x, first)
    requires RowsDistinct(t) ==> forall j {:trigger RowSnapshot(t, j)} :: index <= j < |t.tableData| && 0 <= j ==> RowSnapshot(t, j) == snaps[j]
    modifies RowsAt(t, index)`data
    ensures ColumnLooks(t.columns.value) == looks
    ensures RowsDistinct(t) ==> Gives(first, index, y, h) && RowMeasured(t, snaps, index)
    ensures RowsDistinct(t) ==> forall j {:trigger RowSnapshot(t, j)} :: index < j < |t.tableData| && 0 <= j ==> RowSnapshot(t, j) == snaps[j]
    ensures RowsDistinct(t) ==> forall j {:trigger RowSnapshot(t, j)} :: 0 <= j < index && j < |t.tableData| ==> RowSnapshot(t, j) == old(RowSnapshot(t, j))
  {
    h, l := MeasureAt(m, t, list, index, x, y, looks, snaps, first);
    if RowsDistinct(t) {
      forall j | index < j < |t.tableData| && 0 <= j
        ensures RowSnapshot(t, j) == snaps[j]
      {
        assert old(RowSnapshot(t, j)) == snaps[j];
        assert 0 <= index < |t.tableData| ==> RowOnlyAt(t, index);
        assert t.tableData[j] !in RowsAt(t, index);
      }
      forall j | 0 <= j < index && j < |t.tableData|
        ensures RowSnapshot(t, j) == old(RowSnapshot(t, j))
      {
        assert 0 <= index < |t.tableData| ==> RowOnlyAt(t, index);
        assert t.tableData[j] !in RowsAt(t, index);
      }
    }
  }

  /** The measurement itself: row `index` at (x, y), with its row line
      unless it is the last row; with distinct row objects its height is
      what `first` says and its joined texts are cleared. */
  method MeasureAt(m: Metrics, t: TableState, list: map<int, map<int, real>>, index: int, x: real, y: real,
                   ghost looks: seq<RowKinds<Look>>, ghost snaps: seq<RowContext>, ghost first: (int, real) -> real)
    returns (h: real, l: map<int, map<int, real>>)
    requires t.columns.Some? && looks == ColumnLooks(t.columns.value)
    requires |snaps| == |t.tableData| && FirstMeasure(m, t, looks, snaps, x, first)
    requires RowsDistinct(t) && 0 <= index < |t.tableData| ==> RowSnapshot(t, index) == snaps[index]
    modifies RowsAt(t, index)`data
    ensures ColumnLooks(t.columns.value) == looks
    ensures RowsDistinct(t) ==> Gives(first, index, y, h) && RowMeasured(t, snaps, index)
  {
    if RowsDistinct(t) {
      PlacedContext(t, snaps, index, x, y, index < |t.tableData| - 1);
    }
    h, l := MeasureRow(m, t, list, index, x, y, index < |t.tableData| - 1, looks);
    if RowsDistinct(t) && 0 <= index < |t.tableData| {
      JoinClearedAnywhere(t.columns.value, snaps[index], x, y, index < |t.tableData| - 1);
    }
    assert RowsDistinct(t) ==> h == FirstHeight(m, t, looks, snaps, index, x, y);
  }

  /** Row `index`, measured once already, measured again at `y` without its
      row line: with distinct row objects its height is what `second` says. */
  method MeasureAgain(m: Metrics, t: TableState, list: map<int, map<int, real>>, index: int, x: real, y: real,
                      ghost looks: seq<RowKinds<Look>>, ghost snaps: seq<RowContext>,
                      ghost second: (int, real) -> real)
    returns (h: real, l: map<int, map<int, real>>)
    requires t.columns.Some? && looks == ColumnLooks(t.columns.value)
    requires |snaps| == |t.tableData| && SecondMeasure(m, t, looks, snaps, x, second)
    requires RowsDistinct(t) ==> RowMeasured(t, snaps, index)
    modifies RowsAt(t, index)`data
    ensures RowsDistinct(t) ==> Gives(second, index, y, h)
  {
    if RowsDistinct(t) {
      SecondContext(t, snaps, index, x, y);
    }
    h, l := MeasureRow(m, t, list, index, x, y, false, looks);
    assert RowsDistinct(t) ==> h == SecondHeight(m, t, looks, snaps, index, x, y);
  }

  /** findDataRowsFit: the rows from rowIndex on are measured in turn, and
      the count that fits is cut by the minimum-rows policy; the table keeps
      the heights measured and the sub-row heights saved, and the rect's
      top moves down by their sum. */
  method FindDataRowsFit(m: Metrics, t: TableState, inRect: Rect, saveY: real)
    returns (count: int, u: TableState, rect: Rect, newSaveY: real)
    requires t.columns.Some?
    modifies DataRows(t)`data
    ensures u == t.(rowHeights := u.rowHeights, subRowHeightList := u.subRowHeightList)
    ensures var total := |t.tableData|;
      var fitted := |u.rowHeights|;
      (t.rowIndex <= total ==> t.rowIndex + fitted <= total)
      && count == MinRowsPolicy(t.minDataRowsFit, fitted, total - (t.rowIndex + fitted))
    ensures rect == inRect.(top := inRect.top + Sum(u.rowHeights))
    ensures |u.rowHeights| > 0 ==> RowsFit(t, inRect, u.rowHeights[..|u.rowHeights| - 1])
    ensures RowsDistinct(t) ==> old(RowsMeasured(m, t, inRect, saveY, u.rowHeights))
    ensures t.rowIndex >= |t.tableData| ==> u.rowHeights == [] && newSaveY == saveY
    ensures t.rowIndex < |t.tableData| && u.rowHeights == [] ==> newSaveY == inRect.top
    ensures newSaveY != saveY ==> u.rowHeights == [] && newSaveY == inRect.top
    ensures saveY < 40.0 && saveY == inRect.top && t.rowIndex < |t.tableData| ==> |u.rowHeights| > 0
  {
    var hs, list, top;
    hs, list, top, newSaveY := MeasureRows(m, t, inRect, saveY);
    u := t.(rowHeights := hs, subRowHeightList := list);
    assert u.rowHeights == hs;
    count := MinRowsPolicy(t.minDataRowsFit, |u.rowHeights|, |t.tableData| - (t.rowIndex + |u.rowHeights|));
    rect := inRect.(top := top);
  }

  /** The loop of findDataRowsFit: the rows from rowIndex on are measured
      one by one at the rect's top, which moves down by each row that fits.
      At the first row that does not fit, the row before is measured again
      without its row line; when no row fit at all, a rect whose top is where
      the last such failure happened (and above 40) takes the whole rect for
      one row, any other remembers its top in `saveY`. Every row kept but
      the last fits where it stands, and with distinct row objects the
      heights are those RowsMeasured describes. */
  method MeasureRows(m: Metrics, t: TableState, inRect: Rect, saveY: real)
    returns (hs: seq<real>, list: map<int, map<int, real>>, top: real, newSaveY: real)
    requires t.columns.Some?
    modifies DataRows(t)`data
    ensures t.rowIndex <= |t.tableData| ==> t.rowIndex + |hs| <= |t.tableData|
    ensures top == inRect.top + Sum(hs)
    ensures |hs| > 0 ==> RowsFit(t, inRect, hs[..|hs| - 1])
    ensures RowsDistinct(t) ==> old(RowsMeasured(m, t, inRect, saveY, hs))
    ensures t.rowIndex >= |t.tableData| ==> hs == [] && newSaveY == saveY
    ensures t.rowIndex < |t.tableData| && hs == [] ==> newSaveY == inRect.top
    ensures newSaveY != saveY ==> hs == [] && newSaveY == inRect.top
    ensures saveY < 40.0 && saveY == inRect.top && t.rowIndex < |t.tableData| ==> |hs| > 0
  {
    ghost var looks := ColumnLooks(t.columns.value);
    ghost var snaps := Snapshots(t);
    ghost var first := FirstOf(m, t, looks, snaps, inRect.left);
    ghost var second := SecondOf(m, t, looks, snaps, inRect.left);
    MeasuresOf(m, t, looks, snaps, inRect.left);
    hs, list, top, newSaveY := MeasurePage(m, t, inRect, saveY, looks, snaps, first, second);
  }

  /** MeasureRows for given first and second measurements of the rows. */
  method MeasurePage(m: Metrics, t: TableState, inRect: Rect, saveY: real, ghost looks: seq<RowKinds<Look>>,
                     ghost snaps: seq<RowContext>, ghost first: (int, real) -> real, ghost second: (int, real) -> real)
    returns (hs: seq<real>, list: map<int, map<int, real>>, top: real, newSaveY: real)
    requires t.columns.Some? && looks == ColumnLooks(t.columns.value)
    requires |snaps| == |t.tableData| && forall j {:trigger RowSnapshot(t, j)} :: 0 <= j < |t.tableData| ==> RowSnapshot(t, j) == snaps[j]
    requires FirstMeasure(m, t, looks, snaps, inRect.left, first)
    requires SecondMeasure(m, t, looks, snaps, inRect.left, second)
    modifies DataRows(t)`data
    ensures t.rowIndex <= |t.tableData| ==> t.rowIndex + |hs| <= |t.tableData|
    ensures top == inRect.top + Sum(hs)
    ensures |hs| > 0 ==> RowsFit(t, inRect, hs[..|hs| - 1])
    ensures RowsDistinct(t) ==> PageRowsMeasured(t, first, second, inRect, saveY, hs)
    ensures t.rowIndex >= |t.tableData| ==> hs == [] && newSaveY == saveY
    ensures t.rowIndex < |t.tableData| && hs == [] ==> newSaveY == inRect.top
    ensures newSaveY != saveY ==> hs == [] && newSaveY == inRect.top
    ensures saveY < 40.0 && saveY == inRect.top && t.rowIndex < |t.tableData| ==> |hs| > 0
  {
    var fitted, l, index, y, rowHeight, missed := FitRows(m, t, inRect, looks, snaps, first);
    if missed {
      hs, list, top, newSaveY := Overflow(m, t, inRect, saveY, fitted, l, index, y, rowHeight,
                                          looks, snaps, first, second);
    } else {
      if RowsDistinct(t) {
        AllRowsFit(t, first, second, inRect, saveY, fitted);
      }
      hs, list, top, newSaveY := fitted, l, y, saveY;
    }
  }

  /** The rows from rowIndex on measured one by one where the rows before
      them end, up to the first that does not fit (`missed`) or the end of
      the table. The rows kept fit, and with distinct row objects they are
      the rows' first measurements and the row that did not fit measured
      `rowHeight`, its first measurement; the last row kept reads its
      cleared texts and the rows after it are untouched. */
  method FitRows(m: Metrics, t: TableState, inRect: Rect, ghost looks: seq<RowKinds<Look>>,
                 ghost snaps: seq<RowContext>, ghost first: (int, real) -> real)
    returns (hs: seq<real>, list: map<int, map<int, real>>, index: int, top: real, rowHeight: real,
             missed: bool)
    requires t.columns.Some? && looks == ColumnLooks(t.columns.value)
    requires |snaps| == |t.tableData| && forall j {:trigger RowSnapshot(t, j)} :: 0 <= j < |t.tableData| ==> RowSnapshot(t, j) == snaps[j]
    requires FirstMeasure(m, t, looks, snaps, inRect.left, first)
    modifies DataRows(t)`data
    ensures ColumnLooks(t.columns.value) == looks
    ensures index == t.rowIndex + |hs| && top == inRect.top + Sum(hs) && RowsFit(t, inRect, hs)
    ensures t.rowIndex >= |t.tableData| ==> hs == [] && !missed
    ensures missed ==> index < |t.tableData| && !SizeFits(inRect.(top := top), Size(t.width, rowHeight))
    ensures !missed ==> index >= |t.tableData| && (t.rowIndex <= |t.tableData| ==> index == |t.tableData|)
    ensures RowsDistinct(t) ==> FirstHeights(t, first, inRect, hs)
    ensures RowsDistinct(t) && missed ==> Gives(first, index, top, rowHeight)
    ensures RowsDistinct(t) ==> forall j {:trigger RowMeasured(t, snaps, j)} :: t.rowIndex <= j < index ==> RowMeasured(t, snaps, j)
  {
    var total := |t.tableData|;
    var cols := t.columns.value;
    ghost var distinct := RowsDistinct(t);
    hs := [];
    list := t.subRowHeightList;
    index := t.rowIndex;
    top := inRect.top;
    rowHeight := 0.0;
    missed := false;
    while index < total
      invariant index == t.rowIndex + |hs|
      invariant t.rowIndex <= total ==> index <= total
      invariant top == inRect.top + Sum(hs)
      invariant t.rowIndex >= total ==> hs == []
      invariant ColumnLooks(cols) == looks
      invariant RowsFit(t, inRect, hs)
      invariant distinct ==> FirstHeights(t, first, inRect, hs)
      invariant distinct ==> forall j {:trigger RowSnapshot(t, j)} :: index <= j < total && 0 <= j ==> RowSnapshot(t, j) == snaps[j]
      invariant distinct ==> forall j {:trigger RowMeasured(t, snaps, j)} :: t.rowIndex <= j < index ==> RowMeasured(t, snaps, j)
      decreases total - index
    {
      var h, l := MeasureFirst(m, t, list, index, inRect.left, top, looks, snaps, first);
      list := l;
      if SizeFits(inRect.(top := top), Size(t.width, h)) {
        FitsAppended(t, inRect, hs, top, h);
        if distinct {
          FirstAppended(t, first, inRect, hs, index, top, h);
        }
        hs := hs + [h];
        top := top + h;
        index := index + 1;
      } else {
        rowHeight := h;
        missed := true;
        break;
      }
    }
  }

  /** The end of findDataRowsFit's loop, at the first row that does not
      fit: the row before it is measured again where the failing row would
      have started, without its row line; with no row before it, a rect
      whose top is the saved position above 40 takes the whole rect for the
      row, and any other rect remembers its top as the saved position. */
  method Overflow(m: Metrics, t: TableState, inRect: Rect, saveY: real, hs: seq<real>,
                  list: map<int, map<int, real>>, index: int, top: real, rowHeight: real,
                  ghost looks: seq<RowKinds<Look>>, ghost snaps: seq<RowContext>, ghost first: (int, real) -> real,
                  ghost second: (int, real) -> real)
    returns (hs': seq<real>, list': map<int, map<int, real>>, top': real, newSaveY: real)
    requires t.columns.Some? && looks == ColumnLooks(t.columns.value)
    requires |snaps| == |t.tableData| && SecondMeasure(m, t, looks, snaps, inRect.left, second)
    requires index == t.rowIndex + |hs| < |t.tableData| && top == inRect.top + Sum(hs) && RowsFit(t, inRect, hs)
    requires !SizeFits(inRect.(top := top), Size(t.width, rowHeight))
    requires RowsDistinct(t) ==> FirstHeights(t, first, inRect, hs) && Gives(first, index, top, rowHeight)
    requires RowsDistinct(t) ==> forall j {:trigger RowMeasured(t, snaps, j)} :: t.rowIndex <= j < index ==> RowMeasured(t, snaps, j)
    modifies RowsAt(t, index - 1)`data
    ensures t.rowIndex <= |t.tableData| ==> t.rowIndex + |hs'| <= |t.tableData|
    ensures top' == inRect.top + Sum(hs')
    ensures |hs'| > 0 ==> RowsFit(t, inRect, hs'[..|hs'| - 1])
    ensures RowsDistinct(t) ==> PageRowsMeasured(t, first, second, inRect, saveY, hs')
    ensures hs != [] ==> |hs'| == |hs|
    ensures hs == [] && hs' == [] ==> newSaveY == inRect.top
    ensures newSaveY != saveY ==> hs' == [] && newSaveY == inRect.top
    ensures saveY < 40.0 && saveY == inRect.top ==> |hs'| > 0
  {
    list' := list;
    newSaveY := saveY;
    if |hs| > 0 {
      hs', list', top' := RemeasureLast(m, t, inRect, saveY, hs, list, index, top, rowHeight,
                                        looks, snaps, first, second);
    } else if saveY < 40.0 && saveY == top {
      if RowsDistinct(t) {
        ForcedRow(t, first, second, inRect, saveY, rowHeight);
      }
      var h := Height(inRect.(top := top));
      hs' := [h];
      top' := top + h;
    } else {
      if RowsDistinct(t) {
        NoRowFits(t, first, second, inRect, saveY, rowHeight);
      }
      hs' := [];
      top' := top;
      newSaveY := top;
    }
  }

  /** Overflow with rows kept: the last of them is measured again where the
      row that did not fit would have started, without its row line. */
  method RemeasureLast(m: Metrics, t: TableState, inRect: Rect, saveY: real, hs: seq<real>,
                       list: map<int, map<int, real>>, index: int, top: real, rowHeight: real,
                       ghost looks: seq<RowKinds<Look>>, ghost snaps: seq<RowContext>, ghost first: (int, real) -> real,
                       ghost second: (int, real) -> real)
    returns (hs': seq<real>, list': map<int, map<int, real>>, top': real)
    requires t.columns.Some? && looks == ColumnLooks(t.columns.value)
    requires |snaps| == |t.tableData| && SecondMeasure(m, t, looks, snaps, inRect.left, second)
    requires |hs| > 0 && index == t.rowIndex + |hs| < |t.tableData| && top == inRect.top + Sum(hs) && RowsFit(t, inRect, hs)
    requires !SizeFits(inRect.(top := top), Size(t.width, rowHeight))
    requires RowsDistinct(t) ==> FirstHeights(t, first, inRect, hs) && Gives(first, index, top, rowHeight)
    requires RowsDistinct(t) ==> forall j {:trigger RowMeasured(t, snaps, j)} :: t.rowIndex <= j < index ==> RowMeasured(t, snaps, j)
    modifies RowsAt(t, index - 1)`data
    ensures top' == inRect.top + Sum(hs') && |hs'| == |hs|
    ensures RowsFit(t, inRect, hs'[..|hs'| - 1])
    ensures RowsDistinct(t) ==> PageRowsMeasured(t, first, second, inRect, saveY, hs')
  {
    var h;
    h, list' := MeasureAgain(m, t, list, index - 1, inRect.left, top, looks, snaps, second);
    if RowsDistinct(t) {
      Remeasured(t, first, second, inRect, saveY, hs, index, top, rowHeight, h);
    }
    SumReplaceLast(hs, h);
    top' := top - hs[|hs| - 1] + h;
    hs' := hs[..|hs| - 1] + [h];
    assert hs'[..|hs'| - 1] == hs[..|hs| - 1];
  }

  // ---------------------------------------------------------------------
  // Printing a page of the table

  /** One row printed at (x, y), as tall as given: what it draws; the
      sub-row heights it returns are the ones it was given. */
  method PrintRow(m: Metrics, t: TableState, rowIndex: int, x: real, y: real, height: real)
    returns (list: map<int, map<int, real>>, events: seq<DrawEvent>)
    requires t.columns.Some?
    modifies RowsAt(t, rowIndex)`data
    ensures list == t.subRowHeightList
    ensures events == old(RowLayout(m, t, rowIndex, x, y, height, false, false).2)
  {
    PrintingKeepsSubRowHeights(m, t, rowIndex, x, y, height, false);
    var h;
    h, list, events := SizePrintRow(m, t, rowIndex, x, y, height, false, false);
  }

  /** The table once the rows of its page are printed: the row index moves
      past the rows that fit. */
  function RowsPrinted(t: TableState): (u: TableState)
    ensures u.rowIndex == t.rowIndex + t.dataRowsFit
    ensures u.tableData == t.tableData && u.dataRowsFit == t.dataRowsFit && u.rowHeights == t.rowHeights
  {
    t.(rowIndex := t.rowIndex + t.dataRowsFit)
  }

  /** Row `j` printed at (x, y), as tall as given, read from the snapshots:
      what it draws. */
  function PrintedRow(m: Metrics, t: TableState, looks: seq<RowKinds<Look>>, snaps: seq<RowContext>,
                      j: int, x: real, y: real, height: real): seq<DrawEvent>
    requires t.columns.Some? && |looks| == |t.columns.value|
  {
    var ctx := Placed(t, snaps, j, x, y, false).(sizeOnly := false);
    RowEnd(t, ctx, Pass(m, t, t.columns.value, looks, ctx, height, |t.columns.value|)).2
  }

  /** How row `j` prints at height `y`, `h` tall, on a page whose rows start
      at `x`. */
  function PrintOf(m: Metrics, t: TableState, looks: seq<RowKinds<Look>>, snaps: seq<RowContext>, x: real)
    : (int, real, real) -> seq<DrawEvent>
    requires t.columns.Some? && |looks| == |t.columns.value|
  {
    (j: int, y: real, h: real) => PrintedRow(m, t, looks, snaps, j, x, y, h)
  }

  /** `draw` gives what the rows draw as the snapshots say. */
  ghost predicate PrintMeasure(m: Metrics, t: TableState, looks: seq<RowKinds<Look>>, snaps: seq<RowContext>, x: real,
                               draw: (int, real, real) -> seq<DrawEvent>)
    requires t.columns.Some? && |looks| == |t.columns.value|
  {
    forall j, y, h {:trigger PrintedRow(m, t, looks, snaps, j, x, y, h)} ::
      draw(j, y, h) == PrintedRow(m, t, looks, snaps, j, x, y, h)
  }

  /** PrintOf gives what the rows draw. */
  lemma PrintsOf(m: Metrics, t: TableState, looks: seq<RowKinds<Look>>, snaps: seq<RowContext>, x: real)
    requires t.columns.Some? && |looks| == |t.columns.value|
    ensures PrintMeasure(m, t, looks, snaps, x, PrintOf(m, t, looks, snaps, x))
  {
  }

  /** Printing `draw` draws `ev` for row `j` at height `y`, `h` tall. */
  predicate Prints(draw: (int, real, real) -> seq<DrawEvent>, j: int, y: real, h: real, ev: seq<DrawEvent>)
  {
    draw(j, y, h) == ev
  }

  /** What the first `k` rows of a page draw, one below the other from
      height `y` down, each as tall as its row height says. */
  function Stacked(draw: (int, real, real) -> seq<DrawEvent>, t: TableState, y: real, k: nat): seq<DrawEvent>
    requires k <= |t.rowHeights|
  {
    if k == 0 then []
    else Stacked(draw, t, y, k - 1) + draw(t.rowIndex + k - 1, y + Sum(t.rowHeights[..k - 1]), t.rowHeights[k - 1])
  }

  /** One more row, row `j` printed `y'` down and `h` tall, extends what the
      rows before it draw. */
  lemma StackedStep(draw: (int, real, real) -> seq<DrawEvent>, t: TableState, y: real, k: nat,
                    j: int, y': real, h: real, ev: seq<DrawEvent>)
    requires k < |t.rowHeights| && Prints(draw, j, y', h, ev)
    requires j == t.rowIndex + k && y' == y + Sum(t.rowHeights[..k]) && h == t.rowHeights[k]
    ensures Stacked(draw, t, y, k + 1) == Stacked(draw, t, y, k) + ev
  {
  }

  /** What printRows draws for the page of `t` whose rows start at (x, y):
      each row that fits as it stands, at the height it was measured. */
  ghost function PageRows(m: Metrics, t: TableState, x: real, y: real): seq<DrawEvent>
    requires t.columns.Some? && Valid(t)
    reads DataRows(t), StyleObjects(t.columns.value)
  {
    Stacked(PrintOf(m, t, ColumnLooks(t.columns.value), Snapshots(t), x), t, y, t.dataRowsFit)
  }

  /** A row printed draws what its snapshot says it draws. */
  lemma PrintedRowLayout(m: Metrics, t: TableState, snaps: seq<RowContext>, j: int, x: real, y: real, height: real)
    requires t.columns.Some? && |snaps| == |t.tableData| && (0 <= j < |snaps| ==> snaps[j] == RowSnapshot(t, j))
    ensures RowLayout(m, t, j, x, y, height, false, false).2
            == PrintedRow(m, t, ColumnLooks(t.columns.value), snaps, j, x, y, height)
  {
    assert ContextOf(t, j, x, y, false, false) == Placed(t, snaps, j, x, y, false).(sizeOnly := false);
  }

  /** Row `index` printed at (x, y): with distinct row objects it draws what
      `draw` says, and the rows after it still read as the snapshots say. */
  method PrintAt(m: Metrics, t: TableState, index: int, x: real, y: real, height: real,
                 ghost looks: seq<RowKinds<Look>>, ghost snaps: seq<RowContext>, ghost draw: (int, real, real) -> seq<DrawEvent>)
    returns (events: seq<DrawEvent>)
    requires t.columns.Some? && looks == ColumnLooks(t.columns.value) && |snaps| == |t.tableData|
    requires PrintMeasure(m, t, looks, snaps, x, draw)
    requires RowsDistinct(t) ==> forall j {:trigger RowSnapshot(t, j)} :: index <= j < |t.tableData| && 0 <= j ==> RowSnapshot(t, j) == snaps[j]
    modifies RowsAt(t, index)`data
    ensures ColumnLooks(t.columns.value) == looks
    ensures RowsDistinct(t) ==> Prints(draw, index, y, height, events)
    ensures RowsDistinct(t) ==> forall j {:trigger RowSnapshot(t, j)} :: index < j < |t.tableData| && 0 <= j ==> RowSnapshot(t, j) == snaps[j]
  {
    events := PrintHere(m, t, index, x, y, height, looks, snaps, draw);
    if RowsDistinct(t) {
      forall j | index < j < |t.tableData| && 0 <= j
        ensures RowSnapshot(t, j) == snaps[j]
      {
        assert old(RowSnapshot(t, j)) == snaps[j];
        assert 0 <= index < |t.tableData| ==> RowOnlyAt(t, index);
        assert t.tableData[j] !in RowsAt(t, index);
      }
    }
  }

  /** The printing itself: row `index` at (x, y), as tall as given. */
  method PrintHere(m: Metrics, t: TableState, index: int, x: real, y: real, height: real,
                   ghost looks: seq<RowKinds<Look>>, ghost snaps: seq<RowContext>, ghost draw: (int, real, real) -> seq<DrawEvent>)
    returns (events: seq<DrawEvent>)
    requires t.columns.Some? && looks == ColumnLooks(t.columns.value) && |snaps| == |t.tableData|
    requires PrintMeasure(m, t, looks, snaps, x, draw)
    requires RowsDistinct(t) && 0 <= index < |t.tableData| ==> RowSnapshot(t, index) == snaps[index]
    modifies RowsAt(t, index)`data
    ensures ColumnLooks(t.columns.value) == looks
    ensures RowsDistinct(t) ==> Prints(draw, index, y, height, events)
  {
    if RowsDistinct(t) {
      PrintedRowLayout(m, t, snaps, index, x, y, height);
    }
    // the sub-row heights each row returns are the ones it was given
    var _, ev := PrintRow(m, t, index, x, y, height);
    events := ev;
    StylesAllocated(t.columns.value);
  }

  /** printRows: the rows that fit are printed one below the other, each
      as tall as measured; the current row moves past them, and printing
      leaves the saved sub-row heights as they were. With distinct row
      objects each row draws what it would have drawn before printing. */
  method PrintRows(m: Metrics, t: TableState, inRect: Rect) returns (u: TableState, rect: Rect, events: seq<DrawEvent>)
    requires t.columns.Some? && Valid(t)
    modifies DataRows(t)`data
    ensures u == RowsPrinted(t)
    ensures rect == inRect.(top := inRect.top + Sum(t.rowHeights[..t.dataRowsFit]))
    ensures RowsDistinct(t) ==> events == old(PageRows(m, t, inRect.left, inRect.top))
  {
    var index, top;
    index, top, events := PrintPageRows(m, t, inRect);
    u := t.(rowIndex := index);
    rect := inRect.(top := top);
  }

  /** The printing loop run on the rows as they stand: the current row
      and the top it ends at, and the events of the rows. */
  method PrintPageRows(m: Metrics, t: TableState, inRect: Rect) returns (index: int, top: real, events: seq<DrawEvent>)
    requires t.columns.Some? && Valid(t)
    modifies DataRows(t)`data
    ensures index == t.rowIndex + t.dataRowsFit
    ensures top == inRect.top + Sum(t.rowHeights[..t.dataRowsFit])
    ensures RowsDistinct(t) ==> events == old(PageRows(m, t, inRect.left, inRect.top))
  {
    ghost var looks := ColumnLooks(t.columns.value);
    ghost var snaps := Snapshots(t);
    ghost var draw := PrintOf(m, t, looks, snaps, inRect.left);
    PrintsOf(m, t, looks, snaps, inRect.left);
    index, top, events := PrintPage(m, t, inRect, looks, snaps, draw);
  }

  /** The loop of printRows for a given printing of the rows: the row it
      ends at, the top it ends at, and the rows drawn one below the other. */
  method PrintPage(m: Metrics, t: TableState, inRect: Rect, ghost looks: seq<RowKinds<Look>>,
                   ghost snaps: seq<RowContext>, ghost draw: (int, real, real) -> seq<DrawEvent>)
    returns (index: int, top: real, events: seq<DrawEvent>)
    requires t.columns.Some? && Valid(t) && looks == ColumnLooks(t.columns.value)
    requires |snaps| == |t.tableData| && forall j {:trigger RowSnapshot(t, j)} :: 0 <= j < |t.tableData| ==> RowSnapshot(t, j) == snaps[j]
    requires PrintMeasure(m, t, looks, snaps, inRect.left, draw)
    modifies DataRows(t)`data
    ensures index == t.rowIndex + t.dataRowsFit
    ensures top == inRect.top + Sum(t.rowHeights[..t.dataRowsFit])
    ensures RowsDistinct(t) ==> events == Stacked(draw, t, inRect.top, t.dataRowsFit)
  {
    var cols := t.columns.value;
    ghost var distinct := RowsDistinct(t);
    index := t.rowIndex;
    top := inRect.top;
    events := [];
    var rowCount := 0;
    while rowCount < t.dataRowsFit
      invariant 0 <= rowCount <= t.dataRowsFit
      invariant index == t.rowIndex + rowCount
      invariant top == inRect.top + Sum(t.rowHeights[..rowCount])
      invariant ColumnLooks(cols) == looks
      invariant distinct ==> events == Stacked(draw, t, inRect.top, rowCount)
      invariant distinct ==>
        forall j {:trigger RowSnapshot(t, j)} :: index <= j < |t.tableData| && 0 <= j ==> RowSnapshot(t, j) == snaps[j]
    {
      top, events := PrintNext(m, t, inRect, rowCount, index, top, events, looks, snaps, draw);
      rowCount, index := rowCount + 1, index + 1;
    }
  }

  /** One pass of the printing loop: row `index`, the `rowCount`-th of the
      page, is printed at its recorded height below the rows before it. */
  method PrintNext(m: Metrics, t: TableState, inRect: Rect, rowCount: nat, index: int, top: real,
                   events: seq<DrawEvent>, ghost looks: seq<RowKinds<Look>>, ghost snaps: seq<RowContext>,
                   ghost draw: (int, real, real) -> seq<DrawEvent>)
    returns (top': real, events': seq<DrawEvent>)
    requires t.columns.Some? && rowCount < |t.rowHeights| && looks == ColumnLooks(t.columns.value)
    requires index == t.rowIndex + rowCount && top == inRect.top + Sum(t.rowHeights[..rowCount])
    requires |snaps| == |t.tableData| && PrintMeasure(m, t, looks, snaps, inRect.left, draw)
    requires RowsDistinct(t) ==> events == Stacked(draw, t, inRect.top, rowCount)
    requires RowsDistinct(t) ==>
      forall j {:trigger RowSnapshot(t, j)} :: index <= j < |t.tableData| && 0 <= j ==> RowSnapshot(t, j) == snaps[j]
    modifies DataRows(t)`data
    ensures ColumnLooks(t.columns.value) == looks
    ensures top' == inRect.top + Sum(t.rowHeights[..rowCount + 1])
    ensures RowsDistinct(t) ==> events' == Stacked(draw, t, inRect.top, rowCount + 1)
    ensures RowsDistinct(t) ==>
      forall j {:trigger RowSnapshot(t, j)} :: index < j < |t.tableData| && 0 <= j ==> RowSnapshot(t, j) == snaps[j]
  {
    var height := t.rowHeights[rowCount];
    var ev := PrintAt(m, t, index, inRect.left, top, height, looks, snaps, draw);
    if RowsDistinct(t) {
      StackedStep(draw, t, inRect.top, rowCount, index, top, height, ev);
    }
    events' := events + ev;
    SumPrefixStep(t.rowHeights, rowCount);
    top' := top + height;
  }

  /** The row lines of a page: one under each row of `hs`, the rows stacked
      from `y` down, the k-th where the first k+1 rows end. */
  function RowSeparators(t: TableState, x: real, y: real, length: real, hs: seq<real>): (ev: seq<DrawEvent>)
    decreases |hs|
  {
    if |hs| == 0 then []
    else RowSeparators(t, x, y, length, hs[..|hs| - 1]) + RowLine(t, x, y + Sum(hs), length, false, false, false).1
  }

  /** With a row pen of extent 0 there are no lines; otherwise one per row,
      each drawn with the row pen straight across the width, half the pen's
      extent above where its row ends. */
  lemma {:induction false} RowSeparatorsGeometry(t: TableState, x: real, y: real, length: real, hs: seq<real>)
    ensures var ev := RowSeparators(t, x, y, length, hs);
      var w := t.innerPenRow.extent;
      (w == 0.0 ==> ev == [])
      && (w != 0.0 ==>
            (|ev| == |hs|
             && forall k :: 0 <= k < |hs| ==>
                  ev[k] == Line(x, y + Sum(hs[..k + 1]) - w / 2.0, x + length, y + Sum(hs[..k + 1]) - w / 2.0,
                                w, t.innerPenRow.dash, t.innerPenRow.color)))
    decreases |hs|
  {
    if |hs| > 0 {
      var front := hs[..|hs| - 1];
      RowSeparatorsGeometry(t, x, y, length, front);
      if t.innerPenRow.extent != 0.0 {
        forall j | 1 <= j <= |front|
          ensures front[..j] == hs[..j]
        {
        }
        assert hs[..|hs|] == hs;
      }
    }
  }

  /** The row lines of a page in `rect`: the line under the header when it
      is included, then the lines between the rows printed on the page
      (none under the last). */
  function PageRowLines(t: TableState, rect: Rect, includeHeader: bool): (ev: seq<DrawEvent>)
    requires Valid(t)
  {
    var y := if includeHeader then rect.top + t.headerRowHeight else rect.top;
    var n := if t.dataRowsFit > 0 then t.dataRowsFit - 1 else 0;
    (if includeHeader then RowLine(t, rect.left, y, Width(rect), true, false, false).1 else [])
    + RowSeparators(t, rect.left, y, Width(rect), t.rowHeights[..n])
  }

  /** printAllRowLines draws a page's row lines. */
  method PrintAllRowLines(t: TableState, rect: Rect, includeHeader: bool) returns (events: seq<DrawEvent>)
    requires Valid(t)
    ensures events == PageRowLines(t, rect, includeHeader)
  {
    var x := rect.left;
    var y := rect.top;
    var rowWidth := Width(rect);
    events := [];
    if includeHeader {
      var line := RowLine(t, x, y + t.headerRowHeight, rowWidth, true, false, false);
      events := line.1;
      y := y + t.headerRowHeight;
    }
    ghost var head := events;
    ghost var y0 := y;
    var rowCount := 0;
    while rowCount < t.dataRowsFit - 1
      invariant 0 <= rowCount <= (if t.dataRowsFit > 0 then t.dataRowsFit - 1 else 0)
      invariant y == y0 + Sum(t.rowHeights[..rowCount])
      invariant events == head + RowSeparators(t, x, y0, rowWidth, t.rowHeights[..rowCount])
    {
      var height := t.rowHeights[rowCount];
      assert t.rowHeights[..rowCount + 1][..rowCount] == t.rowHeights[..rowCount];
      var line := RowLine(t, x, y + height, rowWidth, false, false, false);
      events := events + line.1;
      y := y + height;
      rowCount := rowCount + 1;
    }
  }

  /** The column lines of a page: each column's right line, at the right
      edge of the column, the columns laid side by side from `x`. */
  function ColumnSeparators(cols: seq<Column>, x: real, y: real, height: real): (ev: seq<DrawEvent>)
    decreases |cols|
  {
    if |cols| == 0 then []
    else ColumnSeparators(cols[..|cols| - 1], x, y, height) + DrawRightLine(cols[|cols| - 1], x + WidthsToUse(cols), y, height)
  }

  /** At most one line per column, each a vertical line spanning the
      height; none at all when no column has a right pen. */
  lemma {:induction false} ColumnSeparatorsGeometry(cols: seq<Column>, x: real, y: real, height: real)
    ensures var ev := ColumnSeparators(cols, x, y, height);
      |ev| <= |cols|
      && (forall k :: 0 <= k < |ev| ==> ev[k].Line? && ev[k].x1 == ev[k].x2 && ev[k].y1 == y && ev[k].y2 == y + height)
      && ((forall k :: 0 <= k < |cols| ==> cols[k].rightPen.extent == 0.0) ==> ev == [])
    decreases |cols|
  {
    if |cols| > 0 {
      var front := cols[..|cols| - 1];
      ColumnSeparatorsGeometry(front, x, y, height);
      if forall k :: 0 <= k < |cols| ==> cols[k].rightPen.extent == 0.0 {
        forall k | 0 <= k < |front|
          ensures front[k].rightPen.extent == 0.0
        {
          assert front[k] == cols[k];
        }
      }
    }
  }

  /** The column lines of a page in `rect`: nothing for a table with
      sub-rows or without column lines; otherwise every column's right line
      down the rect. */
  function PageColumnLines(t: TableState, rect: Rect): (ev: seq<DrawEvent>)
    requires t.columns.Some?
  {
    if t.numSubRows > 1 || !t.columnLines then []
    else ColumnSeparators(t.columns.value, rect.left, rect.top, Height(rect))
  }

  /** printAllColumnLines draws a page's column lines. */
  method PrintAllColumnLines(t: TableState, rect: Rect) returns (events: seq<DrawEvent>)
    requires t.columns.Some?
    ensures events == PageColumnLines(t, rect)
  {
    events := [];
    if t.numSubRows > 1 || !t.columnLines {
      return;
    }
    var cols := t.columns.value;
    var x := rect.left;
    var colNumber := 0;
    while colNumber < |cols|
      invariant 0 <= colNumber <= |cols|
      invariant x == rect.left + WidthsToUse(cols[..colNumber])
      invariant events == ColumnSeparators(cols[..colNumber], rect.left, rect.top, Height(rect))
    {
      var column := cols[colNumber];
      assert cols[..colNumber + 1][..colNumber] == cols[..colNumber];
      x := x + column.widthToUse;
      events := events + DrawRightLine(column, x, rect.top, Height(rect));
      colNumber := colNumber + 1;
    }
    assert cols[..|cols|] == cols;
  }

  // ---------------------------------------------------------------------
  // The frame hooks

  /** How doCalcSize decides, given whether the header fit, the number of
      rows, the current row, the rows that fit and the minimum: (fits,
      continued). */
  function CalcDecision(headerFits: bool, total: int, rowIndex: int, count: int, minRows: int): (d: (bool, bool))
  {
    if !headerFits then (false, true)
    else if total == 0 then (true, false)
    else if count > 0 then (true, rowIndex + count < total)
    else (!(count < minRows), true)
  }

  /** A header that does not fit gives no fit and a continuation; a table
      without rows fits; one with rows on the page fits and continues exactly
      when rows remain after them; one with no row on the page continues,
      and fits only without a minimum. So a table that fits and does not
      continue has no rows left. */
  lemma CalcDecisionCases(headerFits: bool, total: int, rowIndex: int, count: int, minRows: int)
    requires count >= 0
    ensures var d := CalcDecision(headerFits, total, rowIndex, count, minRows);
      (!headerFits ==> d == (false, true))
      && (headerFits && total == 0 ==> d.0)
      && (headerFits && total != 0 && count > 0 ==> d.0 && (d.1 <==> rowIndex + count < total))
      && (headerFits && total != 0 && count == 0 ==> d.1 && (d.0 <==> minRows <= 0))
      && (d.0 && !d.1 ==> total == 0 || rowIndex + count >= total)
  {
  }

  /** doCalcSize: the header is sized in the rect inside the border, then
      the table's page is laid out there. */
  method TableCalcSize(m: Metrics, t: TableState, b: Base, forRect: Rect, saveY: real)
    returns (r: Result<(TableState, SizeState)>, newSaveY: real)
    modifies DataRows(t)`data
    ensures t.columns.None? ==> r == Err(Uninitialized("columns")) && newSaveY == saveY
    ensures t.columns.Some? && t.headerSizeInit ==> r.Ok?
    ensures r.Err? ==> newSaveY == saveY && r.error in {Uninitialized("columns"), UndefinedMethod("setWidth")}
    ensures Valid(t) && r.Ok? ==> Valid(r.value.0)
    ensures r.Ok? ==>
      var u := r.value.0;
      u.headerSizeInit && u.columns.Some? && u.tableData == t.tableData && u.rowIndex == t.rowIndex
      && u.minDataRowsFit == t.minDataRowsFit && u.border == t.border
      && PageSized(u, b, InnerRect(t.border, forRect), r.value.1)
    // the header as measured on entry, before the rows are laid out
    ensures var h := old(SizedHeader(m, t, b, InnerRect(t.border, forRect)));
      (t.columns.Some? ==> (r.Err? <==> h.Err?))
      && (r.Ok? ==> h.Ok? && BelowHeader(h.value, b, InnerRect(t.border, forRect), r.value.0, r.value.1))
  {
    newSaveY := saveY;
    if t.columns.None? {
      // without columns the header sizing fails; a table whose header was
      // sized has columns
      return Err(Uninitialized("columns")), saveY;
    }
    var inside := InnerRect(t.border, forRect);
    var sized := CalcHeaderSize(m, t, b, inside);
    if sized.Err? {
      return Err(sized.error), saveY;
    }
    var u, st;
    u, st, newSaveY := SizePage(m, sized.value, b, inside, saveY);
    r := Ok((u, st));
  }

  /** What doCalcSize leaves of a table whose header calcHeaderSize sized
      as `h`, laid out in `inside` as `u` reporting `st`: `u` differs from
      `h` only in the fields of the page, which is laid out as PageSized
      says. */
  ghost predicate BelowHeader(h: TableState, b: Base, inside: Rect, u: TableState, st: SizeState)
  {
    u == h.(rowHeights := u.rowHeights, subRowHeightList := u.subRowHeightList,
            dataRowsFit := u.dataRowsFit, tableHeightForPage := u.tableHeightForPage)
    && PageSized(u, b, inside, st)
  }

  /** What doCalcSize reports for a table `u` sized in `inside`: with the
      table placed by its alignment, the decision above on whether the
      header fit, and the table's width by the height used, with the
      border. When the header fit, the rows counted are those the
      minimum-rows policy leaves of the rows measured, and the height used
      is the header's (when repeated) and the rows'. */
  ghost predicate PageSized(u: TableState, b: Base, inside: Rect, st: SizeState)
  {
    var bounds := TableBounds(u, b, inside, None);
    var headerFits := !HeaderRepeated(u) || SizeFits(bounds, HeaderSize(u));
    (st.fits, st.continued) == CalcDecision(headerFits, |u.tableData|, u.rowIndex, u.dataRowsFit, u.minDataRowsFit)
    && st.requiredSize == AddBorderSize(u.border, Size(u.width, u.tableHeightForPage))
    && (headerFits ==>
          Valid(u)
          && u.dataRowsFit == MinRowsPolicy(u.minDataRowsFit, |u.rowHeights|, |u.tableData| - (u.rowIndex + |u.rowHeights|))
          && u.tableHeightForPage == (if HeaderRepeated(u) then u.headerRowHeight else 0.0) + Sum(u.rowHeights))
  }

  /** doCalcSize's decision once the header fits, from the rows that fit. */
  method RowsDecision(total: int, rowIndex: int, count: int, minRows: int) returns (fits: bool, continued: bool)
    ensures (fits, continued) == CalcDecision(true, total, rowIndex, count, minRows)
  {
    fits, continued := true, false;
    if total == 0 {
      fits := true;
    } else if count > 0 {
      fits := true;
      if rowIndex + count < total {
        continued := true;
      }
    } else {
      continued := true;
      if count < minRows {
        fits := false;
      }
    }
  }

  /** The rest of doCalcSize, once the header is sized: the header is
      fitted at the top of the table's bounds and the rows below it. A
      header that does not fit leaves the count, the heights and the height
      of the last page. */
  method SizePage(m: Metrics, t: TableState, b: Base, inside: Rect, saveY: real)
    returns (u: TableState, st: SizeState, newSaveY: real)
    requires t.columns.Some?
    modifies DataRows(t)`data
    ensures PageSized(u, b, inside, st)
    ensures u == t.(rowHeights := u.rowHeights, subRowHeightList := u.subRowHeightList,
                    dataRowsFit := u.dataRowsFit, tableHeightForPage := u.tableHeightForPage)
    ensures u.tableData == t.tableData && u.rowIndex == t.rowIndex && u.minDataRowsFit == t.minDataRowsFit
    ensures u.border == t.border && u.headerSizeInit == t.headerSizeInit && u.columns == t.columns
    ensures !(!HeaderRepeated(t) || SizeFits(TableBounds(t, b, inside, None), HeaderSize(t))) ==>
      u == t && newSaveY == saveY
  {
    newSaveY := saveY;
    u := t;
    var bounds := TableBounds(t, b, inside, None);
    var originalY := bounds.top;
    var headerFits, rect, ev := SizePrintHeader(m, t, bounds, true);
    if headerFits {
      u, st, newSaveY := SizeRows(m, t, b, inside, rect, originalY, saveY);
    } else {
      var required := AddBorderSize(u.border, Size(u.width, u.tableHeightForPage));
      st := SizeState(required, false, true);
    }
  }

  /** SizePage once the header fits: the rows are fitted below it, in
      `rect`, and the page is as high as the header and the rows. */
  method SizeRows(m: Metrics, t: TableState, b: Base, inside: Rect, rect: Rect, originalY: real, saveY: real)
    returns (u: TableState, st: SizeState, newSaveY: real)
    requires t.columns.Some?
    requires var bounds := TableBounds(t, b, inside, None);
      originalY == bounds.top && (!HeaderRepeated(t) || SizeFits(bounds, HeaderSize(t)))
      && rect == if HeaderRepeated(t) then bounds.(top := bounds.top + t.headerRowHeight) else bounds
    modifies DataRows(t)`data
    ensures PageSized(u, b, inside, st)
    ensures u == t.(rowHeights := u.rowHeights, subRowHeightList := u.subRowHeightList,
                    dataRowsFit := u.dataRowsFit, tableHeightForPage := u.tableHeightForPage)
  {
    var count, v, rowsRect, y := FindDataRowsFit(m, t, rect, saveY);
    newSaveY := y;
    u := v.(dataRowsFit := count, tableHeightForPage := rowsRect.top - originalY);
    var fits, continued := RowsDecision(|u.tableData|, u.rowIndex, count, u.minDataRowsFit);
    var required := AddBorderSize(u.border, Size(u.width, u.tableHeightForPage));
    st := SizeState(required, fits, continued);
  }

  /** doPrint: the table is placed in `inRect` with the size calcSize
      required; inside its border the header (when repeated) and the rows
      that fit are printed, then the row lines, the column lines and the
      border. The current row moves past the rows printed. */
  method TablePrint(m: Metrics, t: TableState, b: Base, inRect: Rect) returns (r: Result<TableState>, events: seq<DrawEvent>)
    requires Valid(t)
    modifies DataRows(t)`data
    ensures t.columns.None? ==> r == Err(Uninitialized("columns")) && events == []
    ensures t.columns.Some? ==> r == Ok(RowsPrinted(t))
    ensures t.columns.Some? ==>
      var bounds := TableBounds(t, b, inRect, Some(b.requiredSize));
      var tail := PageLines(t, bounds);
      |tail| <= |events| && events[|events| - |tail|..] == tail
    ensures t.columns.Some? && RowsDistinct(t) ==> events == old(PagePrinted(m, t, b, inRect))
  {
    if t.columns.None? {
      return Err(Uninitialized("columns")), [];
    }
    var u;
    u, events := PrintTable(m, t, b, inRect);
    r := Ok(u);
  }

  /** doPrint for a table with columns. */
  method PrintTable(m: Metrics, t: TableState, b: Base, inRect: Rect) returns (u: TableState, events: seq<DrawEvent>)
    requires Valid(t) && t.columns.Some?
    modifies DataRows(t)`data
    ensures u == RowsPrinted(t)
    ensures var bounds := TableBounds(t, b, inRect, Some(b.requiredSize));
      var tail := PageLines(t, bounds);
      |tail| <= |events| && events[|events| - |tail|..] == tail
    ensures RowsDistinct(t) ==> events == old(PagePrinted(m, t, b, inRect))
  {
    var bounds := TableBounds(t, b, inRect, Some(b.requiredSize));
    var inside := InnerRect(t.border, bounds);
    var headerFits, printing, headerEvents := SizePrintHeader(m, t, inside, false);
    StylesAllocated(t.columns.value);
    assert printing == RowsRect(t, inside) && headerEvents == PageHeader(m, t, inside);
    var rowsRect, rowEvents;
    u, rowsRect, rowEvents := PrintRows(m, t, printing);
    // the lines depend on the rows that fit, not on the current row
    var lines := PrintLines(t, bounds);
    events := headerEvents + rowEvents + lines;
    assert events[|events| - |lines|..] == lines;
  }

  /** Where the rows of a page start inside the border: below the header
      when it is repeated and fits. */
  function RowsRect(t: TableState, inside: Rect): (r: Rect)
    ensures r.left == inside.left
  {
    if HeaderRepeated(t) && SizeFits(inside, HeaderSize(t)) then inside.(top := inside.top + t.headerRowHeight)
    else inside
  }

  /** What the header of a page draws: the header row at the top, when it is
      repeated and fits; nothing otherwise. */
  function PageHeader(m: Metrics, t: TableState, inside: Rect): seq<DrawEvent>
    requires t.columns.Some?
    reads RowAt(t, HeaderRowIndex), StyleObjects(t.columns.value)
  {
    if HeaderRepeated(t) && SizeFits(inside, HeaderSize(t))
    then RowLayout(m, t, HeaderRowIndex, inside.left, inside.top, t.headerRowHeight, false, false).2
    else []
  }

  /** What doPrint draws for the page of a table placed in `inRect`: the
      header when it is repeated and fits, the rows that fit below it as they
      stand, each as tall as measured, then the lines and the border. */
  ghost function PagePrinted(m: Metrics, t: TableState, b: Base, inRect: Rect): seq<DrawEvent>
    requires Valid(t) && t.columns.Some?
    reads DataRows(t), StyleObjects(t.columns.value)
  {
    var bounds := TableBounds(t, b, inRect, Some(b.requiredSize));
    var inside := InnerRect(t.border, bounds);
    var rows := RowsRect(t, inside);
    PageHeader(m, t, inside) + PageRows(m, t, rows.left, rows.top) + PageLines(t, bounds)
  }

  /** What doPrint draws after the rows, for a table in `bounds`: inside the
      border the row lines (with the header's when it is repeated) and the
      column lines, then the border. */
  function PageLines(t: TableState, bounds: Rect): (ev: seq<DrawEvent>)
    requires Valid(t) && t.columns.Some?
  {
    var inside := InnerRect(t.border, bounds);
    PageRowLines(t, inside, HeaderRepeated(t)) + PageColumnLines(t, inside) + DrawBorder(t.border, bounds)
  }

  /** The lines of doPrint, drawn in that order. */
  method PrintLines(t: TableState, bounds: Rect) returns (events: seq<DrawEvent>)
    requires Valid(t) && t.columns.Some?
    ensures events == PageLines(t, bounds)
  {
    var inside := InnerRect(t.border, bounds);
    var rowLines := PrintAllRowLines(t, inside, HeaderRepeated(t));
    var columnLines := PrintAllColumnLines(t, inside);
    var border := DrawBorder(t.border, WithSizeAndAlign(bounds, None, "L", "T"));
    events := rowLines + columnLines + border;
  }
}
