// A table column (src/TableColumn.php): its nominal width (millimetres or a
// percentage of the table), the width it is laid out with, paddings, the
// pen of its right-hand line and the text styles of the row kinds; and the
// sizing and painting of one cell.
module TableColumns {
  import opened Wrappers
  import opened Geometry
  import opened Canvas
  import opened Pens
  import opened Styles
  import opened TableRows
  import Rendering
  import Config

  /** One value per kind of row a column draws: the header, detail rows,
      alternating detail rows, subtotals and totals. */
  datatype RowKinds<T> = RowKinds(header: T, detail: T, alternating: T, subTotal: T, total: T)
  {
    /** getTextStyle's choice for a row of type `rowType` (None for no row):
        a row of a type other than 'D' takes the value of its type ('H',
        'S', 'T'; the detail value for any other letter); a detail row, or
        no row, takes the header value for the header, otherwise the
        alternating or the detail value. */
    function Select(rowType: Option<string>, headerRow: bool, alternatingRow: bool): (s: T)
      ensures rowType == Some("H") ==> s == header
      ensures rowType == Some("S") ==> s == subTotal
      ensures rowType == Some("T") ==> s == total
      ensures rowType.Some? && rowType.value !in {"D", "H", "S", "T"} ==> s == detail
      ensures (rowType.None? || rowType == Some("D")) && headerRow ==> s == header
      ensures (rowType.None? || rowType == Some("D")) && !headerRow && alternatingRow ==> s == alternating
      ensures (rowType.None? || rowType == Some("D")) && !headerRow && !alternatingRow ==> s == detail
    {
      if rowType.Some? && rowType.value != "D" then
        if rowType.value == "H" then header
        else if rowType.value == "S" then subTotal
        else if rowType.value == "T" then total
        else detail
      else if headerRow then header
      else if alternatingRow then alternating
      else detail
    }
  }

  /** What a cell takes from its text style: the font and the colours. */
  datatype Look = Look(font: Font, textColor: string, backgroundColor: string)

  function LookOf(s: TextStyle): (l: Look)
    reads s.Chain()
    ensures l == Look(Rendering.FontOf(s), s.GetTextColor(), s.GetBackgroundColor())
  {
    Look(Rendering.FontOf(s), s.GetTextColor(), s.GetBackgroundColor())
  }

  /** A look stays while its style's base chain does. */
  twostate lemma LookUnchanged(s: TextStyle)
    requires old(allocated(s.Chain())) && unchanged(s.Chain())
    ensures LookOf(s) == old(LookOf(s))
  {
    s.ResolvedUnchanged();
  }

  datatype Column = Column(
    columnName: string,
    title: string,
    widthToUse: real,
    width: real,
    widthInPercent: bool,
    sizeWidthToContents: bool,
    sizeWidthToHeader: bool,
    /** A new sub-row starts after this column. */
    lineBreak: bool,
    hAlignment: string,
    vAlignment: string,
    paddingLeft: real,
    paddingRight: real,
    paddingTop: real,
    paddingBottom: real,
    rightPen: Pen,
    styles: RowKinds<TextStyle>)

  /** The constructor: a percentage column iff the width came as a string;
      no width to use yet, no line break, a default pen and the default
      alignments and paddings. */
  function NewColumn(columnName: string, title: string, width: Extent, styles: RowKinds<TextStyle>): (c: Column)
    ensures c.columnName == columnName && c.title == title && c.styles == styles
    ensures c.width == width.value && c.widthInPercent == width.Pct?
    ensures c.widthToUse == 0.0 && !c.lineBreak && !c.sizeWidthToContents && !c.sizeWidthToHeader
    ensures c.rightPen == NewPen(Config.ColumnLineExtent, DefaultColor, "solid")
    ensures c.hAlignment == Config.FrameHAlignment && c.vAlignment == Config.FrameVAlignment
    ensures c.paddingLeft == Config.ColumnPaddingLeft && c.paddingRight == Config.ColumnPaddingRight
    ensures c.paddingTop == Config.ColumnPaddingTop && c.paddingBottom == Config.ColumnPaddingBottom
  {
    Column(columnName, title, 0.0, width.value, width.Pct?, false, false, false,
           Config.FrameHAlignment, Config.FrameVAlignment,
           Config.ColumnPaddingLeft, Config.ColumnPaddingRight, Config.ColumnPaddingTop, Config.ColumnPaddingBottom,
           NewPen(Config.ColumnLineExtent, DefaultColor, "solid"), styles)
  }

  /** `percent` per cent of `total`. */
  function PercentOf(total: real, percent: real): real { total * percent / 100.0 }

  /** calcWidth: a percentage column takes its share of the table's width,
      any other column its nominal width. */
  function CalcWidth(c: Column, tableWidth: real): (r: Column)
    ensures r == c.(widthToUse := r.widthToUse)
    ensures c.widthInPercent ==> r.widthToUse == PercentOf(tableWidth, c.width)
    ensures !c.widthInPercent ==> r.widthToUse == c.width
  {
    c.(widthToUse := if c.widthInPercent then PercentOf(tableWidth, c.width) else c.width)
  }

  /** getString: the title in the header row, the row's text in a data row,
      and nothing when there is neither. */
  function GetString(c: Column, headerRow: bool, row: TableRow?): (s: string)
    reads row
    ensures headerRow ==> s == c.title
    ensures !headerRow && row != null ==> s == row.GetText(c.columnName)
    ensures !headerRow && row == null ==> s == ""
  {
    if headerRow then c.title
    else if row != null then row.GetText(c.columnName)
    else ""
  }

  /** The type of a row, None for no row. */
  function TypeOf(row: TableRow?): (t: Option<string>)
    reads row
    ensures row == null <==> t.None?
    ensures row != null ==> t == Some(row.rowType)
  {
    if row == null then None else Some(row.rowType)
  }

  /** getTextStyle: the style for the row's type. */
  function GetTextStyle(c: Column, row: TableRow?, headerRow: bool, alternatingRow: bool): (s: TextStyle)
    reads row
    ensures s == c.styles.Select(TypeOf(row), headerRow, alternatingRow)
  {
    c.styles.Select(TypeOf(row), headerRow, alternatingRow)
  }

  /** The rect of a cell less its paddings and the right-hand pen. */
  function InnerBounds(c: Column, x: real, y: real, width: real, maxHeight: real): (r: Rect)
    ensures r == WithMargins(Rect(x, y, x + width, y + maxHeight),
                             c.paddingTop, c.paddingRight + c.rightPen.extent, c.paddingBottom, c.paddingLeft)
  {
    WithMargins(Rect(x, y, x + width, y + maxHeight),
                c.paddingTop, c.paddingRight + c.rightPen.extent, c.paddingBottom, c.paddingLeft)
  }

  /** sizePaintCell when only sizing: the text measured in the inner width,
      plus the paddings and the pen across, plus the paddings down, and no
      higher than `maxHeight`. */
  function CellSize(m: Metrics, c: Column, text: string, font: Font, x: real, y: real, width: real, maxHeight: real): (s: Size)
    ensures var inner := InnerBounds(c, x, y, width, maxHeight);
      var measured := m.textSize(font, text, c.hAlignment, c.vAlignment, Width(inner));
      s.width == measured.width + c.paddingLeft + c.paddingRight + c.rightPen.extent
      && s.height == Min(measured.height + c.paddingTop + c.paddingBottom, maxHeight)
    ensures s.height <= maxHeight
  {
    var inner := InnerBounds(c, x, y, width, maxHeight);
    var measured := m.textSize(font, text, c.hAlignment, c.vAlignment, Width(inner));
    Size(measured.width + c.paddingLeft + c.paddingRight + c.rightPen.extent,
         Min(measured.height + c.paddingTop + c.paddingBottom, maxHeight))
  }

  /** sizePaintCell when painting: the background over the whole cell unless
      it is white, then the text in the inner bounds. The size reported is
      that of the inner bounds. */
  function CellPaint(c: Column, text: string, look: Look, x: real, y: real, width: real, maxHeight: real): (r: (Size, seq<DrawEvent>))
    ensures var inner := InnerBounds(c, x, y, width, maxHeight);
      r.0 == SizeOf(inner)
      && var textBlock := TextBlock(text, look.font, WithSizeAndAlign(inner, Some(SizeOf(inner)), c.hAlignment, c.vAlignment),
                                    c.hAlignment, c.vAlignment, look.textColor);
      r.1 == (if look.backgroundColor != Config.TextBackgroundColor
              then [FillRect(Rect(x, y, x + width, y + maxHeight), look.backgroundColor), textBlock]
              else [textBlock])
  {
    var rect := Rect(x, y, x + width, y + maxHeight);
    var inner := InnerBounds(c, x, y, width, maxHeight);
    var background := if look.backgroundColor != Config.TextBackgroundColor
      then [FillRect(WithSizeAndAlign(rect, None, c.hAlignment, c.vAlignment), look.backgroundColor)] else [];
    var layout := WithSizeAndAlign(inner, Some(SizeOf(inner)), c.hAlignment, c.vAlignment);
    (SizeOf(inner), background + [TextBlock(text, look.font, layout, c.hAlignment, c.vAlignment, look.textColor)])
  }

  /** The width the header text takes, when the column is sized to it. */
  function HeaderWidth(m: Metrics, c: Column, maxHeaderRowHeight: real): (w: real)
    reads c.styles.header.Chain()
  {
    if c.sizeWidthToHeader then
      var style := GetTextStyle(c, null, true, false);
      CellSize(m, c, c.title, Rendering.FontOf(style), 0.0, 0.0, c.width, maxHeaderRowHeight).width
    else 0.0
  }

  /** The widest cell of `rows` in this column (0.0 for none), the rows
      alternating from `alternating` on. */
  function ContentWidth(m: Metrics, c: Column, rows: seq<TableRow>, alternating: bool, maxDetailRowHeight: real): (w: real)
    reads rows
    reads c.styles.header.Chain(), c.styles.detail.Chain(), c.styles.alternating.Chain()
    reads c.styles.subTotal.Chain(), c.styles.total.Chain()
    ensures w >= 0.0
    decreases |rows|
  {
    if |rows| == 0 then 0.0
    else
      var style := GetTextStyle(c, rows[0], false, alternating);
      var cell := CellSize(m, c, rows[0].GetText(c.columnName), Rendering.FontOf(style), 0.0, 0.0, c.width, maxDetailRowHeight);
      Max(cell.width, ContentWidth(m, c, rows[1..], !alternating, maxDetailRowHeight))
  }

  /** sizeColumn: the column takes the wider of its header and its contents
      (as far as it is sized to them) when that is positive and narrower than
      its nominal width, and the nominal width otherwise; so it never gets
      wider than nominal. */
  method SizeColumn(m: Metrics, c: Column, rows: seq<TableRow>, maxHeaderRowHeight: real, maxDetailRowHeight: real)
    returns (r: Column)
    ensures var used := Max(HeaderWidth(m, c, maxHeaderRowHeight),
                            if c.sizeWidthToContents then ContentWidth(m, c, rows, false, maxDetailRowHeight) else 0.0);
      r == c.(widthToUse := if 0.0 < used < c.width then used else c.width)
    ensures r.widthToUse <= c.width
  {
    var headerWidth := 0.0;
    if c.sizeWidthToHeader {
      var style := GetTextStyle(c, null, true, false);
      var headerSize := CellSize(m, c, c.title, Rendering.FontOf(style), 0.0, 0.0, c.width, maxHeaderRowHeight);
      headerWidth := headerSize.width;
    }
    var contentWidth := 0.0;
    if c.sizeWidthToContents {
      var alternatingRow := false;
      var i := 0;
      while i < |rows|
        invariant 0 <= i <= |rows| && contentWidth >= 0.0
        invariant Max(contentWidth, ContentWidth(m, c, rows[i..], alternatingRow, maxDetailRowHeight))
               == ContentWidth(m, c, rows, false, maxDetailRowHeight)
      {
        var row := rows[i];
        var style := GetTextStyle(c, row, false, alternatingRow);
        var cellSize := CellSize(m, c, row.GetText(c.columnName), Rendering.FontOf(style), 0.0, 0.0, c.width, maxDetailRowHeight);
        assert rows[i..][1..] == rows[i + 1..];
        contentWidth := Max(contentWidth, cellSize.width);
        alternatingRow := !alternatingRow;
        i := i + 1;
      }
    }
    var maxUsedWidth := Max(headerWidth, contentWidth);
    if maxUsedWidth > 0.0 && maxUsedWidth < c.width {
      r := c.(widthToUse := maxUsedWidth);
    } else {
      r := c.(widthToUse := c.width);
    }
  }

  /** drawRightLine: nothing for a pen of extent 0, otherwise a vertical line
      one pen width left of `x`, `height` long. */
  function DrawRightLine(c: Column, x: real, y: real, height: real): (ev: seq<DrawEvent>)
    ensures c.rightPen.extent == 0.0 <==> ev == []
    ensures c.rightPen.extent != 0.0 ==>
      ev == [Line(x - c.rightPen.extent, y, x - c.rightPen.extent, y + height, c.rightPen.extent, c.rightPen.dash, c.rightPen.color)]
  {
    if c.rightPen.extent != 0.0 then
      var lx := x - c.rightPen.extent;
      [Line(lx, y, lx, y + height, c.rightPen.extent, c.rightPen.dash, c.rightPen.color)]
    else []
  }
}
