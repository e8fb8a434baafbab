// Horizontal and vertical lines (src/LineFrame.php): the end points are
// computed from the frame's alignments, the pen's extent and the line's
// length, and then clamped to the rect. A line reports its own size from
// its points rather than from setSize.
module Lines {
  import opened Wrappers
  import opened Geometry
  import opened Canvas
  import opened Pens

  datatype LineState = LineState(pen: Pen, direction: string, length: real,
                                 x1: real, y1: real, x2: real, y2: real)

  /** The constructor: a solid pen, the direction, the length (0.0 spans the
      rect) and all points at the origin. */
  function NewLine(direction: string, extent: real, color: string, length: real): (l: LineState)
    ensures l.direction == direction && l.length == length && l.pen == NewPen(extent, color, "solid")
    ensures l.x1 == 0.0 && l.y1 == 0.0 && l.x2 == 0.0 && l.y2 == 0.0
  {
    LineState(NewPen(extent, color, "solid"), direction, length, 0.0, 0.0, 0.0, 0.0)
  }

  /** The points before clamping. A coordinate whose alignment is not one of
      the known letters keeps its previous value. */
  function RawPoints(l: LineState, hAlignment: string, vAlignment: string, r: Rect): (p: LineState)
    ensures p.pen == l.pen && p.direction == l.direction && p.length == l.length
    // a horizontal line: y from the vertical alignment, x from the length
    ensures l.direction == "H" ==> p.y1 == p.y2
    ensures l.direction == "H" && vAlignment == "T" ==> p.y1 == r.top + l.pen.extent / 2.0
    ensures l.direction == "H" && vAlignment == "M" ==> p.y1 == (r.top + r.bottom) / 2.0
    ensures l.direction == "H" && vAlignment == "B" ==> p.y1 == r.bottom - l.pen.extent / 2.0
    ensures l.direction == "H" && !IsV(vAlignment) ==> p.y1 == l.y1
    ensures l.direction == "H" && l.length == 0.0 ==> p.x1 == r.left && p.x2 == r.right
    ensures l.direction == "H" && l.length != 0.0 && IsH(hAlignment) ==> p.x2 - p.x1 == l.length
    ensures l.direction == "H" && l.length != 0.0 && (hAlignment == "L" || hAlignment == "J") ==> p.x1 == r.left
    ensures l.direction == "H" && l.length != 0.0 && hAlignment == "C" ==> p.x1 - r.left == r.right - p.x2
    ensures l.direction == "H" && l.length != 0.0 && hAlignment == "R" ==> p.x2 == r.right
    ensures l.direction == "H" && l.length != 0.0 && !IsH(hAlignment) ==> p.x1 == l.x1 && p.x2 == l.x2
    // any other direction is vertical: x from the horizontal alignment, y from the length
    ensures l.direction != "H" ==> p.x1 == p.x2
    ensures l.direction != "H" && (hAlignment == "L" || hAlignment == "J") ==> p.x1 == r.left + l.pen.extent / 2.0
    ensures l.direction != "H" && hAlignment == "C" ==> p.x1 == (r.left + r.right) / 2.0
    ensures l.direction != "H" && hAlignment == "R" ==> p.x1 == r.right - l.pen.extent / 2.0
    ensures l.direction != "H" && !IsH(hAlignment) ==> p.x1 == l.x1
    ensures l.direction != "H" && l.length == 0.0 ==> p.y1 == r.top && p.y2 == r.bottom
    ensures l.direction != "H" && l.length != 0.0 && IsV(vAlignment) ==> p.y2 - p.y1 == l.length
    ensures l.direction != "H" && l.length != 0.0 && vAlignment == "T" ==> p.y1 == r.top
    ensures l.direction != "H" && l.length != 0.0 && vAlignment == "M" ==> p.y1 - r.top == r.bottom - p.y2
    ensures l.direction != "H" && l.length != 0.0 && vAlignment == "B" ==> p.y2 == r.bottom
    ensures l.direction != "H" && l.length != 0.0 && !IsV(vAlignment) ==> p.y1 == l.y1 && p.y2 == l.y2
  {
    if l.direction == "H" then HorizontalPoints(l, hAlignment, vAlignment, r)
    else VerticalPoints(l, hAlignment, vAlignment, r)
  }

  /** The raw points of a horizontal line: y from the vertical alignment,
      x from the length and the horizontal alignment. */
  function HorizontalPoints(l: LineState, hAlignment: string, vAlignment: string, r: Rect): (p: LineState)
    ensures p.pen == l.pen && p.direction == l.direction && p.length == l.length
    ensures p.y1 == p.y2
    ensures vAlignment == "T" ==> p.y1 == r.top + l.pen.extent / 2.0
    ensures vAlignment == "M" ==> p.y1 == (r.top + r.bottom) / 2.0
    ensures vAlignment == "B" ==> p.y1 == r.bottom - l.pen.extent / 2.0
    ensures !IsV(vAlignment) ==> p.y1 == l.y1
    ensures l.length == 0.0 ==> p.x1 == r.left && p.x2 == r.right
    ensures l.length != 0.0 && IsH(hAlignment) ==> p.x2 - p.x1 == l.length
    ensures l.length != 0.0 && (hAlignment == "L" || hAlignment == "J") ==> p.x1 == r.left
    ensures l.length != 0.0 && hAlignment == "C" ==> p.x1 - r.left == r.right - p.x2
    ensures l.length != 0.0 && hAlignment == "R" ==> p.x2 == r.right
    ensures l.length != 0.0 && !IsH(hAlignment) ==> p.x1 == l.x1 && p.x2 == l.x2
  {
    var half := l.pen.extent / 2.0;
    var y :=
      if vAlignment == "T" then r.top + half
      else if vAlignment == "M" then (r.top + r.bottom) / 2.0
      else if vAlignment == "B" then r.bottom - half
      else l.y1;
    var xs :=
      if l.length == 0.0 then (r.left, r.right)
      else if hAlignment == "L" || hAlignment == "J" then (r.left, r.left + l.length)
      else if hAlignment == "C" then
        var x1 := r.left + (Width(r) - l.length) / 2.0; (x1, x1 + l.length)
      else if hAlignment == "R" then (r.right - l.length, r.right)
      else (l.x1, l.x2);
    l.(x1 := xs.0, x2 := xs.1, y1 := y, y2 := y)
  }

  /** The raw points of a vertical line: x from the horizontal alignment,
      y from the length and the vertical alignment. */
  function VerticalPoints(l: LineState, hAlignment: string, vAlignment: string, r: Rect): (p: LineState)
    ensures p.pen == l.pen && p.direction == l.direction && p.length == l.length
    ensures p.x1 == p.x2
    ensures (hAlignment == "L" || hAlignment == "J") ==> p.x1 == r.left + l.pen.extent / 2.0
    ensures hAlignment == "C" ==> p.x1 == (r.left + r.right) / 2.0
    ensures hAlignment == "R" ==> p.x1 == r.right - l.pen.extent / 2.0
    ensures !IsH(hAlignment) ==> p.x1 == l.x1
    ensures l.length == 0.0 ==> p.y1 == r.top && p.y2 == r.bottom
    ensures l.length != 0.0 && IsV(vAlignment) ==> p.y2 - p.y1 == l.length
    ensures l.length != 0.0 && vAlignment == "T" ==> p.y1 == r.top
    ensures l.length != 0.0 && vAlignment == "M" ==> p.y1 - r.top == r.bottom - p.y2
    ensures l.length != 0.0 && vAlignment == "B" ==> p.y2 == r.bottom
    ensures l.length != 0.0 && !IsV(vAlignment) ==> p.y1 == l.y1 && p.y2 == l.y2
  {
    var half := l.pen.extent / 2.0;
    var x :=
      if hAlignment == "L" || hAlignment == "J" then r.left + half
      else if hAlignment == "C" then (r.left + r.right) / 2.0
      else if hAlignment == "R" then r.right - half
      else l.x1;
    var ys :=
      if l.length == 0.0 then (r.top, r.bottom)
      else if vAlignment == "T" then (r.top, r.top + l.length)
      else if vAlignment == "M" then
        var y1 := r.top + (Height(r) - l.length) / 2.0; (y1, y1 + l.length)
      else if vAlignment == "B" then (r.bottom - l.length, r.bottom)
      else (l.y1, l.y2);
    l.(x1 := x, x2 := x, y1 := ys.0, y2 := ys.1)
  }

  predicate IsH(h: string) { h == "L" || h == "J" || h == "C" || h == "R" }

  predicate IsV(v: string) { v == "T" || v == "M" || v == "B" }

  /** setLinePoints: the raw points with the start clamped to the left/top
      edge and the end clamped to the right/bottom edge. */
  function SetLinePoints(l: LineState, hAlignment: string, vAlignment: string, r: Rect): (p: LineState)
    ensures var raw := RawPoints(l, hAlignment, vAlignment, r);
      p == raw.(x1 := Max(raw.x1, r.left), x2 := Min(raw.x2, r.right),
                y1 := Max(raw.y1, r.top), y2 := Min(raw.y2, r.bottom))
    ensures r.left <= p.x1 && p.x2 <= r.right && r.top <= p.y1 && p.y2 <= r.bottom
  {
    var raw := RawPoints(l, hAlignment, vAlignment, r);
    raw.(x1 := Max(raw.x1, r.left), x2 := Min(raw.x2, r.right),
         y1 := Max(raw.y1, r.top), y2 := Min(raw.y2, r.bottom))
  }

  /** A horizontal line of a known alignment whose length and pen fit into the
      rect has all four coordinates inside the rect, spans exactly its length
      (the whole width for length 0.0) and is level. */
  lemma HorizontalLineInside(l: LineState, h: string, v: string, r: Rect)
    requires l.direction == "H" && IsH(h) && IsV(v)
    requires 0.0 <= l.length <= Width(r) && 0.0 <= l.pen.extent <= Height(r)
    ensures var p := SetLinePoints(l, h, v, r);
      r.left <= p.x1 <= p.x2 <= r.right && r.top <= p.y1 == p.y2 <= r.bottom
      && p.x2 - p.x1 == (if l.length == 0.0 then Width(r) else l.length)
  {
  }

  /** The same for a vertical line. */
  lemma VerticalLineInside(l: LineState, h: string, v: string, r: Rect)
    requires l.direction == "V" && IsH(h) && IsV(v)
    requires 0.0 <= l.length <= Height(r) && 0.0 <= l.pen.extent <= Width(r)
    ensures var p := SetLinePoints(l, h, v, r);
      r.left <= p.x1 == p.x2 <= r.right && r.top <= p.y1 <= p.y2 <= r.bottom
      && p.y2 - p.y1 == (if l.length == 0.0 then Height(r) else l.length)
  {
  }

  /** getSize (which a line overrides): the extent along the line, and the
      pen's extent across it. */
  function LineSize(l: LineState): (s: Size)
    ensures l.direction == "H" ==> s == Size(l.x2 - l.x1, l.pen.extent)
    ensures l.direction == "V" ==> s == Size(l.pen.extent, l.y2 - l.y1)
    ensures l.direction != "H" && l.direction != "V" ==> s == Size(l.x2 - l.x1, l.y2 - l.y1)
  {
    if l.direction == "H" then Size(l.x2 - l.x1, l.pen.extent)
    else if l.direction == "V" then Size(l.pen.extent, l.y2 - l.y1)
    else Size(l.x2 - l.x1, l.y2 - l.y1)
  }

  /** doCalcSize: the required size is taken from the points of the previous
      pass; then the points are set for `forRect`. A horizontal line fits iff
      it stays level after clamping, a vertical one iff it stays upright. */
  function LineCalcSize(l: LineState, hAlignment: string, vAlignment: string, forRect: Rect): (res: (LineState, SizeState))
    ensures res.0 == SetLinePoints(l, hAlignment, vAlignment, forRect)
    ensures res.1.requiredSize == LineSize(l) && !res.1.continued
    ensures res.1.fits <==>
      (l.direction == "H" ==> res.0.y1 == res.0.y2) && (l.direction == "V" ==> res.0.x1 == res.0.x2)
  {
    var p := SetLinePoints(l, hAlignment, vAlignment, forRect);
    var fits := if l.direction == "H" then p.y1 == p.y2 else if l.direction == "V" then p.x1 == p.x2 else true;
    (p, SizeState(LineSize(l), fits, false))
  }

  /** A horizontal line of a known vertical alignment fits iff its raw y lies
      within the rect's vertical extent. */
  lemma HorizontalFitsIff(l: LineState, h: string, v: string, r: Rect)
    requires l.direction == "H" && IsV(v)
    ensures var y := RawPoints(l, h, v, r).y1;
      LineCalcSize(l, h, v, r).1.fits <==> r.top <= y <= r.bottom
  {
  }

  /** Sizing a line twice in the same rect reports, the second time, the size
      of the points for that rect: the first pass reports the old points. */
  lemma SecondPassReportsPoints(l: LineState, h: string, v: string, r: Rect)
    requires IsH(h) && IsV(v)
    ensures var first := LineCalcSize(l, h, v, r);
      LineCalcSize(first.0, h, v, r).1.requiredSize == LineSize(SetLinePoints(l, h, v, r))
      && LineCalcSize(first.0, h, v, r).0 == first.0
  {
    SetLinePointsIdempotent(l, h, v, r);
  }

  /** With known alignments, setting the points for the same rect twice
      changes nothing the second time. */
  lemma SetLinePointsIdempotent(l: LineState, h: string, v: string, r: Rect)
    requires IsH(h) && IsV(v)
    ensures SetLinePoints(SetLinePoints(l, h, v, r), h, v, r) == SetLinePoints(l, h, v, r)
  {
  }

  /** doPrint: one line with the pen's extent, dash pattern and colour. */
  function LinePrint(l: LineState): (ev: seq<DrawEvent>)
    ensures ev == [DrawEvent.Line(l.x1, l.y1, l.x2, l.y2, l.pen.extent, l.pen.dash, l.pen.color)]
  {
    [DrawEvent.Line(l.x1, l.y1, l.x2, l.y2, l.pen.extent, l.pen.dash, l.pen.color)]
  }
}
