// Pens (src/Pen.php) and four-sided borders (src/Border.php).
// A Pen is a value here: `clone` and sharing a pen object between sides
// are the same thing.
module Pens {
  import opened Geometry
  import opened Canvas

  datatype Pen = Pen(extent: real, color: string, dash: string)

  /** DEF_LINE_EXTEND and DEF_LINE_COLOR. */
  const DefaultExtent: real := 0.0
  const DefaultColor: string := "#000000"

  /** ASCII lower-casing of one character. */
  function LowerChar(c: char): (d: char)
    ensures 'A' <= c <= 'Z' ==> d as int == c as int + 32
    ensures !('A' <= c <= 'Z') ==> d == c
  {
    if 'A' <= c <= 'Z' then (c as int + 32) as char else c
  }

  /** ASCII lower-casing, as strtolower does. */
  function Lower(s: string): (t: string)
    ensures |t| == |s| && forall i :: 0 <= i < |s| ==> t[i] == LowerChar(s[i])
  {
    seq(|s|, i requires 0 <= i < |s| => LowerChar(s[i]))
  }

  /** Lower-casing leaves no capital and changes nothing a second time. */
  lemma LowerNormalises(s: string)
    ensures forall i :: 0 <= i < |Lower(s)| ==> !('A' <= Lower(s)[i] <= 'Z')
    ensures Lower(Lower(s)) == Lower(s)
  {
  }

  /** The dash pattern of a line style, matched without regard to case. */
  function DashFor(lineStyle: string): (dash: string)
  {
    var style := Lower(lineStyle);
    if style == "dash" then "5,2"
    else if style == "dashdot" then "5,2,1,2"
    else if style == "dot" then "1,1"
    else "0"
  }

  /** `new Pen(extent, color, lineStyle)`. */
  function NewPen(extent: real, color: string, lineStyle: string): (p: Pen)
    ensures p.extent == extent && p.color == color && p.dash == DashFor(lineStyle)
  {
    Pen(extent, color, DashFor(lineStyle))
  }

  /** `new Pen()`. */
  const DefaultPen: Pen := NewPen(DefaultExtent, DefaultColor, "solid")

  lemma DashMapping(lineStyle: string)
    ensures Lower(lineStyle) == "dash" ==> DashFor(lineStyle) == "5,2"
    ensures Lower(lineStyle) == "dashdot" ==> DashFor(lineStyle) == "5,2,1,2"
    ensures Lower(lineStyle) == "dot" ==> DashFor(lineStyle) == "1,1"
    ensures Lower(lineStyle) !in {"dash", "dashdot", "dot"} ==> DashFor(lineStyle) == "0"
    ensures DashFor(lineStyle) in {"0", "5,2", "5,2,1,2", "1,1"}
  {
  }

  /** Style names are matched case-insensitively: "DashDot" and "DASHDOT" are "dashdot". */
  lemma DashIgnoresCase()
    ensures DashFor("DashDot") == "5,2,1,2" && DashFor("DOT") == "1,1" && DashFor("Dash") == "5,2"
    ensures DashFor("Solid") == "0"
  {
    assert Lower("DashDot") == "dashdot";
    assert Lower("DOT") == "dot";
    assert Lower("Dash") == "dash";
    assert Lower("Solid") == "solid";
  }

  lemma DefaultPenIsSolidBlackHairless()
    ensures DefaultPen == Pen(0.0, "#000000", "0")
  {
    assert Lower("solid") == "solid";
  }

  // ---------------------------------------------------------------------
  // Border

  datatype Border = Border(topPen: Pen, leftPen: Pen, rightPen: Pen, bottomPen: Pen)

  /** `new Border()`: four default pens. */
  const DefaultBorder: Border := Border(DefaultPen, DefaultPen, DefaultPen, DefaultPen)

  /** The sides, in the numbering of Border::TOP .. Border::BOTTOM. */
  datatype Edge = Top | Left | Right | Bottom

  /** `setPen`: every side receives its own copy of the pen. */
  function SetPen(b: Border, pen: Pen): (c: Border)
    ensures c.topPen == pen && c.leftPen == pen && c.rightPen == pen && c.bottomPen == pen
  {
    Border(pen, pen, pen, pen)
  }

  function PenOf(b: Border, e: Edge): Pen
  {
    match e
    case Top => b.topPen
    case Left => b.leftPen
    case Right => b.rightPen
    case Bottom => b.bottomPen
  }

  /** set{Top,Left,Right,Bottom}Pen. */
  function WithPen(b: Border, e: Edge, pen: Pen): (c: Border)
    ensures PenOf(c, e) == pen
    ensures forall o: Edge :: o != e ==> PenOf(c, o) == PenOf(b, o)
  {
    match e
    case Top => b.(topPen := pen)
    case Left => b.(leftPen := pen)
    case Right => b.(rightPen := pen)
    case Bottom => b.(bottomPen := pen)
  }

  /** After `setPen`, changing one side leaves the other three with the pen that was set. */
  lemma SetPenSidesIndependent(b: Border, pen: Pen, e: Edge, other: Pen)
    ensures forall o: Edge :: o != e ==> PenOf(WithPen(SetPen(b, pen), e, other), o) == pen
  {
  }

  function LeftWidth(b: Border): real { b.leftPen.extent }
  function TopWidth(b: Border): real { b.topPen.extent }
  function RightWidth(b: Border): real { b.rightPen.extent }
  function BottomWidth(b: Border): real { b.bottomPen.extent }

  /** `addBorderSize`: the size of a box whose inside has size `s`. */
  function AddBorderSize(b: Border, s: Size): (t: Size)
    ensures t.width == s.width + b.leftPen.extent + b.rightPen.extent
    ensures t.height == s.height + b.topPen.extent + b.bottomPen.extent
  {
    var h1 := s.height + b.topPen.extent;
    var w1 := s.width + b.rightPen.extent;
    var h2 := h1 + b.bottomPen.extent;
    var w2 := w1 + b.leftPen.extent;
    Size(w2, h2)
  }

  /** `getInnerRect`: each edge moves inward by that side's pen extent. */
  function InnerRect(b: Border, r: Rect): (i: Rect)
    ensures i == WithMargins(r, b.topPen.extent, b.rightPen.extent, b.bottomPen.extent, b.leftPen.extent)
  {
    Rect(r.left + b.leftPen.extent, r.top + b.topPen.extent, r.right - b.rightPen.extent, r.bottom - b.bottomPen.extent)
  }

  /** Adding the border to the inner rect's size gives back the outer size. */
  lemma InnerRectAddBorderRoundTrip(b: Border, r: Rect)
    ensures AddBorderSize(b, SizeOf(InnerRect(b, r))) == SizeOf(r)
  {
  }

  /** The default border takes no room. */
  lemma DefaultBorderIsNeutral(r: Rect, s: Size)
    ensures InnerRect(DefaultBorder, r) == r && AddBorderSize(DefaultBorder, s) == s
  {
    DefaultPenIsSolidBlackHairless();
  }

  /** `drawLine`: the line of one side, half its pen width inside the edge;
      nothing for a pen of extent 0. */
  function EdgeLine(pen: Pen, r: Rect, e: Edge): (ev: seq<DrawEvent>)
    ensures pen.extent == 0.0 <==> ev == []
    ensures |ev| <= 1
  {
    var w := pen.extent;
    if w == 0.0 then []
    else
      var ln :=
        match e
        case Top => Line(r.left, r.top + w / 2.0, r.right, r.top + w / 2.0, w, pen.dash, pen.color)
        case Right => Line(r.right - w / 2.0, r.top, r.right - w / 2.0, r.bottom, w, pen.dash, pen.color)
        case Bottom => Line(r.left, r.bottom - w / 2.0, r.right, r.bottom - w / 2.0, w, pen.dash, pen.color)
        case Left => Line(r.left + w / 2.0, r.top, r.left + w / 2.0, r.bottom, w, pen.dash, pen.color);
      [ln]
  }

  function Drawn(pen: Pen): nat { if pen.extent == 0.0 then 0 else 1 }

  /** `drawBorder`: one line per side of non-zero extent, in the order
      top, right, bottom, left. */
  function DrawBorder(b: Border, r: Rect): (ev: seq<DrawEvent>)
    ensures |ev| == Drawn(b.topPen) + Drawn(b.rightPen) + Drawn(b.bottomPen) + Drawn(b.leftPen) <= 4
    ensures forall k :: 0 <= k < |ev| ==> ev[k].Line?
    ensures b.topPen.extent != 0.0 ==> ev[0].y1 == ev[0].y2 == r.top + b.topPen.extent / 2.0
    ensures b.leftPen.extent != 0.0 ==> ev[|ev| - 1].x1 == ev[|ev| - 1].x2 == r.left + b.leftPen.extent / 2.0
  {
    EdgeLine(b.topPen, r, Top) + EdgeLine(b.rightPen, r, Right)
    + EdgeLine(b.bottomPen, r, Bottom) + EdgeLine(b.leftPen, r, Left)
  }

  /** Every drawn edge lies half its pen width inside the rect's edge and
      spans the rect's full other dimension. */
  lemma EdgeLineGeometry(pen: Pen, r: Rect, e: Edge)
    requires pen.extent != 0.0
    ensures var ln := EdgeLine(pen, r, e)[0];
      ln.Line? && ln.width == pen.extent && ln.dash == pen.dash && ln.color == pen.color
      && (e == Top ==> ln.y1 == ln.y2 == r.top + pen.extent / 2.0 && ln.x1 == r.left && ln.x2 == r.right)
      && (e == Bottom ==> ln.y1 == ln.y2 == r.bottom - pen.extent / 2.0 && ln.x1 == r.left && ln.x2 == r.right)
      && (e == Left ==> ln.x1 == ln.x2 == r.left + pen.extent / 2.0 && ln.y1 == r.top && ln.y2 == r.bottom)
      && (e == Right ==> ln.x1 == ln.x2 == r.right - pen.extent / 2.0 && ln.y1 == r.top && ln.y2 == r.bottom)
  {
  }
}
