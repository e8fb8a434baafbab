// Boxes (src/BoxFrame.php): a frame that holds at most one child and draws
// a border and a background around it. A box's width and height are either
// fixed extents, percentages of the frame it sits in, or 0.0 ("as large as
// the contents"). The recursive calls into the child live in the frame
// arena; the geometry of a box is here.
module Boxes {
  import opened Wrappers
  import opened Geometry
  import opened Canvas
  import opened Pens
  import opened FrameBase
  import Config

  datatype BoxState = BoxState(
    width: real,
    height: real,
    /** The extents of the first border-rect pass, kept from then on; 0.0 until then. */
    widthToUse: real,
    heightToUse: real,
    widthInPercent: bool,
    heightInPercent: bool,
    border: Border,
    paddingLeft: real,
    paddingTop: real,
    paddingRight: real,
    paddingBottom: real,
    background: string,
    borderRect: Rect,
    paddingRect: Rect,
    contentRect: Rect)

  /** The constructor: the extents and their percent flags, the default
      paddings, one pen on all four sides and the background colour. A width
      of "100%" makes the frame use the full width. */
  function NewBox(width: Extent, height: Extent, borderExtent: real, borderColor: string, background: string): (r: (BoxState, Base))
    ensures var (bx, b) := r;
      bx.width == width.value && bx.widthInPercent == width.Pct?
      && bx.height == height.value && bx.heightInPercent == height.Pct?
      && bx.widthToUse == 0.0 && bx.heightToUse == 0.0
      && bx.border == SetPen(DefaultBorder, NewPen(borderExtent, borderColor, "solid"))
      && bx.background == background
      && bx.paddingLeft == bx.paddingTop == bx.paddingRight == bx.paddingBottom == Config.BoxPadding
    ensures r.1 == DefaultBase.(useFullWidth := width == Pct(100.0))
  {
    (BoxState(width.value, height.value, 0.0, 0.0, width.Pct?, height.Pct?,
              SetPen(DefaultBorder, NewPen(borderExtent, borderColor, "solid")),
              Config.BoxPadding, Config.BoxPadding, Config.BoxPadding, Config.BoxPadding,
              background, EmptyRect, EmptyRect, EmptyRect),
     DefaultBase.(useFullWidth := width == Pct(100.0)))
  }

  /** setPadding: the same padding on all four sides. */
  function SetPadding(bx: BoxState, p: real): (r: BoxState)
    ensures r == bx.(paddingLeft := p, paddingTop := p, paddingRight := p, paddingBottom := p)
  {
    bx.(paddingLeft := p, paddingTop := p, paddingRight := p, paddingBottom := p)
  }

  /** setBorderPen: the pen on all four sides. */
  function SetBorderPen(bx: BoxState, pen: Pen): (r: BoxState)
    ensures r == bx.(border := r.border)
    ensures r.border.topPen == r.border.leftPen == r.border.rightPen == r.border.bottomPen == pen
  {
    bx.(border := SetPen(bx.border, pen))
  }

  /** setWidth: a percentage turns the percent flag on; a plain extent leaves
      it as it was. */
  function SetWidth(bx: BoxState, e: Extent): (r: BoxState)
    ensures r == bx.(width := e.value, widthInPercent := r.widthInPercent)
    ensures e.Pct? ==> r.widthInPercent
    ensures e.Mm? ==> r.widthInPercent == bx.widthInPercent
  {
    bx.(width := e.value, widthInPercent := bx.widthInPercent || e.Pct?)
  }

  /** setHeight: the percent flag is that of the new extent. */
  function SetHeight(bx: BoxState, e: Extent): (r: BoxState)
    ensures r == bx.(height := e.value, heightInPercent := e.Pct?)
  {
    bx.(height := e.value, heightInPercent := e.Pct?)
  }

  /** The two setters are not symmetric: after a percentage, a plain width
      is still read as a percentage, while a plain height is not. */
  lemma PercentWidthSticks(bx: BoxState, p: real, w: real)
    ensures SetWidth(SetWidth(bx, Pct(p)), Mm(w)).widthInPercent
    ensures !SetHeight(SetHeight(bx, Pct(p)), Mm(w)).heightInPercent
  {
  }

  /** The width of the frame a percentage refers to: the sizing bounds of the
      parent frame, or the given rect for a frame without a parent. */
  function FrameWidth(r: Rect, parentBounds: Option<Rect>): real
  {
    if parentBounds.None? then Width(r) else Width(parentBounds.value)
  }

  function FrameHeight(r: Rect, parentBounds: Option<Rect>): real
  {
    if parentBounds.None? then Height(r) else Height(parentBounds.value)
  }

  /** What the margins, the border and the paddings take from a fixed extent. */
  function HorizontalChrome(bx: BoxState, b: Base): real
  {
    b.marginLeft + b.marginRight + LeftWidth(bx.border) + RightWidth(bx.border) + bx.paddingLeft + bx.paddingRight
  }

  function VerticalChrome(bx: BoxState, b: Base): real
  {
    b.marginTop + b.marginBottom + TopWidth(bx.border) + BottomWidth(bx.border) + bx.paddingTop + bx.paddingBottom
  }

  /** getMaxContentRect as the library writes it: the rect the child is sized
      in. The left and top edges move in by the border and the paddings; a
      positive width (height) fixes the right (bottom) edge from the box's
      extent, otherwise that edge moves in by the border and padding too. The
      height branch asks whether the WIDTH is a percentage. */
  function MaxContentRectAsWritten(bx: BoxState, b: Base, fromRect: Rect, parentBounds: Option<Rect>): (r: Rect)
    ensures r.left == fromRect.left + LeftWidth(bx.border) + bx.paddingLeft
    ensures r.top == fromRect.top + TopWidth(bx.border) + bx.paddingTop
    ensures bx.height > 0.0 && !bx.widthInPercent ==> Height(r) == bx.height - VerticalChrome(bx, b)
  {
    var left := fromRect.left + LeftWidth(bx.border) + bx.paddingLeft;
    var top := fromRect.top + TopWidth(bx.border) + bx.paddingTop;
    var moved := Rect(left, top, fromRect.right, fromRect.bottom);
    var right :=
      if bx.width > 0.0 then
        var w := if bx.widthInPercent then FrameWidth(moved, parentBounds) * bx.width / 100.0 else bx.width;
        left + (w - HorizontalChrome(bx, b))
      else fromRect.right - (RightWidth(bx.border) + bx.paddingRight);
    var bottom :=
      if bx.height > 0.0 then
        var h := if bx.widthInPercent then FrameHeight(moved, parentBounds) * bx.height / 100.0 else bx.height;
        top + (h - VerticalChrome(bx, b))
      else fromRect.bottom - (BottomWidth(bx.border) + bx.paddingBottom);
    Rect(left, top, right, bottom)
  }

  /** getMaxContentRect with the height branch asking whether the height is a
      percentage, as the border rect does. */
  function MaxContentRect(bx: BoxState, b: Base, fromRect: Rect, parentBounds: Option<Rect>): (r: Rect)
    ensures r.left == fromRect.left + LeftWidth(bx.border) + bx.paddingLeft
    ensures r.top == fromRect.top + TopWidth(bx.border) + bx.paddingTop
    ensures bx.width <= 0.0 ==> r.right == fromRect.right - RightWidth(bx.border) - bx.paddingRight
    ensures bx.height <= 0.0 ==> r.bottom == fromRect.bottom - BottomWidth(bx.border) - bx.paddingBottom
    ensures bx.width > 0.0 && !bx.widthInPercent ==> Width(r) == bx.width - HorizontalChrome(bx, b)
    ensures bx.height > 0.0 && !bx.heightInPercent ==> Height(r) == bx.height - VerticalChrome(bx, b)
  {
    var left := fromRect.left + LeftWidth(bx.border) + bx.paddingLeft;
    var top := fromRect.top + TopWidth(bx.border) + bx.paddingTop;
    var moved := Rect(left, top, fromRect.right, fromRect.bottom);
    var right :=
      if bx.width > 0.0 then
        var w := if bx.widthInPercent then FrameWidth(moved, parentBounds) * bx.width / 100.0 else bx.width;
        left + (w - HorizontalChrome(bx, b))
      else fromRect.right - (RightWidth(bx.border) + bx.paddingRight);
    var bottom :=
      if bx.height > 0.0 then
        var h := if bx.heightInPercent then FrameHeight(moved, parentBounds) * bx.height / 100.0 else bx.height;
        top + (h - VerticalChrome(bx, b))
      else fromRect.bottom - (BottomWidth(bx.border) + bx.paddingBottom);
    Rect(left, top, right, bottom)
  }

  /** A box sized to its contents gives the child everything inside its border
      and paddings. */
  lemma AutoSizedContentRect(bx: BoxState, b: Base, fromRect: Rect, parentBounds: Option<Rect>)
    requires bx.width == 0.0 && bx.height == 0.0
    ensures MaxContentRect(bx, b, fromRect, parentBounds) ==
      WithMargins(InnerRect(bx.border, fromRect), bx.paddingTop, bx.paddingRight, bx.paddingBottom, bx.paddingLeft)
  {
  }

  /** The extent the border rect uses along one axis, with the cache: a
      cached value is used as it is; otherwise the box's extent, or its
      percentage of the frame. */
  function ExtentToUse(cached: real, extent: real, inPercent: bool, frame: real): (e: real)
    ensures cached != 0.0 ==> e == cached
    ensures cached == 0.0 && !inPercent ==> e == extent
    ensures cached == 0.0 && inPercent ==> e == frame * (extent / 100.0)
  {
    if cached != 0.0 then cached
    else if inPercent then frame * (extent / 100.0)
    else extent
  }

  /** getBorderRect: the rect the border is drawn around. A box sized to its
      contents wraps them in the paddings and the border; otherwise the box
      takes its extent (fixed on the first pass) less the margins. The rect is
      placed in `rect` by the frame's alignments. */
  function BorderRect(bx: BoxState, b: Base, rect: Rect, contentSize: Size, parentBounds: Option<Rect>): (r: BoxState)
    ensures r == bx.(widthToUse := r.widthToUse, heightToUse := r.heightToUse, borderRect := r.borderRect)
    ensures bx.width != 0.0 ==>
      r.widthToUse == ExtentToUse(bx.widthToUse, bx.width, bx.widthInPercent, FrameWidth(rect, parentBounds))
    ensures bx.width == 0.0 ==> r.widthToUse == bx.widthToUse
    ensures bx.height != 0.0 ==>
      r.heightToUse == ExtentToUse(bx.heightToUse, bx.height, bx.heightInPercent, FrameHeight(rect, parentBounds))
    ensures bx.height == 0.0 ==> r.heightToUse == bx.heightToUse
    ensures var w := if bx.width == 0.0
        then contentSize.width + bx.paddingLeft + bx.paddingRight + LeftWidth(bx.border) + RightWidth(bx.border)
        else r.widthToUse - b.marginLeft - b.marginRight;
      var h := if bx.height == 0.0
        then contentSize.height + bx.paddingTop + bx.paddingBottom + TopWidth(bx.border) + BottomWidth(bx.border)
        else r.heightToUse - b.marginTop - b.marginBottom;
      r.borderRect == WithSizeAndAlign(rect, Some(Size(w, h)), b.hAlignment, b.vAlignment)
  {
    var wtu := if bx.width == 0.0 then bx.widthToUse
      else ExtentToUse(bx.widthToUse, bx.width, bx.widthInPercent, FrameWidth(rect, parentBounds));
    var htu := if bx.height == 0.0 then bx.heightToUse
      else ExtentToUse(bx.heightToUse, bx.height, bx.heightInPercent, FrameHeight(rect, parentBounds));
    var w := if bx.width == 0.0
      then contentSize.width + bx.paddingLeft + bx.paddingRight + LeftWidth(bx.border) + RightWidth(bx.border)
      else wtu - b.marginLeft - b.marginRight;
    var h := if bx.height == 0.0
      then contentSize.height + bx.paddingTop + bx.paddingBottom + TopWidth(bx.border) + BottomWidth(bx.border)
      else htu - b.marginTop - b.marginBottom;
    bx.(widthToUse := wtu, heightToUse := htu,
        borderRect := WithSizeAndAlign(rect, Some(Size(w, h)), b.hAlignment, b.vAlignment))
  }

  /** Once a fixed extent has been used it is kept: a later pass in another
      rect, or under another parent, gives a border rect of the same size
      wherever the rect has room for it. */
  lemma ExtentsAreKept(bx: BoxState, b: Base, r1: Rect, r2: Rect, s1: Size, s2: Size, p1: Option<Rect>, p2: Option<Rect>)
    requires bx.width != 0.0 && bx.height != 0.0
    requires var first := BorderRect(bx, b, r1, s1, p1); first.widthToUse != 0.0 && first.heightToUse != 0.0
    requires b.hAlignment == "L" && b.vAlignment == "T"
    ensures var first := BorderRect(bx, b, r1, s1, p1);
      var second := BorderRect(first, b, r2, s2, p2);
      second.widthToUse == first.widthToUse && second.heightToUse == first.heightToUse
      && (first.widthToUse - b.marginLeft - b.marginRight <= Width(r2) ==>
            Width(second.borderRect) == first.widthToUse - b.marginLeft - b.marginRight)
      && (first.heightToUse - b.marginTop - b.marginBottom <= Height(r2) ==>
            Height(second.borderRect) == first.heightToUse - b.marginTop - b.marginBottom)
  {
  }

  /** The rects of a sized box: the border rect, the padding rect inside the
      border, and the content rect inside the paddings. */
  function BoxLayout(bx: BoxState, b: Base, rect: Rect, contentSize: Size, parentBounds: Option<Rect>): (r: BoxState)
    ensures var sized := BorderRect(bx, b, rect, contentSize, parentBounds);
      r == sized.(paddingRect := r.paddingRect, contentRect := r.contentRect)
      && r.paddingRect == InnerRect(bx.border, sized.borderRect)
      && r.contentRect == WithMargins(r.paddingRect, bx.paddingTop, bx.paddingRight, bx.paddingBottom, bx.paddingLeft)
  {
    var sized := BorderRect(bx, b, rect, contentSize, parentBounds);
    var padding := InnerRect(bx.border, sized.borderRect);
    sized.(paddingRect := padding,
           contentRect := WithMargins(padding, bx.paddingTop, bx.paddingRight, bx.paddingBottom, bx.paddingLeft))
  }

  /** A box sized to contents that fit into the rect, placed top-left, is
      exactly as large as the contents plus the paddings and the border, and
      its content rect is the contents' size. */
  lemma ContentsAreWrapped(bx: BoxState, b: Base, rect: Rect, contentSize: Size, parentBounds: Option<Rect>)
    requires bx.width == 0.0 && bx.height == 0.0
    requires (b.hAlignment == "L" || b.hAlignment == "J") && b.vAlignment == "T"
    requires contentSize.width + bx.paddingLeft + bx.paddingRight + LeftWidth(bx.border) + RightWidth(bx.border) <= Width(rect)
    requires contentSize.height + bx.paddingTop + bx.paddingBottom + TopWidth(bx.border) + BottomWidth(bx.border) <= Height(rect)
    ensures var r := BoxLayout(bx, b, rect, contentSize, parentBounds);
      SizeOf(r.contentRect) == contentSize && r.borderRect.left == rect.left && r.borderRect.top == rect.top
  {
  }

  /** The child is sized in the same rect it is printed in: for a box of fixed
      or percentage extents placed top-left, whose border rect has room in the
      rect, the content rect of the layout is the rect the child was sized
      for. (For percentages the frame must be the parent's sizing bounds: for
      a frame without a parent the two rects measure it differently.) */
  lemma ContentRectIsMaxContentRect(bx: BoxState, b: Base, rect: Rect, contentSize: Size, parentBounds: Option<Rect>)
    requires bx.width > 0.0 && bx.height > 0.0 && bx.widthToUse == 0.0 && bx.heightToUse == 0.0
    requires (bx.widthInPercent || bx.heightInPercent) ==> parentBounds.Some?
    requires (b.hAlignment == "L" || b.hAlignment == "J") && b.vAlignment == "T"
    requires var sized := BorderRect(bx, b, rect, contentSize, parentBounds);
      sized.widthToUse - b.marginLeft - b.marginRight <= Width(rect)
      && sized.heightToUse - b.marginTop - b.marginBottom <= Height(rect)
    ensures BoxLayout(bx, b, rect, contentSize, parentBounds).contentRect == MaxContentRect(bx, b, rect, parentBounds)
  {
  }

  /** The as-written rect breaks that whenever the height alone is a
      percentage: the child is sized for the height read as millimetres, and
      laid out in its percentage of the parent's height. */
  lemma HeightPercentReadAsMillimetres(bx: BoxState, b: Base, rect: Rect, contentSize: Size, parent: Rect)
    requires bx.width > 0.0 && bx.height > 0.0 && bx.widthToUse == 0.0 && bx.heightToUse == 0.0
    requires !bx.widthInPercent && bx.heightInPercent
    requires Height(parent) * (bx.height / 100.0) != bx.height
    requires b.vAlignment == "T" && bx.height * Height(parent) / 100.0 - b.marginTop - b.marginBottom <= Height(rect)
    ensures Height(MaxContentRectAsWritten(bx, b, rect, Some(parent))) == bx.height - VerticalChrome(bx, b)
    ensures Height(BoxLayout(bx, b, rect, contentSize, Some(parent)).contentRect)
         == Height(parent) * (bx.height / 100.0) - VerticalChrome(bx, b)
    ensures BoxLayout(bx, b, rect, contentSize, Some(parent)).contentRect != MaxContentRectAsWritten(bx, b, rect, Some(parent))
  {
  }

  /** For instance a 50 mm wide box of height "50%" whose parent is 200 high
      is sized for content 50 high but laid out 100 high. */
  lemma HeightPercentExample(bx: BoxState, rect: Rect)
    requires bx == NewBox(Mm(50.0), Pct(50.0), 0.0, "#000000", "#FFFFFF").0
    requires rect == Rect(0.0, 0.0, 100.0, 200.0)
    ensures Height(MaxContentRectAsWritten(bx, DefaultBase, rect, Some(rect))) == 50.0
    ensures Height(BoxLayout(bx, DefaultBase, rect, ZeroSize, Some(rect)).contentRect) == 100.0
  {
    assert TopWidth(bx.border) == BottomWidth(bx.border) == 0.0;
    assert VerticalChrome(bx, DefaultBase) == 0.0;
    HeightPercentReadAsMillimetres(bx, DefaultBase, rect, ZeroSize, rect);
  }

  /** doCalcSize, after the child (if any) was sized in the max content rect:
      the box is laid out around the child's size, requires its border rect,
      and takes the child's fit; a border rect higher than the rect does not
      fit and continues. */
  function BoxCalcSize(bx: BoxState, b: Base, forRect: Rect, child: Option<(Size, bool, bool)>, parentBounds: Option<Rect>): (res: (BoxState, SizeState))
    ensures var contentSize := if child.Some? then child.value.0 else ZeroSize;
      res.0 == BoxLayout(bx, b, forRect, contentSize, parentBounds)
    ensures res.1.requiredSize == SizeOf(res.0.borderRect)
    ensures Height(res.0.borderRect) > Height(forRect) ==> !res.1.fits && res.1.continued
    ensures Height(res.0.borderRect) <= Height(forRect) ==>
      res.1.fits == (child.None? || child.value.1) && res.1.continued == (child.Some? && child.value.2)
  {
    var contentSize := if child.Some? then child.value.0 else ZeroSize;
    var laid := BoxLayout(bx, b, forRect, contentSize, parentBounds);
    var fits := if child.Some? then child.value.1 else true;
    var continued := if child.Some? then child.value.2 else false;
    if Height(laid.borderRect) > Height(forRect) then (laid, SizeState(SizeOf(laid.borderRect), false, true))
    else (laid, SizeState(SizeOf(laid.borderRect), fits, continued))
  }

  /** rectChanged: the box is laid out again in the new rect around its own
      size (not its child's); the stored sizing outcome is kept. */
  function BoxRectChanged(bx: BoxState, b: Base, newRect: Rect, parentBounds: Option<Rect>): (res: (BoxState, SizeState))
    ensures res.0 == BoxLayout(bx, b, newRect, GetSize(b), parentBounds)
    ensures res.1 == SizeState(b.requiredSize, b.fits, b.continued)
  {
    (BoxLayout(bx, b, newRect, GetSize(b), parentBounds), StoredState(b))
  }

  /** doPrint, before the child prints into the content rect: the border
      around the border rect, then the background over the padding rect unless
      it is white. */
  function BoxPrint(bx: BoxState): (ev: seq<DrawEvent>)
    ensures bx.background == Config.BoxBackgroundColor ==> ev == DrawBorder(bx.border, bx.borderRect)
    ensures bx.background != Config.BoxBackgroundColor ==>
      ev == DrawBorder(bx.border, bx.borderRect) + [FillRect(bx.paddingRect, bx.background)]
    ensures |ev| <= 5
  {
    var frame := DrawBorder(bx.border, WithSizeAndAlign(bx.borderRect, None, Config.FrameHAlignment, Config.FrameVAlignment));
    if bx.background != "#FFFFFF" then
      frame + [FillRect(WithSizeAndAlign(bx.paddingRect, None, Config.FrameHAlignment, Config.FrameVAlignment), bx.background)]
    else frame
  }

  /** addFrame of a box: the box holds the new frame alone. */
  function BoxAddFrame(frames: seq<nat>, frame: nat): (r: (seq<nat>, nat))
    ensures r.0 == [frame] && r.1 == 1
  {
    var kept := if |frames| > 0 then [] else frames;
    (kept + [frame], |kept + [frame]|)
  }
}
