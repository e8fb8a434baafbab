// The state and the sizing protocol every frame shares (src/ReportFrame.php):
// alignments, margins, maximal extents, the keep-together flag and the
// flags of a sizing pass. The recursive parts of the protocol (calcSize,
// print) live in the frame arena; the pure steps they are made of are here.
module FrameBase {
  import opened Wrappers
  import opened Geometry
  import Config

  datatype Base = Base(
    hAlignment: string,
    vAlignment: string,
    useFullWidth: bool,
    useFullHeight: bool,
    marginLeft: real,
    marginTop: real,
    marginRight: real,
    marginBottom: real,
    /** 0.0 means unbounded. */
    maxWidth: real,
    maxHeight: real,
    keepTogether: bool,
    requiredSize: Size,
    /** Unset until the first setSize. */
    size: Option<Size>,
    continued: bool,
    fits: bool,
    sized: bool,
    startedPrinting: bool,
    /** Unset until the first calcSize. */
    sizingBounds: Option<Rect>)

  /** The constructor's state: left/top aligned, no margins, no limits,
      fitting, not continued, not sized and not printing. */
  const DefaultBase: Base :=
    Base(Config.FrameHAlignment, Config.FrameVAlignment, false, false,
         Config.FrameMargin, Config.FrameMargin, Config.FrameMargin, Config.FrameMargin,
         0.0, 0.0, false, ZeroSize, None, false, true, false, false, None)

  predicate IsHAlignment(h: string) { h == "L" || h == "C" || h == "J" || h == "R" }

  predicate IsVAlignment(v: string) { v == "T" || v == "M" || v == "B" }

  /** getSize: the size set by the last setSize, or an empty size. */
  function GetSize(b: Base): (s: Size)
    ensures b.size.Some? ==> s == b.size.value
    ensures b.size.None? ==> s == ZeroSize
  {
    if b.size.Some? then b.size.value else ZeroSize
  }

  /** getSizingBounds: the rect of the last calcSize, or an empty rect. */
  function GetSizingBounds(b: Base): (r: Rect)
    ensures b.sizingBounds.Some? ==> r == b.sizingBounds.value
    ensures b.sizingBounds.None? ==> r == EmptyRect
  {
    if b.sizingBounds.Some? then b.sizingBounds.value else EmptyRect
  }

  /** The rect limited to maxWidth and then to maxHeight, placed by the alignments. */
  function Clamped(b: Base, toRect: Rect): Rect
  {
    var byWidth :=
      if b.maxWidth > 0.0 && Width(toRect) > b.maxWidth then
        WithSizeAndAlign(toRect, Some(Size(b.maxWidth, Height(toRect))), b.hAlignment, b.vAlignment)
      else toRect;
    if b.maxHeight > 0.0 && Height(byWidth) > b.maxHeight then
      WithSizeAndAlign(byWidth, Some(Size(Width(byWidth), b.maxHeight)), b.hAlignment, b.vAlignment)
    else byWidth
  }

  /** The margins limitBounds applies: the left one for 'L', both for 'C' and 'J',
      the right one for 'R'; the top one for 'T', both for 'M', the bottom one
      for 'B'; none for any other alignment. */
  function LeftMargin(b: Base): real
  {
    if b.hAlignment == "L" || b.hAlignment == "C" || b.hAlignment == "J" then b.marginLeft else 0.0
  }

  function RightMargin(b: Base): real
  {
    if b.hAlignment == "C" || b.hAlignment == "J" || b.hAlignment == "R" then b.marginRight else 0.0
  }

  function TopMargin(b: Base): real
  {
    if b.vAlignment == "T" || b.vAlignment == "M" then b.marginTop else 0.0
  }

  function BottomMargin(b: Base): real
  {
    if b.vAlignment == "M" || b.vAlignment == "B" then b.marginBottom else 0.0
  }

  /** limitBounds: the part of `toRect` the frame may use. */
  function LimitBounds(b: Base, toRect: Rect): (r: Rect)
    ensures var c := Clamped(b, toRect);
      r.left == c.left + LeftMargin(b) && r.right == c.right - RightMargin(b)
      && r.top == c.top + TopMargin(b) && r.bottom == c.bottom - BottomMargin(b)
    ensures b.maxWidth <= 0.0 && b.maxHeight <= 0.0 && b.hAlignment == "L" && b.vAlignment == "T" ==>
      r == Rect(toRect.left + b.marginLeft, toRect.top + b.marginTop, toRect.right, toRect.bottom)
  {
    WithMargins(Clamped(b, toRect), TopMargin(b), RightMargin(b), BottomMargin(b), LeftMargin(b))
  }

  /** With a known alignment the clamped rect lies inside `toRect` and is no
      wider (no higher) than maxWidth (maxHeight) when that is set. */
  lemma ClampedWithinLimits(b: Base, toRect: Rect)
    requires IsHAlignment(b.hAlignment) && IsVAlignment(b.vAlignment)
    requires Width(toRect) >= 0.0 && Height(toRect) >= 0.0
    ensures var c := Clamped(b, toRect);
      toRect.left <= c.left && c.right <= toRect.right && toRect.top <= c.top && c.bottom <= toRect.bottom
      && (b.maxWidth > 0.0 ==> Width(c) <= b.maxWidth)
      && (b.maxHeight > 0.0 ==> Height(c) <= b.maxHeight)
      && Width(c) >= 0.0 && Height(c) >= 0.0
  {
  }

  /** Without limits, clamping is the identity. */
  lemma ClampedUnlimited(b: Base, toRect: Rect)
    requires b.maxWidth <= 0.0 && b.maxHeight <= 0.0
    ensures Clamped(b, toRect) == toRect
  {
  }

  /** setSize: record the required size and derive the frame's size from it:
      the wanted extent (the whole rect when the frame uses the full width or
      height, otherwise the required extent plus the margins), cut to maxWidth
      or maxHeight when those are set, and cut to the rect. */
  function SetSize(b: Base, requiredSize: Size, rect: Rect): (r: Base)
    ensures r == b.(requiredSize := requiredSize, size := r.size)
    ensures r.size.Some?
    ensures var s := r.size.value;
      var wantW := if b.useFullWidth then Width(rect) else requiredSize.width + b.marginLeft + b.marginRight;
      var wantH := if b.useFullHeight then Height(rect) else requiredSize.height + b.marginTop + b.marginBottom;
      // never more than the rect nor the limits
      s.width <= Width(rect) && (b.maxWidth > 0.0 ==> s.width <= b.maxWidth) && s.width <= wantW
      && s.height <= Height(rect) && (b.maxHeight > 0.0 ==> s.height <= b.maxHeight) && s.height <= wantH
      // and always one of the three candidates, so exactly the smallest of them
      && (s.width == wantW || s.width == Width(rect) || (b.maxWidth > 0.0 && s.width == b.maxWidth))
      && (s.height == wantH || s.height == Height(rect) || (b.maxHeight > 0.0 && s.height == b.maxHeight))
  {
    var wantW := if b.useFullWidth then Width(rect) else requiredSize.width + b.marginLeft + b.marginRight;
    var wantH := if b.useFullHeight then Height(rect) else requiredSize.height + b.marginTop + b.marginBottom;
    var w := Min(if b.maxWidth > 0.0 then Min(wantW, b.maxWidth) else wantW, Width(rect));
    var h := Min(if b.maxHeight > 0.0 then Min(wantH, b.maxHeight) else wantH, Height(rect));
    b.(requiredSize := requiredSize, size := Some(Size(w, h)))
  }

  /** A frame that uses the full extent of a non-negative rect and has no limits
      takes exactly the rect's size. */
  lemma SetSizeFull(b: Base, requiredSize: Size, rect: Rect)
    requires b.useFullWidth && b.useFullHeight && b.maxWidth <= 0.0 && b.maxHeight <= 0.0
    ensures SetSize(b, requiredSize, rect).size == Some(SizeOf(rect))
  {
  }

  /** A frame whose required size plus margins fits within the rect and the
      limits takes exactly that size. */
  lemma SetSizeWithinLimits(b: Base, requiredSize: Size, rect: Rect)
    requires !b.useFullWidth && !b.useFullHeight
    requires var w := requiredSize.width + b.marginLeft + b.marginRight;
      w <= Width(rect) && (b.maxWidth > 0.0 ==> w <= b.maxWidth)
    requires var h := requiredSize.height + b.marginTop + b.marginBottom;
      h <= Height(rect) && (b.maxHeight > 0.0 ==> h <= b.maxHeight)
    ensures SetSize(b, requiredSize, rect).size ==
      Some(Size(requiredSize.width + b.marginLeft + b.marginRight, requiredSize.height + b.marginTop + b.marginBottom))
  {
  }

  /** The base rectChanged: the state of the last sizing pass, unchanged. */
  function StoredState(b: Base): (s: SizeState)
    ensures s.requiredSize == b.requiredSize && s.fits == b.fits && s.continued == b.continued
  {
    SizeState(b.requiredSize, b.fits, b.continued)
  }

  /** reset: a frame forgets it was sized, fitted, continued and started. */
  function Reset(b: Base): (r: Base)
    ensures !r.startedPrinting && !r.sized && !r.fits && !r.continued
    ensures r.(startedPrinting := b.startedPrinting, sized := b.sized, fits := b.fits, continued := b.continued) == b
  {
    b.(startedPrinting := false, sized := false, fits := false, continued := false)
  }

  /** resetSize: the frame must be sized again. */
  function ResetSize(b: Base): (r: Base)
    ensures !r.sized && r.(sized := b.sized) == b
  {
    b.(sized := false)
  }

  /** The outcome decisions of calcSize, after doCalcSize returned `values`
      for a frame about to be sized in `rect` on a page whose bounds are
      `pageBounds`: a keep-together frame that would continue does not fit, and
      is an error when it already had a whole page; any other frame takes the
      fit of its contents, and not fitting into an empty or zero-wide rect is
      an error. The frame is sized and continued as its contents are. */
  function Settle(b: Base, values: SizeState, rect: Rect, pageBounds: Rect): (r: Result<Base>)
    ensures r.Ok? ==> r.value.sized && r.value.continued == values.continued
    ensures r.Ok? ==> r.value.fits == (values.fits && !(b.keepTogether && values.continued))
    ensures r.Ok? ==> r.value == b.(fits := r.value.fits, continued := values.continued, sized := true)
    ensures r == Err(TooBigKeepTogether) <==> b.keepTogether && values.continued && pageBounds == rect
    ensures r == Err(NoSpaceLeft) <==>
      !(b.keepTogether && values.continued) && !values.fits && (IsEmpty(rect) || Width(rect) == 0.0)
  {
    if b.keepTogether && values.continued then
      if pageBounds == rect then Err(TooBigKeepTogether)
      else Ok(b.(fits := false, continued := values.continued, sized := true))
    else if !values.fits && (IsEmpty(rect) || Width(rect) == 0.0) then Err(NoSpaceLeft)
    else Ok(b.(fits := values.fits, continued := values.continued, sized := true))
  }
}
