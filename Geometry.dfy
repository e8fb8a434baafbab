// The geometry kernel: rectangles in millimetres (src/Rect.php), sizes
// (src/Size.php) and the result record of a sizing pass (src/SizeState.php).
// Rect and Size are mutable objects in the library; here they are values, so
// every `new Rect(rect: r)` copy is the value itself.
module Geometry {
  import opened Wrappers

  /** Tolerance of the fit and equality tests (Rect::C_EPS). */
  const Eps: real := 0.001

  datatype Size = Size(width: real, height: real)

  /** `new Size()` and `setSize()` without arguments. */
  const ZeroSize: Size := Size(0.0, 0.0)

  /** What a frame reports from a sizing pass. */
  datatype SizeState = SizeState(requiredSize: Size, fits: bool, continued: bool)

  /** `new SizeState()`: fits, not continued, nothing required. */
  const FreshSizeState: SizeState := SizeState(ZeroSize, true, false)

  /** A width or height as a constructor or setter receives it (mixed in
      the library): a number is an extent in millimetres, a string such as
      "50%" is a percentage, and its numeric value is what floatval reads. */
  datatype Extent = Mm(value: real) | Pct(value: real)

  datatype Rect = Rect(left: real, top: real, right: real, bottom: real)

  /** `new Rect()`. */
  const EmptyRect: Rect := Rect(0.0, 0.0, 0.0, 0.0)

  function Width(r: Rect): real { r.right - r.left }

  function Height(r: Rect): real { r.bottom - r.top }

  function SizeOf(r: Rect): (s: Size)
    ensures s.width == Width(r) && s.height == Height(r)
  {
    Size(Width(r), Height(r))
  }

  predicate IsEmpty(r: Rect) { Width(r) <= Eps && Height(r) <= Eps }

  /** Each edge moves inward by its margin; the receiver is a value and stays as it was. */
  function WithMargins(r: Rect, marginTop: real, marginRight: real, marginBottom: real, marginLeft: real): (m: Rect)
    ensures Width(m) == Width(r) - marginLeft - marginRight
    ensures Height(m) == Height(r) - marginTop - marginBottom
    ensures m.left - r.left == marginLeft && m.top - r.top == marginTop
    ensures r.right - m.right == marginRight && r.bottom - m.bottom == marginBottom
  {
    Rect(r.left + marginLeft, r.top + marginTop, r.right - marginRight, r.bottom - marginBottom)
  }

  /** `check`: clamp the right and bottom edges of `c` to those of `r`. */
  function Check(r: Rect, c: Rect): (k: Rect)
    ensures k.left == c.left && k.top == c.top
    ensures k.right <= r.right && k.bottom <= r.bottom
    ensures k.right == (if c.right > r.right then r.right else c.right)
    ensures k.bottom == (if c.bottom > r.bottom then r.bottom else c.bottom)
  {
    var right := if c.right > r.right then c.right - (c.right - r.right) else c.right;
    var bottom := if c.bottom > r.bottom then c.bottom - (c.bottom - r.bottom) else c.bottom;
    Rect(c.left, c.top, right, bottom)
  }

  /** Upper-left x of a box of width `w` aligned in `r`; 0.0 for an unknown alignment. */
  function AlignedX(r: Rect, w: real, hAlignment: string): real
  {
    if hAlignment == "J" || hAlignment == "L" then r.left
    else if hAlignment == "R" then r.right - w
    else if hAlignment == "C" then r.left + (Width(r) - w) / 2.0
    else 0.0
  }

  /** Upper-left y of a box of height `h` aligned in `r`; 0.0 for an unknown alignment. */
  function AlignedY(r: Rect, h: real, vAlignment: string): real
  {
    if vAlignment == "T" then r.top
    else if vAlignment == "B" then r.bottom - h
    else if vAlignment == "M" then r.top + (Height(r) - h) / 2.0
    else 0.0
  }

  /** `getRectWithSizeAndAlign`: place a box of the given size (or of the
      receiver's own size) by the alignments, then clamp it with `check`. */
  function WithSizeAndAlign(r: Rect, size: Option<Size>, hAlignment: string, vAlignment: string): (a: Rect)
    ensures a.right <= r.right && a.bottom <= r.bottom
    ensures size.None? ==> a == r
    ensures size.Some? ==>
      a.left == AlignedX(r, size.value.width, hAlignment) && a.top == AlignedY(r, size.value.height, vAlignment)
  {
    var placed :=
      if size.Some? then
        var x := AlignedX(r, size.value.width, hAlignment);
        var y := AlignedY(r, size.value.height, vAlignment);
        Rect(x, y, x + size.value.width, y + size.value.height)
      else
        Rect(r.left, r.top, r.left + Width(r), r.top + Height(r));
    Check(r, placed)
  }

  predicate SizeFits(r: Rect, s: Size)
  {
    var h := s.height - Height(r);
    var w := s.width - Width(r);
    !(h > Eps || w > Eps)
  }

  predicate WidthFits(r: Rect, width: real) { !(width - Width(r) > Eps) }

  predicate HeightFits(r: Rect, height: real) { !(height - Height(r) > Eps) }

  predicate CoordsEqual(a: real, b: real)
  {
    if a > b then a - b < Eps else b - a < Eps
  }

  predicate IsEqualTo(r: Rect, o: Rect)
  {
    CoordsEqual(r.left, o.left) && CoordsEqual(r.top, o.top)
    && CoordsEqual(r.right, o.right) && CoordsEqual(r.bottom, o.bottom)
  }

  function Abs(x: real): real { if x < 0.0 then -x else x }

  // ---------------------------------------------------------------------
  // Properties

  /** A size fits iff its width and its height fit, each within Eps. */
  lemma SizeFitsIff(r: Rect, s: Size)
    ensures SizeFits(r, s) <==> WidthFits(r, s.width) && HeightFits(r, s.height)
    ensures SizeFits(r, s) <==> s.width <= Width(r) + Eps && s.height <= Height(r) + Eps
  {
  }

  /** `isEqualTo` holds iff every coordinate differs by less than Eps. */
  lemma IsEqualToIff(r: Rect, o: Rect)
    ensures IsEqualTo(r, o) <==>
      Abs(r.left - o.left) < Eps && Abs(r.top - o.top) < Eps
      && Abs(r.right - o.right) < Eps && Abs(r.bottom - o.bottom) < Eps
  {
  }

  lemma IsEqualToReflexiveSymmetric(r: Rect, o: Rect)
    ensures IsEqualTo(r, r)
    ensures IsEqualTo(r, o) == IsEqualTo(o, r)
  {
  }

  /** `isEmpty` holds iff both dimensions are at most Eps. */
  lemma IsEmptyIff(r: Rect)
    ensures IsEmpty(r) <==> r.right - r.left <= Eps && r.bottom - r.top <= Eps
  {
  }

  /** Margins applied and then removed give back the rect. */
  lemma MarginsRoundTrip(r: Rect, mt: real, mr: real, mb: real, ml: real)
    ensures WithMargins(WithMargins(r, mt, mr, mb, ml), -mt, -mr, -mb, -ml) == r
  {
  }

  /** 'L'/'J' with 'T' keeps the receiver's upper-left corner, and a box
      that fits is returned at its full size. */
  lemma AlignTopLeft(r: Rect, s: Size, h: string)
    requires h == "L" || h == "J"
    requires 0.0 <= s.width <= Width(r) && 0.0 <= s.height <= Height(r)
    ensures var a := WithSizeAndAlign(r, Some(s), h, "T");
      a.left == r.left && a.top == r.top && SizeOf(a) == s
  {
  }

  /** 'R' with 'B' puts the box against the receiver's right and bottom edges. */
  lemma AlignBottomRight(r: Rect, s: Size)
    ensures var a := WithSizeAndAlign(r, Some(s), "R", "B");
      a.right == r.right && a.bottom == r.bottom && SizeOf(a) == s
  {
  }

  /** 'C' with 'M' centres a box that is not larger than the receiver. */
  lemma AlignCentred(r: Rect, s: Size)
    requires s.width <= Width(r) && s.height <= Height(r)
    ensures var a := WithSizeAndAlign(r, Some(s), "C", "M");
      a.left - r.left == r.right - a.right && a.top - r.top == r.bottom - a.bottom
      && SizeOf(a) == s
  {
  }
}
