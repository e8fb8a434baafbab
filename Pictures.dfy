// Images (src/ImageFrame.php) and barcodes (src/BarcodeFrame.php): both are
// scaled into the rect they are given and placed by the frame's alignments.
// An image may be stretched unless it preserves its aspect ratio; a barcode
// always keeps it. A zero intrinsic extent is PHP's DivisionByZeroError.
module Pictures {
  import opened Wrappers
  import opened Geometry
  import opened Canvas

  /** The extent of a picture of intrinsic size (w, h) scaled into `maxSize`:
      each axis by its own scale, or both by the smaller scale when the aspect
      ratio is kept. */
  function ScaledSize(w: real, h: real, maxSize: Size, keepRatio: bool): (s: Size)
    requires w != 0.0 && h != 0.0
  {
    var scaleW := maxSize.width / w;
    var scaleH := maxSize.height / h;
    if keepRatio then
      var scale := Min(scaleW, scaleH);
      Size(scale * w, scale * h)
    else Size(scaleW * w, scaleH * h)
  }

  /** A stretched picture takes exactly the available size. */
  lemma StretchedFillsRect(w: real, h: real, maxSize: Size)
    requires w != 0.0 && h != 0.0
    ensures ScaledSize(w, h, maxSize, false) == maxSize
  {
  }

  /** A picture that keeps its ratio has the intrinsic ratio, fills one axis
      exactly and does not exceed the other. */
  lemma {:induction false} KeptRatio(w: real, h: real, maxSize: Size)
    requires w > 0.0 && h > 0.0
    ensures var s := ScaledSize(w, h, maxSize, true);
      s.width * h == s.height * w
      && s.width <= maxSize.width && s.height <= maxSize.height
      && (s.width == maxSize.width || s.height == maxSize.height)
  {
    var scaleW := maxSize.width / w;
    var scaleH := maxSize.height / h;
    assert scaleW * w == maxSize.width;
    assert scaleH * h == maxSize.height;
    if scaleW <= scaleH {
      assert scaleW * h <= scaleH * h;
    } else {
      assert scaleH * w <= scaleW * w;
    }
  }

  datatype ImageState = ImageState(fileName: string, preserveAspectRatio: bool,
                                   width: real, height: real, imageRect: Rect)

  /** The constructor; the intrinsic size is read at the start of printing.
      The maximal extents it also takes are the frame base's maxWidth and
      maxHeight (FrameBase.Base). */
  function NewImage(fileName: string, preserveAspectRatio: bool): (i: ImageState)
    ensures i.fileName == fileName && i.preserveAspectRatio == preserveAspectRatio
  {
    ImageState(fileName, preserveAspectRatio, 0.0, 0.0, EmptyRect)
  }

  /** doBeginPrint: the intrinsic size of the file, or the error for a missing
      file or a file that is not an image. */
  function ImageBeginPrint(i: ImageState, probe: ImageProbe): (r: Result<ImageState>)
    ensures probe.NoFile? <==> r == Err(ImageMissing)
    ensures probe.NotAnImage? <==> r == Err(ImageInvalid)
    ensures probe.Dimensions? <==> r.Ok?
    ensures probe.Dimensions? ==>
      r.value == i.(width := probe.width as real, height := probe.height as real)
  {
    match probe
    case NoFile => Err(ImageMissing)
    case NotAnImage => Err(ImageInvalid)
    case Dimensions(w, h) => Ok(i.(width := w as real, height := h as real))
  }

  /** getImageRect. */
  function ImageRect(i: ImageState, hAlignment: string, vAlignment: string, rect: Rect): (r: Result<Rect>)
    ensures r.Err? <==> i.width == 0.0 || i.height == 0.0
    ensures r.Err? ==> r.error == DivisionByZero
    ensures r.Ok? ==>
      r.value == WithSizeAndAlign(rect, Some(ScaledSize(i.width, i.height, SizeOf(rect), i.preserveAspectRatio)), hAlignment, vAlignment)
  {
    if i.width == 0.0 || i.height == 0.0 then Err(DivisionByZero)
    else Ok(WithSizeAndAlign(rect, Some(ScaledSize(i.width, i.height, SizeOf(rect), i.preserveAspectRatio)), hAlignment, vAlignment))
  }

  /** doCalcSize and rectChanged (which are the same for an image): the image
      rect is recomputed for `rect`, it is required in full, it fits iff it
      fits into `rect`, and an image never continues. */
  function ImageCalcSize(i: ImageState, hAlignment: string, vAlignment: string, rect: Rect): (r: Result<(ImageState, SizeState)>)
    ensures r.Err? <==> ImageRect(i, hAlignment, vAlignment, rect).Err?
    ensures r.Ok? ==> var ir := ImageRect(i, hAlignment, vAlignment, rect).value;
      r.value.0 == i.(imageRect := ir)
      && r.value.1 == SizeState(SizeOf(ir), SizeFits(rect, SizeOf(ir)), false)
  {
    var ir :- ImageRect(i, hAlignment, vAlignment, rect);
    Ok((i.(imageRect := ir), SizeState(SizeOf(ir), SizeFits(rect, SizeOf(ir)), false)))
  }

  /** An image that keeps its ratio, placed top-left in a non-degenerate rect,
      always fits. */
  lemma ImageTopLeftFits(i: ImageState, rect: Rect)
    requires i.width > 0.0 && i.height > 0.0 && i.preserveAspectRatio
    requires Width(rect) >= 0.0 && Height(rect) >= 0.0
    ensures ImageCalcSize(i, "L", "T", rect).Ok?
    ensures ImageCalcSize(i, "L", "T", rect).value.1.fits
  {
    KeptRatio(i.width, i.height, SizeOf(rect));
    var s := ScaledSize(i.width, i.height, SizeOf(rect), true);
    assert s.width >= 0.0 && s.height >= 0.0 by {
      var scale := Min(Width(rect) / i.width, Height(rect) / i.height);
      assert scale >= 0.0;
    }
    AlignTopLeft(rect, s, "L");
  }

  /** doPrint: the image in its rect, if there is a file name. */
  function ImagePrint(i: ImageState): (ev: seq<DrawEvent>)
    ensures |i.fileName| == 0 <==> ev == []
    ensures |i.fileName| > 0 ==>
      ev == [DrawEvent.Image(i.fileName, i.imageRect.left, i.imageRect.top, Width(i.imageRect), Height(i.imageRect))]
  {
    if |i.fileName| > 0 then
      [DrawEvent.Image(i.fileName, i.imageRect.left, i.imageRect.top, Width(i.imageRect), Height(i.imageRect))]
    else []
  }

  datatype BarcodeState = BarcodeState(barcodeText: string, barcodeType: string,
                                       width: real, height: real, barcodeRect: Rect)

  /** The constructor: the given extents are the barcode's size. The frame's
      own maxWidth and maxHeight, which the constructor also sets to them, are
      fields of the frame base (FrameBase.Base) the frame is created with. */
  function NewBarcode(text: string, barcodeType: string, maxWidth: real, maxHeight: real): (b: BarcodeState)
    ensures b.barcodeText == text && b.barcodeType == barcodeType
    ensures b.width == maxWidth && b.height == maxHeight
  {
    BarcodeState(text, barcodeType, maxWidth, maxHeight, EmptyRect)
  }

  /** getBarcodeRect: always scaled with the aspect ratio kept. */
  function BarcodeRect(b: BarcodeState, hAlignment: string, vAlignment: string, rect: Rect): (r: Result<Rect>)
    ensures r.Err? <==> b.width == 0.0 || b.height == 0.0
    ensures r.Err? ==> r.error == DivisionByZero
    ensures r.Ok? ==>
      r.value == WithSizeAndAlign(rect, Some(ScaledSize(b.width, b.height, SizeOf(rect), true)), hAlignment, vAlignment)
  {
    if b.width == 0.0 || b.height == 0.0 then Err(DivisionByZero)
    else Ok(WithSizeAndAlign(rect, Some(ScaledSize(b.width, b.height, SizeOf(rect), true)), hAlignment, vAlignment))
  }

  /** doCalcSize and rectChanged of a barcode. */
  function BarcodeCalcSize(b: BarcodeState, hAlignment: string, vAlignment: string, rect: Rect): (r: Result<(BarcodeState, SizeState)>)
    ensures r.Err? <==> BarcodeRect(b, hAlignment, vAlignment, rect).Err?
    ensures r.Ok? ==> var br := BarcodeRect(b, hAlignment, vAlignment, rect).value;
      r.value.0 == b.(barcodeRect := br)
      && r.value.1 == SizeState(SizeOf(br), SizeFits(rect, SizeOf(br)), false)
  {
    var br :- BarcodeRect(b, hAlignment, vAlignment, rect);
    Ok((b.(barcodeRect := br), SizeState(SizeOf(br), SizeFits(rect, SizeOf(br)), false)))
  }

  /** A barcode of positive size, placed top-left in a rect that leaves room,
      keeps its ratio and fits. */
  lemma BarcodeTopLeftKeepsRatio(b: BarcodeState, rect: Rect)
    requires b.width > 0.0 && b.height > 0.0
    requires Width(rect) >= 0.0 && Height(rect) >= 0.0
    ensures BarcodeCalcSize(b, "L", "T", rect).Ok?
    ensures var s := BarcodeCalcSize(b, "L", "T", rect).value.1;
      s.fits && s.requiredSize.width * b.height == s.requiredSize.height * b.width
  {
    KeptRatio(b.width, b.height, SizeOf(rect));
    var s := ScaledSize(b.width, b.height, SizeOf(rect), true);
    assert s.width >= 0.0 && s.height >= 0.0 by {
      var scale := Min(Width(rect) / b.width, Height(rect) / b.height);
      assert scale >= 0.0;
    }
    AlignTopLeft(rect, s, "L");
  }

  /** doPrint: the barcode in its rect, if it has data. */
  function BarcodePrint(b: BarcodeState): (ev: seq<DrawEvent>)
    ensures |b.barcodeText| == 0 <==> ev == []
    ensures |b.barcodeText| > 0 ==>
      ev == [DrawEvent.Barcode(b.barcodeText, b.barcodeType, b.barcodeRect.left, b.barcodeRect.top,
                               Width(b.barcodeRect), Height(b.barcodeRect))]
  {
    if |b.barcodeText| > 0 then
      [DrawEvent.Barcode(b.barcodeText, b.barcodeType, b.barcodeRect.left, b.barcodeRect.top,
                         Width(b.barcodeRect), Height(b.barcodeRect))]
    else []
  }
}
