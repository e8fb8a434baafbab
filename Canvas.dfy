// What the layout code hands to TCPDF through the Renderer: the resolved
// font of a text style, the measurements it asks for, and the drawing
// calls it makes. Drawing is an append-only log of events.
module Canvas {
  import opened Wrappers
  import opened Geometry

  /** The font a text style resolves to: family, TCPDF style letters
      (B, U, I) and point size. */
  datatype Font = Font(family: string, style: string, size: real)

  /** Measurements the layout code obtains from TCPDF, supplied from outside. */
  datatype Metrics = Metrics(
    /** calcTextSize(style, text, hAlignment, vAlignment, maxWidth); a maxWidth of 0.0 means unbounded. */
    textSize: (Font, string, string, string, real) -> Size,
    /** getFontHeight(style, hAlignment, vAlignment). */
    fontHeight: (Font, string, string) -> real,
    /** TCPDF GetStringWidth(text, family, style, size). */
    stringWidth: (Font, string) -> real,
    /** TCPDF's page-size table: the portrait size, in points, of a named paper format. */
    paperFormat: string -> Option<Size>)

  /** What the file system says about an image file: file_exists and getimagesize. */
  datatype ImageProbe = NoFile | NotAnImage | Dimensions(width: nat, height: nat)

  datatype DrawEvent =
    | Line(x1: real, y1: real, x2: real, y2: real, width: real, dash: string, color: string)
    | FillRect(rect: Rect, color: string)
    | TextBlock(text: string, font: Font, layout: Rect, hAlignment: string, vAlignment: string, color: string)
    | Image(fileName: string, x: real, y: real, w: real, h: real)
    | Barcode(code: string, barcodeType: string, x: real, y: real, w: real, h: real)
    | NewDocument
    | NewPage(orientation: string, pageSize: string)
    | Output(fileName: string, action: string)
}
