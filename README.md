# tcpdf-ReportLib layout core in Dafny

This project models the layout engine of tcpdf-ReportLib, a PHP library that
lays out reports for TCPDF. A report is a tree of rectangular frames: a body,
a header and a footer, each a vertical container. Containers hold serial
(vertical or horizontal) runs, boxes with borders and padding, fixed-position
frames and per-page frames. Leaves are texts, lines, images, barcodes, page
breaks and tables. Every page is laid out in two steps. First each frame is
measured in the rectangle it is offered (`calcSize`): it records its required
size and whether it fits and whether it continues on the next page. Then it
is painted (`print`). A frame that continues keeps a cursor (the next child,
the next character, the next table row) and resumes from it on the following
page. All lengths are millimetres.

The model keeps the library's structure:

- `Geometry`, `Pens`, `FrameBase`: rectangles and sizes, pens and borders,
  and the state and sizing rules every frame shares (`limitBounds`,
  `setSize`, keep-together).
- `Boxes`, `Lines`, `Pictures`, `Breaks`, `PageFrames`, `Texts`: the
  per-kind rules of each frame kind, as functions from the frame's state and
  the offered rectangle to the new state, the size state and the drawing
  events.
- `TableRows`, `TableColumns`, `Tables`, `TableLayout`, `TablePaging`: the
  table engine. It covers column widths, line breaks into sub-rows, scaling
  to the full width, row heights, the minimum rows kept together, header
  repetition and joined cells.
- `Styles`: text styles that inherit along a chain of base styles, and the
  registry of named styles. Both are classes.
- `PageFormats`, `Rendering`: page formats and the bookkeeping part of the
  renderer. It keeps page formats keyed by first page, the page bounds with
  mirrored margins, and the page counters. It also does page-variable
  substitution, colour parsing, font style letters and text trimming.
- `Frames`: the frame tree itself. It is a class `Layout` holding every frame
  in an arena, so cycles can be represented and detected. Each frame has its
  children as index lists and a parent link. The recursive measure, print,
  reset and begin-print protocol is written as methods on it.
- `Reports`: the report driver (class `Report`). It checks for cycles, prints
  header, footer and body page by page, and optionally counts the pages in a
  first pass.

What the library delegates to TCPDF or the operating system is a parameter:

- `Canvas.Metrics` supplies text measurement (`calcTextSize`), font height,
  string width and the paper-size table.
- `Canvas.ImageProbe` supplies what the file system says about an image file.
- Everything the library draws is appended to the renderer's log as
  `Canvas.DrawEvent` values: lines, filled rectangles, text blocks, images,
  barcodes, new documents and pages, and the final output.

Because the arena can hold shared or cyclic subtrees, each layout method
states its footprint. `Frames.ChangedBelow` says that a frame's pass changes
only frames reachable from it, to the depth its fuel allows. The results of
a container are stated in terms of its children under `Frames.Separate`: the
children's subtrees are disjoint, and none of them reaches back to the
container. In a tree, as the library builds it, this always holds.

Exceptions become a `Result` or a `Status` carrying the error. PHP's `(int)`
casts, `%` and `round` are written out in `Wrappers`. The library's default
constants are in `Config`.

## Model

| member | source | states |
|---|---|---|
| Wrappers.Max | src/SerialFrame.php:88-103 | the larger of two lengths: at least both, and one of them |
| Wrappers.Min | src/ReportFrame.php:610-636 | the smaller of two lengths: at most both, and one of them |
| Wrappers.TruncToInt | src/TableFrame.php:833-885 | PHP's `(int)` cast of a float: truncation toward zero, within one of the value, and the floor for non-negative values |
| Wrappers.PhpRem | src/PageFrame.php:169-192 | PHP's `%`: equal to Dafny's remainder for non-negative operands, in (-m, 0] for negative ones |
| Wrappers.RoundHalfAway | src/Renderer.php:445-536 | PHP's `round()` to an integer: within one half of the value, halves rounded away from zero |
| Wrappers.Round2 | src/Renderer.php:445-536 | `round($x, 2)`: within half a hundredth of the value |
| Wrappers.Round3 | src/TextFrame.php:292-301 | `round($x, 3)`: within half a thousandth of the value |
| Strings.RTrim | src/Renderer.php:445-536 | `rtrim`: a prefix of the input that ends in a non-blank, and everything cut off is blank |
| Strings.LTrim | src/TextFrame.php:208-216 | `ltrim`: a suffix of the input that starts with a non-blank, and everything cut off is blank |
| Strings.OccursIff | src/Renderer.php:302-311 | the `strpos` test used before replacing is true exactly when the pattern occurs at some position |
| Strings.ReplaceAllAbsent | src/Renderer.php:302-311 | `str_replace` of a placeholder that does not occur leaves the text unchanged |
| Strings.ReplaceAllSelf | src/Renderer.php:302-311 | replacing a placeholder by itself leaves the text unchanged |
| Strings.ReplaceAllAtFront | src/Renderer.php:302-311 | a placeholder at the front is replaced and the rest of the text is processed the same way |
| Strings.DigitChar | src/Renderer.php:302-311 | the character written for a decimal digit is a digit of that value |
| Strings.NatToString | src/Renderer.php:302-311 | a page number renders as a non-empty string of digits without a leading zero |
| Strings.DigitValue | src/Renderer.php:302-311 | the value of a digit character is below ten |
| Strings.ParseNatToString | src/Renderer.php:302-311 | reading the rendered digits of a natural number gives the number back |
| Strings.IntToString | src/Renderer.php:302-311 | PHP's int-to-string conversion: digits, with a leading minus exactly for negative numbers |
| Strings.IntToStringRoundTrip | src/Renderer.php:302-311 | reading the rendered string of any integer gives the integer back |
| Geometry.SizeOf | src/Rect.php:116-119 | the size of a rect is its width and its height |
| Geometry.WithMargins | src/Rect.php:138-147 | each edge moves inward by its own margin, so the width and the height shrink by the margin sums |
| Geometry.Check | src/Rect.php:200-212 | the rect keeps its left and top edges and is clipped on the right and at the bottom to the outer rect |
| Geometry.WithSizeAndAlign | src/Rect.php:156-193 | without a size the rect is returned unchanged; with one the result is placed by the alignments and does not pass the right or bottom edge |
| Geometry.SizeFitsIff | src/Rect.php:219-246 | a size fits exactly when its width and its height fit, each with a tolerance of 0.001 mm |
| Geometry.IsEqualToIff | src/Rect.php:253-272 | two rects are equal exactly when every coordinate differs by less than 0.001 mm |
| Geometry.IsEqualToReflexiveSymmetric | src/Rect.php:253-272 | rect equality is reflexive and symmetric |
| Geometry.IsEmptyIff | src/Rect.php:125-128 | a rect is empty exactly when both its width and its height are at most 0.001 mm |
| Geometry.MarginsRoundTrip | src/Rect.php:138-147 | applying margins and then their negations gives the original rect back |
| Geometry.AlignTopLeft | src/Rect.php:156-193 | a size that fits, aligned left (or justified) and to the top, sits in the top-left corner with exactly that size |
| Geometry.AlignBottomRight | src/Rect.php:156-193 | a size aligned right and to the bottom touches the right and bottom edges with exactly that size |
| Geometry.AlignCentred | src/Rect.php:156-193 | a size that fits, centred both ways, leaves equal gaps on opposite sides |
| Breaks.NewBreak | src/BreakFrame.php:70-74 | a new break carries the page format it was given |
| Breaks.BreakBeginPrint | src/BreakFrame.php:151-154 | beginning a print arms the break and keeps its page and format |
| Breaks.BreakCalcSize | src/BreakFrame.php:101-133 | an armed break remembers the page, registers its format for the next page and takes the whole rect; later on the same page it again takes the whole rect, on another page nothing; it always fits |
| Breaks.BreakLifeCycle | src/BreakFrame.php:101-154 | over a print, a break continues on its page, registers the next page's format once, and ends on the following page with zero size |
| PageFormats.NewPageFormat | src/PageFormat.php:100-109 | a new page format holds exactly the size, orientation, four margins and mirroring it was given |
| PageFormats.DefaultPageFormatValues | src/PageFormat.php:100-109 | the default is A4 portrait with margins 20/10/10/10 mm, not mirrored |
| PageFrames.PrintOnPageMeaning | src/PageFrame.php:169-192 | a positive page number selects that page only; the special values select all pages, odd pages, even pages, or all pages but the first; any lower value selects every page |
| PageFrames.OddEvenPartition | src/PageFrame.php:169-192 | every page is selected by exactly one of the odd-page and even-page settings |
| Pens.LowerChar | src/Pen.php:64 | `strtolower` of one character: a capital A–Z becomes the small letter 32 code points up, every other character is kept |
| Pens.Lower | src/Pen.php:64 | `strtolower` on ASCII: the same length, every character lower-cased on its own |
| Pens.LowerNormalises | src/Pen.php:64 | a lower-cased style name holds no capital letter, and lower-casing it again changes nothing |
| Pens.NewPen | src/Pen.php:59-73 | a new pen holds its extent and colour, and its dash pattern is the one its line style names |
| Pens.DashMapping | src/Pen.php:64-72 | the line styles dash, dashdot and dot (in any letter case) give "5,2", "5,2,1,2" and "1,1"; every other style gives the solid "0" |
| Pens.DashIgnoresCase | src/Pen.php:64-72 | line style names are matched without regard to letter case |
| Pens.DefaultPenIsSolidBlackHairless | src/Pen.php:59 | the default pen has extent 0, colour black and a solid dash, as the configuration defaults say |
| Pens.SetPen | src/Border.php:113-119 | setting a border's pen puts that pen on all four sides |
| Pens.WithPen | src/Border.php:165-213 | setting one side's pen changes that side and leaves the other three as they were |
| Pens.SetPenSidesIndependent | src/Border.php:113-213 | after setting all sides and then one side, the other three still carry the common pen |
| Pens.AddBorderSize | src/Border.php:126-134 | the outer size adds the left and right pen extents to the width and the top and bottom extents to the height |
| Pens.InnerRect | src/Border.php:142-152 | the inner rect moves each edge inward by that side's pen extent |
| Pens.InnerRectAddBorderRoundTrip | src/Border.php:126-152 | adding the border back to the size of the inner rect gives the size of the outer rect |
| Pens.DefaultBorderIsNeutral | src/Border.php:82-88 | the default border, of zero-extent pens, changes neither a rect nor a size |
| Pens.EdgeLine | src/Border.php:265-299 | a side with a zero-extent pen draws nothing, any other side draws one line |
| Pens.DrawBorder | src/Border.php:97-103 | one line per side with a non-zero pen, top, right, bottom, left in that order; the top line lies half the pen inside the top edge and the left line half the pen inside the left edge |
| Pens.EdgeLineGeometry | src/Border.php:265-299 | a drawn side's line has the pen's width, dash and colour, spans the whole side and lies half the pen's extent inside that edge |
| FrameBase.GetSize | src/ReportFrame.php:456-462 | the size set by the last setSize, or the empty size when none was set |
| FrameBase.GetSizingBounds | src/ReportFrame.php:419-426 | the bounds of the last sizing pass, or the empty rect before one |
| FrameBase.LimitBounds | src/ReportFrame.php:568-602 | the rect clamped to the maximum width and height by the alignments, with the margins taken off each edge; an unlimited top-left frame only loses its left and top margins |
| FrameBase.ClampedWithinLimits | src/ReportFrame.php:568-602 | for valid alignments the clamped rect stays inside the given one, keeps a non-negative size and respects the maximum width and height |
| FrameBase.ClampedUnlimited | src/ReportFrame.php:568-602 | with no maximum width or height, clamping changes nothing |
| FrameBase.SetSize | src/ReportFrame.php:610-636 | only the size and the required size change; each dimension is the smallest of the wanted size (the full rect or the content plus margins), the rect and the maximum |
| FrameBase.SetSizeFull | src/ReportFrame.php:610-636 | an unlimited frame that uses the full width and height takes exactly the size of the rect |
| FrameBase.SetSizeWithinLimits | src/ReportFrame.php:610-636 | a frame whose content plus margins fits the rect and the limits takes exactly that size |
| FrameBase.StoredState | src/ReportFrame.php:644-651 | the sizing result a frame keeps is its stored required size, fits and continued flags |
| FrameBase.Reset | src/ReportFrame.php:478-484 | reset clears the started, sized, fits and continued flags and nothing else |
| FrameBase.ResetSize | src/ReportFrame.php:469-472 | resetSize clears the sized flag and nothing else |
| FrameBase.Settle | src/ReportFrame.php:512-535 | a keep-together frame that continues does not fit, and fails as too big when its rect is the page bounds; otherwise a frame that does not fit fails when no space is left; on success only fits, continued and sized change |
| Boxes.NewBox | src/BoxFrame.php:147-180 | a new box holds its width and height with their percent flags, one solid pen of the given extent and colour on all sides, the background and the default padding; it uses the full width exactly when its width is 100 percent |
| Boxes.SetPadding | src/BoxFrame.php:225-230 | the same padding on all four sides, nothing else changed |
| Boxes.SetBorderPen | src/BoxFrame.php:204-210 | the pen goes on all four sides of the border, nothing else changed |
| Boxes.SetWidth | src/BoxFrame.php:238-245 | the width is set; a width in percent sets the percent flag, a width in millimetres leaves the flag as it was |
| Boxes.SetHeight | src/BoxFrame.php:251-259 | the height is set and its percent flag says exactly whether it was given in percent |
| Boxes.PercentWidthSticks | src/BoxFrame.php:238-259 | once a width was given in percent, a later width in millimetres is still read as percent; a height does not keep the flag |
| Boxes.MaxContentRectAsWritten | src/BoxFrame.php:393-450 | the content rect starts inside the left and top border and padding; a fixed height, when the width is not in percent, gives a content height of that height minus the vertical margins, border and padding even when the height itself is in percent |
| Boxes.MaxContentRect | src/BoxFrame.php:393-450 | the same rect with the height read by its own percent flag: an auto-sized side ends inside the border and padding, a fixed side in millimetres gives exactly that extent minus margins, border and padding |
| Boxes.AutoSizedContentRect | src/BoxFrame.php:393-450 | for an auto-sized box the content rect is the rect inside the border and then inside the padding |
| Boxes.ExtentToUse | src/BoxFrame.php:493-534 | a cached extent is kept; otherwise the extent in millimetres, or that percentage of the frame's extent |
| Boxes.BorderRect | src/BoxFrame.php:493-534 | only the cached extents and the border rect change; an auto-sized side is the content plus padding and border, a fixed side is its extent minus margins, and the rect is placed by the alignments |
| Boxes.ExtentsAreKept | src/BoxFrame.php:493-534 | once computed, a fixed box's extents are reused in later layouts, so a percent size does not follow a later rect |
| Boxes.BoxLayout | src/BoxFrame.php:357-385 | the padding rect is the border rect inside the border and the content rect is the padding rect inside the padding |
| Boxes.ContentsAreWrapped | src/BoxFrame.php:357-385 | an auto-sized box whose content fits wraps it exactly: the content rect has the content's size and the border rect starts at the rect's corner |
| Boxes.ContentRectIsMaxContentRect | src/BoxFrame.php:357-450 | for a fixed top-left box that fits, the content rect after layout is the intended maximum content rect |
| Boxes.HeightPercentReadAsMillimetres | src/BoxFrame.php:424-449 | when only the height is in percent, the content rect offered to the child takes the percentage as millimetres, and it differs from the content rect the box is then laid out with |
| Boxes.HeightPercentExample | src/BoxFrame.php:424-449 | a 50 mm by 50 % box in a 200 mm tall rect sizes its child in 50 mm but lays itself out 100 mm tall |
| Boxes.BoxCalcSize | src/BoxFrame.php:357-385 | the box is laid out around its child's size and requires its border rect's size; a box taller than the rect does not fit and continues; otherwise it fits and continues as its child does |
| Boxes.BoxRectChanged | src/BoxFrame.php:458-467 | the box is laid out again in the new rect around its own size, and the stored sizing result is returned unchanged |
| Boxes.BoxPrint | src/BoxFrame.php:542-552 | the border is drawn around the border rect, then the padding rect is filled unless the background is white |
| Boxes.BoxAddFrame | src/BoxFrame.php:189-196 | adding a frame to a box replaces its only child and returns the count 1 |
| Lines.NewLine | src/LineFrame.php:93-106 | a new line holds its direction and length, a solid pen of the given extent and colour, and all end points at zero |
| Lines.RawPoints | src/LineFrame.php:190-269 | a horizontal line lies at the top (half the pen inside), the middle or the bottom by the vertical alignment and spans the rect or its length placed by the horizontal alignment; every other direction is vertical and handled the same way across; an unknown alignment keeps the old coordinate |
| Lines.HorizontalPoints | src/LineFrame.php:194-227 | a horizontal line lies at the top (half the pen inside), the middle or the bottom and spans the rect, or its length placed left, centred or right; an unknown alignment keeps the old points |
| Lines.VerticalPoints | src/LineFrame.php:228-268 | a vertical line lies at the left (half the pen inside), the centre or the right and spans the rect, or its length placed top, middle or bottom; an unknown alignment keeps the old points |
| Lines.SetLinePoints | src/LineFrame.php:190-269 | the raw points with the start clamped to the left and top edges and the end to the right and bottom edges, so the points lie inside the rect |
| Lines.HorizontalLineInside | src/LineFrame.php:190-269 | a horizontal line that fits lies inside the rect, level, and spans the rect or exactly its length |
| Lines.VerticalLineInside | src/LineFrame.php:190-269 | a vertical line that fits lies inside the rect, upright, and spans the rect or exactly its length |
| Lines.LineSize | src/LineFrame.php:305-323 | a horizontal line is as wide as its points and as tall as its pen, a vertical one the other way round |
| Lines.LineCalcSize | src/LineFrame.php:162-181 | the points are set for the rect, the required size is the size of the points from before this pass, the line never continues, and it fits exactly when it stays level (or upright) after clamping |
| Lines.HorizontalFitsIff | src/LineFrame.php:162-181 | a horizontal line fits exactly when its aligned height lies between the rect's top and bottom |
| Lines.SecondPassReportsPoints | src/LineFrame.php:162-181 | a second sizing in the same rect reports the size of the points the first pass set and leaves them alone |
| Lines.SetLinePointsIdempotent | src/LineFrame.php:190-269 | setting the points twice in the same rect gives the same points as once |
| Lines.LinePrint | src/LineFrame.php:290-296 | printing draws exactly one line between the points with the pen's width, dash and colour |
| Pictures.StretchedFillsRect | src/ImageFrame.php:133-148 | an image that does not keep its aspect ratio takes exactly the rect's size |
| Pictures.KeptRatio | src/ImageFrame.php:133-148 | an image that keeps its aspect ratio keeps its proportions, stays within the rect and touches it in width or in height |
| Pictures.NewImage | src/ImageFrame.php:84-92 | a new image holds its file name and its aspect-ratio flag |
| Pictures.ImageBeginPrint | src/ImageFrame.php:203-217 | a missing file and a file that is not an image are the two errors; otherwise the image's pixel dimensions are recorded |
| Pictures.ImageRect | src/ImageFrame.php:133-148 | a zero width or height is a division by zero; otherwise the scaled size placed by the alignments |
| Pictures.ImageCalcSize | src/ImageFrame.php:173-181 | the image rect is stored and required; the image fits exactly when that size fits the rect; it never continues |
| Pictures.ImageTopLeftFits | src/ImageFrame.php:133-181 | an image with dimensions that keeps its ratio always fits a non-negative rect at the top left |
| Pictures.ImagePrint | src/ImageFrame.php:189-194 | an image with a file name draws that file in its image rect; one without draws nothing |
| Pictures.NewBarcode | src/BarcodeFrame.php:82-92 | a new barcode holds its text, its type and its maximum width and height |
| Pictures.BarcodeRect | src/BarcodeFrame.php:163-176 | a zero width or height is a division by zero; otherwise the size scaled with its ratio kept, placed by the alignments |
| Pictures.BarcodeCalcSize | src/BarcodeFrame.php:201-209 | the barcode rect is stored and required; it fits exactly when that size fits the rect; it never continues |
| Pictures.BarcodeTopLeftKeepsRatio | src/BarcodeFrame.php:163-209 | a barcode at the top left always fits and keeps the proportions of its width and height |
| Pictures.BarcodePrint | src/BarcodeFrame.php:217-222 | a barcode with text draws it in its rect with its type; one without text draws nothing |
| Rendering.StyleLetters | src/Renderer.php:597-610 | the font style string holds B, U and I exactly when bold, underlined and italic are set, once each |
| Rendering.StyleLettersOrdered | src/Renderer.php:597-610 | the letters of the font style string come in the order B, U, I |
| Rendering.FontOf | src/Renderer.php:549-552 | the font handed to the measurements is the style's inherited family and size with its style letters |
| Rendering.HexValue | src/Renderer.php:618-636 | a hex digit's value is below 16 |
| Rendering.HexDecTwo | src/Renderer.php:618-636 | two hex digits give a value below 256 |
| Rendering.ClampByte | src/Renderer.php:618-636 | `max(0, min(255, n))` lies in 0..255 and keeps any value already there |
| Rendering.ColorArray | src/Renderer.php:618-636 | every colour channel lies in 0..255; a colour of the wrong length or with a character other than a hex digit or `#` is black |
| Rendering.HexChar | src/Renderer.php:618-636 | the digit written for a value below 16 is a hex digit of that value |
| Rendering.HexColor | src/Renderer.php:618-636 | a colour renders as `#` and six characters |
| Rendering.HexDecPair | src/Renderer.php:618-636 | two hex digits written for a byte read back as that byte |
| Rendering.ColorArrayRoundTrip | src/Renderer.php:618-636 | reading `#RRGGBB` written for a colour gives the colour back |
| Rendering.ColorArrayHashOptional | src/Renderer.php:618-636 | six hex digits without the `#` read the same as with it |
| Rendering.FloorKeyUnique | src/Renderer.php:205-215 | the page format governing a page is unique: the greatest registered start page not after it |
| Rendering.SetPageFormatOverrides | src/Renderer.php:194-215 | a format registered from a page governs that page and the following ones up to the next registration, and leaves every earlier page's format alone |
| Rendering.PaperSizeOrientation | src/Renderer.php:139-164 | in any orientation other than portrait the paper's width and height are swapped |
| Rendering.UnknownPaperIsA4 | src/Renderer.php:139-164 | an unknown paper name in portrait gives the A4 size of 210 by 297 mm |
| Rendering.BoundsOf | src/Renderer.php:110-130 | the page bounds are the paper inside the margins, with left and right margins swapped on even pages when the margins are mirrored |
| Rendering.MirroredBounds | src/Renderer.php:110-130 | even and odd pages have printable areas of the same size; mirrored, the even page's area is the odd page's reflected; otherwise they are equal |
| Rendering.CutAtLastBreakPrefix | src/Renderer.php:508-530 | cutting a text at its last word break gives a prefix of the text |
| Rendering.CutAtLastBreakIsLastBreak | src/Renderer.php:508-530 | the cut keeps everything up to and including the last break character, right-trimmed |
| Rendering.NoBreakKeepsText | src/Renderer.php:508-530 | a text without break characters cannot be cut at a word, so backing off to a word keeps the whole text |
| Rendering.WordBackOffPrefix | src/Renderer.php:508-530 | backing off to a word boundary gives a prefix of the text |
| Rendering.CutLength | src/Renderer.php:466-471 | truncating length times a factor below one shortens every non-empty text |
| Rendering.MulBelow | src/Renderer.php:470 | a length times a factor in (0, 1) is non-negative and, for a non-zero length, smaller than the length |
| Rendering.Renderer.constructor | src/Renderer.php:94-102 | a new renderer holds its measurements and one page format from page 0, is on page 0 of 0 pages, not counted, and has drawn nothing |
| Rendering.Renderer.SetPageFormat | src/Renderer.php:194-198 | the format is registered from the given page on, every other registration kept |
| Rendering.Renderer.SetPagesCounted | src/Renderer.php:250-254 | the pages-counted flag takes the given value |
| Rendering.Renderer.GetPageFormat | src/Renderer.php:205-215 | the format registered at the greatest start page not after the page |
| Rendering.Renderer.GetPaperSize | src/Renderer.php:139-164 | the paper size of the format governing the page (the current page for 0) |
| Rendering.Renderer.GetPageBounds | src/Renderer.php:110-130 | the printable area of the page under its governing format, which always exists |
| Rendering.Renderer.GetPrintableWidth | src/Renderer.php:172-175 | the paper width minus the left and right margins of the governing format |
| Rendering.Renderer.GetPrintableHeight | src/Renderer.php:183-186 | the paper height minus the top and bottom margins of the governing format |
| Rendering.Renderer.AddPage | src/Renderer.php:260-270 | one more page, counted in the total unless the pages were counted before, and one new-page event in the orientation and size of that page's format |
| Rendering.Renderer.CreateNewPDF | src/Renderer.php:276-294 | a new document on page 1, the total reset to 1 unless counted, and a new-document event followed by the first page |
| Rendering.Renderer.TrimText | src/Renderer.php:445-536 | the result is always a prefix of the text; no wrapping or an empty text is returned whole, a negative height gives the empty text, a text within the limits is kept, and otherwise the longest bisected prefix that fits is backed off to a word boundary |
| Rendering.Renderer.Bisect | src/Renderer.php:460-506 | a prefix found by bisection is shorter than the text and fits the width and height limits |
| Rendering.Renderer.BackOff | src/Renderer.php:508-530 | the loop that backs off to a word computes exactly the word back-off of the text |
| Rendering.Renderer.AddLine | src/Renderer.php:337-341 | exactly one line event is appended |
| Rendering.Renderer.AddRect | src/Renderer.php:349-354 | exactly one filled-rect event is appended |
| Rendering.Renderer.AddTextBlock | src/Renderer.php:549-559 | exactly one text-block event is appended |
| Rendering.Renderer.AddImage | src/Renderer.php:571-574 | exactly one image event is appended |
| Rendering.Renderer.AddBarCode | src/Renderer.php:586-589 | exactly one barcode event is appended |
| Rendering.Renderer.Draw | src/Renderer.php:337-589 | the events are appended in order |
| Rendering.Renderer.Output | src/Renderer.php:321-324 | exactly one output event with the file name and the action is appended |
| Rendering.ReplacePageVarsUnguarded | src/Renderer.php:302-311 | the occurrence checks change nothing: the page placeholder becomes the current page and then the total placeholder the total pages |
| Rendering.ReplacePageVarsPlain | src/Renderer.php:302-311 | a text with neither placeholder is returned unchanged |
| Rendering.NumberHasNoPlaceholder | src/Renderer.php:302-311 | a rendered page number cannot contain the total-pages placeholder, so the second replacement never touches the first one's digits |
| Rendering.PageVarReadsAsPage | src/Renderer.php:302-311 | the page placeholder alone becomes the current page number, which reads back as that number |
| Styles.TextStyle.constructor | src/TextStyle.php:153-169 | a new style has its name and base, sets no attribute of its own and holds the configured defaults (not bold, not italic, not underlined, size 9, Helvetica, black on white) |
| Styles.TextStyle.ResetToDefault | src/TextStyle.php:175-187 | a style with a base forgets every attribute it set and its size delta; a root style keeps them; the stored values stay |
| Styles.TextStyle.SetBold | src/TextStyle.php:221-225 | the style now sets bold itself, so it reads the given value; every other attribute stays |
| Styles.TextStyle.SetItalic | src/TextStyle.php:242-246 | the style now sets italic itself, so it reads the given value; every other attribute stays |
| Styles.TextStyle.SetUnderline | src/TextStyle.php:263-267 | the style now sets underline itself, so it reads the given value; every other attribute stays |
| Styles.TextStyle.SetSize | src/TextStyle.php:285-289 | the style now sets its size itself, so it reads the given size with no delta added; every other attribute stays |
| Styles.TextStyle.SetSizeDelta | src/TextStyle.php:303-306 | only the size delta changes |
| Styles.TextStyle.SetFontFamily | src/TextStyle.php:324-328 | the style now sets its font family itself, so it reads the given family; every other attribute stays |
| Styles.TextStyle.SetTextColor | src/TextStyle.php:346-350 | the style now sets its text colour itself, so it reads the given colour; every other attribute stays |
| Styles.TextStyle.SetBackgroundColor | src/TextStyle.php:368-372 | the style now sets its background colour itself, so it reads the given colour; every other attribute stays |
| Styles.Inheritance | src/TextStyle.php:209-362 | an attribute a derived style does not set is read from its base; an inherited size is the base's size plus the style's delta |
| Styles.RootDefaults | src/TextStyle.php:209-362 | a style without a base reads its own stored values, which for unset attributes are the configured defaults |
| Styles.TextStyles.constructor | src/TextStyles.php:69-73 | the registry starts without styles and not initialised |
| Styles.TextStyles.AddTextStyle | src/TextStyles.php:83-92 | a name already registered returns that style and changes nothing; a new name registers a fresh style on the given base that sets nothing of its own; before initialisation the registry is unusable |
| Styles.TextStyles.GetTextStyle | src/TextStyles.php:115-127 | the registry is initialised first if needed; a registered name returns its style; a new name is registered as a fresh style based on Normal that sets nothing of its own; on first use the registry then holds exactly the predefined styles and the name, Normal is returned as resetStyles defines it and a predefined name with its predefined variation |
| Styles.TextStyles.ResetStyles | src/TextStyles.php:133-233 | the registry holds exactly Normal and the predefined names, each a fresh style with its predefined variation |
| Styles.PredefinedStyles | src/TextStyles.php:135-232 | the predefined styles are exactly Normal and the derived names, each fresh and valid with its predefined variation of Normal |
| Styles.VariationLookups | src/TextStyles.php:133-233 | a predefined style reads size 9 plus its delta, its bold, italic and underline flags, Helvetica, black on white |
| Styles.Heading1IsEighteenPoints | src/TextStyles.php:133-233 | after a reset Heading1 is 18 points bold and TableRow is 8 points and not bold |
| TableRows.TextOf | src/TableRow.php:105-112 | the text stored for a column, or the empty text for a column the row has no data for |
| TableRows.TableRow.constructor | src/TableRow.php:92-98 | a new row of the given type has no data, no alignments and no join (both ends -1) |
| TableRows.TableRow.GetText | src/TableRow.php:105-112 | the text stored for a column, or the empty text |
| TableRows.TableRow.SetText | src/TableRow.php:120-124 | the column now reads the given text and every other column reads what it did |
| TableRows.TableRow.SetData | src/TableRow.php:141-145 | the row's data is replaced as a whole |
| TableRows.TableRow.SetRowType | src/TableRow.php:159-163 | the row type takes the given value |
| TableRows.TableRow.SetJoin | src/TableRow.php:177-199 | the join start and end take the given columns |
| TableRows.TableRow.SetHAlignment | src/TableRow.php:201-205 | the field's horizontal alignment now reads the given value (possibly none); the others stay |
| TableRows.TableRow.GetHAlignment | src/TableRow.php:207-210 | the alignment set for the field, or none |
| TableRows.TableRow.SetVAlignment | src/TableRow.php:212-216 | the field's vertical alignment now reads the given value (possibly none); the others stay |
| TableRows.TableRow.GetVAlignment | src/TableRow.php:218-221 | the alignment set for the field, or none |
| TableColumns.Select | src/TableColumn.php:622-648 | header, sub-total and total rows use their own styles and unknown types the detail style; a detail row or no row uses the header style in a header row, else the alternating or the detail style |
| TableColumns.LookOf | src/TableColumn.php:565-594 | a cell is drawn with the style's font, text colour and background colour |
| TableColumns.NewColumn | src/TableColumn.php:174-198 | a new column holds its name, title and width with its percent flag, no width in use yet, no sizing to contents or header, no line break, a solid right pen of the configured extent, the default alignments and paddings |
| TableColumns.CalcWidth | src/TableColumn.php:501-508 | only the width in use changes: a percentage of the table width, or the nominal width |
| TableColumns.GetString | src/TableColumn.php:602-612 | the title in a header row, the row's text for the column otherwise, and the empty text without a row |
| TableColumns.TypeOf | src/TableColumn.php:622-648 | no row has no type; a row has its own |
| TableColumns.GetTextStyle | src/TableColumn.php:622-648 | the column's style for the row's type and position |
| TableColumns.InnerBounds | src/TableColumn.php:565-567 | the cell rect inside the paddings, with the right pen taken off on the right |
| TableColumns.CellSize | src/TableColumn.php:570-579 | a measured cell is its text's size in the inner width plus the paddings and the right pen, its height capped at the row's maximum |
| TableColumns.CellPaint | src/TableColumn.php:580-592 | a painted cell fills its whole rect unless the background is white, then draws the text in the inner bounds, and its size is the size of the inner bounds |
| TableColumns.ContentWidth | src/TableColumn.php:531-542 | the widest measured detail cell of the column, never negative |
| TableColumns.SizeColumn | src/TableColumn.php:519-551 | the width in use becomes the wider of the header and the content width when that is positive and below the nominal width, and the nominal width otherwise, so it never exceeds the nominal width |
| TableColumns.DrawRightLine | src/TableColumn.php:658-664 | a zero-extent right pen draws nothing; otherwise one vertical line a pen's width left of x, over the given height, in the pen's style |
| Tables.NewTable | src/TableFrame.php:220-259 | a new table has no data, no columns and no width, the given styles and no alternating style, a repeated and not suppressed header, one data row required to fit, row heights 0 to 100 mm, the configured inner pens, no border, no column lines and one sub-row |
| Tables.Columns | src/TableFrame.php:818-825 | reading the columns before any column was added is an uninitialised-property error; otherwise the columns |
| Tables.AddColumn | src/TableFrame.php:569-613 | one column is appended, the others and the rest of the table stay; it holds the field, title and width, the alignment, the right padding plus the default, and the table's styles, the alternating style falling back to the detail style; the new number of columns is returned, as initColumn returns it |
| Tables.AddDataRow | src/TableFrame.php:581-585 | the row is appended to the data and its one-based number returned |
| Tables.TableReset | src/TableFrame.php:554-558 | a table reset also forgets that the header was sized |
| Tables.TableBeginPrint | src/TableFrame.php:1207-1216 | printing starts at the first data row when the header is suppressed or repeated and at the header row otherwise, with no data rows fitted yet |
| Tables.ValidHeight | src/TableFrame.php:893-910 | a row height is raised to the minimum and cut to the maximum of its kind of row |
| Tables.ValidHeightBounds | src/TableFrame.php:893-910 | with consistent limits the height lies between them, and limiting twice is limiting once |
| Tables.GetSubRowHeight | src/TableFrame.php:1112-1121 | the height saved for a sub-row, or 0 |
| Tables.SetSubRowHeight | src/TableFrame.php:1130-1138 | the sub-row's height is saved; every other row's heights and the row's other sub-rows stay |
| Tables.SubRowHeightRoundTrip | src/TableFrame.php:1112-1138 | after saving a height, reading that sub-row gives it and reading any other gives what it gave before |
| Tables.Breaks | src/TableFrame.php:780-811 | one break flag per column |
| Tables.BreaksFacts | src/TableFrame.php:780-811 | the widest sub-row never shrinks, the number of added sub-rows is the number of breaks, and the last column never breaks |
| Tables.SubRowsFit | src/TableFrame.php:780-811 | when every column fits the width, no sub-row is wider than the width |
| Tables.NoBreaksWhenAllFit | src/TableFrame.php:780-811 | when all columns fit side by side there is no break and the table is as wide as their sum |
| Tables.BreaksExample | src/TableFrame.php:780-811 | columns of 50, 30, 80, 50 and 30 mm in 180 mm break once after the third and the table is 160 mm wide |
| Tables.SubRowBreaks | src/TableFrame.php:782-806 | the column loop computes exactly the breaks, the widest sub-row and the added sub-rows of the specification |
| Tables.SubRowStep | src/TableFrame.php:786-806 | one column gets its width to use, adds it to the running width, and gets a line break exactly when the next column would overflow the width |
| Tables.CheckForSubRows | src/TableFrame.php:780-811 | without columns an uninitialised-property error; otherwise the columns get their widths and break flags, the sub-rows grow by the breaks and the width becomes the widest sub-row, nothing else changes |
| Tables.Factor | src/TableFrame.php:853-855 | the scale factor, cut to four decimals, scales the group to at most the width and by less than one ten-thousandth of the group below it |
| Tables.TailGroupFits | src/TableFrame.php:871-882 | the last group of columns scaled by its factor is at most the width and short of it by less than one ten-thousandth of the group |
| Tables.ClosedGroupFits | src/TableFrame.php:850-866 | a group closed by a line break, scaled by its factor, is at most the width and short of it by less than one ten-thousandth of the group |
| Tables.Adjust | src/TableFrame.php:833-885 | the scaled columns are as many as the given ones |
| Tables.AdjustWithoutBreaks | src/TableFrame.php:871-882 | without line breaks all columns form one group scaled to the width, or stay as they are when their widths sum to zero |
| Tables.AdjustAsWritten | src/TableFrame.php:858-864 | as written, scaling a closed group calls a method the column does not have, so it fails; when it succeeds it is the intended layout |
| Tables.AdjustAsWrittenFails | src/TableFrame.php:845-866 | as written, fitting fails exactly when some column with a line break closes a group of positive width |
| Tables.AdjustAsWrittenExample | src/TableFrame.php:845-866 | a 50 mm column with a line break followed by another column cannot be fitted to 100 mm |
| Tables.AdjustColumnsToWidthAsWritten | src/TableFrame.php:833-885 | no columns or no width leaves everything alone; otherwise it fails exactly as above and on success scales the columns to the width less the margins, which becomes the table width |
| Tables.AdjustColumnsToWidth | src/TableFrame.php:833-885 | the intended fitting: no columns or no width leaves everything alone; otherwise every group is scaled to the width less the margins, which becomes the table width, and no column is lost |
| TableLayout.ResizedShape | src/TableFrame.php:818-825 | resizing breaks the columns into sub-rows and, for a full-width table, fits them to the width less the margins; it fails exactly when that fitting reaches the missing column method; the data and the current row stay |
| TableLayout.ResizeColumns | src/TableFrame.php:818-825 | the method computes the resized table of the specification |
| TableLayout.HeaderSize | src/TableFrame.php:673-687 | the header row is as wide as the table and as tall as the measured header |
| TableLayout.CalcHeaderSize | src/TableFrame.php:622-634 | once initialised the header is not measured again; otherwise the columns are resized for the rect and the header row is measured at its top, its height and sub-row heights stored, which is the table `SizedHeader` describes; the errors are the missing columns and the missing column method; data, current row, fitted rows and row heights stay |
| TableLayout.MeasureHeader | src/TableFrame.php:627-632 | the header's height and sub-row heights are those of the header row laid out at the rect's corner |
| TableLayout.TableBounds | src/TableFrame.php:642-655 | the table's bounds are its size (or the header's width with the border and the full height) placed by the alignments and cut at the rect's right and bottom edges |
| TableLayout.SizePrintHeader | src/TableFrame.php:673-687 | a header that is not repeated always fits and takes no room; a repeated one fits exactly when its size fits, then takes its height from the top, and when printing draws the header row |
| TableLayout.MinRowsPolicy | src/TableFrame.php:733-745 | never more rows than fit; without a minimum or without rows left all fitting rows are kept |
| TableLayout.MinRowsTogether | src/TableFrame.php:733-745 | with a minimum and rows left, a page prints no rows or at least the minimum, leaves at least the minimum for later, and prints none exactly when too few fit or too few are left in total |
| TableLayout.DataRows | src/TableFrame.php:695-747 | every data row of the table is among the rows a page may change |
| TableLayout.FindDataRowsFit | src/TableFrame.php:695-747 | only the row heights and sub-row heights change; no more rows than remain are measured; the count is the minimum-rows policy applied to them; the rect's top moves down by their heights; with each row object in the table once, every height kept is its row's measurement where the rows before it end, except that the last is measured again without its row line where its successor did not fit, or is the whole rect for a forced row; the saved position is set only when no row fits, and a row is forced onto a page that starts above 40 mm at the saved position |
| TableLayout.MeasureRows | src/TableFrame.php:703-731 | the measuring loop: never past the last row, the top moves by the heights measured, with each row object once the heights are the rows' measurements as above (read from the rows before any of them is measured), the saved position changes only when nothing fits, and the forced row of a page that starts again at the saved position |
| TableLayout.MeasuresOf | src/TableFrame.php:705 | the first and second measurement functions give exactly the height of the row laid out for sizing from its snapshot, the second after its joined texts were cleared |
| TableLayout.MeasurePage | src/TableFrame.php:703-731 | the loop against arbitrary measurement functions: the heights kept are those the page specification gives for them, with the same bounds and saved-position rules |
| TableLayout.FitRows | src/TableFrame.php:703-712 | the rows that fit are taken in turn, each at its first measurement where the rows before it end; the loop stops at the first row that does not fit, or at the end of the table, and every row taken has its joined texts cleared |
| TableLayout.Overflow | src/TableFrame.php:713-729 | the row that did not fit: with rows on the page the last is measured again, with none a row is forced at the saved position above 40 or the position is saved; the heights kept are those of the page specification |
| TableLayout.RemeasureLast | src/TableFrame.php:714-718 | the last row kept is measured again where the next would start, without its row line, and the top moves by the difference |
| TableLayout.MeasureRow | src/TableFrame.php:705 | measuring a row gives the sizing height of its context before the call and clears its joined texts; the styles stay |
| TableLayout.MeasureFirst | src/TableFrame.php:705 | a row measured the first time has its first measurement; the later rows still read as they did, and every row measured so far has its texts cleared |
| TableLayout.MeasureOnce | src/TableFrame.php:705 | the first measurement of one row leaves every other row as it was; the later rows still read as their snapshots |
| TableLayout.MeasureAt | src/TableFrame.php:705 | the first measurement of one row, with its row line unless it is the last row, is what the first measurement function says and clears its joined texts |
| TableLayout.MeasureAgain | src/TableFrame.php:714 | a row measured again without its row line has its second measurement |
| TableLayout.PlacedContext | src/TableFrame.php:924-935 | a row that has not been measured starts from its snapshot with the position and row line of the call |
| TableLayout.SecondContext | src/TableFrame.php:924-935 | a row measured once already starts from its snapshot with the joined texts cleared |
| TableLayout.JoinClearedAnywhere | src/TableFrame.php:957-966 | the texts a join clears do not depend on where the row is laid out |
| TableLayout.FitsAppended | src/TableFrame.php:707-711 | a row that fits where the others end extends the rows that fit, and the top moves down by its height |
| TableLayout.FirstAppended | src/TableFrame.php:707-711 | a row taken at its first measurement extends the first measurements |
| TableLayout.AllRowsFit | src/TableFrame.php:703-711 | when every row fits and the table ends, the heights kept are the rows' first measurements |
| TableLayout.Remeasured | src/TableFrame.php:713-718 | replacing the last height by the row's second measurement where the next row did not fit gives the page specification |
| TableLayout.ForcedRow | src/TableFrame.php:720-725 | a first row that does not fit on a page starting again at the saved position above 40 is given the whole height of the rect |
| TableLayout.NoRowFits | src/TableFrame.php:726-728 | a first row that does not fit otherwise leaves the page without rows |
| TableLayout.PrintRow | src/TableFrame.php:764-771 | printing a row draws exactly the events of the row laid out at its height and keeps the sub-row heights |
| TableLayout.PrintRows | src/TableFrame.php:764-771 | the current row advances by the rows that fit, the rect's top moves down by their heights and, with each row object once, the events are those of the rows as they stood, each laid out at its recorded height below the rows before it |
| TableLayout.PrintPageRows | src/TableFrame.php:764-771 | the loop ends at the row after the rows that fit, with the top moved down by their heights and, with each row object once, the events of the rows as they stood |
| TableLayout.PrintPage | src/TableFrame.php:766-770 | the printing loop against an arbitrary row-drawing function: it ends at the row after the rows that fit and at the top below them, and the events are the rows drawn one after another, each at its recorded height and where the heights before it end |
| TableLayout.PrintNext | src/TableFrame.php:766-770 | one pass of the loop: the row is drawn at its recorded height below the rows before it, the top moves down by that height, and the later rows still read as they did |
| TableLayout.PrintsOf | src/TableFrame.php:768 | the row-drawing function is exactly the printed layout of a row from its snapshot |
| TableLayout.StackedStep | src/TableFrame.php:766-770 | drawing one more row at the next height below the others extends the page's row events by that row's events |
| TableLayout.PrintedRowLayout | src/TableFrame.php:768 | a row that reads as its snapshot prints the snapshot's layout |
| TableLayout.PrintAt | src/TableFrame.php:768 | printing one row draws what the row-drawing function gives for it and leaves the later rows as they were |
| TableLayout.PrintHere | src/TableFrame.php:768 | printing one row that reads as its snapshot draws what the row-drawing function gives for it |
| TableLayout.RowSeparatorsGeometry | src/TableFrame.php:1035-1079 | with a zero-extent row pen no separator is drawn; otherwise one horizontal line per row, across the table, half the pen above the row's lower edge |
| TableLayout.PrintAllRowLines | src/TableFrame.php:1064-1079 | the loop draws exactly the row lines of the page |
| TableLayout.ColumnSeparatorsGeometry | src/TableFrame.php:1087-1104 | at most one vertical line per column, each over the full height, and none when no column has a right pen |
| TableLayout.PrintAllColumnLines | src/TableFrame.php:1087-1104 | the loop draws exactly the column lines of the page |
| TableLayout.CalcDecisionCases | src/TableFrame.php:1155-1174 | a header that does not fit gives no fit and continues; a table without rows fits; one with rows on the page fits and continues exactly when rows remain; one with none continues and fits only without a minimum; a table that fits and does not continue has no rows left |
| TableLayout.TableCalcSize | src/TableFrame.php:1146-1179 | the missing columns and the missing column method are the only errors; on success the header is sized, data, current row, minimum and border stay, and the result is the page decision with the size of the table's page plus the border; it fails exactly when sizing the header on entry fails, and on success the table is that sized header with only the page's fields (row heights, sub-row heights, fitted count, page height) changed, as `BelowHeader` states |
| TableLayout.SizePage | src/TableFrame.php:1152-1176 | the page is laid out as the decision says, changing only the row heights, the fitted count and the height of the page; a header that does not fit changes nothing |
| TableLayout.TablePrint | src/TableFrame.php:1187-1199 | without columns nothing is drawn; otherwise the current row advances by the rows that fit and the drawing ends with the row and column lines and the border of the table's bounds; with each row object once, the drawing is the repeated header, the rows that fit below it at their recorded heights and those lines, in that order |
| TableLayout.PrintTable | src/TableFrame.php:1189-1198 | the page of a table with columns: header, rows and lines, as for the print above |
| TableLayout.RowsRect | src/TableFrame.php:1192-1193 | the rows start at the left of the inner rect, below a repeated header that fits |
| TableLayout.RowsDecision | src/TableFrame.php:1158-1170 | the decision computed once the header fits is the specified one |
| TableLayout.SizeRows | src/TableFrame.php:1156-1176 | sizing the rows of a page whose header fits gives the page specification, changing only the row heights, the fitted count and the page height |
| TableLayout.PrintLines | src/TableFrame.php:1195-1198 | the lines and the border drawn at the end of a page are exactly those of the specification |
| TablePaging.RowLinePen | src/TableFrame.php:1037-1044 | a header row uses the header-bottom pen, a total line the total-top pen and any other row the row pen |
| TablePaging.RowLine | src/TableFrame.php:1035-1055 | a zero-extent pen takes no height and draws nothing; any other takes its extent and, when printing, draws one horizontal line of the given length half the pen above y |
| TablePaging.JoinLast | src/TableFrame.php:957-966 | the last joined column is the join end when it is a column, else the last column, and never before the start |
| TablePaging.ClearedTexts | src/TableFrame.php:957-966 | after a join the texts of the joined columns after the first are empty and every other text is kept |
| TablePaging.Cell | src/TableColumn.php:565-594 | a cell measured draws nothing and has its measured size; a cell printed paints itself |
| TablePaging.JoinCell | src/TableFrame.php:950-968 | the first cell of a join is as wide as the nominal widths of the joined columns together, and the texts of the other joined columns are cleared |
| TablePaging.LayOutColumn | src/TableFrame.php:944-994 | one pass of the column loop does exactly the specified step: the cell is sized or painted, the sub-row advances at a line break, and the row's texts are those after this column |
| TablePaging.FinishRow | src/TableFrame.php:995-1020 | the end of the row adds the last sub-row (saving its height when measuring several), the row line, the inter-row space and the lines and margin of sub-total and total rows, exactly as specified |
| TablePaging.PassColumns | src/TableFrame.php:944-994 | the loop over the columns computes exactly the specified pass and leaves the row's texts as after the last column |
| TablePaging.SizePrintRow | src/TableFrame.php:924-1022 | the row's height, saved sub-row heights and drawing are exactly the specified layout of the row, and its joined texts are cleared |
| TablePaging.CellAdvanceModes | src/TableFrame.php:971-992 | measuring a cell draws nothing and printing one saves no sub-row height |
| TablePaging.PassModes | src/TableFrame.php:944-994 | a whole measuring pass draws nothing and a whole printing pass saves no sub-row height |
| TablePaging.SizingDrawsNothing | src/TableFrame.php:924-1022 | measuring a row draws nothing, its lines included |
| TablePaging.PrintingKeepsSubRowHeights | src/TableFrame.php:924-1022 | printing a row leaves the saved sub-row heights as they were |
| TablePaging.PassSubRows | src/TableFrame.php:979-990 | a measuring pass saves a height for every sub-row it closes |
| TablePaging.CellIgnoresSavedHeights | src/TableColumn.php:565-594 | a cell measured for sizing does not depend on the sub-row heights saved before it |
| TablePaging.PassIgnoresSavedHeights | src/TableFrame.php:944-994 | a measuring pass over the columns does not depend on the sub-row heights saved before it, apart from the heights it saves |
| TablePaging.RowEndIgnoresSavedHeights | src/TableFrame.php:995-1020 | the height at the end of a row does not depend on the sub-row heights saved before it |
| TablePaging.SizedRowLayout | src/TableFrame.php:924-1022 | a row measured for sizing at the maximum detail height has the sizing height of its context, whatever sub-row heights were saved before |
| TablePaging.SubRowHeightsAddUp | src/TableFrame.php:995-1000 | a measured row of several sub-rows is as tall as the sum of its saved sub-row heights plus its lines and spacing |
| TablePaging.LastSubRowHeight | src/TableFrame.php:995-1000 | otherwise the row's height is only its last sub-row's height plus its lines and spacing |
| TablePaging.JoinedTextsCleared | src/TableFrame.php:957-966 | after the pass, exactly the texts of the columns joined after the first are empty |
| Texts.NewText | src/TextFrame.php:98-113 | a new text holds its text and style, a minimum width of 1 mm, wraps, has no colour of its own and starts at the first character with nothing fitted |
| Texts.TextColorOf | src/TextFrame.php:184-192 | the text's own colour once one was set, the style's colour otherwise |
| Texts.Suffix | src/TextFrame.php:210 | `substr` from an index: the rest of the text, empty past its end |
| Texts.Prefix | src/TextFrame.php:444 | `substr` from the start: a prefix of the requested length, or the whole text |
| Texts.PlainTextToPrint | src/TextFrame.php:208-216 | the whole text on the first pass; on later passes the rest from the index with leading whitespace stripped |
| Texts.TextToPrint | src/TextFrame.php:208-216 | the rest of the text from the index with the page placeholders replaced, left-trimmed after the first pass |
| Texts.TextToPrintPlain | src/TextFrame.php:208-216 | without placeholders the text to print is the plain rest, and the bytes skipped are exactly the stripped whitespace |
| Texts.Origin | src/TextFrame.php:222-236 | a centred or middle-aligned text has no fixed corner; otherwise the corner's bit 0 says right-aligned and bit 1 bottom-aligned |
| Texts.Point | src/TextFrame.php:244-261 | corners 0 to 3 are top-left, top-right, bottom-left and bottom-right |
| Texts.MustResize | src/TextFrame.php:269-285 | a text keeps its size exactly when it has a fixed corner, that corner is the same in both rects and its required size fits the new rect |
| Texts.CentredTextAlwaysResizes | src/TextFrame.php:269-285 | a centred or middle-aligned text is always sized again when its rect changes |
| Texts.TopLeftTextKeepsSize | src/TextFrame.php:269-285 | a top-left text whose corner stays and whose size still fits is not sized again |
| Texts.LayoutFitsTolerance | src/TextFrame.php:292-301 | comparing at three decimals: a layout clearly tall and wide enough fits, one clearly too short or too narrow does not |
| Texts.Explode | src/TextFrame.php:334 | `explode("\n")` gives at least one line and no line holds a newline |
| Texts.ImplodeExplode | src/TextFrame.php:334-349 | joining the lines with newlines gives the text back |
| Texts.GlueAllIsImplode | src/TextFrame.php:344-347 | the loop that glues the lines equals joining them with newlines when the first line is not empty |
| Texts.GlueDropsLeadingNewline | src/TextFrame.php:344-347 | as written, an empty first line loses its newline: the text "\nab" is glued back as "ab" |
| Texts.LongestFitUnique | src/TextFrame.php:338-342 | the longest prefix of a line that fits the width is unique |
| Texts.ChopLine | src/TextFrame.php:336-342 | cutting characters off a line until it fits gives its longest fitting prefix; the loop only fails to end when not even the empty line fits |
| Texts.ChopLines | src/TextFrame.php:333-349 | every line is cut to its longest fitting prefix and the lines are glued back in order |
| Texts.SetTextSize | src/TextFrame.php:310-400 | only the text to print, the characters fitted and the layout change; a wrapping text is cut, never rewritten; an unwrapped text fits whole; a keep-together text that would be split fits nowhere and prints nothing; a fitting text continues exactly when characters remain, and requires its layout, which stays within the rect |
| Texts.TextCalcSize | src/TextFrame.php:408-421 | a layout too small for one line of the font does not fit and continues; otherwise the text to print is the rest of the text, the skipped whitespace is recorded and the result is as in setTextSize; `PassSized` states the new text state and the size state for both cases |
| Texts.TextBeginPrint | src/TextFrame.php:456-459 | beginning a print starts the text again at its first character |
| Texts.PrintLayout | src/TextFrame.php:429-442 | on a white background the layout is kept; otherwise the layout, and with it the background rect, spans the rect's full width or height where the frame uses it, the right and bottom edges taken from the rect's width and height as written |
| Texts.PrintedText | src/TextFrame.php:444 | the text of the pass is the prefix of the text to print of the fitted length |
| Texts.NextIndex | src/TextFrame.php:447 | the next pass starts after the stripped whitespace and the printed characters |
| Texts.TextPrint | src/TextFrame.php:429-448 | the background (unless white) and then the text of the pass are drawn in the layout in the effective colour; the next pass starts after the stripped whitespace and the printed bytes, the corrected advance of the Findings row |
| Texts.TextPrintAdvance | src/TextFrame.php:447 | the advance used differs from the library's `charIndex += charsFitted` by exactly the whitespace stripped before the pass, and agrees with it when none was stripped |
| Texts.NextIndexAsWrittenRepeats | src/TextFrame.php:447 | as written, after "def" of "abc def ghi" is printed on the second pass, the third pass starts at "f ghi" and repeats a character; the corrected index starts at "ghi" |
| Texts.SecondPass | src/TextFrame.php:208-216 | the second pass of "abc def ghi" after three characters prints from "def ghi" |
| Texts.AsWrittenThirdPass | src/TextFrame.php:208-216 | the rest of "abc def ghi" from index 6 is "f ghi" |
| Texts.CorrectedThirdPass | src/TextFrame.php:208-216 | the rest of "abc def ghi" from index 7 is "ghi" |
| Texts.NextIndexTiles | src/TextFrame.php:208-216 | the corrected index is right: the characters printed on a pass are exactly the text's characters after the skipped whitespace, so consecutive passes tile the text |
| Frames.NodeSize | src/LineFrame.php:305-323 | the size a container reads from a child: a line's length and pen extent, every other frame's stored size |
| Frames.UnsizedStays | src/ContainerFrame.php:404-417 | once a subtree is unsized, further steps that only ever clear sized flags keep it unsized |
| Frames.ClearedStays | src/ContainerFrame.php:442-448 | once a subtree is fully reset, further steps that only ever reset frames keep it reset |
| Frames.OnlyUnsizedTrans | src/ContainerFrame.php:404-417 | two steps that each only clear sized flags compose into one such step |
| Frames.OnlyClearedTrans | src/ContainerFrame.php:442-448 | two steps that each only reset frames compose into one such step |
| Frames.BeginNode | src/ReportFrame.php:491-497 | starting to print happens once: a started frame is returned unchanged; otherwise it is marked started, a serial container's cursor goes to 0, a text starts at character 0, a page break is armed, a table is left valid, and it fails exactly for an unstarted image whose file is missing (ImageMissing) or unreadable (ImageInvalid) |
| Frames.StartNode | src/ReportFrame.php:491-497 | a frame not yet started is marked started and reset by its kind: a serial container's cursor and a text's character go to 0, a page break is armed, a table is left valid; only an image whose file is missing or unreadable fails |
| Frames.BeginOnce | src/ReportFrame.php:491-497 | beginning twice is the same as beginning once, and a full reset undoes the started flag |
| Frames.MeasureLeaf | src/ReportFrame.php:506-537 | a leaf's measurement keeps its kind, base and cursor; only images and barcodes can fail; a line is measured by its own rule; a page break always fits and is the only leaf that registers a page format, for the following page |
| Frames.RectChanged | src/TextFrame.php:269-285 | the re-measurement when the printing rect differs from the sizing rect: a text frame is marked for resizing exactly when its alignment corner moved or its required size no longer fits, other frames reuse their stored state, only images and barcodes can fail |
| Frames.SerialPrintRect | src/SerialFrame.php:206-217 | a serial container prints from its rect's top-left corner, full width and height or only its required ones |
| Frames.MaxSize | src/FixposFrame.php:163-164 | the component-wise larger of two sizes |
| Frames.Advance | src/SerialFrame.php:88-103 | placing one frame: vertical stacking moves the top down by its height, adds the height and widens to the widest; horizontal moves the left edge and adds the width; any other direction changes nothing |
| Frames.AdvancePlaced | src/SerialFrame.php:128-160 | advancing past one more frame with the right edge temporarily pulled in by the right-aligned tail gives the same rect and sizes as advancing over the whole list at once |
| Frames.AdvanceAllVertical | src/SerialFrame.php:88-103 | a vertical run of frames ends with its top moved by the sum of their heights, requires that sum as height and is at least as wide as each of them |
| Frames.AdvanceAllHorizontal | src/SerialFrame.php:88-103 | a horizontal run ends with its left edge moved by the sum of their widths, requires that sum as width and is at least as high as each of them |
| Frames.FixposWiden | src/FixposFrame.php:182-188 | a fixed-position frame's required size grows by how far its offsets lie past the rect's top-left corner, and never shrinks |
| Frames.FixposProbeSwapped | src/FixposFrame.php:145-147 | a frame at offsets (25, 15) in a printable area starting at (20, 10) lies inside it, yet the written probe, which compares the top offset with the left edge, refuses it |
| Frames.ProbesAgreeOnDiagonal | src/FixposFrame.php:145-147 | with equal left and top margins and equal offsets, the written and the intended probe give the same answer |
| Frames.Layout.constructor | src/ContainerFrame.php:61-67 | an empty frame store: no frames, no children, no parents, no saved table position |
| Frames.Layout.NewFrame | src/ContainerFrame.php:75-392 | a new frame is appended at the next index with no children and no parent; nothing else changes |
| Frames.Layout.AddFrame | src/ContainerFrame.php:455-460 | a child is appended to a container, becomes its child's parent and the new count is returned; a box instead replaces its children by the new one and returns 1 (src/BoxFrame.php:189-196) |
| Frames.Layout.RemoveFrame | src/ContainerFrame.php:467-474 | an index inside the list removes that child and closes the gap; any other index changes nothing |
| Frames.Layout.ClearFrames | src/ContainerFrame.php:502-506 | the container has no children afterwards; nothing else changes |
| Frames.Layout.GetFrame | src/ContainerFrame.php:481-487 | a child exactly for an index inside the list, and then the child at that position |
| Frames.Layout.CurrentFrame | src/ContainerFrame.php:512-519 | the child under the cursor exactly while the cursor is inside the list |
| Frames.Layout.ParentBounds | src/BoxFrame.php:401-405 | the parent's sizing bounds exactly when the frame has a parent |
| Frames.Layout.RepeatIsEndless | src/ContainerFrame.php:424-436 | a child already on the path, or repeated later in the same list, makes the cycle check answer true |
| Frames.Layout.DuplicateChildIsEndless | src/ContainerFrame.php:424-436 | a container holding the same child twice is reported endless |
| Frames.Layout.SelfContainingIsEndless | src/ContainerFrame.php:424-436 | a container holding itself is reported endless |
| Frames.Layout.SelfEndlessFrom | src/ContainerFrame.php:424-436 | the check still finds a container's self-reference after earlier children that are all already on the path |
| Frames.Layout.SetNode | src/ReportFrame.php:610-636 | one frame's state is replaced by a state of the same kind; every other frame is unchanged |
| Frames.Layout.BeginPrint | src/ReportFrame.php:491-497 | the frame's state becomes BeginNode's result and its error is reported; nothing else changes |
| Frames.Layout.ResetSize | src/ContainerFrame.php:404-417 | only sized flags are cleared: the frame itself, with keepTogether its whole subtree, otherwise the child under the old cursor |
| Frames.Layout.ResetAllChildren | src/ContainerFrame.php:408-411 | with keepTogether every child, and the subtree below each, must be sized again; only sized flags change |
| Frames.Layout.ResetChildSize | src/ContainerFrame.php:409-410 | one more child's subtree must be sized again and the children done before keep theirs unsized |
| Frames.Layout.ResetCurrentChild | src/ContainerFrame.php:412-416 | without keepTogether only the child under the cursor must be sized again |
| Frames.Layout.Reset | src/ContainerFrame.php:442-448 | the whole subtree is returned to its unstarted, unsized state, and nothing but frame resets happens |
| Frames.Layout.ResetChild | src/ContainerFrame.php:445-447 | one more child's subtree is reset and the children done before stay reset |
| Frames.Layout.CalcSize | src/ReportFrame.php:506-537 | sizing draws nothing; a frame already started and sized is left alone; after success the frame is sized within the rect it was given |
| Frames.Layout.DoCalcSize | src/ReportFrame.php:659 | the per-kind sizing dispatch draws nothing and keeps the store and the renderer valid |
| Frames.Layout.LeafCalcSize | src/ReportFrame.php:506-537 | a leaf's sizing changes only that leaf, exactly as MeasureLeaf says: its error is reported, a page break registers its page format, only a table touches the saved table position, a text fails only on fuel or divergence and a table only on missing columns or the width adjustment |
| Frames.Layout.MeasuredCalcSize | src/BreakFrame.php:101-133 | a line, image, barcode or page break is sized exactly as MeasureLeaf says; only the page break registers a page format, and a failure changes nothing |
| Frames.Layout.TextLeafCalcSize | src/TextFrame.php:408-427 | sizing a text changes only that text frame and fails only on fuel or divergence; a layout too small for one line is done, and when done the frame's new text state and the returned size state are those `Texts.PassSized` gives for the frame and its font on entry |
| Frames.Layout.TableLeafCalcSize | src/TableFrame.php:1146-1185 | sizing a table changes only that table frame and the saved table position, and fails only on missing columns or the width adjustment; without columns it fails with the uninitialised-columns error; it fails exactly when sizing the header on entry fails, and when done the frame's table and the size state are those `TableLayout.BelowHeader` relates to that header |
| Frames.Layout.FinishSize | src/ReportFrame.php:510-535 | a sized frame fits when its content fits and it is not a kept-together frame that would continue; it fails with TooBigKeepTogether or NoSpaceLeft and is then unchanged |
| Frames.Layout.SizePrintFrames | src/SerialFrame.php:114-187 | a serial container's pass: sizing only draws nothing; it continues exactly when it stops before the last child; its cursor moves only when advancing; it fits exactly when a child was placed or nothing was left; its required size is the advance over the placed children, and with separate children those are the sizes the children from the old cursor on end up with, in order; only frames below the container change |
| Frames.Layout.Walk | src/SerialFrame.php:123-167 | the loop over children only moves the cursor forward, stays put when nothing was placed and requires the advance over the placed children; with separate children the placed sizes are those of the children from the cursor on, one per placed child |
| Frames.Layout.WalkStep | src/SerialFrame.php:138-148 | a child that fits adds its own computed size to the placed children and reports its own continuation; the rect and required size are the advance over all placed children; otherwise nothing is added; with separate children the sizes placed before stay the ones their children have |
| Frames.Layout.PlaceNext | src/SerialFrame.php:126-150 | a right-aligned child in a horizontal container reserves the sum of the widths the children after it are sized to (when they are separate); any other child reserves nothing; a child that fits yields its own size and continuation; only the children from this one on change |
| Frames.Layout.RightDelta | src/SerialFrame.php:128-138 | measuring the tail draws nothing; a tail beyond the list is empty; otherwise, for separate children, the delta is the sum of the widths the tail's children are sized to; only the tail changes |
| Frames.Layout.PlaceChild | src/SerialFrame.php:140-166 | a child that fits reports its size and continuation; one that does not is unsized and draws nothing |
| Frames.Layout.BoxCalcSize | src/BoxFrame.php:357-385 | a box needs its border rect; one taller than the space given does not fit and continues; an empty box is exactly the value-level box sizing; a box whose current child does not reach back to it is laid out (as `Boxes.BoxCalcSize`) around that child's computed size, fits and continuation |
| Frames.Layout.BoxChild | src/BoxFrame.php:365-372 | a box without a current child sizes nothing and changes nothing; otherwise the child is sized in the content rect and its computed size, fits and continuation are returned; the box itself is untouched when the child does not reach back to it |
| Frames.Layout.FixposCalcSize | src/FixposFrame.php:133-192 | an empty fixed frame fits with only its offsets; a non-overlay one outside the printable area by the written probe fails; one starting before the rect does not fit and needs nothing; an overlay never continues; a fitting one covers its offsets; with separate children it requires the largest of their computed sizes widened to its offsets, and continues exactly when it is not an overlay and a child continues |
| Frames.Layout.PageCalcSize | src/PageFrame.php:105-134 | a page frame with no children or not shown on this page needs nothing and fits; a shown one always fits; with separate children it requires the largest of their computed sizes and continues exactly when a child does |
| Frames.Layout.SizeChildren | src/PageFrame.php:118-131 | the children are sized one after the other; the result is never negative and never continues unless allowed; with separate children the frame itself is untouched, the required size is the largest of the children's computed sizes and it continues exactly when allowed and a child continues |
| Frames.Layout.SizeChild | src/FixposFrame.php:163-179 | one child is sized, changing only frames below it; the required size grows to hold its computed size and a continued child sets the continuation to the allowed value |
| Frames.MaxAllBounds | src/FixposFrame.php:168-169 | the running maximum of the children's sizes holds each of them, and each of its extents is one of theirs or zero |
| Frames.Layout.MeasureTail | src/SerialFrame.php:130-134 | one frame of the tail is sized and, for separate children, its computed width is added to the sum over the tail so far |
| Frames.Layout.Print | src/ReportFrame.php:546-561 | a printed frame is unsized afterwards, and a kept-together one with its whole subtree |
| Frames.Layout.Replace | src/ReportFrame.php:548-554 | an unsized frame, or one printed into its sizing bounds, is left alone; otherwise only that frame is re-measured, keeping its cursor, and only an image or a barcode can fail |
| Frames.Layout.DoPrint | src/ReportFrame.php:667 | the per-kind printing dispatch only appends to the drawing log and keeps the store and the renderer valid |
| Frames.Layout.LeafPrint | src/TextFrame.php:429-454 | a leaf draws exactly its own events: a text its printed lines and advances its index, a line, image or barcode its shapes, a page break nothing, a table its rows and moves its row index by the rows that fit, failing when it has no columns |
| Frames.Layout.TextLeafPrint | src/TextFrame.php:429-454 | a text draws exactly what TextPrint gives for its style and colours, and its frame moves on to the next pass with TextPrint's corrected advance |
| Frames.Layout.TableLeafPrint | src/TableFrame.php:1187-1199 | a table without columns fails and draws nothing; otherwise its row index moves past the rows that fit and, with each row object once, the renderer's log grows by exactly the table's page: header, rows and lines |
| Frames.Layout.BoxPrint | src/BoxFrame.php:542-552 | a box draws its background and border first; an empty box draws only them |
| Frames.Layout.FixposPrint | src/FixposFrame.php:200-221 | an empty fixed frame draws nothing and changes nothing; with separate children the frame ends marked continued as "not an overlay" exactly when one of its children ends continued, and is otherwise unchanged |
| Frames.Layout.FixposChildPrint | src/FixposFrame.php:210-219 | one child is sized and printed at the fixed offset, changing only frames below it; when it continued, the frame is then marked continued as "not an overlay"; nothing else changes |
| Frames.Layout.PagePrint | src/PageFrame.php:142-162 | a page frame with no children or not shown on this page draws nothing and changes nothing; a shown one with separate children ends marked continued exactly when one of its children ends continued, and is otherwise unchanged |
| Frames.Layout.PageChildPrint | src/PageFrame.php:154-161 | one child is printed, changing only frames below it; when it continued, the page frame is then marked continued; nothing else changes |
| Reports.Report.constructor | src/Report.php:99-112 | a report owns a fresh renderer with the given page format for page 0 and an empty log, and three empty vertical containers: the body, a top-aligned header and a bottom-aligned footer, without height limits and without page counting |
| Reports.Report.SelfContainingReport | src/Report.php:134-144 | a header, footer or body that contains itself makes the report endless |
| Reports.Report.Output | src/Report.php:121-127 | an endless report fails with EndlessRecursion before anything is drawn or changed; a printed report ends on page 1 or later and, given a file name, its last event is the output call |
| Reports.Report.PrintReport | src/Report.php:204-213 | the document is begun, pages are printed while the body continues, the page count is returned, a named file is the last event and, with page counting on, the pages are counted |
| Reports.Report.OnBeginPrint | src/Report.php:220-225 | a new document is started on page 1, the page count is marked stale, the page formats are kept and every frame of the three containers is reset |
| Reports.Report.ResetAll | src/Report.php:232-237 | body, header and footer are reset with their whole subtrees, and nothing but resets happens |
| Reports.Report.PrintAPage | src/Report.php:244-284 | the body is printed between the header's and the footer's heights; an empty header or footer takes no room; another page follows exactly when the body is non-empty and continues |
| Reports.Report.PrintInBounds | src/Report.php:248-283 | within given page bounds, the body gets what the header's and footer's heights leave; an empty header or footer takes no room |
| Reports.Report.PrintBody | src/Report.php:276-281 | another page follows exactly when the body has frames and is continued |
| Reports.Report.PrintHeader | src/Report.php:248-258 | an empty header draws nothing and takes no height; otherwise it takes the height of its stored size and its whole subtree is reset afterwards |
| Reports.Report.PrintFooter | src/Report.php:260-274 | an empty footer draws nothing and takes no height; otherwise it takes the height of its stored size and its whole subtree is reset afterwards |
| Reports.Report.CountPages | src/Report.php:292-311 | without page counting nothing happens and 0 is returned; counted pages are returned unchanged; otherwise the pages are printed once in advance, the total grows by the pages passed, the count is marked done and printing restarts on page 1: the counting pass is thrown away with a new document and a new page in page 1's format, and every frame is reset |
| Reports.Report.OnPrintPage | src/Report.php:319-331 | one page is printed, after counting the pages first when that is due, and the page number moves on exactly when more pages follow |
| Reports.Report.OnEndPrint | src/Report.php:340-345 | a non-empty file name appends exactly one output event; an empty one appends nothing |

## Left out

- TCPDF drawing and measurement (`calcTextSize`, `getFontHeight`, `GetStringWidth`, the page-size table, `addLine`, `addRect`, `addTextBlock`, `addImage`, `addBarCode`, `output`, the PDF set-up in `createNewPDF`): measurement is a parameter (`Canvas.Metrics`) and drawing is an append-only event log. What TCPDF does with the events is not modelled.
- The file system in the image frame's begin-print (`file_exists`, `getimagesize`): its answer is the `Canvas.ImageProbe` parameter.
- IEEE floating point: millimetre values are `real`. `round(x, 2)` and `round(x, 3)` are modelled exactly (`Wrappers.Round2`, `Wrappers.Round3`). Exact float comparisons become exact real equality.
- Termination: the recursion over the frame tree carries a depth bound `fuel`, the page loops a bound `pageFuel`, and the `trimText` bisection a bound of 64 steps (`Frames.TrimFuel`). Running out gives the error `OutOfFuel`; the library itself would loop forever on a cyclic tree, which `isEndless` is there to prevent.
- Factory and builder helpers (`AddVContainer` … `AddPageFrame`, src/ContainerFrame.php:75-397) and plain getters and setters: frames are created with `Frames.Layout.NewFrame` from a complete state. The image and barcode constructors' maximal extents are the frame base's `maxWidth` and `maxHeight`, given in that state.
- `getColorByName` and TCPDF's colour table: not part of this model.
- State after an exception: a failing operation reports its error, and the model says nothing more about a frame tree that the library would abandon.
- Aliasing of pens through their getters: pens and borders are values, so a pen changed after it was handed to a border does not change the border.
- Frames.Layout.Print: does not promise that a frame which does not fit draws nothing, because in a tree with a cycle the same frame can be reached again from its own children.
- Frames.Layout.Walk: does not relate the resume index to the placed children's continuation; the cursor, whether a child was placed and the required size are stated, and the placed sizes are the children's own under `Frames.Separate`.
- Frames.Layout.SizePrintFrames: the placed children's sizes are stated only when their subtrees are disjoint and do not reach the container (`Frames.Separate`); for shared subtrees only the footprint is stated.
- Frames.Layout.WalkStep: the sizes placed before are kept only under `Frames.Separate`; the child's own size and continuation are stated in every case.
- Frames.Layout.PlaceNext: the reserved delta is tied to the following children's widths only under `Frames.Separate`; the narrowed rect the child is placed in is not stated.
- Frames.Layout.RightDelta: the delta is the sum of the tail's widths only under `Frames.Separate`; for shared subtrees a later child can change an earlier one's size, and only the footprint is stated.
- Frames.Layout.BoxCalcSize: the result is tied to the child's size only when the child does not reach back to the box and the box is not its own parent; the content rect the child is sized in is not stated.
- Frames.Layout.FixposCalcSize: the largest child size and the continuation are stated only under `Frames.Separate`; the rect the children are sized in (from the offsets, out to the paper's edges for an overlay) is not stated.
- Frames.Layout.PageCalcSize: the largest child size and the continuation are stated only under `Frames.Separate`; the rect the children are sized in is not stated.
- Frames.Layout.FixposPrint: the frame's continued flag is tied to its children only under `Frames.Separate`; the rect the children are printed in is not stated.
- Frames.Layout.PagePrint: the frame's continued flag is tied to its children only under `Frames.Separate`; the rect cut to the required width unless the frame uses the full width is modelled but not stated, since it shows only in what the children draw.
- Frames.Layout.SizePrintFrames: does not state the rectangle the right-alignment look-ahead restores, only the delta it reserves (`Frames.Layout.PlaceNext`).
- TableLayout.FindDataRowsFit: the heights kept are tied to the rows' measurements only when no row object occurs twice in the table. A row added twice is one object, and measuring it clears its joined texts at both places, so its second place reads other texts than it held before the call.
- TableLayout.MeasureRows: the same condition on distinct row objects, for the same reason.
- TableLayout.PrintRows: the row events are stated only when no row object occurs twice in the table, for the same reason.
- TableLayout.TablePrint: the page as header, rows and lines is stated only when no row object occurs twice in the table, for the same reason.
- Frames.Layout.TableLeafPrint: the renderer's log is stated only when no row object occurs twice in the table, for the same reason.
- Texts.TextPrint: the next pass starts after the whitespace stripped before this one as well as after the bytes printed. src/TextFrame.php:447 adds only the bytes printed. The model uses the corrected advance (`Texts.NextIndex`, see Findings), and `Texts.TextPrintAdvance` states the difference.
- Frames.Layout.TextLeafPrint: runs `Texts.TextPrint`, so a text frame in the engine advances by the corrected amount, not by the library's.
- Frames.Layout.AddFrame: a container's `addFrame` calls `setParent`, which the frame class does not define (it has `setParentFrame`), so the library fails there. The model records the parent as `setParentFrame` would. A box's `addFrame` records no parent, as written.
- Reports.Report.OnBeginPrint: on a second output of the same report the page total left from the first run is kept, as written; the model states it and proves nothing further about it.
- Reports.Report.PrintFooter: the branch for a positive footer height limit is dead code (the limits stay 0) and is modelled as written without a lemma about it.
- Demo scripts and the library's configuration file: only the default constants are transcribed, in `Config`.

## Source behaviour modelled as the code has it

These behaviours of the library are modelled as the code has them. Where the
model also has the evidently intended variant, the item names both, and a lemma
tells them apart:

- A box whose height alone is a percentage sizes its child for the height read as millimetres. The height branch of `getMaxContentRect` tests the width's percentage flag (`Boxes.MaxContentRectAsWritten`, `Boxes.HeightPercentReadAsMillimetres`, `Boxes.HeightPercentExample`).
- A fixed-position frame's printable-area probe compares its top offset with the area's left edge and its left offset with the top edge (`Frames.OutsideAsWritten`, `Frames.FixposProbeSwapped`).
- Full-width tables call `TableColumn::setWidth`, which the column class does not define. Scaling therefore fails with `UndefinedMethod("setWidth")` as soon as a line break closes a group (`Tables.AdjustColumnsToWidthAsWritten`). The intended scaling is `Tables.AdjustColumnsToWidth`, with its bounds proved.
- A line frame's required size comes from the points of the previous measurement, before the points are recomputed (`Lines.LineCalcSize`).
- A text frame's background rectangle is the text layout object itself, so widening it for full width also moves the text. Its right and bottom edges are set to the offered rectangle's width and height rather than its right and bottom coordinates (`Texts.PrintLayout`).
- A table's `reset` does not reset its sub-row count, so the count grows again each time the reset table is sized (`TableLayout.Resized`).
- A continued text that holds a page placeholder moves its character index by the number of characters printed from the text with the placeholder replaced, while the index counts characters of the raw text (`Texts.TextToPrint`, `Texts.NextIndex`). The index is then off by the difference in length between the placeholder and the page number. `Texts.NextIndexTiles` proves the tiling only for text without placeholders (`Texts.PlainTextToPrint`, `Texts.TextToPrintPlain`).
- `onBeginPrint` creates the new document before it clears the pages-counted flag, so the page total is not reset on a new document when the pages were already counted (`Reports.Report.OnBeginPrint`).

## Findings

| source | as written | input that shows it | evidently intended | confidence | as-written member | corrected member |
|---|---|---|---|---|---|---|
| src/TextFrame.php:447 | after a page, the character index moves on by the number of characters printed, counted in the left-trimmed text, so the whitespace the trim removed is not counted | "abc def ghi" continued over three passes one word per pass: after "def" the next pass starts at "f ghi" | the index moves past the removed whitespace as well, so each pass starts where the previous one ended and the passes tile the text ("ghi") | not executed | Texts.NextIndexAsWrittenRepeats | Texts.NextIndex |
