// The bookkeeping half of src/Renderer.php: page formats by page number,
// page bounds and paper sizes, the page counters, page-variable
// substitution, font style letters, colour parsing and the trimming of a
// text to a width or height. Everything TCPDF measures comes from the
// `Metrics` the renderer is built with; everything it draws is appended
// to `log`.
module Rendering {
  import opened Wrappers
  import opened Geometry
  import opened Canvas
  import opened PageFormats
  import opened Strings
  import Styles

  // -----------------------------------------------------------------------
  // Font style letters (getStyle)

  function LetterRank(c: char): int
  {
    if c == 'B' then 0 else if c == 'U' then 1 else 2
  }

  /** TCPDF's style string: 'B', 'U' and 'I', each present iff its flag is, in that order. */
  function StyleLetters(bold: bool, underline: bool, italic: bool): (s: string)
    ensures ('B' in s <==> bold) && ('U' in s <==> underline) && ('I' in s <==> italic)
    ensures |s| == (if bold then 1 else 0) + (if underline then 1 else 0) + (if italic then 1 else 0)
  {
    (if bold then "B" else "") + (if underline then "U" else "") + (if italic then "I" else "")
  }

  /** The letters of a style string come in the order B, U, I. */
  lemma StyleLettersOrdered(bold: bool, underline: bool, italic: bool)
    ensures var s := StyleLetters(bold, underline, italic);
      forall i, j :: 0 <= i < j < |s| ==> LetterRank(s[i]) < LetterRank(s[j])
  {
  }

  /** The font a text style resolves to, looked up along its base chain. */
  function FontOf(ts: Styles.TextStyle): (f: Canvas.Font)
    reads ts.Chain()
    ensures f.family == ts.GetFontFamily() && f.size == ts.GetSize()
    ensures f.style == StyleLetters(ts.IsBold(), ts.IsUnderline(), ts.IsItalic())
  {
    Canvas.Font(ts.GetFontFamily(), StyleLetters(ts.IsBold(), ts.IsUnderline(), ts.IsItalic()), ts.GetSize())
  }

  // -----------------------------------------------------------------------
  // Colours (getColorArray)

  datatype Rgb = Rgb(r: int, g: int, b: int)

  const Black: Rgb := Rgb(0, 0, 0)

  predicate IsHexDigit(c: char)
  {
    '0' <= c <= '9' || 'A' <= c <= 'F' || 'a' <= c <= 'f'
  }

  /** The characters trim($color, '0..9A..Fa..f#') removes. */
  predicate IsColorChar(c: char)
  {
    IsHexDigit(c) || c == '#'
  }

  function HexValue(c: char): (v: nat)
    requires IsHexDigit(c)
    ensures v < 16
  {
    if '0' <= c <= '9' then (c as int) - ('0' as int)
    else if 'A' <= c <= 'F' then (c as int) - ('A' as int) + 10
    else (c as int) - ('a' as int) + 10
  }

  /** PHP's hexdec: the value of the hexadecimal digits of s; any other character is skipped. */
  function HexDec(s: string): nat
  {
    if |s| == 0 then 0
    else if IsHexDigit(s[|s| - 1]) then HexDec(s[..|s| - 1]) * 16 + HexValue(s[|s| - 1])
    else HexDec(s[..|s| - 1])
  }

  lemma HexDecTwo(s: string)
    requires |s| == 2
    ensures HexDec(s) < 256
  {
    assert s[..1][..0] == [];
    assert HexDec(s[..1]) < 16;
  }

  function ClampByte(n: int): (c: int)
    ensures 0 <= c <= 255
    ensures 0 <= n <= 255 ==> c == n
  {
    if n < 0 then 0 else if n > 255 then 255 else n
  }

  /** `getColorArray`: "#RRGGBB" (or "RRGGBB") to its components; any other string is black. */
  function ColorArray(color: string): (c: Rgb)
    ensures 0 <= c.r <= 255 && 0 <= c.g <= 255 && 0 <= c.b <= 255
    ensures |color| != 6 && |color| != 7 ==> c == Black
    ensures (exists i :: 0 <= i < |color| && !IsColorChar(color[i])) ==> c == Black
  {
    var col := if |color| == 6 then "#" + color else color;
    if |col| != 7 || exists i :: 0 <= i < |col| && !IsColorChar(col[i]) then
      assert |color| == 6 ==> forall i :: 0 <= i < |color| ==> color[i] == col[i + 1];
      Black
    else
      assert forall i :: 0 <= i < |color| ==> IsColorChar(color[i]) by {
        if |color| == 6 {
          assert forall i :: 0 <= i < |color| ==> color[i] == col[i + 1];
        }
      }
      Rgb(ClampByte(HexDec(col[1..3])), ClampByte(HexDec(col[3..5])), ClampByte(HexDec(col[5..7])))
  }

  function HexChar(v: nat): (c: char)
    requires v < 16
    ensures IsHexDigit(c) && HexValue(c) == v
  {
    if v < 10 then ('0' as int + v) as char else ('A' as int + v - 10) as char
  }

  /** The "#RRGGBB" form of three components in 0..255. */
  function HexColor(c: Rgb): (s: string)
    requires 0 <= c.r <= 255 && 0 <= c.g <= 255 && 0 <= c.b <= 255
    ensures |s| == 7 && s[0] == '#'
  {
    "#" + [HexChar(c.r / 16), HexChar(c.r % 16), HexChar(c.g / 16), HexChar(c.g % 16),
           HexChar(c.b / 16), HexChar(c.b % 16)]
  }

  lemma HexDecPair(v: nat)
    requires v < 256
    ensures HexDec([HexChar(v / 16), HexChar(v % 16)]) == v
  {
    var s := [HexChar(v / 16), HexChar(v % 16)];
    assert s[..1] == [HexChar(v / 16)];
    assert s[..1][..0] == [];
    assert HexDec(s[..1]) == v / 16;
  }

  /** Parsing the "#RRGGBB" form of a colour gives the colour back. */
  lemma ColorArrayRoundTrip(c: Rgb)
    requires 0 <= c.r <= 255 && 0 <= c.g <= 255 && 0 <= c.b <= 255
    ensures ColorArray(HexColor(c)) == c
  {
    var s := HexColor(c);
    assert forall i :: 0 <= i < |s| ==> IsColorChar(s[i]);
    HexDecPair(c.r);
    HexDecPair(c.g);
    HexDecPair(c.b);
    assert s[1..3] == [HexChar(c.r / 16), HexChar(c.r % 16)];
    assert s[3..5] == [HexChar(c.g / 16), HexChar(c.g % 16)];
    assert s[5..7] == [HexChar(c.b / 16), HexChar(c.b % 16)];
  }

  /** Six hex digits without the '#' mean the same colour as with it. */
  lemma ColorArrayHashOptional(digits: string)
    requires |digits| == 6
    ensures ColorArray(digits) == ColorArray("#" + digits)
  {
  }

  // -----------------------------------------------------------------------
  // Page formats, paper sizes and page bounds

  /** k is the greatest page with a registered format at or below `page`. */
  ghost predicate IsFloorKey(formats: map<int, PageFormat>, page: int, k: int)
  {
    k in formats && k <= page && forall j :: k < j <= page ==> j !in formats
  }

  lemma FloorKeyUnique(formats: map<int, PageFormat>, page: int, k1: int, k2: int)
    requires IsFloorKey(formats, page, k1) && IsFloorKey(formats, page, k2)
    ensures k1 == k2
  {
  }

  /** `setPageFormat(from, f)`: f governs page `from` and every later page up
      to the next registered page; earlier pages are governed as before. */
  lemma SetPageFormatOverrides(formats: map<int, PageFormat>, from: int, f: PageFormat, page: int, k: int)
    ensures from <= page && (forall j :: from < j <= page ==> j !in formats) ==>
      IsFloorKey(formats[from := f], page, from)
    ensures page < from ==> (IsFloorKey(formats[from := f], page, k) <==> IsFloorKey(formats, page, k))
  {
    if page < from {
      var g := formats[from := f];
      assert forall j :: j <= page ==> (j in g <==> j in formats);
    }
  }

  /** `getPaperSize` for a format: TCPDF's size in points converted to mm and
      rounded to 2 decimals, 210 x 297 for an unknown name; width and height
      swap unless the orientation is "P". */
  function PaperSize(paperFormat: string -> Option<Size>, f: PageFormat): (s: Size)
  {
    var portrait :=
      match paperFormat(f.pageSize)
      case Some(pt) => Size(pt.width * 25.4 / 72.0, pt.height * 25.4 / 72.0)
      case None => Size(210.0, 297.0);
    if f.pageOrientation == "P" then Size(Round2(portrait.width), Round2(portrait.height))
    else Size(Round2(portrait.height), Round2(portrait.width))
  }

  /** Any orientation other than "P" is the portrait size turned by 90 degrees. */
  lemma PaperSizeOrientation(paperFormat: string -> Option<Size>, f: PageFormat)
    ensures var p := PaperSize(paperFormat, f.(pageOrientation := "P"));
      f.pageOrientation != "P" ==> PaperSize(paperFormat, f) == Size(p.height, p.width)
  {
  }

  /** A paper name TCPDF does not know is A4, 210 x 297 mm. */
  lemma UnknownPaperIsA4(paperFormat: string -> Option<Size>, f: PageFormat)
    requires paperFormat(f.pageSize).None? && f.pageOrientation == "P"
    ensures PaperSize(paperFormat, f) == Size(210.0, 297.0)
  {
    assert RoundHalfAway(21000.0) == 21000;
    assert RoundHalfAway(29700.0) == 29700;
  }

  /** The printable area of a page of the given paper size: with mirrored
      margins an even page swaps the left and right margins. */
  function BoundsOf(f: PageFormat, paper: Size, page: int): (b: Rect)
    ensures b.top == f.marginTop && b.bottom == paper.height - f.marginBottom
    ensures f.mirrorMargins && page % 2 == 0 ==> b.left == f.marginRight && b.right == paper.width - f.marginLeft
    ensures !(f.mirrorMargins && page % 2 == 0) ==> b.left == f.marginLeft && b.right == paper.width - f.marginRight
  {
    if f.mirrorMargins && page % 2 == 0 then
      Rect(f.marginRight, f.marginTop, paper.width - f.marginLeft, paper.height - f.marginBottom)
    else
      Rect(f.marginLeft, f.marginTop, paper.width - f.marginRight, paper.height - f.marginBottom)
  }

  /** Mirroring moves the printable area but keeps its size, and the even
      page's area is the odd page's reflected about the paper's centre line. */
  lemma MirroredBounds(f: PageFormat, paper: Size, even: int, odd: int)
    requires even % 2 == 0 && odd % 2 == 1
    ensures SizeOf(BoundsOf(f, paper, even)) == SizeOf(BoundsOf(f, paper, odd))
    ensures f.mirrorMargins ==>
      BoundsOf(f, paper, even).left == paper.width - BoundsOf(f, paper, odd).right
      && BoundsOf(f, paper, even).right == paper.width - BoundsOf(f, paper, odd).left
    ensures !f.mirrorMargins ==> BoundsOf(f, paper, even) == BoundsOf(f, paper, odd)
  {
  }

  // -----------------------------------------------------------------------
  // Trimming text (trimText)

  /** The bytes after which trimText may cut a line, the three bytes of a
      UTF-8 encoded "ï¿½" among them. */
  predicate IsBreakChar(c: char)
  {
    c == ' ' || c == '.' || c == ':' || c == ';' || c == ',' || c == '=' || c == '|'
    || c as int == 0xC3 || c as int == 0xAF || c as int == 0xC2 || c as int == 0xBF || c as int == 0xBD
    || c == '+' || c == '-' || c == '/' || c == '*' || c == '@' || c == '#' || c == '[' || c == ']'
    || c == '{' || c == '}' || c == '<' || c == '>' || c == '(' || c == ')' || c == '$' || c == '\\'
    || c == '%' || c == '&' || c == '?' || c == '!' || c == '\r' || c == '\n' || c == '\t'
  }

  /** Drop bytes from the end up to the last break byte, then right-trim;
      "" when the text has no break byte. */
  function CutAtLastBreak(t: string): string
  {
    if |t| == 0 then ""
    else if IsBreakChar(t[|t| - 1]) then RTrim(t)
    else CutAtLastBreak(t[..|t| - 1])
  }

  /** The word back-off of trimText: the text up to its last break byte,
      right-trimmed, or the text itself when there is none. */
  function WordBackOff(t: string): string
  {
    var c := CutAtLastBreak(t);
    if |c| == 0 then t else c
  }

  lemma {:induction false} CutAtLastBreakPrefix(t: string)
    ensures IsPrefix(CutAtLastBreak(t), t)
  {
    if |t| > 0 && !IsBreakChar(t[|t| - 1]) {
      CutAtLastBreakPrefix(t[..|t| - 1]);
    }
  }

  /** The cut is the right-trimmed prefix ending at the last break byte. */
  lemma {:induction false} CutAtLastBreakIsLastBreak(t: string, i: int)
    requires 0 <= i < |t| && IsBreakChar(t[i])
    requires forall j :: i < j < |t| ==> !IsBreakChar(t[j])
    ensures CutAtLastBreak(t) == RTrim(t[..i + 1])
    decreases |t|
  {
    if i < |t| - 1 {
      assert t[..|t| - 1][..i + 1] == t[..i + 1];
      CutAtLastBreakIsLastBreak(t[..|t| - 1], i);
    } else {
      assert t[..i + 1] == t;
    }
  }

  /** Without a break byte nothing is cut, and the back-off keeps the text. */
  lemma {:induction false} NoBreakKeepsText(t: string)
    requires forall j :: 0 <= j < |t| ==> !IsBreakChar(t[j])
    ensures CutAtLastBreak(t) == "" && WordBackOff(t) == t
  {
    if |t| > 0 {
      NoBreakKeepsText(t[..|t| - 1]);
    }
  }

  lemma WordBackOffPrefix(t: string)
    ensures IsPrefix(WordBackOff(t), t)
  {
    CutAtLastBreakPrefix(t);
  }

  /** The bisected prefix s of t at the given factor: (int)(strlen(t) * factor). */
  function CutLength(n: nat, factor: real): (k: nat)
    requires 0.0 < factor < 1.0
    ensures n > 0 ==> k < n
    ensures n == 0 ==> k == 0
  {
    MulBelow(n, factor);
    TruncToInt(n as real * factor)
  }

  lemma MulBelow(n: nat, factor: real)
    requires 0.0 < factor < 1.0
    ensures 0.0 <= n as real * factor
    ensures n > 0 ==> n as real * factor < n as real
  {
  }

  /** The test trimText applies to a candidate: its width (height 0) or
      its wrapped height (positive height) against the limit, both rounded
      to 2 decimals. */
  function FitsLimit(m: Metrics, font: Canvas.Font, s: string, width: real, hAlignment: string,
                     vAlignment: string, height: real): bool
  {
    if height == 0.0 then Round2(m.stringWidth(font, s)) <= Round2(width)
    else Round2(m.textSize(font, s, hAlignment, vAlignment, width).height) <= Round2(height)
  }

  // -----------------------------------------------------------------------
  // The renderer

  const PageVar: string := "[VAR_PAGE]"
  const TotalPagesVar: string := "[VAR_TOTAL_PAGES]"

  class Renderer {
    const metrics: Metrics
    var pageFormats: map<int, PageFormat>
    var currentPage: int
    var totalPages: int
    var pagesCounted: bool
    /** What the layout code has asked TCPDF to draw, in order. */
    var log: seq<DrawEvent>

    ghost predicate Valid()
      reads this
    {
      0 in pageFormats && currentPage >= 0
    }

    /** Some registered format governs `page`. */
    ghost predicate Governed(page: int)
      reads this
    {
      exists k :: k in pageFormats && k <= page
    }

    constructor (metrics: Metrics, pageFormat: PageFormat)
      ensures Valid() && this.metrics == metrics && pageFormats == map[0 := pageFormat]
      ensures currentPage == 0 && totalPages == 0 && !pagesCounted && log == []
    {
      this.metrics := metrics;
      pageFormats := map[0 := pageFormat];
      currentPage, totalPages, pagesCounted := 0, 0, false;
      log := [];
    }

    method SetPageFormat(fromPage: int, pageFormat: PageFormat)
      modifies this`pageFormats
      ensures pageFormats == old(pageFormats)[fromPage := pageFormat]
    {
      pageFormats := pageFormats[fromPage := pageFormat];
    }

    method SetPagesCounted(counted: bool)
      modifies this`pagesCounted
      ensures pagesCounted == counted
    {
      pagesCounted := counted;
    }

    /** `getPageFormat`: count down from `page` to the nearest registered page. */
    method GetPageFormat(page: int) returns (f: PageFormat, ghost key: int)
      requires Governed(page)
      ensures IsFloorKey(pageFormats, page, key) && f == pageFormats[key]
    {
      ghost var low :| low in pageFormats && low <= page;
      var p := page;
      while p !in pageFormats
        invariant low <= p <= page
        invariant forall j :: p < j <= page ==> j !in pageFormats
        decreases p - low
      {
        p := p - 1;
      }
      key := p;
      f := pageFormats[p];
    }

    /** Page 0 stands for the current page. */
    function PageOrCurrent(page: int): int
      reads this
    {
      if page == 0 then currentPage else page
    }

    /** `getPaperSize`. */
    method GetPaperSize(page: int) returns (s: Size)
      requires Governed(PageOrCurrent(page))
      ensures forall k :: IsFloorKey(pageFormats, PageOrCurrent(page), k) ==>
        s == PaperSize(metrics.paperFormat, pageFormats[k])
    {
      var p := PageOrCurrent(page);
      ghost var key;
      var f;
      f, key := GetPageFormat(p);
      s := PaperSize(metrics.paperFormat, f);
      forall k | IsFloorKey(pageFormats, p, k)
        ensures s == PaperSize(metrics.paperFormat, pageFormats[k])
      {
        FloorKeyUnique(pageFormats, p, k, key);
      }
    }

    /** `getPageBounds`: the printable area of the page's format on its paper. */
    method GetPageBounds(page: int) returns (b: Rect)
      requires Governed(PageOrCurrent(page))
      ensures forall k :: IsFloorKey(pageFormats, PageOrCurrent(page), k) ==>
        b == BoundsOf(pageFormats[k], PaperSize(metrics.paperFormat, pageFormats[k]), PageOrCurrent(page))
      ensures exists k :: IsFloorKey(pageFormats, PageOrCurrent(page), k)
    {
      var p := PageOrCurrent(page);
      ghost var key;
      var f;
      f, key := GetPageFormat(p);
      var size := PaperSize(metrics.paperFormat, f);
      b := BoundsOf(f, size, p);
      forall k | IsFloorKey(pageFormats, p, k)
        ensures b == BoundsOf(pageFormats[k], PaperSize(metrics.paperFormat, pageFormats[k]), p)
      {
        FloorKeyUnique(pageFormats, p, k, key);
      }
    }

    /** `getPrintableWidth`. */
    method GetPrintableWidth(page: int) returns (w: real)
      requires Governed(PageOrCurrent(page))
      ensures forall k :: IsFloorKey(pageFormats, PageOrCurrent(page), k) ==>
        w == PaperSize(metrics.paperFormat, pageFormats[k]).width - pageFormats[k].marginLeft - pageFormats[k].marginRight
    {
      var b := GetPageBounds(page);
      w := Width(b);
    }

    /** `getPrintableHeight`. */
    method GetPrintableHeight(page: int) returns (h: real)
      requires Governed(PageOrCurrent(page))
      ensures forall k :: IsFloorKey(pageFormats, PageOrCurrent(page), k) ==>
        h == PaperSize(metrics.paperFormat, pageFormats[k]).height - pageFormats[k].marginTop - pageFormats[k].marginBottom
    {
      var b := GetPageBounds(page);
      h := Height(b);
    }

    /** `addPage`: the current page advances; the total follows only while the
        pages are not yet counted. TCPDF gets a page of the new page's format. */
    method AddPage()
      requires Valid()
      modifies this`currentPage, this`totalPages, this`log
      ensures Valid()
      ensures currentPage == old(currentPage) + 1
      ensures totalPages == if pagesCounted then old(totalPages) else old(totalPages) + 1
      ensures |log| == |old(log)| + 1 && log[..|old(log)|] == old(log)
      ensures forall k :: IsFloorKey(pageFormats, currentPage, k) ==>
        log[|old(log)|] == NewPage(pageFormats[k].pageOrientation, pageFormats[k].pageSize)
    {
      currentPage := currentPage + 1;
      if !pagesCounted {
        totalPages := totalPages + 1;
      }
      ghost var key;
      var f;
      assert 0 in pageFormats && 0 <= currentPage;
      f, key := GetPageFormat(currentPage);
      log := log + [NewPage(f.pageOrientation, f.pageSize)];
      assert log[..|old(log)|] == old(log);
      forall k | IsFloorKey(pageFormats, currentPage, k)
        ensures log[|old(log)|] == NewPage(pageFormats[k].pageOrientation, pageFormats[k].pageSize)
      {
        FloorKeyUnique(pageFormats, currentPage, k, key);
      }
    }

    /** `createNewPDF`: a new document whose first page is page 1; the total
        restarts unless the pages are already counted. */
    method CreateNewPDF()
      requires Valid()
      modifies this`currentPage, this`totalPages, this`log
      ensures Valid()
      ensures currentPage == 1
      ensures totalPages == if pagesCounted then old(totalPages) else 1
      ensures |log| == |old(log)| + 2 && log[..|old(log)|] == old(log) && log[|old(log)|] == NewDocument
      ensures forall k :: IsFloorKey(pageFormats, 1, k) ==>
        log[|old(log)| + 1] == NewPage(pageFormats[k].pageOrientation, pageFormats[k].pageSize)
    {
      log := log + [NewDocument];
      currentPage := 0;
      if !pagesCounted {
        totalPages := 0;
      }
      AddPage();
    }

    /** `replacePageVars`: every "[VAR_PAGE]" becomes the current page number
        and then every "[VAR_TOTAL_PAGES]" the total page count. */
    function ReplacePageVars(text: string): (r: string)
      reads this
    {
      var t := if Occurs(text, PageVar) then ReplaceAll(text, PageVar, IntToString(currentPage)) else text;
      if Occurs(t, TotalPagesVar) then ReplaceAll(t, TotalPagesVar, IntToString(totalPages)) else t
    }

    /** `trimText`: the longest prefix the bisection finds that fits the width
        (height 0) or the height, cut back to its last word boundary. The
        bisection is bounded by `fuel` steps; OutOfFuel where the library
        would run on. */
    method TrimText(text: string, font: Canvas.Font, wrapText: bool, width: real, hAlignment: string,
                    vAlignment: string, height: real, fuel: nat)
      returns (r: Result<string>, ghost bisected: string)
      ensures r.Ok? ==> IsPrefix(r.value, text)
      ensures r.Err? ==> r.error == OutOfFuel
      ensures |text| == 0 || !wrapText ==> r == Ok(text)
      ensures |text| > 0 && wrapText && height < 0.0 ==> r == Ok("")
      ensures |text| > 0 && wrapText && height >= 0.0 && FitsLimit(metrics, font, text, width, hAlignment, vAlignment, height) ==>
        r == Ok(text)
      ensures
        (|text| > 0 && wrapText && height >= 0.0 && !FitsLimit(metrics, font, text, width, hAlignment, vAlignment, height)
         && r.Ok?) ==>
        IsPrefix(bisected, text) && |bisected| < |text|
        && FitsLimit(metrics, font, bisected, width, hAlignment, vAlignment, height)
        && r.value == WordBackOff(bisected)
    {
      bisected := text;
      if |text| == 0 || !wrapText {
        return Ok(text), bisected;
      }
      if height < 0.0 {
        return Ok(""), bisected;
      }
      if FitsLimit(metrics, font, text, width, hAlignment, vAlignment, height) {
        return Ok(text), bisected;
      }
      var found := Bisect(text, font, width, hAlignment, vAlignment, height, fuel);
      if found.None? {
        return Err(OutOfFuel), bisected;
      }
      bisected := found.value;
      var cut := BackOff(found.value);
      WordBackOffPrefix(found.value);
      r := Ok(cut);
    }

    /** The do-while bisection of trimText: halve the correction, test the
        prefix at the current factor, and stop when a fitting prefix has the
        length of the previous fitting one. */
    method Bisect(text: string, font: Canvas.Font, width: real, hAlignment: string, vAlignment: string,
                  height: real, fuel: nat)
      returns (found: Option<string>)
      requires |text| > 0
      ensures found.Some? ==> IsPrefix(found.value, text) && |found.value| < |text|
      ensures found.Some? ==> FitsLimit(metrics, font, found.value, width, hAlignment, vAlignment, height)
    {
      var len := |text|;
      var factor := 0.5;
      var correction := 0.5;
      var lastText := text;
      var steps := fuel;
      while steps > 0
        invariant 0.0 < correction && 0.0 <= factor - correction && factor + correction <= 1.0
        invariant IsPrefix(lastText, text)
      {
        correction := correction / 2.0;
        var checkText := text[..CutLength(len, factor)];
        if FitsLimit(metrics, font, checkText, width, hAlignment, vAlignment, height) {
          if |checkText| == |lastText| {
            return Some(checkText);
          }
          lastText := checkText;
          factor := factor + correction;
        } else {
          factor := factor - correction;
        }
        steps := steps - 1;
      }
      return None;
    }

    /** The byte-stripping loop of trimText. */
    method BackOff(trimmed: string) returns (t: string)
      ensures t == WordBackOff(trimmed)
    {
      t := trimmed;
      while |t| > 0
        invariant IsPrefix(t, trimmed)
        invariant CutAtLastBreak(trimmed) == CutAtLastBreak(t)
      {
        if IsBreakChar(t[|t| - 1]) {
          t := RTrim(t);
          break;
        }
        t := t[..|t| - 1];
      }
      if |t| == 0 {
        t := trimmed;
      }
    }

    method AddLine(x1: real, y1: real, x2: real, y2: real, width: real, dash: string, color: string)
      modifies this`log
      ensures log == old(log) + [Line(x1, y1, x2, y2, width, dash, color)]
    {
      log := log + [Line(x1, y1, x2, y2, width, dash, color)];
    }

    method AddRect(rect: Rect, fillColor: string)
      modifies this`log
      ensures log == old(log) + [FillRect(rect, fillColor)]
    {
      log := log + [FillRect(rect, fillColor)];
    }

    method AddTextBlock(text: string, font: Canvas.Font, layout: Rect, hAlignment: string, vAlignment: string,
                        textColor: string)
      modifies this`log
      ensures log == old(log) + [TextBlock(text, font, layout, hAlignment, vAlignment, textColor)]
    {
      log := log + [TextBlock(text, font, layout, hAlignment, vAlignment, textColor)];
    }

    method AddImage(fileName: string, x: real, y: real, w: real, h: real)
      modifies this`log
      ensures log == old(log) + [Image(fileName, x, y, w, h)]
    {
      log := log + [Image(fileName, x, y, w, h)];
    }

    method AddBarCode(code: string, barcodeType: string, x: real, y: real, w: real, h: real)
      modifies this`log
      ensures log == old(log) + [Barcode(code, barcodeType, x, y, w, h)]
    {
      log := log + [Barcode(code, barcodeType, x, y, w, h)];
    }

    /** The drawing calls of one frame's doPrint, in order. */
    method Draw(events: seq<DrawEvent>)
      modifies this`log
      ensures log == old(log) + events
    {
      log := log + events;
    }

    method Output(fileName: string, action: string)
      modifies this`log
      ensures log == old(log) + [Canvas.Output(fileName, action)]
    {
      log := log + [Canvas.Output(fileName, action)];
    }
  }

  /** The str_contains guards of replacePageVars change nothing: it is the
      two replacements applied in turn. */
  lemma ReplacePageVarsUnguarded(rd: Renderer, text: string)
    ensures rd.ReplacePageVars(text)
      == ReplaceAll(ReplaceAll(text, PageVar, IntToString(rd.currentPage)), TotalPagesVar, IntToString(rd.totalPages))
  {
    var t := ReplaceAll(text, PageVar, IntToString(rd.currentPage));
    if !Occurs(text, PageVar) {
      ReplaceAllAbsent(text, PageVar, IntToString(rd.currentPage));
    }
    if !Occurs(t, TotalPagesVar) {
      ReplaceAllAbsent(t, TotalPagesVar, IntToString(rd.totalPages));
    }
  }

  /** Text without placeholders is left as it is. */
  lemma ReplacePageVarsPlain(rd: Renderer, text: string)
    requires !Occurs(text, PageVar) && !Occurs(text, TotalPagesVar)
    ensures rd.ReplacePageVars(text) == text
  {
  }

  /** A number's decimal form never contains "[VAR_TOTAL_PAGES]". */
  lemma NumberHasNoPlaceholder(n: int)
    ensures !Occurs(IntToString(n), TotalPagesVar)
  {
    var s := IntToString(n);
    forall i | 0 <= i && i + |TotalPagesVar| <= |s|
      ensures !OccursAt(s, TotalPagesVar, i)
    {
      assert s[i..i + |TotalPagesVar|][0] == s[i] != '[';
    }
    OccursIff(s, TotalPagesVar);
  }

  /** "[VAR_PAGE]" alone turns into the decimal current page number. */
  lemma PageVarReadsAsPage(rd: Renderer)
    ensures var r := rd.ReplacePageVars(PageVar);
      r == IntToString(rd.currentPage) && ParseInt(r) == rd.currentPage
  {
    var d := IntToString(rd.currentPage);
    assert OccursAt(PageVar, PageVar, 0);
    OccursIff(PageVar, PageVar);
    ReplaceAllAtFront(PageVar, d, "");
    assert PageVar + "" == PageVar;
    assert d + "" == d;
    NumberHasNoPlaceholder(rd.currentPage);
    IntToStringRoundTrip(rd.currentPage);
  }
}
