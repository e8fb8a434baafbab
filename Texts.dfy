// Text frames (src/TextFrame.php): a text is sized by the measurements of
// its font, cut where it does not fit, and printed piece by piece, one piece
// per page, each pass continuing where the previous one stopped.
module Texts {
  import opened Wrappers
  import opened Geometry
  import opened Canvas
  import opened Strings
  import Styles
  import opened Rendering
  import opened FrameBase
  import Config

  datatype TextState = TextState(
    text: string,
    textStyle: Styles.TextStyle,
    /** The part of the text the current pass works on. */
    textToPrint: string,
    minimumWidth: real,
    wrapText: bool,
    textColorSet: bool,
    textLayout: Rect,
    textColor: string,
    /** How many bytes of textToPrint this pass prints. */
    charsFitted: nat,
    /** Where in `text` the current pass starts. */
    charIndex: nat,
    /** How many whitespace bytes getTextToPrint stripped from the front. */
    skipped: nat)

  /** The constructor: wrapping, a minimum width of 1 mm, the default colour
      (not explicitly set) and nothing printed yet. */
  function NewText(text: string, style: Styles.TextStyle): (t: TextState)
    ensures t.text == text && t.textStyle == style && t.minimumWidth == 1.0
    ensures t.wrapText && !t.textColorSet && t.textColor == Config.TextColor
    ensures t.charsFitted == 0 && t.charIndex == 0
  {
    TextState(text, style, "", 1.0, true, false, EmptyRect, Config.TextColor, 0, 0, 0)
  }

  /** getTextColor: the explicitly set colour, else the style's. */
  function TextColorOf(t: TextState, styleColor: string): (c: string)
    ensures t.textColorSet ==> c == t.textColor
    ensures !t.textColorSet ==> c == styleColor
  {
    if t.textColorSet then t.textColor else styleColor
  }

  /** substr($s, $i) for i >= 0: the bytes from i on, empty past the end. */
  function Suffix(s: string, i: nat): (r: string)
    ensures i >= |s| ==> r == ""
    ensures i < |s| ==> r == s[i..]
  {
    if i >= |s| then "" else s[i..]
  }

  /** substr($s, 0, $n) for n >= 0: the first n bytes, or all of them. */
  function Prefix(s: string, n: nat): (r: string)
    ensures IsPrefix(r, s) && |r| == (if n < |s| then n else |s|)
  {
    if n < |s| then s[..n] else s
  }

  /** The text of a pass before its page variables are replaced: the rest
      of the text, without leading whitespace unless it is the first pass. */
  function PlainTextToPrint(text: string, charIndex: nat): (r: string)
    ensures charIndex == 0 ==> r == text
    ensures charIndex > 0 ==> r == LTrim(Suffix(text, charIndex))
  {
    if charIndex > 0 then LTrim(Suffix(text, charIndex)) else Suffix(text, charIndex)
  }

  /** getTextToPrint. */
  function TextToPrint(rd: Renderer, t: TextState): (r: string)
    reads rd
    ensures t.charIndex == 0 ==> r == rd.ReplacePageVars(t.text)
    ensures t.charIndex > 0 ==> r == LTrim(rd.ReplacePageVars(Suffix(t.text, t.charIndex)))
  {
    var s := rd.ReplacePageVars(Suffix(t.text, t.charIndex));
    if t.charIndex > 0 then LTrim(s) else s
  }

  /** How many bytes the LTrim of getTextToPrint removed. */
  function Skipped(rd: Renderer, t: TextState): (k: nat)
    reads rd
  {
    var s := rd.ReplacePageVars(Suffix(t.text, t.charIndex));
    if t.charIndex > 0 then |s| - |LTrim(s)| else 0
  }

  /** Without page variables in the rest of the text, a pass works on the
      plain rest of the text. */
  lemma TextToPrintPlain(rd: Renderer, t: TextState)
    requires !Occurs(Suffix(t.text, t.charIndex), PageVar) && !Occurs(Suffix(t.text, t.charIndex), TotalPagesVar)
    ensures TextToPrint(rd, t) == PlainTextToPrint(t.text, t.charIndex)
    ensures Skipped(rd, t) == |Suffix(t.text, t.charIndex)| - |PlainTextToPrint(t.text, t.charIndex)|
  {
    ReplacePageVarsPlain(rd, Suffix(t.text, t.charIndex));
  }

  /** getOrigin: the corner a text is anchored to (0 top-left, 1 top-right,
      2 bottom-left, 3 bottom-right), or -1 when it is centred or in the middle. */
  function Origin(hAlignment: string, vAlignment: string): (o: int)
    ensures o == -1 <==> hAlignment == "C" || vAlignment == "M"
    ensures o != -1 ==> (0 <= o <= 3
      && (o % 2 == 1 <==> hAlignment == "R") && (o / 2 == 1 <==> vAlignment == "B"))
  {
    if hAlignment == "C" || vAlignment == "M" then -1
    else (if hAlignment == "R" then 1 else 0) + (if vAlignment == "B" then 2 else 0)
  }

  /** getPoint: corner bit 1 picks the right edge, bit 2 the bottom edge. */
  function Point(r: Rect, corner: nat): (p: (real, real))
    ensures corner == 0 ==> p == (r.left, r.top)
    ensures corner == 1 ==> p == (r.right, r.top)
    ensures corner == 2 ==> p == (r.left, r.bottom)
    ensures corner == 3 ==> p == (r.right, r.bottom)
  {
    ((if corner % 2 == 0 then r.left else r.right), (if (corner / 2) % 2 == 0 then r.top else r.bottom))
  }

  /** The decision of rectChanged: a text must be sized again unless it is
      anchored to a corner that stayed where it was and its required size
      still fits into the new rect. */
  function MustResize(b: Base, originalRect: Rect, newRect: Rect): (resize: bool)
    ensures !resize <==>
      var o := Origin(b.hAlignment, b.vAlignment);
      o >= 0 && Point(originalRect, o) == Point(newRect, o) && SizeFits(newRect, b.requiredSize)
  {
    var o := Origin(b.hAlignment, b.vAlignment);
    !(o >= 0 && Point(originalRect, o) == Point(newRect, o) && SizeFits(newRect, b.requiredSize))
  }

  /** A centred or middle-aligned text is sized again whenever its rect changes. */
  lemma CentredTextAlwaysResizes(b: Base, originalRect: Rect, newRect: Rect)
    requires b.hAlignment == "C" || b.vAlignment == "M"
    ensures MustResize(b, originalRect, newRect)
  {
  }

  /** A top-left text whose rect only grew to the right and downwards, and
      still has room, keeps its sizing. */
  lemma TopLeftTextKeepsSize(b: Base, originalRect: Rect, newRect: Rect)
    requires b.hAlignment == "L" && b.vAlignment == "T"
    requires newRect.left == originalRect.left && newRect.top == originalRect.top
    requires SizeFits(newRect, b.requiredSize)
    ensures !MustResize(b, originalRect, newRect)
  {
  }

  /** checkTextLayout: the layout is at least one line high and at least the
      minimum width wide, compared after rounding to three decimals. */
  predicate LayoutFits(layout: Rect, fontHeight: real, minimumWidth: real)
  {
    !(Round3(Height(layout)) < Round3(fontHeight) || Round3(Width(layout)) < Round3(minimumWidth))
  }

  /** The rounding forgives less than a thousandth of a millimetre and no more. */
  lemma LayoutFitsTolerance(layout: Rect, fontHeight: real, minimumWidth: real)
    ensures Height(layout) >= fontHeight + 0.001 && Width(layout) >= minimumWidth + 0.001 ==>
      LayoutFits(layout, fontHeight, minimumWidth)
    ensures Height(layout) < fontHeight - 0.001 ==> !LayoutFits(layout, fontHeight, minimumWidth)
    ensures Width(layout) < minimumWidth - 0.001 ==> !LayoutFits(layout, fontHeight, minimumWidth)
  {
  }

  // ---------------------------------------------------------------------
  // Lines of unwrapped text

  /** explode("\n", $s): the pieces between the newlines. */
  function Explode(s: string): (ls: seq<string>)
    ensures |ls| >= 1
    ensures forall i, j :: 0 <= i < |ls| && 0 <= j < |ls[i]| ==> ls[i][j] != '\n'
  {
    if |s| == 0 then [""]
    else if s[0] == '\n' then [""] + Explode(s[1..])
    else
      var rest := Explode(s[1..]);
      [[s[0]] + rest[0]] + rest[1..]
  }

  /** implode("\n", $ls). */
  function Implode(ls: seq<string>): string
    requires |ls| >= 1
  {
    if |ls| == 1 then ls[0] else ls[0] + "\n" + Implode(ls[1..])
  }

  /** Exploding and imploding again gives back the text. */
  lemma {:induction false} ImplodeExplode(s: string)
    ensures Implode(Explode(s)) == s
  {
    if |s| > 0 {
      ImplodeExplode(s[1..]);
      var rest := Explode(s[1..]);
      if s[0] == '\n' {
        assert Explode(s) == [""] + rest;
        assert ([""] + rest)[1..] == rest;
        assert s == [s[0]] + s[1..];
      } else {
        var ls := Explode(s);
        assert ls == [[s[0]] + rest[0]] + rest[1..];
        if |rest| == 1 {
          assert ls == [[s[0]] + rest[0]];
          assert s == [s[0]] + s[1..];
        } else {
          assert ls[1..] == rest[1..];
          assert Implode(rest) == rest[0] + "\n" + Implode(rest[1..]);
          assert Implode(ls) == [s[0]] + rest[0] + "\n" + Implode(rest[1..]);
          assert s == [s[0]] + s[1..];
        }
      }
    }
  }

  /** One step of the join of setTextSize: a newline only after a non-empty text. */
  function Glue(acc: string, line: string): string
  {
    (if |acc| > 0 then acc + "\n" else acc) + line
  }

  function GlueAll(ls: seq<string>): string
  {
    if |ls| == 0 then "" else Glue(GlueAll(ls[..|ls| - 1]), ls[|ls| - 1])
  }

  lemma {:induction false} ImplodeSnoc(ls: seq<string>, l: string)
    requires |ls| >= 1
    ensures Implode(ls + [l]) == Implode(ls) + "\n" + l
  {
    if |ls| > 1 {
      assert (ls + [l])[1..] == ls[1..] + [l];
      ImplodeSnoc(ls[1..], l);
    }
  }

  lemma {:induction false} ImplodeLength(ls: seq<string>)
    requires |ls| >= 1
    ensures |Implode(ls)| >= |ls[0]|
  {
    if |ls| > 1 {
      ImplodeLength(ls[1..]);
    }
  }

  /** The join equals implode when the first line is not empty. */
  lemma {:induction false} GlueAllIsImplode(ls: seq<string>)
    requires |ls| >= 1 && |ls[0]| > 0
    ensures GlueAll(ls) == Implode(ls)
    decreases |ls|
  {
    if |ls| > 1 {
      var init := ls[..|ls| - 1];
      GlueAllIsImplode(init);
      ImplodeLength(init);
      ImplodeSnoc(init, ls[|ls| - 1]);
      assert init + [ls[|ls| - 1]] == ls;
    } else {
      assert ls[..0] == [];
    }
  }

  /** An empty first line is lost: the join of "\nab" is "ab". */
  lemma GlueDropsLeadingNewline()
    ensures Explode("\nab") == ["", "ab"]
    ensures GlueAll(Explode("\nab")) == "ab"
  {
    assert "b"[1..] == "";
    assert Explode("") == [""];
    assert Explode("b") == [['b'] + ""] + [""][1..];
    assert [""][1..] == [] && ['b'] + "" == "b";
    assert [['b'] + ""] + [""][1..] == ["b"];
    assert "ab"[1..] == "b";
    assert Explode("ab") == [['a'] + "b"] + ["b"][1..];
    assert ["b"][1..] == [] && ['a'] + "b" == "ab";
    assert [['a'] + "b"] + ["b"][1..] == ["ab"];
    assert "\nab"[1..] == "ab";
    assert Explode("\nab") == ["", "ab"];
    assert ["", "ab"][..1] == [""];
    assert [""][..0] == [];
  }

  /** `line` cut to the longest prefix whose unbounded measurement is at most `width`. */
  ghost predicate LongestFit(m: Metrics, font: Font, line: string, h: string, v: string, width: real, l: string)
  {
    IsPrefix(l, line) && m.textSize(font, l, h, v, 0.0).width <= width
    && forall k :: |l| < k <= |line| ==> m.textSize(font, line[..k], h, v, 0.0).width > width
  }

  /** There is at most one longest fitting prefix. */
  lemma LongestFitUnique(m: Metrics, font: Font, line: string, h: string, v: string, width: real, l1: string, l2: string)
    requires LongestFit(m, font, line, h, v, width, l1) && LongestFit(m, font, line, h, v, width, l2)
    ensures l1 == l2
  {
    assert line[..|l1|] == l1 && line[..|l2|] == l2;
  }

  /** The chopping loop of setTextSize: drop the last byte while the line is
      too wide. When even the empty line is too wide the loop of the library
      never ends. */
  method ChopLine(m: Metrics, font: Font, line: string, h: string, v: string, width: real)
    returns (r: Result<string>)
    ensures r.Ok? ==> LongestFit(m, font, line, h, v, width, r.value)
    ensures r.Err? ==> (r.error == Diverges
      && forall k :: 0 <= k <= |line| ==> m.textSize(font, line[..k], h, v, 0.0).width > width)
  {
    var l := line;
    while m.textSize(font, l, h, v, 0.0).width > width && |l| > 0
      invariant IsPrefix(l, line)
      invariant forall k :: |l| < k <= |line| ==> m.textSize(font, line[..k], h, v, 0.0).width > width
      decreases |l|
    {
      assert line[..|l|] == l;
      l := l[..|l| - 1];
    }
    if m.textSize(font, l, h, v, 0.0).width > width {
      assert line[..0] == l;
      return Err(Diverges);
    }
    return Ok(l);
  }

  /** Every line cut to its longest fitting prefix, then joined. */
  method ChopLines(m: Metrics, font: Font, lines: seq<string>, h: string, v: string, width: real)
    returns (r: Result<string>, ghost chopped: seq<string>)
    ensures r.Err? ==> r.error == Diverges
    ensures r.Ok? ==> (|chopped| == |lines| && r.value == GlueAll(chopped)
      && forall i :: 0 <= i < |lines| ==> LongestFit(m, font, lines[i], h, v, width, chopped[i]))
  {
    var acc := "";
    chopped := [];
    for i := 0 to |lines|
      invariant |chopped| == i && acc == GlueAll(chopped)
      invariant forall j :: 0 <= j < i ==> LongestFit(m, font, lines[j], h, v, width, chopped[j])
    {
      var c := ChopLine(m, font, lines[i], h, v, width);
      if c.Err? {
        return Err(c.error), chopped;
      }
      assert (chopped + [c.value])[..i] == chopped;
      chopped := chopped + [c.value];
      acc := Glue(acc, c.value);
    }
    return Ok(acc), chopped;
  }

  // ---------------------------------------------------------------------
  // Sizing

  /** setTextSize: measure the text of the pass in `rect`; cut it by lines or
      by trimText where it is too wide, and by trimText where it is too high.
      A keep-together text that does not fit whole does not fit at all;
      otherwise the part that does not fit continues on the next pass. */
  method SetTextSize(rd: Renderer, t: TextState, b: Base, font: Font, rect: Rect, fuel: nat)
    returns (r: Result<(TextState, SizeState)>)
    ensures r.Err? ==> r.error == OutOfFuel || r.error == Diverges
    ensures r.Ok? ==> var (u, s) := r.value;
      u == t.(textToPrint := u.textToPrint, charsFitted := u.charsFitted, textLayout := u.textLayout)
      && u.charsFitted <= |u.textToPrint|
      // a wrapping text is cut where it does not fit, never rewritten
      && (t.wrapText ==> u.textToPrint == t.textToPrint)
      // an unwrapped text is never split over passes
      && (!t.wrapText ==> u.charsFitted == |u.textToPrint| && s.fits && !s.continued)
      // keep-together: all or nothing
      && (!s.fits ==> b.keepTogether && u.charsFitted == 0 && s == SizeState(ZeroSize, false, false)
                      && u.textLayout == t.textLayout)
      && (s.fits ==> s.continued == (u.charsFitted < |u.textToPrint|))
      && (s.fits ==> s.requiredSize == SizeOf(u.textLayout)
                     && u.textLayout.right <= rect.right && u.textLayout.bottom <= rect.bottom)
  {
    var m := rd.metrics;
    var h, v := b.hAlignment, b.vAlignment;
    var text := t.textToPrint;
    var charsFitted := |text|;
    var truncated := false;
    var limit := if h == "R" || !t.wrapText || !(b.useFullWidth || b.maxWidth > 0.0) then 0.0 else Width(rect);
    var required := m.textSize(font, text, h, v, limit);
    if !WidthFits(rect, required.width) {
      if !t.wrapText && Occurs(text, "\n") {
        var joined, _ := ChopLines(m, font, Explode(text), h, v, Width(rect));
        if joined.Err? {
          return Err(joined.error);
        }
        text := joined.value;
        charsFitted := |text|;
        required := required.(width := m.textSize(font, text, h, v, Width(rect)).width);
      } else {
        var trimmed, _ := rd.TrimText(text, font, t.wrapText, Width(rect), h, v, Height(rect), fuel);
        if trimmed.Err? {
          return Err(trimmed.error);
        }
        charsFitted := |trimmed.value|;
        if t.wrapText {
          required := m.textSize(font, trimmed.value, h, v, Width(rect));
        } else {
          required := required.(width := m.textSize(font, trimmed.value, h, v, Width(rect)).width);
          if charsFitted < |text| {
            truncated := true;
          }
        }
      }
    }
    if !HeightFits(rect, required.height) {
      var trimmed, _ := rd.TrimText(text, font, t.wrapText, Width(rect), h, v, Height(rect), fuel);
      if trimmed.Err? {
        return Err(trimmed.error);
      }
      charsFitted := |trimmed.value|;
      required := required.(height := m.textSize(font, trimmed.value, h, v, Width(rect)).height);
      if charsFitted < |text| && !t.wrapText {
        truncated := true;
      }
    }
    assert !t.wrapText ==> charsFitted == |text| && !truncated;
    if required.height == 0.0 {
      required := required.(height := m.fontHeight(font, h, v));
    }
    var continued := false;
    if charsFitted < |text| {
      if b.keepTogether {
        return Ok((t.(textToPrint := text, charsFitted := 0), SizeState(ZeroSize, false, false)));
      }
      if !truncated {
        continued := true;
      }
    }
    var layout := WithSizeAndAlign(rect, Some(required), h, v);
    return Ok((t.(textToPrint := text, charsFitted := charsFitted, textLayout := layout),
               SizeState(SizeOf(layout), true, continued)));
  }

  /** What doCalcSize of a text `t` leaves as `u` and reports as `s`: a
      layout lower than one line or narrower than the minimum width lays out
      nothing and continues; otherwise the text of the pass, from where the
      text stands, is sized in the rect as SetTextSize says. */
  ghost predicate PassSized(rd: Renderer, t: TextState, b: Base, font: Font, forRect: Rect, u: TextState, s: SizeState)
    reads rd
  {
    if !LayoutFits(forRect, rd.metrics.fontHeight(font, b.hAlignment, b.vAlignment), t.minimumWidth) then
      u == t.(textLayout := forRect) && s == SizeState(ZeroSize, false, true)
    else
      u == t.(textToPrint := u.textToPrint, skipped := Skipped(rd, t), charsFitted := u.charsFitted, textLayout := u.textLayout)
      && u.charsFitted <= |u.textToPrint|
      && (t.wrapText ==> u.textToPrint == TextToPrint(rd, t))
      && (!t.wrapText ==> u.charsFitted == |u.textToPrint| && s.fits && !s.continued)
      && (!s.fits ==> b.keepTogether && u.charsFitted == 0 && s == SizeState(ZeroSize, false, false)
                      && u.textLayout == forRect)
      && (s.fits ==> s.continued == (u.charsFitted < |u.textToPrint|)
                     && s.requiredSize == SizeOf(u.textLayout)
                     && u.textLayout.right <= forRect.right && u.textLayout.bottom <= forRect.bottom)
  }

  /** doCalcSize: a layout lower than one line or narrower than the minimum
      width does not fit and continues; otherwise the text of the pass is
      fetched and sized. */
  method TextCalcSize(rd: Renderer, t: TextState, b: Base, font: Font, forRect: Rect, fuel: nat)
    returns (r: Result<(TextState, SizeState)>)
    ensures r.Err? ==> r.error == OutOfFuel || r.error == Diverges
    ensures r.Ok? ==> PassSized(rd, t, b, font, forRect, r.value.0, r.value.1)
    ensures !LayoutFits(forRect, rd.metrics.fontHeight(font, b.hAlignment, b.vAlignment), t.minimumWidth) ==>
      r == Ok((t.(textLayout := forRect), SizeState(ZeroSize, false, true)))
    ensures LayoutFits(forRect, rd.metrics.fontHeight(font, b.hAlignment, b.vAlignment), t.minimumWidth) && r.Ok? ==>
      var (u, s) := r.value;
      u.charIndex == t.charIndex && u.skipped == Skipped(rd, t) && u.charsFitted <= |u.textToPrint|
      && (t.wrapText ==> u.textToPrint == TextToPrint(rd, t))
      && (s.fits ==> s.continued == (u.charsFitted < |u.textToPrint|))
      && (!s.fits ==> b.keepTogether && u.charsFitted == 0 && s == SizeState(ZeroSize, false, false))
  {
    var laid := t.(textLayout := forRect);
    if LayoutFits(forRect, rd.metrics.fontHeight(font, b.hAlignment, b.vAlignment), t.minimumWidth) {
      var pass := laid.(textToPrint := TextToPrint(rd, t), skipped := Skipped(rd, t));
      r := SetTextSize(rd, pass, b, font, forRect, fuel);
    } else {
      r := Ok((laid, SizeState(ZeroSize, false, true)));
    }
  }

  // ---------------------------------------------------------------------
  // Printing

  /** doBeginPrint: start at the beginning of the text. */
  function TextBeginPrint(t: TextState): (u: TextState)
    ensures u == t.(charIndex := 0)
  {
    t.(charIndex := 0)
  }

  /** The layout doPrint draws into. The background rect is the layout object
      itself, so widening it to the full width or height of `inRect` moves the
      text as well; its right (bottom) edge is set to the width (height) of
      `inRect`, not to its right (bottom) coordinate. */
  function PrintLayout(t: TextState, b: Base, inRect: Rect, background: string): (l: Rect)
    ensures background == "#FFFFFF" ==> l == t.textLayout
    ensures background != "#FFFFFF" ==>
      l.left == (if b.useFullWidth then inRect.left else t.textLayout.left)
      && l.right == (if b.useFullWidth then Width(inRect) else t.textLayout.right)
      && l.top == (if b.useFullHeight then inRect.top else t.textLayout.top)
      && l.bottom == (if b.useFullHeight then Height(inRect) else t.textLayout.bottom)
  {
    if background == "#FFFFFF" then t.textLayout
    else
      var w := if b.useFullWidth then t.textLayout.(left := inRect.left, right := Width(inRect)) else t.textLayout;
      if b.useFullHeight then w.(top := inRect.top, bottom := Height(inRect)) else w
  }

  /** The bytes printed in this pass. */
  function PrintedText(t: TextState): (s: string)
    ensures IsPrefix(s, t.textToPrint) && |s| == (if t.charsFitted < |t.textToPrint| then t.charsFitted else |t.textToPrint|)
  {
    Prefix(t.textToPrint, t.charsFitted)
  }

  /** Where the next pass starts, as the library computes it: the bytes
      printed are counted, the whitespace stripped before them is not. */
  function NextIndexAsWritten(t: TextState): nat
  {
    t.charIndex + t.charsFitted
  }

  /** Where the next pass starts: after the stripped whitespace and the
      printed bytes. */
  function NextIndex(t: TextState): (n: nat)
    ensures n == t.charIndex + t.skipped + t.charsFitted
  {
    t.charIndex + t.skipped + t.charsFitted
  }

  /** doPrint: the background (unless white) and the text of the pass in the
      layout, with the text colour; the next pass starts after this one. */
  function TextPrint(t: TextState, b: Base, inRect: Rect, font: Font, background: string, styleColor: string)
    : (res: (seq<DrawEvent>, TextState))
    ensures var l := PrintLayout(t, b, inRect, background);
      res.1 == t.(textLayout := l, charIndex := NextIndex(t))
      && res.0 == (if background == "#FFFFFF" then [] else [FillRect(l, background)])
                  + [TextBlock(PrintedText(t), font, l, b.hAlignment, b.vAlignment, TextColorOf(t, styleColor))]
  {
    var l := PrintLayout(t, b, inRect, background);
    ((if background == "#FFFFFF" then [] else [FillRect(l, background)])
      + [TextBlock(PrintedText(t), font, l, b.hAlignment, b.vAlignment, TextColorOf(t, styleColor))],
     t.(textLayout := l, charIndex := NextIndex(t)))
  }

  /** The advance doPrint uses here differs from the library's by exactly the
      whitespace stripped before the pass, and agrees with it when none was. */
  lemma TextPrintAdvance(t: TextState, b: Base, inRect: Rect, font: Font, background: string, styleColor: string)
    ensures var u := TextPrint(t, b, inRect, font, background, styleColor).1;
      u.charIndex == NextIndexAsWritten(t) + t.skipped
      && (t.skipped == 0 ==> u.charIndex == NextIndexAsWritten(t))
  {
  }

  /** With the library's advance, a text printed as "abc" and then as "def"
      starts its third pass at the "f" the second pass already printed; the
      corrected advance starts it at "ghi". */
  lemma NextIndexAsWrittenRepeats(t: TextState)
    requires t.text == "abc def ghi" && t.charIndex == 3
    requires t.textToPrint == "def ghi" && t.skipped == 1 && t.charsFitted == 3
    ensures PlainTextToPrint(t.text, t.charIndex) == t.textToPrint
    ensures PrintedText(t) == "def"
    ensures PlainTextToPrint(t.text, NextIndexAsWritten(t)) == "f ghi"
    ensures PlainTextToPrint(t.text, NextIndex(t)) == "ghi"
  {
    SecondPass();
    assert "def ghi"[..3] == "def";
    AsWrittenThirdPass();
    CorrectedThirdPass();
  }

  lemma SecondPass()
    ensures PlainTextToPrint("abc def ghi", 3) == "def ghi"
  {
    var s := "abc def ghi";
    assert s[3..] == " def ghi";
    assert " def ghi"[1..] == "def ghi";
    assert !IsTrimSpace('d');
  }

  lemma AsWrittenThirdPass()
    ensures PlainTextToPrint("abc def ghi", 6) == "f ghi"
  {
    var s := "abc def ghi";
    assert s[6..] == "f ghi";
    assert !IsTrimSpace('f');
  }

  lemma CorrectedThirdPass()
    ensures PlainTextToPrint("abc def ghi", 7) == "ghi"
  {
    var s := "abc def ghi";
    assert s[7..] == " ghi";
    assert " ghi"[1..] == "ghi";
    assert !IsTrimSpace('g');
  }

  /** With the corrected advance the printed pieces tile the text: the bytes
      of a pass are exactly the text after the stripped whitespace, and the
      next pass starts right after them. */
  lemma {:induction false} NextIndexTiles(text: string, charIndex: nat, charsFitted: nat)
    requires charIndex > 0 && charIndex < |text|
    requires charsFitted <= |PlainTextToPrint(text, charIndex)|
    ensures var p := PlainTextToPrint(text, charIndex);
      var k := |Suffix(text, charIndex)| - |p|;
      charIndex + k + charsFitted <= |text|
      && text[charIndex + k..charIndex + k + charsFitted] == p[..charsFitted]
      && (forall i :: charIndex <= i < charIndex + k ==> IsTrimSpace(text[i]))
  {
    var s := Suffix(text, charIndex);
    var p := PlainTextToPrint(text, charIndex);
    var k := |s| - |p|;
    assert p == s[k..];
    assert s == text[charIndex..];
    assert text[charIndex + k..charIndex + k + charsFitted] == s[k..][..charsFitted];
    forall i | charIndex <= i < charIndex + k
      ensures IsTrimSpace(text[i])
    {
      assert text[i] == s[i - charIndex];
    }
  }
}
