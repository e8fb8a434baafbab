// Page breaks (src/BreakFrame.php). A break fills the rest of the page on
// which it is first sized, registers its page format for the pages from the
// next one on, and takes no space on any later page.
module Breaks {
  import opened Wrappers
  import opened Geometry
  import opened PageFormats

  datatype BreakState = BreakState(pageNumber: int, firstTimeCalled: bool, pageFormat: PageFormat)

  /** The constructor; the page number is set by the first sizing pass. */
  function NewBreak(pageFormat: PageFormat): (b: BreakState)
    ensures b.pageFormat == pageFormat
  {
    BreakState(0, false, pageFormat)
  }

  /** doBeginPrint: arm the break. */
  function BreakBeginPrint(b: BreakState): (c: BreakState)
    ensures c.firstTimeCalled && c.pageNumber == b.pageNumber && c.pageFormat == b.pageFormat
  {
    b.(firstTimeCalled := true)
  }

  /** doCalcSize on page `page`: the new state, the sizing result and the
      page format to register, if any, with the page it governs from. */
  function BreakCalcSize(b: BreakState, page: int, forRect: Rect): (res: (BreakState, SizeState, Option<(int, PageFormat)>))
    ensures res.1.fits
    // the first pass after arming: remember the page, register the format
    // for the next page, and take the whole rect
    ensures b.firstTimeCalled ==>
      res.0 == b.(firstTimeCalled := false, pageNumber := page)
      && res.2 == Some((page + 1, b.pageFormat))
      && res.1 == SizeState(SizeOf(forRect), true, true)
    // later passes register nothing and leave the state alone
    ensures !b.firstTimeCalled ==> res.0 == b && res.2 == None
    ensures !b.firstTimeCalled && page == b.pageNumber ==> res.1 == SizeState(SizeOf(forRect), true, true)
    ensures !b.firstTimeCalled && page != b.pageNumber ==> res.1 == SizeState(ZeroSize, true, false)
  {
    if b.firstTimeCalled then
      (b.(firstTimeCalled := false, pageNumber := page), SizeState(SizeOf(forRect), true, true), Some((page + 1, b.pageFormat)))
    else if page == b.pageNumber then
      (b, SizeState(SizeOf(forRect), true, true), None)
    else
      (b, SizeState(ZeroSize, true, false), None)
  }

  /** The life of a break in one pass: armed, it continues on its page however
      often it is sized there, and takes no space on the next page. */
  lemma BreakLifeCycle(b: BreakState, page: int, r1: Rect, r2: Rect, r3: Rect)
    ensures var s1 := BreakCalcSize(BreakBeginPrint(b), page, r1);
      var s2 := BreakCalcSize(s1.0, page, r2);
      var s3 := BreakCalcSize(s2.0, page + 1, r3);
      s1.1.continued && s1.2 == Some((page + 1, b.pageFormat))
      && s2.1.continued && s2.1.requiredSize == SizeOf(r2) && s2.2.None?
      && !s3.1.continued && s3.1.requiredSize == ZeroSize && s3.2.None?
  {
  }
}
