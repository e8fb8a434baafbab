// The page condition of a page frame (src/PageFrame.php): a page frame
// prints its contents only on the pages its page number selects.
module PageFrames {
  import opened Wrappers

  /** The selectors besides a page number (C_OnAllPages .. C_OnAllButFirstPage). */
  const OnAllPages: int := 0
  const OnOddPages: int := -1
  const OnEvenPages: int := -2
  const OnAllButFirstPage: int := -3

  /** printOnPage. */
  function PrintOnPage(onPageNr: int, page: int): (b: bool)
  {
    if onPageNr > 0 then page == onPageNr
    else if onPageNr == OnOddPages then PhpRem(page, 2) != 0
    else if onPageNr == OnEvenPages then PhpRem(page, 2) != 1
    else if onPageNr == OnAllButFirstPage then page != 1
    else true
  }

  /** What each selector means on the (never negative) page numbers. */
  lemma PrintOnPageMeaning(onPageNr: int, page: nat)
    ensures onPageNr > 0 ==> (PrintOnPage(onPageNr, page) <==> page == onPageNr)
    ensures onPageNr == OnAllPages ==> PrintOnPage(onPageNr, page)
    ensures onPageNr == OnOddPages ==> (PrintOnPage(onPageNr, page) <==> page % 2 == 1)
    ensures onPageNr == OnEvenPages ==> (PrintOnPage(onPageNr, page) <==> page % 2 == 0)
    ensures onPageNr == OnAllButFirstPage ==> (PrintOnPage(onPageNr, page) <==> page != 1)
    ensures onPageNr < OnAllButFirstPage ==> PrintOnPage(onPageNr, page)
  {
  }

  /** The odd and the even selector split the pages between them. */
  lemma OddEvenPartition(page: nat)
    ensures PrintOnPage(OnOddPages, page) != PrintOnPage(OnEvenPages, page)
  {
  }
}
