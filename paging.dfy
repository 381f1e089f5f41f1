/** Translation between the table widget's 0-based page index, the app's 1-based
    page number and the offset of the page's first row. */
module Paging {
  import opened Wrappers

  /** Fixed number of rows the table shows per page. */
  const RowsPerPage: int := 12

  /** The page number for a widget page index; an absent index stands for the first page. */
  function PageOfIndex(index: Option<int>): (page: int)
    ensures index.None? ==> page == 1
    ensures index.Some? && index.value >= 0 ==> page >= 1
    ensures index.Some? ==> page - 1 == index.value
  {
    (if index.Some? then index.value else 0) + 1
  }

  /** The offset of the first row of a page, as handed back to the widget. */
  function FirstRowOffset(page: int): (offset: int)
    ensures page >= 1 ==> offset >= 0 && offset % RowsPerPage == 0
    ensures page >= 1 ==> offset / RowsPerPage == page - 1
  {
    (page - 1) * RowsPerPage
  }

  /** Index to page to offset round-trips: the widget gets back the page it asked for. */
  lemma IndexPageOffsetRoundTrip(k: int)
    requires k >= 0
    ensures PageOfIndex(Some(k)) >= 1
    ensures FirstRowOffset(PageOfIndex(Some(k))) == k * RowsPerPage
    ensures FirstRowOffset(PageOfIndex(Some(k))) / RowsPerPage == k
  {
  }

  /** Distinct pages start at distinct offsets. */
  lemma FirstRowOffsetInjective(p: int, q: int)
    requires FirstRowOffset(p) == FirstRowOffset(q)
    ensures p == q
  {
  }
}
