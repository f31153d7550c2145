/** The paging cursor: the 1-based page number kept by the component, the page event of the
    table (0-based) and the first-row offset handed back to the table. */
module Paging {
  import opened Wrappers

  /** Rows per page, fixed by the table and assumed by the bulk selection. */
  const RowsPerPage: int := 10

  /** `(event.page ?? 0) + 1`: the 1-based page number after a page event. */
  function PageAfterChange(eventPage: Option<int>): (page: int)
    ensures eventPage.None? ==> page == 1
    ensures eventPage.Some? ==> page - 1 == eventPage.value
  {
    eventPage.GetOr(0) + 1
  }

  /** `(page - 1) * 10`: the zero-based index of the page's first row. */
  function FirstOffset(page: int): (first: int)
    ensures page >= 1 ==> first >= 0 && first % RowsPerPage == 0
    ensures first / RowsPerPage + 1 == page
  {
    (page - 1) * RowsPerPage
  }

  /** After a page event the table's offset is the event's 0-based page times the page size,
      and an event without a page goes back to the top. */
  lemma PageChangeOffset(eventPage: Option<int>)
    ensures FirstOffset(PageAfterChange(eventPage)) == eventPage.GetOr(0) * RowsPerPage
    ensures eventPage.None? ==> FirstOffset(PageAfterChange(eventPage)) == 0
  {
  }

  /** Moving to the third page (event page 2) puts the table at row offset 20. */
  lemma ThirdPageOffset()
    ensures PageAfterChange(Some(2)) == 3
    ensures FirstOffset(PageAfterChange(Some(2))) == 20
  {
  }
}
