/**
 * The mapping between the paginator's zero-based page index, the
 * component's one-based `currentPage`, and the row offset `first` handed
 * back to the paginator.
 */
module Paging {

  /** Rows per page, fixed by the artworks provider and the paginator. */
  const RowsPerPage: nat := 12

  /** `onPage`: the paginator's zero-based index becomes a one-based page. */
  function PageFromEvent(eventPage: nat): (page: int)
    ensures page == eventPage + 1
    ensures page >= 1
  {
    eventPage + 1
  }

  /** `first`: the offset of the first row of a one-based page. */
  function FirstOffset(page: int): (first: int)
    requires page >= 1
    ensures first >= 0
    ensures first % RowsPerPage == 0
  {
    (page - 1) * RowsPerPage
  }

  /** The offset handed to the paginator is the start of the page it reported. */
  lemma OffsetOfEvent(eventPage: nat)
    ensures FirstOffset(PageFromEvent(eventPage)) == RowsPerPage * eventPage
  {
  }

  /**
   * The paginator recovers its page index as `first / rows`; reporting that
   * index back lands on the same page.
   */
  lemma PageRoundTrip(page: int)
    requires page >= 1
    ensures FirstOffset(page) / RowsPerPage >= 0
    ensures PageFromEvent(FirstOffset(page) / RowsPerPage) == page
  {
  }

  /** Different paginator indices select different pages and offsets. */
  lemma PageFromEventInjective(e1: nat, e2: nat)
    requires e1 != e2
    ensures PageFromEvent(e1) != PageFromEvent(e2)
    ensures FirstOffset(PageFromEvent(e1)) != FirstOffset(PageFromEvent(e2))
  {
  }
}
