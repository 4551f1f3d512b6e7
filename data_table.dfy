/**
 * The state of the `CustomDataTable` component and the handlers that change
 * it: the fetch of a page, the checkbox merge, Clear All and page change.
 */
module DataTable {
  import opened Records
  import opened Selection
  import opened Paging
  import opened Screen

  class CustomDataTable {
    var tableData: seq<Row>
    var loading: bool
    var totalRecords: int
    var currentPage: int
    var selectedProductIds: set<RecordId>

    ghost predicate Valid()
      reads this
    {
      currentPage >= 1
    }

    /** The component's initial state, before the first fetch completes. */
    constructor ()
      ensures Valid()
      ensures tableData == [] && !loading && totalRecords == 0
      ensures currentPage == 1 && selectedProductIds == {}
      ensures Rendered() == NoDataMessage
    {
      tableData := [];
      loading := false;
      totalRecords := 0;
      currentPage := 1;
      selectedProductIds := {};
    }

    /** The rows of the loaded page that render ticked, derived on every read. */
    function SelectedProductsForCurrentPage(): (visible: seq<Row>)
      reads this
      ensures forall r :: r in visible ==> r in tableData && r.id in selectedProductIds
    {
      SelectedOnPage(tableData, selectedProductIds)
    }

    /** What the component renders in its current state. */
    function Rendered(): View
      reads this
      requires Valid()
    {
      Render(tableData, loading, totalRecords, currentPage, selectedProductIds)
    }

    /** A fetch starts: the table shows its loading state; nothing else changes. */
    method BeginFetch()
      requires Valid()
      modifies this`loading
      ensures Valid() && loading
    {
      loading := true;
    }

    /**
     * A fetch ends. A body with at least one row replaces the rows, and its
     * total replaces `totalRecords` when the `pagination` object is there
     * (reading `total` of a missing one throws after the rows were stored).
     * An empty or missing `data`, or a failed request, keeps both. Loading
     * ends on every outcome, and the selection and page are untouched.
     */
    method CompleteFetch(outcome: FetchOutcome)
      requires Valid()
      modifies this`loading, this`tableData, this`totalRecords
      ensures Valid() && !loading
      ensures HasRows(outcome) ==> tableData == outcome.data.value
      ensures !HasRows(outcome) ==> tableData == old(tableData)
      ensures HasRows(outcome) && outcome.pagination.Some? ==> totalRecords == outcome.pagination.value.total
      ensures !(HasRows(outcome) && outcome.pagination.Some?) ==> totalRecords == old(totalRecords)
      ensures old(tableData) != [] ==> tableData != []
    {
      match outcome {
        case FetchFailed =>
          loading := false;
        case Body(data, pagination) =>
          if data.Some? && |data.value| > 0 {
            tableData := data.value;
            if pagination.None? {
              loading := false;
              return;
            }
            totalRecords := pagination.value.total;
          }
          loading := false;
      }
    }

    /**
     * A checkbox event: every id of the event's rows joins the selection;
     * none leaves it. Each row of the event that is on the loaded page then
     * renders ticked.
     */
    method OnSelectionChange(rows: seq<Row>)
      requires Valid()
      modifies this`selectedProductIds
      ensures Valid()
      ensures selectedProductIds == old(selectedProductIds) + IdsOf(rows)
      ensures old(selectedProductIds) <= selectedProductIds
      ensures |selectedProductIds| == |old(selectedProductIds)| + |IdsOf(rows) - old(selectedProductIds)|
      ensures forall r :: r in rows && r in tableData ==> r in SelectedProductsForCurrentPage()
    {
      var merged := MergeSelection(selectedProductIds, rows);
      MergeGrowth(selectedProductIds, rows);
      forall r | r in rows && r in tableData
        ensures r in SelectedOnPage(tableData, merged)
      {
        SelectedOnPageMembership(tableData, merged, r);
      }
      selectedProductIds := merged;
    }

    /**
     * Clear All: the selection becomes empty, no row renders ticked, and
     * the Clear All button and the selected-count line disappear.
     */
    method ClearAllSelections()
      requires Valid()
      modifies this`selectedProductIds
      ensures Valid()
      ensures selectedProductIds == {} && |selectedProductIds| == 0
      ensures SelectedProductsForCurrentPage() == []
      ensures Rendered().Table? ==>
                Rendered().clearAllButton == None && Rendered().selectedCountLine == None
    {
      selectedProductIds := {};
      SelectedOnPageEmpty(tableData);
    }

    /**
     * The paginator's `onPage`: the zero-based index becomes the current
     * page, and the offset handed back starts that page.
     */
    method OnPage(eventPage: nat)
      requires Valid()
      modifies this`currentPage
      ensures Valid()
      ensures currentPage == eventPage + 1
      ensures FirstOffset(currentPage) == RowsPerPage * eventPage
    {
      currentPage := PageFromEvent(eventPage);
      OffsetOfEvent(eventPage);
    }

    /**
     * Navigation as the component wires it: the page changes, and only when
     * it differs from the page already showing does the effect start a fetch
     * of that page, which completes with `outcome`. Reporting the page that
     * is showing stores the same value, so no fetch runs and the rows, the
     * total and the loading flag stay as they were. Every selected id
     * survives either way.
     */
    method ChangePage(eventPage: nat, outcome: FetchOutcome)
      requires Valid()
      modifies this`currentPage, this`loading, this`tableData, this`totalRecords
      ensures Valid()
      ensures currentPage == eventPage + 1
      ensures selectedProductIds == old(selectedProductIds)
      ensures old(currentPage) == eventPage + 1 ==>
                tableData == old(tableData) && totalRecords == old(totalRecords) && loading == old(loading)
      ensures old(currentPage) != eventPage + 1 ==> !loading
      ensures old(currentPage) != eventPage + 1 && HasRows(outcome) ==> tableData == outcome.data.value
      ensures old(currentPage) != eventPage + 1 && !HasRows(outcome) ==> tableData == old(tableData)
      ensures old(currentPage) != eventPage + 1 && HasRows(outcome) && outcome.pagination.Some? ==>
                totalRecords == outcome.pagination.value.total
      ensures old(currentPage) != eventPage + 1 && !(HasRows(outcome) && outcome.pagination.Some?) ==>
                totalRecords == old(totalRecords)
    {
      var previous := currentPage;
      OnPage(eventPage);
      if currentPage != previous {
        BeginFetch();
        CompleteFetch(outcome);
      }
    }
  }

  /**
   * Leaving the loaded page and coming back to it: the selection is the
   * same set afterwards, so when the two pages differ and the provider
   * returns the same rows again, the same rows render ticked.
   */
  method LeaveAndReturn(t: CustomDataTable, away: nat, awayOutcome: FetchOutcome,
                        back: nat, backOutcome: FetchOutcome)
    requires t.Valid()
    modifies t
    ensures t.Valid() && t.currentPage == back + 1
    ensures t.selectedProductIds == old(t.selectedProductIds)
    ensures away != back && HasRows(backOutcome) && backOutcome.data.value == old(t.tableData) ==>
              t.SelectedProductsForCurrentPage() == old(t.SelectedProductsForCurrentPage())
  {
    t.ChangePage(away, awayOutcome);
    t.ChangePage(back, backOutcome);
  }
}
