/**
 * What the component renders, reduced to the parts that depend on its
 * state: the "No data available" placeholder, or the table with its
 * optional Clear All button, its optional selected-count line and the
 * properties handed to the paginated table.
 */
module Screen {
  import opened Records
  import opened Selection
  import opened Paging

  datatype View =
    | NoDataMessage
    | Table(
        clearAllButton: Option<nat>,   // label count of "Clear All (n)", when shown
        selectedCountLine: Option<nat>, // "Total Selected Items: n", when shown
        rows: seq<Row>,
        totalRecords: int,
        first: int,
        loading: bool,
        selection: seq<Row>)

  function Render(tableData: seq<Row>, loading: bool, totalRecords: int, currentPage: int,
                  selected: set<RecordId>): (view: View)
    requires currentPage >= 1
    ensures view.Table? ==> view.rows == tableData && |view.selection| <= |tableData|
  {
    if |tableData| == 0 then NoDataMessage
    else
      var counter := if |selected| > 0 then Some(|selected|) else None;
      Table(counter, counter, tableData, totalRecords, FirstOffset(currentPage), loading,
            SelectedOnPage(tableData, selected))
  }

  /** The placeholder shows exactly when no rows are loaded. */
  lemma NoDataIff(tableData: seq<Row>, loading: bool, totalRecords: int, currentPage: int,
                  selected: set<RecordId>)
    requires currentPage >= 1
    ensures Render(tableData, loading, totalRecords, currentPage, selected).NoDataMessage?
            <==> tableData == []
  {
  }

  /**
   * The Clear All button and the selected-count line show exactly when rows
   * are loaded and the selection is non-empty, and both display the size of
   * the selection.
   */
  lemma SelectionControlsIff(tableData: seq<Row>, loading: bool, totalRecords: int, currentPage: int,
                             selected: set<RecordId>)
    requires currentPage >= 1
    ensures var view := Render(tableData, loading, totalRecords, currentPage, selected);
            (view.Table? && view.clearAllButton.Some?) <==> (tableData != [] && selected != {})
    ensures var view := Render(tableData, loading, totalRecords, currentPage, selected);
            (view.Table? && view.selectedCountLine.Some?) <==> (tableData != [] && selected != {})
    ensures var view := Render(tableData, loading, totalRecords, currentPage, selected);
            view.Table? && view.clearAllButton.Some? ==>
              view.clearAllButton.value == |selected| && view.selectedCountLine == view.clearAllButton
  {
  }

  /**
   * The ticked rows are recomputed from the rows and the selection being
   * rendered: a row renders ticked exactly when its id is selected.
   */
  lemma RenderedSelectionReconciled(tableData: seq<Row>, loading: bool, totalRecords: int,
                                    currentPage: int, selected: set<RecordId>, r: Row)
    requires currentPage >= 1
    ensures var view := Render(tableData, loading, totalRecords, currentPage, selected);
            view.Table? ==> (r in view.selection <==> r in tableData && r.id in selected)
  {
    SelectedOnPageMembership(tableData, selected, r);
  }

  /**
   * On a page with distinct ids, the shown selected count is never smaller
   * than the number of ticked rows.
   */
  lemma ShownCountCoversTickedRows(tableData: seq<Row>, loading: bool, totalRecords: int,
                                   currentPage: int, selected: set<RecordId>)
    requires currentPage >= 1
    requires DistinctIds(tableData)
    ensures var view := Render(tableData, loading, totalRecords, currentPage, selected);
            view.Table? && view.selection != [] ==>
              view.selectedCountLine.Some? && |view.selection| <= view.selectedCountLine.value
  {
    TickedRowsBoundedBySelection(tableData, selected);
  }
}
