# CustomDataTable: selection and pagination state

This project models the state kept by the `CustomDataTable` component of an
artworks browser. The component shows one page of 12 records from a remote
paginated provider. It keeps a set of selected record ids across pages. It
renders the rows of the loaded page whose id is in that set as ticked.

The model has five modules:

- `Records` (records.dfy): a row (`id` plus uninterpreted display columns) and
  the outcome of one page request. The outcome is either a failure (network or
  parse error) or a body whose `data` array and `pagination` object may each be
  missing.
- `Selection` (selection.dfy): the checkbox merge (`MergeSelection`, the copy
  and `forEach` loop of `onSelectionChange`). It also holds the view
  reconciler `SelectedOnPage`, the filter of the loaded rows by membership.
  Lemmas give the set arithmetic of the merge and the exact meaning of the
  filter.
- `Paging` (paging.dfy): the paginator's zero-based index, the one-based
  `currentPage`, and the `first` row offset.
- `Screen` (screen.dfy): what is rendered as a value. It is either the "No data
  available" placeholder, or the table with an optional Clear All button and
  an optional selected-count line.
- `DataTable` (data_table.dfy): the class `CustomDataTable` with the five state
  fields (`tableData`, `loading`, `totalRecords`, `currentPage`,
  `selectedProductIds`) and the handlers that update them in place.

`fetchTableData` is split at its `await` into `BeginFetch` (loading starts)
and `CompleteFetch` (the response is handled, loading ends). This makes the
in-flight state visible. The network result is a parameter of
`CompleteFetch`. `ChangePage` runs `OnPage` and then, only when the page
number actually changed, `BeginFetch` and `CompleteFetch`. This is how the
component's effect re-fetches: it re-runs only when `currentPage` takes a
new value, so a page event for the page already showing fetches nothing.

Behaviour of the component worth stating outright:

- The component has no "select first N records" bulk walk across pages.
- It has no per-row remove. The merge only ever adds, so unticking a
  checkbox deselects nothing (`UntickKeepsSelection`). Only Clear All shrinks
  the set.
- No record payloads are cached beside the ids.
- The page size is the constant 12, not a parameter.
- A failed page load, or a body without rows, keeps the previous rows and
  total. A body with rows but no `pagination` object stores the rows and then
  throws while reading `total`, so `tableData` changes but `totalRecords`
  keeps its old value.

## Model

| member | source | states |
|---|---|---|
| Selection.IdsOf | src/components/CustomDataTable.tsx:45-47 | the ids collected from an event's rows are no more than the rows and include every row's id |
| Selection.IdsOfMembership | src/components/CustomDataTable.tsx:45-47 | an id is collected if and only if some row of the event carries it |
| Selection.IdsOfAppend | src/components/CustomDataTable.tsx:45-47 | collecting ids over two concatenated event lists is the union of collecting each |
| Selection.MergeSelection | src/components/CustomDataTable.tsx:43-49 | the merged set is the old selection united with the ids of every event row, so nothing is removed |
| Selection.MergeGrowth | src/components/CustomDataTable.tsx:43-47 | a merge keeps every selected id and grows the set by exactly the number of distinct new ids |
| Selection.DuplicateRowCountsOnce | src/components/CustomDataTable.tsx:45-47 | the same unselected row twice in one event grows the selection by 1, not 2 |
| Selection.MergeIdempotent | src/components/CustomDataTable.tsx:43-47 | merging the same event again, or an event with its rows doubled, changes nothing more |
| Selection.SelectedOnPage | src/components/CustomDataTable.tsx:58-60 | every ticked row is a loaded row whose id is selected, and there are no more ticked rows than loaded ones |
| Selection.SelectedOnPageMembership | src/components/CustomDataTable.tsx:58-60 | a row renders ticked if and only if it is loaded and its id is selected |
| Selection.SelectedOnPageAppend | src/components/CustomDataTable.tsx:58-60 | the filter distributes over concatenation of pages, so page order is kept |
| Selection.SelectedOnPageIsSubsequence | src/components/CustomDataTable.tsx:58-60 | the ticked rows are an order-preserving subsequence of the loaded rows |
| Selection.SelectedOnPageEmpty | src/components/CustomDataTable.tsx:54-60 | with an empty selection no row renders ticked |
| Selection.SelectedOnPageAll | src/components/CustomDataTable.tsx:58-60 | when every loaded id is selected, the whole page renders ticked |
| Selection.UntickKeepsSelection | src/components/CustomDataTable.tsx:41-60 | an event made only of rows that already render ticked (an untick) leaves the selection unchanged |
| Selection.TickedRowsBoundedBySelection | src/components/CustomDataTable.tsx:58-60 | on a page with distinct ids, the number of ticked rows is at most the size of the selection |
| Paging.PageFromEvent | src/components/CustomDataTable.tsx:91 | the page chosen from a paginator index is the index plus 1, hence at least 1 |
| Paging.FirstOffset | src/components/CustomDataTable.tsx:90 | the row offset of a page is non-negative and a multiple of 12 |
| Paging.OffsetOfEvent | src/components/CustomDataTable.tsx:90-91 | the offset handed back for paginator index e is 12 * e |
| Paging.PageRoundTrip | src/components/CustomDataTable.tsx:90-91 | the index recovered as first / 12 maps back to the same page |
| Paging.PageFromEventInjective | src/components/CustomDataTable.tsx:90-91 | distinct paginator indices give distinct pages and offsets |
| Screen.Render | src/components/CustomDataTable.tsx:64-95 | the table shows exactly the loaded rows and no more ticked rows than loaded ones |
| Screen.NoDataIff | src/components/CustomDataTable.tsx:64-65 | "No data available" shows if and only if no rows are loaded |
| Screen.SelectionControlsIff | src/components/CustomDataTable.tsx:68-82 | the Clear All button and the count line show if and only if rows are loaded and the selection is non-empty, and both display its size |
| Screen.RenderedSelectionReconciled | src/components/CustomDataTable.tsx:58-95 | the rendered selection is recomputed from the rendered rows and set: a row is ticked if and only if its id is selected |
| Screen.ShownCountCoversTickedRows | src/components/CustomDataTable.tsx:78-97 | with distinct row ids, the shown count is at least the number of ticked rows |
| DataTable.CustomDataTable.constructor | src/components/CustomDataTable.tsx:8-15 | empty rows, not loading, total 0, page 1, empty selection; the placeholder is shown |
| DataTable.CustomDataTable.SelectedProductsForCurrentPage | src/components/CustomDataTable.tsx:58-60 | derived from the current state on every read; every ticked row is loaded and selected |
| DataTable.CustomDataTable.BeginFetch | src/components/CustomDataTable.tsx:18 | a fetch in flight shows loading; nothing else changes |
| DataTable.CustomDataTable.CompleteFetch | src/components/CustomDataTable.tsx:24-34 | rows (and total, when pagination is present) are replaced only by a body with rows; otherwise both are kept; loading ends on every outcome; loaded rows never become empty |
| DataTable.CustomDataTable.OnSelectionChange | src/components/CustomDataTable.tsx:41-52 | the new selection is the old one plus the event's ids, grows by the distinct new ids, and every event row on the page renders ticked |
| DataTable.CustomDataTable.ClearAllSelections | src/components/CustomDataTable.tsx:54-56 | the selection is empty, no row renders ticked, and the Clear All button and count line are hidden |
| DataTable.CustomDataTable.OnPage | src/components/CustomDataTable.tsx:91 | the current page is the index plus 1 and its offset is 12 times the index; nothing else changes |
| DataTable.CustomDataTable.ChangePage | src/components/CustomDataTable.tsx:37-39 | navigation sets the page and keeps the selection; when the page changed it applies the fetch outcome to the rows and total and ends not loading; when the same page is reported, rows, total and loading are unchanged |
| DataTable.LeaveAndReturn | src/components/CustomDataTable.tsx:37-39 | leaving a page and returning keeps the selection, and when the two pages differ the same returned rows render ticked again |

## Left out

- The HTTP request, URL construction and JSON parsing: the result of a page
  request is the `FetchOutcome` parameter of `CompleteFetch`.
- `console.error` logging on an empty body or a failed request.
- React hook scheduling (`useState` batching, `useEffect`, `useCallback`
  dependency lists) and overlapping fetches of different pages. Each fetch is
  modelled as completing before the next handler runs.
- JSX layout, the PrimeReact table, column and button widgets, and styles.
  Only the render guards and the properties the state feeds are modelled
  (`Screen.Render`).
- src/App.tsx, which only mounts the component.
- Payloads that are not JSON arrays or objects of the expected shape (a `data`
  that is a string, a `pagination` without `total`). The model takes `data`
  and `pagination` as present or missing.
- Record ids are typed as strings. Identity comparison of mixed number and
  string ids in a JavaScript `Set` is not modelled.
