/**
 * The selection set of the data table: how a checkbox event is merged into
 * it, and how it is reconciled against the page currently loaded.
 */
module Selection {
  import opened Records

  /** The ids of `rows`, collected in the order a `forEach` visits them. */
  function IdsOf(rows: seq<Row>): (ids: set<RecordId>)
    ensures |ids| <= |rows|
    ensures forall r :: r in rows ==> r.id in ids
  {
    if rows == [] then {} else IdsOf(rows[..|rows| - 1]) + {rows[|rows| - 1].id}
  }

  /** An id is collected exactly when some row carries it. */
  lemma {:induction false} IdsOfMembership(rows: seq<Row>, id: RecordId)
    ensures id in IdsOf(rows) <==> exists i :: 0 <= i < |rows| && rows[i].id == id
  {
    if rows != [] {
      var init := rows[..|rows| - 1];
      IdsOfMembership(init, id);
      if id in IdsOf(init) {
        var i :| 0 <= i < |init| && init[i].id == id;
        assert rows[i].id == id;
      }
      if exists i :: 0 <= i < |rows| && rows[i].id == id {
        var i :| 0 <= i < |rows| && rows[i].id == id;
        if i < |init| {
          assert init[i].id == id;
        }
      }
    }
  }

  /** Collecting the ids of two event lists one after the other. */
  lemma {:induction false} IdsOfAppend(a: seq<Row>, b: seq<Row>)
    ensures IdsOf(a + b) == IdsOf(a) + IdsOf(b)
  {
    if b == [] {
      assert a + b == a;
    } else {
      var last := |b| - 1;
      assert (a + b)[..|a + b| - 1] == a + b[..last];
      IdsOfAppend(a, b[..last]);
    }
  }

  /**
   * The `onSelectionChange` handler body: copy the current set, add the id
   * of every row of the event, return the copy. Nothing is ever removed.
   */
  method MergeSelection(selected: set<RecordId>, rows: seq<Row>) returns (merged: set<RecordId>)
    ensures merged == selected + IdsOf(rows)
  {
    merged := selected;
    var i := 0;
    while i < |rows|
      invariant 0 <= i <= |rows|
      invariant merged == selected + IdsOf(rows[..i])
    {
      assert rows[..i + 1][..i] == rows[..i];
      merged := merged + {rows[i].id};
      i := i + 1;
    }
    assert rows[..i] == rows;
  }

  /**
   * A merge grows the set by exactly the number of distinct ids of the
   * event that were not selected yet.
   */
  lemma MergeGrowth(selected: set<RecordId>, rows: seq<Row>)
    ensures selected <= selected + IdsOf(rows)
    ensures |selected + IdsOf(rows)| == |selected| + |IdsOf(rows) - selected|
  {
  }

  /** Ticking the same row twice in one event adds its id once. */
  lemma DuplicateRowCountsOnce(selected: set<RecordId>, r: Row)
    requires r.id !in selected
    ensures |selected + IdsOf([r, r])| == |selected| + 1
  {
  }

  /** Re-delivering an event whose ids are all selected changes nothing. */
  lemma MergeIdempotent(selected: set<RecordId>, rows: seq<Row>)
    ensures (selected + IdsOf(rows)) + IdsOf(rows) == selected + IdsOf(rows)
    ensures IdsOf(rows + rows) == IdsOf(rows)
  {
    IdsOfAppend(rows, rows);
  }

  /**
   * The rows of the loaded page that render ticked: the page filtered by
   * membership of their id in the selection, in page order.
   */
  function SelectedOnPage(page: seq<Row>, selected: set<RecordId>): (visible: seq<Row>)
    ensures |visible| <= |page|
    ensures forall r :: r in visible ==> r in page && r.id in selected
  {
    if page == [] then []
    else (if page[0].id in selected then [page[0]] else []) + SelectedOnPage(page[1..], selected)
  }

  /** A row renders ticked exactly when it is on the page and its id is selected. */
  lemma {:induction false} SelectedOnPageMembership(page: seq<Row>, selected: set<RecordId>, r: Row)
    ensures r in SelectedOnPage(page, selected) <==> r in page && r.id in selected
  {
    if page != [] {
      SelectedOnPageMembership(page[1..], selected, r);
      assert page == [page[0]] + page[1..];
    }
  }

  /** The filter distributes over concatenation: page order is kept. */
  lemma {:induction false} SelectedOnPageAppend(a: seq<Row>, b: seq<Row>, selected: set<RecordId>)
    ensures SelectedOnPage(a + b, selected) == SelectedOnPage(a, selected) + SelectedOnPage(b, selected)
  {
    if a != [] {
      assert (a + b)[1..] == a[1..] + b;
      SelectedOnPageAppend(a[1..], b, selected);
    } else {
      assert a + b == b;
    }
  }

  /** `sub` is obtained from `s` by deleting elements, keeping the order of the rest. */
  ghost predicate IsSubsequence<T>(sub: seq<T>, s: seq<T>)
    decreases |s|
  {
    sub == [] || (s != [] && ((sub[0] == s[0] && IsSubsequence(sub[1..], s[1..])) || IsSubsequence(sub, s[1..])))
  }

  /** The ticked rows are an order-preserving subsequence of the page. */
  lemma {:induction false} SelectedOnPageIsSubsequence(page: seq<Row>, selected: set<RecordId>)
    ensures IsSubsequence(SelectedOnPage(page, selected), page)
  {
    if page != [] {
      SelectedOnPageIsSubsequence(page[1..], selected);
      var rest := SelectedOnPage(page[1..], selected);
      if page[0].id in selected {
        assert SelectedOnPage(page, selected) == [page[0]] + rest;
        assert ([page[0]] + rest)[1..] == rest;
      } else {
        assert SelectedOnPage(page, selected) == rest;
      }
    }
  }

  /** With an empty selection no row renders ticked. */
  lemma SelectedOnPageEmpty(page: seq<Row>)
    ensures SelectedOnPage(page, {}) == []
  {
  }

  /** When every id on the page is selected, the whole page renders ticked. */
  lemma {:induction false} SelectedOnPageAll(page: seq<Row>, selected: set<RecordId>)
    requires IdsOf(page) <= selected
    ensures SelectedOnPage(page, selected) == page
  {
    if page != [] {
      assert page[0] in page;
      IdsOfAppend([page[0]], page[1..]);
      assert [page[0]] + page[1..] == page;
      SelectedOnPageAll(page[1..], selected);
    }
  }

  /**
   * An event made only of rows that already render ticked leaves the set as
   * it was: unticking one checkbox hands the handler the remaining ticked
   * rows, so it deselects nothing.
   */
  lemma UntickKeepsSelection(page: seq<Row>, selected: set<RecordId>, rows: seq<Row>)
    requires forall r :: r in rows ==> r in SelectedOnPage(page, selected)
    ensures selected + IdsOf(rows) == selected
  {
    forall id | id in IdsOf(rows)
      ensures id in selected
    {
      IdsOfMembership(rows, id);
      var i :| 0 <= i < |rows| && rows[i].id == id;
      assert rows[i] in rows;
    }
  }

  /** The ids of a page are pairwise distinct (the table's `dataKey`). */
  ghost predicate DistinctIds(page: seq<Row>)
  {
    forall i, j :: 0 <= i < j < |page| ==> page[i].id != page[j].id
  }

  /** Without duplicate ids, a page has as many ids as rows. */
  lemma {:induction false} DistinctIdsCount(page: seq<Row>)
    requires DistinctIds(page)
    ensures |IdsOf(page)| == |page|
  {
    if page != [] {
      var init := page[..|page| - 1];
      DistinctIdsCount(init);
      IdsOfMembership(init, page[|page| - 1].id);
    }
  }

  /** The ticked rows of a page whose ids are distinct still have distinct ids. */
  lemma {:induction false} SelectedOnPageDistinct(page: seq<Row>, selected: set<RecordId>)
    requires DistinctIds(page)
    ensures DistinctIds(SelectedOnPage(page, selected))
  {
    if page != [] {
      SelectedOnPageDistinct(page[1..], selected);
      var rest := SelectedOnPage(page[1..], selected);
      if page[0].id in selected {
        forall j | 0 <= j < |rest|
          ensures page[0].id != rest[j].id
        {
          assert rest[j] in rest;
          var k :| 0 <= k < |page[1..]| && page[1..][k] == rest[j];
          assert page[k + 1] == rest[j];
        }
      }
    }
  }

  /**
   * On a page with distinct ids, the number of ticked rows never exceeds
   * the size of the selection, which counts every page.
   */
  lemma TickedRowsBoundedBySelection(page: seq<Row>, selected: set<RecordId>)
    requires DistinctIds(page)
    ensures |SelectedOnPage(page, selected)| <= |selected|
  {
    var visible := SelectedOnPage(page, selected);
    SelectedOnPageDistinct(page, selected);
    DistinctIdsCount(visible);
    forall id | id in IdsOf(visible)
      ensures id in selected
    {
      IdsOfMembership(visible, id);
      var i :| 0 <= i < |visible| && visible[i].id == id;
      assert visible[i] in visible;
    }
    assert IdsOf(visible) <= selected;
    SubsetCard(IdsOf(visible), selected);
  }

  lemma SubsetCard<T>(a: set<T>, b: set<T>)
    requires a <= b
    ensures |a| <= |b|
  {
    assert b == a + (b - a);
  }
}
