/**
 * The artwork table component: its state, the handlers that update it, and
 * the two fetch-driven transitions (loading a page and "select first N").
 * Each network round trip is a parameter: the response the catalog gives to
 * the request the handler issues. A handler returns the requests it issued.
 */
module Pager {
  import opened Records
  import opened Selection

  /** The outcome of one `fetch` followed by `response.json()`. */
  datatype Response =
    | Delivered(records: seq<Artwork>, total: int)  // `response.ok` and the body parsed
    | NotOk(status: int)                            // the server answered with an error status
    | Rejected                                      // the fetch promise or `json()` rejected

  /** A catalog request: `page` (1-based) and `limit` records per page. */
  datatype Request = Request(page: int, limit: int)

  /** What the component renders. */
  datatype Screen = ErrorMessage(text: string) | Spinner | Table(rows: seq<Artwork>, selectedCount: nat)

  const FetchFailed := "Failed to fetch data"
  const SelectFailed := "Failed to select items"

  class ArtworkTable {
    var data: seq<Artwork>          // the page window
    var page: int
    var rowsPerPage: int
    var loading: bool
    var totalRecords: int
    var selected: seq<Artwork>      // the cross-page selection
    var error: string
    var first: int
    var selectNumberValue: int

    /** The initial `useState` values. */
    constructor ()
      ensures data == [] && page == 1 && rowsPerPage == 12 && loading && totalRecords == 0
      ensures selected == [] && error == "" && first == 0 && selectNumberValue == 0
    {
      data, page, rowsPerPage, loading, totalRecords := [], 1, 12, true, 0;
      selected, error, first, selectNumberValue := [], "", 0, 0;
    }

    /** An error hides everything else; while loading only the spinner shows. */
    function View(): (v: Screen)
      reads this
      ensures v.ErrorMessage? <==> error != ""
      ensures v.ErrorMessage? ==> v.text == error
      ensures v == Spinner <==> error == "" && loading
      ensures v.Table? <==> error == "" && !loading
      ensures v.Table? ==> v.rows == data && v.selectedCount == |selected|
    {
      if error != "" then ErrorMessage(error)
      else if loading then Spinner
      else Table(data, |selected|)
    }

    /** `isAllSelected`, recomputed from the current state on every render. */
    function AllSelected(): (b: bool)
      reads this
      ensures b <==> |data| > 0 && forall i :: 0 <= i < |data| ==> Contains(selected, data[i].id)
    {
      IsAllSelected(data, selected)
    }

    /** `fetchData`, run whenever the page or the page size changes. */
    method LoadPage(response: Response) returns (request: Request)
      modifies this`data, this`totalRecords, this`error, this`loading
      ensures request == Request(page, rowsPerPage)
      ensures !loading
      ensures response.Delivered? ==>
        data == NormalizeAll(response.records) && totalRecords == response.total && error == ""
      ensures !response.Delivered? ==>
        data == old(data) && totalRecords == old(totalRecords) && error == FetchFailed
      ensures selected == old(selected)
    {
      loading := true;
      request := Request(page, rowsPerPage);
      if response.Delivered? {
        data := NormalizeAll(response.records);
        totalRecords := response.total;
        error := "";
      } else {
        error := FetchFailed;
      }
      loading := false;
    }

    /** `onPageChange`: the paginator reports a 0-based page, the page size and the first row. */
    method PageChange(eventPage: int, rows: int, eventFirst: int)
      modifies this`page, this`rowsPerPage, this`first
      ensures page == eventPage + 1 && rowsPerPage == rows && first == eventFirst
    {
      page, rowsPerPage, first := eventPage + 1, rows, eventFirst;
    }

    /**
     * The header checkbox. When the page is all selected its ids are
     * deselected; otherwise its missing records are appended. Either way, on a
     * non-empty page the header checkbox flips.
     */
    method SelectAll()
      modifies this`selected
      ensures old(AllSelected()) ==> selected == RemovePage(old(selected), data)
      ensures !old(AllSelected()) ==> selected == Merged(old(selected), data)
      ensures |data| > 0 ==> AllSelected() == !old(AllSelected())
    {
      if AllSelected() {
        selected := RemovePage(selected, data);
        assert |data| > 0 && !Contains(selected, data[0].id) by {
          assert Contains(data, data[0].id);
        }
      } else {
        MergedSelectsAll(selected, data);
        selected := MergeMissing(selected, data);
      }
    }

    /** A row checkbox (`handleRowCheckboxChange`, and `onRowSelect` from the table). */
    method ToggleRow(row: Artwork, isChecked: bool)
      modifies this`selected
      ensures isChecked ==> selected == old(selected) + [row]
      ensures !isChecked ==> selected == RemoveId(old(selected), row.id)
    {
      if isChecked {
        selected := selected + [row];
      } else {
        selected := RemoveId(selected, row.id);
      }
    }

    /** The number typed into the "select first N" box. */
    method SetSelectNumberValue(v: int)
      modifies this`selectNumberValue
      ensures selectNumberValue == v
    {
      selectNumberValue := v;
    }

    /** The `try` and `catch` blocks of `handleSelectNumber`, after the busy flag is set. */
    method ApplyBulk(bulk: Response)
      modifies this`selected, this`selectNumberValue, this`error
      ensures bulk.Delivered? ==>
        && selected == Merged(old(selected), NormalizeAll(bulk.records))
        && selectNumberValue == 0 && error == old(error)
      ensures !bulk.Delivered? ==>
        selected == old(selected) && selectNumberValue == old(selectNumberValue) && error == SelectFailed
    {
      if bulk.Delivered? {
        var items := NormalizeAll(bulk.records);
        selected := MergeMissing(selected, items);
        selectNumberValue := 0;
      } else {
        error := SelectFailed;
      }
    }

    /** The data part of the `finally` block: only a delivered page replaces `data`. */
    method RestorePage(restore: Response)
      modifies this`data
      ensures restore.Delivered? ==> data == NormalizeAll(restore.records)
      ensures !restore.Delivered? ==> data == old(data)
    {
      if restore.Delivered? {
        data := NormalizeAll(restore.records);
      }
    }

    /**
     * `handleSelectNumber` as written: the `finally` block awaits the
     * restoring fetch before `setLoading(false)`, so a rejected restore leaves
     * the component loading.
     */
    method SelectNumberAsWritten(bulk: Response, restore: Response) returns (requests: seq<Request>)
      modifies this`selected, this`selectNumberValue, this`error, this`data, this`loading
      ensures old(selectNumberValue) <= 0 ==>
        && requests == [] && selected == old(selected) && data == old(data)
        && error == old(error) && loading == old(loading) && selectNumberValue == old(selectNumberValue)
      ensures old(selectNumberValue) > 0 ==>
        && requests == [Request(1, old(selectNumberValue)), Request(page, rowsPerPage)]
        && (loading <==> restore.Rejected?)
      ensures old(selectNumberValue) > 0 && bulk.Delivered? ==>
        && selected == Merged(old(selected), NormalizeAll(bulk.records))
        && selectNumberValue == 0 && error == old(error)
      ensures old(selectNumberValue) > 0 && !bulk.Delivered? ==>
        selected == old(selected) && selectNumberValue == old(selectNumberValue) && error == SelectFailed
      ensures old(selectNumberValue) > 0 && restore.Delivered? ==> data == NormalizeAll(restore.records)
      ensures old(selectNumberValue) > 0 && !restore.Delivered? ==> data == old(data)
    {
      if selectNumberValue <= 0 {
        return [];
      }
      var n := selectNumberValue;
      loading := true;
      ApplyBulk(bulk);
      RestorePage(restore);
      requests := [Request(1, n), Request(page, rowsPerPage)];
      if !restore.Rejected? {
        loading := false;
      }
    }

    /**
     * `handleSelectNumber` with the busy flag released on every exit path. A
     * failed bulk fetch leaves the selection alone and reports an error; the
     * restoring fetch always runs and only ever replaces `data`.
     */
    method SelectNumber(bulk: Response, restore: Response) returns (requests: seq<Request>)
      modifies this`selected, this`selectNumberValue, this`error, this`data, this`loading
      ensures old(selectNumberValue) <= 0 ==>
        && requests == [] && selected == old(selected) && data == old(data)
        && error == old(error) && loading == old(loading) && selectNumberValue == old(selectNumberValue)
      ensures old(selectNumberValue) > 0 ==>
        && requests == [Request(1, old(selectNumberValue)), Request(page, rowsPerPage)]
        && !loading
      ensures old(selectNumberValue) > 0 && bulk.Delivered? ==>
        && selected == Merged(old(selected), NormalizeAll(bulk.records))
        && |old(selected)| <= |selected| && selected[..|old(selected)|] == old(selected)
        && selectNumberValue == 0 && error == old(error)
      ensures old(selectNumberValue) > 0 && !bulk.Delivered? ==>
        selected == old(selected) && selectNumberValue == old(selectNumberValue) && error == SelectFailed
      ensures old(selectNumberValue) > 0 && restore.Delivered? ==> data == NormalizeAll(restore.records)
      ensures old(selectNumberValue) > 0 && !restore.Delivered? ==> data == old(data)
      ensures totalRecords == old(totalRecords)
    {
      if selectNumberValue <= 0 {
        return [];
      }
      var n := selectNumberValue;
      loading := true;
      if bulk.Delivered? {
        MergedExtends(selected, NormalizeAll(bulk.records));
      }
      ApplyBulk(bulk);
      RestorePage(restore);
      requests := [Request(1, n), Request(page, rowsPerPage)];
      loading := false;
    }
  }

  /**
   * A bulk select whose restoring fetch is rejected, as written: nothing has
   * set an error, so the screen is the spinner, and the paginator that could
   * trigger a fresh page load is not rendered.
   */
  method StuckSpinner() returns (v: Screen)
    ensures v == Spinner
  {
    var t := new ArtworkTable();
    var row := Artwork(1, Some("Nighthawks"), None, None, None, None, None);
    var _ := t.LoadPage(Delivered([row], 1));
    t.SetSelectNumberValue(1);
    var _ := t.SelectNumberAsWritten(Delivered([row], 1), Rejected);
    v := t.View();
  }

  /** The same sequence of events with the corrected handler ends on the table. */
  method SpinnerCleared() returns (v: Screen)
    ensures v.Table? && v.selectedCount == 1
  {
    var t := new ArtworkTable();
    var row := Artwork(1, Some("Nighthawks"), None, None, None, None, None);
    var _ := t.LoadPage(Delivered([row], 1));
    t.SetSelectNumberValue(1);
    var _ := t.SelectNumber(Delivered([row], 1), Rejected);
    v := t.View();
  }
}
