# Artworks table: cross-page selection model

A Dafny model of the artwork table component in `assignment1/src/App.tsx`. The
component lists one page of artworks from the Art Institute of Chicago catalog
API. It keeps a selection of artworks that survives paging, and it offers a
"select first N" shortcut that fetches the first N records and merges them into
the selection.

The model has four modules:

- `Records` (`records.dfy`): the `Artwork` record and the normalisation applied
  to every fetched record. A missing or `null` JSON field is `None`. JavaScript
  truthiness (`||`) is written out: a string field is falsy when missing or
  empty, and a number field when missing or 0.
- `Sequences` (`sequences.dfy`): `Filter`, the model of `Array.prototype.filter`,
  the subsequence relation, and lemmas proving that the filter's result is the
  one subsequence of the input that holds each kept element as often as the
  input does and no other element.
- `Selection` (`selection.dfy`): the selection as an ordered `seq<Artwork>` in
  which membership is by `id` only. It holds `some` (`Contains`), `every`
  (`Every`), the header checkbox predicate `IsAllSelected`, page deselection
  (`RemovePage`) and row deselection (`RemoveId`). The `forEach`/`push` merge
  is the loop `MergeMissing`, proved equal to the fold `Merged`. `Merged` is
  the specification that the merge lemmas are about.
- `Pager` (`pager.dfy`): the class `ArtworkTable` with the component's state
  fields and one method per handler. Each network round trip is an input
  `Response`: `Delivered(records, total)`, `NotOk(status)`, or `Rejected`
  (the fetch promise or `json()` rejected). Each fetch-driven method returns
  the `Request`s it issued.

The model keeps three behaviours of the code that a reader might not expect:

- Checking a row appends its record unconditionally. It does not "insert if
  absent", so a duplicate id can arise there. Unchecking removes every entry
  with that id.
- A page load has no guard against stale responses. The last response applied
  wins.
- A bulk select whose restoring fetch is rejected never clears the busy flag.
  This is recorded under "## Findings".

## Model

| member | source | states |
|---|---|---|
| `Records.Normalize` | assignment1/src/App.tsx:52-59 | Missing or empty `place_of_origin`/`artist_display` become "Unknown" and `inscriptions` becomes "None". Missing or 0 dates become 0. `id`, `title` and every truthy field are kept. The result is always normalised. |
| `Records.NormalizeFixedPoints` | assignment1/src/App.tsx:52-59 | Normalisation leaves a record unchanged exactly when the record is already normalised. |
| `Records.NormalizeIdempotent` | assignment1/src/App.tsx:52-59 | Normalising twice gives the same record as normalising once. |
| `Records.NormalizeAll` | assignment1/src/App.tsx:52-59 | The `map` over a fetched page keeps the length and order, and normalises each record in its place. |
| `Records.NormalizeAllIdempotent` | assignment1/src/App.tsx:142-149 | Normalising an already normalised page changes nothing. |
| `Sequences.FilterSubsequence` | assignment1/src/App.tsx:206 | `filter` deletes elements and keeps the order of the rest: the result is a subsequence of the input. |
| `Sequences.FilterCounts` | assignment1/src/App.tsx:206 | The result holds each kept element exactly as often as the input does, and no other element. |
| `Sequences.FilterUnique` | assignment1/src/App.tsx:206 | A subsequence of the input with those element counts is the filter's result, so the two properties together determine it. |
| `Selection.Contains` | assignment1/src/App.tsx:94 | `some` by id is true iff some position holds that id. |
| `Selection.Every` | assignment1/src/App.tsx:156-158 | `every` is true iff each item's id is contained in the selection. |
| `Selection.IsAllSelected` | assignment1/src/App.tsx:156-158 | True iff the page is non-empty and each page id occurs somewhere in the selection. |
| `Selection.RemovePage` | assignment1/src/App.tsx:85-89 | Removes exactly the entries whose id is on the page. The others keep their values, multiplicities and relative order. An id stays selected iff it was selected and is not on the page. Distinct ids stay distinct. |
| `Selection.RemoveId` | assignment1/src/App.tsx:204-207 | Removes every entry with the row's id and keeps the others in order. Membership of other ids is unchanged. Distinct ids stay distinct. |
| `Selection.ToggleOnThenOff` | assignment1/src/App.tsx:204-207 | Checking then unchecking a row equals just unchecking it. If the row was not selected, the selection is restored exactly. |
| `Selection.OffThenOn` | assignment1/src/App.tsx:204-215 | Unchecking a selected row and then checking it again restores the original membership: the row's id and every other id are selected exactly as before. |
| `Selection.ToggleOnFresh` | assignment1/src/App.tsx:205 | Appending a row whose id is absent keeps ids distinct and selects it. |
| `Selection.MergeMissing` | assignment1/src/App.tsx:92-97 | The copy-and-push loop produces the fold `Merged`: each item in turn is appended iff its id is not yet in the growing list. |
| `Selection.MergedExtends` | assignment1/src/App.tsx:120-125 | The old selection is a prefix of the merged selection. |
| `Selection.MergedAppendsFresh` | assignment1/src/App.tsx:120-125 | Every appended entry has an id that was not selected before. The appended part is a subsequence of the fetched items, so it keeps fetch order. |
| `Selection.MergedKeepsSelected` | assignment1/src/App.tsx:120-125 | An entry whose id was already selected stays in its old position with its original record value. |
| `Selection.MergedContains` | assignment1/src/App.tsx:92-97 | After the merge, an id is selected iff it was selected before or is among the items. |
| `Selection.MergedSelectsAll` | assignment1/src/App.tsx:92-98 | After the add branch, every page id is selected. On a non-empty page `isAllSelected` then holds. |
| `Selection.MergedDistinct` | assignment1/src/App.tsx:92-97 | If the old selection had distinct ids, so does the merged one. |
| `Selection.MergedAppendedDistinct` | assignment1/src/App.tsx:120-125 | The appended entries have pairwise distinct ids, even when the old selection already holds a duplicate. |
| `Selection.MergedFirstOccurrence` | assignment1/src/App.tsx:120-125 | When the fetched items repeat an id, the merge appends the first of them: each appended entry is an item that no earlier item shares an id with. |
| `Selection.MergedAllPresent` | assignment1/src/App.tsx:120-125 | If every fetched id is already selected, the merge changes nothing: no duplicates, and the original values are kept. |
| `Pager.ArtworkTable.constructor` | assignment1/src/App.tsx:33-41 | The initial state: empty page, page 1, 12 rows, loading, total 0, empty selection, no error, first row 0, N = 0. |
| `Pager.ArtworkTable.View` | assignment1/src/App.tsx:220-280 | A non-empty error shows as the error message alone. Otherwise a loading component shows the spinner. Otherwise it shows the table of `data` and the selected count. |
| `Pager.ArtworkTable.AllSelected` | assignment1/src/App.tsx:156-158 | `isAllSelected` recomputed from the current state: true iff the page is non-empty and each page id is selected. |
| `Pager.ArtworkTable.LoadPage` | assignment1/src/App.tsx:44-72 | Requests the current page and size. On delivery, `data` becomes the normalised records, `totalRecords` the reported total, and `error` is cleared. Otherwise `data` and `totalRecords` are unchanged and `error` is "Failed to fetch data". In both cases `loading` ends false and the selection is untouched. |
| `Pager.ArtworkTable.PageChange` | assignment1/src/App.tsx:74-78 | The 0-based paginator page becomes `page + 1`, and the size and first row are adopted. |
| `Pager.ArtworkTable.SelectAll` | assignment1/src/App.tsx:84-100 | If the page is all selected, the selection becomes `RemovePage`. Otherwise it becomes `Merged` with the page. On a non-empty page the header checkbox flips. |
| `Pager.ArtworkTable.ToggleRow` | assignment1/src/App.tsx:197-207 | Checking appends the row at the end with no duplicate check. Unchecking applies `RemoveId`. |
| `Pager.ArtworkTable.SetSelectNumberValue` | assignment1/src/App.tsx:181 | The typed number becomes the bulk-select count. |
| `Pager.ArtworkTable.ApplyBulk` | assignment1/src/App.tsx:105-136 | A delivered bulk fetch merges its normalised records and resets N to 0, leaving `error` alone. A failed one leaves the selection and N unchanged and sets "Failed to select items". |
| `Pager.ArtworkTable.RestorePage` | assignment1/src/App.tsx:137-151 | Only a delivered restore replaces `data`. |
| `Pager.ArtworkTable.SelectNumberAsWritten` | assignment1/src/App.tsx:102-154 | The handler as written. For N <= 0 it does nothing and issues no request. Otherwise it requests page 1 with limit N and then the current page, with the same bulk and restore effects as `SelectNumber`. `loading` stays true exactly when the restore is rejected. |
| `Pager.ArtworkTable.SelectNumber` | assignment1/src/App.tsx:102-154 | The corrected handler. For N <= 0 it does nothing. Otherwise the bulk request and the restore request are always issued, and `loading` ends false. On bulk success the old selection is a prefix of the new `Merged` selection and N is reset to 0. On bulk failure the selection is unchanged and the error is set. A delivered restore replaces only `data`. `totalRecords` never changes. |
| `Pager.StuckSpinner` | assignment1/src/App.tsx:137-153 | A page load, N = 1, a delivered bulk fetch and a rejected restore leave the as-written component on the spinner. |
| `Pager.SpinnerCleared` | assignment1/src/App.tsx:102-154 | The same events with the corrected handler end on the table, with one row selected. |

## Left out

- Rendering: the JSX and the PrimeReact `DataTable`, `Paginator`, `OverlayPanel`, `InputNumber` and `ProgressSpinner` widgets. `View` keeps only the choice between the error message, the spinner and the table, with the selected count (lines 220-280). The "Unknown" shown for a zero date in the date columns (lines 258-259) is display only.
- `onSelectionChange` (lines 80-82) adopts whatever selection the table widget supplies. That value comes from the library, so it is not modelled.
- `op.current.hide()` (lines 129-131) is a foreign UI call.
- The HTTP `fetch`, URL construction, the field projection, `response.json()` and `console.error` logging are I/O. Each round trip is the `Response` input, and each request is recorded as `Request(page, limit)`.
- Overlapping asynchronous handlers are concurrency. This covers overlapping page loads, where the last response to arrive wins, and the selection captured by `handleSelectNumber` before its `await`. Each method runs to completion.
- The rejected promise that escapes `handleSelectNumber` when its restoring fetch rejects is not modelled. Only its effect on `loading` is.
- `SetSelectNumberValue`: the `InputNumber` can report `null`, which JavaScript treats as not greater than 0. The model takes an integer.
- The allowed page sizes 12, 25 and 50 are enforced by the paginator widget, not by the component.
- A date field is `None` or an integer. The catalog's date fields are years, and `|| 0` (lines 57-58) turns 0 and a missing value into 0 and keeps every other integer. Fractional values, which `|| 0` would also keep, are not modelled. NaN, which it would turn into 0, cannot come out of `response.json()`.
- A delivered body that lacks `data` or `pagination` is outside the `Response` abstraction. Case by case:
  - In a page load, a body without `data` throws at line 52, before `setData`. `data` is kept and `error` is set, which is the `NotOk` outcome.
  - In a page load, a body with `data` but without `pagination` throws at line 62, after `setData` at line 61. `data` is replaced and `error` is also set, a state no `Response` value reaches.
  - The bulk fetch (lines 107-127) and the restoring fetch (lines 138-150) never read `pagination`, so a body that lacks only `pagination` behaves as `Delivered` in both.
  - In the bulk fetch, a body without `data` throws at line 111 and is caught at line 133, which is the `NotOk` outcome.
  - In the restoring fetch, a body without `data` throws at line 142 and skips `setLoading(false)`, which is the `Rejected` outcome.

## Findings

| source | as written | input that shows it | evidently intended | confidence | as-written member | corrected member |
|---|---|---|---|---|---|---|
| assignment1/src/App.tsx:137-153 | The `finally` block awaits the restoring `fetch` (and `json()`) before `setLoading(false)`. A rejection there leaves the block early, so `loading` stays true. With no error set, the screen is the spinner, and the paginator that could start a new load is not rendered. | `selectNumberValue = 1`, the bulk fetch delivers, the restoring fetch is rejected (network failure) | `loading` is cleared on every exit path, including a failed restore | not executed | `Pager.ArtworkTable.SelectNumberAsWritten` (witness `Pager.StuckSpinner`) | `Pager.ArtworkTable.SelectNumber` (witness `Pager.SpinnerCleared`) |
