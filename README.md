# Art gallery table: cross-page row selection

This project models the selection bookkeeping of a browser client that shows a
public artwork catalog in a paginated table (12 rows per page) and lets the user
check rows across pages. The selection persists across pagination. It is kept as
two id sets, `selectedIds` (explicit selections) and `deselectedIds` (explicit
opt-outs). Each time the table is drawn, the rows shown as checked are derived
from the two sets and the current page's rows. Three operations change this
state:

- the checkbox handler (`onSelectionChange`), which receives the rows now checked on the page;
- the bulk "select first N rows" action (`handleCustomSelection`), which replaces the page's selection with its first N rows;
- the page handler (`onPage`), which turns the widget's 0-based page index into a 1-based page number; the first-row offset handed back to the widget is `(page - 1) * 12`.

Layout:

- `wrappers.dfy`, module `Wrappers`: `Option`, standing for the source's `number | null`.
- `paging.dfy`, module `Paging`: the page index, page number and row offset arithmetic.
- `selection.dfy`, module `Selection`: the selection state as values. It holds
  `Marks` (the two sets), the derived effective selection and the two handlers
  as transformations of `Marks`, with the properties they guarantee.
- `gallery.dfy`, module `Gallery`: class `App`, holding the component's state
  fields (`artworks`, `page`, `selectedIds`, `deselectedIds`, `inputCount`). Its
  handler methods copy the sets and update the copies in loops, as the source
  does, then commit both sets at the end. Each method's postcondition ties the
  new state to the matching function in `Selection`.

Rows are modelled by their `id` only. Where a property needs row ids to be
unique within a page, it says so with `UniqueIds` (the table is keyed by `id`).

## Model

| member | source | states |
|---|---|---|
| `Selection.EffectiveSelection` | src/App.tsx:56-58 | the rows shown as checked are a subsequence of the page (page order kept); a row is in it iff it is on the page and its id is selected and not deselected |
| `Selection.EffectiveSelectionCounts` | src/App.tsx:56-58 | each row whose id is selected and not deselected occurs in the effective selection exactly as often as on the page; any other row does not occur |
| `Selection.EffectiveSelectionLocal` | src/App.tsx:56-58 | a page's effective selection depends only on how that page's own ids are marked, so marks on other pages never change it |
| `Selection.SelectionChange` | src/App.tsx:61-81 | every chosen row ends up selected and not deselected; a page row that was selected and is no longer chosen ends up deselected; the selected set only grows; ids neither on the page nor chosen keep their membership in both sets |
| `Selection.SelectionChangeShowsChoice` | src/App.tsx:61-81 | after a checkbox change the page shows as checked exactly its rows whose id was chosen, in page order, whatever the earlier marks |
| `Selection.SelectionChangeUnchecks` | src/App.tsx:71-77 | a page row that was selected and is left out of the new choice is no longer shown as checked |
| `Selection.SelectionChangeKeepsOtherPages` | src/App.tsx:62-80 | a checkbox change leaves the effective selection of every page whose ids are disjoint from the current page and the choice unchanged (selection persists across pagination) |
| `Selection.ClampedLimit` | src/App.tsx:87 | for a positive request the limit is at most the page length and at most the request, and equals one of them |
| `Selection.BulkSelect` | src/App.tsx:88-103 | after a bulk selection no page id is deselected, the first `limit` rows are shown as checked, and ids not on the page keep their membership in both sets |
| `Selection.BulkSelectClearsRest` | src/App.tsx:91-100 | with unique ids, page rows at index `limit` or later are in neither set after a bulk selection |
| `Selection.BulkSelectShowsPrefix` | src/App.tsx:87-100 | with unique ids, the page shows as checked exactly its first `limit` rows, never more rows than the page holds |
| `Selection.BulkSelectKeepsOtherPages` | src/App.tsx:91-103 | a bulk selection leaves the effective selection of every page with ids disjoint from the current page unchanged |
| `Paging.PageOfIndex` | src/App.tsx:51-53 | an absent index gives page 1; a present index k gives page k + 1, which is at least 1 when k is not negative |
| `Paging.FirstRowOffset` | src/App.tsx:118 | for a page number of at least 1 the offset is a non-negative multiple of the 12-row page size, and dividing it by the page size gives back the 0-based page index |
| `Paging.IndexPageOffsetRoundTrip` | src/App.tsx:52 | widget index k >= 0 maps to a page >= 1 whose offset is k * 12, from which the widget recovers k |
| `Paging.FirstRowOffsetInjective` | src/App.tsx:118 | distinct page numbers start at distinct row offsets |
| `Gallery.App.constructor` | src/App.tsx:17-26 | the initial state: no rows, page 1, both sets empty, no count entered |
| `Gallery.App.OnPage` | src/App.tsx:51-53 | sets the page number from the widget's index; the current first-row offset is then index * 12 |
| `Gallery.App.OnSelectionChange` | src/App.tsx:61-81 | the two loops commit exactly `SelectionChange` of the old sets, and the page then shows exactly the chosen rows |
| `Gallery.App.HandleCustomSelection` | src/App.tsx:84-106 | an absent, zero or negative count changes neither set nor the input; otherwise the two loops commit exactly `BulkSelect` of the old sets with the clamped limit, the input is cleared, and (with unique ids) the page shows exactly its first `limit` rows |

## Left out

- Fetching a page (`loadData`, the `fetch` call, JSON decoding, the effect that runs it on a page change, the `loading` flag) is network I/O and asynchronous plumbing. So the model has no operation that replaces `artworks`, and the late-response race is not modelled. Selection persistence across navigation is instead stated for any two pages with disjoint ids (`SelectionChangeKeepsOtherPages`, `BulkSelectKeepsOtherPages`, `EffectiveSelectionLocal`).
- Rendering and the table, paginator, overlay and number-input widgets are third-party UI whose code is not part of this model. This includes hiding and toggling the overlay, the input's `min`/`max` bounds, and the input's own handlers that set or clear `inputCount`.
- The total record count, and the page count and last-page row count derived from it, are computed by the paginator widget, not by this component.
- Artwork display fields (title, artist, dates, and so on) do not affect selection. Only `id` is modelled.
- Numbers are modelled as unbounded integers. Non-integer counts are not modelled: the number input is integer-valued, and a fractional count would make the source's `i < limit` loop select one more row. NaN is not modelled either.
- Selection.BulkSelectShowsPrefix: the exact "first `limit` rows" result is stated only for pages whose ids are unique. With a repeated id, a row past the limit that shares an id with an earlier row would also show as checked.
- Selection.BulkSelectClearsRest: stated only for pages with unique ids, for the same reason.
