# Data review table: filtering, pagination and cell severity

This project models the record-view pipeline of the `DataReviewTable` React
component of the data-review assignment, and proves properties of it in
Dafny. The component fetches a list of contact records, each with optional
per-field validation annotations. It narrows the list by an exact status
and a case-insensitive name substring. It shows one page of the result at
a time, with Previous and Next buttons and a rows-per-page selector. Each
cell is coloured by the severity of its field's annotation.

Modules, one per concern:

- `Wrappers` (`wrappers.dfy`): `Option`, for TypeScript's optional and nullable values.
- `Text` (`text.dfy`): lower-casing (ASCII letters) and substring search, the
  `toLowerCase` and `includes` calls of the name filter.
- `ArrayOps` (`array_ops.dfy`): JavaScript's `Array.prototype.filter` (`Select`)
  and `Array.prototype.slice` (`Slice`, with clipping and negative indices),
  with their order, multiplicity and composition lemmas.
- `Records` (`records.dfy`): the `Record` and annotation data model and
  `getCellColor` (`CellColor`).
- `Filtering` (`filtering.dfy`): the filter effect's computation (`Filter`)
  and its soundness, completeness, order, multiplicity, identity, idempotence
  and case-insensitivity.
- `Pagination` (`pagination.dfy`): `totalPages` as a ceiling, the slice one
  page shows, the proof that pages 1 to `totalPages` reproduce the list, and
  the page arithmetic of Previous, Next and the bounds effect.
- `ReviewTable` (`review_table.dfy`): the component as a class `Table`. Each
  `useState` cell is a field. The two effects are the methods `FilterEffect`
  and `ClampEffect`. Each user event is a method that runs the handler's
  update and then the effects that update triggers, in order. Every event
  starts and ends in the state `Settled()`: the filtered list is up to date,
  and the page index is 0 when there are no pages and a real page otherwise.

Where the code behaves differently from what one might expect of a paginated table, the model follows the code:

- `totalPages` has no floor of 1. An empty filtered list has 0 pages, and the
  bounds effect then sets the current page to 0 ("Page 0 of 0"). `Table.Load`,
  `Table.SetStatusFilter` and `Table.SetNameFilter` end on page 0 in that case.
- The code never clamps the page from below. It cannot go below 0 anyway, since
  Previous stops at 1 and the bounds effect only lowers it to `totalPages`.
- The code has no guard against a page size of 0 or less. The selector offers only
  5, 10, 25 and 50, and `Table` keeps `rowsPerPage` among them.
- A status filter of `null` or `""` means "no constraint", because the code
  tests truthiness.
- Setting a filter to the value it already has re-renders nothing. The filter
  effect does not run and the page is not reset. `SetStatusFilter` and
  `SetNameFilter` model that.

## Model

| member | source | states |
|---|---|---|
| `Text.Lower` | data-review-assignment/src/components/DataReviewTable.tsx:77 | `toLowerCase` keeps the length and lower-cases each character on its own |
| `Text.LowerChar` | data-review-assignment/src/components/DataReviewTable.tsx:77 | a capital becomes its own lower-case letter (code point plus 32), every other character stays, and no result is a capital |
| `Text.LowerCharEqualIff` | data-review-assignment/src/components/DataReviewTable.tsx:77 | two characters lower-case alike exactly when they differ at most in ASCII case |
| `Text.LowerEqualIff` | data-review-assignment/src/components/DataReviewTable.tsx:77 | two strings lower-case alike exactly when they have the same length and agree position by position up to ASCII case |
| `Text.LowerIdempotent` | data-review-assignment/src/components/DataReviewTable.tsx:77 | lower-casing an already lower-cased string changes nothing |
| `Text.Contains` | data-review-assignment/src/components/DataReviewTable.tsx:77 | `includes` fails for a pattern longer than the string and holds for the empty pattern |
| `Text.ContainsTrivial` | data-review-assignment/src/components/DataReviewTable.tsx:77 | `includes` holds for the empty pattern and for the whole string |
| `ArrayOps.Select` | data-review-assignment/src/components/DataReviewTable.tsx:70-72 | `filter` returns no more elements than it got, each satisfying the predicate and taken from the input |
| `ArrayOps.SelectCount` | data-review-assignment/src/components/DataReviewTable.tsx:70-72 | `filter` keeps each satisfying value exactly as often as it occurs, and no other value |
| `ArrayOps.SelectComplete` | data-review-assignment/src/components/DataReviewTable.tsx:70-72 | every input element that satisfies the predicate is in the result |
| `ArrayOps.SelectIsSubsequence` | data-review-assignment/src/components/DataReviewTable.tsx:70-72 | `filter` keeps the input's order: its result is a subsequence of the input |
| `ArrayOps.SelectAll` | data-review-assignment/src/components/DataReviewTable.tsx:76-78 | filtering with a predicate that every element satisfies returns the input |
| `ArrayOps.SelectExt` | data-review-assignment/src/components/DataReviewTable.tsx:76-78 | predicates that agree on every value filter alike |
| `ArrayOps.SelectSelect` | data-review-assignment/src/components/DataReviewTable.tsx:67-79 | two `filter` passes in a row equal one pass with the conjunction |
| `ArrayOps.ClipIndex` | data-review-assignment/src/components/DataReviewTable.tsx:131-134 | a `slice` bound, negative or past the end, clips into [0, length] |
| `ArrayOps.Slice` | data-review-assignment/src/components/DataReviewTable.tsx:131-134 | `slice` returns at most `end - start` elements and at most the whole list, read consecutively from the clipped start |
| `ArrayOps.SliceInBounds` | data-review-assignment/src/components/DataReviewTable.tsx:131-134 | with non-negative bounds, `slice` is the subsequence between them, cut at the end |
| `ArrayOps.SliceToZero` | data-review-assignment/src/components/DataReviewTable.tsx:131-134 | a slice ending at 0 is empty, whatever negative start it has |
| `Records.SeverityAt` | data-review-assignment/src/components/DataReviewTable.tsx:88-89 | there is a severity exactly when `errors` is present and has an entry for the field, and it is that entry's severity |
| `Records.ClassName` | data-review-assignment/src/components/DataReviewTable.tsx:91-98 | each background has its own class string, and no two share one |
| `Records.CellClassName` | data-review-assignment/src/components/DataReviewTable.tsx:87-99 | `getCellColor` returns "bg-red-100" exactly for a "critical" entry, "bg-yellow-100" exactly for "warning", and "bg-green-100" otherwise |
| `Records.CellColor` | data-review-assignment/src/components/DataReviewTable.tsx:87-99 | red exactly for a "critical" entry on the field, yellow exactly for "warning", green otherwise: no errors, no entry, or any other severity |
| `Filtering.Filter` | data-review-assignment/src/components/DataReviewTable.tsx:67-79 | the filtered list is no longer than `data`, and each kept record comes from `data` and meets both active constraints |
| `Filtering.FilterIsSelect` | data-review-assignment/src/components/DataReviewTable.tsx:67-81 | the status pass followed by the name pass keeps exactly the records that pass both active constraints, in order |
| `Filtering.FilterSound` | data-review-assignment/src/components/DataReviewTable.tsx:69-79 | every kept record has the filtered status when one is set, and its lower-cased name contains the lower-cased pattern when one is set |
| `Filtering.FilterComplete` | data-review-assignment/src/components/DataReviewTable.tsx:69-79 | every record of `data` meeting both active constraints is kept |
| `Filtering.FilterCount` | data-review-assignment/src/components/DataReviewTable.tsx:67-81 | the filter neither duplicates nor drops a matching record, and keeps no other |
| `Filtering.FilterPreservesOrder` | data-review-assignment/src/components/DataReviewTable.tsx:67-81 | the filtered list is an order-preserving subsequence of `data` |
| `Filtering.FilterInactive` | data-review-assignment/src/components/DataReviewTable.tsx:67-81 | with no status (null or empty) and an empty name filter, the filtered list is `data` itself |
| `Filtering.FilterIdempotent` | data-review-assignment/src/components/DataReviewTable.tsx:67-81 | filtering the filtered list again changes nothing |
| `Filtering.NameFilterIgnoresCase` | data-review-assignment/src/components/DataReviewTable.tsx:75-79 | name filters that lower-case alike (by `LowerEqualIff`: equal up to ASCII case) keep the same records |
| `Filtering.OwnNameIsKept` | data-review-assignment/src/components/DataReviewTable.tsx:75-79 | filtering by a record's own name keeps that record |
| `Pagination.AllowedRowsPerPage` | data-review-assignment/src/components/DataReviewTable.tsx:329 | every page size the selector offers (5, 10, 25, 50) is positive, so the page count is defined |
| `Pagination.TotalPages` | data-review-assignment/src/components/DataReviewTable.tsx:130 | `totalPages` is the ceiling of count / rowsPerPage: its pages hold every row and the last page is not spare (0 for no rows) |
| `Pagination.TotalPagesUnique` | data-review-assignment/src/components/DataReviewTable.tsx:130 | no other page count has those two properties |
| `Pagination.NoPagesIffNoRows` | data-review-assignment/src/components/DataReviewTable.tsx:130 | there are 0 pages exactly when there are no rows |
| `Pagination.Page` | data-review-assignment/src/components/DataReviewTable.tsx:131-134 | a page never has more than `rowsPerPage` rows |
| `Pagination.PageBlock` | data-review-assignment/src/components/DataReviewTable.tsx:131-134 | page `p` (from 1 on) is the block of rows from `(p-1)*rowsPerPage` to `p*rowsPerPage`, cut at the end of the list |
| `Pagination.PageInRange` | data-review-assignment/src/components/DataReviewTable.tsx:131-134 | a page from 1 to `totalPages` starts inside the list and is not empty |
| `Pagination.PageOutOfRange` | data-review-assignment/src/components/DataReviewTable.tsx:131-134 | page 0 and every page past `totalPages` show nothing |
| `Pagination.PagesArePrefix` | data-review-assignment/src/components/DataReviewTable.tsx:131-134 | pages 1 to `n` in a row are the first `n*rowsPerPage` rows, or all of them |
| `Pagination.PagesCoverAll` | data-review-assignment/src/components/DataReviewTable.tsx:130-134 | pages 1 to `totalPages` in a row reproduce the filtered list exactly: nothing lost, nothing repeated, order kept |
| `Pagination.TwentyThreeRows` | data-review-assignment/src/components/DataReviewTable.tsx:130-141 | with 23 rows at 10 per page there are 3 pages, page 4 is pulled back to 3, and page 3 holds rows 21 to 23 |
| `Pagination.PreviousPage` | data-review-assignment/src/components/DataReviewTable.tsx:339 | Previous goes one page back and never below 1 |
| `Pagination.NextPage` | data-review-assignment/src/components/DataReviewTable.tsx:349-353 | Next goes one page on and never past `totalPages` |
| `Pagination.ClampPage` | data-review-assignment/src/components/DataReviewTable.tsx:137-141 | the bounds effect only lowers the page, to exactly `totalPages`, and leaves a page within bounds alone |
| `Pagination.VisibleIffRows` | data-review-assignment/src/components/DataReviewTable.tsx:130-141 | once the page is within bounds, the visible rows are empty exactly when the filtered list is |
| `Pagination.PreviousThenClamp` | data-review-assignment/src/components/DataReviewTable.tsx:339 | after Previous and the bounds effect the page is `max(p-1, 1)`, or 0 when there are no pages |
| `Pagination.NextThenClamp` | data-review-assignment/src/components/DataReviewTable.tsx:349-353 | after Next the bounds effect has nothing to do, and the page stays within bounds |
| `Pagination.ResetThenClamp` | data-review-assignment/src/components/DataReviewTable.tsx:137-141 | after the reset to page 1 the bounds effect leaves page 1, or 0 when there are no pages |
| `Pagination.ResizeThenClamp` | data-review-assignment/src/components/DataReviewTable.tsx:137-141 | after a change of page size the bounds effect brings the page back within bounds |
| `ReviewTable.Table.PageCount` | data-review-assignment/src/components/DataReviewTable.tsx:345 | the page count shown is 0 exactly when the filtered list is empty |
| `ReviewTable.Table.Visible` | data-review-assignment/src/components/DataReviewTable.tsx:131-134 | the visible rows number at most `rowsPerPage`, and at rest they are empty exactly when the filtered list is |
| `ReviewTable.Table.PreviousDisabled` | data-review-assignment/src/components/DataReviewTable.tsx:340 | at rest, a disabled Previous (page 1) would change nothing; enabled, it goes one page back, except on page 0 of 0, where the bounds effect undoes it |
| `ReviewTable.Table.NextDisabled` | data-review-assignment/src/components/DataReviewTable.tsx:354-356 | at rest, Next is disabled exactly where its handler would change nothing, and enabled it goes one page on |
| `ReviewTable.Table.constructor` | data-review-assignment/src/components/DataReviewTable.tsx:45-51 | the initial state: no data, no filters, 10 rows per page; the mount effects leave the page at 0 |
| `ReviewTable.Table.FilterEffect` | data-review-assignment/src/components/DataReviewTable.tsx:66-84 | the filter effect sets `filteredData` to the filtered `data` and the page to 1 |
| `ReviewTable.Table.ClampEffect` | data-review-assignment/src/components/DataReviewTable.tsx:137-141 | the bounds effect pulls an overshooting page down to `totalPages` and changes nothing else |
| `ReviewTable.Table.Load` | data-review-assignment/src/components/DataReviewTable.tsx:59-60 | on the freshly mounted table, the fetched records become `data`, the filters are re-applied to them, and the page is 1 (0 if nothing matches) |
| `ReviewTable.Table.SetStatusFilter` | data-review-assignment/src/components/DataReviewTable.tsx:166-177 | a new status re-filters `data` and resets to page 1 (0 if nothing matches); the same status changes nothing |
| `ReviewTable.Table.SetNameFilter` | data-review-assignment/src/components/DataReviewTable.tsx:153 | a new name pattern re-filters `data` and resets to page 1 (0 if nothing matches); the same pattern changes nothing |
| `ReviewTable.Table.SetRowsPerPage` | data-review-assignment/src/components/DataReviewTable.tsx:326 | a new page size keeps data and filters and pulls the page within the new page count |
| `ReviewTable.Table.Previous` | data-review-assignment/src/components/DataReviewTable.tsx:339 | the page becomes `max(p-1, 1)`, or 0 with no pages; data, filters and page size do not change |
| `ReviewTable.Table.Next` | data-review-assignment/src/components/DataReviewTable.tsx:349-353 | the page becomes `min(p+1, totalPages)`; data, filters and page size do not change |

## Left out

- The fetch of `/api/data` and its JSON decoding (DataReviewTable.tsx lines 54-63) are network I/O. `Table.Load(records)` stands for the fetch completing with `records`.
- The CSV export (lines 102-127): serialisation is done by the `json2csv` library, which is not part of this model. The Blob, object URL and download link are browser I/O, and the failure path only logs.
- All JSX markup (lines 143-363): tooltips, the error dialog and its `modalData` state, and the dropdown and `<select>` widgets. Only the state updates their handlers make are modelled.
- The `disabled` attributes of Previous and Next gate clicks in the browser. The handlers are modelled without that gate. `Table.PreviousDisabled` and `Table.NextDisabled` show that a disabled button's handler would change no state.
- React's scheduling of effects is not modelled. Each event method runs the handler's update and then the effects that update triggers (the filter effect, then the bounds effect), one after the other. For the events modelled, from the states they are called in, this reaches the same final state as React's commits.
- Table.Load: only the single fetch on mount is modelled, so `Load` requires the table to hold no data yet. A later reload from a non-empty table is not modelled: there React's bounds effect would run in the same flush as the filter effect, on the stale page and the unfiltered count, and could override the reset to page 1.
- `navbar.tsx`, `index.tsx`, `_app.tsx` and `api/data.ts` are page composition and a static HTTP handler. They are not part of this model.
- Text.Lower: only ASCII capitals are lower-cased. Unicode case mapping is not modelled, so `NameFilterIgnoresCase` holds for ASCII case only.
- Pagination.TotalPages: `Math.ceil` of a floating-point division is modelled as exact integer ceiling division. These agree for every count below 2^53.
- Records are compared by value, not by object identity, so the order and multiplicity lemmas speak of equal records.
