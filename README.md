# Artwork table selection accumulator

A Dafny model of the row-selection logic of the artwork table component
(`src/components/ArtworkTable.tsx`). The component shows one page of ten artworks at a time,
keeps a map from artwork id to a "selected" flag across pages, and has a popover that
bulk-selects the next N not-yet-selected rows, fetching later pages one at a time when the
visible one does not have enough.

Modules, following the component's parts:

- `Wrappers`: `Option`, for `event.page`, `e.value` and a fetch that may fail.
- `Selection`: the selected-rows map. `IsSelected` is the checkbox lookup (a missing key reads as
  unchecked). `Toggle` is the manual checkbox. `Merge` is the table's `{...prev, ...change}`.
  `TableSelection` is the selection handed to the table.
- `Paging`: the page event (0-based) becomes a 1-based page, and that page gives the first-row
  offset.
- `BulkSelect`: the bulk selection written as functions (`ScanPage` for one `for` loop, `Continue`
  for the `while` loop, `Bulk` for the whole handler), plus the method `ScanRows` that runs one
  `for` loop. It also has a reference definition of the result that does not run the walk:
  `Candidates` is the ids of all pages, in page-then-row order, that are not yet truthy, each
  counted at its first occurrence. The main theorem `BulkSelectsFirstCandidates` says the handler
  commits exactly when there are at least N candidates. It then marks exactly the first N
  candidates.
- `ArtworkTable`: the class `SelectionAccumulator`. Its fields are the page, the loaded ids, the
  selected-rows map and the popover's number. Each event handler is a method, and its contract
  gives the full new state.

The remote API is replaced by a finite page source. `later[k]` is the list of ids of page
`page + 1 + k`, and any request past its end fails. The `while (remaining > 0)` loop stops only
when the budget is used up or a fetch throws. There is no `try`/`catch` around the fetch, so a
failure skips `setSelectedRows` and nothing is committed. A reader might expect the selections
made on earlier pages to survive a failed fetch; they do not, because `setSelectedRows` at :108
is never reached. `HandleSelectRows` leaves the map exactly as it was after a failed fetch.

## Model

| member | source | states |
|---|---|---|
| `Selection.IsSelected` | src/components/ArtworkTable.tsx:64 | A missing key reads as unchecked. A present key reads as its flag. |
| `Selection.Toggle` | src/components/ArtworkTable.tsx:55-60 | The toggled id maps to exactly the given flag. Every other key keeps its value. No key is lost. |
| `Selection.ToggleIdempotent` | src/components/ArtworkTable.tsx:55-60 | Toggling the same row to the same flag twice equals toggling it once. |
| `Selection.ToggleOffDeselectsOnlyThatRow` | src/components/ArtworkTable.tsx:55-60 | After unchecking one row, the checked rows are exactly the earlier checked rows minus that one. |
| `Selection.Merge` | src/components/ArtworkTable.tsx:128 | The merge keeps every key of the old map. The change map wins on shared keys. Keys absent from the change keep their old value. |
| `Selection.MergeKeepsEarlierEntry` | src/components/ArtworkTable.tsx:128 | Merging `{5: true}` into `{3: true}` gives `{3: true, 5: true}`. |
| `Selection.Project` | src/components/ArtworkTable.tsx:125-127 | Mapping keys to a loaded artwork and filtering out the missing ones keeps exactly the keys that are loaded ids. There are no repeats when the keys have none. |
| `Selection.TableSelection` | src/components/ArtworkTable.tsx:125-127 | The table selection is exactly the loaded artworks whose id is a key of the map, whatever its flag, each listed once. |
| `Selection.UncheckedRowStaysInTableSelection` | src/components/ArtworkTable.tsx:125-127 | A loaded row unchecked by hand stays in the table selection, because its key is still present (with `false`). |
| `Paging.PageAfterChange` | src/components/ArtworkTable.tsx:75 | The 1-based page is the event's 0-based page plus one, or 1 when the event has no page. |
| `Paging.FirstOffset` | src/components/ArtworkTable.tsx:121 | For pages from 1 on, the offset is a non-negative multiple of the page size. Dividing by the page size gives back the page. |
| `Paging.PageChangeOffset` | src/components/ArtworkTable.tsx:74-76 | After a page event, the offset is the event's page times 10, or 0 without a page. |
| `Paging.ThirdPageOffset` | src/components/ArtworkTable.tsx:121 | Event page 2 gives page 3 and offset 20. |
| `BulkSelect.ScanPage` | src/components/ArtworkTable.tsx:84-90 | A walk over one page never raises the budget. It never spends more than the page's length and never drives a positive budget below zero. With no budget it changes nothing. It never unselects a truthy id. |
| `BulkSelect.ScanRows` | src/components/ArtworkTable.tsx:99-105 | The loop over one page's rows, with its `break`, gives the same map and remaining budget as the walk `ScanPage`. |
| `BulkSelect.Continue` | src/components/ArtworkTable.tsx:93-106 | The fetch loop commits at once when the budget is used up. When it commits, it has requested no more pages than the source has. When it fails, it has requested every page of the source and one more. |
| `BulkSelect.Candidates` | src/components/ArtworkTable.tsx:86-88 | The reference list holds exactly the ids of the stream that are not truthy, with no repeats. |
| `BulkSelect.ScanPageAppend` | src/components/ArtworkTable.tsx:94-105 | Scanning one page and then the next equals one walk over both pages joined, so page boundaries do not matter. |
| `BulkSelect.ScanStream` | src/components/ArtworkTable.tsx:84-105 | A walk over a stream with budget B marks exactly the first min(B, number of candidates) candidates and keeps the rest of the budget. |
| `BulkSelect.Bulk` | src/components/ArtworkTable.tsx:79-110 | The whole handler as a function. With N of 0 or less it commits the old map after no fetch. A commit has requested at most every page of the source. A failure has requested every page of the source and one more. |
| `BulkSelect.FetchPage` | src/components/ArtworkTable.tsx:96 | A request for a page after the visible one answers with that page's ids while the source has it, and fails for any page past its end. |
| `BulkSelect.SelectedIdCostsNothing` | src/components/ArtworkTable.tsx:85-88 | An id already `true` costs no budget and changes nothing. An id absent or `false` is set to `true` for one unit while budget is left. With no budget left the walk stops. |
| `BulkSelect.ContinueScansStream` | src/components/ArtworkTable.tsx:93-106 | The fetch loop commits exactly when one walk over all remaining pages uses up the budget, and it commits that walk's map. |
| `BulkSelect.BulkSelectsFirstCandidates` | src/components/ArtworkTable.tsx:79-110 | Bulk selection commits exactly when there are at least N candidates in page-then-row order. The committed map is the old map with exactly the first N candidates set to `true`. |
| `BulkSelect.BulkNeverDeselects` | src/components/ArtworkTable.tsx:81-105 | No key is dropped and no truthy key becomes falsy. Each key keeps its value unless it was absent or `false` and becomes `true`. Keys outside every page are unchanged. |
| `BulkSelect.BulkSelectsExactlyBudget` | src/components/ArtworkTable.tsx:80-103 | A commit turns exactly N ids (0 when N is 0 or less) from absent or `false` to `true`. They are the first N candidates. |
| `BulkSelect.BulkFailsWhenShort` | src/components/ArtworkTable.tsx:94-96 | The fetch fails exactly when fewer than N candidates exist. It then requests every page of the source and one more. |
| `BulkSelect.BulkZeroIsNoOp` | src/components/ArtworkTable.tsx:80-94 | With N of 0 or less, the map is committed unchanged and no page is requested. |
| `BulkSelect.BulkSkipsSelectedIds` | src/components/ArtworkTable.tsx:86-101 | Ids already `true` are never candidates. Ids mapped to `false` are candidates. A repeated id is a candidate at most once. |
| `BulkSelect.BulkStaysOnCurrentPage` | src/components/ArtworkTable.tsx:84-94 | When the visible page alone has N candidates, the handler commits without requesting any page. |
| `BulkSelect.SpansTwoPages` | src/components/ArtworkTable.tsx:79-110 | Pages [1,2,3] then [4,5,6] with N = 4 select ids 1 to 4 after one request. With no next page, the fetch fails. |
| `ArtworkTable.SelectionAccumulator.constructor` | src/components/ArtworkTable.tsx:25-30 | On mount the page is 1 and no rows are loaded. The map is empty and the popover number is 0. |
| `ArtworkTable.SelectionAccumulator.ReceiveArtworks` | src/components/ArtworkTable.tsx:37-43 | A fetched page replaces the loaded rows. A failed fetch keeps the old rows. Nothing else changes. |
| `ArtworkTable.SelectionAccumulator.HandleRowSelect` | src/components/ArtworkTable.tsx:55-60 | The map becomes `Toggle` of the old map. Page, rows and popover number are unchanged. |
| `ArtworkTable.SelectionAccumulator.OnSelectionChange` | src/components/ArtworkTable.tsx:128 | The map becomes `Merge` of the old map and the change. Nothing else changes. |
| `ArtworkTable.SelectionAccumulator.OnPageChange` | src/components/ArtworkTable.tsx:74-76 | The page becomes the event's page plus one, so the offset is the event's page times 10. The selection is untouched. |
| `ArtworkTable.SelectionAccumulator.SetRowsToSelect` | src/components/ArtworkTable.tsx:144 | The popover number becomes the input's value, or 0 when the input is empty. |
| `ArtworkTable.SelectionAccumulator.HandleSelectRows` | src/components/ArtworkTable.tsx:79-110 | It commits exactly when `Bulk` commits, and then the map is `Bulk`'s. After a failed fetch the map is exactly as before. Pages are requested in order from `page + 1`, one per fetch. The visible page, the rows and the popover number never change. |

## Left out

- Network I/O: the HTTP requests and the remote API. A page fetch becomes an `Option` argument (`ReceiveArtworks`) or the finite page source `later` (`HandleSelectRows`). `console.error` is left out too.
- A remote source that never runs out: past its last page the model always fails. A real API that kept answering with empty pages would keep the loop fetching forever, and the model does not capture that.
- React plumbing: `useState`, `useEffect`, `useRef`, the moment of re-rendering, the `loading` flag and `setTotalRecords`. The model keeps the state as plain fields. The effect that fetches after a page change is the caller's job: `OnPageChange` then `ReceiveArtworks`.
- The UI widgets (table, columns, checkbox, number input, button, overlay panel), including `overlayPanelRef.current?.hide()`, the JSX layout and the style imports.
- The display fields of an artwork (title, origin, artist, inscriptions, dates): a record is modelled by its integer id.
- src/App.tsx: it only renders the component.
- Interleaving of the asynchronous handler with teardown or with other events: bulk selection is one sequential step.
- JavaScript numbers are doubles. The model uses unbounded integers for the budget, the page numbers and the offset, so it leaves out precision loss beyond 2^53.
- Selection.TableSelection: the order of `Object.keys` is taken as a parameter (any listing of the map's keys without repeats). The model does not fix it to JavaScript's order, which lists non-negative integer keys in ascending order and any others (negative ids) after them in insertion order.
- ArtworkTable.SelectionAccumulator.OnSelectionChange: the change is taken to be a map from id to flag, as the type of the selected-rows state says. What the table widget actually passes is the widget library's affair, and that library is not part of this model.
