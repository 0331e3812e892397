# AddressSearch: a verified model of the search, sort and paginate engine

The `AddressSearch` component of the Kyoto address finder keeps an in-memory
store of `{zipCode, address, furigana}` records. It looks them up in three
ways:

- by postal-code digit prefix;
- by address, case-insensitive substring;
- by reading (furigana), case-insensitive substring.

It sorts the matches by one of five orders, shows them a page at a time, and
debounces typing so that only the last keystroke of a burst starts a search.
This project models that engine in Dafny and proves what the component
promises about it.

Modules, following the structure of the component:

- `Text`: the string primitives the engine uses.
  - ECMAScript `trim` (the full WhiteSpace and LineTerminator set).
  - `replace(/[^\d]/g, "")`.
  - `toLowerCase` on Latin letters.
  - `startsWith` and `includes`.
- `Records`: the record, the search mode, the sort order and the "not found" condition.
- `Matcher`: the filter callbacks of `executeSearch` and its query step.
  - Trim.
  - The neutral "no search" cases.
  - A digit prefix, or a lowercase substring.
  - The reference definition `MatchIndices`, which the filter is proved to agree with.
- `Sorter`: `sortResults`.
  - An insertion sort on a fresh array (`SortResults`), proved equal to the pure stable sort `StableSort`.
  - `StableSort` is proved to be:
    - a permutation;
    - sorted under the order's comparator;
    - stable;
    - idempotent;
    - the only sequence with those properties.
  - `localeCompare(…, "ja")` is a parameter `collate` (`collate(a, b)` means the comparison is at most 0). It is required to be total and transitive.
- `Paginator`: the arithmetic of the render body.
  - The page slice and `totalPages`.
  - `showPagination` and the displayed range.
  - The seven-button page window.
  - The first / previous / next / last targets.
- `ZipInput`: the postal-code formatter of `handleZipCodeInput`.
- `Debounce`: the timer of `startSearch` as a state machine without a clock.
  - Schedule (with the cancel before it) and fire are the only events.
- `ResultSet`: the invariant the component keeps about its results.
  - The count matches the list.
  - The list is sorted by the current order once loading has ended.
  - The list holds the matches of the last search that found something.
- `Session`: the component itself, a class `AddressSearch`.
  - Its fields are the component's state and refs.
  - Its methods are the handlers and effects.
  - Every handler and effect (`StartSearch`, `FireTimer`, `SearchEffect`, `ExecuteSearch` and the `Handle…` methods) keeps `Valid()`. The two helpers `ProcessSearchResults` and `SortOrderEffect` keep only the part about the results, `ResultsValid()`. Under `Valid()`, the records on show are a permutation of the matches of the last search that found something, sorted by the current order whenever no search is loading; every one of them matches that search (`ShownRecordsMatch`).

In these places the code behaves in ways one might not expect; the model
follows the code:

- Switching the search mode only empties the query. The pending debounce timer, the results and the error all stay.
- Clearing the input empties the results and the error but does not reset `page`.
- `handlePageChange` takes the page number as given. Only the buttons clamp their targets.
- Nothing holds searches back until the store is loaded. The model starts from a loaded store.
- A search that finds records leaves `error` as it was. So after a "not found" (the user types `999`), a later search that does match (`600`) still carries the "not found" error. `AddressResult.tsx` shows the error in place of the result table whenever one is set (its line 47), so the matches of the later search stay hidden until the input is cleared. `ErrorAfterSearch` states this exactly, and the session uses it.
- Re-sorting on an order change sorts the list already on show. Records that tie under the new order therefore keep their previous order, not store order.

## Model

| member | source | states |
|---|---|---|
| Text.Trim | src/components/AddressSearch.tsx:135 | the trimmed query is empty exactly when the input is all white space; otherwise it starts and ends with non-space, and it is a slice of the input with only white space cut on either side |
| Text.SkipSpace | src/components/AddressSearch.tsx:135 | the scan for the first non-space stops at a non-space or at the end, and skips only white space |
| Text.SkipSpaceBack | src/components/AddressSearch.tsx:135 | the backward scan stops after a non-space or at the start, and skips only white space |
| Text.DigitsOnly | src/components/AddressSearch.tsx:149 | the digit extraction keeps only ASCII digits, never lengthens the text, leaves all-digit text unchanged, keeps a single digit and drops any other single character; with `DigitsOnlyAppend` this fixes it on every string |
| Text.DigitsOnlyAppend | src/components/AddressSearch.tsx:162 | digit extraction distributes over concatenation |
| Text.LowerChar | src/components/AddressSearch.tsx:172 | ASCII and full-width capitals move to their lower-case letter (+32); every other character is unchanged |
| Text.ToLower | src/components/AddressSearch.tsx:172 | lowering keeps the length, lowers each character in place, and leaves no capital |
| Text.ToLowerIdempotent | src/components/AddressSearch.tsx:180 | lowering twice is lowering once |
| Text.Contains | src/components/AddressSearch.tsx:172 | `includes` holds exactly when the needle occurs at some position of the haystack |
| Matcher.QueryKey | src/components/AddressSearch.tsx:149-180 | the key a record is compared with is all digits in postal-code mode, and in the text modes the query lowered, of the same length, with no capital |
| Matcher.FilterSound | src/components/AddressSearch.tsx:161-181 | the filter keeps at most what it is given, and only records of the store that match |
| Matcher.MatchIndices | src/components/AddressSearch.tsx:161-181 | the reference filter: strictly increasing positions of the store, each matching, and containing every matching position |
| Matcher.FilterSelectsMatchIndices | src/components/AddressSearch.tsx:161-181 | `filter` returns exactly the records at the matching positions, in store order |
| Matcher.FilterCount | src/components/AddressSearch.tsx:161-181 | a matching record is kept as many times as the store holds it, a non-matching one never |
| Matcher.RunQuery | src/components/AddressSearch.tsx:135-183 | no search happens exactly when the query is all white space or, in postal-code mode, its trimmed text has no digit; a search returns no more records than the store has |
| Matcher.ZipSearchExact | src/components/AddressSearch.tsx:147-164 | a postal-code search returns exactly the records, in store order, whose postal-code digits start with the (non-empty) digits of the trimmed query |
| Matcher.TextSearchExact | src/components/AddressSearch.tsx:169-183 | an address or reading search returns exactly the records, in store order, whose lowered field contains the (non-empty) lowered trimmed query |
| Sorter.PrecedesPreorder | src/components/AddressSearch.tsx:72-98 | each of the five comparators, the descending ones with swapped arguments, is a total preorder on records when `localeCompare` is one on strings |
| Sorter.PrecedesTotal | src/components/AddressSearch.tsx:72-98 | any two records are comparable under each order |
| Sorter.PrecedesTransitive | src/components/AddressSearch.tsx:72-98 | each order's comparator is transitive |
| Sorter.TiedWithMember | src/components/AddressSearch.tsx:72-98 | the tie group of `y` in `s` holds exactly the records of `s` the comparator ties with `y` |
| Sorter.InsertPermutation | src/components/AddressSearch.tsx:74-97 | one insertion step adds exactly the inserted record |
| Sorter.StableSortPermutation | src/components/AddressSearch.tsx:68-104 | the sort returns a permutation of its input |
| Sorter.InsertBoundedAbove | src/components/AddressSearch.tsx:74-97 | insertion keeps a common upper bound of the elements |
| Sorter.SortedSnoc | src/components/AddressSearch.tsx:74-97 | appending an upper bound to a sorted sequence keeps it sorted |
| Sorter.InsertSorted | src/components/AddressSearch.tsx:74-97 | inserting into a sorted sequence keeps it sorted |
| Sorter.StableSortSorted | src/components/AddressSearch.tsx:68-104 | the result is sorted by the chosen field and direction (postal code for the default order) |
| Sorter.TiedWithAppend | src/components/AddressSearch.tsx:74-97 | appending a record adds it to its tie groups and to no other |
| Sorter.InsertTied | src/components/AddressSearch.tsx:74-97 | an insertion step places the new record after all records it ties with |
| Sorter.StableSortStable | src/components/AddressSearch.tsx:68-104 | records the comparator ties keep their input order (stability of `Array.prototype.sort`) |
| Sorter.StableSortOfSorted | src/components/AddressSearch.tsx:68-104 | sorting a sorted list changes nothing |
| Sorter.StableSortIdempotent | src/components/AddressSearch.tsx:68-104 | sorting twice by the same order is sorting once |
| Sorter.StableSortIsUnique | src/components/AddressSearch.tsx:68-104 | any sorted arrangement that keeps every tie group in input order is the sort's result, so the choice of a stable algorithm does not matter |
| Sorter.SortedTiedUnique | src/components/AddressSearch.tsx:68-104 | two sorted sequences with the same tie groups are equal |
| Sorter.DropLastTied | src/components/AddressSearch.tsx:68-104 | removing a common last record keeps equal tie groups equal |
| Sorter.LastTied | src/components/AddressSearch.tsx:68-104 | two sorted sequences that agree on the tie groups of their last records end in tied records |
| Sorter.InsertAt | src/components/AddressSearch.tsx:74-97 | where the in-place scan stops, the record goes exactly where insertion puts it |
| Sorter.ShiftedIsInsert | src/components/AddressSearch.tsx:74-97 | the array after shifting and placing is the insertion of the record into the sorted prefix |
| Sorter.SortResults | src/components/AddressSearch.tsx:68-104 | `sortResults` copies the matches into a fresh array, leaves its argument alone, and returns exactly the stable sort of the matches under the chosen order |
| Sorter.InsertInPlace | src/components/AddressSearch.tsx:74-97 | one round of the in-place sort turns the prefix up to `i` into the insertion of `a[i]` and leaves the rest of the array unchanged |
| Paginator.SliceIndex | src/components/AddressSearch.tsx:216 | `slice` clamps a non-negative index to the length and counts a negative one from the end |
| Paginator.PageSliceClipped | src/components/AddressSearch.tsx:213-217 | on a page numbered from 1, the page is the records from `(page-1)*limit` to `page*limit`, clipped to the list |
| Paginator.PagesPrefix | src/components/AddressSearch.tsx:213-217 | the first `count` pages, concatenated, are the first `count*limit` records |
| Paginator.TotalPages | src/components/AddressSearch.tsx:346 | `totalPages` is the least page count that holds every result, and 0 only when there are none |
| Paginator.PagesCoverResults | src/components/AddressSearch.tsx:213-217 | pages 1 to `totalPages`, concatenated, reproduce the results exactly |
| Paginator.ShowPaginationIffSeveralPages | src/components/AddressSearch.tsx:346-347 | the pager is shown exactly when there are at least two pages |
| Paginator.DisplayRangeMatchesPage | src/components/AddressSearch.tsx:484-486 | on an existing page, the displayed numbers `first`–`last` lie within the results and name exactly the records on the page |
| Paginator.KeepPages | src/components/AddressSearch.tsx:566-583 | the rendered buttons are exactly the slots numbered within `[1, totalPages]` |
| Paginator.KeepPagesIncreasing | src/components/AddressSearch.tsx:566-583 | keeping only the valid slots keeps them in increasing order |
| Paginator.PageWindowBounds | src/components/AddressSearch.tsx:555-584 | the window renders at most `min(7, totalPages)` buttons, in increasing order, each numbered within `[1, totalPages]` |
| Paginator.PageWindowHasPage | src/components/AddressSearch.tsx:555-584 | with at least seven pages, or on one of the first four, the current page has a button |
| Paginator.PageWindowAsWritten | src/components/AddressSearch.tsx:557-564 | as written, with fewer than seven pages and a page past the fourth, the buttons are exactly 1 to `2*totalPages - 7` |
| Paginator.PageWindowMissesCurrentPage | src/components/AddressSearch.tsx:557-564 | on page 5 of 5 the window shows neither page 5 nor page 4 |
| Paginator.PageWindowFixedHasPage | src/components/AddressSearch.tsx:555-584 | the corrected window keeps the bounds and the order and always shows the current page |
| Paginator.LastPageLinkNotRepeated | src/components/AddressSearch.tsx:587-599 | when the extra last-page button is shown, the window does not already have a button for the last page |
| Paginator.NavigationStaysInRange | src/components/AddressSearch.tsx:540-617 | from an existing page, first / previous / next / last lead to existing pages, at most one step away for previous and next, which stay put only on the first and last page |
| ZipInput.CleanZip | src/components/AddressSearch.tsx:240 | cleaning keeps only digits and hyphens, never lengthens, leaves clean input unchanged, keeps a single digit or hyphen and drops any other single character; with `CleanZipAppend` this fixes it on every string |
| ZipInput.CleanZipAppend | src/components/AddressSearch.tsx:240 | cleaning distributes over concatenation |
| ZipInput.CleanZipKeepsDigits | src/components/AddressSearch.tsx:240 | cleaning drops no digit |
| ZipInput.Substring | src/components/AddressSearch.tsx:245 | `substring` never returns more than the string |
| ZipInput.SubstringFrom | src/components/AddressSearch.tsx:245 | `substring(a, b)` for `a` within the string is the slice from `a` to `b` clipped to the length |
| ZipInput.FormattedCases | src/components/AddressSearch.tsx:243-246 | `formatted` is the first three kept characters, a hyphen and the next four at most when more than three were kept and none is a hyphen, and otherwise the cleaned text |
| ZipInput.StoredQueryCut | src/components/AddressSearch.tsx:249 | the stored query is `formatted` cut to eight characters |
| ZipInput.StoredQueryShape | src/components/AddressSearch.tsx:237-252 | the stored query has at most eight digits and hyphens, is empty exactly when `formatted` is, and is the first three characters, a hyphen and chars 3 to 7 when the cleaned input is longer than three with no hyphen |
| ZipInput.StoredQueryDigits | src/components/AddressSearch.tsx:240-249 | the digits of the stored query are those of a prefix of the cleaned input, of the length the two cases give |
| ZipInput.StoredQueryDigitsArePrefix | src/components/AddressSearch.tsx:240-249 | the formatter never invents or reorders a digit: the stored query's digits are a prefix of the typed digits |
| ZipInput.StoredQueryKeepsShortDigits | src/components/AddressSearch.tsx:240-249 | with no hyphen typed and at most seven characters kept, no digit is lost |
| ZipInput.StoredQueryIdempotent | src/components/AddressSearch.tsx:237-249 | on input within the field's eight characters, formatting what was stored changes nothing |
| Debounce.ScheduleSupersedes | src/components/AddressSearch.tsx:220-234 | after a new schedule, only the new timer can run; every earlier one has been cancelled |
| Debounce.ScheduleTimesPending | src/components/AddressSearch.tsx:220-234 | after `k` calls of `startSearch`, exactly the last timer is pending |
| Debounce.FireAllRunsPendingOnce | src/components/AddressSearch.tsx:227-233 | whatever timers come due, in whatever order, the callback runs once if the pending one is among them and never otherwise |
| Debounce.BurstRunsOnlyLast | src/components/AddressSearch.tsx:220-234 | a burst of keystrokes leaves one pending search, the last one, and at most one search runs afterwards |
| ResultSet.EmptyResultsInvariant | src/components/AddressSearch.tsx:138-142 | emptied results satisfy the result invariant in any state |
| ResultSet.SortedMatchesInvariant | src/components/AddressSearch.tsx:109-117 | the sorted matches of a search satisfy the invariant: right count, sorted, a permutation of the matches |
| ResultSet.ResortInvariant | src/components/AddressSearch.tsx:204-207 | re-sorting the results by a new order keeps the same records and the invariant under the new order |
| Session.ErrorAfterSearch | src/components/AddressSearch.tsx:109-158 | a neutral query clears the error; a search without matches sets "not found"; a search with matches leaves the previous error |
| Session.AddressSearch.constructor | src/components/AddressSearch.tsx:17-40 | the initial state: empty query, postal-code mode, no results, no error, default order, 20 per page, page 1, no timer |
| Session.AddressSearch.ShownRecordsMatch | src/components/AddressSearch.tsx:161-183 | in every reachable state, every record on show is a record of the store that matches the last search with matches, which `ExecuteSearch` records and every other step leaves alone |
| Session.AddressSearch.StartSearch | src/components/AddressSearch.tsx:220-234 | `startSearch` cancels the pending timer and schedules a new one; nothing else changes |
| Session.AddressSearch.FireTimer | src/components/AddressSearch.tsx:227-233 | a timer that is still pending sets loading, goes to page 1, flags the search and clears the handle; a cancelled one changes nothing |
| Session.AddressSearch.SearchEffect | src/components/AddressSearch.tsx:129-131 | without a flagged search nothing changes; with one, the results become the sorted matches of the query (none for a neutral query) and the error follows `ErrorAfterSearch`; a search with matches becomes the recorded last search (mode, key of the trimmed query, matches), and otherwise the record stays |
| Session.AddressSearch.ExecuteSearch | src/components/AddressSearch.tsx:133-187 | results, count and error after the search, all in terms of `RunQuery` and `StableSort`, with the flags cleared and the invariant kept; a search with matches is recorded as the last search (its mode, the key of its trimmed query and its matches), any other outcome leaves that record alone |
| Session.AddressSearch.ProcessSearchResults | src/components/AddressSearch.tsx:107-126 | matches: count set, results sorted by the current order, error unchanged; none: "not found", empty results, count 0; loading ends either way |
| Session.AddressSearch.HandleZipCodeInput | src/components/AddressSearch.tsx:237-260 | the stored query is the formatted input; a non-empty `formatted` starts a search and keeps the results on show, an empty one clears results, count and error |
| Session.AddressSearch.HandleQueryInput | src/components/AddressSearch.tsx:263-276 | the query is stored as typed; non-empty text starts a search and keeps the results, empty text clears results, count and error |
| Session.AddressSearch.ClearResults | src/components/AddressSearch.tsx:256-258 | results, count and error are cleared; nothing else changes |
| Session.AddressSearch.HandlePageChange | src/components/AddressSearch.tsx:279-281 | the page becomes exactly the number given, without clamping |
| Session.AddressSearch.HandleSearchModeChange | src/components/AddressSearch.tsx:284-287 | the mode changes and the query empties; timer, results and error stay |
| Session.AddressSearch.HandleSortOrderChange | src/components/AddressSearch.tsx:496 | a new order re-sorts the results on show (if any and not loading) without running the matcher, and leaves count and page alone |
| Session.AddressSearch.SortOrderEffect | src/components/AddressSearch.tsx:199-210 | only a changed order acts: it is remembered, and results on show that are not loading are re-sorted; the page stays |
| Session.AddressSearch.HandleLimitChange | src/components/AddressSearch.tsx:511-514 | a new page size takes effect and the page goes back to 1 |
| Session.AddressSearch.CurrentPageResults | src/components/AddressSearch.tsx:213-217 | on a page numbered from 1, the records on show are those from `(page-1)*limit` to `page*limit`, clipped to the list |

## Left out

- Loading the store with `fetch` and its error path (lines 43-65) is network I/O. The store is a constructor parameter, and `isDataLoaded` and the "loading" message are not modelled.
- Real time is not modelled. The 200 ms debounce, the 50 ms search delay and the 10 ms delivery delay are events without a clock. The 50 ms and 10 ms steps are merged into one atomic `ExecuteSearch`, which delivers the sorted results in the same step that sets `totalResults`.
  - Not captured: the moment between setting `totalResults` and delivering the list.
  - Not captured: a sort order change while the 10 ms delivery is pending.
- `localeCompare(…, "ja")` is an abstract total preorder passed in as `collate`. Japanese collation itself is a foreign library.
- `toLowerCase` is modelled for ASCII and full-width Latin capitals only. Other scripts have no case that the searched fields use, and full Unicode case mapping is a foreign library.
- The sort algorithm of the JavaScript engine is unspecified beyond stability. The model uses insertion sort, and `StableSortIsUnique` shows that any stable sort gives the same result.
- React's machinery is not modelled. This covers hooks, dependency arrays, re-render timing and the cleanup that cancels the 50 ms timer when its dependencies change. Each effect is a method that the event it follows is expected to trigger.
- The JSX markup is not modelled: help texts, input rendering, SVG decoration and the result table. The rendering of `AddressResult.tsx` and the page chrome of `page.tsx` are not part of this model.
- Session.AddressSearch.HandleLimitChange: requires the new limit to be one of the selector's five options. The `<select>` cannot produce any other value.
- Session.AddressSearch.CurrentPageResults: states the page only for page numbers of at least 1. For smaller numbers it follows `slice`'s negative-index rule through `PageSlice`, and the ensures says nothing about it.
- Session.AddressSearch.HandleSortOrderChange: the class keeps the sort effect's remembered order equal to the current order between steps, so the effect always runs right after the selector changes. That is the only time React runs it with a new order.

## Findings

| source | as written | input that shows it | evidently intended | confidence | as-written member | corrected member |
|---|---|---|---|---|---|---|
| src/components/AddressSearch.tsx:557-564 | when `page >= totalPages - 3`, button `i` is `totalPages - (6 - i)` even when there are fewer than seven buttons, so with fewer than seven pages and a page past the fourth the numbers run below 1 and are dropped | `totalPages = 5`, `page = 5`: the slots are -1, 0, 1, 2, 3, so the buttons are 1, 2, 3 and the current page 5 has none | the last `min(7, totalPages)` pages, `totalPages - (min(7, totalPages) - 1 - i)`, which always includes the current page | not executed | Paginator.PageWindowMissesCurrentPage | Paginator.PageWindowFixedHasPage |
