# Case documents: list query and error middleware, in Dafny

This project models two pieces of a small case-document web application.

1. **The list query of the case-documents page** (`frontend/src/page/caseDocumentsPage.jsx`).
   The page filters its documents by a search term and a category. It sorts a copy of the
   result by date (newest first) or by title (collation order), shows page `currentPage` of
   nine documents, and reports `ceil(matches / 9)` pages. The Previous and Next buttons step
   the page number with `Math.max(prev - 1, 1)` and `Math.min(prev + 1, totalPages)`.
2. **The error middleware** (`backend/src/middlewares/errorMiddleware.js`). An `ApiError` is
   reported with its own status code, message and errors. Any other failure becomes status 500
   with the message `"Server Error"` and no `errors` field.

Both files are pure, so both are modelled as functions and lemmas.

- The documents are an input, not the page's random mock data.
- A document's date is an integer timestamp.
- The host's `toLowerCase` (one character at a time) and `localeCompare` are the two fields of
  a `Locale` value passed in.
- The React state of the page is a `PageState` record, and each event handler is a
  `Step` from one state to the next.
- A render is a `View`.

The JavaScript built-ins the page uses are modelled in their own modules:

- `Seqs`: `Array.prototype.filter`, and `Array.prototype.slice` including its handling of
  negative indices.
- `Strings`: `String.prototype.toLowerCase` and `String.prototype.includes`.
- `StableSort`: `Array.prototype.sort`, which ECMAScript 2019 requires to be stable. It is
  written as an insertion sort. `StableSort.SortIsUnique` proves that every sorted sequence that
  keeps each class of equivalent elements in input order is this one, so the model does not
  depend on which algorithm the engine uses.

Three behaviours of the code that are easy to miss:

- The page number is never clamped. A render reports the state's page as it is, and a page
  past the end shows nothing (`CaseDocumentsPage.StalePageAfterCategoryChange`).
- On page 0 the slice is `slice(-9, 0)`, which is empty (`CaseDocumentsPage.CurrentItems`).
  Page 0 is reached by pressing Next while nothing matches (`CaseDocumentsPage.NextWithNoMatches`).
- The search lower-cases both strings with `toLowerCase`. It does no Unicode case folding.

## Model

| member | source | states |
|---|---|---|
| `Seqs.Filter` | frontend/src/page/caseDocumentsPage.jsx:56-59 | the result is no longer than the input, and every element it keeps satisfies the predicate |
| `Seqs.FilterCount` | frontend/src/page/caseDocumentsPage.jsx:56-59 | an element is kept exactly when it is in the input and satisfies the predicate, and it is kept as many times as the input holds it |
| `Seqs.FilterConcat` | frontend/src/page/caseDocumentsPage.jsx:56-59 | filtering a concatenation gives the two filtered parts concatenated, so kept elements keep their relative order |
| `Seqs.Slice` | frontend/src/page/caseDocumentsPage.jsx:71 | `slice(start, end)` with `0 <= start <= end` is the part from `min(start, n)` to `min(end, n)`; it is empty when `0 <= end <= start` or `end == 0`, and never longer than `end - start`; with `-n <= start < end < 0` both count back from the end |
| `Strings.LowerCase` | frontend/src/page/caseDocumentsPage.jsx:57 | lower-casing keeps the length and maps each character through the host's mapping |
| `Strings.Includes` | frontend/src/page/caseDocumentsPage.jsx:57 | `s.includes(t)` holds exactly when `t` occurs in `s` at some position |
| `StableSort.Sort` | frontend/src/page/caseDocumentsPage.jsx:61-67 | the sorted copy is a permutation of its input: same length, same multiset |
| `StableSort.SortSorted` | frontend/src/page/caseDocumentsPage.jsx:61-67 | with a consistent comparator every element may precede every later one |
| `StableSort.SortStable` | frontend/src/page/caseDocumentsPage.jsx:61-67 | the elements of any set of mutually equivalent elements come out in the order they went in |
| `StableSort.SortIsUnique` | frontend/src/page/caseDocumentsPage.jsx:61-67 | any sorted sequence that lists every equivalence class in the order of the input equals the sort's result |
| `CaseDocumentsPage.Matches` | frontend/src/page/caseDocumentsPage.jsx:57-58 | a matching document passes the category filter (`All`, or its own category); with an empty search term the category decides alone; a search term longer than the title never matches |
| `CaseDocumentsPage.FilterDocuments` | frontend/src/page/caseDocumentsPage.jsx:56-59 | every kept document's lower-cased title includes the lower-cased search term, and its category is the one chosen unless the filter is `All` |
| `CaseDocumentsPage.FilterDocumentsKeepsExactlyMatches` | frontend/src/page/caseDocumentsPage.jsx:56-59 | a document is kept if and only if it is in the input and matches both conditions, as many times as it occurs |
| `CaseDocumentsPage.FilterDocumentsKeepsOrder` | frontend/src/page/caseDocumentsPage.jsx:56-59 | kept documents stay in their original relative order (filtering distributes over concatenation) |
| `CaseDocumentsPage.EmptyQueryKeepsAll` | frontend/src/page/caseDocumentsPage.jsx:56-59 | with an empty search term and `All`, the filtered list is the input itself |
| `CaseDocumentsPage.Compare` | frontend/src/page/caseDocumentsPage.jsx:62-66 | by date the comparator is negative exactly when `a` is newer and zero exactly when the dates are equal; by title it is `localeCompare(a.title, b.title)` |
| `CaseDocumentsPage.Precedes` | frontend/src/page/caseDocumentsPage.jsx:61-67 | `a` may stay before `b` by date exactly when `a` is not older, and by title exactly when `localeCompare(a.title, b.title) <= 0` |
| `CaseDocumentsPage.SortDocuments` | frontend/src/page/caseDocumentsPage.jsx:61 | the sorted documents are a permutation of the filtered ones |
| `CaseDocumentsPage.PrecedesIsTotalPreorder` | frontend/src/page/caseDocumentsPage.jsx:62-66 | the date comparator always orders consistently; the title comparator does when `localeCompare` is consistent |
| `CaseDocumentsPage.SortByDateNewestFirst` | frontend/src/page/caseDocumentsPage.jsx:62-63 | sorted by date, dates never increase along the list |
| `CaseDocumentsPage.SortByTitleAscending` | frontend/src/page/caseDocumentsPage.jsx:64-65 | sorted by title, `localeCompare` of any earlier title with any later one is at most 0 |
| `CaseDocumentsPage.SortKeepsTiesInOrder` | frontend/src/page/caseDocumentsPage.jsx:61-67 | documents the comparator cannot tell apart keep their filtered order |
| `CaseDocumentsPage.SameDateKeepsOrder` | frontend/src/page/caseDocumentsPage.jsx:62-63 | sorted by date, the documents of any one date appear in their filtered order |
| `CaseDocumentsPage.SortDocumentsIsTheStableSort` | frontend/src/page/caseDocumentsPage.jsx:61-67 | every sorted, stable ordering of the filtered documents is the one the model computes |
| `CaseDocumentsPage.CurrentItems` | frontend/src/page/caseDocumentsPage.jsx:69-71 | at most nine documents; for page `p >= 1` exactly `sorted[(p-1)*9 .. min(p*9, n))`, empty once `(p-1)*9 >= n`; empty on page 0 |
| `CaseDocumentsPage.TotalPages` | frontend/src/page/caseDocumentsPage.jsx:73 | the fewest pages of nine that hold `n` documents: `n <= 9r`, `9(r-1) < n` when `n > 0`, and `r = 0` exactly when `n = 0` |
| `CaseDocumentsPage.PageSizes` | frontend/src/page/caseDocumentsPage.jsx:69-73 | every page before the last holds nine documents, the last holds the remaining one to nine, and later pages are empty |
| `CaseDocumentsPage.PagesThroughIsPrefix` | frontend/src/page/caseDocumentsPage.jsx:69-73 | pages 1 to `k` put together are the first `min(9k, n)` sorted documents |
| `CaseDocumentsPage.PagesCoverSorted` | frontend/src/page/caseDocumentsPage.jsx:69-73 | pages 1 to `totalPages` put together are the whole sorted list |
| `CaseDocumentsPage.ItemOnItsPage` | frontend/src/page/caseDocumentsPage.jsx:69-73 | the document at position `i` appears on page `i/9 + 1`, a page in range, at position `i % 9` |
| `CaseDocumentsPage.PreviousDisabled` | frontend/src/page/caseDocumentsPage.jsx:131-132 | Previous is disabled exactly where pressing it would leave the page unchanged |
| `CaseDocumentsPage.NextDisabled` | frontend/src/page/caseDocumentsPage.jsx:142-143 | Next is disabled exactly where pressing it would leave the page unchanged |
| `CaseDocumentsPage.PreviousPage` | frontend/src/page/caseDocumentsPage.jsx:131-132 | the page is never below 1, steps back by one from page 2 on, and is 1 from page 1 or below |
| `CaseDocumentsPage.NextPage` | frontend/src/page/caseDocumentsPage.jsx:142-143 | the page never passes `totalPages`, steps on by one before it, and is `totalPages` from there on; a page that is not negative stays non-negative |
| `CaseDocumentsPage.ButtonsKeepPageInRange` | frontend/src/page/caseDocumentsPage.jsx:131-143 | from a page in `[1, totalPages]`, both buttons give a page in `[1, totalPages]` |
| `CaseDocumentsPage.Render` | frontend/src/page/caseDocumentsPage.jsx:56-73 | a render reports the state's page unclamped (as "Page _ of _" at line 139 does) and `ceil(matches / 9)` pages; it shows at most nine documents, at least one on a page from 1 to the page count, none on page 0 or past the count |
| `CaseDocumentsPage.InitialRender` | frontend/src/page/caseDocumentsPage.jsx:50-53 | with the `useState` defaults the first render is page 1 of `ceil(n / 9)`, listing the first nine documents (or all of them) newest first |
| `CaseDocumentsPage.RenderShowsOnlyMatches` | frontend/src/page/caseDocumentsPage.jsx:56-73 | a render shows at most nine documents, each an input document that matches the query, and reports `ceil(matches / 9)` pages and the state's page |
| `CaseDocumentsPage.Step` | frontend/src/page/caseDocumentsPage.jsx:90-143 | typing a search term, choosing a sort key or choosing a category changes only that value and keeps the page number as it is; pressing Previous or Next changes only the page, to what the button's updater gives, and a disabled button gives that same result, so disabling never changes the outcome |
| `CaseDocumentsPage.PageNeverNegative` | frontend/src/page/caseDocumentsPage.jsx:131-143 | from a non-negative page, no sequence of searches, selections and presses makes the page negative |
| `CaseDocumentsPage.NextWithNoMatches` | frontend/src/page/caseDocumentsPage.jsx:139-143 | with no matches there are 0 pages, Next is enabled on page 1 and moves to page 0, which shows nothing; Previous is enabled there and moves back to page 1 |
| `CaseDocumentsPage.NoMatchesForAbsentCategory` | frontend/src/page/caseDocumentsPage.jsx:58 | filtering on a category that no document has keeps nothing |
| `CaseDocumentsPage.StalePageAfterCategoryChange` | frontend/src/page/caseDocumentsPage.jsx:100 | changing the category does not reset the page: with ten to eighteen documents of one category, Next gives page 2 of 2, showing the documents past the first nine; picking another category then gives "page 2 of 0" and shows nothing |
| `ErrorMiddleware.ErrorHandler` | backend/src/middlewares/errorMiddleware.js:4-18 | `success` is false; an `ApiError` gives its own status, message and errors; any other failure gives 500 and "Server Error"; the body has an `errors` field exactly for an `ApiError` |
| `ErrorMiddleware.GenericResponseHidesDetail` | backend/src/middlewares/errorMiddleware.js:13-17 | any two failures that are not `ApiError`s get the same response, whatever they carry |
| `ErrorMiddleware.ApiErrorPassesThrough` | backend/src/middlewares/errorMiddleware.js:5-10 | two `ApiError`s get the same response exactly when they are equal: nothing of them is lost |
| `ErrorMiddleware.ExampleResponses` | backend/src/middlewares/errorMiddleware.js:4-18 | a 404 "Not found" `ApiError` with no details gives status 404 and its message with an empty error list; an unexpected error gives 500 "Server Error" |

## Left out

- The mock documents (`caseDocumentsPage.jsx:5-11`) are built with `Math.random` and `Date.now`. The documents are an input instead.
- Dates are integers. The locale-dependent `toLocaleDateString()` and its parsing by `new Date(...)` are not modelled, and neither is the `NaN` an unparseable date would give the comparator.
- `toLowerCase` is a host-supplied mapping of one character to one character. Unicode mappings that change a string's length are not modelled.
- `localeCompare` is a host-supplied comparator. Its collation rules are not modelled.
- CaseDocumentsPage.SortByTitleAscending: title order, and tie order under the title comparator, are stated only for a consistent `localeCompare` (`ConsistentCollation`). ECMAScript leaves the order implementation-defined for an inconsistent comparator. Even then the model's result is still a permutation of its input.
- The copy `[...filteredDocuments]` that the sort runs on: values are immutable in the model, so the filtered list is left unchanged by construction. In-place mutation and aliasing are not modelled.
- `Math.ceil(n / 9)` is modelled as integer division rounded up. For an array length `n < 2^32` this is what the double arithmetic gives: when 9 divides `n` the quotient is exact, and otherwise its fractional part is at least 1/9, far above the rounding error.
- React's state scheduling and the closure that captures `totalPages` are not modelled. Each handler is applied to the latest state and to the `totalPages` of that state's render.
- All rendering is left out: the `Button`, `Input`, `Select` and `Card` components, the JSX markup, `frontend/src/components/Input.jsx`, and the router in `frontend/src/App.jsx`.
- `console.error(err.stack)` and the Express calls `res.status(...).json(...)` are I/O. The model is the status and body they send. It does not model Express rejecting an invalid status code.
- The `ApiError` class (`backend/src/utils/ApiError.js`) is not part of this model. `ApiError` is a constructor of the `Failure` datatype, and its `errors` value has an arbitrary type. The JSON serialiser's dropping of an `undefined` `errors` value is not modelled.
