# Transaction search: a Dafny model

This project models the request pipeline of a small transaction-search web app
and the pagination and sort controller of its table view.

- `GET /api/transactions/search` reads a CSV ledger. It strips a leading
  byte-order mark and parses the rows into five-field `Transaction` records.
  It keeps the records in which some field contains the query, ignoring case.
  When both `sortColumn` and `sortDirection` are given, it sorts by that one
  column. Dates compare by timestamp, `credit`/`debit` by numeric amount, and
  the other columns by `localeCompare`. It then returns page `page` of 20
  records, with `totalRecords`, `currentPage` and `totalPages`.
- `GET /api/transactions` does the same BOM strip and 20-record pagination over
  the whole file, with no filter and no sort.
- The client view (`app/page.tsx`) keeps the page, query and sort in React state.
  It changes them in four handlers, requests pages from the search endpoint,
  and re-sorts each received page with its own copy of the comparator.

The model is functional. Records, pages and view state are immutable
datatypes, and every stage is a pure function over sequences:

| file | module | models |
|---|---|---|
| `records.dfy` | `Records` | the `Transaction` record, column and direction names, the abstract runtime `Semantics` |
| `text.dfy` | `Text` | BOM strip, ASCII lower-casing, `includes`, the character strip of `parseMonetaryValue` |
| `seqs.dfy` | `Seqs` | subsequences, order-preserving selection (`filter`), reversal |
| `sorting.dfy` | `Sorting` | the stable sort behind `Array.prototype.sort`, with a comparator parameter |
| `search.dfy` | `Search` | the filter stage, the server comparator, and the sort stage |
| `paging.dfy` | `Paging` | `slice`, `Math.ceil`, the page response |
| `endpoints.dfy` | `Endpoints` | both `GET` handlers as functions of the file contents |
| `view.dfy` | `View` | the handlers as state transitions, the request the view sends, and `sortedTransactions` |

Some inputs come from outside the model and are parameters instead:

- The file contents are a `string` argument.
- csv-parse is a function `parse: string -> seq<Transaction>`.
- `new Date(v).getTime()`, `parseFloat` and `localeCompare` are the three fields of `Semantics`.
  The first two are abstract integer keys. The last is an abstract comparator.
  Properties about ordering assume that `localeCompare` is a consistent comparator (`LocaleConsistent`):
  a total preorder whose sign flips when the operands are swapped.

The sort of the JavaScript engine is stable (ES2019). It is modelled by a stable
insertion sort. For a consistent comparator (a total preorder whose sign flips when the
operands are swapped, which `Search.ComparatorConsistent` proves of the server comparator), every stable sort produces
this same output.

Details of the code that the model keeps:

- `sortColumn` and `sortDirection` are cast from the query string without any check.
  A column name that is not one of the five makes the comparator return 0, so the order is kept.
  Any direction other than `"asc"` sorts descending.
  An empty value counts as absent, because `""` is falsy in `if (sortColumn && sortDirection)`.
- `parseFloat` of a stripped amount with no digits gives `NaN`.
  Invalid amounts are left to the abstract `amount` key.
- The two handlers call csv-parse with different options. Only the search handler uses
  `relax_quotes`, `ltrim` and `rtrim`. `Endpoints.SearchDefaultsToList` is therefore
  stated for one and the same `parse` function.

## Model

| member | source | states |
|---|---|---|
| Text.StripBom | app/api/transactions/search/route.ts:32-35 | if the content starts with U+FEFF the result is the content without exactly that one character; otherwise the content is returned unchanged |
| Text.StripBomOnce | app/api/transactions/route.ts:25-28 | a single leading mark is removed even when a second one follows; the second mark stays part of the content |
| Endpoints.LoadIgnoresBom | app/api/transactions/route.ts:26-33 | a file with a leading BOM parses to the same records as the same file without it |
| Text.Lower | app/api/transactions/search/route.ts:48 | `toLowerCase` keeps the length and lower-cases each character (ASCII letters) |
| Text.LowerChar | app/api/transactions/search/route.ts:48 | upper-case ASCII letters map to their lower-case form, every other character is kept, and no upper-case letter remains |
| Text.Includes | app/api/transactions/search/route.ts:48 | `includes` holds exactly when the needle occurs at some index of the haystack |
| Text.IncludesEmpty | app/api/transactions/search/route.ts:23 | the empty query is contained in every string |
| Text.MoneyChars | app/api/transactions/search/route.ts:16-18 | the strip keeps exactly the digits, `.` and `-` of the input, each as often as it occurs, in their original order |
| Text.MoneyCharsIdempotent | app/api/transactions/search/route.ts:17 | stripping an already stripped amount changes nothing |
| Seqs.Select | app/api/transactions/search/route.ts:46-50 | filtering yields an order-preserving subsequence whose elements all pass the test, and it keeps every passing element with its full multiplicity |
| Seqs.SelectUnique | app/api/transactions/search/route.ts:46-50 | those three properties determine the filter result: any sequence that has them is the filter result |
| Seqs.SubsequenceMultiset | app/api/transactions/search/route.ts:46 | a subsequence holds each value at most as often as the original sequence |
| Seqs.SubsequenceMembers | app/api/transactions/search/route.ts:46 | every element of a subsequence is an element of the original sequence |
| Records.Fields | app/api/transactions/search/route.ts:47 | `Object.values` of a record lists all five column values and nothing else |
| Records.ColumnNamed | app/api/transactions/search/route.ts:26 | a `sortColumn` value names a column exactly when it is that column's header name |
| Records.NamesRoundTrip | app/page.tsx:37-39 | the column and direction names the client sends are read back by the server (`ColumnNamed`, and `DirectionNamed`, the `sortDirection === 'asc'` test) as the same column and direction, and none of them is empty |
| Search.Filter | app/api/transactions/search/route.ts:46-50 | the filter result is an order-preserving subsequence of the records; every kept record matches; every matching record is kept as often as it occurs |
| Search.FilterSound | app/api/transactions/search/route.ts:46-50 | a kept record comes from the input and has a column whose lower-cased value contains the lower-cased query |
| Search.FilterComplete | app/api/transactions/search/route.ts:46-50 | a record with a column containing the query (ignoring case) is kept |
| Search.FilterEmptyQuery | app/api/transactions/search/route.ts:23-50 | with the default empty query the filter returns its input unchanged |
| Search.MonetaryValue | app/api/transactions/search/route.ts:16-18 | an amount is the number read from the one text that keeps exactly the digits, `.` and `-` of the value, in order, so currency signs and separators do not change it |
| Search.CompareRecords | app/api/transactions/search/route.ts:54-77 | an unknown column compares every pair as equal; for `date_time`, `credit` and `debit` a record goes first exactly when its timestamp or amount is not greater (`"asc"`) or not smaller (any other direction); `trans_no` and `detail` compare by `localeCompare`, with the operands swapped unless the direction is `"asc"` |
| Search.DescendingSwapsOperands | app/api/transactions/search/route.ts:54-77 | for every column, any direction other than `"asc"` compares like `"asc"` with the two records swapped |
| Search.ComparatorConsistent | app/api/transactions/search/route.ts:58-76 | the server comparator is consistent for every column and direction when `localeCompare` is: a total preorder whose sign flips when the two records are swapped |
| Search.SortStage | app/api/transactions/search/route.ts:52-78 | the sort stage returns a permutation of the filtered records, and returns them unchanged unless both sort parameters are present and non-empty (`SortRequested`, the `sortColumn && sortDirection` test) |
| Search.SortStageOrders | app/api/transactions/search/route.ts:53-77 | when sorting is requested the output is ordered by the requested column and direction |
| Search.SortStageStable | app/api/transactions/search/route.ts:54 | records that compare as equal keep their filtered relative order |
| Search.SortStageIdempotent | app/api/transactions/search/route.ts:53-78 | sorting twice with the same parameters gives the same sequence as sorting once |
| Search.SortStageReverses | app/api/transactions/search/route.ts:59-73 | when no two of the given records tie on the column, a descending sort is the ascending sort reversed |
| Search.SortStageReversesExample | app/api/transactions/search/route.ts:59-61 | two records with different timestamps come out earlier-first in ascending order and later-first in descending order |
| Sorting.Insert | app/api/transactions/search/route.ts:54 | one insertion step of the sort adds exactly one element to the sequence |
| Sorting.Sort | app/api/transactions/search/route.ts:54 | the sort returns a permutation of its input |
| Sorting.InsertSorted | app/api/transactions/search/route.ts:54 | inserting into a sorted sequence keeps it sorted |
| Sorting.SortSorted | app/api/transactions/search/route.ts:54 | under a total-preorder comparator the sort's output is ordered |
| Sorting.SortOfSorted | app/page.tsx:96 | sorting a sequence that is already ordered returns it unchanged |
| Sorting.SortIdempotent | app/api/transactions/search/route.ts:54 | sorting the sort's output again changes nothing |
| Sorting.SortStable | app/api/transactions/search/route.ts:54 | for every record, the records tied with it keep their input order (stability) |
| Sorting.SortedUnique | app/api/transactions/search/route.ts:54 | two ordered permutations of one another are equal when no two of their elements tie |
| Sorting.HeadsEqual | app/api/transactions/search/route.ts:54 | two ordered permutations of one another start with the same element when no two of their elements tie |
| Sorting.ReverseDirection | app/api/transactions/search/route.ts:59-73 | a comparator whose operands are swapped sorts a sequence into the reverse of the original order when no two of its elements tie |
| Sorting.SwappedPreorder | app/api/transactions/search/route.ts:59-73 | swapping a comparator's operands preserves being a total preorder and leaves exactly the same pairs tied |
| Paging.PageCount | app/api/transactions/search/route.ts:88 | `totalPages` is the ceiling of n/20: the fewest 20-record pages that hold n records, and 0 exactly when n is 0 |
| Paging.Slice | app/api/transactions/route.ts:40 | `slice` with bounds past the end clamps to the length and yields the elements from `start` onward |
| Paging.Paginate | app/api/transactions/search/route.ts:80-89 | the page holds at most 20 records, which are the records from index (page-1)*20 on; pages before the last are full; a page past `totalPages` is empty; `totalRecords` and `currentPage` are echoed |
| Paging.PageIsSlice | app/api/transactions/search/route.ts:81-82 | the page is the slice from (page-1)*20 to page*20, both ends clamped to the record count |
| Paging.PagesPrefix | app/api/transactions/route.ts:39-40 | pages 1 to k together are the first min(20k, n) records |
| Paging.PagesReassemble | app/api/transactions/route.ts:39-47 | concatenating pages 1 to `totalPages` gives back all the records, each exactly once and in order |
| Paging.RecordPage | app/api/transactions/route.ts:39-47 | record i is on page i/20+1 at position i%20, and that page is within `totalPages` |
| Endpoints.AbsentQueryKeepsAll | app/api/transactions/search/route.ts:23 | an absent `q` defaults to the empty query, which keeps every record in file order |
| Endpoints.SearchResults | app/api/transactions/search/route.ts:45-78 | before pagination, the search holds exactly the matching records as a permutation of the filter result; in filter order when no sort is requested; and when a sort is requested, ordered by the requested comparator with tied records in filter order |
| Endpoints.LoadRecords | app/api/transactions/search/route.ts:30-43 | a file that starts with U+FEFF is parsed without that one character; any other file is parsed as it is |
| Endpoints.SearchTransactions | app/api/transactions/search/route.ts:20-89 | `totalRecords` counts the matching records; the page holds the filtered and sorted results from index (page-1)*20 on; pages before the last hold 20 records, the last holds the remainder, and a page past the end is empty; every returned record matches the query; `totalPages` is ceil(totalRecords/20) |
| Endpoints.ListTransactions | app/api/transactions/route.ts:15-48 | the plain handler returns the file's records from index (page-1)*20 on; pages before the last hold 20 records, the last holds the remainder, and a page past the end is empty; `totalRecords` is the file's count and `totalPages` its ceiling over 20 |
| Endpoints.SearchPageSorted | app/api/transactions/search/route.ts:53-82 | when sorting is requested every returned page is ordered by the requested column and direction |
| Endpoints.SearchDefaultsToList | app/api/transactions/search/route.ts:23-53 | with no query and no sort the search handler answers like the plain handler |
| Endpoints.SearchPagesCoverMatches | app/api/transactions/search/route.ts:80-88 | the search pages 1 to `totalPages` hold the matching records, each as often as the file does |
| Endpoints.PageBeyondEndExample | app/api/transactions/route.ts:39-47 | with 15 records, page 1 holds all of them, page 2 is empty, and `totalPages` is 1 |
| View.HandleSearchChange | app/page.tsx:65-68 | the query becomes the typed value, the page resets to 1, and nothing else changes |
| View.HandleNextPage | app/page.tsx:70-74 | the page advances by one only when it is below `totalPages`, so it never passes `totalPages` when it starts at or below it |
| View.HandlePrevPage | app/page.tsx:76-80 | the page goes back by one only when it is above 1, so a page of at least 1 stays at least 1 |
| View.Opposite | app/page.tsx:84 | toggling the direction always changes it |
| View.HandleSort | app/page.tsx:82-91 | a click on the sorted column flips its direction and keeps the column; a click on another column selects it, ascending; nothing else changes |
| View.SortClickedTwice | app/page.tsx:82-91 | two clicks on the sorted column restore its direction; two clicks on another column leave it sorted descending |
| View.ReceivePage | app/page.tsx:46-48 | a response replaces the rows and the page count and leaves page, query and sort as they were |
| View.RunConsistent | app/page.tsx:22-91 | from the first render (page 1, no query, no column, ascending), after any sequence of user events and responses the page is at least 1, and the direction is ascending while no column has been chosen |
| View.RequestOf | app/page.tsx:34-40 | the request always carries the query and page, and carries sort parameters the server acts on (`SortRequested` holds) exactly when a column is chosen, naming that column and direction |
| View.RequestsValid | app/page.tsx:34-36 | every request the view can send asks for a page of at least 1 |
| View.CompareClient | app/page.tsx:96-125 | the client comparator equals the server comparator on the column and direction names the client sends, and `desc` equals the server's `"asc"` with the operands swapped |
| View.ClientAgreesWithServer | app/page.tsx:96-125 | the client's comparator equals the server's for every column and direction, and `desc` is `asc` with the operands swapped |
| View.SortedTransactions | app/page.tsx:93-126 | the rows shown are a permutation of the received rows, and are the received rows themselves when no column is chosen |
| View.SortedTransactionsOrdered | app/page.tsx:96-125 | with a column chosen, the rows shown are ordered by the client comparator |
| View.ClientResortKeepsServerOrder | app/page.tsx:93-126 | when the server answers the view's own request, the client's re-sort shows the received page in the order received |

## Left out

- Reading the file, `path.join`, `process.cwd` and `NextResponse`. Also the HTTP 500 branch that catches any exception. The file contents are an argument, and `parse` is total.
- csv-parse itself: its header mapping, quote relaxation and trimming. Parsed records are the output of the `parse` argument.
- `new Date(...).getTime()`, `parseFloat` and `localeCompare`: these are abstract fields of `Semantics`. `NaN` from an invalid date or amount is not modelled. A `NaN` comparator result is not consistent, so no ordering property could be stated for it.
- Text.Lower: lower-cases ASCII letters only. Unicode case mapping is not modelled.
- Text.LowerChar: keeps every character other than `A`-`Z`, whereas `toLowerCase` also lower-cases non-ASCII capitals (and may change the length).
- Endpoints.SearchParams: `page` is the number `parseInt` has already read. The `|| '1'` default that sends an absent `page` to page 1 is not modelled.
- Paging.Paginate: requires `page >= 1`. Pages of 0 or below and the `NaN` page that `parseInt` returns for non-numeric input are not modelled.
- View.SortedTransactions: the original `transactions` array is not modified by the sort. The model has no separate contract for this, because a sequence value cannot be changed.
- Sorting.Sort: the engine's own algorithm (TimSort) is not modelled. The stable insertion sort agrees with any stable sort for a consistent comparator (a total preorder whose sign flips when the operands are swapped). Comparators that are not consistent, whose order ECMAScript leaves to the implementation, are out of scope.
- The fallback `<` / `>` branch of the client comparator (`app/page.tsx:122-124`). All five fields are strings, so that branch cannot run.
- React rendering, `useEffect`/`useCallback` wiring, lodash `debounce`, `fetch`, the loading flag, and `HighlightText`. `HighlightText` is not part of this model.
- Overlapping requests that race each other. A response is modelled as the `Received` event, which may arrive in any order.
