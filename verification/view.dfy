/** The client table view (`TransactionList`): its state, the event handlers
    as state transitions, the request it sends, and its own re-sort of the page. */
module View {
  import opened Text
  import opened Sorting
  import opened Records
  import opened Search
  import opened Paging
  import opened Endpoints

  /** The `useState` hooks that the handlers read and write. */
  datatype ViewState = ViewState(
    transactions: seq<Transaction>,
    currentPage: int,
    totalPages: int,
    searchQuery: string,
    sortColumn: Option<Column>,
    sortDirection: Direction)

  /** The state on first render. */
  const Initial: ViewState := ViewState([], 1, 0, "", None, Asc)

  /** Typing in the search box: the query becomes the input, and the view goes back to page 1. */
  function HandleSearchChange(s: ViewState, value: string): (r: ViewState)
    ensures r.searchQuery == value && r.currentPage == 1
    ensures r.transactions == s.transactions && r.totalPages == s.totalPages
    ensures r.sortColumn == s.sortColumn && r.sortDirection == s.sortDirection
  {
    s.(searchQuery := value, currentPage := 1)
  }

  /** "Next": advances only while there is a later page. */
  function HandleNextPage(s: ViewState): (r: ViewState)
    ensures s.currentPage < s.totalPages ==> r.currentPage == s.currentPage + 1
    ensures s.currentPage >= s.totalPages ==> r == s
    ensures r == s.(currentPage := r.currentPage)
    ensures s.currentPage <= s.totalPages ==> r.currentPage <= s.totalPages
    ensures r.currentPage >= s.currentPage
  {
    if s.currentPage < s.totalPages then s.(currentPage := s.currentPage + 1) else s
  }

  /** "Previous": goes back only while past the first page. */
  function HandlePrevPage(s: ViewState): (r: ViewState)
    ensures s.currentPage > 1 ==> r.currentPage == s.currentPage - 1
    ensures s.currentPage <= 1 ==> r == s
    ensures r == s.(currentPage := r.currentPage)
    ensures s.currentPage >= 1 ==> r.currentPage >= 1
    ensures r.currentPage <= s.currentPage
  {
    if s.currentPage > 1 then s.(currentPage := s.currentPage - 1) else s
  }

  function Opposite(d: Direction): (r: Direction)
    ensures r != d
  {
    if d == Asc then Desc else Asc
  }

  /** A click on a column header: the sorted column toggles its direction; any
      other column becomes the sorted one, ascending. */
  function HandleSort(s: ViewState, column: Column): (r: ViewState)
    ensures s.sortColumn == Some(column) ==> r.sortColumn == s.sortColumn && r.sortDirection != s.sortDirection
    ensures s.sortColumn != Some(column) ==> r.sortColumn == Some(column) && r.sortDirection == Asc
    ensures r == s.(sortColumn := r.sortColumn, sortDirection := r.sortDirection)
  {
    if s.sortColumn == Some(column) then s.(sortDirection := Opposite(s.sortDirection))
    else s.(sortColumn := Some(column), sortDirection := Asc)
  }

  /** Two clicks on one header: back to the starting direction if it was the
      sorted column, otherwise that column descending. */
  lemma SortClickedTwice(s: ViewState, column: Column)
    ensures var r := HandleSort(HandleSort(s, column), column);
            r.sortColumn == Some(column)
            && r.sortDirection == (if s.sortColumn == Some(column) then s.sortDirection else Desc)
  {
  }

  /** A successful `fetchData`: the page's records and page count replace the old ones. */
  function ReceivePage(s: ViewState, response: Page<Transaction>): (r: ViewState)
    ensures r.transactions == response.records && r.totalPages == response.totalPages
    ensures r.currentPage == s.currentPage && r.searchQuery == s.searchQuery
    ensures r.sortColumn == s.sortColumn && r.sortDirection == s.sortDirection
  {
    s.(transactions := response.records, totalPages := response.totalPages)
  }

  /** Everything that can change the handlers' state. */
  datatype Event =
    | SearchChanged(value: string)
    | NextPage
    | PrevPage
    | SortClicked(column: Column)
    | Received(response: Page<Transaction>)

  function Step(s: ViewState, e: Event): ViewState
  {
    match e
    case SearchChanged(value) => HandleSearchChange(s, value)
    case NextPage => HandleNextPage(s)
    case PrevPage => HandlePrevPage(s)
    case SortClicked(column) => HandleSort(s, column)
    case Received(response) => ReceivePage(s, response)
  }

  /** The state after a history of events, starting from the first render. */
  function Run(events: seq<Event>): ViewState
  {
    if |events| == 0 then Initial else Step(Run(events[..|events| - 1]), events[|events| - 1])
  }

  /** The state the handlers keep: the page never drops below 1, and the
      direction is ascending until a column has been chosen. */
  ghost predicate Consistent(s: ViewState)
  {
    s.currentPage >= 1 && (s.sortColumn.None? ==> s.sortDirection == Asc)
  }

  /** Every history of events leaves the view consistent. */
  lemma {:induction false} RunConsistent(events: seq<Event>)
    ensures Consistent(Run(events))
  {
    if |events| > 0 {
      RunConsistent(events[..|events| - 1]);
    }
  }

  /** The query string `fetchData` sends: `q` and `page` always, the sort
      parameters only once a column is chosen. */
  function RequestOf(s: ViewState): (p: SearchParams)
    ensures p.q == Some(s.searchQuery) && p.page == s.currentPage
    ensures SortRequested(p.sortColumn, p.sortDirection) <==> s.sortColumn.Some?
    ensures s.sortColumn.Some? ==>
              ColumnNamed(p.sortColumn.value) == s.sortColumn
              && DirectionNamed(p.sortDirection.value) == s.sortDirection
  {
    if s.sortColumn.Some? then
      NamesRoundTrip(s.sortColumn.value, s.sortDirection);
      SearchParams(Some(s.searchQuery), s.currentPage,
                   Some(ColumnName(s.sortColumn.value)), Some(DirectionName(s.sortDirection)))
    else
      SearchParams(Some(s.searchQuery), s.currentPage, None, None)
  }

  /** Every request the view can send names a page the server accepts. */
  lemma RequestsValid(events: seq<Event>)
    ensures RequestOf(Run(events)).page >= 1
  {
    RunConsistent(events);
  }

  /** The comparator of `sortedTransactions`, written out again in the client.
      It agrees with the server's comparator on the names the client sends, and
      "desc" is "asc" with the operands swapped. */
  function CompareClient(sem: Semantics, column: Column, direction: Direction,
                         a: Transaction, b: Transaction): (r: int)
    ensures r == CompareRecords(sem, ColumnName(column), DirectionName(direction), a, b)
    ensures direction == Desc ==> r == CompareRecords(sem, ColumnName(column), "asc", b, a)
  {
    NamesRoundTrip(column, direction);
    var x, y := Field(a, column), Field(b, column);
    if column == DateTime then
      if direction == Asc then sem.time(x) - sem.time(y) else sem.time(y) - sem.time(x)
    else if column == Credit || column == Debit then
      var m, n := sem.amount(MoneyChars(x)), sem.amount(MoneyChars(y));
      if direction == Asc then m - n else n - m
    else
      if direction == Asc then sem.localeCompare(x, y) else sem.localeCompare(y, x)
  }

  function ClientComparator(sem: Semantics, column: Column, direction: Direction)
    : (Transaction, Transaction) -> int
  {
    (a, b) => CompareClient(sem, column, direction, a, b)
  }

  /** The client's copy agrees with the server's comparator for every column and
      direction the client can send, and "desc" swaps the operands of "asc". */
  lemma ClientAgreesWithServer(sem: Semantics, column: Column, direction: Direction,
                               a: Transaction, b: Transaction)
    ensures CompareClient(sem, column, direction, a, b)
            == CompareRecords(sem, ColumnName(column), DirectionName(direction), a, b)
    ensures CompareClient(sem, column, Desc, a, b) == CompareClient(sem, column, Asc, b, a)
  {
    NamesRoundTrip(column, direction);
  }

  /** `sortedTransactions`: the page as received when no column is chosen,
      otherwise a sorted copy of it. */
  function SortedTransactions(sem: Semantics, s: ViewState): (r: seq<Transaction>)
    ensures multiset(r) == multiset(s.transactions)
    ensures s.sortColumn.None? ==> r == s.transactions
  {
    if s.sortColumn.None? then s.transactions
    else Sort(s.transactions, ClientComparator(sem, s.sortColumn.value, s.sortDirection))
  }

  /** With a column chosen the rows shown are ordered by the client comparator. */
  lemma SortedTransactionsOrdered(sem: Semantics, s: ViewState)
    requires LocaleConsistent(sem)
    requires s.sortColumn.Some?
    ensures Sorted(SortedTransactions(sem, s), ClientComparator(sem, s.sortColumn.value, s.sortDirection))
  {
    var column, direction := s.sortColumn.value, s.sortDirection;
    var server := RecordComparator(sem, ColumnName(column), DirectionName(direction));
    var client := ClientComparator(sem, column, direction);
    ComparatorConsistent(sem, ColumnName(column), DirectionName(direction));
    forall a, b | true ensures client(a, b) == server(a, b) {
      ClientAgreesWithServer(sem, column, direction, a, b);
    }
    SortSorted(s.transactions, client);
  }

  /** The page the server returns for the view's own request is already in the
      order the client would sort it into, so the client's re-sort shows it as received. */
  lemma ClientResortKeepsServerOrder(sem: Semantics, parse: string -> seq<Transaction>,
                                     content: string, s: ViewState)
    requires LocaleConsistent(sem)
    requires s.currentPage >= 1
    ensures var response := SearchTransactions(sem, parse, content, RequestOf(s));
            SortedTransactions(sem, ReceivePage(s, response)) == response.records
  {
    var params := RequestOf(s);
    var response := SearchTransactions(sem, parse, content, params);
    if s.sortColumn.Some? {
      var column, direction := s.sortColumn.value, s.sortDirection;
      var server := RecordComparator(sem, ColumnName(column), DirectionName(direction));
      var client := ClientComparator(sem, column, direction);
      SearchPageSorted(sem, parse, content, params);
      forall a, b | true ensures server(a, b) <= 0 <==> client(a, b) <= 0 {
        ClientAgreesWithServer(sem, column, direction, a, b);
      }
      SortedTransfer(response.records, server, client);
      SortOfSorted(response.records, client);
    }
  }
}
