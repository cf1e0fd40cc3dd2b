/** The two route handlers as pure functions of the data file's contents.
    Reading the file is replaced by the `content` argument, and csv-parse by
    the `parse` argument (each handler passes its own parser options). */
module Endpoints {
  import opened Seqs
  import opened Text
  import opened Sorting
  import opened Records
  import opened Search
  import opened Paging

  /** The query string of `GET /api/transactions/search`, with `page` already
      read by `parseInt`. An absent parameter is `None`. */
  datatype SearchParams = SearchParams(
    q: Option<string>,
    page: int,
    sortColumn: Option<string>,
    sortDirection: Option<string>)

  /** The records of the data file: one leading byte-order mark removed, then parsed. */
  function LoadRecords(content: string, parse: string -> seq<Transaction>): (r: seq<Transaction>)
    ensures |content| > 0 && content[0] == Bom ==> r == parse(content[1..])
    ensures !(|content| > 0 && content[0] == Bom) ==> r == parse(content)
  {
    parse(StripBom(content))
  }

  /** A file that starts with a byte-order mark loads like the same file without it. */
  lemma LoadIgnoresBom(content: string, parse: string -> seq<Transaction>)
    ensures LoadRecords([Bom] + content, parse) == parse(content)
    ensures !(|content| > 0 && content[0] == Bom) ==> LoadRecords(content, parse) == parse(content)
  {
    StripBomOnce(content);
  }

  /** `searchParams.get('q') || ''`. */
  function QueryOf(q: Option<string>): (r: string)
    ensures q.None? ==> r == ""
    ensures q.Some? ==> r == q.value
  {
    if q.Some? then q.value else ""
  }

  /** An absent `q` searches for the empty string, which keeps every record. */
  lemma AbsentQueryKeepsAll(records: seq<Transaction>)
    ensures Filter(records, QueryOf(None)) == records
  {
    FilterEmptyQuery(records);
  }

  /** Filtered, then sorted: the sequence the search handler paginates. */
  function SearchResults(sem: Semantics, parse: string -> seq<Transaction>, content: string,
                         params: SearchParams): (r: seq<Transaction>)
    ensures multiset(r) == multiset(Filter(LoadRecords(content, parse), QueryOf(params.q)))
    ensures forall t :: t in r ==> Matches(t, QueryOf(params.q))
    ensures !SortRequested(params.sortColumn, params.sortDirection)
            ==> r == Filter(LoadRecords(content, parse), QueryOf(params.q))
    ensures LocaleConsistent(sem) && SortRequested(params.sortColumn, params.sortDirection) ==>
              var cmp := RecordComparator(sem, params.sortColumn.value, params.sortDirection.value);
              Sorted(r, cmp)
              && forall x :: Select(r, TiedWith(cmp, x))
                             == Select(Filter(LoadRecords(content, parse), QueryOf(params.q)), TiedWith(cmp, x))
  {
    var filtered := Filter(LoadRecords(content, parse), QueryOf(params.q));
    var sorted := SortStage(filtered, sem, params.sortColumn, params.sortDirection);
    assert LocaleConsistent(sem) && SortRequested(params.sortColumn, params.sortDirection) ==>
             var cmp := RecordComparator(sem, params.sortColumn.value, params.sortDirection.value);
             Sorted(sorted, cmp) && forall x :: Select(sorted, TiedWith(cmp, x)) == Select(filtered, TiedWith(cmp, x)) by {
      if LocaleConsistent(sem) && SortRequested(params.sortColumn, params.sortDirection) {
        var cmp := RecordComparator(sem, params.sortColumn.value, params.sortDirection.value);
        SortStageOrders(filtered, sem, params.sortColumn, params.sortDirection);
        forall x ensures Select(sorted, TiedWith(cmp, x)) == Select(filtered, TiedWith(cmp, x)) {
          SortStageStable(filtered, sem, params.sortColumn, params.sortDirection, x);
        }
      }
    }
    assert forall t :: t in sorted ==> t in filtered by {
      forall t | t in sorted ensures t in filtered {
        assert t in multiset(sorted);
      }
    }
    sorted
  }

  /** `GET /api/transactions/search`: one page of the matching records, with the
      post-filter total. */
  function SearchTransactions(sem: Semantics, parse: string -> seq<Transaction>, content: string,
                              params: SearchParams): (r: Page<Transaction>)
    requires params.page >= 1
    ensures r.totalRecords == |Filter(LoadRecords(content, parse), QueryOf(params.q))|
    ensures r.currentPage == params.page && r.totalPages == PageCount(r.totalRecords)
    ensures |r.records| <= PageSize
    ensures |r.records| > 0 ==> PageStart(params.page) + |r.records| <= r.totalRecords
    ensures forall i :: 0 <= i < |r.records|
              ==> r.records[i] == SearchResults(sem, parse, content, params)[PageStart(params.page) + i]
    ensures params.page < r.totalPages ==> |r.records| == PageSize
    ensures params.page == r.totalPages ==> |r.records| == r.totalRecords - PageStart(params.page)
    ensures params.page > r.totalPages ==> r.records == []
    ensures forall t :: t in r.records ==> Matches(t, QueryOf(params.q))
  {
    var results := SearchResults(sem, parse, content, params);
    var r := Paginate(results, params.page);
    assert forall t :: t in r.records ==> t in results by {
      forall t | t in r.records ensures t in results {
        var i :| 0 <= i < |r.records| && r.records[i] == t;
        assert results[PageStart(params.page) + i] == t;
      }
    }
    r
  }

  /** `GET /api/transactions`: one page of the whole file. */
  function ListTransactions(parse: string -> seq<Transaction>, content: string, page: int)
    : (r: Page<Transaction>)
    requires page >= 1
    ensures r.totalRecords == |LoadRecords(content, parse)|
    ensures r.currentPage == page && r.totalPages == PageCount(r.totalRecords)
    ensures |r.records| <= PageSize
    ensures |r.records| > 0 ==> PageStart(page) + |r.records| <= r.totalRecords
    ensures forall i :: 0 <= i < |r.records|
              ==> r.records[i] == LoadRecords(content, parse)[PageStart(page) + i]
    ensures page < r.totalPages ==> |r.records| == PageSize
    ensures page == r.totalPages ==> |r.records| == r.totalRecords - PageStart(page)
    ensures page > r.totalPages ==> r.records == []
  {
    Paginate(LoadRecords(content, parse), page)
  }

  /** A sorted search returns each page in the requested order. */
  lemma SearchPageSorted(sem: Semantics, parse: string -> seq<Transaction>, content: string,
                         params: SearchParams)
    requires params.page >= 1
    requires LocaleConsistent(sem)
    requires SortRequested(params.sortColumn, params.sortDirection)
    ensures Sorted(SearchTransactions(sem, parse, content, params).records,
                   RecordComparator(sem, params.sortColumn.value, params.sortDirection.value))
  {
    var filtered := Filter(LoadRecords(content, parse), QueryOf(params.q));
    var results := SearchResults(sem, parse, content, params);
    SortStageOrders(filtered, sem, params.sortColumn, params.sortDirection);
    PageIsSlice(results, params.page);
    var lo := if PageStart(params.page) < |results| then PageStart(params.page) else |results|;
    var hi := if PageStart(params.page) + PageSize < |results| then PageStart(params.page) + PageSize else |results|;
    SortedSlice(results, lo, hi, RecordComparator(sem, params.sortColumn.value, params.sortDirection.value));
  }

  /** With no query and no sort the search handler answers like the plain handler
      (given the same parser). */
  lemma SearchDefaultsToList(sem: Semantics, parse: string -> seq<Transaction>, content: string,
                             params: SearchParams)
    requires params.page >= 1
    requires QueryOf(params.q) == ""
    requires !SortRequested(params.sortColumn, params.sortDirection)
    ensures SearchTransactions(sem, parse, content, params) == ListTransactions(parse, content, params.page)
  {
    FilterEmptyQuery(LoadRecords(content, parse));
  }

  /** The pages 1 to totalPages of a search together hold every matching record
      exactly as often as the file does. */
  lemma SearchPagesCoverMatches(sem: Semantics, parse: string -> seq<Transaction>, content: string,
                                params: SearchParams)
    ensures var results := SearchResults(sem, parse, content, params);
            multiset(Pages(results, PageCount(|results|)))
            == multiset(Filter(LoadRecords(content, parse), QueryOf(params.q)))
  {
    PagesReassemble(SearchResults(sem, parse, content, params));
  }

  /** A 15-record file: page 2 is empty and there is a single page. */
  lemma PageBeyondEndExample(parse: string -> seq<Transaction>, content: string)
    requires |LoadRecords(content, parse)| == 15
    ensures ListTransactions(parse, content, 2).records == []
    ensures ListTransactions(parse, content, 2).totalPages == 1
    ensures ListTransactions(parse, content, 1).records == LoadRecords(content, parse)
  {
    var all := LoadRecords(content, parse);
    assert ListTransactions(parse, content, 1).records == all;
  }
}
