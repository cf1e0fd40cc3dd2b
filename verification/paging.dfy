/** Fixed-size pagination, computed identically by both route handlers. */
module Paging {

  /** Records per page. */
  const PageSize: nat := 20

  /** The JSON body of a successful response. */
  datatype Page<T> = Page(records: seq<T>, totalRecords: nat, currentPage: int, totalPages: nat)

  /** `Math.ceil(n / PageSize)`: the fewest pages that hold `n` records. */
  function PageCount(n: nat): (pages: nat)
    ensures pages * PageSize >= n
    ensures n > 0 ==> (pages - 1) * PageSize < n
    ensures pages == 0 <==> n == 0
  {
    (n + PageSize - 1) / PageSize
  }

  /** `Array.prototype.slice(start, end)` for non-negative bounds: bounds past
      the end are clamped to the length, and an empty range gives []. */
  function Slice<T>(s: seq<T>, start: nat, end: nat): (r: seq<T>)
    ensures |r| == if start < end && start < |s| then (if end < |s| then end else |s|) - start else 0
    ensures forall i :: 0 <= i < |r| ==> r[i] == s[start + i]
  {
    var lo := if start < |s| then start else |s|;
    var hi := if end < |s| then end else |s|;
    if lo < hi then s[lo..hi] else []
  }

  /** First index of page `page` (pages count from 1). */
  function PageStart(page: int): nat
    requires page >= 1
  {
    (page - 1) * PageSize
  }

  /** Page `page` of `all`, with the totals the response reports. */
  function Paginate<T>(all: seq<T>, page: int): (r: Page<T>)
    requires page >= 1
    ensures r.totalRecords == |all| && r.currentPage == page
    ensures r.totalPages == PageCount(|all|)
    ensures |r.records| <= PageSize
    ensures |r.records| > 0 ==> PageStart(page) + |r.records| <= |all|
    ensures forall i :: 0 <= i < |r.records| ==> r.records[i] == all[PageStart(page) + i]
    ensures page < r.totalPages ==> |r.records| == PageSize
    ensures page == r.totalPages ==> |r.records| == |all| - PageStart(page)
    ensures page > r.totalPages ==> r.records == []
  {
    var start := PageStart(page);
    Page(Slice(all, start, start + PageSize), |all|, page, PageCount(|all|))
  }

  /** The page is the slice from (page-1)*20 to page*20, both clamped to the length. */
  lemma PageIsSlice<T>(all: seq<T>, page: int)
    requires page >= 1
    ensures var lo := if PageStart(page) < |all| then PageStart(page) else |all|;
            var hi := if PageStart(page) + PageSize < |all| then PageStart(page) + PageSize else |all|;
            Paginate(all, page).records == all[lo..hi]
  {
  }

  /** The pages 1 to `k`, concatenated. */
  function Pages<T>(all: seq<T>, k: nat): seq<T>
  {
    if k == 0 then [] else Pages(all, k - 1) + Paginate(all, k).records
  }

  /** The first `k` pages are the first `k * PageSize` records (or all of them). */
  lemma {:induction false} PagesPrefix<T>(all: seq<T>, k: nat)
    ensures Pages(all, k) == all[..if k * PageSize < |all| then k * PageSize else |all|]
  {
    if k > 0 {
      PagesPrefix(all, k - 1);
      PageIsSlice(all, k);
      var before := if (k - 1) * PageSize < |all| then (k - 1) * PageSize else |all|;
      var after := if k * PageSize < |all| then k * PageSize else |all|;
      assert PageStart(k) == (k - 1) * PageSize && PageStart(k) + PageSize == k * PageSize;
      assert Paginate(all, k).records == all[before..after];
      assert all[..after] == all[..before] + all[before..after];
    }
  }

  /** Concatenating pages 1 to totalPages gives back every record exactly once, in order. */
  lemma PagesReassemble<T>(all: seq<T>)
    ensures Pages(all, PageCount(|all|)) == all
  {
    PagesPrefix(all, PageCount(|all|));
  }

  /** Record `i` is on page `i / PageSize + 1`, at position `i % PageSize`. */
  lemma RecordPage<T>(all: seq<T>, i: nat)
    requires i < |all|
    ensures var p := Paginate(all, i / PageSize + 1);
            i % PageSize < |p.records| && p.records[i % PageSize] == all[i]
            && i / PageSize + 1 <= p.totalPages
  {
  }
}
