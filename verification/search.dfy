/** The filter and sort stages of `GET /api/transactions/search`. */
module Search {
  import opened Seqs
  import opened Text
  import opened Sorting
  import opened Records

  /** Some field of `t`, lower-cased, contains the lower-cased query. */
  predicate Matches(t: Transaction, query: string)
  {
    exists f :: f in Fields(t) && Includes(Lower(f), Lower(query))
  }

  /** The full-row search: keeps exactly the matching records, in file order. */
  function Filter(records: seq<Transaction>, query: string): (r: seq<Transaction>)
    ensures IsSubsequence(r, records)
    ensures forall t :: t in r ==> Matches(t, query)
    ensures forall t :: Matches(t, query) ==> multiset(r)[t] == multiset(records)[t]
  {
    Select(records, t => Matches(t, query))
  }

  /** Every record kept has a field containing the query, and it came from the input. */
  lemma FilterSound(records: seq<Transaction>, query: string, t: Transaction)
    requires t in Filter(records, query)
    ensures t in records
    ensures exists c :: Includes(Lower(Field(t, c)), Lower(query))
  {
    SubsequenceMembers(Filter(records, query), records);
  }

  /** Every record with a field containing the query is kept. */
  lemma FilterComplete(records: seq<Transaction>, query: string, t: Transaction, c: Column)
    requires t in records
    requires Includes(Lower(Field(t, c)), Lower(query))
    ensures t in Filter(records, query)
  {
    assert Field(t, c) in Fields(t);
    assert multiset(Filter(records, query))[t] == multiset(records)[t];
  }

  /** An absent `q` defaults to the empty string, which every record matches. */
  lemma FilterEmptyQuery(records: seq<Transaction>)
    ensures Filter(records, "") == records
  {
    forall t | t in records ensures Matches(t, "") {
      assert Lower("") == "";
      IncludesEmpty(Lower(t.dateTime));
      assert t.dateTime in Fields(t);
    }
    SelectAll(records, t => Matches(t, ""));
  }

  /** `parseMonetaryValue`: the abstract numeric reading of the stripped text.
      The text read is the only one that keeps exactly the digits, `.` and `-` of
      `value` in their order, so currency signs and separators do not matter. */
  function MonetaryValue(sem: Semantics, value: string): (r: int)
    ensures forall s :: IsSubsequence(s, value) && (forall c :: c in s ==> IsMoneyChar(c))
              && (forall c :: IsMoneyChar(c) ==> multiset(s)[c] == multiset(value)[c])
              ==> r == sem.amount(s)
  {
    forall s | IsSubsequence(s, value) && (forall c :: c in s ==> IsMoneyChar(c))
                 && (forall c :: IsMoneyChar(c) ==> multiset(s)[c] == multiset(value)[c])
      ensures s == MoneyChars(value)
    {
      SelectUnique(value, s, IsMoneyChar);
    }
    sem.amount(MoneyChars(value))
  }

  /** The comparator passed to `filteredRecords.sort`. The column and direction
      arrive as raw query-string values: an unknown column compares everything
      as equal, and any direction other than "asc" sorts descending. */
  function CompareRecords(sem: Semantics, column: string, direction: string,
                          a: Transaction, b: Transaction): (r: int)
    ensures ColumnNamed(column).None? ==> r == 0
    ensures ColumnNamed(column) == Some(DateTime) ==>
              (r <= 0 <==> if direction == "asc" then sem.time(a.dateTime) <= sem.time(b.dateTime)
                           else sem.time(b.dateTime) <= sem.time(a.dateTime))
    ensures ColumnNamed(column) == Some(Credit) ==>
              (r <= 0 <==> if direction == "asc" then MonetaryValue(sem, a.credit) <= MonetaryValue(sem, b.credit)
                           else MonetaryValue(sem, b.credit) <= MonetaryValue(sem, a.credit))
    ensures ColumnNamed(column) == Some(Debit) ==>
              (r <= 0 <==> if direction == "asc" then MonetaryValue(sem, a.debit) <= MonetaryValue(sem, b.debit)
                           else MonetaryValue(sem, b.debit) <= MonetaryValue(sem, a.debit))
    ensures ColumnNamed(column) == Some(TransNo) || ColumnNamed(column) == Some(Detail) ==>
              var c := ColumnNamed(column).value;
              r == if direction == "asc" then sem.localeCompare(Field(a, c), Field(b, c))
                   else sem.localeCompare(Field(b, c), Field(a, c))
  {
    match ColumnNamed(column)
    case Some(DateTime) =>
      if direction == "asc" then sem.time(a.dateTime) - sem.time(b.dateTime)
      else sem.time(b.dateTime) - sem.time(a.dateTime)
    case Some(Credit) =>
      var x, y := MonetaryValue(sem, a.credit), MonetaryValue(sem, b.credit);
      if direction == "asc" then x - y else y - x
    case Some(Debit) =>
      var x, y := MonetaryValue(sem, a.debit), MonetaryValue(sem, b.debit);
      if direction == "asc" then x - y else y - x
    case Some(c) =>
      if direction == "asc" then sem.localeCompare(Field(a, c), Field(b, c))
      else sem.localeCompare(Field(b, c), Field(a, c))
    case None => 0
  }

  function RecordComparator(sem: Semantics, column: string, direction: string)
    : (Transaction, Transaction) -> int
  {
    (a, b) => CompareRecords(sem, column, direction, a, b)
  }

  /** Descending is ascending with the operands swapped, for every column. */
  lemma DescendingSwapsOperands(sem: Semantics, column: string, direction: string,
                                a: Transaction, b: Transaction)
    requires direction != "asc"
    ensures CompareRecords(sem, column, direction, a, b) == CompareRecords(sem, column, "asc", b, a)
  {
  }

  /** `localeCompare` is assumed to be a consistent comparator on strings: a
      total preorder whose sign flips when the operands are swapped. */
  ghost predicate LocaleConsistent(sem: Semantics)
  {
    && TotalPreorder(sem.localeCompare)
    && (forall x, y :: sem.localeCompare(x, y) <= 0 <==> sem.localeCompare(y, x) >= 0)
  }

  /** Date and money comparisons subtract numeric keys, so they are consistent;
      string comparisons are as consistent as `localeCompare`. Consistent means a
      total preorder whose sign flips when the operands are swapped. */
  lemma ComparatorConsistent(sem: Semantics, column: string, direction: string)
    requires LocaleConsistent(sem)
    ensures TotalPreorder(RecordComparator(sem, column, direction))
    ensures forall a, b :: RecordComparator(sem, column, direction)(a, b) <= 0
                           <==> RecordComparator(sem, column, direction)(b, a) >= 0
  {
    var cmp := RecordComparator(sem, column, direction);
    forall a, b | true ensures cmp(a, b) <= 0 <==> cmp(b, a) >= 0 {
      if ColumnNamed(column).Some? {
        var c := ColumnNamed(column).value;
        assert sem.localeCompare(Field(a, c), Field(b, c)) <= 0
               <==> sem.localeCompare(Field(b, c), Field(a, c)) >= 0;
      }
    }
    forall a, b | true ensures cmp(a, b) <= 0 || cmp(b, a) <= 0 {
      if ColumnNamed(column).Some? {
        var c := ColumnNamed(column).value;
        assert sem.localeCompare(Field(a, c), Field(b, c)) <= 0
            || sem.localeCompare(Field(b, c), Field(a, c)) <= 0;
      }
    }
    forall a, b, d | cmp(a, b) <= 0 && cmp(b, d) <= 0 ensures cmp(a, d) <= 0 {
      if ColumnNamed(column).Some? {
        var c := ColumnNamed(column).value;
        var fa, fb, fd := Field(a, c), Field(b, c), Field(d, c);
        assert sem.localeCompare(fa, fb) <= 0 && sem.localeCompare(fb, fd) <= 0
            ==> sem.localeCompare(fa, fd) <= 0;
        assert sem.localeCompare(fd, fb) <= 0 && sem.localeCompare(fb, fa) <= 0
            ==> sem.localeCompare(fd, fa) <= 0;
      }
    }
  }

  /** `if (sortColumn && sortDirection)`: neither value is one of the falsy
      values a `string | null` can take, `null` and `""`. */
  predicate SortRequested(sortColumn: Option<string>, sortDirection: Option<string>): (r: bool)
    ensures r <==> sortColumn !in {None, Some("")} && sortDirection !in {None, Some("")}
  {
    sortColumn.Some? && sortColumn.value != "" && sortDirection.Some? && sortDirection.value != ""
  }

  /** The sort stage: a permutation of the filtered records, and the identity
      unless both sort parameters were given. */
  function SortStage(records: seq<Transaction>, sem: Semantics,
                     sortColumn: Option<string>, sortDirection: Option<string>): (r: seq<Transaction>)
    ensures multiset(r) == multiset(records)
    ensures !SortRequested(sortColumn, sortDirection) ==> r == records
  {
    if SortRequested(sortColumn, sortDirection) then
      Sort(records, RecordComparator(sem, sortColumn.value, sortDirection.value))
    else records
  }

  /** When sorting is requested the output is ordered by the requested comparator. */
  lemma SortStageOrders(records: seq<Transaction>, sem: Semantics,
                        sortColumn: Option<string>, sortDirection: Option<string>)
    requires LocaleConsistent(sem)
    requires SortRequested(sortColumn, sortDirection)
    ensures Sorted(SortStage(records, sem, sortColumn, sortDirection),
                   RecordComparator(sem, sortColumn.value, sortDirection.value))
  {
    var cmp := RecordComparator(sem, sortColumn.value, sortDirection.value);
    ComparatorConsistent(sem, sortColumn.value, sortDirection.value);
    SortSorted(records, cmp);
  }

  /** Records that compare as equal keep their filtered order. */
  lemma SortStageStable(records: seq<Transaction>, sem: Semantics,
                        sortColumn: Option<string>, sortDirection: Option<string>, x: Transaction)
    requires LocaleConsistent(sem)
    requires SortRequested(sortColumn, sortDirection)
    ensures var cmp := RecordComparator(sem, sortColumn.value, sortDirection.value);
            Select(SortStage(records, sem, sortColumn, sortDirection), TiedWith(cmp, x))
            == Select(records, TiedWith(cmp, x))
  {
    ComparatorConsistent(sem, sortColumn.value, sortDirection.value);
    SortStable(records, RecordComparator(sem, sortColumn.value, sortDirection.value), x);
  }

  /** Applying the sort twice with the same parameters gives the same sequence. */
  lemma SortStageIdempotent(records: seq<Transaction>, sem: Semantics,
                            sortColumn: Option<string>, sortDirection: Option<string>)
    requires LocaleConsistent(sem)
    ensures SortStage(SortStage(records, sem, sortColumn, sortDirection), sem, sortColumn, sortDirection)
            == SortStage(records, sem, sortColumn, sortDirection)
  {
    if SortRequested(sortColumn, sortDirection) {
      ComparatorConsistent(sem, sortColumn.value, sortDirection.value);
      SortIdempotent(records, RecordComparator(sem, sortColumn.value, sortDirection.value));
    }
  }

  /** When no two records tie on the column, "desc" yields the "asc" order reversed. */
  lemma SortStageReverses(records: seq<Transaction>, sem: Semantics, column: string, direction: string)
    requires LocaleConsistent(sem)
    requires column != "" && direction != "" && direction != "asc"
    requires NoTiesIn(records, RecordComparator(sem, column, "asc"))
    ensures SortStage(records, sem, Some(column), Some(direction))
            == Reverse(SortStage(records, sem, Some(column), Some("asc")))
  {
    var asc, desc := RecordComparator(sem, column, "asc"), RecordComparator(sem, column, direction);
    forall a, b | true ensures desc(a, b) <= 0 <==> asc(b, a) <= 0 {
      DescendingSwapsOperands(sem, column, direction, a, b);
    }
    ComparatorConsistent(sem, column, "asc");
    ReverseDirection(records, asc, desc);
  }

  /** Two records with different timestamps: the ascending sort puts the earlier
      first and the descending sort is its reverse. */
  lemma SortStageReversesExample(sem: Semantics, a: Transaction, b: Transaction)
    requires LocaleConsistent(sem)
    requires sem.time(a.dateTime) < sem.time(b.dateTime)
    ensures SortStage([b, a], sem, Some("date_time"), Some("asc")) == [a, b]
    ensures SortStage([b, a], sem, Some("date_time"), Some("desc")) == [b, a]
  {
    var asc := RecordComparator(sem, "date_time", "asc");
    assert ColumnNamed("date_time") == Some(DateTime);
    assert CompareRecords(sem, "date_time", "asc", b, a) > 0;
    assert CompareRecords(sem, "date_time", "asc", a, b) < 0;
    assert SortRequested(Some("date_time"), Some("asc"));
    assert [b, a][1..] == [a] && [a][1..] == [];
    assert Sort([b, a], asc) == [a, b] by {
      assert Sort([a], asc) == [a];
      assert Insert(b, [a], asc) == [a, b];
    }
    assert NoTiesIn([b, a], asc) by {
      assert !Tied(asc, a, b);
    }
    SortStageReverses([b, a], sem, "date_time", "desc");
  }
}
