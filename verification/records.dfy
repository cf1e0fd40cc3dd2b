/** The ledger row and the names the HTTP interface uses for its columns and directions. */
module Records {

  datatype Option<T> = None | Some(value: T)

  /** One parsed CSV row. Every field is kept as the text read from the file. */
  datatype Transaction = Transaction(
    dateTime: string,
    transNo: string,
    credit: string,
    debit: string,
    detail: string)

  /** The five columns, in header order. */
  datatype Column = DateTime | TransNo | Credit | Debit | Detail

  datatype Direction = Asc | Desc

  /** The parts of the runtime the model does not define: `new Date(v).getTime()`,
      `parseFloat` on a stripped amount, and `String.prototype.localeCompare`. */
  datatype Semantics = Semantics(
    time: string -> int,
    amount: string -> int,
    localeCompare: (string, string) -> int)

  /** The value of column `c` in `t`. */
  function Field(t: Transaction, c: Column): string
  {
    match c
    case DateTime => t.dateTime
    case TransNo => t.transNo
    case Credit => t.credit
    case Debit => t.debit
    case Detail => t.detail
  }

  /** `Object.values(record)`: every column's value, in header order. */
  function Fields(t: Transaction): (r: seq<string>)
    ensures |r| == 5
    ensures forall c :: Field(t, c) in r
    ensures forall f :: f in r ==> exists c :: Field(t, c) == f
  {
    assert Field(t, DateTime) == t.dateTime && Field(t, TransNo) == t.transNo;
    assert Field(t, Credit) == t.credit && Field(t, Debit) == t.debit && Field(t, Detail) == t.detail;
    [t.dateTime, t.transNo, t.credit, t.debit, t.detail]
  }

  /** The header name of a column, as sent in `sortColumn`. */
  function ColumnName(c: Column): string
  {
    match c
    case DateTime => "date_time"
    case TransNo => "trans_no"
    case Credit => "credit"
    case Debit => "debit"
    case Detail => "detail"
  }

  /** The column a `sortColumn` value names, if it names one. */
  function ColumnNamed(name: string): (r: Option<Column>)
    ensures r.Some? ==> ColumnName(r.value) == name
    ensures forall c :: ColumnName(c) == name ==> r == Some(c)
  {
    if name == "date_time" then Some(DateTime)
    else if name == "trans_no" then Some(TransNo)
    else if name == "credit" then Some(Credit)
    else if name == "debit" then Some(Debit)
    else if name == "detail" then Some(Detail)
    else None
  }

  /** The value the client sends in `sortDirection`. */
  function DirectionName(d: Direction): string
  {
    match d
    case Asc => "asc"
    case Desc => "desc"
  }

  /** The server tests `sortDirection === 'asc'`; every other value sorts descending. */
  function DirectionNamed(name: string): (d: Direction)
    ensures d == Asc <==> name == "asc"
  {
    if name == "asc" then Asc else Desc
  }

  /** Names sent by the client are read back as the same column and direction. */
  lemma NamesRoundTrip(c: Column, d: Direction)
    ensures ColumnNamed(ColumnName(c)) == Some(c)
    ensures DirectionNamed(DirectionName(d)) == d
    ensures ColumnName(c) != "" && DirectionName(d) != ""
  {
  }
}
