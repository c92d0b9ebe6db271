/** The "Resumo por Conta Contábil" table, built the same way for display and
    for the CSV export: a group-by on (account, month) with a sum of `Valor`,
    pivoted to one line per account and one column per month, missing
    combinations filled with 0, a `Total` column holding the line's sum, and
    the lines sorted by `Total`, largest first. */
module Summary {
  import opened Tables
  import opened Ledger
  import Metrics

  /** One line of the pivot: an account, one cell per month column (the
      month key and its sum), and the `Total` column. */
  datatype PivotLine = PivotLine(account: string, cells: seq<Group>, total: int)

  /** The pivot: its month columns and its lines. */
  datatype Pivot = Pivot(months: seq<string>, lines: seq<PivotLine>)

  /** The month key of a row the (account, month) group-by keeps: the rows
      without an account are dropped. */
  function GroupedMonth(r: Row): Option<string>
  {
    if r.account.Some? then Some(MonthOf(r)) else None
  }

  /** The month key of a row of account `a`, missing for any other row. */
  function MonthWithin(a: string): Row -> Option<string>
  {
    (r: Row) => if r.account == Some(a) then Some(MonthOf(r)) else None
  }

  function LineTotal(l: PivotLine): int { l.total }

  function LineAccount(l: PivotLine): string { l.account }

  /** The line of account `a`: its cell in every month column, then the
      row-wise sum `resumo_pivot.sum(axis=1)`. */
  function Line(rows: seq<Row>, a: string, months: seq<string>): PivotLine
  {
    var cells := GroupsOf(rows, MonthWithin(a), months, ValueOf);
    PivotLine(a, cells, Sum(cells, TotalOf))
  }

  function Lines(rows: seq<Row>, accounts: seq<string>, months: seq<string>): (ls: seq<PivotLine>)
    ensures |ls| == |accounts|
    ensures forall i :: 0 <= i < |accounts| ==> ls[i] == Line(rows, accounts[i], months)
  {
    if accounts == [] then [] else [Line(rows, accounts[0], months)] + Lines(rows, accounts[1..], months)
  }

  /** The pivot of the filtered rows, sorted by `Total` descending. */
  function Summarize(rows: seq<Row>): Pivot
  {
    var months := Keys(rows, GroupedMonth);
    var accounts := Keys(rows, AccountOf);
    Pivot(months, SortDesc(Lines(rows, accounts, months), LineTotal))
  }

  /** The value a cell should hold: the sum of `Valor` over the rows with
      that account and that month key. */
  function CellTotal(rows: seq<Row>, a: string, m: string): int
  {
    Sum(Where(rows, (r: Row) => r.account == Some(a) && MonthOf(r) == m), ValueOf)
  }

  /** The month columns are distinct and are exactly the month keys of the
      rows that have an account. */
  lemma SummaryMonths(rows: seq<Row>)
    ensures Distinct(Summarize(rows).months)
    ensures forall m :: m in Summarize(rows).months <==> exists r :: r in rows && r.account.Some? && MonthOf(r) == m
  {
    var months := Summarize(rows).months;
    forall m ensures m in months <==> exists r :: r in rows && r.account.Some? && MonthOf(r) == m {
      if m in months {
        var r :| r in rows && GroupedMonth(r) == Some(m);
        assert r.account.Some? && MonthOf(r) == m;
      }
      if exists r :: r in rows && r.account.Some? && MonthOf(r) == m {
        var r :| r in rows && r.account.Some? && MonthOf(r) == m;
        assert GroupedMonth(r) == Some(m);
      }
    }
  }

  lemma LineMember(rows: seq<Row>, l: PivotLine)
    requires l in Summarize(rows).lines
    ensures exists i :: 0 <= i < |Keys(rows, AccountOf)| && l == Line(rows, Keys(rows, AccountOf)[i], Keys(rows, GroupedMonth))
  {
    var ls := Lines(rows, Keys(rows, AccountOf), Keys(rows, GroupedMonth));
    SortDescMember(ls, LineTotal, l);
    var i :| 0 <= i < |ls| && ls[i] == l;
  }

  lemma LinesAccounts(rows: seq<Row>, accounts: seq<string>, months: seq<string>)
    requires Distinct(accounts)
    ensures DistinctBy(Lines(rows, accounts, months), LineAccount)
  {
    var ls := Lines(rows, accounts, months);
    forall i, j | 0 <= i < j < |ls| ensures LineAccount(ls[i]) != LineAccount(ls[j]) {
      assert ls[i].account == accounts[i] && ls[j].account == accounts[j];
    }
  }

  /** No account has two lines, there are as many lines as accounts, and the
      lines are in non-increasing order of `Total`. */
  lemma SummaryLinesDistinct(rows: seq<Row>)
    ensures DistinctBy(Summarize(rows).lines, LineAccount)
    ensures |Summarize(rows).lines| == |Keys(rows, AccountOf)|
    ensures SortedDesc(Summarize(rows).lines, LineTotal)
  {
    var accounts, months := Keys(rows, AccountOf), Keys(rows, GroupedMonth);
    var ls := Lines(rows, accounts, months);
    LinesAccounts(rows, accounts, months);
    SortDescDistinctBy(ls, LineTotal, LineAccount);
    SortDescLength(ls, LineTotal);
  }

  /** The pivot has a line for an account exactly when some row carries
      that account. */
  lemma SummaryLinesCover(rows: seq<Row>, a: string)
    ensures (exists l :: l in Summarize(rows).lines && l.account == a) <==> (exists r :: r in rows && r.account == Some(a))
  {
    if exists l :: l in Summarize(rows).lines && l.account == a {
      var l :| l in Summarize(rows).lines && l.account == a;
      LineHasRows(rows, l);
    }
    if exists r :: r in rows && r.account == Some(a) {
      var r :| r in rows && r.account == Some(a);
      RowHasLine(rows, r);
    }
  }

  lemma LineHasRows(rows: seq<Row>, l: PivotLine)
    requires l in Summarize(rows).lines
    ensures exists r :: r in rows && r.account == Some(l.account)
  {
    var accounts, months := Keys(rows, AccountOf), Keys(rows, GroupedMonth);
    LineMember(rows, l);
    var i :| 0 <= i < |accounts| && l == Line(rows, accounts[i], months);
    assert accounts[i] == l.account && accounts[i] in accounts;
  }

  lemma RowHasLine(rows: seq<Row>, r: Row)
    requires r in rows && r.account.Some?
    ensures exists l :: l in Summarize(rows).lines && l.account == r.account.value
  {
    var a := r.account.value;
    var accounts, months := Keys(rows, AccountOf), Keys(rows, GroupedMonth);
    var ls := Lines(rows, accounts, months);
    assert AccountOf(r) == Some(a);
    assert a in accounts;
    var i :| 0 <= i < |accounts| && accounts[i] == a;
    SortDescMember(ls, LineTotal, ls[i]);
    assert ls[i] in Summarize(rows).lines && ls[i].account == a;
  }

  /** Each cell of a line holds the sum of `Valor` over the rows of that
      account and month; a combination without rows holds 0. */
  lemma SummaryCells(rows: seq<Row>, l: PivotLine)
    requires l in Summarize(rows).lines
    ensures |l.cells| == |Summarize(rows).months|
    ensures forall j :: 0 <= j < |l.cells| ==>
      l.cells[j].key == Summarize(rows).months[j] && l.cells[j].total == CellTotal(rows, l.account, l.cells[j].key)
  {
    LineMember(rows, l);
    var months := Keys(rows, GroupedMonth);
    forall j | 0 <= j < |l.cells|
      ensures l.cells[j].key == months[j] && l.cells[j].total == CellTotal(rows, l.account, months[j])
    {
      CellIsKeySum(rows, l.account, months[j]);
    }
  }

  lemma CellIsKeySum(rows: seq<Row>, a: string, m: string)
    ensures KeySum(rows, MonthWithin(a), m, ValueOf) == CellTotal(rows, a, m)
  {
    WhereSame(rows, KeyIs(MonthWithin(a), m), (r: Row) => r.account == Some(a) && MonthOf(r) == m);
  }

  /** Zero fill: an (account, month) pair with no rows has cell 0. */
  lemma CellZeroFill(rows: seq<Row>, a: string, m: string)
    requires forall r :: r in rows ==> !(r.account == Some(a) && MonthOf(r) == m)
    ensures CellTotal(rows, a, m) == 0
  {
    var p := (r: Row) => r.account == Some(a) && MonthOf(r) == m;
    forall i | 0 <= i < |rows| ensures !p(rows[i]) {
      assert rows[i] in rows;
    }
    WhereNone(rows, p);
  }

  /** `Total` is the sum of the line's month cells, and because the month
      columns cover every month of the account, it is also the account's
      whole subtotal. */
  lemma SummaryTotals(rows: seq<Row>, l: PivotLine)
    requires l in Summarize(rows).lines
    ensures l.total == Sum(l.cells, TotalOf)
    ensures l.total == Metrics.AccountTotal(rows, l.account)
  {
    LineMember(rows, l);
    var months := Keys(rows, GroupedMonth);
    assert l == Line(rows, l.account, months);
    CellsAddUp(rows, l.account);
  }

  /** The cells of account `a` add up to its whole subtotal. */
  lemma CellsAddUp(rows: seq<Row>, a: string)
    ensures Sum(GroupsOf(rows, MonthWithin(a), Keys(rows, GroupedMonth), ValueOf), TotalOf) == Metrics.AccountTotal(rows, a)
  {
    var months := Keys(rows, GroupedMonth);
    MonthsCoverAccount(rows, a);
    GroupsOfPartition(rows, MonthWithin(a), months, ValueOf);
    RowsOfAccount(rows, a);
  }

  /** The rows with a month key within account `a` are that account's rows. */
  lemma RowsOfAccount(rows: seq<Row>, a: string)
    ensures Where(rows, HasKey(MonthWithin(a))) == Where(rows, KeyIs(AccountOf, a))
  {
    forall i | 0 <= i < |rows| ensures HasKey(MonthWithin(a))(rows[i]) == KeyIs(AccountOf, a)(rows[i]) {
      var r := rows[i];
      assert HasKey(MonthWithin(a))(r) == MonthWithin(a)(r).Some?;
      assert KeyIs(AccountOf, a)(r) == (AccountOf(r) == Some(a));
      assert MonthWithin(a)(r) == if r.account == Some(a) then Some(MonthOf(r)) else None;
    }
    WhereSame(rows, HasKey(MonthWithin(a)), KeyIs(AccountOf, a));
  }

  lemma MonthsCoverAccount(rows: seq<Row>, a: string)
    ensures forall x :: x in rows && MonthWithin(a)(x).Some? ==> MonthWithin(a)(x).value in Keys(rows, GroupedMonth)
  {
    var months := Keys(rows, GroupedMonth);
    forall x | x in rows && MonthWithin(a)(x).Some? ensures MonthWithin(a)(x).value in months {
      assert MonthWithin(a)(x) == Some(MonthOf(x));
      assert GroupedMonth(x) == Some(MonthOf(x));
    }
  }
}
