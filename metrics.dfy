/** The metric cards of the dashboard header, computed from the filtered
    table: Entradas (sum of the positive amounts), Saídas (sum of the negative
    amounts, shown as its absolute value), Saldo, and the subtotals of two
    named accounts. */
module Metrics {
  import opened Tables
  import opened Ledger

  const ComprasAccount := "Compras de Mercadoria para Revenda"
  const DasAccount := "Impostos - DAS Simples Nacional"

  /** `df['Valor'] > 0`; NaN fails the comparison. */
  predicate IsInflow(r: Row) { r.valor.Some? && r.valor.value > 0 }

  /** `df['Valor'] < 0`; NaN fails the comparison. */
  predicate IsOutflow(r: Row) { r.valor.Some? && r.valor.value < 0 }

  function Entradas(rows: seq<Row>): int { Sum(Where(rows, IsInflow), ValueOf) }

  function Saidas(rows: seq<Row>): int { Sum(Where(rows, IsOutflow), ValueOf) }

  function Saldo(rows: seq<Row>): int { Entradas(rows) + Saidas(rows) }

  /** The value on the Saídas card: `abs(total_saidas)`. */
  function SaidasShown(rows: seq<Row>): int { Abs(Saidas(rows)) }

  /** The sum of the `Valor` column, missing values skipped. */
  function Total(rows: seq<Row>): int { Sum(rows, ValueOf) }

  /** The subtotal of the rows whose account is exactly `name`. */
  function AccountTotal(rows: seq<Row>, name: string): int { KeySum(rows, AccountOf, name, ValueOf) }

  /** The "Compras de Mercadoria para Revenda" card. */
  function ComprasRevenda(rows: seq<Row>): int { AccountTotal(rows, ComprasAccount) }

  /** The "Impostos - DAS Simples Nacional" card. */
  function TotalDas(rows: seq<Row>): int { AccountTotal(rows, DasAccount) }

  /** Saldo is the signed sum of every present amount: zero amounts and
      missing amounts add nothing to either bucket. */
  lemma {:induction false} SaldoIsTotal(rows: seq<Row>)
    ensures Saldo(rows) == Total(rows)
  {
    if rows != [] {
      var x, t := rows[0], rows[1..];
      assert rows == [x] + t;
      SaldoIsTotal(t);
      WhereCons(x, t, IsInflow);
      WhereCons(x, t, IsOutflow);
      SumCons(x, t, ValueOf);
      if IsInflow(x) {
        SumCons(x, Where(t, IsInflow), ValueOf);
      } else {
        assert Where(rows, IsInflow) == Where(t, IsInflow);
      }
      if IsOutflow(x) {
        SumCons(x, Where(t, IsOutflow), ValueOf);
      } else {
        assert Where(rows, IsOutflow) == Where(t, IsOutflow);
      }
    }
  }

  /** `sum` skips missing values: summing only the rows with an amount gives
      the same total. */
  lemma {:induction false} TotalSkipsMissing(rows: seq<Row>)
    ensures Total(rows) == Total(Where(rows, HasValue))
  {
    if rows != [] {
      var x, t := rows[0], rows[1..];
      assert rows == [x] + t;
      TotalSkipsMissing(t);
      WhereCons(x, t, HasValue);
      SumCons(x, t, ValueOf);
      if HasValue(x) {
        SumCons(x, Where(t, HasValue), ValueOf);
      } else {
        assert Where(rows, HasValue) == Where(t, HasValue);
      }
    }
  }

  /** Entradas is never negative and Saídas never positive, so the Saídas card
      shows exactly the negated Saídas. */
  lemma MetricSigns(rows: seq<Row>)
    ensures Entradas(rows) >= 0
    ensures Saidas(rows) <= 0
    ensures SaidasShown(rows) == -Saidas(rows)
    ensures Saldo(rows) == Entradas(rows) - SaidasShown(rows)
  {
    SumNonNegative(Where(rows, IsInflow), ValueOf);
    SumNonPositive(Where(rows, IsOutflow), ValueOf);
  }

  /** A row with a zero or missing amount, inserted anywhere, changes no
      metric. */
  lemma NeutralRow(before: seq<Row>, r: Row, after: seq<Row>)
    requires r.valor == None || r.valor == Some(0)
    ensures Entradas(before + [r] + after) == Entradas(before + after)
    ensures Saidas(before + [r] + after) == Saidas(before + after)
    ensures Saldo(before + [r] + after) == Saldo(before + after)
  {
    SkipRejected(before, r, after, IsInflow);
    SkipRejected(before, r, after, IsOutflow);
  }

  /** A row the mask rejects drops out of the selection wherever it sits. */
  lemma SkipRejected(before: seq<Row>, r: Row, after: seq<Row>, p: Row -> bool)
    requires !p(r)
    ensures Where(before + [r] + after, p) == Where(before + after, p)
  {
    WhereConcat(before + [r], after, p);
    WhereConcat(before, [r], p);
    WhereConcat(before, after, p);
    WhereCons(r, [], p);
    assert [r] + [] == [r];
  }

  /** Every metric is additive over a split of the table. */
  lemma MetricsAdditive(a: seq<Row>, b: seq<Row>)
    ensures Entradas(a + b) == Entradas(a) + Entradas(b)
    ensures Saidas(a + b) == Saidas(a) + Saidas(b)
    ensures ComprasRevenda(a + b) == ComprasRevenda(a) + ComprasRevenda(b)
    ensures TotalDas(a + b) == TotalDas(a) + TotalDas(b)
  {
    WhereConcat(a, b, IsInflow);
    SumConcat(Where(a, IsInflow), Where(b, IsInflow), ValueOf);
    WhereConcat(a, b, IsOutflow);
    SumConcat(Where(a, IsOutflow), Where(b, IsOutflow), ValueOf);
    WhereConcat(a, b, KeyIs(AccountOf, ComprasAccount));
    SumConcat(Where(a, KeyIs(AccountOf, ComprasAccount)), Where(b, KeyIs(AccountOf, ComprasAccount)), ValueOf);
    WhereConcat(a, b, KeyIs(AccountOf, DasAccount));
    SumConcat(Where(a, KeyIs(AccountOf, DasAccount)), Where(b, KeyIs(AccountOf, DasAccount)), ValueOf);
  }

  /** A named-account card only sees rows of that account: a table without
      one shows 0, and rows of other accounts never move it. */
  lemma AccountTotalOnlyThatAccount(rows: seq<Row>, name: string, other: Row)
    requires other.account != Some(name)
    ensures (forall r :: r in rows ==> r.account != Some(name)) ==> AccountTotal(rows, name) == 0
    ensures AccountTotal([other] + rows, name) == AccountTotal(rows, name)
  {
    if forall r :: r in rows ==> r.account != Some(name) {
      KeySumAbsent(rows, AccountOf, name, ValueOf);
    }
    KeySumCons(other, rows, AccountOf, name, ValueOf);
  }
}
