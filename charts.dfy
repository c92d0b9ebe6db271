/** The tables behind the charts tab: the five accounts with the largest
    outflows, inflows and outflows per month, and the monthly comparison of
    sales revenue with the DAS tax. Chart drawing is not modelled; these are
    the data frames handed to it. */
module Charts {
  import opened Tables
  import opened Ledger
  import opened Metrics

  /** `.abs()` applied to the summed column of a group-by result. */
  function AbsTotals(gs: seq<Group>): (r: seq<Group>)
    ensures |r| == |gs|
    ensures forall i :: 0 <= i < |gs| ==> r[i] == Group(gs[i].key, Abs(gs[i].total))
  {
    if gs == [] then [] else [Group(gs[0].key, Abs(gs[0].total))] + AbsTotals(gs[1..])
  }

  lemma AbsTotalsDistinct(gs: seq<Group>)
    requires DistinctBy(gs, KeyOf)
    ensures DistinctBy(AbsTotals(gs), KeyOf)
  {
    var r := AbsTotals(gs);
    forall i, j | 0 <= i < j < |r| ensures KeyOf(r[i]) != KeyOf(r[j]) {
      assert r[i].key == gs[i].key && r[j].key == gs[j].key;
    }
  }

  /** Taking absolute values keeps the keys. */
  lemma AbsTotalsKeys(gs: seq<Group>, k: string)
    ensures HasGroup(AbsTotals(gs), k) <==> HasGroup(gs, k)
  {
    var r := AbsTotals(gs);
    if HasGroup(r, k) {
      var g :| g in r && g.key == k;
      var i :| 0 <= i < |r| && r[i] == g;
      assert gs[i] in gs;
    }
    if HasGroup(gs, k) {
      var g :| g in gs && g.key == k;
      var i :| 0 <= i < |gs| && gs[i] == g;
      assert r[i] in r;
    }
  }

  lemma AbsTotalsOrigin(gs: seq<Group>, g: Group)
    requires g in AbsTotals(gs)
    ensures exists h :: h in gs && h.key == g.key && g.total == Abs(h.total)
  {
    var i :| 0 <= i < |AbsTotals(gs)| && AbsTotals(gs)[i] == g;
    assert gs[i] in gs;
  }

  /** Of groups whose sums are all negative, the absolute values add up to
      the negated sum. */
  lemma {:induction false} SumAbsTotals(gs: seq<Group>)
    requires forall i :: 0 <= i < |gs| ==> gs[i].total <= 0
    ensures Sum(AbsTotals(gs), TotalOf) == -Sum(gs, TotalOf)
  {
    if gs != [] {
      SumAbsTotals(gs[1..]);
      assert AbsTotals(gs)[1..] == AbsTotals(gs[1..]);
    }
  }

  /** Every row has a month key, so a group-by on the month keeps every row. */
  lemma MonthlyCovers(sel: seq<Row>)
    ensures Where(sel, HasKey(MonthKeyOf)) == sel
  {
    forall i | 0 <= i < |sel| ensures HasKey(MonthKeyOf)(sel[i]) {
      assert MonthKeyOf(sel[i]) == Some(MonthOf(sel[i]));
    }
    WhereAll(sel, HasKey(MonthKeyOf));
  }

  // ------------------------------------------------------------------
  // Top 5 outflows
  // ------------------------------------------------------------------

  /** How many outflow accounts the bar chart shows. */
  const TopCount := 5

  /** The accounts that have at least one outflow row. */
  function OutflowAccounts(rows: seq<Row>): seq<string>
  {
    Keys(Where(rows, IsOutflow), AccountOf)
  }

  /** `df[Valor < 0].groupby('ContaContabil')['Valor'].sum().abs()`. */
  function OutflowByAccount(rows: seq<Row>): seq<Group>
  {
    AbsTotals(GroupSums(Where(rows, IsOutflow), AccountOf, ValueOf))
  }

  /** `nlargest(5, 'Valor')` of the outflow magnitudes. */
  function TopOutflows(rows: seq<Row>): seq<Group>
  {
    Largest(OutflowByAccount(rows), TopCount, TotalOf)
  }

  /** The mask of the outflow rows of account `a`. */
  function OutflowIn(a: string): Row -> bool
  {
    (r: Row) => IsOutflow(r) && r.account == Some(a)
  }

  /** The outflow of account `a`: the sum of its negative amounts. */
  function AccountOutflow(rows: seq<Row>, a: string): int
  {
    Sum(Where(rows, OutflowIn(a)), ValueOf)
  }

  lemma OutflowKeySum(rows: seq<Row>, a: string)
    ensures KeySum(Where(rows, IsOutflow), AccountOf, a, ValueOf) == AccountOutflow(rows, a)
  {
    forall x ensures OutflowIn(a)(x) == (IsOutflow(x) && KeyIs(AccountOf, a)(x)) {
      assert KeyIs(AccountOf, a)(x) == (AccountOf(x) == Some(a));
    }
    WhereWhere(rows, IsOutflow, KeyIs(AccountOf, a), OutflowIn(a));
  }

  /** An account's outflow is never positive, and negative once the account
      has an outflow row. */
  lemma AccountOutflowSign(rows: seq<Row>, a: string)
    ensures AccountOutflow(rows, a) <= 0
    ensures (exists r :: r in rows && OutflowIn(a)(r)) ==> AccountOutflow(rows, a) < 0
  {
    var sel := Where(rows, OutflowIn(a));
    SumNonPositive(sel, ValueOf);
    if exists r :: r in rows && OutflowIn(a)(r) {
      var r :| r in rows && OutflowIn(a)(r);
      WhereMember(rows, OutflowIn(a), r);
      SumNegative(sel, ValueOf);
    }
  }

  /** One entry per account with outflows, none twice. */
  lemma OutflowByAccountShape(rows: seq<Row>)
    ensures |OutflowByAccount(rows)| == |OutflowAccounts(rows)|
    ensures DistinctBy(OutflowByAccount(rows), KeyOf)
  {
    var out := Where(rows, IsOutflow);
    GroupSumsSpec(out, AccountOf, ValueOf);
    AbsTotalsDistinct(GroupSums(out, AccountOf, ValueOf));
  }

  /** The chart has an entry for an account exactly when the account has an
      outflow row. */
  lemma OutflowByAccountKeys(rows: seq<Row>, a: string)
    ensures HasGroup(OutflowByAccount(rows), a) <==> exists r :: r in rows && IsOutflow(r) && r.account == Some(a)
  {
    var out := Where(rows, IsOutflow);
    AbsTotalsKeys(GroupSums(out, AccountOf, ValueOf), a);
    GroupSumsHas(out, AccountOf, ValueOf, a);
    if exists x :: x in out && AccountOf(x) == Some(a) {
      var x :| x in out && AccountOf(x) == Some(a);
      WhereMember(rows, IsOutflow, x);
    }
    if exists r :: r in rows && IsOutflow(r) && r.account == Some(a) {
      var r :| r in rows && IsOutflow(r) && r.account == Some(a);
      WhereMember(rows, IsOutflow, r);
      assert r in out && AccountOf(r) == Some(a);
    }
  }

  /** Each entry holds the magnitude of its account's outflow, which is
      positive. */
  lemma OutflowByAccountTotal(rows: seq<Row>, g: Group)
    requires g in OutflowByAccount(rows)
    ensures g.total == -AccountOutflow(rows, g.key)
    ensures g.total > 0
  {
    var out := Where(rows, IsOutflow);
    var gs := GroupSums(out, AccountOf, ValueOf);
    AbsTotalsOrigin(gs, g);
    var h :| h in gs && h.key == g.key && g.total == Abs(h.total);
    GroupSumsSpec(out, AccountOf, ValueOf);
    OutflowKeySum(rows, g.key);
    assert HasGroup(gs, g.key);
    var x :| x in out && AccountOf(x) == Some(g.key);
    WhereMember(rows, IsOutflow, x);
    assert x in rows && OutflowIn(g.key)(x);
    AccountOutflowSign(rows, g.key);
  }

  /** The chart shows min(5, number of outflow accounts) bars, each account
      at most once, largest first. */
  lemma TopOutflowsShape(rows: seq<Row>)
    ensures |TopOutflows(rows)| == Min(TopCount, |OutflowAccounts(rows)|)
    ensures SortedDesc(TopOutflows(rows), TotalOf)
    ensures DistinctBy(TopOutflows(rows), KeyOf)
  {
    var all := OutflowByAccount(rows);
    OutflowByAccountShape(rows);
    LargestShape(all, TopCount, TotalOf);
    SortDescDistinctBy(all, TotalOf, KeyOf);
    SortDescLength(all, TotalOf);
    var top := TopOutflows(rows);
    var sorted := SortDesc(all, TotalOf);
    assert forall i :: 0 <= i < |top| ==> top[i] == sorted[i];
  }

  /** Each bar is an account's outflow magnitude, and no account left out
      has a larger outflow than one shown. */
  lemma TopOutflowsMembers(rows: seq<Row>, g: Group)
    requires g in TopOutflows(rows)
    ensures g in OutflowByAccount(rows)
    ensures g.total == -AccountOutflow(rows, g.key)
    ensures forall h :: h in OutflowByAccount(rows) && h !in TopOutflows(rows) ==> g.total >= h.total
  {
    var all, top := OutflowByAccount(rows), TopOutflows(rows);
    LargestSpec(all, TopCount, TotalOf);
    assert g in all;
    OutflowByAccountTotal(rows, g);
    forall h | h in all && h !in top ensures g.total >= h.total {
      LargestDominates(all, TopCount, TotalOf, g, h);
    }
  }

  // ------------------------------------------------------------------
  // Inflows and outflows per month
  // ------------------------------------------------------------------

  /** `df[Valor > 0].groupby('Mês/Ano')['Valor'].sum()`. */
  function MonthlyInflows(rows: seq<Row>): seq<Group>
  {
    GroupSums(Where(rows, IsInflow), MonthKeyOf, ValueOf)
  }

  /** `df[Valor < 0].groupby('Mês/Ano')['Valor'].sum()`, then `.abs()`. */
  function MonthlyOutflows(rows: seq<Row>): seq<Group>
  {
    AbsTotals(GroupSums(Where(rows, IsOutflow), MonthKeyOf, ValueOf))
  }

  /** The mask of the inflow rows of month `m`. */
  function InflowOfMonth(m: string): Row -> bool
  {
    (r: Row) => IsInflow(r) && MonthOf(r) == m
  }

  /** The mask of the outflow rows of month `m`. */
  function OutflowOfMonth(m: string): Row -> bool
  {
    (r: Row) => IsOutflow(r) && MonthOf(r) == m
  }

  /** One bar per month, and the inflow bars add up to the Entradas card. */
  lemma MonthlyInflowsShape(rows: seq<Row>)
    ensures DistinctBy(MonthlyInflows(rows), KeyOf)
    ensures Sum(MonthlyInflows(rows), TotalOf) == Entradas(rows)
  {
    var sel := Where(rows, IsInflow);
    GroupSumsSpec(sel, MonthKeyOf, ValueOf);
    GroupSumsTotal(sel, MonthKeyOf, ValueOf);
    MonthlyCovers(sel);
  }

  /** There is an inflow bar for a month exactly when the month has an
      inflow row. */
  lemma MonthlyInflowsKeys(rows: seq<Row>, m: string)
    ensures HasGroup(MonthlyInflows(rows), m) <==> exists r :: r in rows && IsInflow(r) && MonthOf(r) == m
  {
    var sel := Where(rows, IsInflow);
    GroupSumsHas(sel, MonthKeyOf, ValueOf, m);
    if exists x :: x in sel && MonthKeyOf(x) == Some(m) {
      var x :| x in sel && MonthKeyOf(x) == Some(m);
      WhereMember(rows, IsInflow, x);
    }
    if exists r :: r in rows && IsInflow(r) && MonthOf(r) == m {
      var r :| r in rows && IsInflow(r) && MonthOf(r) == m;
      WhereMember(rows, IsInflow, r);
      assert r in sel && MonthKeyOf(r) == Some(m);
    }
  }

  /** Each inflow bar is the positive sum of its month's inflow rows. */
  lemma MonthlyInflowsTotal(rows: seq<Row>, g: Group)
    requires g in MonthlyInflows(rows)
    ensures g.total == Sum(Where(rows, InflowOfMonth(g.key)), ValueOf)
    ensures g.total > 0
  {
    var sel := Where(rows, IsInflow);
    GroupSumsSpec(sel, MonthKeyOf, ValueOf);
    forall x ensures InflowOfMonth(g.key)(x) == (IsInflow(x) && KeyIs(MonthKeyOf, g.key)(x)) { }
    WhereWhere(rows, IsInflow, KeyIs(MonthKeyOf, g.key), InflowOfMonth(g.key));
    forall x | x in sel ensures ValueOf(x) > 0 {
      WhereMember(rows, IsInflow, x);
    }
    GroupSumsSigns(sel, MonthKeyOf, ValueOf, g);
  }

  /** One bar per month, and the outflow bars add up to the Saídas card. */
  lemma MonthlyOutflowsShape(rows: seq<Row>)
    ensures DistinctBy(MonthlyOutflows(rows), KeyOf)
    ensures Sum(MonthlyOutflows(rows), TotalOf) == SaidasShown(rows)
  {
    var sel := Where(rows, IsOutflow);
    var gs := GroupSums(sel, MonthKeyOf, ValueOf);
    GroupSumsSpec(sel, MonthKeyOf, ValueOf);
    GroupSumsTotal(sel, MonthKeyOf, ValueOf);
    MonthlyCovers(sel);
    AbsTotalsDistinct(gs);
    MetricSigns(rows);
    forall x | x in sel ensures ValueOf(x) < 0 {
      WhereMember(rows, IsOutflow, x);
    }
    forall i | 0 <= i < |gs| ensures gs[i].total <= 0 {
      GroupSumsSigns(sel, MonthKeyOf, ValueOf, gs[i]);
    }
    SumAbsTotals(gs);
  }

  /** There is an outflow bar for a month exactly when the month has an
      outflow row. */
  lemma MonthlyOutflowsKeys(rows: seq<Row>, m: string)
    ensures HasGroup(MonthlyOutflows(rows), m) <==> exists r :: r in rows && IsOutflow(r) && MonthOf(r) == m
  {
    var sel := Where(rows, IsOutflow);
    AbsTotalsKeys(GroupSums(sel, MonthKeyOf, ValueOf), m);
    GroupSumsHas(sel, MonthKeyOf, ValueOf, m);
    if exists x :: x in sel && MonthKeyOf(x) == Some(m) {
      var x :| x in sel && MonthKeyOf(x) == Some(m);
      WhereMember(rows, IsOutflow, x);
    }
    if exists r :: r in rows && IsOutflow(r) && MonthOf(r) == m {
      var r :| r in rows && IsOutflow(r) && MonthOf(r) == m;
      WhereMember(rows, IsOutflow, r);
      assert r in sel && MonthKeyOf(r) == Some(m);
    }
  }

  /** Each outflow bar is the magnitude of the sum of its month's outflow
      rows, and is positive. */
  lemma MonthlyOutflowsTotal(rows: seq<Row>, g: Group)
    requires g in MonthlyOutflows(rows)
    ensures g.total == -Sum(Where(rows, OutflowOfMonth(g.key)), ValueOf)
    ensures g.total > 0
  {
    var sel := Where(rows, IsOutflow);
    var gs := GroupSums(sel, MonthKeyOf, ValueOf);
    AbsTotalsOrigin(gs, g);
    var h :| h in gs && h.key == g.key && g.total == Abs(h.total);
    GroupSumsSpec(sel, MonthKeyOf, ValueOf);
    forall x ensures OutflowOfMonth(g.key)(x) == (IsOutflow(x) && KeyIs(MonthKeyOf, g.key)(x)) { }
    WhereWhere(rows, IsOutflow, KeyIs(MonthKeyOf, g.key), OutflowOfMonth(g.key));
    forall x | x in sel ensures ValueOf(x) < 0 {
      WhereMember(rows, IsOutflow, x);
    }
    GroupSumsSigns(sel, MonthKeyOf, ValueOf, h);
  }

  // ------------------------------------------------------------------
  // Revenue against the DAS tax
  // ------------------------------------------------------------------

  const RevenueML := "Receita Vendas ML"
  const RevenueSH := "Receita Vendas SH"

  /** `ContaContabil.isin(['Receita Vendas ML', 'Receita Vendas SH'])`. */
  predicate IsRevenue(r: Row) { r.account == Some(RevenueML) || r.account == Some(RevenueSH) }

  predicate IsDas(r: Row) { r.account == Some(DasAccount) }

  /** One line of the merged frame: a month, its Receitas and its Impostos. */
  datatype Comparison = Comparison(month: string, receitas: int, impostos: int)

  function MonthOfComparison(c: Comparison): string { c.month }

  predicate HasMonth(cs: seq<Comparison>, m: string) { exists c :: c in cs && c.month == m }

  /** The sum a group-by result holds for key `k`; 0 when it has no such
      group, as `fillna(0)` gives after the outer merge. */
  function TotalFor(gs: seq<Group>, k: string): int
  {
    if gs == [] then 0 else if gs[0].key == k then gs[0].total else TotalFor(gs[1..], k)
  }

  lemma {:induction false} TotalForFound(gs: seq<Group>, k: string)
    requires HasGroup(gs, k)
    ensures exists g :: g in gs && g.key == k && TotalFor(gs, k) == g.total
  {
    if gs[0].key != k {
      var g :| g in gs && g.key == k;
      assert g in gs[1..];
      TotalForFound(gs[1..], k);
      var h :| h in gs[1..] && h.key == k && TotalFor(gs[1..], k) == h.total;
      assert h in gs;
    } else {
      assert gs[0] in gs;
    }
  }

  lemma {:induction false} TotalForMissing(gs: seq<Group>, k: string)
    requires !HasGroup(gs, k)
    ensures TotalFor(gs, k) == 0
  {
    if gs != [] {
      assert gs[0] in gs;
      assert forall g :: g in gs[1..] ==> g in gs;
      TotalForMissing(gs[1..], k);
    }
  }

  /** The sum a group-by holds for a key is that key's sum over the rows,
      including 0 for a key no row has. */
  lemma TotalForGroupSums(s: seq<Row>, key: Row -> Option<string>, v: Row -> int, k: string)
    ensures TotalFor(GroupSums(s, key, v), k) == KeySum(s, key, k, v)
  {
    var gs := GroupSums(s, key, v);
    GroupSumsSpec(s, key, v);
    if exists x :: x in s && key(x) == Some(k) {
      TotalForFound(gs, k);
    } else {
      TotalForMissing(gs, k);
      KeySumAbsent(s, key, k, v);
    }
  }

  /** The lines of the months of the left frame, matched with the right. */
  function MatchLeft(left: seq<Group>, right: seq<Group>): (cs: seq<Comparison>)
    ensures |cs| == |left|
    ensures forall i :: 0 <= i < |left| ==> cs[i] == Comparison(left[i].key, left[i].total, TotalFor(right, left[i].key))
  {
    if left == [] then [] else [Comparison(left[0].key, left[0].total, TotalFor(right, left[0].key))] + MatchLeft(left[1..], right)
  }

  /** The lines of the months only the right frame has, with Receitas 0. */
  function RightOnly(left: seq<Group>, right: seq<Group>): (cs: seq<Comparison>)
    ensures forall c :: c in cs ==> c.receitas == 0 && !HasGroup(left, c.month) && HasGroup(right, c.month)
    ensures forall g :: g in right && !HasGroup(left, g.key) ==> HasMonth(cs, g.key)
  {
    if right == [] then []
    else
      var rest := RightOnly(left, right[1..]);
      assert forall g :: g in right[1..] ==> g in right;
      assert forall g :: g in right ==> g == right[0] || g in right[1..];
      if HasGroup(left, right[0].key) then rest
      else
        var cs := [Comparison(right[0].key, 0, right[0].total)] + rest;
        assert cs[0] in cs;
        assert forall c :: c in rest ==> c in cs;
        cs
  }

  /** `pd.merge(left, right, on='Mês/Ano', how='outer').fillna(0)`. */
  function MergeOuter(left: seq<Group>, right: seq<Group>): seq<Comparison>
  {
    MatchLeft(left, right) + RightOnly(left, right)
  }

  lemma TailKey(gs: seq<Group>, k: string)
    requires gs != [] && DistinctBy(gs, KeyOf) && HasGroup(gs[1..], k)
    ensures k != gs[0].key
  {
    var g :| g in gs[1..] && g.key == k;
    var j :| 0 <= j < |gs[1..]| && gs[1..][j] == g;
    assert gs[j + 1] == g;
  }

  /** With distinct right keys, the right-only lines are distinct and each
      carries the right frame's sum for its month. */
  lemma RightOnlyFacts(left: seq<Group>, right: seq<Group>)
    requires DistinctBy(right, KeyOf)
    ensures DistinctBy(RightOnly(left, right), MonthOfComparison)
    ensures forall c :: c in RightOnly(left, right) ==> c.impostos == TotalFor(right, c.month)
  {
    RightOnlyDistinct(left, right);
    RightOnlyTotals(left, right);
  }

  lemma DistinctTail(right: seq<Group>)
    requires right != [] && DistinctBy(right, KeyOf)
    ensures DistinctBy(right[1..], KeyOf)
  {
    forall i, j | 0 <= i < j < |right[1..]| ensures KeyOf(right[1..][i]) != KeyOf(right[1..][j]) {
      assert right[1..][i] == right[i + 1] && right[1..][j] == right[j + 1];
    }
  }

  lemma {:induction false} RightOnlyDistinct(left: seq<Group>, right: seq<Group>)
    requires DistinctBy(right, KeyOf)
    ensures DistinctBy(RightOnly(left, right), MonthOfComparison)
  {
    if right != [] {
      var rest := RightOnly(left, right[1..]);
      DistinctTail(right);
      RightOnlyDistinct(left, right[1..]);
      if !HasGroup(left, right[0].key) {
        forall c | c in rest ensures c.month != right[0].key {
          TailKey(right, c.month);
        }
        var cs := [Comparison(right[0].key, 0, right[0].total)] + rest;
        forall i, j | 0 <= i < j < |cs| ensures MonthOfComparison(cs[i]) != MonthOfComparison(cs[j]) {
          assert cs[j] == rest[j - 1] && rest[j - 1] in rest;
          if i > 0 { assert cs[i] == rest[i - 1]; }
        }
      }
    }
  }

  lemma {:induction false} RightOnlyTotals(left: seq<Group>, right: seq<Group>)
    requires DistinctBy(right, KeyOf)
    ensures forall c :: c in RightOnly(left, right) ==> c.impostos == TotalFor(right, c.month)
  {
    if right != [] {
      var rest := RightOnly(left, right[1..]);
      DistinctTail(right);
      RightOnlyTotals(left, right[1..]);
      forall c | c in rest ensures c.impostos == TotalFor(right, c.month) {
        TailKey(right, c.month);
        assert TotalFor(right, c.month) == TotalFor(right[1..], c.month);
      }
    }
  }

  /** The months of an outer merge are the union of the two frames' months. */
  lemma MergeOuterMonths(left: seq<Group>, right: seq<Group>, m: string)
    ensures HasMonth(MergeOuter(left, right), m) <==> HasGroup(left, m) || HasGroup(right, m)
  {
    var ml, ro := MatchLeft(left, right), RightOnly(left, right);
    var all := ml + ro;
    if HasGroup(left, m) {
      var g :| g in left && g.key == m;
      var i :| 0 <= i < |left| && left[i] == g;
      assert all[i] == ml[i];
      assert all[i] in all && all[i].month == m;
    } else if HasGroup(right, m) {
      var g :| g in right && g.key == m;
      var c :| c in ro && c.month == g.key;
      assert c in all;
    }
    if HasMonth(all, m) {
      var c :| c in all && c.month == m;
      if c in ml {
        var i :| 0 <= i < |ml| && ml[i] == c;
        assert left[i] in left;
      }
    }
  }

  /** An outer merge of two frames with distinct months has distinct months. */
  lemma MergeOuterDistinct(left: seq<Group>, right: seq<Group>)
    requires DistinctBy(left, KeyOf) && DistinctBy(right, KeyOf)
    ensures DistinctBy(MergeOuter(left, right), MonthOfComparison)
  {
    MatchLeftDistinct(left, right);
    RightOnlyDistinct(left, right);
    MatchedNotRightOnly(left, right);
    DistinctByConcat(MatchLeft(left, right), RightOnly(left, right), MonthOfComparison);
  }

  lemma MatchLeftDistinct(left: seq<Group>, right: seq<Group>)
    requires DistinctBy(left, KeyOf)
    ensures DistinctBy(MatchLeft(left, right), MonthOfComparison)
  {
    var ml := MatchLeft(left, right);
    forall i, j | 0 <= i < j < |ml| ensures MonthOfComparison(ml[i]) != MonthOfComparison(ml[j]) {
      assert ml[i].month == left[i].key && ml[j].month == left[j].key;
    }
  }

  /** A month of the left frame never reappears among the right-only lines. */
  lemma MatchedNotRightOnly(left: seq<Group>, right: seq<Group>)
    ensures forall x, y :: x in MatchLeft(left, right) && y in RightOnly(left, right) ==> MonthOfComparison(x) != MonthOfComparison(y)
  {
    var ml := MatchLeft(left, right);
    forall x, y | x in ml && y in RightOnly(left, right) ensures MonthOfComparison(x) != MonthOfComparison(y) {
      var i :| 0 <= i < |ml| && ml[i] == x;
      assert x.month == left[i].key && left[i] in left;
    }
  }

  /** The revenue-versus-DAS frame. */
  function RevenueVsTaxes(rows: seq<Row>): seq<Comparison>
  {
    MergeOuter(GroupSums(Where(rows, IsRevenue), MonthKeyOf, ValueOf),
               GroupSums(Where(rows, IsDas), MonthKeyOf, AbsValueOf))
  }

  /** The mask of the revenue rows of month `m`. */
  function RevenueOfMonth(m: string): Row -> bool
  {
    (r: Row) => IsRevenue(r) && MonthOf(r) == m
  }

  /** The mask of the DAS rows of month `m`. */
  function DasOfMonth(m: string): Row -> bool
  {
    (r: Row) => IsDas(r) && MonthOf(r) == m
  }

  /** Receitas of month `m`: the summed amounts of its revenue rows. */
  function MonthRevenue(rows: seq<Row>, m: string): int
  {
    Sum(Where(rows, RevenueOfMonth(m)), ValueOf)
  }

  /** Impostos of month `m`: the summed absolute amounts of its DAS rows. */
  function MonthDas(rows: seq<Row>, m: string): int
  {
    Sum(Where(rows, DasOfMonth(m)), AbsValueOf)
  }

  lemma RevenueMonthSum(rows: seq<Row>, m: string)
    ensures TotalFor(GroupSums(Where(rows, IsRevenue), MonthKeyOf, ValueOf), m) == MonthRevenue(rows, m)
  {
    TotalForGroupSums(Where(rows, IsRevenue), MonthKeyOf, ValueOf, m);
    forall x ensures RevenueOfMonth(m)(x) == (IsRevenue(x) && KeyIs(MonthKeyOf, m)(x)) {
      assert KeyIs(MonthKeyOf, m)(x) == (MonthKeyOf(x) == Some(m));
    }
    WhereWhere(rows, IsRevenue, KeyIs(MonthKeyOf, m), RevenueOfMonth(m));
  }

  lemma DasMonthSum(rows: seq<Row>, m: string)
    ensures TotalFor(GroupSums(Where(rows, IsDas), MonthKeyOf, AbsValueOf), m) == MonthDas(rows, m)
    ensures MonthDas(rows, m) >= 0
  {
    TotalForGroupSums(Where(rows, IsDas), MonthKeyOf, AbsValueOf, m);
    forall x ensures DasOfMonth(m)(x) == (IsDas(x) && KeyIs(MonthKeyOf, m)(x)) {
      assert KeyIs(MonthKeyOf, m)(x) == (MonthKeyOf(x) == Some(m));
    }
    WhereWhere(rows, IsDas, KeyIs(MonthKeyOf, m), DasOfMonth(m));
    SumNonNegative(Where(rows, DasOfMonth(m)), AbsValueOf);
  }

  lemma LeftLine(left: seq<Group>, right: seq<Group>, c: Comparison)
    requires c in MatchLeft(left, right)
    ensures c.impostos == TotalFor(right, c.month)
    ensures exists g :: g in left && g.key == c.month && c.receitas == g.total
  {
    var i :| 0 <= i < |left| && MatchLeft(left, right)[i] == c;
    assert left[i] in left;
  }

  /** A line of a month the revenue side has. */
  lemma MatchedLineValues(rows: seq<Row>, c: Comparison)
    requires c in MatchLeft(GroupSums(Where(rows, IsRevenue), MonthKeyOf, ValueOf), GroupSums(Where(rows, IsDas), MonthKeyOf, AbsValueOf))
    ensures c.receitas == MonthRevenue(rows, c.month)
    ensures c.impostos == MonthDas(rows, c.month)
  {
    var left := GroupSums(Where(rows, IsRevenue), MonthKeyOf, ValueOf);
    var right := GroupSums(Where(rows, IsDas), MonthKeyOf, AbsValueOf);
    LeftLine(left, right, c);
    GroupSumsSpec(Where(rows, IsRevenue), MonthKeyOf, ValueOf);
    TotalForFound(left, c.month);
    RevenueMonthSum(rows, c.month);
    DasMonthSum(rows, c.month);
  }

  /** A line of a month only the DAS side has. */
  lemma UnmatchedLineValues(rows: seq<Row>, c: Comparison)
    requires c in RightOnly(GroupSums(Where(rows, IsRevenue), MonthKeyOf, ValueOf), GroupSums(Where(rows, IsDas), MonthKeyOf, AbsValueOf))
    ensures c.receitas == MonthRevenue(rows, c.month)
    ensures c.impostos == MonthDas(rows, c.month)
  {
    var left := GroupSums(Where(rows, IsRevenue), MonthKeyOf, ValueOf);
    var right := GroupSums(Where(rows, IsDas), MonthKeyOf, AbsValueOf);
    GroupSumsSpec(Where(rows, IsDas), MonthKeyOf, AbsValueOf);
    RightOnlyFacts(left, right);
    TotalForMissing(left, c.month);
    RevenueMonthSum(rows, c.month);
    DasMonthSum(rows, c.month);
  }

  /** Each line of the merged frame carries, for its month, the revenue sum
      and the DAS sum of absolute values; either is 0 when that side has no
      rows in the month, and Impostos is never negative. */
  lemma RevenueVsTaxesValues(rows: seq<Row>, c: Comparison)
    requires c in RevenueVsTaxes(rows)
    ensures c.receitas == MonthRevenue(rows, c.month)
    ensures c.impostos == MonthDas(rows, c.month)
    ensures c.impostos >= 0
  {
    var left := GroupSums(Where(rows, IsRevenue), MonthKeyOf, ValueOf);
    var right := GroupSums(Where(rows, IsDas), MonthKeyOf, AbsValueOf);
    if c in MatchLeft(left, right) {
      MatchedLineValues(rows, c);
    } else {
      UnmatchedLineValues(rows, c);
    }
    DasMonthSum(rows, c.month);
  }

  /** The merged frame has one line per month, and its months are those
      with a revenue row or a DAS row. */
  lemma RevenueVsTaxesMonths(rows: seq<Row>, m: string)
    ensures HasMonth(RevenueVsTaxes(rows), m) <==> exists r :: r in rows && (IsRevenue(r) || IsDas(r)) && MonthOf(r) == m
    ensures DistinctBy(RevenueVsTaxes(rows), MonthOfComparison)
  {
    var rev, das := Where(rows, IsRevenue), Where(rows, IsDas);
    var left, right := GroupSums(rev, MonthKeyOf, ValueOf), GroupSums(das, MonthKeyOf, AbsValueOf);
    GroupSumsSpec(rev, MonthKeyOf, ValueOf);
    GroupSumsSpec(das, MonthKeyOf, AbsValueOf);
    MergeOuterMonths(left, right, m);
    MergeOuterDistinct(left, right);
    GroupSumsHas(rev, MonthKeyOf, ValueOf, m);
    GroupSumsHas(das, MonthKeyOf, AbsValueOf, m);
    if exists x :: x in rev && MonthKeyOf(x) == Some(m) {
      var x :| x in rev && MonthKeyOf(x) == Some(m);
      WhereMember(rows, IsRevenue, x);
    }
    if exists x :: x in das && MonthKeyOf(x) == Some(m) {
      var x :| x in das && MonthKeyOf(x) == Some(m);
      WhereMember(rows, IsDas, x);
    }
    if exists r :: r in rows && (IsRevenue(r) || IsDas(r)) && MonthOf(r) == m {
      var r :| r in rows && (IsRevenue(r) || IsDas(r)) && MonthOf(r) == m;
      WhereMember(rows, IsRevenue, r);
      WhereMember(rows, IsDas, r);
      assert MonthKeyOf(r) == Some(m);
    }
  }
}
