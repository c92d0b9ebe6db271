/** Generic operations on a table held as a sequence of rows, with the
    semantics the dashboard's pandas calls rely on: boolean-mask selection
    (`df[mask]`), column sums, group-by with the rows of a missing key dropped,
    and a descending sort by a numeric column. */
module Tables {

  datatype Option<+T> = None | Some(value: T)

  // ------------------------------------------------------------------
  // Selection: df[mask]
  // ------------------------------------------------------------------

  /** The elements of `s` for which `p` holds, in their original order. */
  function Where<T>(s: seq<T>, p: T -> bool): (r: seq<T>)
    ensures |r| <= |s|
    ensures forall i :: 0 <= i < |r| ==> p(r[i])
  {
    if s == [] then [] else (if p(s[0]) then [s[0]] else []) + Where(s[1..], p)
  }

  /** The mask `key(x) == k`; a missing key never matches. */
  function KeyIs<T>(key: T -> Option<string>, k: string): T -> bool { x => key(x) == Some(k) }

  /** The mask of the rows whose key is present (group-by drops the others). */
  function HasKey<T>(key: T -> Option<string>): T -> bool { x => key(x).Some? }

  /** `a` can be obtained from `b` by deleting elements. */
  ghost predicate IsSubsequence<T>(a: seq<T>, b: seq<T>)
  {
    a == [] || (b != [] && ((a[0] == b[0] && IsSubsequence(a[1..], b[1..])) || IsSubsequence(a, b[1..])))
  }

  lemma {:induction false} WhereMember<T>(s: seq<T>, p: T -> bool, x: T)
    ensures x in Where(s, p) <==> x in s && p(x)
  {
    if s != [] {
      WhereMember(s[1..], p, x);
      assert s == [s[0]] + s[1..];
    }
  }

  /** One step of `Where`, stated for a table written as head and tail. */
  lemma WhereCons<T>(x: T, t: seq<T>, p: T -> bool)
    ensures Where([x] + t, p) == (if p(x) then [x] else []) + Where(t, p)
  {
    assert ([x] + t)[0] == x && ([x] + t)[1..] == t;
  }

  /** `df[mask]` keeps every copy of a row that passes the mask and no copy
      of one that fails it. */
  lemma {:induction false} WhereCount<T>(s: seq<T>, p: T -> bool, x: T)
    ensures multiset(Where(s, p))[x] == if p(x) then multiset(s)[x] else 0
  {
    if s != [] {
      var y, t := s[0], s[1..];
      assert s == [y] + t;
      WhereCount(t, p, x);
      WhereCons(y, t, p);
    }
  }

  lemma {:induction false} WhereIsSubsequence<T>(s: seq<T>, p: T -> bool)
    ensures IsSubsequence(Where(s, p), s)
  {
    if s != [] {
      var x, t := s[0], s[1..];
      assert s == [x] + t;
      WhereIsSubsequence(t, p);
      WhereCons(x, t, p);
      if p(x) {
        var r := [x] + Where(t, p);
        assert r[0] == x && r[1..] == Where(t, p);
      } else {
        assert Where(s, p) == Where(t, p);
      }
    }
  }

  /** A mask that every element passes selects everything. */
  lemma {:induction false} WhereAll<T>(s: seq<T>, p: T -> bool)
    requires forall i :: 0 <= i < |s| ==> p(s[i])
    ensures Where(s, p) == s
  {
    if s != [] {
      WhereAll(s[1..], p);
      assert s == [s[0]] + s[1..];
    }
  }

  /** A mask that no element passes selects nothing. */
  lemma {:induction false} WhereNone<T>(s: seq<T>, p: T -> bool)
    requires forall i :: 0 <= i < |s| ==> !p(s[i])
    ensures Where(s, p) == []
  {
    if s != [] {
      WhereNone(s[1..], p);
    }
  }

  lemma WhereIdempotent<T>(s: seq<T>, p: T -> bool)
    ensures Where(Where(s, p), p) == Where(s, p)
  {
    WhereAll(Where(s, p), p);
  }

  lemma {:induction false} WhereCommute<T>(s: seq<T>, p: T -> bool, q: T -> bool)
    ensures Where(Where(s, p), q) == Where(Where(s, q), p)
  {
    if s != [] {
      var x, t := s[0], s[1..];
      assert s == [x] + t;
      WhereCommute(t, p, q);
      WhereCons(x, t, p);
      WhereCons(x, t, q);
      if p(x) {
        WhereCons(x, Where(t, p), q);
        assert Where(Where(s, p), q) == (if q(x) then [x] else []) + Where(Where(t, p), q);
      } else {
        assert Where(s, p) == Where(t, p);
      }
      if q(x) {
        WhereCons(x, Where(t, q), p);
        assert Where(Where(s, q), p) == (if p(x) then [x] else []) + Where(Where(t, q), p);
      } else {
        assert Where(s, q) == Where(t, q);
      }
    }
  }

  /** Selecting by `p` and then by `q` is selecting by their conjunction. */
  lemma {:induction false} WhereWhere<T>(s: seq<T>, p: T -> bool, q: T -> bool, both: T -> bool)
    requires forall x :: both(x) == (p(x) && q(x))
    ensures Where(Where(s, p), q) == Where(s, both)
  {
    if s != [] {
      var x, t := s[0], s[1..];
      assert s == [x] + t;
      WhereWhere(t, p, q, both);
      WhereCons(x, t, p);
      WhereCons(x, t, both);
      if p(x) {
        WhereCons(x, Where(t, p), q);
      } else {
        assert Where(s, p) == Where(t, p);
      }
    }
  }

  /** Two masks that agree on every element select the same rows. */
  lemma {:induction false} WhereSame<T>(s: seq<T>, p: T -> bool, q: T -> bool)
    requires forall i :: 0 <= i < |s| ==> p(s[i]) == q(s[i])
    ensures Where(s, p) == Where(s, q)
  {
    if s != [] {
      WhereSame(s[1..], p, q);
    }
  }

  lemma {:induction false} WhereConcat<T>(a: seq<T>, b: seq<T>, p: T -> bool)
    ensures Where(a + b, p) == Where(a, p) + Where(b, p)
  {
    if a != [] {
      WhereConcat(a[1..], b, p);
      assert (a + b)[0] == a[0] && (a + b)[1..] == a[1..] + b;
    } else {
      assert a + b == b;
    }
  }

  // ------------------------------------------------------------------
  // Column sums: Series.sum()
  // ------------------------------------------------------------------

  /** The sum of `v` over the rows of `s`; the sum of no rows is 0. */
  function Sum<T>(s: seq<T>, v: T -> int): int
  {
    if s == [] then 0 else v(s[0]) + Sum(s[1..], v)
  }

  lemma SumCons<T>(x: T, t: seq<T>, v: T -> int)
    ensures Sum([x] + t, v) == v(x) + Sum(t, v)
  {
    assert ([x] + t)[0] == x && ([x] + t)[1..] == t;
  }

  lemma {:induction false} SumConcat<T>(a: seq<T>, b: seq<T>, v: T -> int)
    ensures Sum(a + b, v) == Sum(a, v) + Sum(b, v)
  {
    if a != [] {
      SumConcat(a[1..], b, v);
      assert (a + b)[0] == a[0] && (a + b)[1..] == a[1..] + b;
    } else {
      assert a + b == b;
    }
  }

  lemma {:induction false} SumNonNegative<T>(s: seq<T>, v: T -> int)
    requires forall i :: 0 <= i < |s| ==> v(s[i]) >= 0
    ensures Sum(s, v) >= 0
  {
    if s != [] {
      SumNonNegative(s[1..], v);
    }
  }

  lemma {:induction false} SumPositive<T>(s: seq<T>, v: T -> int)
    requires s != []
    requires forall i :: 0 <= i < |s| ==> v(s[i]) > 0
    ensures Sum(s, v) > 0
  {
    SumNonNegative(s[1..], v);
  }

  lemma {:induction false} SumNonPositive<T>(s: seq<T>, v: T -> int)
    requires forall i :: 0 <= i < |s| ==> v(s[i]) <= 0
    ensures Sum(s, v) <= 0
  {
    if s != [] {
      SumNonPositive(s[1..], v);
    }
  }

  lemma {:induction false} SumNegative<T>(s: seq<T>, v: T -> int)
    requires s != []
    requires forall i :: 0 <= i < |s| ==> v(s[i]) < 0
    ensures Sum(s, v) < 0
  {
    SumNonPositive(s[1..], v);
  }

  // ------------------------------------------------------------------
  // Group-by: df.groupby(key)[col].sum()
  // ------------------------------------------------------------------

  predicate Distinct(ks: seq<string>)
  {
    forall i, j :: 0 <= i < j < |ks| ==> ks[i] != ks[j]
  }

  /** The elements of `s` have pairwise different `f`-labels. */
  predicate DistinctBy<T>(s: seq<T>, f: T -> string)
  {
    forall i, j :: 0 <= i < j < |s| ==> f(s[i]) != f(s[j])
  }

  /** Two lists with distinct keys and no key in common concatenate to a
      list with distinct keys. */
  lemma DistinctByConcat<T>(a: seq<T>, b: seq<T>, f: T -> string)
    requires DistinctBy(a, f) && DistinctBy(b, f)
    requires forall x, y :: x in a && y in b ==> f(x) != f(y)
    ensures DistinctBy(a + b, f)
  {
    var c := a + b;
    forall i, j | 0 <= i < j < |c| ensures f(c[i]) != f(c[j]) {
      if j < |a| {
        assert c[i] == a[i] && c[j] == a[j];
      } else if i < |a| {
        assert c[i] == a[i] && a[i] in a;
        assert c[j] == b[j - |a|] && b[j - |a|] in b;
      } else {
        assert c[i] == b[i - |a|] && c[j] == b[j - |a|];
      }
    }
  }

  /** The distinct present keys of `s`: the index of a group-by. */
  function Keys<T>(s: seq<T>, key: T -> Option<string>): (ks: seq<string>)
    ensures Distinct(ks)
    ensures forall k :: k in ks <==> exists x :: x in s && key(x) == Some(k)
  {
    if s == [] then []
    else
      var ks := Keys(s[1..], key);
      assert s == [s[0]] + s[1..];
      match key(s[0])
      case Some(k) => if k in ks then ks else [k] + ks
      case None => ks
  }

  /** The sum of `v` over the rows whose key is `k`. */
  function KeySum<T>(s: seq<T>, key: T -> Option<string>, k: string, v: T -> int): int
  {
    Sum(Where(s, KeyIs(key, k)), v)
  }

  /** A key that no row carries sums to 0. */
  lemma KeySumAbsent<T>(s: seq<T>, key: T -> Option<string>, k: string, v: T -> int)
    requires forall x :: x in s ==> key(x) != Some(k)
    ensures KeySum(s, key, k, v) == 0
  {
    WhereNone(s, KeyIs(key, k));
  }

  lemma KeySumCons<T>(x: T, t: seq<T>, key: T -> Option<string>, k: string, v: T -> int)
    ensures KeySum([x] + t, key, k, v) == (if key(x) == Some(k) then v(x) else 0) + KeySum(t, key, k, v)
  {
    WhereCons(x, t, KeyIs(key, k));
    assert KeyIs(key, k)(x) == (key(x) == Some(k));
    if key(x) == Some(k) {
      SumCons(x, Where(t, KeyIs(key, k)), v);
    } else {
      assert Where([x] + t, KeyIs(key, k)) == Where(t, KeyIs(key, k));
    }
  }

  /** One aggregated group: a key and the sum of its rows. */
  datatype Group = Group(key: string, total: int)

  function TotalOf(g: Group): int { g.total }
  function KeyOf(g: Group): string { g.key }

  /** One group per key of `ks`, in that order, each with the sum of its rows
      (a key without rows gets 0, as `fillna(0)` gives). */
  function GroupsOf<T>(s: seq<T>, key: T -> Option<string>, ks: seq<string>, v: T -> int): (gs: seq<Group>)
    ensures |gs| == |ks|
    ensures forall j :: 0 <= j < |ks| ==> gs[j] == Group(ks[j], KeySum(s, key, ks[j], v))
  {
    if ks == [] then [] else [Group(ks[0], KeySum(s, key, ks[0], v))] + GroupsOf(s, key, ks[1..], v)
  }

  /** The result of `groupby(key)[col].sum()`: one group per distinct present key. */
  function GroupSums<T>(s: seq<T>, key: T -> Option<string>, v: T -> int): (gs: seq<Group>)
  {
    GroupsOf(s, key, Keys(s, key), v)
  }

  lemma GroupSumsSpec<T>(s: seq<T>, key: T -> Option<string>, v: T -> int)
    ensures DistinctBy(GroupSums(s, key, v), KeyOf)
    ensures forall k :: (exists g :: g in GroupSums(s, key, v) && g.key == k) <==> (exists x :: x in s && key(x) == Some(k))
    ensures forall g :: g in GroupSums(s, key, v) ==> g.total == KeySum(s, key, g.key, v)
  {
    GroupSumsDistinct(s, key, v);
    GroupSumsCover(s, key, v);
    GroupSumsValues(s, key, v);
  }

  lemma GroupSumsDistinct<T>(s: seq<T>, key: T -> Option<string>, v: T -> int)
    ensures DistinctBy(GroupSums(s, key, v), KeyOf)
  {
    var ks := Keys(s, key);
    var gs := GroupSums(s, key, v);
    assert forall j :: 0 <= j < |gs| ==> gs[j].key == ks[j];
  }

  lemma GroupSumsCover<T>(s: seq<T>, key: T -> Option<string>, v: T -> int)
    ensures forall k :: (exists g :: g in GroupSums(s, key, v) && g.key == k) <==> (exists x :: x in s && key(x) == Some(k))
  {
    var gs := GroupSums(s, key, v);
    forall k ensures (exists g :: g in gs && g.key == k) <==> (exists x :: x in s && key(x) == Some(k)) {
      if k in Keys(s, key) {
        KeyHasGroup(s, key, v, k);
      }
      if exists g :: g in gs && g.key == k {
        var g :| g in gs && g.key == k;
        GroupHasKey(s, key, v, g);
      }
    }
  }

  lemma KeyHasGroup<T>(s: seq<T>, key: T -> Option<string>, v: T -> int, k: string)
    requires k in Keys(s, key)
    ensures exists g :: g in GroupSums(s, key, v) && g.key == k
  {
    var ks := Keys(s, key);
    var gs := GroupSums(s, key, v);
    var j :| 0 <= j < |ks| && ks[j] == k;
    assert gs[j] in gs && gs[j].key == k;
  }

  lemma GroupHasKey<T>(s: seq<T>, key: T -> Option<string>, v: T -> int, g: Group)
    requires g in GroupSums(s, key, v)
    ensures g.key in Keys(s, key)
  {
    var ks := Keys(s, key);
    var gs := GroupSums(s, key, v);
    var j :| 0 <= j < |gs| && gs[j] == g;
    assert ks[j] == g.key;
  }

  lemma GroupSumsValues<T>(s: seq<T>, key: T -> Option<string>, v: T -> int)
    ensures forall g :: g in GroupSums(s, key, v) ==> g.total == KeySum(s, key, g.key, v)
  {
    var ks := Keys(s, key);
    var gs := GroupSums(s, key, v);
    forall g | g in gs ensures g.total == KeySum(s, key, g.key, v) {
      var j :| 0 <= j < |gs| && gs[j] == g;
      assert gs[j].key == ks[j];
    }
  }

  lemma {:induction false} SumGroupsOfEmpty<T>(key: T -> Option<string>, ks: seq<string>, v: T -> int)
    ensures Sum(GroupsOf([], key, ks, v), TotalOf) == 0
  {
    if ks != [] {
      SumGroupsOfEmpty(key, ks[1..], v);
    }
  }

  lemma SumGroupsOfStep<T>(s: seq<T>, key: T -> Option<string>, ks: seq<string>, v: T -> int)
    requires ks != []
    ensures Sum(GroupsOf(s, key, ks, v), TotalOf) == KeySum(s, key, ks[0], v) + Sum(GroupsOf(s, key, ks[1..], v), TotalOf)
  {
    assert GroupsOf(s, key, ks, v)[1..] == GroupsOf(s, key, ks[1..], v);
  }

  /** A key of a distinct list is its head or in its tail, never both. */
  lemma DistinctHeadTail(ks: seq<string>, k: string)
    requires ks != [] && Distinct(ks)
    ensures Distinct(ks[1..])
    ensures k in ks <==> k == ks[0] || k in ks[1..]
    ensures k == ks[0] ==> k !in ks[1..]
  {
    assert ks == [ks[0]] + ks[1..];
    assert forall j :: 0 <= j < |ks[1..]| ==> ks[1..][j] == ks[j + 1] && ks[j + 1] != ks[0];
  }

  /** Adding one row in front adds its value to the total of the groups,
      provided its key is one of the (distinct) group keys. */
  lemma {:induction false} SumGroupsOfCons<T>(x: T, t: seq<T>, key: T -> Option<string>, ks: seq<string>, v: T -> int)
    requires Distinct(ks)
    ensures Sum(GroupsOf([x] + t, key, ks, v), TotalOf)
         == Sum(GroupsOf(t, key, ks, v), TotalOf) + (if key(x).Some? && key(x).value in ks then v(x) else 0)
  {
    if ks != [] {
      var k0, rest := ks[0], ks[1..];
      if key(x).Some? {
        DistinctHeadTail(ks, key(x).value);
      } else {
        DistinctHeadTail(ks, k0);
      }
      SumGroupsOfCons(x, t, key, rest, v);
      KeySumCons(x, t, key, k0, v);
      SumGroupsOfStep([x] + t, key, ks, v);
      SumGroupsOfStep(t, key, ks, v);
    }
  }

  /** Summing the per-key groups gives the sum over every row whose key is
      present, when the keys cover the table and are distinct. */
  lemma {:induction false} GroupsOfPartition<T>(s: seq<T>, key: T -> Option<string>, ks: seq<string>, v: T -> int)
    requires Distinct(ks)
    requires forall x :: x in s && key(x).Some? ==> key(x).value in ks
    ensures Sum(GroupsOf(s, key, ks, v), TotalOf) == Sum(Where(s, HasKey(key)), v)
  {
    if s == [] {
      SumGroupsOfEmpty(key, ks, v);
    } else {
      var x, t := s[0], s[1..];
      assert s == [x] + t;
      GroupsOfPartition(t, key, ks, v);
      SumGroupsOfCons(x, t, key, ks, v);
      WhereCons(x, t, HasKey(key));
      assert HasKey(key)(x) == key(x).Some?;
      assert x in s;
      if key(x).Some? {
        assert key(x).value in ks;
        assert Where(s, HasKey(key)) == [x] + Where(t, HasKey(key));
        SumCons(x, Where(t, HasKey(key)), v);
        assert Sum(GroupsOf(s, key, ks, v), TotalOf) == Sum(GroupsOf(t, key, ks, v), TotalOf) + v(x);
      } else {
        assert Where(s, HasKey(key)) == Where(t, HasKey(key));
      }
    }
  }

  /** The group-by has a group for key `k`. */
  predicate HasGroup(gs: seq<Group>, k: string) { exists g :: g in gs && g.key == k }

  /** A group-by has a group for exactly the keys some row carries. */
  lemma GroupSumsHas<T>(s: seq<T>, key: T -> Option<string>, v: T -> int, k: string)
    ensures HasGroup(GroupSums(s, key, v), k) <==> exists x :: x in s && key(x) == Some(k)
  {
    GroupSumsSpec(s, key, v);
  }

  /** A group's sum has the sign every summed value has. */
  lemma GroupSumsSigns<T>(s: seq<T>, key: T -> Option<string>, v: T -> int, g: Group)
    requires g in GroupSums(s, key, v)
    ensures (forall x :: x in s ==> v(x) > 0) ==> g.total > 0
    ensures (forall x :: x in s ==> v(x) < 0) ==> g.total < 0
  {
    GroupSumsSpec(s, key, v);
    assert HasGroup(GroupSums(s, key, v), g.key);
    var x :| x in s && key(x) == Some(g.key);
    var sel := Where(s, KeyIs(key, g.key));
    WhereMember(s, KeyIs(key, g.key), x);
    forall i | 0 <= i < |sel| ensures sel[i] in s {
      WhereMember(s, KeyIs(key, g.key), sel[i]);
    }
    if forall y :: y in s ==> v(y) > 0 {
      SumPositive(sel, v);
    }
    if forall y :: y in s ==> v(y) < 0 {
      SumNegative(sel, v);
    }
  }

  /** The groups of a group-by add up to the sum over the rows it keeps. */
  lemma GroupSumsTotal<T>(s: seq<T>, key: T -> Option<string>, v: T -> int)
    ensures Sum(GroupSums(s, key, v), TotalOf) == Sum(Where(s, HasKey(key)), v)
  {
    GroupsOfPartition(s, key, Keys(s, key), v);
  }

  // ------------------------------------------------------------------
  // Descending sort: sort_values(ascending=False), nlargest
  // ------------------------------------------------------------------

  predicate SortedDesc<T>(s: seq<T>, key: T -> int)
  {
    forall i, j :: 0 <= i < j < |s| ==> key(s[i]) >= key(s[j])
  }

  function Insert<T>(x: T, s: seq<T>, key: T -> int): (r: seq<T>)
    ensures multiset(r) == multiset(s) + multiset{x}
  {
    if s == [] || key(x) >= key(s[0]) then [x] + s
    else
      assert s == [s[0]] + s[1..];
      [s[0]] + Insert(x, s[1..], key)
  }

  /** Inserting an element no larger than a bound into a sequence whose
      elements are all within the bound keeps them all within it. */
  lemma {:induction false} InsertBounded<T>(x: T, s: seq<T>, key: T -> int, b: int)
    requires key(x) <= b
    requires forall i :: 0 <= i < |s| ==> key(s[i]) <= b
    ensures forall i :: 0 <= i < |Insert(x, s, key)| ==> key(Insert(x, s, key)[i]) <= b
  {
    if s != [] && key(x) < key(s[0]) {
      InsertBounded(x, s[1..], key, b);
    }
  }

  lemma {:induction false} InsertSorted<T>(x: T, s: seq<T>, key: T -> int)
    requires SortedDesc(s, key)
    ensures SortedDesc(Insert(x, s, key), key)
  {
    if s != [] && key(x) < key(s[0]) {
      var r := Insert(x, s[1..], key);
      InsertSorted(x, s[1..], key);
      InsertBounded(x, s[1..], key, key(s[0]));
      assert Insert(x, s, key) == [s[0]] + r;
    }
  }

  /** `s` sorted by non-increasing `key`. Equal keys keep their order. */
  function SortDesc<T>(s: seq<T>, key: T -> int): (r: seq<T>)
    ensures multiset(r) == multiset(s)
    ensures SortedDesc(r, key)
  {
    if s == [] then []
    else
      assert s == [s[0]] + s[1..];
      var rest := SortDesc(s[1..], key);
      InsertSorted(s[0], rest, key);
      Insert(s[0], rest, key)
  }

  lemma SortDescMember<T>(s: seq<T>, key: T -> int, x: T)
    ensures x in SortDesc(s, key) <==> x in s
  {
    assert x in SortDesc(s, key) <==> x in multiset(SortDesc(s, key));
    assert x in s <==> x in multiset(s);
  }

  lemma {:induction false} InsertDistinctBy<T>(x: T, s: seq<T>, key: T -> int, f: T -> string)
    requires DistinctBy(s, f)
    requires forall y :: y in s ==> f(y) != f(x)
    ensures DistinctBy(Insert(x, s, key), f)
  {
    if s != [] && key(x) < key(s[0]) {
      DistinctByHead(s, f);
      InsertDistinctBy(x, s[1..], key, f);
      var r := Insert(x, s[1..], key);
      forall y | y in r ensures f(y) != f(s[0]) {
        assert y in multiset(r);
        assert y == x || y in multiset(s[1..]);
      }
      DistinctByCons(s[0], r, f);
    } else {
      DistinctByCons(x, s, f);
    }
  }

  lemma DistinctByHead<T>(s: seq<T>, f: T -> string)
    requires s != [] && DistinctBy(s, f)
    ensures DistinctBy(s[1..], f)
    ensures forall y :: y in s[1..] ==> f(y) != f(s[0])
  {
    forall y | y in s[1..] ensures f(y) != f(s[0]) {
      var j :| 0 <= j < |s[1..]| && s[1..][j] == y;
      assert s[j + 1] == y;
    }
    forall i, j | 0 <= i < j < |s[1..]| ensures f(s[1..][i]) != f(s[1..][j]) {
      assert s[1..][i] == s[i + 1] && s[1..][j] == s[j + 1];
    }
  }

  lemma DistinctByCons<T>(x: T, t: seq<T>, f: T -> string)
    requires DistinctBy(t, f)
    requires forall y :: y in t ==> f(y) != f(x)
    ensures DistinctBy([x] + t, f)
  {
    forall i, j | 0 <= i < j < |t| + 1 ensures f(([x] + t)[i]) != f(([x] + t)[j]) {
      assert ([x] + t)[j] == t[j - 1] && t[j - 1] in t;
      if i > 0 { assert ([x] + t)[i] == t[i - 1]; }
    }
  }

  /** Sorting keeps labels that were pairwise different pairwise different. */
  lemma {:induction false} SortDescDistinctBy<T>(s: seq<T>, key: T -> int, f: T -> string)
    requires DistinctBy(s, f)
    ensures DistinctBy(SortDesc(s, key), f)
  {
    if s != [] {
      var x, t := s[0], s[1..];
      assert s == [x] + t;
      SortDescDistinctBy(t, key, f);
      forall y | y in SortDesc(t, key) ensures f(y) != f(x) {
        SortDescMember(t, key, y);
        var j :| 0 <= j < |t| && t[j] == y;
        assert s[j + 1] == y;
      }
      InsertDistinctBy(x, SortDesc(t, key), key, f);
    }
  }

  function Min(a: int, b: int): int { if a <= b then a else b }

  /** The first `n` elements after a descending sort: `nlargest(n, col)`. */
  function Largest<T>(s: seq<T>, n: nat, key: T -> int): seq<T>
  {
    SortDescLength(s, key);
    SortDesc(s, key)[..Min(n, |s|)]
  }

  lemma SortDescLength<T>(s: seq<T>, key: T -> int)
    ensures |SortDesc(s, key)| == |s|
  {
    assert |multiset(SortDesc(s, key))| == |multiset(s)|;
  }

  /** `nlargest` keeps min(n, |s|) elements of `s`, in non-increasing order,
      and none it leaves out is larger than one it keeps. */
  lemma LargestSpec<T>(s: seq<T>, n: nat, key: T -> int)
    ensures |Largest(s, n, key)| == Min(n, |s|)
    ensures SortedDesc(Largest(s, n, key), key)
    ensures forall x :: x in Largest(s, n, key) ==> x in s
    ensures multiset(Largest(s, n, key)) <= multiset(s)
    ensures forall x, y :: x in Largest(s, n, key) && y in s && y !in Largest(s, n, key) ==> key(x) >= key(y)
  {
    LargestShape(s, n, key);
    LargestSubMultiset(s, n, key);
    var r := Largest(s, n, key);
    forall x | x in r ensures x in s {
      assert multiset(r)[x] > 0;
    }
    forall x, y | x in r && y in s && y !in r ensures key(x) >= key(y) {
      LargestDominates(s, n, key, x, y);
    }
  }

  lemma LargestShape<T>(s: seq<T>, n: nat, key: T -> int)
    ensures |Largest(s, n, key)| == Min(n, |s|)
    ensures SortedDesc(Largest(s, n, key), key)
  {
    SortDescLength(s, key);
  }

  lemma LargestSubMultiset<T>(s: seq<T>, n: nat, key: T -> int)
    ensures multiset(Largest(s, n, key)) <= multiset(s)
  {
    var sorted := SortDesc(s, key);
    SortDescLength(s, key);
    var k := Min(n, |s|);
    assert Largest(s, n, key) == sorted[..k];
    PrefixSubMultiset(sorted, k);
  }

  lemma PrefixSubMultiset<T>(s: seq<T>, k: nat)
    requires k <= |s|
    ensures multiset(s[..k]) <= multiset(s)
  {
    assert s == s[..k] + s[k..];
  }

  lemma LargestDominates<T>(s: seq<T>, n: nat, key: T -> int, x: T, y: T)
    requires x in Largest(s, n, key) && y in s && y !in Largest(s, n, key)
    ensures key(x) >= key(y)
  {
    var sorted := SortDesc(s, key);
    SortDescLength(s, key);
    var r := Largest(s, n, key);
    SortDescMember(s, key, y);
    var i :| 0 <= i < |r| && r[i] == x;
    var j :| 0 <= j < |sorted| && sorted[j] == y;
    assert forall k :: 0 <= k < |r| ==> r[k] == sorted[k] && r[k] in r;
    assert j >= |r|;
    assert sorted[i] == x;
  }
}
