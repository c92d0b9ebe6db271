/** The sidebar filter chain of the dashboard: an inclusive date range, the
    account-group selection with its "Todos" sentinel, and a case-insensitive
    search on the account name. Each step rebinds the table to a boolean-mask
    selection of itself, so each is modelled as a function from rows to rows. */
module Filters {
  import opened Tables
  import opened Ledger

  /** A filter step: when `active`, keep the rows passing `mask`; otherwise
      leave the table as it is. */
  function Masked(rows: seq<Row>, active: bool, mask: Row -> bool): seq<Row>
  {
    if active then Where(rows, mask) else rows
  }

  lemma MaskedSpec(rows: seq<Row>, active: bool, mask: Row -> bool)
    ensures IsSubsequence(Masked(rows, active, mask), rows)
    ensures forall r :: r in Masked(rows, active, mask) <==> r in rows && (!active || mask(r))
    ensures !active ==> Masked(rows, active, mask) == rows
    ensures forall r :: multiset(Masked(rows, active, mask))[r] == (if !active || mask(r) then multiset(rows)[r] else 0)
  {
    if active {
      WhereIsSubsequence(rows, mask);
      forall r ensures r in Where(rows, mask) <==> r in rows && mask(r) {
        WhereMember(rows, mask, r);
      }
      forall r ensures multiset(Where(rows, mask))[r] == (if mask(r) then multiset(rows)[r] else 0) {
        WhereCount(rows, mask, r);
      }
    } else {
      SubsequenceOfItself(rows);
    }
  }

  lemma MaskedCount(rows: seq<Row>, active: bool, mask: Row -> bool, r: Row)
    ensures multiset(Masked(rows, active, mask))[r] == (if !active || mask(r) then multiset(rows)[r] else 0)
  {
    if active {
      WhereCount(rows, mask, r);
    }
  }

  lemma {:induction false} SubsequenceOfItself(s: seq<Row>)
    ensures IsSubsequence(s, s)
  {
    if s != [] {
      SubsequenceOfItself(s[1..]);
    }
  }

  lemma MaskedIdempotent(rows: seq<Row>, active: bool, mask: Row -> bool)
    ensures Masked(Masked(rows, active, mask), active, mask) == Masked(rows, active, mask)
  {
    if active {
      WhereIdempotent(rows, mask);
    }
  }

  lemma MaskedCommute(rows: seq<Row>, a: bool, p: Row -> bool, b: bool, q: Row -> bool)
    ensures Masked(Masked(rows, a, p), b, q) == Masked(Masked(rows, b, q), a, p)
  {
    if a && b {
      WhereCommute(rows, p, q);
    }
  }

  // ------------------------------------------------------------------
  // a) Date range (DashboardCMlar.py:128-133)
  // ------------------------------------------------------------------

  /** What the date widget hands back: one day, or a range as a list or as a
      tuple of zero to two days. */
  datatype DatePick = SingleDate(day: CalendarDate) | DateList(days: seq<CalendarDate>) | DateTuple(days: seq<CalendarDate>)

  datatype DateRange = DateRange(start: CalendarDate, end: CalendarDate)

  /** The range the code reads from the widget, as written: only a list of
      exactly two days counts. */
  function RangeAsWritten(pick: DatePick): Option<DateRange>
  {
    if pick.DateList? && |pick.days| == 2 then Some(DateRange(pick.days[0], pick.days[1])) else None
  }

  /** The range the code evidently means: two picked days, whichever
      sequence type carries them. */
  function PickedRange(pick: DatePick): Option<DateRange>
  {
    match pick
    case DateList(days) => if |days| == 2 then Some(DateRange(days[0], days[1])) else None
    case DateTuple(days) => if |days| == 2 then Some(DateRange(days[0], days[1])) else None
    case SingleDate(_) => None
  }

  /** `(Data >= start) & (Data <= end)` with both bounds at midnight; NaT
      fails both comparisons. */
  function InRange(range: DateRange): Row -> bool
  {
    (r: Row) => r.date.Some? && NotAfter(Midnight(range.start), r.date.value) && NotAfter(r.date.value, Midnight(range.end))
  }

  function DateMask(range: Option<DateRange>): Row -> bool
  {
    match range
    case Some(d) => InRange(d)
    case None => (r: Row) => true
  }

  function DateFilter(rows: seq<Row>, range: Option<DateRange>): seq<Row>
  {
    Masked(rows, range.Some?, DateMask(range))
  }

  /** With a range, the date filter keeps exactly the rows dated from midnight
      of the first day to midnight of the last, in order and unchanged; rows
      without a date are dropped. Without a range it keeps everything. */
  lemma DateFilterSpec(rows: seq<Row>, range: Option<DateRange>)
    ensures IsSubsequence(DateFilter(rows, range), rows)
    ensures range.None? ==> DateFilter(rows, range) == rows
    ensures range.Some? ==> forall r :: r in DateFilter(rows, range) <==>
      r in rows && r.date.Some?
      && NotAfter(Midnight(range.value.start), r.date.value)
      && NotAfter(r.date.value, Midnight(range.value.end))
    ensures range.Some? ==>
      forall r :: multiset(DateFilter(rows, range))[r] ==
        (if r.date.Some?
            && NotAfter(Midnight(range.value.start), r.date.value)
            && NotAfter(r.date.value, Midnight(range.value.end))
         then multiset(rows)[r] else 0)
  {
    MaskedSpec(rows, range.Some?, DateMask(range));
  }

  /** The upper bound is midnight of the last day: an entry timed later on
      that day is not kept. */
  lemma EndDayAfterMidnightExcluded(rows: seq<Row>, range: DateRange, r: Row)
    requires r.date.Some? && DayOf(r.date.value) == range.end && r.date.value.second > 0
    ensures r !in DateFilter(rows, Some(range))
  {
    DateFilterSpec(rows, Some(range));
  }

  lemma DateFilterIdempotent(rows: seq<Row>, range: Option<DateRange>)
    ensures DateFilter(DateFilter(rows, range), range) == DateFilter(rows, range)
  {
    MaskedIdempotent(rows, range.Some?, DateMask(range));
  }

  /** The code as written never filters by date when the widget returns its
      range as a tuple: a row dated before the range stays in the table. */
  lemma TupleRangeIgnoredAsWritten(rows: seq<Row>, first: CalendarDate, last: CalendarDate, r: Row)
    requires r in rows && r.date.Some? && !NotAfter(Midnight(first), r.date.value)
    ensures RangeAsWritten(DateTuple([first, last])).None?
    ensures r in DateFilter(rows, RangeAsWritten(DateTuple([first, last])))
  {
  }

  /** With the intended reading, a two-day tuple is a range and drops the
      same row. */
  lemma TupleRangeApplied(rows: seq<Row>, first: CalendarDate, last: CalendarDate, r: Row)
    requires r.date.Some? && !NotAfter(Midnight(first), r.date.value)
    ensures PickedRange(DateTuple([first, last])) == Some(DateRange(first, last))
    ensures r !in DateFilter(rows, PickedRange(DateTuple([first, last])))
  {
    DateFilterSpec(rows, PickedRange(DateTuple([first, last])));
  }

  /** `df['Data'].min()`: the earliest present date, NaT skipped. */
  function Earliest(rows: seq<Row>): (e: Option<Timestamp>)
    ensures e.Some? <==> exists r :: r in rows && r.date.Some?
    ensures e.Some? ==> exists r :: r in rows && r.date == e
    ensures e.Some? ==> forall r :: r in rows && r.date.Some? ==> NotAfter(e.value, r.date.value)
  {
    if rows == [] then None
    else
      assert rows == [rows[0]] + rows[1..];
      var rest := Earliest(rows[1..]);
      if rows[0].date.None? then rest
      else if rest.None? then rows[0].date
      else if NotAfter(rows[0].date.value, rest.value) then
        assert forall r :: r in rows[1..] && r.date.Some? ==> NotAfter(rows[0].date.value, r.date.value) by {
          forall r | r in rows[1..] && r.date.Some? ensures NotAfter(rows[0].date.value, r.date.value) {
            NotAfterTransitive(rows[0].date.value, rest.value, r.date.value);
          }
        }
        rows[0].date
      else
        NotAfterTotal(rows[0].date.value, rest.value);
        rest
  }

  /** `df['Data'].max()`: the latest present date, NaT skipped. */
  function Latest(rows: seq<Row>): (l: Option<Timestamp>)
    ensures l.Some? <==> exists r :: r in rows && r.date.Some?
    ensures l.Some? ==> exists r :: r in rows && r.date == l
    ensures l.Some? ==> forall r :: r in rows && r.date.Some? ==> NotAfter(r.date.value, l.value)
  {
    if rows == [] then None
    else
      assert rows == [rows[0]] + rows[1..];
      var rest := Latest(rows[1..]);
      if rows[0].date.None? then rest
      else if rest.None? then rows[0].date
      else if NotAfter(rest.value, rows[0].date.value) then
        assert forall r :: r in rows[1..] && r.date.Some? ==> NotAfter(r.date.value, rows[0].date.value) by {
          forall r | r in rows[1..] && r.date.Some? ensures NotAfter(r.date.value, rows[0].date.value) {
            NotAfterTransitive(r.date.value, rest.value, rows[0].date.value);
          }
        }
        rows[0].date
      else
        NotAfterTotal(rows[0].date.value, rest.value);
        rest
  }

  /** The widget's initial value `[min_date, max_date]`, as days. */
  function DefaultRange(rows: seq<Row>): Option<DateRange>
  {
    var e, l := Earliest(rows), Latest(rows);
    if e.Some? && l.Some? then Some(DateRange(DayOf(e.value), DayOf(l.value))) else None
  }

  function HasDate(r: Row): bool { r.date.Some? }

  /** When every date is a plain day (midnight), the initial range keeps
      exactly the rows whose date parsed. */
  lemma DefaultRangeKeepsDatedRows(rows: seq<Row>)
    requires exists r :: r in rows && r.date.Some?
    requires forall r :: r in rows && r.date.Some? ==> r.date.value.second == 0
    ensures DateFilter(rows, DefaultRange(rows)) == Where(rows, HasDate)
  {
    var range := DefaultRange(rows);
    var e, l := Earliest(rows), Latest(rows);
    assert Midnight(range.value.start) == e.value;
    assert Midnight(range.value.end) == l.value;
    forall i | 0 <= i < |rows| ensures InRange(range.value)(rows[i]) == HasDate(rows[i]) {
      assert rows[i] in rows;
    }
    WhereSame(rows, InRange(range.value), HasDate);
  }

  // ------------------------------------------------------------------
  // b) Account group (DashboardCMlar.py:136-140)
  // ------------------------------------------------------------------

  /** The first option of the group selector, meaning "no group filter". */
  const AllGroups := "Todos"

  /** `df['GrupoDeConta'] == selected`; a missing group never matches. */
  function InGroup(selected: string): Row -> bool
  {
    (r: Row) => r.group == Some(selected)
  }

  function GroupFilter(rows: seq<Row>, hasGroupColumn: bool, selected: string): seq<Row>
  {
    Masked(rows, hasGroupColumn && selected != AllGroups, InGroup(selected))
  }

  /** The group filter leaves the table alone when the column is absent or
      "Todos" is selected, and otherwise keeps exactly the rows of the
      selected group, in order and unchanged. */
  lemma GroupFilterSpec(rows: seq<Row>, hasGroupColumn: bool, selected: string)
    ensures IsSubsequence(GroupFilter(rows, hasGroupColumn, selected), rows)
    ensures !hasGroupColumn || selected == AllGroups ==> GroupFilter(rows, hasGroupColumn, selected) == rows
    ensures hasGroupColumn && selected != AllGroups ==>
      forall r :: r in GroupFilter(rows, hasGroupColumn, selected) <==> r in rows && r.group == Some(selected)
    ensures hasGroupColumn && selected != AllGroups ==>
      forall r :: multiset(GroupFilter(rows, hasGroupColumn, selected))[r] ==
        (if r.group == Some(selected) then multiset(rows)[r] else 0)
  {
    MaskedSpec(rows, hasGroupColumn && selected != AllGroups, InGroup(selected));
  }

  lemma GroupFilterIdempotent(rows: seq<Row>, hasGroupColumn: bool, selected: string)
    ensures GroupFilter(GroupFilter(rows, hasGroupColumn, selected), hasGroupColumn, selected)
         == GroupFilter(rows, hasGroupColumn, selected)
  {
    MaskedIdempotent(rows, hasGroupColumn && selected != AllGroups, InGroup(selected));
  }

  // ------------------------------------------------------------------
  // c) Account-name search (DashboardCMlar.py:143-145)
  // ------------------------------------------------------------------

  /** Simple lower-casing of one character: ASCII and Latin-1 capitals. */
  function LowerChar(c: char): char
  {
    if 'A' <= c <= 'Z' || ('À' <= c <= 'Þ' && c != '×') then (c as int + 32) as char else c
  }

  function Lower(s: string): (r: string)
    ensures |r| == |s|
    ensures forall i :: 0 <= i < |s| ==> r[i] == LowerChar(s[i])
  {
    if s == [] then [] else [LowerChar(s[0])] + Lower(s[1..])
  }

  lemma LowerIdempotent(s: string)
    ensures Lower(Lower(s)) == Lower(s)
  {
  }

  /** `needle` occurs in `hay` as a contiguous piece. */
  predicate Contains(hay: string, needle: string)
  {
    exists i :: 0 <= i <= |hay| && OccursAt(hay, needle, i)
  }

  /** `needle` occurs in `hay` starting at position `i`. */
  predicate OccursAt(hay: string, needle: string, i: int)
  {
    0 <= i && i + |needle| <= |hay| && hay[i..i + |needle|] == needle
  }

  /** `ContaContabil.str.contains(text, case=False, na=False)`, with the text
      taken literally. */
  function AccountMatches(text: string): Row -> bool
  {
    (r: Row) => r.account.Some? && Contains(Lower(r.account.value), Lower(text))
  }

  function AccountFilter(rows: seq<Row>, text: string): seq<Row>
  {
    Masked(rows, text != "", AccountMatches(text))
  }

  /** Empty search text keeps everything; otherwise the rows kept are exactly
      those whose account name contains the text ignoring case, and a row
      without an account name is dropped. */
  lemma AccountFilterSpec(rows: seq<Row>, text: string)
    ensures IsSubsequence(AccountFilter(rows, text), rows)
    ensures text == "" ==> AccountFilter(rows, text) == rows
    ensures text != "" ==> forall r :: r in AccountFilter(rows, text) <==>
      r in rows && r.account.Some? && Contains(Lower(r.account.value), Lower(text))
    ensures text != "" ==>
      forall r :: multiset(AccountFilter(rows, text))[r] ==
        (if r.account.Some? && Contains(Lower(r.account.value), Lower(text)) then multiset(rows)[r] else 0)
  {
    MaskedSpec(rows, text != "", AccountMatches(text));
  }

  lemma AccountFilterIdempotent(rows: seq<Row>, text: string)
    ensures AccountFilter(AccountFilter(rows, text), text) == AccountFilter(rows, text)
  {
    MaskedIdempotent(rows, text != "", AccountMatches(text));
  }

  /** Typing the search text in another case selects the same rows. */
  lemma AccountFilterIgnoresCase(rows: seq<Row>, text: string)
    ensures AccountFilter(rows, Lower(text)) == AccountFilter(rows, text)
  {
    LowerIdempotent(text);
    if text != "" {
      WhereSame(rows, AccountMatches(Lower(text)), AccountMatches(text));
    }
  }

  // ------------------------------------------------------------------
  // The chain (DashboardCMlar.py:131-145)
  // ------------------------------------------------------------------

  /** The table every later view is computed from: the date range, then the
      group, then the account search, applied to the uploaded rows. */
  function ApplyFilters(t: Table, pick: DatePick, selectedGroup: string, text: string): seq<Row>
  {
    AccountFilter(GroupFilter(DateFilter(t.rows, PickedRange(pick)), t.hasGroupColumn, selectedGroup), text)
  }

  lemma DateGroupCommute(rows: seq<Row>, range: Option<DateRange>, hasGroupColumn: bool, selected: string)
    ensures GroupFilter(DateFilter(rows, range), hasGroupColumn, selected)
         == DateFilter(GroupFilter(rows, hasGroupColumn, selected), range)
  {
    MaskedCommute(rows, range.Some?, DateMask(range), hasGroupColumn && selected != AllGroups, InGroup(selected));
  }

  lemma DateAccountCommute(rows: seq<Row>, range: Option<DateRange>, text: string)
    ensures AccountFilter(DateFilter(rows, range), text) == DateFilter(AccountFilter(rows, text), range)
  {
    MaskedCommute(rows, range.Some?, DateMask(range), text != "", AccountMatches(text));
  }

  lemma GroupAccountCommute(rows: seq<Row>, hasGroupColumn: bool, selected: string, text: string)
    ensures AccountFilter(GroupFilter(rows, hasGroupColumn, selected), text)
         == GroupFilter(AccountFilter(rows, text), hasGroupColumn, selected)
  {
    MaskedCommute(rows, hasGroupColumn && selected != AllGroups, InGroup(selected), text != "", AccountMatches(text));
  }

  /** A row passes every active filter of the sidebar. */
  predicate PassesAll(t: Table, pick: DatePick, selectedGroup: string, text: string, r: Row)
  {
    (PickedRange(pick).Some? ==>
       r.date.Some?
       && NotAfter(Midnight(PickedRange(pick).value.start), r.date.value)
       && NotAfter(r.date.value, Midnight(PickedRange(pick).value.end)))
    && (t.hasGroupColumn && selectedGroup != AllGroups ==> r.group == Some(selectedGroup))
    && (text != "" ==> r.account.Some? && Contains(Lower(r.account.value), Lower(text)))
  }

  /** The chain keeps exactly the rows that pass every active filter, every
      copy of them, in their original order and unchanged. */
  lemma ApplyFiltersSpec(t: Table, pick: DatePick, selectedGroup: string, text: string)
    ensures IsSubsequence(ApplyFilters(t, pick, selectedGroup, text), t.rows)
    ensures forall r :: r in ApplyFilters(t, pick, selectedGroup, text) <==>
      r in t.rows && PassesAll(t, pick, selectedGroup, text, r)
    ensures forall r ::
      multiset(ApplyFilters(t, pick, selectedGroup, text))[r] ==
        (if PassesAll(t, pick, selectedGroup, text, r) then multiset(t.rows)[r] else 0)
  {
    var d := DateFilter(t.rows, PickedRange(pick));
    var g := GroupFilter(d, t.hasGroupColumn, selectedGroup);
    var a := ApplyFilters(t, pick, selectedGroup, text);
    forall r ensures multiset(a)[r] == (if PassesAll(t, pick, selectedGroup, text, r) then multiset(t.rows)[r] else 0)
      && (r in a <==> r in t.rows && PassesAll(t, pick, selectedGroup, text, r))
    {
      ApplyFiltersCount(t, pick, selectedGroup, text, r);
    }
    MaskedSpec(t.rows, PickedRange(pick).Some?, DateMask(PickedRange(pick)));
    MaskedSpec(d, t.hasGroupColumn && selectedGroup != AllGroups, InGroup(selectedGroup));
    MaskedSpec(g, text != "", AccountMatches(text));
    SubsequenceTransitive(ApplyFilters(t, pick, selectedGroup, text), g, d);
    SubsequenceTransitive(ApplyFilters(t, pick, selectedGroup, text), d, t.rows);
  }

  /** How many copies of one row the chain keeps. */
  lemma ApplyFiltersCount(t: Table, pick: DatePick, selectedGroup: string, text: string, r: Row)
    ensures multiset(ApplyFilters(t, pick, selectedGroup, text))[r] ==
      (if PassesAll(t, pick, selectedGroup, text, r) then multiset(t.rows)[r] else 0)
  {
    var range := PickedRange(pick);
    var d := DateFilter(t.rows, range);
    var g := GroupFilter(d, t.hasGroupColumn, selectedGroup);
    MaskedCount(t.rows, range.Some?, DateMask(range), r);
    MaskedCount(d, t.hasGroupColumn && selectedGroup != AllGroups, InGroup(selectedGroup), r);
    MaskedCount(g, text != "", AccountMatches(text), r);
  }

  lemma {:induction false} SubsequenceTransitive(a: seq<Row>, b: seq<Row>, c: seq<Row>)
    requires IsSubsequence(a, b) && IsSubsequence(b, c)
    ensures IsSubsequence(a, c)
    decreases |c|
  {
    if a != [] {
      if a[0] == b[0] && IsSubsequence(a[1..], b[1..]) {
        if b[0] == c[0] && IsSubsequence(b[1..], c[1..]) {
          SubsequenceTransitive(a[1..], b[1..], c[1..]);
        } else {
          SubsequenceTransitive(a, b, c[1..]);
        }
      } else {
        if b[0] == c[0] && IsSubsequence(b[1..], c[1..]) {
          SubsequenceTransitive(a, b[1..], c[1..]);
        } else {
          SubsequenceTransitive(a, b, c[1..]);
        }
      }
    }
  }
}
