/** The ledger table of the accounting dashboard after its two retyping steps
    (`Data` parsed as a timestamp with day-first order, `Valor` parsed as a
    number), and the "Mês/Ano" month key derived from `Data`.

    Parsing itself is done by the table library and is not modelled: a row
    holds the parsed values, `None` where the parser produced NaT or NaN. */
module Ledger {
  import opened Tables

  /** The years a pandas timestamp can hold (nanosecond resolution). */
  type Year = y: int | 1677 <= y <= 2262 witness 2000
  type MonthNumber = m: int | 1 <= m <= 12 witness 1
  type DayNumber = d: int | 1 <= d <= 31 witness 1
  type SecondOfDay = s: int | 0 <= s < 86400 witness 0

  /** A parsed `Data` value: a calendar day and a time of day. */
  datatype Timestamp = Timestamp(year: Year, month: MonthNumber, day: DayNumber, second: SecondOfDay)

  /** A day picked in the date widget. */
  datatype CalendarDate = CalendarDate(year: Year, month: MonthNumber, day: DayNumber)

  /** `pd.to_datetime(date)`: a picked day becomes the timestamp of its midnight. */
  function Midnight(d: CalendarDate): Timestamp
  {
    Timestamp(d.year, d.month, d.day, 0)
  }

  /** The day a timestamp falls on. */
  function DayOf(t: Timestamp): CalendarDate
  {
    CalendarDate(t.year, t.month, t.day)
  }

  /** Chronological order of timestamps: `a <= b`. */
  predicate NotAfter(a: Timestamp, b: Timestamp)
  {
    a.year < b.year
    || (a.year == b.year && a.month < b.month)
    || (a.year == b.year && a.month == b.month && a.day < b.day)
    || (a.year == b.year && a.month == b.month && a.day == b.day && a.second <= b.second)
  }

  lemma NotAfterTotal(a: Timestamp, b: Timestamp)
    ensures NotAfter(a, b) || NotAfter(b, a)
    ensures NotAfter(a, b) && NotAfter(b, a) ==> a == b
  {
  }

  lemma NotAfterTransitive(a: Timestamp, b: Timestamp, c: Timestamp)
    requires NotAfter(a, b) && NotAfter(b, c)
    ensures NotAfter(a, c)
  {
  }

  /** One ledger entry after retyping. `account` is `ContaContabil`, `group`
      is `GrupoDeConta`; `valor` is the amount in cents, positive for an
      inflow and negative for an outflow. */
  datatype Row = Row(date: Option<Timestamp>, valor: Option<int>, account: Option<string>, group: Option<string>)

  /** The uploaded table: its rows, and whether it has a `GrupoDeConta` column. */
  datatype Table = Table(hasGroupColumn: bool, rows: seq<Row>)

  /** The amount a row adds to a column sum: pandas' `sum` skips NaN. */
  function ValueOf(r: Row): int
  {
    if r.valor.Some? then r.valor.value else 0
  }

  /** The per-row absolute value of the amount (NaN stays NaN and is skipped). */
  function AbsValueOf(r: Row): int
  {
    Abs(ValueOf(r))
  }

  function Abs(x: int): int { if x < 0 then -x else x }

  function AccountOf(r: Row): Option<string> { r.account }

  predicate HasValue(r: Row) { r.valor.Some? }

  // ------------------------------------------------------------------
  // The "Mês/Ano" column: df['Data'].dt.to_period('M').astype(str)
  // ------------------------------------------------------------------

  function DigitChar(d: int): char
    requires 0 <= d <= 9
  {
    (48 + d) as char
  }

  predicate IsDigit(c: char) { '0' <= c <= '9' }

  function DigitValue(c: char): int { c as int - 48 }

  /** The "YYYY-MM" text of a monthly period. */
  function MonthKey(t: Timestamp): (k: string)
    ensures |k| == 7 && k[4] == '-'
    ensures forall i :: 0 <= i < 7 && i != 4 ==> IsDigit(k[i])
  {
    var y1 := t.year / 10;
    var y2 := y1 / 10;
    [DigitChar(y2 / 10), DigitChar(y2 % 10), DigitChar(y1 % 10), DigitChar(t.year % 10),
     '-', DigitChar(t.month / 10), DigitChar(t.month % 10)]
  }

  /** The text a missing period becomes under `astype(str)`. */
  const MissingMonth := "NaT"

  /** Reads a "YYYY-MM" text back as a (year, month) pair. */
  function ParseMonthKey(k: string): Option<(int, int)>
  {
    if |k| == 7 && k[4] == '-' && forall i :: 0 <= i < 7 && i != 4 ==> IsDigit(k[i]) then
      Some((((DigitValue(k[0]) * 10 + DigitValue(k[1])) * 10 + DigitValue(k[2])) * 10 + DigitValue(k[3]),
            DigitValue(k[5]) * 10 + DigitValue(k[6])))
    else None
  }

  /** The month key names the year and month of its timestamp. */
  lemma MonthKeyRoundTrip(t: Timestamp)
    ensures ParseMonthKey(MonthKey(t)) == Some((t.year, t.month))
  {
    var y1 := t.year / 10;
    var y2 := y1 / 10;
    assert t.year == y1 * 10 + t.year % 10;
    assert y1 == y2 * 10 + y1 % 10;
    assert y2 == (y2 / 10) * 10 + y2 % 10;
    assert t.month == (t.month / 10) * 10 + t.month % 10;
  }

  /** Two rows fall in the same "Mês/Ano" group exactly when their dates share
      year and month; a key is never the text of a missing date. */
  lemma MonthKeyInjective(a: Timestamp, b: Timestamp)
    ensures MonthKey(a) == MonthKey(b) <==> a.year == b.year && a.month == b.month
    ensures MonthKey(a) != MissingMonth
  {
    MonthKeyRoundTrip(a);
    MonthKeyRoundTrip(b);
  }

  /** The "Mês/Ano" value of a row; a missing date gives the text "NaT",
      which is a key like any other for `groupby`. */
  function MonthOf(r: Row): string
  {
    if r.date.Some? then MonthKey(r.date.value) else MissingMonth
  }

  /** The month as a group-by key: always present. */
  function MonthKeyOf(r: Row): Option<string> { Some(MonthOf(r)) }
}
