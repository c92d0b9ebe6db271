/** `formata_valor_brasil`: an amount shown in the Brazilian style, "1.234,56",
    obtained from the English-style `,.2f` text "1,234.56" by three literal
    character replacements: ',' to 'X', '.' to ',', then 'X' to '.'.

    Amounts are whole cents here, so the `,.2f` step is exact; the rounding
    of a binary float to two decimals is not modelled. */
module Format {
  import opened Tables
  import opened Ledger

  // ------------------------------------------------------------------
  // The separator swap
  // ------------------------------------------------------------------

  /** `s.replace(from, to)` for one-character strings. */
  function ReplaceChar(s: string, from: char, to: char): (r: string)
    ensures |r| == |s|
    ensures forall i :: 0 <= i < |s| ==> r[i] == (if s[i] == from then to else s[i])
  {
    if s == [] then [] else [if s[0] == from then to else s[0]] + ReplaceChar(s[1..], from, to)
  }

  /** The three chained replacements of `formata_valor_brasil`. */
  function SwapSeparators(s: string): string
  {
    ReplaceChar(ReplaceChar(ReplaceChar(s, ',', 'X'), '.', ','), 'X', '.')
  }

  /** What the chain does to one character: the separators trade places,
      and a literal 'X' of the input also comes out as '.'. */
  function Swapped(c: char): char
  {
    if c == ',' then '.' else if c == '.' then ',' else if c == 'X' then '.' else c
  }

  lemma SwapSeparatorsChars(s: string)
    ensures |SwapSeparators(s)| == |s|
    ensures forall i :: 0 <= i < |s| ==> SwapSeparators(s)[i] == Swapped(s[i])
    ensures 'X' !in SwapSeparators(s)
  {
    var r := SwapSeparators(s);
    forall i | 0 <= i < |r| ensures r[i] != 'X' {
      assert r[i] == Swapped(s[i]);
    }
  }

  /** On a text without 'X' the swap undoes itself. */
  lemma SwapInvolution(s: string)
    requires 'X' !in s
    ensures SwapSeparators(SwapSeparators(s)) == s
  {
    var r := SwapSeparators(s);
    SwapSeparatorsChars(s);
    SwapSeparatorsChars(r);
    forall i | 0 <= i < |s| ensures SwapSeparators(r)[i] == s[i] {
      assert s[i] != 'X';
    }
  }

  /** The restriction matters: an 'X' of the input does not come back. */
  lemma SwapNotInvolutionWithX()
    ensures SwapSeparators(SwapSeparators("X")) == ","
  {
    SwapSeparatorsChars("X");
    SwapSeparatorsChars(SwapSeparators("X"));
    assert SwapSeparators("X") == ".";
  }

  // ------------------------------------------------------------------
  // The `,.2f` text of an amount in cents
  // ------------------------------------------------------------------

  /** The decimal digits of `n`, without leading zeros. */
  function Plain(n: nat): (s: string)
    ensures s != [] && IsDigit(s[0])
    ensures forall i :: 0 <= i < |s| ==> IsDigit(s[i])
  {
    if n < 10 then [DigitChar(n)] else Plain(n / 10) + [DigitChar(n % 10)]
  }

  /** Three digits, with leading zeros. */
  function Pad3(k: nat): (s: string)
    requires k < 1000
    ensures |s| == 3 && forall i :: 0 <= i < 3 ==> IsDigit(s[i])
  {
    var t := k % 100;
    [DigitChar(k / 100), DigitChar(t / 10), DigitChar(t % 10)]
  }

  /** `n` written with ',' between groups of three digits. */
  function Grouped(n: nat): (s: string)
    ensures s != [] && IsDigit(s[0])
    ensures forall i :: 0 <= i < |s| ==> IsDigit(s[i]) || s[i] == ','
  {
    if n < 1000 then Plain(n) else Grouped(n / 1000) + [','] + Pad3(n % 1000)
  }

  lemma PlainShort(n: nat)
    requires n < 1000
    ensures |Plain(n)| <= 3
  {
    if n >= 10 {
      assert n / 10 < 10 || n / 10 / 10 < 10;
      if n / 10 >= 10 {
        assert |Plain(n / 10)| == |Plain(n / 10 / 10)| + 1;
      }
    }
  }

  /** The separators of the grouped text split its digits into threes,
      counted from the right: a ',' sits exactly where a multiple of four
      characters remain. */
  lemma {:induction false} GroupedSeparators(n: nat)
    ensures forall i :: 0 <= i < |Grouped(n)| ==> (Grouped(n)[i] == ',' <==> (|Grouped(n)| - i) % 4 == 0)
  {
    var g := Grouped(n);
    if n < 1000 {
      PlainShort(n);
    } else {
      var h := Grouped(n / 1000);
      GroupedSeparators(n / 1000);
      var p := Pad3(n % 1000);
      assert g == h + [','] + p;
      assert |g| == |h| + 4;
      forall i | 0 <= i < |g| ensures g[i] == ',' <==> (|g| - i) % 4 == 0 {
        if i < |h| {
          assert g[i] == h[i];
          ModFourShift(|h| - i);
        } else if i > |h| {
          assert g[i] == p[i - |h| - 1];
          assert 1 <= |g| - i <= 3;
        }
      }
    }
  }

  lemma ModFourShift(a: int)
    ensures (a + 4) % 4 == a % 4
  {
  }

  /** The text after the sign: the grouped whole part, '.', two digits. */
  function Unsigned(n: nat): string
  {
    var cents := n % 100;
    Grouped(n / 100) + ['.', DigitChar(cents / 10), DigitChar(cents % 10)]
  }

  /** `f"{valor:,.2f}"` for an amount of `c` cents. */
  function FixedTwo(c: int): string
  {
    (if c < 0 then "-" else "") + Unsigned(Abs(c))
  }

  /** `formata_valor_brasil`: "" for a missing amount. */
  function FormatBrazil(valor: Option<int>): string
  {
    if valor.None? then "" else SwapSeparators(FixedTwo(valor.value))
  }

  // ------------------------------------------------------------------
  // Reading a formatted amount back
  // ------------------------------------------------------------------

  /** The number spelled by the digits of `s`, separators skipped. */
  function DigitsValue(s: string): int
  {
    if s == [] then 0
    else if IsDigit(s[|s| - 1]) then DigitsValue(s[..|s| - 1]) * 10 + DigitValue(s[|s| - 1])
    else DigitsValue(s[..|s| - 1])
  }

  /** The amount in cents that a Brazilian-style text with two decimals
      denotes. */
  function BrazilValue(s: string): int
  {
    if |s| > 0 && s[0] == '-' then -DigitsValue(s[1..]) else DigitsValue(s)
  }

  lemma DigitsValueSnoc(s: string, c: char)
    ensures DigitsValue(s + [c]) == if IsDigit(c) then DigitsValue(s) * 10 + DigitValue(c) else DigitsValue(s)
  {
    assert (s + [c])[..|s|] == s;
  }

  /** Texts with the same digits in the same places spell the same number. */
  lemma {:induction false} DigitsValueSame(a: string, b: string)
    requires |a| == |b|
    requires forall i :: 0 <= i < |a| ==> IsDigit(a[i]) == IsDigit(b[i]) && (IsDigit(a[i]) ==> a[i] == b[i])
    ensures DigitsValue(a) == DigitsValue(b)
  {
    if a != [] {
      DigitsValueSame(a[..|a| - 1], b[..|b| - 1]);
    }
  }

  lemma {:induction false} PlainValue(n: nat)
    ensures DigitsValue(Plain(n)) == n
  {
    if n >= 10 {
      PlainValue(n / 10);
      DigitsValueSnoc(Plain(n / 10), DigitChar(n % 10));
    }
  }

  lemma {:induction false} GroupedValue(n: nat)
    ensures DigitsValue(Grouped(n)) == n
  {
    if n < 1000 {
      PlainValue(n);
    } else {
      var k := n % 1000;
      var g := Grouped(n / 1000);
      GroupedValue(n / 1000);
      Pad3Value(g, k);
      assert n == n / 1000 * 1000 + k;
    }
  }

  /** A ',' and three more digits append the group's value to the number. */
  lemma Pad3Value(g: string, k: nat)
    requires k < 1000
    ensures DigitsValue(g + [','] + Pad3(k)) == DigitsValue(g) * 1000 + k
  {
    var p := Pad3(k);
    DigitsValueSnoc(g, ',');
    DigitsValueSnoc(g + [','], p[0]);
    DigitsValueSnoc(g + [','] + [p[0]], p[1]);
    DigitsValueSnoc(g + [','] + [p[0]] + [p[1]], p[2]);
    assert g + [','] + p == g + [','] + [p[0]] + [p[1]] + [p[2]];
    Hundreds(k);
  }

  /** A number is its hundreds, then the tens and units of its last two
      digits. */
  lemma Hundreds(k: nat)
    ensures k == k / 100 * 100 + k % 100 / 10 * 10 + k % 100 % 10
  {
    var t := k % 100;
    assert k == k / 100 * 100 + t;
    assert t == t / 10 * 10 + t % 10;
  }

  lemma DecimalTailValue(g: string, d1: int, d2: int)
    requires 0 <= d1 <= 9 && 0 <= d2 <= 9
    ensures DigitsValue(g + ['.', DigitChar(d1), DigitChar(d2)]) == DigitsValue(g) * 100 + d1 * 10 + d2
  {
    DigitsValueSnoc(g, '.');
    DigitsValueSnoc(g + ['.'], DigitChar(d1));
    DigitsValueSnoc(g + ['.'] + [DigitChar(d1)], DigitChar(d2));
    assert g + ['.', DigitChar(d1), DigitChar(d2)] == g + ['.'] + [DigitChar(d1)] + [DigitChar(d2)];
  }

  lemma UnsignedValue(n: nat)
    ensures DigitsValue(Unsigned(n)) == n
  {
    GroupedValue(n / 100);
    DecimalTailValue(Grouped(n / 100), n % 100 / 10, n % 100 % 10);
    Hundreds(n);
  }

  /** The English-style text spells the amount. */
  lemma FixedTwoValue(c: int)
    ensures DigitsValue(if c < 0 then FixedTwo(c)[1..] else FixedTwo(c)) == Abs(c)
    ensures FixedTwo(c)[0] == '-' <==> c < 0
  {
    var body := Unsigned(Abs(c));
    UnsignedValue(Abs(c));
    assert body[0] == Grouped(Abs(c) / 100)[0];
    assert FixedTwo(c) == (if c < 0 then "-" else "") + body;
    if c < 0 {
      assert FixedTwo(c)[1..] == body;
    } else {
      assert FixedTwo(c) == body;
    }
  }

  /** Round trip: the shown text denotes the amount it was made from, and a
      missing amount shows as "". */
  lemma FormatBrazilRoundTrip(valor: Option<int>)
    ensures valor.None? ==> FormatBrazil(valor) == ""
    ensures valor.Some? ==> BrazilValue(FormatBrazil(valor)) == valor.value
  {
    if valor.Some? {
      var c := valor.value;
      var f := FixedTwo(c);
      var r := FormatBrazil(valor);
      FixedTwoValue(c);
      SwapSeparatorsChars(f);
      assert r[0] == '-' <==> c < 0;
      if c < 0 {
        DigitsValueSame(r[1..], f[1..]);
      } else {
        DigitsValueSame(r, f);
      }
    }
  }

  lemma FixedTwoShape(c: int)
    ensures var f := FixedTwo(c);
      var start := if c < 0 then 1 else 0;
      |f| >= start + 4 && (c < 0 ==> f[0] == '-')
      && f[|f| - 3] == '.' && IsDigit(f[|f| - 2]) && IsDigit(f[|f| - 1])
      && IsDigit(f[start])
      && forall i :: start <= i < |f| - 3 ==> (IsDigit(f[i]) || f[i] == ',') && (f[i] == ',' <==> (|f| - 3 - i) % 4 == 0)
  {
    var n := Abs(c);
    var g := Grouped(n / 100);
    var f := FixedTwo(c);
    var sign := if c < 0 then "-" else "";
    GroupedSeparators(n / 100);
    assert f == sign + g + ['.', DigitChar(n % 100 / 10), DigitChar(n % 100 % 10)];
    assert |f| - 3 == |sign| + |g|;
    forall i | |sign| <= i < |f| - 3
      ensures (IsDigit(f[i]) || f[i] == ',') && (f[i] == ',' <==> (|f| - 3 - i) % 4 == 0)
    {
      assert f[i] == g[i - |sign|];
    }
    assert f[|sign|] == g[0];
  }

  /** The shape of the shown text: a minus sign exactly for a negative
      amount, then a digit, digits grouped in threes by '.' counted from the
      decimal comma, and ',' only as that comma before two digits. */
  lemma FormatBrazilShape(c: int)
    ensures var r := FormatBrazil(Some(c));
      var start := if c < 0 then 1 else 0;
      |r| >= start + 4 && (r[0] == '-' <==> c < 0)
      && r[|r| - 3] == ',' && IsDigit(r[|r| - 2]) && IsDigit(r[|r| - 1])
      && IsDigit(r[start])
      && forall i :: start <= i < |r| - 3 ==> (IsDigit(r[i]) || r[i] == '.') && (r[i] == '.' <==> (|r| - 3 - i) % 4 == 0)
  {
    FormatBrazilEnds(c);
    FormatBrazilGroups(c);
  }

  lemma FormatBrazilEnds(c: int)
    ensures var r := FormatBrazil(Some(c));
      var start := if c < 0 then 1 else 0;
      |r| >= start + 4 && (r[0] == '-' <==> c < 0)
      && r[|r| - 3] == ',' && IsDigit(r[|r| - 2]) && IsDigit(r[|r| - 1])
      && IsDigit(r[start])
  {
    var f := FixedTwo(c);
    var r := FormatBrazil(Some(c));
    var start := if c < 0 then 1 else 0;
    FixedTwoShape(c);
    SwapSeparatorsChars(f);
    assert r == SwapSeparators(f);
    assert r[start] == Swapped(f[start]);
    assert r[0] == Swapped(f[0]);
    assert r[|r| - 3] == Swapped(f[|f| - 3]);
    assert r[|r| - 2] == Swapped(f[|f| - 2]);
    assert r[|r| - 1] == Swapped(f[|f| - 1]);
  }

  lemma FormatBrazilGroups(c: int)
    ensures var r := FormatBrazil(Some(c));
      var start := if c < 0 then 1 else 0;
      forall i :: start <= i < |r| - 3 ==> (IsDigit(r[i]) || r[i] == '.') && (r[i] == '.' <==> (|r| - 3 - i) % 4 == 0)
  {
    var f := FixedTwo(c);
    var r := FormatBrazil(Some(c));
    var start := if c < 0 then 1 else 0;
    FixedTwoShape(c);
    SwapSeparatorsChars(f);
    assert r == SwapSeparators(f);
    forall i | start <= i < |r| - 3
      ensures (IsDigit(r[i]) || r[i] == '.') && (r[i] == '.' <==> (|r| - 3 - i) % 4 == 0)
    {
      assert r[i] == Swapped(f[i]);
    }
  }
}
