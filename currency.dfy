/**
 * Currency normaliser: `converter_moeda_para_decimal` and `formato_brl`
 * (src/generalsutils.py, duplicated in src/rateio.py).
 *
 * A Python `Decimal` is modelled by value as `mant / 10^scale`; an amount
 * quantised to 0.01 is an integer number of cents.
 */
module Currency {
  import opened Wrappers
  import opened Text

  /** A Python `Decimal` by value: `mant / 10^scale`. */
  datatype Decimal = Decimal(mant: int, scale: nat)

  /** Python's `==` on `Decimal`: equality of values, not of representations. */
  predicate SameValue(a: Decimal, b: Decimal)
  {
    a.mant * Pow10(b.scale) == b.mant * Pow10(a.scale)
  }

  /** What a spreadsheet cell can hold, as far as the parser distinguishes it. */
  datatype Cell = Missing | IntCell(i: int) | DecimalCell(d: Decimal) | TextCell(s: string)

  const NoBreakSpace: char := '\U{A0}'
  const EmDash: char := '\U{2014}'

  /** The stripped texts the parser maps to `None` before any cleaning. */
  predicate IsPlaceholder(s: string)
  {
    s == "" || s == "nan" || s == "-" || s == [EmDash]
  }

  /** `s.replace("R$", "")`: occurrences removed left to right, without overlap. */
  function RemoveCurrencySymbol(s: string): string
  {
    if |s| < 2 then s
    else if s[0] == 'R' && s[1] == '$' then RemoveCurrencySymbol(s[2..])
    else [s[0]] + RemoveCurrencySymbol(s[1..])
  }

  /** The characters the pattern `[^\d\.,-]` keeps. */
  predicate IsNumberChar(c: char) { IsDigit(c) || c == '.' || c == ',' || c == '-' }

  /** `re.sub(r"[^\d\.,-]", "", s)`. */
  function KeepNumberChars(s: string): string
  {
    if s == [] then [] else (if IsNumberChar(s[0]) then [s[0]] else []) + KeepNumberChars(s[1..])
  }

  /** The cleaning steps applied to a stripped text that is not a placeholder. */
  function Clean(s: string): string
  {
    KeepNumberChars(RemoveChar(RemoveChar(RemoveCurrencySymbol(s), ' '), NoBreakSpace))
  }

  /**
   * The separator rule: with both `.` and `,` present, `.` is a thousands
   * separator (dropped) and `,` the decimal point; with only `,`, it is the
   * decimal point; otherwise the text is left alone.
   */
  function NormaliseSeparators(s: string): string
  {
    if ',' in s && '.' in s then ReplaceChar(RemoveChar(s, '.'), ',', '.')
    else if ',' in s then ReplaceChar(s, ',', '.')
    else s
  }

  /**
   * `Decimal(v)` for a text over digits, `.` and `-` (the only characters
   * left after cleaning): an optional leading `-`, then digits with at most
   * one `.`, and at least one digit. Anything else is `InvalidOperation`,
   * which the parser turns into `None`.
   */
  function ParseLiteral(v: string): Option<Decimal>
  {
    if |v| > 0 && v[0] == '-' then ParseUnsigned(v[1..], true) else ParseUnsigned(v, false)
  }

  /** The literal after its sign: split at the first `.`. */
  function ParseUnsigned(body: string, negative: bool): Option<Decimal>
  {
    var k := IndexOf(body, '.');
    ParseParts(body[..k], if k < |body| then body[k + 1..] else [], negative)
  }

  function ParseParts(whole: string, fraction: string, negative: bool): Option<Decimal>
  {
    if AllDigits(whole) && AllDigits(fraction) && |whole| + |fraction| > 0 then
      var m: int := DigitsValue(whole + fraction);
      Some(Decimal(if negative then -m else m, |fraction|))
    else
      None
  }

  /** `converter_moeda_para_decimal`: never raises, `None` for anything unreadable. */
  function ParseMoney(c: Cell): Option<Decimal>
  {
    match c
    case Missing => None
    case IntCell(i) => ParseLiteral(IntToString(i))
    case DecimalCell(d) => Some(d)
    case TextCell(s) =>
      var t := Strip(s);
      if IsPlaceholder(t) then None else ParseLiteral(NormaliseSeparators(Clean(t)))
  }

  // ---------------------------------------------------------------------
  // Rounding to cents
  // ---------------------------------------------------------------------

  function Abs(x: int): nat { if x < 0 then -x else x }

  /** `d.quantize(Decimal("0.01"), rounding=ROUND_HALF_UP)`, in cents: ties away from zero. */
  function RoundHalfUp(d: Decimal): int
  {
    if d.scale <= 2 then d.mant * Pow10(2 - d.scale)
    else
      var q := HalfUpQuotient(Abs(d.mant), Pow10(d.scale - 2));
      if d.mant < 0 then -(q as int) else q
  }

  /** `a / p` rounded half-up: one more when the remainder is at least half of `p`. */
  function HalfUpQuotient(a: nat, p: nat): nat
    requires p >= 1
  {
    a / p + (if 2 * (a % p) >= p then 1 else 0)
  }

  /** Rounding to cents under the default context (`ROUND_HALF_EVEN`), as `format(d, ".2f")` does. */
  function RoundHalfEven(d: Decimal): int
  {
    if d.scale <= 2 then d.mant * Pow10(2 - d.scale)
    else
      var p := Pow10(d.scale - 2);
      var a := Abs(d.mant);
      var r := a % p;
      var q := a / p + (if 2 * r > p || (2 * r == p && (a / p) % 2 == 1) then 1 else 0);
      if d.mant < 0 then -q else q
  }

  /**
   * Half-up rounding returns the nearest number of cents, a tie going to the
   * cents farther from zero, and keeps the sign of the input.
   */
  lemma RoundHalfUpNearest(d: Decimal)
    requires d.scale > 2
    ensures var p, c := Pow10(d.scale - 2), RoundHalfUp(d);
      && 2 * Abs(d.mant - c * p) <= p
      && (2 * Abs(d.mant - c * p) == p ==> Abs(c * p) > Abs(d.mant))
      && (d.mant >= 0 ==> c >= 0) && (d.mant < 0 ==> c <= 0)
  {
    var p, a := Pow10(d.scale - 2), Abs(d.mant);
    HalfUpMagnitude(a, p);
    SignedMagnitude(d.mant, a, HalfUpQuotient(a, p), p);
  }

  lemma SignedMagnitude(m: int, a: nat, q: nat, p: nat)
    requires a == Abs(m)
    ensures var c: int := if m < 0 then -(q as int) else q;
      && Abs(m - c * p) == Abs(a - q * p)
      && Abs(c * p) == q * p
  {
    if m < 0 {
      NegatedProduct(q, p);
    }
  }

  lemma NegatedProduct(q: int, p: int)
    ensures (-q) * p == -(q * p)
  {
  }

  /** Half-up rounding of a magnitude `a` to a multiple of `p`. */
  lemma HalfUpMagnitude(a: nat, p: nat)
    requires p >= 1
    ensures var q := HalfUpQuotient(a, p);
      && 2 * Abs(a - q * p) <= p
      && (2 * Abs(a - q * p) == p ==> q * p > a)
  {
    var q0, r := a / p, a % p;
    assert a == q0 * p + r && 0 <= r < p;
    if 2 * r >= p {
      assert (q0 + 1) * p == q0 * p + p;
      assert a - (q0 + 1) * p == r - p;
    } else {
      assert a - q0 * p == r;
    }
  }

  lemma RoundingExactAtTwoDecimals(d: Decimal)
    requires d.scale <= 2
    ensures RoundHalfUp(d) == RoundHalfEven(d)
    ensures SameValue(Decimal(RoundHalfUp(d), 2), d)
  {
    Pow10Add(2 - d.scale, d.scale);
    assert RoundHalfUp(d) * Pow10(d.scale) == d.mant * (Pow10(2 - d.scale) * Pow10(d.scale));
  }

  // ---------------------------------------------------------------------
  // Formatting
  // ---------------------------------------------------------------------

  /** The three digits of `r % 1000`, zero-padded. */
  function Pad3(r: nat): string
  {
    [DigitChar(r / 100 % 10), DigitChar(r / 10 % 10), DigitChar(r % 10)]
  }

  /** The two digits of `r % 100`, zero-padded. */
  function Pad2(r: nat): string
  {
    [DigitChar(r / 10 % 10), DigitChar(r % 10)]
  }

  /** Python's `f"{n:,}"`: the numeral of `n` with `,` before every group of three digits. */
  function GroupThousands(n: nat): string
  {
    if n < 1000 then NatDigits(n) else GroupThousands(n / 1000) + "," + Pad3(n % 1000)
  }

  /** `f"{v:,.2f}"` for a value already rounded to `cents`, whose sign bit is `negative`. */
  function FixedTwo(negative: bool, cents: int): string
  {
    (if negative then "-" else "") + GroupThousands(Abs(cents) / 100) + "." + Pad2(Abs(cents) % 100)
  }

  /** `s.replace(",", "X").replace(".", ",").replace("X", ".")`. */
  function SwapSeparators(s: string): string
  {
    ReplaceChar(ReplaceChar(ReplaceChar(s, ',', 'X'), '.', ','), 'X', '.')
  }

  /**
   * `formato_brl` of src/generalsutils.py: "0,00" for `None`, otherwise the
   * value rounded half-up to cents, `.` between thousands, `,` before the
   * two decimals. A negative value keeps its `-` even when it rounds to zero.
   */
  function FormatBrl(v: Option<Decimal>): string
  {
    match v
    case None => "0,00"
    case Some(d) => SwapSeparators(FixedTwo(d.mant < 0, RoundHalfUp(d)))
  }

  /**
   * `formato_brl` of src/rateio.py: no explicit quantisation, so the
   * rounding is the one `format` applies, half-even.
   */
  function FormatBrlHalfEven(v: Option<Decimal>): string
  {
    match v
    case None => "0,00"
    case Some(d) => SwapSeparators(FixedTwo(d.mant < 0, RoundHalfEven(d)))
  }

  /** Only digits, separators and the minus sign. */
  predicate NumberText(s: string)
  {
    forall i :: 0 <= i < |s| ==> IsDigit(s[i]) || s[i] == '.' || s[i] == ',' || s[i] == '-'
  }

  lemma {:induction false} GroupThousandsText(n: nat)
    ensures NumberText(GroupThousands(n))
    decreases n
  {
    if n >= 1000 {
      GroupThousandsText(n / 1000);
    }
  }

  /** A formatted amount is made of digits, `.`, `,` and `-` only: it has no line break. */
  lemma FormatBrlHalfEvenText(v: Option<Decimal>)
    ensures NumberText(FormatBrlHalfEven(v))
  {
    if v.Some? {
      var c := RoundHalfEven(v.value);
      GroupThousandsText(Abs(c) / 100);
      var f := FixedTwo(v.value.mant < 0, c);
      assert NumberText(f);
      var a := ReplaceChar(f, ',', 'X');
      var b := ReplaceChar(a, '.', ',');
      assert forall i :: 0 <= i < |b| ==> IsDigit(b[i]) || b[i] == 'X' || b[i] == ',' || b[i] == '-';
    }
  }

  /** The two formatters agree on every value with at most two decimals. */
  lemma FormattersAgreeAtTwoDecimals(d: Decimal)
    requires d.scale <= 2
    ensures FormatBrlHalfEven(Some(d)) == FormatBrl(Some(d))
  {
    RoundingExactAtTwoDecimals(d);
  }

  /** ... and disagree on a tie such as 0.125: "0,13" against "0,12". */
  lemma FormattersDifferOnTies()
    ensures FormatBrl(Some(Decimal(125, 3))) == "0,13"
    ensures FormatBrlHalfEven(Some(Decimal(125, 3))) == "0,12"
  {
    HalfUpTie();
    HalfEvenTie();
  }

  lemma HalfUpTie()
    ensures FormatBrl(Some(Decimal(125, 3))) == "0,13"
  {
    assert RoundHalfUp(Decimal(125, 3)) == 13 by {
      assert Pow10(1) == 10;
      assert HalfUpQuotient(125, 10) == 13;
    }
    PrintedUnderOneReal(false, 13);
    assert Pad2(13) == "13";
  }

  lemma HalfEvenTie()
    ensures FormatBrlHalfEven(Some(Decimal(125, 3))) == "0,12"
  {
    assert RoundHalfEven(Decimal(125, 3)) == 12 by {
      assert Pow10(1) == 10;
      assert 125 % 10 == 5 && 125 / 10 == 12 && 12 % 2 == 0;
    }
    PrintedUnderOneReal(false, 12);
    assert Pad2(12) == "12";
  }

  /** Less than one real prints as "0," or "-0," and the two digits of the cents. */
  lemma PrintedUnderOneReal(negative: bool, c: int)
    requires -100 < c < 100
    ensures SwapSeparators(FixedTwo(negative, c)) == (if negative then "-0," else "0,") + Pad2(Abs(c))
  {
    PrintedShape(negative, c);
    assert Abs(c) / 100 == 0 && Abs(c) % 100 == Abs(c);
    assert SwapSeparators(GroupThousands(0)) == "0" by {
      assert GroupThousands(0) == "0";
      SwapSeparatorsOnDigits("0");
    }
  }

  // ---------------------------------------------------------------------
  // Round trip: parsing what the formatter prints gives back the cents
  // ---------------------------------------------------------------------

  /**
   * Parsing the text `formato_brl` prints gives back exactly the value it
   * printed: the input rounded half-up to cents.
   */
  lemma {:induction false} ParseFormatRoundTrip(d: Decimal)
    ensures ParseMoney(TextCell(FormatBrl(Some(d)))) == Some(Decimal(RoundHalfUp(d), 2))
  {
    var c := RoundHalfUp(d);
    var a := Abs(c);
    var sign: string := if d.mant < 0 then "-" else "";
    PrintedShape(d.mant < 0, c);
    ParseGroupedAmount(sign, a / 100, a % 100);
    DivModHundred(a);
    RoundHalfUpSign(d);
  }

  /** Parsing `sign`, the grouped numeral of `units`, `,` and the two digits of `cents`. */
  lemma ParseGroupedAmount(sign: string, units: nat, cents: nat)
    requires sign == "" || sign == "-"
    requires cents < 100
    ensures ParseMoney(TextCell(sign + SwapSeparators(GroupThousands(units)) + "," + Pad2(cents)))
        == Some(Decimal(Signed(sign == "-", units * 100 + cents), 2))
  {
    var h, t := SwapSeparators(GroupThousands(units)), Pad2(cents);
    GroupedNumeral(units);
    Pad2Value(cents);
    var r := RemoveChar(h, '.');
    assert |r| >= 1 by {
      assert r == [h[0]] + RemoveChar(h[1..], '.');
    }
    assert DigitsValue(r + t) == units * 100 + cents by {
      DigitsValueAppend(r, t);
      assert Pow10(2) == 100;
    }
    ParsePrinted(sign, h, t);
  }

  /** `m`, negated when `negative`. */
  function Signed(negative: bool, m: int): (r: int)
    ensures Abs(r) == Abs(m)
  {
    if negative then -m else m
  }

  lemma DivModHundred(a: nat)
    ensures a == a / 100 * 100 + a % 100
  {
  }

  lemma RoundHalfUpSign(d: Decimal)
    ensures d.mant < 0 ==> RoundHalfUp(d) <= 0
    ensures d.mant >= 0 ==> RoundHalfUp(d) >= 0
  {
    if d.scale > 2 {
      RoundHalfUpNearest(d);
    } else if d.mant < 0 {
      NegativeTimesPositive(d.mant, Pow10(2 - d.scale));
    }
  }

  /** What the formatter prints: sign, grouped integer part, `,`, two decimals. */
  lemma PrintedShape(negative: bool, c: int)
    ensures SwapSeparators(FixedTwo(negative, c))
      == (if negative then "-" else "") + SwapSeparators(GroupThousands(Abs(c) / 100)) + "," + Pad2(Abs(c) % 100)
  {
    var sign: string := if negative then "-" else "";
    var g, t := GroupThousands(Abs(c) / 100), Pad2(Abs(c) % 100);
    Pad2Value(Abs(c) % 100);
    SwapSeparatorsConcat(sign + g, ".");
    SwapSeparatorsConcat(sign + g + ".", t);
    SwapSeparatorsConcat(sign, g);
    SwapSeparatorsOnDigits(sign);
    SwapSeparatorsOnDigits(t);
    assert SwapSeparators(".") == ",";
  }

  /** Parsing a printed amount: every cleaning step leaves it alone, then the separator rule applies. */
  lemma ParsePrinted(sign: string, h: string, t: string)
    requires sign == "" || sign == "-"
    requires |h| >= 1 && IsDigit(h[0])
    requires forall i :: 0 <= i < |h| ==> IsDigit(h[i]) || h[i] == '.'
    requires AllDigits(RemoveChar(h, '.'))
    requires |RemoveChar(h, '.')| >= 1
    requires |t| == 2 && AllDigits(t)
    ensures ParseMoney(TextCell(sign + h + "," + t))
      == Some(Decimal(Signed(sign == "-", DigitsValue(RemoveChar(h, '.') + t)), 2))
  {
    var s := sign + h + "," + t;
    var r := RemoveChar(h, '.');
    PrintedUntrimmed(sign, h, t);
    assert Clean(s) == s by {
      PrintedCharsAreNumberChars(sign, h, t);
      CleanUntouched(s);
    }
    assert NormaliseSeparators(s) == sign + r + "." + t by {
      SeparatorsOfPrintedAmount(sign, h, t);
    }
    LiteralOfPrintedAmount(sign, r, t);
  }

  /** A printed amount has no surrounding blanks and is no placeholder. */
  lemma PrintedUntrimmed(sign: string, h: string, t: string)
    requires sign == "" || sign == "-"
    requires |h| >= 1 && IsDigit(h[0])
    requires |t| == 2 && AllDigits(t)
    ensures var s := sign + h + "," + t; Strip(s) == s && !IsPlaceholder(s)
  {
    var s := sign + h + "," + t;
    assert s[0] == '-' || IsDigit(s[0]) by {
      if sign == "" { assert s[0] == h[0]; } else { assert s[0] == '-'; }
    }
    assert s[|s| - 1] == t[1];
    StripUntouched(s);
    assert |s| >= 4;
  }

  lemma PrintedCharsAreNumberChars(sign: string, h: string, t: string)
    requires sign == "" || sign == "-"
    requires forall i :: 0 <= i < |h| ==> IsDigit(h[i]) || h[i] == '.'
    requires AllDigits(t)
    ensures forall i :: 0 <= i < |sign + h + "," + t| ==> IsNumberChar((sign + h + "," + t)[i])
  {
    var s := sign + h + "," + t;
    forall i | 0 <= i < |s| ensures IsNumberChar(s[i]) {
      if i < |sign| { assert s[i] == '-'; }
      else if i < |sign| + |h| { assert s[i] == h[i - |sign|]; }
      else if i == |sign| + |h| { assert s[i] == ','; }
      else { assert s[i] == t[i - |sign| - |h| - 1]; }
    }
  }

  lemma NegativeTimesPositive(m: int, p: nat)
    requires m < 0 && p >= 1
    ensures m * p < 0
  {
  }

  /** Every amount with at most two decimals survives printing and parsing unchanged in value. */
  lemma ParseFormatIdentity(d: Decimal)
    requires d.scale <= 2
    ensures var r := ParseMoney(TextCell(FormatBrl(Some(d))));
      r.Some? && SameValue(r.value, d)
  {
    ParseFormatRoundTrip(d);
    RoundingExactAtTwoDecimals(d);
  }

  lemma SwapSeparatorsConcat(x: string, y: string)
    ensures SwapSeparators(x + y) == SwapSeparators(x) + SwapSeparators(y)
  {
    ReplaceCharConcat(x, y, ',', 'X');
    ReplaceCharConcat(ReplaceChar(x, ',', 'X'), ReplaceChar(y, ',', 'X'), '.', ',');
    ReplaceCharConcat(ReplaceChar(ReplaceChar(x, ',', 'X'), '.', ','),
                      ReplaceChar(ReplaceChar(y, ',', 'X'), '.', ','), 'X', '.');
  }

  lemma SwapSeparatorsOnDigits(s: string)
    requires forall i :: 0 <= i < |s| ==> IsDigit(s[i]) || s[i] == '-'
    ensures SwapSeparators(s) == s
  {
  }

  lemma Pad3Value(r: nat)
    requires r < 1000
    ensures AllDigits(Pad3(r)) && DigitsValue(Pad3(r)) == r
  {
    var x, y, z := r / 100 % 10, r / 10 % 10, r % 10;
    DigitCharValue(x);
    DigitCharValue(y);
    DigitCharValue(z);
    DigitsValueSnoc([], DigitChar(x));
    DigitsValueSnoc([DigitChar(x)], DigitChar(y));
    DigitsValueSnoc([DigitChar(x), DigitChar(y)], DigitChar(z));
    assert Pad3(r) == [DigitChar(x), DigitChar(y)] + [DigitChar(z)];
    ThreeDigits(r);
  }

  lemma ThreeDigits(r: nat)
    requires r < 1000
    ensures r == (r / 100 % 10 * 10 + r / 10 % 10) * 10 + r % 10
  {
    var q := r / 10;
    assert r == q * 10 + r % 10;
    assert q / 10 == r / 100;
    assert q == q / 10 * 10 + q % 10;
  }

  lemma Pad2Value(r: nat)
    requires r < 100
    ensures AllDigits(Pad2(r)) && |Pad2(r)| == 2 && DigitsValue(Pad2(r)) == r
  {
    var y, z := r / 10 % 10, r % 10;
    DigitCharValue(y);
    DigitCharValue(z);
    DigitsValueSnoc([], DigitChar(y));
    DigitsValueSnoc([DigitChar(y)], DigitChar(z));
    assert Pad2(r) == [DigitChar(y)] + [DigitChar(z)];
  }

  /** Digits and `.` starting with a digit that, without the dots, denote `n`. */
  predicate GroupedShape(h: string, n: nat)
  {
    && |h| >= 1 && IsDigit(h[0])
    && (forall i :: 0 <= i < |h| ==> IsDigit(h[i]) || h[i] == '.')
    && AllDigits(RemoveChar(h, '.'))
    && DigitsValue(RemoveChar(h, '.')) == n
  }

  /**
   * The thousands-grouped numeral, with separators swapped, is digits and
   * `.` starting with a digit; without its dots it denotes `n` again.
   */
  lemma {:induction false} GroupedNumeral(n: nat)
    ensures GroupedShape(SwapSeparators(GroupThousands(n)), n)
    decreases n
  {
    var g := GroupThousands(n);
    if n < 1000 {
      SwapSeparatorsOnDigits(g);
      RemoveCharAbsent(g, '.');
    } else {
      GroupedNumeral(n / 1000);
      Pad3Value(n % 1000);
      GroupedSplit(n);
      GroupedAppend(SwapSeparators(GroupThousands(n / 1000)), n / 1000, Pad3(n % 1000), n % 1000);
      DivModThousand(n);
    }
  }

  lemma GroupedSplit(n: nat)
    requires n >= 1000
    ensures SwapSeparators(GroupThousands(n)) == SwapSeparators(GroupThousands(n / 1000)) + "." + Pad3(n % 1000)
  {
    var g0, p := GroupThousands(n / 1000), Pad3(n % 1000);
    SwapSeparatorsConcat(g0 + ",", p);
    SwapSeparatorsConcat(g0, ",");
    SwapSeparatorsOnDigits(p);
    assert SwapSeparators(",") == ".";
  }

  lemma DigitsAndPoints(h0: string, p: string)
    requires forall i :: 0 <= i < |h0| ==> IsDigit(h0[i]) || h0[i] == '.'
    requires AllDigits(p)
    ensures var h := h0 + "." + p;
      forall i :: 0 <= i < |h| ==> IsDigit(h[i]) || h[i] == '.'
  {
    var h := h0 + "." + p;
    forall i | 0 <= i < |h| ensures IsDigit(h[i]) || h[i] == '.' {
      if i < |h0| { assert h[i] == h0[i]; }
      else if i > |h0| { assert h[i] == p[i - |h0| - 1]; }
    }
  }

  lemma GroupedAppend(h0: string, m: nat, p: string, k: nat)
    requires GroupedShape(h0, m)
    requires |p| == 3 && AllDigits(p) && DigitsValue(p) == k
    ensures GroupedShape(h0 + "." + p, m * 1000 + k)
  {
    var h := h0 + "." + p;
    assert h[0] == h0[0];
    DigitsAndPoints(h0, p);
    var r0 := RemoveChar(h0, '.');
    PointDropped(h0, p);
    assert AllDigits(r0 + p) by {
      forall i | 0 <= i < |r0 + p| ensures IsDigit((r0 + p)[i]) {
        if i < |r0| { assert (r0 + p)[i] == r0[i]; } else { assert (r0 + p)[i] == p[i - |r0|]; }
      }
    }
    DigitsValueAppend(r0, p);
    assert Pow10(3) == 1000;
  }

  lemma PointThenDigits(p: string)
    requires AllDigits(p)
    ensures RemoveChar("." + p, '.') == p
  {
    assert ("." + p)[0] == '.' && ("." + p)[1..] == p;
    NotInDigits(p, '.');
    RemoveCharAbsent(p, '.');
  }

  /** Removing the dots of `h0 + "." + p`, `p` all digits, keeps `p` whole. */
  lemma PointDropped(h0: string, p: string)
    requires AllDigits(p)
    ensures RemoveChar(h0 + "." + p, '.') == RemoveChar(h0, '.') + p
  {
    assert h0 + "." + p == h0 + ("." + p);
    RemoveCharConcat(h0, "." + p, '.');
    PointThenDigits(p);
  }

  lemma DivModThousand(n: nat)
    ensures n == (n / 1000) * 1000 + n % 1000
  {
  }

  lemma StripUntouched(s: string)
    requires |s| >= 1 && !IsSpace(s[0]) && !IsSpace(s[|s| - 1])
    ensures Strip(s) == s
  {
  }

  lemma {:induction false} RemoveCurrencySymbolAbsent(s: string)
    requires 'R' !in s
    ensures RemoveCurrencySymbol(s) == s
    decreases |s|
  {
    if |s| >= 2 {
      RemoveCurrencySymbolAbsent(s[1..]);
    }
  }

  lemma {:induction false} KeepNumberCharsUntouched(s: string)
    requires forall i :: 0 <= i < |s| ==> IsNumberChar(s[i])
    ensures KeepNumberChars(s) == s
    decreases |s|
  {
    if s != [] {
      KeepNumberCharsUntouched(s[1..]);
    }
  }

  /** A text made only of digits, `.`, `,` and `-` passes the cleaning steps unchanged. */
  lemma CleanUntouched(s: string)
    requires forall i :: 0 <= i < |s| ==> IsNumberChar(s[i])
    ensures Clean(s) == s
  {
    RemoveCurrencySymbolAbsent(s);
    RemoveCharAbsent(s, ' ');
    RemoveCharAbsent(s, NoBreakSpace);
    KeepNumberCharsUntouched(s);
  }

  lemma SeparatorsOfPrintedAmount(sign: string, h: string, t: string)
    requires sign == "" || sign == "-"
    requires forall i :: 0 <= i < |h| ==> IsDigit(h[i]) || h[i] == '.'
    requires AllDigits(t)
    ensures NormaliseSeparators(sign + h + "," + t) == sign + RemoveChar(h, '.') + "." + t
  {
    var s := sign + h + "," + t;
    InConcat(sign, h, ',');
    InConcat(sign, h, '.');
    InConcat(sign + h, ",", ',');
    InConcat(sign + h, ",", '.');
    InConcat(sign + h + ",", t, ',');
    InConcat(sign + h + ",", t, '.');
    NotInDigits(t, ',');
    NotInDigits(t, '.');
    assert ',' in s;
    assert ('.' in s) == ('.' in h);
    if '.' in h {
      BothSeparators(sign, h, t);
    } else {
      RemoveCharAbsent(h, '.');
      CommaOnly(sign, h, t);
    }
  }

  lemma BothSeparators(sign: string, h: string, t: string)
    requires sign == "" || sign == "-"
    requires forall i :: 0 <= i < |h| ==> IsDigit(h[i]) || h[i] == '.'
    requires AllDigits(t)
    requires ',' in sign + h + "," + t && '.' in sign + h + "," + t
    ensures NormaliseSeparators(sign + h + "," + t) == sign + RemoveChar(h, '.') + "." + t
  {
    var s := sign + h + "," + t;
    var r := RemoveChar(h, '.');
    assert RemoveChar(s, '.') == sign + r + "," + t by {
      calc {
        RemoveChar(s, '.');
        { RemoveCharConcat(sign + h + ",", t, '.'); }
        RemoveChar(sign + h + ",", '.') + RemoveChar(t, '.');
        { NotInDigits(t, '.'); RemoveCharAbsent(t, '.'); }
        RemoveChar(sign + h + ",", '.') + t;
        { RemoveCharConcat(sign + h, ",", '.'); assert RemoveChar(",", '.') == ","; }
        RemoveChar(sign + h, '.') + "," + t;
        { RemoveCharConcat(sign, h, '.'); RemoveCharAbsent(sign, '.'); }
        sign + r + "," + t;
      }
    }
    assert ',' !in sign + r by {
      NoCommaInDigitsAndPoints(h);
      RemoveCharKeepsOthers(h, '.', ',');
      InConcat(sign, r, ',');
    }
    CommaToPoint(sign + r, t);
  }

  lemma NoCommaInDigitsAndPoints(h: string)
    requires forall i :: 0 <= i < |h| ==> IsDigit(h[i]) || h[i] == '.'
    ensures ',' !in h
  {
  }

  lemma CommaOnly(sign: string, h: string, t: string)
    requires sign == "" || sign == "-"
    requires AllDigits(h) || (forall i :: 0 <= i < |h| ==> IsDigit(h[i]) || h[i] == '.')
    requires AllDigits(t)
    requires ',' in sign + h + "," + t && '.' !in sign + h + "," + t
    ensures NormaliseSeparators(sign + h + "," + t) == sign + h + "." + t
  {
    NoCommaInDigitsAndPoints(h);
    InConcat(sign, h, ',');
    CommaToPoint(sign + h, t);
  }

  /** Replacing the one `,` between a comma-free head and a digit tail. */
  lemma CommaToPoint(head: string, t: string)
    requires ',' !in head && AllDigits(t)
    ensures ReplaceChar(head + "," + t, ',', '.') == head + "." + t
  {
    NotInDigits(t, ',');
    ReplaceCharConcat(head + ",", t, ',', '.');
    ReplaceCharConcat(head, ",", ',', '.');
    ReplaceCharAbsent(head, ',', '.');
    ReplaceCharAbsent(t, ',', '.');
  }

  lemma {:induction false} RemoveCharKeepsOthers(s: string, c: char, other: char)
    requires other !in s
    ensures other !in RemoveChar(s, c)
    decreases |s|
  {
    if s != [] {
      RemoveCharKeepsOthers(s[1..], c, other);
    }
  }

  lemma LiteralOfPrintedAmount(sign: string, r: string, t: string)
    requires sign == "" || sign == "-"
    requires |r| >= 1 && AllDigits(r) && |t| == 2 && AllDigits(t)
    ensures var m: int := DigitsValue(r + t);
      ParseLiteral(sign + r + "." + t) == Some(Decimal(if sign == "-" then -m else m, 2))
  {
    var body := r + "." + t;
    assert sign + r + "." + t == sign + body;
    assert IsDigit(body[0]);
    SignedLiteral(sign, body);
    UnsignedAtDecimalPoint(r, t, sign == "-");
    PartsValue(r, t, sign == "-");
  }

  lemma PartsValue(r: string, t: string, negative: bool)
    requires |r| >= 1 && AllDigits(r) && AllDigits(t)
    ensures var m: int := DigitsValue(r + t);
      ParseParts(r, t, negative) == Some(Decimal(if negative then -m else m, |t|))
  {
  }

  lemma SignedLiteral(sign: string, body: string)
    requires sign == "" || sign == "-"
    requires |body| >= 1 && IsDigit(body[0])
    ensures ParseLiteral(sign + body) == ParseUnsigned(body, sign == "-")
  {
    if sign == "-" {
      assert (sign + body)[1..] == body;
    } else {
      assert sign + body == body;
    }
  }

  lemma UnsignedAtDecimalPoint(r: string, t: string, negative: bool)
    requires AllDigits(r)
    ensures ParseUnsigned(r + "." + t, negative) == ParseParts(r, t, negative)
  {
    var body := r + "." + t;
    DecimalPointFirst(r, t);
    assert body[..|r|] == r;
    assert body[|r| + 1..] == t;
  }

  lemma DecimalPointFirst(r: string, t: string)
    requires AllDigits(r)
    ensures IndexOf(r + "." + t, '.') == |r|
  {
    var body := r + "." + t;
    assert body[|r|] == '.';
    forall j | 0 <= j < |r| ensures body[j] != '.' {
      assert body[j] == r[j];
    }
  }

  // ---------------------------------------------------------------------
  // Worked inputs
  // ---------------------------------------------------------------------

  /**
   * With only `.` present the text is left alone, so the point is the
   * decimal point: digits `w`, `.`, digits `f` parse as `w.f`.
   */
  lemma PointOnlyIsDecimalPoint(w: string, f: string)
    requires |w| >= 1 && AllDigits(w) && AllDigits(f)
    ensures ParseMoney(TextCell(w + "." + f)) == Some(Decimal(DigitsValue(w + f), |f|))
  {
    var s := w + "." + f;
    PointOnlyUntouched(w, f);
    assert ParseLiteral(s) == ParseParts(w, f, false) by {
      SignedLiteral("", s);
      assert "" + s == s;
      UnsignedAtDecimalPoint(w, f, false);
    }
    PartsValue(w, f, false);
  }

  /** Digits, `.`, digits: nothing to strip, clean or swap, and no placeholder. */
  lemma PointOnlyUntouched(w: string, f: string)
    requires |w| >= 1 && AllDigits(w) && AllDigits(f)
    ensures var s := w + "." + f; !IsPlaceholder(Strip(s)) && NormaliseSeparators(Clean(Strip(s))) == s
  {
    var s := w + "." + f;
    assert s[0] == w[0];
    StripUntouched(s);
    assert !IsPlaceholder(s);
    CleanUntouched(s);
    assert ',' !in s by {
      NotInDigits(w, ',');
      NotInDigits(f, ',');
      InConcat(w, ".", ',');
      InConcat(w + ".", f, ',');
    }
  }

  /** "1.234" is one point two three four, not one thousand two hundred and thirty-four. */
  lemma PointOnlyExample()
    ensures ParseMoney(TextCell("1.234")) == Some(Decimal(1234, 3))
  {
    var w, f := "1", "234";
    assert w + "." + f == "1.234";
    assert w + f == "1234";
    assert DigitsValue(w + f) == 1234 by {
      DigitsValueAppend("1", "234");
      DigitsValueAppend("23", "4");
      DigitsValueAppend("2", "3");
      assert "2" + "3" == "23";
      assert "23" + "4" == "234";
    }
    PointOnlyIsDecimalPoint(w, f);
  }

  /** A literal with a second `.` after the decimal point is not a decimal: `None`. */
  lemma TwoPointsUnreadable(body: string, i: nat, j: nat, negative: bool)
    requires i < j < |body| && body[i] == '.' && body[j] == '.'
    ensures ParseUnsigned(body, negative) == None
  {
    var k := IndexOf(body, '.');
    assert k <= i;
    assert body[k + 1..][j - k - 1] == '.';
  }

  /**
   * A text such as "1,2,3": only `,` occurs, twice or more, so after the
   * separator rule it carries two points and is unreadable.
   */
  lemma RepeatedCommaUnreadable(s: string, i: nat, j: nat)
    requires forall k :: 0 <= k < |s| ==> IsNumberChar(s[k]) && s[k] != '.'
    requires i < j < |s| && s[i] == ',' && s[j] == ','
    ensures ParseMoney(TextCell(s)) == None
  {
    var v := ReplaceChar(s, ',', '.');
    CommaOnlyText(s, i);
    assert v[i] == '.' && v[j] == '.';
    TwoPointsLiteral(v, i, j);
  }

  /** A literal, signed or not, with two points is unreadable. */
  lemma TwoPointsLiteral(v: string, i: nat, j: nat)
    requires i < j < |v| && v[i] == '.' && v[j] == '.'
    ensures ParseLiteral(v) == None
  {
    if v[0] == '-' {
      var body := v[1..];
      assert body[i - 1] == '.' && body[j - 1] == '.';
      TwoPointsUnreadable(body, i - 1, j - 1, true);
    } else {
      TwoPointsUnreadable(v, i, j, false);
    }
  }

  /** A cleaned text holding `,` but no `.` is parsed with every `,` read as a point. */
  lemma CommaOnlyText(s: string, i: nat)
    requires forall k :: 0 <= k < |s| ==> IsNumberChar(s[k]) && s[k] != '.'
    requires i < |s| && s[i] == ','
    ensures ParseMoney(TextCell(s)) == ParseLiteral(ReplaceChar(s, ',', '.'))
  {
    assert Strip(s) == s by {
      StripUntouched(s);
    }
    assert !IsPlaceholder(s) by {
      assert s[i] == ',';
    }
    CleanUntouched(s);
    assert s[i] in s;
    assert '.' !in s;
  }

  /** A text whose cleaned form holds no digit at all, such as "abc", gives `None`. */
  lemma NoDigitsUnreadable(v: string)
    requires forall i :: 0 <= i < |v| ==> !IsDigit(v[i])
    ensures ParseLiteral(v) == None
  {
    var body := if |v| > 0 && v[0] == '-' then v[1..] else v;
    var k := IndexOf(body, '.');
    var whole, fraction := body[..k], if k < |body| then body[k + 1..] else [];
    if |whole| > 0 {
      assert !IsDigit(whole[0]);
    } else if |fraction| > 0 {
      assert !IsDigit(fraction[0]);
    }
  }

  /** A `-` anywhere but in front, as in "1-2", makes the literal unreadable: `None`. */
  lemma InnerMinusUnreadable(v: string, i: nat)
    requires 0 < i < |v| && v[i] == '-'
    ensures ParseLiteral(v) == None
  {
    var negative := v[0] == '-';
    var body := if negative then v[1..] else v;
    var j := if negative then i - 1 else i;
    assert body[j] == '-';
    var k := IndexOf(body, '.');
    if j < k {
      assert body[..k][j] == '-';
    } else {
      assert j != k;
      assert body[k + 1..][j - k - 1] == '-';
    }
  }

  /** The placeholders, once stripped, give `None`; so do a missing cell and blank text. */
  lemma PlaceholdersAreNone(s: string)
    requires IsPlaceholder(Strip(s))
    ensures ParseMoney(TextCell(s)) == None
  {
  }

  /** Integer cells convert exactly: `Decimal(str(i))` is `i` with no decimals. */
  lemma IntegerCellsExact(i: int)
    ensures ParseMoney(IntCell(i)) == Some(Decimal(i, 0))
  {
    var body := NatDigits(Abs(i));
    var sign: string := if i < 0 then "-" else "";
    assert IntToString(i) == sign + body;
    SignedLiteral(sign, body);
    WholeLiteral(body, i < 0);
  }

  /** Digits without a point are a whole number: scale 0. */
  lemma WholeLiteral(body: string, negative: bool)
    requires |body| >= 1 && AllDigits(body)
    ensures ParseUnsigned(body, negative) == Some(Decimal(Signed(negative, DigitsValue(body)), 0))
  {
    var none: string := [];
    assert IndexOf(body, '.') == |body| by {
      NotInDigits(body, '.');
    }
    assert ParseUnsigned(body, negative) == ParseParts(body, none, negative) by {
      assert body[..|body|] == body;
    }
    assert DigitsValue(body + none) == DigitsValue(body) by {
      assert body + none == body;
    }
    PartsValue(body, none, negative);
    assert ParseParts(body, none, negative) == Some(Decimal(Signed(negative, DigitsValue(body)), 0));
  }

  /** "0,00" for `None`; 1234.56 prints as "1.234,56". */
  lemma FormatExamples()
    ensures FormatBrl(None) == "0,00"
    ensures FormatBrl(Some(Decimal(123456, 2))) == "1.234,56"
  {
    assert RoundHalfUp(Decimal(123456, 2)) == 123456 by {
      assert Pow10(0) == 1;
    }
    assert 123456 / 100 == 1234 && 123456 % 100 == 56;
    PrintedShape(false, 123456);
    GroupedExample();
    assert Pad2(56) == "56";
  }

  lemma GroupedExample()
    ensures SwapSeparators(GroupThousands(1234)) == "1.234"
  {
    GroupedSplit(1234);
    assert GroupThousands(1) == "1";
    SwapSeparatorsOnDigits("1");
    assert Pad3(234) == "234";
  }

  /** -0.125 rounds away from zero and keeps its sign: "-0,13". */
  lemma FormatNegativeExample()
    ensures FormatBrl(Some(Decimal(-125, 3))) == "-0,13"
  {
    assert RoundHalfUp(Decimal(-125, 3)) == -13 by {
      assert Pow10(1) == 10;
      assert HalfUpQuotient(125, 10) == 13;
    }
    PrintedUnderOneReal(true, -13);
    assert Pad2(13) == "13";
  }
}
