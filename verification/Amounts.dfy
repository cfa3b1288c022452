/** The payment amount parsers (src/background/payment_poller.rs) and the printer whose output they read
    back (src/background/dummy_worker.rs), on ASCII strings. */
module Amounts {
  import opened ModArith
  import opened Decimal
  import opened Options

  const MIN_PAYMENT_SATS := 546

  function Min(a: nat, b: nat): nat { if a <= b then a else b }

  function SaturatingMul(a: nat, b: nat): nat { Min(a * b, U64_MAX) }

  function SaturatingAdd(a: nat, b: nat): nat { Min(a + b, U64_MAX) }

  // ----- Bitcoin -----

  /** The fraction rounded to eight digits; rounding up may carry into a ninth. */
  function BtcFraction(frac: string): string {
    if |frac| < 8 then frac + Zeros(8 - |frac|)
    else if |frac| > 8 then
      if frac[8] >= '5' then Padded(SaturatingAdd(OrZero(ParseU64(frac[..8])), 1), 8) else frac[..8]
    else frac
  }

  function DropDust(sats: nat): nat {
    if sats < MIN_PAYMENT_SATS then 0 else sats
  }

  function ParseBtc(text: string): nat {
    if text == "" then 0
    else
      var s := Trim(text);
      if '.' in s then
        var parts := Split(s, {'.'});
        if |parts| != 2 then 0
        else
          var whole := OrZero(ParseU64(parts[0]));
          var frac := OrZero(ParseU64(BtcFraction(parts[1])));
          DropDust(SaturatingAdd(SaturatingMul(whole, 100_000_000), frac))
      else
        match ParseU64(s)
        case None => 0
        case Some(v) => DropDust(SaturatingMul(v, 100_000_000))
  }

  // ----- Monero -----

  /** Digits after the point cut to, or filled up to, the given number of places. */
  function CutFraction(frac: string, places: nat): string {
    if |frac| < places then frac + Zeros(places - |frac|)
    else frac[..places]
  }

  function ParseDecimal(s: string, places: nat): nat {
    var parts := Split(s, {'.'});
    if |parts| == 1 then SaturatingMul(OrZero(ParseU64(parts[0])), TenTo(places))
    else if |parts| == 2 then
      SaturatingAdd(SaturatingMul(OrZero(ParseU64(parts[0])), TenTo(places)),
                    OrZero(ParseU64(CutFraction(parts[1], places))))
    else 0
  }

  const EXPONENT_MARKS := {'e', 'E'}

  /** None is the overflow of `10u64.pow` for exponents beyond 19 in either direction. */
  function ParseXmr(text: string): Option<nat> {
    if text == "" then Some(0)
    else
      var s := Trim(text);
      if 'e' in s || 'E' in s then
        var parts := Split(s, EXPONENT_MARKS);
        var mantissa := ParseDecimal(parts[0], 12);
        Scaled(mantissa, ParseExponent(if |parts| > 1 then parts[1] else "0"))
      else Some(ParseDecimal(s, 12))
  }

  function Scaled(mantissa: nat, exponent: int): Option<nat> {
    if exponent > 19 || exponent < -19 then None
    else if exponent >= 0 then Some(SaturatingMul(mantissa, TenTo(exponent)))
    else Some(Quotient(mantissa, TenTo(-exponent)))
  }

  function ParseExponent(s: string): int {
    var e := ParseI32(s);
    if e.Some? then e.value else 0
  }

  // ----- What a decimal string means -----

  /** A digit string with a fraction after a point, or a nonempty one without a point. */
  ghost predicate IsDecimal(text: string, whole: string, frac: string) {
    && AllDigits(whole) && AllDigits(frac)
    && (text == whole + "." + frac || (text == whole && whole != "" && frac == ""))
  }

  /** Numerator of the value over 10^|frac|. */
  function Numerator(whole: string, frac: string): nat
    requires AllDigits(whole) && AllDigits(frac)
  {
    Number(whole) * TenTo(|frac|) + Number(frac)
  }

  function RoundHalfUp(n: nat, d: nat): nat
    requires d > 0
  {
    Quotient(2 * n + d, 2 * d)
  }

  lemma {:induction false} TrimKeeps(s: string)
    requires s != "" ==> !IsSpace(s[0]) && !IsSpace(s[|s| - 1])
    ensures Trim(s) == s
  {}

  lemma WholeAndFraction(whole: string, frac: string)
    requires AllDigits(whole) && AllDigits(frac)
    ensures var s := whole + "." + frac;
            Trim(s) == s && '.' in s && Split(s, {'.'}) == [whole, frac]
            && 'e' !in s && 'E' !in s
  {
    var s := whole + "." + frac;
    assert s[|whole|] == '.';
    TrimKeeps(s);
    SplitAt(whole, '.', frac, {'.'});
    SplitWhole(frac, {'.'});
  }

  lemma SaturatingSum(a: nat, b: nat, c: nat)
    ensures SaturatingAdd(SaturatingMul(a, b), c) == Min(a * b + c, U64_MAX)
  {}

  // ----- Bitcoin rounding -----

  lemma EightDigits(s: string)
    requires AllDigits(s) && |s| <= 8
    ensures Number(s) < 100_000_000
  {
    NumberBound(s);
    TenToMonotone(|s|, 8);
    TenToEight();
  }

  lemma TenToEight()
    ensures TenTo(8) == 100_000_000 && TenTo(12) == 1_000_000_000_000
  {
    assert TenTo(4) == 10_000;
    TenToAdd(4, 4);
    TenToAdd(8, 4);
  }

  /** The first digit decides on which side of one half a digit string lies. */
  lemma LeadingDigitDecidesHalf(h: string)
    requires AllDigits(h) && h != ""
    ensures h[0] >= '5' <==> 2 * Number(h) >= TenTo(|h|)
  {
    var t := h[1..];
    assert h == [h[0]] + t;
    NumberConcat([h[0]], t);
    assert Number([h[0]]) == DigitValue(h[0]) by { assert [h[0]][..0] == ""; }
    NumberBound(t);
    var p := TenTo(|t|);
    if h[0] >= '5' { MulMono(5, DigitValue(h[0]), p); } else { MulMono(DigitValue(h[0]), 4, p); }
  }

  /** Rounding g + h/q, with 0 <= h < q, gives g or g + 1 according to the half. */
  lemma RoundSplit(g: nat, h: nat, q: nat)
    requires h < q
    ensures RoundHalfUp(g * q + h, q) == if 2 * h >= q then g + 1 else g
  {
    var n := 2 * (g * q + h) + q;
    assert n == g * (2 * q) + (2 * h + q) by { Associate(g, 2, q); Associate(2, g, q); }
    if 2 * h >= q {
      assert n == (g + 1) * (2 * q) + (2 * h - q) by { Distribute(g, 1, 2 * q); }
      QuotientUnique(n, 2 * q, g + 1, 2 * h - q);
    } else {
      QuotientUnique(n, 2 * q, g, 2 * h + q);
    }
  }

  /** The fraction times 10^8, rounded half up. */
  function RoundedFraction(f: string): nat
    requires AllDigits(f)
  {
    RoundHalfUp(Number(f) * 100_000_000, TenTo(|f|))
  }

  lemma PaddedFractionRounds(f: string, k: nat)
    requires AllDigits(f) && |f| + k == 8
    ensures AllDigits(f + Zeros(k)) && Number(f + Zeros(k)) == RoundedFraction(f)
  {
    PadRight(f, k);
    EightPlaces(|f|, k);
    ExactRound(Number(f), TenTo(k), TenTo(|f|), 100_000_000);
  }

  lemma ExactRound(n: nat, r: nat, q: nat, k: nat)
    requires q > 0 && q * r == k
    ensures RoundHalfUp(n * k, q) == n * r
  {
    Factored(n, r, q, k);
    RoundSplit(n * r, 0, q);
  }

  lemma EightPlaces(a: nat, b: nat)
    requires a + b == 8
    ensures TenTo(a) * TenTo(b) == 100_000_000
  {
    TenToAdd(a, b);
    TenToEight();
  }

  lemma Factored(n: nat, r: nat, q: nat, k: nat)
    requires q * r == k
    ensures n * k == (n * r) * q
  {
    Associate(n, r, q);
    assert r * q == q * r;
  }

  lemma LongFractionRounds(f: string)
    requires AllDigits(f) && |f| > 8
    ensures RoundedFraction(f) == Number(f[..8]) + (if f[8] >= '5' then 1 else 0)
  {
    TenToEight();
    var g, h := f[..8], f[8..];
    assert f == g + h && h[0] == f[8];
    NumberConcat(g, h);
    NumberBound(h);
    LeadingDigitDecidesHalf(h);
    TenToAdd(8, |h|);
    ScaledRound(Number(f), 100_000_000, TenTo(|h|));
    RoundSplit(Number(g), Number(h), TenTo(|h|));
  }

  /** The fraction string the parser builds denotes the rounded fraction. */
  lemma FractionRounds(f: string)
    requires AllDigits(f)
    ensures OrZero(ParseU64(BtcFraction(f))) == RoundedFraction(f) <= 100_000_000
  {
    if |f| > 8 {
      LongFractionRounds(f);
      EightDigits(f[..8]);
      ParseDigits(f[..8], U64_MAX);
      ParseDigits(Padded(Number(f[..8]) + 1, 8), U64_MAX);
    } else {
      var t := f + Zeros(8 - |f|);
      PaddedFractionRounds(f, 8 - |f|);
      EightDigits(t);
      ParseDigits(t, U64_MAX);
      assert |f| == 8 ==> t == f;
    }
  }

  /** Scaling both sides of a division by k changes nothing. */
  lemma ScaledQuotient(a: nat, d: nat, k: nat)
    requires k > 0 && d > 0
    ensures d * k > 0 && Quotient(a * k, d * k) == Quotient(a, d)
  {
    MulMono(1, d, k);
    var r := Remainder(a, d);
    Distribute(Quotient(a, d) * d, r, k);
    Associate(Quotient(a, d), d, k);
    MulMono(r + 1, d, k);
    Distribute(r, 1, k);
    MulMono(0, r, k);
    QuotientUnique(a * k, d * k, Quotient(a, d), r * k);
  }

  lemma ScaledRound(n: nat, k: nat, q: nat)
    requires k > 0 && q > 0
    ensures k * q > 0 && RoundHalfUp(n * k, k * q) == RoundHalfUp(n, q)
  {
    MulMono(1, k, q);
    ScaledQuotient(2 * n + q, 2 * q, k);
    assert k * q == q * k;
    Distribute(2 * n, q, k);
    Associate(2, n, k);
    Associate(2, q, k);
  }

  /** The value in satoshis, rounded half up and capped at the largest 64-bit number. */
  function BtcValue(whole: string, frac: string): nat
    requires AllDigits(whole) && AllDigits(frac)
  {
    Min(RoundHalfUp(Numerator(whole, frac) * 100_000_000, TenTo(|frac|)), U64_MAX)
  }

  /** Rounding is to the nearest integer, halves up. */
  lemma RoundIsNearest(n: nat, d: nat)
    requires d > 0
    ensures 2 * n - d < 2 * (RoundHalfUp(n, d) * d) <= 2 * n + d
  {
    var q := RoundHalfUp(n, d);
    var r := Remainder(2 * n + d, 2 * d);
    assert q * (2 * d) == 2 * (q * d) by { Associate(q, 2, d); Associate(2, q, d); }
  }

  /** A value below the cap is the satoshi count nearest to the exact value, halves up: with N the digits read as
      one number, N * 10^8 over 10^|frac|. */
  lemma BtcValueIsNearest(whole: string, frac: string, q: nat)
    requires AllDigits(whole) && AllDigits(frac) && q == TenTo(|frac|)
    ensures BtcValue(whole, frac) < U64_MAX ==>
            var n := (Number(whole) * q + Number(frac)) * 100_000_000;
            2 * n - q < 2 * (BtcValue(whole, frac) * q) <= 2 * n + q
  {
    RoundIsNearest(Numerator(whole, frac) * 100_000_000, q);
  }

  lemma RoundWholePlus(w: nat, n: nat, q: nat)
    requires q > 0
    ensures RoundHalfUp((w * q + n) * 100_000_000, q) == w * 100_000_000 + RoundHalfUp(n * 100_000_000, q)
  {
    var m := n * 100_000_000;
    var k := w * 100_000_000;
    assert (w * q + n) * 100_000_000 == k * q + m by {
      Distribute(w * q, n, 100_000_000);
      Associate(w, q, 100_000_000);
      Associate(w, 100_000_000, q);
    }
    assert 2 * (k * q + m) + q == 2 * m + q + k * (2 * q) by { Associate(k, 2, q); Associate(2, k, q); }
    QuotientAddMultiple(2 * m + q, k, 2 * q);
  }

  lemma ParseBtcParts(whole: string, frac: string)
    requires AllDigits(whole) && AllDigits(frac)
    ensures ParseBtc(whole + "." + frac) ==
            DropDust(SaturatingAdd(SaturatingMul(OrZero(ParseU64(whole)), 100_000_000), OrZero(ParseU64(BtcFraction(frac)))))
  {
    WholeAndFraction(whole, frac);
  }

  /** The whole part as the parser reads it. */
  function ReadWhole(whole: string): nat
    requires AllDigits(whole)
  {
    if Number(whole) <= U64_MAX then Number(whole) else 0
  }

  /** The value in satoshis as the parser reads it. */
  function BtcRead(whole: string, frac: string): nat
    requires AllDigits(whole) && AllDigits(frac)
  {
    Min(ReadWhole(whole) * 100_000_000 + RoundedFraction(frac), U64_MAX)
  }

  /** What the parser computes for every digit string with a point. */
  lemma ParseBtcFormula(whole: string, frac: string)
    requires AllDigits(whole) && AllDigits(frac)
    ensures ParseBtc(whole + "." + frac) == if BtcRead(whole, frac) >= 546 then BtcRead(whole, frac) else 0
  {
    ParseBtcParts(whole, frac);
    FractionRounds(frac);
    ParseDigits(whole, U64_MAX);
    SaturatingSum(ReadWhole(whole), 100_000_000, RoundedFraction(frac));
  }

  lemma BtcValueSplits(whole: string, frac: string)
    requires AllDigits(whole) && AllDigits(frac)
    ensures BtcValue(whole, frac) == Min(Number(whole) * 100_000_000 + RoundedFraction(frac), U64_MAX)
  {
    RoundWholePlus(Number(whole), Number(frac), TenTo(|frac|));
  }

  lemma FittingWholeIsExact(whole: string, frac: string)
    requires AllDigits(whole) && AllDigits(frac) && Number(whole) <= U64_MAX
    ensures BtcRead(whole, frac) == BtcValue(whole, frac)
  {
    BtcValueSplits(whole, frac);
  }

  lemma LongWholeIsLost(whole: string, frac: string)
    requires AllDigits(whole) && AllDigits(frac) && Number(whole) > U64_MAX
    ensures BtcRead(whole, frac) <= 100_000_000
  {
    FractionRounds(frac);
  }

  lemma LongWholeSaturates(whole: string, frac: string)
    requires AllDigits(whole) && AllDigits(frac) && Number(whole) > U64_MAX
    ensures BtcValue(whole, frac) == U64_MAX
  {
    BtcValueSplits(whole, frac);
  }

  /** The parser returns the correctly rounded, capped and dust-filtered value exactly when the whole part
      fits 64 bits; a longer whole part is read as zero instead of saturating. */
  lemma ParseBtcExactIff(whole: string, frac: string)
    requires AllDigits(whole) && AllDigits(frac)
    ensures (ParseBtc(whole + "." + frac) == if BtcValue(whole, frac) >= 546 then BtcValue(whole, frac) else 0)
            <==> Number(whole) <= U64_MAX
  {
    ParseBtcFormula(whole, frac);
    BtcReadIff(whole, frac);
  }

  lemma BtcReadIff(whole: string, frac: string)
    requires AllDigits(whole) && AllDigits(frac)
    ensures DropDust(BtcRead(whole, frac)) == DropDust(BtcValue(whole, frac)) <==> Number(whole) <= U64_MAX
  {
    if Number(whole) <= U64_MAX {
      FittingWholeIsExact(whole, frac);
    } else {
      LongWholeIsLost(whole, frac);
      LongWholeSaturates(whole, frac);
    }
  }

  /** Without a point a nonempty digit string counts whole coins, saturating. */
  lemma ParseBtcWhole(whole: string)
    requires AllDigits(whole) && whole != ""
    ensures Number(whole) == 0 || Number(whole) > U64_MAX ==> ParseBtc(whole) == 0
    ensures 0 < Number(whole) <= U64_MAX ==>
      ParseBtc(whole) == if Number(whole) * 100_000_000 <= U64_MAX then Number(whole) * 100_000_000 else U64_MAX
  {
    TrimKeeps(whole);
    assert '.' !in whole;
  }

  /** The printer `{}.{:08}`. */
  function PrintAmount(whole: nat, frac: nat, places: nat): string {
    ToDecimal(whole) + "." + Padded(frac, places)
  }

  /** Every amount the printer writes is read back to the satoshi. */
  lemma BtcPrintParse(whole: nat, frac: nat)
    requires frac < 100_000_000 && whole <= U64_MAX
    ensures var sats := whole * 100_000_000 + frac;
            ParseBtc(PrintAmount(whole, frac, 8)) == if sats < 546 then 0 else if sats <= U64_MAX then sats else U64_MAX
  {
    TenToEight();
    PaddedLength(frac, 8);
    var f := Padded(frac, 8);
    assert f + Zeros(0) == f;
    PaddedFractionRounds(f, 0);
    ParseBtcFormula(ToDecimal(whole), f);
  }

  // ----- Monero: truncation and exponents -----

  lemma TwelveDigits(s: string)
    requires AllDigits(s) && |s| <= 12
    ensures Number(s) < 1_000_000_000_000
  {
    NumberBound(s);
    TenToMonotone(|s|, 12);
    TenToEight();
  }

  /** The exact value in piconero, rounded down. */
  function XmrFloor(whole: string, frac: string): nat
    requires AllDigits(whole) && AllDigits(frac)
  {
    Quotient(Numerator(whole, frac) * 1_000_000_000_000, TenTo(|frac|))
  }

  /** The digits the parser keeps. */
  function KeptFraction(f: string): nat
    requires AllDigits(f)
  {
    Number(CutFraction(f, 12))
  }

  lemma KeptBound(f: string)
    requires AllDigits(f)
    ensures AllDigits(CutFraction(f, 12)) && KeptFraction(f) < 1_000_000_000_000
  {
    TwelveDigits(CutFraction(f, 12));
  }

  lemma ShortFractionKept(f: string)
    requires AllDigits(f) && |f| < 12
    ensures KeptFraction(f) == Quotient(Number(f) * 1_000_000_000_000, TenTo(|f|))
  {
    PadRight(f, 12 - |f|);
    PlacesKept(Number(f), |f|);
  }

  lemma PlacesKept(n: nat, len: nat)
    requires len <= 12
    ensures Quotient(n * 1_000_000_000_000, TenTo(len)) == n * TenTo(12 - len)
  {
    TwelvePlaces(len, 12 - len);
    ExactQuotient(n, TenTo(12 - len), TenTo(len), 1_000_000_000_000);
  }

  lemma LongFractionKept(f: string)
    requires AllDigits(f) && |f| >= 12
    ensures KeptFraction(f) == Quotient(Number(f) * 1_000_000_000_000, TenTo(|f|))
  {
    var g, h := f[..12], f[12..];
    assert f == g + h;
    NumberConcat(g, h);
    NumberBound(h);
    TwelvePlacesOver(|h|);
    ScaledFloor(Number(g), Number(h), TenTo(|h|), 1_000_000_000_000);
  }

  /** The kept digits denote the fraction times 10^12, rounded down. */
  lemma CutFractionFloors(f: string)
    requires AllDigits(f)
    ensures KeptFraction(f) == Quotient(Number(f) * 1_000_000_000_000, TenTo(|f|))
  {
    if |f| < 12 { ShortFractionKept(f); } else { LongFractionKept(f); }
  }

  lemma ExactQuotient(n: nat, r: nat, q: nat, k: nat)
    requires q > 0 && q * r == k
    ensures Quotient(n * k, q) == n * r
  {
    Factored(n, r, q, k);
    QuotientUnique(n * k, q, n * r, 0);
  }

  lemma TwelvePlaces(a: nat, b: nat)
    requires a + b == 12
    ensures TenTo(a) * TenTo(b) == 1_000_000_000_000
  {
    TenToAdd(a, b);
    TenToEight();
  }

  lemma TwelvePlacesOver(h: nat)
    ensures TenTo(12 + h) == 1_000_000_000_000 * TenTo(h)
  {
    TenToAdd(12, h);
    TenToEight();
  }

  lemma ScaledFloor(g: nat, h: nat, q: nat, k: nat)
    requires h < q && k > 0
    ensures k * q > 0 && Quotient((g * q + h) * k, k * q) == g
  {
    MulMono(1, k, q);
    MulMono(h + 1, q, k);
    Distribute(h, 1, k);
    Distribute(g * q, h, k);
    Associate(g, q, k);
    MulMono(0, h, k);
    assert q * k == k * q;
    QuotientUnique((g * q + h) * k, k * q, g, h * k);
  }

  /** A decimal has no marks of an exponent and nothing to trim. */
  lemma DecimalShape(text: string, whole: string, frac: string)
    requires IsDecimal(text, whole, frac)
    ensures text != "" && !IsSpace(text[0]) && !IsSpace(text[|text| - 1])
    ensures Without(text, EXPONENT_MARKS) && 'e' !in text && 'E' !in text
  {
    if text == whole + "." + frac { assert text[|whole|] == '.'; }
  }

  lemma ParseDecimalParts(whole: string, frac: string)
    requires AllDigits(whole) && AllDigits(frac)
    ensures ParseDecimal(whole + "." + frac, 12) ==
            SaturatingAdd(SaturatingMul(OrZero(ParseU64(whole)), TenTo(12)), OrZero(ParseU64(CutFraction(frac, 12))))
  {
    WholeAndFraction(whole, frac);
  }

  lemma ParseDecimalWhole(whole: string)
    requires AllDigits(whole)
    ensures ParseDecimal(whole, 12) == SaturatingMul(OrZero(ParseU64(whole)), TenTo(12))
  {
    SplitWhole(whole, {'.'});
  }

  lemma EmptyFraction()
    ensures KeptFraction("") == 0
  {
    CutFractionFloors("");
  }

  /** The mantissa as the parser reads it, in piconero. */
  function Mantissa(whole: string, frac: string): nat
    requires AllDigits(whole) && AllDigits(frac)
  {
    Min(ReadWhole(whole) * 1_000_000_000_000 + KeptFraction(frac), U64_MAX)
  }

  lemma PointFormula(whole: string, frac: string)
    requires AllDigits(whole) && AllDigits(frac)
    ensures ParseDecimal(whole + "." + frac, 12) == Mantissa(whole, frac)
  {
    ParseDecimalParts(whole, frac);
    ParseDigits(whole, U64_MAX);
    KeptBound(frac);
    ParseDigits(CutFraction(frac, 12), U64_MAX);
    TenToEight();
    SaturatingSum(ReadWhole(whole), 1_000_000_000_000, KeptFraction(frac));
  }

  lemma NoPointFormula(whole: string)
    requires AllDigits(whole)
    ensures ParseDecimal(whole, 12) == Mantissa(whole, "")
  {
    ParseDecimalWhole(whole);
    ParseDigits(whole, U64_MAX);
    TenToEight();
    EmptyFraction();
  }

  /** What the mantissa parser computes for every decimal, with or without a point. */
  lemma ParseDecimalFormula(text: string, whole: string, frac: string)
    requires IsDecimal(text, whole, frac)
    ensures ParseDecimal(text, 12) == Mantissa(whole, frac)
  {
    if text == whole + "." + frac { PointFormula(whole, frac); } else { NoPointFormula(whole); }
  }

  lemma FloorWholePlus(w: nat, n: nat, q: nat)
    requires q > 0
    ensures Quotient((w * q + n) * 1_000_000_000_000, q) == w * 1_000_000_000_000 + Quotient(n * 1_000_000_000_000, q)
  {
    var k := w * 1_000_000_000_000;
    Distribute(w * q, n, 1_000_000_000_000);
    Associate(w, q, 1_000_000_000_000);
    Associate(w, 1_000_000_000_000, q);
    QuotientAddMultiple(n * 1_000_000_000_000, k, q);
  }

  lemma XmrFloorSplits(whole: string, frac: string)
    requires AllDigits(whole) && AllDigits(frac)
    ensures XmrFloor(whole, frac) == Number(whole) * 1_000_000_000_000 + KeptFraction(frac)
  {
    CutFractionFloors(frac);
    FloorWholePlus(Number(whole), Number(frac), TenTo(|frac|));
  }

  lemma XmrCapTells(n: nat, f: nat, parsed: nat, value: nat)
    requires f < 1_000_000_000_000
    requires parsed == Min((if n <= U64_MAX then n else 0) * 1_000_000_000_000 + f, U64_MAX)
    requires value == n * 1_000_000_000_000 + f
    ensures parsed == Min(value, U64_MAX) <==> n <= U64_MAX
    ensures value <= U64_MAX ==> parsed == value
  {}

  /** The mantissa is its exact value rounded down and capped exactly when its whole part fits 64 bits. */
  lemma MantissaFloorsIff(text: string, whole: string, frac: string)
    requires IsDecimal(text, whole, frac)
    ensures ParseDecimal(text, 12) == Min(XmrFloor(whole, frac), U64_MAX) <==> Number(whole) <= U64_MAX
    ensures XmrFloor(whole, frac) <= U64_MAX ==> ParseDecimal(text, 12) == XmrFloor(whole, frac)
  {
    ParseDecimalFormula(text, whole, frac);
    XmrFloorSplits(whole, frac);
    KeptBound(frac);
    XmrCapTells(Number(whole), KeptFraction(frac), ParseDecimal(text, 12), XmrFloor(whole, frac));
  }

  /** A plain decimal is read as its value in piconero rounded down and capped exactly when its whole part
      fits 64 bits. */
  lemma ParseXmrPlainIff(text: string, whole: string, frac: string)
    requires IsDecimal(text, whole, frac)
    ensures ParseXmr(text) == Some(Min(XmrFloor(whole, frac), U64_MAX)) <==> Number(whole) <= U64_MAX
  {
    ParseXmrPlain(text, whole, frac);
    MantissaFloorsIff(text, whole, frac);
  }

  /** Without a point a nonempty digit string counts whole coins, capped, exactly when it fits 64 bits. */
  lemma ParseXmrWholeIff(whole: string)
    requires AllDigits(whole) && whole != ""
    ensures ParseXmr(whole) == Some(Min(Number(whole) * 1_000_000_000_000, U64_MAX)) <==> Number(whole) <= U64_MAX
  {
    ParseXmrPlainIff(whole, whole, "");
    XmrFloorSplits(whole, "");
    EmptyFraction();
  }

  lemma ParseXmrPlain(text: string, whole: string, frac: string)
    requires IsDecimal(text, whole, frac)
    ensures ParseXmr(text) == Some(ParseDecimal(text, 12))
  {
    DecimalShape(text, whole, frac);
    TrimKeeps(text);
  }

  /** An exponent suffix: a mark, a sign or none, and digits. */
  ghost predicate IsExponent(mark: char, sign: string, digits: string) {
    mark in EXPONENT_MARKS && sign in {"", "+", "-"} && digits != "" && AllDigits(digits) && Number(digits) <= 19
  }

  function ExponentOf(sign: string, digits: string): int
    requires AllDigits(digits)
  {
    if sign == "-" then 0 - Number(digits) else Number(digits)
  }

  lemma ExponentHasNoMarks(sign: string, digits: string)
    requires sign in {"", "+", "-"} && AllDigits(digits)
    ensures Without(sign + digits, EXPONENT_MARKS)
  {}

  lemma UnsignedParses(digits: string)
    requires digits != "" && AllDigits(digits) && Number(digits) <= 19
    ensures ParseExponent(digits) == ParseExponent("+" + digits) == Number(digits)
  {
    assert ("+" + digits)[1..] == digits;
  }

  lemma NegativeParses(digits: string)
    requires digits != "" && AllDigits(digits) && Number(digits) <= 19
    ensures ParseExponent("-" + digits) == 0 - Number(digits)
  {
    assert ("-" + digits)[1..] == digits;
  }

  lemma ExponentParses(sign: string, digits: string)
    requires sign in {"", "+", "-"} && digits != "" && AllDigits(digits) && Number(digits) <= 19
    ensures ParseExponent(sign + digits) == ExponentOf(sign, digits)
  {
    UnsignedParses(digits);
    NegativeParses(digits);
    assert "" + digits == digits;
  }

  lemma ScientificShape(m: string, mark: char, x: string)
    requires m != "" && x != "" && !IsSpace(m[0]) && !IsSpace(x[|x| - 1]) && mark in EXPONENT_MARKS
    requires Without(m, EXPONENT_MARKS) && Without(x, EXPONENT_MARKS)
    ensures var s := m + [mark] + x;
            Trim(s) == s && ('e' in s || 'E' in s) && Split(s, EXPONENT_MARKS) == [m, x]
  {
    var s := m + [mark] + x;
    assert s[|m|] == mark;
    assert s[|s| - 1] == x[|x| - 1] && s[0] == m[0];
    TrimKeeps(s);
    SplitAt(m, mark, x, EXPONENT_MARKS);
    SplitWhole(x, EXPONENT_MARKS);
  }

  /** A decimal with an exponent suffix. */
  function Scientific(text: string, mark: char, sign: string, digits: string): string {
    text + [mark] + (sign + digits)
  }

  lemma SuffixShape(sign: string, digits: string)
    requires sign in {"", "+", "-"} && digits != "" && AllDigits(digits) && Number(digits) <= 19
    ensures var x := sign + digits;
            x != "" && !IsSpace(x[|x| - 1]) && Without(x, EXPONENT_MARKS) && ParseExponent(x) == ExponentOf(sign, digits)
  {
    ExponentParses(sign, digits);
    ExponentHasNoMarks(sign, digits);
    assert (sign + digits)[|sign + digits| - 1] == digits[|digits| - 1];
  }

  lemma SplitParses(m: string, mark: char, x: string)
    requires m != "" && x != "" && !IsSpace(m[0]) && !IsSpace(x[|x| - 1]) && mark in EXPONENT_MARKS
    requires Without(m, EXPONENT_MARKS) && Without(x, EXPONENT_MARKS)
    ensures ParseXmr(m + [mark] + x) == Scaled(ParseDecimal(m, 12), ParseExponent(x))
  {
    ScientificShape(m, mark, x);
  }

  lemma ScientificParts(text: string, whole: string, frac: string, mark: char, sign: string, digits: string)
    requires IsDecimal(text, whole, frac) && IsExponent(mark, sign, digits)
    ensures ParseXmr(Scientific(text, mark, sign, digits)) == Scaled(Mantissa(whole, frac), ExponentOf(sign, digits))
  {
    ParseDecimalFormula(text, whole, frac);
    DecimalShape(text, whole, frac);
    SuffixShape(sign, digits);
    SplitParses(text, mark, sign + digits);
  }

  lemma NestedRemainders(n: nat, q: nat, k: nat, a: nat, r: nat, b: nat, t: nat)
    requires n == a * q + r && r < q && a == b * k + t && t < k
    ensures q * k > 0 && t * q + r < q * k && n == b * (q * k) + (t * q + r)
  {
    assert q * k == k * q;
    Distribute(b * k, t, q);
    Associate(b, k, q);
    MulMono(t + 1, k, q);
    Distribute(t, 1, q);
    MulMono(0, t, q);
  }

  lemma FloorOfFloor(n: nat, q: nat, k: nat)
    requires q > 0 && k > 0
    ensures q * k > 0 && Quotient(Quotient(n, q), k) == Quotient(n, q * k)
  {
    var a := Quotient(n, q);
    var r := Remainder(n, q);
    var t := Remainder(a, k);
    NestedRemainders(n, q, k, a, r, Quotient(a, k), t);
    MulMono(0, t, q);
    QuotientUnique(n, q * k, Quotient(a, k), t * q + r);
  }

  /** Dividing by a power of ten up to 10^19. */
  lemma ScaledNegative(m: nat, k: nat)
    requires k <= 19 && m <= U64_MAX
    ensures Scaled(m, 0 - k) == Some(Quotient(m, TenTo(k)))
  {
    if k == 0 { assert TenTo(0) == 1; }
  }

  lemma ScaledPositive(m: nat, k: nat)
    requires k <= 19
    ensures Scaled(m, k) == Some(Min(m * TenTo(k), U64_MAX))
  {}

  /** The value in piconero as the parser reads it. */
  function XmrRead(whole: string, frac: string, sign: string, digits: string): nat
    requires AllDigits(whole) && AllDigits(frac) && AllDigits(digits)
  {
    var m, k := Mantissa(whole, frac), TenTo(Number(digits));
    if sign == "-" then Quotient(m, k) else Min(m * k, U64_MAX)
  }

  lemma ScaledBySign(whole: string, frac: string, sign: string, digits: string)
    requires AllDigits(whole) && AllDigits(frac) && AllDigits(digits) && Number(digits) <= 19
    ensures Scaled(Mantissa(whole, frac), ExponentOf(sign, digits)) == Some(XmrRead(whole, frac, sign, digits))
  {
    var m := Mantissa(whole, frac);
    if sign == "-" { ScaledNegative(m, Number(digits)); } else { ScaledPositive(m, Number(digits)); }
  }

  /** What the parser computes for every decimal with an exponent from -19 to 19. */
  lemma ParseXmrFormula(text: string, whole: string, frac: string, mark: char, sign: string, digits: string)
    requires IsDecimal(text, whole, frac) && IsExponent(mark, sign, digits)
    ensures ParseXmr(Scientific(text, mark, sign, digits)) == Some(XmrRead(whole, frac, sign, digits))
  {
    ScientificParts(text, whole, frac, mark, sign, digits);
    ScaledBySign(whole, frac, sign, digits);
  }

  lemma TenToNineteen(e: nat)
    requires e <= 19
    ensures 0 < TenTo(e) <= 10_000_000_000_000_000_000
  {
    TenToMonotone(e, 19);
    TenToEight();
    assert TenTo(3) == 1000;
    TenToAdd(8, 8);
    TenToAdd(16, 3);
  }

  /** Dividing the mantissa as read equals dividing the exact one until that reaches the next multiple of the
      divisor above the cap. */
  lemma DividedIff(n: nat, f: nat, m: nat, k: nat)
    requires f < 1_000_000_000_000 && 0 < k <= 10_000_000_000_000_000_000
    requires m == Min((if n <= U64_MAX then n else 0) * 1_000_000_000_000 + f, U64_MAX)
    ensures var v := n * 1_000_000_000_000 + f; m / k == v / k <==> v < (U64_MAX / k + 1) * k
  {
    var v, q := n * 1_000_000_000_000 + f, U64_MAX / k;
    BelowNextMultiple(v, k, q);
    if v <= U64_MAX {
      DivideMonotone(v, U64_MAX, k);
    } else {
      DivideMonotone(U64_MAX, v, k);
      if n > U64_MAX { LostWholeShows(v, f, k); }
    }
  }

  lemma BelowNextMultiple(v: nat, k: nat, q: nat)
    requires k > 0
    ensures v < (q + 1) * k <==> v / k <= q
  {
    var a, r := v / k, v % k;
    assert v == a * k + r;
    Distribute(q, 1, k);
    Distribute(a, 1, k);
    if a <= q { MulMono(a + 1, q + 1, k); } else { MulMono(q + 1, a, k); }
  }

  lemma DivideMonotone(a: nat, b: nat, k: nat)
    requires k > 0 && a <= b
    ensures a / k <= b / k
  {
    BelowNextMultiple(a, k, b / k);
    BelowNextMultiple(b, k, b / k);
  }

  lemma LostWholeShows(v: nat, f: nat, k: nat)
    requires f < 1_000_000_000_000 && 0 < k <= 10_000_000_000_000_000_000
    requires v > U64_MAX * 1_000_000_000_000
    ensures U64_MAX / k < v / k && f / k < v / k
  {
    DivideMonotone(f, 1_000_000_000_000, k);
    DivideMonotone(U64_MAX + k, v, k);
    BelowNextMultiple(U64_MAX, k, U64_MAX / k);
    BelowNextMultiple(U64_MAX + k, k, U64_MAX / k);
    Distribute(U64_MAX / k, 1, k);
  }

  /** The first multiple of k above the largest 64-bit number. */
  function MultipleAboveCap(k: nat): int
    requires k > 0
  {
    (U64_MAX / k + 1) * k
  }

  function Times(a: nat, b: nat): (p: nat)
    requires a > 0 && b > 0
    ensures p > 0
  {
    MulMono(1, a, b);
    a * b
  }

  /** The exact value in piconero divided by k, rounded down once. */
  function XmrFloorOver(whole: string, frac: string, k: nat): nat
    requires AllDigits(whole) && AllDigits(frac) && k > 0
  {
    Quotient(Numerator(whole, frac) * 1_000_000_000_000, Times(TenTo(|frac|), k))
  }

  lemma OneRoundingIff(whole: string, frac: string, k: nat)
    requires AllDigits(whole) && AllDigits(frac) && 0 < k <= 10_000_000_000_000_000_000
    ensures Quotient(Mantissa(whole, frac), k) == XmrFloorOver(whole, frac, k) <==>
            XmrFloor(whole, frac) < MultipleAboveCap(k)
  {
    FloorOfFloor(Numerator(whole, frac) * 1_000_000_000_000, TenTo(|frac|), k);
    FlooredIff(whole, frac, k, XmrFloor(whole, frac));
  }

  lemma FlooredIff(whole: string, frac: string, k: nat, v: nat)
    requires AllDigits(whole) && AllDigits(frac) && 0 < k <= 10_000_000_000_000_000_000 && v == XmrFloor(whole, frac)
    ensures Quotient(Mantissa(whole, frac), k) == Quotient(v, k) <==> v < MultipleAboveCap(k)
  {
    XmrFloorSplits(whole, frac);
    KeptBound(frac);
    QuotientIsDivision(Mantissa(whole, frac), k);
    QuotientIsDivision(v, k);
    DividedIff(Number(whole), KeptFraction(frac), Mantissa(whole, frac), k);
  }

  /** With an exponent from -19 to 0, truncating the mantissa and then dividing is one rounding down of the
      exact value, exactly when the mantissa stays below the first multiple of the power of ten above the
      largest 64-bit number. */
  lemma ParseXmrNegativeIff(text: string, whole: string, frac: string, mark: char, digits: string, k: nat)
    requires IsDecimal(text, whole, frac) && IsExponent(mark, "-", digits) && k == TenTo(Number(digits))
    ensures ParseXmr(Scientific(text, mark, "-", digits)) == Some(XmrFloorOver(whole, frac, k)) <==>
            XmrFloor(whole, frac) < MultipleAboveCap(k)
  {
    ParseXmrFormula(text, whole, frac, mark, "-", digits);
    TenToNineteen(Number(digits));
    OneRoundingIff(whole, frac, k);
  }

  /** A result in units of 1/q that is at most the exact n * k / q and falls short of it by less than k. */
  ghost predicate JustBelow(parsed: Option<nat>, n: nat, q: nat, k: nat) {
    parsed.Some? && parsed.value * q <= n * k < (parsed.value + k) * q
  }

  lemma ScaledUp(m: nat, n: nat, q: nat, k: nat)
    requires q > 0 && k > 0 && m == Quotient(n, q)
    ensures JustBelow(Some(m * k), n, q, k)
  {
    var r := Remainder(n, q);
    Distribute(m * q, r, k);
    Distribute(m * k, k, q);
    Associate(m, q, k);
    Associate(m, k, q);
    assert k * q == q * k;
    MulMono(r, q - 1, k);
    Distribute(q, 1, k);
    MulMono(0, r, k);
  }

  lemma MultipliedIff(n: nat, f: nat, m: nat, k: nat)
    requires f < 1_000_000_000_000 && k > 0
    requires m == Min((if n <= U64_MAX then n else 0) * 1_000_000_000_000 + f, U64_MAX)
    ensures var v := n * 1_000_000_000_000 + f;
            && (Min(m * k, U64_MAX) == Min(v * k, U64_MAX) <==> n <= U64_MAX || f * k >= U64_MAX)
            && (v * k <= U64_MAX ==> m == v)
  {
    var v := n * 1_000_000_000_000 + f;
    MulMono(1, k, v);
    MulMono(1, k, U64_MAX);
    MulMono(1, k, m);
  }

  lemma CappedProductIff(whole: string, frac: string, k: nat)
    requires AllDigits(whole) && AllDigits(frac) && k > 0
    ensures var (m, v) := (Mantissa(whole, frac), XmrFloor(whole, frac));
            && (Min(m * k, U64_MAX) == Min(v * k, U64_MAX) <==> Number(whole) <= U64_MAX || KeptFraction(frac) * k >= U64_MAX)
            && (v * k <= U64_MAX ==>
                  JustBelow(Some(Min(m * k, U64_MAX)), Numerator(whole, frac) * 1_000_000_000_000, TenTo(|frac|), k))
  {
    XmrFloorSplits(whole, frac);
    KeptBound(frac);
    MultipliedIff(Number(whole), KeptFraction(frac), Mantissa(whole, frac), k);
    ScaledUp(XmrFloor(whole, frac), Numerator(whole, frac) * 1_000_000_000_000, TenTo(|frac|), k);
  }

  /** With an exponent from 0 to 19 the rounded mantissa is multiplied and capped exactly when its whole part
      fits 64 bits, or is lost but the fraction alone reaches the cap. Short of the cap the result never
      exceeds the exact value and falls short of it by less than the power of ten. */
  lemma ParseXmrPositiveIff(text: string, whole: string, frac: string, mark: char, sign: string, digits: string, k: nat)
    requires IsDecimal(text, whole, frac) && IsExponent(mark, sign, digits) && sign != "-" && k == TenTo(Number(digits))
    ensures ParseXmr(Scientific(text, mark, sign, digits)) == Some(Min(XmrFloor(whole, frac) * k, U64_MAX)) <==>
            Number(whole) <= U64_MAX || KeptFraction(frac) * k >= U64_MAX
    ensures XmrFloor(whole, frac) * k <= U64_MAX ==>
            JustBelow(ParseXmr(Scientific(text, mark, sign, digits)),
                      Numerator(whole, frac) * 1_000_000_000_000, TenTo(|frac|), k)
  {
    ParseXmrFormula(text, whole, frac, mark, sign, digits);
    CappedProductIff(whole, frac, k);
  }

  lemma TwelveDigitsKept(f: string)
    requires AllDigits(f) && |f| == 12
    ensures KeptFraction(f) == Number(f)
  {
    assert CutFraction(f, 12) == f;
  }

  /** Every amount the printer writes is read back to the piconero, capped. */
  lemma XmrPrintParse(whole: nat, frac: nat)
    requires frac < 1_000_000_000_000 && whole <= U64_MAX
    ensures ParseXmr(PrintAmount(whole, frac, 12)) == Some(Min(whole * 1_000_000_000_000 + frac, U64_MAX))
  {
    TenToEight();
    PaddedLength(frac, 12);
    var w, f := ToDecimal(whole), Padded(frac, 12);
    TwelveDigitsKept(f);
    ParseXmrPlain(w + "." + f, w, f);
    ParseDecimalFormula(w + "." + f, w, f);
  }

  // ----- Amounts in full -----

  lemma OneDigit(c: char)
    requires IsDigit(c)
    ensures AllDigits([c]) && Number([c]) == c as int - '0' as int
  {
    assert [c][..0] == "";
  }

  lemma DigitAppended(s: string, c: char)
    requires AllDigits(s) && IsDigit(c)
    ensures AllDigits(s + [c]) && Number(s + [c]) == 10 * Number(s) + (c as int - '0' as int)
  {
    assert (s + [c])[..|s|] == s;
  }

  lemma FiveZeros(z: string)
    requires z == "00000"
    ensures AllDigits(z) && Number(z) == 0
  {
    assert z == Zeros(5);
  }

  lemma FiveFourFiveNine(f: string)
    requires f == "000005459"
    ensures AllDigits(f) && Number(f) == 5459 && Number(f[..8]) == 545 && f[8] == '9'
  {
    var zeros := "00000";
    FiveZeros(zeros);
    DigitAppended(zeros, '5');
    DigitAppended(zeros + ['5'], '4');
    DigitAppended(zeros + ['5'] + ['4'], '5');
    DigitAppended(zeros + ['5'] + ['4'] + ['5'], '9');
    assert f[..8] == zeros + ['5'] + ['4'] + ['5'];
    assert f == zeros + ['5'] + ['4'] + ['5'] + ['9'];
  }

  /** 545.9 satoshis round up to the smallest amount that is not dust. */
  lemma DustSample(f: string)
    requires f == "000005459"
    ensures AllDigits(f) && ParseBtc("0" + "." + f) == 546
  {
    FiveFourFiveNine(f);
    OneDigit('0');
    LongFractionRounds(f);
    ParseBtcFormula("0", f);
  }

  /** One and a half coins. */
  lemma HalfSample(f: string)
    requires f == "5"
    ensures AllDigits(f) && ParseBtc("1" + "." + f) == 150_000_000
    ensures ParseXmr("1" + "." + f) == Some(1_500_000_000_000)
  {
    OneDigit('1');
    OneDigit('5');
    PlacesRounds(5, 1, 10);
    ParseBtcFormula("1", f);
    ParseXmrPlain("1" + "." + f, "1", f);
    ParseDecimalFormula("1" + "." + f, "1", f);
    CutFractionFloors(f);
    QuotientUnique(5 * 1_000_000_000_000, 10, 500_000_000_000, 0);
  }

  lemma PlacesRounds(n: nat, len: nat, q: nat)
    requires len == 1 && q == 10
    ensures TenTo(len) == q && RoundHalfUp(n * 100_000_000, TenTo(len)) == n * 10_000_000
  {
    ExactRound(n, 10_000_000, q, 100_000_000);
  }

  // ----- Texts that are not decimals -----

  ghost predicate AllSpace(s: string) {
    forall i :: 0 <= i < |s| ==> IsSpace(s[i])
  }

  lemma {:induction false} TrimStartSkips(a: string, s: string)
    requires AllSpace(a)
    ensures TrimStart(a + s) == TrimStart(s)
  {
    if a == "" {
      assert a + s == s;
    } else {
      assert (a + s)[1..] == a[1..] + s;
      TrimStartSkips(a[1..], s);
    }
  }

  lemma {:induction false} TrimEndSkips(s: string, b: string)
    requires AllSpace(b)
    ensures TrimEnd(s + b) == TrimEnd(s)
  {
    if b == "" {
      assert s + b == s;
    } else {
      assert (s + b)[..|s + b| - 1] == s + b[..|b| - 1];
      TrimEndSkips(s, b[..|b| - 1]);
    }
  }

  lemma {:induction false} TrimStartThenSpace(s: string, b: string)
    requires AllSpace(b)
    ensures TrimEnd(TrimStart(s + b)) == TrimEnd(TrimStart(s))
  {
    if s == "" {
      assert s + b == b;
      TrimStartSkips(b, "");
      assert b + "" == b;
    } else if IsSpace(s[0]) {
      assert (s + b)[1..] == s[1..] + b;
      TrimStartThenSpace(s[1..], b);
    } else {
      TrimEndSkips(s, b);
    }
  }

  /** White space around an amount changes nothing. */
  lemma SpaceIsIgnored(a: string, s: string, b: string)
    requires AllSpace(a) && AllSpace(b)
    ensures ParseBtc(a + s + b) == ParseBtc(s) && ParseXmr(a + s + b) == ParseXmr(s)
  {
    assert a + s + b == a + (s + b);
    TrimStartSkips(a, s + b);
    TrimStartThenSpace(s, b);
    assert Trim(a + s + b) == Trim(s);
    EmptyIsZero(a + s + b);
    EmptyIsZero(s);
  }

  /** A text that trims to nothing is no amount, whether it was empty or not. */
  lemma EmptyIsZero(text: string)
    ensures Trim(text) == "" ==> ParseBtc(text) == 0 && ParseXmr(text) == Some(0)
  {}

  /** One plus sign before the digits changes nothing. */
  lemma PlusIsIgnored(whole: string)
    requires AllDigits(whole) && whole != ""
    ensures ParseBtc("+" + whole) == ParseBtc(whole) && ParseXmr("+" + whole) == ParseXmr(whole)
  {
    var s := "+" + whole;
    PlusShape(whole);
    TrimKeeps(s);
    TrimKeeps(whole);
    WholeParses(s);
    WholeParses(whole);
  }

  lemma PlusShape(whole: string)
    requires AllDigits(whole) && whole != ""
    ensures var s := "+" + whole;
            && ParseU64(s) == ParseU64(whole) && Without(s, {'.', 'e', 'E'}) && Without(whole, {'.', 'e', 'E'})
            && !IsSpace(s[0]) && !IsSpace(s[|s| - 1]) && !IsSpace(whole[0]) && !IsSpace(whole[|whole| - 1])
  {
    var s := "+" + whole;
    assert s[1..] == whole && s[|s| - 1] == whole[|whole| - 1];
    assert forall i :: 0 < i < |s| ==> s[i] == whole[i - 1];
  }

  lemma WholeParses(s: string)
    requires s != "" && Trim(s) == s && Without(s, {'.', 'e', 'E'})
    ensures ParseBtc(s) == if ParseU64(s).None? then 0 else DropDust(SaturatingMul(ParseU64(s).value, 100_000_000))
    ensures ParseXmr(s) == Some(SaturatingMul(OrZero(ParseU64(s)), TenTo(12)))
  {
    SplitWhole(s, {'.'});
  }

  lemma {:induction false} SplitTwice(a: string, b: string, c: string)
    ensures |Split(a + "." + b + "." + c, {'.'})| >= 3
  {
    var s := a + "." + b + "." + c;
    if a == "" {
      assert s[1..] == b + "." + c;
      SplitOnce(b, c);
    } else {
      assert s[1..] == a[1..] + "." + b + "." + c;
      SplitTwice(a[1..], b, c);
    }
  }

  lemma {:induction false} SplitOnce(b: string, c: string)
    ensures |Split(b + "." + c, {'.'})| >= 2
  {
    var s := b + "." + c;
    if b == "" {
      assert s[1..] == c;
    } else {
      assert s[1..] == b[1..] + "." + c;
      SplitOnce(b[1..], c);
    }
  }

  /** A text with two points is no amount. */
  lemma TwoPointsAreZero(text: string, a: string, b: string, c: string)
    requires Trim(text) == a + "." + b + "." + c
    ensures ParseBtc(text) == 0
    ensures 'e' !in Trim(text) && 'E' !in Trim(text) ==> ParseXmr(text) == Some(0)
  {
    var s := Trim(text);
    assert s[|a|] == '.';
    SplitTwice(a, b, c);
    EmptyIsZero(text);
  }

  /** A text without a point, and not made of digits after an optional plus, is no amount. */
  lemma NoNumberIsZero(text: string, s: string)
    requires s == Trim(text) && '.' !in s
    requires s == "" || (s[0] != '+' && !AllDigits(s)) || (s[0] == '+' && (s[1..] == "" || !AllDigits(s[1..])))
    ensures ParseBtc(text) == 0
    ensures 'e' !in s && 'E' !in s ==> ParseXmr(text) == Some(0)
  {
    EmptyIsZero(text);
    SplitWhole(s, {'.'});
  }
}
