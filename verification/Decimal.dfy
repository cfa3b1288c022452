/** Decimal strings as Rust reads and prints them: digits, integers, trimming and splitting. */
module Decimal {
  import opened ModArith
  import opened Options

  const U64_MAX := 0xFFFF_FFFF_FFFF_FFFF

  function TenTo(n: nat): (p: nat)
    ensures p > 0
  {
    if n == 0 then 1 else 10 * TenTo(n - 1)
  }

  lemma {:induction false} TenToAdd(a: nat, b: nat)
    ensures TenTo(a + b) == TenTo(a) * TenTo(b)
  {
    if a > 0 {
      TenToAdd(a - 1, b);
      Associate(10, TenTo(a - 1), TenTo(b));
    }
  }

  /** Integer division as repeated subtraction, so that proofs never meet a nonlinear quotient by accident. */
  function Quotient(n: nat, d: nat): nat
    requires d > 0
  {
    if n < d then 0 else 1 + Quotient(n - d, d)
  }

  lemma {:induction false} QuotientIsDivision(n: nat, d: nat)
    requires d > 0
    ensures Quotient(n, d) == n / d
  {
    if n < d {
      DivModUnique(n, d, 0, n);
    } else {
      QuotientIsDivision(n - d, d);
      AddMultiple(n - d, 1, d);
    }
  }

  lemma Remainder(n: nat, d: nat) returns (r: nat)
    requires d > 0
    ensures r < d && n == Quotient(n, d) * d + r
  {
    QuotientIsDivision(n, d);
    r := n % d;
  }

  lemma QuotientAddMultiple(n: nat, k: nat, d: nat)
    requires d > 0
    ensures n + k * d >= 0 && Quotient(n + k * d, d) == Quotient(n, d) + k
  {
    QuotientIsDivision(n, d);
    AddMultiple(n, k, d);
    MulMono(0, k, d);
    QuotientIsDivision(n + k * d, d);
  }

  lemma QuotientUnique(n: nat, d: nat, q: nat, r: nat)
    requires r < d && n == q * d + r
    ensures Quotient(n, d) == q
  {
    QuotientIsDivision(n, d);
    DivModUnique(n, d, q, r);
  }

  predicate IsDigit(c: char) { '0' <= c <= '9' }

  predicate AllDigits(s: string) {
    forall i :: 0 <= i < |s| ==> IsDigit(s[i])
  }

  function DigitValue(c: char): int { c as int - '0' as int }

  function DigitChar(d: nat): char
    requires d < 10
  {
    '0' + d as char
  }

  /** The number a digit string denotes; the empty string denotes zero. */
  function Number(s: string): (n: nat)
    requires AllDigits(s)
  {
    if s == "" then 0 else 10 * Number(s[..|s| - 1]) + DigitValue(s[|s| - 1])
  }

  lemma {:induction false} NumberBound(s: string)
    requires AllDigits(s)
    ensures Number(s) < TenTo(|s|)
  {
    if s != "" { NumberBound(s[..|s| - 1]); }
  }

  lemma {:induction false} NumberConcat(s: string, t: string)
    requires AllDigits(s) && AllDigits(t)
    ensures Number(s + t) == Number(s) * TenTo(|t|) + Number(t)
  {
    if t == "" {
      assert s + t == s;
    } else {
      var u := t[..|t| - 1];
      assert (s + t)[..|s + t| - 1] == s + u;
      NumberConcat(s, u);
      Associate(10, Number(s), TenTo(|u|));
      Associate(Number(s), 10, TenTo(|u|));
    }
  }

  function Zeros(n: nat): (s: string)
    ensures |s| == n && AllDigits(s) && Number(s) == 0
  {
    if n == 0 then ""
    else
      var s := Zeros(n - 1) + "0";
      assert s[..n - 1] == Zeros(n - 1);
      s
  }

  lemma PadLeft(d: string, k: nat)
    requires AllDigits(d)
    ensures AllDigits(Zeros(k) + d) && Number(Zeros(k) + d) == Number(d)
  {
    NumberConcat(Zeros(k), d);
  }

  lemma PadRight(d: string, k: nat)
    requires AllDigits(d)
    ensures AllDigits(d + Zeros(k)) && Number(d + Zeros(k)) == Number(d) * TenTo(k)
  {
    NumberConcat(d, Zeros(k));
  }

  /** `str::parse` for an unsigned type: an optional plus sign and at least one digit, within range. */
  function ParseUnsigned(s: string, max: nat): Option<nat> {
    var d := if s != "" && s[0] == '+' then s[1..] else s;
    if d != "" && AllDigits(d) && Number(d) <= max then Some(Number(d)) else None
  }

  function ParseU64(s: string): Option<nat> {
    ParseUnsigned(s, U64_MAX)
  }

  /** `str::parse` for i32. */
  function ParseI32(s: string): Option<int> {
    if s != "" && s[0] == '-' then
      if s[1..] != "" && AllDigits(s[1..]) && Number(s[1..]) <= 0x8000_0000 then Some(0 - Number(s[1..])) else None
    else ParseUnsigned(s, 0x7FFF_FFFF)
  }

  function OrZero(o: Option<nat>): nat {
    if o.Some? then o.value else 0
  }

  lemma ParseDigits(s: string, max: nat)
    requires AllDigits(s)
    ensures OrZero(ParseUnsigned(s, max)) == if Number(s) <= max then Number(s) else 0
  {}

  predicate IsSpace(c: char) {
    c == ' ' || '\t' <= c <= '\r'
  }

  function TrimStart(s: string): string {
    if s != "" && IsSpace(s[0]) then TrimStart(s[1..]) else s
  }

  function TrimEnd(s: string): string {
    if s != "" && IsSpace(s[|s| - 1]) then TrimEnd(s[..|s| - 1]) else s
  }

  function Trim(s: string): string { TrimEnd(TrimStart(s)) }

  /** `split`: the pieces between separator characters. */
  function Split(s: string, seps: set<char>): (r: seq<string>)
    ensures |r| > 0
  {
    if s == "" then [""]
    else
      var r := Split(s[1..], seps);
      if s[0] in seps then [""] + r else [[s[0]] + r[0]] + r[1..]
  }

  ghost predicate Without(s: string, seps: set<char>) {
    forall i :: 0 <= i < |s| ==> s[i] !in seps
  }

  lemma {:induction false} SplitWhole(s: string, seps: set<char>)
    requires Without(s, seps)
    ensures Split(s, seps) == [s]
  {
    if s != "" {
      SplitWhole(s[1..], seps);
      assert [s[0]] + s[1..] == s;
    }
  }

  lemma {:induction false} SplitAt(a: string, c: char, b: string, seps: set<char>)
    requires Without(a, seps) && c in seps
    ensures Split(a + [c] + b, seps) == [a] + Split(b, seps)
  {
    var s := a + [c] + b;
    if a == "" {
      assert s[1..] == b;
    } else {
      assert s[1..] == a[1..] + [c] + b;
      SplitAt(a[1..], c, b, seps);
      assert [a[0]] + a[1..] == a;
    }
  }

  // ----- Printing -----

  function ToDecimal(n: nat): (s: string)
    ensures s != "" && AllDigits(s) && Number(s) == n
  {
    if n < 10 then [DigitChar(n)]
    else
      var s := ToDecimal(n / 10) + [DigitChar(n % 10)];
      assert s[..|s| - 1] == ToDecimal(n / 10);
      s
  }

  /** Zero-padded printing, as in `{:08}`. */
  function Padded(n: nat, width: nat): (s: string)
    ensures s != "" && AllDigits(s) && Number(s) == n && |s| >= width
  {
    var d := ToDecimal(n);
    if |d| >= width then d
    else
      PadLeft(d, width - |d|);
      Zeros(width - |d|) + d
  }

  lemma {:induction false} TenToMonotone(a: nat, b: nat)
    requires a <= b
    ensures TenTo(a) <= TenTo(b)
    decreases b
  {
    if a < b {
      TenToMonotone(a, b - 1);
    }
  }

  lemma {:induction false} ToDecimalLength(n: nat, width: nat)
    requires n < TenTo(width) && width > 0
    ensures |ToDecimal(n)| <= width
  {
    assert TenTo(1) == 10;
    if n >= 10 {
      ToDecimalLength(n / 10, width - 1);
    }
  }

  lemma PaddedLength(n: nat, width: nat)
    requires n < TenTo(width) && width > 0
    ensures |Padded(n, width)| == width
  {
    ToDecimalLength(n, width);
  }
}
