/** Numbers as sixteen limbs in radix 2^16, the representation of frontend/nacl.js:
    what a limb sequence denotes and what one carry pass does to it. */
module Limbs {
  import opened ModArith

  const RADIX := 65536

  /** The number a limb sequence denotes; limbs may be negative or too large. */
  function Value(s: seq<int>): int {
    if s == [] then 0 else s[0] + RADIX * Value(s[1..])
  }

  /** The field prime of section 4.1 of RFC 7748. */
  ghost function Prime(): int { Pow(2, 255) - 19 }

  ghost predicate Bounded(s: seq<int>, b: int) {
    |s| == 16 && forall i :: 0 <= i < 16 ==> -b <= s[i] <= b
  }

  ghost predicate Digits(s: seq<int>) {
    forall i :: 0 <= i < |s| ==> 0 <= s[i] < RADIX
  }

  lemma {:induction false} ValueAppend(s: seq<int>, x: int)
    ensures Value(s + [x]) == Value(s) + x * Pow(RADIX, |s|)
  {
    if s == [] {
      assert s + [x] == [x];
    } else {
      assert (s + [x])[1..] == s[1..] + [x];
      ValueAppend(s[1..], x);
      Associate(RADIX, x, Pow(RADIX, |s| - 1));
      Associate(x, RADIX, Pow(RADIX, |s| - 1));
    }
  }

  lemma {:induction false} ValueConcat(s: seq<int>, t: seq<int>)
    ensures Value(s + t) == Value(s) + Pow(RADIX, |s|) * Value(t)
  {
    if s == [] {
      assert s + t == t;
    } else {
      assert (s + t)[1..] == s[1..] + t;
      ValueConcat(s[1..], t);
      Associate(RADIX, Pow(RADIX, |s| - 1), Value(t));
    }
  }

  lemma {:induction false} ValueUpdate(s: seq<int>, k: nat, d: int)
    requires k < |s|
    ensures Value(s[k := s[k] + d]) == Value(s) + d * Pow(RADIX, k)
  {
    var t := s[k := s[k] + d];
    if k > 0 {
      assert t[1..] == s[1..][k - 1 := s[1..][k - 1] + d];
      ValueUpdate(s[1..], k - 1, d);
      Associate(RADIX, d, Pow(RADIX, k - 1));
      Associate(d, RADIX, Pow(RADIX, k - 1));
    } else {
      assert t[1..] == s[1..];
    }
  }

  lemma ValuePrefix(s: seq<int>, k: nat)
    requires k < |s|
    ensures Value(s[..k + 1]) == Value(s[..k]) + s[k] * Pow(RADIX, k)
  {
    assert s[..k + 1] == s[..k] + [s[k]];
    ValueAppend(s[..k], s[k]);
  }

  lemma {:induction false} DigitsBound(s: seq<int>)
    requires Digits(s)
    ensures 0 <= Value(s) < Pow(RADIX, |s|)
  {
    if s != [] { DigitsBound(s[1..]); }
  }

  lemma {:induction false} PowRadix(e: nat)
    ensures Pow(RADIX, e) == Pow(2, 16 * e)
  {
    if e > 0 {
      PowRadix(e - 1);
      PowAdd(2, 16, 16 * (e - 1));
      assert Pow(2, 8) == 256;
      PowAdd(2, 8, 8);
    }
  }

  /** 2^256 is twice 2^255, and both dwarf every limb bound used here. */
  lemma Sizes()
    ensures Pow(RADIX, 16) == 2 * Pow(2, 255) && Pow(RADIX, 16) == RADIX * Pow(RADIX, 15)
    ensures Pow(2, 255) > 0x1000_0000_0000
  {
    PowRadix(16);
    assert Pow(RADIX, 3) == 0x1_0000_0000_0000;
    PowAdd(RADIX, 3, 13);
    PowPositive(RADIX, 13);
    MulMono(1, Pow(RADIX, 13), Pow(RADIX, 3));
  }

  // ----- Carrying -----

  /** The carry into limb i when limbs are reduced from the lowest up. */
  function CarryIn(s: seq<int>, i: nat): int
    requires i <= |s|
  {
    if i == 0 then 0 else (s[i - 1] + CarryIn(s, i - 1)) / RADIX
  }

  function Digit(s: seq<int>, i: nat): int
    requires i < |s|
  {
    (s[i] + CarryIn(s, i)) % RADIX
  }

  function AllDigits(s: seq<int>): seq<int> {
    seq(|s|, i requires 0 <= i < |s| => Digit(s, i))
  }

  /** One pass: every limb becomes a digit and the carry out of the top, worth 2^256, returns as 38. */
  function Carried(s: seq<int>): seq<int>
    requires |s| == 16
  {
    var d := AllDigits(s);
    d[0 := d[0] + 38 * CarryIn(s, 16)]
  }

  lemma {:induction false} CarryPrefix(s: seq<int>, i: nat)
    requires i <= |s|
    ensures Value(s[..i]) == Value(AllDigits(s)[..i]) + CarryIn(s, i) * Pow(RADIX, i)
  {
    if i > 0 {
      CarryPrefix(s, i - 1);
      ValuePrefix(s, i - 1);
      ValuePrefix(AllDigits(s), i - 1);
      var n, p := s[i - 1] + CarryIn(s, i - 1), Pow(RADIX, i - 1);
      assert n == (n / RADIX) * RADIX + n % RADIX;
      Distribute((n / RADIX) * RADIX, n % RADIX, p);
      Distribute(s[i - 1], CarryIn(s, i - 1), p);
      Associate(n / RADIX, RADIX, p);
    }
  }

  lemma CarriedValue(s: seq<int>)
    requires |s| == 16
    ensures Digits(AllDigits(s))
    ensures Value(s) == Value(AllDigits(s)) + CarryIn(s, 16) * Pow(RADIX, 16)
    ensures Value(Carried(s)) == Value(AllDigits(s)) + 38 * CarryIn(s, 16)
  {
    CarryPrefix(s, 16);
    assert s[..16] == s && AllDigits(s)[..16] == AllDigits(s);
    ValueUpdate(AllDigits(s), 0, 38 * CarryIn(s, 16));
  }

  lemma TopCarryReturns(d: int, c: int, p: int, m: int)
    requires p > 0 && m == 2 * p + 38
    ensures (d + 38 * c) % p == (d + c * m) % p
  {
    Distribute(2 * p, 38, c);
    Associate(2, p, c);
    Associate(2, c, p);
    assert d + c * m == (d + 38 * c) + (2 * c) * p;
    AddMultiple(d + 38 * c, 2 * c, p);
  }

  /** A carry pass keeps the residue modulo 2^255 - 19, because 2^256 = 38 there. */
  lemma CarriedKeepsResidue(s: seq<int>)
    requires |s| == 16
    ensures Prime() > 0
    ensures Value(Carried(s)) % Prime() == Value(s) % Prime()
  {
    Sizes();
    CarriedValue(s);
    TopCarryReturns(Value(AllDigits(s)), CarryIn(s, 16), Prime(), Pow(RADIX, 16));
  }

  /** The widest limbs a carry pass takes: with them every intermediate number is exact as a double. */
  const WIDE := 0x10_0000_0000_0000

  lemma {:induction false} CarryBound(s: seq<int>, i: nat)
    requires i <= 16 && Bounded(s, WIDE)
    ensures -0x11_0000_0000 <= CarryIn(s, i) <= 0x11_0000_0000
  {
    if i > 0 { CarryBound(s, i - 1); }
  }

  const LOOSE := 0x800_0000_0000

  /** After one pass from 52-bit limbs: digits, except a lowest limb that absorbed a large carry. */
  ghost predicate Loose(s: seq<int>) {
    |s| == 16 && Digits(s[1..]) && -LOOSE <= s[0] <= LOOSE
  }

  /** After two passes: digits, except a lowest limb up to 38 outside the range. */
  ghost predicate Reduced(s: seq<int>) {
    |s| == 16 && Digits(s[1..]) && -38 <= s[0] < RADIX + 38
  }

  lemma FirstPass(s: seq<int>)
    requires Bounded(s, WIDE)
    ensures Loose(Carried(s))
  {
    CarryBound(s, 16);
    CarriedValue(s);
    assert Carried(s)[1..] == AllDigits(s)[1..];
  }

  /** The carry out of the top is the quotient by 2^256. */
  lemma TopCarry(s: seq<int>, lo: int, hi: int)
    requires |s| == 16 && lo * Pow(RADIX, 16) <= Value(s) < (hi + 1) * Pow(RADIX, 16)
    ensures lo <= CarryIn(s, 16) <= hi
  {
    CarriedValue(s);
    DigitsBound(AllDigits(s));
    var c, m := CarryIn(s, 16), Pow(RADIX, 16);
    Distribute(c, 1, m);
    if c < lo { MulMono(c + 1, lo, m); }
    if c > hi { MulMono(hi + 1, c, m); }
  }

  lemma TailBound(s: seq<int>)
    requires |s| == 16 && Digits(s[1..])
    ensures s[0] <= Value(s) <= s[0] + Pow(RADIX, 16) - RADIX
  {
    DigitsBound(s[1..]);
    Sizes();
  }

  lemma SecondPass(s: seq<int>)
    requires Loose(s)
    ensures Reduced(Carried(s))
  {
    TailBound(s);
    Sizes();
    TopCarry(s, -1, 1);
    CarriedValue(s);
    assert Carried(s)[1..] == AllDigits(s)[1..];
  }

  lemma ThirdPass(s: seq<int>)
    requires Reduced(s)
    ensures Digits(Carried(s)) && |Carried(s)| == 16
  {
    TailBound(s);
    Sizes();
    TopCarry(s, -1, 1);
    CarriedValue(s);
    var d := AllDigits(s);
    TailBound(d);
    LowDigitFits(Value(s), Value(d), d[0], CarryIn(s, 16), Pow(RADIX, 16));
  }

  /** A number within 38 of the digit range leaves room for the returning carry in the lowest limb. */
  lemma LowDigitFits(v: int, w: int, low: int, c: int, m: int)
    requires m > 2 * RADIX && -38 <= v < m + 38 && v == w + c * m && -1 <= c <= 1
    requires 0 <= w < m && low <= w <= low + m - RADIX && 0 <= low < RADIX
    ensures 0 <= low + 38 * c < RADIX
  {}
}
