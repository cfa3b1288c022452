/** The canonical byte form of a field element in frontend/nacl.js: packing, unpacking, comparison. */
module Packing25519 {
  import opened ModArith
  import opened Bytes
  import opened Limbs
  import opened Field25519
  import opened Words

  /** Limbs that bitwise operators see as they are. */
  ghost predicate AllWords(s: seq<int>) {
    forall i :: 0 <= i < |s| ==> IsWord(s[i])
  }

  /** One pair: both are xored with the masked difference. */
  method SelectWords(p: int, q: int, mask: seq<bool>, ghost b: int) returns (p': int, q': int)
    requires IsWord(p) && IsWord(q) && 0 <= b <= 1 && mask == Not(Word(b - 1))
    ensures if b == 1 then p' == q && q' == p else p' == p && q' == q
  {
    MaskedXorExchanges(p, q, b);
    var t := And(mask, Xor(Word(p), Word(q)));
    p' := Signed(Xor(Word(p), t));
    q' := Signed(Xor(Word(q), t));
  }

  method SelectLimb(p: array<int>, q: array<int>, i: nat, mask: seq<bool>, ghost b: int)
    requires p != q && i < p.Length == q.Length && IsWord(p[i]) && IsWord(q[i])
    requires 0 <= b <= 1 && mask == Not(Word(b - 1))
    modifies p, q
    ensures p[..] == old(p[..])[i := if b == 1 then old(q[i]) else old(p[i])]
    ensures q[..] == old(q[..])[i := if b == 1 then old(p[i]) else old(q[i])]
  {
    var u, v := SelectWords(p[i], q[i], mask, b);
    p[i] := u;
    q[i] := v;
  }

  /** Exchanges two limb arrays in place when b is one, by the masked xor of each pair of words. */
  method Select(p: array<int>, q: array<int>, b: int)
    requires p.Length == q.Length == 16 && p != q && 0 <= b <= 1
    requires AllWords(p[..]) && AllWords(q[..])
    modifies p, q
    ensures b == 1 ==> p[..] == old(q[..]) && q[..] == old(p[..])
    ensures b == 0 ==> p[..] == old(p[..]) && q[..] == old(q[..])
  {
    ghost var x, y := p[..], q[..];
    ghost var toP, toQ := if b == 1 then y else x, if b == 1 then x else y;
    var mask := Not(Word(b - 1));
    var i := 0;
    while i < 16
      invariant 0 <= i <= 16
      invariant p[..] == toP[..i] + x[i..] && q[..] == toQ[..i] + y[i..]
    {
      AtSplit(x, toP, i);
      AtSplit(y, toQ, i);
      assert p[i] == p[..][i] && q[i] == q[..][i];
      SelectLimb(p, q, i, mask, b);
      Replaced(x, toP, i);
      Replaced(y, toQ, i);
      i := i + 1;
    }
  }

  lemma AtSplit(from: seq<int>, to: seq<int>, i: nat)
    requires i < |from| == |to|
    ensures (to[..i] + from[i..])[i] == from[i]
  {}

  lemma Replaced(from: seq<int>, to: seq<int>, i: nat)
    requires i < |from| == |to|
    ensures (to[..i] + from[i..])[i := to[i]] == to[..i + 1] + from[i + 1..]
  {}

  // ----- Conditional subtraction of the prime -----

  function PrimeLimb(i: nat): int {
    if i == 0 then 65517 else if i == 15 then 32767 else 65535
  }

  function PrimeLimbs(): seq<int> {
    seq(16, i requires 0 <= i < 16 => PrimeLimb(i))
  }

  function MinusPrime(h: seq<int>): seq<int>
    requires |h| == 16
  {
    seq(16, i requires 0 <= i < 16 => h[i] - PrimeLimb(i))
  }

  lemma {:induction false} AllOnes(s: seq<int>)
    requires forall i :: 0 <= i < |s| ==> s[i] == RADIX - 1
    ensures Value(s) == Pow(RADIX, |s|) - 1
  {
    if s != [] { AllOnes(s[1..]); }
  }

  /** All ones, less 18 in the lowest limb and half the range of the highest. */
  lemma OnesLess(s: seq<int>, t: seq<int>, top: nat)
    requires |s| == |t| == top + 1 && top > 0 && (forall i :: 0 <= i < |s| ==> s[i] == RADIX - 1)
    requires t == s[0 := s[0] + (-18)][top := s[top] + (-32768)]
    ensures Value(t) == Pow(RADIX, top + 1) - 1 - 18 - 32768 * Pow(RADIX, top)
  {
    AllOnes(s);
    var u := s[0 := s[0] + (-18)];
    ValueUpdate(s, 0, -18);
    ValueUpdate(u, top, -32768);
  }

  lemma PrimeLimbsValue()
    ensures Value(PrimeLimbs()) == Prime()
  {
    var s: seq<int> := seq(16, i => RADIX - 1);
    assert PrimeLimbs() == s[0 := s[0] + (-18)][15 := s[15] + (-32768)];
    OnesLess(s, PrimeLimbs(), |s| - 1);
    Sizes();
  }

  lemma MinusPrimeValue(h: seq<int>)
    requires |h| == 16 && Digits(h)
    ensures -Pow(RADIX, 16) <= Value(MinusPrime(h)) == Value(h) - Prime() < Pow(RADIX, 16)
  {
    PrimeLimbsValue();
    ValueSum(h, PrimeLimbs(), MinusPrime(h), -1);
    DigitsBound(h);
    Sizes();
  }

  lemma SignOfTopCarry(d: seq<int>)
    requires |d| == 16 && -Pow(RADIX, 16) <= Value(d) < Pow(RADIX, 16)
    ensures Digits(AllDigits(d))
    ensures if Value(d) < 0 then CarryIn(d, 16) == -1
            else CarryIn(d, 16) == 0 && Value(AllDigits(d)) == Value(d)
  {
    CarriedValue(d);
    DigitsBound(AllDigits(d));
    CarryOfSign(Value(d), Value(AllDigits(d)), CarryIn(d, 16), Pow(RADIX, |d|));
  }

  lemma CarryOfSign(v: int, digits: int, c: int, m: int)
    requires 0 <= digits < m && v == digits + c * m && -m <= v < m
    ensures if v < 0 then c == -1 else c == 0 && digits == v
  {
    if c >= 1 { MulMono(1, c, m); }
    if c <= -2 { MulMono(c, -2, m); }
  }

  /** The borrow out of the top limb tells whether the number was below the prime. */
  lemma BorrowTellsOrder(h: seq<int>)
    requires |h| == 16 && Digits(h)
    ensures var d := MinusPrime(h);
            && Digits(AllDigits(d))
            && if Value(h) < Prime() then CarryIn(d, 16) == -1
               else CarryIn(d, 16) == 0 && Value(AllDigits(d)) == Value(h) - Prime()
  {
    MinusPrimeValue(h);
    SignOfTopCarry(MinusPrime(h));
  }

  lemma {:induction false} BorrowRange(h: seq<int>, i: nat)
    requires |h| == 16 && Digits(h) && i <= 16
    ensures -1 <= CarryIn(MinusPrime(h), i) <= 0
  {
    if i > 0 { BorrowRange(h, i - 1); }
  }

  /** (x >> 16) & 1 and x & 65535 on a two's-complement word. */
  function ShiftBit(x: int): int { (x / 65536) % 2 }
  function Low16(x: int): int { x % 65536 }

  method BorrowBit(x: int) returns (b: int)
    requires IsWord(x)
    ensures b == ShiftBit(x)
  {
    PowersOfTwo();
    var y := ShiftDown(x, 16, 65536);
    b := MaskLow(y, 1, 2);
  }

  method LowBits(x: int) returns (y: int)
    requires IsWord(x)
    ensures y == Low16(x)
  {
    PowersOfTwo();
    y := MaskLow(x, 16, 65536);
  }

  /** The difference limbs while limb n - 1 still has its borrow in it. */
  ghost predicate PartlySubtracted(h: seq<int>, m: seq<int>, n: nat)
    requires |h| == 16
  {
    && |m| == 16 && 1 <= n <= 16
    && m[n - 1] == MinusPrime(h)[n - 1] + CarryIn(MinusPrime(h), n - 1)
    && forall k :: 0 <= k < n - 1 ==> m[k] == Digit(MinusPrime(h), k)
  }

  lemma LastIsWord(h: seq<int>, m: seq<int>, n: nat)
    requires |h| == 16 && Digits(h) && PartlySubtracted(h, m, n)
    ensures IsWord(m[n - 1])
  {
    BorrowRange(h, n - 1);
  }

  lemma SubtractStep(h: seq<int>, m: seq<int>, n: nat)
    requires |h| == 16 && Digits(h) && n < 16 && PartlySubtracted(h, m, n)
    ensures PartlySubtracted(h, m[n := h[n] - PrimeLimb(n) - ShiftBit(m[n - 1])][n - 1 := Low16(m[n - 1])], n + 1)
  {
    BorrowRange(h, n);
    assert CarryIn(MinusPrime(h), n) == m[n - 1] / RADIX;
  }

  lemma SubtractDone(h: seq<int>, m: seq<int>)
    requires |h| == 16 && Digits(h) && PartlySubtracted(h, m, 16)
    ensures ShiftBit(m[15]) == (if Value(h) < Prime() then 1 else 0)
    ensures Value(h) >= Prime() ==> Digits(m) && Value(m) == Value(h) - Prime()
    ensures AllWords(m)
  {
    BorrowRange(h, 15);
    BorrowTellsOrder(h);
    var d := MinusPrime(h);
    assert CarryIn(d, 16) == m[15] / RADIX;
    if CarryIn(d, 16) == 0 { assert m == AllDigits(d); }
  }

  /** Subtracts the prime from h into m and returns the final borrow. */
  method SubtractPrime(m: array<int>, h: array<int>) returns (b: int)
    requires m.Length == h.Length == 16 && m != h && Digits(h[..])
    modifies m
    ensures b == if Value(h[..]) < Prime() then 1 else 0
    ensures Value(h[..]) >= Prime() ==> Digits(m[..]) && Value(m[..]) == Value(h[..]) - Prime()
    ensures AllWords(m[..])
  {
    ghost var x := h[..];
    m[0] := h[0] - 65517;
    var n := 1;
    while n < 15
      invariant 1 <= n <= 15 && h[..] == x && PartlySubtracted(x, m[..], n)
    {
      LastIsWord(x, m[..], n);
      SubtractStep(x, m[..], n);
      var borrow := BorrowBit(m[n - 1]);
      var low := LowBits(m[n - 1]);
      m[n] := h[n] - 65535 - borrow;
      m[n - 1] := low;
      n := n + 1;
    }
    LastIsWord(x, m[..], 15);
    SubtractStep(x, m[..], 15);
    var borrow := BorrowBit(m[14]);
    var low := LowBits(m[14]);
    m[15] := h[15] - 32767 - borrow;
    m[14] := low;
    LastIsWord(x, m[..], 16);
    b := BorrowBit(m[15]);
    SubtractDone(x, m[..]);
  }

  // ----- Packing -----

  lemma {:induction false} BytesOfDigits(h: seq<int>, b: Bytes)
    requires |b| == 2 * |h| && Digits(h)
    requires forall i :: 0 <= i < |h| ==> b[2 * i] == h[i] % 256 && b[2 * i + 1] == h[i] / 256
    ensures FromBytesLE(b) == Value(h)
  {
    if h != [] {
      forall i | 0 <= i < |h| - 1
        ensures b[2..][2 * i] == h[1..][i] % 256 && b[2..][2 * i + 1] == h[1..][i] / 256
      {
        assert b[2 * (i + 1)] == h[i + 1] % 256;
      }
      BytesOfDigits(h[1..], b[2..]);
      assert b[1..][1..] == b[2..];
      assert b[2 * 0] == h[0] % 256;
    }
  }

  /** Copies the limbs and carries three times: digits below 2^256 with the same residue. */
  method Normalize(n: array<int>) returns (h: array<int>)
    requires Bounded(n[..], WIDE)
    ensures fresh(h) && h.Length == 16 && Digits(h[..]) && SameResidue(Value(h[..]), Value(n[..]))
  {
    h := new int[16](i requires 0 <= i < 16 reads n => n[i]);
    assert h[..] == n[..];
    CarriedTwice(h[..]);
    ghost var once := Carried(h[..]);
    ghost var twice := Carried(once);
    FirstPassBound(once);
    ReducedIsNarrow(twice);
    ThirdPass(twice);
    CarriedKeepsResidue(twice);
    Carry(h);
    Carry(h);
    Carry(h);
  }

  lemma SubtractingKeepsResidue(v: int)
    ensures SameResidue(v - Prime(), v)
  {
    Sizes();
    AddMultiple(v, -1, Prime());
  }

  /** One conditional subtraction: an exchange with the difference when there was no borrow. */
  method SubtractIfNotBelow(h: array<int>, m: array<int>)
    requires h.Length == m.Length == 16 && h != m && Digits(h[..])
    modifies h, m
    ensures Digits(h[..]) && SameResidue(Value(h[..]), Value(old(h[..])))
    ensures var v := Value(old(h[..])); Value(h[..]) == if v < Prime() then v else v - Prime()
  {
    SubtractingKeepsResidue(Value(h[..]));
    var b := SubtractPrime(m, h);
    Select(h, m, 1 - b);
  }

  lemma SubtractedTwice(v0: int, v1: int, v2: int, p: int)
    requires 0 <= v0 < 3 * p
    requires v1 == if v0 < p then v0 else v0 - p
    requires v2 == if v1 < p then v1 else v1 - p
    ensures p > 0 && v2 == v0 % p
  {
    DivModUnique(v0, p, if v0 < p then 0 else if v0 < 2 * p then 1 else 2, v2);
  }

  lemma DigitsBelowThreePrimes(h: seq<int>)
    requires |h| == 16 && Digits(h)
    ensures 0 <= Value(h) < 3 * Prime()
  {
    DigitsBound(h);
    Sizes();
  }

  /** Brings digits into the range below the prime by two conditional subtractions. */
  method ReduceFully(h: array<int>)
    requires h.Length == 16 && Digits(h[..])
    modifies h
    ensures Digits(h[..]) && Prime() > 0 && Value(h[..]) == Value(old(h[..])) % Prime()
  {
    var m := new int[16];
    ghost var p, v0 := Prime(), Value(h[..]);
    DigitsBelowThreePrimes(h[..]);
    ghost var v1 := if v0 < p then v0 else v0 - p;
    var j := 0;
    while j < 2
      invariant 0 <= j <= 2 && Digits(h[..])
      invariant Value(h[..]) == if j == 0 then v0 else if j == 1 || v1 < p then v1 else v1 - p
    {
      SubtractIfNotBelow(h, m);
      j := j + 1;
    }
    SubtractedTwice(v0, v1, Value(h[..]), p);
  }

  /** The two bytes of a digit: `x & 255` and `x >> 8`. */
  method SplitLimb(x: int) returns (low: byte, high: byte)
    requires 0 <= x < RADIX
    ensures low == x % 256 && high == x / 256
  {
    PowersOfTwo();
    low := MaskLow(x, 8, 256);
    high := ShiftDown(x, 8, 256);
  }

  /** Writes the unique little-endian representative below 2^255 - 19. */
  method Pack(o: array<byte>, n: array<int>)
    requires o.Length == 32 && Bounded(n[..], WIDE)
    modifies o
    ensures Prime() > 0 && FromBytesLE(o[..]) == Value(old(n[..])) % Prime()
  {
    var h := Normalize(n);
    ReduceFully(h);
    ghost var d := h[..];
    var i := 0;
    while i < 16
      invariant 0 <= i <= 16 && h[..] == d
      invariant forall k :: 0 <= k < i ==> o[2 * k] == d[k] % 256 && o[2 * k + 1] == d[k] / 256
    {
      assert 0 <= d[i] < RADIX;
      var low, high := SplitLimb(h[i]);
      o[2 * i] := low;
      o[2 * i + 1] := high;
      i := i + 1;
    }
    BytesOfDigits(d, o[..]);
  }

  function LimbOf(lo: int, hi: int): int { lo + 256 * hi }

  /** Reads 32 bytes into limbs and drops the top bit. */
  method Unpack(o: array<int>, n: array<byte>)
    requires o.Length == 16 && n.Length == 32
    modifies o
    ensures Digits(o[..])
    ensures Pow(2, 255) > 0 && Value(o[..]) == FromBytesLE(n[..]) % Pow(2, 255)
  {
    var i := 0;
    while i < 16
      invariant 0 <= i <= 16
      invariant forall k :: 0 <= k < i ==> o[k] == LimbOf(n[2 * k], n[2 * k + 1])
    {
      o[i] := LimbOf(n[2 * i], n[2 * i + 1]);
      i := i + 1;
    }
    ghost var s := o[..];
    BytesOfDigits(s, n[..]);
    PowersOfTwo();
    o[15] := MaskLow(o[15], 15, 32768);
    TopBitDropped(s);
    assert o[..] == s[15 := s[15] % 32768];
  }

  lemma TopBitDropped(s: seq<int>)
    requires |s| == 16 && Digits(s)
    ensures Pow(2, 255) > 0 && Value(s[15 := s[15] % 32768]) == Value(s) % Pow(2, 255)
  {
    Sizes();
    TopBitRemainder(s, |s| - 1, Pow(2, 255));
  }

  lemma TopBitRemainder(s: seq<int>, top: nat, m: int)
    requires |s| == top + 1 && Digits(s) && m == 32768 * Pow(RADIX, top) > 0
    ensures Value(s[top := s[top] % 32768]) == Value(s) % m
  {
    var q, t := s[top] / 32768, s[top := s[top] % 32768];
    ValueUpdate(s, top, -32768 * q);
    assert t == s[top := s[top] + (-32768 * q)];
    ValuePrefix(t, top);
    assert t[..top + 1] == t;
    DigitsBound(t[..top]);
    TopBitArithmetic(Value(s), Value(t), Value(t[..top]), t[top], q, Pow(RADIX, top), m);
  }

  lemma TopBitArithmetic(v: int, w: int, low: int, lead: int, q: int, p: int, m: int)
    requires m == 32768 * p && w == v + (-32768 * q) * p && w == low + lead * p
    requires 0 <= low < p && 0 <= lead < 32768
    ensures w == v % m
  {
    Associate(-32768, q, p);
    Associate(q, 32768, p);
    MulMono(lead, 32767, p);
    MulMono(0, lead, p);
    DivModUnique(v, m, q, w);
  }

  lemma {:induction false} BytesDetermined(a: Bytes, b: Bytes)
    requires |a| == |b| && FromBytesLE(a) == FromBytesLE(b)
    ensures a == b
  {
    if a != [] {
      BytesDetermined(a[1..], b[1..]);
    }
  }

  /** Packing what was unpacked returns the same 32 bytes exactly when they were canonical. */
  lemma CanonicalRoundTrip(b: Bytes, out: Bytes)
    requires |b| == |out| == 32 && Prime() > 0
    requires FromBytesLE(out) == (FromBytesLE(b) % Pow(2, 255)) % Prime()
    ensures out == b <==> FromBytesLE(b) < Prime()
  {
    if FromBytesLE(b) < Prime() {
      SmallMod(FromBytesLE(b), Pow(2, 255));
      SmallMod(FromBytesLE(b), Prime());
      BytesDetermined(out, b);
    }
  }

  /** Compares two field elements by their packed bytes. */
  method NotEqual(a: array<int>, b: array<int>) returns (differ: bool)
    requires Bounded(a[..], WIDE) && Bounded(b[..], WIDE)
    ensures differ <==> !SameResidue(Value(a[..]), Value(b[..]))
  {
    var c, d := new byte[32], new byte[32];
    Pack(c, a);
    Pack(d, b);
    if FromBytesLE(c[..]) == FromBytesLE(d[..]) { BytesDetermined(c[..], d[..]); }
    differ := c[..] != d[..];
  }
}
