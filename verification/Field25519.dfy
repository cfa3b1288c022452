/** In-place arithmetic modulo 2^255 - 19 of frontend/nacl.js, and the canonical byte form of
    sections 4.1 and 5 of RFC 7748. Doubles are modelled as integers; every intermediate number
    is asserted to stay within 2^53, where doubles are exact. */
module Field25519 {
  import opened ModArith
  import opened Bytes
  import opened Limbs

  const NARROW := 0x20_0000

  predicate ExactDouble(x: int) {
    -0x20_0000_0000_0000 <= x <= 0x20_0000_0000_0000
  }

  ghost predicate SameResidue(x: int, y: int) {
    Prime() > 0 && x % Prime() == y % Prime()
  }

  /** The limbs when the lowest t have been carried. */
  ghost function PartlyCarried(s: seq<int>, t: nat): seq<int>
    requires t <= |s|
  {
    AllDigits(s)[..t] + s[t..]
  }

  /** What one iteration of the carry loop computes, and that its numbers are exact. */
  lemma CarryStep(s: seq<int>, t: nat)
    requires Bounded(s, WIDE) && t < 16
    ensures PartlyCarried(s, t)[t] == s[t]
    ensures var n := s[t] + (CarryIn(s, t) + 1) + 65535;
            && ExactDouble(n) && ExactDouble(65536 * (n / 65536))
            && n / 65536 == CarryIn(s, t + 1) + 1
            && PartlyCarried(s, t)[t := n - 65536 * (n / 65536)] == PartlyCarried(s, t + 1)
  {
    CarryBound(s, t);
    var n := s[t] + (CarryIn(s, t) + 1) + 65535;
    assert n - 65536 * (n / 65536) == Digit(s, t);
    assert AllDigits(s)[..t + 1] == AllDigits(s)[..t] + [Digit(s, t)];
  }

  method CarryDigits(r: array<int>) returns (e: int)
    requires Bounded(r[..], WIDE)
    modifies r
    ensures r[..] == AllDigits(old(r[..]))
    ensures e == CarryIn(old(r[..]), 16) + 1
  {
    ghost var s := r[..];
    e := 1;
    var t := 0;
    while t < 16
      invariant 0 <= t <= 16 && e == CarryIn(s, t) + 1
      invariant r[..] == PartlyCarried(s, t)
    {
      CarryStep(s, t);
      var n := r[t] + e + 65535;
      e := n / 65536;
      r[t] := n - 65536 * e;
      t := t + 1;
    }
  }

  /** Carry pass over sixteen limbs, in place. */
  method Carry(r: array<int>)
    requires Bounded(r[..], WIDE)
    modifies r
    ensures r[..] == Carried(old(r[..]))
  {
    var e := CarryDigits(r);
    r[0] := r[0] + (e - 1 + 37 * (e - 1));
  }

  /** Adds limb by limb, without carrying; the output may be one of the inputs. */
  method Add(o: array<int>, a: array<int>, b: array<int>)
    requires o.Length == a.Length == b.Length == 16
    modifies o
    ensures forall i :: 0 <= i < 16 ==> o[i] == old(a[i]) + old(b[i])
    ensures Value(o[..]) == Value(old(a[..])) + Value(old(b[..]))
  {
    for i := 0 to 16
      invariant forall k :: 0 <= k < i ==> o[k] == old(a[k]) + old(b[k])
      invariant forall k :: i <= k < 16 ==> a[k] == old(a[k]) && b[k] == old(b[k])
    {
      o[i] := a[i] + b[i];
    }
    ValueSum(old(a[..]), old(b[..]), o[..], 1);
  }

  method Sub(o: array<int>, a: array<int>, b: array<int>)
    requires o.Length == a.Length == b.Length == 16
    modifies o
    ensures forall i :: 0 <= i < 16 ==> o[i] == old(a[i]) - old(b[i])
    ensures Value(o[..]) == Value(old(a[..])) - Value(old(b[..]))
  {
    for i := 0 to 16
      invariant forall k :: 0 <= k < i ==> o[k] == old(a[k]) - old(b[k])
      invariant forall k :: i <= k < 16 ==> a[k] == old(a[k]) && b[k] == old(b[k])
    {
      o[i] := a[i] - b[i];
    }
    ValueSum(old(a[..]), old(b[..]), o[..], -1);
  }

  lemma {:induction false} ValueSum(s: seq<int>, t: seq<int>, u: seq<int>, sign: int)
    requires |s| == |t| == |u| && (sign == 1 || sign == -1)
    requires forall i :: 0 <= i < |s| ==> u[i] == s[i] + sign * t[i]
    ensures Value(u) == Value(s) + sign * Value(t)
  {
    if s != [] {
      assert u[0] == s[0] + sign * t[0];
      ValueSum(s[1..], t[1..], u[1..], sign);
    }
  }

  // ----- Multiplication -----

  /** What i products of narrow limbs can sum to. */
  function Cap(i: nat): int { 0x400_0000_0000 * i }

  lemma ProductBound(x: int, y: int)
    requires -NARROW <= x <= NARROW && -NARROW <= y <= NARROW
    ensures -Cap(1) <= x * y <= Cap(1)
  {
    if y >= 0 { MulMono(x, NARROW, y); MulMono(-NARROW, x, y); }
    else { MulMono(x, NARROW, -y); MulMono(-NARROW, x, -y); }
  }

  lemma {:induction false} ValueZeros(s: seq<int>)
    requires forall i :: 0 <= i < |s| ==> s[i] == 0
    ensures Value(s) == 0
  {
    if s != [] { ValueZeros(s[1..]); }
  }

  /** Column bounds while row i is being added and its first j products are in. */
  ghost predicate ColumnsWithin(s: seq<int>, i: nat, j: nat) {
    && |s| == 31
    && (forall k :: 0 <= k < 31 && k < i + j ==> -Cap(i + 1) <= s[k] <= Cap(i + 1))
    && (forall k :: i + j <= k < 31 ==> -Cap(i) <= s[k] <= Cap(i))
  }

  /** One product of row i added into its column keeps the bounds and moves the value by its weight. */
  lemma ColumnStep(s: seq<int>, i: nat, j: nat, x: int, y: int)
    requires i < 16 && j < 16 && ColumnsWithin(s, i, j)
    requires -NARROW <= x <= NARROW && -NARROW <= y <= NARROW
    ensures ExactDouble(x * y) && ExactDouble(s[i + j] + x * y)
    ensures var t := s[i + j := s[i + j] + x * y];
            && ColumnsWithin(t, i, j + 1)
            && Value(t) == Value(s) + (y * Pow(RADIX, j)) * (x * Pow(RADIX, i))
  {
    ProductBound(x, y);
    ValueUpdate(s, i + j, x * y);
    PowAdd(RADIX, i, j);
    Exchange(x, y, Pow(RADIX, i), Pow(RADIX, j));
  }

  /** Adds row i of the product, e times b shifted by i columns, in place. */
  method AddRow(t: array<int>, e: int, b: array<int>, i: nat)
    requires t != b && i < 16 && -NARROW <= e <= NARROW && Bounded(b[..], NARROW)
    requires ColumnsWithin(t[..], i, 0)
    modifies t
    ensures ColumnsWithin(t[..], i + 1, 0)
    ensures Value(t[..]) == Value(old(t[..])) + Value(b[..]) * (e * Pow(RADIX, i))
  {
    ghost var weight, was, y := e * Pow(RADIX, i), t[..], b[..];
    var j := 0;
    while j < 16
      invariant 0 <= j <= 16 && b[..] == y
      invariant Value(t[..]) == Value(was) + Value(y[..j]) * weight
      invariant ColumnsWithin(t[..], i, j)
    {
      ghost var s := t[..];
      ColumnStep(s, i, j, e, y[j]);
      ValuePrefix(y, j);
      Distribute(Value(y[..j]), y[j] * Pow(RADIX, j), weight);
      t[i + j] := t[i + j] + e * b[j];
      assert t[..] == s[i + j := s[i + j] + e * y[j]];
      j := j + 1;
    }
    assert y[..16] == y;
  }

  lemma RowSum(x: seq<int>, y: seq<int>, i: nat)
    requires i < |x|
    ensures Value(x[..i + 1]) * Value(y) == Value(x[..i]) * Value(y) + Value(y) * (x[i] * Pow(RADIX, i))
  {
    ValuePrefix(x, i);
    Distribute(Value(x[..i]), x[i] * Pow(RADIX, i), Value(y));
  }

  /** The 31 column sums of the schoolbook product. */
  method Columns(a: array<int>, b: array<int>) returns (t: array<int>)
    requires Bounded(a[..], NARROW) && Bounded(b[..], NARROW)
    ensures fresh(t) && t.Length == 31
    ensures Value(t[..]) == Value(a[..]) * Value(b[..])
    ensures ColumnsWithin(t[..], 16, 0)
  {
    ghost var x, y := a[..], b[..];
    t := new int[31](_ => 0);
    ValueZeros(t[..]);
    var i := 0;
    while i < 16
      invariant 0 <= i <= 16 && a[..] == x && b[..] == y
      invariant Value(t[..]) == Value(x[..i]) * Value(y)
      invariant ColumnsWithin(t[..], i, 0)
    {
      assert a[i] == x[i];
      AddRow(t, a[i], b, i);
      RowSum(x, y, i);
      i := i + 1;
    }
    assert x[..16] == x;
  }

  /** Adds 38 times the upper fifteen columns to the lower ones, in place. */
  method Fold(t: array<int>)
    requires ColumnsWithin(t[..], 16, 0)
    modifies t
    ensures Bounded(t[..16], WIDE)
    ensures Value(t[..16]) == Value(old(t[..16])) + 38 * Value(old(t[16..]))
  {
    ghost var was := t[..];
    ghost var lo, hi := was[..16], was[16..];
    assert t[..16] == lo && t[16..] == hi;
    var i := 0;
    while i < 15
      invariant 0 <= i <= 15
      invariant forall k :: i <= k < 31 ==> t[k] == was[k]
      invariant Value(t[..16]) == Value(lo) + 38 * Value(hi[..i])
      invariant forall k :: 0 <= k < i ==> t[k] == was[k] + 38 * was[k + 16]
    {
      ghost var s := t[..16];
      t[i] := t[i] + 38 * t[i + 16];
      assert ExactDouble(t[i]);
      assert t[..16] == s[i := s[i] + 38 * hi[i]];
      ValueUpdate(s, i, 38 * hi[i]);
      ValuePrefix(hi, i);
      Associate(38, hi[i], Pow(RADIX, i));
      i := i + 1;
    }
    assert hi[..15] == hi;
    forall k | 0 <= k < 16 ensures -WIDE <= t[..16][k] <= WIDE {
      assert t[..16][k] == if k < 15 then was[k] + 38 * was[k + 16] else was[k];
    }
  }

  /** Schoolbook product folded by 2^256 = 38 and carried twice; the output may be an input. */
  method Mul(o: array<int>, a: array<int>, b: array<int>)
    requires o.Length == 16 && Bounded(a[..], NARROW) && Bounded(b[..], NARROW)
    modifies o
    ensures Reduced(o[..])
    ensures SameResidue(Value(o[..]), Value(old(a[..])) * Value(old(b[..])))
  {
    var t := Columns(a, b);
    ghost var full := t[..];
    FoldKeepsResidue(full);
    assert full[..16] == t[..16] && full[16..] == t[16..];
    Fold(t);
    ghost var folded := t[..16];
    var i := 0;
    while i < 16
      invariant 0 <= i <= 16 && o[..i] == folded[..i] && t[..16] == folded
    {
      assert t[i] == folded[i];
      o[i] := t[i];
      i := i + 1;
    }
    assert o[..] == folded;
    CarriedTwice(folded);
    Carry(o);
    FirstPassBound(o[..]);
    Carry(o);
  }

  lemma FoldKeepsResidue(s: seq<int>)
    requires |s| == 31
    ensures SameResidue(Value(s[..16]) + 38 * Value(s[16..]), Value(s))
  {
    Sizes();
    var lo, hi := s[..16], Value(s[16..]);
    assert s == lo + s[16..];
    ValueConcat(lo, s[16..]);
    Distribute(2 * Prime(), 38, hi);
    Associate(2, Prime(), hi);
    Associate(2, hi, Prime());
    AddMultiple(Value(lo) + 38 * hi, 2 * hi, Prime());
  }

  lemma FirstPassBound(s: seq<int>)
    requires Loose(s)
    ensures Bounded(s, WIDE)
  {
    assert forall i :: 1 <= i < 16 ==> s[i] == s[1..][i - 1];
  }

  lemma CarriedTwice(s: seq<int>)
    requires Bounded(s, WIDE)
    ensures Loose(Carried(s)) && Reduced(Carried(Carried(s)))
    ensures SameResidue(Value(Carried(Carried(s))), Value(s))
  {
    FirstPass(s);
    SecondPass(Carried(s));
    CarriedKeepsResidue(s);
    CarriedKeepsResidue(Carried(s));
  }

  lemma ReducedIsNarrow(s: seq<int>)
    requires Reduced(s)
    ensures Bounded(s, NARROW)
  {
    assert forall i :: 1 <= i < 16 ==> s[i] == s[1..][i - 1];
  }
}
