/** The fixed exponent chains of frontend/nacl.js: inversion and the square-root power. */
module Inverse25519 {
  import opened ModArith
  import opened Primes
  import opened Limbs
  import opened Field25519

  /** The exponent held when indices top, ..., a + 1 of a square-and-multiply chain are done;
      indices in `skip` square without multiplying. */
  ghost function ChainExponent(top: nat, skip: set<int>, a: int): nat
    requires -1 <= a <= top
    decreases top - a
  {
    if a == top then 1
    else 2 * ChainExponent(top, skip, a + 1) + (if a + 1 in skip then 0 else 1)
  }

  lemma {:induction false} UnskippedChain(top: nat, skip: set<int>, a: int)
    requires -1 <= a <= top && forall i :: a < i <= top ==> i !in skip
    ensures ChainExponent(top, skip, a) == Pow(2, top - a + 1) - 1
    decreases top - a
  {
    if a < top { UnskippedChain(top, skip, a + 1); }
  }

  lemma InverseTail(top: nat, skip: set<int>)
    requires top > 4 && forall i :: i in skip <==> i == 2 || i == 4
    ensures ChainExponent(top, skip, -1) == 32 * Pow(2, top - 3) - 21
  {
    UnskippedChain(top, skip, 4);
    var m := Pow(2, top - 3);
    assert ChainExponent(top, skip, 3) == 2 * m - 2;
    assert ChainExponent(top, skip, 2) == 4 * m - 3;
    assert ChainExponent(top, skip, 1) == 8 * m - 6;
    assert ChainExponent(top, skip, 0) == 16 * m - 11;
  }

  /** The inversion chain reaches exactly p - 2. */
  lemma InverseExponent(top: nat, skip: set<int>, end: int)
    requires top == 253 && skip == {2, 4} && end == -1
    ensures ChainExponent(top, skip, end) == Prime() - 2
  {
    InverseTail(top, skip);
    PowAdd(2, 5, 250);
    assert Pow(2, 5) == 32;
  }

  lemma Pow2523Tail(top: nat, skip: set<int>)
    requires top > 1 && forall i :: i in skip <==> i == 1
    ensures ChainExponent(top, skip, -1) == 4 * Pow(2, top) - 3
  {
    UnskippedChain(top, skip, 1);
    assert ChainExponent(top, skip, 0) == 2 * Pow(2, top) - 2;
  }

  lemma FourTimes(e: nat)
    ensures Pow(2, e + 2) == 4 * Pow(2, e) >= 4
  {
    PowPositive(2, e);
    assert Pow(2, e + 2) == 2 * Pow(2, e + 1);
  }

  /** The square-root chain reaches exactly 2^252 - 3. */
  lemma Pow2523Exponent(top: nat, skip: set<int>, end: int)
    requires top == 250 && skip == {1} && end == -1
    ensures ChainExponent(top, skip, end) == Pow(2, 252) - 3 && Pow(2, 252) > 3
  {
    Pow2523Tail(top, skip);
    FourTimes(top);
  }

  method Copy(o: array<int>, a: array<int>)
    requires o.Length == a.Length == 16
    modifies o
    ensures o[..] == old(a[..])
  {
    for i := 0 to 16
      invariant o[..i] == old(a[..i])
      invariant a[i..] == old(a[i..])
    {
      o[i] := a[i];
    }
  }

  lemma SquareResidue(y: int, c: int, x: int, e: nat)
    requires SameResidue(c, Pow(x, e)) && SameResidue(y, c * c)
    ensures SameResidue(y, Pow(x, 2 * e))
  {
    CongruentMul(c, Pow(x, e), c, Pow(x, e), Prime());
    PowAdd(x, e, e);
  }

  lemma TimesResidue(y: int, c: int, x: int, e: nat)
    requires SameResidue(c, Pow(x, e)) && SameResidue(y, c * x)
    ensures SameResidue(y, Pow(x, e + 1))
  {
    CongruentMul(c, Pow(x, e), x, x, Prime());
    assert Pow(x, e + 1) == x * Pow(x, e) == Pow(x, e) * x;
  }

  /** One iteration: square, and multiply by the base unless the index is skipped. */
  method ChainStep(c: array<int>, t: array<int>, skip: bool, ghost e: nat)
    requires c != t && c.Length == 16 && Bounded(c[..], NARROW) && Bounded(t[..], NARROW)
    requires SameResidue(Value(c[..]), Pow(Value(t[..]), e))
    modifies c
    ensures Bounded(c[..], NARROW)
    ensures SameResidue(Value(c[..]), Pow(Value(t[..]), 2 * e + if skip then 0 else 1))
  {
    ghost var before := Value(c[..]);
    Mul(c, c, c);
    ReducedIsNarrow(c[..]);
    SquareResidue(Value(c[..]), before, Value(t[..]), e);
    if !skip {
      ghost var squared := Value(c[..]);
      Mul(c, c, t);
      ReducedIsNarrow(c[..]);
      TimesResidue(Value(c[..]), squared, Value(t[..]), 2 * e);
    }
  }

  lemma ChainStart(x: int)
    ensures SameResidue(x, Pow(x, 1)) && Prime() > 2
  {
    Sizes();
    assert Pow(x, 1) == x;
  }

  /** Fermat inversion: raises to p - 2. The output may be the input. */
  method Inverse(o: array<int>, t: array<int>)
    requires o.Length == 16 && Bounded(t[..], NARROW)
    modifies o
    ensures Bounded(o[..], NARROW) && Prime() > 2
    ensures SameResidue(Value(o[..]), Pow(Value(old(t[..])), Prime() - 2))
  {
    var c := new int[16];
    Copy(c, t);
    ghost var x := Value(t[..]);
    ChainStart(x);
    var a := 253;
    while a >= 0
      invariant -1 <= a <= 253 && fresh(c) && t[..] == old(t[..]) && Bounded(c[..], NARROW)
      invariant SameResidue(Value(c[..]), Pow(x, ChainExponent(253, {2, 4}, a)))
    {
      ChainStep(c, t, !(a != 2 && a != 4), ChainExponent(253, {2, 4}, a));
      a := a - 1;
    }
    InverseExponent(253, {2, 4}, a);
    Copy(o, c);
  }

  /** The power used for square roots: raises to 2^252 - 3. The output may be the input. */
  method Pow2523(o: array<int>, t: array<int>)
    requires o.Length == 16 && Bounded(t[..], NARROW)
    modifies o
    ensures Bounded(o[..], NARROW) && Pow(2, 252) > 3
    ensures SameResidue(Value(o[..]), Pow(Value(old(t[..])), Pow(2, 252) - 3))
  {
    var c := new int[16];
    Copy(c, t);
    ghost var x := Value(t[..]);
    ChainStart(x);
    var a := 250;
    while a >= 0
      invariant -1 <= a <= 250 && fresh(c) && t[..] == old(t[..]) && Bounded(c[..], NARROW)
      invariant SameResidue(Value(c[..]), Pow(x, ChainExponent(250, {1}, a)))
    {
      ChainStep(c, t, !(a != 1), ChainExponent(250, {1}, a));
      a := a - 1;
    }
    Pow2523Exponent(250, {1}, a);
    Copy(o, c);
  }

  /** What the inversion chain returns is the inverse of every nonzero residue. */
  lemma InverseIsInverse(x: int, y: int)
    requires IsPrime(Prime()) && x % Prime() != 0
    requires SameResidue(y, Pow(x, Prime() - 2))
    ensures (x * y) % Prime() == 1
  {
    Sizes();
    Fermat(Prime(), x);
    CongruentMul(x, x, y, Pow(x, Prime() - 2), Prime());
    assert Pow(x, Prime() - 1) == x * Pow(x, Prime() - 2);
  }
}
