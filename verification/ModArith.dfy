/** Integer arithmetic shared by the RSA and field modules: powers, congruences, division facts. */
module ModArith {

  function Pow(b: int, e: nat): int {
    if e == 0 then 1 else b * Pow(b, e - 1)
  }

  lemma DivModUnique(a: int, m: int, q: int, r: int)
    requires m > 0 && 0 <= r < m
    requires a == q * m + r
    ensures a / m == q && a % m == r
  {
    var q', r' := a / m, a % m;
    assert a == q' * m + r';
    assert (q - q') * m == r' - r;
    if q > q' {
      MulMono(1, q - q', m);
    } else if q < q' {
      MulMono(q - q', -1, m);
    }
  }

  lemma Distribute(a: int, b: int, c: int)
    ensures (a + b) * c == a * c + b * c && (a - b) * c == a * c - b * c
  {}

  lemma Associate(a: int, b: int, c: int)
    ensures (a * b) * c == a * (b * c)
  {}

  lemma Exchange(a: int, b: int, c: int, d: int)
    ensures (a * b) * (c * d) == (a * c) * (b * d)
  {
    Associate(a, b, c * d);
    Associate(b, c, d);
    Associate(c, b, d);
    Associate(a, c, b * d);
  }

  lemma MulMono(a: int, b: int, c: int)
    requires a <= b && c >= 0
    ensures a * c <= b * c
  {}

  /** Adding a multiple of the modulus shifts the quotient and keeps the residue. */
  lemma AddMultiple(a: int, k: int, m: int)
    requires m > 0
    ensures (a + k * m) % m == a % m
    ensures (a + k * m) / m == a / m + k
  {
    assert a == (a / m) * m + a % m;
    assert a + k * m == (a / m + k) * m + a % m;
    DivModUnique(a + k * m, m, a / m + k, a % m);
  }

  lemma SmallMod(a: int, m: int)
    requires 0 <= a < m
    ensures a % m == a
  {}

  /** Two integers have the same residue exactly when the modulus divides their difference. */
  lemma CongruentIffDifference(a: int, b: int, m: int)
    requires m > 0
    ensures a % m == b % m <==> (a - b) % m == 0
  {
    var k := a / m - b / m;
    assert a - b == k * m + (a % m - b % m) by {
      assert a == (a / m) * m + a % m;
      assert b == (b / m) * m + b % m;
    }
    AddMultiple(a % m - b % m, k, m);
    var d := a % m - b % m;
    assert (a - b) % m == d % m;
    if d < 0 {
      AddMultiple(d, 1, m);
      SmallMod(d + m, m);
    } else {
      SmallMod(d, m);
    }
  }

  lemma CongruentScale(a: int, b: int, c: int, m: int)
    requires m > 0 && a % m == b % m
    ensures (a * c) % m == (b * c) % m
  {
    CongruentIffDifference(a, b, m);
    var k := (a - b) / m;
    assert a == b + k * m;
    Distribute(b, k * m, c);
    Associate(k, m, c);
    Associate(k, c, m);
    AddMultiple(b * c, k * c, m);
  }

  lemma CongruentMul(a: int, b: int, c: int, d: int, m: int)
    requires m > 0 && a % m == b % m && c % m == d % m
    ensures (a * c) % m == (b * d) % m
  {
    CongruentScale(a, b, c, m);
    CongruentScale(c, d, b, m);
    assert c * b == b * c && d * b == b * d;
  }

  lemma CongruentAdd(a: int, b: int, c: int, d: int, m: int)
    requires m > 0 && a % m == b % m && c % m == d % m
    ensures (a + c) % m == (b + d) % m
  {
    CongruentIffDifference(a, b, m);
    CongruentIffDifference(c, d, m);
    var k, l := (a - b) / m, (c - d) / m;
    assert a - b == k * m && c - d == l * m;
    assert (k + l) * m == k * m + l * m;
    AddMultiple(b + d, k + l, m);
  }

  lemma ModIdempotent(a: int, m: int)
    requires m > 0
    ensures (a % m) % m == a % m
  {}

  lemma {:induction false} CongruentPow(a: int, b: int, e: nat, m: int)
    requires m > 0 && a % m == b % m
    ensures Pow(a, e) % m == Pow(b, e) % m
  {
    if e > 0 {
      CongruentPow(a, b, e - 1, m);
      CongruentMul(a, b, Pow(a, e - 1), Pow(b, e - 1), m);
    }
  }

  lemma {:induction false} PowAdd(b: int, e: nat, f: nat)
    ensures Pow(b, e + f) == Pow(b, e) * Pow(b, f)
  {
    if e > 0 {
      PowAdd(b, e - 1, f);
      assert Pow(b, e + f) == b * Pow(b, e - 1 + f);
      Associate(b, Pow(b, e - 1), Pow(b, f));
    }
  }

  lemma {:induction false} PowMul(b: int, e: nat, f: nat)
    ensures e * f >= 0
    ensures Pow(b, e * f) == Pow(Pow(b, e), f)
  {
    if f > 0 {
      PowMul(b, e, f - 1);
      assert e * f == e + e * (f - 1);
      PowAdd(b, e, e * (f - 1));
    } else {
      assert e * f == 0;
    }
  }

  lemma {:induction false} PowDistributes(a: int, b: int, e: nat)
    ensures Pow(a * b, e) == Pow(a, e) * Pow(b, e)
  {
    if e > 0 {
      PowDistributes(a, b, e - 1);
      Exchange(a, b, Pow(a, e - 1), Pow(b, e - 1));
    }
  }

  lemma {:induction false} PowOne(e: nat)
    ensures Pow(1, e) == 1
  {
    if e > 0 { PowOne(e - 1); }
  }

  lemma {:induction false} PowPositive(b: int, e: nat)
    requires b > 0
    ensures Pow(b, e) > 0
  {
    if e > 0 {
      PowPositive(b, e - 1);
      MulMono(1, b, Pow(b, e - 1));
    }
  }
}
