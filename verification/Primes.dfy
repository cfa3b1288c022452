/** Elementary number theory behind the RSA and field modules: the extended Euclidean
    algorithm, Euclid's lemma, Fermat's little theorem and a two-prime remainder theorem. */
module Primes {
  import opened ModArith

  ghost predicate IsPrime(p: int) {
    p > 1 && forall d :: 1 < d < p ==> p % d != 0
  }

  datatype Bezout = Bezout(gcd: nat, x: int, y: int)

  /** The extended Euclidean algorithm; the result names the gcd and both Bezout coefficients. */
  function ExtendedGcd(a: nat, b: nat): (r: Bezout)
    ensures a * r.x + b * r.y == r.gcd
    ensures (a > 0 || b > 0) ==> r.gcd > 0 && a % r.gcd == 0 && b % r.gcd == 0
    decreases b
  {
    if b == 0 then Bezout(a, 1, 0)
    else
      var s := ExtendedGcd(b, a % b);
      EuclidStep(a, b, s);
      Bezout(s.gcd, s.y, s.x - (a / b) * s.y)
  }

  lemma EuclidStep(a: nat, b: nat, s: Bezout)
    requires b > 0 && b * s.x + (a % b) * s.y == s.gcd
    requires s.gcd > 0 && b % s.gcd == 0 && (a % b) % s.gcd == 0
    ensures a * s.y + b * (s.x - (a / b) * s.y) == s.gcd
    ensures a % s.gcd == 0
  {
    var q, r, g := a / b, a % b, s.gcd;
    assert a == b * q + r;
    Distribute(b * q, r, s.y);
    Associate(b, q, s.y);
    assert b * (s.x - q * s.y) == b * s.x - b * (q * s.y);
    CongruentScale(b, 0, q, g);
    CongruentAdd(b * q, 0, r, 0, g);
  }

  predicate Coprime(a: nat, b: nat) {
    ExtendedGcd(a, b).gcd == 1
  }

  /** Being coprime means having no common divisor but one. */
  lemma CoprimeMeansNoCommonDivisor(a: nat, b: nat, d: int)
    requires Coprime(a, b) && d > 0 && a % d == 0 && b % d == 0
    ensures d == 1
  {
    var r := ExtendedGcd(a, b);
    CongruentScale(a, 0, r.x, d);
    CongruentScale(b, 0, r.y, d);
    CongruentAdd(a * r.x, 0, b * r.y, 0, d);
    if d > 1 { SmallMod(1, d); }
  }

  lemma DivisorAtMost(d: int, a: int)
    requires d > 0 && a > 0 && a % d == 0
    ensures d <= a
  {
    assert a == (a / d) * d;
    if d > a { SmallMod(a, d); }
  }

  lemma CoprimeToPrime(p: int, c: nat)
    requires IsPrime(p) && 0 < c < p
    ensures ExtendedGcd(c, p).gcd == 1
  {
    DivisorAtMost(ExtendedGcd(c, p).gcd, c);
  }

  /** Modulo a prime every number that is not zero has an inverse. */
  lemma InverseModPrime(p: int, a: int) returns (x: int)
    requires IsPrime(p) && a % p != 0
    ensures (a * x) % p == 1
  {
    var c := a % p;
    var r := ExtendedGcd(c, p);
    CoprimeToPrime(p, c);
    x := r.x;
    ResidueInverse(p, a, c, r.x, r.y);
  }

  lemma ResidueInverse(p: int, a: int, c: int, x: int, y: int)
    requires p > 1 && c == a % p && c * x + p * y == 1
    ensures (a * x) % p == 1
  {
    BezoutInverse(c, p, x, y);
    SmallMod(1, p);
    ModIdempotent(a, p);
    CongruentScale(c, a, x, p);
  }

  lemma BezoutInverse(a: int, m: int, x: int, y: int)
    requires m > 0 && a * x + m * y == 1
    ensures (a * x) % m == 1 % m
  {
    assert m * y == y * m;
    Distribute(0, y, m);
    AddMultiple(1, -y, m);
  }

  lemma CancelFactor(p: int, a: int, x: int, b: int)
    requires p > 1 && (a * x) % p == 1 && (a * b) % p == 0
    ensures b % p == 0
  {
    SmallMod(1, p);
    CongruentScale(a * x, 1, b, p);
    CongruentScale(a * b, 0, x, p);
    Associate(a, x, b);
    Associate(a, b, x);
  }

  lemma EuclidsLemma(p: int, a: int, b: int)
    requires IsPrime(p) && (a * b) % p == 0
    ensures a % p == 0 || b % p == 0
  {
    if a % p != 0 {
      var x := InverseModPrime(p, a);
      CancelFactor(p, a, x, b);
    }
  }

  // ----- Fermat's little theorem: multiplying 1..p-1 by x permutes the residues -----

  function Product(s: seq<int>): int {
    if s == [] then 1 else s[0] * Product(s[1..])
  }

  function Factorial(n: nat): int {
    if n == 0 then 1 else n * Factorial(n - 1)
  }

  lemma {:induction false} ProductAppend(s: seq<int>, t: seq<int>)
    ensures Product(s + t) == Product(s) * Product(t)
  {
    if s == [] {
      assert s + t == t;
    } else {
      assert (s + t)[1..] == s[1..] + t;
      ProductAppend(s[1..], t);
      Associate(s[0], Product(s[1..]), Product(t));
    }
  }

  ghost predicate DistinctWithin(s: seq<int>, n: nat) {
    && (forall i :: 0 <= i < |s| ==> 1 <= s[i] <= n)
    && (forall i, j :: 0 <= i < j < |s| ==> s[i] != s[j])
  }

  lemma WithoutLargest(s: seq<int>, n: nat, i: nat)
    requires n > 0 && DistinctWithin(s, n) && i < |s| && s[i] == n
    ensures DistinctWithin(s[..i] + s[i + 1..], n - 1)
  {}

  lemma {:induction false} DistinctBound(s: seq<int>, n: nat)
    requires DistinctWithin(s, n)
    ensures |s| <= n
    decreases n
  {
    if s == [] {
    } else if i :| 0 <= i < |s| && s[i] == n {
      WithoutLargest(s, n, i);
      DistinctBound(s[..i] + s[i + 1..], n - 1);
    } else {
      assert 1 <= s[0] <= n;
      DistinctBound(s, n - 1);
    }
  }

  lemma ProductSplit(s: seq<int>, i: nat)
    requires i < |s|
    ensures Product(s) == Product(s[..i]) * (s[i] * Product(s[i + 1..]))
  {
    ProductAppend(s[..i], s[i..]);
    assert s == s[..i] + s[i..] && s[i..][1..] == s[i + 1..];
  }

  lemma MoveOut(a: int, n: int, b: int)
    ensures a * (n * b) == n * (a * b)
  {
    Associate(a, n, b);
    Associate(n, a, b);
  }

  lemma WithoutFactor(s: seq<int>, i: nat)
    requires i < |s|
    ensures Product(s) == s[i] * Product(s[..i] + s[i + 1..])
  {
    ProductSplit(s, i);
    ProductAppend(s[..i], s[i + 1..]);
    MoveOut(Product(s[..i]), s[i], Product(s[i + 1..]));
  }

  lemma {:induction false} PermutationProduct(s: seq<int>, n: nat)
    requires DistinctWithin(s, n) && |s| == n
    ensures Product(s) == Factorial(n)
  {
    if n > 0 {
      if forall i :: 0 <= i < |s| ==> s[i] != n { DistinctBound(s, n - 1); }
      var i :| 0 <= i < |s| && s[i] == n;
      WithoutLargest(s, n, i);
      PermutationProduct(s[..i] + s[i + 1..], n - 1);
      WithoutFactor(s, i);
    }
  }

  function Multiples(x: int, p: int, k: nat): seq<int>
    requires p > 0
  {
    if k == 0 then [] else Multiples(x, p, k - 1) + [(x * k) % p]
  }

  lemma {:induction false} MultiplesAt(x: int, p: int, k: nat)
    requires p > 0
    ensures |Multiples(x, p, k)| == k
    ensures forall i :: 0 <= i < k ==> Multiples(x, p, k)[i] == (x * (i + 1)) % p
  {
    if k > 0 { MultiplesAt(x, p, k - 1); }
  }

  lemma MultiplesDistinct(x: int, p: int)
    requires IsPrime(p) && x % p != 0
    ensures DistinctWithin(Multiples(x, p, p - 1), p - 1)
  {
    var s := Multiples(x, p, p - 1);
    MultiplesAt(x, p, p - 1);
    forall i | 0 <= i < p - 1 ensures 1 <= s[i] <= p - 1 {
      if (x * (i + 1)) % p == 0 {
        EuclidsLemma(p, x, i + 1);
        SmallMod(i + 1, p);
      }
    }
    forall i, j | 0 <= i < j < p - 1 ensures s[i] != s[j] {
      if s[i] == s[j] {
        CongruentIffDifference(x * (j + 1), x * (i + 1), p);
        assert x * (j + 1) - x * (i + 1) == x * (j - i);
        EuclidsLemma(p, x, j - i);
        SmallMod(j - i, p);
      }
    }
  }

  lemma ProductResidueStep(prod: int, x: int, w: int, k: int, f: int, p: int)
    requires p > 0 && prod % p == (w * f) % p
    ensures (prod * ((x * k) % p)) % p == ((x * w) * (k * f)) % p
  {
    ModIdempotent(x * k, p);
    CongruentMul(prod, w * f, (x * k) % p, x * k, p);
    Exchange(w, f, x, k);
    Exchange(x, w, k, f);
    Exchange(x, k, w, f);
    assert (w * f) * (x * k) == (x * k) * (w * f);
  }

  lemma {:induction false} MultiplesProduct(x: int, p: int, k: nat)
    requires p > 0
    ensures Product(Multiples(x, p, k)) % p == (Pow(x, k) * Factorial(k)) % p
  {
    if k > 0 {
      MultiplesProduct(x, p, k - 1);
      ProductAppend(Multiples(x, p, k - 1), [(x * k) % p]);
      assert Product([(x * k) % p]) == (x * k) % p;
      ProductResidueStep(Product(Multiples(x, p, k - 1)), x, Pow(x, k - 1), k, Factorial(k - 1), p);
    }
  }

  lemma {:induction false} FactorialPrimeTo(p: int, k: nat)
    requires IsPrime(p) && k < p
    ensures Factorial(k) % p != 0
  {
    if k > 0 {
      FactorialPrimeTo(p, k - 1);
      SmallMod(k, p);
      if Factorial(k) % p == 0 { EuclidsLemma(p, k, Factorial(k - 1)); }
    } else {
      SmallMod(1, p);
    }
  }

  /** Fermat's little theorem. */
  lemma Fermat(p: int, x: int)
    requires IsPrime(p) && x % p != 0
    ensures Pow(x, p - 1) % p == 1
  {
    var y, f := Pow(x, p - 1), Factorial(p - 1);
    MultiplesProduct(x, p, p - 1);
    MultiplesDistinct(x, p);
    MultiplesAt(x, p, p - 1);
    PermutationProduct(Multiples(x, p, p - 1), p - 1);
    FactorialPrimeTo(p, p - 1);
    CongruentIffDifference(y * f, f, p);
    Distribute(y, 1, f);
    EuclidsLemma(p, y - 1, f);
    CongruentIffDifference(y, 1, p);
    SmallMod(1, p);
  }

  lemma FermatMultiple(p: int, x: int, k: nat)
    requires IsPrime(p) && x % p != 0
    ensures (p - 1) * k >= 0 && Pow(x, (p - 1) * k) % p == 1
  {
    Fermat(p, x);
    PowMul(x, p - 1, k);
    SmallMod(1, p);
    CongruentPow(Pow(x, p - 1), 1, k, p);
    PowOne(k);
  }

  lemma TimesOne(w: int, x: int, p: int)
    requires p > 1 && w % p == 1
    ensures (x * w) % p == x % p
  {
    SmallMod(1, p);
    CongruentScale(w, 1, x, p);
  }

  /** Raising to any exponent congruent to one modulo p - 1 is the identity on residues, zero included. */
  lemma FermatIdentity(p: int, x: int, e: nat)
    requires IsPrime(p) && e > 0 && (e - 1) % (p - 1) == 0
    ensures Pow(x, e) % p == x % p
  {
    if x % p == 0 {
      CongruentScale(x, 0, Pow(x, e - 1), p);
    } else {
      var k := (e - 1) / (p - 1);
      assert e - 1 == (p - 1) * k;
      FermatMultiple(p, x, k);
      TimesOne(Pow(x, e - 1), x, p);
    }
  }

  lemma PrimeNotMultiple(q: int, p: int)
    requires IsPrime(p) && IsPrime(q) && p != q
    ensures p % q != 0
  {
    if p < q { SmallMod(p, q); }
  }

  /** Two distinct primes that divide a number divide it together. */
  lemma DistinctPrimesDivide(p: int, q: int, y: int)
    requires IsPrime(p) && IsPrime(q) && p != q
    requires y % p == 0 && y % q == 0
    ensures p * q > 0 && y % (p * q) == 0
  {
    var t := y / p;
    assert y == p * t;
    PrimeNotMultiple(q, p);
    EuclidsLemma(q, p, t);
    MultipleOfProduct(p, q, t);
  }

  lemma MultipleOfProduct(p: int, q: int, t: int)
    requires p > 0 && q > 0 && t % q == 0
    ensures p * q > 0 && (p * t) % (p * q) == 0
  {
    var u := t / q;
    assert t == q * u;
    Associate(p, q, u);
    MulMono(1, q, p);
    AddMultiple(0, u, p * q);
  }
}
