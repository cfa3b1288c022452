/** Chaum blind RSA signatures, as used for unlinkable admin tokens (src/crypto/blind_sig.rs). */
module BlindRsa {
  import opened ModArith
  import opened Primes
  import opened Bytes
  import opened Options

  datatype PublicKey = PublicKey(n: nat, e: nat)
  datatype PrivateKey = PrivateKey(n: nat, d: nat)

  // ----- Library arithmetic -----

  /** Square-and-multiply modular exponentiation. */
  function ModPow(b: nat, e: nat, m: nat): (r: nat)
    requires m > 0
    ensures r == Pow(b, e) % m
    decreases e
  {
    if e == 0 then 1 % m
    else
      var half := ModPow((b * b) % m, e / 2, m);
      SquareAndMultiply(b, e, m);
      if e % 2 == 0 then half else (b * half) % m
  }

  lemma SquareAndMultiply(b: nat, e: nat, m: nat)
    requires m > 0 && e > 0
    ensures var half := Pow((b * b) % m, e / 2) % m;
            Pow(b, e) % m == if e % 2 == 0 then half else (b * half) % m
  {
    var k := e / 2;
    ModIdempotent(b * b, m);
    CongruentPow((b * b) % m, b * b, k, m);
    assert Pow(b, 2) == b * Pow(b, 1) == b * b;
    PowMul(b, 2, k);
    ModIdempotent(Pow(b, 2 * k), m);
    CongruentMul(b, b, Pow(b, 2 * k) % m, Pow(b, 2 * k), m);
  }

  /** The sign handling of `modinv`: turns a Bezout coefficient into a residue. */
  function InverseFromBezout(x: int, m: nat): nat
    requires m > 0
  {
    if x < 0 then m - (-x) % m else x % m
  }

  function ModInv(a: nat, m: nat): Option<nat>
    requires m > 0
  {
    var r := ExtendedGcd(a, m);
    if r.gcd != 1 then None else Some(InverseFromBezout(r.x, m))
  }

  /** Whichever Bezout coefficient the extended gcd reports, the residue made from it is an inverse. */
  lemma AnyBezoutCoefficientInverts(a: nat, m: nat, x: int, y: int)
    requires m > 0 && a * x + m * y == 1
    ensures 0 <= InverseFromBezout(x, m) <= m
    ensures (a * InverseFromBezout(x, m)) % m == 1 % m
  {
    var v := InverseFromBezout(x, m);
    if x < 0 {
      assert -x == ((-x) / m) * m + (-x) % m;
      assert v == x + ((-x) / m + 1) * m by { Distribute((-x) / m, 1, m); }
      AddMultiple(x, (-x) / m + 1, m);
    } else {
      ModIdempotent(x, m);
    }
    CongruentScale(v, x, a, m);
    assert a * x == x * a && a * v == v * a;
    BezoutInverse(a, m, x, y);
  }

  // ----- The protocol -----

  method AllZero(a: array<byte>) returns (z: bool)
    ensures z <==> FromBytesBE(a[..]) == 0
  {
    ZeroBE(a[..]);
    var i := 0;
    while i < a.Length
      invariant 0 <= i <= a.Length
      invariant forall k :: 0 <= k < i ==> a[k] == 0
    {
      if a[i] != 0 { return false; }
      i := i + 1;
    }
    return true;
  }

  /** Clears the excess high bits of freshly drawn bytes, in place, and replaces zero by one. */
  method MaskBlindingFactor(rBytes: array<byte>, nBits: nat)
    requires nBits > 0 && rBytes.Length == (nBits + 7) / 8
    modifies rBytes
    ensures 0 < FromBytesBE(rBytes[..]) < Pow(2, nBits)
    ensures var drawn := old(FromBytesBE(rBytes[..])) % Pow(2, nBits);
            FromBytesBE(rBytes[..]) == if drawn == 0 then 1 else drawn
  {
    var excess := rBytes.Length * 8 - nBits;
    ghost var was := rBytes[..];
    MaskKeepsLowBits(was, nBits);
    rBytes[0] := rBytes[0] % Pow(2, 8 - excess);
    assert rBytes[..] == [was[0] % Pow(2, 8 - excess)] + was[1..];
    var z := AllZero(rBytes);
    PowPositive(2, nBits - 1);
    if z {
      ghost var masked := rBytes[..];
      ZeroBE(masked);
      rBytes[rBytes.Length - 1] := 1;
      assert rBytes[..][..rBytes.Length - 1] == masked[..rBytes.Length - 1];
      ZeroBE(masked[..rBytes.Length - 1]);
    }
  }

  lemma MaskKeepsLowBits(s: Bytes, nBits: nat)
    requires nBits > 0 && |s| == (nBits + 7) / 8
    ensures var keep := Pow(2, 8 - (|s| * 8 - nBits));
            && 0 < keep <= 256 && Pow(2, nBits) > 0
            && FromBytesBE([s[0] % keep] + s[1..]) == FromBytesBE(s) % Pow(2, nBits)
  {
    var w := 8 - (|s| * 8 - nBits);
    var rest, scale := s[1..], Pow(256, |s| - 1);
    KeptBits(w);
    SplitPower(w, |s| - 1);
    assert nBits == w + 8 * (|s| - 1);
    FirstByteBE(s[0], rest);
    FirstByteBE(s[0] % Pow(2, w), rest);
    ValueBoundBE(rest);
    assert s == [s[0]] + rest;
    DropHighPart(s[0], Pow(2, w), scale, FromBytesBE(rest));
  }

  lemma KeptBits(w: nat)
    requires w <= 8
    ensures 0 < Pow(2, w) <= 256
  {
    PowPositive(2, w);
    PowPositive(2, 8 - w);
    PowAdd(2, w, 8 - w);
    MulMono(1, Pow(2, 8 - w), Pow(2, w));
    EightBits();
  }

  lemma SplitPower(w: nat, k: nat)
    ensures Pow(2, w + 8 * k) == Pow(2, w) * Pow(256, k) && Pow(2, w + 8 * k) > 0
  {
    EightBits();
    PowMul(2, 8, k);
    PowAdd(2, w, 8 * k);
    PowPositive(2, w + 8 * k);
  }

  /** Reducing the digit above `scale` modulo `keep` reduces the number modulo their product. */
  lemma DropHighPart(b: nat, keep: nat, scale: nat, low: nat)
    requires keep > 0 && low < scale && keep * scale > 0
    ensures (b * scale + low) % (keep * scale) == (b % keep) * scale + low
  {
    var q, r := b / keep, b % keep;
    assert b == q * keep + r;
    Distribute(q * keep, r, scale);
    Associate(q, keep, scale);
    MulMono(r, keep - 1, scale);
    Distribute(keep, 1, scale);
    MulMono(0, r, scale);
    DivModUnique(b * scale + low, keep * scale, q, r * scale + low);
  }

  lemma EightBits()
    ensures Pow(2, 8) == 256
  {
    assert Pow(2, 4) == 16;
    PowAdd(2, 4, 4);
  }

  /** Blinds a token hash with the factor r; the second component is the factor the client keeps. */
  function BlindMessage(messageHash: Bytes, r: nat, key: PublicKey): (Bytes, Bytes)
    requires key.n > 0
  {
    var m := FromBytesBE(messageHash);
    var blinded := (m * ModPow(r, key.e, key.n)) % key.n;
    (ToBytesBE(blinded), ToBytesBE(r))
  }

  function SignBlinded(blinded: Bytes, key: PrivateKey): Bytes
    requires key.n > 0
  {
    ToBytesBE(ModPow(FromBytesBE(blinded), key.d, key.n))
  }

  /** None is the panic of the original when the factor has no inverse. */
  function UnblindSignature(blindedSig: Bytes, blindingFactor: Bytes, key: PublicKey): Option<Bytes>
    requires key.n > 0
  {
    match ModInv(FromBytesBE(blindingFactor), key.n)
    case None => None
    case Some(rInv) => Some(ToBytesBE((FromBytesBE(blindedSig) * rInv) % key.n))
  }

  predicate VerifyToken(messageHash: Bytes, signature: Bytes, key: PublicKey)
    requires key.n > 0
  {
    var sig, m := FromBytesBE(signature), FromBytesBE(messageHash);
    sig < key.n && ModPow(sig, key.e, key.n) == m
  }

  // ----- Correctness -----

  function Lcm(a: nat, b: nat): nat
    requires a > 0 && b > 0
  {
    (a / ExtendedGcd(a, b).gcd) * b
  }

  /** A textbook RSA key: two distinct primes and exponents inverse modulo lcm(p-1, q-1). */
  ghost predicate RsaKey(p: nat, q: nat, pub: PublicKey, priv: PrivateKey) {
    && IsPrime(p) && IsPrime(q) && p != q
    && pub.n == priv.n == p * q
    && var l := Lcm(p - 1, q - 1);
       l > 0 && (pub.e * priv.d) % l == 1 % l
  }

  lemma SmallPrimes()
    ensures IsPrime(3) && IsPrime(5)
  {}

  /** Such keys exist. */
  lemma SmallKey()
    ensures RsaKey(3, 5, PublicKey(15, 3), PrivateKey(15, 3)) && Coprime(2, 15)
  {
    SmallPrimes();
    assert ExtendedGcd(2, 4).gcd == 2;
    assert Lcm(2, 4) == 4;
  }

  lemma LcmIsCommonMultiple(a: nat, b: nat)
    requires a > 0 && b > 0
    ensures Lcm(a, b) > 0 && Lcm(a, b) % a == 0 && Lcm(a, b) % b == 0
  {
    var g := ExtendedGcd(a, b).gcd;
    var a', b' := a / g, b / g;
    assert a == a' * g && b == b' * g;
    assert a' > 0 by { if a' <= 0 { MulMono(a', 0, g); } }
    assert b' > 0 by { if b' <= 0 { MulMono(b', 0, g); } }
    MulMono(1, a', b);
    AddMultiple(0, a', b);
    assert a' * b == b' * a by { Associate(a', b', g); Associate(b', a', g); }
    AddMultiple(0, b', a);
  }

  /** The exponent modulus is the least common multiple: it divides every other one. */
  lemma LcmIsLeast(a: nat, b: nat, m: nat)
    requires a > 0 && b > 0 && m % a == 0 && m % b == 0
    ensures Lcm(a, b) > 0 && m % Lcm(a, b) == 0
  {
    LcmIsCommonMultiple(a, b);
    LeastOfParts(a, b, ExtendedGcd(a, b), m);
  }

  lemma LeastOfParts(a: nat, b: nat, r: Bezout, m: nat)
    requires a > 0 && b > 0 && r.gcd > 0 && a * r.x + b * r.y == r.gcd
    requires a % r.gcd == 0 && b % r.gcd == 0 && m % a == 0 && m % b == 0
    ensures (a / r.gcd) * b > 0 && m % ((a / r.gcd) * b) == 0
  {
    var a', b' := a / r.gcd, b / r.gcd;
    assert a == a' * r.gcd && b == b' * r.gcd && m == a * (m / a) && m == b * (m / b);
    LeastMultiple(a', b', r.gcd, m / a, m / b, r.x, r.y, m);
  }

  lemma LeastMultiple(a': nat, b': nat, g: nat, i: nat, j: nat, x: int, y: int, m: nat)
    requires g > 0 && a' > 0 && b' > 0
    requires m == (a' * g) * i && m == (b' * g) * j && (a' * g) * x + (b' * g) * y == g
    ensures a' * (b' * g) > 0 && m % (a' * (b' * g)) == 0
  {
    assert a' * x + b' * y == 1 by {
      Associate(a', g, x);
      Associate(b', g, y);
      assert (a' * x + b' * y) * g == 1 * g;
    }
    CommonFactor(a', b', g, i, j, x, y, m);
    assert b' * g > 0;
    MulMono(1, a', b' * g);
    AddMultiple(0, j * x + i * y, a' * (b' * g));
  }

  lemma CommonFactor(a': nat, b': nat, g: nat, i: nat, j: nat, x: int, y: int, m: nat)
    requires m == (a' * g) * i && m == (b' * g) * j && a' * x + b' * y == 1
    ensures m == (j * x + i * y) * (a' * (b' * g))
  {
    var l := a' * (b' * g);
    assert m == (a' * x) * m + (b' * y) * m by { Distribute(a' * x, b' * y, m); }
    assert (a' * x) * ((b' * g) * j) == (j * x) * l by { Exchange(a', x, b' * g, j); assert x * j == j * x; }
    assert (b' * y) * ((a' * g) * i) == (i * y) * l by {
      Exchange(b', y, a' * g, i);
      Associate(b', a', g);
      Associate(a', b', g);
      assert b' * a' == a' * b' && y * i == i * y;
    }
    Distribute(j * x, i * y, l);
  }

  lemma DividesTransitive(a: int, l: int, x: int)
    requires a > 0 && l > 0 && l % a == 0 && x % l == 0
    ensures x % a == 0
  {
    CongruentScale(l, 0, x / l, a);
    assert x == l * (x / l);
  }

  lemma ExponentsInvert(p: nat, q: nat, pub: PublicKey, priv: PrivateKey)
    requires RsaKey(p, q, pub, priv)
    ensures var k := pub.e * priv.d; k > 0 && (k - 1) % (p - 1) == 0 && (k - 1) % (q - 1) == 0
  {
    var l, k := Lcm(p - 1, q - 1), pub.e * priv.d;
    LcmIsCommonMultiple(p - 1, q - 1);
    MulMono(0, pub.e, priv.d);
    DivisorAtMost(p - 1, l);
    DivisorAtMost(q - 1, l);
    SmallMod(1, l);
    SmallMod(0, l);
    CongruentIffDifference(k, 1, l);
    DividesTransitive(p - 1, l, k - 1);
    DividesTransitive(q - 1, l, k - 1);
  }

  /** Raising to e and then to d is the identity modulo n, for every residue, coprime to n or not. */
  lemma RsaIdentity(p: nat, q: nat, pub: PublicKey, priv: PrivateKey, x: nat)
    requires RsaKey(p, q, pub, priv)
    ensures pub.n > 0
    ensures Pow(Pow(x, pub.e), priv.d) % pub.n == x % pub.n
    ensures Pow(Pow(x, priv.d), pub.e) % pub.n == x % pub.n
  {
    var k := pub.e * priv.d;
    ExponentsInvert(p, q, pub, priv);
    FermatIdentity(p, x, k);
    FermatIdentity(q, x, k);
    CongruentIffDifference(Pow(x, k), x, p);
    CongruentIffDifference(Pow(x, k), x, q);
    DistinctPrimesDivide(p, q, Pow(x, k) - x);
    CongruentIffDifference(Pow(x, k), x, p * q);
    PowMul(x, pub.e, priv.d);
    assert k == priv.d * pub.e;
    PowMul(x, priv.d, pub.e);
  }

  /** A token verifies exactly when the hash is below the modulus and the signature is its d-th power:
      every hash has one signature, and every other hash or signature is rejected. */
  lemma VerifyAcceptsExactlyTheSignature(p: nat, q: nat, pub: PublicKey, priv: PrivateKey, hash: Bytes, sig: Bytes)
    requires RsaKey(p, q, pub, priv)
    ensures pub.n > 0
    ensures VerifyToken(hash, sig, pub) <==>
            FromBytesBE(hash) < pub.n && FromBytesBE(sig) == Pow(FromBytesBE(hash), priv.d) % pub.n
  {
    var m, s, n := FromBytesBE(hash), FromBytesBE(sig), pub.n;
    RsaIdentity(p, q, pub, priv, m);
    RsaIdentity(p, q, pub, priv, s);
    if VerifyToken(hash, sig, pub) {
      ModIdempotent(Pow(s, pub.e), n);
      CongruentPow(m, Pow(s, pub.e), priv.d, n);
      SmallMod(s, n);
    } else if m < n && s == Pow(m, priv.d) % n {
      ModIdempotent(Pow(m, priv.d), n);
      CongruentPow(s, Pow(m, priv.d), pub.e, n);
      SmallMod(m, n);
      assert false;
    }
  }

  /** Unblinding what the server signed yields the plain signature, for every hash and every factor
      coprime to the modulus (also one at or above it); for any other factor it panics. */
  lemma UnblindRecoversSignature(p: nat, q: nat, pub: PublicKey, priv: PrivateKey, hash: Bytes, r: nat)
    requires RsaKey(p, q, pub, priv)
    ensures pub.n > 0
    ensures var (blinded, factor) := BlindMessage(hash, r, pub);
            var out := UnblindSignature(SignBlinded(blinded, priv), factor, pub);
            if Coprime(r, pub.n)
            then out.Some? && FromBytesBE(out.value) == Pow(FromBytesBE(hash), priv.d) % pub.n
            else out.None?
  {
    RsaIdentity(p, q, pub, priv, r);
    var n, m := pub.n, FromBytesBE(hash);
    var md := Pow(m, priv.d);
    var blinded := (m * ModPow(r, pub.e, n)) % n;
    var signed := ModPow(blinded, priv.d, n);
    if Coprime(r, n) {
      var b := ExtendedGcd(r, n);
      var rInv := InverseFromBezout(b.x, n);
      AnyBezoutCoefficientInverts(r, n, b.x, b.y);
      SignedBlinding(n, m, Pow(r, pub.e), priv.d, r);
      assert signed % n == (md * r) % n;
      CongruentScale(signed, md * r, rInv, n);
      CongruentScale(r * rInv, 1, md, n);
      Associate(md, r, rInv);
    }
  }

  lemma SignedBlinding(n: nat, m: nat, re: int, d: nat, r: nat)
    requires n > 0 && Pow(re, d) % n == r % n
    ensures var signed := Pow((m * (re % n)) % n, d) % n;
            signed % n == (Pow(m, d) * r) % n
  {
    ModIdempotent(re, n);
    CongruentMul(m, m, re % n, re, n);
    ModIdempotent(m * (re % n), n);
    CongruentPow((m * (re % n)) % n, m * re, d, n);
    PowDistributes(m, re, d);
    CongruentMul(Pow(m, d), Pow(m, d), Pow(re, d), r, n);
    ModIdempotent(Pow(m, d) * r, n);
  }

  /** The whole exchange: with a coprime factor the token verifies exactly when its hash is below n. */
  lemma BlindSignatureCorrect(p: nat, q: nat, pub: PublicKey, priv: PrivateKey, hash: Bytes, r: nat)
    requires RsaKey(p, q, pub, priv) && Coprime(r, pub.n)
    ensures pub.n > 0
    ensures var (blinded, factor) := BlindMessage(hash, r, pub);
            var out := UnblindSignature(SignBlinded(blinded, priv), factor, pub);
            out.Some? && (VerifyToken(hash, out.value, pub) <==> FromBytesBE(hash) < pub.n)
  {
    UnblindRecoversSignature(p, q, pub, priv, hash, r);
    var (blinded, factor) := BlindMessage(hash, r, pub);
    var out := UnblindSignature(SignBlinded(blinded, priv), factor, pub);
    VerifyAcceptsExactlyTheSignature(p, q, pub, priv, hash, out.value);
  }
}
