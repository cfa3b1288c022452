/** Reduction modulo the group order in frontend/nacl.js: sixty-four radix-256 limbs, possibly far too large,
    become the 32 bytes of the residue. The signing scalar is computed with it. */
module Scalar25519 {
  import opened ModArith
  import opened Bytes
  import opened Words

  /** The number a limb sequence denotes; limbs may be negative or too large. */
  function Value8(s: seq<int>): int {
    if s == [] then 0 else s[0] + 256 * Value8(s[1..])
  }

  lemma {:induction false} ValueAppend8(s: seq<int>, x: int)
    ensures Value8(s + [x]) == Value8(s) + x * Pow(256, |s|)
  {
    if s == [] {
      assert s + [x] == [x];
    } else {
      assert (s + [x])[1..] == s[1..] + [x];
      ValueAppend8(s[1..], x);
      Associate(256, x, Pow(256, |s| - 1));
      Associate(x, 256, Pow(256, |s| - 1));
    }
  }

  lemma ValuePrefix8(s: seq<int>, k: nat)
    requires k < |s|
    ensures Value8(s[..k + 1]) == Value8(s[..k]) + s[k] * Pow(256, k)
  {
    assert s[..k + 1] == s[..k] + [s[k]];
    ValueAppend8(s[..k], s[k]);
  }

  lemma {:induction false} ValueUpdate8(s: seq<int>, k: nat, d: int)
    requires k < |s|
    ensures Value8(s[k := s[k] + d]) == Value8(s) + d * Pow(256, k)
  {
    var t := s[k := s[k] + d];
    if k > 0 {
      assert t[1..] == s[1..][k - 1 := s[1..][k - 1] + d];
      ValueUpdate8(s[1..], k - 1, d);
      Associate(256, d, Pow(256, k - 1));
      Associate(d, 256, Pow(256, k - 1));
    } else {
      assert t[1..] == s[1..];
    }
  }

  lemma {:induction false} ZerosAbove(s: seq<int>, k: nat)
    requires k <= |s| && forall i :: k <= i < |s| ==> s[i] == 0
    ensures Value8(s) == Value8(s[..k])
    decreases |s| - k
  {
    if k < |s| {
      ZerosAbove(s, k + 1);
      ValuePrefix8(s, k);
    } else {
      assert s[..k] == s;
    }
  }

  lemma {:induction false} ValueOfBytes(s: Bytes)
    ensures Value8(s) == FromBytesLE(s)
  {
    if s != [] { ValueOfBytes(s[1..]); }
  }

  lemma {:induction false} BytesBound(s: Bytes)
    ensures FromBytesLE(s) < Pow(256, |s|)
  {
    if s != [] { BytesBound(s[1..]); }
  }

  // ----- The order -----

  const LOW_LIMBS: seq<int> := [237, 211, 245, 92, 26, 99, 18, 88, 214, 156, 247, 162, 222, 249, 222, 20]

  /** The limbs of the group order, 2^252 + 27742317777372353535851937790883648493. */
  const LIMBS: seq<int> := LOW_LIMBS + [0, 0, 0, 0, 0, 0, 0, 0, 0, 0, 0, 0, 0, 0, 0, 16]

  ghost function Order(): int { Value8(LIMBS) }

  /** What the reduction uses of the order: it is little more than a power of two. */
  ghost predicate OrderShape(l: seq<int>) {
    && |l| == 32 && l[31] == 16
    && (forall t :: 0 <= t < 32 ==> 0 <= l[t] <= 255)
    && (forall t :: 16 <= t < 31 ==> l[t] == 0)
  }

  method OrderLimbs() returns (l: seq<int>)
    ensures l == LIMBS && OrderShape(l)
  {
    l := LIMBS;
  }

  lemma GapInside(s: seq<int>, lo: nat, mid: nat, hi: nat)
    requires lo <= mid <= hi < |s| && forall i :: lo <= i < hi ==> s[i] == 0
    ensures Value8(s[..mid]) == Value8(s[..lo])
    ensures Value8(s[..hi + 1]) == Value8(s[..lo]) + s[hi] * Pow(256, hi)
  {
    ValuePrefix8(s, hi);
    ZerosAbove(s[..hi], lo);
    ZerosAbove(s[..mid], lo);
    assert s[..hi][..lo] == s[..lo] && s[..mid][..lo] == s[..lo];
  }

  /** The order is sixteen times the top power plus its low sixteen limbs. */
  lemma OrderParts(l: seq<int>, lo: nat, mid: nat, top: nat)
    requires OrderShape(l) && lo == 16 && mid == 20 && top == 31
    ensures Value8(l) == Value8(l[..lo]) + 16 * Pow(256, top)
    ensures Value8(l[..mid]) == Value8(l[..lo])
  {
    GapInside(l, lo, mid, top);
    assert l[..top + 1] == l;
  }

  // ----- Folding one high limb into the low ones -----

  /** The largest magnitude a limb may have as input: sums of 32 products of bytes stay below it. */
  const RAW := 0x40_0000
  const BIG := 0x800_0000

  /** The largest magnitude of limb k when limbs above i are done. */
  function Cap(i: int, k: int): int {
    if k > i then 0
    else if i == 63 || k < i - 31 then RAW
    else if k <= i - 12 then 128
    else if k <= 50 then 132
    else BIG
  }

  ghost predicate Shaped(s: seq<int>, i: int) {
    |s| == 64 && forall k :: 0 <= k < 64 ==> -Cap(i, k) <= s[k] <= Cap(i, k)
  }

  /** The largest carry into step t of the fold of limb i; it dies out where the order has zero limbs. */
  function CarryCap(i: int, t: int): int {
    if t <= 16 then 0x2_0000_0000
    else if i == 63 then 0x400_0000
    else if t == 17 then 33554434
    else if t == 18 then 131076
    else if t == 19 then 516
    else 4
  }

  lemma ProductCap(a: int, l: int)
    requires -BIG <= a <= BIG && 0 <= l <= 255
    ensures -(BIG * 255) <= a * l <= BIG * 255
  {
    MulMono(a, BIG, l);
    MulMono(-BIG, a, l);
    MulMono(l, 255, BIG);
  }

  lemma CarryStays(i: int, t: int, x: int, n: int, p: int)
    requires 32 <= i <= 63 && 0 <= t < 20
    requires -CarryCap(i, t) <= n <= CarryCap(i, t) && -Cap(i, i - 32 + t) <= x <= Cap(i, i - 32 + t)
    requires -(BIG * 255) <= p <= BIG * 255 && (t >= 16 ==> p == 0)
    ensures -CarryCap(i, t + 1) <= (x + (n - 16 * p) + 128) / 256 <= CarryCap(i, t + 1)
    ensures -0x20_0000_0000_0000 < x + (n - 16 * p) < 0x20_0000_0000_0000
  {}

  /** One step changes limb j and the carry so that together they absorb the limb of the order. */
  method FoldStep(x: array<int>, i: int, j: int, l: int, n: int) returns (c: int)
    requires x.Length == 64 && 0 <= j < i < 64
    modifies x
    ensures -128 <= x[j] <= 127 && x[..] == old(x[..])[j := x[j]]
    ensures c == (old(x[j]) + (n - 16 * (old(x[i]) * l)) + 128) / 256
    ensures Value8(x[..]) + c * Pow(256, j + 1) == Value8(old(x[..])) + n * Pow(256, j) - 16 * (old(x[i]) * (l * Pow(256, j)))
  {
    ghost var s, a := x[..], x[i];
    Associate(16, a, l);
    x[j] := x[j] + (n - 16 * x[i] * l);
    c := (x[j] + 128) / 256;
    x[j] := x[j] - 256 * c;
    ghost var d := (n - 16 * (a * l)) - 256 * c;
    assert x[..] == s[j := s[j] + d];
    ValueUpdate8(s, j, d);
    AbsorbedValue(n, a, l, c, Pow(256, j));
  }

  lemma AbsorbedValue(n: int, a: int, l: int, c: int, p: int)
    ensures ((n - 16 * (a * l)) - 256 * c) * p + c * (256 * p) == n * p - 16 * (a * (l * p))
  {
    Distribute(n - 16 * (a * l), 256 * c, p);
    Distribute(n, 16 * (a * l), p);
    Associate(16, a * l, p);
    Associate(a, l, p);
    Associate(256, c, p);
    Associate(c, 256, p);
  }

  /** The part of the order subtracted after t steps, shifted to limb i - 32. */
  ghost function Shifted(l: seq<int>, t: nat, k: nat): int
    requires t <= |l|
  {
    Value8(l[..t]) * Pow(256, k)
  }

  lemma ShiftedStep(l: seq<int>, t: nat, k: nat)
    requires t < |l|
    ensures Shifted(l, t + 1, k) == Shifted(l, t, k) + l[t] * Pow(256, k + t)
  {
    ValuePrefix8(l, t);
    Distribute(Value8(l[..t]), l[t] * Pow(256, t), Pow(256, k));
    Associate(l[t], Pow(256, t), Pow(256, k));
    PowAdd(256, t, k);
  }

  lemma StepValue(v: int, n: int, pj: int, v0: int, a: int, shifted: int, l: int, next: int)
    requires v + n * pj == v0 - 16 * (a * shifted)
    requires next == v + n * pj - 16 * (a * (l * pj))
    ensures next == v0 - 16 * (a * (shifted + l * pj))
  {
    assert a * (shifted + l * pj) == a * shifted + a * (l * pj);
  }

  /** The invariant of the fold: limbs and carry hold the input less the part of the order subtracted so far. */
  ghost predicate Absorbed(v: int, n: int, v0: int, a: int, l: seq<int>, i: int, j: int)
    requires 32 <= i && i - 32 <= j <= i - 12 && OrderShape(l)
  {
    v + n * Pow(256, j) == v0 - 16 * (a * Shifted(l, j - (i - 32), i - 32))
  }

  lemma AbsorbedStep(v: int, n: int, v0: int, a: int, l: seq<int>, i: int, j: int, v': int, n': int)
    requires 32 <= i && i - 32 <= j < i - 12 && OrderShape(l) && Absorbed(v, n, v0, a, l, i, j)
    requires v' + n' * Pow(256, j + 1) == v + n * Pow(256, j) - 16 * (a * (l[j - (i - 32)] * Pow(256, j)))
    ensures Absorbed(v', n', v0, a, l, i, j + 1)
  {
    var t := j - (i - 32);
    ShiftedStep(l, t, i - 32);
    StepValue(v, n, Pow(256, j), v0, a, Shifted(l, t, i - 32), l[t], v' + n' * Pow(256, j + 1));
  }

  lemma AbsorbedAtStart(v0: int, a: int, l: seq<int>, i: int)
    requires 32 <= i && OrderShape(l)
    ensures Absorbed(v0, 0, v0, a, l, i, i - 32)
  {
    assert l[..0] == [];
  }

  /** All limbs but j in a window are as they were, and those of the window below j are reduced. */
  ghost predicate Swept(s: seq<int>, x: seq<int>, lo: int, j: int) {
    && |x| == |s| == 64 && 0 <= lo <= j <= 64
    && (forall k :: 0 <= k < 64 && !(lo <= k < j) ==> x[k] == s[k])
    && (forall k :: lo <= k < j ==> -128 <= x[k] <= 127)
  }

  lemma SweptStep(s: seq<int>, x: seq<int>, lo: int, j: int, y: int)
    requires Swept(s, x, lo, j) && j < 64 && -128 <= y <= 127
    ensures Swept(s, x[j := y], lo, j + 1)
  {}

  lemma SweptCarry(s: seq<int>, x: seq<int>, i: int, j: int, l: seq<int>, n: int)
    requires 32 <= i <= 63 && i - 32 <= j < i - 12 && Shaped(s, i) && OrderShape(l) && Swept(s, x, i - 32, j)
    requires -CarryCap(i, j - (i - 32)) <= n <= CarryCap(i, j - (i - 32))
    ensures var c := (x[j] + (n - 16 * (x[i] * l[j - (i - 32)])) + 128) / 256;
            x[i] == s[i] && -CarryCap(i, j + 1 - (i - 32)) <= c <= CarryCap(i, j + 1 - (i - 32))
  {
    var t := j - (i - 32);
    assert -Cap(i, i) <= s[i] <= Cap(i, i) && -Cap(i, j) <= s[j] <= Cap(i, j);
    ProductCap(x[i], l[t]);
    CarryStays(i, t, x[j], n, x[i] * l[t]);
  }

  method FoldLimbs(x: array<int>, i: int, l: seq<int>) returns (n: int)
    requires x.Length == 64 && 32 <= i <= 63 && OrderShape(l) && Shaped(x[..], i)
    modifies x
    ensures Swept(old(x[..]), x[..], i - 32, i - 12)
    ensures -CarryCap(i, 20) <= n <= CarryCap(i, 20)
    ensures Absorbed(Value8(x[..]), n, Value8(old(x[..])), old(x[i]), l, i, i - 12)
  {
    ghost var s, a, v0 := x[..], x[i], Value8(x[..]);
    n := 0;
    var j := i - 32;
    AbsorbedAtStart(v0, a, l, i);
    while j < i - 12
      invariant i - 32 <= j <= i - 12
      invariant Swept(s, x[..], i - 32, j)
      invariant -CarryCap(i, j - (i - 32)) <= n <= CarryCap(i, j - (i - 32))
      invariant Absorbed(Value8(x[..]), n, v0, a, l, i, j)
    {
      ghost var y, m := x[..], n;
      SweptCarry(s, y, i, j, l, n);
      n := FoldStep(x, i, j, l[j - (i - 32)], n);
      SweptStep(s, y, i - 32, j, x[j]);
      AbsorbedStep(Value8(y), m, v0, a, l, i, j, Value8(x[..]), n);
      j := j + 1;
    }
  }

  /** A multiple of the order goes away: the fold, the last carry and the cleared limb together. */
  lemma FoldedValue(v0: int, v1: int, a: int, n: int, low: int, l: int, top: int, pk: int, pm: int, pi: int)
    requires v1 + n * pm == v0 - 16 * (a * (low * pk))
    requires l == low + 16 * top && pi == 256 * (top * pk)
    ensures v1 + n * pm + (-a) * pi == v0 + (-16 * (a * pk)) * l
  {
    Associate(a, pk, low);
    assert low * pk == pk * low;
    Associate(a, pk, top);
    assert top * pk == pk * top;
    Distribute(low, 16 * top, a * pk);
    assert (a * pk) * l == (a * pk) * low + 16 * ((a * pk) * top);
  }

  lemma HighPower(k: nat, top: nat)
    requires top == 31
    ensures Pow(256, k + 32) == 256 * (Pow(256, top) * Pow(256, k))
  {
    PowAdd(256, top, k);
    assert Pow(256, top + k + 1) == 256 * Pow(256, top + k);
  }

  lemma ShapedNext(s: seq<int>, t: seq<int>, i: int, n: int)
    requires 32 <= i <= 63 && Shaped(s, i) && Swept(s, t, i - 32, i - 12)
    requires -CarryCap(i, 20) <= n <= CarryCap(i, 20)
    ensures Shaped(t[i - 12 := t[i - 12] + n][i := 0], i - 1)
  {
    var u := t[i - 12 := t[i - 12] + n][i := 0];
    forall k | 0 <= k < 64 ensures -Cap(i - 1, k) <= u[k] <= Cap(i - 1, k) {
      assert -Cap(i, k) <= s[k] <= Cap(i, k);
    }
  }

  method ClearTop(x: array<int>, i: int, l: seq<int>)
    requires x.Length == 64 && 32 <= i <= 63 && OrderShape(l) && Shaped(x[..], i)
    modifies x
    ensures Shaped(x[..], i - 1)
    ensures Value8(x[..]) == Value8(old(x[..])) + (-16 * (old(x[i]) * Pow(256, i - 32))) * Value8(l)
  {
    ghost var s, a, v0 := x[..], x[i], Value8(x[..]);
    var n := FoldLimbs(x, i, l);
    ghost var t := x[..];
    ShapedNext(s, t, i, n);
    x[i - 12] := x[i - 12] + n;
    x[i] := 0;
    assert x[..] == t[i - 12 := t[i - 12] + n][i := 0];
    TwoUpdates(t, i - 12, n, i, a);
    ClearedValue(l, i, v0, Value8(t), a, n);
  }

  lemma TwoUpdates(t: seq<int>, j: nat, n: int, i: nat, a: int)
    requires j < i < |t| && t[i] == a
    ensures Value8(t[j := t[j] + n][i := 0]) == Value8(t) + n * Pow(256, j) + (-a) * Pow(256, i)
  {
    var u := t[j := t[j] + n];
    ValueUpdate8(t, j, n);
    ValueUpdate8(u, i, -a);
    assert u[i := u[i] + (-a)] == u[i := 0];
  }

  lemma ClearedValue(l: seq<int>, i: int, v0: int, v1: int, a: int, n: int)
    requires OrderShape(l) && 32 <= i <= 63
    requires Absorbed(v1, n, v0, a, l, i, i - 12)
    ensures v1 + n * Pow(256, i - 12) + (-a) * Pow(256, i) == v0 + (-16 * (a * Pow(256, i - 32))) * Value8(l)
  {
    OrderParts(l, 16, 20, 31);
    var top := 31;
    HighPower(i - 32, top);
    FoldedValue(v0, v1, a, n, Value8(l[..20]), Value8(l), Pow(256, top), Pow(256, i - 32), Pow(256, i - 12), Pow(256, i));
  }

  /** All the high limbs are folded away; the residue modulo the order stays. */
  method FoldHigh(x: array<int>, l: seq<int>)
    requires x.Length == 64 && OrderShape(l) && Shaped(x[..], 63) && Value8(l) > 0
    modifies x
    ensures Shaped(x[..], 31)
    ensures Value8(x[..]) % Value8(l) == Value8(old(x[..])) % Value8(l)
  {
    var i := 63;
    while i >= 32
      invariant 31 <= i <= 63 && Shaped(x[..], i)
      invariant Value8(x[..]) % Value8(l) == Value8(old(x[..])) % Value8(l)
    {
      ghost var v, a := Value8(x[..]), x[i];
      ClearTop(x, i, l);
      AddMultiple(v, -16 * (a * Pow(256, i - 32)), Value8(l));
      i := i - 1;
    }
  }

  // ----- Subtracting the estimated quotient -----

  lemma QuotientStep(v: int, n: int, q: int, l: int, c: int, p: int, v0: int, done: int)
    requires v + n * p == v0 - q * done
    ensures v + ((n - q * l) - 256 * c) * p + c * (256 * p) == v0 - q * (done + l * p)
  {
    Distribute(n - q * l, 256 * c, p);
    Distribute(n, q * l, p);
    Associate(q, l, p);
    Associate(256, c, p);
    Associate(c, 256, p);
    assert q * (done + l * p) == q * done + q * (l * p);
  }

  ghost predicate DigitsBelow(x: seq<int>, s: seq<int>, j: int) {
    && |x| == |s| && 0 <= j <= |x|
    && (forall k :: 0 <= k < j ==> 0 <= x[k] < 256)
    && (forall k :: j <= k < |x| ==> x[k] == s[k])
  }

  /** All limbs from one on are at most this large. */
  ghost predicate Within(s: seq<int>, from: int, b: int) {
    0 <= from && forall k :: from <= k < |s| ==> -b <= s[k] <= b
  }

  lemma ShapedWithin(s: seq<int>)
    requires Shaped(s, 31)
    ensures Within(s, 0, 132)
  {
    forall k | 0 <= k < |s| ensures -132 <= s[k] <= 132 {
      assert -Cap(31, k) <= s[k] <= Cap(31, k);
    }
  }

  lemma SmallProduct(q: int, l: int, b: int)
    requires -b <= q <= b && 0 <= l <= 255
    ensures -(255 * b) <= q * l <= 255 * b
  {
    MulMono(q, b, l);
    MulMono(-b, q, l);
    MulMono(l, 255, b);
  }

  /** One limb less its part of the order, as the word the code shifts and masks. */
  method EstimateStep(x: int, n: int, lead: int, l: int) returns (low: int, c: int)
    requires -132 <= x <= 132 && -20 <= n <= 20 && -132 <= lead <= 132 && 0 <= l <= 255
    ensures var y := x + (n - (lead / 16) * l); IsWord(y) && low == y % 256 && c == y / 256
    ensures -20 <= c <= 20
  {
    PowersOfTwo();
    var q := ShiftDown(lead, 4, 16);
    SmallProduct(q, l, 9);
    var y := x + (n - q * l);
    c := ShiftDown(y, 8, 256);
    low := MaskLow(y, 8, 256);
  }

  /** Subtracts the order as often as its leading limb says and carries; the last carry is returned. */
  method SubtractEstimate(x: array<int>, l: seq<int>) returns (n: int)
    requires x.Length == 64 && OrderShape(l) && Shaped(x[..], 31)
    modifies x
    ensures DigitsBelow(x[..], old(x[..]), 32) && -20 <= n <= 20
    ensures Value8(x[..]) + n * Pow(256, |l|) == Value8(old(x[..])) - (old(x[31]) / 16) * Value8(l)
  {
    ghost var s, q, v0 := x[..], x[31] / 16, Value8(x[..]);
    ShapedWithin(s);
    n := 0;
    var j := 0;
    while j < 32
      invariant 0 <= j <= 32 && DigitsBelow(x[..], s, j) && -20 <= n <= 20
      invariant Value8(x[..]) + n * Pow(256, j) == v0 - q * Value8(l[..j])
    {
      ghost var y, m := x[..], n;
      assert x[j] == s[j] && x[31] == s[31];
      var low, c := EstimateStep(x[j], n, x[31], l[j]);
      x[j], n := low, c;
      ghost var d := (m - q * l[j]) - 256 * n;
      assert x[..] == y[j := y[j] + d];
      ValueUpdate8(y, j, d);
      ValuePrefix8(l, j);
      QuotientStep(Value8(y), m, q, l[j], n, Pow(256, j), v0, Value8(l[..j]));
      j := j + 1;
    }
    assert l[..32] == l;
  }

  /** Takes the order off as often as the last carry says; a borrow of one adds it back. */
  method SubtractMultiple(x: array<int>, l: seq<int>, n: int)
    requires x.Length == 64 && OrderShape(l) && -20 <= n <= 20 && Within(x[..], 0, 256)
    modifies x
    ensures Value8(x[..]) == Value8(old(x[..])) - n * Value8(l)
    ensures Within(x[..], 0, 6000)
  {
    ghost var v0 := Value8(x[..]);
    var j := 0;
    while j < 32
      invariant 0 <= j <= 32 && Within(x[..], 0, 6000) && Within(x[..], j, 256)
      invariant Value8(x[..]) == v0 - n * Value8(l[..j])
    {
      ghost var y := x[..];
      var p := n * l[j];
      SmallProduct(n, l[j], 20);
      StaysWithin(y, j, p);
      x[j] := x[j] - p;
      assert x[..] == y[j := y[j] + (-p)];
      ValueUpdate8(y, j, -p);
      ValuePrefix8(l, j);
      MultipleStep(v0, n, Value8(l[..j]), l[j], p, Pow(256, j));
      j := j + 1;
    }
    assert l[..32] == l;
  }

  lemma MultipleStep(v0: int, n: int, done: int, l: int, product: int, p: int)
    requires product == n * l
    ensures v0 - n * done + (-product) * p == v0 - n * (done + l * p)
  {
    Associate(n, l, p);
    assert n * (done + l * p) == n * done + n * (l * p);
    assert (-product) * p == -(product * p);
  }

  lemma StaysWithin(y: seq<int>, j: nat, p: int)
    requires j < |y| && Within(y, 0, 6000) && Within(y, j, 256) && -5100 <= p <= 5100
    ensures var x := y[j := y[j] + (-p)]; Within(x, 0, 6000) && Within(x, j + 1, 256)
  {
    assert -256 <= y[j] <= 256;
  }

  // ----- Writing the bytes -----

  lemma ByteAppend(r: Bytes, b: byte)
    ensures FromBytesLE(r + [b]) == FromBytesLE(r) + b * Pow(256, |r|)
  {
    ValueOfBytes(r);
    ValueOfBytes(r + [b]);
    ValueAppend8(r, b);
  }

  lemma {:induction false} CarryUp(s: seq<int>, c: int)
    requires |s| > 0
    ensures Value8(s[0 := s[0] + c]) == Value8(s) + c
  {
    assert s[0 := s[0] + c][1..] == s[1..];
  }

  lemma EmitStep(r: Bytes, p: int, x: int, rest: int, w: int)
    requires FromBytesLE(r) + p * (x + 256 * rest) == w && p == Pow(256, |r|)
    ensures FromBytesLE(r + [x % 256]) + (256 * p) * (rest + x / 256) == w
  {
    ByteAppend(r, x % 256);
    EmitArithmetic(p, x / 256, x % 256, x, rest);
  }

  lemma EmitArithmetic(p: int, q: int, b: int, x: int, rest: int)
    requires x == 256 * q + b
    ensures b * p + (256 * p) * (rest + q) == p * (x + 256 * rest)
  {
    assert (256 * p) * (rest + q) == 256 * (p * rest) + 256 * (p * q);
    assert p * (x + 256 * rest) == p * x + 256 * (p * rest);
    assert p * x == 256 * (p * q) + p * b;
  }

  /** The byte a limb writes and what it carries: `x & 255` and `x >> 8`. */
  method EmitWord(x: int) returns (low: byte, carry: int)
    requires -6100 <= x <= 6100
    ensures low == x % 256 && carry == x / 256
  {
    PowersOfTwo();
    carry := ShiftDown(x, 8, 256);
    low := MaskLow(x, 8, 256);
  }

  /** Carries once more and writes the low 32 bytes. */
  method EmitBytes(r: array<byte>, x: array<int>)
    requires r.Length >= 32 && x.Length == 64 && Within(x[..], 0, 6000)
    modifies r, x
    ensures r[32..] == old(r[32..])
    ensures Pow(256, |r[..32]|) > 0 && FromBytesLE(r[..32]) == Value8(old(x[..])) % Pow(256, |r[..32]|)
  {
    ghost var w := Value8(x[..]);
    var i := 0;
    while i < 32
      invariant 0 <= i <= 32 && r[32..] == old(r[32..])
      invariant -6100 <= x[i] <= 6100 && Within(x[..], i + 1, 6000)
      invariant FromBytesLE(r[..i]) + Pow(256, i) * Value8(x[i..]) == w
    {
      ghost var y, z := x[i..], r[..i];
      assert -6000 <= x[..][i + 1] <= 6000;
      var low, carry := EmitWord(x[i]);
      x[i + 1] := x[i + 1] + carry;
      r[i] := low;
      assert x[i + 1..] == y[1..][0 := y[1..][0] + y[0] / 256];
      CarryUp(y[1..], y[0] / 256);
      assert r[..i + 1] == z + [y[0] % 256];
      EmitStep(z, Pow(256, i), y[0], Value8(y[1..]), w);
      i := i + 1;
    }
    EmittedResidue(r[..32], Value8(x[i..]), w);
  }

  lemma EmittedResidue(r: Bytes, high: int, w: int)
    requires FromBytesLE(r) + Pow(256, |r|) * high == w
    ensures Pow(256, |r|) > 0 && FromBytesLE(r) == w % Pow(256, |r|)
  {
    PowPositive(256, |r|);
    BytesBound(r);
    RemainderOf(FromBytesLE(r), Pow(256, |r|), high, w);
  }

  lemma RemainderOf(r: int, m: int, q: int, w: int)
    requires 0 <= r < m && r + m * q == w
    ensures r == w % m
  {
    DivModUnique(w, m, q, r);
  }

  // ----- The result is the canonical residue -----

  lemma {:induction false} SignedBound(s: seq<int>, b: int)
    requires forall k :: 0 <= k < |s| ==> -b <= s[k] <= b
    ensures -(b * (Pow(256, |s|) - 1)) <= 255 * Value8(s) <= b * (Pow(256, |s|) - 1)
  {
    if s != [] {
      SignedBound(s[1..], b);
      BoundStep(s[0], Value8(s[1..]), b, Pow(256, |s| - 1));
    }
  }

  lemma BoundStep(x: int, v: int, b: int, p: int)
    requires -b <= x <= b && -(b * (p - 1)) <= 255 * v <= b * (p - 1)
    ensures -(b * (256 * p - 1)) <= 255 * (x + 256 * v) <= b * (256 * p - 1)
  {
    assert b * (256 * p - 1) == 256 * (b * (p - 1)) + 255 * b;
  }

  /** After the folds: the leading limb decides the quotient, up to one order too many. */
  lemma LeadingLimb(s: seq<int>, top: nat)
    requires Shaped(s, 31) && top == 31
    ensures var low := Value8(s) - s[top] * Pow(256, top);
            -132 * Pow(256, top) <= 255 * low <= 132 * Pow(256, top)
    ensures -132 <= s[top] <= 132
  {
    forall k | 0 <= k < 64 ensures -132 <= s[k] <= 132 && (k >= 32 ==> s[k] == 0) {
      assert -Cap(31, k) <= s[k] <= Cap(31, k);
    }
    ZerosAbove(s, top + 1);
    ValuePrefix8(s, top);
    SignedBound(s[..top], 132);
  }

  /** The low limbs of the order are negligible against the leading one. */
  lemma SmallExcess(l: seq<int>, lo: nat, top: nat)
    requires OrderShape(l) && lo == 16 && top == 31
    ensures var c := Value8(l) - 16 * Pow(256, top); 0 <= c && 256 * c <= Pow(256, top)
    ensures Pow(256, top) > 0
  {
    OrderParts(l, lo, 20, top);
    LowLimbs(l, lo);
    MuchLarger(lo, top - lo);
  }

  lemma LowLimbs(l: seq<int>, k: nat)
    requires OrderShape(l) && k <= 32
    ensures 0 <= Value8(l[..k]) < Pow(256, k)
  {
    var low: Bytes := l[..k];
    ValueOfBytes(low);
    BytesBound(low);
  }

  lemma MuchLarger(e: nat, f: nat)
    requires f > 0
    ensures 256 * Pow(256, e) <= Pow(256, e + f) && Pow(256, e) > 0
  {
    PowAdd(256, e, f);
    PowPositive(256, f - 1);
    PowPositive(256, e);
    MulMono(256, Pow(256, f), Pow(256, e));
  }

  /** The number left after the estimate lies in one order around zero, so a single borrow mends it. */
  lemma EstimateLeaves(lead: int, low: int, c: int, b: int, y: int)
    requires b > 0 && -132 <= lead <= 132 && -132 * b <= 255 * low <= 132 * b
    requires 0 <= c && 256 * c <= b
    requires y == low + lead * b - (lead / 16) * (c + 16 * b)
    ensures -b < y < 16 * b
  {
    var q, m := lead / 16, lead % 16;
    assert lead == 16 * q + m;
    assert y == low + m * b - q * c by {
      assert lead * b == 16 * (q * b) + m * b;
      assert q * (c + 16 * b) == q * c + 16 * (q * b);
    }
    assert -9 <= q <= 8;
    MulMono(-9, q, c);
    MulMono(q, 8, c);
    MulMono(0, m, b);
    MulMono(m, 15, b);
  }

  lemma BorrowMends(y: int, digits: int, n: int, l: int, b: int, r: int)
    requires b > 0 && 16 * b <= l <= 17 * b && -b < y < 16 * b
    requires 0 <= digits < 256 * b && digits + n * (256 * b) == y
    requires r == (digits - n * l) % (256 * b)
    ensures r == y % l
  {
    var m := 256 * b;
    if n >= 1 { MulMono(1, n, m); }
    if n <= -2 { MulMono(n, -2, m); }
    if y >= 0 {
      assert n == 0;
      SmallMod(y, m);
      SmallMod(y, l);
    } else {
      assert n == -1;
      DivModUnique(digits + l, m, 1, y + l);
      DivModUnique(y, l, -1, y + l);
    }
  }

  lemma DigitsValue(x: seq<int>, s: seq<int>, l: seq<int>)
    requires Shaped(s, 31) && DigitsBelow(x, s, 32) && |l| == 32
    ensures 0 <= Value8(x) < Pow(256, |l|)
  {
    forall k | 32 <= k < 64 ensures x[k] == 0 {
      assert -Cap(31, k) <= s[k] <= Cap(31, k);
    }
    ZerosAbove(x, |l|);
    var d: Bytes := x[..|l|];
    ValueOfBytes(d);
    BytesBound(d);
  }

  lemma DigitsWithin(x: seq<int>, s: seq<int>)
    requires Shaped(s, 31) && DigitsBelow(x, s, 32)
    ensures Within(x, 0, 256)
  {
    ShapedWithin(s);
    forall k | 0 <= k < |x| ensures -256 <= x[k] <= 256 {
      assert -132 <= s[k] <= 132;
    }
  }

  lemma ShapedAtStart(s: seq<int>)
    requires |s| == 64 && forall k :: 0 <= k < 64 ==> -RAW <= s[k] <= RAW
    ensures Shaped(s, 63)
  {}

  /** Writes the residue of the limbs modulo the group order as 32 little-endian bytes. */
  method ModL(r: array<byte>, x: array<int>)
    requires r.Length >= 32 && x.Length == 64
    requires forall k :: 0 <= k < 64 ==> -RAW <= x[k] <= RAW
    modifies r, x
    ensures r[32..] == old(r[32..])
    ensures Order() > 0 && FromBytesLE(r[..32]) == Value8(old(x[..])) % Order()
  {
    var l := OrderLimbs();
    ModLimbs(r, x, l);
  }

  method ModLimbs(r: array<byte>, x: array<int>, l: seq<int>)
    requires r.Length >= 32 && x.Length == 64 && OrderShape(l)
    requires forall k :: 0 <= k < 64 ==> -RAW <= x[k] <= RAW
    modifies r, x
    ensures r[32..] == old(r[32..])
    ensures Value8(l) > 0 && FromBytesLE(r[..32]) == Value8(old(x[..])) % Value8(l)
  {
    ShapedAtStart(x[..]);
    OrderPositive(l);
    FoldHigh(x, l);
    WriteResidue(r, x, l);
  }

  /** From folded limbs to the bytes of the residue. */
  method WriteResidue(r: array<byte>, x: array<int>, l: seq<int>)
    requires r.Length >= 32 && x.Length == 64 && OrderShape(l) && Shaped(x[..], 31)
    modifies r, x
    ensures r[32..] == old(r[32..])
    ensures Value8(l) > 0 && FromBytesLE(r[..32]) == Value8(old(x[..])) % Value8(l)
  {
    ghost var s := x[..];
    var n := SubtractEstimate(x, l);
    ghost var d := x[..];
    DigitsWithin(d, s);
    SubtractMultiple(x, l, n);
    EmitBytes(r, x);
    FinalResidue(s, d, l, Value8(l), n, Pow(256, |l|), FromBytesLE(r[..32]));
  }

  lemma OrderPositive(l: seq<int>)
    requires OrderShape(l)
    ensures Value8(l) > 0
  {
    SmallExcess(l, |l| / 2, |l| - 1);
  }

  lemma FinalResidue(s: seq<int>, d: seq<int>, l: seq<int>, lv: int, n: int, m: int, r: int)
    requires Shaped(s, 31) && OrderShape(l) && DigitsBelow(d, s, 32) && m == Pow(256, |l|) > 0 && lv == Value8(l)
    requires Value8(d) + n * m == Value8(s) - (s[31] / 16) * lv
    requires r == (Value8(d) - n * lv) % m
    ensures lv > 0 && r == Value8(s) % lv
  {
    ResidueBounds(s, d, l);
    MendedResidue(Value8(s), s[31], lv, Pow(256, |l| - 1), m, Value8(d), n, r);
  }

  lemma ResidueBounds(s: seq<int>, d: seq<int>, l: seq<int>)
    requires Shaped(s, 31) && OrderShape(l) && DigitsBelow(d, s, 32)
    ensures var b := Pow(256, |l| - 1);
            && b > 0 && -132 <= s[31] <= 132 && -132 * b <= 255 * (Value8(s) - s[31] * b) <= 132 * b
            && 0 <= Value8(l) - 16 * b && 256 * (Value8(l) - 16 * b) <= b
            && Pow(256, |l|) == 256 * b && 0 <= Value8(d) < Pow(256, |l|)
  {
    DigitsValue(d, s, l);
    LeadingLimb(s, |l| - 1);
    SmallExcess(l, |l| / 2, |l| - 1);
    NextPower(|l| - 1);
  }

  lemma NextPower(e: nat)
    ensures Pow(256, e + 1) == 256 * Pow(256, e)
  {}

  lemma MendedResidue(v: int, lead: int, l: int, b: int, m: int, digits: int, n: int, r: int)
    requires b > 0 && -132 <= lead <= 132 && -132 * b <= 255 * (v - lead * b) <= 132 * b
    requires 0 <= l - 16 * b && 256 * (l - 16 * b) <= b
    requires m == 256 * b && 0 <= digits < m && digits + n * m == v - (lead / 16) * l
    requires r == (digits - n * l) % m
    ensures l > 0 && r == v % l
  {
    var y := v - (lead / 16) * l;
    EstimateLeaves(lead, v - lead * b, l - 16 * b, b, y);
    BorrowMends(y, digits, n, l, b, r);
    AddMultiple(y, lead / 16, l);
  }

  // ----- The order's value -----

  lemma FourLimbs(s: seq<int>)
    requires |s| >= 4
    ensures Value8(s) == s[0] + 256 * (s[1] + 256 * (s[2] + 256 * s[3])) + 0x1_0000_0000 * Value8(s[4..])
  {
    assert s[1..][1..] == s[2..] && s[2..][1..] == s[3..] && s[3..][1..] == s[4..];
    assert Value8(s[1..]) == s[1] + 256 * Value8(s[2..]);
    assert Value8(s[2..]) == s[2] + 256 * Value8(s[3..]);
    assert Value8(s[3..]) == s[3] + 256 * Value8(s[4..]);
  }

  lemma LowSixteen(s: seq<int>, blocks: seq<int>)
    requires |s| == 16 && |blocks| == 4
    requires forall k :: 0 <= k < 4 ==>
      blocks[k] == s[4 * k] + 256 * (s[4 * k + 1] + 256 * (s[4 * k + 2] + 256 * s[4 * k + 3]))
    ensures Value8(s) == blocks[0] + 0x1_0000_0000 * (blocks[1] + 0x1_0000_0000 * (blocks[2] + 0x1_0000_0000 * blocks[3]))
  {
    FourLimbs(s);
    FourLimbs(s[4..]);
    FourLimbs(s[4..][4..]);
    FourLimbs(s[4..][4..][4..]);
    assert s[4..][4..][4..][4..] == [];
    assert s[4..][4..] == s[8..] && s[8..][4..] == s[12..];
  }

  lemma PowerOfTwo(top: nat)
    ensures 16 * Pow(256, top) == Pow(2, 8 * top + 4)
  {
    assert Pow(2, 4) == 16;
    PowAdd(2, 4, 4);
    PowMul(2, 8, top);
    PowAdd(2, 8 * top, 4);
  }

  ghost predicate LowBytes(s: seq<int>) {
    && |s| >= 16
    && s[0] == 237 && s[1] == 211 && s[2] == 245 && s[3] == 92 && s[4] == 26 && s[5] == 99 && s[6] == 18 && s[7] == 88
    && s[8] == 214 && s[9] == 156 && s[10] == 247 && s[11] == 162 && s[12] == 222 && s[13] == 249 && s[14] == 222 && s[15] == 20
  }

  lemma LowBytesValue(l: seq<int>, lo: nat)
    requires LowBytes(l) && lo == 16
    ensures Value8(l[..lo]) == 27742317777372353535851937790883648493
  {
    LowSixteen(l[..lo], [1559614445, 1477600026, 2734136534, 350157278]);
  }

  lemma ValueFromParts(l: seq<int>, lo: nat, top: nat)
    requires OrderShape(l) && lo == 16 && top == 31 && LowBytes(l)
    ensures Value8(l) == Pow(2, 8 * top + 4) + 27742317777372353535851937790883648493
  {
    OrderParts(l, lo, 20, top);
    LowBytesValue(l, lo);
    PowerOfTwo(top);
  }

  /** The limbs denote the order of the base point's group, section 5.1 of RFC 8032. */
  lemma OrderIs(e: nat, top: nat)
    requires e == 252 && top == 31
    ensures Order() == Pow(2, e) + 27742317777372353535851937790883648493
  {
    assert LowBytes(LIMBS);
    ValueFromParts(LIMBS, 16, top);
  }

  // ----- Reducing hashes, and the signing scalar -----

  lemma LoadedValue(s: seq<int>, f: Bytes)
    requires |s| == 64 && |f| <= 64
    requires (forall k :: 0 <= k < |f| ==> s[k] == f[k]) && (forall k :: |f| <= k < 64 ==> s[k] == 0)
    ensures Value8(s) == FromBytesLE(f)
  {
    ZerosAbove(s, |f|);
    assert s[..|f|] == f;
    ValueOfBytes(f);
  }

  /** Spreads the first n bytes over zeroed limbs. */
  method LoadBytes(f: array<byte>, n: nat) returns (s: array<int>)
    requires n <= 64 && n <= f.Length
    ensures fresh(s) && s.Length == 64 && Value8(s[..]) == FromBytesLE(f[..n])
    ensures forall k :: 0 <= k < 64 ==> 0 <= s[k] <= 255
  {
    s := new int[64](_ => 0);
    for i := 0 to n
      invariant forall k :: 0 <= k < i ==> s[k] == f[k]
      invariant forall k :: i <= k < 64 ==> s[k] == 0
    {
      s[i] := f[i];
    }
    LoadedValue(s[..], f[..n]);
  }

  method Clear(r: array<byte>)
    modifies r
    ensures forall k :: 0 <= k < r.Length ==> r[k] == 0
  {
    for i := 0 to r.Length
      invariant forall k :: 0 <= k < i ==> r[k] == 0
    {
      r[i] := 0;
    }
  }

  /** Reduces a 64-byte hash in place; the upper half is cleared. */
  method Reduce(r: array<byte>)
    requires r.Length == 64
    modifies r
    ensures Order() > 0 && FromBytesLE(r[..32]) == FromBytesLE(old(r[..])) % Order()
    ensures forall b :: b in r[32..] ==> b == 0
  {
    assert r[..64] == r[..];
    var x := LoadBytes(r, 64);
    Clear(r);
    ModL(r, x);
  }

  lemma AddedProduct(v: int, v0: int, x: int, h: int, done: int, pi: int, po: int, p: int)
    requires v == v0 + x * (done * po) && p == pi * po
    ensures v + (x * h) * p == v0 + x * ((done + h * pi) * po)
  {
    Associate(x, h, p);
    Associate(h, pi, po);
    Distribute(done, h * pi, po);
    assert x * (done * po + h * p) == x * (done * po) + x * (h * p);
  }

  /** Adds a times h at limb o. */
  method AddRow8(s: array<int>, o: nat, a: byte, h: array<byte>, ghost b: nat)
    requires s.Length == 64 && o < 32 && h.Length >= 32
    requires forall k :: 0 <= k < 64 ==> 0 <= s[k] <= b
    modifies s
    ensures forall k :: 0 <= k < 64 ==> 0 <= s[k] <= b + 65025
    ensures Value8(s[..]) == Value8(old(s[..])) + a * (FromBytesLE(h[..32]) * Pow(256, o))
  {
    ghost var v0 := Value8(s[..]);
    var i := 0;
    while i < 32
      invariant 0 <= i <= 32
      invariant forall k :: 0 <= k < 64 ==> 0 <= s[k] <= b + (if o <= k < o + i then 65025 else 0)
      invariant Value8(s[..]) == v0 + a * (FromBytesLE(h[..i]) * Pow(256, o))
    {
      ghost var y := s[..];
      ByteProduct(a, h[i]);
      s[o + i] := s[o + i] + a * h[i];
      assert s[..] == y[o + i := y[o + i] + a * h[i]];
      ValueUpdate8(y, o + i, a * h[i]);
      assert h[..i + 1] == h[..i] + [h[i]];
      ByteAppend(h[..i], h[i]);
      PowAdd(256, i, o);
      AddedProduct(Value8(y), v0, a, h[i], FromBytesLE(h[..i]), Pow(256, i), Pow(256, o), Pow(256, o + i));
      i := i + 1;
    }
  }

  lemma ByteProduct(a: byte, b: byte)
    ensures 0 <= a * b <= 65025
  {
    MulMono(a, 255, b);
    MulMono(0, a, b);
  }

  /** Adds a times h, byte by byte, to limbs that hold 32 bytes. */
  method AddProduct(s: array<int>, a: array<byte>, h: array<byte>)
    requires s.Length == 64 && a.Length >= 32 && h.Length >= 32
    requires forall k :: 0 <= k < 64 ==> 0 <= s[k] <= 255
    modifies s
    ensures forall k :: 0 <= k < 64 ==> -RAW <= s[k] <= RAW
    ensures Value8(s[..]) == Value8(old(s[..])) + FromBytesLE(a[..32]) * FromBytesLE(h[..32])
  {
    ghost var v0, hv := Value8(s[..]), FromBytesLE(h[..32]);
    assert a[..0] == [];
    var o := 0;
    while o < 32
      invariant 0 <= o <= 32
      invariant forall k :: 0 <= k < 64 ==> 0 <= s[k] <= 255 + 65025 * o
      invariant Value8(s[..]) == v0 + FromBytesLE(a[..o]) * hv
    {
      AddRow8(s, o, a[o], h, 255 + 65025 * o);
      assert a[..o + 1] == a[..o] + [a[o]];
      ByteAppend(a[..o], a[o]);
      RowAdded(FromBytesLE(a[..o]), a[o], Pow(256, o), hv);
      o := o + 1;
    }
  }

  /** The scalar of a signature: the nonce plus challenge times secret, modulo the group order. */
  method SigningScalar(r: array<byte>, f: array<byte>, a: array<byte>, h: array<byte>)
    requires r.Length >= 32 && f.Length >= 32 && a.Length >= 32 && h.Length >= 32
    modifies r
    ensures r[32..] == old(r[32..])
    ensures Order() > 0
    ensures FromBytesLE(r[..32])
         == (FromBytesLE(old(f[..32])) + FromBytesLE(old(a[..32])) * FromBytesLE(old(h[..32]))) % Order()
  {
    var s := LoadBytes(f, 32);
    AddProduct(s, a, h);
    ModL(r, s);
  }

  lemma RowAdded(done: int, a: int, p: int, h: int)
    ensures done * h + a * (h * p) == (done + a * p) * h
  {
    Associate(a, p, h);
    Distribute(done, a * p, h);
    assert h * p == p * h;
  }
}
