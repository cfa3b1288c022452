/** The 32-bit words that bitwise operators of JavaScript work on, as two's-complement bits, lowest first. */
module Words {
  import opened ModArith

  /** The low n bits of an integer; halving rounds down, so negative numbers end in ones. */
  function Bits(x: int, n: nat): (s: seq<bool>)
    ensures |s| == n
    decreases n, x
  {
    if n == 0 then [] else [x % 2 == 1] + Bits(x / 2, n - 1)
  }

  /** The signed number that bits denote: the highest one counts negatively. */
  function Signed(s: seq<bool>): int
    requires s != []
  {
    if |s| == 1 then if s[0] then -1 else 0
    else (if s[0] then 1 else 0) + 2 * Signed(s[1..])
  }

  function Unsigned(s: seq<bool>): nat {
    if s == [] then 0 else (if s[0] then 1 else 0) + 2 * Unsigned(s[1..])
  }

  function Word(x: int): seq<bool> { Bits(x, 32) }

  function Xor(s: seq<bool>, t: seq<bool>): (r: seq<bool>)
    requires |s| == |t|
    ensures |r| == |s| && forall i :: 0 <= i < |s| ==> r[i] == (s[i] != t[i])
  {
    seq(|s|, i requires 0 <= i < |s| => s[i] != t[i])
  }

  function And(s: seq<bool>, t: seq<bool>): (r: seq<bool>)
    requires |s| == |t|
    ensures |r| == |s| && forall i :: 0 <= i < |s| ==> r[i] == (s[i] && t[i])
  {
    seq(|s|, i requires 0 <= i < |s| => s[i] && t[i])
  }

  function Not(s: seq<bool>): (r: seq<bool>)
    ensures |r| == |s| && forall i :: 0 <= i < |s| ==> r[i] == !s[i]
  {
    seq(|s|, i requires 0 <= i < |s| => !s[i])
  }

  /** The arithmetic right shift. */
  function ShiftRight(s: seq<bool>, k: nat): seq<bool>
    requires k < |s|
  {
    s[k..] + seq(k, _ => s[|s| - 1])
  }

  // ----- What the operators mean for integers -----

  /** An integer that fits n bits is what its bits denote. */
  lemma {:induction false} BitsKeep(x: int, n: nat)
    requires n > 0 && -Pow(2, n - 1) <= x < Pow(2, n - 1)
    ensures Signed(Bits(x, n)) == x
    decreases n
  {
    if n > 1 {
      BitsKeep(x / 2, n - 1);
      assert Bits(x, n)[1..] == Bits(x / 2, n - 1);
    }
  }

  predicate IsWord(x: int) { -0x8000_0000 <= x < 0x8000_0000 }

  lemma PowerOf31(n: nat)
    requires n == 31
    ensures Pow(2, n) == 0x8000_0000
  {
    assert Pow(2, 3) == 8;
    PowAdd(2, 4, 4);
    PowAdd(2, 8, 8);
    PowAdd(2, 16, 12);
    PowAdd(2, 8, 4);
    PowAdd(2, 28, 3);
    assert Pow(2, 4) == 16;
  }

  lemma WordKeeps(x: int)
    requires IsWord(x)
    ensures Signed(Word(x)) == x
  {
    PowerOf31(31);
    BitsKeep(x, 32);
  }

  lemma {:induction false} EqualBits(x: int, n: nat)
    requires x == 0 || x == -1
    ensures forall i :: 0 <= i < n ==> Bits(x, n)[i] == (x == -1)
  {
    if n > 0 { EqualBits(x / 2, n - 1); }
  }

  /** The masked-xor exchange of one pair of words: the mask ~(b - 1) is all ones for 1 and zero for 0. */
  lemma MaskedXorExchanges(p: int, q: int, b: int)
    requires IsWord(p) && IsWord(q) && 0 <= b <= 1
    ensures var t := And(Not(Word(b - 1)), Xor(Word(p), Word(q)));
            && Signed(Xor(Word(p), t)) == (if b == 1 then q else p)
            && Signed(Xor(Word(q), t)) == (if b == 1 then p else q)
  {
    var mask, x, y := Not(Word(b - 1)), Word(p), Word(q);
    var t := And(mask, Xor(x, y));
    EqualBits(b - 1, 32);
    assert Xor(x, t) == if b == 1 then y else x;
    assert Xor(y, t) == if b == 1 then x else y;
    WordKeeps(p);
    WordKeeps(q);
  }

  lemma HalveMore(x: int, k: nat)
    ensures Pow(2, k) > 0 && Pow(2, k + 1) > 0
    ensures x / Pow(2, k + 1) == (x / 2) / Pow(2, k)
    ensures x % Pow(2, k + 1) == x % 2 + 2 * ((x / 2) % Pow(2, k))
  {
    PowPositive(2, k);
    PowPositive(2, k + 1);
    HalvedParts(x, Pow(2, k), Pow(2, k + 1));
  }

  lemma HalvedParts(x: int, m: int, twice: int)
    requires m > 0 && twice == 2 * m
    ensures x / twice == (x / 2) / m && x % twice == x % 2 + 2 * ((x / 2) % m)
  {
    var q, r := (x / 2) / m, (x / 2) % m;
    assert x / 2 == q * m + r;
    Associate(q, m, 2);
    assert m * 2 == twice;
    DivModUnique(x, twice, q, x % 2 + 2 * r);
  }

  lemma {:induction false} DropBits(x: int, n: nat, k: nat)
    requires k <= n
    ensures Pow(2, k) > 0 && Bits(x, n)[k..] == Bits(x / Pow(2, k), n - k)
    decreases k
  {
    if k > 0 {
      DropBits(x / 2, n - 1, k - 1);
      HalveMore(x, k - 1);
      assert Bits(x, n)[1..] == Bits(x / 2, n - 1);
      assert Bits(x, n)[k..] == Bits(x / 2, n - 1)[k - 1..];
    }
  }

  lemma {:induction false} SignExtends(s: seq<bool>, k: nat)
    requires s != []
    ensures Signed(s + seq(k, _ => s[|s| - 1])) == Signed(s)
  {
    var t := s + seq(k, _ => s[|s| - 1]);
    if |s| > 1 {
      SignExtends(s[1..], k);
      assert t[1..] == s[1..] + seq(k, _ => s[1..][|s[1..]| - 1]);
    } else if k > 0 {
      SignExtends(s, k - 1);
      assert t[1..] == s + seq(k - 1, _ => s[0]);
    } else {
      assert t == s;
    }
  }

  /** Shifting a word right by k is division by 2^k, rounded down. */
  lemma ShiftIsDivision(x: int, k: nat)
    requires IsWord(x) && k < 32
    ensures Pow(2, k) > 0 && Signed(ShiftRight(Word(x), k)) == x / Pow(2, k)
  {
    var s := Word(x);
    DropBits(x, 32, k);
    assert s[k..][|s[k..]| - 1] == s[|s| - 1];
    SignExtends(s[k..], k);
    assert ShiftRight(s, k) == s[k..] + seq(k, _ => s[k..][|s[k..]| - 1]);
    QuotientFits(x, k);
    BitsKeep(x / Pow(2, k), 32 - k);
  }

  lemma QuotientFits(x: int, k: nat)
    requires IsWord(x) && k < 32
    ensures Pow(2, k) > 0 && -Pow(2, 31 - k) <= x / Pow(2, k) < Pow(2, 31 - k)
  {
    PowPositive(2, k);
    PowerOf31(31);
    PowAdd(2, 31 - k, k);
    QuotientRange(x, Pow(2, 31 - k), Pow(2, k));
  }

  lemma QuotientRange(x: int, a: int, m: int)
    requires m > 0 && -(a * m) <= x < a * m
    ensures -a <= x / m < a
  {
    var q, r := x / m, x % m;
    assert x == q * m + r;
    if q >= a { MulMono(a, q, m); }
    if q < -a { MulMono(q + 1, -a, m); Distribute(q, 1, m); }
  }

  /** Masking a word with 2^k - 1 is the remainder modulo 2^k: its low k bits. */
  lemma {:induction false} MaskIsRemainder(x: int, n: nat, k: nat)
    requires k <= n
    ensures Pow(2, k) > 0 && Unsigned(Bits(x, n)[..k]) == x % Pow(2, k)
    decreases k
  {
    if k > 0 {
      MaskIsRemainder(x / 2, n - 1, k - 1);
      HalveMore(x, k - 1);
      assert Bits(x, n)[..k][1..] == Bits(x / 2, n - 1)[..k - 1];
    }
  }

  // ----- The operators as the code runs them -----

  lemma PowersOfTwo()
    ensures Pow(2, 1) == 2 && Pow(2, 4) == 16 && Pow(2, 8) == 256 && Pow(2, 15) == 32768 && Pow(2, 16) == 65536
  {
    assert Pow(2, 3) == 8;
    PowAdd(2, 4, 4);
    PowAdd(2, 8, 4);
    PowAdd(2, 12, 3);
    PowAdd(2, 8, 8);
  }

  /** `x >> k`; m is 2^k. */
  method ShiftDown(x: int, k: nat, ghost m: int) returns (y: int)
    requires IsWord(x) && k < 32 && m == Pow(2, k)
    ensures m > 0 && y == x / m
  {
    ShiftIsDivision(x, k);
    y := Signed(ShiftRight(Word(x), k));
  }

  /** `x & (2^k - 1)`; m is 2^k. */
  method MaskLow(x: int, k: nat, ghost m: int) returns (y: int)
    requires IsWord(x) && k <= 32 && m == Pow(2, k)
    ensures m > 0 && y == x % m
  {
    MaskIsRemainder(x, 32, k);
    y := Unsigned(Word(x)[..k]);
  }
}
