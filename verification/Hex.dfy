/** Hexadecimal text as `hex::decode` reads it: either letter case, so one byte string has many spellings. */
module Hex {
  import opened ModArith
  import opened Bytes
  import opened Options

  /** The value of a hexadecimal digit. */
  function DigitOf(c: byte): Option<nat> {
    if 48 <= c <= 57 then Some(c - 48)
    else if 97 <= c <= 102 then Some(c - 87)
    else if 65 <= c <= 70 then Some(c - 55)
    else None
  }

  function HexDecode(s: Bytes): Option<Bytes> {
    if s == [] then Some([])
    else if |s| == 1 then None
    else
      var hi, lo, rest := DigitOf(s[0]), DigitOf(s[1]), HexDecode(s[2..]);
      if hi.None? || lo.None? || rest.None? then None else Some([16 * hi.value + lo.value] + rest.value)
  }

  // ----- Spellings -----

  /** Two digits a byte. */
  function Digits(b: Bytes): (v: seq<nat>)
    ensures forall i :: 0 <= i < |v| ==> v[i] < 16
  {
    if b == [] then [] else [b[0] / 16, b[0] % 16] + Digits(b[1..])
  }

  /** How many of the digits are letters. */
  function Letters(v: seq<nat>): nat {
    if v == [] then 0 else (if v[0] >= 10 then 1 else 0) + Letters(v[1..])
  }

  function Prepend(c: byte, texts: set<Bytes>): set<Bytes> {
    set t | t in texts :: [c] + t
  }

  /** Texts with one more digit in front: a letter is written in either case. */
  function WithDigit(d: nat, texts: set<Bytes>): set<Bytes>
    requires d < 16
  {
    if d < 10 then Prepend(48 + d, texts) else Prepend(87 + d, texts) + Prepend(55 + d, texts)
  }

  /** All texts of a digit sequence. */
  function Texts(v: seq<nat>): set<Bytes>
    requires forall i :: 0 <= i < |v| ==> v[i] < 16
  {
    if v == [] then {[]} else WithDigit(v[0], Texts(v[1..]))
  }

  function Spellings(b: Bytes): set<Bytes> { Texts(Digits(b)) }

  lemma {:induction false} PrependKeepsSize(c: byte, texts: set<Bytes>)
    ensures |Prepend(c, texts)| == |texts|
  {
    if texts != {} {
      var t :| t in texts;
      var rest := texts - {t};
      PrependKeepsSize(c, rest);
      assert texts == rest + {t};
      assert Prepend(c, texts) == Prepend(c, rest) + {[c] + t};
      assert [c] + t !in Prepend(c, rest) by {
        forall u | u in rest ensures [c] + u != [c] + t {
          assert ([c] + u)[1..] == u && ([c] + t)[1..] == t;
        }
      }
    } else {
      assert Prepend(c, texts) == {};
    }
  }

  lemma PrependDisjoint(c: byte, d: byte, texts: set<Bytes>)
    requires c != d
    ensures |Prepend(c, texts) + Prepend(d, texts)| == 2 * |texts|
  {
    PrependKeepsSize(c, texts);
    PrependKeepsSize(d, texts);
    forall x | x in Prepend(c, texts) ensures x !in Prepend(d, texts) {
      assert x[0] == c;
    }
    assert Prepend(c, texts) !! Prepend(d, texts);
  }

  /** Each letter doubles the number of texts. */
  lemma {:induction false} TextCount(v: seq<nat>)
    requires forall i :: 0 <= i < |v| ==> v[i] < 16
    ensures |Texts(v)| == Pow(2, Letters(v))
  {
    if v != [] {
      TextCount(v[1..]);
      if v[0] < 10 {
        PrependKeepsSize(48 + v[0], Texts(v[1..]));
      } else {
        PrependDisjoint(87 + v[0], 55 + v[0], Texts(v[1..]));
      }
    }
  }

  lemma SpellingCount(b: Bytes)
    ensures |Spellings(b)| == Pow(2, Letters(Digits(b)))
  {
    TextCount(Digits(b));
  }

  lemma {:induction false} PrependHas(c: byte, texts: set<Bytes>, x: Bytes)
    ensures x in Prepend(c, texts) <==> x != [] && x[0] == c && x[1..] in texts
  {
    if x != [] && x[0] == c && x[1..] in texts { assert x == [c] + x[1..]; }
    if x in Prepend(c, texts) {
      var t :| t in texts && x == [c] + t;
      assert x[1..] == t;
    }
  }

  lemma DigitSpelled(c: byte, d: nat)
    requires d < 16
    ensures DigitOf(c) == Some(d) <==> if d < 10 then c == 48 + d else c == 87 + d || c == 55 + d
  {}

  lemma WithDigitHas(d: nat, texts: set<Bytes>, x: Bytes)
    requires d < 16
    ensures x in WithDigit(d, texts) <==> x != [] && DigitOf(x[0]) == Some(d) && x[1..] in texts
  {
    if d < 10 {
      PrependHas(48 + d, texts, x);
    } else {
      PrependHas(87 + d, texts, x);
      PrependHas(55 + d, texts, x);
    }
    if x != [] { DigitSpelled(x[0], d); }
  }

  lemma TwoDigits(hi: nat, lo: nat, texts: set<Bytes>, x: Bytes)
    requires hi < 16 && lo < 16
    ensures x in WithDigit(hi, WithDigit(lo, texts)) <==>
            |x| >= 2 && DigitOf(x[0]) == Some(hi) && DigitOf(x[1]) == Some(lo) && x[2..] in texts
  {
    WithDigitHas(hi, WithDigit(lo, texts), x);
    if x != [] {
      WithDigitHas(lo, texts, x[1..]);
      if |x| >= 2 { assert x[1..][1..] == x[2..] && x[1..][0] == x[1]; }
    }
  }

  lemma DecodesPair(x: Bytes, b: Bytes)
    requires b != [] && |x| >= 2
    ensures HexDecode(x) == Some(b) <==>
            DigitOf(x[0]) == Some(b[0] / 16) && DigitOf(x[1]) == Some(b[0] % 16) && HexDecode(x[2..]) == Some(b[1..])
  {
    assert b == [b[0]] + b[1..];
    var hi, lo, rest := DigitOf(x[0]), DigitOf(x[1]), HexDecode(x[2..]);
    if hi.Some? && lo.Some? && rest.Some? {
      var d := [16 * hi.value + lo.value] + rest.value;
      assert d[0] == 16 * hi.value + lo.value && d[1..] == rest.value;
    }
  }

  lemma SpellingsOf(b: Bytes)
    requires b != []
    ensures Spellings(b) == WithDigit(b[0] / 16, WithDigit(b[0] % 16, Spellings(b[1..])))
  {
    var v := Digits(b);
    var w := v[1..];
    assert v[0] == b[0] / 16 && w[0] == b[0] % 16 && w[1..] == Digits(b[1..]);
    assert Texts(v) == WithDigit(v[0], Texts(w));
    assert Texts(w) == WithDigit(w[0], Texts(w[1..]));
  }

  /** The spellings of a byte string are exactly the texts that decode to it. */
  lemma {:induction false} SpellingsDecode(b: Bytes, x: Bytes)
    ensures x in Spellings(b) <==> HexDecode(x) == Some(b)
  {
    if b != [] {
      SpellingsOf(b);
      TwoDigits(b[0] / 16, b[0] % 16, Spellings(b[1..]), x);
      if |x| >= 2 {
        SpellingsDecode(b[1..], x[2..]);
        DecodesPair(x, b);
      }
    }
  }

  /** Hexadecimal text has no colon. */
  lemma {:induction false} DecodedHasNoColon(x: Bytes)
    requires HexDecode(x).Some?
    ensures 58 !in x
  {
    if x != [] {
      DecodedHasNoColon(x[2..]);
      assert x == [x[0], x[1]] + x[2..];
    }
  }
}
