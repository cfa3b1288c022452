/** Byte strings and the numbers they denote. */
module Bytes {
  import opened ModArith
  import opened Options

  type byte = x: int | 0 <= x < 256
  type Bytes = seq<byte>

  /** The number a big-endian byte string denotes; leading zero bytes do not change it. */
  function FromBytesBE(s: Bytes): nat {
    if s == [] then 0 else 256 * FromBytesBE(s[..|s| - 1]) + s[|s| - 1]
  }

  /** The shortest big-endian form; zero is written as one zero byte. */
  function ToBytesBE(x: nat): (s: Bytes)
    ensures FromBytesBE(s) == x && |s| > 0
  {
    if x < 256 then [x]
    else
      var t := ToBytesBE(x / 256) + [x % 256];
      assert t[..|t| - 1] == ToBytesBE(x / 256);
      t
  }

  /** The number a little-endian byte string denotes. */
  function FromBytesLE(s: Bytes): nat {
    if s == [] then 0 else s[0] + 256 * FromBytesLE(s[1..])
  }

  lemma {:induction false} FirstByteBE(b: byte, s: Bytes)
    ensures FromBytesBE([b] + s) == b * Pow(256, |s|) + FromBytesBE(s)
  {
    if s == [] {
      assert [b] + s == [b];
    } else {
      var t := s[..|s| - 1];
      FirstByteBE(b, t);
      assert ([b] + s)[..|s|] == [b] + t;
      assert b * Pow(256, |s|) == 256 * (b * Pow(256, |t|)) by {
        Associate(b, 256, Pow(256, |t|));
        Associate(256, b, Pow(256, |t|));
      }
    }
  }

  lemma {:induction false} ValueBoundBE(s: Bytes)
    ensures FromBytesBE(s) < Pow(256, |s|)
  {
    if s != [] { ValueBoundBE(s[..|s| - 1]); }
  }

  lemma {:induction false} ZeroBE(s: Bytes)
    ensures FromBytesBE(s) == 0 <==> forall i :: 0 <= i < |s| ==> s[i] == 0
  {
    if s != [] {
      ZeroBE(s[..|s| - 1]);
      assert forall i :: 0 <= i < |s| - 1 ==> s[..|s| - 1][i] == s[i];
    }
  }
}
