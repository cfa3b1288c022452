/** The canonical CBOR form of an order transition (src/crypto/transition_sig.rs, wasm/src/transition.rs),
    with an independent reader for the same part of RFC 8949. */
module TransitionCbor {
  import opened ModArith
  import opened Bytes
  import opened Options

  const TRANSITION_SIG_VERSION := 1
  const U64 := 0x1_0000_0000_0000_0000

  type u64 = x: int | 0 <= x < 0x1_0000_0000_0000_0000
  type i64 = x: int | -0x8000_0000_0000_0000 <= x < 0x8000_0000_0000_0000

  /** A vector's length always fits the 64-bit length argument of CBOR. */
  type Vec = b: Bytes | |b| < 0x1_0000_0000_0000_0000

  datatype Payload = Payload(
    version: byte, orderId: Vec, prevVersion: i64, newBlobSha256: Vec, nonce: Vec, hourBucket: u64)

  datatype CborValue = Integer(i: i64) | ByteString(b: Vec)

  // ----- Writing -----

  function BigEndian(x: nat, w: nat): (s: Bytes)
    ensures |s| == w && Pow(256, w) > 0
    ensures FromBytesBE(s) == x % Pow(256, w)
  {
    if w == 0 then []
    else
      BigEndianStep(x, w);
      var t := BigEndian(x / 256, w - 1) + [x % 256];
      assert t[..w - 1] == BigEndian(x / 256, w - 1);
      t
  }

  lemma BigEndianStep(x: nat, w: nat)
    requires w > 0
    ensures Pow(256, w) > 0 && Pow(256, w - 1) > 0
    ensures x % Pow(256, w) == 256 * ((x / 256) % Pow(256, w - 1)) + x % 256
  {
    PowPositive(256, w - 1);
    var p, y := Pow(256, w - 1), x / 256;
    assert y == (y / p) * p + y % p;
    Associate(256, y / p, p);
    Associate(y / p, 256, p);
    DivModUnique(x, Pow(256, w), y / p, 256 * (y % p) + x % 256);
  }

  /** A head with the argument in the fewest bytes. */
  function Head(major: nat, arg: u64): (s: Bytes)
    requires major < 8
    ensures |s| > 0
  {
    if arg < 24 then [32 * major + arg]
    else if arg < 0x100 then [32 * major + 24] + BigEndian(arg, 1)
    else if arg < 0x1_0000 then [32 * major + 25] + BigEndian(arg, 2)
    else if arg < 0x1_0000_0000 then [32 * major + 26] + BigEndian(arg, 4)
    else [32 * major + 27] + BigEndian(arg, 8)
  }

  function WriteValue(v: CborValue): Bytes {
    match v
    case Integer(i) => if i >= 0 then Head(0, i) else Head(1, -1 - i)
    case ByteString(b) => Head(2, |b|) + b
  }

  /** `hour_bucket as i64`: the upper half of the unsigned range wraps to the negative numbers. */
  function AsI64(x: u64): i64 {
    if x < 0x8000_0000_0000_0000 then x else x - U64
  }

  function AsU64(x: i64): u64 {
    if x >= 0 then x else x + U64
  }

  ghost function MinKey(keys: set<i64>): (k: i64)
    requires keys != {}
    ensures k in keys && forall j :: j in keys ==> k <= j
  {
    MinExists(keys);
    var k :| k in keys && forall j :: j in keys ==> k <= j;
    k
  }

  lemma MinExists(keys: set<i64>)
    requires keys != {}
    ensures exists k :: k in keys && forall j :: j in keys ==> k <= j
  {
    var k := FindLeast(keys);
  }

  lemma {:induction false} FindLeast(keys: set<i64>) returns (k: i64)
    requires keys != {}
    ensures k in keys && forall j :: j in keys ==> k <= j
  {
    k :| k in keys;
    var rest := keys - {k};
    assert keys == rest + {k};
    if rest != {} {
      var m := FindLeast(rest);
      if m < k { k := m; }
    }
  }

  /** The entries of an ordered map in ascending key order. */
  ghost function WriteEntries(m: map<i64, CborValue>, keys: set<i64>): Bytes
    requires keys <= m.Keys
  {
    if keys == {} then []
    else
      var k := MinKey(keys);
      WriteValue(Integer(k)) + WriteValue(m[k]) + WriteEntries(m, keys - {k})
  }

  ghost function WriteMap(m: map<i64, CborValue>): Bytes
    requires |m| < 24
  {
    Head(5, |m|) + WriteEntries(m, m.Keys)
  }

  method LeastKey(keys: set<i64>) returns (k: i64)
    requires keys != {}
    ensures k == MinKey(keys)
  {
    k :| k in keys;
    var rest := keys - {k};
    while rest != {}
      invariant k in keys && rest <= keys
      invariant forall j :: j in keys && j !in rest ==> k <= j
      decreases rest
    {
      var j :| j in rest;
      if j < k { k := j; }
      rest := rest - {j};
    }
  }

  /** The library writer: walks an ordered map from its least key and appends to the buffer. */
  method IntoWriter(m: map<i64, CborValue>) returns (buf: Bytes)
    requires |m| < 24
    ensures buf == WriteMap(m)
  {
    buf := Head(5, |m|);
    var rest := m.Keys;
    while rest != {}
      invariant rest <= m.Keys
      invariant buf + WriteEntries(m, rest) == WriteMap(m)
      decreases rest
    {
      var k := LeastKey(rest);
      buf := buf + (WriteValue(Integer(k)) + WriteValue(m[k]));
      rest := rest - {k};
    }
  }

  function Entry(key: byte, v: CborValue): Bytes {
    [key] + WriteValue(v)
  }

  /** The six values in key order. */
  function Fields(p: Payload): (vs: seq<CborValue>)
    ensures |vs| == 6
  {
    [Integer(p.version), ByteString(p.orderId), Integer(p.prevVersion),
     ByteString(p.newBlobSha256), ByteString(p.nonce), Integer(AsI64(p.hourBucket))]
  }

  /** Entries with consecutive keys. */
  function Entries(key: byte, vs: seq<CborValue>): Bytes
    requires key + |vs| < 24
    decreases |vs|
  {
    if vs == [] then [] else Entry(key, vs[0]) + Entries(key + 1, vs[1..])
  }

  /** The byte string that is signed: a map of six entries, keys 1 to 6. */
  function Encode(p: Payload): Bytes {
    [0xA6] + Entries(1, Fields(p))
  }

  ghost predicate IsPayloadMap(m: map<i64, CborValue>, p: Payload) {
    KeysFrom(m.Keys, 1) && forall k: i64 | 1 <= k <= 6 :: m[k] == Fields(p)[k - 1]
  }

  ghost predicate KeysFrom(keys: set<i64>, k: i64) {
    forall j :: j in keys <==> k <= j <= 6
  }

  lemma LeastFirst(m: map<i64, CborValue>, keys: set<i64>, k: i64)
    requires k in keys && keys <= m.Keys && 0 <= k < 24 && forall j :: j in keys ==> k <= j
    ensures WriteEntries(m, keys) == Entry(k, m[k]) + WriteEntries(m, keys - {k})
  {
    assert MinKey(keys) == k;
  }

  lemma WithoutLeast(keys: set<i64>, k: i64)
    requires 1 <= k <= 6 && KeysFrom(keys, k)
    ensures KeysFrom(keys - {k}, k + 1)
  {}

  lemma WalkStep(m: map<i64, CborValue>, p: Payload, keys: set<i64>, k: i64)
    requires 1 <= k <= 6 && keys <= m.Keys && KeysFrom(keys, k) && IsPayloadMap(m, p)
    requires WriteEntries(m, keys - {k}) == Entries(k + 1, Fields(p)[k..])
    ensures WriteEntries(m, keys) == Entries(k, Fields(p)[k - 1..])
  {
    LeastFirst(m, keys, k);
    assert Fields(p)[k - 1..][1..] == Fields(p)[k..];
  }

  /** Walking from key k on writes the values from position k - 1 on. */
  lemma {:induction false} WalkFrom(m: map<i64, CborValue>, p: Payload, keys: set<i64>, k: i64)
    requires 1 <= k <= 7 && keys <= m.Keys && KeysFrom(keys, k) && IsPayloadMap(m, p)
    ensures WriteEntries(m, keys) == Entries(k, Fields(p)[k - 1..])
    decreases 7 - k
  {
    if k == 7 {
      assert keys == {};
    } else {
      WithoutLeast(keys, k);
      WalkFrom(m, p, keys - {k}, k + 1);
      WalkStep(m, p, keys, k);
    }
  }

  lemma PayloadMapWrites(m: map<i64, CborValue>, p: Payload)
    requires IsPayloadMap(m, p)
    ensures |m| == 6 && WriteMap(m) == Encode(p)
  {
    assert m.Keys == {1, 2, 3, 4, 5, 6};
    assert |m.Keys| == 6;
    WalkFrom(m, p, m.Keys, 1);
    assert Fields(p)[0..] == Fields(p);
  }

  /** The server's encoder: fills the ordered map, then hands it to the writer. */
  method ToCbor(p: Payload) returns (buf: Bytes)
    ensures buf == Encode(p)
  {
    var m: map<i64, CborValue> := map[];
    m := m[1 := Integer(p.version)];
    m := m[2 := ByteString(p.orderId)];
    m := m[3 := Integer(p.prevVersion)];
    m := m[4 := ByteString(p.newBlobSha256)];
    m := m[5 := ByteString(p.nonce)];
    m := m[6 := Integer(AsI64(p.hourBucket))];
    PayloadMapWrites(m, p);
    buf := IntoWriter(m);
  }

  /** The browser's encoder: rejects a hash that is not 32 bytes, and otherwise produces the server's bytes. */
  method TransitionToCbor(orderId: Vec, prevVersion: i64, newBlobSha256: Vec, nonce: Vec, hourBucket: u64)
      returns (r: Option<Bytes>)
    ensures r == if |newBlobSha256| != 32 then None
                 else Some(Encode(Payload(TRANSITION_SIG_VERSION, orderId, prevVersion, newBlobSha256, nonce, hourBucket)))
  {
    if |newBlobSha256| != 32 { return None; }
    var m: map<i64, CborValue> := map[1 := Integer(TRANSITION_SIG_VERSION)];
    m := m[2 := ByteString(orderId)];
    m := m[3 := Integer(prevVersion)];
    m := m[4 := ByteString(newBlobSha256)];
    m := m[5 := ByteString(nonce)];
    m := m[6 := Integer(AsI64(hourBucket))];
    PayloadMapWrites(m, Payload(TRANSITION_SIG_VERSION, orderId, prevVersion, newBlobSha256, nonce, hourBucket));
    var buf := IntoWriter(m);
    r := Some(buf);
  }

  // ----- Reading, after section 3 of RFC 8949 -----

  datatype HeadRead = HeadRead(major: nat, arg: nat, rest: Bytes)

  function ReadArgument(major: nat, w: nat, s: Bytes): Option<HeadRead> {
    if |s| < w then None else Some(HeadRead(major, FromBytesBE(s[..w]), s[w..]))
  }

  function ReadHead(s: Bytes): Option<HeadRead> {
    if s == [] then None
    else
      var major, info := s[0] / 32, s[0] % 32;
      if info < 24 then Some(HeadRead(major, info, s[1..]))
      else if info == 24 then ReadArgument(major, 1, s[1..])
      else if info == 25 then ReadArgument(major, 2, s[1..])
      else if info == 26 then ReadArgument(major, 4, s[1..])
      else if info == 27 then ReadArgument(major, 8, s[1..])
      else None
  }

  datatype ValueRead = ValueRead(v: CborValue, rest: Bytes)

  function ValueOf(h: HeadRead): Option<ValueRead> {
    if h.major == 0 && h.arg < 0x8000_0000_0000_0000 then Some(ValueRead(Integer(h.arg), h.rest))
    else if h.major == 1 && h.arg < 0x8000_0000_0000_0000 then Some(ValueRead(Integer(-1 - h.arg), h.rest))
    else if h.major == 2 && h.arg <= |h.rest| && h.arg < U64
    then Some(ValueRead(ByteString(h.rest[..h.arg]), h.rest[h.arg..]))
    else None
  }

  function ReadValue(s: Bytes): Option<ValueRead> {
    var h := ReadHead(s);
    if h.None? then None else ValueOf(h.value)
  }

  /** Reads one entry whose key must be the given one. */
  function ReadEntry(key: byte, s: Bytes): Option<ValueRead> {
    match ReadValue(s)
    case Some(ValueRead(Integer(k), rest)) => if k == key then ReadValue(rest) else None
    case _ => None
  }

  /** Reads n entries with consecutive keys that fill the rest of the input. */
  function ReadEntries(key: byte, n: nat, s: Bytes): Option<seq<CborValue>>
    requires key + n < 24
    decreases n
  {
    if n == 0 then if s == [] then Some([]) else None
    else
      match ReadEntry(key, s)
      case None => None
      case Some(e) =>
        match ReadEntries(key + 1, n - 1, e.rest)
        case None => None
        case Some(vs) => Some([e.v] + vs)
  }

  function Decode(s: Bytes): Option<Payload> {
    match ReadHead(s)
    case None => None
    case Some(h) =>
      if h.major != 5 || h.arg != 6 then None
      else
        match ReadEntries(1, 6, h.rest)
        case None => None
        case Some(vs) =>
          if && |vs| == 6 && vs[0].Integer? && 0 <= vs[0].i < 256 && vs[1].ByteString? && vs[2].Integer?
             && vs[3].ByteString? && vs[4].ByteString? && vs[5].Integer?
          then Some(Payload(vs[0].i, vs[1].b, vs[2].i, vs[3].b, vs[4].b, AsU64(vs[5].i)))
          else None
  }

  lemma PowersOf256()
    ensures Pow(256, 1) == 0x100 && Pow(256, 2) == 0x1_0000
    ensures Pow(256, 4) == 0x1_0000_0000 && Pow(256, 8) == U64
  {
    assert Pow(256, 2) == 256 * Pow(256, 1);
    PowAdd(256, 2, 2);
    PowAdd(256, 4, 4);
  }

  lemma ArgumentReads(major: nat, arg: u64, w: nat, rest: Bytes)
    requires arg < Pow(256, w)
    ensures ReadArgument(major, w, BigEndian(arg, w) + rest) == Some(HeadRead(major, arg, rest))
  {
    SmallMod(arg, Pow(256, w));
    assert (BigEndian(arg, w) + rest)[..w] == BigEndian(arg, w);
  }

  lemma LongHeadReads(first: byte, major: nat, arg: u64, w: nat, rest: Bytes)
    requires first / 32 == major && arg < Pow(256, w)
    requires (first % 32, w) in {(24, 1), (25, 2), (26, 4), (27, 8)}
    ensures ReadHead([first] + BigEndian(arg, w) + rest) == Some(HeadRead(major, arg, rest))
  {
    ArgumentReads(major, arg, w, rest);
    assert ([first] + BigEndian(arg, w) + rest)[1..] == BigEndian(arg, w) + rest;
  }

  lemma HeadReads(major: nat, arg: u64, rest: Bytes)
    requires major < 8
    ensures ReadHead(Head(major, arg) + rest) == Some(HeadRead(major, arg, rest))
  {
    PowersOf256();
    if arg < 24 {
      assert (Head(major, arg) + rest)[1..] == rest;
    } else if arg < 0x100 {
      LongHeadReads(32 * major + 24, major, arg, 1, rest);
    } else if arg < 0x1_0000 {
      LongHeadReads(32 * major + 25, major, arg, 2, rest);
    } else if arg < 0x1_0000_0000 {
      LongHeadReads(32 * major + 26, major, arg, 4, rest);
    } else {
      LongHeadReads(32 * major + 27, major, arg, 8, rest);
    }
  }

  lemma ValueOfInteger(i: i64, rest: Bytes)
    ensures ValueOf(if i >= 0 then HeadRead(0, i, rest) else HeadRead(1, -1 - i, rest)) == Some(ValueRead(Integer(i), rest))
  {}

  lemma ValueOfString(b: Vec, rest: Bytes)
    ensures ValueOf(HeadRead(2, |b|, b + rest)) == Some(ValueRead(ByteString(b), rest))
  {
    assert (b + rest)[..|b|] == b && (b + rest)[|b|..] == rest;
  }

  lemma IntegerReads(i: i64, rest: Bytes)
    ensures ReadValue(WriteValue(Integer(i)) + rest) == Some(ValueRead(Integer(i), rest))
  {
    if i >= 0 { HeadReads(0, i, rest); } else { HeadReads(1, -1 - i, rest); }
    ValueOfInteger(i, rest);
  }

  lemma StringReads(b: Vec, rest: Bytes)
    ensures ReadValue(WriteValue(ByteString(b)) + rest) == Some(ValueRead(ByteString(b), rest))
  {
    HeadReads(2, |b|, b + rest);
    ValueOfString(b, rest);
    assert WriteValue(ByteString(b)) + rest == Head(2, |b|) + (b + rest);
  }

  lemma ValueReads(v: CborValue, rest: Bytes)
    ensures ReadValue(WriteValue(v) + rest) == Some(ValueRead(v, rest))
  {
    match v
    case Integer(i) => IntegerReads(i, rest);
    case ByteString(b) => StringReads(b, rest);
  }

  lemma EntryFromValues(key: byte, s: Bytes, t: Bytes, e: ValueRead)
    requires ReadValue(s) == Some(ValueRead(Integer(key), t)) && ReadValue(t) == Some(e)
    ensures ReadEntry(key, s) == Some(e)
  {}

  lemma EntryReads(key: byte, v: CborValue, rest: Bytes)
    requires key < 24
    ensures ReadEntry(key, Entry(key, v) + rest) == Some(ValueRead(v, rest))
  {
    var t := WriteValue(v) + rest;
    assert Entry(key, v) + rest == [key] + t;
    assert WriteValue(Integer(key)) == [key];
    IntegerReads(key, t);
    ValueReads(v, rest);
    EntryFromValues(key, [key] + t, t, ValueRead(v, rest));
  }

  lemma {:induction false} EntriesRead(key: byte, vs: seq<CborValue>)
    requires key + |vs| < 24
    ensures ReadEntries(key, |vs|, Entries(key, vs)) == Some(vs)
    decreases |vs|
  {
    if vs != [] {
      EntryReads(key, vs[0], Entries(key + 1, vs[1..]));
      EntriesRead(key + 1, vs[1..]);
      assert [vs[0]] + vs[1..] == vs;
    }
  }

  /** Every payload is read back from its bytes, for all 64-bit fields and all byte strings. */
  lemma DecodeEncode(p: Payload)
    ensures Decode(Encode(p)) == Some(p)
  {
    HeadReads(5, 6, Entries(1, Fields(p)));
    EntriesRead(1, Fields(p));
  }

  /** The hour is taken modulo 2^64 into the signed range. */
  lemma HourWraps(x: u64)
    ensures (AsI64(x) - x) % U64 == 0 && AsU64(AsI64(x)) == x
  {}

  lemma SmallHeads()
    ensures Head(2, 32) == [0x58, 0x20] && Head(2, 1) == [0x41] && Head(1, 0) == [0x20]
  {
    assert BigEndian(32, 1) == BigEndian(32 / 256, 0) + [32];
  }

  lemma EntryAt(vs: seq<CborValue>, k: nat, w: Bytes)
    requires |vs| == 6 && 1 <= k <= 6 && w == WriteValue(vs[k - 1])
    ensures Entries(k, vs[k - 1..]) == [k] + w + Entries(k + 1, vs[k..])
  {
    assert vs[k - 1..][1..] == vs[k..];
  }

  /** Six entries are the keys one to six, each before its value. */
  lemma SixEntries(vs: seq<CborValue>, w: seq<Bytes>)
    requires |vs| == |w| == 6 && forall k :: 0 <= k < 6 ==> w[k] == WriteValue(vs[k])
    ensures Entries(1, vs) == [1] + w[0] + ([2] + w[1] + ([3] + w[2] + ([4] + w[3] + ([5] + w[4] + ([6] + w[5])))))
  {
    assert vs[0..] == vs && vs[6..] == [];
    EntryAt(vs, 1, w[0]);
    EntryAt(vs, 2, w[1]);
    EntryAt(vs, 3, w[2]);
    EntryAt(vs, 4, w[3]);
    EntryAt(vs, 5, w[4]);
    EntryAt(vs, 6, w[5]);
    assert Entries(6, vs[5..]) == [6] + w[5];
  }

  lemma SampleValues(b: byte)
    ensures WriteValue(Integer(1)) == [1] && WriteValue(Integer(5)) == [5] && WriteValue(Integer(-1)) == [0x20]
    ensures WriteValue(ByteString([b])) == [0x41, b]
  {}

  lemma SamplePair(b: byte, c: byte)
    ensures WriteValue(ByteString([b, c])) == [0x42, b, c]
  {}

  lemma SampleWritten(vs: seq<CborValue>, w: seq<Bytes>)
    requires vs == [Integer(1), ByteString([0xAB]), Integer(5), ByteString([7, 8]), ByteString([9]), Integer(-1)]
    requires w == [[1], [0x41, 0xAB], [5], [0x42, 7, 8], [0x41, 9], [0x20]]
    ensures forall k :: 0 <= k < 6 ==> w[k] == WriteValue(vs[k])
  {
    SampleValues(0xAB);
    SampleValues(9);
    SamplePair(7, 8);
  }

  lemma SampleJoined(w: seq<Bytes>)
    requires w == [[1], [0x41, 0xAB], [5], [0x42, 7, 8], [0x41, 9], [0x20]]
    ensures [0xA6] + ([1] + w[0] + ([2] + w[1] + ([3] + w[2] + ([4] + w[3] + ([5] + w[4] + ([6] + w[5])))))) ==
            [0xA6, 1, 1, 2, 0x41, 0xAB, 3, 5, 4, 0x42, 7, 8, 5, 0x41, 9, 6, 0x20]
  {}

  /** A payload and its bytes: the order id under key 2, the version replaced under 3, the hash under 4, the
      nonce under 5, and the last hour of the unsigned range as minus one under 6. */
  lemma SampleBytes(p: Payload, w: seq<Bytes>)
    requires p == Payload(1, [0xAB], 5, [7, 8], [9], 0xFFFF_FFFF_FFFF_FFFF)
    requires w == [[1], [0x41, 0xAB], [5], [0x42, 7, 8], [0x41, 9], [0x20]]
    ensures Encode(p) == [0xA6, 1, 1, 2, 0x41, 0xAB, 3, 5, 4, 0x42, 7, 8, 5, 0x41, 9, 6, 0x20]
  {
    SampleWritten(Fields(p), w);
    SixEntries(Fields(p), w);
    SampleJoined(w);
  }

  /** Two payloads with the same bytes are the same payload. */
  lemma EncodeInjective(p: Payload, q: Payload)
    requires Encode(p) == Encode(q)
    ensures p == q
  {
    DecodeEncode(p);
    DecodeEncode(q);
  }

  // ----- Core deterministic encoding, section 4.2.1 of RFC 8949 -----

  /** No head that reads as the same argument is shorter. */
  lemma HeadIsShortest(s: Bytes)
    requires ReadHead(s).Some? && ReadHead(s).value.arg < U64
    ensures var h := ReadHead(s).value; h.major < 8 && |s| - |h.rest| >= |Head(h.major, h.arg)|
  {
    PowersOf256();
    var info := s[0] % 32;
    if info >= 24 {
      var w := if info == 24 then 1 else if info == 25 then 2 else if info == 26 then 4 else 8;
      ValueBoundBE(s[1..][..w]);
    }
  }

  /** Bytewise lexicographic order. */
  ghost predicate LexLess(a: Bytes, b: Bytes) {
    b != [] && (a == [] || a[0] < b[0] || (a[0] == b[0] && LexLess(a[1..], b[1..])))
  }

  lemma {:induction false} LexPrefix(p: Bytes, a: Bytes, b: Bytes)
    requires LexLess(a, b)
    ensures LexLess(p + a, p + b)
  {
    if p == [] {
      assert p + a == a && p + b == b;
    } else {
      LexPrefix(p[1..], a, b);
      assert (p + a)[1..] == p[1..] + a && (p + b)[1..] == p[1..] + b;
    }
  }

  lemma {:induction false} LexExtend(a: Bytes, b: Bytes, x: byte, y: byte)
    requires |a| == |b| && LexLess(a, b)
    ensures LexLess(a + [x], b + [y])
  {
    assert (a + [x])[0] == a[0] && (b + [y])[0] == b[0];
    if a[0] == b[0] {
      LexExtend(a[1..], b[1..], x, y);
      assert (a + [x])[1..] == a[1..] + [x] && (b + [y])[1..] == b[1..] + [y];
    }
  }

  lemma {:induction false} LexBigEndian(x: nat, y: nat, w: nat)
    requires x < y < Pow(256, w)
    ensures LexLess(BigEndian(x, w), BigEndian(y, w))
  {
    if x / 256 == y / 256 {
      LexPrefix(BigEndian(x / 256, w - 1), [x % 256], [y % 256]);
    } else {
      LexBigEndian(x / 256, y / 256, w - 1);
      LexExtend(BigEndian(x / 256, w - 1), BigEndian(y / 256, w - 1), x % 256, y % 256);
    }
  }

  /** Ascending integer keys, the order the map is walked in, are in bytewise order once encoded. */
  lemma AscendingKeysAreBytewiseSorted(i: i64, j: i64)
    requires 0 <= i < j
    ensures LexLess(WriteValue(Integer(i)), WriteValue(Integer(j)))
  {
    PowersOf256();
    var a, b := Head(0, i), Head(0, j);
    if a[0] == b[0] {
      var w := |a| - 1;
      LexBigEndian(i, j, w);
      assert a[1..] == BigEndian(i, w) && b[1..] == BigEndian(j, w);
    }
  }
}
