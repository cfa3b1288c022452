/** The byte strings that are authenticated: the HMAC input and signed challenge of a request
    (src/gateway/stateless_auth.rs) and the hashed message of an admin token (src/crypto/blind_sig.rs).
    What one of them says is exactly what a reader can recover from its bytes. */
module AuthLayouts {
  import opened ModArith
  import opened Bytes
  import opened Options

  type u64 = x: int | 0 <= x < 0x1_0000_0000_0000_0000

  const HASH_LENGTH := 32
  const KEY_LENGTH := 32

  // ----- Requests -----

  /** Little-endian bytes. */
  function LittleEndian(x: nat, w: nat): (s: Bytes)
    ensures |s| == w
  {
    if w == 0 then [] else [x % 256] + LittleEndian(x / 256, w - 1)
  }

  lemma {:induction false} LittleEndianReads(x: nat, w: nat)
    requires x < Pow(256, w)
    ensures FromBytesLE(LittleEndian(x, w)) == x
  {
    if w > 0 {
      LittleEndianReads(x / 256, w - 1);
      assert LittleEndian(x, w)[1..] == LittleEndian(x / 256, w - 1);
    }
  }

  lemma EightBytes(h: u64, w: nat)
    requires w == 8
    ensures h < Pow(256, w)
  {
    assert Pow(256, 2) == 65536;
    PowAdd(256, 2, 2);
    PowAdd(256, 4, 4);
  }

  /** What the HMAC consumes. */
  function MacInput(pubkey: Bytes, hour: u64, path: Bytes, nonce: Bytes): Bytes {
    pubkey + LittleEndian(hour, 8) + path + nonce
  }

  /** What the client signs. */
  function Challenge(hmac: Bytes, pubkey: Bytes, hour: u64, nonce: Bytes): Bytes {
    hmac + pubkey + LittleEndian(hour, 8) + nonce
  }

  method BuildChallenge(hmac: Bytes, pubkey: Bytes, hour: u64, nonce: Bytes) returns (challenge: Bytes)
    ensures challenge == Challenge(hmac, pubkey, hour, nonce)
  {
    challenge := [];
    challenge := challenge + hmac;
    challenge := challenge + pubkey;
    challenge := challenge + LittleEndian(hour, 8);
    challenge := challenge + nonce;
  }

  datatype Fields = Fields(hmac: Bytes, pubkey: Bytes, hour: nat, nonce: Bytes)

  /** Reads a challenge back. */
  function ReadChallenge(s: Bytes): Option<Fields> {
    if |s| < HASH_LENGTH + KEY_LENGTH + 8 then None
    else Some(Fields(s[..HASH_LENGTH], s[HASH_LENGTH..HASH_LENGTH + KEY_LENGTH],
                     FromBytesLE(s[HASH_LENGTH + KEY_LENGTH..HASH_LENGTH + KEY_LENGTH + 8]),
                     s[HASH_LENGTH + KEY_LENGTH + 8..]))
  }

  /** A challenge says all its fields: the server has checked the hash and key lengths when it builds one. */
  lemma ChallengeReads(hmac: Bytes, pubkey: Bytes, hour: u64, nonce: Bytes)
    requires |hmac| == HASH_LENGTH && |pubkey| == KEY_LENGTH
    ensures ReadChallenge(Challenge(hmac, pubkey, hour, nonce)) == Some(Fields(hmac, pubkey, hour, nonce))
  {
    EightBytes(hour, 8);
    LittleEndianReads(hour, 8);
    var s := Challenge(hmac, pubkey, hour, nonce);
    assert s[..32] == hmac;
    assert s[32..64] == pubkey;
    assert s[64..72] == LittleEndian(hour, 8);
    assert s[72..] == nonce;
  }

  /** Equal strings split at the same place have equal parts. */
  lemma SameSplit<T>(a: seq<T>, b: seq<T>, c: seq<T>, d: seq<T>)
    requires |a| == |c|
    ensures a + b == c + d <==> a == c && b == d
  {
    if a + b == c + d {
      assert a == (a + b)[..|a|] == (c + d)[..|c|] == c;
      assert b == (a + b)[|a|..] == (c + d)[|c|..] == d;
    }
  }

  /** Two HMAC inputs are the same exactly when key and hour agree and path and nonce agree once joined. */
  lemma MacInputsAgreeIff(p: Bytes, h: u64, path: Bytes, n: Bytes, p': Bytes, h': u64, path': Bytes, n': Bytes)
    requires |p| == |p'| == KEY_LENGTH
    ensures MacInput(p, h, path, n) == MacInput(p', h', path', n') <==> p == p' && h == h' && path + n == path' + n'
  {
    var l, l' := LittleEndian(h, 8), LittleEndian(h', 8);
    assert MacInput(p, h, path, n) == p + (l + (path + n));
    assert MacInput(p', h', path', n') == p' + (l' + (path' + n'));
    SameSplit(p, l + (path + n), p', l' + (path' + n'));
    SameSplit(l, path + n, l', path' + n');
    EightBytes(h, 8);
    EightBytes(h', 8);
    LittleEndianReads(h, 8);
    LittleEndianReads(h', 8);
  }

  /** Where each field stands: key first, then eight bytes of the hour, lowest first, then path and nonce. */
  lemma MacInputFields(p: Bytes, h: u64, path: Bytes, n: Bytes)
    requires |p| == KEY_LENGTH
    ensures var s := MacInput(p, h, path, n);
            |s| == 40 + |path| + |n| && s[..32] == p && FromBytesLE(s[32..40]) == h
            && s[40..40 + |path|] == path && s[40 + |path|..] == n
  {
    EightBytes(h, 8);
    LittleEndianReads(h, 8);
    var s := MacInput(p, h, path, n);
    assert s[32..40] == LittleEndian(h, 8);
  }

  /** With nonces of one length the HMAC input says every field. */
  lemma MacInputDetermines(p: Bytes, h: u64, path: Bytes, n: Bytes, p': Bytes, h': u64, path': Bytes, n': Bytes)
    requires |p| == |p'| == KEY_LENGTH && |n| == |n'|
    requires MacInput(p, h, path, n) == MacInput(p', h', path', n')
    ensures p == p' && h == h' && path == path' && n == n'
  {
    MacInputsAgreeIff(p, h, path, n, p', h', path', n');
    assert |path + n| == |path' + n'|;
    SameSplit(path, n, path', n');
  }

  // ----- Admin tokens -----

  const COLON: byte := 58

  /** The bytes of "tor-mkt:admin:v1". */
  const ADMIN_ACTION_LABEL: Bytes := [116, 111, 114, 45, 109, 107, 116, 58, 97, 100, 109, 105, 110, 58, 118, 49]

  /** The two domains tokens are issued for: "dispute:resolve" and "admin:rotate_kek". */
  const DISPUTE_RESOLVE: Bytes := [100, 105, 115, 112, 117, 116, 101, 58, 114, 101, 115, 111, 108, 118, 101]
  const ROTATE_KEK: Bytes := [97, 100, 109, 105, 110, 58, 114, 111, 116, 97, 116, 101, 95, 107, 101, 107]

  predicate AllDigits(s: Bytes) {
    forall i :: 0 <= i < |s| ==> 48 <= s[i] <= 57
  }

  /** Decimal digits without leading zeros. */
  function Printed(n: nat): (s: Bytes)
    ensures s != [] && AllDigits(s)
  {
    if n < 10 then [48 + n] else Printed(n / 10) + [48 + n % 10]
  }

  lemma {:induction false} PrintedOnce(m: nat, n: nat)
    requires Printed(m) == Printed(n)
    ensures m == n
  {
    assert |Printed(m)| >= 2 <==> m >= 10;
    assert |Printed(n)| >= 2 <==> n >= 10;
    if m >= 10 {
      SameLast(Printed(m / 10), 48 + m % 10, Printed(n / 10), 48 + n % 10);
      PrintedOnce(m / 10, n / 10);
    }
  }

  lemma SameLast(a: Bytes, x: byte, b: Bytes, y: byte)
    requires a + [x] == b + [y]
    ensures a == b && x == y
  {
    assert |a + [x]| == |b + [y]|;
    SameSplit(a, [x], b, [y]);
  }

  /** The message that is hashed for a token. */
  function TokenMessage(domain: Bytes, action: Bytes, nonce: Bytes, expiry: u64): Bytes {
    ADMIN_ACTION_LABEL + [COLON] + domain + [COLON] + action + [COLON] + nonce + [COLON] + Printed(expiry)
  }

  /** The bytes of an ASCII string. */
  function Ascii(s: string): (b: seq<int>)
    ensures |b| == |s| && forall i :: 0 <= i < |s| ==> b[i] == s[i] as int
  {
    seq(|s|, i requires 0 <= i < |s| => s[i] as int)
  }

  /** The constants are the strings they stand for. */
  lemma ConstantsSpelled()
    ensures ADMIN_ACTION_LABEL == Ascii("tor-mkt:admin:v1")
    ensures DISPUTE_RESOLVE == Ascii("dispute:resolve") && ROTATE_KEK == Ascii("admin:rotate_kek")
  {}

  lemma PrintedTwelve()
    ensures Printed(12) == [49, 50]
  {}

  /** A message in full: label, domain, action, nonce bytes and the decimal expiry, with colons between. */
  lemma SampleMessage(message: seq<int>)
    requires message == Ascii("tor-mkt:admin:v1:dispute:resolve:ab:") + [7] + Ascii(":12")
    ensures TokenMessage(DISPUTE_RESOLVE, [97, 98], [7], 12) == message
  {
    PrintedTwelve();
  }

  /** A string of digits after the last colon is found again. */
  lemma LastColon(a: Bytes, x: Bytes, b: Bytes, y: Bytes)
    requires AllDigits(x) && AllDigits(y) && a + [COLON] + x == b + [COLON] + y
    ensures a == b && x == y
  {
    var s, t := a + [COLON] + x, b + [COLON] + y;
    assert s[|a|] == COLON && t[|b|] == COLON;
    assert forall k :: |a| < k < |s| ==> s[k] == x[k - |a| - 1] != COLON;
    assert forall k :: |b| < k < |t| ==> t[k] == y[k - |b| - 1] != COLON;
    SameSplit(a, [COLON] + x, b, [COLON] + y);
    assert s == a + ([COLON] + x) && t == b + ([COLON] + y);
    SameSplit([COLON], x, [COLON], y);
  }

  /** A colon-free string before the first colon is found again. */
  lemma FirstColon(a: Bytes, x: Bytes, b: Bytes, y: Bytes)
    requires COLON !in a && COLON !in b && a + [COLON] + x == b + [COLON] + y
    ensures a == b && x == y
  {
    var s, t := a + [COLON] + x, b + [COLON] + y;
    assert s[|a|] == COLON && t[|b|] == COLON;
    assert forall k :: 0 <= k < |a| ==> s[k] == a[k] != COLON;
    assert forall k :: 0 <= k < |b| ==> t[k] == b[k] != COLON;
    SameSplit(a, [COLON] + x, b, [COLON] + y);
    assert s == a + ([COLON] + x) && t == b + ([COLON] + y);
    SameSplit([COLON], x, [COLON], y);
  }

  /** Two messages of one domain are the same exactly when the expiry agrees and action and nonce agree
      once joined by a colon. */
  lemma TokenMessagesAgreeIff(domain: Bytes, a: Bytes, n: Bytes, e: u64, a': Bytes, n': Bytes, e': u64)
    ensures TokenMessage(domain, a, n, e) == TokenMessage(domain, a', n', e')
       <==> e == e' && a + [COLON] + n == a' + [COLON] + n'
  {
    var front := ADMIN_ACTION_LABEL + [COLON] + domain + [COLON];
    var m, m' := a + [COLON] + n, a' + [COLON] + n';
    assert TokenMessage(domain, a, n, e) == front + m + [COLON] + Printed(e);
    assert TokenMessage(domain, a', n', e') == front + m' + [COLON] + Printed(e');
    if TokenMessage(domain, a, n, e) == TokenMessage(domain, a', n', e') {
      LastColon(front + m, Printed(e), front + m', Printed(e'));
      PrintedOnce(e, e');
      SameSplit(front, m, front, m');
    }
  }

  /** An action without a colon, such as an order id, is said by the message, and so are nonce and expiry. */
  lemma TokenMessageDetermines(domain: Bytes, a: Bytes, n: Bytes, e: u64, a': Bytes, n': Bytes, e': u64)
    requires COLON !in a && COLON !in a'
    requires TokenMessage(domain, a, n, e) == TokenMessage(domain, a', n', e')
    ensures a == a' && n == n' && e == e'
  {
    TokenMessagesAgreeIff(domain, a, n, e, a', n', e');
    FirstColon(a, n, a', n');
  }

  /** A token for one domain is never a token for the other, whatever its other fields. */
  lemma DomainsAreSeparate(a: Bytes, n: Bytes, e: u64, a': Bytes, n': Bytes, e': u64)
    ensures TokenMessage(DISPUTE_RESOLVE, a, n, e) != TokenMessage(ROTATE_KEK, a', n', e')
  {
    assert TokenMessage(DISPUTE_RESOLVE, a, n, e)[17] == 100;
    assert TokenMessage(ROTATE_KEK, a', n', e')[17] == 97;
  }
}
