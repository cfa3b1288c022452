/** Finding the payment of an order among incoming transfers (src/services/payments/xmr.rs, btc_client.rs and
    the decision in src/background/payment_poller.rs). Amounts are integers of the smallest unit. */
module PaymentMatching {
  import opened Options

  const MIN_PAYMENT_PICONERO := 1_000_000_000
  const DUST_THRESHOLD_SATS := 546
  const REQUIRED_CONFIRMATIONS_XMR := 10
  const REQUIRED_CONFIRMATIONS_BTC := 6

  type Address = string

  datatype Transfer = Transfer(address: Address, amount: nat, confirmations: nat, txHash: string)

  datatype Status = Status(received: bool, amount: nat, confirmations: nat, txHash: Option<string>, address: Option<Address>)

  const NOT_RECEIVED := Status(false, 0, 0, None, None)

  function StatusOf(t: Transfer): Status {
    Status(true, t.amount, t.confirmations, Some(t.txHash), Some(t.address))
  }

  predicate Qualifies(t: Transfer, address: Address, expected: nat, dust: nat) {
    t.address == address && t.amount >= dust && t.amount >= expected && expected > 0
  }

  datatype Decision = Fund | Cancel | Wait

  /** What the poller does with a status; an address in it must be the escrow address. */
  function Decide(s: Status, escrow: Address, required: nat, now: int, expiry: int): Decision {
    if s.received && s.confirmations >= required then
      if s.address.Some? && s.address.value != escrow then Wait else Fund
    else if s.received then Wait
    else if now > expiry then Cancel
    else Wait
  }

  // ----- Monero -----

  /** A wallet entry; a missing amount counts as zero, a missing height as the current one. */
  datatype XmrTx = XmrTx(kind: string, amount: Option<nat>, height: Option<nat>, txid: string)

  predicate ContainsIn(kind: string) {
    exists i :: 0 <= i < |kind| - 1 && kind[i] == 'i' && kind[i + 1] == 'n'
  }

  function AmountOf(tx: XmrTx): nat {
    if tx.amount.Some? then tx.amount.value else 0
  }

  function ConfirmationsOf(tx: XmrTx, current: nat): nat {
    var height := if tx.height.Some? then tx.height.value else current;
    if current >= height then current - height else 0
  }

  function TransferOf(tx: XmrTx, address: Address, current: nat): Transfer {
    Transfer(address, AmountOf(tx), ConfirmationsOf(tx, current), tx.txid)
  }

  predicate Counts(tx: XmrTx) {
    ContainsIn(tx.kind) && AmountOf(tx) >= MIN_PAYMENT_PICONERO
  }

  /** The counting transfers, in the order the wallet lists them. */
  function Incoming(txs: seq<XmrTx>, address: Address, current: nat): seq<Transfer> {
    if txs == [] then []
    else
      var last := txs[|txs| - 1];
      Incoming(txs[..|txs| - 1], address, current) + (if Counts(last) then [TransferOf(last, address, current)] else [])
  }

  method GetIncomingTransfers(txs: seq<XmrTx>, address: Address, current: nat) returns (transfers: seq<Transfer>)
    ensures transfers == Incoming(txs, address, current)
  {
    transfers := [];
    for i := 0 to |txs|
      invariant transfers == Incoming(txs[..i], address, current)
    {
      var tx := txs[i];
      assert txs[..i + 1][..i] == txs[..i];
      if !ContainsIn(tx.kind) { continue; }
      var amount := AmountOf(tx);
      if amount < MIN_PAYMENT_PICONERO { continue; }
      var height := if tx.height.Some? then tx.height.value else current;
      var confirmations := if current >= height then current - height else 0;
      transfers := transfers + [Transfer(address, amount, confirmations, tx.txid)];
    }
    assert txs[..|txs|] == txs;
  }

  /** Transfer k is the first that qualifies. */
  ghost predicate FirstQualifying(ts: seq<Transfer>, k: int, address: Address, expected: nat) {
    && 0 <= k < |ts| && Qualifies(ts[k], address, expected, MIN_PAYMENT_PICONERO)
    && NoneQualifies(ts[..k], address, expected)
  }

  ghost predicate NoneQualifies(ts: seq<Transfer>, address: Address, expected: nat) {
    forall j :: 0 <= j < |ts| ==> !Qualifies(ts[j], address, expected, MIN_PAYMENT_PICONERO)
  }

  /** Returns the first qualifying transfer, whatever its confirmations. */
  method CheckXmrPayment(ts: seq<Transfer>, address: Address, expected: nat) returns (s: Status)
    ensures !s.received ==> s == NOT_RECEIVED && NoneQualifies(ts, address, expected)
    ensures s.received ==> exists k :: FirstQualifying(ts, k, address, expected) && s == StatusOf(ts[k])
    ensures s.received ==>
      exists k :: 0 <= k < |ts| && ts[k].address == address && ts[k].amount >= 1_000_000_000 && ts[k].amount >= expected
                  && s == Status(true, ts[k].amount, ts[k].confirmations, Some(ts[k].txHash), Some(address))
  {
    for i := 0 to |ts|
      invariant NoneQualifies(ts[..i], address, expected)
    {
      var t := ts[i];
      if t.address != address { continue; }
      if t.amount < MIN_PAYMENT_PICONERO { continue; }
      if t.amount >= expected && expected > 0 {
        assert FirstQualifying(ts, i, address, expected);
        return StatusOf(t);
      }
    }
    assert ts[..|ts|] == ts;
    return NOT_RECEIVED;
  }

  /** A wallet entry that pays the order. */
  predicate Pays(tx: XmrTx, expected: nat) {
    Counts(tx) && AmountOf(tx) >= expected
  }

  ghost predicate NonePays(txs: seq<XmrTx>, expected: nat) {
    forall i :: 0 <= i < |txs| ==> !Pays(txs[i], expected)
  }

  ghost predicate FirstPaying(txs: seq<XmrTx>, k: int, expected: nat) {
    0 <= k < |txs| && Pays(txs[k], expected) && NonePays(txs[..k], expected)
  }

  /** A kind with "in" somewhere inside. */
  ghost predicate NamesIn(kind: string) {
    exists a: string, b: string :: kind == a + "in" + b
  }

  lemma ContainsInIff(kind: string)
    ensures ContainsIn(kind) <==> NamesIn(kind)
  {
    if ContainsIn(kind) {
      var i :| 0 <= i < |kind| - 1 && kind[i] == 'i' && kind[i + 1] == 'n';
      assert kind == kind[..i] + "in" + kind[i + 2..];
    }
    if NamesIn(kind) {
      var a: string, b: string :| kind == a + "in" + b;
      assert kind[|a|] == 'i' && kind[|a| + 1] == 'n';
    }
  }

  /** An entry pays exactly when its kind names incoming and it has an amount that reaches both a thousandth of
      a coin and what is expected. */
  lemma PaysIff(tx: XmrTx, expected: nat)
    ensures Pays(tx, expected) <==>
            NamesIn(tx.kind) && tx.amount.Some? && tx.amount.value >= 1_000_000_000 && tx.amount.value >= expected
  {
    ContainsInIff(tx.kind);
  }

  /** An outgoing entry never pays. */
  lemma OutNeverPays(tx: XmrTx, expected: nat)
    requires tx.kind == "out"
    ensures !Pays(tx, expected)
  {}

  /** An entry without a height has no confirmations; one at height h has n exactly when h + n is the current
      height, or n is zero and h is not below it. */
  lemma ConfirmationsIff(tx: XmrTx, current: nat, n: nat)
    ensures tx.height.None? ==> ConfirmationsOf(tx, current) == 0
    ensures tx.height.Some? ==>
      (ConfirmationsOf(tx, current) == n <==> tx.height.value + n == current || (n == 0 && tx.height.value >= current))
  {}

  /** What the wallet's next entry adds to the list: itself, field by field, if its kind names incoming and its
      amount is large enough, and nothing otherwise. */
  lemma IncomingNext(txs: seq<XmrTx>, tx: XmrTx, address: Address, current: nat)
    ensures var before, after := Incoming(txs, address, current), Incoming(txs + [tx], address, current);
            if NamesIn(tx.kind) && tx.amount.Some? && tx.amount.value >= 1_000_000_000
            then after == before + [Transfer(address, tx.amount.value, ConfirmationsOf(tx, current), tx.txid)]
            else after == before
  {
    ContainsInIff(tx.kind);
    assert (txs + [tx])[..|txs|] == txs;
  }

  /** The first qualifying transfer comes from the first paying wallet entry. */
  lemma {:induction false} FirstThroughFilter(txs: seq<XmrTx>, address: Address, current: nat, expected: nat, k: int)
      returns (j: int)
    requires expected > 0 && FirstPaying(txs, k, expected)
    ensures var ts := Incoming(txs, address, current);
            FirstQualifying(ts, j, address, expected) && ts[j] == TransferOf(txs[k], address, current)
  {
    var prefix := txs[..|txs| - 1];
    var before, ts := Incoming(prefix, address, current), Incoming(txs, address, current);
    if k < |prefix| {
      assert prefix[..k] == txs[..k];
      j := FirstThroughFilter(prefix, address, current, expected, k);
      assert ts[..j] == before[..j];
    } else {
      j := |before|;
      NoneThroughFilter(prefix, address, current, expected);
      assert ts[..j] == before;
    }
  }

  lemma {:induction false} NoneThroughFilter(txs: seq<XmrTx>, address: Address, current: nat, expected: nat)
    requires NonePays(txs, expected)
    ensures NoneQualifies(Incoming(txs, address, current), address, expected)
  {
    if txs != [] {
      assert !Pays(txs[|txs| - 1], expected);
      NoneThroughFilter(txs[..|txs| - 1], address, current, expected);
    }
  }

  lemma {:induction false} FindFirst(txs: seq<XmrTx>, n: nat, expected: nat) returns (k: int)
    requires n < |txs| && Pays(txs[n], expected)
    ensures FirstPaying(txs, k, expected)
    decreases n
  {
    if j :| 0 <= j < n && Pays(txs[j], expected) {
      k := FindFirst(txs, j, expected);
    } else {
      k := n;
    }
  }

  lemma FirstIsUnique(txs: seq<XmrTx>, k: int, l: int, expected: nat)
    requires FirstPaying(txs, k, expected) && FirstPaying(txs, l, expected)
    ensures k == l
  {}

  lemma FirstTransferIsUnique(ts: seq<Transfer>, k: int, l: int, address: Address, expected: nat)
    requires FirstQualifying(ts, k, address, expected) && FirstQualifying(ts, l, address, expected)
    ensures k == l
  {}

  /** The whole check of one Monero order, in terms of the wallet's entries: the first paying entry alone
      decides funding, and only an order nobody paid is cancelled. */
  method PollXmr(fork: bool, txs: seq<XmrTx>, current: nat, escrow: Address, expected: nat, now: int,
                 expiresAt: Option<int>) returns (d: Decision)
    ensures d == Fund <==>
      !fork && expected > 0 && exists k :: FirstPaying(txs, k, expected) && ConfirmationsOf(txs[k], current) >= 10
    ensures d == Cancel <==> !fork && expected > 0 && expiresAt.Some? && now > expiresAt.value && NonePays(txs, expected)
  {
    if expected == 0 || fork { return Wait; }
    var ts := GetIncomingTransfers(txs, escrow, current);
    var s := CheckXmrPayment(ts, escrow, expected);
    d := Decide(s, escrow, REQUIRED_CONFIRMATIONS_XMR, now, expiresAt.UnwrapOr(now + 86400));
    XmrStatusMeaning(txs, current, escrow, expected, s);
  }

  lemma XmrStatusMeaning(txs: seq<XmrTx>, current: nat, escrow: Address, expected: nat, s: Status)
    requires expected > 0
    requires var ts := Incoming(txs, escrow, current);
             if s.received then exists k :: FirstQualifying(ts, k, escrow, expected) && s == StatusOf(ts[k])
             else NoneQualifies(ts, escrow, expected)
    ensures !s.received <==> NonePays(txs, expected)
    ensures forall k :: FirstPaying(txs, k, expected) ==> s == StatusOf(TransferOf(txs[k], escrow, current))
    ensures s.received ==> exists k :: FirstPaying(txs, k, expected)
  {
    var ts := Incoming(txs, escrow, current);
    if NonePays(txs, expected) {
      NoneThroughFilter(txs, escrow, current, expected);
    } else {
      var n :| 0 <= n < |txs| && Pays(txs[n], expected);
      var first := FindFirst(txs, n, expected);
      var j := FirstThroughFilter(txs, escrow, current, expected, first);
      var k :| FirstQualifying(ts, k, escrow, expected) && s == StatusOf(ts[k]);
      FirstTransferIsUnique(ts, j, k, escrow, expected);
      forall l | FirstPaying(txs, l, expected) ensures l == first { FirstIsUnique(txs, l, first, expected); }
    }
  }

  /** Some entry pays the order and has enough confirmations. */
  ghost predicate ConfirmedPaymentExists(txs: seq<XmrTx>, current: nat, expected: nat) {
    exists k :: 0 <= k < |txs| && Pays(txs[k], expected) && ConfirmationsOf(txs[k], current) >= REQUIRED_CONFIRMATIONS_XMR
  }

  /** An unconfirmed payment is listed before every confirmed one. */
  ghost predicate FirstIsUnconfirmed(txs: seq<XmrTx>, current: nat, expected: nat) {
    exists k :: FirstPaying(txs, k, expected) && ConfirmationsOf(txs[k], current) < REQUIRED_CONFIRMATIONS_XMR
  }

  /** A Monero order with a confirmed payment is funded exactly when no unconfirmed one is listed first. */
  lemma FundedIffNotHidden(txs: seq<XmrTx>, current: nat, expected: nat)
    ensures (exists k :: FirstPaying(txs, k, expected) && ConfirmationsOf(txs[k], current) >= REQUIRED_CONFIRMATIONS_XMR)
            <==> ConfirmedPaymentExists(txs, current, expected) && !FirstIsUnconfirmed(txs, current, expected)
  {
    if ConfirmedPaymentExists(txs, current, expected) {
      var n :| 0 <= n < |txs| && Pays(txs[n], expected) && ConfirmationsOf(txs[n], current) >= REQUIRED_CONFIRMATIONS_XMR;
      var k := FindFirst(txs, n, expected);
    }
    forall k, l | FirstPaying(txs, k, expected) && FirstPaying(txs, l, expected) ensures k == l {
      FirstIsUnique(txs, k, l, expected);
    }
  }

  /** The hidden case exists: a payment too early, followed by one with enough confirmations. */
  lemma UnconfirmedHidesConfirmed()
    ensures var early := XmrTx("in", Some(MIN_PAYMENT_PICONERO), Some(100), "a");
            var settled := XmrTx("in", Some(MIN_PAYMENT_PICONERO), Some(0), "b");
            var txs := [early, settled];
            && ConfirmedPaymentExists(txs, 100, MIN_PAYMENT_PICONERO)
            && FirstIsUnconfirmed(txs, 100, MIN_PAYMENT_PICONERO)
  {
    var early := XmrTx("in", Some(MIN_PAYMENT_PICONERO), Some(100), "a");
    var settled := XmrTx("in", Some(MIN_PAYMENT_PICONERO), Some(0), "b");
    var txs := [early, settled];
    assert "in"[0] == 'i' && "in"[0 + 1] == 'n';
    assert ContainsIn("in");
    assert Pays(txs[0], MIN_PAYMENT_PICONERO) && Pays(txs[1], MIN_PAYMENT_PICONERO);
    assert FirstPaying(txs, 0, MIN_PAYMENT_PICONERO);
  }

  // ----- Bitcoin -----

  const U64_MAX := 0xFFFF_FFFF_FFFF_FFFF

  type u64 = x: int | 0 <= x <= 0xFFFF_FFFF_FFFF_FFFF

  /** A wallet entry; the amount in coins may be negative for an outgoing payment. */
  datatype BtcTx = BtcTx(address: Option<Address>, amount: real, confirmations: int, txid: string)

  /** `(coins * 100_000_000.0).round() as u64`: to the nearest satoshi, halves up, and clamped. */
  function SatsOf(coins: real): u64 {
    var sats := (coins * 100_000_000.0 + 0.5).Floor;
    if sats < 0 then 0 else if sats > U64_MAX then U64_MAX else sats
  }

  /** An amount that reaches a number of satoshis up to half of one. */
  predicate Reaches(coins: real, sats: u64) {
    coins * 100_000_000.0 + 0.5 >= sats as real
  }

  lemma RoundsToAtLeast(coins: real, sats: u64)
    requires sats > 0
    ensures SatsOf(coins) >= sats <==> Reaches(coins, sats)
  {}

  predicate CountsBtc(tx: BtcTx) {
    tx.confirmations > 0 && tx.amount > 0.0 && SatsOf(tx.amount) >= DUST_THRESHOLD_SATS && tx.address.Some?
  }

  function TransferOfBtc(tx: BtcTx): Transfer
    requires CountsBtc(tx)
  {
    Transfer(tx.address.value, SatsOf(tx.amount), tx.confirmations, tx.txid)
  }

  function IncomingBtc(txs: seq<BtcTx>): seq<Transfer> {
    if txs == [] then []
    else
      var last := txs[|txs| - 1];
      IncomingBtc(txs[..|txs| - 1])
      + (if CountsBtc(last) then [TransferOfBtc(last)] else [])
  }

  method GetIncomingTransfersBtc(txs: seq<BtcTx>) returns (transfers: seq<Transfer>)
    ensures transfers == IncomingBtc(txs)
  {
    transfers := [];
    for i := 0 to |txs|
      invariant transfers == IncomingBtc(txs[..i])
    {
      var tx := txs[i];
      assert txs[..i + 1][..i] == txs[..i];
      if tx.confirmations <= 0 { continue; }
      if tx.amount <= 0.0 { continue; }
      var sats := SatsOf(tx.amount);
      if sats < DUST_THRESHOLD_SATS { continue; }
      if tx.address.Some? {
        transfers := transfers + [Transfer(tx.address.value, sats, tx.confirmations, tx.txid)];
      }
    }
    assert txs[..|txs|] == txs;
  }

  /** A transfer that qualifies and has enough confirmations. */
  predicate Confirmed(t: Transfer, address: Address, expected: nat, required: nat) {
    Qualifies(t, address, expected, DUST_THRESHOLD_SATS) && t.confirmations >= required
  }

  /** Returns a qualifying transfer with enough confirmations if there is any. */
  method CheckBtcPayment(ts: seq<Transfer>, address: Address, expected: nat, required: nat) returns (s: Status)
    ensures !s.received ==> s == NOT_RECEIVED && forall k :: 0 <= k < |ts| ==> !Confirmed(ts[k], address, expected, required)
    ensures s.received ==>
      exists k :: 0 <= k < |ts| && Confirmed(ts[k], address, expected, required)
                  && s == Status(true, ts[k].amount, ts[k].confirmations, Some(ts[k].txHash), Some(address))
  {
    for i := 0 to |ts|
      invariant forall j :: 0 <= j < i ==> !Confirmed(ts[j], address, expected, required)
    {
      var t := ts[i];
      if t.address != address { continue; }
      if t.amount < DUST_THRESHOLD_SATS { continue; }
      if t.amount >= expected && expected > 0 && t.confirmations >= required {
        return Status(true, t.amount, t.confirmations, Some(t.txHash), Some(address));
      }
    }
    return NOT_RECEIVED;
  }

  /** A wallet entry that pays the order with enough confirmations. */
  predicate PaysBtc(tx: BtcTx, escrow: Address, expected: u64) {
    && tx.address == Some(escrow) && Reaches(tx.amount, 546) && Reaches(tx.amount, expected)
    && tx.confirmations >= 6
  }

  predicate AnyPaysBtc(txs: seq<BtcTx>, escrow: Address, expected: u64) {
    exists i :: 0 <= i < |txs| && PaysBtc(txs[i], escrow, expected)
  }

  predicate AnyConfirmed(ts: seq<Transfer>, escrow: Address, expected: u64) {
    exists j :: 0 <= j < |ts| && Confirmed(ts[j], escrow, expected, REQUIRED_CONFIRMATIONS_BTC)
  }

  /** What the wallet's next entry adds to the list: itself, field by field and rounded to satoshis, if it is
      confirmed, addressed and large enough, and nothing otherwise. */
  lemma IncomingBtcNext(txs: seq<BtcTx>, tx: BtcTx)
    ensures if tx.confirmations > 0 && tx.address.Some? && Reaches(tx.amount, 546)
            then IncomingBtc(txs + [tx]) ==
                 IncomingBtc(txs) + [Transfer(tx.address.value, SatsOf(tx.amount), tx.confirmations, tx.txid)]
            else IncomingBtc(txs + [tx]) == IncomingBtc(txs)
  {
    RoundsToAtLeast(tx.amount, 546);
    assert (txs + [tx])[..|txs|] == txs;
  }

  /** Filtering keeps exactly the entries that pay. */
  lemma {:induction false} PayingThroughFilter(txs: seq<BtcTx>, escrow: Address, expected: u64)
    requires expected > 0
    ensures AnyPaysBtc(txs, escrow, expected) <==> AnyConfirmed(IncomingBtc(txs), escrow, expected)
  {
    if txs != [] {
      var prefix, last := txs[..|txs| - 1], txs[|txs| - 1];
      assert txs == prefix + [last];
      PayingThroughFilter(prefix, escrow, expected);
      PayingStep(prefix, last, escrow, expected);
      ConfirmedStep(IncomingBtc(prefix), last, IncomingBtc(txs), escrow, expected);
    }
  }

  lemma PayingStep(prefix: seq<BtcTx>, last: BtcTx, escrow: Address, expected: u64)
    ensures AnyPaysBtc(prefix + [last], escrow, expected) <==>
            AnyPaysBtc(prefix, escrow, expected) || PaysBtc(last, escrow, expected)
  {
    var txs := prefix + [last];
    assert txs[|prefix|] == last;
    if i :| 0 <= i < |prefix| && PaysBtc(prefix[i], escrow, expected) { assert txs[i] == prefix[i]; }
  }

  lemma ConfirmedStep(before: seq<Transfer>, last: BtcTx, ts: seq<Transfer>, escrow: Address, expected: u64)
    requires expected > 0
    requires ts == before + if CountsBtc(last) then [TransferOfBtc(last)] else []
    ensures AnyConfirmed(ts, escrow, expected) <==>
            AnyConfirmed(before, escrow, expected) || PaysBtc(last, escrow, expected)
  {
    RoundsToAtLeast(last.amount, DUST_THRESHOLD_SATS);
    RoundsToAtLeast(last.amount, expected);
    if j :| 0 <= j < |before| && Confirmed(before[j], escrow, expected, REQUIRED_CONFIRMATIONS_BTC) {
      assert ts[j] == before[j];
    }
    if PaysBtc(last, escrow, expected) {
      assert Confirmed(ts[|before|], escrow, expected, REQUIRED_CONFIRMATIONS_BTC);
    }
  }

  /** The whole check of one Bitcoin order: any confirmed payment funds it, wherever it is listed, and an
      unconfirmed one does not keep an expired order from being cancelled. */
  method PollBtc(fork: bool, txs: seq<BtcTx>, escrow: Address, expected: u64, now: int, expiresAt: Option<int>) returns (d: Decision)
    ensures d == Fund <==> !fork && expected > 0 && AnyPaysBtc(txs, escrow, expected)
    ensures d == Cancel <==> !fork && expected > 0 && expiresAt.Some? && now > expiresAt.value && !AnyPaysBtc(txs, escrow, expected)
  {
    if expected == 0 || fork { return Wait; }
    var ts := GetIncomingTransfersBtc(txs);
    var s := CheckBtcPayment(ts, escrow, expected, REQUIRED_CONFIRMATIONS_BTC);
    d := Decide(s, escrow, REQUIRED_CONFIRMATIONS_BTC, now, expiresAt.UnwrapOr(now + 86400));
    PayingThroughFilter(txs, escrow, expected);
  }
}
