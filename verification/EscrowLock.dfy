/** The escrow contract (contracts/EscrowLock.sol). A transfer hands control to the recipient, which may
    call back into the contract any number of times, to any depth, before it accepts or reverts. */
module EscrowLock {
  import opened Options

  type Address = nat
  type OrderId = nat

  const UINT256 := 0x1_0000000000000000_0000000000000000_0000000000000000_0000000000000000

  type uint256 = x: int | 0 <= x < 0x1_0000000000000000_0000000000000000_0000000000000000_0000000000000000

  datatype Order = Order(
    seller: Address, buyer: Address, releaseTime: nat, refundTime: nat, amount: nat, released: bool, refunded: bool)
  {
    predicate Settled() { released || refunded }
  }

  datatype Kind = ByBuyerRelease | ByBuyerRefund | BySellerClaim

  datatype Payment = Payment(id: OrderId, to: Address, amount: nat, kind: Kind, caller: Address, time: nat)

  /** Ether sent into the contract: who sent it, for whom, how much, when, and for how long it is locked. */
  datatype Deposit = Deposit(id: OrderId, sender: Address, seller: Address, amount: nat, time: nat, lock: nat)

  /** Contract storage and balance, with the deposits received and the payments made so far. */
  datatype Escrow = Escrow(orders: map<OrderId, Order>, balance: nat, deposits: seq<Deposit>, paid: seq<Payment>)

  const INIT := Escrow(map[], 0, [], [])

  /** What the recipient of a transfer does: calls it makes (a reverting one is caught), then its verdict. */
  datatype Reaction = Reaction(calls: seq<Call>, accepts: bool)

  datatype Call =
    | Create(sender: Address, value: uint256, id: OrderId, seller: Address, lockDuration: uint256)
    | Settle(kind: Kind, sender: Address, id: OrderId, recipient: Reaction)

  // ----- Semantics: None is a revert -----

  function CreateOrder(s: Escrow, now: uint256, c: Call): Option<Escrow>
    requires c.Create?
  {
    if c.id in s.orders || c.value == 0 || c.lockDuration == 0 || now + 2 * c.lockDuration >= UINT256 then None
    else
      var o := Order(c.seller, c.sender, now + c.lockDuration, now + 2 * c.lockDuration, c.value, false, false);
      var d := Deposit(c.id, c.sender, c.seller, c.value, now, c.lockDuration);
      Some(s.(orders := s.orders[c.id := o], balance := s.balance + c.value, deposits := s.deposits + [d]))
  }

  /** The require clauses of release, refund and claimUnclaimed. */
  predicate MaySettle(o: Order, now: nat, kind: Kind, sender: Address) {
    && !o.Settled()
    && match kind
       case ByBuyerRelease => sender == o.buyer
       case ByBuyerRefund => sender == o.buyer && now >= o.refundTime
       case BySellerClaim => sender == o.seller && o.releaseTime <= now < o.refundTime
  }

  function Marked(o: Order, kind: Kind): Order {
    if kind.ByBuyerRefund? then o.(refunded := true) else o.(released := true)
  }

  function Payee(o: Order, kind: Kind): Address {
    if kind.ByBuyerRefund? then o.buyer else o.seller
  }

  /** Storage and balance at the moment the recipient gets control: flag set, ether gone. */
  function Transferring(s: Escrow, now: nat, kind: Kind, sender: Address, id: OrderId): Escrow
    requires id in s.orders && s.balance >= s.orders[id].amount
  {
    var o := s.orders[id];
    s.(orders := s.orders[id := Marked(o, kind)], balance := s.balance - o.amount,
       paid := s.paid + [Payment(id, Payee(o, kind), o.amount, kind, sender, now)])
  }

  function Exec(s: Escrow, now: uint256, c: Call): Option<Escrow>
    decreases c
  {
    match c
    case Create(_, _, _, _, _) => CreateOrder(s, now, c)
    case Settle(kind, sender, id, r) =>
      if id !in s.orders || !MaySettle(s.orders[id], now, kind, sender) || s.balance < s.orders[id].amount then None
      else
        var after := ExecAll(Transferring(s, now, kind, sender, id), now, r.calls);
        if r.accepts then Some(after) else None
  }

  /** Calls one after another; a reverted one leaves no trace. */
  function ExecAll(s: Escrow, now: uint256, calls: seq<Call>): Escrow
    decreases calls
  {
    if calls == [] then s
    else ExecAll(OrElse(Exec(s, now, calls[0]), s), now, calls[1..])
  }

  function OrElse(r: Option<Escrow>, s: Escrow): Escrow {
    if r.Some? then r.value else s
  }

  // ----- The contract as it runs -----

  class Contract {
    var orders: map<OrderId, Order>
    var balance: nat
    var deposits: seq<Deposit>
    var paid: seq<Payment>

    constructor ()
      ensures View() == INIT
    {
      orders, balance, deposits, paid := map[], 0, [], [];
    }

    function View(): Escrow
      reads this
    {
      Escrow(orders, balance, deposits, paid)
    }

    method Restore(s: Escrow)
      modifies this
      ensures View() == s
    {
      orders, balance, deposits, paid := s.orders, s.balance, s.deposits, s.paid;
    }

    method CreateOrder(now: uint256, sender: Address, value: uint256, id: OrderId, seller: Address, lockDuration: uint256)
        returns (ok: bool)
      modifies this
      ensures var r := Exec(old(View()), now, Create(sender, value, id, seller, lockDuration));
              ok == r.Some? && View() == OrElse(r, old(View()))
      ensures ok <==> id !in old(orders) && value > 0 && lockDuration > 0 && now + 2 * lockDuration < UINT256
      ensures ok ==>
        && orders == old(orders)[id := orders[id]]
        && orders[id].buyer == sender && orders[id].seller == seller && orders[id].amount == value
        && orders[id].releaseTime == now + lockDuration && orders[id].refundTime == now + 2 * lockDuration
        && !orders[id].released && !orders[id].refunded
        && balance == old(balance) + value && paid == old(paid)
        && deposits == old(deposits) + [Deposit(id, sender, seller, value, now, lockDuration)]
      ensures !ok ==> View() == old(View())
    {
      if id in orders || value == 0 || lockDuration == 0 { return false; }
      var releaseTime := now + lockDuration;
      if releaseTime >= UINT256 { return false; }
      var refundTime := releaseTime + lockDuration;
      if refundTime >= UINT256 { return false; }
      balance := balance + value;
      deposits := deposits + [Deposit(id, sender, seller, value, now, lockDuration)];
      orders := orders[id := Order(seller, sender, releaseTime, refundTime, value, false, false)];
      return true;
    }

    /** `transfer`: moves the ether, runs the recipient, and reports whether it accepted. */
    method Transfer(now: uint256, p: Payment, r: Reaction) returns (ok: bool)
      modifies this
      ensures ok == (old(balance) >= p.amount && r.accepts)
      ensures ok ==>
        View() == ExecAll(old(View()).(balance := old(balance) - p.amount, paid := old(paid) + [p]), now, r.calls)
      decreases r, 1
    {
      if balance < p.amount { return false; }
      balance := balance - p.amount;
      paid := paid + [p];
      ghost var start := View();
      var i := 0;
      while i < |r.calls|
        invariant 0 <= i <= |r.calls|
        invariant ExecAll(View(), now, r.calls[i..]) == ExecAll(start, now, r.calls)
      {
        assert r.calls[i..][1..] == r.calls[i + 1..];
        var _ := Execute(now, r.calls[i]);
        i := i + 1;
      }
      return r.accepts;
    }

    /** release, refund and claimUnclaimed: check, set the flag, transfer; a failed transfer undoes everything. */
    method SettleOrder(now: uint256, kind: Kind, sender: Address, id: OrderId, recipient: Reaction) returns (ok: bool)
      modifies this
      ensures var r := Exec(old(View()), now, Settle(kind, sender, id, recipient));
              ok == r.Some? && View() == OrElse(r, old(View()))
      decreases recipient, 2
    {
      if id !in orders { return false; }
      var o := orders[id];
      if !MaySettle(o, now, kind, sender) { return false; }
      var before := View();
      orders := orders[id := Marked(o, kind)];
      ok := Transfer(now, Payment(id, Payee(o, kind), o.amount, kind, sender, now), recipient);
      if !ok { Restore(before); }
    }

    method Execute(now: uint256, c: Call) returns (ok: bool)
      modifies this
      ensures var r := Exec(old(View()), now, c);
              ok == r.Some? && View() == OrElse(r, old(View()))
      decreases c, 0
    {
      match c
      case Create(sender, value, id, seller, lockDuration) =>
        ok := CreateOrder(now, sender, value, id, seller, lockDuration);
      case Settle(kind, sender, id, recipient) =>
        ok := SettleOrder(now, kind, sender, id, recipient);
    }
  }

  // ----- Sums -----

  function Unsettled(o: Order): nat {
    if o.Settled() then 0 else o.amount
  }

  ghost function Locked(orders: map<OrderId, Order>): nat {
    if orders == map[] then 0
    else
      var id :| id in orders;
      Unsettled(orders[id]) + Locked(orders - {id})
  }

  lemma {:induction false} LockedPick(orders: map<OrderId, Order>, id: OrderId)
    requires id in orders
    ensures Locked(orders) == Unsettled(orders[id]) + Locked(orders - {id})
    decreases |orders|
  {
    var k :| k in orders && Locked(orders) == Unsettled(orders[k]) + Locked(orders - {k});
    if k != id {
      LockedPick(orders - {k}, id);
      LockedPick(orders - {id}, k);
      assert orders - {k} - {id} == orders - {id} - {k};
    }
  }

  lemma LockedUpdate(orders: map<OrderId, Order>, id: OrderId, o: Order)
    ensures Locked(orders[id := o]) == Locked(orders - {id}) + Unsettled(o)
  {
    LockedPick(orders[id := o], id);
    assert orders[id := o] - {id} == orders - {id};
  }

  function TotalPaid(paid: seq<Payment>): nat {
    if paid == [] then 0 else TotalPaid(paid[..|paid| - 1]) + paid[|paid| - 1].amount
  }

  function PaymentsOf(paid: seq<Payment>, id: OrderId): nat {
    if paid == [] then 0
    else PaymentsOf(paid[..|paid| - 1], id) + (if paid[|paid| - 1].id == id then 1 else 0)
  }

  lemma PaidAppend(paid: seq<Payment>, p: Payment)
    ensures TotalPaid(paid + [p]) == TotalPaid(paid) + p.amount
    ensures forall id :: PaymentsOf(paid + [p], id) == PaymentsOf(paid, id) + (if p.id == id then 1 else 0)
  {
    assert (paid + [p])[..|paid|] == paid;
  }

  // ----- The invariant -----

  function TotalDeposited(deposits: seq<Deposit>): nat {
    if deposits == [] then 0 else TotalDeposited(deposits[..|deposits| - 1]) + deposits[|deposits| - 1].amount
  }

  function DepositsOf(deposits: seq<Deposit>, id: OrderId): nat {
    if deposits == [] then 0
    else DepositsOf(deposits[..|deposits| - 1], id) + (if deposits[|deposits| - 1].id == id then 1 else 0)
  }

  lemma DepositAppend(deposits: seq<Deposit>, d: Deposit)
    ensures TotalDeposited(deposits + [d]) == TotalDeposited(deposits) + d.amount
    ensures forall id :: DepositsOf(deposits + [d], id) == DepositsOf(deposits, id) + (if d.id == id then 1 else 0)
  {
    assert (deposits + [d])[..|deposits|] == deposits;
  }

  /** An order carries the terms of its deposit: the buyer is whoever sent the ether. */
  predicate CarriesTerms(o: Order, d: Deposit) {
    && o.buyer == d.sender && o.seller == d.seller && o.amount == d.amount
    && o.releaseTime == d.time + d.lock && o.refundTime == d.time + 2 * d.lock
  }

  /** A payment against its deposit: in full; a refund back to the sender of the ether, on the sender's call
      and after two locks; a release to the seller on the sender's call; a claim to the seller on the seller's
      call, between one lock and two. */
  predicate Justified(p: Payment, d: Deposit) {
    && p.amount == d.amount
    && match p.kind
       case ByBuyerRelease => p.to == d.seller && p.caller == d.sender
       case ByBuyerRefund => p.to == d.sender && p.caller == d.sender && p.time >= d.time + 2 * d.lock
       case BySellerClaim => p.to == d.seller && p.caller == d.seller && d.time + d.lock <= p.time < d.time + 2 * d.lock
  }

  /** The flag an order carries after a payment tells which kind it was. */
  predicate FlaggedBy(o: Order, p: Payment) {
    o.refunded == p.kind.ByBuyerRefund? && o.released == !p.kind.ByBuyerRefund?
  }

  ghost predicate DepositsMatch(orders: map<OrderId, Order>, deposits: seq<Deposit>) {
    && (forall id :: DepositsOf(deposits, id) == if id in orders then 1 else 0)
    && (forall d :: d in deposits ==> d.id in orders && CarriesTerms(orders[d.id], d))
  }

  ghost predicate PaymentsMatch(orders: map<OrderId, Order>, deposits: seq<Deposit>, paid: seq<Payment>) {
    && (forall id :: PaymentsOf(paid, id) == if id in orders && orders[id].Settled() then 1 else 0)
    && (forall p, d :: p in paid && d in deposits && d.id == p.id ==> Justified(p, d))
    && (forall p :: p in paid ==> p.id in orders && FlaggedBy(orders[p.id], p))
  }

  /** The balance is what unsettled orders are worth, and what came in is that and what went out. */
  ghost predicate Balanced(orders: map<OrderId, Order>, balance: nat, deposits: seq<Deposit>, paid: seq<Payment>) {
    balance == Locked(orders) && TotalDeposited(deposits) == balance + TotalPaid(paid)
  }

  ghost predicate FlaggedOnce(orders: map<OrderId, Order>) {
    forall id :: id in orders ==> !(orders[id].released && orders[id].refunded)
  }

  ghost predicate Inv(s: Escrow) {
    && Balanced(s.orders, s.balance, s.deposits, s.paid) && FlaggedOnce(s.orders)
    && DepositsMatch(s.orders, s.deposits) && PaymentsMatch(s.orders, s.deposits, s.paid)
  }

  /** Orders stay, their terms never change, settlement is never undone, payments are only added. */
  ghost predicate Extends(s: Escrow, t: Escrow) {
    && s.paid <= t.paid && s.deposits <= t.deposits
    && forall id :: id in s.orders ==>
         && id in t.orders
         && t.orders[id].(released := s.orders[id].released, refunded := s.orders[id].refunded) == s.orders[id]
         && (s.orders[id].Settled() ==> t.orders[id] == s.orders[id])
  }

  lemma {:induction false} HasDeposit(deposits: seq<Deposit>, d: Deposit)
    requires d in deposits
    ensures DepositsOf(deposits, d.id) >= 1
  {
    if deposits[|deposits| - 1] != d { HasDeposit(deposits[..|deposits| - 1], d); }
  }

  lemma AddKeepsDeposits(orders: map<OrderId, Order>, deposits: seq<Deposit>, d: Deposit, o: Order)
    requires DepositsMatch(orders, deposits) && d.id !in orders && CarriesTerms(o, d)
    ensures DepositsMatch(orders[d.id := o], deposits + [d])
  {
    DepositAppend(deposits, d);
    forall e | e in deposits + [d] ensures e.id in orders[d.id := o] && CarriesTerms(orders[d.id := o][e.id], e) {
      if e in deposits { HasDeposit(deposits, e); }
    }
  }

  lemma AddKeepsPayments(orders: map<OrderId, Order>, deposits: seq<Deposit>, paid: seq<Payment>, d: Deposit, o: Order)
    requires PaymentsMatch(orders, deposits, paid) && d.id !in orders && !o.Settled()
    ensures PaymentsMatch(orders[d.id := o], deposits + [d], paid)
  {
    assert forall p :: p in paid ==> p.id in orders && p.id != d.id;
  }

  lemma MarkKeepsDeposits(orders: map<OrderId, Order>, deposits: seq<Deposit>, id: OrderId, o: Order)
    requires DepositsMatch(orders, deposits) && id in orders
    requires o.(released := orders[id].released, refunded := orders[id].refunded) == orders[id]
    ensures DepositsMatch(orders[id := o], deposits)
  {}

  lemma PayKeepsPayments(orders: map<OrderId, Order>, deposits: seq<Deposit>, paid: seq<Payment>, o: Order, p: Payment)
    requires PaymentsMatch(orders, deposits, paid) && p.id in orders && !orders[p.id].Settled()
    requires o.Settled() && FlaggedBy(o, p)
    requires forall d :: d in deposits && d.id == p.id ==> Justified(p, d)
    ensures PaymentsMatch(orders[p.id := o], deposits, paid + [p])
  {
    PaidAppend(paid, p);
    forall q | q in paid + [p] ensures q.id in orders[p.id := o] && FlaggedBy(orders[p.id := o][q.id], q) {
      if q in paid { HasPayment(paid, q); }
    }
  }

  lemma CreateKeepsInv(s: Escrow, now: uint256, c: Call)
    requires Inv(s) && c.Create?
    ensures var r := CreateOrder(s, now, c); r.Some? ==> Inv(r.value) && Extends(s, r.value)
  {
    var r := CreateOrder(s, now, c);
    if r.Some? {
      var o, d := r.value.orders[c.id], r.value.deposits[|s.deposits|];
      LockedUpdate(s.orders, c.id, o);
      assert s.orders - {c.id} == s.orders;
      AddKeepsDeposits(s.orders, s.deposits, d, o);
      AddKeepsPayments(s.orders, s.deposits, s.paid, d, o);
      DepositAppend(s.deposits, d);
    }
  }

  lemma PaymentIsJustified(o: Order, now: nat, kind: Kind, sender: Address, id: OrderId, d: Deposit)
    requires MaySettle(o, now, kind, sender) && CarriesTerms(o, d)
    ensures Justified(Payment(id, Payee(o, kind), o.amount, kind, sender, now), d)
  {}

  lemma SettledKeepsPayments(orders: map<OrderId, Order>, deposits: seq<Deposit>, paid: seq<Payment>,
                             now: nat, kind: Kind, sender: Address, id: OrderId)
    requires DepositsMatch(orders, deposits) && PaymentsMatch(orders, deposits, paid)
    requires id in orders && MaySettle(orders[id], now, kind, sender)
    ensures var o := orders[id];
            PaymentsMatch(orders[id := Marked(o, kind)], deposits,
                          paid + [Payment(id, Payee(o, kind), o.amount, kind, sender, now)])
  {
    var o := orders[id];
    var p := Payment(id, Payee(o, kind), o.amount, kind, sender, now);
    forall d | d in deposits && d.id == id ensures Justified(p, d) {
      PaymentIsJustified(o, now, kind, sender, id, d);
    }
    PayKeepsPayments(orders, deposits, paid, Marked(o, kind), p);
  }

  lemma SettledKeepsTotals(orders: map<OrderId, Order>, balance: nat, deposits: seq<Deposit>, paid: seq<Payment>,
                           id: OrderId, o: Order, p: Payment)
    requires Balanced(orders, balance, deposits, paid) && id in orders && !orders[id].Settled() && o.Settled()
    requires p.amount == orders[id].amount <= balance
    ensures Balanced(orders[id := o], balance - p.amount, deposits, paid + [p])
  {
    SettledUnlocks(orders, id, o);
    PaidAppend(paid, p);
  }

  lemma SettledUnlocks(orders: map<OrderId, Order>, id: OrderId, o: Order)
    requires id in orders && !orders[id].Settled() && o.Settled()
    ensures Locked(orders[id := o]) == Locked(orders) - orders[id].amount
  {
    LockedPick(orders, id);
    LockedUpdate(orders, id, o);
  }

  lemma TransferringIs(s: Escrow, now: nat, kind: Kind, sender: Address, id: OrderId, o: Order, p: Payment)
    requires id in s.orders && s.balance >= s.orders[id].amount && o == Marked(s.orders[id], kind)
    requires p == Payment(id, Payee(s.orders[id], kind), s.orders[id].amount, kind, sender, now)
    ensures Transferring(s, now, kind, sender, id) ==
            s.(orders := s.orders[id := o], balance := s.balance - p.amount, paid := s.paid + [p])
  {}

  lemma PaidExtends(s: Escrow, id: OrderId, o: Order, p: Payment)
    requires id in s.orders && !s.orders[id].Settled() && p.amount <= s.balance
    requires o.(released := s.orders[id].released, refunded := s.orders[id].refunded) == s.orders[id]
    ensures Extends(s, s.(orders := s.orders[id := o], balance := s.balance - p.amount, paid := s.paid + [p]))
  {}

  lemma TransferKeepsInv(s: Escrow, now: uint256, kind: Kind, sender: Address, id: OrderId)
    requires Inv(s) && id in s.orders && MaySettle(s.orders[id], now, kind, sender) && s.balance >= s.orders[id].amount
    ensures Inv(Transferring(s, now, kind, sender, id)) && Extends(s, Transferring(s, now, kind, sender, id))
  {
    var o := Marked(s.orders[id], kind);
    var p := Payment(id, Payee(s.orders[id], kind), s.orders[id].amount, kind, sender, now);
    TransferringIs(s, now, kind, sender, id, o, p);
    SettledKeepsTotals(s.orders, s.balance, s.deposits, s.paid, id, o, p);
    MarkKeepsDeposits(s.orders, s.deposits, id, o);
    SettledKeepsPayments(s.orders, s.deposits, s.paid, now, kind, sender, id);
    PaidExtends(s, id, o, p);
  }

  lemma {:induction false} HasPayment(paid: seq<Payment>, p: Payment)
    requires p in paid
    ensures PaymentsOf(paid, p.id) >= 1
  {
    if paid[|paid| - 1] != p { HasPayment(paid[..|paid| - 1], p); }
  }

  lemma {:induction false} ExecKeepsInv(s: Escrow, now: uint256, c: Call)
    requires Inv(s)
    ensures var t := OrElse(Exec(s, now, c), s); Inv(t) && Extends(s, t)
    decreases c
  {
    match c
    case Create(_, _, _, _, _) => CreateKeepsInv(s, now, c);
    case Settle(kind, sender, id, r) =>
      if Exec(s, now, c).Some? {
        TransferKeepsInv(s, now, kind, sender, id);
        ExecAllKeepsInv(Transferring(s, now, kind, sender, id), now, r.calls);
      }
  }

  lemma {:induction false} ExecAllKeepsInv(s: Escrow, now: uint256, calls: seq<Call>)
    requires Inv(s)
    ensures Inv(ExecAll(s, now, calls)) && Extends(s, ExecAll(s, now, calls))
    decreases calls
  {
    if calls != [] {
      ExecKeepsInv(s, now, calls[0]);
      ExecAllKeepsInv(OrElse(Exec(s, now, calls[0]), s), now, calls[1..]);
    }
  }

  // ----- Runs -----

  datatype Transaction = Transaction(now: uint256, call: Call)

  function Run(txs: seq<Transaction>): Escrow {
    if txs == [] then INIT
    else
      var s := Run(txs[..|txs| - 1]);
      OrElse(Exec(s, txs[|txs| - 1].now, txs[|txs| - 1].call), s)
  }

  /** Conservation and single settlement over every run, whatever recipients do when they are paid. */
  lemma {:induction false} RunKeepsInv(txs: seq<Transaction>)
    ensures Inv(Run(txs))
  {
    if txs != [] {
      RunKeepsInv(txs[..|txs| - 1]);
      ExecKeepsInv(Run(txs[..|txs| - 1]), txs[|txs| - 1].now, txs[|txs| - 1].call);
    } else {
      assert Locked(map[]) == 0;
    }
  }

  /** What one transaction does to the orders and payments that were there before it. */
  lemma TransactionExtends(txs: seq<Transaction>, tx: Transaction)
    ensures Extends(Run(txs), Run(txs + [tx]))
  {
    RunKeepsInv(txs);
    assert (txs + [tx])[..|txs|] == txs;
    ExecKeepsInv(Run(txs), tx.now, tx.call);
  }

  /** Calls run in order, each on what the one before left; one that reverts leaves no trace. */
  lemma {:induction false} CallsInOrder(s: Escrow, now: uint256, calls: seq<Call>, c: Call)
    ensures var m := ExecAll(s, now, calls);
            ExecAll(s, now, calls + [c]) == if Exec(m, now, c).Some? then Exec(m, now, c).value else m
    decreases |calls|
  {
    if calls == [] {
      assert [] + [c] == [c] && [c][1..] == [];
      assert ExecAll(s, now, [c]) == ExecAll(OrElse(Exec(s, now, c), s), now, []);
    } else {
      assert (calls + [c])[1..] == calls[1..] + [c];
      CallsInOrder(OrElse(Exec(s, now, calls[0]), s), now, calls[1..], c);
    }
  }

  /** A recipient that accepts acts on a contract whose flag is set and whose ether is gone: its calls take
      effect there, and the settlement leaves what the last of them left. */
  lemma RecipientActsAfterPayment(s: Escrow, now: uint256, kind: Kind, sender: Address, id: OrderId, r: Reaction)
    requires Exec(s, now, Settle(kind, sender, id, r)).Some?
    ensures id in s.orders && s.balance >= s.orders[id].amount && r.accepts
    ensures var o := s.orders[id];
            var m := Escrow(
              s.orders[id := if kind == ByBuyerRefund then o.(refunded := true) else o.(released := true)],
              s.balance - o.amount, s.deposits,
              s.paid + [Payment(id, if kind == ByBuyerRefund then o.buyer else o.seller, o.amount, kind, sender, now)]);
            Exec(s, now, Settle(kind, sender, id, r)).value == ExecAll(m, now, r.calls)
  {}

  lemma Solvent(s: Escrow, id: OrderId)
    requires Inv(s) && id in s.orders && !s.orders[id].Settled()
    ensures s.balance >= s.orders[id].amount
  {
    LockedPick(s.orders, id);
  }

  /** The contract's own rules, by the order's terms: an unsettled order is released on its buyer's call at any
      time, refunded on its buyer's call from the refund time on, and claimed on its seller's call between the
      release and the refund time. */
  predicate Allowed(o: Order, now: nat, kind: Kind, sender: Address) {
    && !o.released && !o.refunded
    && (kind == ByBuyerRelease ==> sender == o.buyer)
    && (kind == ByBuyerRefund ==> sender == o.buyer && o.refundTime <= now)
    && (kind == BySellerClaim ==> sender == o.seller && o.releaseTime <= now && now < o.refundTime)
  }

  lemma SettleOutcome(s: Escrow, now: uint256, kind: Kind, sender: Address, id: OrderId, r: Reaction)
    ensures Exec(s, now, Settle(kind, sender, id, r)).Some? <==>
            id in s.orders && Allowed(s.orders[id], now, kind, sender) && s.balance >= s.orders[id].amount && r.accepts
  {}

  /** The balance always covers an unsettled order, so settling fails only by the contract's own rules or
      the recipient's refusal, never for want of ether. */
  lemma SettlesIffAllowed(txs: seq<Transaction>, now: uint256, kind: Kind, sender: Address, id: OrderId, r: Reaction)
    ensures var s := Run(txs);
            Exec(s, now, Settle(kind, sender, id, r)).Some? <==>
            id in s.orders && Allowed(s.orders[id], now, kind, sender) && r.accepts
  {
    var s := Run(txs);
    SettleOutcome(s, now, kind, sender, id, r);
    if id in s.orders && !s.orders[id].Settled() {
      RunKeepsInv(txs);
      Solvent(s, id);
    }
  }

  /** In every run, a creation succeeds exactly for a new id, some ether, a positive lock and deadlines within
      256 bits, and leaves the order its caller asked for, with the caller as buyer. */
  lemma CreatesIffFresh(txs: seq<Transaction>, now: uint256, c: Call)
    requires c.Create?
    ensures var s := Run(txs);
            var r := Exec(s, now, c);
            && (r.Some? <==> c.id !in s.orders && c.value > 0 && c.lockDuration > 0 && now + 2 * c.lockDuration < UINT256)
            && (r.Some? ==>
                  && r.value.orders.Keys == s.orders.Keys + {c.id}
                  && r.value.orders[c.id].buyer == c.sender && r.value.orders[c.id].seller == c.seller
                  && r.value.orders[c.id].amount == c.value
                  && r.value.orders[c.id].releaseTime == now + c.lockDuration
                  && r.value.orders[c.id].refundTime == now + 2 * c.lockDuration
                  && !r.value.orders[c.id].released && !r.value.orders[c.id].refunded
                  && r.value.deposits == s.deposits + [Deposit(c.id, c.sender, c.seller, c.value, now, c.lockDuration)]
                  && r.value.balance == s.balance + c.value && r.value.paid == s.paid)
  {}

  /** What a settlement leaves: flag and payment of its kind, whatever the recipient did after. */
  ghost predicate PaidAtOnce(s: Escrow, t: Escrow, id: OrderId, kind: Kind, sender: Address, now: nat) {
    && id in s.orders && id in t.orders
    && (if kind == ByBuyerRefund then t.orders[id].refunded && !t.orders[id].released
        else t.orders[id].released && !t.orders[id].refunded)
    && s.paid + [Payment(id, if kind == ByBuyerRefund then s.orders[id].buyer else s.orders[id].seller,
                         s.orders[id].amount, kind, sender, now)] <= t.paid
  }

  lemma PaymentStays(s: Escrow, m: Escrow, t: Escrow, id: OrderId, kind: Kind, sender: Address, now: nat)
    requires PaidAtOnce(s, m, id, kind, sender, now) && Extends(m, t)
    ensures PaidAtOnce(s, t, id, kind, sender, now)
  {}

  lemma TransferPays(s: Escrow, now: nat, kind: Kind, sender: Address, id: OrderId)
    requires id in s.orders && MaySettle(s.orders[id], now, kind, sender) && s.balance >= s.orders[id].amount
    ensures PaidAtOnce(s, Transferring(s, now, kind, sender, id), id, kind, sender, now)
  {}

  /** In every run, a settlement that succeeds pays the order's amount at once: a refund to the buyer, a release
      or a claim to the seller, before anything the recipient does. */
  lemma SettlementPays(txs: seq<Transaction>, now: uint256, kind: Kind, sender: Address, id: OrderId, r: Reaction)
    requires Exec(Run(txs), now, Settle(kind, sender, id, r)).Some?
    ensures PaidAtOnce(Run(txs), Exec(Run(txs), now, Settle(kind, sender, id, r)).value, id, kind, sender, now)
  {
    RunKeepsInv(txs);
    SettlementPaysFrom(Run(txs), now, kind, sender, id, r);
  }

  lemma SettlementPaysFrom(s: Escrow, now: uint256, kind: Kind, sender: Address, id: OrderId, r: Reaction)
    requires Inv(s) && Exec(s, now, Settle(kind, sender, id, r)).Some?
    ensures PaidAtOnce(s, Exec(s, now, Settle(kind, sender, id, r)).value, id, kind, sender, now)
  {
    var m := Transferring(s, now, kind, sender, id);
    TransferKeepsInv(s, now, kind, sender, id);
    ExecAllKeepsInv(m, now, r.calls);
    TransferPays(s, now, kind, sender, id);
    PaymentStays(s, m, ExecAll(m, now, r.calls), id, kind, sender, now);
  }

  /** In every run a refund returns the ether to the account that sent it, in full, two locks after it was sent
      at the earliest, and on that account's own call. */
  lemma RefundsReturnDeposits(txs: seq<Transaction>, p: Payment)
    requires p in Run(txs).paid && p.kind == ByBuyerRefund
    ensures exists d :: d in Run(txs).deposits && d.id == p.id && p.to == d.sender && p.amount == d.amount
                        && p.caller == d.sender && p.time >= d.time + 2 * d.lock
  {
    var s := Run(txs);
    RunKeepsInv(txs);
    var d := DepositFound(s.deposits, p.id);
  }

  lemma {:induction false} DepositFound(deposits: seq<Deposit>, id: OrderId) returns (d: Deposit)
    requires DepositsOf(deposits, id) > 0
    ensures d in deposits && d.id == id
  {
    d := deposits[|deposits| - 1];
    if d.id != id { d := DepositFound(deposits[..|deposits| - 1], id); }
  }

  /** At any time the buyer of an unsettled order can release it to a seller that accepts. */
  lemma BuyerCanAlwaysRelease(txs: seq<Transaction>, now: uint256, id: OrderId, r: Reaction)
    requires id in Run(txs).orders && !Run(txs).orders[id].Settled() && r.accepts
    ensures Exec(Run(txs), now, Settle(ByBuyerRelease, Run(txs).orders[id].buyer, id, r)).Some?
  {
    SettlesIffAllowed(txs, now, ByBuyerRelease, Run(txs).orders[id].buyer, id, r);
  }

  /** A settled order pays nothing more: no transaction adds a payment for it, by re-entry or otherwise. */
  lemma SettledOrderNeverPaysAgain(txs: seq<Transaction>, tx: Transaction, id: OrderId)
    requires id in Run(txs).orders && Run(txs).orders[id].Settled()
    ensures PaymentsOf(Run(txs + [tx]).paid, id) == PaymentsOf(Run(txs).paid, id) == 1
    ensures id in Run(txs + [tx]).orders && Run(txs + [tx]).orders[id] == Run(txs).orders[id]
  {
    RunKeepsInv(txs);
    RunKeepsInv(txs + [tx]);
    TransactionExtends(txs, tx);
  }
}
