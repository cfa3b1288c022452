/** The settlement transaction of a stealth-funded order (src/services/escrow/btc.rs). The release profile
    has no overflow checks (Cargo.toml:98-103), so the 64-bit arithmetic wraps and is written out. */
module Settlement {
  import opened Options

  const U64 := 0x1_0000_0000_0000_0000

  type u64 = x: int | 0 <= x < 0x1_0000_0000_0000_0000
  type Address = nat

  function Wrap(x: int): u64 { x % U64 }

  datatype Utxo = Utxo(txid: Option<nat>, vout: nat, amount: u64)
  datatype TxOut = TxOut(value: u64, address: Address)
  datatype TxIn = TxIn(txid: nat, vout: nat, witnessUtxo: Option<TxOut>)
  datatype Psbt = Psbt(inputs: seq<TxIn>, outputs: seq<TxOut>)

  /** The three parties; None is an address that does not parse or is on another network. */
  datatype Parties = Parties(stealth: Option<Address>, seller: Option<Address>, fee: Option<Address>)

  function Total(utxos: seq<Utxo>): nat {
    if utxos == [] then 0 else Total(utxos[..|utxos| - 1]) + utxos[|utxos| - 1].amount
  }

  function SellerSats(total: u64, feePercent: u64): u64 {
    Wrap(total * Wrap(100 - feePercent)) / 100
  }

  function FeeSats(total: u64, feePercent: u64): u64 {
    Wrap(total - SellerSats(total, feePercent))
  }

  /** Every output spent is named in order, with its amount and the stealth script as witness data. */
  ghost predicate SpendsAll(p: Psbt, utxos: seq<Utxo>, stealth: Address) {
    && |p.inputs| == |utxos|
    && forall i :: 0 <= i < |utxos| ==>
         utxos[i].txid.Some? &&
         p.inputs[i] == TxIn(utxos[i].txid.value, utxos[i].vout, Some(TxOut(utxos[i].amount, stealth)))
  }

  method BuildMultiUtxoSettlement(utxos: seq<Utxo>, parties: Parties, feePercent: u64) returns (r: Option<Psbt>)
    ensures r.Some? <==>
      && utxos != [] && parties.stealth.Some? && parties.seller.Some? && parties.fee.Some?
      && forall i :: 0 <= i < |utxos| ==> utxos[i].txid.Some?
    ensures r.Some? ==>
      && SpendsAll(r.value, utxos, parties.stealth.value)
      && var total := Wrap(Total(utxos));
         r.value.outputs == [TxOut(SellerSats(total, feePercent), parties.seller.value),
                             TxOut(FeeSats(total, feePercent), parties.fee.value)]
  {
    if utxos == [] { return None; }
    if parties.stealth.None? || parties.seller.None? || parties.fee.None? { return None; }
    var total: u64 := 0;
    for i := 0 to |utxos|
      invariant total == Wrap(Total(utxos[..i]))
    {
      assert utxos[..i + 1][..i] == utxos[..i];
      total := Wrap(total + utxos[i].amount);
    }
    assert utxos[..|utxos|] == utxos;
    var sellerSats := Wrap(total * Wrap(100 - feePercent)) / 100;
    var feeSats := Wrap(total - sellerSats);
    var inputs: seq<TxIn> := [];
    for i := 0 to |utxos|
      invariant |inputs| == i
      invariant forall k :: 0 <= k < i ==> utxos[k].txid.Some? && inputs[k] == TxIn(utxos[k].txid.value, utxos[k].vout, None)
    {
      if utxos[i].txid.None? { return None; }
      inputs := inputs + [TxIn(utxos[i].txid.value, utxos[i].vout, None)];
    }
    for i := 0 to |utxos|
      invariant |inputs| == |utxos|
      invariant forall k :: 0 <= k < i ==>
        inputs[k] == TxIn(utxos[k].txid.value, utxos[k].vout, Some(TxOut(utxos[k].amount, parties.stealth.value)))
      invariant forall k :: i <= k < |utxos| ==> inputs[k] == TxIn(utxos[k].txid.value, utxos[k].vout, None)
    {
      inputs := inputs[i := inputs[i].(witnessUtxo := Some(TxOut(utxos[i].amount, parties.stealth.value)))];
    }
    r := Some(Psbt(inputs, [TxOut(sellerSats, parties.seller.value), TxOut(feeSats, parties.fee.value)]));
  }

  // ----- The split -----

  lemma WrapSmall(x: int)
    requires 0 <= x < U64
    ensures Wrap(x) == x
  {}

  /** The wrapped product never exceeds the product, so the seller never gets more than the total. */
  lemma SellerWithinTotal(total: u64, fee: u64)
    requires fee <= 100
    ensures SellerSats(total, fee) <= total
    ensures SellerSats(total, fee) + FeeSats(total, fee) == total
  {
    var product := total * (100 - fee);
    assert 0 <= product <= total * 100;
    WrapAtMost(product);
    WrapSmall(100 - fee);
    WrapSmall(total - SellerSats(total, fee));
  }

  lemma WrapAtMost(x: int)
    requires x >= 0
    ensures 0 <= Wrap(x) <= x
    ensures Wrap(x) == x || Wrap(x) <= x - U64
  {}

  /** What goes out is what came in exactly when the input amounts sum within 64 bits. */
  lemma ConservesIff(utxos: seq<Utxo>, fee: u64)
    requires fee <= 100
    ensures var t := Wrap(Total(utxos));
            SellerSats(t, fee) + FeeSats(t, fee) == Total(utxos) <==> Total(utxos) < U64
  {
    SellerWithinTotal(Wrap(Total(utxos)), fee);
    WrapAtMost(Total(utxos));
  }

  function CeilDiv(a: nat, b: nat): nat
    requires b > 0
  {
    (a + b - 1) / b
  }

  lemma SellerOfProduct(total: u64, fee: u64)
    requires fee <= 100
    ensures SellerSats(total, fee) == Wrap(total * (100 - fee)) / 100
  {
    WrapSmall(100 - fee);
  }

  lemma Parts(total: nat, fee: nat)
    requires fee <= 100
    ensures total * (100 - fee) + total * fee == 100 * total && total * (100 - fee) >= 0 && total * fee >= 0
  {}

  /** The fee is the exact percentage rounded up, and the seller's share the rest rounded down, exactly when
      the product with the seller's percentage fits 64 bits. */
  lemma ExactSplitIff(total: u64, fee: u64)
    requires fee <= 100
    ensures (SellerSats(total, fee) == total * (100 - fee) / 100 && FeeSats(total, fee) == CeilDiv(total * fee, 100))
            <==> total * (100 - fee) < U64
  {
    SellerWithinTotal(total, fee);
    SellerOfProduct(total, fee);
    Parts(total, fee);
    SplitIff(total, total * (100 - fee), total * fee, SellerSats(total, fee), FeeSats(total, fee));
  }

  lemma SplitIff(total: nat, product: nat, share: nat, seller: int, rest: int)
    requires product + share == 100 * total && seller == Wrap(product) / 100 && seller + rest == total
    ensures seller == product / 100 && rest == CeilDiv(share, 100) <==> product < U64
  {
    RoundedParts(total, product, share, Wrap(product));
  }

  lemma RoundedParts(total: nat, product: nat, share: nat, w: nat)
    requires product + share == 100 * total && w == Wrap(product)
    ensures product / 100 + CeilDiv(share, 100) == total
    ensures w / 100 == product / 100 <==> product < U64
  {
    WrapAtMost(product);
  }

  /** The seller's share of an amount, without wrap-around. */
  function Share(amount: nat, fee: u64): nat
    requires fee <= 100
  {
    amount * (100 - fee) / 100
  }

  function SumOfShares(utxos: seq<Utxo>, fee: u64): nat
    requires fee <= 100
  {
    if utxos == [] then 0 else SumOfShares(utxos[..|utxos| - 1], fee) + Share(utxos[|utxos| - 1].amount, fee)
  }

  lemma ShareSum(a: nat, b: nat, fee: u64)
    requires fee <= 100
    ensures Share(a, fee) + Share(b, fee) <= Share(a + b, fee) <= Share(a, fee) + Share(b, fee) + 1
  {
    assert (a + b) * (100 - fee) == a * (100 - fee) + b * (100 - fee);
  }

  lemma {:induction false} BatchedShare(utxos: seq<Utxo>, fee: u64)
    requires fee <= 100
    ensures SumOfShares(utxos, fee) <= Share(Total(utxos), fee)
    ensures utxos != [] ==> Share(Total(utxos), fee) < SumOfShares(utxos, fee) + |utxos|
  {
    if utxos != [] {
      BatchedShare(utxos[..|utxos| - 1], fee);
      ShareSum(Total(utxos[..|utxos| - 1]), utxos[|utxos| - 1].amount, fee);
      if |utxos| == 1 { assert Total(utxos[..0]) == 0; }
    }
  }

  /** Settling k outputs in one transaction pays the seller at least what k separate settlements would, and
      less than k satoshis more. */
  lemma BatchingFavoursSeller(utxos: seq<Utxo>, fee: u64)
    requires fee <= 100 && utxos != [] && Total(utxos) * (100 - fee) < U64 && Total(utxos) < U64
    ensures SumOfShares(utxos, fee) <= SellerSats(Total(utxos), fee) < SumOfShares(utxos, fee) + |utxos|
    ensures forall i :: 0 <= i < |utxos| ==> SellerSats(utxos[i].amount, fee) == Share(utxos[i].amount, fee)
  {
    BatchedShare(utxos, fee);
    ExactShare(Total(utxos), fee);
    forall i | 0 <= i < |utxos| ensures SellerSats(utxos[i].amount, fee) == Share(utxos[i].amount, fee) {
      PartOfTotal(utxos, i);
      SmallerShareIsExact(utxos[i].amount, Total(utxos), fee);
    }
  }

  lemma SmallerShareIsExact(amount: u64, total: nat, fee: u64)
    requires fee <= 100 && amount <= total && total * (100 - fee) < U64
    ensures SellerSats(amount, fee) == Share(amount, fee)
  {
    Monotone(amount, total, 100 - fee);
    ExactShare(amount, fee);
  }

  lemma Monotone(a: nat, b: nat, c: nat)
    requires a <= b
    ensures a * c <= b * c
  {
    assert b * c == a * c + (b - a) * c;
  }

  lemma ExactShare(amount: u64, fee: u64)
    requires fee <= 100 && amount * (100 - fee) < U64
    ensures SellerSats(amount, fee) == Share(amount, fee)
  {
    WrapSmall(100 - fee);
    WrapSmall(amount * (100 - fee));
  }

  lemma {:induction false} PartOfTotal(utxos: seq<Utxo>, i: nat)
    requires i < |utxos|
    ensures utxos[i].amount <= Total(utxos)
  {
    if i < |utxos| - 1 { PartOfTotal(utxos[..|utxos| - 1], i); }
  }
}
