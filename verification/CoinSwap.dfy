/** The chain of self-transfers that moves one output through fresh keys to a final address
    (src/services/payments/coinswap.rs). */
module CoinSwap {
  import opened Options

  const DUST_SATS := 546

  type Key = nat
  type PublicKey = nat
  type Address = nat
  type Txid = nat

  datatype Config = Config(hopCount: nat, feeSatsPerHop: nat)

  datatype Outpoint = Outpoint(txid: Txid, vout: nat)
  datatype TxOut = TxOut(value: nat, address: Address)

  /** A signed transaction: one input with the output it claims to spend, one output, the signing key. */
  datatype Tx = Tx(input: Outpoint, spends: TxOut, output: TxOut, signer: Key)

  /** Key derivation, address checks and the node. */
  datatype Env = Env(
    hopKey: nat -> Option<Key>,
    publicKey: Key -> PublicKey,
    p2wpkh: PublicKey -> Address,
    onNetwork: Address -> bool,
    isP2wpkh: Address -> bool,
    parsesAsTxid: Txid -> bool,
    broadcast: Tx -> Option<Txid>)

  function SaturatingSub(a: nat, b: nat): nat {
    if a >= b then a - b else 0
  }

  /** build_self_transfer_psbt: the unsigned transaction, or None for a bad txid, address or dust output. */
  function BuildSelfTransfer(env: Env, input: Outpoint, spends: TxOut, next: Address, fee: nat, signer: Key): Option<Tx> {
    if !env.parsesAsTxid(input.txid) || !env.onNetwork(next) || !env.onNetwork(spends.address) then None
    else
      var outputValue := SaturatingSub(spends.value, fee);
      if outputValue < DUST_SATS then None
      else Some(Tx(input, spends, TxOut(outputValue, next), signer))
  }

  /** sign_stealth_input: the key must match and the spent script must be P2WPKH. */
  predicate MaySign(env: Env, tx: Tx, sk: Key, pk: PublicKey) {
    env.publicKey(sk) == pk && env.isP2wpkh(tx.spends.address)
  }

  /** The key that signs hop k and the address hop k pays to. */
  function SignerOf(env: Env, sk: Key, k: nat): Option<Key> {
    if k == 0 then Some(sk) else env.hopKey(k - 1)
  }

  function PayeeOf(env: Env, cfg: Config, final: Address, k: nat): Option<Address> {
    if k + 1 == cfg.hopCount then Some(final)
    else
      match env.hopKey(k)
      case None => None
      case Some(key) => Some(env.p2wpkh(env.publicKey(key)))
  }

  datatype Start = Start(outpoint: Outpoint, out: TxOut, sk: Key, pk: PublicKey, final: Address)

  /** Hop k of a chain: it spends the previous hop's only output, pays the fee, and is signed by the key
      that output belongs to, all addresses being on the network and what is spent a key's own output. */
  ghost predicate HopCorrect(env: Env, cfg: Config, s: Start, txs: seq<Tx>, k: nat)
    requires k < |txs|
  {
    var tx := txs[k];
    && tx.output.value == s.out.value - (k + 1) * cfg.feeSatsPerHop && tx.output.value >= 546
    && PayeeOf(env, cfg, s.final, k) == Some(tx.output.address)
    && SignerOf(env, s.sk, k) == Some(tx.signer)
    && env.broadcast(tx).Some? && env.hopKey(k).Some? && env.parsesAsTxid(tx.input.txid)
    && env.onNetwork(tx.spends.address) && env.onNetwork(tx.output.address) && env.isP2wpkh(tx.spends.address)
    && (k == 0 ==> env.publicKey(s.sk) == s.pk)
    && if k == 0 then tx.input == s.outpoint && tx.spends == s.out
       else
         && env.broadcast(txs[k - 1]).Some?
         && tx.input == Outpoint(env.broadcast(txs[k - 1]).value, 0)
         && tx.spends == txs[k - 1].output
         && tx.spends.address == env.p2wpkh(env.publicKey(tx.signer))
  }

  ghost predicate ChainCorrect(env: Env, cfg: Config, s: Start, txs: seq<Tx>) {
    |txs| <= cfg.hopCount && forall k :: 0 <= k < |txs| ==> HopCorrect(env, cfg, s, txs, k)
  }

  /** Everything outside the amounts goes well. */
  ghost predicate Cooperative(env: Env, cfg: Config, s: Start) {
    && (forall k :: 0 <= k < cfg.hopCount ==> env.hopKey(k).Some?)
    && (forall p :: env.onNetwork(env.p2wpkh(p)) && env.isP2wpkh(env.p2wpkh(p)))
    && env.onNetwork(s.final) && env.onNetwork(s.out.address) && env.isP2wpkh(s.out.address)
    && env.publicKey(s.sk) == s.pk && env.parsesAsTxid(s.outpoint.txid)
    && (forall tx :: env.broadcast(tx).Some? && env.parsesAsTxid(env.broadcast(tx).value))
  }

  ghost predicate TxidsOf(env: Env, txs: seq<Tx>, txids: seq<Txid>) {
    |txids| == |txs| && forall k :: 0 <= k < |txs| ==> env.broadcast(txs[k]) == Some(txids[k])
  }

  /** Runs the chain; `txs` are the transactions the node accepted, also when a later hop fails. */
  method RunCoinswapChain(env: Env, s: Start, cfg: Config) returns (r: Option<seq<Txid>>, txs: seq<Tx>)
    ensures ChainCorrect(env, cfg, s, txs)
    ensures r.Some? <==> |txs| == cfg.hopCount
    ensures r.Some? ==> TxidsOf(env, txs, r.value)
    ensures Cooperative(env, cfg, s) && cfg.hopCount > 0 ==>
              (r.Some? <==> s.out.value - cfg.hopCount * cfg.feeSatsPerHop >= 546)
  {
    var fee := cfg.feeSatsPerHop;
    var txids: seq<Txid> := [];
    txs := [];
    var prev := s.outpoint;
    var held := s.out;
    var currentSk, currentPk := s.sk, s.pk;
    var hop := 0;
    while hop < cfg.hopCount
      invariant hop == |txs| <= cfg.hopCount && TxidsOf(env, txs, txids)
      invariant ChainCorrect(env, cfg, s, txs)
      invariant held.value == s.out.value - hop * fee
      invariant prev == (if hop == 0 then s.outpoint else Outpoint(txids[hop - 1], 0))
      invariant hop < cfg.hopCount ==> SignerOf(env, s.sk, hop) == Some(currentSk)
      invariant held == (if hop == 0 then s.out else txs[hop - 1].output)
      invariant 0 < hop < cfg.hopCount ==> held.address == env.p2wpkh(currentPk) && currentPk == env.publicKey(currentSk)
      invariant hop == 0 ==> currentPk == s.pk && currentSk == s.sk
    {
      FeesLeft(s.out.value, fee, hop, cfg.hopCount);
      var derived := env.hopKey(hop);
      if derived.None? { return None, txs; }
      var isLast := hop == cfg.hopCount - 1;
      if isLast && !env.onNetwork(s.final) { return None, txs; }
      var nextAddress := if isLast then s.final else env.p2wpkh(env.publicKey(derived.value));
      var built := BuildSelfTransfer(env, prev, held, nextAddress, fee, currentSk);
      if built.None? { return None, txs; }
      if !MaySign(env, built.value, currentSk, currentPk) { return None, txs; }
      var sent := env.broadcast(built.value);
      if sent.None? { return None, txs; }
      ghost var before := txs;
      txids := txids + [sent.value];
      txs := txs + [built.value];
      assert HopCorrect(env, cfg, s, txs, hop);
      assert forall k :: 0 <= k < hop ==> HopCorrect(env, cfg, s, before, k) ==> HopCorrect(env, cfg, s, txs, k);
      prev := Outpoint(sent.value, 0);
      held := built.value.output;
      if !isLast {
        currentSk := derived.value;
        currentPk := env.publicKey(currentSk);
      }
      hop := hop + 1;
    }
    assert cfg.hopCount > 0 ==> HopCorrect(env, cfg, s, txs, cfg.hopCount - 1);
    r := Some(txids);
  }

  lemma FeesLeft(value: int, fee: nat, hop: nat, hops: nat)
    requires hop < hops
    ensures value - hop * fee - fee == value - (hop + 1) * fee >= value - hops * fee
  {
    var rest := hops - hop - 1;
    assert rest * fee >= 0;
    assert hops * fee == (hop + 1) * fee + rest * fee;
  }

  // ----- The ledger the accepted transactions leave -----

  /** The unspent outputs of the chain after k accepted hops; None if a hop spends what is not there. */
  function LedgerAfter(env: Env, s: Start, txs: seq<Tx>, k: nat): Option<map<Outpoint, TxOut>>
    requires k <= |txs|
  {
    if k == 0 then Some(map[s.outpoint := s.out])
    else
      var tx := txs[k - 1];
      match LedgerAfter(env, s, txs, k - 1)
      case None => None
      case Some(l) =>
        if tx.input !in l || l[tx.input] != tx.spends || env.broadcast(tx).None? then None
        else Some((l - {tx.input})[Outpoint(env.broadcast(tx).value, 0) := tx.output])
  }

  /** After k hops exactly one output is live, worth the initial amount less k fees, at the address of the
      key that signs next, or at the final address when the chain is complete. */
  lemma {:induction false} OneLiveOutput(env: Env, cfg: Config, s: Start, txs: seq<Tx>, k: nat)
    requires ChainCorrect(env, cfg, s, txs) && 0 < k <= |txs|
    ensures env.broadcast(txs[k - 1]).Some?
    ensures LedgerAfter(env, s, txs, k) == Some(map[Outpoint(env.broadcast(txs[k - 1]).value, 0) := txs[k - 1].output])
    ensures txs[k - 1].output.value == s.out.value - k * cfg.feeSatsPerHop
    ensures k == cfg.hopCount ==> txs[k - 1].output.address == s.final
    ensures k < cfg.hopCount ==>
              SignerOf(env, s.sk, k).Some? && txs[k - 1].output.address == env.p2wpkh(env.publicKey(SignerOf(env, s.sk, k).value))
  {
    assert HopCorrect(env, cfg, s, txs, k - 1);
    var tx := txs[k - 1];
    if k == 1 {
      assert map[s.outpoint := s.out] - {tx.input} == map[];
    } else {
      OneLiveOutput(env, cfg, s, txs, k - 1);
      var l := map[tx.input := tx.spends];
      assert l - {tx.input} == map[];
    }
  }
}
