/** The order lifecycle and its time locks (src/db/models.rs, src/background/time_lock.rs and the status
    changes of src/background/payment_poller.rs), with the saturating 64-bit arithmetic written out. */
module TimeLock {
  import opened Options

  const I64_MAX := 0x7FFF_FFFF_FFFF_FFFF
  const I64_MIN := -0x8000_0000_0000_0000

  type i64 = x: int | -0x8000_0000_0000_0000 <= x <= 0x7FFF_FFFF_FFFF_FFFF

  function Saturate(x: int): i64 {
    if x > I64_MAX then I64_MAX else if x < I64_MIN then I64_MIN else x
  }

  /** floor_timestamp_6h: integer division truncates toward zero. */
  function Floor6h(ts: i64): i64 {
    var t: int := ts;
    if t >= 0 then t / 21600 * 21600 else -((-t) / 21600 * 21600)
  }

  type OrderId = nat

  datatype DisputeData = DisputeData(
    reason: string, resolution: Option<string>, resolvedBy: Option<string>, resolvedAt: Option<i64>, createdAt: i64)

  datatype OrderData = OrderData(
    state: string, timeLockSeconds: i64, createdAt: i64,
    fundedAt: Option<i64>, shippedAt: Option<i64>, releasedAt: Option<i64>, refundedAt: Option<i64>,
    expiresAt: Option<i64>, disputedAt: Option<i64>, dispute: Option<DisputeData>, settlementTxid: Option<string>, escrowAddress: Option<string>,
    buyerPubkey: Option<string>)

  function StateTransitions(state: string): seq<string> {
    if state == "pending" then ["cancelled", "funded"]
    else if state == "funded" then ["shipped", "disputed"]
    else if state == "shipped" then ["confirmed", "disputed"]
    else if state == "confirmed" then ["released"]
    else if state == "disputed" then ["released", "refunded"]
    else []
  }

  predicate CanTransitionTo(state: string, next: string) {
    next in StateTransitions(state)
  }

  predicate HasActiveDispute(d: OrderData) {
    d.dispute.Some? && d.dispute.value.resolvedAt.None?
  }

  // ----- What each handler writes; None when it writes nothing -----

  function ShippedUpdate(d: OrderData, now: i64): Option<OrderData> {
    if HasActiveDispute(d) || !CanTransitionTo(d.state, "released") then None
    else if now >= Saturate(d.shippedAt.UnwrapOr(d.createdAt) + d.timeLockSeconds)
    then Some(d.(state := "released", releasedAt := Some(now)))
    else None
  }

  function AbandonTime(d: OrderData): i64 {
    Saturate(d.fundedAt.UnwrapOr(d.createdAt) + Saturate(d.timeLockSeconds * 2))
  }

  function FundedUpdate(d: OrderData, now: i64): Option<OrderData> {
    if HasActiveDispute(d) || !CanTransitionTo(d.state, "disputed") || now < AbandonTime(d) then None
    else
      Some(d.(state := "disputed", disputedAt := Some(now), expiresAt := Some(Saturate(now + d.timeLockSeconds)),
              dispute := Some(DisputeData("Auto-dispute: seller timeout after 2x time lock", None, None, None, now))))
  }

  function DisputedUpdate(d: OrderData, now: i64): Option<OrderData> {
    if !CanTransitionTo(d.state, "refunded") || now < d.expiresAt.UnwrapOr(Saturate(d.createdAt + d.timeLockSeconds)) then None
    else
      var dispute := if HasActiveDispute(d)
        then Some(d.dispute.value.(resolution := Some("refund"), resolvedBy := Some("auto_system"), resolvedAt := Some(now)))
        else d.dispute;
      Some(d.(dispute := dispute, state := "refunded", refundedAt := Some(now)))
  }

  function TimeLockUpdate(d: OrderData, now: i64): Option<OrderData> {
    if d.state == "shipped" then ShippedUpdate(d, now)
    else if d.state == "funded" then FundedUpdate(d, now)
    else if d.state == "disputed" then DisputedUpdate(d, now)
    else None
  }

  // ----- The handlers spelled out -----

  /** The transition table. */
  lemma TransitionTable(state: string, next: string)
    ensures CanTransitionTo(state, next) <==>
      || (state == "pending" && next in {"cancelled", "funded"})
      || (state == "funded" && next in {"shipped", "disputed"})
      || (state == "shipped" && next in {"confirmed", "disputed"})
      || (state == "confirmed" && next == "released")
      || (state == "disputed" && next in {"released", "refunded"})
  {
    TwoOf("cancelled", "funded", next);
    TwoOf("shipped", "disputed", next);
    TwoOf("confirmed", "disputed", next);
    TwoOf("released", "refunded", next);
    assert StateTransitions("confirmed") == ["released"];
  }

  lemma TwoOf(a: string, b: string, x: string)
    ensures x in [a, b] <==> x == a || x == b
  {}

  /** Sums and products beyond 64 bits stop at the nearest bound. */
  lemma SaturateIsNearest(x: int)
    ensures -0x8000_0000_0000_0000 <= x <= 0x7FFF_FFFF_FFFF_FFFF ==> Saturate(x) == x
    ensures x > 0x7FFF_FFFF_FFFF_FFFF ==> Saturate(x) == 0x7FFF_FFFF_FFFF_FFFF
    ensures x < -0x8000_0000_0000_0000 ==> Saturate(x) == -0x8000_0000_0000_0000
  {}

  predicate UnresolvedDispute(d: OrderData) {
    d.dispute.Some? && d.dispute.value.resolvedAt == None
  }

  /** A funded order is put in dispute exactly from two locks after its funding, or its creation when no funding
      time is known, while no dispute is open. The dispute is new and unresolved, its deadline is one lock on,
      and every other field stays. */
  lemma AutoDispute(d: OrderData, now: i64)
    requires d.state == "funded"
    ensures var start := if d.fundedAt.Some? then d.fundedAt.value else d.createdAt;
            TimeLockUpdate(d, now) ==
            if UnresolvedDispute(d) || now < Saturate(start + Saturate(2 * d.timeLockSeconds)) then None
            else Some(d.(
              state := "disputed", disputedAt := Some(now), expiresAt := Some(Saturate(now + d.timeLockSeconds)),
              dispute := Some(DisputeData("Auto-dispute: seller timeout after 2x time lock", None, None, None, now))))
  {
    TransitionTable("funded", "disputed");
  }

  /** A disputed order is refunded exactly from its deadline, or one lock after creation when it has none. An
      open dispute is resolved as a refund by the system; every other field stays. */
  lemma AutoRefund(d: OrderData, now: i64)
    requires d.state == "disputed"
    ensures var deadline := if d.expiresAt.Some? then d.expiresAt.value else Saturate(d.createdAt + d.timeLockSeconds);
            TimeLockUpdate(d, now) ==
            if now < deadline then None
            else if UnresolvedDispute(d) then
              Some(d.(state := "refunded", refundedAt := Some(now),
                      dispute := Some(d.dispute.value.(
                        resolution := Some("refund"), resolvedBy := Some("auto_system"), resolvedAt := Some(now)))))
            else Some(d.(state := "refunded", refundedAt := Some(now)))
  {
    TransitionTable("disputed", "refunded");
  }

  /** Orders in any other status are left alone by a pass. */
  lemma OthersAreLeftAlone(d: OrderData, now: i64)
    requires d.state != "funded" && d.state != "disputed"
    ensures TimeLockUpdate(d, now) == None
  {
    TransitionTable(d.state, "released");
  }

  // ----- The store and the scan -----

  /** A blob the worker can decrypt under the row's id, or any other bytes. */
  datatype Blob = WorkerBlob(id: OrderId, data: OrderData) | Opaque

  datatype Row = Row(blob: Blob, expiryBucket: Option<i64>, version: nat)

  type Rows = map<OrderId, Row>

  datatype Selected = Selected(id: OrderId, row: Row)

  function Decrypt(b: Blob, id: OrderId): Option<OrderData> {
    if b.WorkerBlob? && b.id == id then Some(b.data) else None
  }

  function ExpiryBucket(d: OrderData): Option<i64> {
    if d.expiresAt.None? then None else Some(Floor6h(d.expiresAt.value))
  }

  /** A bucket is the expiry rounded to six hours toward 1970, and missing when there is none. */
  ghost predicate FlooredBucket(bucket: Option<i64>, expiry: Option<i64>) {
    && (bucket.None? <==> expiry.None?)
    && (expiry.Some? ==>
          && bucket.value % 21600 == 0
          && (expiry.value >= 0 ==> bucket.value <= expiry.value < bucket.value + 21600)
          && (expiry.value < 0 ==> bucket.value - 21600 < expiry.value <= bucket.value))
  }

  lemma ExpiryBucketFloors(d: OrderData)
    ensures FlooredBucket(ExpiryBucket(d), d.expiresAt)
  {}

  /** What the worker would write for a selected row. */
  function Due(s: Selected, now: i64): Option<OrderData> {
    match Decrypt(s.row.blob, s.id)
    case None => None
    case Some(d) => TimeLockUpdate(d, now)
  }

  function Rewritten(row: Row, id: OrderId, d: OrderData): Row {
    Row(WorkerBlob(id, d), ExpiryBucket(d), row.version + 1)
  }

  /** A rewritten row reads as the data written, one version on, with the floored expiry as its bucket. */
  lemma RewrittenIs(row: Row, id: OrderId, d: OrderData)
    ensures var r := Rewritten(row, id, d);
            Decrypt(r.blob, id) == Some(d) && r.version == row.version + 1 && FlooredBucket(r.expiryBucket, d.expiresAt)
  {
    ExpiryBucketFloors(d);
  }

  /** The scan over the selected rows; it stops at the first write that finds a newer version. */
  function Scan(rows: Rows, selected: seq<Selected>, now: i64): (Rows, bool) {
    if selected == [] then (rows, true)
    else
      var s := selected[0];
      match Due(s, now)
      case None => Scan(rows, selected[1..], now)
      case Some(d) =>
        if s.id !in rows || rows[s.id].version != s.row.version then (rows, false)
        else Scan(rows[s.id := Rewritten(rows[s.id], s.id, d)], selected[1..], now)
  }

  /** The row a payment or settlement step leaves; a cancellation alone keeps the expiry bucket. */
  function Stepped(row: Row, id: OrderId, d: OrderData, step: WorkerStep): Row {
    var e := StepOrder(d, step);
    Row(WorkerBlob(id, e), if step.PaymentExpired? then row.expiryBucket else ExpiryBucket(e), row.version + 1)
  }

  class OrderStore {
    var rows: Rows

    constructor (initial: Rows)
      ensures rows == initial
    {
      rows := initial;
    }

    /** UPDATE guarded by the version that was read; false when it affects no row. */
    method WriteOrder(id: OrderId, d: OrderData, version: nat) returns (ok: bool)
      modifies this
      ensures ok <==> id in old(rows) && old(rows)[id].version == version
      ensures rows == if ok then old(rows)[id := Rewritten(old(rows)[id], id, d)] else old(rows)
      ensures ok ==> Stored(old(rows), id, d) && FlooredBucket(rows[id].expiryBucket, d.expiresAt)
    {
      ExpiryBucketFloors(d);
      if id !in rows || rows[id].version != version { return false; }
      rows := rows[id := Row(WorkerBlob(id, d), ExpiryBucket(d), rows[id].version + 1)];
      return true;
    }

    /** A handler leaves the row alone or writes its update. */
    ghost predicate Handled(was: Rows, id: OrderId, update: Option<OrderData>, version: nat, ok: bool)
      reads this
    {
      if update.None? then ok && rows == was
      else
        && (ok <==> id in was && was[id].version == version)
        && rows == if ok then was[id := Rewritten(was[id], id, update.value)] else was
    }

    method HandleShipped(id: OrderId, data: OrderData, now: i64, version: nat) returns (ok: bool)
      modifies this
      ensures Handled(old(rows), id, ShippedUpdate(data, now), version, ok)
    {
      if HasActiveDispute(data) { return true; }
      if !CanTransitionTo(data.state, "released") { return true; }
      var shippedAt := data.shippedAt.UnwrapOr(data.createdAt);
      var releaseTime := Saturate(shippedAt + data.timeLockSeconds);
      if now >= releaseTime {
        var d := data.(state := "released");
        d := d.(releasedAt := Some(now));
        ok := WriteOrder(id, d, version);
        return;
      }
      return true;
    }

    method HandleFunded(id: OrderId, data: OrderData, now: i64, version: nat) returns (ok: bool)
      modifies this
      ensures Handled(old(rows), id, FundedUpdate(data, now), version, ok)
    {
      if HasActiveDispute(data) { return true; }
      if !CanTransitionTo(data.state, "disputed") { return true; }
      var fundedAt: int := data.fundedAt.UnwrapOr(data.createdAt);
      var shipWindow: int := Saturate(data.timeLockSeconds * 2);
      var abandonTime := Saturate(fundedAt + shipWindow);
      if now >= abandonTime {
        var d := data.(state := "disputed");
        d := d.(disputedAt := Some(now));
        d := d.(expiresAt := Some(Saturate(now + data.timeLockSeconds)));
        d := d.(dispute := Some(DisputeData("Auto-dispute: seller timeout after 2x time lock", None, None, None, now)));
        ok := WriteOrder(id, d, version);
        return;
      }
      return true;
    }

    method HandleDisputed(id: OrderId, data: OrderData, now: i64, version: nat) returns (ok: bool)
      modifies this
      ensures Handled(old(rows), id, DisputedUpdate(data, now), version, ok)
    {
      if !CanTransitionTo(data.state, "refunded") { return true; }
      var expiresAt := data.expiresAt.UnwrapOr(Saturate(data.createdAt + data.timeLockSeconds));
      if now >= expiresAt {
        var d := data;
        if d.dispute.Some? && d.dispute.value.resolvedAt.None? {
          d := d.(dispute := Some(d.dispute.value.(resolution := Some("refund"))));
          d := d.(dispute := Some(d.dispute.value.(resolvedBy := Some("auto_system"))));
          d := d.(dispute := Some(d.dispute.value.(resolvedAt := Some(now))));
        }
        d := d.(state := "refunded");
        d := d.(refundedAt := Some(now));
        ok := WriteOrder(id, d, version);
        return;
      }
      return true;
    }

    /** The step took effect on the row that was read, or nothing changed. */
    ghost predicate Took(was: Rows, s: Selected, step: WorkerStep, ok: bool)
      reads this
    {
      if ok then
        && Decrypt(s.row.blob, s.id).Some? && !Overtaken(was, s)
        && rows == was[s.id := Stepped(was[s.id], s.id, Decrypt(s.row.blob, s.id).value, step)]
      else rows == was
    }

    /** The row now holds this data, one version on, and no other row changed. */
    ghost predicate Stored(was: Rows, id: OrderId, d: OrderData)
      reads this
    {
      && id in was && id in rows && rows == was[id := rows[id]]
      && Decrypt(rows[id].blob, id) == Some(d) && rows[id].version == was[id].version + 1
    }

    method MarkOrderFunded(s: Selected, now: i64) returns (ok: bool)
      modifies this
      ensures Took(old(rows), s, PaymentConfirmed(now), ok)
      ensures ok <==>
        && s.row.blob.WorkerBlob? && s.row.blob.id == s.id && s.row.blob.data.state == "pending"
        && s.id in old(rows) && old(rows)[s.id].version == s.row.version
      ensures ok ==>
        && Stored(old(rows), s.id, s.row.blob.data.(state := "funded", fundedAt := Some(now)))
        && FlooredBucket(rows[s.id].expiryBucket, s.row.blob.data.expiresAt)
      ensures !ok ==> rows == old(rows)
    {
      var decrypted := Decrypt(s.row.blob, s.id);
      if decrypted.None? { return false; }
      var data := decrypted.value;
      if data.state != "pending" { return false; }
      data := data.(state := "funded");
      data := data.(fundedAt := Some(now));
      ExpiryBucketFloors(data);
      ok := WriteOrder(s.id, data, s.row.version);
    }

    method MarkOrderCancelled(s: Selected) returns (ok: bool)
      modifies this
      ensures Took(old(rows), s, PaymentExpired, ok)
      ensures ok <==>
        && s.row.blob.WorkerBlob? && s.row.blob.id == s.id && s.row.blob.data.state == "pending"
        && s.id in old(rows) && old(rows)[s.id].version == s.row.version
      ensures ok ==>
        && Stored(old(rows), s.id, s.row.blob.data.(state := "cancelled"))
        && rows[s.id].expiryBucket == old(rows)[s.id].expiryBucket
      ensures !ok ==> rows == old(rows)
    {
      var decrypted := Decrypt(s.row.blob, s.id);
      if decrypted.None? { return false; }
      var data := decrypted.value;
      if data.state != "pending" { return false; }
      data := data.(state := "cancelled");
      if s.id !in rows || rows[s.id].version != s.row.version { return false; }
      rows := rows[s.id := Row(WorkerBlob(s.id, data), rows[s.id].expiryBucket, rows[s.id].version + 1)];
      ok := true;
    }

    /** Settles a released order whose settlement is still missing; `txid` is what settling produced, if it
        succeeded. A write that finds a newer version is dropped without an error. */
    method RetrySettlement(s: Selected, txid: Option<string>) returns (written: bool)
      modifies this
      ensures txid.Some? ==> Took(old(rows), s, Settled(txid.value), written)
      ensures written <==>
        && txid.Some? && s.row.blob.WorkerBlob? && s.row.blob.id == s.id
        && s.row.blob.data.state == "released" && s.row.blob.data.settlementTxid.None?
        && s.id in old(rows) && old(rows)[s.id].version == s.row.version
      ensures written ==>
        && Stored(old(rows), s.id, s.row.blob.data.(settlementTxid := txid))
        && FlooredBucket(rows[s.id].expiryBucket, s.row.blob.data.expiresAt)
      ensures !written ==> rows == old(rows)
    {
      var decrypted := Decrypt(s.row.blob, s.id);
      if decrypted.None? { return false; }
      var data := decrypted.value;
      if data.state != "released" || data.settlementTxid.Some? { return false; }
      if txid.None? { return false; }
      data := data.(settlementTxid := txid);
      ExpiryBucketFloors(data);
      written := WriteOrder(s.id, data, s.row.version);
    }

    /** One worker pass over rows selected earlier; a conflict ends the pass. */
    method CheckTimeLocks(selected: seq<Selected>, now: i64) returns (ok: bool)
      modifies this
      ensures (rows, ok) == Scan(old(rows), selected, now)
    {
      var i := 0;
      while i < |selected|
        invariant 0 <= i <= |selected|
        invariant Scan(rows, selected[i..], now) == Scan(old(rows), selected, now)
      {
        var s := selected[i];
        assert selected[i..][1..] == selected[i + 1..];
        var decrypted := Decrypt(s.row.blob, s.id);
        if decrypted.Some? {
          var data := decrypted.value;
          ok := true;
          if data.state == "shipped" { ok := HandleShipped(s.id, data, now, s.row.version); }
          else if data.state == "funded" { ok := HandleFunded(s.id, data, now, s.row.version); }
          else if data.state == "disputed" { ok := HandleDisputed(s.id, data, now, s.row.version); }
          if !ok { return; }
        }
        i := i + 1;
      }
      ok := true;
    }
  }

  /** Each row once, in any order. */
  ghost predicate DistinctIds(selected: seq<Selected>) {
    forall i, j :: 0 <= i < j < |selected| ==> selected[i].id != selected[j].id
  }

  ghost predicate Overtaken(rows: Rows, s: Selected) {
    s.id !in rows || rows[s.id].version != s.row.version
  }

  /** A pass completes exactly when no order it wants to move was written since it was selected. */
  lemma {:induction false} ScanCompletesIff(rows: Rows, selected: seq<Selected>, now: i64)
    requires DistinctIds(selected)
    ensures Scan(rows, selected, now).1 <==>
            forall i :: 0 <= i < |selected| && Due(selected[i], now).Some? ==> !Overtaken(rows, selected[i])
  {
    if selected != [] {
      var s, rest := selected[0], selected[1..];
      assert forall i :: 0 < i < |selected| ==> selected[i] == rest[i - 1];
      var due := Due(s, now);
      if due.None? {
        ScanCompletesIff(rows, rest, now);
      } else if !Overtaken(rows, s) {
        var next := rows[s.id := Rewritten(rows[s.id], s.id, due.value)];
        ScanCompletesIff(next, rest, now);
        assert forall i :: 0 <= i < |rest| ==> Overtaken(next, rest[i]) == Overtaken(rows, rest[i]);
      }
    }
  }

  /** Whether the pass wants to move this order. */
  ghost predicate IsDue(selected: seq<Selected>, now: i64, id: OrderId) {
    exists i :: 0 <= i < |selected| && selected[i].id == id && Due(selected[i], now).Some?
  }

  /** A pass that completes moves every due order exactly one step and leaves every other row as it was. */
  lemma {:induction false} CompleteScanMovesDueOnce(rows: Rows, selected: seq<Selected>, now: i64)
    requires DistinctIds(selected) && Scan(rows, selected, now).1
    ensures var after := Scan(rows, selected, now).0;
            && after.Keys == rows.Keys
            && (forall i :: 0 <= i < |selected| && Due(selected[i], now).Some? ==>
                  var id := selected[i].id;
                  id in rows && after[id] == Rewritten(rows[id], id, Due(selected[i], now).value))
            && (forall id :: id in rows && !IsDue(selected, now, id) ==> after[id] == rows[id])
  {
    if selected != [] {
      var s, rest := selected[0], selected[1..];
      var due := Due(s, now);
      var next := if due.None? then rows else rows[s.id := Rewritten(rows[s.id], s.id, due.value)];
      CompleteScanMovesDueOnce(next, rest, now);
      assert forall i :: 0 < i < |selected| ==> selected[i] == rest[i - 1];
      forall id | IsDue(rest, now, id) ensures IsDue(selected, now, id) {
        var i :| 0 <= i < |rest| && rest[i].id == id && Due(rest[i], now).Some?;
        assert selected[i + 1] == rest[i];
      }
      if due.Some? {
        assert selected[0].id == s.id && IsDue(selected, now, s.id);
        assert !IsDue(rest, now, s.id);
      }
    }
  }

  /** The order at which a pass gives up. */
  ghost predicate FirstConflict(rows: Rows, selected: seq<Selected>, now: i64, c: int) {
    && 0 <= c < |selected| && Due(selected[c], now).Some? && Overtaken(rows, selected[c])
    && forall i :: 0 <= i < c && Due(selected[i], now).Some? ==> !Overtaken(rows, selected[i])
  }

  lemma {:induction false} ScanUpTo(rows: Rows, selected: seq<Selected>, now: i64, c: int)
    requires DistinctIds(selected) && FirstConflict(rows, selected, now, c)
    ensures Scan(rows, selected, now) == (Scan(rows, selected[..c], now).0, false)
  {
    var s, rest := selected[0], selected[1..];
    if c > 0 {
      var due := Due(s, now);
      var next := if due.None? then rows else rows[s.id := Rewritten(rows[s.id], s.id, due.value)];
      assert forall i :: 0 <= i < |rest| ==> rest[i] == selected[i + 1];
      assert forall i :: 0 <= i < |rest| ==> Overtaken(next, rest[i]) == Overtaken(rows, rest[i]);
      assert selected[..c][1..] == rest[..c - 1] && selected[..c][0] == s;
      ScanUpTo(next, rest, now, c - 1);
    }
  }

  /** A pass that is cut short leaves exactly what a completed pass over the orders before the first conflict
      leaves: those due there moved one step, the order in conflict and all later ones as they were. */
  lemma AbortedScanMovesPrefix(rows: Rows, selected: seq<Selected>, now: i64, c: int)
    requires DistinctIds(selected) && FirstConflict(rows, selected, now, c)
    ensures var (after, ok) := Scan(rows, selected, now);
            && !ok && after == Scan(rows, selected[..c], now).0 && Scan(rows, selected[..c], now).1
            && (forall i :: 0 <= i < c && Due(selected[i], now).Some? ==>
                  var id := selected[i].id;
                  id in rows && id in after && after[id] == Rewritten(rows[id], id, Due(selected[i], now).value))
            && (forall i :: c <= i < |selected| && selected[i].id in rows ==>
                  selected[i].id in after && after[selected[i].id] == rows[selected[i].id])
  {
    var prefix := selected[..c];
    ScanUpTo(rows, selected, now, c);
    ScanCompletesIff(rows, prefix, now);
    CompleteScanMovesDueOnce(rows, prefix, now);
    forall i | c <= i < |selected| && selected[i].id in rows ensures !IsDue(prefix, now, selected[i].id) {
      assert forall j :: 0 <= j < c ==> prefix[j] == selected[j];
    }
    forall i | 0 <= i < c && Due(selected[i], now).Some?
      ensures var id := selected[i].id;
              var after := Scan(rows, selected, now).0;
              id in rows && id in after && after[id] == Rewritten(rows[id], id, Due(selected[i], now).value)
    {
      assert prefix[i] == selected[i];
    }
  }

  /** The rows after the first order of a pass that does not give up there. */
  function AfterFirst(rows: Rows, s: Selected, now: i64): Rows
    requires Due(s, now).Some? ==> s.id in rows
  {
    match Due(s, now)
    case None => rows
    case Some(d) => rows[s.id := Rewritten(rows[s.id], s.id, d)]
  }

  lemma ConflictLater(rows: Rows, selected: seq<Selected>, now: i64, k: int)
    requires DistinctIds(selected) && selected != []
    requires Due(selected[0], now).Some? ==> !Overtaken(rows, selected[0])
    requires FirstConflict(AfterFirst(rows, selected[0], now), selected[1..], now, k)
    ensures FirstConflict(rows, selected, now, k + 1)
  {
    var rest, next := selected[1..], AfterFirst(rows, selected[0], now);
    assert forall i :: 0 < i < |selected| ==> selected[i] == rest[i - 1];
    assert forall i :: 0 <= i < |rest| ==> Overtaken(next, rest[i]) == Overtaken(rows, rest[i]);
  }

  /** Every pass that is cut short has a first conflict. */
  lemma {:induction false} ConflictFound(rows: Rows, selected: seq<Selected>, now: i64) returns (c: int)
    requires DistinctIds(selected) && !Scan(rows, selected, now).1
    ensures FirstConflict(rows, selected, now, c)
  {
    if Due(selected[0], now).Some? && Overtaken(rows, selected[0]) {
      c := 0;
    } else {
      c := ConflictFound(AfterFirst(rows, selected[0], now), selected[1..], now);
      ConflictLater(rows, selected, now, c);
      c := c + 1;
    }
  }

  // ----- One order over a run of worker steps -----

  /** What workers do to one order between client writes: a time-lock pass, a confirmed or expired
      payment, a settlement, an address made from a payment notification. */
  datatype WorkerStep =
    | Tick(now: i64)
    | PaymentConfirmed(now: i64)
    | PaymentExpired
    | Settled(txid: string)
    | AddressAssigned(address: string, buyerPubkey: string)

  /** What the worker writes; None when it leaves the order alone. */
  function StepUpdate(d: OrderData, step: WorkerStep): Option<OrderData> {
    match step
    case Tick(now) => TimeLockUpdate(d, now)
    case PaymentConfirmed(now) => if d.state != "pending" then None else Some(d.(state := "funded", fundedAt := Some(now)))
    case PaymentExpired => if d.state != "pending" then None else Some(d.(state := "cancelled"))
    case Settled(txid) =>
      if d.state != "released" || d.settlementTxid.Some? then None else Some(d.(settlementTxid := Some(txid)))
    case AddressAssigned(address, buyerPubkey) =>
      if d.escrowAddress.Some? then None
      else Some(d.(escrowAddress := Some(address), buyerPubkey := Some(buyerPubkey)))
  }

  function StepOrder(d: OrderData, step: WorkerStep): OrderData {
    StepUpdate(d, step).UnwrapOr(d)
  }

  /** What the payment, settlement and notification workers write, field by field. */
  lemma PaymentSteps(d: OrderData, now: i64, txid: string, address: string, buyer: string)
    ensures StepUpdate(d, PaymentConfirmed(now)) ==
            if d.state == "pending" then Some(d.(state := "funded", fundedAt := Some(now))) else None
    ensures StepUpdate(d, PaymentExpired) == if d.state == "pending" then Some(d.(state := "cancelled")) else None
    ensures StepUpdate(d, Settled(txid)) ==
            if d.state == "released" && d.settlementTxid == None then Some(d.(settlementTxid := Some(txid))) else None
    ensures StepUpdate(d, AddressAssigned(address, buyer)) ==
            if d.escrowAddress == None then Some(d.(escrowAddress := Some(address), buyerPubkey := Some(buyer))) else None
    ensures StepUpdate(d, Tick(now)) == TimeLockUpdate(d, now)
  {}

  function RunOrder(d: OrderData, steps: seq<WorkerStep>): OrderData {
    if steps == [] then d else StepOrder(RunOrder(d, steps[..|steps| - 1]), steps[|steps| - 1])
  }

  /** Every status change of a worker is an edge of the transition table. */
  lemma StepsFollowTransitions(d: OrderData, step: WorkerStep)
    ensures var e := StepOrder(d, step); e.state == d.state || CanTransitionTo(d.state, e.state)
  {
    assert StateTransitions("pending") == ["cancelled", "funded"];
    assert "cancelled" == StateTransitions("pending")[0] && "funded" == StateTransitions("pending")[1];
  }

  /** The first payment event among worker steps. */
  function FirstPayment(steps: seq<WorkerStep>): Option<WorkerStep> {
    if steps == [] then None
    else
      var before, last := FirstPayment(steps[..|steps| - 1]), steps[|steps| - 1];
      if before.Some? then before else if last.PaymentConfirmed? || last.PaymentExpired? then Some(last) else None
  }

  /** What became of a pending order after worker steps: the first payment event alone decides. */
  ghost predicate PendingFate(e: OrderData, first: Option<WorkerStep>) {
    match first
    case None => e.state == "pending"
    case Some(step) =>
      if step.PaymentExpired? then e.state == "cancelled"
      else step.PaymentConfirmed? && e.fundedAt == Some(step.now) && e.state in {"funded", "disputed", "refunded"}
  }

  lemma StepKeepsFate(e: OrderData, first: Option<WorkerStep>, step: WorkerStep)
    requires PendingFate(e, first)
    ensures PendingFate(StepOrder(e, step),
                        if first.Some? then first
                        else if step.PaymentConfirmed? || step.PaymentExpired? then Some(step) else None)
  {
    if step.Tick? {
      if e.state == "funded" { AutoDispute(e, step.now); }
      else if e.state == "disputed" { AutoRefund(e, step.now); }
      else { OthersAreLeftAlone(e, step.now); }
    }
  }

  /** Over every run of worker steps a pending order becomes funded exactly by a confirmed payment, at its time,
      and cancelled exactly by an expired one, whichever comes first; without either it stays pending. */
  lemma {:induction false} PendingOrdersFollowPayments(d: OrderData, steps: seq<WorkerStep>)
    requires d.state == "pending"
    ensures PendingFate(RunOrder(d, steps), FirstPayment(steps))
  {
    if steps != [] {
      PendingOrdersFollowPayments(d, steps[..|steps| - 1]);
      StepKeepsFate(RunOrder(d, steps[..|steps| - 1]), FirstPayment(steps[..|steps| - 1]), steps[|steps| - 1]);
    }
  }

  predicate Terminal(state: string) {
    StateTransitions(state) == []
  }

  /** A status without outgoing edges never changes. All that can still be written, each once, is a missing
      escrow address with the buyer's key, and for a released order a missing settlement. */
  lemma {:induction false} TerminalAbsorbs(d: OrderData, steps: seq<WorkerStep>)
    requires Terminal(d.state)
    ensures var e := RunOrder(d, steps);
            && e.(settlementTxid := d.settlementTxid, escrowAddress := d.escrowAddress, buyerPubkey := d.buyerPubkey) == d
            && (d.settlementTxid.Some? || d.state != "released" ==> e.settlementTxid == d.settlementTxid)
            && (d.escrowAddress.Some? || e.escrowAddress.None? ==>
                  e.escrowAddress == d.escrowAddress && e.buyerPubkey == d.buyerPubkey)
  {
    if steps != [] { TerminalAbsorbs(d, steps[..|steps| - 1]); }
  }

  /** The auto-release handler never writes: a shipped order has no edge to released. */
  lemma ShippedIsNeverReleased(d: OrderData, now: i64)
    requires d.state == "shipped"
    ensures StepOrder(d, Tick(now)) == d
  {
    assert StateTransitions("shipped") == ["confirmed", "disputed"];
    assert StateTransitions("shipped")[0][0] == 'c' && StateTransitions("shipped")[1][0] == 'd';
  }

  // ----- Time locks -----

  /** Readings the worker works with: the system clock floored to six hours. */
  predicate Floored(t: i64) {
    t % 21600 == 0
  }

  lemma ClockReadingsAreFloored(ts: i64)
    ensures Floored(Floor6h(ts)) && (ts >= 0 ==> ts - 21600 < Floor6h(ts) <= ts)
    ensures ts < 0 ==> ts <= Floor6h(ts) < ts + 21600
  {}

  ghost predicate FlooredTicks(steps: seq<WorkerStep>) {
    forall i :: 0 <= i < |steps| && steps[i].Tick? ==> Floored(steps[i].now)
  }

  /** The last reading a 64-bit clock can give; it is below the saturation value. */
  const LAST_READING := 9223372036854763200

  lemma LastReading(t: i64)
    requires Floored(t)
    ensures t <= LAST_READING < I64_MAX && Floored(LAST_READING)
  {
    assert LAST_READING == 427007964669202 * 21600;
  }

  function StartTime(d: OrderData): i64 {
    d.fundedAt.UnwrapOr(d.createdAt)
  }

  /** The status history of an order that was funded as d0 and has since been touched by workers only. */
  ghost predicate Tracked(d0: OrderData, d: OrderData) {
    if d.state == "funded" then d.(escrowAddress := d0.escrowAddress, buyerPubkey := d0.buyerPubkey) == d0
    else
      && (d.state == "disputed" || d.state == "refunded")
      && d.timeLockSeconds == d0.timeLockSeconds
      && d.disputedAt.Some? && Floored(d.disputedAt.value) && d.disputedAt.value >= AbandonTime(d0)
      && d.expiresAt == Some(Saturate(d.disputedAt.value + d.timeLockSeconds))
      && (d.state == "refunded" ==>
            && d.refundedAt.Some? && Floored(d.refundedAt.value) && d.refundedAt.value >= d.expiresAt.value
            && d.dispute.Some? && d.dispute.value.resolvedAt == Some(d.refundedAt.value))
      && (d.state == "disputed" ==> d.dispute.Some? && d.dispute.value.resolvedAt.None?)
  }

  lemma StepKeepsTracked(d0: OrderData, d: OrderData, step: WorkerStep)
    requires d0.state == "funded" && Tracked(d0, d) && (step.Tick? ==> Floored(step.now))
    ensures Tracked(d0, StepOrder(d, step))
  {}

  lemma {:induction false} RunIsTracked(d0: OrderData, steps: seq<WorkerStep>)
    requires d0.state == "funded" && FlooredTicks(steps)
    ensures Tracked(d0, RunOrder(d0, steps))
  {
    if steps != [] {
      var prefix := steps[..|steps| - 1];
      assert forall i :: 0 <= i < |prefix| ==> prefix[i] == steps[i];
      RunIsTracked(d0, prefix);
      StepKeepsTracked(d0, RunOrder(d0, prefix), steps[|steps| - 1]);
    }
  }

  /** Smallest reading not before x. */
  function NextReading(x: int): int {
    (x + 21599) / 21600 * 21600
  }

  /** When doubling the lock overflows, the saturated deadline can lie a reading or more before the real one. */
  predicate DoublingCutsShort(start: i64, lock: i64) {
    && 2 * lock > I64_MAX
    && NextReading(start + I64_MAX) < start + 2 * lock
    && NextReading(start + I64_MAX) <= LAST_READING
  }

  /** No reading reaches the abandon time before twice the lock has passed, except exactly when the
      doubled lock saturates and a reading falls into the gap. */
  lemma AbandonTimeIsExactIff(d: OrderData)
    ensures (forall now: i64 :: Floored(now) && now >= AbandonTime(d) ==> now >= StartTime(d) + 2 * d.timeLockSeconds)
            <==> !DoublingCutsShort(StartTime(d), d.timeLockSeconds)
  {
    var start: int, lock: int := StartTime(d), d.timeLockSeconds;
    if DoublingCutsShort(StartTime(d), d.timeLockSeconds) {
      EarlyReading(start);
      var now: i64 := NextReading(start + I64_MAX);
      assert Floored(now) && now >= AbandonTime(d);
    } else {
      forall now: i64 | Floored(now) && now >= AbandonTime(d) ensures now >= start + 2 * lock {
        LastReading(now);
        NextReadingIsLeast(start + I64_MAX, now);
      }
    }
  }

  lemma NextReadingIsLeast(x: int, t: int)
    requires t % 21600 == 0
    ensures NextReading(x) >= x && NextReading(x) % 21600 == 0
    ensures t >= x ==> t >= NextReading(x)
  {}

  lemma EarlyReading(start: int)
    requires I64_MIN <= start
    ensures I64_MIN <= NextReading(start + I64_MAX) && NextReading(start + I64_MAX) % 21600 == 0
    ensures NextReading(start + I64_MAX) >= start + I64_MAX
  {}

  /** Such a case exists: a funding time far before the epoch and the longest lock. */
  lemma DoublingCanCutShort()
    ensures DoublingCutsShort(-0x4000_0000_0000_0000, I64_MAX)
  {
    var x: int := 0x3FFF_FFFF_FFFF_FFFF;
    assert NextReading(x) <= x + 21599;
  }

  /** An order funded at or after the epoch is never cut short, whatever its lock. */
  lemma RealTimesAreNotCutShort(start: i64, lock: i64)
    requires start >= 0
    ensures !DoublingCutsShort(start, lock)
  {
    NextReadingIsLeast(start + I64_MAX, 0);
  }

  /** The order d, funded as d0, was refunded a full lock after its dispute and, unless doubling the lock is cut
      short, three locks after funding. */
  ghost predicate WaitedThreeLocks(d0: OrderData, d: OrderData) {
    var lock, start := d0.timeLockSeconds, StartTime(d0);
    && d.disputedAt.Some? && d.refundedAt.Some?
    && d.refundedAt.value >= d.disputedAt.value + lock
    && d.disputedAt.value >= AbandonTime(d0)
    && (!DoublingCutsShort(start, lock) ==>
          d.disputedAt.value >= start + 2 * lock && d.refundedAt.value >= start + 3 * lock)
  }

  /** Auto-refund after worker steps alone waits, for every lock value, including those whose deadlines
      saturate. */
  lemma AutoRefundWaitsThreeLocks(d0: OrderData, steps: seq<WorkerStep>)
    requires d0.state == "funded" && FlooredTicks(steps)
    requires RunOrder(d0, steps).state == "refunded"
    ensures WaitedThreeLocks(d0, RunOrder(d0, steps))
  {
    RunIsTracked(d0, steps);
    var d := RunOrder(d0, steps);
    LastReading(d.refundedAt.value);
    AbandonTimeIsExactIff(d0);
  }
}
