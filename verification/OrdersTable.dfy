/** Optimistic concurrency on the orders table: every writer reads a version, computes, and runs an
    UPDATE guarded by that version. Reads, nonce checks and updates of many writers interleave freely.
    (src/services/orders.rs, chat.rs, disputes.rs, src/background/time_lock.rs, payment_poller.rs) */
module OrdersTable {
  import opened Bytes
  import opened TransitionCbor
  import opened Hex
  import AuthLayouts
  import opened Options

  type Id = Vec

  datatype Row = Row(
    orderBlob: Bytes, expiryBucket: Option<int>, version: nat,
    hasDispute: bool, disputeBlob: Option<Bytes>, chatBlob: Option<Bytes>)

  type Table = map<Id, Row>

  /** The columns an UPDATE statement sets besides the version. */
  datatype Write =
    | SetOrder(blob: Bytes)
    | SetOrderAndExpiry(blob: Bytes, expiry: Option<int>)
    | SetChat(blob: Bytes)
    | SetDispute(blob: Bytes)
    | SetDisputeFlag(blob: Bytes, flag: bool)

  /** `id` is the order id a request's text `idText` decodes to. */
  datatype Request =
    | UpdateOrder(id: Id, idText: Bytes, blob: Bytes, pubkey: Bytes, sig: Bytes, nonceText: Bytes, nonce: Vec, hour: u64)
    | UpdateChat(id: Id, idText: Bytes, blob: Bytes, nonceText: Bytes)
    | OpenDispute(id: Id, idText: Bytes, blob: Bytes, nonceText: Bytes)
    | UpdateDispute(id: Id, idText: Bytes, blob: Bytes, nonceText: Bytes)
    | ResolveDispute(id: Id, idText: Bytes, blob: Bytes, nonceText: Bytes, expiry: u64, token: Bytes)
    | WorkerJob(id: Id, job: nat)

  /** Cryptography and worker computations the table does not depend on. */
  datatype World = World(
    sha256: Bytes -> Vec,
    verify: (Bytes, Bytes, Bytes) -> bool,
    verifyToken: (Bytes, Bytes) -> bool,
    work: (nat, Id, Row) -> Option<Write>)

  const MAX_VERSION := 0x7FFF_FFFF_FFFF_FFFF

  function SignedPayload(world: World, r: Request, version: nat): Payload
    requires r.UpdateOrder? && version <= MAX_VERSION
  {
    Payload(TRANSITION_SIG_VERSION, r.id, version, world.sha256(r.blob), r.nonce, r.hour)
  }

  /** What a handler decides to write after reading a row; None when it rejects or has nothing to do. */
  function Compute(world: World, r: Request, row: Row): Option<Write> {
    match r
    case UpdateOrder(_, _, blob, pubkey, sig, nonceText, nonce, _) =>
      if row.version <= MAX_VERSION && HexDecode(nonceText) == Some(nonce)
         && world.verify(pubkey, Encode(SignedPayload(world, r, row.version)), sig)
      then Some(SetOrder(blob)) else None
    case UpdateChat(_, _, blob, _) => Some(SetChat(blob))
    case OpenDispute(_, _, blob, _) => Some(SetDisputeFlag(blob, true))
    case UpdateDispute(_, _, blob, _) => Some(SetDispute(blob))
    case ResolveDispute(_, _, blob, _, _, _) => Some(SetDisputeFlag(blob, false))
    case WorkerJob(id, job) => world.work(job, id, row)
  }

  function Apply(w: Write, row: Row): Row {
    var next := row.(version := row.version + 1);
    match w
    case SetOrder(b) => next.(orderBlob := b)
    case SetOrderAndExpiry(b, e) => next.(orderBlob := b, expiryBucket := e)
    case SetChat(b) => next.(chatBlob := Some(b))
    case SetDispute(b) => next.(disputeBlob := Some(b))
    case SetDisputeFlag(b, flag) => next.(disputeBlob := Some(b), hasDispute := flag)
  }

  /** UPDATE ... WHERE id AND version. */
  function UpdateWhere(t: Table, id: Id, version: nat, w: Write): (Table, bool) {
    if id in t && t[id].version == version then (t[id := Apply(w, t[id])], true) else (t, false)
  }

  // ----- The interleaved system -----

  /** Forbidden is a bad admin token, Refused a used nonce, Rejected any later refusal, Conflict a lost
      UPDATE. */
  datatype Phase =
    | Started
    | Forbidden
    | Refused
    | NonceTaken
    | Loaded(version: nat, write: Write, readAt: nat)
    | Ready(version: nat, write: Write, readAt: nat)
    | Rejected
    | Committed
    | Conflict

  datatype Actor = Actor(request: Request, phase: Phase)

  datatype Event = Created(id: Id, row: Row) | Wrote(request: Request)

  datatype State = State(table: Table, nonces: set<(nat, Bytes)>, actors: map<nat, Actor>, log: seq<Event>)

  datatype Step =
    | Create(id: Id, blob: Bytes, expiry: int)
    | Start(actor: nat, request: Request)
    | TakeNonce(actor: nat)
    | Read(actor: nat)
    | Update(actor: nat)

  const INIT := State(map[], {}, map[], [])

  /** The process-wide nonce set a request is checked against and its entry there, which joins the order id
      as spelled in the request and the nonce text by a colon. */
  function NonceKey(r: Request): (nat, Bytes)
    requires !r.WorkerJob?
  {
    var group := if r.UpdateOrder? then 0 else if r.UpdateChat? then 1 else if r.ResolveDispute? then 3 else 2;
    (group, r.idText + [58] + r.nonceText)
  }

  function SetPhase(s: State, a: nat, p: Phase): State
    requires a in s.actors
  {
    s.(actors := s.actors[a := s.actors[a].(phase := p)])
  }

  /** A token is checked against the message its request makes up, with the decoded nonce. */
  predicate TokenValid(world: World, r: Request)
    requires r.ResolveDispute?
  {
    HexDecode(r.nonceText).Some? && world.verifyToken(TokenMessageOf(r), r.token)
  }

  function TokenMessageOf(r: Request): Bytes
    requires r.ResolveDispute? && HexDecode(r.nonceText).Some?
  {
    AuthLayouts.TokenMessage(AuthLayouts.DISPUTE_RESOLVE, r.idText, HexDecode(r.nonceText).value, r.expiry)
  }

  /** Whether a client request comes to its nonce check next. Chat checks its nonce after reading the row, all
      other client handlers before. */
  predicate DueForNonce(a: Actor) {
    !a.request.WorkerJob? && if a.request.UpdateChat? then a.phase.Loaded? else a.phase.Started?
  }

  function TakeNonceStep(world: World, s: State, a: nat): State
    requires a in s.actors && !s.actors[a].request.WorkerJob?
  {
    var Actor(r, p) := s.actors[a];
    var key := NonceKey(r);
    if !DueForNonce(s.actors[a]) then s
    else if r.ResolveDispute? && !TokenValid(world, r) then SetPhase(s, a, Forbidden)
    else if key in s.nonces then SetPhase(s, a, Refused)
    else
      var s' := s.(nonces := s.nonces + {key});
      if r.UpdateChat? then SetPhase(s', a, Ready(p.version, p.write, p.readAt)) else SetPhase(s', a, NonceTaken)
  }

  function ReadStep(world: World, s: State, a: nat): State
    requires a in s.actors
  {
    var Actor(r, p) := s.actors[a];
    if (if r.UpdateChat? || r.WorkerJob? then !p.Started? else !p.NonceTaken?) then s
    else if r.id !in s.table || Compute(world, r, s.table[r.id]).None? then SetPhase(s, a, Rejected)
    else
      var row := s.table[r.id];
      var w := Compute(world, r, row).value;
      SetPhase(s, a, if r.UpdateChat? then Loaded(row.version, w, |s.log|) else Ready(row.version, w, |s.log|))
  }

  function UpdateStep(s: State, a: nat): State
    requires a in s.actors
  {
    var Actor(r, p) := s.actors[a];
    if !p.Ready? then s
    else
      var (t, affected) := UpdateWhere(s.table, r.id, p.version, p.write);
      if affected then SetPhase(s.(table := t, log := s.log + [Wrote(r)]), a, Committed)
      else SetPhase(s, a, Conflict)
  }

  /** A client request names its order by text that decodes to the id. */
  predicate WellSpelled(r: Request) {
    r.WorkerJob? || HexDecode(r.idText) == Some(r.id)
  }

  /** One atomic step; a step that is not enabled changes nothing. */
  function Next(world: World, s: State, step: Step): State {
    match step
    case Create(id, blob, expiry) =>
      if id in s.table then s
      else
        var row := Row(blob, Some(expiry), 1, false, None, None);
        s.(table := s.table[id := row], log := s.log + [Created(id, row)])
    case Start(a, r) => if a in s.actors || !WellSpelled(r) then s else s.(actors := s.actors[a := Actor(r, Started)])
    case TakeNonce(a) => if a in s.actors && !s.actors[a].request.WorkerJob? then TakeNonceStep(world, s, a) else s
    case Read(a) => if a in s.actors then ReadStep(world, s, a) else s
    case Update(a) => if a in s.actors then UpdateStep(s, a) else s
  }

  function Run(world: World, steps: seq<Step>): State {
    if steps == [] then INIT else Next(world, Run(world, steps[..|steps| - 1]), steps[|steps| - 1])
  }

  // ----- The serial reference -----

  /** A whole request executed at once on a table: read, decide and write with nothing in between. */
  function Atomically(world: World, t: Table, e: Event): Option<Table> {
    match e
    case Created(id, row) => if id in t || row.version != 1 then None else Some(t[id := row])
    case Wrote(r) =>
      if r.id !in t then None
      else
        match Compute(world, r, t[r.id])
        case None => None
        case Some(w) => Some(t[r.id := Apply(w, t[r.id])])
  }

  function Serial(world: World, log: seq<Event>): Option<Table> {
    if log == [] then Some(map[])
    else
      match Serial(world, log[..|log| - 1])
      case None => None
      case Some(t) => Atomically(world, t, log[|log| - 1])
  }

  function EventId(e: Event): Id {
    match e
    case Created(id, _) => id
    case Wrote(r) => r.id
  }

  /** How many writes of one order are in a piece of the log. */
  function Writes(log: seq<Event>, id: Id): nat {
    if log == [] then 0
    else Writes(log[..|log| - 1], id) + (if log[|log| - 1].Wrote? && log[|log| - 1].request.id == id then 1 else 0)
  }

  lemma {:induction false} WritesSplit(a: seq<Event>, b: seq<Event>, id: Id)
    ensures Writes(a + b, id) == Writes(a, id) + Writes(b, id)
  {
    if b == [] {
      assert a + b == a;
    } else {
      assert (a + b)[..|a + b| - 1] == a + b[..|b| - 1];
      WritesSplit(a, b[..|b| - 1], id);
    }
  }

  /** What a pending update still knows: its version is as far behind as writes have intervened, and if
      none has, its write is the one the current row calls for. */
  ghost predicate PendingSound(world: World, s: State, a: Actor) {
    a.phase.Loaded? || a.phase.Ready? ==>
      && a.request.id in s.table && a.phase.readAt <= |s.log|
      && s.table[a.request.id].version == a.phase.version + Writes(s.log[a.phase.readAt..], a.request.id)
      && (s.table[a.request.id].version == a.phase.version ==>
            Compute(world, a.request, s.table[a.request.id]) == Some(a.phase.write))
  }

  ghost predicate Inv(world: World, s: State) {
    && Serial(world, s.log) == Some(s.table)
    && (forall id :: id in s.table ==> s.table[id].version == 1 + Writes(s.log, id))
    && forall a :: a in s.actors ==> PendingSound(world, s, s.actors[a])
  }

  lemma LogGrows(world: World, s: State, e: Event, t: Table)
    requires Inv(world, s) && Atomically(world, s.table, e) == Some(t)
    requires forall id :: id in s.table && id != EventId(e) ==> t[id] == s.table[id]
    requires forall id :: id in t <==> id in s.table || id == EventId(e)
    requires e.Wrote? ==> t[e.request.id].version == s.table[e.request.id].version + 1
    ensures Inv(world, s.(table := t, log := s.log + [e]))
  {
    var s' := s.(table := t, log := s.log + [e]);
    assert s'.log[..|s'.log| - 1] == s.log;
    forall id | id in t ensures t[id].version == 1 + Writes(s'.log, id) {
      if e.Created? && id == e.id { NoWritesBeforeCreation(world, s.log, id); }
    }
    forall a | a in s'.actors ensures PendingSound(world, s', s'.actors[a]) {
      var Actor(r, p) := s.actors[a];
      if p.Loaded? || p.Ready? {
        assert PendingSound(world, s, s.actors[a]);
        assert s'.log[p.readAt..] == s.log[p.readAt..] + [e];
        WritesSplit(s.log[p.readAt..], [e], r.id);
        assert Writes([e], r.id) == if e.Wrote? && e.request.id == r.id then 1 else 0;
      }
    }
  }

  lemma {:induction false} NoWritesBeforeCreation(world: World, log: seq<Event>, id: Id)
    requires Serial(world, log).Some? && id !in Serial(world, log).value
    ensures Writes(log, id) == 0
  {
    if log != [] { NoWritesBeforeCreation(world, log[..|log| - 1], id); }
  }

  lemma PhaseChanges(world: World, s: State, a: nat, p: Phase)
    requires Inv(world, s) && a in s.actors && PendingSound(world, s, s.actors[a].(phase := p))
    ensures Inv(world, SetPhase(s, a, p))
  {
    var s' := SetPhase(s, a, p);
    forall b | b in s'.actors ensures PendingSound(world, s', s'.actors[b]) {
      assert b != a ==> PendingSound(world, s, s.actors[b]);
    }
  }

  lemma NoncesFrame(world: World, s: State, n: set<(nat, Bytes)>)
    requires Inv(world, s)
    ensures Inv(world, s.(nonces := n))
  {
    forall a | a in s.actors ensures PendingSound(world, s.(nonces := n), s.actors[a]) {
      assert PendingSound(world, s, s.actors[a]);
    }
  }

  lemma UpdateKeepsInv(world: World, s: State, a: nat)
    requires Inv(world, s) && a in s.actors
    ensures Inv(world, UpdateStep(s, a))
  {
    var Actor(r, p) := s.actors[a];
    if p.Ready? {
      assert PendingSound(world, s, s.actors[a]);
      var (t, affected) := UpdateWhere(s.table, r.id, p.version, p.write);
      if affected {
        LogGrows(world, s, Wrote(r), t);
        PhaseChanges(world, s.(table := t, log := s.log + [Wrote(r)]), a, Committed);
      } else {
        PhaseChanges(world, s, a, Conflict);
      }
    }
  }

  lemma ReadKeepsInv(world: World, s: State, a: nat)
    requires Inv(world, s) && a in s.actors
    ensures Inv(world, ReadStep(world, s, a))
  {
    var s' := ReadStep(world, s, a);
    assert s.log[|s.log|..] == [];
    if s' != s { PhaseChanges(world, s, a, s'.actors[a].phase); }
  }

  lemma TakeNonceKeepsInv(world: World, s: State, a: nat)
    requires Inv(world, s) && a in s.actors && !s.actors[a].request.WorkerJob?
    ensures Inv(world, TakeNonceStep(world, s, a))
  {
    var s' := TakeNonceStep(world, s, a);
    assert PendingSound(world, s, s.actors[a]);
    if s' != s {
      NoncesFrame(world, s, s'.nonces);
      PhaseChanges(world, s.(nonces := s'.nonces), a, s'.actors[a].phase);
    }
  }

  lemma NextKeepsInv(world: World, s: State, step: Step)
    requires Inv(world, s)
    ensures Inv(world, Next(world, s, step))
  {
    match step
    case Create(id, blob, expiry) =>
      var row := Row(blob, Some(expiry), 1, false, None, None);
      if id !in s.table { LogGrows(world, s, Created(id, row), s.table[id := row]); }
    case Start(a, r) =>
      var s' := Next(world, s, step);
      forall b | b in s'.actors ensures PendingSound(world, s', s'.actors[b]) {
        assert b in s.actors ==> PendingSound(world, s, s.actors[b]);
      }
    case TakeNonce(a) => if a in s.actors && !s.actors[a].request.WorkerJob? { TakeNonceKeepsInv(world, s, a); }
    case Read(a) => if a in s.actors { ReadKeepsInv(world, s, a); }
    case Update(a) => if a in s.actors { UpdateKeepsInv(world, s, a); }
  }

  lemma {:induction false} RunKeepsInv(world: World, steps: seq<Step>)
    ensures Inv(world, Run(world, steps))
  {
    if steps != [] {
      RunKeepsInv(world, steps[..|steps| - 1]);
      NextKeepsInv(world, Run(world, steps[..|steps| - 1]), steps[|steps| - 1]);
    }
  }

  // ----- Main results -----

  /** Every interleaving leaves the table that executing the committed requests one at a time, in commit
      order, would leave; and an order's version is one more than the number of its commits. */
  lemma EveryRunIsSerial(world: World, steps: seq<Step>)
    ensures var s := Run(world, steps);
            && Serial(world, s.log) == Some(s.table)
            && forall id :: id in s.table ==> s.table[id].version == 1 + Writes(s.log, id)
  {
    RunKeepsInv(world, steps);
  }

  /** An update that is due conflicts exactly when another write of the same order committed after its
      read; otherwise it commits, and what it stores is what the row it replaces calls for. */
  lemma ConflictIffOvertaken(world: World, steps: seq<Step>, a: nat)
    requires var s := Run(world, steps); a in s.actors && s.actors[a].phase.Ready?
    ensures var s := Run(world, steps);
            var s' := Run(world, steps + [Update(a)]);
            var Actor(r, p) := s.actors[a];
            && p.readAt <= |s.log| && r.id in s.table
            && s'.actors[a].phase == (if Writes(s.log[p.readAt..], r.id) > 0 then Conflict else Committed)
            && (s'.actors[a].phase.Conflict? ==> s'.table == s.table && s'.log == s.log)
            && (s'.actors[a].phase.Committed? ==>
                  && s'.log == s.log + [Wrote(r)]
                  && Compute(world, r, s.table[r.id]).Some?
                  && s'.table == s.table[r.id := Apply(Compute(world, r, s.table[r.id]).value, s.table[r.id])])
  {
    RunKeepsInv(world, steps);
    assert (steps + [Update(a)])[..|steps|] == steps;
    var s := Run(world, steps);
    assert PendingSound(world, s, s.actors[a]);
  }

  /** The table just before log entry k. */
  ghost function TableBefore(world: World, log: seq<Event>, k: nat): Option<Table>
    requires k <= |log|
  {
    Serial(world, log[..k])
  }

  lemma {:induction false} SerialPrefix(world: World, log: seq<Event>, k: nat)
    requires Serial(world, log).Some? && k <= |log|
    ensures TableBefore(world, log, k).Some?
    decreases |log|
  {
    if k < |log| {
      SerialPrefix(world, log[..|log| - 1], k);
      assert log[..|log| - 1][..k] == log[..k];
    } else {
      assert log[..k] == log;
    }
  }

  lemma SerialStep(world: World, log: seq<Event>, k: nat)
    requires Serial(world, log).Some? && k < |log|
    ensures TableBefore(world, log, k).Some? && TableBefore(world, log, k + 1).Some?
    ensures Atomically(world, TableBefore(world, log, k).value, log[k]) == TableBefore(world, log, k + 1)
  {
    SerialPrefix(world, log, k + 1);
    assert log[..k + 1][..k] == log[..k];
  }

  lemma WritesStep(log: seq<Event>, j: nat, k: nat, id: Id)
    requires j <= k < |log|
    ensures Writes(log[j..k + 1], id) == Writes(log[j..k], id) + if log[k].Wrote? && log[k].request.id == id then 1 else 0
  {
    assert log[j..k + 1][..k - j] == log[j..k] && log[j..k + 1][k - j] == log[k];
  }

  lemma AtomicVersion(world: World, t: Table, e: Event, t': Table, id: Id)
    requires Atomically(world, t, e) == Some(t') && id in t
    ensures id in t' && t'[id].version == t[id].version + if e.Wrote? && e.request.id == id then 1 else 0
  {}

  /** The order has this version after k entries of the log. */
  ghost predicate VersionAt(world: World, log: seq<Event>, k: nat, id: Id, v: nat)
    requires k <= |log|
  {
    var t := TableBefore(world, log, k);
    t.Some? && id in t.value && t.value[id].version == v
  }

  lemma OneCommit(world: World, log: seq<Event>, k: nat, id: Id, v: nat)
    requires Serial(world, log).Some? && k < |log| && VersionAt(world, log, k, id, v)
    ensures VersionAt(world, log, k + 1, id, v + if log[k].Wrote? && log[k].request.id == id then 1 else 0)
  {
    SerialStep(world, log, k);
    AtomicVersion(world, TableBefore(world, log, k).value, log[k], TableBefore(world, log, k + 1).value, id);
  }

  lemma {:induction false} VersionsGoOn(world: World, log: seq<Event>, j: nat, i: nat, k: nat, id: Id, v: nat)
    requires Serial(world, log).Some? && j <= i <= k <= |log|
    requires VersionAt(world, log, i, id, v + Writes(log[j..i], id))
    ensures VersionAt(world, log, k, id, v + Writes(log[j..k], id))
    decreases k - i
  {
    if i < k {
      OneCommit(world, log, i, id, v + Writes(log[j..i], id));
      WritesStep(log, j, i, id);
      VersionsGoOn(world, log, j, i + 1, k, id, v);
    }
  }

  /** Between two points of the log an order's version grows by exactly the commits of that order. */
  lemma VersionsGrow(world: World, log: seq<Event>, j: nat, k: nat, id: Id)
    requires Serial(world, log).Some? && j <= k <= |log|
    requires TableBefore(world, log, j).Some? && id in TableBefore(world, log, j).value
    ensures TableBefore(world, log, k).Some? && id in TableBefore(world, log, k).value
    ensures TableBefore(world, log, k).value[id].version ==
            TableBefore(world, log, j).value[id].version + Writes(log[j..k], id)
  {
    assert log[j..j] == [];
    VersionsGoOn(world, log, j, j, k, id, TableBefore(world, log, j).value[id].version);
  }

  /** Entry k is a committed client update. */
  ghost predicate IsUpdate(log: seq<Event>, k: nat) {
    k < |log| && log[k].Wrote? && log[k].request.UpdateOrder?
  }

  /** What signed bytes say, field by field, to a reader of RFC 8949: format one, this order, the version to
      replace, the hash of the blob to store, the nonce and the hour. */
  ghost predicate SaysUpdate(world: World, b: Bytes, r: Request, version: int, blob: Bytes)
    requires r.UpdateOrder?
  {
    var read := Decode(b);
    && read.Some?
    && read.value.version == 1 && read.value.orderId == r.id && read.value.prevVersion == version
    && read.value.newBlobSha256 == world.sha256(blob) && read.value.nonce == r.nonce && read.value.hourBucket == r.hour
  }

  lemma SignedBytesSay(world: World, r: Request, version: nat)
    requires r.UpdateOrder? && version <= MAX_VERSION
    ensures SaysUpdate(world, Encode(SignedPayload(world, r, version)), r, version, r.blob)
  {
    DecodeEncode(SignedPayload(world, r, version));
  }

  /** The bytes that were signed for committed update k. */
  ghost function SignedBytes(world: World, log: seq<Event>, k: nat): Bytes
    requires IsUpdate(log, k)
  {
    var before := TableBefore(world, log, k);
    var r := log[k].request;
    if before.Some? && r.id in before.value && before.value[r.id].version <= MAX_VERSION
    then Encode(SignedPayload(world, r, before.value[r.id].version)) else []
  }

  /** A step from one table to the next stores the blob whose hash b names, on top of the version b names, and
      changes that blob and the version alone; b is what was signed. */
  ghost predicate StoresAsSigned(world: World, r: Request, b: Bytes, before: Table, after: Table)
    requires r.UpdateOrder?
  {
    && r.id in before && r.id in after
    && world.verify(r.pubkey, b, r.sig) && SaysUpdate(world, b, r, before[r.id].version, after[r.id].orderBlob)
    && after == before[r.id := before[r.id].(orderBlob := r.blob, version := before[r.id].version + 1)]
  }

  ghost predicate SignedAsStored(world: World, log: seq<Event>, k: nat)
    requires IsUpdate(log, k)
  {
    var before, after := TableBefore(world, log, k), TableBefore(world, log, k + 1);
    && before.Some? && after.Some?
    && StoresAsSigned(world, log[k].request, SignedBytes(world, log, k), before.value, after.value)
  }

  lemma AtomicUpdate(world: World, t: Table, r: Request, t': Table)
    requires r.UpdateOrder? && Atomically(world, t, Wrote(r)) == Some(t')
    ensures r.id in t && t[r.id].version <= MAX_VERSION
    ensures world.verify(r.pubkey, Encode(SignedPayload(world, r, t[r.id].version)), r.sig)
    ensures t' == t[r.id := t[r.id].(orderBlob := r.blob, version := t[r.id].version + 1)]
  {}

  lemma CommitIsSigned(world: World, t: Table, r: Request, t': Table) returns (b: Bytes)
    requires r.UpdateOrder? && Atomically(world, t, Wrote(r)) == Some(t')
    ensures r.id in t && t[r.id].version <= MAX_VERSION && b == Encode(SignedPayload(world, r, t[r.id].version))
    ensures StoresAsSigned(world, r, b, t, t')
  {
    AtomicUpdate(world, t, r, t');
    b := Encode(SignedPayload(world, r, t[r.id].version));
    SignedBytesSay(world, r, t[r.id].version);
  }

  lemma UpdateIsSigned(world: World, log: seq<Event>, k: nat)
    requires Serial(world, log).Some? && IsUpdate(log, k)
    ensures SignedAsStored(world, log, k)
  {
    SerialStep(world, log, k);
    var b := CommitIsSigned(world, TableBefore(world, log, k).value, log[k].request, TableBefore(world, log, k + 1).value);
    assert b == SignedBytes(world, log, k);
  }

  /** The payload a client signs for an update of an order at some version. */
  ghost predicate PayloadFor(world: World, p: Payload, r: Request, version: nat)
    requires r.UpdateOrder?
  {
    && p.version == 1 && p.orderId == r.id && p.prevVersion == version
    && p.newBlobSha256 == world.sha256(r.blob) && p.nonce == r.nonce && p.hourBucket == r.hour
  }

  /** An update is accepted for a row exactly when its nonce text decodes and the signature is over the payload
      for that row's version; what is accepted is its blob. */
  lemma UpdateAcceptedIff(world: World, r: Request, row: Row, p: Payload)
    requires r.UpdateOrder? && PayloadFor(world, p, r, row.version)
    ensures Compute(world, r, row).Some? <==> HexDecode(r.nonceText) == Some(r.nonce) && world.verify(r.pubkey, Encode(p), r.sig)
    ensures Compute(world, r, row).Some? ==> Compute(world, r, row).value == SetOrder(r.blob)
  {}

  lemma RunTwoSteps(world: World, steps: seq<Step>, x: Step, y: Step)
    ensures Run(world, steps + [x, y]) == Next(world, Next(world, Run(world, steps), x), y)
  {
    assert (steps + [x, y])[..|steps| + 1] == steps + [x];
    assert (steps + [x])[..|steps|] == steps;
  }

  /** In every run, an update past its nonce check that is signed for its order's present version commits when
      nobody comes between, and stores its blob. */
  lemma SignedUpdateCommits(world: World, steps: seq<Step>, a: nat, p: Payload)
    requires var s := Run(world, steps);
             && a in s.actors && s.actors[a].phase.NonceTaken? && s.actors[a].request.UpdateOrder?
             && var r := s.actors[a].request;
                && r.id in s.table && PayloadFor(world, p, r, s.table[r.id].version)
                && HexDecode(r.nonceText) == Some(r.nonce) && world.verify(r.pubkey, Encode(p), r.sig)
    ensures var s := Run(world, steps);
            var t := Run(world, steps + [Read(a), Update(a)]);
            var r := s.actors[a].request;
            && a in t.actors && t.actors[a].phase.Committed?
            && t.table == s.table[r.id := s.table[r.id].(orderBlob := r.blob, version := s.table[r.id].version + 1)]
  {
    var s := Run(world, steps);
    var r := s.actors[a].request;
    RunTwoSteps(world, steps, Read(a), Update(a));
    UpdateAcceptedIff(world, r, s.table[r.id], p);
    var m := Next(world, s, Read(a));
    assert m.table == s.table && m.actors[a] == Actor(r, Ready(s.table[r.id].version, SetOrder(r.blob), |s.log|));
  }

  lemma DistinctCommitsDistinctBytes(world: World, log: seq<Event>, j: nat, k: nat)
    requires Serial(world, log).Some? && j < k && IsUpdate(log, j) && IsUpdate(log, k)
    ensures SignedAsStored(world, log, j) && SignedAsStored(world, log, k)
    ensures SignedBytes(world, log, j) != SignedBytes(world, log, k)
  {
    UpdateIsSigned(world, log, j);
    UpdateIsSigned(world, log, k);
    var r, q := log[j].request, log[k].request;
    SerialStep(world, log, j);
    SerialStep(world, log, k);
    if SignedBytes(world, log, j) == SignedBytes(world, log, k) {
      EncodeInjective(SignedPayload(world, r, TableBefore(world, log, j).value[r.id].version),
                      SignedPayload(world, q, TableBefore(world, log, k).value[q.id].version));
      VersionsGrow(world, log, j + 1, k, r.id);
    }
  }

  /** Over every run: each committed client update stored what was signed on top of what was signed, and
      no signed byte string commits twice, whoever signed it and whatever the nonce sets hold. */
  lemma SignedUpdatesCommitOnce(world: World, steps: seq<Step>)
    ensures var log := Run(world, steps).log;
            && (forall k: nat :: IsUpdate(log, k) ==> SignedAsStored(world, log, k))
            && (forall j: nat, k: nat :: j < k && IsUpdate(log, j) && IsUpdate(log, k) ==>
                  SignedBytes(world, log, j) != SignedBytes(world, log, k))
  {
    EveryRunIsSerial(world, steps);
    var log := Run(world, steps).log;
    forall k: nat | IsUpdate(log, k) ensures SignedAsStored(world, log, k) {
      UpdateIsSigned(world, log, k);
    }
    forall j: nat, k: nat | j < k && IsUpdate(log, j) && IsUpdate(log, k)
      ensures SignedBytes(world, log, j) != SignedBytes(world, log, k)
    {
      DistinctCommitsDistinctBytes(world, log, j, k);
    }
  }

  // ----- What each commit writes -----

  /** The row a commit leaves, column by column. */
  ghost predicate WritesColumns(world: World, r: Request, before: Row, after: Row) {
    && after.version == before.version + 1
    && (r.UpdateOrder? ==> after == before.(orderBlob := r.blob, version := after.version))
    && (r.UpdateChat? ==> after == before.(chatBlob := Some(r.blob), version := after.version))
    && (r.OpenDispute? ==> after == before.(disputeBlob := Some(r.blob), hasDispute := true, version := after.version))
    && (r.UpdateDispute? ==> after == before.(disputeBlob := Some(r.blob), version := after.version))
    && (r.ResolveDispute? ==> after == before.(disputeBlob := Some(r.blob), hasDispute := false, version := after.version))
    && (r.WorkerJob? ==>
          var w := world.work(r.job, r.id, before);
          && w.Some?
          && (w.value.SetOrder? ==> after == before.(orderBlob := w.value.blob, version := after.version))
          && (w.value.SetOrderAndExpiry? ==>
                after == before.(orderBlob := w.value.blob, expiryBucket := w.value.expiry, version := after.version)))
  }

  /** In every run each commit writes its own columns of its own order, and nothing else. */
  lemma CommitsWriteOwnColumns(world: World, steps: seq<Step>, k: nat)
    requires k < |Run(world, steps).log| && Run(world, steps).log[k].Wrote?
    ensures var log := Run(world, steps).log;
            var r, before, after := log[k].request, TableBefore(world, log, k), TableBefore(world, log, k + 1);
            && before.Some? && after.Some? && r.id in before.value && r.id in after.value
            && after.value == before.value[r.id := after.value[r.id]]
            && WritesColumns(world, r, before.value[r.id], after.value[r.id])
  {
    EveryRunIsSerial(world, steps);
    SerialStep(world, Run(world, steps).log, k);
  }

  /** In every run a new order starts with the blob and expiry it was created with, at version one, without
      chat or dispute; other orders are untouched. */
  lemma CreatesAsAsked(world: World, steps: seq<Step>, id: Id, blob: Bytes, expiry: int)
    requires id !in Run(world, steps).table
    ensures var t := Run(world, steps + [Create(id, blob, expiry)]).table;
            && id in t && t == Run(world, steps).table[id := t[id]]
            && t[id].orderBlob == blob && t[id].expiryBucket == Some(expiry) && t[id].version == 1
            && !t[id].hasDispute && t[id].disputeBlob == None && t[id].chatBlob == None
  {
    assert (steps + [Create(id, blob, expiry)])[..|steps|] == steps;
  }

  // ----- Each column has its last writer's value -----

  /** Workers rewrite the order's own blob and expiry only. */
  ghost predicate WorkersKeepToOrders(world: World) {
    forall job, id, row :: world.work(job, id, row).Some? ==>
      world.work(job, id, row).value.SetOrder? || world.work(job, id, row).value.SetOrderAndExpiry?
  }

  /** The chat an order holds by the log: its last committed chat request's. */
  function LastChat(log: seq<Event>, id: Id): Option<Bytes> {
    if log == [] then None
    else
      match log[|log| - 1]
      case Created(i, row) => if i == id then row.chatBlob else LastChat(log[..|log| - 1], id)
      case Wrote(r) => if r.id == id && r.UpdateChat? then Some(r.blob) else LastChat(log[..|log| - 1], id)
  }

  /** The dispute blob an order holds by the log: that of its last committed dispute request of any kind. */
  function LastDispute(log: seq<Event>, id: Id): Option<Bytes> {
    if log == [] then None
    else
      match log[|log| - 1]
      case Created(i, row) => if i == id then row.disputeBlob else LastDispute(log[..|log| - 1], id)
      case Wrote(r) =>
        if r.id == id && (r.OpenDispute? || r.UpdateDispute? || r.ResolveDispute?) then Some(r.blob)
        else LastDispute(log[..|log| - 1], id)
  }

  /** Whether the last committed request that opened or resolved a dispute opened one. */
  function InDispute(log: seq<Event>, id: Id): bool {
    if log == [] then false
    else
      match log[|log| - 1]
      case Created(i, row) => if i == id then row.hasDispute else InDispute(log[..|log| - 1], id)
      case Wrote(r) =>
        if r.id == id && (r.OpenDispute? || r.ResolveDispute?) then r.OpenDispute?
        else InDispute(log[..|log| - 1], id)
  }

  lemma {:induction false} SerialColumns(world: World, log: seq<Event>, id: Id)
    requires WorkersKeepToOrders(world)
    requires Serial(world, log).Some? && id in Serial(world, log).value
    ensures var row := Serial(world, log).value[id];
            row.chatBlob == LastChat(log, id) && row.disputeBlob == LastDispute(log, id) && row.hasDispute == InDispute(log, id)
  {
    if log != [] {
      var prefix := log[..|log| - 1];
      if id in Serial(world, prefix).value { SerialColumns(world, prefix, id); }
    }
  }

  /** In every run chat and dispute columns hold what their last committed writers sent: no writer of one
      column loses or overwrites another's. */
  lemma ColumnsHoldLastWrites(world: World, steps: seq<Step>, id: Id)
    requires WorkersKeepToOrders(world) && id in Run(world, steps).table
    ensures var s := Run(world, steps);
            && s.table[id].chatBlob == LastChat(s.log, id)
            && s.table[id].disputeBlob == LastDispute(s.log, id)
            && s.table[id].hasDispute == InDispute(s.log, id)
  {
    EveryRunIsSerial(world, steps);
    SerialColumns(world, Run(world, steps).log, id);
  }

  // ----- The statements the handlers run -----

  class Database {
    var table: Table
    var nonces: set<(nat, Bytes)>

    constructor ()
      ensures table == map[] && nonces == {}
    {
      table, nonces := map[], {};
    }

    /** INSERT of a new order at version one; false when the id is taken. */
    method InsertOrder(id: Id, blob: Bytes, expiry: int) returns (ok: bool)
      modifies this
      ensures ok <==> id !in old(table)
      ensures table == if ok then old(table)[id := Row(blob, Some(expiry), 1, false, None, None)] else old(table)
      ensures nonces == old(nonces)
    {
      if id in table { return false; }
      table := table[id := Row(blob, Some(expiry), 1, false, None, None)];
      return true;
    }

    /** False for a nonce that was seen before. */
    method InsertNonce(key: (nat, Bytes)) returns (ok: bool)
      modifies this
      ensures ok <==> key !in old(nonces)
      ensures nonces == old(nonces) + {key} && table == old(table)
    {
      ok := key !in nonces;
      nonces := nonces + {key};
    }

    method RunUpdate(id: Id, version: nat, w: Write) returns (affected: bool)
      modifies this
      ensures (table, affected) == UpdateWhere(old(table), id, version, w) && nonces == old(nonces)
    {
      affected := id in table && table[id].version == version;
      if affected { table := table[id := Apply(w, table[id])]; }
    }

    /** A whole client handler with nothing in between. It always commits when a token is valid, the nonce is new, the order
        exists and the decision is to write: conflicts come from other writers alone. Chat spends its nonce
        only once the order is found, the other handlers before they look. */
    method HandleAlone(world: World, r: Request) returns (ok: bool)
      requires !r.WorkerJob?
      modifies this
      ensures ok <==>
        && (r.ResolveDispute? ==> TokenValid(world, r))
        && NonceKey(r) !in old(nonces) && Atomically(world, old(table), Wrote(r)).Some?
      ensures table == if ok then Atomically(world, old(table), Wrote(r)).value else old(table)
      ensures nonces ==
        if (r.UpdateChat? && r.id !in old(table)) || (r.ResolveDispute? && !TokenValid(world, r)) then old(nonces)
        else old(nonces) + {NonceKey(r)}
    {
      if r.ResolveDispute? && !TokenValid(world, r) { return false; }
      if !r.UpdateChat? {
        var unseen := InsertNonce(NonceKey(r));
        if !unseen { return false; }
      }
      if r.id !in table { return false; }
      var row := table[r.id];
      var w := Compute(world, r, row);
      if r.UpdateChat? {
        var unseen := InsertNonce(NonceKey(r));
        if !unseen { return false; }
      }
      if w.None? { return false; }
      ok := RunUpdate(r.id, row.version, w.value);
    }
  }
}
