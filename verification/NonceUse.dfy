/** What the nonce sets of the API handlers enforce over interleaved runs (src/services/orders.rs, chat.rs,
    disputes.rs): who gets past the nonce check, who is refused, and how often one nonce or token serves. */
module NonceUse {
  import opened ModArith
  import opened Bytes
  import opened Options
  import opened Hex
  import opened OrdersTable
  import AuthLayouts

  /** The nonce check let this request through, whatever became of it then. A chat request that is rejected
      never came to the check; any other rejected request had passed it. */
  predicate PastCheck(a: Actor) {
    && !a.request.WorkerJob?
    && (a.phase.NonceTaken? || a.phase.Ready? || a.phase.Committed? || a.phase.Conflict?
        || (a.phase.Rejected? && !a.request.UpdateChat?))
  }

  /** Actor a got past the check with this entry. */
  predicate Spent(s: State, a: nat, key: (nat, Bytes)) {
    a in s.actors && PastCheck(s.actors[a]) && NonceKey(s.actors[a].request) == key
  }

  /** The nonce sets are exactly the entries of the requests past the check, each of one request. */
  ghost predicate NoncesExact(s: State) {
    && (forall key :: key in s.nonces <==> exists a :: Spent(s, a, key))
    && (forall a, b, key :: Spent(s, a, key) && Spent(s, b, key) ==> a == b)
  }

  /** Requests are well spelled, and a resolution past the check carried a valid token. */
  ghost predicate RequestsSound(world: World, s: State) {
    forall a :: a in s.actors ==>
      && WellSpelled(s.actors[a].request)
      && (s.actors[a].request.ResolveDispute? && PastCheck(s.actors[a]) ==> TokenValid(world, s.actors[a].request))
  }

  // ----- One step -----

  /** A step lets nobody past and adds no entry, or is the check of one request whose entry was absent. */
  predicate Passes(s: State, t: State, a: nat) {
    && a in s.actors && a in t.actors && !PastCheck(s.actors[a]) && PastCheck(t.actors[a])
    && t.actors[a].request == s.actors[a].request
    && NonceKey(t.actors[a].request) !in s.nonces && t.nonces == s.nonces + {NonceKey(t.actors[a].request)}
    && t.actors == s.actors[a := t.actors[a]]
  }

  ghost predicate NobodyPasses(s: State, t: State) {
    && t.nonces == s.nonces
    && (forall a :: a in s.actors ==> a in t.actors && t.actors[a].request == s.actors[a].request)
    && (forall a :: a in t.actors ==> (PastCheck(t.actors[a]) <==> a in s.actors && PastCheck(s.actors[a])))
  }

  lemma StepPassesOneOrNobody(world: World, s: State, step: Step)
    ensures var t := Next(world, s, step);
            NobodyPasses(s, t) || (step.TakeNonce? && Passes(s, t, step.actor))
  {}

  lemma SpentStays(s: State, t: State, a: nat, key: (nat, Bytes))
    requires NobodyPasses(s, t)
    ensures Spent(s, a, key) <==> Spent(t, a, key)
  {}

  lemma SpentGrows(s: State, t: State, p: nat, a: nat, key: (nat, Bytes))
    requires Passes(s, t, p)
    ensures Spent(t, a, key) <==> Spent(s, a, key) || (a == p && key == NonceKey(t.actors[p].request))
  {}

  lemma NextKeepsNonces(world: World, s: State, step: Step)
    requires NoncesExact(s)
    ensures NoncesExact(Next(world, s, step))
  {
    var t := Next(world, s, step);
    StepPassesOneOrNobody(world, s, step);
    if NobodyPasses(s, t) { QuietKeepsNonces(s, t); } else { PassKeepsNonces(s, t, step.actor); }
  }

  lemma QuietKeepsNonces(s: State, t: State)
    requires NoncesExact(s) && NobodyPasses(s, t)
    ensures NoncesExact(t)
  {
    forall a, key ensures Spent(s, a, key) <==> Spent(t, a, key) { SpentStays(s, t, a, key); }
  }

  lemma PassKeepsNonces(s: State, t: State, p: nat)
    requires NoncesExact(s) && Passes(s, t, p)
    ensures NoncesExact(t)
  {
    var entry := NonceKey(t.actors[p].request);
    forall a, key ensures Spent(t, a, key) <==> Spent(s, a, key) || (a == p && key == entry) {
      SpentGrows(s, t, p, a, key);
    }
    assert Spent(t, p, entry);
    assert !(exists a :: Spent(s, a, entry));
  }

  lemma NextKeepsSound(world: World, s: State, step: Step)
    requires RequestsSound(world, s)
    ensures RequestsSound(world, Next(world, s, step))
  {}

  lemma {:induction false} RunKeepsNonces(world: World, steps: seq<Step>)
    ensures NoncesExact(Run(world, steps)) && RequestsSound(world, Run(world, steps))
  {
    if steps != [] {
      RunKeepsNonces(world, steps[..|steps| - 1]);
      NextKeepsNonces(world, Run(world, steps[..|steps| - 1]), steps[|steps| - 1]);
      NextKeepsSound(world, Run(world, steps[..|steps| - 1]), steps[|steps| - 1]);
    }
  }

  // ----- Over every run -----

  /** In every run the nonce sets hold exactly the entries of the requests that got past the check, including
      those refused later for a bad signature or a missing order, and no two of them share an entry. */
  lemma NoncesAdmitOnce(world: World, steps: seq<Step>)
    ensures var s := Run(world, steps);
            && (forall key :: key in s.nonces <==> exists a :: Spent(s, a, key))
            && (forall a, b, key :: Spent(s, a, key) && Spent(s, b, key) ==> a == b)
  {
    RunKeepsNonces(world, steps);
  }

  /** In every run a request that comes to its check, with a valid token where one is needed, is refused
      exactly when another request with the same entry got past it before. */
  lemma RefusedIffSpent(world: World, steps: seq<Step>, a: nat)
    requires var s := Run(world, steps); a in s.actors && DueForNonce(s.actors[a])
    requires var r := Run(world, steps).actors[a].request; r.ResolveDispute? ==> TokenValid(world, r)
    ensures var s := Run(world, steps);
            var t := Run(world, steps + [TakeNonce(a)]);
            && a in t.actors && (t.actors[a].phase.Refused? || PastCheck(t.actors[a]))
            && (t.actors[a].phase.Refused? <==> exists b :: b != a && Spent(s, b, NonceKey(s.actors[a].request)))
  {
    var s, steps' := Run(world, steps), steps + [TakeNonce(a)];
    assert steps'[..|steps|] == steps;
    RunKeepsNonces(world, steps);
    var key := NonceKey(s.actors[a].request);
    if key in s.nonces {
      var b :| Spent(s, b, key);
      assert b != a;
    }
  }

  /** The handlers that share a nonce set: opening and updating a dispute, and each other handler for itself. */
  predicate SameHandlers(r: Request, q: Request) {
    || (r.UpdateOrder? && q.UpdateOrder?)
    || (r.UpdateChat? && q.UpdateChat?)
    || (r.ResolveDispute? && q.ResolveDispute?)
    || ((r.OpenDispute? || r.UpdateDispute?) && (q.OpenDispute? || q.UpdateDispute?))
  }

  /** Two requests have one entry exactly when they are of one handler group and agree in id and nonce text. */
  lemma EntriesAgreeIff(r: Request, q: Request)
    requires !r.WorkerJob? && !q.WorkerJob? && WellSpelled(r) && WellSpelled(q)
    ensures NonceKey(r) == NonceKey(q) <==> SameHandlers(r, q) && r.idText == q.idText && r.nonceText == q.nonceText
  {
    if r.idText != q.idText || r.nonceText != q.nonceText { KeysDiffer(r.idText, r.nonceText, q.idText, q.nonceText); }
  }

  /** A dispute token: the signature is over the message of this order id, the decoded nonce and the expiry. */
  predicate Authorised(world: World, r: Request)
    requires r.ResolveDispute?
  {
    var nonce := HexDecode(r.nonceText);
    nonce.Some? && world.verifyToken(DisputeToken(r.idText, nonce.value, r.expiry), r.token)
  }

  /** In every run a resolution at its check is turned away as forbidden exactly when it is not authorised. */
  lemma ForbiddenIff(world: World, steps: seq<Step>, a: nat)
    requires var s := Run(world, steps);
             a in s.actors && DueForNonce(s.actors[a]) && s.actors[a].request.ResolveDispute?
    ensures var t := Run(world, steps + [TakeNonce(a)]);
            a in t.actors && (t.actors[a].phase.Forbidden? <==> !Authorised(world, Run(world, steps).actors[a].request))
  {
    assert (steps + [TakeNonce(a)])[..|steps|] == steps;
  }

  /** In every run every resolution past the check was authorised, so every one that committed was. */
  lemma ResolutionsAreAuthorised(world: World, steps: seq<Step>, a: nat)
    requires var s := Run(world, steps);
             a in s.actors && s.actors[a].request.ResolveDispute? && PastCheck(s.actors[a])
    ensures Authorised(world, Run(world, steps).actors[a].request)
  {
    RunKeepsNonces(world, steps);
  }

  // ----- Counting by spelling -----

  /** No more elements than values, when each has its own. */
  lemma {:induction false} InjectionBound(actors: set<nat>, f: nat -> Bytes, values: set<Bytes>)
    requires forall a :: a in actors ==> f(a) in values
    requires forall a, b :: a in actors && b in actors && f(a) == f(b) ==> a == b
    ensures |actors| <= |values|
  {
    if actors != {} {
      var a :| a in actors;
      InjectionBound(actors - {a}, f, values - {f(a)});
    }
  }

  function Group(r: Request): nat
    requires !r.WorkerJob?
  {
    NonceKey(r).0
  }

  /** Requests past the check of one handler group, for one order and one nonce text. */
  function Users(s: State, group: nat, id: Id, nonceText: Bytes): set<nat> {
    set a | a in s.actors && PastCheck(s.actors[a]) && Group(s.actors[a].request) == group
            && s.actors[a].request.id == id && s.actors[a].request.nonceText == nonceText
  }

  function IdTextIn(s: State): nat -> Bytes {
    a => if a in s.actors && !s.actors[a].request.WorkerJob? then s.actors[a].request.idText else []
  }

  lemma UsersDiffer(world: World, s: State, group: nat, id: Id, nonceText: Bytes, a: nat, b: nat)
    requires NoncesExact(s) && RequestsSound(world, s)
    requires a in Users(s, group, id, nonceText) && b in Users(s, group, id, nonceText)
    ensures IdTextIn(s)(a) in Spellings(id)
    ensures IdTextIn(s)(a) == IdTextIn(s)(b) ==> a == b
  {
    var r := s.actors[a].request;
    SpellingsDecode(id, r.idText);
    assert Spent(s, a, NonceKey(r)) && Spent(s, b, NonceKey(s.actors[b].request));
  }

  /** In every run one nonce serves at most once per spelling of the order's id: a power of two in the number
      of its letter digits. */
  lemma UsesPerOrder(world: World, steps: seq<Step>, group: nat, id: Id, nonceText: Bytes)
    ensures |Users(Run(world, steps), group, id, nonceText)| <= Pow(2, Letters(Digits(id)))
  {
    var s := Run(world, steps);
    RunKeepsNonces(world, steps);
    SpellingCount(id);
    var users := Users(s, group, id, nonceText);
    forall a, b | a in users && b in users
      ensures IdTextIn(s)(a) in Spellings(id) && (IdTextIn(s)(a) == IdTextIn(s)(b) ==> a == b)
    {
      UsersDiffer(world, s, group, id, nonceText, a, b);
    }
    forall a | a in users ensures IdTextIn(s)(a) in Spellings(id) { UsersDiffer(world, s, group, id, nonceText, a, a); }
    InjectionBound(users, IdTextIn(s), Spellings(id));
  }

  // ----- Runs in which every spelling commits -----

  /** A request that commits when nobody interferes. */
  predicate Willing(world: World, r: Request, id: Id) {
    r.id == id && WellSpelled(r) && (r.UpdateChat? || (r.ResolveDispute? && TokenValid(world, r)))
  }

  function Program(a: nat, r: Request): seq<Step> {
    if r.UpdateChat? then [Start(a, r), Read(a), TakeNonce(a), Update(a)]
    else [Start(a, r), TakeNonce(a), Read(a), Update(a)]
  }

  lemma RunOneMore(world: World, steps: seq<Step>, x: Step)
    ensures Run(world, steps + [x]) == Next(world, Run(world, steps), x)
  {
    assert (steps + [x])[..|steps|] == steps;
  }

  lemma RunTwoMore(world: World, steps: seq<Step>, x: Step, y: Step)
    ensures Run(world, steps + [x, y]) == Next(world, Next(world, Run(world, steps), x), y)
  {
    RunOneMore(world, steps, x);
    RunOneMore(world, steps + [x], y);
    assert steps + [x, y] == steps + [x] + [y];
  }

  lemma RunFour(world: World, steps: seq<Step>, p: seq<Step>)
    requires |p| == 4
    ensures Run(world, steps + p) ==
            Next(world, Next(world, Next(world, Next(world, Run(world, steps), p[0]), p[1]), p[2]), p[3])
  {
    var half := steps + [p[0], p[1]];
    RunTwoMore(world, steps, p[0], p[1]);
    RunTwoMore(world, half, p[2], p[3]);
    assert steps + p == half + [p[2], p[3]];
  }

  lemma ProgramCommits(world: World, s: State, a: nat, r: Request, id: Id)
    requires id in s.table && a !in s.actors && Willing(world, r, id) && NonceKey(r) !in s.nonces
    ensures var p := Program(a, r);
            var t := Next(world, Next(world, Next(world, Next(world, s, p[0]), p[1]), p[2]), p[3]);
            && id in t.table && t.actors == s.actors[a := Actor(r, Committed)] && t.nonces == s.nonces + {NonceKey(r)}
  {
    var s1 := Next(world, s, Start(a, r));
    assert s1.actors == s.actors[a := Actor(r, Started)] && s1.table == s.table && s1.nonces == s.nonces;
    if r.UpdateChat? {
      var s2 := Next(world, s1, Read(a));
      var p := Loaded(s.table[id].version, SetChat(r.blob), |s.log|);
      assert s2.actors == s.actors[a := Actor(r, p)] && s2.table == s.table && s2.nonces == s.nonces;
      var s3 := Next(world, s2, TakeNonce(a));
      assert s3.actors == s.actors[a := Actor(r, Ready(p.version, p.write, p.readAt))] && s3.table == s.table;
    } else {
      var s2 := Next(world, s1, TakeNonce(a));
      assert s2.actors == s.actors[a := Actor(r, NonceTaken)] && s2.table == s.table;
      var s3 := Next(world, s2, Read(a));
      var p := Ready(s.table[id].version, SetDisputeFlag(r.blob, false), |s.log|);
      assert s3.actors == s.actors[a := Actor(r, p)] && s3.table == s.table;
    }
  }

  ghost predicate CommittedFrom(a: Actor, req: Bytes -> Request, texts: set<Bytes>) {
    a.phase.Committed? && exists x :: x in texts && a.request == req(x)
  }

  ghost predicate EntryFrom(key: (nat, Bytes), req: Bytes -> Request, texts: set<Bytes>) {
    exists x :: x in texts && !req(x).WorkerJob? && NonceKey(req(x)) == key
  }

  lemma MoreTexts(a: Actor, key: (nat, Bytes), req: Bytes -> Request, texts: set<Bytes>, more: set<Bytes>)
    requires texts <= more
    ensures CommittedFrom(a, req, texts) ==> CommittedFrom(a, req, more)
    ensures EntryFrom(key, req, texts) ==> EntryFrom(key, req, more)
  {}

  /** As many requests as texts, made from these texts, all committed, and nothing else happened. */
  ghost predicate AllCommitted(s: State, id: Id, req: Bytes -> Request, texts: set<Bytes>) {
    && id in s.table && |s.actors| == |texts|
    && (forall a :: a in s.actors ==> a < |texts| && CommittedFrom(s.actors[a], req, texts))
    && (forall key :: key in s.nonces ==> EntryFrom(key, req, texts))
  }

  /** Willing requests with different entries. */
  ghost predicate Independent(world: World, id: Id, req: Bytes -> Request, texts: set<Bytes>) {
    && (forall x :: x in texts ==> Willing(world, req(x), id))
    && (forall x, y :: x in texts && y in texts && x != y ==> NonceKey(req(x)) != NonceKey(req(y)))
  }

  lemma OneApart(world: World, id: Id, req: Bytes -> Request, texts: set<Bytes>, x: Bytes)
    requires Independent(world, id, req, texts) && x in texts
    ensures Independent(world, id, req, texts - {x}) && Willing(world, req(x), id)
    ensures forall y :: y in texts - {x} ==> Willing(world, req(y), id) && NonceKey(req(y)) != NonceKey(req(x))
  {}

  /** Willing requests with different entries commit one after the other. */
  lemma {:induction false} CommitAll(world: World, id: Id, req: Bytes -> Request, texts: set<Bytes>) returns (steps: seq<Step>)
    requires Independent(world, id, req, texts)
    ensures AllCommitted(Run(world, steps), id, req, texts)
  {
    if texts == {} {
      steps := FirstOrder(world, id, req, texts);
    } else {
      var x :| x in texts;
      OneApart(world, id, req, texts, x);
      steps := CommitAll(world, id, req, texts - {x});
      steps := CommitLast(world, steps, id, req, texts, x);
    }
  }

  lemma CommitLast(world: World, before: seq<Step>, id: Id, req: Bytes -> Request, texts: set<Bytes>, x: Bytes)
      returns (steps: seq<Step>)
    requires Independent(world, id, req, texts) && x in texts
    requires AllCommitted(Run(world, before), id, req, texts - {x})
    ensures AllCommitted(Run(world, steps), id, req, texts)
  {
    OneApart(world, id, req, texts, x);
    steps := CommitNext(world, before, id, req, texts - {x}, x);
    assert (texts - {x}) + {x} == texts;
  }

  lemma CommitNext(world: World, before: seq<Step>, id: Id, req: Bytes -> Request, rest: set<Bytes>, x: Bytes)
      returns (steps: seq<Step>)
    requires AllCommitted(Run(world, before), id, req, rest) && Willing(world, req(x), id) && x !in rest
    requires forall y :: y in rest ==> Willing(world, req(y), id) && NonceKey(req(y)) != NonceKey(req(x))
    ensures AllCommitted(Run(world, steps), id, req, rest + {x})
  {
    var s, a := Run(world, before), |rest|;
    EntryIsNew(world, s, id, req, rest, x);
    ProgramCommits(world, s, a, req(x), id);
    steps := before + Program(a, req(x));
    RunFour(world, before, Program(a, req(x)));
    OneMoreCommitted(s, Run(world, steps), id, req, rest, x);
  }

  lemma CreateFirst(world: World, id: Id, blob: Bytes, expiry: int) returns (steps: seq<Step>)
    ensures var s := Run(world, steps); id in s.table && s.actors == map[] && s.nonces == {}
  {
    var x := Create(id, blob, expiry);
    steps := [x];
    assert steps[..0] == [];
    assert Run(world, steps) == Next(world, INIT, x);
  }

  lemma FirstOrder(world: World, id: Id, req: Bytes -> Request, texts: set<Bytes>) returns (steps: seq<Step>)
    requires texts == {}
    ensures AllCommitted(Run(world, steps), id, req, texts)
  {
    steps := CreateFirst(world, id, [], 0);
  }

  lemma EntryIsNew(world: World, s: State, id: Id, req: Bytes -> Request, rest: set<Bytes>, x: Bytes)
    requires AllCommitted(s, id, req, rest) && Willing(world, req(x), id)
    requires forall y :: y in rest ==> Willing(world, req(y), id) && NonceKey(req(y)) != NonceKey(req(x))
    ensures NonceKey(req(x)) !in s.nonces && |rest| !in s.actors
  {
    assert !EntryFrom(NonceKey(req(x)), req, rest);
  }

  lemma OneMoreCommitted(s: State, t: State, id: Id, req: Bytes -> Request, rest: set<Bytes>, x: Bytes)
    requires AllCommitted(s, id, req, rest) && x !in rest && !req(x).WorkerJob? && |rest| !in s.actors
    requires id in t.table && t.actors == s.actors[|rest| := Actor(req(x), Committed)] && t.nonces == s.nonces + {NonceKey(req(x))}
    ensures AllCommitted(t, id, req, rest + {x})
  {
    var texts := rest + {x};
    assert x in texts;
    forall a | a in t.actors ensures a < |texts| && CommittedFrom(t.actors[a], req, texts) {
      if a in s.actors { MoreTexts(s.actors[a], NonceKey(req(x)), req, rest, texts); }
    }
    forall key | key in t.nonces ensures EntryFrom(key, req, texts) {
      if key in s.nonces { MoreTexts(Actor(req(x), Committed), key, req, rest, texts); }
    }
  }

  // ----- One nonce, one order -----

  /** Over every run, no two requests get past the check with one handler group, order and nonce text. */
  ghost predicate OnePerOrder(world: World, id: Id) {
    forall steps: seq<Step>, group: nat, nonceText: Bytes :: |Users(Run(world, steps), group, id, nonceText)| <= 1
  }

  function ChatRequest(id: Id, nonceText: Bytes): Bytes -> Request {
    idText => UpdateChat(id, idText, [], nonceText)
  }

  /** The bound is met: a run in which every spelling of the order's id serves once, and commits. */
  lemma EverySpellingCommits(world: World, id: Id, nonceText: Bytes) returns (steps: seq<Step>)
    ensures |Users(Run(world, steps), 1, id, nonceText)| == Pow(2, Letters(Digits(id)))
    ensures forall a :: a in Users(Run(world, steps), 1, id, nonceText) ==> Run(world, steps).actors[a].phase.Committed?
  {
    var req, texts := ChatRequest(id, nonceText), Spellings(id);
    forall x | x in texts ensures Willing(world, req(x), id) { SpellingsDecode(id, x); }
    forall x, y | x in texts && y in texts && x != y ensures NonceKey(req(x)) != NonceKey(req(y)) {
      SpellingsDecode(id, x);
      SpellingsDecode(id, y);
      KeysDiffer(x, nonceText, y, nonceText);
    }
    steps := CommitAll(world, id, req, texts);
    var s := Run(world, steps);
    assert Users(s, 1, id, nonceText) == s.actors.Keys;
    SpellingCount(id);
  }

  /** Different id or nonce texts make different entries, id texts having no colon. */
  lemma KeysDiffer(x: Bytes, n: Bytes, y: Bytes, m: Bytes)
    requires HexDecode(x).Some? && HexDecode(y).Some? && (x != y || n != m)
    ensures x + [58] + n != y + [58] + m
  {
    DecodedHasNoColon(x);
    DecodedHasNoColon(y);
    if x + [58] + n == y + [58] + m { AuthLayouts.FirstColon(x, n, y, m); }
  }

  /** One request per order and nonce is enforced exactly for orders whose id has no letter digit. */
  lemma OnePerOrderIff(world: World, id: Id)
    ensures OnePerOrder(world, id) <==> Letters(Digits(id)) == 0
  {
    if Letters(Digits(id)) == 0 {
      forall steps: seq<Step>, group: nat, nonceText: Bytes
        ensures |Users(Run(world, steps), group, id, nonceText)| <= 1
      {
        UsesPerOrder(world, steps, group, id, nonceText);
      }
    } else {
      var steps := EverySpellingCommits(world, id, []);
      TwoOrMore(Letters(Digits(id)));
    }
  }

  lemma TwoOrMore(n: nat)
    requires n > 0
    ensures Pow(2, n) >= 2
  {
    PowPositive(2, n - 1);
  }

  // ----- One admin token -----

  /** Resolutions past the check whose token message is this one. */
  predicate UsesToken(a: Actor, m: Bytes) {
    && a.request.ResolveDispute? && PastCheck(a)
    && HexDecode(a.request.nonceText).Some? && TokenMessageOf(a.request) == m
  }

  function TokenUsers(s: State, m: Bytes): set<nat> {
    set a | a in s.actors && UsesToken(s.actors[a], m)
  }

  function NonceTextIn(s: State): nat -> Bytes {
    a => if a in s.actors && !s.actors[a].request.WorkerJob? then s.actors[a].request.nonceText else []
  }

  /** The message of a dispute token. */
  function DisputeToken(idText: Bytes, nonce: Bytes, expiry: AuthLayouts.u64): Bytes {
    AuthLayouts.TokenMessage(AuthLayouts.DISPUTE_RESOLVE, idText, nonce, expiry)
  }

  lemma TokenSaysRequest(world: World, s: State, idText: Bytes, nonce: Bytes, expiry: AuthLayouts.u64, a: nat)
    requires RequestsSound(world, s) && HexDecode(idText).Some?
    requires a in TokenUsers(s, DisputeToken(idText, nonce, expiry))
    ensures s.actors[a].request.idText == idText && NonceTextIn(s)(a) in Spellings(nonce)
  {
    var r := s.actors[a].request;
    DecodedHasNoColon(idText);
    DecodedHasNoColon(r.idText);
    AuthLayouts.TokenMessageDetermines(AuthLayouts.DISPUTE_RESOLVE, r.idText, HexDecode(r.nonceText).value, r.expiry,
                                       idText, nonce, expiry);
    SpellingsDecode(nonce, r.nonceText);
  }

  /** In every run an admin token serves at most once per spelling of its nonce. */
  lemma UsesPerToken(world: World, steps: seq<Step>, idText: Bytes, nonce: Bytes, expiry: AuthLayouts.u64)
    requires HexDecode(idText).Some?
    ensures |TokenUsers(Run(world, steps), DisputeToken(idText, nonce, expiry))| <= Pow(2, Letters(Digits(nonce)))
  {
    var s := Run(world, steps);
    RunKeepsNonces(world, steps);
    SpellingCount(nonce);
    var users := TokenUsers(s, DisputeToken(idText, nonce, expiry));
    forall a | a in users ensures NonceTextIn(s)(a) in Spellings(nonce) {
      TokenSaysRequest(world, s, idText, nonce, expiry, a);
    }
    forall a, b | a in users && b in users && NonceTextIn(s)(a) == NonceTextIn(s)(b) ensures a == b {
      TokenSaysRequest(world, s, idText, nonce, expiry, a);
      TokenSaysRequest(world, s, idText, nonce, expiry, b);
      var key := NonceKey(s.actors[a].request);
      assert Spent(s, a, key) && Spent(s, b, key);
    }
    InjectionBound(users, NonceTextIn(s), Spellings(nonce));
  }

  function Resolution(id: Id, idText: Bytes, expiry: AuthLayouts.u64, token: Bytes): Bytes -> Request {
    nonceText => ResolveDispute(id, idText, [], nonceText, expiry, token)
  }

  /** The bound is met: a run in which one token resolves a dispute once for each spelling of its nonce. */
  lemma EveryTokenSpellingCommits(world: World, id: Id, idText: Bytes, nonce: Bytes, expiry: AuthLayouts.u64, token: Bytes)
      returns (steps: seq<Step>)
    requires HexDecode(idText) == Some(id) && world.verifyToken(DisputeToken(idText, nonce, expiry), token)
    ensures var (s, m) := (Run(world, steps), DisputeToken(idText, nonce, expiry));
            && |TokenUsers(s, m)| == Pow(2, Letters(Digits(nonce)))
            && forall a :: a in TokenUsers(s, m) ==> s.actors[a].phase.Committed? && s.actors[a].request.token == token
  {
    var req, texts := Resolution(id, idText, expiry, token), Spellings(nonce);
    forall x | x in texts ensures Willing(world, req(x), id) && TokenMessageOf(req(x)) == DisputeToken(idText, nonce, expiry) {
      SpellingsDecode(nonce, x);
    }
    forall x, y | x in texts && y in texts && x != y ensures NonceKey(req(x)) != NonceKey(req(y)) {
      KeysDiffer(idText, x, idText, y);
    }
    steps := CommitAll(world, id, req, texts);
    var s := Run(world, steps);
    assert TokenUsers(s, DisputeToken(idText, nonce, expiry)) == s.actors.Keys;
    SpellingCount(nonce);
  }

  /** A valid admin token is single-use in every run exactly when its nonce has no letter digit. */
  lemma TokenSingleUseIff(world: World, id: Id, idText: Bytes, nonce: Bytes, expiry: AuthLayouts.u64, token: Bytes)
    requires HexDecode(idText) == Some(id) && world.verifyToken(DisputeToken(idText, nonce, expiry), token)
    ensures (forall steps: seq<Step> :: |TokenUsers(Run(world, steps), DisputeToken(idText, nonce, expiry))| <= 1)
            <==> Letters(Digits(nonce)) == 0
  {
    if Letters(Digits(nonce)) == 0 {
      forall steps: seq<Step> ensures |TokenUsers(Run(world, steps), DisputeToken(idText, nonce, expiry))| <= 1 {
        UsesPerToken(world, steps, idText, nonce, expiry);
      }
    } else {
      var steps := EveryTokenSpellingCommits(world, id, idText, nonce, expiry, token);
      TwoOrMore(Letters(Digits(nonce)));
    }
  }
}
