/** The hour-bucketed replay cache of the request authenticator (src/gateway/stateless_auth.rs). The
    freshness check and the cache insertion are one atomic step on a clock that never runs back. */
module ReplayCache {
  import opened Bytes

  const MAX_NONCES_PER_BUCKET := 10_000

  type Buckets = map<nat, set<Bytes>>

  function SaturatingDec(h: nat): nat {
    if h == 0 then 0 else h - 1
  }

  /** Buckets older than one hour before the request's hour are dropped. */
  function Retained(c: Buckets, hour: nat): Buckets {
    map h | h in c && h >= SaturatingDec(hour) :: c[h]
  }

  function BucketOf(c: Buckets, hour: nat): set<Bytes> {
    if hour in c then c[hour] else {}
  }

  /** The bucket the nonce is inserted into: emptied first when it is full. */
  function Opened(c: Buckets, hour: nat): set<Bytes> {
    var b := BucketOf(Retained(c, hour), hour);
    if |b| >= MAX_NONCES_PER_BUCKET then {} else b
  }

  function Checked(c: Buckets, hour: nat, nonce: Bytes): Buckets {
    Retained(c, hour)[hour := Opened(c, hour) + {nonce}]
  }

  class Cache {
    var buckets: Buckets

    constructor ()
      ensures buckets == map[]
    {
      buckets := map[];
    }

    /** Inserts the nonce; false when it was already there. */
    method CheckReplay(hour: nat, nonce: Bytes) returns (unseen: bool)
      modifies this
      ensures buckets == Checked(old(buckets), hour, nonce)
      ensures unseen <==> nonce !in Opened(old(buckets), hour)
    {
      buckets := map h | h in buckets && h >= SaturatingDec(hour) :: buckets[h];
      var entry := if hour in buckets then buckets[hour] else {};
      if |entry| >= MAX_NONCES_PER_BUCKET {
        entry := {};
      }
      unseen := nonce !in entry;
      buckets := buckets[hour := entry + {nonce}];
    }

    /** The middleware after header parsing; `authentic` is the verdict of the HMAC and the signature. */
    method Authenticate(q: Request) returns (verdict: Verdict)
      modifies this
      ensures (buckets, verdict) == Handle(old(buckets), q)
    {
      if q.hour > q.now || q.hour < SaturatingDec(q.now) {
        return Stale;
      }
      if !q.authentic {
        return Forged;
      }
      var unseen := CheckReplay(q.hour, q.nonce);
      verdict := if unseen then Accepted else Replayed;
    }
  }

  datatype Request = Request(now: nat, hour: nat, nonce: Bytes, authentic: bool)
  datatype Verdict = Stale | Forged | Replayed | Accepted

  predicate IsFresh(q: Request) {
    SaturatingDec(q.now) <= q.hour <= q.now
  }

  function Handle(c: Buckets, q: Request): (Buckets, Verdict) {
    if !IsFresh(q) then (c, Stale)
    else if !q.authentic then (c, Forged)
    else (Checked(c, q.hour, q.nonce), if q.nonce in Opened(c, q.hour) then Replayed else Accepted)
  }

  // ----- Runs -----

  function CacheAfter(run: seq<Request>): Buckets {
    if run == [] then map[] else Handle(CacheAfter(run[..|run| - 1]), run[|run| - 1]).0
  }

  predicate AcceptsLast(run: seq<Request>)
    requires run != []
  {
    Handle(CacheAfter(run[..|run| - 1]), run[|run| - 1]).1 == Accepted
  }

  /** Acceptances of one (hour, nonce) pair in a run. */
  function Accepts(run: seq<Request>, hour: nat, nonce: Bytes): nat {
    if run == [] then 0
    else
      var q := run[|run| - 1];
      Accepts(run[..|run| - 1], hour, nonce) +
      (if AcceptsLast(run) && q.hour == hour && q.nonce == nonce then 1 else 0)
  }

  /** All acceptances in one hour bucket. */
  function AcceptsInHour(run: seq<Request>, hour: nat): nat {
    if run == [] then 0
    else
      AcceptsInHour(run[..|run| - 1], hour) + (if AcceptsLast(run) && run[|run| - 1].hour == hour then 1 else 0)
  }

  ghost predicate MonotoneClock(run: seq<Request>) {
    forall i, j :: 0 <= i < j < |run| ==> run[i].now <= run[j].now
  }

  function CeilDiv(a: nat, b: nat): nat
    requires b > 0
  {
    (a + b - 1) / b
  }

  /** Bucket shape at clock reading `now`. */
  ghost predicate Bounded(c: Buckets, now: nat) {
    forall h :: h in c ==> h <= now && 1 <= |c[h]| <= MAX_NONCES_PER_BUCKET
  }

  lemma HandleKeepsBounds(c: Buckets, q: Request, before: nat)
    requires Bounded(c, before) && before <= q.now
    ensures Bounded(Handle(c, q).0, q.now)
  {
    if IsFresh(q) && q.authentic {
      var c' := Checked(c, q.hour, q.nonce);
      forall h | h in c' ensures h <= q.now && 1 <= |c'[h]| <= MAX_NONCES_PER_BUCKET {
        if h != q.hour { assert c'[h] == c[h]; }
      }
    }
  }

  lemma {:induction false} RunKeepsBounds(run: seq<Request>)
    requires run != [] && MonotoneClock(run)
    ensures Bounded(CacheAfter(run), run[|run| - 1].now)
  {
    var prefix := run[..|run| - 1];
    if prefix != [] {
      RunKeepsBounds(prefix);
      HandleKeepsBounds(CacheAfter(prefix), run[|run| - 1], prefix[|prefix| - 1].now);
    } else {
      HandleKeepsBounds(map[], run[|run| - 1], 0);
    }
  }

  ghost predicate KeysWithin(c: Buckets, lo: int, hi: int) {
    forall h :: h in c ==> lo <= h <= hi
  }

  /** However long the run, a request that reached the cache leaves at most three buckets, for hours from
      two before the clock up to the clock, each holding between one and 10000 nonces. */
  lemma CacheStaysSmall(run: seq<Request>)
    requires run != [] && MonotoneClock(run)
    requires IsFresh(run[|run| - 1]) && run[|run| - 1].authentic
    ensures var (c, now) := (CacheAfter(run), run[|run| - 1].now);
            && KeysWithin(c, now as int - 2, now) && |c| <= 3
            && forall h :: h in c ==> 1 <= |c[h]| <= 10_000
  {
    RunKeepsBounds(run);
    var c, now := CacheAfter(run), run[|run| - 1].now;
    assert KeysWithin(c, now as int - 2, now);
    AtMostThree(c.Keys, now);
    assert |c| == |c.Keys|;
  }

  lemma AtMostThree(keys: set<nat>, now: nat)
    requires forall h :: h in keys ==> now - 2 <= h <= now
    ensures |keys| <= 3
  {
    SubsetSize(keys, {now, SaturatingDec(now), SaturatingDec(SaturatingDec(now))});
  }

  lemma {:induction false} SubsetSize<T>(a: set<T>, b: set<T>)
    requires a <= b
    ensures |a| <= |b|
  {
    if x :| x in a {
      SubsetSize(a - {x}, b - {x});
    }
  }

  // ----- How often one nonce gets through -----

  /** Whether the request reaches the cache for this hour and finds its bucket full. */
  predicate Empties(c: Buckets, q: Request, hour: nat) {
    IsFresh(q) && q.authentic && q.hour == hour && |BucketOf(c, hour)| >= MAX_NONCES_PER_BUCKET
  }

  /** How many full buckets of this hour were emptied. */
  function Filled(run: seq<Request>, hour: nat): nat {
    if run == [] then 0
    else Filled(run[..|run| - 1], hour) + (if Empties(CacheAfter(run[..|run| - 1]), run[|run| - 1], hour) then 1 else 0)
  }

  lemma OneMore(run: seq<Request>, q: Request, hour: nat, nonce: Bytes)
    ensures var accepted := Handle(CacheAfter(run), q).1 == Accepted && q.hour == hour;
            && CacheAfter(run + [q]) == Handle(CacheAfter(run), q).0
            && AcceptsInHour(run + [q], hour) == AcceptsInHour(run, hour) + (if accepted then 1 else 0)
            && Accepts(run + [q], hour, nonce) == Accepts(run, hour, nonce) + (if accepted && q.nonce == nonce then 1 else 0)
            && Filled(run + [q], hour) == Filled(run, hour) + (if Empties(CacheAfter(run), q, hour) then 1 else 0)
  {
    assert (run + [q])[..|run|] == run;
  }

  /** What one request does to the bucket of an hour that is still fresh. */
  lemma BucketStep(c: Buckets, q: Request, hour: nat)
    requires SaturatingDec(q.now) <= hour && |BucketOf(c, hour)| <= MAX_NONCES_PER_BUCKET
    ensures var (c', verdict) := Handle(c, q);
            var b := if Empties(c, q, hour) then {} else BucketOf(c, hour);
            if verdict == Accepted && q.hour == hour
            then q.nonce !in b && BucketOf(c', hour) == b + {q.nonce} && |BucketOf(c', hour)| == |b| + 1
            else BucketOf(c', hour) == BucketOf(c, hour) && !Empties(c, q, hour)
  {
    if IsFresh(q) && q.authentic {
      assert BucketOf(Retained(c, q.hour), hour) == BucketOf(c, hour);
      if q.hour == hour && q.nonce in Opened(c, hour) {
        assert Opened(c, hour) + {q.nonce} == Opened(c, hour);
      }
    }
  }

  /** While an hour can still pass the freshness check, its acceptances are the emptied buckets plus the
      present one, and a nonce was accepted at most once for each. */
  ghost predicate Accounted(run: seq<Request>, hour: nat, nonce: Bytes) {
    var b := BucketOf(CacheAfter(run), hour);
    && |b| <= MAX_NONCES_PER_BUCKET
    && AcceptsInHour(run, hour) == MAX_NONCES_PER_BUCKET * Filled(run, hour) + |b|
    && Accepts(run, hour, nonce) <= Filled(run, hour) + (if nonce in b then 1 else 0)
  }

  lemma {:induction false} LiveHourAccounted(run: seq<Request>, hour: nat, nonce: Bytes)
    requires forall i :: 0 <= i < |run| ==> SaturatingDec(run[i].now) <= hour
    ensures Accounted(run, hour, nonce)
  {
    if run != [] {
      var prefix, q := run[..|run| - 1], run[|run| - 1];
      assert run == prefix + [q];
      LiveHourAccounted(prefix, hour, nonce);
      OneMore(prefix, q, hour, nonce);
      BucketStep(CacheAfter(prefix), q, hour);
    }
  }

  lemma AccountBound(run: seq<Request>, hour: nat, nonce: Bytes)
    requires Accounted(run, hour, nonce)
    ensures Accepts(run, hour, nonce) <= CeilDiv(AcceptsInHour(run, hour), MAX_NONCES_PER_BUCKET)
  {
    var b := BucketOf(CacheAfter(run), hour);
    if nonce in b { assert |b| > 0; }
  }

  /** Once the hour is stale its counts no longer move, so the bound they reached remains. */
  lemma {:induction false} CountBound(run: seq<Request>, hour: nat, nonce: Bytes)
    requires MonotoneClock(run)
    ensures Accepts(run, hour, nonce) <= CeilDiv(AcceptsInHour(run, hour), MAX_NONCES_PER_BUCKET)
  {
    if run != [] {
      var prefix, q := run[..|run| - 1], run[|run| - 1];
      assert run == prefix + [q];
      if SaturatingDec(q.now) <= hour {
        LiveHourAccounted(run, hour, nonce);
        AccountBound(run, hour, nonce);
      } else {
        OneMore(prefix, q, hour, nonce);
        CountBound(prefix, hour, nonce);
      }
    }
  }

  /** Over every run one (hour, nonce) pair is accepted at most once per started ten thousand acceptances
      of that hour; so at most once in an hour with up to 10000 acceptances. */
  lemma AcceptedAtMostOncePerFilledBucket(run: seq<Request>, hour: nat, nonce: Bytes)
    requires MonotoneClock(run)
    ensures Accepts(run, hour, nonce) <= CeilDiv(AcceptsInHour(run, hour), 10_000)
    ensures AcceptsInHour(run, hour) <= 10_000 ==> Accepts(run, hour, nonce) <= 1
  {
    CountBound(run, hour, nonce);
  }

  // ----- Exactly when a replay gets through -----

  /** A nonce accepted when `filled` buckets had been emptied is in the bucket while that count stands. */
  ghost predicate Remembers(run: seq<Request>, hour: nat, nonce: Bytes, filled: nat) {
    var b := BucketOf(CacheAfter(run), hour);
    && 1 <= |b| <= MAX_NONCES_PER_BUCKET && filled <= Filled(run, hour)
    && AcceptsInHour(run, hour) == MAX_NONCES_PER_BUCKET * Filled(run, hour) + |b|
    && (nonce in b <==> Filled(run, hour) == filled)
  }

  lemma AcceptanceIsRemembered(run: seq<Request>)
    requires run != [] && MonotoneClock(run) && AcceptsLast(run)
    ensures var q := run[|run| - 1];
            && Remembers(run, q.hour, q.nonce, Filled(run, q.hour))
            && CeilDiv(AcceptsInHour(run, q.hour), MAX_NONCES_PER_BUCKET) == Filled(run, q.hour) + 1
  {
    var prefix, q := run[..|run| - 1], run[|run| - 1];
    LiveHourAccounted(run, q.hour, q.nonce);
    LiveHourAccounted(prefix, q.hour, q.nonce);
    BucketStep(CacheAfter(prefix), q, q.hour);
  }

  lemma {:induction false} ExtensionRemembers(run: seq<Request>, ext: seq<Request>, hour: nat, nonce: Bytes, filled: nat)
    requires Remembers(run, hour, nonce, filled)
    requires forall i :: 0 <= i < |ext| ==> SaturatingDec(ext[i].now) <= hour
    requires Accepts(run + ext, hour, nonce) == Accepts(run, hour, nonce)
    ensures Remembers(run + ext, hour, nonce, filled)
  {
    if ext == [] {
      assert run + ext == run;
    } else {
      var shorter, q := ext[..|ext| - 1], ext[|ext| - 1];
      var before := run + shorter;
      assert run + ext == before + [q];
      OneMore(before, q, hour, nonce);
      AcceptsGrow(run, shorter, hour, nonce);
      ExtensionRemembers(run, shorter, hour, nonce, filled);
      BucketStep(CacheAfter(before), q, hour);
    }
  }

  lemma {:induction false} AcceptsGrow(run: seq<Request>, ext: seq<Request>, hour: nat, nonce: Bytes)
    ensures Accepts(run, hour, nonce) <= Accepts(run + ext, hour, nonce)
  {
    if ext == [] {
      assert run + ext == run;
    } else {
      assert (run + ext)[..|run + ext| - 1] == run + ext[..|ext| - 1];
      AcceptsGrow(run, ext[..|ext| - 1], hour, nonce);
    }
  }

  lemma RememberedVerdict(run: seq<Request>, q: Request, filled: nat)
    requires Remembers(run, q.hour, q.nonce, filled) && q.authentic && IsFresh(q)
    ensures Handle(CacheAfter(run), q).1 == Accepted <==>
            AcceptsInHour(run, q.hour) >= MAX_NONCES_PER_BUCKET * (filled + 1)
  {
    assert BucketOf(Retained(CacheAfter(run), q.hour), q.hour) == BucketOf(CacheAfter(run), q.hour);
  }

  /** An accepted nonce presented again while its hour is fresh is accepted once more exactly when the
      hour's acceptances have filled the bucket of 10000 it was recorded in. */
  lemma ReplayAcceptedIffBucketFilled(run: seq<Request>, ext: seq<Request>, again: Request)
    requires run != [] && AcceptsLast(run) && MonotoneClock(run + ext + [again])
    requires var q := run[|run| - 1];
             && again.hour == q.hour && again.nonce == q.nonce && again.authentic && IsFresh(again)
             && Accepts(run + ext, q.hour, q.nonce) == Accepts(run, q.hour, q.nonce)
    ensures var hour := again.hour;
            Handle(CacheAfter(run + ext), again).1 == Accepted <==>
            AcceptsInHour(run + ext, hour) >=
              10_000 * CeilDiv(AcceptsInHour(run, hour), 10_000)
  {
    var all, q := run + ext + [again], run[|run| - 1];
    assert forall i :: 0 <= i < |run| ==> run[i] == all[i];
    assert forall i :: 0 <= i < |ext| ==> ext[i] == all[|run| + i];
    assert again == all[|all| - 1];
    AcceptanceIsRemembered(run);
    ExtensionRemembers(run, ext, q.hour, q.nonce, Filled(run, q.hour));
    RememberedVerdict(run + ext, again, Filled(run, q.hour));
  }

  /** What a bucket holds was accepted. */
  lemma {:induction false} HeldWasAccepted(run: seq<Request>, hour: nat, nonce: Bytes)
    requires nonce in BucketOf(CacheAfter(run), hour)
    ensures Accepts(run, hour, nonce) > 0
  {
    var prefix, q := run[..|run| - 1], run[|run| - 1];
    var c := CacheAfter(prefix);
    if nonce in BucketOf(c, hour) {
      HeldWasAccepted(prefix, hour, nonce);
    } else {
      assert q.nonce == nonce && q.hour == hour && nonce !in Opened(c, hour);
    }
  }

  /** The verdict before the cache is asked, by the hours alone: late or early requests are stale, whatever they
      carry; of the others the unauthentic ones are forged. Neither touches the cache. */
  lemma StaleIff(c: Buckets, q: Request)
    ensures Handle(c, q).1 == Stale <==> q.hour > q.now || q.hour + 1 < q.now
    ensures Handle(c, q).1 == Forged <==> q.hour <= q.now <= q.hour + 1 && !q.authentic
    ensures Handle(c, q).1 in {Stale, Forged} ==> Handle(c, q).0 == c
  {}

  /** A client that signs in the present hour or the one before, with a nonce never accepted in the hour it
      names, is accepted after every run. */
  lemma TimelyRequestIsAccepted(run: seq<Request>, now: nat, hour: nat, nonce: Bytes)
    requires now == hour || now == hour + 1
    requires Accepts(run, hour, nonce) == 0
    ensures Handle(CacheAfter(run), Request(now, hour, nonce, true)).1 == Accepted
  {
    NewNonceIsAccepted(run, Request(now, hour, nonce, true));
  }

  /** A fresh authentic request whose nonce was never accepted in its hour is accepted: no flood makes the
      cache refuse a new nonce. */
  lemma NewNonceIsAccepted(run: seq<Request>, q: Request)
    requires IsFresh(q) && q.authentic && Accepts(run, q.hour, q.nonce) == 0
    ensures Handle(CacheAfter(run), q).1 == Accepted
  {
    if q.nonce in BucketOf(CacheAfter(run), q.hour) { HeldWasAccepted(run, q.hour, q.nonce); }
  }

  // ----- The bound is attained -----

  /** Nonces that differ from each other and from the given one. */
  function Filler(nonce: Bytes, i: nat): Bytes {
    nonce + seq(i + 1, _ => 0)
  }

  function Fillers(nonce: Bytes, n: nat): set<Bytes> {
    if n == 0 then {} else Fillers(nonce, n - 1) + {Filler(nonce, n - 1)}
  }

  lemma {:induction false} FillersDiffer(nonce: Bytes, n: nat)
    ensures |Fillers(nonce, n)| == n
    ensures forall x :: x in Fillers(nonce, n) ==> |nonce| < |x| <= |nonce| + n
  {
    if n > 0 { FillersDiffer(nonce, n - 1); }
  }

  /** A run at one instant after which the bucket holds the nonce, accepted k times, and i fillers. */
  ghost predicate Flooded(run: seq<Request>, hour: nat, nonce: Bytes, k: nat, i: nat) {
    && (forall j :: 0 <= j < |run| ==> run[j].now == hour)
    && BucketOf(CacheAfter(run), hour) == {nonce} + Fillers(nonce, i)
    && Accepts(run, hour, nonce) == k && k > 0
    && AcceptsInHour(run, hour) == MAX_NONCES_PER_BUCKET * (k - 1) + 1 + i
  }

  lemma FloodStep(run: seq<Request>, hour: nat, nonce: Bytes, k: nat, i: nat) returns (out: seq<Request>)
    requires Flooded(run, hour, nonce, k, i) && i + 1 < MAX_NONCES_PER_BUCKET
    ensures Flooded(out, hour, nonce, k, i + 1)
  {
    var q := Request(hour, hour, Filler(nonce, i), true);
    FillerIsAccepted(CacheAfter(run), hour, nonce, i);
    OneMore(run, q, hour, nonce);
    out := run + [q];
  }

  lemma FillerIsAccepted(c: Buckets, hour: nat, nonce: Bytes, i: nat)
    requires BucketOf(c, hour) == {nonce} + Fillers(nonce, i) && i + 1 < MAX_NONCES_PER_BUCKET
    ensures Filler(nonce, i) != nonce
    ensures var (c', verdict) := Handle(c, Request(hour, hour, Filler(nonce, i), true));
            verdict == Accepted && BucketOf(c', hour) == {nonce} + Fillers(nonce, i + 1)
  {
    FillersDiffer(nonce, i);
    assert |BucketOf(c, hour)| == i + 1;
    assert BucketOf(Retained(c, hour), hour) == BucketOf(c, hour);
  }

  lemma {:induction false} Flood(run: seq<Request>, hour: nat, nonce: Bytes, k: nat, j: nat, i: nat) returns (out: seq<Request>)
    requires Flooded(run, hour, nonce, k, j) && j <= i < MAX_NONCES_PER_BUCKET
    ensures Flooded(out, hour, nonce, k, i)
    decreases i - j
  {
    out := run;
    if j < i {
      out := FloodStep(run, hour, nonce, k, j);
      out := Flood(out, hour, nonce, k, j + 1, i);
    }
  }

  lemma ReplayAfterFlood(run: seq<Request>, hour: nat, nonce: Bytes, k: nat, i: nat) returns (out: seq<Request>)
    requires Flooded(run, hour, nonce, k, i) && i + 1 == MAX_NONCES_PER_BUCKET
    ensures Flooded(out, hour, nonce, k + 1, 0)
  {
    var q := Request(hour, hour, nonce, true);
    FillersDiffer(nonce, i);
    var c := CacheAfter(run);
    assert |BucketOf(c, hour)| == i + 1;
    assert BucketOf(Retained(c, hour), hour) == BucketOf(c, hour);
    OneMore(run, q, hour, nonce);
    out := run + [q];
  }

  lemma FirstAcceptance(hour: nat, nonce: Bytes) returns (out: seq<Request>)
    ensures Flooded(out, hour, nonce, 1, 0)
  {
    var q := Request(hour, hour, nonce, true);
    out := [q];
    assert out == [] + [q];
    OneMore([], q, hour, nonce);
  }

  lemma {:induction false} FloodRounds(hour: nat, nonce: Bytes, k: nat) returns (out: seq<Request>)
    requires k > 0
    ensures Flooded(out, hour, nonce, k, 0)
  {
    if k == 1 {
      out := FirstAcceptance(hour, nonce);
    } else {
      out := FloodRounds(hour, nonce, k - 1);
      var last: nat := MAX_NONCES_PER_BUCKET - 1;
      out := Flood(out, hour, nonce, k - 1, 0, last);
      out := ReplayAfterFlood(out, hour, nonce, k - 1, last);
    }
  }

  /** For every pair and every k some run accepts the pair k times with one acceptance more than k - 1 full
      buckets, so no smaller bound on acceptances holds. */
  lemma BoundIsAttained(hour: nat, nonce: Bytes, k: nat) returns (run: seq<Request>)
    requires k > 0
    ensures MonotoneClock(run)
    ensures Accepts(run, hour, nonce) == k
    ensures AcceptsInHour(run, hour) == 10_000 * (k - 1) + 1
    ensures CeilDiv(AcceptsInHour(run, hour), 10_000) == k
  {
    run := FloodRounds(hour, nonce, k);
  }
}
