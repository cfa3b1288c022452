/** The per-key request limiter (src/gateway/ratelimit.rs). Instants are integers of a clock that never
    runs back; the window is closed: an entry is renewed only when strictly more than it has passed. */
module RateLimiter {
  datatype RateEntry = RateEntry(count: nat, windowStart: nat)

  datatype Config = Config(maxRequests: nat, window: nat)

  type Buckets = map<string, RateEntry>

  /** The entry a call leaves behind and whether the call is let through. */
  function CheckKey(cfg: Config, b: Buckets, key: string, now: nat): (RateEntry, bool) {
    if key !in b then (RateEntry(1, now), true)
    else
      var e := b[key];
      if now - e.windowStart > cfg.window then (RateEntry(1, now), true)
      else if e.count >= cfg.maxRequests then (e, false)
      else (e.(count := e.count + 1), true)
  }

  class RateLimiter {
    var buckets: Buckets
    const config: Config

    constructor (maxRequests: nat, windowSeconds: nat)
      ensures buckets == map[] && config == Config(maxRequests, windowSeconds)
    {
      buckets := map[];
      config := Config(maxRequests, windowSeconds);
    }

    method Check(key: string, now: nat) returns (allowed: bool)
      modifies this
      ensures buckets == old(buckets)[key := CheckKey(config, old(buckets), key, now).0]
      ensures allowed == CheckKey(config, old(buckets), key, now).1
    {
      if key in buckets {
        var entry := buckets[key];
        if now - entry.windowStart > config.window {
          buckets := buckets[key := RateEntry(1, now)];
          return true;
        }
        if entry.count >= config.maxRequests {
          assert buckets[key := entry] == buckets;
          return false;
        }
        buckets := buckets[key := entry.(count := entry.count + 1)];
        return true;
      } else {
        buckets := buckets[key := RateEntry(1, now)];
        return true;
      }
    }
  }

  // ----- Runs -----

  datatype Call = Call(key: string, now: nat)

  function BucketsAfter(cfg: Config, run: seq<Call>): Buckets {
    if run == [] then map[]
    else
      var b, c := BucketsAfter(cfg, run[..|run| - 1]), run[|run| - 1];
      b[c.key := CheckKey(cfg, b, c.key, c.now).0]
  }

  /** The answer to one more call after a run. */
  predicate Allowed(cfg: Config, run: seq<Call>, c: Call) {
    CheckKey(cfg, BucketsAfter(cfg, run), c.key, c.now).1
  }

  /** Calls of a key let through at times in a closed interval. */
  function AcceptedBetween(cfg: Config, run: seq<Call>, key: string, from: int, to: int): nat {
    if run == [] then 0
    else
      var prefix, c := run[..|run| - 1], run[|run| - 1];
      AcceptedBetween(cfg, prefix, key, from, to) +
      (if c.key == key && from <= c.now <= to && Allowed(cfg, prefix, c) then 1 else 0)
  }

  ghost predicate MonotoneClock(run: seq<Call>) {
    forall i, j :: 0 <= i < j < |run| ==> run[i].now <= run[j].now
  }

  function Limit(cfg: Config): nat {
    if cfg.maxRequests == 0 then 1 else cfg.maxRequests
  }

  /** The most calls of a key any interval no longer than the window can hold. With a window of zero every
      instant starts afresh; otherwise two limits, less one, can fall around a window's end. */
  function Bound(cfg: Config): nat {
    if cfg.window == 0 then Limit(cfg) else 2 * Limit(cfg) - 1
  }

  /** What a key's entry says about its acceptances in an interval no longer than the window. */
  ghost predicate EntryBounds(cfg: Config, run: seq<Call>, key: string, from: int, to: int) {
    var b, n := BucketsAfter(cfg, run), AcceptedBetween(cfg, run, key, from, to);
    if key !in b then n == 0
    else
      var e := b[key];
      && run != [] && 1 <= e.count <= Limit(cfg) && e.windowStart <= run[|run| - 1].now
      && (run[|run| - 1].now < from ==> n == 0)
      && (e.windowStart < from ==> n <= e.count - 1)
      && (from <= e.windowStart <= to ==> n <= Limit(cfg) - 1 + e.count)
      && (cfg.window == 0 && e.windowStart < from ==> n == 0)
      && (cfg.window == 0 && from <= e.windowStart <= to ==> n <= e.count)
      && n <= Bound(cfg)
  }

  lemma {:induction false} RunKeepsEntryBounds(cfg: Config, run: seq<Call>, key: string, from: int, to: int)
    requires MonotoneClock(run) && to - from <= cfg.window
    ensures EntryBounds(cfg, run, key, from, to)
  {
    if run != [] {
      RunKeepsEntryBounds(cfg, run[..|run| - 1], key, from, to);
      if |run| > 1 { assert run[|run| - 2].now <= run[|run| - 1].now; }
    }
  }

  /** Any interval no longer than the window holds at most the bound's accepted calls of a key. */
  lemma AtMostBound(cfg: Config, run: seq<Call>, key: string, from: int, to: int)
    requires MonotoneClock(run) && to - from <= cfg.window
    ensures AcceptedBetween(cfg, run, key, from, to) <= Bound(cfg)
  {
    RunKeepsEntryBounds(cfg, run, key, from, to);
  }

  lemma {:induction false} WiderCountsMore(cfg: Config, run: seq<Call>, key: string, from: int, to: int, from': int, to': int)
    requires from' <= from && to <= to'
    ensures AcceptedBetween(cfg, run, key, from, to) <= AcceptedBetween(cfg, run, key, from', to')
  {
    if run != [] { WiderCountsMore(cfg, run[..|run| - 1], key, from, to, from', to'); }
  }

  /** An entry's count is backed by that many acceptances since its window began. */
  lemma {:induction false} CountIsBacked(cfg: Config, run: seq<Call>, key: string)
    requires MonotoneClock(run) && key in BucketsAfter(cfg, run)
    ensures run != []
    ensures var e, now := BucketsAfter(cfg, run)[key], run[|run| - 1].now;
            e.windowStart <= now && AcceptedBetween(cfg, run, key, e.windowStart, now) >= e.count
  {
    var prefix, c := run[..|run| - 1], run[|run| - 1];
    var b := BucketsAfter(cfg, prefix);
    if key in b {
      CountIsBacked(cfg, prefix, key);
      assert prefix[|prefix| - 1].now <= c.now;
      WiderCountsMore(cfg, prefix, key, b[key].windowStart, prefix[|prefix| - 1].now, b[key].windowStart, c.now);
    }
  }

  /** A refusal means the limit was used up within the last window. */
  lemma RefusalIsEarned(cfg: Config, run: seq<Call>, c: Call)
    requires MonotoneClock(run + [c]) && !Allowed(cfg, run, c)
    ensures AcceptedBetween(cfg, run, c.key, c.now - cfg.window, c.now) >= cfg.maxRequests
  {
    assert forall i :: 0 <= i < |run| ==> run[i] == (run + [c])[i];
    CountIsBacked(cfg, run, c.key);
    var last := run[|run| - 1];
    assert last == (run + [c])[|run| - 1] && c == (run + [c])[|run|];
    var e := BucketsAfter(cfg, run)[c.key];
    WiderCountsMore(cfg, run, c.key, e.windowStart, last.now, c.now - cfg.window, c.now);
  }

  function Project(run: seq<Call>, key: string): seq<Call> {
    if run == [] then []
    else Project(run[..|run| - 1], key) + (if run[|run| - 1].key == key then [run[|run| - 1]] else [])
  }

  lemma {:induction false} ProjectionKeepsEntry(cfg: Config, run: seq<Call>, key: string)
    ensures var (b, p) := (BucketsAfter(cfg, run), BucketsAfter(cfg, Project(run, key)));
            if key in b then key in p && p[key] == b[key] else key !in p
  {
    if run != [] {
      var prefix, c := run[..|run| - 1], run[|run| - 1];
      ProjectionKeepsEntry(cfg, prefix, key);
      if c.key == key {
        assert Project(run, key)[..|Project(run, key)| - 1] == Project(prefix, key);
      } else {
        assert Project(run, key) == Project(prefix, key);
      }
    }
  }

  /** The answer to a call depends only on the earlier calls of its own key. */
  lemma KeysAreIndependent(cfg: Config, run: seq<Call>, c: Call)
    ensures Allowed(cfg, run, c) <==> Allowed(cfg, Project(run, c.key), c)
  {
    ProjectionKeepsEntry(cfg, run, c.key);
  }

  // ----- The bound is attained -----

  /** Runs whose last call is no later than the given time. */
  ghost predicate Until(run: seq<Call>, now: nat) {
    MonotoneClock(run) && forall i :: 0 <= i < |run| ==> run[i].now <= now
  }

  lemma AppendCall(cfg: Config, run: seq<Call>, c: Call, from: int, to: int) returns (out: seq<Call>)
    requires Until(run, c.now) && from <= c.now
    requires CheckKey(cfg, BucketsAfter(cfg, run), c.key, c.now).1
    ensures Until(out, c.now) && c.key in BucketsAfter(cfg, out)
    ensures BucketsAfter(cfg, out)[c.key] == CheckKey(cfg, BucketsAfter(cfg, run), c.key, c.now).0
    ensures AcceptedBetween(cfg, out, c.key, from, to) ==
            AcceptedBetween(cfg, run, c.key, from, to) + (if c.now <= to then 1 else 0)
  {
    out := run + [c];
    assert out[..|run|] == run;
  }

  /** Repeated calls at one instant of a window raise the count one by one up to the limit. */
  lemma {:induction false} RepeatAccepted(cfg: Config, run: seq<Call>, c: Call, n: nat, e: RateEntry, from: int, to: int)
      returns (out: seq<Call>)
    requires Until(run, c.now) && from <= c.now <= to
    requires c.key in BucketsAfter(cfg, run) && BucketsAfter(cfg, run)[c.key] == e
    requires 0 <= c.now - e.windowStart <= cfg.window && (n > 0 ==> e.count + n <= cfg.maxRequests)
    ensures Until(out, c.now)
    ensures c.key in BucketsAfter(cfg, out) && BucketsAfter(cfg, out)[c.key] == e.(count := e.count + n)
    ensures AcceptedBetween(cfg, out, c.key, from, to) == AcceptedBetween(cfg, run, c.key, from, to) + n
    decreases n
  {
    out := run;
    if n > 0 {
      out := RepeatAccepted(cfg, run, c, n - 1, e, from, to);
      out := AppendCall(cfg, out, c, from, to);
    }
  }

  /** For every limit and window some run reaches the bound within an interval of at most one time unit and
      at most the window: one early call opens a window, the rest of its limit falls on the window's last
      instant, and a full limit follows. Without a window, or with a limit of one, a single burst does. */
  lemma BoundIsAttained(cfg: Config, key: string) returns (run: seq<Call>, from: nat, to: nat)
    ensures MonotoneClock(run) && from <= to && to - from <= cfg.window && to - from <= 1
    ensures AcceptedBetween(cfg, run, key, from, to) == Bound(cfg)
  {
    if cfg.window == 0 || cfg.maxRequests == 0 {
      run := Burst(cfg, key);
      from, to := 0, 0;
    } else {
      run := AroundWindowEnd(cfg, key);
      from, to := cfg.window, cfg.window + 1;
    }
  }

  lemma Burst(cfg: Config, key: string) returns (run: seq<Call>)
    ensures MonotoneClock(run) && AcceptedBetween(cfg, run, key, 0, 0) == Limit(cfg)
  {
    var c := Call(key, 0);
    run := AppendCall(cfg, [], c, 0, 0);
    run := RepeatAccepted(cfg, run, c, Limit(cfg) - 1, RateEntry(1, 0), 0, 0);
  }

  lemma AroundWindowEnd(cfg: Config, key: string) returns (run: seq<Call>)
    requires cfg.maxRequests > 0 && cfg.window > 0
    ensures MonotoneClock(run)
    ensures AcceptedBetween(cfg, run, key, cfg.window, cfg.window + 1) == 2 * Limit(cfg) - 1
  {
    var m, w := cfg.maxRequests, cfg.window;
    var late, next := Call(key, w), Call(key, w + 1);
    run := [Call(key, 0)];
    assert run[..0] == [];
    run := RepeatAccepted(cfg, run, late, m - 1, RateEntry(1, 0), w, w + 1);
    run := AppendCall(cfg, run, next, w, w + 1);
    run := RepeatAccepted(cfg, run, next, m - 1, RateEntry(1, w + 1), w, w + 1);
  }
}
