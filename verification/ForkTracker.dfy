/** The reorganisation tracker of the Monero client (src/services/payments/xmr.rs). */
module ForkTracker {
  import opened Options

  type Hash = string

  /** What the node answers during one check; each read may fail on its own. */
  datatype View = View(height: Option<nat>, hashAt: nat -> Option<Hash>)

  datatype Tracked = Tracked(lastHeight: nat, lastHash: Hash, forkDetected: bool)

  const INIT := Tracked(0, "", false)

  /** One check: the new tracker state, and None for a failed read, else whether a fork was reported. */
  function Check(t: Tracked, v: View): (Tracked, Option<bool>) {
    if v.height.None? || v.hashAt(v.height.value).None? then (t, None)
    else
      var height, hash := v.height.value, v.hashAt(v.height.value).value;
      var moved := t.(lastHeight := height, lastHash := hash);
      if t.lastHeight == 0 then (moved, Some(false))
      else if height < t.lastHeight then (moved.(forkDetected := true), Some(true))
      else if height > t.lastHeight && t.lastHash != "" && v.hashAt(t.lastHeight).Some? && v.hashAt(t.lastHeight).value != t.lastHash
      then (t.(lastHash := hash, forkDetected := true), Some(true))
      else (moved, Some(false))
  }

  class Tracker {
    var lastHeight: nat
    var lastHash: Hash
    var forkDetected: bool

    constructor ()
      ensures State() == INIT
    {
      lastHeight, lastHash, forkDetected := 0, "", false;
    }

    function State(): Tracked
      reads this
    {
      Tracked(lastHeight, lastHash, forkDetected)
    }

    method CheckForFork(v: View) returns (r: Option<bool>)
      modifies this
      ensures (State(), r) == Check(old(State()), v)
    {
      if v.height.None? { return None; }
      var currentHeight := v.height.value;
      var read := v.hashAt(currentHeight);
      if read.None? { return None; }
      var currentHash := read.value;
      if lastHeight == 0 {
        lastHeight, lastHash := currentHeight, currentHash;
        return Some(false);
      }
      if currentHeight < lastHeight {
        forkDetected := true;
        lastHeight, lastHash := currentHeight, currentHash;
        return Some(true);
      }
      if currentHeight > lastHeight && lastHash != "" {
        var known := v.hashAt(lastHeight);
        if known.Some? && known.value != lastHash {
          forkDetected := true;
          lastHash := currentHash;
          return Some(true);
        }
      }
      lastHeight, lastHash := currentHeight, currentHash;
      return Some(false);
    }
  }

  // ----- Against chains, with reads that may fail -----

  /** The chain of a node, by its block hashes from height 0. */
  type Chain = c: seq<Hash> | |c| > 0 witness [""]

  /** What a node with one chain answers during a check: any of its reads may fail. */
  datatype Answers = Answers(chain: Chain, heightRead: bool, failing: set<nat>) {
    function Height(): nat { |chain| - 1 }

    function Seen(): View {
      View(if heightRead then Some(Height()) else None,
           (h: nat) => if h < |chain| && h !in failing then Some(chain[h]) else None)
    }

    /** The check gets past the height and the tip hash. */
    predicate TipRead() { heightRead && Height() !in failing }
  }

  function StateAfter(run: seq<Answers>): Tracked {
    if run == [] then INIT else Check(StateAfter(run[..|run| - 1]), run[|run| - 1].Seen()).0
  }

  /** Whether the check after a run reports a fork. */
  predicate ReportsAfter(run: seq<Answers>, next: Answers) {
    Check(StateAfter(run), next.Seen()).1 == Some(true)
  }

  /** Whether check i of the run does. */
  predicate Reports(run: seq<Answers>, i: nat)
    requires i < |run|
  {
    ReportsAfter(run[..i], run[i])
  }

  ghost predicate Silent(run: seq<Answers>) {
    forall i :: 0 <= i < |run| ==> !Reports(run, i)
  }

  /** The last chain whose height and tip hash were both read. */
  function LastRead(run: seq<Answers>): Option<Chain> {
    if run == [] then None
    else if run[|run| - 1].TipRead() then Some(run[|run| - 1].chain)
    else LastRead(run[..|run| - 1])
  }

  lemma SilentPrefix(run: seq<Answers>)
    requires run != [] && Silent(run)
    ensures Silent(run[..|run| - 1]) && !Reports(run, |run| - 1)
  {
    var prefix := run[..|run| - 1];
    forall i | 0 <= i < |prefix| ensures !Reports(prefix, i) {
      assert prefix[..i] == run[..i];
      assert !Reports(run, i);
    }
  }

  /** Until its first report the tracker holds the tip of the last chain whose height and tip hash were read,
      whatever other reads failed. */
  lemma {:induction false} SilentTracksLastRead(run: seq<Answers>)
    requires Silent(run)
    ensures StateAfter(run) ==
            match LastRead(run) { case None => INIT case Some(c) => Tracked(|c| - 1, c[|c| - 1], false) }
  {
    if run != [] {
      SilentPrefix(run);
      SilentTracksLastRead(run[..|run| - 1]);
    }
  }

  /** A block hash commits to everything below it. */
  ghost predicate Committing(c: Chain, d: Chain) {
    forall h :: 0 <= h < |c| && h < |d| && c[h] == d[h] ==> c[..h + 1] == d[..h + 1]
  }

  lemma TipDecides(c: Chain, d: Chain)
    requires Committing(c, d) && |c| <= |d|
    ensures c[|c| - 1] == d[|c| - 1] <==> c <= d
  {
    if c[|c| - 1] == d[|c| - 1] {
      assert c[..|c| - 1 + 1] == d[..|c| - 1 + 1];
      assert c == c[..|c|] == d[..|c|];
    }
  }

  /** What makes the next check report, after the tracker last took over chain c: the tip was read, and the
      chain is shorter, or it is longer, does not extend c, and the block tracked was read. Nothing is
      reported against a chain of one block, and the second case needs a tip hash that is not empty. */
  ghost predicate Noticed(c: Chain, next: Answers) {
    && next.TipRead() && |c| > 1
    && (|next.chain| < |c|
        || (|next.chain| > |c| && !(c <= next.chain) && c[|c| - 1] != "" && |c| - 1 !in next.failing))
  }

  /** One check of a tracker that holds the tip of c: what it compares. */
  lemma CheckCompares(c: Chain, next: Answers)
    ensures Check(Tracked(|c| - 1, c[|c| - 1], false), next.Seen()).1 == Some(true) <==>
            && next.TipRead() && |c| > 1
            && (|next.chain| < |c|
                || (|next.chain| > |c| && c[|c| - 1] != "" && |c| - 1 !in next.failing && next.chain[|c| - 1] != c[|c| - 1]))
  {}

  lemma FirstCheckIsSilent(next: Answers)
    ensures Check(INIT, next.Seen()).1 != Some(true)
  {}

  /** After any silent run the next check reports exactly the differences that can be noticed: shrinking and
      replaced histories, but not a swap at equal height or one behind a failed read. */
  lemma ReportsIffNoticed(run: seq<Answers>, next: Answers)
    requires Silent(run) && (LastRead(run).Some? ==> Committing(LastRead(run).value, next.chain))
    ensures ReportsAfter(run, next) <==>
            LastRead(run).Some? && Noticed(LastRead(run).value, next)
  {
    SilentTracksLastRead(run);
    if LastRead(run).None? {
      FirstCheckIsSilent(next);
    } else {
      var c := LastRead(run).value;
      CheckCompares(c, next);
      if |c| <= |next.chain| { TipDecides(c, next.chain); }
    }
  }

  /** With every read answered, a chain that shrank or replaced the tracked block is always reported. */
  lemma ForkIsReported(run: seq<Answers>, next: Answers)
    requires Silent(run) && LastRead(run).Some? && next.heightRead && next.failing == {}
    requires Committing(LastRead(run).value, next.chain)
    requires var c := LastRead(run).value;
             |c| > 1 && c[|c| - 1] != "" && |next.chain| != |c| && !(c <= next.chain)
    ensures ReportsAfter(run, next)
  {
    ReportsIffNoticed(run, next);
  }

  ghost predicate OnlyExtends(run: seq<Answers>) {
    forall i :: 0 <= i < |run| - 1 ==> run[i].chain <= run[i + 1].chain
  }

  lemma {:induction false} ExtendsThroughout(run: seq<Answers>, i: nat, j: nat)
    requires OnlyExtends(run) && i <= j < |run|
    ensures run[i].chain <= run[j].chain
    decreases j
  {
    if i < j {
      ExtendsThroughout(run, i, j - 1);
      assert run[j - 1].chain <= run[j - 1 + 1].chain;
    }
  }

  lemma PrefixOnlyExtends(run: seq<Answers>)
    requires run != [] && OnlyExtends(run)
    ensures OnlyExtends(run[..|run| - 1])
  {
    var prefix := run[..|run| - 1];
    forall i | 0 <= i < |prefix| - 1 ensures prefix[i].chain <= prefix[i + 1].chain {
      assert run[i].chain <= run[i + 1].chain;
    }
  }

  lemma {:induction false} LastReadIsIn(run: seq<Answers>) returns (i: nat)
    requires LastRead(run).Some?
    ensures i < |run| && run[i].chain == LastRead(run).value
  {
    i := |run| - 1;
    if !run[i].TipRead() { i := LastReadIsIn(run[..i]); }
  }

  lemma ExtensionIsSilent(run: seq<Answers>, next: Answers)
    requires Silent(run) && (LastRead(run).Some? ==> LastRead(run).value <= next.chain)
    ensures !ReportsAfter(run, next)
  {
    SilentTracksLastRead(run);
    if LastRead(run).None? { FirstCheckIsSilent(next); } else { CheckCompares(LastRead(run).value, next); }
  }

  /** A run of chains that only extend is never reported, whichever reads fail. */
  lemma {:induction false} ExtensionsStaySilent(run: seq<Answers>)
    requires OnlyExtends(run)
    ensures Silent(run)
  {
    if run != [] {
      var n := |run| - 1;
      var prefix := run[..n];
      PrefixOnlyExtends(run);
      ExtensionsStaySilent(prefix);
      if LastRead(prefix).Some? {
        var i := LastReadIsIn(prefix);
        ExtendsThroughout(run, i, n);
      }
      ExtensionIsSilent(prefix, run[n]);
      forall i | 0 <= i < |run| ensures !Reports(run, i) {
        if i < n {
          assert prefix[..i] == run[..i];
          assert !Reports(prefix, i);
        }
      }
    }
  }

  /** What a report leaves: the flag set, the new tip's hash, and its height unless the block tracked was seen
      replaced under a higher tip, in which case the old height stays. */
  lemma ReportLeaves(t: Tracked, next: Answers)
    requires Check(t, next.Seen()).1 == Some(true)
    ensures var u := Check(t, next.Seen()).0;
            && u.forkDetected && u.lastHash == next.chain[|next.chain| - 1]
            && u.lastHeight == if |next.chain| - 1 < t.lastHeight then |next.chain| - 1 else t.lastHeight
  {}

  /** What a check that reports nothing leaves: everything when the tip was not read, else the new tip; the flag
      as it was. */
  lemma QuietLeaves(t: Tracked, next: Answers)
    requires Check(t, next.Seen()).1 != Some(true)
    ensures var u := Check(t, next.Seen()).0;
            if next.TipRead() then u == Tracked(|next.chain| - 1, next.chain[|next.chain| - 1], t.forkDetected) else u == t
  {}
}
