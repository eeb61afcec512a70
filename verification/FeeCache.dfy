/**
 The cache of fee readings shared by the order-posting requests of a node: readings are reusable while
 younger than the lifetime of the asking coin, and the adaptive lifetime grows while readings do not change.
 */
module FeeCache {
  import opened Base
  import opened FeeLifetime

  datatype Kind = UtxoFeeEstimate | UtxoRelayFee | EvmGasPrice

  datatype Key = Key(kind: Kind, coin: string)

  /** A stored value of any type: its type and its contents. */
  datatype Boxed = Boxed(ty: nat, contents: int)

  datatype Reading = Reading(value: Boxed, obtainedMs: nat, adaptiveSecs: nat)

  type Readings = map<Key, Reading>

  datatype Config = Config(lifetimeOf: string -> Lifetime, startSecsOf: string -> nat)

  function ForNode(node: NodeConf): Config {
    Config(ticker => NodeLifetime(node, ticker), ticker => NodeStartSecs(node, ticker))
  }

  function LifetimeSecs(l: Lifetime, adaptiveSecs: nat): nat {
    if l.Fixed? then l.secs else adaptiveSecs
  }

  function LookUp(cfg: Config, rs: Readings, key: Key, asking: string, ty: nat, now: nat): Option<Boxed> {
    var lifetime := cfg.lifetimeOf(asking);
    if lifetime == Fixed(0) || key !in rs then None
    else
      var r := rs[key];
      if now < r.obtainedMs || now - r.obtainedMs >= SatMul(LifetimeSecs(lifetime, r.adaptiveSecs), 1000) then None
      else if r.value.ty == ty then Some(r.value)
      else None
  }

  /** The entry's lifetime after one more reading. */
  function Adapted(r: Reading, start: nat, value: Boxed, now: nat): nat {
    if r.value != value then start
    else if now >= r.obtainedMs && now - r.obtainedMs >= SatMul(r.adaptiveSecs, 1000)
    then Min(SatMul(r.adaptiveSecs, 2), MAX_COIN_SECS)
    else r.adaptiveSecs
  }

  datatype Op =
    | Store(key: Key, asking: string, value: Boxed, now: nat)
    | Discard(key: Key)
    | Forget(coin: string)

  function Apply(cfg: Config, rs: Readings, op: Op): Readings {
    match op
    case Store(key, asking, value, now) =>
      if cfg.lifetimeOf(asking) == Fixed(0) then rs
      else
        var start := cfg.startSecsOf(key.coin);
        rs[key := Reading(value, now, if key in rs then Adapted(rs[key], start, value, now) else start)]
    case Discard(key) => rs - {key}
    case Forget(coin) => map k | k in rs && k.coin != coin :: rs[k]
  }

  function Run(cfg: Config, ops: seq<Op>): Readings {
    if ops == [] then map[] else Apply(cfg, Run(cfg, ops[..|ops| - 1]), ops[|ops| - 1])
  }

  // ---------------------------------------------------------------------------------------------
  // What a run has stored under a key
  // ---------------------------------------------------------------------------------------------

  datatype Sample = Sample(value: Boxed, at: nat)

  predicate Stores(cfg: Config, op: Op, key: Key) {
    op.Store? && op.key == key && cfg.lifetimeOf(op.asking) != Fixed(0)
  }

  predicate Removes(op: Op, key: Key) {
    (op.Discard? && op.key == key) || (op.Forget? && op.coin == key.coin)
  }

  /** The readings stored under `key` since it was last removed. */
  function Log(cfg: Config, ops: seq<Op>, key: Key): seq<Sample> {
    if ops == [] then []
    else
      var op, log := ops[|ops| - 1], Log(cfg, ops[..|ops| - 1], key);
      if Removes(op, key) then [] else if Stores(cfg, op, key) then log + [Sample(op.value, op.now)] else log
  }

  /** The adaptive lifetime that a log of readings amounts to. */
  function AdaptiveOf(start: nat, log: seq<Sample>): nat
    requires log != []
  {
    var n := |log|;
    if n == 1 then start
    else
      var before := Reading(log[n - 2].value, log[n - 2].at, AdaptiveOf(start, log[..n - 1]));
      Adapted(before, start, log[n - 1].value, log[n - 1].at)
  }

  lemma {:induction false} CacheIsItsLog(cfg: Config, ops: seq<Op>, key: Key)
    ensures var log := Log(cfg, ops, key);
            && (key in Run(cfg, ops) <==> log != [])
            && (log != [] ==>
                  Run(cfg, ops)[key] ==
                  Reading(log[|log| - 1].value, log[|log| - 1].at, AdaptiveOf(cfg.startSecsOf(key.coin), log)))
  {
    if ops != [] {
      var init := ops[..|ops| - 1];
      CacheIsItsLog(cfg, init, key);
      var before := Log(cfg, init, key);
      var log := Log(cfg, ops, key);
      if |log| == |before| + 1 {
        assert log[..|log| - 1] == before;
      }
    }
  }

  // ---------------------------------------------------------------------------------------------
  // Adaptive lifetimes
  // ---------------------------------------------------------------------------------------------

  /** `secs` is the start value doubled `k` times, up to 600. */
  predicate DoubledFrom(start: nat, k: nat, secs: nat) {
    secs == if k == 0 then start else Min(start * Pow2(k), 600)
  }

  lemma DoubleOnce(start: nat, k: nat, secs: nat)
    requires DoubledFrom(start, k, secs)
    ensures DoubledFrom(start, k + 1, Min(SatMul(secs, 2), MAX_COIN_SECS))
  {
  }

  /** Every lifetime is the start value doubled some number of times, up to 600 seconds. */
  lemma {:induction false} AdaptiveIsDoubled(start: nat, log: seq<Sample>)
    requires log != []
    ensures exists k: nat :: DoubledFrom(start, k, AdaptiveOf(start, log))
    decreases |log|
  {
    var n := |log|;
    if n == 1 {
      assert DoubledFrom(start, 0, AdaptiveOf(start, log));
    } else {
      AdaptiveIsDoubled(start, log[..n - 1]);
      var before := AdaptiveOf(start, log[..n - 1]);
      var k: nat :| DoubledFrom(start, k, before);
      DoubleOnce(start, k, before);
      assert DoubledFrom(start, 0, start);
      var after := AdaptiveOf(start, log);
      assert after == start || after == before || after == Min(SatMul(before, 2), MAX_COIN_SECS);
    }
  }

  /** The first reading of the last unbroken series of equal readings. */
  function StableFrom(log: seq<Sample>): (i: nat)
    requires log != []
    ensures i < |log|
    ensures forall j :: i <= j < |log| ==> log[j].value == log[|log| - 1].value
    ensures i > 0 ==> log[i - 1].value != log[i].value
  {
    var n := |log|;
    if n == 1 || log[n - 2].value != log[n - 1].value then n - 1
    else
      var i := StableFrom(log[..n - 1]);
      assert forall j :: i <= j < n - 1 ==> log[..n - 1][j] == log[j];
      i
  }

  /** The time by which the clock advanced from reading `i` to the last one, not counting steps back. */
  function Advanced(log: seq<Sample>, i: nat): nat
    requires i < |log|
    decreases |log|
  {
    var n := |log|;
    if i == n - 1 then 0 else Advanced(log[..n - 1], i) + SatSub(log[n - 1].at, log[n - 2].at)
  }

  /** Whatever the clock does, a lifetime has grown by no more than the time that passed with the same value. */
  lemma {:induction false} GrowthNeedsTime(start: nat, log: seq<Sample>)
    requires log != []
    ensures (AdaptiveOf(start, log) - start) * 1000 <= Advanced(log, StableFrom(log))
    decreases |log|
  {
    var n := |log|;
    if n > 1 {
      var init := log[..n - 1];
      GrowthNeedsTime(start, init);
      AdaptiveIsDoubled(start, init);
      var before := AdaptiveOf(start, init);
      if log[n - 2].value == log[n - 1].value {
        assert StableFrom(log) == StableFrom(init);
        assert init[n - 2] == log[n - 2];
        if start <= MAX_COIN_SECS {
          assert before <= MAX_COIN_SECS;
          assert SatMul(before, 1000) == before * 1000;
        }
      }
    }
  }

  /** The clock did not step back after reading `i`. */
  ghost predicate NeverBack(log: seq<Sample>, i: nat) {
    forall j, k :: i <= j < k < |log| ==> log[j].at <= log[k].at
  }

  /** The growth of a lifetime is covered by the time over which the value did not change. */
  ghost predicate Evidence(log: seq<Sample>, start: nat, secs: nat)
    requires log != []
  {
    var since := StableFrom(log);
    && (secs - start) * 1000 <= Advanced(log, since)
    && (NeverBack(log, since) ==> (secs - start) * 1000 <= log[|log| - 1].at - log[since].at)
  }

  lemma {:induction false} AdvancedIsElapsed(log: seq<Sample>, i: nat)
    requires i < |log| && NeverBack(log, i)
    ensures log[i].at <= log[|log| - 1].at && Advanced(log, i) == log[|log| - 1].at - log[i].at
    decreases |log|
  {
    var n := |log|;
    if i < n - 1 {
      AdvancedIsElapsed(log[..n - 1], i);
    }
  }

  /**
   After any mix of stores by any coins, removals and resets: an entry's lifetime is its start value doubled,
   and with a clock that did not step back it exceeds the start by no more than the time, up to the last
   reading, over which every reading stored was that same value.
   */
  lemma AdaptiveEvidence(cfg: Config, ops: seq<Op>, key: Key)
    requires key in Run(cfg, ops)
    ensures Log(cfg, ops, key) != []
    ensures exists k: nat :: DoubledFrom(cfg.startSecsOf(key.coin), k, Run(cfg, ops)[key].adaptiveSecs)
    ensures Evidence(Log(cfg, ops, key), cfg.startSecsOf(key.coin), Run(cfg, ops)[key].adaptiveSecs)
  {
    CacheIsItsLog(cfg, ops, key);
    var log, start := Log(cfg, ops, key), cfg.startSecsOf(key.coin);
    AdaptiveIsDoubled(start, log);
    LogIsEvidence(log, start);
  }

  lemma LogIsEvidence(log: seq<Sample>, start: nat)
    requires log != []
    ensures Evidence(log, start, AdaptiveOf(start, log))
  {
  }

  /** The growth over readings `j` to `k` is covered by the time between them. */
  ghost predicate Covered(start: nat, log: seq<Sample>, j: nat, k: nat)
    requires j <= k < |log|
  {
    (AdaptiveOf(start, log[j..k + 1]) - start) * 1000 <= log[k].at - log[j].at
  }

  lemma {:induction false} StableNeverShrinks(start: nat, log: seq<Sample>)
    requires log != [] && start <= MAX_COIN_SECS && forall i :: 0 <= i < |log| ==> log[i].value == log[0].value
    ensures start <= AdaptiveOf(start, log) <= MAX_COIN_SECS
    decreases |log|
  {
    var n := |log|;
    if n > 1 {
      StableNeverShrinks(start, log[..n - 1]);
      assert log[n - 2].value == log[0].value == log[n - 1].value;
    }
  }

  lemma ForwardIsCovered(start: nat, log: seq<Sample>, i: nat, j: nat, k: nat)
    requires i <= j <= k < |log| && NeverBack(log, i)
    requires forall l :: i <= l < |log| ==> log[l].value == log[i].value
    ensures Covered(start, log, j, k)
  {
    var part := log[j..k + 1];
    assert forall l :: 0 <= l < |part| ==> part[l] == log[j + l];
    assert StableFrom(part) == 0;
    GrowthNeedsTime(start, part);
    AdvancedIsElapsed(part, 0);
  }

  /**
   While a reading does not change, the time elapsed between any two of its readings covers the growth of its
   lifetime between them exactly if the clock does not step back.
   */
  lemma CoveredExactlyWithoutStepBack(start: nat, log: seq<Sample>, i: nat)
    requires i < |log| && start <= MAX_COIN_SECS
    requires forall l :: i <= l < |log| ==> log[l].value == log[i].value
    ensures NeverBack(log, i) <==> forall j, k :: i <= j <= k < |log| ==> Covered(start, log, j, k)
  {
    if NeverBack(log, i) {
      forall j, k | i <= j <= k < |log| ensures Covered(start, log, j, k) {
        ForwardIsCovered(start, log, i, j, k);
      }
    }
    if forall j, k :: i <= j <= k < |log| ==> Covered(start, log, j, k) {
      forall j, k | i <= j < k < |log| ensures log[j].at <= log[k].at {
        assert Covered(start, log, j, k);
        StableNeverShrinks(start, log[j..k + 1]);
      }
    }
  }

  /** A clock that steps back over one doubling leaves a longer lifetime and no elapsed time, for every start value. */
  lemma SteppingBackLosesElapsedTime(start: nat, v: Boxed)
    requires 0 < start < MAX_COIN_SECS
    ensures var log := [Sample(v, 0), Sample(v, start * 1000), Sample(v, 0)];
            AdaptiveOf(start, log) == Min(2 * start, 600) && !Covered(start, log, 0, 2)
  {
    var log := [Sample(v, 0), Sample(v, start * 1000), Sample(v, 0)];
    assert log[..2] == [Sample(v, 0), Sample(v, start * 1000)] && log[..2][..1] == [Sample(v, 0)];
    assert AdaptiveOf(start, log[..2][..1]) == start;
    assert AdaptiveOf(start, log[..2]) == Min(2 * start, 600);
    assert log[0..3] == log;
  }

  // ---------------------------------------------------------------------------------------------
  // Which readings make a lifetime grow
  // ---------------------------------------------------------------------------------------------

  /** Reading `i` came when the lifetime of the one before it had run out. */
  predicate Due(start: nat, log: seq<Sample>, i: nat)
    requires 0 < i < |log|
  {
    log[i].at >= log[i - 1].at + Min(AdaptiveOf(start, log[..i]) * 1000, U64_MAX)
  }

  /** The due readings since the value last changed. */
  function DueReadings(start: nat, log: seq<Sample>): set<nat>
    requires log != []
  {
    set i: nat | StableFrom(log) < i < |log| && Due(start, log, i)
  }

  lemma DueReadingsGrow(start: nat, log: seq<Sample>)
    requires |log| > 1 && log[|log| - 2].value == log[|log| - 1].value
    ensures var n := |log|;
            DueReadings(start, log) == DueReadings(start, log[..n - 1]) + if Due(start, log, n - 1) then {n - 1} else {}
  {
    var n := |log|;
    var init := log[..n - 1];
    assert StableFrom(log) == StableFrom(init);
    forall i: nat | StableFrom(log) < i < n - 1 ensures Due(start, log, i) <==> Due(start, init, i) {
      assert init[..i] == log[..i];
    }
  }

  lemma AdaptiveStep(start: nat, log: seq<Sample>)
    requires |log| > 1 && log[|log| - 2].value == log[|log| - 1].value
    ensures var before := AdaptiveOf(start, log[..|log| - 1]);
            AdaptiveOf(start, log) ==
            if Due(start, log, |log| - 1) then Min(SatMul(before, 2), MAX_COIN_SECS) else before
  {
  }

  lemma DueReadingsCount(start: nat, log: seq<Sample>)
    requires |log| > 1 && log[|log| - 2].value == log[|log| - 1].value
    ensures |DueReadings(start, log)| ==
            |DueReadings(start, log[..|log| - 1])| + if Due(start, log, |log| - 1) then 1 else 0
  {
    DueReadingsGrow(start, log);
    assert |log| - 1 !in DueReadings(start, log[..|log| - 1]);
  }

  /**
   A lifetime is its start value doubled once for every reading since the value last changed that came when
   the lifetime before it had run out, up to 600 seconds: other readings and a change of value add nothing.
   */
  lemma {:induction false} LifetimeCountsDueReadings(start: nat, log: seq<Sample>)
    requires log != []
    ensures DoubledFrom(start, |DueReadings(start, log)|, AdaptiveOf(start, log))
    decreases |log|
  {
    var n := |log|;
    if n > 1 && log[n - 2].value == log[n - 1].value {
      var init := log[..n - 1];
      LifetimeCountsDueReadings(start, init);
      DueReadingsCount(start, log);
      AdaptiveStep(start, log);
      DoubleOnce(start, |DueReadings(start, init)|, AdaptiveOf(start, init));
    } else {
      assert DueReadings(start, log) == {};
    }
  }

  /** Readings that stay the same, ten minutes apart or more, double the lifetime every time. */
  lemma {:induction false} SteadyReadingsDouble(start: nat, log: seq<Sample>)
    requires log != [] && start <= MAX_COIN_SECS
    requires forall i :: 0 <= i < |log| ==> log[i].value == log[0].value
    requires forall i, j :: 0 <= i < j < |log| ==> log[i].at + 600 * 1000 <= log[j].at
    ensures DoubledFrom(start, |log| - 1, AdaptiveOf(start, log))
    decreases |log|
  {
    var n := |log|;
    if n > 1 {
      SteadyReadingsDouble(start, log[..n - 1]);
      var before := AdaptiveOf(start, log[..n - 1]);
      DoubleOnce(start, n - 2, before);
      assert before <= MAX_COIN_SECS;
      assert log[n - 2].at + 600 * 1000 <= log[n - 1].at;
      assert log[n - 2].value == log[0].value == log[n - 1].value;
    }
  }

  // ---------------------------------------------------------------------------------------------
  // Bounded staleness
  // ---------------------------------------------------------------------------------------------

  /** `ops[i]` stored the current value of `key`: nothing stored or removed it after that. */
  ghost predicate LastStore(cfg: Config, ops: seq<Op>, key: Key, i: nat) {
    && i < |ops| && ops[i].Store? && ops[i].key == key && cfg.lifetimeOf(ops[i].asking) != Fixed(0)
    && (forall j :: i < j < |ops| && ops[j].Store? && ops[j].key == key ==> cfg.lifetimeOf(ops[j].asking) == Fixed(0))
    && (forall j :: i < j < |ops| && ops[j].Discard? ==> ops[j].key != key)
    && (forall j :: i < j < |ops| && ops[j].Forget? ==> ops[j].coin != key.coin)
  }

  lemma {:induction false} LogEndsInLastStore(cfg: Config, ops: seq<Op>, key: Key) returns (i: nat)
    requires Log(cfg, ops, key) != []
    ensures LastStore(cfg, ops, key, i)
    ensures var log := Log(cfg, ops, key); log[|log| - 1] == Sample(ops[i].value, ops[i].now)
  {
    var n := |ops|;
    if Stores(cfg, ops[n - 1], key) {
      i := n - 1;
    } else {
      i := LogEndsInLastStore(cfg, ops[..n - 1], key);
    }
  }

  lemma {:induction false} LastStoreIsLogged(cfg: Config, ops: seq<Op>, key: Key, i: nat)
    requires LastStore(cfg, ops, key, i)
    ensures Log(cfg, ops, key) != []
  {
    if i < |ops| - 1 {
      assert LastStore(cfg, ops[..|ops| - 1], key, i);
      LastStoreIsLogged(cfg, ops[..|ops| - 1], key, i);
    }
  }

  /** What an adaptive lifetime has grown to by the due readings of a log: doubled for each, up to 600. */
  function GrownSecs(start: nat, log: seq<Sample>): nat {
    var k := if log == [] then 0 else |DueReadings(start, log)|;
    if k == 0 then start else Min(start * Pow2(k), 600)
  }

  /** For how long `asking` may use a reading of `key`: its own fixed number, or what the reading has grown to. */
  function UsableSecs(cfg: Config, ops: seq<Op>, key: Key, asking: string): nat {
    match cfg.lifetimeOf(asking)
    case Fixed(n) => n
    case Adaptive => GrownSecs(cfg.startSecsOf(key.coin), Log(cfg, ops, key))
  }

  /** The last store under the key, after every removal, gave `v`, less than the asking coin's lifetime ago. */
  ghost predicate Reusable(cfg: Config, ops: seq<Op>, key: Key, asking: string, ty: nat, now: nat, v: Boxed) {
    && v.ty == ty
    && exists i: nat ::
         && LastStore(cfg, ops, key, i) && ops[i].value == v
         && ops[i].now <= now && now - ops[i].now < Min(UsableSecs(cfg, ops, key, asking) * 1000, U64_MAX)
  }

  lemma UsableSecsAre(cfg: Config, ops: seq<Op>, key: Key, asking: string)
    requires Log(cfg, ops, key) != []
    ensures key in Run(cfg, ops)
    ensures UsableSecs(cfg, ops, key, asking) == LifetimeSecs(cfg.lifetimeOf(asking), Run(cfg, ops)[key].adaptiveSecs)
  {
    CacheIsItsLog(cfg, ops, key);
    LifetimeCountsDueReadings(cfg.startSecsOf(key.coin), Log(cfg, ops, key));
  }

  /** A lookup gives a value exactly when it is reusable by what was stored and removed. This holds for any clock. */
  lemma {:induction false} LookUpExactly(cfg: Config, ops: seq<Op>, key: Key, asking: string, ty: nat, now: nat,
                                         v: Boxed)
    ensures LookUp(cfg, Run(cfg, ops), key, asking, ty, now) == Some(v) <==> Reusable(cfg, ops, key, asking, ty, now, v)
  {
    CacheIsItsLog(cfg, ops, key);
    if Log(cfg, ops, key) != [] {
      UsableSecsAre(cfg, ops, key, asking);
      var i := LogEndsInLastStore(cfg, ops, key);
      forall j: nat | LastStore(cfg, ops, key, j) ensures j == i {
        assert !(i < j) && !(j < i);
      }
    } else {
      forall j: nat | LastStore(cfg, ops, key, j) ensures false {
        LastStoreIsLogged(cfg, ops, key, j);
      }
    }
  }

  /** A coin with a fixed lifetime finds a value exactly within its own seconds, whatever the reading has grown to. */
  lemma FixedLookUp(cfg: Config, ops: seq<Op>, key: Key, asking: string, ty: nat, now: nat, v: Boxed, n: nat)
    requires cfg.lifetimeOf(asking) == Fixed(n) && n * 1000 <= U64_MAX
    ensures LookUp(cfg, Run(cfg, ops), key, asking, ty, now) == Some(v) <==>
            v.ty == ty && exists i: nat :: LastStore(cfg, ops, key, i) && ops[i].value == v
                                           && ops[i].now <= now < ops[i].now + n * 1000
  {
    LookUpExactly(cfg, ops, key, asking, ty, now, v);
  }

  /** In a node, whatever its configuration, no reading is used for more than 600 seconds. */
  lemma NodeLifetimesAreBounded(node: NodeConf, ops: seq<Op>, key: Key, asking: string)
    ensures UsableSecs(ForNode(node), ops, key, asking) <= 600
  {
    LifetimePrecedence(node, asking);
  }

  /** In a node, a value from the cache is under 600 seconds old and was stored after its coin was last forgotten. */
  lemma BoundedStaleness(node: NodeConf, ops: seq<Op>, key: Key, asking: string, ty: nat, now: nat) returns (i: nat)
    requires LookUp(ForNode(node), Run(ForNode(node), ops), key, asking, ty, now).Some?
    ensures i < |ops| && ops[i].Store? && ops[i].key == key
    ensures LookUp(ForNode(node), Run(ForNode(node), ops), key, asking, ty, now) == Some(ops[i].value)
    ensures ops[i].now <= now < ops[i].now + UsableSecs(ForNode(node), ops, key, asking) * 1000
    ensures UsableSecs(ForNode(node), ops, key, asking) <= 600
    ensures forall f :: 0 <= f < |ops| && Removes(ops[f], key) ==> f < i
  {
    var cfg := ForNode(node);
    var v := LookUp(cfg, Run(cfg, ops), key, asking, ty, now).value;
    LookUpExactly(cfg, ops, key, asking, ty, now, v);
    NodeLifetimesAreBounded(node, ops, key, asking);
    i :| LastStore(cfg, ops, key, i) && ops[i].value == v && ops[i].now <= now
         && now - ops[i].now < Min(UsableSecs(cfg, ops, key, asking) * 1000, U64_MAX);
    forall f | 0 <= f < |ops| && Removes(ops[f], key) ensures f < i {
      assert f != i;
    }
  }

  /** In a node, a coin whose own configuration says `n` seconds finds values for exactly that long. */
  lemma ConfiguredLookUp(node: NodeConf, ops: seq<Op>, key: Key, asking: string, ty: nat, now: nat, v: Boxed,
                         c: CoinConf, n: nat)
    requires IsCoin(node, asking, c) && c.entry.cacheSecs == Some(Unsigned(n)) && n <= 600
    ensures LookUp(ForNode(node), Run(ForNode(node), ops), key, asking, ty, now) == Some(v) <==>
            v.ty == ty && exists i: nat :: LastStore(ForNode(node), ops, key, i) && ops[i].value == v
                                           && ops[i].now <= now < ops[i].now + n * 1000
  {
    CoinDecides(node, asking, c, Unsigned(n));
    FixedLookUp(ForNode(node), ops, key, asking, ty, now, v, n);
  }

  /** In a node that says nothing of a coin's cache, its first reading lives for its blocktime. */
  lemma FirstReadingLivesABlock(node: NodeConf, ops: seq<Op>, key: Key, ty: nat, now: nat, v: Boxed,
                                c: CoinConf, n: nat)
    requires node.cacheSecs == None && Unsaid(node, key.coin)
    requires IsCoin(node, key.coin, c) && c.entry.avgBlocktime == Some(Unsigned(n)) && 2 <= n <= 600
    requires forall d :: d in node.coins && d.coin == key.coin ==> d.platform == None
    requires |Log(ForNode(node), ops, key)| == 1
    ensures LookUp(ForNode(node), Run(ForNode(node), ops), key, key.coin, ty, now) == Some(v) <==>
            v.ty == ty && exists i: nat :: LastStore(ForNode(node), ops, key, i) && ops[i].value == v
                                           && ops[i].now <= now < ops[i].now + n * 1000
  {
    var cfg := ForNode(node);
    NodeDecides(node, key.coin);
    BlocktimeDecides(node, key.coin, c, n as real);
    assert cfg.startSecsOf(key.coin) == n;
    assert DueReadings(n, Log(cfg, ops, key)) == {};
    LookUpExactly(cfg, ops, key, key.coin, ty, now, v);
  }
}
