/** The fee cache as the program keeps it: one map of readings updated in place, and what was done to it so far. */
module FeeEstimateCache {
  import opened Base
  import opened FeeLifetime
  import opened FeeCache

  class Cache {
    const cfg: Config
    var readings: Readings
    ghost var ops: seq<Op>

    ghost predicate Valid()
      reads this
    {
      readings == Run(cfg, ops)
    }

    constructor (cfg: Config)
      ensures Valid() && this.cfg == cfg && ops == []
    {
      this.cfg := cfg;
      readings, ops := map[], [];
    }

    /** Finds a value exactly when the last store under the key makes it reusable for the asking coin. */
    method Find(key: Key, asking: string, ty: nat, now: nat) returns (found: Option<Boxed>)
      requires Valid()
      ensures forall v :: found == Some(v) <==> Reusable(cfg, ops, key, asking, ty, now, v)
    {
      found := Look(key, asking, ty, now);
      forall v ensures found == Some(v) <==> Reusable(cfg, ops, key, asking, ty, now, v) {
        LookUpExactly(cfg, ops, key, asking, ty, now, v);
      }
    }

    method Look(key: Key, asking: string, ty: nat, now: nat) returns (found: Option<Boxed>)
      ensures found == LookUp(cfg, readings, key, asking, ty, now)
    {
      var lifetime := cfg.lifetimeOf(asking);
      if lifetime == Fixed(0) || key !in readings {
        return None;
      }
      var reading := readings[key];
      var lifetimeSecs := match lifetime case Fixed(secs) => secs case Adaptive => reading.adaptiveSecs;
      if now < reading.obtainedMs {
        return None;
      }
      var age := now - reading.obtainedMs;
      if age >= SatMul(lifetimeSecs, 1000) {
        return None;
      }
      found := if reading.value.ty == ty then Some(reading.value) else None;
    }

    /** Keeps a reading; the lifetime it then has is covered by the readings that did not change. */
    method Keep(key: Key, asking: string, value: Boxed, now: nat)
      requires Valid()
      modifies this
      ensures Valid() && ops == old(ops) + [Store(key, asking, value, now)]
      ensures cfg.lifetimeOf(asking) == Fixed(0) ==> readings == old(readings)
      ensures cfg.lifetimeOf(asking) != Fixed(0) ==>
                && key in readings && readings[key].value == value && readings[key].obtainedMs == now
                && Log(cfg, ops, key) == Log(cfg, old(ops), key) + [Sample(value, now)]
                && Evidence(Log(cfg, ops, key), cfg.startSecsOf(key.coin), readings[key].adaptiveSecs)
    {
      Put(key, asking, value, now);
      ops := ops + [Store(key, asking, value, now)];
      if cfg.lifetimeOf(asking) != Fixed(0) {
        AdaptiveEvidence(cfg, ops, key);
      }
    }

    method Put(key: Key, asking: string, value: Boxed, now: nat)
      modifies this`readings
      ensures readings == Apply(cfg, old(readings), Store(key, asking, value, now))
    {
      if cfg.lifetimeOf(asking) == Fixed(0) {
        return;
      }
      var startSecs := cfg.startSecsOf(key.coin);
      if key in readings {
        var reading := readings[key];
        var adaptiveSecs := reading.adaptiveSecs;
        if reading.value != value {
          adaptiveSecs := startSecs;
        } else if now >= reading.obtainedMs && now - reading.obtainedMs >= SatMul(adaptiveSecs, 1000) {
          adaptiveSecs := Min(SatMul(adaptiveSecs, 2), MAX_COIN_SECS);
        }
        readings := readings[key := Reading(value, now, adaptiveSecs)];
      } else {
        readings := readings[key := Reading(value, now, startSecs)];
      }
    }

    /** After a discard nothing stored under the key before is ever found again. */
    method DiscardKey(key: Key)
      requires Valid()
      modifies this
      ensures Valid() && ops == old(ops) + [Discard(key)] && Log(cfg, ops, key) == []
      ensures forall k :: k != key ==> Log(cfg, ops, k) == Log(cfg, old(ops), k)
    {
      readings := readings - {key};
      ops := ops + [Discard(key)];
    }

    /** After a coin is forgotten nothing stored for it before is ever found again. */
    method ForgetCoin(ticker: string)
      requires Valid()
      modifies this
      ensures Valid() && ops == old(ops) + [Forget(ticker)]
      ensures forall k :: Log(cfg, ops, k) == if k.coin == ticker then [] else Log(cfg, old(ops), k)
    {
      Retain(ticker);
      ops := ops + [Forget(ticker)];
    }

    method Retain(ticker: string)
      modifies this`readings
      ensures readings == Apply(cfg, old(readings), Forget(ticker))
    {
      var todo := readings.Keys;
      while todo != {}
        invariant todo <= old(readings).Keys
        invariant forall k :: k in old(readings) ==> (k in readings <==> k in todo || k.coin != ticker)
        invariant forall k :: k in readings ==> k in old(readings) && readings[k] == old(readings)[k]
        decreases |todo|
      {
        var k :| k in todo;
        todo := todo - {k};
        if k.coin == ticker {
          readings := readings - {k};
        }
      }
    }
  }
}
