/** The reward that a KMD output accrues: its conditions, its caps and how it moves with time and height. */
module KmdInterest {
  import opened Base

  newtype u64 = x: int | 0 <= x < 0x1_0000_0000_0000_0000

  const END_OF_ERA: nat := 7_777_777
  const LOCKTIME_THRESHOLD: nat := 500_000_000
  const KIP_0001_HEIGHT: nat := 3_484_958
  const LEAST_VALUE: nat := 1_000_000_000
  const CAP_CHANGE_HEIGHT: nat := 1_000_000
  const YEAR_MINUTES: nat := 365 * 24 * 60
  const MONTH_MINUTES: nat := 31 * 24 * 60

  datatype Reason =
    | LocktimeNotSet
    | LocktimeLessThanThreshold
    | UtxoHeightGreaterThanEndOfEra
    | UtxoAmountLessThanTen
    | OneHourNotPassedYet
    | TransactionInMempool

  datatype Result<+T> = Ok(value: T) | Err(reason: Reason)

  ghost predicate Same(r: Result<u64>, spec: Result<nat>) {
    if spec.Ok? then r.Ok? && r.value as nat == spec.value else r == Err(spec.reason)
  }

  /** The reward, or why there is none, in 64-bit arithmetic throughout. */
  method Interest(height: Option<u64>, value: u64, lockTime: u64, currentTime: u64) returns (r: Result<u64>)
    ensures var h := if height.Some? then Some(height.value as nat) else None;
            Same(r, InterestOf(h, value as nat, lockTime as nat, currentTime as nat))
  {
    if value < 1_000_000_000 {
      return Err(UtxoAmountLessThanTen);
    }
    if lockTime == 0 {
      return Err(LocktimeNotSet);
    }
    if lockTime < 500_000_000 {
      return Err(LocktimeLessThanThreshold);
    }
    if height.None? {
      return Err(TransactionInMempool);
    }
    if height.value >= 7_777_777 {
      return Err(UtxoHeightGreaterThanEndOfEra);
    }
    if currentTime < lockTime {
      return Err(OneHourNotPassedYet);
    }
    var minutes := (currentTime - lockTime) / 60;
    if minutes < 60 {
      return Err(OneHourNotPassedYet);
    }
    var accrued := Accrued(height.value, value, minutes);
    r := Ok(accrued);
  }

  method Accrued(height: u64, value: u64, age: u64) returns (accrued: u64)
    requires age >= 60
    ensures accrued as nat == Reward(height as nat, value as nat, age as nat)
  {
    var minutes := age;
    if minutes > 365 * 24 * 60 {
      minutes := 365 * 24 * 60;
    }
    if height >= 1_000_000 && minutes > 31 * 24 * 60 {
      minutes := 31 * 24 * 60;
    }
    minutes := minutes - 59;
    assert minutes as nat == Min(age as nat, Cap(height as nat)) - 59;
    var units := value / 10_512_000;
    ProductFits(units as nat, minutes as nat, value as nat);
    accrued := units * minutes;
    assert accrued as nat == units as nat * minutes as nat;
    if height >= 3_484_958 {
      accrued := accrued / 500;
    }
  }

  function Cap(height: nat): nat {
    if height < CAP_CHANGE_HEIGHT then YEAR_MINUTES else MONTH_MINUTES
  }

  /** The reward of an eligible output that is `minutes` old. */
  function Reward(height: nat, value: nat, minutes: nat): nat
    requires minutes >= 60
  {
    var units: nat, paid: nat := value / 10_512_000, Min(minutes, Cap(height)) - 59;
    var accrued := units * paid;
    if height >= KIP_0001_HEIGHT then accrued / 500 else accrued
  }

  function InterestOf(height: Option<nat>, value: nat, lockTime: nat, now: nat): Result<nat> {
    if value < LEAST_VALUE then Err(UtxoAmountLessThanTen)
    else if lockTime == 0 then Err(LocktimeNotSet)
    else if lockTime < LOCKTIME_THRESHOLD then Err(LocktimeLessThanThreshold)
    else if height.None? then Err(TransactionInMempool)
    else if height.value >= END_OF_ERA then Err(UtxoHeightGreaterThanEndOfEra)
    else if now < lockTime || (now - lockTime) / 60 < 60 then Err(OneHourNotPassedYet)
    else Ok(Reward(height.value, value, (now - lockTime) / 60))
  }

  /** Additions of the accrual times wrap around at 64 bits. */
  function Wrapped(n: nat): nat {
    n % (U64_MAX + 1)
  }

  function AccrueSecs(height: nat): nat {
    if height < CAP_CHANGE_HEIGHT then 365 * 24 * 60 * 60 else 31 * 24 * 60 * 60
  }

  function AccrueStopAt(height: nat, lockTime: nat): nat {
    Wrapped(lockTime + AccrueSecs(height))
  }

  function AccrueStartAt(lockTime: nat): nat {
    Wrapped(lockTime + 60 * 60)
  }

  // ---------------------------------------------------------------------------------------------
  // Size of the reward
  // ---------------------------------------------------------------------------------------------

  lemma ProductFits(units: nat, minutes: nat, value: nat)
    requires units == value / 10_512_000 && minutes <= YEAR_MINUTES
    ensures units * minutes <= value / 20
  {
    MulMonotone(units, minutes, YEAR_MINUTES);
    assert units * YEAR_MINUTES * 20 == units * 10_512_000;
    assert units * 10_512_000 <= value;
  }

  /** The reward is at most a twentieth of the value, so it fits whatever the value does. */
  lemma InterestFits(height: Option<nat>, value: nat, lockTime: nat, now: nat)
    ensures var r := InterestOf(height, value, lockTime, now); r.Ok? ==> r.value <= value / 20
  {
    var r := InterestOf(height, value, lockTime, now);
    if r.Ok? {
      ProductFits(value / 10_512_000, Min((now - lockTime) / 60, Cap(height.value)) - 59, value);
    }
  }

  // ---------------------------------------------------------------------------------------------
  // In numbers
  // ---------------------------------------------------------------------------------------------

  /** Which reason is given, and when there is none. */
  lemma ReasonsInNumbers(height: Option<nat>, value: nat, lockTime: nat, now: nat)
    ensures var r := InterestOf(height, value, lockTime, now);
            var enough, timed := value >= 1_000_000_000, lockTime >= 500_000_000;
            && (r == Err(UtxoAmountLessThanTen) <==> value < 1_000_000_000)
            && (r == Err(LocktimeNotSet) <==> enough && lockTime == 0)
            && (r == Err(LocktimeLessThanThreshold) <==> enough && 0 < lockTime < 500_000_000)
            && (r == Err(TransactionInMempool) <==> enough && timed && height == None)
            && (r == Err(UtxoHeightGreaterThanEndOfEra) <==>
                  enough && timed && height.Some? && height.value >= 7_777_777)
            && (r == Err(OneHourNotPassedYet) <==>
                  enough && timed && height.Some? && height.value < 7_777_777 && now < lockTime + 3600)
            && (r.Ok? <==> enough && timed && height.Some? && height.value < 7_777_777 && now >= lockTime + 3600)
  {
  }

  /**
   For every whole 0.10512 KMD one unit a minute, from the sixtieth minute on, for at most a year or, from block
   1,000,000 on, 31 days; a five-hundredth of that from block 3,484,958 on.
   */
  lemma RewardInNumbers(height: nat, value: nat, lockTime: nat, now: nat, minutes: nat, units: nat)
    requires InterestOf(Some(height), value, lockTime, now).Ok?
    requires lockTime + minutes * 60 <= now < lockTime + minutes * 60 + 60
    requires units * 10_512_000 <= value < (units + 1) * 10_512_000
    ensures var reward := InterestOf(Some(height), value, lockTime, now).value;
            var paid := if height < 1_000_000 then Min(minutes, 525_600) - 59 else Min(minutes, 44_640) - 59;
            && (height < 3_484_958 ==> reward == units * paid)
            && (height >= 3_484_958 ==> reward * 500 <= units * paid < (reward + 1) * 500)
  {
    assert value / 10_512_000 == units && (now - lockTime) / 60 == minutes;
  }

  /** The rewards that the program's own tests name. */
  lemma KnownRewards()
    ensures InterestOf(Some(1_000_001), 64_605_500_822, 1_556_623_906, 1_556_627_806) == Ok(36_870)
    ensures InterestOf(Some(3_484_957), 1_473_232_138, 1_789_721_423, 1_790_472_552) == Ok(1_744_260)
    ensures InterestOf(Some(3_484_958), 1_473_232_138, 1_789_721_423, 1_790_472_552) == Ok(3_488)
    ensures InterestOf(Some(5_108_257), 1_473_232_138, 1_789_721_423, 1_790_472_552) == Ok(3_488)
  {
  }

  // ---------------------------------------------------------------------------------------------
  // Accrual over time
  // ---------------------------------------------------------------------------------------------

  /** Everything but the age is in order. */
  predicate Eligible(height: nat, value: nat, lockTime: nat) {
    value >= LEAST_VALUE && lockTime >= LOCKTIME_THRESHOLD && height < END_OF_ERA && lockTime <= U64_MAX
  }

  predicate AccruesAt(height: nat, value: nat, lockTime: nat, now: nat) {
    InterestOf(Some(height), value, lockTime, now).Ok?
  }

  /** Rewards accrue exactly from the reported start on. */
  ghost predicate StartIsRight(height: nat, value: nat, lockTime: nat) {
    forall now :: 0 <= now <= U64_MAX ==> (AccruesAt(height, value, lockTime, now) <==> now >= AccrueStartAt(lockTime))
  }

  /**
   The reported start is right for every time of the clock exactly when the addition does not wrap around,
   that is for every lock time but the last hour before the end of 64-bit time.
   */
  lemma AccruesFromStart(height: nat, value: nat, lockTime: nat)
    requires Eligible(height, value, lockTime)
    ensures StartIsRight(height, value, lockTime) <==> lockTime + 3600 <= U64_MAX
  {
    if lockTime + 3600 > U64_MAX {
      var start := AccrueStartAt(lockTime);
      assert start == lockTime + 3600 - (U64_MAX + 1);
      assert !AccruesAt(height, value, lockTime, start);
    }
  }

  /** A lock time in that last hour, whose reported start lies before the lock time itself. */
  lemma StartCanBeTooEarly()
    ensures Eligible(0, LEAST_VALUE, U64_MAX) && AccrueStartAt(U64_MAX) == 3599
    ensures !AccruesAt(0, LEAST_VALUE, U64_MAX, 3599)
  {
  }

  ghost predicate ConstantFrom(height: nat, value: nat, lockTime: nat, from: nat) {
    forall now :: from <= now <= U64_MAX ==>
      InterestOf(Some(height), value, lockTime, now) == InterestOf(Some(height), value, lockTime, from)
  }

  lemma RewardAtCap(height: nat, value: nat, lockTime: nat, now: nat)
    requires Eligible(height, value, lockTime) && now >= lockTime + AccrueSecs(height)
    ensures InterestOf(Some(height), value, lockTime, now) == Ok(Reward(height, value, Cap(height)))
  {
  }

  /**
   The reward is constant from the reported stop on, unless the stop wraps around while the start does not:
   then the stop is reported before accrual has begun.
   */
  lemma ConstantFromStop(height: nat, value: nat, lockTime: nat)
    requires Eligible(height, value, lockTime)
    ensures ConstantFrom(height, value, lockTime, AccrueStopAt(height, lockTime)) <==>
            !(lockTime + 3600 <= U64_MAX < lockTime + AccrueSecs(height))
  {
    var stop := AccrueStopAt(height, lockTime);
    if lockTime + AccrueSecs(height) <= U64_MAX {
      forall now | stop <= now <= U64_MAX
        ensures InterestOf(Some(height), value, lockTime, now) == InterestOf(Some(height), value, lockTime, stop)
      {
        RewardAtCap(height, value, lockTime, now);
        RewardAtCap(height, value, lockTime, stop);
      }
    } else {
      assert stop == lockTime + AccrueSecs(height) - (U64_MAX + 1);
      assert !AccruesAt(height, value, lockTime, stop);
      if lockTime + 3600 <= U64_MAX {
        assert AccruesAt(height, value, lockTime, U64_MAX);
        assert InterestOf(Some(height), value, lockTime, U64_MAX) != InterestOf(Some(height), value, lockTime, stop);
      }
    }
  }

  /** The lock time of a transaction has 32 bits: for every such lock time both reported times are right. */
  lemma ReportedTimesAreRight(height: nat, value: nat, lockTime: nat)
    requires Eligible(height, value, lockTime) && lockTime <= U32_MAX
    ensures StartIsRight(height, value, lockTime)
    ensures ConstantFrom(height, value, lockTime, AccrueStopAt(height, lockTime))
    ensures AccrueStartAt(lockTime) == lockTime + 3600
    ensures AccrueStopAt(height, lockTime) == lockTime + if height < 1_000_000 then 31_536_000 else 2_678_400
  {
    AccruesFromStart(height, value, lockTime);
    ConstantFromStop(height, value, lockTime);
  }

  /** What an output is worth in rewards; nothing while it accrues none. */
  function Payoff(height: nat, value: nat, lockTime: nat, now: nat): nat {
    var r := InterestOf(Some(height), value, lockTime, now);
    if r.Ok? then r.value else 0
  }

  lemma RewardGrows(height: nat, value: nat, minutes: nat, minutes': nat)
    requires 60 <= minutes <= minutes'
    ensures Reward(height, value, minutes) <= Reward(height, value, minutes')
  {
  }

  /** Waiting never costs anything. */
  lemma MonotoneInTime(height: nat, value: nat, lockTime: nat, now: nat, later: nat)
    requires now <= later
    ensures Payoff(height, value, lockTime, now) <= Payoff(height, value, lockTime, later)
  {
    if AccruesAt(height, value, lockTime, now) {
      RewardGrows(height, value, (now - lockTime) / 60, (later - lockTime) / 60);
    }
  }

  lemma RewardShrinks(height: nat, height': nat, value: nat, minutes: nat)
    requires height <= height' && minutes >= 60
    ensures Reward(height', value, minutes) <= Reward(height, value, minutes)
  {
  }

  /** A later block never earns more, across the change of the cap, the cut of the rate and the end of the era. */
  lemma MonotoneInHeight(height: nat, height': nat, value: nat, lockTime: nat, now: nat)
    requires height <= height'
    ensures Payoff(height', value, lockTime, now) <= Payoff(height, value, lockTime, now)
  {
    if AccruesAt(height', value, lockTime, now) {
      RewardShrinks(height, height', value, (now - lockTime) / 60);
    }
  }
}
