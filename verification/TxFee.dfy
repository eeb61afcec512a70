/** Fees by transaction size under the three policies, in saturating 64-bit arithmetic. */
module TxFee {
  import opened Base

  const KILO_BYTE: nat := 1000
  const P2PKH_OUTPUT_LEN: nat := 34

  datatype Policy = Dynamic(rate: nat) | FixedPerKb(rate: nat) | FixedPerStartedKb(rate: nat)

  function SatAdd(a: nat, b: nat): nat {
    Min(a + b, U64_MAX)
  }

  function DivCeil(a: nat, b: nat): nat
    requires b > 0
  {
    (a + b - 1) / b
  }

  /** The fee before saturation. */
  function ExactFee(p: Policy, size: nat): nat {
    if p.FixedPerStartedKb? then p.rate * DivCeil(size, KILO_BYTE) else p.rate * size / KILO_BYTE
  }

  function FeeForSize(p: Policy, size: nat): nat {
    Min(ExactFee(p, size), U64_MAX)
  }

  function ChangeOutputIncrease(p: Policy, size: nat): nat {
    SatSub(FeeForSize(p, SatAdd(size, P2PKH_OUTPUT_LEN)), FeeForSize(p, size))
  }

  lemma ExactFeeMonotone(p: Policy, q: Policy, size: nat, size': nat)
    requires size <= size' && p.rate <= q.rate && p.FixedPerStartedKb? == q.FixedPerStartedKb?
    ensures ExactFee(p, size) <= ExactFee(q, size')
  {
    if p.FixedPerStartedKb? {
      var n, m := DivCeil(size, KILO_BYTE), DivCeil(size', KILO_BYTE);
      MulMonotone(p.rate, n, m);
      MulMonotone(m, p.rate, q.rate);
    } else {
      MulMonotone(p.rate, size, size');
      MulMonotone(size', p.rate, q.rate);
    }
  }

  /** A larger transaction or a higher rate never costs less, at the limit of 64 bits too. */
  lemma FeeMonotone(p: Policy, q: Policy, size: nat, size': nat)
    requires size <= size' && p.rate <= q.rate && p.FixedPerStartedKb? == q.FixedPerStartedKb?
    ensures FeeForSize(p, size) <= FeeForSize(q, size')
  {
    ExactFeeMonotone(p, q, size, size');
  }

  /** The fee without the change output and its increase make up exactly the fee with the change output. */
  lemma IncreaseCompletesFee(p: Policy, size: nat)
    requires size <= U64_MAX
    ensures FeeForSize(p, size) + ChangeOutputIncrease(p, size) == FeeForSize(p, SatAdd(size, P2PKH_OUTPUT_LEN))
  {
    FeeMonotone(p, p, size, SatAdd(size, P2PKH_OUTPUT_LEN));
  }

  /** At one rate, whole kilobytes cost at least the proportional fee and at most one rate more. */
  lemma StartedKilobytesWithinOneRate(rate: nat, size: nat)
    ensures FeeForSize(FixedPerKb(rate), size) <= FeeForSize(FixedPerStartedKb(rate), size)
            <= SatAdd(FeeForSize(FixedPerKb(rate), size), rate)
  {
    var q, r := size / KILO_BYTE, size % KILO_BYTE;
    assert size == KILO_BYTE * q + r;
    var n := DivCeil(size, KILO_BYTE);
    assert n == if r == 0 then q else q + 1;
    assert rate * size == KILO_BYTE * (rate * q) + rate * r;
    MulMonotone(rate, r, KILO_BYTE);
    MulMonotone(rate, q, n);
    assert rate * (q + 1) == rate * q + rate;
    assert rate * q <= rate * size / KILO_BYTE <= rate * q + rate;
    if r == 0 {
      assert rate * r == 0;
      assert rate * size / KILO_BYTE == rate * q;
    }
  }

  /** The fee in numbers: by the byte at a thousandth of the rate, rounded down, up to the largest 64-bit number. */
  lemma ProportionalFeeInNumbers(p: Policy, size: nat)
    requires !p.FixedPerStartedKb?
    ensures var fee := FeeForSize(p, size);
            && fee <= 18_446_744_073_709_551_615 && fee * 1000 <= p.rate * size
            && (fee < 18_446_744_073_709_551_615 ==> p.rate * size < (fee + 1) * 1000)
  {
  }

  /** The fee in numbers: the rate for each started thousand bytes, up to the largest 64-bit number. */
  lemma StartedFeeInNumbers(rate: nat, size: nat, started: nat)
    requires size <= started * 1000 < size + 1000
    ensures FeeForSize(FixedPerStartedKb(rate), size) == Min(rate * started, 18_446_744_073_709_551_615)
  {
    assert DivCeil(size, KILO_BYTE) == started;
  }

  /** A change output makes a transaction 34 bytes longer. */
  lemma ChangeOutputInNumbers(p: Policy, size: nat)
    requires size + 34 <= U64_MAX
    ensures FeeForSize(p, size) + ChangeOutputIncrease(p, size) == FeeForSize(p, size + 34)
  {
    IncreaseCompletesFee(p, size);
  }
}
