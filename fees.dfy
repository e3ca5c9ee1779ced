/**
 * The integer arithmetic of the CircleTrust ledger, as the backend test
 * suite (backend/contracts/test/CircleTrust.ts) computes it: the fee kept
 * back from every round, the payout to the round's receiver, the creator's
 * fee on completion and the per-member share of a slashed collateral. All
 * divisions truncate (amounts are non-negative, so truncation is floor).
 */
module Fees {

  /** Every pool is created with this creator fee percentage. */
  const CREATOR_FEE_PERCENT: nat := 3

  /** Fee kept back from one round's pot: `c * pct / 100`, rounded down. */
  function RoundFee(c: nat, pct: nat): (f: nat)
    requires pct <= 100
    ensures f <= c
    ensures f * 100 <= c * pct < f * 100 + 100
  {
    assert c * pct <= c * 100 by { MulLeftMono(c, pct, 100); }
    c * pct / 100
  }

  /** What the round's receiver is paid: the contribution less the round fee. */
  function Payout(c: nat, pct: nat): (p: nat)
    requires pct <= 100
    ensures p + RoundFee(c, pct) == c
    ensures c * (100 - pct) <= p * 100 < c * (100 - pct) + 100
  {
    var f := RoundFee(c, pct);
    assert c * (100 - pct) == c * 100 - c * pct;
    assert (c - f) * 100 == c * 100 - f * 100;
    c - RoundFee(c, pct)
  }

  /**
   * The creator's fee paid on the final round: the round fees kept back
   * over the pool's `n` rounds. This replaces the as-written
   * `CreatorFeeAsWritten` (see `CreatorFeeAsWrittenOverdraws`).
   */
  function CreatorFee(c: nat, n: nat, pct: nat): (fee: nat)
    requires pct <= 100
    ensures fee <= n * c
    ensures fee * 100 <= n * (c * pct)
    ensures n > 0 ==> n * (c * pct) < fee * 100 + n * 100
  {
    var f := RoundFee(c, pct);
    MulLeftMono(n, f, c);
    MulLeftMono(n, f * 100, c * pct);
    MulLeftMono(n, c * pct + 1, f * 100 + 100);
    assert n * (f * 100) == (n * f) * 100;
    assert n * (f * 100 + 100) == (n * f) * 100 + n * 100;
    n * f
  }

  /** The creator's fee as the tests compute it: `c * n * pct / 100`, rounded down once. */
  function CreatorFeeAsWritten(c: nat, n: nat, pct: nat): (fee: nat) {
    c * n * pct / 100
  }

  /** Share paid to each of `k` remaining members from a slashed collateral. */
  function SlashShare(slashed: nat, k: nat): (share: nat)
    requires k > 0
    ensures share * k <= slashed < share * k + k
  {
    slashed / k
  }

  lemma MulLeftMono(a: nat, x: nat, y: nat)
    requires x <= y
    ensures a * x <= a * y
  {
  }

  /** Over `n` rounds the payouts and the creator's fee add up to exactly the `n` contributions. */
  lemma {:induction false} RoundsFundCreatorFee(c: nat, n: nat, pct: nat)
    requires pct <= 100
    ensures n * Payout(c, pct) + CreatorFee(c, n, pct) == n * c
  {
    var f := RoundFee(c, pct);
    calc {
      n * Payout(c, pct) + CreatorFee(c, n, pct);
      n * (c - f) + n * f;
      { assert n * (c - f) == n * c - n * f; }
      n * c;
    }
  }

  /** The as-written fee is never smaller than the fees actually kept back. */
  lemma {:induction false} AsWrittenAtLeastCorrected(c: nat, n: nat, pct: nat)
    requires pct <= 100
    ensures CreatorFee(c, n, pct) <= CreatorFeeAsWritten(c, n, pct)
  {
    var f := RoundFee(c, pct);
    assert f * 100 <= c * pct;
    assert n * f * 100 <= c * n * pct by {
      MulLeftMono(n, f * 100, c * pct);
      assert n * (f * 100) == n * f * 100;
      assert n * (c * pct) == c * n * pct;
    }
    assert (n * f * 100) / 100 == n * f;
    DivHundredMono(n * f * 100, c * n * pct);
  }

  lemma DivHundredMono(x: nat, y: nat)
    requires x <= y
    ensures x / 100 <= y / 100
  {
  }

  /**
   * When `c * pct` is a whole number of hundreds, as for every amount the
   * tests use, the two fee formulas agree.
   */
  lemma {:induction false} FeesAgreeOnWholeHundreds(c: nat, n: nat, pct: nat)
    requires pct <= 100 && (c * pct) % 100 == 0
    ensures CreatorFee(c, n, pct) == CreatorFeeAsWritten(c, n, pct)
  {
    var f := RoundFee(c, pct);
    assert c * pct == f * 100;
    assert c * n * pct == (n * f) * 100 by {
      assert c * n * pct == n * (c * pct);
      assert n * (f * 100) == (n * f) * 100;
    }
  }

  /**
   * With the as-written fee a 2-member pool of 50 wei overdraws: it takes in
   * two deposits of 100 wei and pays two payouts of 49, a creator fee of 3
   * and two refunds of 50, 201 wei in all.
   */
  lemma CreatorFeeAsWrittenOverdraws()
    ensures Payout(50, CREATOR_FEE_PERCENT) == 49
    ensures CreatorFeeAsWritten(50, 2, CREATOR_FEE_PERCENT) == 3
    ensures 2 * Payout(50, CREATOR_FEE_PERCENT) + CreatorFeeAsWritten(50, 2, CREATOR_FEE_PERCENT) + 2 * 50 > 2 * (2 * 50)
    ensures CreatorFee(50, 2, CREATOR_FEE_PERCENT) == 2
  {
  }

  /** The amounts the tests assert, for 0.1 ether in a 3-member pool and 1 ether in a 2-member pool. */
  lemma TestSuiteAmounts()
    ensures RoundFee(100_000_000_000_000_000, CREATOR_FEE_PERCENT) == 3_000_000_000_000_000
    ensures Payout(100_000_000_000_000_000, CREATOR_FEE_PERCENT) == 97_000_000_000_000_000
    ensures CreatorFee(100_000_000_000_000_000, 3, CREATOR_FEE_PERCENT) == 9_000_000_000_000_000
    ensures CreatorFeeAsWritten(100_000_000_000_000_000, 3, CREATOR_FEE_PERCENT) == 9_000_000_000_000_000
    ensures Payout(1_000_000_000_000_000_000, CREATOR_FEE_PERCENT) == 970_000_000_000_000_000
    ensures CreatorFee(1_000_000_000_000_000_000, 2, CREATOR_FEE_PERCENT) == 60_000_000_000_000_000
    ensures SlashShare(100_000_000_000_000_000, 2) == 50_000_000_000_000_000
    ensures SlashShare(100_000_000_000_000_000, 3) == 33_333_333_333_333_333
  {
  }

  /** What an uneven split leaves unpaid is less than the number of recipients. */
  lemma SlashDustBound(slashed: nat, k: nat)
    requires k > 0
    ensures 0 <= slashed - SlashShare(slashed, k) * k < k
  {
  }
}
