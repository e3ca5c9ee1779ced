/**
 * Values the CircleTrust ledger is built from, and the per-pool invariant
 * with its accounting lemmas. The ledger class itself is in module
 * `Ledger`; this module holds what can be said about one pool's data
 * without the heap.
 */
module LedgerAccounting {
  import opened Fees
  import ContractAbi

  type Address = ContractAbi.Address
  type PoolId = nat

  /**
   * One pool as stored: the fields of the `pools` getter in their ABI
   * order, plus the members array (join order is payout order). The member
   * count `getPool` reports is the length of `members`.
   */
  datatype Pool = Pool(
    creator: Address,
    contributionAmount: nat,
    maxMembers: nat,
    currentRound: nat,
    completed: bool,
    poolExists: bool,
    minimumReputation: nat,
    creatorFeePercent: nat,
    roundDuration: nat,
    roundDeadline: nat,
    members: seq<Address>)

  /** Reasons an operation reverts. */
  datatype Error =
    | PoolDoesNotExist
    | InvalidAmount
    | InvalidMemberCount
    | PoolCompleted
    | PoolIsFull
    | AlreadyJoined
    | ReputationTooLow
    | IncorrectDeposit
    | PoolNotActive
    | RoundNotElapsed
    | NotActiveMember
    | NoActiveMembersLeft
  {
    /**
     * The revert string. The first eight are the strings the client matches
     * on; the wording of the last four is not attested anywhere.
     */
    function Reason(): string {
      match this
      case PoolDoesNotExist => "Pool does not exist"
      case InvalidAmount => "Contribution must be > 0"
      case InvalidMemberCount => "Need at least 2 members"
      case PoolIsFull => "Pool is full"
      case AlreadyJoined => "Already joined"
      case ReputationTooLow => "Reputation too low"
      case PoolNotActive => "Pool not active"
      case RoundNotElapsed => "Not enough time has passed"
      case PoolCompleted => "Pool completed"
      case IncorrectDeposit => "Incorrect deposit"
      case NotActiveMember => "Not an active member"
      case NoActiveMembersLeft => "No active members left"
    }
  }

  /** The result of a state-changing call: it went through, or it reverted with no effect. */
  datatype Outcome = Done | Reverted(error: Error)

  /** An outbound value transfer, standing in for an ether transfer. */
  datatype Payment = Payment(to: Address, amount: nat)

  /** Reading a mapping: a key never written reads as 0. */
  function Lookup(col: map<Address, nat>, a: Address): nat {
    if a in col then col[a] else 0
  }

  /** The collateral mapping with one entry written; every other entry reads as before. */
  function SetCollateral(col: map<Address, nat>, a: Address, v: nat): (col': map<Address, nat>)
    ensures Lookup(col', a) == v
    ensures forall b: Address :: b != a ==> Lookup(col', b) == Lookup(col, b)
  {
    col[a := v]
  }

  ghost predicate Distinct(ms: seq<Address>) {
    forall i, j :: 0 <= i < j < |ms| ==> ms[i] != ms[j]
  }

  /** How many of `ms` are in `active`. */
  function CountActive(active: set<Address>, ms: seq<Address>): (k: nat)
    ensures k <= |ms|
  {
    if |ms| == 0 then 0
    else CountActive(active, ms[..|ms| - 1]) + (if ms[|ms| - 1] in active then 1 else 0)
  }

  /** The refund of every member's collateral, in member order. */
  function Refunds(col: map<Address, nat>, ms: seq<Address>): (ps: seq<Payment>)
    ensures |ps| == |ms|
  {
    if |ms| == 0 then []
    else Refunds(col, ms[..|ms| - 1]) + [Payment(ms[|ms| - 1], Lookup(col, ms[|ms| - 1]))]
  }

  /** A share paid to each member of `ms` that is still in `active`, in member order. */
  function Shares(active: set<Address>, ms: seq<Address>, share: nat): seq<Payment> {
    if |ms| == 0 then []
    else Shares(active, ms[..|ms| - 1], share) + (if ms[|ms| - 1] in active then [Payment(ms[|ms| - 1], share)] else [])
  }

  /** Total value of a list of transfers. */
  function Total(ps: seq<Payment>): nat {
    if |ps| == 0 then 0 else Total(ps[..|ps| - 1]) + ps[|ps| - 1].amount
  }

  function Sum(s: seq<int>): int {
    if |s| == 0 then 0 else Sum(s[..|s| - 1]) + s[|s| - 1]
  }

  /**
   * What a pool that has not completed must still be able to pay: the
   * contributions of its members less the payouts already made, plus the
   * collateral of each still-active member. A completed pool owes nothing.
   */
  function Reserve(p: Pool, activeCount: nat): int
    requires p.creatorFeePercent <= 100
  {
    if p.completed then 0
    else |p.members| * p.contributionAmount
         - p.currentRound * Payout(p.contributionAmount, p.creatorFeePercent)
         + activeCount * p.contributionAmount
  }

  /** The bounds a stored pool record keeps, on its own. */
  predicate PoolShape(p: Pool) {
    && p.poolExists
    && p.contributionAmount > 0
    && p.maxMembers >= 2
    && p.creatorFeePercent == CREATOR_FEE_PERCENT
    && |p.members| <= p.maxMembers
    && p.currentRound <= p.maxMembers
    && (p.currentRound > 0 ==> |p.members| == p.maxMembers)
    && (p.completed <==> p.currentRound == p.maxMembers)
  }

  /**
   * The invariant of one pool, given its record, the value `held` on its
   * behalf, and its collateral, has-joined and is-active mappings.
   */
  ghost predicate PoolInv(p: Pool, held: int, col: map<Address, nat>, joined: set<Address>, active: set<Address>) {
    && PoolShape(p)
    && Distinct(p.members)
    && (forall a: Address :: a in joined <==> a in p.members)
    && active <= joined
    && (forall a: Address :: Lookup(col, a) == (if a in active && !p.completed then p.contributionAmount else 0))
    && held >= Reserve(p, CountActive(active, p.members))
  }

  // ---------------------------------------------------------------------
  // Lemmas on the list functions

  lemma CountActiveSnoc(active: set<Address>, ms: seq<Address>, i: nat)
    requires i < |ms|
    ensures CountActive(active, ms[..i + 1]) == CountActive(active, ms[..i]) + (if ms[i] in active then 1 else 0)
  {
    assert ms[..i + 1][..i] == ms[..i];
  }

  lemma CountActiveAppend(active: set<Address>, ms: seq<Address>, x: Address)
    ensures CountActive(active, ms + [x]) == CountActive(active, ms) + (if x in active then 1 else 0)
  {
    assert (ms + [x])[..|ms|] == ms;
  }

  /** Adding a non-member to the active set changes no count over the members. */
  lemma {:induction false} CountActiveAddOther(active: set<Address>, ms: seq<Address>, x: Address)
    requires x !in ms
    ensures CountActive(active + {x}, ms) == CountActive(active, ms)
  {
    if |ms| > 0 {
      CountActiveAddOther(active, ms[..|ms| - 1], x);
    }
  }

  /** Removing one active member lowers the count by one. */
  lemma {:induction false} CountActiveRemove(active: set<Address>, ms: seq<Address>, x: Address)
    requires Distinct(ms) && x in ms && x in active
    ensures CountActive(active - {x}, ms) + 1 == CountActive(active, ms)
  {
    var n := |ms|;
    var init := ms[..n - 1];
    assert Distinct(init);
    if ms[n - 1] == x {
      assert x !in init;
      CountActiveRemoveOther(active, init, x);
    } else {
      assert x in init;
      CountActiveRemove(active, init, x);
    }
  }

  lemma {:induction false} CountActiveRemoveOther(active: set<Address>, ms: seq<Address>, x: Address)
    requires x !in ms
    ensures CountActive(active - {x}, ms) == CountActive(active, ms)
  {
    if |ms| > 0 {
      CountActiveRemoveOther(active, ms[..|ms| - 1], x);
    }
  }

  lemma TotalSnoc(ps: seq<Payment>, q: Payment)
    ensures Total(ps + [q]) == Total(ps) + q.amount
  {
    assert (ps + [q])[..|ps|] == ps;
  }

  /** The last round's payments total the payout, the creator's fee and the refunds. */
  lemma FinalPaymentsTotal(receiver: Address, payout: nat, creator: Address, fee: nat, refunds: seq<Payment>)
    ensures Total([Payment(receiver, payout), Payment(creator, fee)] + refunds) == payout + fee + Total(refunds)
  {
    TotalAppend([Payment(receiver, payout), Payment(creator, fee)], refunds);
    TotalSnoc([], Payment(receiver, payout));
    TotalSnoc([Payment(receiver, payout)], Payment(creator, fee));
    assert [] + [Payment(receiver, payout)] == [Payment(receiver, payout)];
    assert [Payment(receiver, payout)] + [Payment(creator, fee)] == [Payment(receiver, payout), Payment(creator, fee)];
  }

  lemma {:induction false} TotalAppend(ps: seq<Payment>, qs: seq<Payment>)
    ensures Total(ps + qs) == Total(ps) + Total(qs)
  {
    if |qs| > 0 {
      var init := qs[..|qs| - 1];
      var last := qs[|qs| - 1];
      TotalAppend(ps, init);
      assert qs == init + [last];
      assert ps + qs == (ps + init) + [last];
      TotalSnoc(ps + init, last);
      TotalSnoc(init, last);
    } else {
      assert ps + qs == ps;
    }
  }

  lemma RefundsSnoc(col: map<Address, nat>, ms: seq<Address>, i: nat)
    requires i < |ms|
    ensures Refunds(col, ms[..i + 1]) == Refunds(col, ms[..i]) + [Payment(ms[i], Lookup(col, ms[i]))]
    ensures Total(Refunds(col, ms[..i + 1])) == Total(Refunds(col, ms[..i])) + Lookup(col, ms[i])
  {
    assert ms[..i + 1][..i] == ms[..i];
    TotalSnoc(Refunds(col, ms[..i]), Payment(ms[i], Lookup(col, ms[i])));
  }

  lemma SharesSnoc(active: set<Address>, ms: seq<Address>, i: nat, share: nat)
    requires i < |ms|
    ensures Shares(active, ms[..i + 1], share)
         == Shares(active, ms[..i], share) + (if ms[i] in active then [Payment(ms[i], share)] else [])
    ensures Total(Shares(active, ms[..i + 1], share))
         == Total(Shares(active, ms[..i], share)) + (if ms[i] in active then share else 0)
  {
    assert ms[..i + 1][..i] == ms[..i];
    if ms[i] in active {
      TotalSnoc(Shares(active, ms[..i], share), Payment(ms[i], share));
    } else {
      assert Shares(active, ms[..i + 1], share) == Shares(active, ms[..i], share);
    }
  }

  /** Refunding a prefix of the members never pays more than refunding all of them. */
  lemma {:induction false} RefundsPrefixMono(col: map<Address, nat>, ms: seq<Address>, i: nat)
    requires i <= |ms|
    ensures Total(Refunds(col, ms[..i])) <= Total(Refunds(col, ms))
    decreases |ms| - i
  {
    if i < |ms| {
      RefundsSnoc(col, ms, i);
      RefundsPrefixMono(col, ms, i + 1);
    } else {
      assert ms[..i] == ms;
    }
  }

  lemma {:induction false} SharesPrefixMono(active: set<Address>, ms: seq<Address>, i: nat, share: nat)
    requires i <= |ms|
    ensures Total(Shares(active, ms[..i], share)) <= Total(Shares(active, ms, share))
    decreases |ms| - i
  {
    if i < |ms| {
      SharesSnoc(active, ms, i, share);
      SharesPrefixMono(active, ms, i + 1, share);
    } else {
      assert ms[..i] == ms;
    }
  }

  lemma MulSucc(a: nat, k: nat)
    ensures a * (k + 1) == a * k + a
    ensures (k + 1) * a == k * a + a
  {
  }

  /** Each member's refund is its collateral: the contribution if it is active, nothing otherwise. */
  lemma {:induction false} RefundsPayCollateral(col: map<Address, nat>, active: set<Address>, ms: seq<Address>, c: nat)
    requires forall a: Address :: a in ms ==> Lookup(col, a) == (if a in active then c else 0)
    ensures forall k :: 0 <= k < |ms| ==> Refunds(col, ms)[k] == Payment(ms[k], if ms[k] in active then c else 0)
  {
    if |ms| > 0 {
      var init := ms[..|ms| - 1];
      assert forall a: Address :: a in init ==> a in ms;
      RefundsPayCollateral(col, active, init, c);
    }
  }

  /** The refunds add up to one contribution per active member. */
  lemma {:induction false} RefundsTotal(col: map<Address, nat>, active: set<Address>, ms: seq<Address>, c: nat)
    requires forall a: Address :: a in ms ==> Lookup(col, a) == (if a in active then c else 0)
    ensures Total(Refunds(col, ms)) == c * CountActive(active, ms)
  {
    if |ms| > 0 {
      var init := ms[..|ms| - 1];
      var last := ms[|ms| - 1];
      assert forall a: Address :: a in init ==> a in ms;
      var k0 := CountActive(active, init);
      RefundsTotal(col, active, init, c);
      assert Refunds(col, ms) == Refunds(col, init) + [Payment(last, Lookup(col, last))];
      TotalSnoc(Refunds(col, init), Payment(last, Lookup(col, last)));
      assert Total(Refunds(col, ms)) == c * k0 + Lookup(col, last);
      if last in active {
        assert CountActive(active, ms) == k0 + 1;
        MulSucc(c, k0);
      } else {
        assert CountActive(active, ms) == k0;
      }
    }
  }

  /** The slash shares pay exactly one share per remaining active member. */
  lemma {:induction false} SharesTotal(active: set<Address>, ms: seq<Address>, share: nat)
    ensures Total(Shares(active, ms, share)) == share * CountActive(active, ms)
  {
    if |ms| > 0 {
      var init := ms[..|ms| - 1];
      var last := ms[|ms| - 1];
      SharesTotal(active, init, share);
      var k := CountActive(active, init);
      if last in active {
        TotalSnoc(Shares(active, init, share), Payment(last, share));
        MulSucc(share, k);
      } else {
        assert Shares(active, ms, share) == Shares(active, init, share);
      }
    }
  }

  /** Every share goes to a member that is still active. */
  lemma {:induction false} SharesGoToActive(active: set<Address>, ms: seq<Address>, share: nat)
    ensures forall q :: q in Shares(active, ms, share) ==> q.to in active && q.to in ms && q.amount == share
  {
    if |ms| > 0 {
      var init := ms[..|ms| - 1];
      SharesGoToActive(active, init, share);
      assert forall a: Address :: a in init ==> a in ms;
    }
  }

  lemma SumSnoc(s: seq<int>, v: int)
    ensures Sum(s + [v]) == Sum(s) + v
  {
    assert (s + [v])[..|s|] == s;
  }

  lemma {:induction false} SumUpdate(s: seq<int>, i: nat, v: int)
    requires i < |s|
    ensures Sum(s[i := v]) == Sum(s) - s[i] + v
  {
    var n := |s|;
    var t := s[i := v];
    if i == n - 1 {
      assert t[..n - 1] == s[..n - 1];
    } else {
      assert t[..n - 1] == s[..n - 1][i := v];
      SumUpdate(s[..n - 1], i, v);
    }
  }

  lemma {:induction false} SumNonneg(s: seq<int>)
    requires forall j :: 0 <= j < |s| ==> s[j] >= 0
    ensures Sum(s) >= 0
  {
    if |s| > 0 {
      SumNonneg(s[..|s| - 1]);
    }
  }

  // ---------------------------------------------------------------------
  // Arithmetic of the reserve

  lemma ReserveArith(m: nat, r: nat, c: nat, payout: nat, k: nat)
    requires r <= m && payout <= c
    ensures m * c - r * payout + k * c >= 0
  {
    MulLeftMono(r, payout, c);
    MulSucc(c, 0);
    assert r * c <= m * c by { MulLeftMono(c, r, m); }
  }

  lemma ReserveAfterJoin(p: Pool, x: Address, k: nat)
    requires p.creatorFeePercent <= 100 && !p.completed
    ensures Reserve(p.(members := p.members + [x]), k + 1) == Reserve(p, k) + 2 * p.contributionAmount
  {
    MulSucc(p.contributionAmount, |p.members|);
    MulSucc(p.contributionAmount, k);
  }

  lemma ReserveAfterRound(p: Pool, k: nat, deadline: nat)
    requires p.creatorFeePercent <= 100 && !p.completed
    ensures Reserve(p.(currentRound := p.currentRound + 1, roundDeadline := deadline), k)
         == Reserve(p, k) - Payout(p.contributionAmount, p.creatorFeePercent)
  {
    MulSucc(Payout(p.contributionAmount, p.creatorFeePercent), p.currentRound);
  }

  lemma ReserveAfterDefault(p: Pool, k: nat)
    requires p.creatorFeePercent <= 100 && !p.completed && k > 0
    ensures Reserve(p, k - 1) == Reserve(p, k) - p.contributionAmount
  {
    MulSucc(p.contributionAmount, k - 1);
  }

  /** In the last round the reserve is exactly the last payout, the creator's fee and the refunds. */
  lemma ReserveAtFinalRound(p: Pool, k: nat)
    requires p.creatorFeePercent <= 100 && !p.completed && |p.members| == p.maxMembers
    requires p.currentRound + 1 == p.maxMembers
    ensures Reserve(p, k) == Payout(p.contributionAmount, p.creatorFeePercent)
                             + CreatorFee(p.contributionAmount, p.maxMembers, p.creatorFeePercent)
                             + p.contributionAmount * k
  {
    var c, n := p.contributionAmount, p.maxMembers;
    var payout := Payout(c, p.creatorFeePercent);
    RoundsFundCreatorFee(c, n, p.creatorFeePercent);
    MulSucc(payout, n - 1);
    assert k * c == c * k;
  }

  // ---------------------------------------------------------------------
  // Transitions of the pool invariant

  /** What a pool still owes is never negative, so neither is what it holds. */
  lemma ReserveNonneg(p: Pool, held: int, col: map<Address, nat>, joined: set<Address>, active: set<Address>)
    requires PoolInv(p, held, col, joined, active)
    ensures Reserve(p, CountActive(active, p.members)) >= 0
    ensures held >= 0
  {
    if !p.completed {
      var r := if p.currentRound > 0 then |p.members| else 0;
      assert p.currentRound <= r;
      ReserveArith(|p.members|, p.currentRound, p.contributionAmount,
                   Payout(p.contributionAmount, p.creatorFeePercent), CountActive(active, p.members));
    }
  }

  /** A freshly created pool satisfies the invariant, holding nothing. */
  lemma NewPoolInv(p: Pool)
    requires p.poolExists && p.contributionAmount > 0 && p.maxMembers >= 2
    requires p.creatorFeePercent == CREATOR_FEE_PERCENT && p.currentRound == 0 && !p.completed && p.members == []
    ensures PoolInv(p, 0, map[], {}, {})
  {
  }

  /** A join keeps the invariant; the pool then holds the two contributions' worth it took in. */
  lemma JoinPreservesInv(p: Pool, held: int, col: map<Address, nat>, joined: set<Address>, active: set<Address>,
                         x: Address)
    requires PoolInv(p, held, col, joined, active)
    requires !p.completed && |p.members| < p.maxMembers && x !in joined
    ensures PoolInv(p.(members := p.members + [x]), held + 2 * p.contributionAmount,
                    SetCollateral(col, x, p.contributionAmount), joined + {x}, active + {x})
  {
    var p' := p.(members := p.members + [x]);
    var c := p.contributionAmount;
    assert x !in p.members;
    assert Distinct(p'.members);
    CountActiveAppend(active + {x}, p.members, x);
    CountActiveAddOther(active, p.members, x);
    ReserveAfterJoin(p, x, CountActive(active, p.members));
    forall a: Address ensures Lookup(SetCollateral(col, x, c), a) == (if a in active + {x} && !p'.completed then c else 0) {
      if a != x {
        assert Lookup(SetCollateral(col, x, c), a) == Lookup(col, a);
      }
    }
  }

  /** A round that is not the last keeps the invariant once its payout has left the pool. */
  lemma RoundPreservesInv(p: Pool, held: int, col: map<Address, nat>, joined: set<Address>, active: set<Address>,
                          deadline: nat)
    requires PoolInv(p, held, col, joined, active)
    requires !p.completed && |p.members| == p.maxMembers && p.currentRound + 1 < p.maxMembers
    ensures held >= Payout(p.contributionAmount, p.creatorFeePercent)
    ensures PoolInv(p.(currentRound := p.currentRound + 1, roundDeadline := deadline),
                    held - Payout(p.contributionAmount, p.creatorFeePercent), col, joined, active)
  {
    var p' := p.(currentRound := p.currentRound + 1, roundDeadline := deadline);
    var payout := Payout(p.contributionAmount, p.creatorFeePercent);
    ReserveAfterRound(p, CountActive(active, p.members), deadline);
    ReserveNonneg(p', held - payout, col, joined, active);
  }

  /**
   * Before the last round the pool holds enough for the last payout, the
   * creator's fee and every refund; after it, with every collateral
   * zeroed, the completed pool satisfies the invariant.
   */
  lemma FinalRoundFunds(p: Pool, held: int, col: map<Address, nat>, joined: set<Address>, active: set<Address>,
                        col': map<Address, nat>)
    requires PoolInv(p, held, col, joined, active)
    requires !p.completed && |p.members| == p.maxMembers && p.currentRound + 1 == p.maxMembers
    requires forall a: Address :: Lookup(col', a) == 0
    ensures var payout := Payout(p.contributionAmount, p.creatorFeePercent);
            var fee := CreatorFee(p.contributionAmount, p.maxMembers, p.creatorFeePercent);
            var refunds := Total(Refunds(col, p.members));
            && refunds == p.contributionAmount * CountActive(active, p.members)
            && held - payout - fee >= refunds
            && PoolInv(p.(currentRound := p.maxMembers, completed := true), held - payout - fee - refunds,
                       col', joined, active)
  {
    RefundsTotal(col, active, p.members, p.contributionAmount);
    ReserveAtFinalRound(p, CountActive(active, p.members));
  }

  /**
   * What a default pays out, one share per remaining active member, never
   * exceeds the slashed collateral, so the pool still holds what it owes
   * afterwards.
   */
  lemma DefaultFunds(p: Pool, held: int, col: map<Address, nat>, joined: set<Address>, active: set<Address>,
                     x: Address)
    requires PoolInv(p, held, col, joined, active)
    requires x in active && CountActive(active - {x}, p.members) > 0
    ensures var remaining := CountActive(active - {x}, p.members);
            var share := SlashShare(Lookup(col, x), remaining);
            held - Total(Shares(active - {x}, p.members, share)) >= Reserve(p, remaining) >= 0
  {
    var remaining := CountActive(active - {x}, p.members);
    var slashed := Lookup(col, x);
    var share := SlashShare(slashed, remaining);
    var paid := Total(Shares(active - {x}, p.members, share));
    SharesTotal(active - {x}, p.members, share);
    assert paid <= slashed;
    CountActiveRemove(active, p.members, x);
    ReserveNonneg(p, held, col, joined, active);
    if p.completed {
      assert slashed == 0;
    } else {
      assert slashed == p.contributionAmount;
      ReserveAfterDefault(p, remaining + 1);
      assert p.currentRound <= |p.members|;
      ReserveArith(|p.members|, p.currentRound, p.contributionAmount,
                   Payout(p.contributionAmount, p.creatorFeePercent), remaining);
    }
  }

  lemma DefaultLookup(col: map<Address, nat>, active: set<Address>, x: Address, completed: bool, c: nat)
    requires forall a: Address :: Lookup(col, a) == (if a in active && !completed then c else 0)
    ensures forall a: Address :: Lookup(SetCollateral(col, x, 0), a) == (if a in active - {x} && !completed then c else 0)
  {
    forall a: Address ensures Lookup(SetCollateral(col, x, 0), a) == (if a in active - {x} && !completed then c else 0) {
      if a != x {
        assert Lookup(SetCollateral(col, x, 0), a) == Lookup(col, a);
      }
    }
  }

  /**
   * A default keeps the invariant once the shares of the slashed
   * collateral have been paid.
   */
  lemma DefaultPreservesInv(p: Pool, held: int, col: map<Address, nat>, joined: set<Address>, active: set<Address>,
                            x: Address)
    requires PoolInv(p, held, col, joined, active)
    requires x in active && CountActive(active - {x}, p.members) > 0
    ensures var remaining := CountActive(active - {x}, p.members);
            var share := SlashShare(Lookup(col, x), remaining);
            && held >= Total(Shares(active - {x}, p.members, share))
            && PoolInv(p, held - Total(Shares(active - {x}, p.members, share)), SetCollateral(col, x, 0), joined, active - {x})
  {
    var remaining := CountActive(active - {x}, p.members);
    var share := SlashShare(Lookup(col, x), remaining);
    var paid := Total(Shares(active - {x}, p.members, share));
    DefaultFunds(p, held, col, joined, active, x);
    assert held - paid >= Reserve(p, remaining);
    var c := p.contributionAmount;
    assert forall a: Address :: Lookup(col, a) == (if a in active && !p.completed then c else 0);
    DefaultLookup(col, active, x, p.completed, c);
    assert active - {x} <= joined;
  }
}
