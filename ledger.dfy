/**
 * The CircleTrust rotating-savings ledger: pools that members join by
 * depositing one contribution plus an equal collateral, one payout per
 * round in join order, the creator's fee and the collateral refunds on the
 * last round, and the slashing of a defaulter's collateral among the
 * members still active.
 *
 * Every state-changing method either reverts, leaving the whole state as it
 * was, or succeeds and states its new state in full; `Valid()` is kept by
 * all of them. The ghost `held` records, per pool, the value the contract
 * holds on that pool's behalf: the balance is their sum, and every pool
 * holds at least what it still owes (`LedgerAccounting.PoolInv`).
 */
module Ledger {
  import opened Wrappers
  import opened Fees
  import opened LedgerAccounting
  import ContractAbi

  /** The record `createPool` appends. */
  function NewPool(creator: Address, contributionAmount: nat, maxMembers: nat, minimumReputation: nat,
                   roundDuration: nat, now: nat): (p: Pool)
    ensures p.creator == creator && p.contributionAmount == contributionAmount && p.maxMembers == maxMembers
    ensures p.minimumReputation == minimumReputation && p.roundDuration == roundDuration
    ensures p.roundDeadline == now + roundDuration
    ensures p.members == [] && p.currentRound == 0 && !p.completed && p.poolExists
    ensures p.creatorFeePercent == CREATOR_FEE_PERCENT
  {
    Pool(creator, contributionAmount, maxMembers, 0, false, true, minimumReputation,
         CREATOR_FEE_PERCENT, roundDuration, now + roundDuration, [])
  }

  /** The ten values `getPool` returns for a stored pool. */
  function View(p: Pool): ContractAbi.PoolView {
    ContractAbi.PoolView(p.creator, p.contributionAmount, p.maxMembers, p.currentRound, |p.members|,
                         p.completed, p.minimumReputation, p.creatorFeePercent, p.roundDuration, p.roundDeadline)
  }

  /** The mapping after the final round has set every member's collateral to zero, in member order. */
  function ZeroAll(col: map<Address, nat>, ms: seq<Address>): map<Address, nat> {
    if |ms| == 0 then col else SetCollateral(ZeroAll(col, ms[..|ms| - 1]), ms[|ms| - 1], 0)
  }

  lemma {:induction false} ZeroAllLookup(col: map<Address, nat>, ms: seq<Address>, a: Address)
    ensures Lookup(ZeroAll(col, ms), a) == if a in ms then 0 else Lookup(col, a)
  {
    if |ms| > 0 {
      var init := ms[..|ms| - 1];
      ZeroAllLookup(col, init, a);
      assert a in ms <==> a in init || a == ms[|ms| - 1];
    }
  }

  lemma ZeroAllSnoc(col: map<Address, nat>, ms: seq<Address>, i: nat)
    requires i < |ms|
    ensures ZeroAll(col, ms[..i + 1]) == SetCollateral(ZeroAll(col, ms[..i]), ms[i], 0)
  {
    assert ms[..i + 1][..i] == ms[..i];
  }

  /** Every address that had joined a pool before still has: `hasJoined` is never reset. */
  ghost predicate JoinedKept(before: seq<set<Address>>, after: seq<set<Address>>) {
    |before| <= |after| && forall j :: 0 <= j < |before| ==> before[j] <= after[j]
  }

  /** `PoolInv` for every pool, the per-pool sequences being of equal length. */
  ghost predicate AllInv(pools: seq<Pool>, held: seq<int>, col: seq<map<Address, nat>>, joined: seq<set<Address>>,
                         active: seq<set<Address>>)
  {
    && |held| == |pools| && |col| == |pools| && |joined| == |pools| && |active| == |pools|
    && (forall id :: 0 <= id < |pools| ==> PoolShape(pools[id]))
    && (forall id :: 0 <= id < |pools| ==> PoolInvAt(pools, held, col, joined, active, id))
  }

  /** `PoolInv` of pool `id`, read out of the per-pool sequences. */
  ghost predicate PoolInvAt(pools: seq<Pool>, held: seq<int>, col: seq<map<Address, nat>>, joined: seq<set<Address>>,
                            active: seq<set<Address>>, id: nat)
  {
    && id < |pools| && id < |held| && id < |col| && id < |joined| && id < |active|
    && PoolInv(pools[id], held[id], col[id], joined[id], active[id])
  }

  /** Replacing one pool's data by data satisfying the invariant keeps every pool's invariant. */
  lemma AllInvUpdate(pools: seq<Pool>, held: seq<int>, col: seq<map<Address, nat>>, joined: seq<set<Address>>,
                     active: seq<set<Address>>, id: nat,
                     p: Pool, h: int, c: map<Address, nat>, j: set<Address>, a: set<Address>)
    requires AllInv(pools, held, col, joined, active) && id < |pools|
    requires PoolInv(p, h, c, j, a)
    ensures AllInv(pools[id := p], held[id := h], col[id := c], joined[id := j], active[id := a])
  {
    var pools', held', col', joined', active' := pools[id := p], held[id := h], col[id := c], joined[id := j], active[id := a];
    forall k | 0 <= k < |pools'| ensures PoolInvAt(pools', held', col', joined', active', k) {
      if k != id {
        assert PoolInvAt(pools, held, col, joined, active, k);
      }
    }
  }

  lemma AllInvAppend(pools: seq<Pool>, held: seq<int>, col: seq<map<Address, nat>>, joined: seq<set<Address>>,
                     active: seq<set<Address>>,
                     p: Pool, h: int, c: map<Address, nat>, j: set<Address>, a: set<Address>)
    requires AllInv(pools, held, col, joined, active)
    requires PoolInv(p, h, c, j, a)
    ensures AllInv(pools + [p], held + [h], col + [c], joined + [j], active + [a])
  {
    var pools', held', col', joined', active' := pools + [p], held + [h], col + [c], joined + [j], active + [a];
    forall k | 0 <= k < |pools'| ensures PoolInvAt(pools', held', col', joined', active', k) {
      if k < |pools| {
        assert PoolInvAt(pools, held, col, joined, active, k);
      }
    }
  }

  lemma AllInvAt(pools: seq<Pool>, held: seq<int>, col: seq<map<Address, nat>>, joined: seq<set<Address>>,
                 active: seq<set<Address>>, id: nat)
    requires AllInv(pools, held, col, joined, active) && id < |pools|
    ensures PoolInv(pools[id], held[id], col[id], joined[id], active[id])
  {
    assert PoolInvAt(pools, held, col, joined, active, id);
  }

  /** The invariant across a successful join. */
  lemma JoinStep(pools: seq<Pool>, held: seq<int>, col: seq<map<Address, nat>>, joined: seq<set<Address>>,
                 active: seq<set<Address>>, id: nat, x: Address)
    requires AllInv(pools, held, col, joined, active) && id < |pools|
    requires !pools[id].completed && |pools[id].members| < pools[id].maxMembers && x !in joined[id]
    ensures var p := pools[id];
            AllInv(pools[id := p.(members := p.members + [x])], held[id := held[id] + 2 * p.contributionAmount],
                   col[id := SetCollateral(col[id], x, p.contributionAmount)],
                   joined[id := joined[id] + {x}], active[id := active[id] + {x}])
  {
    var p := pools[id];
    AllInvAt(pools, held, col, joined, active, id);
    JoinPreservesInv(p, held[id], col[id], joined[id], active[id], x);
    AllInvUpdate(pools, held, col, joined, active, id,
                 p.(members := p.members + [x]), held[id] + 2 * p.contributionAmount,
                 SetCollateral(col[id], x, p.contributionAmount), joined[id] + {x}, active[id] + {x});
  }

  class CircleTrust {
    var pools: seq<Pool>
    var collateral: seq<map<Address, nat>>
    var joined: seq<set<Address>>
    var active: seq<set<Address>>
    var reputation: map<Address, int>
    var balance: nat
    var payments: seq<Payment>
    ghost var held: seq<int>

    ghost predicate Valid()
      reads this
    {
      && |collateral| == |pools| && |joined| == |pools| && |active| == |pools| && |held| == |pools|
      && balance == Sum(held)
      && AllInv(pools, held, collateral, joined, active)
    }

    constructor ()
      ensures Valid()
      ensures pools == [] && reputation == map[] && balance == 0 && payments == []
    {
      pools := [];
      collateral := [];
      joined := [];
      active := [];
      reputation := map[];
      balance := 0;
      payments := [];
      held := [];
    }

    // -------------------------------------------------------------------
    // Views

    /** `poolCount()`: ids are dense, so exactly the ids below the count name a pool. */
    function PoolCount(): (n: nat)
      reads this
      ensures forall id: PoolId :: GetPool(id).Success? <==> id < n
    {
      |pools|
    }

    /** `getPool`: reverts for an id that was never created. */
    function GetPool(id: PoolId): (r: Result<ContractAbi.PoolView, Error>)
      reads this
      ensures r.Failure? <==> id >= |pools|
      ensures r.Failure? ==> r.error == PoolDoesNotExist
      ensures r.Success? ==> r.value == View(pools[id])
    {
      if id < |pools| then Success(View(pools[id])) else Failure(PoolDoesNotExist)
    }

    /** The `pools` getter: an id never written reads as the all-zero record, whose `exists` is false. */
    function PoolsGetter(id: PoolId): (r: ContractAbi.PoolRecord)
      requires Valid()
      reads this
      ensures r.poolExists <==> id < |pools|
      ensures id >= |pools| ==> r == ContractAbi.EMPTY_POOL_RECORD
    {
      if id < |pools| then
        var p := pools[id];
        ContractAbi.PoolRecord(p.creator, p.contributionAmount, p.maxMembers, p.currentRound, p.completed,
                               p.poolExists, p.minimumReputation, p.creatorFeePercent, p.roundDuration,
                               p.roundDeadline)
      else ContractAbi.EMPTY_POOL_RECORD
    }

    function GetMembers(id: PoolId): (r: Result<seq<Address>, Error>)
      reads this
      ensures r.Failure? <==> id >= |pools|
      ensures r.Failure? ==> r.error == PoolDoesNotExist
      ensures r.Success? ==> r.value == pools[id].members
    {
      if id < |pools| then Success(pools[id].members) else Failure(PoolDoesNotExist)
    }

    /** `getCollateral(id, a)`: reverts for an id that was never created. */
    function CollateralOf(id: PoolId, a: Address): (r: Result<nat, Error>)
      requires Valid()
      reads this
      ensures r.Failure? <==> id >= |pools|
      ensures r.Failure? ==> r.error == PoolDoesNotExist
      ensures r.Success? ==> r.value == Lookup(collateral[id], a)
    {
      if id < |pools| then Success(Lookup(collateral[id], a)) else Failure(PoolDoesNotExist)
    }

    /** `hasJoined(id, a)`: reverts for an id that was never created. */
    function HasJoined(id: PoolId, a: Address): (r: Result<bool, Error>)
      requires Valid()
      reads this
      ensures r.Failure? <==> id >= |pools|
      ensures r.Failure? ==> r.error == PoolDoesNotExist
      ensures r.Success? ==> (r.value <==> a in joined[id])
    {
      if id < |pools| then Success(a in joined[id]) else Failure(PoolDoesNotExist)
    }

    /** `isActiveMember(id, a)`: reverts for an id that was never created. */
    function IsActiveMember(id: PoolId, a: Address): (r: Result<bool, Error>)
      requires Valid()
      reads this
      ensures r.Failure? <==> id >= |pools|
      ensures r.Failure? ==> r.error == PoolDoesNotExist
      ensures r.Success? ==> (r.value <==> a in active[id])
    {
      if id < |pools| then Success(a in active[id]) else Failure(PoolDoesNotExist)
    }

    /** `reputation(a)`: a signed score, 0 for an address never rated. */
    function ReputationOf(a: Address): (r: int)
      reads this
      ensures a !in reputation ==> r == 0
      ensures a in reputation ==> r == reputation[a]
    {
      if a in reputation then reputation[a] else 0
    }

    /** `getContractBalance()`: what the contract holds is what its pools hold, together. */
    function GetContractBalance(): (b: nat)
      reads this
      ensures Valid() ==> b == Sum(held)
    {
      balance
    }

    /** What `getPool` reports always keeps the pool's bounds. */
    lemma ViewKeepsBounds(id: PoolId)
      requires Valid() && GetPool(id).Success?
      ensures var v := GetPool(id).value;
              && v.memberCount <= v.maxMembers && v.currentRound <= v.maxMembers && v.maxMembers >= 2
              && v.contributionAmount > 0 && v.creatorFeePercent == CREATOR_FEE_PERCENT
              && (v.completed <==> v.currentRound == v.maxMembers)
              && (v.currentRound > 0 ==> v.memberCount == v.maxMembers)
    {
      AllInvAt(pools, held, collateral, joined, active, id);
    }

    /**
     * Collateral is held exactly while a member is active in a pool that has
     * not completed, so a completed pool holds none; and only members
     * that joined can be active.
     */
    lemma CollateralWhileActive(id: PoolId, a: Address)
      requires Valid() && id < |pools|
      ensures CollateralOf(id, a).value
                == if IsActiveMember(id, a).value && !pools[id].completed then pools[id].contributionAmount else 0
      ensures pools[id].completed ==> CollateralOf(id, a) == Success(0)
      ensures IsActiveMember(id, a) == Success(true) ==> HasJoined(id, a) == Success(true)
      ensures HasJoined(id, a) == Success(a in pools[id].members)
    {
      AllInvAt(pools, held, collateral, joined, active, id);
    }

    /** The contract's balance covers what any single pool still owes. */
    lemma BalanceCoversPool(id: PoolId)
      requires Valid() && id < |pools|
      ensures balance >= Reserve(pools[id], CountActive(active[id], pools[id].members))
    {
      HeldNonneg();
      AllInvAt(pools, held, collateral, joined, active, id);
      SumAtLeastElem(held, id);
    }

    lemma HeldNonneg()
      requires Valid()
      ensures forall j :: 0 <= j < |held| ==> held[j] >= 0
    {
      forall j | 0 <= j < |held| ensures held[j] >= 0 {
        AllInvAt(pools, held, collateral, joined, active, j);
        ReserveNonneg(pools[j], held[j], collateral[j], joined[j], active[j]);
      }
    }

    /** An address that has joined a pool, whether it defaulted or not, can never join it again. */
    lemma JoinedCannotRejoin(id: PoolId, a: Address, value: nat)
      requires Valid() && HasJoined(id, a) == Success(true)
      ensures JoinVerdict(a, id, value).Reverted?
      ensures JoinVerdict(a, id, value).error in {PoolCompleted, PoolIsFull, AlreadyJoined}
    {
    }

    /** A completed pool accepts neither a join nor a distribution. */
    lemma CompletedPoolIsClosed(id: PoolId, caller: Address, value: nat, now: nat)
      requires Valid() && id < |pools| && pools[id].completed
      ensures JoinVerdict(caller, id, value) == Reverted(PoolCompleted)
      ensures DistributeVerdict(id, now) == Reverted(PoolNotActive)
    {
    }

    /** A member that is no longer active, for instance after defaulting, cannot default again. */
    lemma InactiveCannotDefault(id: PoolId, member: Address)
      requires Valid() && IsActiveMember(id, member) == Success(false)
      ensures DefaultVerdict(id, member) == Reverted(NotActiveMember)
    {
    }

    // -------------------------------------------------------------------
    // Guards, in the order the model checks them

    function JoinVerdict(caller: Address, id: PoolId, value: nat): (r: Outcome)
      requires Valid()
      reads this
      ensures r == Done <==>
                && id < |pools| && !pools[id].completed && |pools[id].members| < pools[id].maxMembers
                && caller !in joined[id] && ReputationOf(caller) >= pools[id].minimumReputation
                && value == 2 * pools[id].contributionAmount
      ensures id >= |pools| ==> r == Reverted(PoolDoesNotExist)
    {
      if id >= |pools| then Reverted(PoolDoesNotExist)
      else if pools[id].completed then Reverted(PoolCompleted)
      else if |pools[id].members| >= pools[id].maxMembers then Reverted(PoolIsFull)
      else if caller in joined[id] then Reverted(AlreadyJoined)
      else if ReputationOf(caller) < pools[id].minimumReputation then Reverted(ReputationTooLow)
      else if value != 2 * pools[id].contributionAmount then Reverted(IncorrectDeposit)
      else Done
    }

    function DistributeVerdict(id: PoolId, now: nat): (r: Outcome)
      reads this
      ensures r == Done <==>
                && id < |pools| && |pools[id].members| == pools[id].maxMembers && !pools[id].completed
                && (pools[id].roundDuration > 0 ==> now >= pools[id].roundDeadline)
      ensures id >= |pools| ==> r == Reverted(PoolDoesNotExist)
    {
      if id >= |pools| then Reverted(PoolDoesNotExist)
      else if |pools[id].members| != pools[id].maxMembers || pools[id].completed then Reverted(PoolNotActive)
      else if pools[id].roundDuration > 0 && now < pools[id].roundDeadline then Reverted(RoundNotElapsed)
      else Done
    }

    function DefaultVerdict(id: PoolId, member: Address): (r: Outcome)
      requires Valid()
      reads this
      ensures r == Done <==>
                && id < |pools| && member in active[id]
                && CountActive(active[id] - {member}, pools[id].members) > 0
      ensures id >= |pools| ==> r == Reverted(PoolDoesNotExist)
    {
      if id >= |pools| then Reverted(PoolDoesNotExist)
      else if member !in active[id] then Reverted(NotActiveMember)
      else if CountActive(active[id] - {member}, pools[id].members) == 0 then Reverted(NoActiveMembersLeft)
      else Done
    }

    // -------------------------------------------------------------------
    // Transitions

    /** Pays out `ps` in order from pool `id`'s funds. */
    method PayOut(id: PoolId, ps: seq<Payment>)
      requires id < |held| && Total(ps) <= held[id]
      requires balance == Sum(held) && forall j :: 0 <= j < |held| ==> held[j] >= 0
      modifies this
      ensures held == old(held)[id := old(held[id]) - Total(ps)]
      ensures balance == old(balance) - Total(ps) && balance == Sum(held)
      ensures forall j :: 0 <= j < |held| ==> held[j] >= 0
      ensures payments == old(payments) + ps
      ensures pools == old(pools) && collateral == old(collateral) && joined == old(joined)
      ensures active == old(active) && reputation == old(reputation)
    {
      ghost var h' := held[id := held[id] - Total(ps)];
      SumUpdate(held, id, held[id] - Total(ps));
      SumNonneg(h');
      balance := balance - Total(ps);
      held := h';
      payments := payments + ps;
    }

    /** One ether transfer of `amount` to `to` from pool `id`'s funds. */
    method Transfer(id: PoolId, to: Address, amount: nat)
      requires id < |held| && amount <= held[id]
      requires balance == Sum(held) && forall j :: 0 <= j < |held| ==> held[j] >= 0
      modifies this
      ensures held == old(held)[id := old(held[id]) - amount]
      ensures balance == old(balance) - amount && balance == Sum(held)
      ensures forall j :: 0 <= j < |held| ==> held[j] >= 0
      ensures payments == old(payments) + [Payment(to, amount)]
      ensures pools == old(pools) && collateral == old(collateral) && joined == old(joined)
      ensures active == old(active) && reputation == old(reputation)
    {
      assert Total([Payment(to, amount)]) == amount by {
        assert [Payment(to, amount)][..0] == [];
      }
      PayOut(id, [Payment(to, amount)]);
    }

    /**
     * `createPool`: a positive contribution and at least two members, checked
     * in that order. The new pool takes the next id and the fixed creator fee.
     */
    method CreatePool(caller: Address, contributionAmount: nat, maxMembers: nat, minimumReputation: nat,
                      roundDuration: nat, now: nat) returns (r: Result<PoolId, Error>)
      requires Valid()
      modifies this
      ensures Valid()
      ensures contributionAmount == 0 ==> r == Failure(InvalidAmount)
      ensures contributionAmount > 0 && maxMembers < 2 ==> r == Failure(InvalidMemberCount)
      ensures contributionAmount > 0 && maxMembers >= 2 ==> r.Success?
      ensures r.Failure? ==> unchanged(this)
      ensures r.Success? ==>
                && contributionAmount > 0 && maxMembers >= 2
                && r.value == old(|pools|)
                && pools == old(pools) + [NewPool(caller, contributionAmount, maxMembers, minimumReputation,
                                                  roundDuration, now)]
                && collateral == old(collateral) + [map[]]
                && joined == old(joined) + [{}] && active == old(active) + [{}]
                && reputation == old(reputation) && balance == old(balance) && payments == old(payments)
    {
      if contributionAmount == 0 {
        return Failure(InvalidAmount);
      }
      if maxMembers < 2 {
        return Failure(InvalidMemberCount);
      }
      var p := NewPool(caller, contributionAmount, maxMembers, minimumReputation, roundDuration, now);
      NewPoolInv(p);
      AllInvAppend(pools, held, collateral, joined, active, p, 0, map[], {}, {});
      SumSnoc(held, 0);
      r := Success(|pools|);
      pools := pools + [p];
      collateral := collateral + [map[]];
      joined := joined + [{}];
      active := active + [{}];
      held := held + [0];
    }

    /**
     * `joinPool`: the caller deposits exactly twice the contribution; half
     * is recorded as its collateral and it becomes an active member, the
     * next in payout order.
     */
    method JoinPool(caller: Address, id: PoolId, value: nat) returns (r: Outcome)
      requires Valid()
      modifies this
      ensures Valid()
      ensures r == old(JoinVerdict(caller, id, value))
      ensures r.Reverted? ==> unchanged(this)
      ensures r.Done? ==>
                var p := old(pools[id]);
                && pools == old(pools)[id := p.(members := p.members + [caller])]
                && collateral == old(collateral)[id := SetCollateral(old(collateral[id]), caller, p.contributionAmount)]
                && joined == old(joined)[id := old(joined[id]) + {caller}]
                && active == old(active)[id := old(active[id]) + {caller}]
                && balance == old(balance) + value
                && reputation == old(reputation) && payments == old(payments)
      ensures JoinedKept(old(joined), joined)
    {
      r := JoinVerdict(caller, id, value);
      if r.Done? {
        Admit(caller, id, value);
      }
    }

    /** The effect of a join that passed every guard. */
    method Admit(caller: Address, id: PoolId, value: nat)
      requires Valid() && JoinVerdict(caller, id, value) == Done
      modifies this
      ensures Valid()
      ensures var p := old(pools[id]);
              && pools == old(pools)[id := p.(members := p.members + [caller])]
              && collateral == old(collateral)[id := SetCollateral(old(collateral[id]), caller, p.contributionAmount)]
              && joined == old(joined)[id := old(joined[id]) + {caller}]
              && active == old(active)[id := old(active[id]) + {caller}]
              && balance == old(balance) + value
              && reputation == old(reputation) && payments == old(payments)
    {
      var p := pools[id];
      var c := p.contributionAmount;
      JoinStep(pools, held, collateral, joined, active, id, caller);
      SumUpdate(held, id, held[id] + value);
      pools := pools[id := p.(members := p.members + [caller])];
      collateral := collateral[id := SetCollateral(collateral[id], caller, c)];
      joined := joined[id := joined[id] + {caller}];
      active := active[id := active[id] + {caller}];
      balance := balance + value;
      held := held[id := held[id] + value];
    }

    /**
     * `distribute`: pays the round's receiver, `members[currentRound]`, the
     * contribution less the round fee and raises its reputation by one. On
     * the last round the pool completes, the creator is paid the fees kept
     * back and every member is refunded its collateral, which is zeroed;
     * otherwise the round advances and the next deadline is set.
     */
    method Distribute(id: PoolId, now: nat) returns (r: Outcome)
      requires Valid()
      modifies this
      ensures Valid()
      ensures r == old(DistributeVerdict(id, now))
      ensures r.Reverted? ==> unchanged(this)
      ensures r.Done? ==>
                var p := old(pools[id]);
                var receiver := p.members[p.currentRound];
                var payout := Payout(p.contributionAmount, p.creatorFeePercent);
                && reputation == old(reputation)[receiver := old(ReputationOf(receiver)) + 1]
                && joined == old(joined) && active == old(active)
                && (p.currentRound + 1 < p.maxMembers ==>
                      && pools == old(pools)[id := p.(currentRound := p.currentRound + 1,
                                                      roundDeadline := now + p.roundDuration)]
                      && collateral == old(collateral)
                      && payments == old(payments) + [Payment(receiver, payout)]
                      && balance == old(balance) - payout)
                && (p.currentRound + 1 == p.maxMembers ==>
                      var fee := CreatorFee(p.contributionAmount, p.maxMembers, p.creatorFeePercent);
                      var refunds := Refunds(old(collateral[id]), p.members);
                      && pools == old(pools)[id := p.(currentRound := p.maxMembers, completed := true)]
                      && collateral == old(collateral)[id := ZeroAll(old(collateral[id]), p.members)]
                      && payments == old(payments) + [Payment(receiver, payout), Payment(p.creator, fee)] + refunds
                      && balance == old(balance) - payout - fee - Total(refunds))
      ensures JoinedKept(old(joined), joined)
    {
      r := DistributeVerdict(id, now);
      if r.Done? {
        if pools[id].currentRound + 1 < pools[id].maxMembers {
          PayRound(id, now);
        } else {
          FinishPool(id);
        }
      }
    }

    /** A round other than the last: one payout, and the round advances. */
    method PayRound(id: PoolId, now: nat)
      requires Valid() && id < |pools|
      requires |pools[id].members| == pools[id].maxMembers && !pools[id].completed
      requires pools[id].currentRound + 1 < pools[id].maxMembers
      modifies this
      ensures Valid()
      ensures var p := old(pools[id]);
              var receiver := p.members[p.currentRound];
              var payout := Payout(p.contributionAmount, p.creatorFeePercent);
              && reputation == old(reputation)[receiver := old(ReputationOf(receiver)) + 1]
              && joined == old(joined) && active == old(active) && collateral == old(collateral)
              && pools == old(pools)[id := p.(currentRound := p.currentRound + 1, roundDeadline := now + p.roundDuration)]
              && payments == old(payments) + [Payment(receiver, payout)]
              && balance == old(balance) - payout
    {
      var p := pools[id];
      var receiver := p.members[p.currentRound];
      var payout := Payout(p.contributionAmount, p.creatorFeePercent);
      RoundStep(pools, held, collateral, joined, active, id, now + p.roundDuration);
      HeldNonneg();
      reputation := reputation[receiver := ReputationOf(receiver) + 1];
      Transfer(id, receiver, payout);
      pools := pools[id := p.(currentRound := p.currentRound + 1, roundDeadline := now + p.roundDuration)];
    }

    /** The last round: payout, creator's fee, and the refund of every collateral, zeroing it. */
    method FinishPool(id: PoolId)
      requires Valid() && id < |pools|
      requires |pools[id].members| == pools[id].maxMembers && !pools[id].completed
      requires pools[id].currentRound + 1 == pools[id].maxMembers
      modifies this
      ensures Valid()
      ensures var p := old(pools[id]);
              var receiver := p.members[p.currentRound];
              var payout := Payout(p.contributionAmount, p.creatorFeePercent);
              var fee := CreatorFee(p.contributionAmount, p.maxMembers, p.creatorFeePercent);
              var refunds := Refunds(old(collateral[id]), p.members);
              && reputation == old(reputation)[receiver := old(ReputationOf(receiver)) + 1]
              && joined == old(joined) && active == old(active)
              && pools == old(pools)[id := p.(currentRound := p.maxMembers, completed := true)]
              && collateral == old(collateral)[id := ZeroAll(old(collateral[id]), p.members)]
              && payments == old(payments) + [Payment(receiver, payout), Payment(p.creator, fee)] + refunds
              && balance == old(balance) - payout - fee - Total(refunds)
    {
      var p := pools[id];
      var receiver := p.members[p.currentRound];
      var payout := Payout(p.contributionAmount, p.creatorFeePercent);
      var fee := CreatorFee(p.contributionAmount, p.maxMembers, p.creatorFeePercent);
      FinalStep(pools, held, collateral, joined, active, id);
      HeldNonneg();
      var col', refunds := RefundMembers(collateral[id], p.members);
      var ps := [Payment(receiver, payout), Payment(p.creator, fee)] + refunds;
      FinalPaymentsTotal(receiver, payout, p.creator, fee, refunds);
      reputation := reputation[receiver := ReputationOf(receiver) + 1];
      collateral := collateral[id := col'];
      PayOut(id, ps);
      pools := pools[id := p.(currentRound := p.maxMembers, completed := true)];
    }

    /**
     * `handleDefault`: an active member defaults. Its reputation drops by
     * two, it is no longer active and its collateral is slashed to zero and
     * shared equally, rounded down, among the members still active.
     */
    method HandleDefault(id: PoolId, member: Address) returns (r: Outcome)
      requires Valid()
      modifies this
      ensures Valid()
      ensures r == old(DefaultVerdict(id, member))
      ensures r.Reverted? ==> unchanged(this)
      ensures r.Done? ==>
                var p := old(pools[id]);
                var remaining := old(active[id]) - {member};
                var share := SlashShare(old(Lookup(collateral[id], member)), CountActive(remaining, p.members));
                && pools == old(pools) && joined == old(joined)
                && active == old(active)[id := remaining]
                && collateral == old(collateral)[id := SetCollateral(old(collateral[id]), member, 0)]
                && reputation == old(reputation)[member := old(ReputationOf(member)) - 2]
                && payments == old(payments) + Shares(remaining, p.members, share)
                && balance == old(balance) - Total(Shares(remaining, p.members, share))
      ensures JoinedKept(old(joined), joined)
    {
      if id >= |pools| {
        return Reverted(PoolDoesNotExist);
      }
      if member !in active[id] {
        return Reverted(NotActiveMember);
      }
      var count := CountMembersIn(active[id] - {member}, pools[id].members);
      if count == 0 {
        return Reverted(NoActiveMembersLeft);
      }
      r := Done;
      Slash(id, member, count);
    }

    /** The effect of a default on an active member when `count` other members remain active. */
    method Slash(id: PoolId, member: Address, count: nat)
      requires Valid() && id < |pools| && member in active[id]
      requires count == CountActive(active[id] - {member}, pools[id].members) > 0
      modifies this
      ensures Valid()
      ensures var p := old(pools[id]);
              var remaining := old(active[id]) - {member};
              var share := SlashShare(old(Lookup(collateral[id], member)), count);
              && pools == old(pools) && joined == old(joined)
              && active == old(active)[id := remaining]
              && collateral == old(collateral)[id := SetCollateral(old(collateral[id]), member, 0)]
              && reputation == old(reputation)[member := old(ReputationOf(member)) - 2]
              && payments == old(payments) + Shares(remaining, p.members, share)
              && balance == old(balance) - Total(Shares(remaining, p.members, share))
    {
      var p := pools[id];
      var remaining := active[id] - {member};
      var share := SlashShare(Lookup(collateral[id], member), count);
      ghost var held0 := held;
      DefaultStep(pools, held, collateral, joined, active, id, member);
      HeldNonneg();
      reputation := reputation[member := ReputationOf(member) - 2];
      active := active[id := remaining];
      collateral := collateral[id := SetCollateral(collateral[id], member, 0)];
      var shares := ShareMembers(remaining, p.members, share);
      PayOut(id, shares);
      SumUpdate(held0, id, held0[id] - Total(Shares(remaining, p.members, share)));
    }
  }

  /**
   * The refund loop of the last round: each member in turn is refunded the
   * collateral it still has, which is then set to zero.
   */
  method RefundMembers(col: map<Address, nat>, ms: seq<Address>) returns (col': map<Address, nat>, refunds: seq<Payment>)
    requires Distinct(ms)
    ensures col' == ZeroAll(col, ms)
    ensures refunds == Refunds(col, ms)
  {
    col', refunds := col, [];
    var i := 0;
    while i < |ms|
      invariant 0 <= i <= |ms|
      invariant col' == ZeroAll(col, ms[..i])
      invariant refunds == Refunds(col, ms[..i])
    {
      DistinctNotInPrefix(ms, i);
      ZeroAllLookup(col, ms[..i], ms[i]);
      RefundsSnoc(col, ms, i);
      ZeroAllSnoc(col, ms, i);
      refunds := refunds + [Payment(ms[i], Lookup(col', ms[i]))];
      col' := SetCollateral(col', ms[i], 0);
      i := i + 1;
    }
    assert ms[..i] == ms;
  }

  /** The second pass of `handleDefault`: one share to each member of `ms` still in `active`, in member order. */
  method ShareMembers(active: set<Address>, ms: seq<Address>, share: nat) returns (shares: seq<Payment>)
    ensures shares == Shares(active, ms, share)
  {
    shares := [];
    var i := 0;
    while i < |ms|
      invariant 0 <= i <= |ms|
      invariant shares == Shares(active, ms[..i], share)
    {
      SharesSnoc(active, ms, i, share);
      if ms[i] in active {
        shares := shares + [Payment(ms[i], share)];
      }
      i := i + 1;
    }
    assert ms[..i] == ms;
  }

  /** The contract's first pass in `handleDefault`: how many of `ms` are still in `active`. */
  method CountMembersIn(active: set<Address>, ms: seq<Address>) returns (count: nat)
    ensures count == CountActive(active, ms)
  {
    count := 0;
    var i := 0;
    while i < |ms|
      invariant 0 <= i <= |ms|
      invariant count == CountActive(active, ms[..i])
    {
      CountActiveSnoc(active, ms, i);
      if ms[i] in active {
        count := count + 1;
      }
      i := i + 1;
    }
    assert ms[..i] == ms;
  }

  /** The invariant across a round that is not the last. */
  lemma RoundStep(pools: seq<Pool>, held: seq<int>, col: seq<map<Address, nat>>, joined: seq<set<Address>>,
                  active: seq<set<Address>>, id: nat, deadline: nat)
    requires AllInv(pools, held, col, joined, active) && id < |pools|
    requires |pools[id].members| == pools[id].maxMembers && !pools[id].completed
    requires pools[id].currentRound + 1 < pools[id].maxMembers
    ensures var p := pools[id];
            var payout := Payout(p.contributionAmount, p.creatorFeePercent);
            && held[id] >= payout
            && AllInv(pools[id := p.(currentRound := p.currentRound + 1, roundDeadline := deadline)],
                      held[id := held[id] - payout], col, joined, active)
  {
    var p := pools[id];
    var payout := Payout(p.contributionAmount, p.creatorFeePercent);
    AllInvAt(pools, held, col, joined, active, id);
    RoundPreservesInv(p, held[id], col[id], joined[id], active[id], deadline);
    AllInvUpdate(pools, held, col, joined, active, id,
                 p.(currentRound := p.currentRound + 1, roundDeadline := deadline), held[id] - payout,
                 col[id], joined[id], active[id]);
    assert col[id := col[id]] == col && joined[id := joined[id]] == joined && active[id := active[id]] == active;
  }

  /** The invariant across the last round. */
  lemma FinalStep(pools: seq<Pool>, held: seq<int>, col: seq<map<Address, nat>>, joined: seq<set<Address>>,
                  active: seq<set<Address>>, id: nat)
    requires AllInv(pools, held, col, joined, active) && id < |pools|
    requires |pools[id].members| == pools[id].maxMembers && !pools[id].completed
    requires pools[id].currentRound + 1 == pools[id].maxMembers
    ensures var p := pools[id];
            var payout := Payout(p.contributionAmount, p.creatorFeePercent);
            var fee := CreatorFee(p.contributionAmount, p.maxMembers, p.creatorFeePercent);
            var refunds := Total(Refunds(col[id], p.members));
            && Distinct(p.members)
            && held[id] - payout - fee >= refunds
            && AllInv(pools[id := p.(currentRound := p.maxMembers, completed := true)],
                      held[id := held[id] - payout - fee - refunds],
                      col[id := ZeroAll(col[id], p.members)], joined, active)
  {
    var p := pools[id];
    var payout := Payout(p.contributionAmount, p.creatorFeePercent);
    var fee := CreatorFee(p.contributionAmount, p.maxMembers, p.creatorFeePercent);
    var refunds := Total(Refunds(col[id], p.members));
    AllInvAt(pools, held, col, joined, active, id);
    ZeroAllIsZero(p, held[id], col[id], joined[id], active[id]);
    FinalRoundFunds(p, held[id], col[id], joined[id], active[id], ZeroAll(col[id], p.members));
    AllInvUpdate(pools, held, col, joined, active, id,
                 p.(currentRound := p.maxMembers, completed := true), held[id] - payout - fee - refunds,
                 ZeroAll(col[id], p.members), joined[id], active[id]);
    assert joined[id := joined[id]] == joined && active[id := active[id]] == active;
  }

  /** The invariant across a default. */
  lemma DefaultStep(pools: seq<Pool>, held: seq<int>, col: seq<map<Address, nat>>, joined: seq<set<Address>>,
                    active: seq<set<Address>>, id: nat, x: Address)
    requires AllInv(pools, held, col, joined, active) && id < |pools|
    requires x in active[id] && CountActive(active[id] - {x}, pools[id].members) > 0
    ensures var p := pools[id];
            var share := SlashShare(Lookup(col[id], x), CountActive(active[id] - {x}, p.members));
            var paid := Total(Shares(active[id] - {x}, p.members, share));
            && held[id] >= paid
            && AllInv(pools, held[id := held[id] - paid], col[id := SetCollateral(col[id], x, 0)],
                      joined, active[id := active[id] - {x}])
  {
    var p := pools[id];
    var share := SlashShare(Lookup(col[id], x), CountActive(active[id] - {x}, p.members));
    var paid := Total(Shares(active[id] - {x}, p.members, share));
    AllInvAt(pools, held, col, joined, active, id);
    DefaultPreservesInv(p, held[id], col[id], joined[id], active[id], x);
    AllInvUpdate(pools, held, col, joined, active, id, p, held[id] - paid, SetCollateral(col[id], x, 0),
                 joined[id], active[id] - {x});
    assert pools[id := p] == pools && joined[id := joined[id]] == joined;
  }

  lemma DistinctNotInPrefix(ms: seq<Address>, i: nat)
    requires Distinct(ms) && i < |ms|
    ensures ms[i] !in ms[..i]
  {
  }

  /** Under the invariant, zeroing every member's collateral leaves none anywhere. */
  lemma ZeroAllIsZero(p: Pool, held: int, col: map<Address, nat>, joined: set<Address>, active: set<Address>)
    requires PoolInv(p, held, col, joined, active)
    ensures forall a :: Lookup(ZeroAll(col, p.members), a) == 0
  {
    forall a ensures Lookup(ZeroAll(col, p.members), a) == 0 {
      ZeroAllLookup(col, p.members, a);
    }
  }

  lemma {:induction false} SumAtLeastElem(s: seq<int>, i: nat)
    requires i < |s| && forall j :: 0 <= j < |s| ==> s[j] >= 0
    ensures Sum(s) >= s[i]
  {
    var init := s[..|s| - 1];
    if i == |s| - 1 {
      SumNonneg(init);
    } else {
      SumAtLeastElem(init, i);
    }
  }
}
