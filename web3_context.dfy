/**
 * The client state and the pure rules of the client context
 * (frontend/app/context/Web3Context.tsx): how a pool's status is derived
 * from the `getPool` tuple, how `refreshPools` builds the list of pools
 * from one answer per id, how `createPool` picks the new pool's id, how
 * the revert reasons of `createPool`, `joinPool` and `distribute` are
 * turned into the messages the user sees, and what `disconnect` resets.
 * Contract calls are not made here: their answers are parameters.
 */
module Web3Context {
  import opened Wrappers
  import opened ContractAbi
  import Text
  import LedgerAccounting
  import Ledger

  // ---------------------------------------------------------------------
  // Pool status and the display record

  /**
   * The status shown for a pool: completed whenever the pool is completed,
   * whatever its member count; otherwise active when it is full, else open.
   */
  function DeriveStatus(completed: bool, memberCount: nat, maxMembers: nat): (s: PoolStatus)
    ensures s == Completed <==> completed
    ensures s == Active <==> !completed && memberCount == maxMembers
    ensures s == Open <==> !completed && memberCount != maxMembers
  {
    if completed then Completed
    else if memberCount == maxMembers then Active
    else Open
  }

  /** The entry `refreshPools` pushes for pool `id`, from the fields `getPool` returned. */
  function ToDisplay(id: nat, v: PoolView): (d: PoolDisplay)
    ensures d.id == id && d.completed == v.completed
    ensures d.memberCount == v.memberCount && d.maxMembers == v.maxMembers && d.currentRound == v.currentRound
    ensures d.creator == v.creator && d.contributionAmount == v.contributionAmount
    ensures d.minimumReputation == v.minimumReputation && d.creatorFeePercent == v.creatorFeePercent
    ensures d.roundDuration == v.roundDuration && d.roundDeadline == v.roundDeadline
    ensures d.status == DeriveStatus(v.completed, v.memberCount, v.maxMembers)
  {
    PoolDisplay(id, v.creator, v.contributionAmount, v.maxMembers, v.currentRound, v.memberCount, v.completed,
                v.minimumReputation, v.creatorFeePercent, v.roundDuration, v.roundDeadline,
                DeriveStatus(v.completed, v.memberCount, v.maxMembers))
  }

  /** The status carried by a display record is the one its own fields give. */
  predicate StatusConsistent(d: PoolDisplay) {
    d.status == DeriveStatus(d.completed, d.memberCount, d.maxMembers)
  }

  // ---------------------------------------------------------------------
  // refreshPools

  /** The answer to `getPool(i)`: the ten fields, or a thrown error with its message. */
  datatype Fetch = Fetched(view: PoolView) | FetchFailed(message: string)

  /** The answer the client gets from a ledger's `getPool`. */
  function FetchOf(r: Result<PoolView, LedgerAccounting.Error>): (f: Fetch)
    ensures f.Fetched? <==> r.Success?
    ensures r.Success? ==> f == Fetched(r.value)
    ensures r.Failure? ==> f == FetchFailed(r.error.Reason())
  {
    match r
    case Success(v) => Fetched(v)
    case Failure(e) => FetchFailed(e.Reason())
  }

  /**
   * The list `refreshPools` builds from the answers for ids `0 .. |fetch|`,
   * in id order: one entry per answered id, none for an id whose fetch threw.
   */
  function PoolsData(fetch: seq<Fetch>): (data: seq<PoolDisplay>)
    ensures |data| <= |fetch|
  {
    if |fetch| == 0 then []
    else
      var i := |fetch| - 1;
      PoolsData(fetch[..i]) + (if fetch[i].Fetched? then [ToDisplay(i, fetch[i].view)] else [])
  }

  function Ids(data: seq<PoolDisplay>): set<nat> {
    set k | 0 <= k < |data| :: data[k].id
  }

  function FetchedCount(fetch: seq<Fetch>): (n: nat)
    ensures n <= |fetch|
  {
    if |fetch| == 0 then 0 else FetchedCount(fetch[..|fetch| - 1]) + (if fetch[|fetch| - 1].Fetched? then 1 else 0)
  }

  /** The loop of `refreshPools`: one `getPool` answer per id, pushed unless it threw. */
  method BuildPoolsData(fetch: seq<Fetch>) returns (data: seq<PoolDisplay>)
    ensures data == PoolsData(fetch)
  {
    data := [];
    var i := 0;
    while i < |fetch|
      invariant 0 <= i <= |fetch|
      invariant data == PoolsData(fetch[..i])
    {
      assert fetch[..i + 1][..i] == fetch[..i];
      if fetch[i].Fetched? {
        data := data + [ToDisplay(i, fetch[i].view)];
      }
      i := i + 1;
    }
    assert fetch[..i] == fetch;
  }

  /**
   * The entries have strictly increasing ids, all below the pool count, and
   * each is the display of what was fetched for its id.
   */
  lemma {:induction false} PoolsDataOrdered(fetch: seq<Fetch>)
    ensures forall k :: 0 <= k < |PoolsData(fetch)| ==> PoolsData(fetch)[k].id < |fetch|
    ensures forall j, k :: 0 <= j < k < |PoolsData(fetch)| ==> PoolsData(fetch)[j].id < PoolsData(fetch)[k].id
    ensures forall k :: 0 <= k < |PoolsData(fetch)| ==> ShowsFetch(fetch, PoolsData(fetch)[k])
  {
    if |fetch| > 0 {
      var i := |fetch| - 1;
      PoolsDataOrdered(fetch[..i]);
      var init := PoolsData(fetch[..i]);
      var data := PoolsData(fetch);
      forall k | 0 <= k < |init| ensures ShowsFetch(fetch, init[k]) {
        assert ShowsFetch(fetch[..i], init[k]);
        assert fetch[..i][init[k].id] == fetch[init[k].id];
      }
      if fetch[i].Fetched? {
        assert data == init + [ToDisplay(i, fetch[i].view)];
      } else {
        assert data == init;
      }
    }
  }

  /** `d` is the display of what was fetched for its id. */
  predicate ShowsFetch(fetch: seq<Fetch>, d: PoolDisplay) {
    d.id < |fetch| && fetch[d.id].Fetched? && d == ToDisplay(d.id, fetch[d.id].view)
  }

  /** An id is listed exactly when its fetch answered. */
  lemma {:induction false} PoolsDataIds(fetch: seq<Fetch>)
    ensures forall i: nat :: i in Ids(PoolsData(fetch)) <==> i < |fetch| && fetch[i].Fetched?
  {
    if |fetch| > 0 {
      var i := |fetch| - 1;
      PoolsDataIds(fetch[..i]);
      var init := PoolsData(fetch[..i]);
      var data := PoolsData(fetch);
      if fetch[i].Fetched? {
        assert data == init + [ToDisplay(i, fetch[i].view)];
        assert Ids(data) == Ids(init) + {i} by {
          forall x: nat ensures x in Ids(data) <==> x in Ids(init) + {i} {
            if x in Ids(data) {
              var k :| 0 <= k < |data| && data[k].id == x;
              if k < |init| { assert init[k] == data[k]; }
            }
            if x in Ids(init) {
              var k :| 0 <= k < |init| && init[k].id == x;
              assert data[k] == init[k];
            }
            if x == i { assert data[|init|].id == i; }
          }
        }
      } else {
        assert data == init;
      }
    }
  }

  /** The list has one entry per id that answered; it is as long as the pool count only when none threw. */
  lemma {:induction false} PoolsDataLength(fetch: seq<Fetch>)
    ensures |PoolsData(fetch)| == FetchedCount(fetch)
  {
    if |fetch| > 0 {
      PoolsDataLength(fetch[..|fetch| - 1]);
    }
  }

  /** Every entry's status agrees with its own fields. */
  lemma {:induction false} PoolsDataConsistent(fetch: seq<Fetch>)
    ensures forall k :: 0 <= k < |PoolsData(fetch)| ==> StatusConsistent(PoolsData(fetch)[k])
  {
    if |fetch| > 0 {
      PoolsDataConsistent(fetch[..|fetch| - 1]);
    }
  }

  /**
   * Against the ledger no fetch below the pool count throws, so the list
   * holds every pool, entry `k` being pool `k` as `getPool` reports it.
   */
  lemma LedgerRefreshIsComplete(ledger: Ledger.CircleTrust, fetch: seq<Fetch>)
    requires |fetch| == ledger.PoolCount()
    requires forall i :: 0 <= i < |fetch| ==> fetch[i] == FetchOf(ledger.GetPool(i))
    ensures var data := PoolsData(fetch);
            && |data| == ledger.PoolCount()
            && forall k :: 0 <= k < |data| ==> data[k] == ToDisplay(k, ledger.GetPool(k).value)
  {
    AllFetchedCount(fetch);
    PoolsDataLength(fetch);
    PoolsDataOrdered(fetch);
    var data := PoolsData(fetch);
    forall k | 0 <= k < |data| ensures data[k].id == k {
      IncreasingIdsAreIndices(data, |fetch|, k);
    }
  }

  lemma {:induction false} AllFetchedCount(fetch: seq<Fetch>)
    requires forall i :: 0 <= i < |fetch| ==> fetch[i].Fetched?
    ensures FetchedCount(fetch) == |fetch|
  {
    if |fetch| > 0 {
      AllFetchedCount(fetch[..|fetch| - 1]);
    }
  }

  /** `n` strictly increasing ids below `n` are exactly `0 .. n`. */
  lemma IncreasingIdsAreIndices(data: seq<PoolDisplay>, n: nat, k: nat)
    requires |data| == n && k < n
    requires forall j :: 0 <= j < |data| ==> data[j].id < n
    requires forall i, j :: 0 <= i < j < |data| ==> data[i].id < data[j].id
    ensures data[k].id == k
  {
    LowerBound(data, k);
    UpperBound(data, n, k);
  }

  lemma {:induction false} LowerBound(data: seq<PoolDisplay>, k: nat)
    requires k < |data|
    requires forall i, j :: 0 <= i < j < |data| ==> data[i].id < data[j].id
    ensures data[k].id >= k
  {
    if k > 0 {
      LowerBound(data, k - 1);
    }
  }

  lemma {:induction false} UpperBound(data: seq<PoolDisplay>, n: nat, k: nat)
    requires k < |data| == n
    requires forall j :: 0 <= j < |data| ==> data[j].id < n
    requires forall i, j :: 0 <= i < j < |data| ==> data[i].id < data[j].id
    ensures data[k].id + (n - 1 - k) <= n - 1
    decreases n - k
  {
    if k < n - 1 {
      UpperBound(data, n, k + 1);
    }
  }

  // ---------------------------------------------------------------------
  // createPool's pool id

  /**
   * The id `createPool` returns: the one the `PoolCreated` event carries,
   * or else the pool count read afterwards, less one (which is -1 when the
   * count reads 0).
   */
  function NewPoolId(event: Option<nat>, poolCount: nat): (id: int)
    ensures event.Some? ==> id == event.value
    ensures event.None? ==> id + 1 == poolCount
  {
    if event.Some? then event.value else poolCount - 1
  }

  /**
   * When the pool created was numbered with the count before, and the count
   * read afterwards is one more, the fallback finds the same id as the event.
   */
  lemma FallbackIdMatchesEvent(countBefore: nat, countAfter: nat, created: nat)
    requires created == countBefore && countAfter == countBefore + 1
    ensures NewPoolId(None, countAfter) == NewPoolId(Some(created), countAfter) == created
  {
  }

  /**
   * `createPool` on the ledger, followed by the client's id lookup: after a
   * successful call, the fallback on the count read afterwards gives the id
   * the ledger returned, which is the id the event carries.
   */
  method CreateThenFallback(ledger: Ledger.CircleTrust, caller: Address, contributionAmount: nat, maxMembers: nat,
                            minimumReputation: nat, roundDuration: nat, now: nat)
    returns (r: Result<nat, LedgerAccounting.Error>)
    requires ledger.Valid()
    modifies ledger
    ensures ledger.Valid()
    ensures r.Success? ==> r.value == old(ledger.PoolCount())
    ensures r.Success? ==> NewPoolId(None, ledger.PoolCount()) == r.value == NewPoolId(Some(r.value), ledger.PoolCount())
  {
    ghost var before := ledger.PoolCount();
    r := ledger.CreatePool(caller, contributionAmount, maxMembers, minimumReputation, roundDuration, now);
    if r.Success? {
      FallbackIdMatchesEvent(before, ledger.PoolCount(), r.value);
    }
  }

  // ---------------------------------------------------------------------
  // Error messages

  /** What a client call throws: a message of its own, or the original error unchanged. */
  datatype Thrown = Friendly(message: string) | Rethrown(original: string)

  // The revert reasons the client looks for.
  const CONTRIBUTION_ZERO: string := "Contribution must be > 0"
  const TOO_FEW_MEMBERS: string := "Need at least 2 members"
  const REPUTATION_TOO_LOW: string := "Reputation too low"
  const POOL_FULL: string := "Pool is full"
  const ALREADY_JOINED: string := "Already joined"
  const TOO_EARLY: string := "Not enough time has passed"
  const POOL_NOT_ACTIVE: string := "Pool not active"

  // The messages it shows instead.
  const CONTRIBUTION_MESSAGE: string := "Contribution amount must be greater than 0"
  const MEMBERS_MESSAGE: string := "Pool must have at least 2 members"
  const REPUTATION_MESSAGE: string :=
    "Your reputation is too low for this pool. Build reputation by completing pools with no minimum requirement."
  const FULL_MESSAGE: string := "This pool is already full."
  const JOINED_MESSAGE: string := "You have already joined this pool."
  const EARLY_MESSAGE: string := "Round duration not completed yet. Please wait."
  const NOT_ACTIVE_MESSAGE: string := "This pool is not active yet or is already completed."

  /** The error handler of `createPool`, on the error's message. */
  function CreatePoolError(message: string): (t: Thrown)
    ensures t.Rethrown? ==> t.original == message
    ensures Text.Contains(message, CONTRIBUTION_ZERO) ==> t == Friendly(CONTRIBUTION_MESSAGE)
    ensures !Text.Contains(message, CONTRIBUTION_ZERO) && Text.Contains(message, TOO_FEW_MEMBERS) ==>
              t == Friendly(MEMBERS_MESSAGE)
    ensures t.Rethrown? <==> !Text.Contains(message, CONTRIBUTION_ZERO) && !Text.Contains(message, TOO_FEW_MEMBERS)
  {
    if Text.Contains(message, CONTRIBUTION_ZERO) then Friendly(CONTRIBUTION_MESSAGE)
    else if Text.Contains(message, TOO_FEW_MEMBERS) then Friendly(MEMBERS_MESSAGE)
    else Rethrown(message)
  }

  /** The error handler of `joinPool`: reputation first, then a full pool, then a repeated join. */
  function JoinPoolError(message: string): (t: Thrown)
    ensures t.Rethrown? ==> t.original == message
    ensures Text.Contains(message, REPUTATION_TOO_LOW) ==> t == Friendly(REPUTATION_MESSAGE)
    ensures !Text.Contains(message, REPUTATION_TOO_LOW) && Text.Contains(message, POOL_FULL) ==>
              t == Friendly(FULL_MESSAGE)
    ensures (!Text.Contains(message, REPUTATION_TOO_LOW) && !Text.Contains(message, POOL_FULL)
             && Text.Contains(message, ALREADY_JOINED)) ==> t == Friendly(JOINED_MESSAGE)
    ensures t.Rethrown? <==>
              !Text.Contains(message, REPUTATION_TOO_LOW) && !Text.Contains(message, POOL_FULL)
              && !Text.Contains(message, ALREADY_JOINED)
  {
    if Text.Contains(message, REPUTATION_TOO_LOW) then Friendly(REPUTATION_MESSAGE)
    else if Text.Contains(message, POOL_FULL) then Friendly(FULL_MESSAGE)
    else if Text.Contains(message, ALREADY_JOINED) then Friendly(JOINED_MESSAGE)
    else Rethrown(message)
  }

  /** The error handler of `distribute`. */
  function DistributeError(message: string): (t: Thrown)
    ensures t.Rethrown? ==> t.original == message
    ensures Text.Contains(message, TOO_EARLY) ==> t == Friendly(EARLY_MESSAGE)
    ensures !Text.Contains(message, TOO_EARLY) && Text.Contains(message, POOL_NOT_ACTIVE) ==>
              t == Friendly(NOT_ACTIVE_MESSAGE)
    ensures t.Rethrown? <==> !Text.Contains(message, TOO_EARLY) && !Text.Contains(message, POOL_NOT_ACTIVE)
  {
    if Text.Contains(message, TOO_EARLY) then Friendly(EARLY_MESSAGE)
    else if Text.Contains(message, POOL_NOT_ACTIVE) then Friendly(NOT_ACTIVE_MESSAGE)
    else Rethrown(message)
  }

  /** The reasons the ledger's `createPool` reverts with. */
  predicate CreateRevert(e: LedgerAccounting.Error) {
    e == LedgerAccounting.InvalidAmount || e == LedgerAccounting.InvalidMemberCount
  }

  lemma CreatePatternsInInvalidAmount()
    ensures Text.Contains(LedgerAccounting.Error.InvalidAmount.Reason(), CONTRIBUTION_ZERO)
    ensures !Text.Contains(LedgerAccounting.Error.InvalidAmount.Reason(), TOO_FEW_MEMBERS)
  {
    Text.ContainsSelf(CONTRIBUTION_ZERO);
    Text.MissingCharNotContained(LedgerAccounting.Error.InvalidAmount.Reason(), TOO_FEW_MEMBERS, 0);
  }

  lemma CreatePatternsInInvalidMemberCount()
    ensures !Text.Contains(LedgerAccounting.Error.InvalidMemberCount.Reason(), CONTRIBUTION_ZERO)
    ensures Text.Contains(LedgerAccounting.Error.InvalidMemberCount.Reason(), TOO_FEW_MEMBERS)
  {
    Text.LongerNotContained(LedgerAccounting.Error.InvalidMemberCount.Reason(), CONTRIBUTION_ZERO);
    Text.ContainsSelf(TOO_FEW_MEMBERS);
  }

  /** The reasons the ledger's `joinPool` reverts with. */
  predicate JoinRevert(e: LedgerAccounting.Error) {
    e == LedgerAccounting.PoolDoesNotExist || e == LedgerAccounting.PoolCompleted || e == LedgerAccounting.PoolIsFull || e == LedgerAccounting.AlreadyJoined || e == LedgerAccounting.ReputationTooLow || e == LedgerAccounting.IncorrectDeposit
  }

  lemma JoinPatternsInPoolDoesNotExist()
    ensures !Text.Contains(LedgerAccounting.Error.PoolDoesNotExist.Reason(), REPUTATION_TOO_LOW)
    ensures !Text.Contains(LedgerAccounting.Error.PoolDoesNotExist.Reason(), POOL_FULL)
    ensures !Text.Contains(LedgerAccounting.Error.PoolDoesNotExist.Reason(), ALREADY_JOINED)
  {
    Text.MissingCharNotContained(LedgerAccounting.Error.PoolDoesNotExist.Reason(), REPUTATION_TOO_LOW, 0);
    Text.MissingCharNotContained(LedgerAccounting.Error.PoolDoesNotExist.Reason(), POOL_FULL, 8);
    Text.MissingCharNotContained(LedgerAccounting.Error.PoolDoesNotExist.Reason(), ALREADY_JOINED, 0);
  }

  lemma JoinPatternsInPoolCompleted()
    ensures !Text.Contains(LedgerAccounting.Error.PoolCompleted.Reason(), REPUTATION_TOO_LOW)
    ensures !Text.Contains(LedgerAccounting.Error.PoolCompleted.Reason(), POOL_FULL)
    ensures !Text.Contains(LedgerAccounting.Error.PoolCompleted.Reason(), ALREADY_JOINED)
  {
    Text.LongerNotContained(LedgerAccounting.Error.PoolCompleted.Reason(), REPUTATION_TOO_LOW);
    Text.MissingCharNotContained(LedgerAccounting.Error.PoolCompleted.Reason(), POOL_FULL, 5);
    Text.MissingCharNotContained(LedgerAccounting.Error.PoolCompleted.Reason(), ALREADY_JOINED, 0);
  }

  lemma JoinPatternsInPoolIsFull()
    ensures !Text.Contains(LedgerAccounting.Error.PoolIsFull.Reason(), REPUTATION_TOO_LOW)
    ensures Text.Contains(LedgerAccounting.Error.PoolIsFull.Reason(), POOL_FULL)
    ensures !Text.Contains(LedgerAccounting.Error.PoolIsFull.Reason(), ALREADY_JOINED)
  {
    Text.LongerNotContained(LedgerAccounting.Error.PoolIsFull.Reason(), REPUTATION_TOO_LOW);
    Text.ContainsSelf(POOL_FULL);
    Text.LongerNotContained(LedgerAccounting.Error.PoolIsFull.Reason(), ALREADY_JOINED);
  }

  lemma JoinPatternsInAlreadyJoined()
    ensures !Text.Contains(LedgerAccounting.Error.AlreadyJoined.Reason(), REPUTATION_TOO_LOW)
    ensures !Text.Contains(LedgerAccounting.Error.AlreadyJoined.Reason(), POOL_FULL)
    ensures Text.Contains(LedgerAccounting.Error.AlreadyJoined.Reason(), ALREADY_JOINED)
  {
    Text.LongerNotContained(LedgerAccounting.Error.AlreadyJoined.Reason(), REPUTATION_TOO_LOW);
    Text.MissingCharNotContained(LedgerAccounting.Error.AlreadyJoined.Reason(), POOL_FULL, 0);
    Text.ContainsSelf(ALREADY_JOINED);
  }

  lemma JoinPatternsInReputationTooLow()
    ensures Text.Contains(LedgerAccounting.Error.ReputationTooLow.Reason(), REPUTATION_TOO_LOW)
    ensures !Text.Contains(LedgerAccounting.Error.ReputationTooLow.Reason(), POOL_FULL)
    ensures !Text.Contains(LedgerAccounting.Error.ReputationTooLow.Reason(), ALREADY_JOINED)
  {
    Text.ContainsSelf(REPUTATION_TOO_LOW);
    Text.MissingCharNotContained(LedgerAccounting.Error.ReputationTooLow.Reason(), POOL_FULL, 0);
    Text.MissingCharNotContained(LedgerAccounting.Error.ReputationTooLow.Reason(), ALREADY_JOINED, 0);
  }

  lemma JoinPatternsInIncorrectDeposit()
    ensures !Text.Contains(LedgerAccounting.Error.IncorrectDeposit.Reason(), REPUTATION_TOO_LOW)
    ensures !Text.Contains(LedgerAccounting.Error.IncorrectDeposit.Reason(), POOL_FULL)
    ensures !Text.Contains(LedgerAccounting.Error.IncorrectDeposit.Reason(), ALREADY_JOINED)
  {
    Text.LongerNotContained(LedgerAccounting.Error.IncorrectDeposit.Reason(), REPUTATION_TOO_LOW);
    Text.MissingCharNotContained(LedgerAccounting.Error.IncorrectDeposit.Reason(), POOL_FULL, 0);
    Text.MissingCharNotContained(LedgerAccounting.Error.IncorrectDeposit.Reason(), ALREADY_JOINED, 0);
  }

  /** The reasons the ledger's `distribute` reverts with. */
  predicate DistributeRevert(e: LedgerAccounting.Error) {
    e == LedgerAccounting.PoolDoesNotExist || e == LedgerAccounting.PoolNotActive || e == LedgerAccounting.RoundNotElapsed
  }

  lemma DistributePatternsInPoolDoesNotExist()
    ensures !Text.Contains(LedgerAccounting.Error.PoolDoesNotExist.Reason(), TOO_EARLY)
    ensures !Text.Contains(LedgerAccounting.Error.PoolDoesNotExist.Reason(), POOL_NOT_ACTIVE)
  {
    Text.LongerNotContained(LedgerAccounting.Error.PoolDoesNotExist.Reason(), TOO_EARLY);
    Text.MissingCharNotContained(LedgerAccounting.Error.PoolDoesNotExist.Reason(), POOL_NOT_ACTIVE, 9);
  }

  lemma DistributePatternsInPoolNotActive()
    ensures !Text.Contains(LedgerAccounting.Error.PoolNotActive.Reason(), TOO_EARLY)
    ensures Text.Contains(LedgerAccounting.Error.PoolNotActive.Reason(), POOL_NOT_ACTIVE)
  {
    Text.LongerNotContained(LedgerAccounting.Error.PoolNotActive.Reason(), TOO_EARLY);
    Text.ContainsSelf(POOL_NOT_ACTIVE);
  }

  lemma DistributePatternsInRoundNotElapsed()
    ensures Text.Contains(LedgerAccounting.Error.RoundNotElapsed.Reason(), TOO_EARLY)
    ensures !Text.Contains(LedgerAccounting.Error.RoundNotElapsed.Reason(), POOL_NOT_ACTIVE)
  {
    Text.ContainsSelf(TOO_EARLY);
    Text.MissingCharNotContained(LedgerAccounting.Error.RoundNotElapsed.Reason(), POOL_NOT_ACTIVE, 0);
  }

  /**
   * A `createPool` revert is shown in the client's words exactly for the
   * two reasons the ledger's `createPool` gives; any other is rethrown.
   */
  lemma CreatePoolErrorOfRevert(e: LedgerAccounting.Error)
    requires CreateRevert(e)
    ensures CreatePoolError(e.Reason()) ==
              if e == LedgerAccounting.InvalidAmount then Friendly(CONTRIBUTION_MESSAGE)
              else if e == LedgerAccounting.InvalidMemberCount then Friendly(MEMBERS_MESSAGE)
              else Rethrown(e.Reason())
  {
    if e == LedgerAccounting.InvalidAmount {
      CreatePatternsInInvalidAmount();
    } else if e == LedgerAccounting.InvalidMemberCount {
      CreatePatternsInInvalidMemberCount();
    }
  }

  /**
   * A `joinPool` revert for low reputation, a full pool or a repeated join
   * gets the client's message; a missing or completed pool and a wrong
   * deposit are rethrown as they are.
   */
  lemma JoinPoolErrorOfRevert(e: LedgerAccounting.Error)
    requires JoinRevert(e)
    ensures JoinPoolError(e.Reason()) ==
              if e == LedgerAccounting.ReputationTooLow then Friendly(REPUTATION_MESSAGE)
              else if e == LedgerAccounting.PoolIsFull then Friendly(FULL_MESSAGE)
              else if e == LedgerAccounting.AlreadyJoined then Friendly(JOINED_MESSAGE)
              else Rethrown(e.Reason())
  {
    if e == LedgerAccounting.PoolDoesNotExist {
      JoinPatternsInPoolDoesNotExist();
    } else if e == LedgerAccounting.PoolCompleted {
      JoinPatternsInPoolCompleted();
    } else if e == LedgerAccounting.PoolIsFull {
      JoinPatternsInPoolIsFull();
    } else if e == LedgerAccounting.AlreadyJoined {
      JoinPatternsInAlreadyJoined();
    } else if e == LedgerAccounting.ReputationTooLow {
      JoinPatternsInReputationTooLow();
    } else if e == LedgerAccounting.IncorrectDeposit {
      JoinPatternsInIncorrectDeposit();
    }
  }

  /** A `distribute` revert for an early call or an inactive pool gets the client's message. */
  lemma DistributeErrorOfRevert(e: LedgerAccounting.Error)
    requires DistributeRevert(e)
    ensures DistributeError(e.Reason()) ==
              if e == LedgerAccounting.RoundNotElapsed then Friendly(EARLY_MESSAGE)
              else if e == LedgerAccounting.PoolNotActive then Friendly(NOT_ACTIVE_MESSAGE)
              else Rethrown(e.Reason())
  {
    if e == LedgerAccounting.PoolDoesNotExist {
      DistributePatternsInPoolDoesNotExist();
    } else if e == LedgerAccounting.PoolNotActive {
      DistributePatternsInPoolNotActive();
    } else if e == LedgerAccounting.RoundNotElapsed {
      DistributePatternsInRoundNotElapsed();
    }
  }

  /** Every reason the ledger's join and distribute checks give is one the matching handler knows of. */
  lemma VerdictsRevertWithKnownReasons(ledger: Ledger.CircleTrust, caller: Address, id: nat, value: nat, now: nat)
    requires ledger.Valid()
    ensures ledger.JoinVerdict(caller, id, value).Reverted? ==> JoinRevert(ledger.JoinVerdict(caller, id, value).error)
    ensures ledger.DistributeVerdict(id, now).Reverted? ==> DistributeRevert(ledger.DistributeVerdict(id, now).error)
  {
  }

  /** The reason is found wherever the provider puts it in the error's message. */
  lemma JoinPoolErrorInMessage(pre: string, post: string)
    ensures JoinPoolError(pre + REPUTATION_TOO_LOW + post) == Friendly(REPUTATION_MESSAGE)
  {
    Text.ContainsInfix(pre, REPUTATION_TOO_LOW, post);
  }

  // ---------------------------------------------------------------------
  // The client session

  /** The part of the context's state the model keeps. */
  class Session {
    var address: Option<Address>
    var chainId: Option<nat>
    /** Whether a contract handle is set up (`contract` is not null). */
    var contractReady: bool
    var reputation: int
    var balance: string
    var poolCount: nat
    var pools: seq<PoolDisplay>

    constructor ()
      ensures address == None && chainId == None && !contractReady
      ensures reputation == 0 && balance == "0" && poolCount == 0 && pools == []
    {
      address := None;
      chainId := None;
      contractReady := false;
      reputation := 0;
      balance := "0";
      poolCount := 0;
      pools := [];
    }

    function IsConnected(): bool
      reads this
    {
      address.Some?
    }

    function IsCorrectNetwork(): bool
      reads this
    {
      chainId == Some(MONAD_TESTNET_CHAIN_ID)
    }

    /** `disconnect`: forgets the account, the contract handle and what was read through them. */
    method Disconnect()
      modifies this
      ensures address == None && !contractReady && reputation == 0 && balance == "0" && pools == []
      ensures chainId == old(chainId) && poolCount == old(poolCount)
      ensures !IsConnected()
    {
      address := None;
      contractReady := false;
      reputation := 0;
      balance := "0";
      pools := [];
    }

    /**
     * `refreshPools`, given the answer to `poolCount()` (`None` if it threw)
     * and the answer to `getPool(i)` for every id below the count. Without a
     * contract handle, or when the count cannot be read, nothing changes.
     */
    method RefreshPools(count: Option<nat>, fetch: seq<Fetch>)
      requires count.Some? ==> |fetch| == count.value
      modifies this
      ensures !old(contractReady) || count.None? ==> unchanged(this)
      ensures old(contractReady) && count.Some? ==> poolCount == count.value && pools == PoolsData(fetch)
      ensures address == old(address) && chainId == old(chainId) && contractReady == old(contractReady)
      ensures reputation == old(reputation) && balance == old(balance)
    {
      if !contractReady || count.None? {
        return;
      }
      poolCount := count.value;
      pools := BuildPoolsData(fetch);
    }
  }

  /** Only the Monad testnet counts as the right network. */
  lemma CorrectNetworkIsMonadTestnet(s: Session)
    ensures s.IsCorrectNetwork() <==> s.chainId.Some? && s.chainId.value == 10143
  {
  }

  // ---------------------------------------------------------------------
  // Status against the ledger

  /**
   * A pool shows as active exactly when `distribute` gets past its
   * full-and-not-completed check, and as open exactly when it still
   * admits members.
   */
  lemma StatusMatchesLedger(ledger: Ledger.CircleTrust, id: nat, now: nat)
    requires ledger.Valid() && id < ledger.PoolCount()
    ensures var v := ledger.GetPool(id).value;
            var s := DeriveStatus(v.completed, v.memberCount, v.maxMembers);
            && (s == Active <==> ledger.DistributeVerdict(id, now) != LedgerAccounting.Reverted(LedgerAccounting.PoolNotActive))
            && (s == Open <==> !ledger.pools[id].completed && |ledger.pools[id].members| < ledger.pools[id].maxMembers)
            && (s == Completed <==> ledger.pools[id].completed)
  {
    ledger.ViewKeepsBounds(id);
  }
}
