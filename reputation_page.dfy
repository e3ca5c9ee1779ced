/**
 * The rules of the reputation page (frontend/app/reputation/page.tsx):
 * the tier a reputation score falls in, the five tier boxes of which the
 * current one is outlined, the "Good standing" line, and the pool counts
 * the page shows.
 */
module ReputationPage {
  import opened ContractAbi
  import Web3Context

  datatype Tier = AtRisk | Bronze | Silver | Gold | Diamond {
    function Name(): string {
      match this
      case AtRisk => "At Risk"
      case Bronze => "Bronze"
      case Silver => "Silver"
      case Gold => "Gold"
      case Diamond => "Diamond"
    }

    /** The tiers in increasing order of reputation. */
    function Rank(): nat {
      match this
      case AtRisk => 0
      case Bronze => 1
      case Silver => 2
      case Gold => 3
      case Diamond => 4
    }
  }

  /** `getReputationTier`: the thresholds are tried from the highest down. */
  function GetReputationTier(rep: int): (t: Tier) {
    if rep >= 10 then Diamond
    else if rep >= 5 then Gold
    else if rep >= 2 then Silver
    else if rep >= 0 then Bronze
    else AtRisk
  }

  /** Each tier is one interval of scores, and the intervals cover every integer. */
  lemma TierRanges(rep: int)
    ensures GetReputationTier(rep) == Diamond <==> rep >= 10
    ensures GetReputationTier(rep) == Gold <==> 5 <= rep <= 9
    ensures GetReputationTier(rep) == Silver <==> 2 <= rep <= 4
    ensures GetReputationTier(rep) == Bronze <==> 0 <= rep <= 1
    ensures GetReputationTier(rep) == AtRisk <==> rep < 0
  {
  }

  /** A higher score never gives a lower tier. */
  lemma TierMonotone(r1: int, r2: int)
    requires r1 <= r2
    ensures GetReputationTier(r1).Rank() <= GetReputationTier(r2).Rank()
  {
  }

  /** The tier names are distinct, so the name shown identifies the tier. */
  lemma TierNamesDistinct(s: Tier, t: Tier)
    ensures s.Name() == t.Name() ==> s == t
  {
  }

  /** Whether a tier's box is outlined, by the condition written on that box. */
  function BoxHighlighted(t: Tier, rep: int): bool {
    match t
    case AtRisk => rep < 0
    case Bronze => rep >= 0 && rep < 2
    case Silver => rep >= 2 && rep < 5
    case Gold => rep >= 5 && rep < 10
    case Diamond => rep >= 10
  }

  /** Exactly one box is outlined, the one of the tier `getReputationTier` gives. */
  lemma OneBoxHighlighted(rep: int)
    ensures forall t: Tier :: BoxHighlighted(t, rep) <==> t == GetReputationTier(rep)
  {
    forall t: Tier ensures BoxHighlighted(t, rep) <==> t == GetReputationTier(rep) {
      TierRanges(rep);
    }
  }

  /** Whether the page says "Good standing" under the score. */
  function GoodStanding(rep: int): bool {
    rep >= 0
  }

  /** Good standing is every tier but At Risk. */
  lemma GoodStandingIffNotAtRisk(rep: int)
    ensures GoodStanding(rep) <==> GetReputationTier(rep) != AtRisk
  {
  }

  // ---------------------------------------------------------------------
  // Pool counts

  /** `pools.filter(p => p.completed).length`. */
  function CompletedPools(pools: seq<PoolDisplay>): (n: nat)
    ensures n <= |pools|
  {
    if |pools| == 0 then 0
    else CompletedPools(pools[..|pools| - 1]) + (if pools[|pools| - 1].completed then 1 else 0)
  }

  /** `pools.filter(p => p.status === "active").length`. */
  function ActivePools(pools: seq<PoolDisplay>): (n: nat)
    ensures n <= |pools|
  {
    if |pools| == 0 then 0
    else ActivePools(pools[..|pools| - 1]) + (if pools[|pools| - 1].status == Active then 1 else 0)
  }

  function TotalPools(pools: seq<PoolDisplay>): nat {
    |pools|
  }

  /**
   * When every status agrees with its pool, as in the list `refreshPools`
   * builds, no pool counts as both completed and active.
   */
  lemma {:induction false} CountsWithinTotal(pools: seq<PoolDisplay>)
    requires forall k :: 0 <= k < |pools| ==> Web3Context.StatusConsistent(pools[k])
    ensures CompletedPools(pools) + ActivePools(pools) <= TotalPools(pools)
  {
    if |pools| > 0 {
      var init := pools[..|pools| - 1];
      assert forall k :: 0 <= k < |init| ==> init[k] == pools[k];
      CountsWithinTotal(init);
    }
  }

  /** The counts the page shows for the pools the context loaded. */
  lemma RefreshedCounts(fetch: seq<Web3Context.Fetch>)
    ensures var pools := Web3Context.PoolsData(fetch);
            CompletedPools(pools) + ActivePools(pools) <= TotalPools(pools) <= |fetch|
  {
    Web3Context.PoolsDataConsistent(fetch);
    CountsWithinTotal(Web3Context.PoolsData(fetch));
  }
}
