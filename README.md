# CircleTrust in Dafny

CircleTrust is a rotating savings and credit association (ROSCA) running on the
Monad testnet. The project has two parts: the CircleTrust ledger, and the rules
of the web client that drives it.

The ledger works as follows:

- A creator opens a pool with a contribution amount and a member count.
- Each member joins by depositing twice the contribution: one contribution goes
  into the pot and one is collateral.
- Once the pool is full, each round pays one member, in join order. The
  payment is the contribution less a 3% round fee, and the receiver's
  reputation goes up by one.
- On the last round the creator is paid the fees kept back, every collateral is
  refunded, and the pool completes.
- An active member who defaults loses two reputation points. Their collateral
  is slashed and shared equally, rounded down, among the members still active.

The Solidity source of the contract is not part of this model. The ledger is
built from two sources instead:

- the behaviour the backend test suite asserts, in
  `backend/contracts/test/CircleTrust.ts`;
- the ABI and types the client declares, in `frontend/app/lib/contract.ts`.

The files are:

- `wrappers.dfy`: `Option` and `Result`.
- `text.dfy`: the string operations the client relies on: ASCII lower-casing,
  `includes` as an existential over positions, and decimal rendering with its
  read-back.
- `contract_abi.dfy`: the model of `frontend/app/lib/contract.ts`. It holds the
  deployed address and the zero-address test, the Monad chain id, the ABI as
  data, the `getPool` tuple and its decoding, the `pools` record with its
  `exists` flag, and the `PoolDisplay` record with its three-valued status.
- `fees.dfy`: the integer arithmetic of the tests: the round fee, the payout,
  the creator fee and the slash share, all with floor division.
- `ledger_accounting.dfy`: the stored pool record, the revert reasons, payments,
  the per-pool invariant and the accounting lemmas about one pool.
- `ledger.dfy`: the class `CircleTrust`.
  - Its fields are the pool records, per-pool collateral, has-joined and
    is-active mappings, the signed reputation mapping, the contract balance,
    and a log of outbound payments that stands in for ether transfers.
  - `CreatePool`, `JoinPool`, `Distribute` and `HandleDefault` either revert
    with no state change or state their whole new state.
  - All of them keep `Valid()`. Under `Valid()`, each pool's record keeps its
    bounds, collateral is held exactly while a member is active in a pool that
    has not completed, and the pool holds at least what it still owes. The
    balance is the sum over pools of what each holds.
  - `hasJoined` is never reset: `JoinPool`, `Distribute` and `HandleDefault`
    each ensure `JoinedKept(old(joined), joined)`, so every address that had
    joined a pool before a call still has after it.
  - The loops over members (the refunds of the last round, and the two passes
    of a default) are methods proved against the list functions that specify
    them.
- `web3_context.dfy`: the client context (`frontend/app/context/Web3Context.tsx`):
  - status derivation;
  - the `refreshPools` loop and its link to the ledger;
  - the new-pool-id fallback;
  - the error-message mapping of `createPool`, `joinPool` and `distribute`,
    proved against the ledger's revert reasons;
  - the `Session` state with `disconnect` and `refreshPools`.
- `reputation_page.dfy`: the reputation tiers, the outlined tier box, the
  "Good standing" line and the pool counts of `frontend/app/reputation/page.tsx`.
- `pools_page.dfy`: from `frontend/app/pools/page.tsx`:
  - `formatDuration`, together with a parser that reads its output back;
  - the `checkJoinedPools` loop;
  - the gating of the join and distribute buttons, proved against the
    ledger's checks;
  - the round label.

Contract calls, the wallet and the clock are external. Their answers are
parameters: `now` for the block time, the `getPool` results for
`refreshPools`, and the `hasJoined` results for `checkJoinedPools`.

## Model

| member | source | states |
|---|---|---|
| ContractAbi.NotDeployedIffZeroAddress | frontend/app/lib/contract.ts:7-10 | `isContractDeployed` is false exactly when the configured address, lower-cased, is the zero address, whichever case its letters are in |
| ContractAbi.ShippedAddressIsDeployed | frontend/app/lib/contract.ts:4-10 | the address the client ships with counts as deployed |
| ContractAbi.GetPoolLayout | frontend/app/lib/contract.ts:115-132 | `getPool` returns exactly ten values, named creator, contributionAmount, maxMembers, currentRound, memberCount, completed, minimumReputation, creatorFeePercent, roundDuration, roundDeadline, in that order |
| ContractAbi.PoolsGetterLayout | frontend/app/lib/contract.ts:167-184 | the `pools` record carries a boolean `exists` at position 5 and no member count |
| ContractAbi.CreatePoolSignature | frontend/app/lib/contract.ts:72-83 | `createPool` takes four uint256 arguments and returns one uint256, the pool id |
| ContractAbi.OnlyJoinPoolIsPayable | frontend/app/lib/contract.ts:72-191 | among all ABI functions, only `joinPool` is payable |
| ContractAbi.SignedReputationUnsignedPoolFields | frontend/app/lib/contract.ts:115-191 | `reputation` returns an int256; every `getPool` field except creator and completed is a uint256 |
| ContractAbi.EncodeMatchesAbi | frontend/app/lib/contract.ts:115-132 | a pool view within range encodes to ten values, each of the declared output type at its position |
| ContractAbi.DecodeEncode | frontend/app/context/Web3Context.tsx:250-262 | the client's positional destructuring of the `getPool` tuple recovers every field |
| ContractAbi.StatusNamesDistinct | frontend/app/lib/contract.ts:221 | the three status names "open", "active" and "completed" are distinct |
| Text.ToLower | frontend/app/lib/contract.ts:9 | lower-casing keeps the length and maps each character, changing only `A`-`Z` |
| Text.DecimalRoundTrip | frontend/app/pools/page.tsx:127-132 | the decimal rendering of a number reads back as that number |
| Fees.RoundFee | backend/contracts/test/CircleTrust.ts:232-240 | the fee kept from one pot is `c*pct/100` rounded down: at most the contribution, and within one unit of the exact percentage |
| Fees.Payout | backend/contracts/test/CircleTrust.ts:232-240 | the payout and the round fee add up to the contribution, and the payout is `c * (100 - pct) / 100` within one hundredth: `c*(100-pct) <= 100*p < c*(100-pct) + 100` |
| Fees.SlashShare | backend/contracts/test/CircleTrust.ts:354-363 | the share of each of `k` members is the slashed amount divided by `k`, rounded down |
| Fees.SlashDustBound | backend/contracts/test/CircleTrust.ts:379-395 | an uneven split leaves fewer unpaid units than there are recipients |
| Fees.TestSuiteAmounts | backend/contracts/test/CircleTrust.ts:208-395 | the amounts the tests assert: fee 0.003, payout 0.097 and creator fee 0.009 ether for 0.1 ether and 3 members; payout 0.97 and creator fee 0.06 ether for 1 ether and 2 members; shares 0.05 and 0.0333… ether |
| Fees.CreatorFee | backend/contracts/test/CircleTrust.ts:271-273 | the creator fee on completion is at most the `n` contributions, and within one unit per round below `n * c * pct / 100`: `100*fee <= n*c*pct < 100*fee + 100*n` when `n > 0` (see Findings for the tests' own formula) |
| Fees.RoundsFundCreatorFee | backend/contracts/test/CircleTrust.ts:253-297 | over `n` rounds, the payouts plus the creator fee are exactly `n` contributions |
| Fees.AsWrittenAtLeastCorrected | backend/contracts/test/CircleTrust.ts:271-273 | the tests' creator fee is never below the fees actually kept back |
| Fees.FeesAgreeOnWholeHundreds | backend/contracts/test/CircleTrust.ts:271-273 | when `c*pct` is a whole number of hundreds, as in every test, the two fee formulas agree |
| Fees.CreatorFeeAsWrittenOverdraws | backend/contracts/test/CircleTrust.ts:271-273 | with the tests' formula, a 2-member pool of 50 wei pays out 201 wei for the 200 it took in |
| LedgerAccounting.SetCollateral | backend/contracts/test/CircleTrust.ts:139-143 | writing one address's collateral leaves every other address's unchanged |
| LedgerAccounting.NewPoolInv | backend/contracts/test/CircleTrust.ts:78-114 | a freshly created pool satisfies the pool invariant while holding nothing |
| LedgerAccounting.JoinPreservesInv | backend/contracts/test/CircleTrust.ts:133-182 | a join keeps the pool invariant, the pool holding two contributions more |
| LedgerAccounting.RoundPreservesInv | backend/contracts/test/CircleTrust.ts:208-246 | a pool that is not on its last round can pay the round and keeps its invariant |
| LedgerAccounting.FinalRoundFunds | backend/contracts/test/CircleTrust.ts:253-297 | on the last round the pool holds enough for the payout, the creator fee and every refund |
| LedgerAccounting.DefaultPreservesInv | backend/contracts/test/CircleTrust.ts:325-365 | a default keeps the invariant once the shares have been paid |
| LedgerAccounting.RefundsPayCollateral | backend/contracts/test/CircleTrust.ts:265-283 | each member's refund is the contribution if the member is active, and nothing otherwise |
| LedgerAccounting.RefundsTotal | backend/contracts/test/CircleTrust.ts:265-283 | the refunds add up to one contribution per active member |
| LedgerAccounting.SharesTotal | backend/contracts/test/CircleTrust.ts:354-363 | the slash shares add up to one share per remaining active member |
| LedgerAccounting.SharesGoToActive | backend/contracts/test/CircleTrust.ts:354-363 | every share goes to a member whose membership is still active, and is exactly one share |
| Ledger.NewPool | backend/contracts/test/CircleTrust.ts:78-114 | a new pool stores the creator, contribution, member count, minimum reputation and round duration it was given, has its first deadline one duration after creation, has no members, round 0, is not completed, exists, and has creator fee 3 |
| Ledger.CircleTrust.GetPool | backend/contracts/test/CircleTrust.ts:437-441 | `getPool` fails exactly for ids that were never created, with reason "Pool does not exist"; otherwise it returns the stored pool's ten fields |
| Ledger.CircleTrust.PoolsGetter | frontend/app/lib/contract.ts:167-184 | the `exists` flag is true exactly for created ids, and a never-created id reads as the all-zero record |
| Ledger.CircleTrust.GetMembers | backend/contracts/test/CircleTrust.ts:524-527 | `getMembers` returns a pool's members in join order, and fails for an unknown id with reason "Pool does not exist" |
| Ledger.CircleTrust.PoolCount | backend/contracts/test/CircleTrust.ts:78-84 | ids are dense: `getPool` succeeds exactly for the ids below `poolCount()` |
| Ledger.CircleTrust.CollateralOf | backend/contracts/test/CircleTrust.ts:139-143 | `getCollateral` fails with "Pool does not exist" exactly for ids never created; otherwise it is the address's stored collateral, 0 if none was ever stored |
| Ledger.CircleTrust.HasJoined | backend/contracts/test/CircleTrust.ts:529-537 | `hasJoined` fails with "Pool does not exist" exactly for ids never created; otherwise it is true exactly when the address has joined that pool |
| Ledger.CircleTrust.IsActiveMember | backend/contracts/test/CircleTrust.ts:145-149 | `isActiveMember` fails with "Pool does not exist" exactly for ids never created; otherwise it is true exactly when the address is an active member of that pool |
| Ledger.CircleTrust.ReputationOf | backend/contracts/test/CircleTrust.ts:461-465 | `reputation(a)` is the address's stored signed score, and 0 for an address never rewarded or penalised |
| Ledger.CircleTrust.GetContractBalance | backend/contracts/test/CircleTrust.ts:176-182 | under `Valid()`, the contract balance is the sum of what every pool holds |
| Ledger.CircleTrust.ViewKeepsBounds | backend/contracts/test/CircleTrust.ts:163-246 | what `getPool` reports keeps its bounds: `memberCount <= maxMembers`, `currentRound <= maxMembers`, `maxMembers >= 2`, a positive contribution, fee 3, completed exactly when `currentRound == maxMembers`, and a pool that has started paying is full |
| Ledger.CircleTrust.CollateralWhileActive | backend/contracts/test/CircleTrust.ts:139-269 | for a created pool, `getCollateral` answers the contribution while `isActiveMember` answers true and the pool is not completed, and zero otherwise (so a completed pool holds none); only joined addresses are active; `hasJoined` answers true exactly for the addresses listed among the members |
| Ledger.CircleTrust.BalanceCoversPool | backend/contracts/test/CircleTrust.ts:461-466 | the contract balance covers everything each single pool still owes |
| Ledger.CircleTrust.JoinedCannotRejoin | backend/contracts/test/CircleTrust.ts:373-377 | an address that has joined, even one that defaulted, can never join the same pool again |
| Ledger.CircleTrust.CompletedPoolIsClosed | backend/contracts/test/CircleTrust.ts:299-309 | a completed pool rejects a join as completed and a distribution as not active |
| Ledger.CircleTrust.InactiveCannotDefault | backend/contracts/test/CircleTrust.ts:367-371 | a member that is no longer active cannot be defaulted again |
| Ledger.CircleTrust.JoinVerdict | backend/contracts/test/CircleTrust.ts:133-192 | a join goes through exactly when the pool exists, is not completed, is not full, the caller has not joined, the caller's reputation meets the minimum and the deposit is exactly twice the contribution; an unknown id is rejected |
| Ledger.CircleTrust.DistributeVerdict | backend/contracts/test/CircleTrust.ts:202-206 | a distribution goes through exactly when the pool exists, is full, is not completed, and any round duration has elapsed; an unknown id is rejected |
| Ledger.CircleTrust.DefaultVerdict | backend/contracts/test/CircleTrust.ts:325-371 | a default goes through exactly when the pool exists, the member is active and another active member remains; an unknown id is rejected |
| Ledger.CircleTrust.CreatePool | backend/contracts/test/CircleTrust.ts:78-126 | it rejects a zero contribution, and then fewer than two members, with no change; both checks passed, it succeeds: the pool count grows by one, the new id is the old count, and the appended pool stores caller, contribution, member count, minimum reputation and fee 3 |
| Ledger.CircleTrust.JoinPool | backend/contracts/test/CircleTrust.ts:133-192 | a join either reverts with no change, or appends the caller to the members, sets its collateral to the contribution, marks it joined and active, and adds the deposit to the balance, touching only that pool |
| Ledger.CircleTrust.Distribute | backend/contracts/test/CircleTrust.ts:202-309 | it pays `members[currentRound]` the contribution less 3% and raises that member's reputation by one. A round that is not the last advances the round; the last completes the pool, pays the creator fee `n * (c * 3 / 100)` (see Left out), refunds every collateral and zeroes it. The balance falls by what was paid, and other pools are unchanged |
| Ledger.CircleTrust.PayRound | backend/contracts/test/CircleTrust.ts:208-246 | a round other than the last makes one payout and increments `currentRound` |
| Ledger.CircleTrust.FinishPool | backend/contracts/test/CircleTrust.ts:253-297 | the last round pays the receiver, then the creator fee, then every member's refund, in that order; it zeroes every collateral and marks the pool completed |
| Ledger.CircleTrust.HandleDefault | backend/contracts/test/CircleTrust.ts:325-371 | a default either reverts with no change, or lowers the member's reputation by two, makes it inactive, zeroes its collateral, and pays each remaining active member the slashed amount divided by their number; has-joined is kept |
| Ledger.CircleTrust.Slash | backend/contracts/test/CircleTrust.ts:325-365 | the effect of an accepted default, with the same new state |
| Ledger.RefundMembers | backend/contracts/test/CircleTrust.ts:265-283 | the refund loop zeroes each member's collateral and logs exactly the refunds the specification lists |
| Ledger.ShareMembers | backend/contracts/test/CircleTrust.ts:354-363 | the share loop pays exactly one share to each member still active, in member order |
| Ledger.CountMembersIn | backend/contracts/test/CircleTrust.ts:354-356 | the counting loop counts the members still active |
| Web3Context.DeriveStatus | frontend/app/context/Web3Context.tsx:264-269 | the status is completed exactly when the pool is completed, active exactly when it is not completed and full, and open otherwise |
| Web3Context.ToDisplay | frontend/app/context/Web3Context.tsx:271-284 | the entry carries the id, each of the ten fields `getPool` returned, and the status derived from them |
| Web3Context.FetchOf | frontend/app/context/Web3Context.tsx:249-250 | a `getPool` answer succeeds exactly when the ledger's call succeeds; it then carries the ledger's ten fields, and otherwise the revert reason's message |
| Web3Context.BuildPoolsData | frontend/app/context/Web3Context.tsx:246-295 | the `refreshPools` loop builds exactly the list the specification function describes |
| Web3Context.PoolsDataOrdered | frontend/app/context/Web3Context.tsx:246-295 | the entries have strictly increasing ids, all below the pool count, and each is the display of what was fetched for its id |
| Web3Context.PoolsDataIds | frontend/app/context/Web3Context.tsx:285-290 | an id is listed exactly when its fetch answered, so every id whose fetch threw is skipped |
| Web3Context.PoolsDataLength | frontend/app/context/Web3Context.tsx:246-295 | the list has one entry per answered fetch, so it is no longer than the pool count |
| Web3Context.PoolsDataConsistent | frontend/app/context/Web3Context.tsx:264-284 | every entry's status agrees with its own fields |
| Web3Context.LedgerRefreshIsComplete | frontend/app/context/Web3Context.tsx:246-295 | against the ledger, the list holds every pool, entry `k` being pool `k` as `getPool` reports it |
| Web3Context.NewPoolId | frontend/app/context/Web3Context.tsx:319-323 | the id is the event's when there is one; otherwise it is the pool count less one |
| Web3Context.FallbackIdMatchesEvent | frontend/app/context/Web3Context.tsx:319-323 | when the created id is the count before and the count read afterwards is one more, the fallback `poolCount - 1` gives the same id as the event |
| Web3Context.CreateThenFallback | frontend/app/context/Web3Context.tsx:319-323 | after a successful ledger `createPool`, the returned id is the old pool count, and the fallback on the count read afterwards gives that same id, as the event does |
| Web3Context.CreatePoolError | frontend/app/context/Web3Context.tsx:328-336 | a message containing "Contribution must be > 0" gets its message; otherwise one containing "Need at least 2 members" gets its own; the error is rethrown unchanged exactly when it contains neither |
| Web3Context.JoinPoolError | frontend/app/context/Web3Context.tsx:356-366 | the patterns are tried in order "Reputation too low", "Pool is full", "Already joined", the first one found deciding the message; the error is rethrown unchanged exactly when it contains none of them |
| Web3Context.DistributeError | frontend/app/context/Web3Context.tsx:385-393 | "Not enough time has passed" is tried first, then "Pool not active", each getting its message; the error is rethrown unchanged exactly when it contains neither |
| Web3Context.CreatePoolErrorOfRevert | frontend/app/context/Web3Context.tsx:330-335 | each reason the ledger's `createPool` reverts with gets its own client message |
| Web3Context.JoinPoolErrorOfRevert | frontend/app/context/Web3Context.tsx:358-365 | low reputation, a full pool and a repeated join get their own messages; a missing or completed pool and a wrong deposit are rethrown |
| Web3Context.DistributeErrorOfRevert | frontend/app/context/Web3Context.tsx:387-392 | an early call and an inactive pool get their own messages; a missing pool is rethrown |
| Web3Context.VerdictsRevertWithKnownReasons | frontend/app/context/Web3Context.tsx:356-393 | every reason the ledger's join and distribute checks give is one that the matching error handler is proved about |
| Web3Context.JoinPoolErrorInMessage | frontend/app/context/Web3Context.tsx:358-359 | the reason is found wherever the provider places it in the error message |
| Web3Context.Session.constructor | frontend/app/context/Web3Context.tsx:61-67 | the initial state: no address, no chain, no contract, reputation 0, balance "0", no pools |
| Web3Context.Session.Disconnect | frontend/app/context/Web3Context.tsx:181-188 | it resets address, contract, reputation, balance and pools, and leaves the chain and pool count |
| Web3Context.Session.RefreshPools | frontend/app/context/Web3Context.tsx:237-300 | without a contract, or when `poolCount()` throws, nothing changes; otherwise it sets the count and the list built from the answers |
| Web3Context.CorrectNetworkIsMonadTestnet | frontend/app/context/Web3Context.tsx:70 | the network is the right one exactly when the chain id is 10143 |
| Web3Context.StatusMatchesLedger | frontend/app/context/Web3Context.tsx:264-269 | against the ledger: active exactly when `distribute` gets past its active check, open exactly when the pool still admits members, completed exactly when it is completed |
| ReputationPage.TierRanges | frontend/app/reputation/page.tsx:31-37 | Diamond for 10 and above, Gold for 5 to 9, Silver for 2 to 4, Bronze for 0 and 1, At Risk below 0 |
| ReputationPage.TierMonotone | frontend/app/reputation/page.tsx:31-37 | a higher score never gives a lower tier |
| ReputationPage.TierNamesDistinct | frontend/app/reputation/page.tsx:31-37 | the tier names are distinct |
| ReputationPage.OneBoxHighlighted | frontend/app/reputation/page.tsx:188-208 | for every score, a box is outlined exactly when it is the box of the tier `getReputationTier` gives |
| ReputationPage.GoodStandingIffNotAtRisk | frontend/app/reputation/page.tsx:134-138 | "Good standing" is shown exactly for the tiers other than At Risk |
| ReputationPage.CompletedPools | frontend/app/reputation/page.tsx:26 | the completed count is at most the number of pools |
| ReputationPage.ActivePools | frontend/app/reputation/page.tsx:27 | the active count is at most the number of pools |
| ReputationPage.CountsWithinTotal | frontend/app/reputation/page.tsx:26-28 | when statuses agree with their pools, completed plus active is at most the total |
| ReputationPage.RefreshedCounts | frontend/app/reputation/page.tsx:26-28 | for the list `refreshPools` builds, completed plus active is at most the total, which is at most the pool count |
| PoolsPage.DurationPartsSpec | frontend/app/pools/page.tsx:127-132 | the unit is chosen by the thresholds 60, 3600 and 86400; the amount is the duration in that unit rounded down, at least 1 above seconds, and below the next unit up |
| PoolsPage.FormatDurationRoundTrip | frontend/app/pools/page.tsx:127-132 | the text reads back as the amount and unit it was made from |
| PoolsPage.JoinedIdsSpec | frontend/app/pools/page.tsx:49-66 | an id is in the set exactly when some loaded pool with that id was answered true; a call that threw adds nothing |
| PoolsPage.CheckJoinedPools | frontend/app/pools/page.tsx:49-66 | with no wallet or no pools nothing is recomputed; otherwise the loop builds exactly that set |
| PoolsPage.ButtonsExclusive | frontend/app/pools/page.tsx:272-296 | no card offers both the join and the distribute button |
| PoolsPage.JoinButtonMatchesLedger | frontend/app/pools/page.tsx:272-282 | on a ledger pool, the join button is shown exactly when a join gets past the completed, full and already-joined checks |
| PoolsPage.DistributeButtonMatchesLedger | frontend/app/pools/page.tsx:288-296 | on a ledger pool, the distribute button is shown exactly when `distribute` gets past its active check |
| PoolsPage.CompletedRoundLabelOverflows | frontend/app/pools/page.tsx:233-236 | as written, a completed 3-member pool is labelled round 4 of 3 |
| PoolsPage.RoundLabelSpec | frontend/app/pools/page.tsx:233-236 | on a ledger pool, the capped label is between 1 and the round count; it equals the as-written label until completion, and then stays on the last round |

## Left out

- The Solidity contract is not part of this model. The ledger follows the
  tests and the ABI.
- Ledger.CircleTrust.CreatePool: the tests call a 3-argument `createPool`, but
  the ABI's has four, with `roundDuration`. The model takes the four, plus the
  block time `now`.
- Ledger.NewPool: the first deadline is taken to be `now + roundDuration`. The
  sources attest only its field.
- Ledger.CircleTrust.Distribute: the creator fee paid on the last round is
  the round fees withheld, `n * (c * 3 / 100)`. The tests' formula is
  `c * n * 3 / 100`. The two agree whenever `c * 3` is a multiple of 100
  (`Fees.FeesAgreeOnWholeHundreds`), as for every amount the tests use. The
  tests' formula can overdraw a pool (see Findings).
- Ledger.CircleTrust.FinishPool: pays the same corrected creator fee as
  `Distribute`, for the same reason.
- Ledger.CircleTrust.PoolsGetter: the public `pools` getter reads a
  never-created id as the all-zero record with `exists` false, as its ABI
  output `exists` implies. Every other per-pool view (`GetPool`, `GetMembers`,
  `CollateralOf`, `HasJoined`, `IsActiveMember`) fails with "Pool does not
  exist" for such an id. Whether the contract's own `getCollateral`,
  `hasJoined` and `isActiveMember` check the id is not attested.
- Ledger.CircleTrust.DistributeVerdict: the time gate is modelled as
  `roundDuration > 0 ==> now >= roundDeadline`. Its error string is the only
  evidence of it, and no test waits.
- LedgerAccounting.Error.Reason: the client matches on eight revert strings. The
  wording of the other four (a completed pool, a wrong deposit, an inactive
  member, no active member left) is not attested and is a placeholder.
- The order in which the contract checks a join's conditions is not attested.
  The model checks them as listed on `JoinVerdict`. When the caller has already
  joined a full pool, the model reports the pool as full.
- Ledger.CircleTrust.HandleDefault: the sources do not restrict who may call
  it, and the model does not either. The share `floor(slashed / remaining)`
  is undefined when no active member remains, and the model reverts there.
- Events are not modelled. The ABI declares `PoolCreated`, `Joined`,
  `Distributed`, `CollateralSlashed` and `PoolCompleted`, and no ledger method
  emits them. `Web3Context.NewPoolId` takes the id that `PoolCreated` carries
  as a parameter.
- Payments are logged per call, in the order they are made. Gas, the actual
  ether transfers, reentrancy and failed transfers are not modelled: each call
  is atomic.
- uint256 overflow is not modelled. Amounts and counts are unbounded naturals.
  `EncodeMatchesAbi` states the type ranges for a view that fits them.
- Text.ToLower: lower-cases only `A`-`Z`. JavaScript's `toLowerCase` is full
  Unicode: it maps some other characters too, and it can change a string's
  length. No character outside ASCII lower-cases to `0` or `x`, so this does
  not change which addresses count as the zero address, but the model does not
  prove it for the full mapping.
- The client converts values with `Number(...)`, which loses precision above
  2^53. The model keeps exact integers.
- `formatEther`, `parseEther` and the floating-point displays are not modelled:
  the join-button amount, the fee preview and the progress bar. A
  `PoolDisplay` keeps `contributionAmount` in wei.
- Web3Context.Session.RefreshPools: the code skips every fetch that throws.
  Only the console log differs between "Pool does not exist" and any other
  error. The model therefore skips every failed fetch, whatever its message.
- Wallet connection, the account and chain listeners, network switching, the
  10-second polling, `refreshReputation`, `getPoolMembers` and every React
  rendering detail are I/O or UI. They are not modelled.
- PoolsPage.CheckJoinedPools: the `hasUserJoined` answers are parameters,
  `None` standing for a call that threw.
- The dashboard's pool counts repeat those of the reputation page and are not
  modelled separately.

## Findings

| source | as written | input that shows it | evidently intended | confidence | as-written member | corrected member |
|---|---|---|---|---|---|---|
| backend/contracts/test/CircleTrust.ts:271-273 | the creator fee is `c * n * 3 / 100`, rounded down once over all `n` rounds | `c = 50` wei, `n = 2`: the pool takes in 200 wei but pays 2×49 in payouts, a fee of 3 and 2×50 in refunds, 201 in all, so the extra wei comes out of other pools' funds | the fee is the round fees actually withheld, `n * (c * 3 / 100)`, which agrees with every amount the tests assert | not executed; medium, since the contract source is not shown and the formula is the tests' | Fees.CreatorFeeAsWritten, Fees.CreatorFeeAsWrittenOverdraws | Fees.CreatorFee, Fees.RoundsFundCreatorFee |
| frontend/app/pools/page.tsx:233-236 | the card shows round `currentRound + 1` of `maxMembers` for every pool, completed or not | a completed 3-member pool has `currentRound == 3` and is labelled "4/3" | the label stops at the last round | not executed; low, since it is a display detail | PoolsPage.RoundLabelAsWritten, PoolsPage.CompletedRoundLabelOverflows | PoolsPage.RoundLabel, PoolsPage.RoundLabelSpec |
