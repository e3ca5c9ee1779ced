/**
 * The rules of the pools page (frontend/app/pools/page.tsx): how a round
 * duration is written out, which loaded pools the user has joined, which
 * action buttons a pool card offers, and the round label on the card.
 */
module PoolsPage {
  import opened Wrappers
  import opened ContractAbi
  import Text
  import LedgerAccounting
  import Ledger
  import Web3Context

  // ---------------------------------------------------------------------
  // formatDuration

  datatype TimeUnit = Seconds | Minutes | Hours | Days {
    function Name(): string {
      match this
      case Seconds => "seconds"
      case Minutes => "minutes"
      case Hours => "hours"
      case Days => "days"
    }

    /** The unit's length in seconds. */
    function Length(): nat {
      match this
      case Seconds => 1
      case Minutes => 60
      case Hours => 3600
      case Days => 86400
    }
  }

  /** A duration as the page writes it: a whole number of one unit. */
  datatype Duration = Duration(amount: nat, unit: TimeUnit)

  /** The largest unit not longer than the duration, and the number of whole such units. */
  function DurationParts(seconds: nat): (d: Duration) {
    if seconds < 60 then Duration(seconds, Seconds)
    else if seconds < 3600 then Duration(seconds / 60, Minutes)
    else if seconds < 86400 then Duration(seconds / 3600, Hours)
    else Duration(seconds / 86400, Days)
  }

  /** `formatDuration`: the amount in decimal, a space and the unit's name. */
  function FormatDuration(seconds: nat): string {
    var d := DurationParts(seconds);
    Text.NatToDecimal(d.amount) + " " + d.unit.Name()
  }

  /**
   * The unit is picked by the thresholds 60, 3600 and 86400, and the amount
   * is the duration in that unit rounded down: below the next unit up, and
   * at least one unless the unit is seconds.
   */
  lemma DurationPartsSpec(seconds: nat)
    ensures var d := DurationParts(seconds);
            && (d.unit == Seconds <==> seconds < 60)
            && (d.unit == Minutes <==> 60 <= seconds < 3600)
            && (d.unit == Hours <==> 3600 <= seconds < 86400)
            && (d.unit == Days <==> 86400 <= seconds)
            && d.amount * d.unit.Length() <= seconds < (d.amount + 1) * d.unit.Length()
            && (d.unit != Seconds ==> d.amount >= 1)
            && (d.unit == Seconds ==> d.amount < 60)
            && (d.unit == Minutes ==> d.amount < 60)
            && (d.unit == Hours ==> d.amount < 24)
  {
    var d := DurationParts(seconds);
    FloorDiv(seconds, d.unit.Length());
  }

  lemma FloorDiv(n: nat, m: nat)
    requires m > 0
    ensures (n / m) * m <= n < (n / m + 1) * m
  {
  }

  /** Reads back what `FormatDuration` writes: the leading digits, a space and a unit name. */
  function ParseDuration(s: string): (r: Option<Duration>) {
    var k := DigitPrefix(s);
    if k == 0 || k >= |s| || s[k] != ' ' then None
    else
      match UnitNamed(s[k + 1..])
      case Some(u) => Some(Duration(Text.DecimalValue(s[..k]), u))
      case None => None
  }

  /** The unit with the given name, if any. */
  function UnitNamed(name: string): Option<TimeUnit> {
    if name == Seconds.Name() then Some(Seconds)
    else if name == Minutes.Name() then Some(Minutes)
    else if name == Hours.Name() then Some(Hours)
    else if name == Days.Name() then Some(Days)
    else None
  }

  /** The unit names are distinct, so a name reads back as its unit. */
  lemma UnitNamedName(u: TimeUnit)
    ensures UnitNamed(u.Name()) == Some(u)
  {
  }

  /** The length of the run of digits `s` starts with. */
  function DigitPrefix(s: string): (k: nat)
    ensures k <= |s|
    ensures forall j :: 0 <= j < k ==> Text.IsDigit(s[j])
    ensures k < |s| ==> !Text.IsDigit(s[k])
  {
    if |s| == 0 || !Text.IsDigit(s[0]) then 0 else 1 + DigitPrefix(s[1..])
  }

  lemma {:induction false} DigitPrefixOf(digits: string, rest: string)
    requires forall j :: 0 <= j < |digits| ==> Text.IsDigit(digits[j])
    requires |rest| > 0 && !Text.IsDigit(rest[0])
    ensures DigitPrefix(digits + rest) == |digits|
  {
    if |digits| > 0 {
      assert (digits + rest)[1..] == digits[1..] + rest;
      DigitPrefixOf(digits[1..], rest);
    } else {
      assert digits + rest == rest;
    }
  }

  /** The written duration is unambiguous: it reads back as the amount and unit it was made from. */
  lemma FormatDurationRoundTrip(seconds: nat)
    ensures ParseDuration(FormatDuration(seconds)) == Some(DurationParts(seconds))
  {
    var d := DurationParts(seconds);
    var digits := Text.NatToDecimal(d.amount);
    var s := FormatDuration(seconds);
    assert s == digits + (" " + d.unit.Name());
    DigitPrefixOf(digits, " " + d.unit.Name());
    assert s[..|digits|] == digits;
    assert s[|digits| + 1..] == d.unit.Name();
    UnitNamedName(d.unit);
    Text.DecimalRoundTrip(d.amount);
  }

  // ---------------------------------------------------------------------
  // checkJoinedPools

  /**
   * The ids of the loaded pools whose `hasUserJoined` answer was true;
   * `answers[k]` is the answer for `pools[k]`, `None` when the call threw.
   */
  function JoinedIds(pools: seq<PoolDisplay>, answers: seq<Option<bool>>): set<nat>
    requires |answers| == |pools|
  {
    if |pools| == 0 then {}
    else
      var k := |pools| - 1;
      JoinedIds(pools[..k], answers[..k]) + (if answers[k] == Some(true) then {pools[k].id} else {})
  }

  /** An id is in the set exactly when some loaded pool with that id was answered true. */
  lemma {:induction false} JoinedIdsSpec(pools: seq<PoolDisplay>, answers: seq<Option<bool>>, x: nat)
    requires |answers| == |pools|
    ensures x in JoinedIds(pools, answers) <==>
              exists k :: 0 <= k < |pools| && pools[k].id == x && answers[k] == Some(true)
  {
    if |pools| > 0 {
      var n := |pools| - 1;
      JoinedIdsSpec(pools[..n], answers[..n], x);
      if x in JoinedIds(pools, answers) {
        if x in JoinedIds(pools[..n], answers[..n]) {
          var k :| 0 <= k < n && pools[..n][k].id == x && answers[..n][k] == Some(true);
          assert pools[k].id == x && answers[k] == Some(true);
        } else {
          assert pools[n].id == x && answers[n] == Some(true);
        }
      }
      if exists k :: 0 <= k < |pools| && pools[k].id == x && answers[k] == Some(true) {
        var k :| 0 <= k < |pools| && pools[k].id == x && answers[k] == Some(true);
        if k < n {
          assert pools[..n][k].id == x && answers[..n][k] == Some(true);
        }
      }
    }
  }

  /**
   * `checkJoinedPools`: nothing is recomputed when no wallet is connected or
   * no pool is loaded; otherwise the set of joined ids, asking pool by pool
   * and skipping the ones whose call threw.
   */
  method CheckJoinedPools(connected: bool, pools: seq<PoolDisplay>, answers: seq<Option<bool>>)
    returns (r: Option<set<nat>>)
    requires |answers| == |pools|
    ensures !connected || |pools| == 0 ==> r == None
    ensures connected && |pools| > 0 ==> r == Some(JoinedIds(pools, answers))
  {
    if !connected || |pools| == 0 {
      return None;
    }
    var joined: set<nat> := {};
    var i := 0;
    while i < |pools|
      invariant 0 <= i <= |pools|
      invariant joined == JoinedIds(pools[..i], answers[..i])
    {
      assert pools[..i + 1][..i] == pools[..i];
      assert answers[..i + 1][..i] == answers[..i];
      if answers[i] == Some(true) {
        joined := joined + {pools[i].id};
      }
      i := i + 1;
    }
    assert pools[..i] == pools && answers[..i] == answers;
    r := Some(joined);
  }

  // ---------------------------------------------------------------------
  // Action buttons

  /** The "Join Pool" button: an open pool, not completed, that the user has not joined. */
  function ShowJoinButton(pool: PoolDisplay, joined: set<nat>): bool {
    !pool.completed && pool.status == Open && pool.id !in joined
  }

  /** The "Trigger Distribution" button: an active pool, not completed, with every seat taken. */
  function ShowDistributeButton(pool: PoolDisplay): bool {
    !pool.completed && pool.status == Active && pool.memberCount == pool.maxMembers
  }

  /** No card offers both buttons. */
  lemma ButtonsExclusive(pool: PoolDisplay, joined: set<nat>)
    ensures !(ShowJoinButton(pool, joined) && ShowDistributeButton(pool))
  {
  }

  /**
   * On a pool of the ledger, the join button is shown exactly when joining
   * would get past the completed, full and already-joined checks, so that
   * a join from it can only revert for reputation or the deposit.
   */
  lemma JoinButtonMatchesLedger(ledger: Ledger.CircleTrust, id: nat, caller: Address, value: nat, joined: set<nat>)
    requires ledger.Valid() && id < ledger.PoolCount()
    requires ledger.HasJoined(id, caller) == Success(id in joined)
    ensures var verdict := ledger.JoinVerdict(caller, id, value);
            ShowJoinButton(Web3Context.ToDisplay(id, ledger.GetPool(id).value), joined) <==>
              (verdict == LedgerAccounting.Done || verdict == LedgerAccounting.Reverted(LedgerAccounting.ReputationTooLow)
               || verdict == LedgerAccounting.Reverted(LedgerAccounting.IncorrectDeposit))
  {
    ledger.ViewKeepsBounds(id);
  }

  /**
   * On a pool of the ledger, the distribute button is shown exactly when
   * `distribute` gets past its active check; it can then only revert
   * because the round time has not passed.
   */
  lemma DistributeButtonMatchesLedger(ledger: Ledger.CircleTrust, id: nat, now: nat)
    requires ledger.Valid() && id < ledger.PoolCount()
    ensures var verdict := ledger.DistributeVerdict(id, now);
            ShowDistributeButton(Web3Context.ToDisplay(id, ledger.GetPool(id).value)) <==>
              (verdict == LedgerAccounting.Done || verdict == LedgerAccounting.Reverted(LedgerAccounting.RoundNotElapsed))
  {
  }

  // ---------------------------------------------------------------------
  // The round label

  /** The "Round" line of a pool card: round `round` out of `rounds`. */
  datatype RoundLine = RoundLine(round: nat, rounds: nat)

  /** The "Round" line as written: `currentRound + 1` out of `maxMembers`. */
  function RoundLabelAsWritten(pool: PoolDisplay): RoundLine {
    RoundLine(pool.currentRound + 1, pool.maxMembers)
  }

  /** A completed three-member pool, whose round counter has reached 3, is labelled round 4 of 3. */
  lemma CompletedRoundLabelOverflows()
    ensures var pool := PoolDisplay(0, 0, 1, 3, 3, 3, true, 0, 3, 0, 0, Completed);
            RoundLabelAsWritten(pool) == RoundLine(4, 3)
  {
  }

  /** The round label, capped at the last round. */
  function RoundLabel(pool: PoolDisplay): RoundLine {
    RoundLine(if pool.currentRound < pool.maxMembers then pool.currentRound + 1 else pool.maxMembers, pool.maxMembers)
  }

  /**
   * For a pool of the ledger the label is the round now being paid, one
   * past the rounds paid so far, until the pool completes, when it stays on
   * the last round; it never exceeds the number of rounds.
   */
  lemma RoundLabelSpec(ledger: Ledger.CircleTrust, id: nat)
    requires ledger.Valid() && id < ledger.PoolCount()
    ensures var pool := Web3Context.ToDisplay(id, ledger.GetPool(id).value);
            var line := RoundLabel(pool);
            && 1 <= line.round <= line.rounds == pool.maxMembers
            && (!pool.completed ==> line.round == pool.currentRound + 1 && line == RoundLabelAsWritten(pool))
            && (pool.completed ==> line.round == pool.maxMembers)
  {
    ledger.ViewKeepsBounds(id);
  }
}
