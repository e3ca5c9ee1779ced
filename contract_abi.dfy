/**
 * The client-side description of the CircleTrust contract
 * (frontend/app/lib/contract.ts): the deployed address and the zero-address
 * test, the network constants, the ABI as data, the tuple returned by
 * `getPool`, the record returned by the `pools` getter, and the `Pool` and
 * `PoolDisplay` shapes the pages render.
 */
module ContractAbi {
  import opened Wrappers
  import Text

  /** An account address (a 160-bit number on chain). */
  type Address = nat

  const TWO_160: nat := 0x1_0000_0000_0000_0000_0000_0000_0000_0000_0000_0000
  const TWO_255: nat := 0x8000_0000_0000_0000_0000_0000_0000_0000_0000_0000_0000_0000_0000_0000_0000_0000
  const TWO_256: nat := 2 * TWO_255

  const CONTRACT_ADDRESS: string := "0x22E2d4EEa809954bF2cc9794a5442bc8044d1a23"
  const ZERO_ADDRESS: string := "0x0000000000000000000000000000000000000000"

  /** Chain id of the Monad testnet, the only network the client accepts. */
  const MONAD_TESTNET_CHAIN_ID: nat := 10143

  /** `isContractDeployed`, for an arbitrary configured address. */
  function IsContractDeployedAt(address: string): bool {
    Text.ToLower(address) != Text.ToLower(ZERO_ADDRESS)
  }

  function IsContractDeployed(): bool {
    IsContractDeployedAt(CONTRACT_ADDRESS)
  }

  /** The spellings of the zero address, in either case of the `x`. */
  predicate IsZeroAddressSpelling(address: string) {
    && |address| == 42
    && address[0] == '0'
    && (address[1] == 'x' || address[1] == 'X')
    && forall k :: 2 <= k < 42 ==> address[k] == '0'
  }

  lemma ZeroAddressChars()
    ensures |ZERO_ADDRESS| == 42 && ZERO_ADDRESS[0] == '0' && ZERO_ADDRESS[1] == 'x'
    ensures forall k :: 2 <= k < 42 ==> ZERO_ADDRESS[k] == '0'
  {
  }

  /** The contract counts as not deployed exactly when the configured address is zero, whatever its case. */
  lemma NotDeployedIffZeroAddress(address: string)
    ensures !IsContractDeployedAt(address) <==> IsZeroAddressSpelling(address)
  {
    ZeroAddressChars();
    var lo, zero := Text.ToLower(address), Text.ToLower(ZERO_ADDRESS);
    assert zero[0] == '0' && zero[1] == 'x';
    assert forall k :: 2 <= k < 42 ==> zero[k] == '0';
    if IsZeroAddressSpelling(address) {
      assert |lo| == |zero|;
      forall k | 0 <= k < |lo| ensures lo[k] == zero[k] {
        if k >= 2 { assert address[k] == '0'; }
      }
      assert lo == zero;
    }
    if lo == zero {
      forall k | 2 <= k < 42 ensures address[k] == '0' {
        assert lo[k] == '0';
      }
      assert lo[1] == 'x';
    }
  }

  /** The address the client ships with is a real deployment. */
  lemma ShippedAddressIsDeployed()
    ensures IsContractDeployed()
  {
    var lo, zero := Text.ToLower(CONTRACT_ADDRESS), Text.ToLower(ZERO_ADDRESS);
    assert lo[2] == '2' && zero[2] == '0';
  }

  // ---------------------------------------------------------------------
  // The ABI as data

  datatype AbiType = Uint256 | Int256 | AddressType | Bool | AddressArray

  datatype Mutability = NonPayable | Payable | View

  datatype Param = Param(name: string, typ: AbiType)

  datatype AbiFunction = AbiFunction(name: string, inputs: seq<Param>, outputs: seq<Param>, mutability: Mutability)

  datatype AbiEvent = AbiEvent(name: string, indexed: Param, data: seq<Param>)

  const POOL_ID_INDEXED: Param := Param("poolId", Uint256)

  const ABI_EVENTS: seq<AbiEvent> := [
    AbiEvent("PoolCreated", POOL_ID_INDEXED, [Param("creator", AddressType)]),
    AbiEvent("Joined", POOL_ID_INDEXED, [Param("member", AddressType)]),
    AbiEvent("Distributed", POOL_ID_INDEXED, [Param("receiver", AddressType)]),
    AbiEvent("CollateralSlashed", POOL_ID_INDEXED, [Param("defaulter", AddressType)]),
    AbiEvent("PoolCompleted", POOL_ID_INDEXED, [])
  ]

  const GET_POOL_OUTPUTS: seq<Param> := [
    Param("creator", AddressType),
    Param("contributionAmount", Uint256),
    Param("maxMembers", Uint256),
    Param("currentRound", Uint256),
    Param("memberCount", Uint256),
    Param("completed", Bool),
    Param("minimumReputation", Uint256),
    Param("creatorFeePercent", Uint256),
    Param("roundDuration", Uint256),
    Param("roundDeadline", Uint256)
  ]

  const POOLS_OUTPUTS: seq<Param> := [
    Param("creator", AddressType),
    Param("contributionAmount", Uint256),
    Param("maxMembers", Uint256),
    Param("currentRound", Uint256),
    Param("completed", Bool),
    Param("exists", Bool),
    Param("minimumReputation", Uint256),
    Param("creatorFeePercent", Uint256),
    Param("roundDuration", Uint256),
    Param("roundDeadline", Uint256)
  ]

  const ABI_FUNCTIONS: seq<AbiFunction> := [
    AbiFunction("createPool",
      [Param("_contributionAmount", Uint256), Param("_maxMembers", Uint256),
       Param("_minimumReputation", Uint256), Param("_roundDuration", Uint256)],
      [Param("", Uint256)], NonPayable),
    AbiFunction("distribute", [Param("_poolId", Uint256)], [], NonPayable),
    AbiFunction("getCollateral", [Param("_poolId", Uint256), Param("_member", AddressType)], [Param("", Uint256)], View),
    AbiFunction("getContractBalance", [], [Param("", Uint256)], View),
    AbiFunction("getMembers", [Param("_poolId", Uint256)], [Param("", AddressArray)], View),
    AbiFunction("getPool", [Param("_poolId", Uint256)], GET_POOL_OUTPUTS, View),
    AbiFunction("hasJoined", [Param("_poolId", Uint256), Param("_member", AddressType)], [Param("", Bool)], View),
    AbiFunction("isActiveMember", [Param("_poolId", Uint256), Param("_member", AddressType)], [Param("", Bool)], View),
    AbiFunction("joinPool", [Param("_poolId", Uint256)], [], Payable),
    AbiFunction("poolCount", [], [Param("", Uint256)], View),
    AbiFunction("pools", [Param("", Uint256)], POOLS_OUTPUTS, View),
    AbiFunction("reputation", [Param("", AddressType)], [Param("", Int256)], View)
  ]

  function Names(ps: seq<Param>): (names: seq<string>)
    ensures |names| == |ps|
    ensures forall k :: 0 <= k < |ps| ==> names[k] == ps[k].name
  {
    seq(|ps|, k requires 0 <= k < |ps| => ps[k].name)
  }

  /** `getPool` returns ten values, in this order. */
  lemma GetPoolLayout()
    ensures ABI_FUNCTIONS[5].name == "getPool"
    ensures Names(ABI_FUNCTIONS[5].outputs) == ["creator", "contributionAmount", "maxMembers", "currentRound",
      "memberCount", "completed", "minimumReputation", "creatorFeePercent", "roundDuration", "roundDeadline"]
  {
    assert ABI_FUNCTIONS[5].outputs == GET_POOL_OUTPUTS;
  }

  /** The stored record carries `exists` and, being an auto-getter over a struct with an array, no member count. */
  lemma PoolsGetterLayout()
    ensures ABI_FUNCTIONS[10].name == "pools"
    ensures POOLS_OUTPUTS[5] == Param("exists", Bool)
    ensures forall k :: 0 <= k < |POOLS_OUTPUTS| ==> POOLS_OUTPUTS[k].name != "memberCount"
  {
  }

  /** `joinPool` is the only function that accepts value. */
  lemma OnlyJoinPoolIsPayable()
    ensures forall k :: 0 <= k < |ABI_FUNCTIONS| ==>
      (ABI_FUNCTIONS[k].mutability == Payable <==> ABI_FUNCTIONS[k].name == "joinPool")
  {
  }

  /** `createPool` takes four unsigned arguments and returns the new pool id. */
  lemma CreatePoolSignature()
    ensures ABI_FUNCTIONS[0].name == "createPool"
    ensures |ABI_FUNCTIONS[0].inputs| == 4
    ensures forall k :: 0 <= k < 4 ==> ABI_FUNCTIONS[0].inputs[k].typ == Uint256
    ensures ABI_FUNCTIONS[0].outputs == [Param("", Uint256)]
  {
  }

  /** Reputation is signed; every pool field of `getPool` except creator and completed is unsigned. */
  lemma SignedReputationUnsignedPoolFields()
    ensures ABI_FUNCTIONS[11].name == "reputation" && ABI_FUNCTIONS[11].outputs[0].typ == Int256
    ensures forall k :: 0 <= k < |GET_POOL_OUTPUTS| && k != 0 && k != 5 ==> GET_POOL_OUTPUTS[k].typ == Uint256
  {
  }

  // ---------------------------------------------------------------------
  // Values crossing the ABI

  datatype Value = UintValue(u: nat) | IntValue(i: int) | AddressValue(a: Address) | BoolValue(b: bool)
                 | AddressListValue(addresses: seq<Address>)

  predicate HasType(v: Value, t: AbiType) {
    match t
    case Uint256 => v.UintValue? && v.u < TWO_256
    case Int256 => v.IntValue? && -(TWO_255 as int) <= v.i < TWO_255
    case AddressType => v.AddressValue? && v.a < TWO_160
    case Bool => v.BoolValue?
    case AddressArray => v.AddressListValue? && forall k :: 0 <= k < |v.addresses| ==> v.addresses[k] < TWO_160
  }

  /** The ten values of `getPool`, and the `Pool` interface the client builds from them. */
  datatype PoolView = PoolView(
    creator: Address,
    contributionAmount: nat,
    maxMembers: nat,
    currentRound: nat,
    memberCount: nat,
    completed: bool,
    minimumReputation: nat,
    creatorFeePercent: nat,
    roundDuration: nat,
    roundDeadline: nat)
  {
    /** Every field fits its declared ABI type. */
    predicate InRange() {
      && creator < TWO_160 && contributionAmount < TWO_256 && maxMembers < TWO_256
      && currentRound < TWO_256 && memberCount < TWO_256 && minimumReputation < TWO_256
      && creatorFeePercent < TWO_256 && roundDuration < TWO_256 && roundDeadline < TWO_256
    }

    function Encode(): seq<Value> {
      [AddressValue(creator), UintValue(contributionAmount), UintValue(maxMembers),
       UintValue(currentRound), UintValue(memberCount), BoolValue(completed),
       UintValue(minimumReputation), UintValue(creatorFeePercent), UintValue(roundDuration),
       UintValue(roundDeadline)]
    }
  }

  /** The positional destructuring the client applies to the `getPool` tuple. */
  function DecodePoolView(vs: seq<Value>): Option<PoolView> {
    if |vs| == 10 && vs[0].AddressValue? && vs[1].UintValue? && vs[2].UintValue? && vs[3].UintValue?
       && vs[4].UintValue? && vs[5].BoolValue? && vs[6].UintValue? && vs[7].UintValue?
       && vs[8].UintValue? && vs[9].UintValue?
    then Some(PoolView(vs[0].a, vs[1].u, vs[2].u, vs[3].u, vs[4].u, vs[5].b, vs[6].u, vs[7].u, vs[8].u, vs[9].u))
    else None
  }

  /** The encoding matches the declared output types position by position. */
  lemma EncodeMatchesAbi(v: PoolView)
    requires v.InRange()
    ensures |v.Encode()| == |GET_POOL_OUTPUTS|
    ensures forall k :: 0 <= k < |GET_POOL_OUTPUTS| ==> HasType(v.Encode()[k], GET_POOL_OUTPUTS[k].typ)
  {
  }

  /** Destructuring the tuple recovers every field. */
  lemma DecodeEncode(v: PoolView)
    ensures DecodePoolView(v.Encode()) == Some(v)
  {
  }

  /** What the `pools` auto-getter returns for an id: the stored struct without its members array. */
  datatype PoolRecord = PoolRecord(
    creator: Address,
    contributionAmount: nat,
    maxMembers: nat,
    currentRound: nat,
    completed: bool,
    poolExists: bool,
    minimumReputation: nat,
    creatorFeePercent: nat,
    roundDuration: nat,
    roundDeadline: nat)

  /** The record a mapping yields for an id that was never written. */
  const EMPTY_POOL_RECORD: PoolRecord := PoolRecord(0, 0, 0, 0, false, false, 0, 0, 0, 0)

  /** `PoolDisplay.status`: exactly three values. */
  datatype PoolStatus = Open | Active | Completed {
    function Name(): string {
      match this
      case Open => "open"
      case Active => "active"
      case Completed => "completed"
    }
  }

  /** The three names are distinct, so the status can be read back from its name. */
  lemma StatusNamesDistinct(s: PoolStatus, t: PoolStatus)
    ensures s.Name() == t.Name() ==> s == t
  {
  }

  /**
   * `PoolDisplay`; `contributionAmount` stays the amount in wei
   * (the client's ether-formatted string is not modelled).
   */
  datatype PoolDisplay = PoolDisplay(
    id: nat,
    creator: Address,
    contributionAmount: nat,
    maxMembers: nat,
    currentRound: nat,
    memberCount: nat,
    completed: bool,
    minimumReputation: nat,
    creatorFeePercent: nat,
    roundDuration: nat,
    roundDeadline: nat,
    status: PoolStatus)
}
