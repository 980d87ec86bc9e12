/** Operator stake as both stake-weighted aggregators read it from chain:
    the sum of `totalAssets` over the vaults an operator staked into the DSS,
    and the mapping of operators whose stake exceeds a floor. The Rust and
    the TypeScript versions compute the same thing. */
module Stake {
  import opened Wrappers
  import opened Tasks
  import opened Folds

  datatype ChainOracles = ChainOracles(
    /** `fetchVaultsStakedInDSS(operator, dss)`. */
    vaultsStakedInDss: Address -> Result<seq<Address>, TaskError>,
    /** A vault's `totalAssets()`; `None` when the call fails. */
    totalAssets: Address -> Option<nat>)

  function AssetsOrZero(c: ChainOracles): Address -> nat {
    v => c.totalAssets(v).GetOr(0)
  }

  /** The vault loop: assets are added in vault order, and the first call
      that fails ends the loop with `ContractCallError`. */
  function SumAssets(c: ChainOracles, vaults: seq<Address>): (r: Result<nat, TaskError>)
    ensures r.Ok? <==> forall i :: 0 <= i < |vaults| ==> c.totalAssets(vaults[i]).Some?
    ensures r.Err? ==> r.error == ContractCallError
    ensures r.Ok? ==> r.value == Sum(Map(AssetsOrZero(c), vaults))
  {
    if |vaults| == 0 then Ok(0)
    else
      var init := vaults[..|vaults| - 1];
      var v := vaults[|vaults| - 1];
      assert vaults == init + [v];
      SumMapSnoc(AssetsOrZero(c), init, v);
      match SumAssets(c, init)
      case Err(e) => Err(e)
      case Ok(s) =>
        match c.totalAssets(v)
        case None => Err(ContractCallError)
        case Some(a) => Ok(s + a)
  }

  /** `get_operator_stake_normalized_eth` / `getOperatorStakeNormalizedETH`:
      no normalisation is applied, and an operator with no vault has stake 0. */
  function NormalizedStake(c: ChainOracles, operator: Address): (r: Result<nat, TaskError>)
    ensures c.vaultsStakedInDss(operator).Err? ==> r == Err(c.vaultsStakedInDss(operator).error)
    ensures c.vaultsStakedInDss(operator) == Ok([]) ==> r == Ok(0)
    ensures c.vaultsStakedInDss(operator).Ok? ==>
      var vaults := c.vaultsStakedInDss(operator).value;
      && (r.Ok? <==> forall i :: 0 <= i < |vaults| ==> c.totalAssets(vaults[i]).Some?)
      && (r.Ok? ==> r.value == Sum(Map(AssetsOrZero(c), vaults)))
  {
    var vaults :- c.vaultsStakedInDss(operator);
    SumAssets(c, vaults)
  }

  /** The stake of an operator whose stake could be read. */
  function StakeOrZero(c: ChainOracles, a: Address): nat {
    match NormalizedStake(c, a)
    case Ok(s) => s
    case Err(_) => 0
  }

  function StakeOf(c: ChainOracles): Address -> nat {
    a => StakeOrZero(c, a)
  }

  function Above(c: ChainOracles, floor: nat): Address -> bool {
    (a: Address) => StakeOrZero(c, a) > floor
  }

  datatype StakeMap = StakeMap(stakes: map<Address, nat>, total: nat)

  /** `get_operator_stake_mapping` / `getOperatorStakeMapping`: operators are
      queried in input order and the first failure aborts; an operator is
      kept iff its stake is strictly above the floor, with that stake. */
  function StakeMapping(c: ChainOracles, operators: seq<Address>, floor: nat): (r: Result<StakeMap, TaskError>)
    ensures r.Ok? <==> forall i :: 0 <= i < |operators| ==> NormalizedStake(c, operators[i]).Ok?
    ensures r.Err? ==> exists i :: 0 <= i < |operators| && NormalizedStake(c, operators[i]) == Err(r.error)
                                   && forall j :: 0 <= j < i ==> NormalizedStake(c, operators[j]).Ok?
    ensures r.Ok? ==> forall a :: a in r.value.stakes <==> a in operators && StakeOrZero(c, a) > floor
    ensures r.Ok? ==> forall a :: a in r.value.stakes ==> r.value.stakes[a] == StakeOrZero(c, a)
  {
    if |operators| == 0 then Ok(StakeMap(map[], 0))
    else
      var init := operators[..|operators| - 1];
      var a := operators[|operators| - 1];
      assert forall i :: 0 <= i < |init| ==> init[i] == operators[i];
      assert forall x :: x in operators <==> x in init || x == a;
      match StakeMapping(c, init, floor)
      case Err(e) => Err(e)
      case Ok(m) =>
        match NormalizedStake(c, a)
        case Err(e) => Err(e)
        case Ok(stake) =>
          if stake > floor then Ok(StakeMap(m.stakes[a := stake], m.total + stake))
          else Ok(m)
  }

  /** The total adds every kept stake, once per occurrence in the input;
      operators at or below the floor add nothing. */
  lemma {:induction false} StakeMappingTotal(c: ChainOracles, operators: seq<Address>, floor: nat)
    requires StakeMapping(c, operators, floor).Ok?
    ensures StakeMapping(c, operators, floor).value.total == Sum(Map(StakeOf(c), Filter(Above(c, floor), operators)))
    decreases |operators|
  {
    if |operators| > 0 {
      var init := operators[..|operators| - 1];
      var a := operators[|operators| - 1];
      assert operators == init + [a];
      StakeMappingTotal(c, init, floor);
      FilterSnoc(Above(c, floor), init, a);
      SumMapSnoc(StakeOf(c), Filter(Above(c, floor), init), a);
    }
  }

  /** An address listed twice keeps one map entry but is added to the total
      twice. */
  lemma DuplicateCountedTwice(c: ChainOracles, a: Address, floor: nat)
    requires NormalizedStake(c, a).Ok? && NormalizedStake(c, a).value > floor
    ensures StakeMapping(c, [a, a], floor)
         == Ok(StakeMap(map[a := NormalizedStake(c, a).value], 2 * NormalizedStake(c, a).value))
  {
    var s := NormalizedStake(c, a).value;
    assert [a][..0] == [];
    assert StakeMapping(c, [a], floor) == Ok(StakeMap(map[a := s], s));
    assert [a, a][..1] == [a];
    assert map[a := s][a := s] == map[a := s];
  }

  /** The total is the sum of the kept stakes and nothing else: operators at
      or below the floor add nothing. */
  lemma {:induction false} TotalBoundedByStakes(c: ChainOracles, operators: seq<Address>, floor: nat)
    requires StakeMapping(c, operators, floor).Ok?
    ensures StakeMapping(c, operators, floor).value.total <= Sum(Map(StakeOf(c), operators))
    decreases |operators|
  {
    if |operators| > 0 {
      var init := operators[..|operators| - 1];
      var a := operators[|operators| - 1];
      assert operators == init + [a];
      TotalBoundedByStakes(c, init, floor);
      SumMapSnoc(StakeOf(c), init, a);
    }
  }

  /** With a floor of zero, leaving out the operators at the floor does not
      change the sum: they have no stake. */
  lemma {:induction false} ZeroFloorKeepsSum(c: ChainOracles, operators: seq<Address>)
    ensures Sum(Map(StakeOf(c), Filter(Above(c, 0), operators))) == Sum(Map(StakeOf(c), operators))
    decreases |operators|
  {
    if |operators| > 0 {
      var init := operators[..|operators| - 1];
      var a := operators[|operators| - 1];
      assert operators == init + [a];
      ZeroFloorKeepsSum(c, init);
      FilterSnoc(Above(c, 0), init, a);
      SumMapSnoc(StakeOf(c), Filter(Above(c, 0), init), a);
      SumMapSnoc(StakeOf(c), init, a);
    }
  }
}
