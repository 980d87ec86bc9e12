/** The stake-weighted Rust aggregator's round: keep the responses whose
    signature recovers to the claimed address, weigh each answer by the
    stake of the responders that gave it, and accept the heaviest answer
    unless it has less than half of the responders' total stake. */
module StakeAggregation {
  import opened Wrappers
  import opened Tasks
  import opened Folds
  import opened Stake

  datatype EcdsaOracles = EcdsaOracles(
    /** `serde_json::to_string` of a completed task. */
    serialize: CompletedTask -> Message,
    /** `recover_address_from_msg`; `None` when recovery fails. */
    recover: (Signature, Message) -> Option<Address>)

  /** `verify_message`: `None` stands for the error of a failed recovery;
      otherwise whether the recovered address is the claimed one. */
  function VerifyMessage(e: EcdsaOracles, r: TaskResponse): Option<bool> {
    match e.recover(r.signature, e.serialize(r.completedTask))
    case None => None
    case Some(address) => Some(address == r.publicKey)
  }

  /** Recovery binds a signed task to one address: whether recovery fails
      does not depend on the claimed address, and a response that verifies
      stops verifying once it claims any other address. */
  lemma VerifyBindsAddress(e: EcdsaOracles, r: TaskResponse, a: Address)
    ensures VerifyMessage(e, r.(publicKey := a)).Some? <==> VerifyMessage(e, r).Some?
    ensures VerifyMessage(e, r) == Some(true) && a != r.publicKey ==>
      VerifyMessage(e, r.(publicKey := a)) == Some(false)
  {
  }

  /** The signature recovers to the address the response claims. */
  predicate Authentic(e: EcdsaOracles, r: TaskResponse) {
    VerifyMessage(e, r) == Some(true)
  }

  function IsAuthentic(e: EcdsaOracles): TaskResponse -> bool {
    r => Authentic(e, r)
  }

  /** No response makes recovery fail. */
  predicate Recoverable(e: EcdsaOracles, responses: seq<TaskResponse>) {
    forall i :: 0 <= i < |responses| ==> VerifyMessage(e, responses[i]).Some?
  }

  /** The verify loop: a failed recovery fails the whole round with
      `TaskVerificationFailed`; a response that recovers to another address
      is dropped. */
  function VerifyAll(e: EcdsaOracles, responses: seq<TaskResponse>): (r: Result<seq<TaskResponse>, TaskError>)
    ensures r.Ok? <==> Recoverable(e, responses)
    ensures r.Err? ==> r.error == TaskVerificationFailed
    ensures r.Ok? ==> r.value == Filter(IsAuthentic(e), responses)
  {
    if |responses| == 0 then Ok([])
    else
      var init := responses[..|responses| - 1];
      var x := responses[|responses| - 1];
      assert forall i :: 0 <= i < |init| ==> init[i] == responses[i];
      match VerifyAll(e, init)
      case Err(err) => Err(err)
      case Ok(kept) =>
        match VerifyMessage(e, x)
        case None => Err(TaskVerificationFailed)
        case Some(true) => Ok(kept + [x])
        case Some(false) => Ok(kept)
  }

  function AnswerOf(r: TaskResponse): U256 {
    r.completedTask.response
  }

  function PublicKeyOf(r: TaskResponse): Address {
    r.publicKey
  }

  function Voted(verified: seq<TaskResponse>): set<U256> {
    set r | r in verified :: AnswerOf(r)
  }

  function VotesFor(k: U256): TaskResponse -> bool {
    r => AnswerOf(r) == k
  }

  /** `operator_stakes.get(&public_key).unwrap_or(&0)`. */
  function LookupStake(stakes: map<Address, nat>): TaskResponse -> nat {
    (r: TaskResponse) => if r.publicKey in stakes then stakes[r.publicKey] else 0
  }

  /** The stake recorded for answer `k`, each response for it adding its
      responder's entry in `stakes`. */
  function StakeFor(verified: seq<TaskResponse>, stakes: map<Address, nat>, k: U256): nat {
    if |verified| == 0 then 0
    else
      var r := verified[|verified| - 1];
      StakeFor(verified[..|verified| - 1], stakes, k) + (if AnswerOf(r) == k then LookupStake(stakes)(r) else 0)
  }

  /** The recorded stake of an answer is the sum over the responses that
      gave it. */
  lemma {:induction false} StakeForIsSum(verified: seq<TaskResponse>, stakes: map<Address, nat>, k: U256)
    ensures StakeFor(verified, stakes, k) == Sum(Map(LookupStake(stakes), Filter(VotesFor(k), verified)))
    decreases |verified|
  {
    if |verified| > 0 {
      var init, r := verified[..|verified| - 1], verified[|verified| - 1];
      assert verified == init + [r];
      StakeForIsSum(init, stakes, k);
      FilterSnoc(VotesFor(k), init, r);
      SumMapSnoc(LookupStake(stakes), Filter(VotesFor(k), init), r);
    }
  }

  /** An answer nobody gave has no stake recorded. */
  lemma {:induction false} StakeForUnvoted(verified: seq<TaskResponse>, stakes: map<Address, nat>, k: U256)
    requires k !in Voted(verified)
    ensures StakeFor(verified, stakes, k) == 0
    decreases |verified|
  {
    if |verified| > 0 {
      var init := verified[..|verified| - 1];
      assert verified[|verified| - 1] in verified;
      assert Voted(init) <= Voted(verified) by {
        forall x | x in Voted(init) ensures x in Voted(verified) {
          var r :| r in init && AnswerOf(r) == x;
          assert r in verified;
        }
      }
      StakeForUnvoted(init, stakes, k);
    }
  }

  /** `response_map`: answer to the stake summed over the responses giving
      it, built one verified response at a time. */
  function Tally(verified: seq<TaskResponse>, stakes: map<Address, nat>): (m: map<U256, nat>)
    ensures m.Keys == Voted(verified)
    ensures forall k :: k in m ==> m[k] == StakeFor(verified, stakes, k)
  {
    if |verified| == 0 then map[]
    else
      var init := verified[..|verified| - 1];
      var m := Tally(init, stakes);
      var r := verified[|verified| - 1];
      assert verified == init + [r];
      assert Voted(verified) == Voted(init) + {AnswerOf(r)};
      if AnswerOf(r) in m then
        m[AnswerOf(r) := m[AnswerOf(r)] + LookupStake(stakes)(r)]
      else
        StakeForUnvoted(init, stakes, AnswerOf(r));
        m[AnswerOf(r) := LookupStake(stakes)(r)]
  }

  function TallyOf(m: map<U256, nat>): U256 -> nat {
    k => if k in m then m[k] else 0
  }

  /** A responder's stake as read from chain (zero when it has none). */
  function ResponderStake(c: ChainOracles): TaskResponse -> nat {
    (r: TaskResponse) => StakeOrZero(c, r.publicKey)
  }

  /** Reference definition: the stake behind answer `k`. */
  function ValueStake(c: ChainOracles, verified: seq<TaskResponse>, k: U256): nat {
    Sum(Map(ResponderStake(c), Filter(VotesFor(k), verified)))
  }

  /** Reference definition: the stake of the verified responders, one term
      per response. */
  function TotalStake(c: ChainOracles, verified: seq<TaskResponse>): nat {
    Sum(Map(ResponderStake(c), verified))
  }

  /** Every verified responder's stake can be read. */
  predicate StakesReadable(c: ChainOracles, verified: seq<TaskResponse>) {
    forall i :: 0 <= i < |verified| ==> NormalizedStake(c, verified[i].publicKey).Ok?
  }

  /** The decision over the verified responses: read every responder's
      stake, tally the answers and accept the heaviest one unless it has
      less than half of the total. */
  function Decide(c: ChainOracles, verified: seq<TaskResponse>, keyOrder: seq<U256>): (r: Result<U256, TaskError>)
    requires IsEnumeration(keyOrder, Voted(verified))
    ensures !StakesReadable(c, verified) ==>
      r.Err? && exists i :: 0 <= i < |verified| && NormalizedStake(c, verified[i].publicKey) == Err(r.error)
    ensures StakesReadable(c, verified) ==>
      && (r == Err(TaskVerificationFailed) <==> |verified| == 0)
      && (r == Err(MajorityNotReached) <==>
            |verified| > 0 && forall k :: k in Voted(verified) ==> ValueStake(c, verified, k) < TotalStake(c, verified) / 2)
      && (r.Ok? || r == Err(TaskVerificationFailed) || r == Err(MajorityNotReached))
      && (r.Ok? ==>
            && r.value in Voted(verified)
            && (forall k :: k in Voted(verified) ==> ValueStake(c, verified, k) <= ValueStake(c, verified, r.value))
            && ValueStake(c, verified, r.value) >= TotalStake(c, verified) / 2)
  {
    var addresses := Map(PublicKeyOf, verified);
    AddressesReadable(c, verified);
    var sm :- StakeMapping(c, addresses, 0);
    var tally := Tally(verified, sm.stakes);
    WinnerFacts(c, verified, keyOrder);
    match MaxByKey(keyOrder, TallyOf(tally))
    case None => Err(TaskVerificationFailed)
    case Some(w) =>
      if tally[w] < sm.total / 2 then Err(MajorityNotReached) else Ok(w)
  }

  /** `send_task_to_all_operators`, after the requests: `responses` are the
      parsed replies in arrival order and `keyOrder` the iteration order of
      the answer map. */
  function AggregateRound(e: EcdsaOracles, c: ChainOracles, responses: seq<TaskResponse>, keyOrder: seq<U256>): (r: Result<U256, TaskError>)
    requires IsEnumeration(keyOrder, Voted(Filter(IsAuthentic(e), responses)))
    ensures !Recoverable(e, responses) ==> r == Err(TaskVerificationFailed)
    ensures
      var v := Filter(IsAuthentic(e), responses);
      Recoverable(e, responses) && !StakesReadable(c, v) ==>
        r.Err? && exists i :: 0 <= i < |v| && NormalizedStake(c, v[i].publicKey) == Err(r.error)
    ensures
      var v := Filter(IsAuthentic(e), responses);
      Recoverable(e, responses) && StakesReadable(c, v) ==>
        && (r == Err(TaskVerificationFailed) <==> |v| == 0)
        && (r == Err(MajorityNotReached) <==>
              |v| > 0 && forall k :: k in Voted(v) ==> ValueStake(c, v, k) < TotalStake(c, v) / 2)
        && (r.Ok? || r == Err(TaskVerificationFailed) || r == Err(MajorityNotReached))
        && (r.Ok? ==>
              && r.value in Voted(v)
              && (forall k :: k in Voted(v) ==> ValueStake(c, v, k) <= ValueStake(c, v, r.value))
              && ValueStake(c, v, r.value) >= TotalStake(c, v) / 2)
  {
    var verified :- VerifyAll(e, responses);
    Decide(c, verified, keyOrder)
  }

  /** `max_by_key` over the tally finds an answer exactly when some response
      verified, and that answer carries maximal stake. */
  lemma WinnerFacts(c: ChainOracles, verified: seq<TaskResponse>, keyOrder: seq<U256>)
    requires StakeMapping(c, Map(PublicKeyOf, verified), 0).Ok?
    requires IsEnumeration(keyOrder, Voted(verified))
    ensures
      var sm := StakeMapping(c, Map(PublicKeyOf, verified), 0).value;
      var tally := Tally(verified, sm.stakes);
      var best := MaxByKey(keyOrder, TallyOf(tally));
      && sm.total == TotalStake(c, verified)
      && (best.None? <==> |verified| == 0)
      && (best.Some? ==>
            && best.value in Voted(verified)
            && tally[best.value] == ValueStake(c, verified, best.value)
            && forall k :: k in Voted(verified) ==> ValueStake(c, verified, k) <= ValueStake(c, verified, best.value))
  {
    var sm := StakeMapping(c, Map(PublicKeyOf, verified), 0).value;
    var tally := Tally(verified, sm.stakes);
    var best := MaxByKey(keyOrder, TallyOf(tally));
    TallyMatchesChain(c, verified);
    if |verified| > 0 {
      assert AnswerOf(verified[0]) in Voted(verified);
    }
    if best.Some? {
      forall k | k in Voted(verified)
        ensures ValueStake(c, verified, k) <= ValueStake(c, verified, best.value)
      {
        var i :| 0 <= i < |keyOrder| && keyOrder[i] == k;
        assert TallyOf(tally)(keyOrder[i]) <= TallyOf(tally)(best.value);
      }
    }
  }

  /** The stake mapping over the responders' addresses fails exactly when
      some responder's stake cannot be read, with that responder's error. */
  lemma AddressesReadable(c: ChainOracles, verified: seq<TaskResponse>)
    ensures StakeMapping(c, Map(PublicKeyOf, verified), 0).Ok? <==> StakesReadable(c, verified)
    ensures StakeMapping(c, Map(PublicKeyOf, verified), 0).Err? ==>
      exists i :: 0 <= i < |verified|
        && NormalizedStake(c, verified[i].publicKey) == Err(StakeMapping(c, Map(PublicKeyOf, verified), 0).error)
  {
    var addresses := Map(PublicKeyOf, verified);
    assert forall i :: 0 <= i < |verified| ==> addresses[i] == verified[i].publicKey;
  }

  /** With the stakes read from chain, the tally and the total equal the
      reference definitions. */
  lemma TallyMatchesChain(c: ChainOracles, verified: seq<TaskResponse>)
    requires StakeMapping(c, Map(PublicKeyOf, verified), 0).Ok?
    ensures
      var sm := StakeMapping(c, Map(PublicKeyOf, verified), 0).value;
      && sm.total == TotalStake(c, verified)
      && forall k :: StakeFor(verified, sm.stakes, k) == ValueStake(c, verified, k)
  {
    var addresses := Map(PublicKeyOf, verified);
    StakeMappingTotal(c, addresses, 0);
    ZeroFloorKeepsSum(c, addresses);
    assert Map(StakeOf(c), addresses) == Map(ResponderStake(c), verified);
    forall k
      ensures StakeFor(verified, StakeMapping(c, addresses, 0).value.stakes, k) == ValueStake(c, verified, k)
    {
      StakeForMatchesChain(c, verified, k);
    }
  }

  lemma StakeForMatchesChain(c: ChainOracles, verified: seq<TaskResponse>, k: U256)
    requires StakeMapping(c, Map(PublicKeyOf, verified), 0).Ok?
    ensures StakeFor(verified, StakeMapping(c, Map(PublicKeyOf, verified), 0).value.stakes, k) == ValueStake(c, verified, k)
  {
    var addresses := Map(PublicKeyOf, verified);
    var stakes := StakeMapping(c, addresses, 0).value.stakes;
    StakeForIsSum(verified, stakes, k);
    var f := Filter(VotesFor(k), verified);
    forall i | 0 <= i < |f|
      ensures LookupStake(stakes)(f[i]) == ResponderStake(c)(f[i])
    {
      assert f[i] in verified;
      var j :| 0 <= j < |verified| && verified[j] == f[i];
      assert addresses[j] == f[i].publicKey;
    }
    assert Map(LookupStake(stakes), f) == Map(ResponderStake(c), f);
  }

  /** The round accepts exactly when some answer holds at least half of the
      total stake, the half being rounded down. */
  lemma DecideAcceptsIffHalf(c: ChainOracles, verified: seq<TaskResponse>, keyOrder: seq<U256>)
    requires IsEnumeration(keyOrder, Voted(verified))
    requires StakesReadable(c, verified)
    ensures Decide(c, verified, keyOrder).Ok?
        <==> exists k :: k in Voted(verified) && ValueStake(c, verified, k) >= TotalStake(c, verified) / 2
  {
    if k :| k in Voted(verified) && ValueStake(c, verified, k) >= TotalStake(c, verified) / 2 {
      assert |verified| > 0 by {
        var r :| r in verified && AnswerOf(r) == k;
      }
    }
  }

  /** Because the half is rounded down, an answer holding the rounded-down
      half of an odd total T, that is (T - 1) / 2, is still accepted, half a
      unit below T / 2: with three responders of stake 1 each and three
      different answers, 1 of 3 wins. */
  lemma RoundedDownHalfAccepted(c: ChainOracles, verified: seq<TaskResponse>, keyOrder: seq<U256>, k: U256)
    requires IsEnumeration(keyOrder, Voted(verified))
    requires StakesReadable(c, verified)
    requires k in Voted(verified)
    requires 2 * ValueStake(c, verified, k) + 1 == TotalStake(c, verified)
    ensures Decide(c, verified, keyOrder).Ok?
  {
    DecideAcceptsIffHalf(c, verified, keyOrder);
  }

  /** When every verified responder gives the same answer, that answer is
      accepted, whatever the stakes. */
  lemma UnanimousAccepted(c: ChainOracles, verified: seq<TaskResponse>, keyOrder: seq<U256>, k: U256)
    requires IsEnumeration(keyOrder, Voted(verified))
    requires StakesReadable(c, verified)
    requires |verified| > 0
    requires forall i :: 0 <= i < |verified| ==> AnswerOf(verified[i]) == k
    ensures Decide(c, verified, keyOrder) == Ok(k)
  {
    FilterAll(VotesFor(k), verified);
    assert ValueStake(c, verified, k) == TotalStake(c, verified);
    assert Voted(verified) == {k} by {
      assert AnswerOf(verified[0]) in Voted(verified);
    }
  }
}
