/** The BLS aggregator's round: keep the responses whose BLS signature
    verifies, group their signatures by answer, accept the answer with the
    most signatures when it has more than half of the registered operators,
    and aggregate signatures and public keys for the contract. Pairing
    checks, hashing and point addition are oracles. */
module BlsAggregation {
  import opened Wrappers
  import opened Tasks
  import opened Folds
  import opened Points
  import opened Registry
  import opened Dispatch

  /** A keccak256 digest. */
  type Hash = U256

  datatype BlsPublicKey = BlsPublicKey(g1: G1Point, g2: G2Point)

  /** A response of the BLS variant: it carries the responder's BLS keys and
      a signature that is a G1 point. */
  datatype BlsTaskResponse = BlsTaskResponse(
    completedTask: CompletedTask,
    publicKey: Address,
    blsPubkey: BlsPublicKey,
    signature: G1Point)

  datatype BlsOracles = BlsOracles(
    /** Whether `verify_signature(g2, signature, hash)` returns `Ok`. */
    verifySignature: (G2Point, G1Point, Hash) -> bool,
    /** keccak256 of the ABI encoding of the contract's `TaskResponse { response }`. */
    responseHash: U256 -> Hash,
    addG1: (G1Point, G1Point) -> G1Point,
    addG2: (G2Point, G2Point) -> G2Point)

  /** What the round hands to the contract: the answer, the G1 keys of the
      non-signers, the aggregated G2 key and the aggregated signature. */
  datatype BlsDecision = BlsDecision(
    response: U256,
    nonSigners: seq<G1Point>,
    aggPubkey: G2Point,
    aggSignature: G1Point)

  /** Group addition on both curves is associative and commutative. */
  ghost predicate LawfulAddition(o: BlsOracles) {
    CommutativeSemigroup(o.addG1) && CommutativeSemigroup(o.addG2)
  }

  /** `verify_message`: the signature is checked against the response's own
      G2 key over the hash of the answer alone. It never returns an error,
      so the round's error mapping around it is unreachable. */
  function VerifyMessage(o: BlsOracles, r: BlsTaskResponse): bool {
    o.verifySignature(r.blsPubkey.g2, r.signature, o.responseHash(r.completedTask.response))
  }

  /** The check reads only the response's G2 key, its signature and its
      answer: the claimed address, the G1 key, the squared value and the
      completion time do not enter it. */
  lemma VerifyIgnoresClaim(o: BlsOracles, r: BlsTaskResponse, s: BlsTaskResponse)
    ensures (r.blsPubkey.g2 == s.blsPubkey.g2 && r.signature == s.signature
             && r.completedTask.response == s.completedTask.response)
            ==> VerifyMessage(o, r) == VerifyMessage(o, s)
  {
  }

  function IsVerified(o: BlsOracles): BlsTaskResponse -> bool {
    r => VerifyMessage(o, r)
  }

  /** The verify loop: a response that fails the check is dropped and the
      round goes on. */
  function Verified(o: BlsOracles, responses: seq<BlsTaskResponse>): (v: seq<BlsTaskResponse>)
    ensures forall r :: r in v <==> r in responses && VerifyMessage(o, r)
  {
    Filter(IsVerified(o), responses)
  }

  /** The addresses claimed by verified responses. */
  function SigningKeys(verified: seq<BlsTaskResponse>): set<Address> {
    set r | r in verified :: r.publicKey
  }

  function AnswerOf(r: BlsTaskResponse): U256 {
    r.completedTask.response
  }

  /** The answers some verified response voted for. */
  function Voted(verified: seq<BlsTaskResponse>): set<U256> {
    set r | r in verified :: AnswerOf(r)
  }

  function VotesFor(k: U256): BlsTaskResponse -> bool {
    r => AnswerOf(r) == k
  }

  function SignatureOf(r: BlsTaskResponse): G1Point {
    r.signature
  }

  function G2Of(r: BlsTaskResponse): G2Point {
    r.blsPubkey.g2
  }

  /** Reference definition: the signatures of the verified votes for `k`, in
      arrival order. */
  function SignaturesFor(verified: seq<BlsTaskResponse>, k: U256): seq<G1Point> {
    Map(SignatureOf, Filter(VotesFor(k), verified))
  }

  /** How many verified responses voted for `k`. */
  function Count(verified: seq<BlsTaskResponse>, k: U256): nat {
    |SignaturesFor(verified, k)|
  }

  /** The G2 keys of every verified response, winners and losers alike. */
  function G2Keys(verified: seq<BlsTaskResponse>): seq<G2Point> {
    Map(G2Of, verified)
  }

  /** `response_map`: answer to the signatures pushed for it, built one
      verified response at a time with `entry(..).or_default().push(..)`. */
  function Group(verified: seq<BlsTaskResponse>): (m: map<U256, seq<G1Point>>)
    ensures m.Keys == Voted(verified)
    ensures forall k :: k in m ==> m[k] == SignaturesFor(verified, k)
  {
    if |verified| == 0 then map[]
    else
      var m := Group(verified[..|verified| - 1]);
      var r := verified[|verified| - 1];
      var m' := m[AnswerOf(r) := (if AnswerOf(r) in m then m[AnswerOf(r)] else []) + [r.signature]];
      GroupExtends(verified, m, m');
      m'
  }

  /** The push of one more response turns the grouping of the earlier ones
      into the grouping of all of them. */
  lemma GroupExtends(verified: seq<BlsTaskResponse>, m: map<U256, seq<G1Point>>, m': map<U256, seq<G1Point>>)
    requires |verified| > 0
    requires m.Keys == Voted(verified[..|verified| - 1])
    requires forall k :: k in m ==> m[k] == SignaturesFor(verified[..|verified| - 1], k)
    requires var r := verified[|verified| - 1];
      m' == m[AnswerOf(r) := (if AnswerOf(r) in m then m[AnswerOf(r)] else []) + [r.signature]]
    ensures m'.Keys == Voted(verified)
    ensures forall k :: k in m' ==> m'[k] == SignaturesFor(verified, k)
  {
    var init, r := verified[..|verified| - 1], verified[|verified| - 1];
    assert verified == init + [r];
    VotedSnoc(init, r);
    forall k | k in m'
      ensures m'[k] == SignaturesFor(verified, k)
    {
      SignaturesSnoc(init, r, k);
      if k == AnswerOf(r) && k !in m {
        UnvotedUnsigned(init, k);
      }
    }
  }

  /** An answer nobody voted for has no signatures. */
  lemma UnvotedUnsigned(verified: seq<BlsTaskResponse>, k: U256)
    requires k !in Voted(verified)
    ensures SignaturesFor(verified, k) == []
  {
    forall i | 0 <= i < |verified|
      ensures !VotesFor(k)(verified[i])
    {
      assert verified[i] in verified;
    }
    FilterNone(VotesFor(k), verified);
  }

  /** One more response adds its answer to those voted for. */
  lemma VotedSnoc(init: seq<BlsTaskResponse>, r: BlsTaskResponse)
    ensures Voted(init + [r]) == Voted(init) + {AnswerOf(r)}
  {
    assert forall x :: x in init + [r] <==> x in init || x == r;
  }

  /** One more response extends exactly the signature list of its answer. */
  lemma SignaturesSnoc(init: seq<BlsTaskResponse>, r: BlsTaskResponse, k: U256)
    ensures SignaturesFor(init + [r], k)
         == SignaturesFor(init, k) + (if AnswerOf(r) == k then [r.signature] else [])
  {
    FilterSnoc(VotesFor(k), init, r);
    if AnswerOf(r) == k {
      MapSnoc(SignatureOf, Filter(VotesFor(k), init), r);
    }
  }

  /** Every verified vote for `k` is counted. */
  lemma CountPositive(verified: seq<BlsTaskResponse>, k: U256)
    requires k in Voted(verified)
    ensures Count(verified, k) > 0
  {
    var r :| r in verified && AnswerOf(r) == k;
    assert r in Filter(VotesFor(k), verified);
  }

  function GroupSize(m: map<U256, seq<G1Point>>): U256 -> nat {
    k => if k in m then |m[k]| else 0
  }

  /** The first response, in arrival order, that claims the address `key`. */
  function FirstClaim(responses: seq<BlsTaskResponse>, key: Address): (r: Option<BlsTaskResponse>)
    ensures r.None? <==> forall i :: 0 <= i < |responses| ==> responses[i].publicKey != key
    ensures r.Some? ==> exists i :: 0 <= i < |responses| && responses[i] == r.value && r.value.publicKey == key
                          && forall j :: 0 <= j < i ==> responses[j].publicKey != key
  {
    if |responses| == 0 then None
    else if responses[0].publicKey == key then Some(responses[0])
    else
      var r := FirstClaim(responses[1..], key);
      assert forall i :: 1 <= i < |responses| ==> responses[i] == responses[1..][i - 1];
      r
  }

  /** A registered operator whose address some parsed response claims and
      no verified response does. Responses are matched by the address they
      claim, not by who sent them. */
  predicate UnverifiedClaim(responses: seq<BlsTaskResponse>, signing: set<Address>, op: Operator) {
    op.publicKey !in signing && FirstClaim(responses, op.publicKey).Some?
  }

  /** The G1 key of the first response claiming the operator's address. */
  function ClaimedG1(responses: seq<BlsTaskResponse>, op: Operator): G1Point {
    match FirstClaim(responses, op.publicKey)
    case Some(r) => r.blsPubkey.g1
    case None => G1Point(0, 0)
  }

  function IsUnverifiedClaim(responses: seq<BlsTaskResponse>, signing: set<Address>): Operator -> bool {
    op => UnverifiedClaim(responses, signing, op)
  }

  function ClaimedG1Of(responses: seq<BlsTaskResponse>): Operator -> G1Point {
    op => ClaimedG1(responses, op)
  }

  /** The non-signer list (the `filter_map` over the registered operators):
      for each operator, in iteration order, whose address some parsed
      response claims and no verified response does, the G1 key from the
      first parsed response claiming that address. So an operator that never
      answered is listed when another reply claims its address without
      verifying, and an operator whose own reply fails is left out when a
      verified reply claims its address. */
  function NonSigners(order: seq<Operator>, responses: seq<BlsTaskResponse>, signing: set<Address>): (r: seq<G1Point>)
    ensures |r| <= |order|
  {
    if |order| == 0 then []
    else
      var init := NonSigners(order[..|order| - 1], responses, signing);
      var op := order[|order| - 1];
      if UnverifiedClaim(responses, signing, op) then init + [ClaimedG1(responses, op)] else init
  }

  /** The non-signer list is the claimed G1 key of each registered
      operator whose address is claimed but not verified, kept in the
      operators' iteration order. */
  lemma {:induction false} NonSignersAsFilterMap(order: seq<Operator>, responses: seq<BlsTaskResponse>, signing: set<Address>)
    ensures NonSigners(order, responses, signing)
         == Map(ClaimedG1Of(responses), Filter(IsUnverifiedClaim(responses, signing), order))
    decreases |order|
  {
    if |order| > 0 {
      var init := order[..|order| - 1];
      var op := order[|order| - 1];
      NonSignersAsFilterMap(init, responses, signing);
      assert order == init + [op];
      FilterSnoc(IsUnverifiedClaim(responses, signing), init, op);
      MapSnoc(ClaimedG1Of(responses), Filter(IsUnverifiedClaim(responses, signing), init), op);
    }
  }

  /** Every entry of the non-signer list is the claimed key of a registered
      operator whose address some parsed response claims and no verified
      response does. */
  lemma NonSignerEntry(order: seq<Operator>, responses: seq<BlsTaskResponse>, signing: set<Address>, i: nat)
    requires i < |NonSigners(order, responses, signing)|
    ensures exists op :: op in order && UnverifiedClaim(responses, signing, op)
                         && NonSigners(order, responses, signing)[i] == ClaimedG1(responses, op)
  {
    NonSignersAsFilterMap(order, responses, signing);
    var f := Filter(IsUnverifiedClaim(responses, signing), order);
    var op := f[i];
    assert op in order && UnverifiedClaim(responses, signing, op);
    assert NonSigners(order, responses, signing)[i] == ClaimedG1(responses, op);
  }

  /** Every registered operator whose address some parsed response claims
      and no verified response does has its claimed key listed. */
  lemma NonSignerListed(order: seq<Operator>, responses: seq<BlsTaskResponse>, signing: set<Address>)
    ensures forall op :: op in order && UnverifiedClaim(responses, signing, op) ==>
      ClaimedG1(responses, op) in NonSigners(order, responses, signing)
  {
    NonSignersAsFilterMap(order, responses, signing);
    var ns := NonSigners(order, responses, signing);
    var p, g := IsUnverifiedClaim(responses, signing), ClaimedG1Of(responses);
    var f := Filter(p, order);
    assert ns == Map(g, f);
    forall op | op in order && UnverifiedClaim(responses, signing, op)
      ensures ClaimedG1(responses, op) in ns
    {
      assert p(op);
      assert op in f;
      var j :| 0 <= j < |f| && f[j] == op;
      assert ns[j] == g(op);
    }
  }

  /** `send_task_to_all_operators_and_aggregate`, after the requests:
      `operators` is the registered snapshot, `order` its iteration order,
      `responses` the parsed replies in arrival order and `keyOrder` the
      iteration order of the answer map. */
  function AggregateRound(
    o: BlsOracles,
    operators: set<Operator>,
    order: seq<Operator>,
    responses: seq<BlsTaskResponse>,
    keyOrder: seq<U256>
  ): (r: Result<BlsDecision, TaskError>)
    requires IsEnumeration(order, operators)
    requires IsEnumeration(keyOrder, Voted(Verified(o, responses)))
    ensures r == Err(TaskVerificationFailed) <==> |Verified(o, responses)| == 0
    ensures r == Err(MajorityNotReached)
        <==> |Verified(o, responses)| > 0
             && forall k :: k in Voted(Verified(o, responses)) ==> Count(Verified(o, responses), k) <= |operators| / 2
    ensures r.Ok? || r == Err(TaskVerificationFailed) || r == Err(MajorityNotReached)
    ensures r.Ok? ==>
      var v := Verified(o, responses);
      var d := r.value;
      && d.response in Voted(v)
      && (forall k :: k in Voted(v) ==> Count(v, k) <= Count(v, d.response))
      && Count(v, d.response) > |operators| / 2
      && Reduce(o.addG1, SignaturesFor(v, d.response)) == Some(d.aggSignature)
      && Reduce(o.addG2, G2Keys(v)) == Some(d.aggPubkey)
      && d.nonSigners == NonSigners(order, responses, SigningKeys(v))
  {
    var verified := Verified(o, responses);
    var nonSigners := NonSigners(order, responses, SigningKeys(verified));
    var group := Group(verified);
    WinnerFacts(verified, keyOrder);
    match MaxByKey(keyOrder, GroupSize(group))
    case None => Err(TaskVerificationFailed)
    case Some(value) =>
      var signatures := group[value];
      if |signatures| <= |operators| / 2 then
        Err(MajorityNotReached)
      else
        match (Reduce(o.addG1, signatures), Reduce(o.addG2, G2Keys(verified)))
        case (Some(aggSignature), Some(aggPubkey)) =>
          Ok(BlsDecision(value, nonSigners, aggPubkey, aggSignature))
        case _ => Err(TaskVerificationFailed)
  }

  /** `max_by_key` over the answer map finds an answer exactly when some
      response verified, and the answer it finds has a maximal count. */
  lemma WinnerFacts(verified: seq<BlsTaskResponse>, keyOrder: seq<U256>)
    requires IsEnumeration(keyOrder, Voted(verified))
    ensures MaxByKey(keyOrder, GroupSize(Group(verified))).None? <==> |verified| == 0
    ensures MaxByKey(keyOrder, GroupSize(Group(verified))).Some? ==>
      var w := MaxByKey(keyOrder, GroupSize(Group(verified))).value;
      && w in Voted(verified)
      && Group(verified)[w] == SignaturesFor(verified, w)
      && Count(verified, w) > 0
      && forall k :: k in Voted(verified) ==> Count(verified, k) <= Count(verified, w)
  {
    var group := Group(verified);
    var best := MaxByKey(keyOrder, GroupSize(group));
    if |verified| > 0 {
      assert AnswerOf(verified[0]) in Voted(verified);
    }
    if best.Some? {
      var w := best.value;
      CountPositive(verified, w);
      forall k | k in Voted(verified)
        ensures Count(verified, k) <= Count(verified, w)
      {
        var i :| 0 <= i < |keyOrder| && keyOrder[i] == k;
        assert GroupSize(group)(keyOrder[i]) <= GroupSize(group)(w);
      }
    }
  }

  /** The round does not depend on the order in which responses arrived:
      a permutation of the responses succeeds exactly when the original
      does, and an accepted answer gets the same aggregates. */
  lemma RoundPermutation(
    o: BlsOracles, operators: set<Operator>, order: seq<Operator>,
    xs: seq<BlsTaskResponse>, ys: seq<BlsTaskResponse>, ko1: seq<U256>, ko2: seq<U256>)
    requires LawfulAddition(o)
    requires IsEnumeration(order, operators)
    requires IsEnumeration(ko1, Voted(Verified(o, xs)))
    requires IsEnumeration(ko2, Voted(Verified(o, ys)))
    requires multiset(xs) == multiset(ys)
    ensures AggregateRound(o, operators, order, xs, ko1).Ok? <==> AggregateRound(o, operators, order, ys, ko2).Ok?
    ensures
      var r1, r2 := AggregateRound(o, operators, order, xs, ko1), AggregateRound(o, operators, order, ys, ko2);
      r1.Ok? && r2.Ok? && r1.value.response == r2.value.response ==>
        r1.value.aggSignature == r2.value.aggSignature && r1.value.aggPubkey == r2.value.aggPubkey
    ensures
      var r1, r2 := AggregateRound(o, operators, order, xs, ko1), AggregateRound(o, operators, order, ys, ko2);
      DistinctClaims(xs) && r1.Ok? && r2.Ok? ==> r1.value.nonSigners == r2.value.nonSigners
  {
    var v1, v2 := Verified(o, xs), Verified(o, ys);
    PermutedVerified(o, xs, ys);
    if DistinctClaims(xs) {
      PermutedNonSigners(o, order, xs, ys);
    }
    var r1, r2 := AggregateRound(o, operators, order, xs, ko1), AggregateRound(o, operators, order, ys, ko2);
    if r1.Ok? && r2.Ok? && r1.value.response == r2.value.response {
      var w := r1.value.response;
      ReducePermutation(o.addG1, SignaturesFor(v1, w), SignaturesFor(v2, w));
    }
  }

  /** No two responses claim the same operator address. */
  predicate DistinctClaims(responses: seq<BlsTaskResponse>) {
    forall i, j :: 0 <= i < j < |responses| ==> responses[i].publicKey != responses[j].publicKey
  }

  /** When no two responses claim the same address, the non-signer list does
      not depend on the order the responses arrived in. */
  lemma PermutedNonSigners(o: BlsOracles, order: seq<Operator>, xs: seq<BlsTaskResponse>, ys: seq<BlsTaskResponse>)
    requires DistinctClaims(xs)
    requires multiset(xs) == multiset(ys)
    ensures SigningKeys(Verified(o, xs)) == SigningKeys(Verified(o, ys))
    ensures NonSigners(order, xs, SigningKeys(Verified(o, xs))) == NonSigners(order, ys, SigningKeys(Verified(o, ys)))
  {
    var v1, v2 := Verified(o, xs), Verified(o, ys);
    FilterPermutation(IsVerified(o), xs, ys);
    forall a | a in SigningKeys(v1) ensures a in SigningKeys(v2) {
      var x :| x in v1 && x.publicKey == a;
      assert x in multiset(v2);
    }
    forall a | a in SigningKeys(v2) ensures a in SigningKeys(v1) {
      var x :| x in v2 && x.publicKey == a;
      assert x in multiset(v1);
    }
    forall op | op in order
      ensures FirstClaim(xs, op.publicKey) == FirstClaim(ys, op.publicKey)
    {
      PermutedFirstClaim(xs, ys, op.publicKey);
    }
    SameClaimsSameNonSigners(order, xs, ys, SigningKeys(v1));
  }

  /** With distinct claims, the response claiming an address is the same
      whatever order the responses are in. */
  lemma PermutedFirstClaim(xs: seq<BlsTaskResponse>, ys: seq<BlsTaskResponse>, key: Address)
    requires DistinctClaims(xs)
    requires multiset(xs) == multiset(ys)
    ensures FirstClaim(xs, key) == FirstClaim(ys, key)
  {
    var a, b := FirstClaim(xs, key), FirstClaim(ys, key);
    if a.Some? {
      assert a.value in multiset(ys);
      var j :| 0 <= j < |ys| && ys[j] == a.value;
      assert b.Some?;
      assert b.value in multiset(xs);
      var p :| 0 <= p < |xs| && xs[p] == a.value;
      var q :| 0 <= q < |xs| && xs[q] == b.value;
      assert p == q;
    }
  }

  /** The non-signer list reads the responses only through each operator's
      claim. */
  lemma {:induction false} SameClaimsSameNonSigners(order: seq<Operator>, xs: seq<BlsTaskResponse>, ys: seq<BlsTaskResponse>, signing: set<Address>)
    requires forall op :: op in order ==> FirstClaim(xs, op.publicKey) == FirstClaim(ys, op.publicKey)
    ensures NonSigners(order, xs, signing) == NonSigners(order, ys, signing)
    decreases |order|
  {
    if |order| > 0 {
      var init := order[..|order| - 1];
      assert forall op :: op in init ==> op in order;
      SameClaimsSameNonSigners(init, xs, ys, signing);
    }
  }

  /** Two responses that claim the same address with different G1 keys make
      the non-signer list depend on their arrival order: the first claim is
      the one reported. */
  lemma NonSignersOrderDependent()
    ensures
      var g2 := G2Point(Fq2(0, 0), Fq2(0, 0));
      var c := CompletedTask(0, 0, 0);
      var r1 := BlsTaskResponse(c, 7, BlsPublicKey(G1Point(1, 1), g2), G1Point(0, 0));
      var r2 := BlsTaskResponse(c, 7, BlsPublicKey(G1Point(2, 2), g2), G1Point(0, 0));
      var op := Operator(7, "");
      && multiset([r1, r2]) == multiset([r2, r1])
      && NonSigners([op], [r1, r2], {}) == [G1Point(1, 1)]
      && NonSigners([op], [r2, r1], {}) == [G1Point(2, 2)]
  {
    var g2 := G2Point(Fq2(0, 0), Fq2(0, 0));
    var c := CompletedTask(0, 0, 0);
    var r1 := BlsTaskResponse(c, 7, BlsPublicKey(G1Point(1, 1), g2), G1Point(0, 0));
    var r2 := BlsTaskResponse(c, 7, BlsPublicKey(G1Point(2, 2), g2), G1Point(0, 0));
    var op := Operator(7, "");
    assert [op][..0] == [];
    assert FirstClaim([r1, r2], 7) == Some(r1);
    assert FirstClaim([r2, r1], 7) == Some(r2);
  }

  /** Some operator's reply claims the address `key`. */
  predicate ReplyClaims(order: seq<Operator>, reply: Operator -> Option<BlsTaskResponse>, key: Address) {
    exists i :: 0 <= i < |order| && reply(order[i]).Some? && reply(order[i]).value.publicKey == key
  }

  /** The operator's own reply verifies under its own address. */
  predicate SignsOwnReply(o: BlsOracles, reply: Operator -> Option<BlsTaskResponse>, op: Operator) {
    reply(op).Some? && VerifyMessage(o, reply(op).value) && reply(op).value.publicKey == op.publicKey
  }

  /** Every listed key is the claimed G1 key of an operator whose address
      some reply claims and no verified response does. */
  predicate ClaimedNonSigners(order: seq<Operator>, reply: Operator -> Option<BlsTaskResponse>,
                              responses: seq<BlsTaskResponse>, signing: set<Address>, ns: seq<G1Point>) {
    forall g :: g in ns ==>
      exists op :: op in order && g == ClaimedG1(responses, op) && ReplyClaims(order, reply, op.publicKey)
                   && op.publicKey !in signing
  }

  /** The Rust round over the replies its request loop collected. With no
      reply that verifies there is nothing to aggregate; an operator whose
      own reply verifies under its own address is never reported as a
      non-signer; and every reported non-signer is an operator whose address
      some collected reply claims and no verified reply does. */
  lemma CollectedRound(
    o: BlsOracles, operators: set<Operator>, order: seq<Operator>,
    reply: Operator -> Option<BlsTaskResponse>, keyOrder: seq<U256>)
    requires IsEnumeration(order, operators)
    requires IsEnumeration(keyOrder, Voted(Verified(o, Replies(Collect(order, reply)))))
    ensures
      var responses := Replies(Collect(order, reply));
      var r := AggregateRound(o, operators, order, responses, keyOrder);
      && ((forall i :: 0 <= i < |order| ==> reply(order[i]).None? || !VerifyMessage(o, reply(order[i]).value))
          ==> r == Err(TaskVerificationFailed))
      && (forall op :: op in order && SignsOwnReply(o, reply, op) ==>
            !UnverifiedClaim(responses, SigningKeys(Verified(o, responses)), op))
      && (r.Ok? ==> ClaimedNonSigners(order, reply, responses, SigningKeys(Verified(o, responses)), r.value.nonSigners))
  {
    var responses := Replies(Collect(order, reply));
    var r := AggregateRound(o, operators, order, responses, keyOrder);
    CollectedNothingVerified(o, order, reply);
    assert (forall i :: 0 <= i < |order| ==> reply(order[i]).None? || !VerifyMessage(o, reply(order[i]).value))
          ==> r == Err(TaskVerificationFailed);
    CollectedSignersListed(o, order, reply);
    if r.Ok? {
      CollectedNonSigners(o, order, reply);
    }
  }

  lemma CollectedNothingVerified(o: BlsOracles, order: seq<Operator>, reply: Operator -> Option<BlsTaskResponse>)
    ensures (forall i :: 0 <= i < |order| ==> reply(order[i]).None? || !VerifyMessage(o, reply(order[i]).value))
            ==> |Verified(o, Replies(Collect(order, reply)))| == 0
  {
    var v := Verified(o, Replies(Collect(order, reply)));
    CollectedReplies(order, reply);
    if |v| > 0 {
      assert v[0] in v;
    }
  }

  lemma CollectedSignersListed(o: BlsOracles, order: seq<Operator>, reply: Operator -> Option<BlsTaskResponse>)
    ensures var responses := Replies(Collect(order, reply));
      forall op :: op in order && SignsOwnReply(o, reply, op) ==>
        !UnverifiedClaim(responses, SigningKeys(Verified(o, responses)), op)
  {
    var responses := Replies(Collect(order, reply));
    forall op | op in order && SignsOwnReply(o, reply, op)
      ensures !UnverifiedClaim(responses, SigningKeys(Verified(o, responses)), op)
    {
      CollectedReplies(order, reply);
      var i :| 0 <= i < |order| && order[i] == op;
      assert reply(op).value in responses;
      VerifiedResponderSigns(o, responses, reply(op).value, op);
    }
  }

  lemma CollectedNonSigners(o: BlsOracles, order: seq<Operator>, reply: Operator -> Option<BlsTaskResponse>)
    ensures var responses := Replies(Collect(order, reply));
      var signing := SigningKeys(Verified(o, responses));
      ClaimedNonSigners(order, reply, responses, signing, NonSigners(order, responses, signing))
  {
    var responses := Replies(Collect(order, reply));
    var signing := SigningKeys(Verified(o, responses));
    var ns := NonSigners(order, responses, signing);
    forall g | g in ns
      ensures exists op :: op in order && g == ClaimedG1(responses, op) && ReplyClaims(order, reply, op.publicKey)
                           && op.publicKey !in signing
    {
      var k :| 0 <= k < |ns| && ns[k] == g;
      NonSignerEntry(order, responses, signing, k);
      var op :| op in order && UnverifiedClaim(responses, signing, op) && ns[k] == ClaimedG1(responses, op);
      var claim := FirstClaim(responses, op.publicKey).value;
      CollectedReplies(order, reply);
      var i :| 0 <= i < |order| && reply(order[i]) == Some(claim);
      assert ReplyClaims(order, reply, op.publicKey);
    }
  }

  /** What permuting the responses leaves alone: how many verify, which
      answers they voted for, each answer's signatures up to order, and the
      aggregate of the G2 keys. */
  lemma PermutedVerified(o: BlsOracles, xs: seq<BlsTaskResponse>, ys: seq<BlsTaskResponse>)
    requires LawfulAddition(o)
    requires multiset(xs) == multiset(ys)
    ensures |Verified(o, xs)| == |Verified(o, ys)|
    ensures Voted(Verified(o, xs)) == Voted(Verified(o, ys))
    ensures forall k :: multiset(SignaturesFor(Verified(o, xs), k)) == multiset(SignaturesFor(Verified(o, ys), k))
    ensures forall k :: Count(Verified(o, xs), k) == Count(Verified(o, ys), k)
    ensures Reduce(o.addG2, G2Keys(Verified(o, xs))) == Reduce(o.addG2, G2Keys(Verified(o, ys)))
  {
    var v1, v2 := Verified(o, xs), Verified(o, ys);
    FilterPermutation(IsVerified(o), xs, ys);
    assert |v1| == |v2| by {
      assert |multiset(v1)| == |multiset(v2)|;
    }
    forall k
      ensures k in Voted(v1) <==> k in Voted(v2)
    {
      if k in Voted(v1) {
        var r :| r in v1 && AnswerOf(r) == k;
        assert r in multiset(v2);
      }
      if k in Voted(v2) {
        var r :| r in v2 && AnswerOf(r) == k;
        assert r in multiset(v1);
      }
    }
    forall k
      ensures multiset(SignaturesFor(v1, k)) == multiset(SignaturesFor(v2, k))
      ensures Count(v1, k) == Count(v2, k)
    {
      FilterPermutation(VotesFor(k), v1, v2);
      MapPermutation(SignatureOf, Filter(VotesFor(k), v1), Filter(VotesFor(k), v2));
      assert |multiset(SignaturesFor(v1, k))| == |multiset(SignaturesFor(v2, k))|;
    }
    MapPermutation(G2Of, v1, v2);
    ReducePermutation(o.addG2, G2Keys(v1), G2Keys(v2));
  }

  /** When every response verifies and answers `v`, and there are more of
      them than half the registered operators, the round accepts `v`,
      aggregates every signature and reports no non-signer. */
  lemma UnanimousQuorum(
    o: BlsOracles, operators: set<Operator>, order: seq<Operator>,
    responses: seq<BlsTaskResponse>, keyOrder: seq<U256>, v: U256)
    requires IsEnumeration(order, operators)
    requires IsEnumeration(keyOrder, Voted(Verified(o, responses)))
    requires forall i :: 0 <= i < |responses| ==> VerifyMessage(o, responses[i]) && AnswerOf(responses[i]) == v
    requires |responses| > |operators| / 2
    ensures AggregateRound(o, operators, order, responses, keyOrder).Ok?
    ensures
      var d := AggregateRound(o, operators, order, responses, keyOrder).value;
      && d.response == v
      && d.nonSigners == []
      && Reduce(o.addG1, Map(SignatureOf, responses)) == Some(d.aggSignature)
      && Reduce(o.addG2, Map(G2Of, responses)) == Some(d.aggPubkey)
  {
    FilterAll(IsVerified(o), responses);
    FilterAll(VotesFor(v), responses);
    assert Verified(o, responses) == responses;
    assert responses[0] in responses;
    assert Voted(responses) == {v};
    EveryResponderSigns(order, responses);
  }

  /** When every parsed response is a verified signer, nobody is a
      non-signer. */
  lemma EveryResponderSigns(order: seq<Operator>, responses: seq<BlsTaskResponse>)
    ensures NonSigners(order, responses, SigningKeys(responses)) == []
  {
    var signing := SigningKeys(responses);
    NonSignersAsFilterMap(order, responses, signing);
    forall i | 0 <= i < |order|
      ensures !IsUnverifiedClaim(responses, signing)(order[i])
    {
      var claim := FirstClaim(responses, order[i].publicKey);
      if claim.Some? {
        assert claim.value in responses;
      }
    }
    FilterNone(IsUnverifiedClaim(responses, signing), order);
  }

  /** A verified response that voted for a losing answer still has its G2
      key aggregated, and its address counts as signing, so no registered
      operator with that address is a non-signer. */
  lemma LosingVoterCountsAsSigner(
    o: BlsOracles, operators: set<Operator>, order: seq<Operator>,
    responses: seq<BlsTaskResponse>, keyOrder: seq<U256>, r: BlsTaskResponse, op: Operator)
    requires IsEnumeration(order, operators)
    requires IsEnumeration(keyOrder, Voted(Verified(o, responses)))
    requires AggregateRound(o, operators, order, responses, keyOrder).Ok?
    requires r in responses && VerifyMessage(o, r)
    requires AnswerOf(r) != AggregateRound(o, operators, order, responses, keyOrder).value.response
    requires op.publicKey == r.publicKey
    ensures G2Of(r) in G2Keys(Verified(o, responses))
    ensures !UnverifiedClaim(responses, SigningKeys(Verified(o, responses)), op)
  {
    VerifiedResponderSigns(o, responses, r, op);
  }

  lemma VerifiedResponderSigns(o: BlsOracles, responses: seq<BlsTaskResponse>, r: BlsTaskResponse, op: Operator)
    requires r in responses && VerifyMessage(o, r)
    requires op.publicKey == r.publicKey
    ensures G2Of(r) in G2Keys(Verified(o, responses))
    ensures !UnverifiedClaim(responses, SigningKeys(Verified(o, responses)), op)
  {
    var v := Verified(o, responses);
    assert r in v;
    var i :| 0 <= i < |v| && v[i] == r;
    assert G2Keys(v)[i] == G2Of(r);
  }
}
