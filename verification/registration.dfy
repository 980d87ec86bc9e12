/** The Rust operator's registration service, in both variants: first a
    loop that retries until the operator is registered with the DSS on
    chain, then a heartbeat that asks the aggregator whether it knows the
    operator and registers it when it does not. Chain calls, HTTP requests
    and the BLS signer are oracles whose outcomes are inputs. */
module Registration {
  import opened Wrappers
  import opened Tasks
  import opened Points
  import Registry

  /** The fixed configuration of a registration service. */
  datatype Service = Service(operatorAddress: Address, domainUrl: Url, dssAddress: Address)

  /** The JSON body of both aggregator requests. */
  datatype AddressPayload = AddressPayload(publicKey: Address, url: Url)

  /** The body `is_registered_with_aggregator` posts. */
  function QueryPayload(s: Service): (p: AddressPayload)
    ensures p.publicKey == s.operatorAddress && p.url == s.domainUrl
  {
    AddressPayload(s.operatorAddress, s.domainUrl)
  }

  /** The body `register_operator_with_aggregator` posts. */
  function RegisterPayload(s: Service): (p: AddressPayload)
    ensures p.publicKey == s.operatorAddress && p.url == s.domainUrl
  {
    AddressPayload(s.operatorAddress, s.domainUrl)
  }

  // ---------------------------------------------------------------------
  // The on-chain phase
  // ---------------------------------------------------------------------

  /** One pass of the on-chain loop: the answer of `is_registered_in_dss`
      and the outcome `register_in_dss` would have, were it called. */
  datatype Attempt<Receipt> = Attempt(check: Result<bool, Failure>, register: Result<Receipt, Failure>)

  /** What one pass did: whether it sent a registration and whether the
      loop left after it. */
  datatype Pass = Pass(sent: bool, exits: bool)

  /** The body of the on-chain loop. */
  function OnChainPass<Receipt>(a: Attempt<Receipt>): (p: Pass)
    ensures p.sent <==> a.check == Ok(false)
    ensures p.exits <==> a.check == Ok(true) || (a.check == Ok(false) && a.register.Ok?)
  {
    match a.check
    case Err(_) => Pass(false, false)
    case Ok(registered) =>
      if registered then Pass(false, true) else Pass(true, a.register.Ok?)
  }

  /** The on-chain loop run over a sequence of passes: the index of the pass
      after which it leaves, or `None` when it is still retrying after all
      of them. */
  function OnChainPhase<Receipt>(attempts: seq<Attempt<Receipt>>): (r: Option<nat>)
    ensures r.Some? ==> r.value < |attempts| && OnChainPass(attempts[r.value]).exits
    ensures r.Some? ==> forall j :: 0 <= j < r.value ==> !OnChainPass(attempts[j]).exits
    ensures r.None? <==> forall j :: 0 <= j < |attempts| ==> !OnChainPass(attempts[j]).exits
  {
    if |attempts| == 0 then None
    else if OnChainPass(attempts[0]).exits then Some(0)
    else
      match OnChainPhase(attempts[1..])
      case None => None
      case Some(i) => Some(i + 1)
  }

  /** The passes the loop actually makes: those up to and including the one
      it leaves after. */
  function PassesMade<Receipt>(attempts: seq<Attempt<Receipt>>): (made: seq<Attempt<Receipt>>)
    ensures |made| <= |attempts|
    ensures made == attempts[..|made|]
  {
    match OnChainPhase(attempts)
    case None => attempts
    case Some(i) => attempts[..i + 1]
  }

  /** The registration transactions among some passes that got a receipt. */
  function Receipts<Receipt>(made: seq<Attempt<Receipt>>): nat {
    if |made| == 0 then 0
    else (if made[0].check == Ok(false) && made[0].register.Ok? then 1 else 0) + Receipts(made[1..])
  }

  /** The loop never gets a second receipt: it leaves after the first. */
  lemma {:induction false} AtMostOneReceipt<Receipt>(attempts: seq<Attempt<Receipt>>)
    ensures Receipts(PassesMade(attempts)) <= 1
    ensures Receipts(PassesMade(attempts)) == 1 ==> OnChainPhase(attempts).Some?
  {
    match OnChainPhase(attempts)
    case None =>
      NoExitNoReceipt(attempts);
    case Some(i) =>
      NoExitNoReceipt(attempts[..i]);
      ReceiptsSnoc(attempts[..i], attempts[i]);
      assert attempts[..i + 1] == attempts[..i] + [attempts[i]];
  }

  /** Passes that do not leave the loop get no receipt. */
  lemma {:induction false} NoExitNoReceipt<Receipt>(made: seq<Attempt<Receipt>>)
    requires forall j :: 0 <= j < |made| ==> !OnChainPass(made[j]).exits
    ensures Receipts(made) == 0
  {
    if |made| > 0 {
      assert !OnChainPass(made[0]).exits;
      NoExitNoReceipt(made[1..]);
    }
  }

  lemma {:induction false} ReceiptsSnoc<Receipt>(made: seq<Attempt<Receipt>>, a: Attempt<Receipt>)
    ensures Receipts(made + [a]) == Receipts(made) + (if a.check == Ok(false) && a.register.Ok? then 1 else 0)
  {
    if |made| == 0 {
      assert made + [a] == [a];
    } else {
      assert (made + [a])[1..] == made[1..] + [a];
      ReceiptsSnoc(made[1..], a);
    }
  }

  /** An operator the chain already knows leaves at the first pass without
      sending anything. */
  lemma AlreadyRegisteredSendsNothing<Receipt>(attempts: seq<Attempt<Receipt>>)
    requires |attempts| > 0 && attempts[0].check == Ok(true)
    ensures OnChainPhase(attempts) == Some(0)
    ensures Receipts(PassesMade(attempts)) == 0
  {
    assert PassesMade(attempts) == [attempts[0]];
  }

  /** Errors never end the loop: while every check or registration fails,
      it keeps retrying. */
  lemma ErrorsRetry<Receipt>(attempts: seq<Attempt<Receipt>>)
    requires forall j :: 0 <= j < |attempts| ==>
      attempts[j].check.Err? || (attempts[j].check == Ok(false) && attempts[j].register.Err?)
    ensures OnChainPhase(attempts).None?
  {
    forall j | 0 <= j < |attempts|
      ensures !OnChainPass(attempts[j]).exits
    {
    }
  }

  /** The stake-variant `register_in_dss`: `registerOperatorToDSS` on the
      core contract, naming this DSS and passing the literal `"0x"` as data. */
  datatype CoreCall = RegisterOperatorToDss(dss: Address, data: string)

  function StakeRegistrationCall(s: Service): (c: CoreCall)
    ensures c.dss == s.dssAddress && c.data == "0x"
  {
    RegisterOperatorToDss(s.dssAddress, "0x")
  }

  /** The 32-byte registration message hash the DSS contract publishes. */
  type Hash32 = h: seq<bv8> | |h| == 32 witness seq(32, i => 0 as bv8)

  /** A BLS keypair: its secret and its public keys in both groups. */
  datatype BlsKeypair = BlsKeypair(secret: nat, g1: G1Point, g2: G2Point)

  /** The record `register_operator_to_dss_with_bls` submits. */
  datatype BlsRegistration = BlsRegistration(g1Pubkey: G1Point, g2Pubkey: G2Point, signature: G1Point, msgHash: Hash32)

  /** How the BLS `register_in_dss` went: the hash read panics on failure,
      the signer can fail, and otherwise the record is submitted. */
  datatype BlsSubmission<Receipt> =
    | HashUnavailable
    | SigningFailed(error: Failure)
    | Submitted(record: BlsRegistration, outcome: Result<Receipt, Failure>)

  /** The BLS-variant `register_in_dss` and `sign`; `msgHash` is the read of
      `REGISTRATION_MESSAGE_HASH`. */
  function RegisterInDssBls<Receipt>(kp: BlsKeypair, msgHash: Option<Hash32>,
                                     sign: (BlsKeypair, Hash32) -> Result<G1Point, Failure>,
                                     submit: BlsRegistration -> Result<Receipt, Failure>): (r: BlsSubmission<Receipt>)
    ensures r.HashUnavailable? <==> msgHash.None?
    ensures r.SigningFailed? <==> msgHash.Some? && sign(kp, msgHash.value).Err?
    ensures r.Submitted? ==>
      && r.record.g1Pubkey == kp.g1 && r.record.g2Pubkey == kp.g2
      && r.record.msgHash == msgHash.value
      && sign(kp, msgHash.value) == Ok(r.record.signature)
      && r.outcome == submit(r.record)
  {
    match msgHash
    case None => HashUnavailable
    case Some(hash) =>
      match sign(kp, hash)
      case Err(e) => SigningFailed(e)
      case Ok(signature) =>
        var record := BlsRegistration(kp.g1, kp.g2, signature, hash);
        Submitted(record, submit(record))
  }

  /** BLS signing under a keypair verifies against its G2 key. */
  ghost predicate SignVerifyInverse(sign: (BlsKeypair, Hash32) -> Result<G1Point, Failure>,
                                    verify: (G2Point, G1Point, Hash32) -> bool) {
    forall kp, h, sig :: sign(kp, h) == Ok(sig) ==> verify(kp.g2, sig, h)
  }

  /** The submitted record proves possession of the key it registers: its
      signature verifies over its own hash against its own G2 key. */
  lemma SubmittedRecordVerifies<Receipt>(kp: BlsKeypair, msgHash: Option<Hash32>,
                                         sign: (BlsKeypair, Hash32) -> Result<G1Point, Failure>,
                                         submit: BlsRegistration -> Result<Receipt, Failure>,
                                         verify: (G2Point, G1Point, Hash32) -> bool)
    requires SignVerifyInverse(sign, verify)
    requires RegisterInDssBls(kp, msgHash, sign, submit).Submitted?
    ensures var rec := RegisterInDssBls(kp, msgHash, sign, submit).record;
      verify(rec.g2Pubkey, rec.signature, rec.msgHash)
  {
  }

  // ---------------------------------------------------------------------
  // The heartbeat
  // ---------------------------------------------------------------------

  /** `is_registered_with_aggregator`: the url join, then the request, whose
      reply is `None` when the body is not a JSON boolean. */
  function IsRegisteredWithAggregator(url: Result<Url, Failure>, reply: Result<Option<bool>, Failure>): (r: Result<bool, Failure>)
    ensures r.Ok? <==> url.Ok? && reply.Ok? && reply.value.Some?
    ensures r.Ok? ==> r.value == reply.value.value
  {
    var _ :- url;
    var body :- reply;
    match body
    case None => Err(HttpFailure)
    case Some(b) => Ok(b)
  }

  /** `register_operator_with_aggregator`: `send` yields the HTTP status,
      which is never looked at. */
  function RegisterWithAggregator(url: Result<Url, Failure>, send: Result<nat, Failure>): (r: Result<(), Failure>)
    ensures r.Ok? <==> url.Ok? && send.Ok?
  {
    var _ :- url;
    var _ :- send;
    Ok(())
  }

  /** Any status the aggregator answers with, an error status included,
      counts as a successful registration. */
  lemma StatusIgnored(url: Url, status: nat)
    ensures RegisterWithAggregator(Ok(url), Ok(status)).Ok?
  {
  }

  /** What one heartbeat did: whether it sent a registration, and its result. */
  datatype Beat = Beat(sent: bool, result: Result<(), Failure>)

  /** `heartbeat_check`. */
  function HeartbeatCheck(query: Result<bool, Failure>, register: Result<(), Failure>): (b: Beat)
    ensures b.sent <==> query == Ok(false)
    ensures b.result.Err? <==> query.Err? || (query == Ok(false) && register.Err?)
  {
    match query
    case Err(e) => Beat(false, Err(e))
    case Ok(known) =>
      if known then Beat(false, Ok(())) else Beat(true, register)
  }

  /** The heartbeat loop up to shutdown: a failed beat is only logged, so
      every tick runs a beat whatever the earlier beats returned. */
  function HeartbeatLoop(ticks: seq<(Result<bool, Failure>, Result<(), Failure>)>): (beats: seq<Beat>)
    ensures |beats| == |ticks|
    ensures forall i :: 0 <= i < |ticks| ==> beats[i] == HeartbeatCheck(ticks[i].0, ticks[i].1)
  {
    if |ticks| == 0 then []
    else [HeartbeatCheck(ticks[0].0, ticks[0].1)] + HeartbeatLoop(ticks[1..])
  }

  /** The aggregator's view of a payload. */
  function AsOperator(p: AddressPayload): Registry.Operator {
    Registry.Operator(p.publicKey, p.url)
  }

  /** One heartbeat against a reachable Rust aggregator holding `ops`: the
      aggregator's registry afterwards and the beat. */
  function TickAgainst(s: Service, ops: set<Registry.Operator>): (r: (set<Registry.Operator>, Beat))
    ensures r.0 >= ops
  {
    var (after, known) := Registry.IsRegisteredHandler(ops, AsOperator(QueryPayload(s)));
    if known then (after, HeartbeatCheck(Ok(true), Ok(())))
    else (Registry.RegisterHandler(after, AsOperator(RegisterPayload(s))).0, HeartbeatCheck(Ok(false), Ok(())))
  }

  /** Because the query and the registration carry the same payload, one
      heartbeat against a reachable aggregator leaves the operator known to
      it, and the next heartbeat sends nothing and changes nothing. */
  lemma HeartbeatConverges(s: Service, ops: set<Registry.Operator>)
    ensures Registry.IsOperatorRegistered(TickAgainst(s, ops).0, AsOperator(QueryPayload(s)))
    ensures TickAgainst(s, ops).1.result.Ok?
    ensures TickAgainst(s, TickAgainst(s, ops).0).0 == TickAgainst(s, ops).0
    ensures !TickAgainst(s, TickAgainst(s, ops).0).1.sent
  {
    assert RegisterPayload(s) == QueryPayload(s);
  }
}
