/** The operator's task handler: square a task's value, stamp it with the
    completion time and sign the serialised completed task with the
    operator's wallet. Signing and the wallet's address are oracles, as are
    the clock and serialisation. */
module OperatorTask {
  import opened Wrappers
  import opened Tasks
  import opened Folds
  import opened Stake
  import opened StakeAggregation

  /** The operator's own error kinds that the handler can meet. */
  datatype OperatorError = SigningError

  /** The HTTP layer's error, wrapping whatever the handler failed with. */
  datatype AppError = AppError(cause: OperatorError)

  /** The wallet, by its private key. */
  datatype Signer = Signer(
    /** The address of the key's account. */
    address: nat -> Address,
    /** `sign_message`; `None` when the signer fails. */
    signMessage: (nat, Message) -> Option<Signature>)

  /** `task_computation`. */
  function TaskComputation(v: U256): (r: U256)
    requires v * v < TWO_256
  {
    v * v
  }

  /** Different task values get different answers, so an answer tells which
      value was squared. */
  lemma ComputationInjective(a: U256, b: U256)
    requires a * a < TWO_256 && b * b < TWO_256
    requires TaskComputation(a) == TaskComputation(b)
    ensures a == b
  {
    SquareIncreasing(a, b);
    SquareIncreasing(b, a);
  }

  lemma SquareIncreasing(a: nat, b: nat)
    ensures a < b ==> a * a < b * b
  {
    if a < b {
      assert a * a <= a * b;
      assert a * b < b * b;
    }
  }

  /** `run_task`: `now` is the clock reading. */
  function RunTask(task: Task, now: Timestamp): (c: CompletedTask)
    requires task.value * task.value < TWO_256
    ensures c.value == task.value
    ensures c.response == task.value * task.value
    ensures c.completedAt == now
  {
    CompletedTask(task.value, TaskComputation(task.value), now)
  }

  /** `sign_object`: sign the serialisation of the completed task. */
  function SignObject(s: Signer, key: nat, serialize: CompletedTask -> Message, c: CompletedTask): (r: Result<Signature, OperatorError>)
    ensures r.Ok? <==> s.signMessage(key, serialize(c)).Some?
    ensures r.Ok? ==> r.value == s.signMessage(key, serialize(c)).value
  {
    match s.signMessage(key, serialize(c))
    case None => Err(SigningError)
    case Some(sig) => Ok(sig)
  }

  /** `handle_task`. */
  function HandleTask(s: Signer, key: nat, serialize: CompletedTask -> Message, task: Task, now: Timestamp): (r: Result<TaskResponse, OperatorError>)
    requires task.value * task.value < TWO_256
    ensures var c := CompletedTask(task.value, task.value * task.value, now);
      && (r.Ok? <==> s.signMessage(key, serialize(c)).Some?)
      && (r.Ok? ==> r.value == TaskResponse(c, s.address(key), s.signMessage(key, serialize(c)).value))
  {
    var completed := RunTask(task, now);
    var signature :- SignObject(s, key, serialize, completed);
    Ok(TaskResponse(completed, s.address(key), signature))
  }

  /** `request_task`: any handler error becomes an `AppError`. */
  function RequestTask(s: Signer, key: nat, serialize: CompletedTask -> Message, task: Task, now: Timestamp): (r: Result<TaskResponse, AppError>)
    requires task.value * task.value < TWO_256
    ensures r.Ok? <==> HandleTask(s, key, serialize, task, now).Ok?
    ensures r.Ok? ==> r.value == HandleTask(s, key, serialize, task, now).value
  {
    match HandleTask(s, key, serialize, task, now)
    case Ok(response) => Ok(response)
    case Err(e) => Err(AppError(e))
  }

  /** Recovery inverts signing: a signature made with a key over a message
      recovers, on that message, to the key's address. */
  ghost predicate SignRecoverInverse(s: Signer, e: EcdsaOracles) {
    forall key, m, sig :: s.signMessage(key, m) == Some(sig) ==> e.recover(sig, m) == Some(s.address(key))
  }

  /** An honest response passes the stake-weighted aggregator's check,
      because both sides serialise the completed task the same way. */
  lemma HonestResponseVerifies(s: Signer, e: EcdsaOracles, key: nat, task: Task, now: Timestamp)
    requires SignRecoverInverse(s, e)
    requires task.value * task.value < TWO_256
    requires HandleTask(s, key, e.serialize, task, now).Ok?
    ensures Authentic(e, HandleTask(s, key, e.serialize, task, now).value)
  {
  }

  /** Honest operators answer a task alike, whatever their keys and clocks. */
  lemma HonestOperatorsAgree(s: Signer, serialize: CompletedTask -> Message, task: Task, k1: nat, t1: Timestamp, k2: nat, t2: Timestamp)
    requires task.value * task.value < TWO_256
    requires HandleTask(s, k1, serialize, task, t1).Ok? && HandleTask(s, k2, serialize, task, t2).Ok?
    ensures AnswerOf(HandleTask(s, k1, serialize, task, t1).value) == AnswerOf(HandleTask(s, k2, serialize, task, t2).value)
    ensures AnswerOf(HandleTask(s, k1, serialize, task, t1).value) == task.value * task.value
  {
  }

  /** Responses that honest operators produced for one task. */
  predicate HonestResponses(s: Signer, serialize: CompletedTask -> Message, task: Task,
                            keys: seq<nat>, times: seq<Timestamp>, responses: seq<TaskResponse>)
    requires task.value * task.value < TWO_256
  {
    && |keys| == |responses| && |times| == |responses|
    && forall i :: 0 <= i < |responses| ==> HandleTask(s, keys[i], serialize, task, times[i]) == Ok(responses[i])
  }

  /** End to end: when every response comes from an honest operator and
      every stake can be read, the stake-weighted round accepts the square
      of the value sent. */
  lemma HonestRoundAccepts(s: Signer, e: EcdsaOracles, c: ChainOracles, task: Task,
                           keys: seq<nat>, times: seq<Timestamp>, responses: seq<TaskResponse>, keyOrder: seq<U256>)
    requires SignRecoverInverse(s, e)
    requires task.value * task.value < TWO_256
    requires HonestResponses(s, e.serialize, task, keys, times, responses)
    requires |responses| > 0
    requires StakesReadable(c, responses)
    requires IsEnumeration(keyOrder, Voted(Filter(IsAuthentic(e), responses)))
    ensures AggregateRound(e, c, responses, keyOrder) == Ok(task.value * task.value)
  {
    forall i | 0 <= i < |responses|
      ensures Authentic(e, responses[i]) && AnswerOf(responses[i]) == task.value * task.value
    {
      HonestResponseVerifies(s, e, keys[i], task, times[i]);
    }
    FilterAll(IsAuthentic(e), responses);
    assert VerifyAll(e, responses) == Ok(responses);
    UnanimousAccepted(c, responses, keyOrder, task.value * task.value);
  }
}
