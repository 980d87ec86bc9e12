/** Task and response records exchanged between the square-number
    aggregators and their operators, and the aggregator error kinds. */
module Tasks {

  /** 2^256: one more than the largest `U256`. */
  const TWO_256: nat := 0x1_0000000000000000000000000000000000000000000000000000000000000000

  /** An unsigned 256-bit integer as used on chain. */
  type U256 = x: nat | x < TWO_256

  /** A 20-byte Ethereum address, kept abstract. */
  type Address = nat

  type Url = string

  /** `completed_at`: an opaque timestamp the model never inspects. */
  type Timestamp = nat

  /** The text that gets signed: the JSON serialisation of a record. */
  type Message = string

  /** An ECDSA signature, kept abstract. */
  type Signature = nat

  datatype Task = Task(value: U256)

  /** A task request as seen in a `TaskRequestGenerated` event. */
  datatype TaskRequest = TaskRequest(task: Task, blockNumber: nat)

  datatype CompletedTask = CompletedTask(value: U256, response: U256, completedAt: Timestamp)

  /** A response of the stake-weighted (ECDSA) variant. */
  datatype TaskResponse = TaskResponse(completedTask: CompletedTask, publicKey: Address, signature: Signature)

  /** What went wrong in a chain call, an HTTP request, a url join or a
      signer, as the operators and the TypeScript aggregator meet it; the
      model does not look inside. */
  datatype Failure = ChainFailure | HttpFailure | UrlFailure | SignFailure

  /** The aggregator's error kinds; the payload-carrying variants keep their
      text abstract. */
  datatype TaskError =
    | ContractCallError
    | SubmitTaskError
    | OperatorNotFound
    | TaskVerificationFailed
    | MajorityNotReached
    | SerdeError
    | LoadContractJsonError
    | CustomUrlError
}
