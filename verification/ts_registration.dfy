/** The TypeScript operator's registration service: a single on-chain
    check-and-register, then an interval that asks the aggregator whether it
    knows the operator and registers it when it does not, keeping two
    Prometheus gauges. Chain calls and HTTP requests are oracles whose
    outcomes are inputs; the interval's scheduling is left out. */
module TsRegistration {
  import opened Wrappers
  import opened Tasks
  import Registration

  /** The gauges `isRegisteredOnChain` and `isRegisteredToAggregator`. */
  datatype Gauges = Gauges(onChain: nat, toAggregator: nat)

  /** How `registerOperator` went: whether it sent the DSS registration,
      whether it reached `setInterval`, the gauges afterwards, and whether
      the operator process ends. `startServices` calls `registerOperator`
      without awaiting it and no `unhandledRejection` handler is installed,
      so under Node's default (since version 15) a rejected promise ends
      the process. */
  datatype Start = Start(sent: bool, installed: bool, gauges: Gauges, exits: bool)

  /** `registerOperator`: `check` is the DSS read, `register` the outcome of
      the registration write, awaited only when the read said no. A thrown
      error rejects the returned promise before `setInterval`. */
  function RegisterOperator(check: Result<bool, Failure>, register: Result<(), Failure>, g: Gauges): (r: Start)
    ensures r.sent <==> check == Ok(false)
    ensures r.installed <==> check == Ok(true) || (check == Ok(false) && register.Ok?)
    ensures r.installed ==> r.gauges == g.(onChain := 1)
    ensures !r.installed ==> r.gauges == g
    ensures r.exits <==> check.Err? || (check == Ok(false) && register.Err?)
    ensures r.exits <==> !r.installed
  {
    match check
    case Err(_) => Start(false, false, g, true)
    case Ok(registered) =>
      if !registered then
        match register
        case Err(_) => Start(true, false, g, true)
        case Ok(_) => Start(true, true, g.(onChain := 1), false)
      else Start(false, true, g.(onChain := 1), false)
  }

  /** `isRegisteredWithAggregator`: a failed request reads as "not
      registered". */
  function IsRegisteredWithAggregator(reply: Result<bool, Failure>): (r: bool)
    ensures r <==> reply == Ok(true)
  {
    match reply
    case Err(_) => false
    case Ok(b) => b
  }

  /** `registerOperatorWithAggregator`: a failure is logged and swallowed;
      success sets the aggregator gauge. */
  function RegisterWithAggregator(post: Result<(), Failure>, g: Gauges): (r: Gauges)
    ensures r.onChain == g.onChain
    ensures r.toAggregator == if post.Ok? then 1 else g.toAggregator
  {
    if post.Ok? then g.(toAggregator := 1) else g
  }

  /** What one interval tick did: whether it sent a registration, and the
      gauges afterwards. No error leaves a tick. */
  datatype Tick = Tick(sent: bool, gauges: Gauges)

  /** `registerInDSSAndAggregator`, the interval's callback. */
  function HeartbeatTick(query: Result<bool, Failure>, post: Result<(), Failure>, g: Gauges): (t: Tick)
    ensures t.sent <==> query != Ok(true)
    ensures t.gauges.onChain == g.onChain
    ensures t.gauges.toAggregator == 1 <==> query == Ok(true) || post.Ok? || g.toAggregator == 1
  {
    if !IsRegisteredWithAggregator(query) then Tick(true, RegisterWithAggregator(post, g))
    else Tick(false, g.(toAggregator := 1))
  }

  /** Once the aggregator gauge reads 1 it keeps reading 1, whatever later
      ticks meet. */
  lemma {:induction false} AggregatorGaugeStays(ticks: seq<(Result<bool, Failure>, Result<(), Failure>)>, g: Gauges)
    requires g.toAggregator == 1
    ensures Ticks(ticks, g).toAggregator == 1
    decreases |ticks|
  {
    if |ticks| > 0 {
      var g' := HeartbeatTick(ticks[0].0, ticks[0].1, g).gauges;
      assert g'.toAggregator == 1;
      AggregatorGaugeStays(ticks[1..], g');
    }
  }

  /** The gauges after a run of ticks. */
  function Ticks(ticks: seq<(Result<bool, Failure>, Result<(), Failure>)>, g: Gauges): (r: Gauges)
    ensures r.onChain == g.onChain
  {
    if |ticks| == 0 then g
    else Ticks(ticks[1..], HeartbeatTick(ticks[0].0, ticks[0].1, g).gauges)
  }

  /** On a query the aggregator answers, a tick sends exactly when the Rust
      heartbeat does; on a failed query the TypeScript tick registers where
      the Rust heartbeat gives up for that tick. */
  lemma TickAgainstRust(query: Result<bool, Failure>, post: Result<(), Failure>, g: Gauges)
    ensures query.Ok? ==> HeartbeatTick(query, post, g).sent == Registration.HeartbeatCheck(query, post).sent
    ensures query.Err? ==> HeartbeatTick(query, post, g).sent && !Registration.HeartbeatCheck(query, post).sent
  {
  }

  /** Unlike the Rust on-chain loop, a failed DSS read is not retried: the
      heartbeat is never installed and the operator process ends, while the
      Rust loop is still running. */
  lemma NoRetryUnlikeRust(e: Failure, register: Result<(), Failure>, g: Gauges)
    ensures !RegisterOperator(Err(e), register, g).installed
    ensures RegisterOperator(Err(e), register, g).exits
    ensures Registration.OnChainPhase([Registration.Attempt(Err(e), register)]).None?
  {
  }
}
