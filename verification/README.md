# Square-number DSS templates: aggregation, registries and registration

This project models the core of the square-number DSS (distributed secure
service) templates. Each template has an aggregator and operators. The
aggregator watches the DSS contract for `TaskRequestGenerated` events. It sends
each task to every registered operator and collects their signed answers. It
then settles on one answer by a quorum rule and submits that answer to the
contract. An operator squares each task's value, signs its completed task and
keeps itself registered on chain and with the aggregator.

Two variants are modelled:

- **BLS.** Rust aggregator and operator. The quorum counts verified BLS
  signatures against the number of registered operators. The round's result
  carries the aggregate G1 signature, the aggregate G2 key and the non-signers'
  G1 keys.
- **Stake-weighted.** A Rust aggregator, a TypeScript aggregator and their
  operators. The quorum weighs each verified ECDSA response by the
  operator's stake. That stake is the sum of `totalAssets` over the vaults the
  operator staked into the DSS.

Chain reads and writes, HTTP requests, signing, signature checks and
recovery, elliptic-curve addition and the clock are all inputs: either
function-valued parameters or values passed in. Point addition is only assumed
associative and commutative (`BlsAggregation.LawfulAddition`), and only
where permutation is at stake. Rust `HashMap` iteration order is an explicit
enumeration of the map's keys. A JavaScript `Map` is its keys in insertion
order plus their values, and `undefined` is `None`.

Modules:

| module | file | what it holds |
|---|---|---|
| `Wrappers` | wrappers.dfy | `Option`, `Result` |
| `Tasks` | tasks.dfy | tasks, completed tasks, responses, task errors, `U256` |
| `Folds` | folds.dfy | `Reduce`, `Filter`, `Map`, `Sum`, `MaxByKey` and permutation facts |
| `Points` | points.dfy | G1/G2 points and their contract encodings |
| `Dispatch` | dispatch.dfy | collecting the operators' replies |
| `Stake` | stake.dfy | normalised stake and the stake mapping |
| `StakeAggregation` | stake_aggregation.dfy | the Rust stake-weighted round |
| `BlsAggregation` | bls_aggregation.dfy | the BLS round |
| `TsAggregation` | ts_aggregation.dfy | the TypeScript round, as written and as intended |
| `EventWatcher` | event_watcher.dfy | the Rust and TypeScript event watchers and their checkpoints |
| `Registry` | registry.dfy | the Rust aggregator's operator set |
| `TsRegistry` | ts_registry.dfy | the TypeScript aggregator's operator list |
| `OperatorTask` | operator_task.dfy | the operator's task handler |
| `Registration` | registration.dfy | the Rust operators' on-chain loop and heartbeat |
| `TsRegistration` | ts_registration.dfy | the TypeScript operator's registration service |

The model follows the code, including these behaviours that a reader might
not expect:

- The BLS non-signer list holds the registered operators whose address some
  parsed response claims and no verified response does. Replies are matched
  by the address they claim, not by who sent them. So an operator that never
  answered is listed when an unverified reply claims its address, and an
  operator whose own reply fails is left out when a verified reply claims its
  address. Verified voters for a losing answer are not in it.
- A BLS non-signer's G1 key is taken from the first collected response that
  claims its address, verified or not. When two unverified responses claim
  the same address with different G1 keys, which one is reported depends on
  the order the replies were collected. The same key under two urls is two
  registered operators, so this order dependence is reachable.
- The BLS aggregate G2 key sums the keys of every verified response, losing
  voters included, not only those of the winning answer's signers.
- The stake-weighted denominator is the stake of the verified responders
  only, not of every registered operator.
- The stake quorum fails only when the winner's stake is below half the
  total, rounded down. Exactly half, and an odd total's rounded-down half, are
  accepted.
- In both Rust watchers a failed aggregation returns before the checkpoint is
  written, after the earlier requests of that tick were already submitted.
  The block the watcher scans from is loaded once, when the service is
  built, and never moves, so every tick rescans from it.
- A task request log without a block number panics inside the spawned
  watcher task, which ends its loop: the watcher stops for good, while an
  error returned by a tick is only logged.
- The TypeScript watcher writes `blockNumber + 1` per event once that event's
  round and submission resolve. It does not take a maximum.

## Model

| member | source | states |
|---|---|---|
| Points.ToContractG1 | square-number-bls/aggregator/src/task.rs:79-92 | The contract G1 point carries the point's x and y unchanged, so reading it back gives the point. |
| Points.ToContractG2 | square-number-bls/aggregator/src/task.rs:94-109 | Each G2 coordinate becomes a pair of two words. Read back with the imaginary coefficient first, the pairs give the original point. |
| Points.ContractG1Injective | square-number-bls/aggregator/src/task.rs:79-92 | Different G1 points never share a contract encoding. |
| Points.ContractG2Injective | square-number-bls/aggregator/src/task.rs:94-109 | Different G2 points never share a contract encoding. |
| Points.ContractG2Swapped | square-number-bls/aggregator/src/task.rs:105-106 | The x pair is not in (c0, c1) order whenever the two coefficients differ. The swap is real. |
| Registry.RegisterOperator | square-number-bls/aggregator/src/aggregator.rs:47-61 | The operator is a member afterwards. Every earlier member stays, nothing else is added, and the set grows by at most one. Re-registering a member leaves the set unchanged. |
| Registry.IsOperatorRegistered | square-number-bls/aggregator/src/aggregator.rs:63-69 | The query is true exactly when registering the operator would leave the set unchanged. |
| Registry.RegisterHandler | square-number-bls/aggregator/src/aggregator.rs:72-78 | The handler always replies true. The operator is registered afterwards, and so is everyone registered before. |
| Registry.IsRegisteredHandler | square-number-bls/aggregator/src/aggregator.rs:80-86 | The query leaves the set unchanged. It answers true exactly when the (address, url) pair is a member. |
| Registry.RegisterThenRegistered | square-number-bls/aggregator/src/aggregator.rs:47-69 | After registering `op`, the lookup is true for `op`. For any other operator it answers as it did before. |
| Registry.RegisterIdempotent | square-number-bls/aggregator/src/aggregator.rs:52-60 | Registering the same operator twice has the effect of registering it once. |
| Registry.SameKeyOtherUrl | square-number-bls/aggregator/src/aggregator.rs:14-19 | Operator identity is the pair (key, url). The same key under another url is not registered by the first registration, and registering it adds a second member. |
| Dispatch.Collect | square-number-bls/aggregator/src/task.rs:245-271 | The collected replies are the parsed replies, each paired with the operator that sent it. Every operator with a parsed reply appears, and nothing else does. |
| Dispatch.CollectOncePerOperator | square-number/aggregator/src/task.rs:245-290 | When the registered operators are distinct, no operator contributes two collected replies. |
| Dispatch.CollectedReplies | square-number-bls/aggregator/src/task.rs:245-271 | A reply is among the collected ones exactly when some operator in the iteration sent it. |
| Dispatch.CollectAllSucceed | square-number-bls/aggregator/src/task.rs:245-271 | When every request succeeds, the collected replies follow the iteration order one for one. |
| Dispatch.CollectIsPresentSlots | square-number/aggregator/src/api/services/task.ts:42-62 | The slots of `Promise.all` that are not `undefined` hold, in order, exactly the replies the Rust loop collects for the same operators. |
| Stake.SumAssets | square-number/aggregator/src/task.rs:198-210 | The vault loop succeeds exactly when every vault's `totalAssets` read succeeds, giving the sum of those assets. Otherwise it fails with `ContractCallError`. |
| Stake.NormalizedStake | square-number/aggregator/src/task.rs:187-213 | A failed vault listing is passed on. No vaults gives stake 0. Otherwise the stake is the un-normalised sum of the vaults' assets, and any failed asset read fails it. |
| Stake.StakeMapping | square-number/aggregator/src/task.rs:215-236 | The mapping succeeds exactly when every operator's stake can be read. On failure it carries the first failing operator's error. An operator is in the map exactly when its stake is strictly above the floor, and the map holds that stake. |
| Stake.StakeMappingTotal | square-number/aggregator/src/utils/contract/interactions/core.ts:4-19 | The total is the sum of the stakes of the listed operators above the floor, counted once per occurrence in the list. |
| Stake.DuplicateCountedTwice | square-number/aggregator/src/utils/contract/interactions/core.ts:11-16 | An operator listed twice gets one map entry but adds its stake to the total twice. |
| Stake.TotalBoundedByStakes | square-number/aggregator/src/task.rs:215-236 | The total never exceeds the sum of all listed operators' stakes. |
| Stake.ZeroFloorKeepsSum | square-number/aggregator/src/task.rs:311-318 | With floor 0, leaving out the operators at or below the floor does not change the sum of stakes. |
| StakeAggregation.VerifyBindsAddress | square-number/aggregator/src/task.rs:345-351 | `verify_message` fails or not regardless of the claimed address. A response that verifies stops verifying once it claims any other address, so a signature vouches for one address only. |
| StakeAggregation.VerifyAll | square-number/aggregator/src/task.rs:294-307 | The verify loop succeeds exactly when every response's signature recovers to some address, and then keeps exactly the responses that recover to their claimed key, in order. A recovery failure fails the round with `TaskVerificationFailed`. |
| StakeAggregation.StakeForIsSum | square-number/aggregator/src/task.rs:320-328 | The stake accumulated for an answer is the sum of the mapped stakes of the responses that gave it. A responder missing from the mapping adds 0. |
| StakeAggregation.Tally | square-number/aggregator/src/task.rs:320-328 | The answer map's keys are exactly the answers given. Each value is the summed stake of that answer's responders. |
| StakeAggregation.Decide | square-number/aggregator/src/task.rs:311-340 | An unreadable stake fails with that responder's error. Otherwise: no response gives `TaskVerificationFailed`; `MajorityNotReached` exactly when every answer's stake is below half the responders' total; and an accepted answer was given, has maximal stake and at least half of the total. |
| StakeAggregation.AggregateRound | square-number/aggregator/src/task.rs:294-340 | The whole round after collection. Recovery failure gives `TaskVerificationFailed`. Over the verified responses, the outcomes of `Decide` hold. |
| StakeAggregation.WinnerFacts | square-number/aggregator/src/task.rs:332-335 | `max_by_key` over the answer map finds an answer exactly when there are responses. That answer was given and no answer has more stake. The mapping's total is the responders' total stake. |
| StakeAggregation.AddressesReadable | square-number/aggregator/src/task.rs:311-318 | The mapping over the responders' addresses succeeds exactly when every responder's stake can be read. On failure it carries one responder's error. |
| StakeAggregation.TallyMatchesChain | square-number/aggregator/src/task.rs:311-328 | The mapping's total and the per-answer sums agree with the stakes read from the chain for the same responders. |
| StakeAggregation.StakeForMatchesChain | square-number/aggregator/src/task.rs:320-328 | For each answer, the stake accumulated from the mapping equals the chain stake of its responders. |
| StakeAggregation.DecideAcceptsIffHalf | square-number/aggregator/src/task.rs:337-340 | With stakes readable, the round accepts exactly when some answer holds at least half the total, rounded down. |
| StakeAggregation.RoundedDownHalfAccepted | square-number/aggregator/src/task.rs:337-340 | An answer holding the rounded-down half of an odd total T, that is (T - 1) / 2, is still accepted, because the half is rounded down (for example 1 of 3). |
| StakeAggregation.UnanimousAccepted | square-number/aggregator/src/task.rs:294-340 | When every verified response gives the same answer and stakes are readable, that answer is accepted, whatever the stakes. |
| BlsAggregation.VerifyIgnoresClaim | square-number-bls/aggregator/src/task.rs:343-355 | `verify_message` depends only on the response's G2 key, its signature and its answer. The claimed address, the G1 key, the squared value and the completion time play no part. |
| BlsAggregation.Verified | square-number-bls/aggregator/src/task.rs:273-284 | The verified responses are exactly those whose BLS check passes. A failing check drops the response without failing the round. |
| BlsAggregation.Group | square-number-bls/aggregator/src/task.rs:300-314 | The response map's keys are exactly the answers given. Each holds the signatures of that answer's verified responses, in arrival order. |
| BlsAggregation.FirstClaim | square-number-bls/aggregator/src/task.rs:286-298 | The lookup finds a response exactly when some response claims the address, and what it finds is such a response. |
| BlsAggregation.NonSigners | square-number-bls/aggregator/src/task.rs:286-298 | The non-signer list has at most one entry per registered operator. |
| BlsAggregation.NonSignersAsFilterMap | square-number-bls/aggregator/src/task.rs:286-298 | The list is, in registry order, the claimed G1 key of each registered operator whose address some parsed response claims and no verified response does, whoever sent those responses. |
| BlsAggregation.NonSignerEntry | square-number-bls/aggregator/src/task.rs:286-298 | Every entry is the G1 key that the first response claiming some registered operator's address carries, where some parsed response claims that address and no verified one does. |
| BlsAggregation.NonSignerListed | square-number-bls/aggregator/src/task.rs:286-298 | Every registered operator whose address some parsed response claims and no verified response does has the claimed G1 key listed. This includes an operator that never answered itself. |
| BlsAggregation.AggregateRound | square-number-bls/aggregator/src/task.rs:273-333 | No verified response gives `TaskVerificationFailed`. `MajorityNotReached` happens exactly when every answer has at most half the registered count of signatures. An accepted answer has a maximal group of more than half the registered count. Its aggregate signature folds exactly that group's signatures, the aggregate G2 key folds every verified responder's key, and the non-signers are as above. |
| BlsAggregation.WinnerFacts | square-number-bls/aggregator/src/task.rs:316-319 | `max_by_key` finds an answer exactly when some response verified. That answer's group is maximal. |
| BlsAggregation.RoundPermutation | square-number-bls/aggregator/src/task.rs:245-333 | For lawful addition, a permutation of the responses succeeds exactly when the original does. When both accept the same answer, both aggregates are equal; a tie may pick a different answer. When no two responses claim the same address, both non-signer lists are equal too. |
| BlsAggregation.PermutedNonSigners | square-number-bls/aggregator/src/task.rs:273-298 | When no two responses claim the same address, permuting the responses keeps the signing addresses and the non-signer list. |
| BlsAggregation.NonSignersOrderDependent | square-number-bls/aggregator/src/task.rs:286-298 | Two responses claiming address 7 with G1 keys (1, 1) and (2, 2): the non-signer list is [(1, 1)] in one arrival order and [(2, 2)] in the other. |
| BlsAggregation.CollectedRound | square-number-bls/aggregator/src/task.rs:245-298 | Over the collected replies: with no reply that verifies the round fails with `TaskVerificationFailed`; an operator whose own reply verifies under its own address is not a non-signer; every reported non-signer key belongs to an operator whose address some reply claims and no verified reply does. |
| BlsAggregation.PermutedVerified | square-number-bls/aggregator/src/task.rs:273-314 | Permuting the responses keeps how many verify, the answers given, each answer's multiset of signatures and count, and the G2 aggregate. |
| BlsAggregation.UnanimousQuorum | square-number-bls/aggregator/src/task.rs:273-333 | When every response verifies with the same answer and there are more than half as many as registered operators, the round accepts that answer with an empty non-signer list. |
| BlsAggregation.EveryResponderSigns | square-number-bls/aggregator/src/task.rs:286-298 | When every responder is a verified signer, the non-signer list is empty. |
| BlsAggregation.LosingVoterCountsAsSigner | square-number-bls/aggregator/src/task.rs:286-314 | A verified response for a losing answer still adds its G2 key to the aggregate, and its operator is not a non-signer. |
| BlsAggregation.VerifiedResponderSigns | square-number-bls/aggregator/src/task.rs:286-314 | Any verified response's G2 key is in the aggregate, and its operator is not a non-signer. |
| EventWatcher.Scan | square-number-bls/aggregator/src/task.rs:174-221 | A written checkpoint is never below the block scanned from. With no operators registered, the loaded block is written back and nothing is submitted. |
| EventWatcher.ScanWrites | square-number-bls/aggregator/src/task.rs:155-226 | A tick writes the checkpoint exactly when every task request decodes, carries a block number and, with operators registered, aggregates. |
| EventWatcher.ScanUpperBound | square-number-bls/aggregator/src/task.rs:201-219 | With operators registered, the written checkpoint is at least every task request's block plus one. |
| EventWatcher.ScanAttained | square-number-bls/aggregator/src/task.rs:215-224 | The written checkpoint is the loaded block or some request's block plus one. |
| EventWatcher.ScanSubmits | square-number-bls/aggregator/src/task.rs:186-214 | With operators registered, a written tick submitted every task request, in log order. |
| EventWatcher.ScanFirstUnhandled | square-number-bls/aggregator/src/task.rs:174-214 | At the first task request the scan cannot handle, it stops after submitting every earlier request: a decode failure or failed round returns its error, a missing block number panics. |
| EventWatcher.TickCheckpoint | square-number/aggregator/src/task.rs:125-185 | When every request is handled, the tick writes the maximum of the loaded block and each request's block plus one, and submits every request. Submission results do not affect the write. |
| EventWatcher.Tick | square-number-bls/aggregator/src/task.rs:155-226 | A failed log query aborts with nothing submitted. The tick writes exactly when the query succeeded and every task request is handled. A written checkpoint is never below the loaded block. With operators, a writing tick submitted every request in log order; without, it writes the loaded block back and submits nothing. The stake-weighted watcher's tick (square-number/aggregator/src/task.rs, lines 125-185) has the same shape and the same contract. |
| EventWatcher.AggregationFailureSkipsWrite | square-number/aggregator/src/task.rs:144-159 | One failed aggregation aborts the tick before the write. When it is the first request the tick cannot handle, the tick has already submitted every earlier task request, in log order, and returns the aggregation error. |
| EventWatcher.NoOperatorsNoAdvance | square-number-bls/aggregator/src/task.rs:186 | With no operators, the tick writes back the loaded block and submits nothing. |
| EventWatcher.ServiceTick | square-number-bls/aggregator/src/task.rs:129-183 | The block the service scans from never changes. The store changes only on a tick that writes. A returned error is only logged and the watcher keeps running; a panic stops it, and a stopped watcher does nothing. |
| EventWatcher.SecondTickResubmits | square-number-bls/aggregator/src/task.rs:116-157 | Because the scan start never moves, a second tick over the same logs, whose rounds turn out as in the first, repeats the first tick's submissions and its write. |
| EventWatcher.ServiceRun | square-number-bls/aggregator/src/task.rs:134-150 | A run of heartbeats never moves the scan start and never restarts a stopped watcher. |
| EventWatcher.StoppedStays | square-number-bls/aggregator/src/task.rs:134-150 | A stopped watcher is unchanged by any run of heartbeats. |
| EventWatcher.PanicStopsWatcher | square-number-bls/aggregator/src/task.rs:183 | A decoded task request without a block number, reached in a running tick, panics it; from then on no heartbeat changes the service. |
| EventWatcher.TsTick | square-number/aggregator/src/api/services/task.ts:17-39 | The stored block is read at every tick and a failed event query ends the tick. With no operators registered, no event is processed and nothing is written. |
| EventWatcher.TsWrites | square-number/aggregator/src/api/services/task.ts:28-35 | `blockNumber + 1` is written for an event exactly when its round and its submission both succeeded. Every event writes exactly when every callback succeeds. |
| EventWatcher.TsFailureIsLocal | square-number/aggregator/src/api/services/task.ts:28-35 | Within one tick's callbacks, a failed round or submission costs its own event's write and does not stop a successful event's write. The failure still ends the process; see TsFailureEndsProcess. |
| EventWatcher.TsEndsProcess | square-number/aggregator/src/api/services/task.ts:14-70 | A tick leaves an unhandled rejection, which ends the process, exactly when the event query rejects, or when operators are registered and either fewer blocks are written than there are events or some round's `filter` predicate rejects. The predicate's rejection ends the process even when its round succeeds. |
| EventWatcher.TsFailureEndsProcess | square-number/aggregator/src/api/services/task.ts:28-70 | With operators registered, one failed round or submission, or one rejecting `filter` predicate, ends the process. A tick whose callbacks all succeed and whose predicates all resolve does not. Without operators no callback runs and nothing ends the process. |
| TsAggregation.AsyncFilter | square-number/aggregator/src/api/services/task.ts:63-70 | The filter with an async predicate never grows the list. |
| TsAggregation.AsyncFilterKeepsAll | square-number/aggregator/src/api/services/task.ts:63-70 | The async predicate's Promise is always truthy, so every slot survives, forged or `undefined`. |
| TsAggregation.PredicateRejects | square-number/aggregator/src/api/services/task.ts:63-70 | Some call of the async predicate rejects exactly when some slot is `undefined` or holds a reply whose signature no signer can be recovered from. |
| TsAggregation.UnrecoverableRejectsYetDecides | square-number/aggregator/src/api/services/task.ts:63-88 | A reply with an unrecoverable signature makes its predicate reject, yet the filter keeps it and the round as written accepts its answer. The rejection escapes the round, and that is what ends the process. |
| TsAggregation.AllPresent | square-number/aggregator/src/api/services/task.ts:74 | Reading `publicKey` of every slot succeeds exactly when no slot is `undefined`. Otherwise it throws a `TypeError`. |
| TsAggregation.Set | square-number/aggregator/src/api/services/task.ts:79-84 | `Map.prototype.set`: the value is stored under the key. A key already present keeps its position and a new key goes last. |
| TsAggregation.AccumulateAsWritten | square-number/aggregator/src/api/services/task.ts:77-85 | The stake loop as written either throws a `TypeError` or yields a well-formed map. |
| TsAggregation.AccumulateAsWrittenOrder | square-number/aggregator/src/api/services/task.ts:77-85 | When the loop as written completes, the map lists its answers in the order they were first given. |
| TsAggregation.AccumulateAsWrittenSpec | square-number/aggregator/src/api/services/task.ts:77-85 | The loop as written throws exactly when an unstaked responder follows a staked voter for the same answer. Otherwise each answer given maps to its summed stake, or to `undefined` when none of its voters is staked. |
| TsAggregation.ReduceAsWritten | square-number/aggregator/src/api/services/task.ts:86 | `reduce` without an initial value throws on an empty list and otherwise returns one of the entries. |
| TsAggregation.UndefinedFirstEntryWins | square-number/aggregator/src/api/services/task.ts:86 | An `undefined` first entry is never replaced, since no stake compares greater than `undefined`. |
| TsAggregation.DecideAsWritten | square-number/aggregator/src/api/services/task.ts:77-88 | A `TypeError` exactly when the stake `forEach` throws or there is no response. Otherwise the entry the reduction keeps decides: its stake is `undefined` exactly when no staked responder gave its answer, the round fails with the majority error exactly when that stake is defined and below half the total, and otherwise returns that entry's answer, one that some response gave. |
| TsAggregation.SendTaskAsWritten | square-number/aggregator/src/api/services/task.ts:63-88 | Any failed request in the round makes it throw a `TypeError`. |
| TsAggregation.VerifiedFilter | square-number/aggregator/src/api/services/task.ts:63-70 | As intended, the filter keeps exactly the responses that arrived and whose signature recovers to their claimed key. |
| TsAggregation.AccumulateIntended | square-number/aggregator/src/api/services/task.ts:77-85 | As intended, the map's keys are exactly the answers given, each listed once. Each answer maps to the summed stake of its responders, and an unstaked one adds 0. |
| TsAggregation.AccumulateIntendedOrder | square-number/aggregator/src/api/services/task.ts:77-85 | The intended map lists its answers in the order they were first given. |
| TsAggregation.FirstSeenSnoc | square-number/aggregator/src/api/services/task.ts:80-84 | One more response keeps the first-seen order when its answer is already a key, and when a new answer is appended last. |
| TsAggregation.GivenBeforeOneWay | square-number/aggregator/src/api/services/task.ts:77-85 | Of two different answers, at most one was first given before the other. |
| TsAggregation.FirstMaxIndex | square-number/aggregator/src/api/services/task.ts:86 | The reduction picks an entry of maximal stake, and no earlier entry has as much. The first-inserted maximum wins. |
| TsAggregation.DecideIntended | square-number/aggregator/src/api/services/task.ts:86-88 | As intended: no response gives a `TypeError`; "Majority not reached" exactly when every answer's stake is below half the total, rounded down; an accepted answer was given, has maximal stake and at least half the total. On a tie the answer given first wins: every answer first given before the accepted one has strictly less stake. |
| TsAggregation.SendTaskIntended | square-number/aggregator/src/api/services/task.ts:41-89 | As intended, an unreadable stake of a verified responder rejects the round. |
| TsAggregation.IntendedMatchesRust | square-number/aggregator/src/api/services/task.ts:41-89 | With stakes readable, the intended TypeScript round agrees with the Rust round over the same verified responses. Both accept together, fail for want of responses together and miss the majority together, and the accepted answer has maximal stake and at least half. |
| TsAggregation.StepAgrees | square-number/aggregator/src/api/services/task.ts:80-84 | With the responder staked, one iteration as written does what the intended iteration does. |
| TsAggregation.AccumulateAgrees | square-number/aggregator/src/api/services/task.ts:77-85 | When every responder is staked, the map built as written is the intended map. |
| TsAggregation.BestAsWrittenLift | square-number/aggregator/src/api/services/task.ts:86 | Over defined stakes, the reduction as written picks the first maximal entry. |
| TsAggregation.AsWrittenAgreesWhenStaked | square-number/aggregator/src/api/services/task.ts:77-88 | When every responder is staked, the decision as written equals the intended decision. |
| TsAggregation.ForgedResponseCounted | square-number/aggregator/src/api/services/task.ts:63-70 | A response whose signature recovers to another address survives the filter as written and its answer is accepted. The intended filter drops it. |
| TsAggregation.RegistryRound | square-number/aggregator/src/api/services/task.ts:42-74 | Over the registered operators' replies: as written, one failed request makes the round throw a `TypeError`, and when all succeed every reply, authentic or not, goes on in registry order. The intended filter keeps exactly the authentic replies. |
| TsAggregation.FailedRequestFailsRound | square-number/aggregator/src/api/services/task.ts:57-74 | One failed request makes the round as written throw. The intended filter just skips the slot. |
| TsAggregation.UnstakedLaterVoterThrows | square-number/aggregator/src/api/services/task.ts:80-81 | An unstaked responder after a staked one with the same answer makes the loop as written throw. The intended map just holds the staked voter's stake. |
| TsAggregation.UnstakedFirstVoterWins | square-number/aggregator/src/api/services/task.ts:83-88 | An unstaked first responder's answer is stored as `undefined`. As written it beats a staked answer and passes the majority check; as intended the staked answer wins. |
| TsRegistry.RegisterOperator | square-number/aggregator/src/api/controllers/operator.ts:5-14 | Registration appends exactly when the DSS says registered and the same object is not yet listed. "Not registered in DSS" is thrown exactly when the DSS says no, "already registered" exactly when the object is already listed. A failed DSS read is passed on. |
| TsRegistry.IsOperatorRegistered | square-number/aggregator/src/api/controllers/operator.ts:16-21 | The lookup is true exactly when some entry has the queried address. The url is ignored. |
| TsRegistry.RegisterAppends | square-number/aggregator/src/api/controllers/operator.ts:5-14 | A registration adds the operator at the end and keeps every earlier entry in place. A thrown registration leaves the list unchanged. |
| TsRegistry.RegisterThenRegistered | square-number/aggregator/src/api/controllers/operator.ts:5-21 | After a call, the lookup answers true for the addresses it answered true for before, plus the new operator's address when the call succeeded, and for no others. |
| TsRegistry.FreshObjectDuplicates | square-number/aggregator/src/api/controllers/operator.ts:7-8 | `includes` compares object identity, so a fresh object with the fields of a listed operator is appended and the operator is listed twice. |
| TsRegistry.UrlIgnoredUnlikeRust | square-number/aggregator/src/api/controllers/operator.ts:16-21 | The TypeScript lookup finds an operator registered under another url. The Rust registry does not. |
| TsRegistry.LookupAnswersByAddress | square-number/aggregator/src/api/controllers/operator.ts:16-21 | Two queries with the same address get the same answer. |
| OperatorTask.ComputationInjective | square-number-bls/operator/src/operator.rs:79-81 | Squaring within 256 bits is injective: an answer determines the value squared. |
| OperatorTask.RunTask | square-number-bls/operator/src/operator.rs:57-68 | The completed task keeps the value it was given, answers its square, and is stamped with the current time. |
| OperatorTask.SignObject | square-number-bls/operator/src/operator.rs:70-76 | Signing the serialised completed task succeeds exactly when the signer produces a signature over it, and returns that signature. |
| OperatorTask.HandleTask | square-number-bls/operator/src/operator.rs:45-55 | The handler succeeds exactly when signing the squared task stamped now succeeds. Its response carries that completed task, the wallet's address as key, and the signature over the serialised task. |
| OperatorTask.RequestTask | square-number-bls/operator/src/operator.rs:83-96 | The request succeeds exactly when the handler does, with the handler's response. Any handler error becomes an `AppError`. |
| OperatorTask.HonestResponseVerifies | square-number-bls/operator/src/operator.rs:70-76 | When recovery inverts signing, an honest response passes the aggregator's address-recovery check. |
| OperatorTask.HonestOperatorsAgree | square-number-bls/operator/src/operator.rs:45-81 | Honest operators give the same answer, the square of the value sent, whatever their keys and clocks. |
| OperatorTask.HonestRoundAccepts | square-number-bls/operator/src/operator.rs:45-81 | When every response is honest and every stake can be read, the stake-weighted round accepts the square of the value sent. |
| Registration.QueryPayload | square-number-bls/operator/src/register.rs:176-179 | The query body carries the operator's address and domain url. |
| Registration.RegisterPayload | square-number-bls/operator/src/register.rs:194-197 | The registration body carries the same address and url as the query body. |
| Registration.OnChainPass | square-number-bls/operator/src/register.rs:74-99 | A pass sends the registration exactly when the check said not registered. It leaves the loop exactly when the check said registered, or the registration got a receipt. |
| Registration.OnChainPhase | square-number-bls/operator/src/register.rs:74-99 | The loop ends at the first pass that may leave it, and runs on forever when no pass may. |
| Registration.PassesMade | square-number/operator/src/register.rs:65-91 | The passes made are a prefix of the attempts. |
| Registration.AtMostOneReceipt | square-number/operator/src/register.rs:65-91 | The loop gets at most one registration receipt, and getting one ends it. |
| Registration.AlreadyRegisteredSendsNothing | square-number/operator/src/register.rs:74-76 | An operator the chain already knows leaves at the first pass without sending a transaction. |
| Registration.ErrorsRetry | square-number-bls/operator/src/register.rs:77-93 | While every check fails, or says not registered with the registration failing, the loop never ends. |
| Registration.StakeRegistrationCall | square-number/operator/src/register.rs:129-139 | The stake variant calls `registerOperatorToDSS` for its own DSS with the data `0x`. |
| Registration.RegisterInDssBls | square-number-bls/operator/src/register.rs:137-170 | A missing hash stops registration before signing. A failed signature stops it before submitting. Otherwise the submitted record holds the keypair's G1 and G2 keys, the contract's hash and the signature over it. |
| Registration.SubmittedRecordVerifies | square-number-bls/operator/src/register.rs:146-170 | When BLS verification inverts signing, the submitted signature verifies against the submitted G2 key and hash. |
| Registration.IsRegisteredWithAggregator | square-number-bls/operator/src/register.rs:171-190 | The query succeeds exactly when the url joins, the request succeeds and the reply carries a boolean. It then answers that boolean. |
| Registration.RegisterWithAggregator | square-number-bls/operator/src/register.rs:192-202 | Registration fails exactly on a url or transport failure. The HTTP status is not checked. |
| Registration.StatusIgnored | square-number-bls/operator/src/register.rs:199 | Any status the aggregator answers with, an error status included, counts as success. |
| Registration.HeartbeatCheck | square-number-bls/operator/src/register.rs:120-126 | A beat registers exactly when the query said not registered. It fails exactly when the query failed, or the registration it sent failed. |
| Registration.HeartbeatLoop | square-number-bls/operator/src/register.rs:102-115 | Every tick runs one heartbeat check and a failed beat does not stop the loop. |
| Registration.TickAgainst | square-number/operator/src/register.rs:94-107 | A heartbeat against a reachable Rust aggregator never removes a registered operator. |
| Registration.HeartbeatConverges | square-number/operator/src/register.rs:146-167 | Query and registration carry the same payload. So after one beat the aggregator knows the operator, and the next beat sends nothing and changes nothing. |
| TsRegistration.RegisterOperator | square-number/operator/src/api/services/registration.ts:8-19 | DSS registration is sent exactly when the DSS says not registered. The heartbeat is installed exactly when the DSS says registered or the registration succeeds, and the on-chain gauge is set to 1 exactly then. Otherwise the promise rejects; `startServices` does not await it, so the operator process ends. |
| TsRegistration.IsRegisteredWithAggregator | square-number/operator/src/api/services/registration.ts:44-53 | The query is true exactly when the aggregator answered true. A failed request reads as not registered. |
| TsRegistration.RegisterWithAggregator | square-number/operator/src/api/services/registration.ts:55-65 | A failure is swallowed and leaves the gauges alone. Success sets the aggregator gauge to 1. |
| TsRegistration.HeartbeatTick | square-number/operator/src/api/services/registration.ts:21-28 | A tick registers exactly when the query did not answer true, a failed query included. The aggregator gauge reads 1 afterwards exactly when the query said registered, the registration succeeded, or it already read 1. |
| TsRegistration.Ticks | square-number/operator/src/api/services/registration.ts:21-28 | Heartbeat ticks never touch the on-chain gauge. |
| TsRegistration.AggregatorGaugeStays | square-number/operator/src/api/services/registration.ts:24-27 | Once the aggregator gauge reads 1, it reads 1 after any run of ticks. |
| TsRegistration.TickAgainstRust | square-number/operator/src/api/services/registration.ts:21-28 | On an answered query a tick registers exactly when the Rust heartbeat does. On a failed query it registers where the Rust heartbeat does not. |
| TsRegistration.NoRetryUnlikeRust | square-number/operator/src/api/services/registration.ts:8-19 | A failed DSS read is not retried: the heartbeat is never installed and the operator process ends. The Rust loop keeps trying instead. |

## Left out

- Chain plumbing is not modelled: contract bindings, log queries, `submitTaskResponse`, `registerOperatorToDSS`. Their outcomes are inputs.
- The cryptography is not modelled: BLS pairing checks, ECDSA recovery, keccak256, ABI and JSON encoding. These are uninterpreted functions. Point addition is assumed associative and commutative only where permutation is at stake.
- The HTTP transport, the routes, the handlers and the servers are not modelled. A request's outcome is an input.
- File and configuration I/O is not modelled. The checkpoint store is a number, and the TypeScript watcher reads an unreadable store as block 0.
- Concurrency and timing are not modelled: the registry's lock and its poisoning, tokio intervals, `select!` and ctrl-c.
- The TypeScript watcher's un-awaited `forEach(async …)` is not modelled as concurrent. Its callbacks' checkpoint writes race.
- EventWatcher.TsTick: lists the writes of every successful callback. When some callback fails or some `filter` predicate rejects, the process ends at the unhandled rejection, so only the writes whose callbacks finish before it land, and which ones do depends on timing that is not modelled. The exit assumes Node's default handling of unhandled rejections (version 15 on).
- EventWatcher.TsFailureIsLocal: the failure is local within one tick's list of writes only. The process-level effect is stated by EventWatcher.TsEndsProcess, not by this lemma.
- TsRegistration.RegisterOperator: the process ending on a rejected start is a flag of the result. The model does not carry an ended operator on, and assumes Node's default handling of unhandled rejections (version 15 on).
- EventWatcher.TsWrites: lists each written block in event order, but not which write lands last in the file, since that depends on the race above.
- EventWatcher.TsTick: the `Number()` conversions of a task's value and block number are taken as exact. Double precision is not modelled.
- The per-operator request loops are reduced to which replies parse. Request timing and the Rust loop's sequential awaiting are not modelled.
- Prometheus set-up and timestamps are not modelled. A completion time is an opaque parameter, and only the two registration gauges are modelled.
- The TypeScript operator's task controller is not modelled. It squares floating-point numbers; the Rust handler covers the same behaviour on integers.
- The operators' health endpoint is not modelled. It only maps a status to an HTTP code.
- OperatorTask.RunTask: requires the square to fit in 256 bits. What the source does on an overflowing square is not modelled.
- OperatorTask.HandleTask, OperatorTask.RequestTask, OperatorTask.ComputationInjective: carry the same 256-bit bound on the square.
- Stake.SumAssets: stakes and totals are unbounded naturals. A 256-bit overflow of the Rust sums is not modelled; the TypeScript bigints do not overflow.
- EventWatcher.Scan: `block_number + 1` is unbounded. A 64-bit overflow is not modelled.
- Registration.RegisterInDssBls: the failed hash read panics in the source, and since it runs inside `start`, the panic ends both the on-chain loop and the heartbeat. Here it is the outcome `HashUnavailable`, and the model does not carry the ended service on.
- TsAggregation.AccumulateAsWritten, TsAggregation.AccumulateIntended, TsAggregation.DecideIntended, TsAggregation.DecideAsWritten: answers are JavaScript numbers used as `Map` keys, but keys here are exact 256-bit values. Answers above 2^53 that round to the same double would share one entry in the source.
- Registration.OnChainPhase: the unbounded retry loop is modelled over a finite sequence of passes. A run where no pass exits stands for the loop that never ends.
- Registration.StakeRegistrationCall: the `0x` data is kept as the literal text. How the binding turns it into bytes is not modelled.
- EventWatcher.Scan: submission results are logged and ignored by the source, so they are not inputs of the Rust tick.
- BlsAggregation.AggregateRound, StakeAggregation.AggregateRound: `HashMap` iteration order is an input enumeration of the keys. The contracts hold for every order. `max_by_key` returns the last maximal key in that order.

## Findings

| source | as written | input that shows it | evidently intended | confidence | as-written member | corrected member |
|---|---|---|---|---|---|---|
| square-number/aggregator/src/api/services/task.ts:63-70 | `filter` is given an `async` predicate. Its Promise is always truthy, so every response is kept, including forged ones and the `undefined` of a failed request. | One response whose signature recovers to another address, with stake 1: its answer is accepted. | Keep only the responses that arrived and whose signature recovers to their claimed key. | not executed | TsAggregation.ForgedResponseCounted | TsAggregation.VerifiedFilter |
| square-number/aggregator/src/api/services/task.ts:80-81 | A responder outside the stake mapping (stake 0 with floor `0n`) adds `undefined` to a defined stake, so the round throws a `TypeError`. | Two responses with the same answer: the first staked, the second with zero stake. | A responder with no mapped stake adds nothing. | not executed | TsAggregation.UnstakedLaterVoterThrows | TsAggregation.AccumulateIntended |
| square-number/aggregator/src/api/services/task.ts:83-88 | A zero-stake first voter stores `undefined` for its answer. No stake compares greater than `undefined`, and `undefined < total / 2n` is false, so that answer wins and passes the majority check. | An unstaked response answering 1, then a response with stake 10 answering 2: 1 is returned. | Accept the answer with the most stake, and only when it holds at least half of the total. | not executed | TsAggregation.UnstakedFirstVoterWins | TsAggregation.DecideIntended |
