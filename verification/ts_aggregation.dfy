/** The TypeScript stake-weighted aggregator's `sendTaskToAllOperators`, after
    the requests: the verification filter, the per-answer stake map and the
    reduction to a winner. It is modelled twice: as written, with the
    JavaScript semantics of `undefined` spelled out, and as evidently
    intended, which agrees with the Rust aggregator. */
module TsAggregation {
  import opened Wrappers
  import opened Tasks
  import opened Folds
  import opened Stake
  import opened StakeAggregation
  import Dispatch

  /** What a rejected promise carries. */
  datatype JsError =
    /** Reading a property of `undefined`, `bigint + undefined`, or
        `reduce` of an empty array without an initial value. */
    | TypeError
    /** `new Error("Majority not reached")`. */
    | NoMajority
    /** A rejected contract read. */
    | Rejected(cause: TaskError)

  /** A JavaScript `Map` keyed by answers: its keys in insertion order and
      the value stored under each. */
  datatype JsMap<V> = JsMap(keys: seq<U256>, values: map<U256, V>)

  /** The keys are listed once each, in insertion order. */
  predicate Valid<V>(m: JsMap<V>) {
    IsEnumeration(m.keys, m.values.Keys)
  }

  function EmptyMap<V>(): (m: JsMap<V>)
    ensures Valid(m) && m.values.Keys == {}
  {
    JsMap([], map[])
  }

  /** `Map.prototype.set`: a key already present keeps its position and takes
      the new value; a new key goes last. */
  function Set<V>(m: JsMap<V>, k: U256, v: V): (r: JsMap<V>)
    requires Valid(m)
    ensures Valid(r)
    ensures r.values == m.values[k := v]
    ensures k in m.values ==> r.keys == m.keys
    ensures k !in m.values ==> r.keys == m.keys + [k]
  {
    if k in m.values then JsMap(m.keys, m.values[k := v])
    else JsMap(m.keys + [k], m.values[k := v])
  }

  /** `[...m.entries()]`: the entries in insertion order. */
  function EntriesOf<V>(m: JsMap<V>): seq<(U256, V)>
    requires Valid(m)
  {
    seq(|m.keys|, i requires 0 <= i < |m.keys| => (m.keys[i], m.values[m.keys[i]]))
  }

  /** Some response gives `a` before any response gives `b`. */
  predicate GivenBefore(responses: seq<TaskResponse>, a: U256, b: U256) {
    exists i :: 0 <= i < |responses| && AnswerOf(responses[i]) == a
      && forall j :: 0 <= j < i ==> AnswerOf(responses[j]) != b
  }

  /** `keys` lists answers in the order they were first given. */
  predicate FirstSeenOrder(responses: seq<TaskResponse>, keys: seq<U256>) {
    forall a, b :: 0 <= a < b < |keys| ==> GivenBefore(responses, keys[a], keys[b])
  }

  /** Of two different answers, at most one is given before the other. */
  lemma GivenBeforeOneWay(responses: seq<TaskResponse>, a: U256, b: U256)
    ensures a != b && GivenBefore(responses, a, b) ==> !GivenBefore(responses, b, a)
  {
    if a != b && GivenBefore(responses, a, b) {
      var i :| 0 <= i < |responses| && AnswerOf(responses[i]) == a
               && forall j :: 0 <= j < i ==> AnswerOf(responses[j]) != b;
      forall j | 0 <= j < |responses| && AnswerOf(responses[j]) == b
        ensures exists k :: 0 <= k < j && AnswerOf(responses[k]) == a
      {
        assert i < j;
      }
    }
  }

  /** A response extends the first-seen order: an answer given before keeps
      its place, and a new answer goes last. */
  lemma FirstSeenSnoc(init: seq<TaskResponse>, x: TaskResponse, keys: seq<U256>)
    requires IsEnumeration(keys, Voted(init))
    requires FirstSeenOrder(init, keys)
    ensures FirstSeenOrder(init + [x], if AnswerOf(x) in Voted(init) then keys else keys + [AnswerOf(x)])
  {
    var rs := init + [x];
    var k := AnswerOf(x);
    var keys' := if k in Voted(init) then keys else keys + [k];
    VotedSnoc(init, x);
    assert forall i :: 0 <= i < |init| ==> rs[i] == init[i];
    assert forall i :: 0 <= i < |keys| ==> keys'[i] == keys[i];
    forall a, b | 0 <= a < b < |keys'|
      ensures GivenBefore(rs, keys'[a], keys'[b])
    {
      if b < |keys| {
        assert GivenBefore(init, keys[a], keys[b]);
        var i :| 0 <= i < |init| && AnswerOf(init[i]) == keys[a]
                 && forall j :: 0 <= j < i ==> AnswerOf(init[j]) != keys[b];
        assert AnswerOf(rs[i]) == keys'[a];
      } else {
        assert keys'[a] in Voted(init);
        var y :| y in init && AnswerOf(y) == keys'[a];
        var i :| 0 <= i < |init| && init[i] == y;
        forall j | 0 <= j < i
          ensures AnswerOf(rs[j]) != keys'[b]
        {
          assert init[j] in init;
        }
      }
    }
  }

  // ---------------------------------------------------------------------
  // As written

  /** The verification filter as written: the predicate is an `async`
      function, so it returns a Promise, and a Promise object is truthy
      whatever it resolves to. `None` is the `undefined` placeholder of a
      failed request. */
  function AsyncFilter(e: EcdsaOracles, slots: seq<Option<TaskResponse>>): (r: seq<Option<TaskResponse>>)
    ensures |r| <= |slots|
  {
    Filter(PromiseTruthy(e), slots)
  }

  function PromiseTruthy(e: EcdsaOracles): Option<TaskResponse> -> bool {
    (s: Option<TaskResponse>) => true
  }

  /** Whether some call of the async predicate rejects. Its promise is
      dropped by `filter`, so nothing handles the rejection. The predicate
      reads `response.publicKey`, which throws on the `undefined` of a failed
      request, and `verifyMessage` throws when no signer can be recovered
      from the signature. */
  function PredicateRejects(e: EcdsaOracles, slots: seq<Option<TaskResponse>>): (r: bool)
    ensures r <==> exists i :: 0 <= i < |slots| && (slots[i].None? || VerifyMessage(e, slots[i].value).None?)
  {
    if |slots| == 0 then false
    else
      var init, last := slots[..|slots| - 1], slots[|slots| - 1];
      assert forall i :: 0 <= i < |init| ==> init[i] == slots[i];
      PredicateRejects(e, init) || last.None? || VerifyMessage(e, last.value).None?
  }

  /** The filter keeps every slot, whether or not its signature verifies. */
  lemma AsyncFilterKeepsAll(e: EcdsaOracles, slots: seq<Option<TaskResponse>>)
    ensures AsyncFilter(e, slots) == slots
  {
    FilterAll(PromiseTruthy(e), slots);
  }

  /** `operatorResponses.map((response) => response.publicKey!)`: reading
      the key of an `undefined` placeholder throws. */
  function AllPresent(slots: seq<Option<TaskResponse>>): (r: Result<seq<TaskResponse>, JsError>)
    ensures r.Ok? <==> forall i :: 0 <= i < |slots| ==> slots[i].Some?
    ensures r.Err? ==> r.error == TypeError
    ensures r.Ok? ==> |r.value| == |slots| && forall i :: 0 <= i < |slots| ==> slots[i] == Some(r.value[i])
  {
    if |slots| == 0 then Ok([])
    else
      var init := slots[..|slots| - 1];
      assert forall i :: 0 <= i < |init| ==> init[i] == slots[i];
      var rest :- AllPresent(init);
      match slots[|slots| - 1]
      case None => Err(TypeError)
      case Some(x) => Ok(rest + [x])
  }

  /** `operatorStakes.get(publicKey)`: `undefined` for a responder outside
      the stake mapping. */
  function StakeEntry(stakes: map<Address, nat>, r: TaskResponse): Option<nat> {
    if r.publicKey in stakes then Some(stakes[r.publicKey]) else None
  }

  /** `responseMap.get(k)`: `undefined` both for a missing key and for a key
      stored with the value `undefined`. */
  function Get(m: JsMap<Option<nat>>, k: U256): Option<nat> {
    if k in m.values then m.values[k] else None
  }

  /** The `forEach` that builds `responseMap`, as written, one response at a
      time. */
  function AccumulateAsWritten(responses: seq<TaskResponse>, stakes: map<Address, nat>): (r: Result<JsMap<Option<nat>>, JsError>)
    ensures r.Err? ==> r.error == TypeError
    ensures r.Ok? ==> Valid(r.value)
  {
    if |responses| == 0 then Ok(EmptyMap())
    else
      var m :- AccumulateAsWritten(responses[..|responses| - 1], stakes);
      WrittenStep(m, responses[|responses| - 1], stakes)
  }

  /** The map as written lists its keys in the order the answers were first
      given. */
  lemma {:induction false} AccumulateAsWrittenOrder(responses: seq<TaskResponse>, stakes: map<Address, nat>)
    ensures AccumulateAsWritten(responses, stakes).Ok? ==>
      FirstSeenOrder(responses, AccumulateAsWritten(responses, stakes).value.keys)
    decreases |responses|
  {
    if |responses| > 0 {
      var init, x := responses[..|responses| - 1], responses[|responses| - 1];
      assert responses == init + [x];
      AccumulateAsWrittenOrder(init, stakes);
      AccumulateAsWrittenSpec(init, stakes);
      var prev := AccumulateAsWritten(init, stakes);
      if prev.Ok? {
        FirstSeenSnoc(init, x, prev.value.keys);
      }
    }
  }

  /** One iteration as written: an entry holding a number is added to, and
      `bigint + undefined` throws; an entry that is missing or `undefined` is
      overwritten, possibly with `undefined`. */
  function WrittenStep(m: JsMap<Option<nat>>, x: TaskResponse, stakes: map<Address, nat>): (r: Result<JsMap<Option<nat>>, JsError>)
    requires Valid(m)
    ensures r.Err? ==> r.error == TypeError
    ensures r.Ok? ==> Valid(r.value)
    ensures r.Ok? ==> r.value.values.Keys == m.values.Keys + {AnswerOf(x)}
    ensures r.Ok? ==> r.value.keys == if AnswerOf(x) in m.values then m.keys else m.keys + [AnswerOf(x)]
  {
    var s := StakeEntry(stakes, x);
    match Get(m, AnswerOf(x))
    case Some(acc) =>
      if s.Some? then Ok(Set(m, AnswerOf(x), Some(acc + s.value))) else Err(TypeError)
    case None => Ok(Set(m, AnswerOf(x), s))
  }

  /** The responder has an entry in the stake mapping. */
  predicate Staked(stakes: map<Address, nat>, r: TaskResponse) {
    r.publicKey in stakes
  }

  /** Some response for `k` comes from a staked responder. */
  predicate HasStakedVoter(responses: seq<TaskResponse>, stakes: map<Address, nat>, k: U256) {
    exists i :: 0 <= i < |responses| && AnswerOf(responses[i]) == k && Staked(stakes, responses[i])
  }

  /** An unstaked responder gives an answer that a staked responder gave
      before it. */
  predicate LateUnstaked(responses: seq<TaskResponse>, stakes: map<Address, nat>) {
    exists i, j :: 0 <= i < j < |responses| && LatePair(responses, stakes, i, j)
  }

  predicate LatePair(responses: seq<TaskResponse>, stakes: map<Address, nat>, i: nat, j: nat)
    requires i < j < |responses|
  {
    AnswerOf(responses[i]) == AnswerOf(responses[j]) && Staked(stakes, responses[i]) && !Staked(stakes, responses[j])
  }

  /** Without a staked voter, an answer has no stake recorded. */
  lemma {:induction false} StakeForUnstaked(responses: seq<TaskResponse>, stakes: map<Address, nat>, k: U256)
    requires !HasStakedVoter(responses, stakes, k)
    ensures StakeFor(responses, stakes, k) == 0
    decreases |responses|
  {
    if |responses| > 0 {
      var init := responses[..|responses| - 1];
      forall i | 0 <= i < |init|
        ensures !(AnswerOf(init[i]) == k && Staked(stakes, init[i]))
      {
        assert responses[i] == init[i];
      }
      StakeForUnstaked(init, stakes, k);
    }
  }

  /** What the map as written holds when it did not throw: its keys are the
      answers given, and an answer's entry is its recorded stake when a
      staked responder gave it and `undefined` when none did. */
  predicate WrittenMapHolds(responses: seq<TaskResponse>, stakes: map<Address, nat>, m: JsMap<Option<nat>>) {
    && m.values.Keys == Voted(responses)
    && forall k :: k in m.values ==>
         m.values[k] == if HasStakedVoter(responses, stakes, k) then Some(StakeFor(responses, stakes, k)) else None
  }

  /** The map as written throws exactly when an unstaked responder follows a
      staked one with the same answer; otherwise it holds what
      `WrittenMapHolds` says. */
  lemma {:induction false} AccumulateAsWrittenSpec(responses: seq<TaskResponse>, stakes: map<Address, nat>)
    ensures AccumulateAsWritten(responses, stakes).Err? <==> LateUnstaked(responses, stakes)
    ensures AccumulateAsWritten(responses, stakes).Ok? ==>
      WrittenMapHolds(responses, stakes, AccumulateAsWritten(responses, stakes).value)
    decreases |responses|
  {
    if |responses| > 0 {
      var init, x := responses[..|responses| - 1], responses[|responses| - 1];
      assert responses == init + [x];
      AccumulateAsWrittenSpec(init, stakes);
      if LateUnstaked(init, stakes) {
        var i, j :| 0 <= i < j < |init| && LatePair(init, stakes, i, j);
        assert responses[i] == init[i] && responses[j] == init[j];
        assert LatePair(responses, stakes, i, j);
      } else {
        AccumulateStep(init, x, stakes);
      }
    }
  }

  /** One step of the `forEach`, from a prefix on which it did not throw. */
  lemma AccumulateStep(init: seq<TaskResponse>, x: TaskResponse, stakes: map<Address, nat>)
    requires !LateUnstaked(init, stakes)
    requires AccumulateAsWritten(init, stakes).Ok?
    requires WrittenMapHolds(init, stakes, AccumulateAsWritten(init, stakes).value)
    ensures AccumulateAsWritten(init + [x], stakes).Err? <==> LateUnstaked(init + [x], stakes)
    ensures AccumulateAsWritten(init + [x], stakes).Ok? ==>
      WrittenMapHolds(init + [x], stakes, AccumulateAsWritten(init + [x], stakes).value)
  {
    var responses := init + [x];
    assert responses[..|responses| - 1] == init;
    var m := AccumulateAsWritten(init, stakes).value;
    assert AccumulateAsWritten(responses, stakes) == WrittenStep(m, x, stakes);
    var k := AnswerOf(x);
    if HasStakedVoter(init, stakes, k) && !Staked(stakes, x) {
      var i :| 0 <= i < |init| && AnswerOf(init[i]) == k && Staked(stakes, init[i]);
      assert responses[i] == init[i];
      assert LatePair(responses, stakes, i, |init|);
    } else {
      NoNewLatePair(init, x, stakes);
      WrittenStepHolds(init, x, stakes, m);
    }
  }

  /** A step that does not throw keeps `WrittenMapHolds`. */
  lemma WrittenStepHolds(init: seq<TaskResponse>, x: TaskResponse, stakes: map<Address, nat>, m: JsMap<Option<nat>>)
    requires Valid(m) && WrittenMapHolds(init, stakes, m)
    requires Staked(stakes, x) || !HasStakedVoter(init, stakes, AnswerOf(x))
    ensures WrittenStep(m, x, stakes).Ok?
    ensures WrittenMapHolds(init + [x], stakes, WrittenStep(m, x, stakes).value)
  {
    var k := AnswerOf(x);
    var r := WrittenStep(m, x, stakes).value;
    VotedSnoc(init, x);
    assert r.values == m.values[k := r.values[k]];
    forall k' | k' in r.values
      ensures r.values[k'] == if HasStakedVoter(init + [x], stakes, k') then Some(StakeFor(init + [x], stakes, k')) else None
    {
      WrittenStepValue(init, x, stakes, m, k');
    }
  }

  lemma WrittenStepValue(init: seq<TaskResponse>, x: TaskResponse, stakes: map<Address, nat>, m: JsMap<Option<nat>>, k: U256)
    requires Valid(m) && WrittenMapHolds(init, stakes, m)
    requires Staked(stakes, x) || !HasStakedVoter(init, stakes, AnswerOf(x))
    requires WrittenStep(m, x, stakes).Ok?
    requires k in WrittenStep(m, x, stakes).value.values
    ensures WrittenStep(m, x, stakes).value.values[k]
         == if HasStakedVoter(init + [x], stakes, k) then Some(StakeFor(init + [x], stakes, k)) else None
  {
    if k == AnswerOf(x) {
      WrittenStepAnswer(init, x, stakes, m);
    } else {
      SnocVoter(init, x, stakes, k);
      assert WrittenStep(m, x, stakes).value.values[k] == m.values[k];
    }
  }

  /** The entry of the answer the step adds to. */
  lemma WrittenStepAnswer(init: seq<TaskResponse>, x: TaskResponse, stakes: map<Address, nat>, m: JsMap<Option<nat>>)
    requires Valid(m) && WrittenMapHolds(init, stakes, m)
    requires Staked(stakes, x) || !HasStakedVoter(init, stakes, AnswerOf(x))
    requires WrittenStep(m, x, stakes).Ok?
    ensures var k := AnswerOf(x);
      WrittenStep(m, x, stakes).value.values[k]
        == if HasStakedVoter(init + [x], stakes, k) then Some(StakeFor(init + [x], stakes, k)) else None
  {
    var k := AnswerOf(x);
    SnocVoter(init, x, stakes, k);
    if !HasStakedVoter(init, stakes, k) {
      StakeForUnstaked(init, stakes, k);
    }
  }

  /** How appending a response changes an answer's staked voters and
      recorded stake. */
  lemma SnocVoter(init: seq<TaskResponse>, x: TaskResponse, stakes: map<Address, nat>, k: U256)
    ensures HasStakedVoter(init + [x], stakes, k)
        <==> HasStakedVoter(init, stakes, k) || (AnswerOf(x) == k && Staked(stakes, x))
    ensures StakeFor(init + [x], stakes, k)
        == StakeFor(init, stakes, k) + (if AnswerOf(x) == k then LookupStake(stakes)(x) else 0)
  {
    var responses := init + [x];
    assert responses[..|responses| - 1] == init;
    assert responses[|init|] == x;
    forall i | 0 <= i < |init| ensures responses[i] == init[i] { }
  }

  lemma VotedSnoc(init: seq<TaskResponse>, x: TaskResponse)
    ensures Voted(init + [x]) == Voted(init) + {AnswerOf(x)}
  {
    assert forall r :: r in init + [x] <==> r in init || r == x;
  }

  /** Appending a response creates no new late pair unless it is unstaked
      and a staked responder gave its answer before. */
  lemma NoNewLatePair(init: seq<TaskResponse>, x: TaskResponse, stakes: map<Address, nat>)
    requires !LateUnstaked(init, stakes)
    requires Staked(stakes, x) || !HasStakedVoter(init, stakes, AnswerOf(x))
    ensures !LateUnstaked(init + [x], stakes)
  {
    var responses := init + [x];
    forall i, j | 0 <= i < j < |responses|
      ensures !LatePair(responses, stakes, i, j)
    {
      assert responses[i] == init[i];
      if j < |init| {
        assert responses[j] == init[j];
        assert !LatePair(init, stakes, i, j);
      }
    }
  }

  /** JavaScript `>` between a bigint and `undefined` is false either way. */
  function Greater(b: Option<nat>, a: Option<nat>): bool {
    b.Some? && a.Some? && b.value > a.value
  }

  /** `reduce((a, b) => (b[1] > a[1] ? b : a))` over a non-empty entry list:
      a later entry replaces the current one only when it is greater. */
  function BestAsWritten(entries: seq<(U256, Option<nat>)>): (r: (U256, Option<nat>))
    requires |entries| > 0
    ensures r in entries
  {
    if |entries| == 1 then entries[0]
    else
      var a := BestAsWritten(entries[..|entries| - 1]);
      var b := entries[|entries| - 1];
      if Greater(b.1, a.1) then b else a
  }

  /** `reduce` without an initial value throws on an empty array. */
  function ReduceAsWritten(entries: seq<(U256, Option<nat>)>): (r: Result<(U256, Option<nat>), JsError>)
    ensures r.Err? <==> |entries| == 0
    ensures r.Err? ==> r.error == TypeError
    ensures r.Ok? ==> r.value in entries
  {
    if |entries| == 0 then Err(TypeError) else Ok(BestAsWritten(entries))
  }

  /** An `undefined` first entry is never replaced: no value compares
      greater than `undefined`. */
  lemma {:induction false} UndefinedFirstEntryWins(entries: seq<(U256, Option<nat>)>)
    requires |entries| > 0
    requires entries[0].1.None?
    ensures BestAsWritten(entries) == entries[0]
    decreases |entries|
  {
    if |entries| > 1 {
      UndefinedFirstEntryWins(entries[..|entries| - 1]);
    }
  }

  /** The decision after the stake mapping, as written. It throws a
      `TypeError` exactly when the `forEach` throws or there is no response
      to reduce. Otherwise the entry the reduction keeps decides: its stake
      is `undefined` when no staked responder gave its answer, `undefined <
      x` is false, so such a winner passes the majority check, and a defined
      stake below half the total is rejected. */
  function DecideAsWritten(responses: seq<TaskResponse>, stakes: map<Address, nat>, total: nat): (r: Result<U256, JsError>)
    ensures r == Err(TypeError) <==> |responses| == 0 || LateUnstaked(responses, stakes)
    ensures r.Err? ==> r == Err(TypeError) || r == Err(NoMajority)
    ensures var m := AccumulateAsWritten(responses, stakes);
      m.Ok? && |m.value.keys| > 0 ==>
        var best := BestAsWritten(EntriesOf(m.value));
        && best.1 == (if HasStakedVoter(responses, stakes, best.0) then Some(StakeFor(responses, stakes, best.0)) else None)
        && (r == Err(NoMajority) <==> best.1.Some? && best.1.value < total / 2)
        && (r.Ok? ==> r.value == best.0)
    ensures r.Ok? ==> r.value in Voted(responses)
  {
    AccumulateAsWrittenSpec(responses, stakes);
    var m :- AccumulateAsWritten(responses, stakes);
    assert |responses| > 0 ==> AnswerOf(responses[0]) in m.values.Keys;
    var best :- ReduceAsWritten(EntriesOf(m));
    match best.1
    case None => Ok(best.0)
    case Some(s) => if s < total / 2 then Err(NoMajority) else Ok(best.0)
  }

  /** `sendTaskToAllOperators` after `Promise.all`, as written. */
  function SendTaskAsWritten(e: EcdsaOracles, c: ChainOracles, slots: seq<Option<TaskResponse>>): (r: Result<U256, JsError>)
    ensures (exists i :: 0 <= i < |slots| && slots[i].None?) ==> r == Err(TypeError)
  {
    AsyncFilterKeepsAll(e, slots);
    var responses :- AllPresent(AsyncFilter(e, slots));
    match StakeMapping(c, Map(PublicKeyOf, responses), 0)
    case Err(cause) => Err(Rejected(cause))
    case Ok(sm) => DecideAsWritten(responses, sm.stakes, sm.total)
  }

  // ---------------------------------------------------------------------
  // As intended

  /** The responses that arrived and whose signature recovers to the
      claimed address, in order. */
  function VerifiedFilter(e: EcdsaOracles, slots: seq<Option<TaskResponse>>): (r: seq<TaskResponse>)
    ensures |r| <= |slots|
    ensures forall x :: x in r <==> Some(x) in slots && Authentic(e, x)
  {
    if |slots| == 0 then []
    else
      var init := slots[..|slots| - 1];
      var last := slots[|slots| - 1];
      assert slots == init + [last];
      var kept := VerifiedFilter(e, init);
      if last.Some? && Authentic(e, last.value) then kept + [last.value] else kept
  }

  /** The stake map as intended: a responder outside the stake mapping adds
      zero. */
  function AccumulateIntended(responses: seq<TaskResponse>, stakes: map<Address, nat>): (m: JsMap<nat>)
    ensures Valid(m)
    ensures m.values.Keys == Voted(responses)
    ensures forall k :: k in m.values ==> m.values[k] == StakeFor(responses, stakes, k)
  {
    if |responses| == 0 then EmptyMap()
    else
      var init, x := responses[..|responses| - 1], responses[|responses| - 1];
      assert responses == init + [x];
      var m := AccumulateIntended(init, stakes);
      var r := IntendedStep(m, x, stakes);
      VotedSnoc(init, x);
      IntendedStepValues(init, x, stakes, m);
      r
  }

  /** The intended map lists its keys in the order the answers were first
      given. */
  lemma {:induction false} AccumulateIntendedOrder(responses: seq<TaskResponse>, stakes: map<Address, nat>)
    ensures FirstSeenOrder(responses, AccumulateIntended(responses, stakes).keys)
    decreases |responses|
  {
    if |responses| > 0 {
      var init, x := responses[..|responses| - 1], responses[|responses| - 1];
      assert responses == init + [x];
      AccumulateIntendedOrder(init, stakes);
      AccumulateIntendedSnocKeys(responses, stakes);
      FirstSeenSnoc(init, x, AccumulateIntended(init, stakes).keys);
    }
  }

  /** The last response adds its answer to the keys when it is new. */
  lemma AccumulateIntendedSnocKeys(responses: seq<TaskResponse>, stakes: map<Address, nat>)
    requires |responses| > 0
    ensures
      var init, x := responses[..|responses| - 1], responses[|responses| - 1];
      var prev := AccumulateIntended(init, stakes).keys;
      AccumulateIntended(responses, stakes).keys == if AnswerOf(x) in Voted(init) then prev else prev + [AnswerOf(x)]
  {
  }

  /** One intended step keeps every entry the summed stake of its answer. */
  lemma IntendedStepValues(init: seq<TaskResponse>, x: TaskResponse, stakes: map<Address, nat>, m: JsMap<nat>)
    requires Valid(m)
    requires m.values.Keys == Voted(init)
    requires forall k :: k in m.values ==> m.values[k] == StakeFor(init, stakes, k)
    ensures forall k :: k in IntendedStep(m, x, stakes).values ==>
      IntendedStep(m, x, stakes).values[k] == StakeFor(init + [x], stakes, k)
  {
    var r := IntendedStep(m, x, stakes);
    forall k | k in r.values
      ensures r.values[k] == StakeFor(init + [x], stakes, k)
    {
      SnocVoter(init, x, stakes, k);
      if k == AnswerOf(x) && k !in m.values {
        StakeForUnvoted(init, stakes, k);
      }
    }
  }

  /** One iteration as intended. */
  function IntendedStep(m: JsMap<nat>, x: TaskResponse, stakes: map<Address, nat>): (r: JsMap<nat>)
    requires Valid(m)
    ensures Valid(r)
    ensures r.keys == if AnswerOf(x) in m.values then m.keys else m.keys + [AnswerOf(x)]
  {
    var s := LookupStake(stakes)(x);
    if AnswerOf(x) in m.values then Set(m, AnswerOf(x), m.values[AnswerOf(x)] + s)
    else Set(m, AnswerOf(x), s)
  }

  /** The position the reduction picks, as intended: the first entry of
      maximal value. */
  function FirstMaxIndex(entries: seq<(U256, nat)>): (i: nat)
    requires |entries| > 0
    ensures i < |entries|
    ensures forall j :: 0 <= j < |entries| ==> entries[j].1 <= entries[i].1
    ensures forall j :: 0 <= j < i ==> entries[j].1 < entries[i].1
  {
    if |entries| == 1 then 0
    else
      var a := FirstMaxIndex(entries[..|entries| - 1]);
      if entries[|entries| - 1].1 > entries[a].1 then |entries| - 1 else a
  }

  /** The decision after the stake mapping, as intended. */
  function DecideIntended(responses: seq<TaskResponse>, stakes: map<Address, nat>, total: nat): (r: Result<U256, JsError>)
    ensures r == Err(TypeError) <==> |responses| == 0
    ensures r == Err(NoMajority) <==>
      |responses| > 0 && forall k :: k in Voted(responses) ==> StakeFor(responses, stakes, k) < total / 2
    ensures r.Ok? || r == Err(TypeError) || r == Err(NoMajority)
    ensures r.Ok? ==>
      && r.value in Voted(responses)
      && (forall k :: k in Voted(responses) ==> StakeFor(responses, stakes, k) <= StakeFor(responses, stakes, r.value))
      && (forall k :: k in Voted(responses) && k != r.value && GivenBefore(responses, k, r.value) ==>
            StakeFor(responses, stakes, k) < StakeFor(responses, stakes, r.value))
      && StakeFor(responses, stakes, r.value) >= total / 2
  {
    var m := AccumulateIntended(responses, stakes);
    var entries := EntriesOf(m);
    if |entries| == 0 then
      FirstAnswerVoted(responses);
      Err(TypeError)
    else
      var i := FirstMaxIndex(entries);
      IntendedWinner(responses, stakes, i);
      if entries[i].1 < total / 2 then Err(NoMajority) else Ok(entries[i].0)
  }

  lemma FirstAnswerVoted(responses: seq<TaskResponse>)
    ensures |responses| > 0 ==> AnswerOf(responses[0]) in Voted(responses)
  {
  }

  /** The first maximal entry holds an answer given, with its recorded
      stake, which no other answer exceeds. */
  lemma IntendedWinner(responses: seq<TaskResponse>, stakes: map<Address, nat>, i: nat)
    requires |AccumulateIntended(responses, stakes).keys| > 0
    requires i == FirstMaxIndex(EntriesOf(AccumulateIntended(responses, stakes)))
    ensures |responses| > 0
    ensures
      var entries := EntriesOf(AccumulateIntended(responses, stakes));
      && entries[i].0 in Voted(responses)
      && entries[i].1 == StakeFor(responses, stakes, entries[i].0)
      && (forall k :: k in Voted(responses) ==> StakeFor(responses, stakes, k) <= entries[i].1)
      && (forall k :: k in Voted(responses) && k != entries[i].0 && GivenBefore(responses, k, entries[i].0) ==>
            StakeFor(responses, stakes, k) < entries[i].1)
  {
    var m := AccumulateIntended(responses, stakes);
    assert m.keys[0] in Voted(responses);
    IntendedWinnerMax(responses, stakes, i);
    IntendedWinnerTie(responses, stakes, i);
  }

  lemma IntendedWinnerMax(responses: seq<TaskResponse>, stakes: map<Address, nat>, i: nat)
    requires |AccumulateIntended(responses, stakes).keys| > 0
    requires i == FirstMaxIndex(EntriesOf(AccumulateIntended(responses, stakes)))
    ensures
      var entries := EntriesOf(AccumulateIntended(responses, stakes));
      forall k :: k in Voted(responses) ==> StakeFor(responses, stakes, k) <= entries[i].1
  {
    var m := AccumulateIntended(responses, stakes);
    var entries := EntriesOf(m);
    forall k | k in Voted(responses)
      ensures StakeFor(responses, stakes, k) <= entries[i].1
    {
      var j :| 0 <= j < |m.keys| && m.keys[j] == k;
      assert entries[j].1 == StakeFor(responses, stakes, k);
    }
  }

  lemma IntendedWinnerTie(responses: seq<TaskResponse>, stakes: map<Address, nat>, i: nat)
    requires |AccumulateIntended(responses, stakes).keys| > 0
    requires i == FirstMaxIndex(EntriesOf(AccumulateIntended(responses, stakes)))
    ensures
      var entries := EntriesOf(AccumulateIntended(responses, stakes));
      forall k :: k in Voted(responses) && k != entries[i].0 && GivenBefore(responses, k, entries[i].0) ==>
        StakeFor(responses, stakes, k) < entries[i].1
  {
    AccumulateIntendedOrder(responses, stakes);
    TieInOrder(responses, stakes, AccumulateIntended(responses, stakes), i);
  }

  /** Over any map that lists the summed stakes in first-seen order, no
      answer given before the first maximal entry's answer reaches its
      stake. */
  lemma TieInOrder(responses: seq<TaskResponse>, stakes: map<Address, nat>, m: JsMap<nat>, i: nat)
    requires Valid(m) && |m.keys| > 0
    requires m.values.Keys == Voted(responses)
    requires forall k :: k in m.values ==> m.values[k] == StakeFor(responses, stakes, k)
    requires FirstSeenOrder(responses, m.keys)
    requires i == FirstMaxIndex(EntriesOf(m))
    ensures
      var entries := EntriesOf(m);
      forall k :: k in Voted(responses) && k != entries[i].0 && GivenBefore(responses, k, entries[i].0) ==>
        StakeFor(responses, stakes, k) < entries[i].1
  {
    var entries := EntriesOf(m);
    forall k | k in Voted(responses) && k != entries[i].0 && GivenBefore(responses, k, entries[i].0)
      ensures StakeFor(responses, stakes, k) < entries[i].1
    {
      var p :| 0 <= p < |m.keys| && m.keys[p] == k;
      EarlierIndex(responses, m.keys, p, i);
      assert entries[p].1 == StakeFor(responses, stakes, k);
    }
  }

  /** In first-seen order, an answer given before another sits earlier. */
  lemma EarlierIndex(responses: seq<TaskResponse>, keys: seq<U256>, p: nat, i: nat)
    requires FirstSeenOrder(responses, keys)
    requires p < |keys| && i < |keys| && keys[p] != keys[i]
    requires GivenBefore(responses, keys[p], keys[i])
    ensures p < i
  {
    GivenBeforeOneWay(responses, keys[p], keys[i]);
  }

  /** `sendTaskToAllOperators` as intended: only verified responses count,
      and a chain read that fails rejects the promise. */
  function SendTaskIntended(e: EcdsaOracles, c: ChainOracles, slots: seq<Option<TaskResponse>>): (r: Result<U256, JsError>)
    ensures !StakesReadable(c, VerifiedFilter(e, slots)) ==> r.Err? && r.error.Rejected?
  {
    var verified := VerifiedFilter(e, slots);
    AddressesReadable(c, verified);
    match StakeMapping(c, Map(PublicKeyOf, verified), 0)
    case Err(cause) => Err(Rejected(cause))
    case Ok(sm) => DecideIntended(verified, sm.stakes, sm.total)
  }

  /** With every stake readable, the intended TypeScript round accepts
      exactly when the Rust round over the same verified responses does,
      fails for want of responses exactly when it does, and an accepted
      answer carries maximal stake and at least half of the total. */
  lemma IntendedMatchesRust(e: EcdsaOracles, c: ChainOracles, slots: seq<Option<TaskResponse>>, keyOrder: seq<U256>)
    requires IsEnumeration(keyOrder, Voted(VerifiedFilter(e, slots)))
    requires StakesReadable(c, VerifiedFilter(e, slots))
    ensures
      var v := VerifiedFilter(e, slots);
      var ts := SendTaskIntended(e, c, slots);
      var rust := Decide(c, v, keyOrder);
      && (ts.Ok? <==> rust.Ok?)
      && (ts == Err(TypeError) <==> rust == Err(TaskVerificationFailed))
      && (ts == Err(NoMajority) <==> rust == Err(MajorityNotReached))
      && (ts.Ok? ==>
            && (forall k :: k in Voted(v) ==> ValueStake(c, v, k) <= ValueStake(c, v, ts.value))
            && ValueStake(c, v, ts.value) >= TotalStake(c, v) / 2)
  {
    var v := VerifiedFilter(e, slots);
    AddressesReadable(c, v);
    TallyMatchesChain(c, v);
  }

  /** Each value made defined. */
  function Lift(m: JsMap<nat>): JsMap<Option<nat>>
    requires Valid(m)
  {
    JsMap(m.keys, map k | k in m.values :: Some(m.values[k]))
  }

  /** With the responder staked, one iteration as written is the intended
      one with the values made defined. */
  lemma StepAgrees(m: JsMap<nat>, x: TaskResponse, stakes: map<Address, nat>)
    requires Valid(m)
    requires Staked(stakes, x)
    ensures WrittenStep(Lift(m), x, stakes) == Ok(Lift(IntendedStep(m, x, stakes)))
  {
    var k := AnswerOf(x);
    var s := stakes[x.publicKey];
    assert StakeEntry(stakes, x) == Some(s) && LookupStake(stakes)(x) == s;
    var v := if k in m.values then m.values[k] + s else s;
    assert IntendedStep(m, x, stakes) == Set(m, k, v);
    assert Get(Lift(m), k) == if k in m.values then Some(m.values[k]) else None;
    assert WrittenStep(Lift(m), x, stakes) == Ok(Set(Lift(m), k, Some(v)));
    LiftSet(m, k, v);
  }

  /** Lifting commutes with `set`. */
  lemma LiftSet(m: JsMap<nat>, k: U256, v: nat)
    requires Valid(m)
    ensures Lift(Set(m, k, v)) == Set(Lift(m), k, Some(v))
  {
    var a, b := Lift(Set(m, k, v)), Set(Lift(m), k, Some(v));
    assert a.keys == b.keys;
    forall j | j in a.values
      ensures j in b.values && a.values[j] == b.values[j]
    {
    }
    assert a.values == b.values;
  }

  /** With every responder staked, the map as written is the intended one
      with all values defined. */
  lemma {:induction false} AccumulateAgrees(responses: seq<TaskResponse>, stakes: map<Address, nat>)
    requires forall i :: 0 <= i < |responses| ==> Staked(stakes, responses[i])
    ensures AccumulateAsWritten(responses, stakes) == Ok(Lift(AccumulateIntended(responses, stakes)))
    decreases |responses|
  {
    if |responses| == 0 {
      assert Lift(EmptyMap()).values == map[];
    } else {
      var init, x := responses[..|responses| - 1], responses[|responses| - 1];
      assert forall i :: 0 <= i < |init| ==> init[i] == responses[i];
      AccumulateAgrees(init, stakes);
      StepAgrees(AccumulateIntended(init, stakes), x, stakes);
    }
  }

  function LiftEntry(e: (U256, nat)): (U256, Option<nat>) {
    (e.0, Some(e.1))
  }

  lemma EntriesOfLift(m: JsMap<nat>)
    requires Valid(m)
    ensures EntriesOf(Lift(m)) == Map(LiftEntry, EntriesOf(m))
  {
  }

  /** Over defined values, the reduction as written picks the first maximal
      entry. */
  lemma {:induction false} BestAsWrittenLift(entries: seq<(U256, nat)>)
    requires |entries| > 0
    ensures BestAsWritten(Map(LiftEntry, entries)) == LiftEntry(entries[FirstMaxIndex(entries)])
    decreases |entries|
  {
    if |entries| > 1 {
      assert Map(LiftEntry, entries)[..|entries| - 1] == Map(LiftEntry, entries[..|entries| - 1]);
      BestAsWrittenLift(entries[..|entries| - 1]);
    }
  }

  /** When every responder is staked, the code as written computes the
      intended result. */
  lemma AsWrittenAgreesWhenStaked(responses: seq<TaskResponse>, stakes: map<Address, nat>, total: nat)
    requires forall i :: 0 <= i < |responses| ==> Staked(stakes, responses[i])
    ensures DecideAsWritten(responses, stakes, total) == DecideIntended(responses, stakes, total)
  {
    AccumulateAgrees(responses, stakes);
    var m := AccumulateIntended(responses, stakes);
    EntriesOfLift(m);
    if |m.keys| > 0 {
      BestAsWrittenLift(EntriesOf(m));
    }
  }

  // ---------------------------------------------------------------------
  // Where the two differ

  /** A response whose signature recovers to another address survives the
      filter as written and decides the round on its own; the intended
      filter drops it and no answer is accepted. */
  lemma ForgedResponseCounted(e: EcdsaOracles, r: TaskResponse)
    requires !Authentic(e, r)
    ensures AsyncFilter(e, [Some(r)]) == [Some(r)]
    ensures DecideAsWritten([r], map[r.publicKey := 1], 1) == Ok(AnswerOf(r))
    ensures VerifiedFilter(e, [Some(r)]) == []
    ensures DecideIntended(VerifiedFilter(e, [Some(r)]), map[r.publicKey := 1], 1) == Err(TypeError)
  {
    AsyncFilterKeepsAll(e, [Some(r)]);
    AsWrittenAgreesWhenStaked([r], map[r.publicKey := 1], 1);
    VotedSnoc([], r);
    assert [r] == [] + [r];
    assert Voted([]) == {};
  }

  /** `sendTaskToAllOperators` over the replies of the registered
      operators. As written, one failed request rejects the round, and when
      every request succeeds every reply goes on to the stake map in
      registry order, authentic or not. The intended filter keeps exactly
      the authentic replies. */
  lemma RegistryRound<O>(e: EcdsaOracles, c: ChainOracles, registry: seq<O>, reply: O -> Option<TaskResponse>)
    ensures (exists i :: 0 <= i < |registry| && reply(registry[i]).None?)
            ==> SendTaskAsWritten(e, c, Dispatch.CollectAll(registry, reply)) == Err(TypeError)
    ensures (forall i :: 0 <= i < |registry| ==> reply(registry[i]).Some?)
            ==> AllPresent(AsyncFilter(e, Dispatch.CollectAll(registry, reply)))
                == Ok(Dispatch.Replies(Dispatch.Collect(registry, reply)))
    ensures forall x :: x in VerifiedFilter(e, Dispatch.CollectAll(registry, reply)) <==>
      (exists i :: 0 <= i < |registry| && reply(registry[i]) == Some(x)) && Authentic(e, x)
  {
    RegistryRoundFailure(e, c, registry, reply);
    RegistryRoundSuccess(e, registry, reply);
    RegistryRoundFilter(e, registry, reply);
  }

  lemma RegistryRoundFailure<O>(e: EcdsaOracles, c: ChainOracles, registry: seq<O>, reply: O -> Option<TaskResponse>)
    ensures (exists i :: 0 <= i < |registry| && reply(registry[i]).None?)
            ==> SendTaskAsWritten(e, c, Dispatch.CollectAll(registry, reply)) == Err(TypeError)
  {
    var slots := Dispatch.CollectAll(registry, reply);
    assert forall i :: 0 <= i < |registry| ==> slots[i] == reply(registry[i]);
  }

  lemma RegistryRoundSuccess<O>(e: EcdsaOracles, registry: seq<O>, reply: O -> Option<TaskResponse>)
    ensures (forall i :: 0 <= i < |registry| ==> reply(registry[i]).Some?)
            ==> AllPresent(AsyncFilter(e, Dispatch.CollectAll(registry, reply)))
                == Ok(Dispatch.Replies(Dispatch.Collect(registry, reply)))
  {
    var slots := Dispatch.CollectAll(registry, reply);
    assert forall i :: 0 <= i < |registry| ==> slots[i] == reply(registry[i]);
    AsyncFilterKeepsAll(e, slots);
    if forall i :: 0 <= i < |registry| ==> reply(registry[i]).Some? {
      Dispatch.CollectAllSucceed(registry, reply);
      var rs := Dispatch.Replies(Dispatch.Collect(registry, reply));
      AllPresentOf(slots, rs);
    }
  }

  /** Slots that all hold a reply give exactly those replies. */
  lemma AllPresentOf(slots: seq<Option<TaskResponse>>, rs: seq<TaskResponse>)
    requires |slots| == |rs|
    requires forall i :: 0 <= i < |rs| ==> slots[i] == Some(rs[i])
    ensures AllPresent(slots) == Ok(rs)
  {
    var present := AllPresent(slots).value;
    assert forall i :: 0 <= i < |rs| ==> present[i] == rs[i];
  }

  lemma RegistryRoundFilter<O>(e: EcdsaOracles, registry: seq<O>, reply: O -> Option<TaskResponse>)
    ensures forall x :: x in VerifiedFilter(e, Dispatch.CollectAll(registry, reply)) <==>
      (exists i :: 0 <= i < |registry| && reply(registry[i]) == Some(x)) && Authentic(e, x)
  {
    var slots := Dispatch.CollectAll(registry, reply);
    assert |slots| == |registry|;
    assert forall i :: 0 <= i < |registry| ==> slots[i] == reply(registry[i]);
    forall x | Some(x) in slots
      ensures exists i :: 0 <= i < |registry| && reply(registry[i]) == Some(x)
    {
      var i :| 0 <= i < |slots| && slots[i] == Some(x);
    }
  }

  /** A reply whose signature cannot be recovered makes the async predicate
      reject, yet the filter keeps the reply and the round goes on to decide
      on it as written. The rejection escapes the round unhandled. */
  lemma UnrecoverableRejectsYetDecides(e: EcdsaOracles, r: TaskResponse)
    requires VerifyMessage(e, r).None?
    ensures PredicateRejects(e, [Some(r)])
    ensures AsyncFilter(e, [Some(r)]) == [Some(r)]
    ensures DecideAsWritten([r], map[r.publicKey := 1], 1) == Ok(AnswerOf(r))
  {
    assert [Some(r)][0] == Some(r);
    AsyncFilterKeepsAll(e, [Some(r)]);
    AsWrittenAgreesWhenStaked([r], map[r.publicKey := 1], 1);
    VotedSnoc([], r);
    assert [r] == [] + [r];
    assert Voted([]) == {};
  }

  /** One failed request rejects the round as written; the intended filter
      just leaves it out. */
  lemma FailedRequestFailsRound(e: EcdsaOracles, c: ChainOracles, r: TaskResponse)
    ensures SendTaskAsWritten(e, c, [None, Some(r)]) == Err(TypeError)
    ensures VerifiedFilter(e, [None, Some(r)]) == VerifiedFilter(e, [Some(r)])
  {
    assert [None, Some(r)][0].None?;
    assert [None, Some(r)][..1] == [None];
    assert [Some(r)][..0] == [];
  }

  /** An unstaked responder after a staked one with the same answer makes
      the round throw as written; intended, it adds nothing. */
  lemma UnstakedLaterVoterThrows(r1: TaskResponse, r2: TaskResponse, stakes: map<Address, nat>)
    requires AnswerOf(r1) == AnswerOf(r2)
    requires Staked(stakes, r1) && !Staked(stakes, r2)
    ensures AccumulateAsWritten([r1, r2], stakes) == Err(TypeError)
    ensures AccumulateIntended([r1, r2], stakes).values == map[AnswerOf(r1) := stakes[r1.publicKey]]
  {
    LaterUnstakedThrows(r1, r2, stakes);
    LaterUnstakedAddsNothing(r1, r2, stakes);
  }

  lemma LaterUnstakedThrows(r1: TaskResponse, r2: TaskResponse, stakes: map<Address, nat>)
    requires AnswerOf(r1) == AnswerOf(r2)
    requires Staked(stakes, r1) && !Staked(stakes, r2)
    ensures AccumulateAsWritten([r1, r2], stakes) == Err(TypeError)
  {
    var rs := [r1, r2];
    AccumulateAsWrittenSpec(rs, stakes);
    assert LatePair(rs, stakes, 0, 1);
  }

  lemma LaterUnstakedAddsNothing(r1: TaskResponse, r2: TaskResponse, stakes: map<Address, nat>)
    requires AnswerOf(r1) == AnswerOf(r2)
    requires Staked(stakes, r1) && !Staked(stakes, r2)
    ensures AccumulateIntended([r1, r2], stakes).values == map[AnswerOf(r1) := stakes[r1.publicKey]]
  {
    var rs := [r1, r2];
    assert rs[..1] == [r1];
    assert [r1][..0] == [];
  }

  /** An unstaked first responder's answer is stored as `undefined`, wins
      the reduction and passes the majority check as written, although a
      staked responder holding the whole total gave another answer;
      intended, the staked answer wins. */
  lemma UnstakedFirstVoterWins(r1: TaskResponse, r2: TaskResponse, stakes: map<Address, nat>)
    requires AnswerOf(r1) != AnswerOf(r2)
    requires !Staked(stakes, r1) && Staked(stakes, r2) && stakes[r2.publicKey] > 0
    ensures DecideAsWritten([r1, r2], stakes, stakes[r2.publicKey]) == Ok(AnswerOf(r1))
    ensures DecideIntended([r1, r2], stakes, stakes[r2.publicKey]) == Ok(AnswerOf(r2))
  {
    var m := PairWrittenMap(r1, r2, stakes);
    assert EntriesOf(m)[0] == (AnswerOf(r1), None);
    UndefinedFirstEntryWins(EntriesOf(m));
    PairStakes(r1, r2, stakes);
  }

  /** The map as written after an unstaked and then a staked responder with
      different answers. */
  lemma PairWrittenMap(r1: TaskResponse, r2: TaskResponse, stakes: map<Address, nat>) returns (m: JsMap<Option<nat>>)
    requires AnswerOf(r1) != AnswerOf(r2)
    requires !Staked(stakes, r1) && Staked(stakes, r2)
    ensures m == JsMap([AnswerOf(r1), AnswerOf(r2)], map[AnswerOf(r1) := None, AnswerOf(r2) := Some(stakes[r2.publicKey])])
    ensures AccumulateAsWritten([r1, r2], stakes) == Ok(m)
  {
    var a1, a2 := AnswerOf(r1), AnswerOf(r2);
    assert [r1, r2][..1] == [r1];
    assert [r1][..0] == [];
    var m1 := JsMap([a1], map[a1 := None]);
    var e: JsMap<Option<nat>> := EmptyMap();
    assert StakeEntry(stakes, r1) == None && Get(e, a1) == None;
    assert Set(e, a1, None) == m1 by {
      assert e.keys + [a1] == [a1];
    }
    assert AccumulateAsWritten([r1], stakes) == WrittenStep(e, r1, stakes) == Ok(m1);
    m := JsMap([a1, a2], map[a1 := None, a2 := Some(stakes[r2.publicKey])]);
    assert Get(m1, a2) == None;
    assert StakeEntry(stakes, r2) == Some(stakes[r2.publicKey]);
    assert Set(m1, a2, Some(stakes[r2.publicKey])) == m;
    assert WrittenStep(m1, r2, stakes) == Ok(m);
  }

  /** The answers and recorded stakes of an unstaked and then a staked
      responder with different answers. */
  lemma PairStakes(r1: TaskResponse, r2: TaskResponse, stakes: map<Address, nat>)
    requires AnswerOf(r1) != AnswerOf(r2)
    requires !Staked(stakes, r1) && Staked(stakes, r2)
    ensures Voted([r1, r2]) == {AnswerOf(r1), AnswerOf(r2)}
    ensures StakeFor([r1, r2], stakes, AnswerOf(r1)) == 0
    ensures StakeFor([r1, r2], stakes, AnswerOf(r2)) == stakes[r2.publicKey]
  {
    VotedSnoc([r1], r2);
    VotedSnoc([], r1);
    assert [r1] == [] + [r1] && [r1, r2] == [r1] + [r2];
    assert Voted([]) == {};
    SnocVoter([r1], r2, stakes, AnswerOf(r2));
    SnocVoter([r1], r2, stakes, AnswerOf(r1));
    SnocVoter([], r1, stakes, AnswerOf(r1));
    SnocVoter([], r1, stakes, AnswerOf(r2));
  }
}
