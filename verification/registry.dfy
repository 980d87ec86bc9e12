/** The Rust aggregator's operator registry: a hash set of operators, where
    an operator is identified by its address together with its url. */
module Registry {
  import opened Tasks

  /** Equality and hashing are derived over both fields. */
  datatype Operator = Operator(publicKey: Address, url: Url)

  /** `OperatorState::register_operator`: inserting an operator that is
      already present is not an error. */
  function RegisterOperator(ops: set<Operator>, op: Operator): (r: set<Operator>)
    ensures op in r
    ensures ops <= r && r - ops <= {op}
    ensures op in ops ==> r == ops
    ensures |r| <= |ops| + 1
  {
    ops + {op}
  }

  /** `OperatorState::is_operator_registered`: a read-only membership query. */
  function IsOperatorRegistered(ops: set<Operator>, op: Operator): (r: bool)
    ensures r <==> RegisterOperator(ops, op) == ops
  {
    op in ops
  }

  /** The `registerOperator` endpoint: the new state together with the JSON
      reply, which is `true` whenever registration succeeds. */
  function RegisterHandler(ops: set<Operator>, op: Operator): (r: (set<Operator>, bool))
    ensures r.1
    ensures IsOperatorRegistered(r.0, op)
    ensures forall other :: IsOperatorRegistered(ops, other) ==> IsOperatorRegistered(r.0, other)
  {
    (RegisterOperator(ops, op), true)
  }

  /** The `isOperatorRegistered` endpoint leaves the state as it was. */
  function IsRegisteredHandler(ops: set<Operator>, op: Operator): (r: (set<Operator>, bool))
    ensures r.0 == ops
    ensures r.1 <==> op in ops
  {
    (ops, IsOperatorRegistered(ops, op))
  }

  /** Registering makes the operator registered, and exactly the operators
      that were registered before, plus it, are registered afterwards. */
  lemma RegisterThenRegistered(ops: set<Operator>, op: Operator, other: Operator)
    ensures IsOperatorRegistered(RegisterOperator(ops, op), op)
    ensures IsOperatorRegistered(RegisterOperator(ops, op), other)
        <==> other == op || IsOperatorRegistered(ops, other)
  {
  }

  /** Registering twice is the same as registering once. */
  lemma RegisterIdempotent(ops: set<Operator>, op: Operator)
    ensures RegisterOperator(RegisterOperator(ops, op), op) == RegisterOperator(ops, op)
  {
  }

  /** The same address announced under two urls gives two members, and a
      query under the other url is not answered by the first registration. */
  lemma SameKeyOtherUrl(ops: set<Operator>, key: Address, u1: Url, u2: Url)
    requires u1 != u2
    requires Operator(key, u2) !in ops
    ensures !IsOperatorRegistered(RegisterOperator(ops, Operator(key, u1)), Operator(key, u2))
    ensures |RegisterOperator(RegisterOperator(ops, Operator(key, u1)), Operator(key, u2))|
        == |RegisterOperator(ops, Operator(key, u1))| + 1
  {
  }
}
