/** The TypeScript aggregator's operator list: registration is gated on the
    DSS contract and on `includes`, which compares object identity, while
    the lookup compares addresses only. */
module TsRegistry {
  import opened Wrappers
  import opened Tasks
  import Registry

  /** A JavaScript operator object; `id` stands for its identity. */
  datatype TsOperator = TsOperator(id: nat, publicKey: Address, url: Url)

  /** The errors `registerOperator` throws. */
  datatype RegisterError =
    | DssQueryFailed(cause: Failure)
    | NotRegisteredInDss
    | AlreadyRegistered

  /** `Array.prototype.includes` on objects: the same object is in the list. */
  predicate Includes(ops: seq<TsOperator>, op: TsOperator) {
    exists i :: 0 <= i < |ops| && ops[i].id == op.id
  }

  /** `registerOperator`: `inDss` is the awaited `isOperatorRegistered` read
      of the DSS contract, whose rejection propagates. */
  function RegisterOperator(ops: seq<TsOperator>, op: TsOperator, inDss: Result<bool, Failure>): (r: Result<seq<TsOperator>, RegisterError>)
    ensures r.Ok? <==> inDss == Ok(true) && !Includes(ops, op)
    ensures r.Ok? ==> r.value == ops + [op]
    ensures r == Err(NotRegisteredInDss) <==> inDss == Ok(false)
    ensures r == Err(AlreadyRegistered) <==> inDss == Ok(true) && Includes(ops, op)
  {
    match inDss
    case Err(e) => Err(DssQueryFailed(e))
    case Ok(registered) =>
      if !Includes(ops, op) && registered then Ok(ops + [op])
      else if !registered then Err(NotRegisteredInDss)
      else Err(AlreadyRegistered)
  }

  /** The list after a call: unchanged when it threw. */
  function ListAfter(ops: seq<TsOperator>, op: TsOperator, inDss: Result<bool, Failure>): seq<TsOperator> {
    match RegisterOperator(ops, op, inDss)
    case Ok(after) => after
    case Err(_) => ops
  }

  /** `isOperatorRegistered`: some entry has the queried address; the url
      and the identity are not compared. */
  function IsOperatorRegistered(ops: seq<TsOperator>, query: TsOperator): (r: bool)
    ensures r <==> exists i :: 0 <= i < |ops| && ops[i].publicKey == query.publicKey
  {
    if |ops| == 0 then false
    else ops[|ops| - 1].publicKey == query.publicKey || IsOperatorRegistered(ops[..|ops| - 1], query)
  }

  /** A registration grows the list by exactly the new operator at its end
      and keeps every earlier entry in place; a thrown one changes nothing. */
  lemma RegisterAppends(ops: seq<TsOperator>, op: TsOperator, inDss: Result<bool, Failure>)
    ensures RegisterOperator(ops, op, inDss).Ok? ==>
      |ListAfter(ops, op, inDss)| == |ops| + 1 && ListAfter(ops, op, inDss)[..|ops|] == ops
      && ListAfter(ops, op, inDss)[|ops|] == op
    ensures RegisterOperator(ops, op, inDss).Err? ==> ListAfter(ops, op, inDss) == ops
  {
  }

  /** After a call the lookup answers yes exactly for the addresses it
      answered yes for before, plus the new operator's when the call
      succeeded. */
  lemma {:induction false} RegisterThenRegistered(ops: seq<TsOperator>, op: TsOperator, inDss: Result<bool, Failure>, query: TsOperator)
    ensures IsOperatorRegistered(ListAfter(ops, op, inDss), query)
        <==> IsOperatorRegistered(ops, query)
             || (RegisterOperator(ops, op, inDss).Ok? && query.publicKey == op.publicKey)
  {
    if RegisterOperator(ops, op, inDss).Ok? {
      assert ListAfter(ops, op, inDss)[..|ops|] == ops;
    }
  }

  /** A fresh object carrying the fields of a listed operator is not
      `included`, so it is appended: the list then holds the operator twice. */
  lemma FreshObjectDuplicates(ops: seq<TsOperator>, i: nat, freshId: nat)
    requires i < |ops|
    requires forall j :: 0 <= j < |ops| ==> ops[j].id != freshId
    ensures var copy := TsOperator(freshId, ops[i].publicKey, ops[i].url);
      && RegisterOperator(ops, copy, Ok(true)) == Ok(ops + [copy])
      && (ops + [copy])[i].publicKey == (ops + [copy])[|ops|].publicKey
      && (ops + [copy])[i].url == (ops + [copy])[|ops|].url
  {
  }

  /** The lookup ignores the url, unlike the Rust registry, where the same
      address under another url is a different operator. */
  lemma UrlIgnoredUnlikeRust(key: Address, id: nat, u1: Url, u2: Url)
    requires u1 != u2
    ensures IsOperatorRegistered([TsOperator(id, key, u1)], TsOperator(id + 1, key, u2))
    ensures !Registry.IsOperatorRegistered(Registry.RegisterOperator({}, Registry.Operator(key, u1)), Registry.Operator(key, u2))
  {
  }

  /** Two queries with the same address get the same answer, whatever their
      urls and identities. */
  lemma LookupAnswersByAddress(ops: seq<TsOperator>, q1: TsOperator, q2: TsOperator)
    requires q1.publicKey == q2.publicKey
    ensures IsOperatorRegistered(ops, q1) == IsOperatorRegistered(ops, q2)
  {
  }
}
