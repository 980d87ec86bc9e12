/** BN254 points as the BLS aggregator holds them, and their conversion to
    the contract's point structs. Coordinates are the canonical integer
    representatives of field elements; an element of the quadratic extension
    field is `c0 + c1 * u`. */
module Points {
  import opened Wrappers
  import opened Tasks

  datatype Fq2 = Fq2(c0: U256, c1: U256)

  datatype G1Point = G1Point(x: U256, y: U256)

  datatype G2Point = G2Point(x: Fq2, y: Fq2)

  /** The contract's `G1Point { X, Y }`. */
  datatype ContractG1Point = ContractG1Point(X: U256, Y: U256)

  /** The contract's `G2Point { X: uint256[2], Y: uint256[2] }`. */
  datatype ContractG2Point = ContractG2Point(X: seq<U256>, Y: seq<U256>)

  /** `From<G1Point>`: the coordinates are copied in their own order. */
  function ToContractG1(p: G1Point): (r: ContractG1Point)
    ensures FromContractG1(r) == p
  {
    ContractG1Point(p.x, p.y)
  }

  function FromContractG1(c: ContractG1Point): G1Point {
    G1Point(c.X, c.Y)
  }

  /** `From<G2Point>`: each coordinate becomes a pair with the `c1`
      coefficient first, the order of the pairing precompile of EIP-197. */
  function ToContractG2(p: G2Point): (r: ContractG2Point)
    ensures |r.X| == 2 && |r.Y| == 2
    ensures FromContractG2(r) == Some(p)
  {
    ContractG2Point([p.x.c1, p.x.c0], [p.y.c1, p.y.c0])
  }

  /** Reading a contract G2 point back: the first word of each pair is the
      `c1` coefficient. Pairs of the wrong length have no reading. */
  function FromContractG2(c: ContractG2Point): Option<G2Point> {
    if |c.X| == 2 && |c.Y| == 2 then
      Some(G2Point(Fq2(c.X[1], c.X[0]), Fq2(c.Y[1], c.Y[0])))
    else
      None
  }

  /** Distinct points give distinct contract points. */
  lemma ContractG1Injective(p: G1Point, q: G1Point)
    requires ToContractG1(p) == ToContractG1(q)
    ensures p == q
  {
    assert FromContractG1(ToContractG1(p)) == p;
  }

  lemma ContractG2Injective(p: G2Point, q: G2Point)
    requires ToContractG2(p) == ToContractG2(q)
    ensures p == q
  {
    assert FromContractG2(ToContractG2(p)) == Some(p);
  }

  /** The conversion swaps the coefficients: unless `c0 == c1`, writing the
      real coefficient first would give a different contract point. */
  lemma ContractG2Swapped(p: G2Point)
    requires p.x.c0 != p.x.c1
    ensures ToContractG2(p).X != [p.x.c0, p.x.c1]
  {
    assert ToContractG2(p).X[0] == p.x.c1;
  }
}
