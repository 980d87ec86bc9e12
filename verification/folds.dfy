/** Sequential reductions shared by both aggregators: Rust's `Iterator::reduce`
    over an abstract point addition, `max_by_key` over a hash map's iteration
    order, and plain sums of amounts. */
module Folds {
  import opened Wrappers

  ghost predicate Associative<P(!new)>(add: (P, P) -> P) {
    forall a, b, c :: add(add(a, b), c) == add(a, add(b, c))
  }

  ghost predicate Commutative<P(!new)>(add: (P, P) -> P) {
    forall a, b :: add(a, b) == add(b, a)
  }

  /** Elliptic-curve point addition is only ever used through these two laws. */
  ghost predicate CommutativeSemigroup<P(!new)>(add: (P, P) -> P) {
    Associative(add) && Commutative(add)
  }

  /** Left fold starting from an accumulator. */
  function Fold<P>(add: (P, P) -> P, acc: P, xs: seq<P>): P
    decreases |xs|
  {
    if |xs| == 0 then acc else Fold(add, add(acc, xs[0]), xs[1..])
  }

  /** `Iterator::reduce`: `None` on an empty sequence, otherwise the left fold
      that starts from the first element. */
  function Reduce<P>(add: (P, P) -> P, xs: seq<P>): (r: Option<P>)
    ensures r.Some? <==> |xs| > 0
    ensures |xs| == 1 ==> r == Some(xs[0])
  {
    if |xs| == 0 then None else Some(Fold(add, xs[0], xs[1..]))
  }

  /** In a commutative semigroup an element can be pulled out of the middle
      of the sequence into the accumulator. */
  lemma {:induction false} FoldExtract<P(!new)>(add: (P, P) -> P, acc: P, a: seq<P>, x: P, b: seq<P>)
    requires CommutativeSemigroup(add)
    ensures Fold(add, acc, a + [x] + b) == Fold(add, add(acc, x), a + b)
    decreases |a|
  {
    if |a| == 0 {
      assert a + [x] + b == [x] + b;
      assert ([x] + b)[1..] == b;
      assert a + b == b;
    } else {
      var a0 := a[0];
      assert (a + [x] + b)[0] == a0;
      assert (a + [x] + b)[1..] == a[1..] + [x] + b;
      FoldExtract(add, add(acc, a0), a[1..], x, b);
      assert (a + b)[0] == a0;
      assert (a + b)[1..] == a[1..] + b;
      calc {
        add(add(acc, a0), x);
        add(acc, add(a0, x));
        add(acc, add(x, a0));
        add(add(acc, x), a0);
      }
    }
  }

  /** Folding a permutation gives the same point: arrival order of the
      operators' responses does not change an aggregate. */
  lemma {:induction false} FoldPermutation<P(!new)>(add: (P, P) -> P, acc: P, xs: seq<P>, ys: seq<P>)
    requires CommutativeSemigroup(add)
    requires multiset(xs) == multiset(ys)
    ensures Fold(add, acc, xs) == Fold(add, acc, ys)
    decreases |xs|
  {
    if |xs| == 0 {
      EmptyPermutation(xs, ys);
    } else {
      var x := xs[0];
      assert x in multiset(xs);
      var j := IndexOf(ys, x);
      var rest := ys[..j] + ys[j+1..];
      assert ys == ys[..j] + [x] + ys[j+1..];
      FoldExtract(add, acc, ys[..j], x, ys[j+1..]);
      assert xs == [x] + xs[1..];
      RemoveAt(xs, 0);
      RemoveAt(ys, j);
      assert xs[..0] + xs[1..] == xs[1..];
      FoldPermutation(add, add(acc, x), xs[1..], rest);
    }
  }

  /** A position of an element known to occur in the sequence. */
  lemma IndexOf<P>(ys: seq<P>, x: P) returns (j: nat)
    requires x in multiset(ys)
    ensures j < |ys| && ys[j] == x
  {
    assert x in ys;
    j :| 0 <= j < |ys| && ys[j] == x;
  }

  lemma EmptyPermutation<P>(xs: seq<P>, ys: seq<P>)
    requires multiset(xs) == multiset(ys)
    requires |xs| == 0
    ensures ys == []
  {
    assert |multiset(ys)| == 0;
  }

  lemma RemoveAt<P>(ys: seq<P>, j: nat)
    requires j < |ys|
    ensures multiset(ys[..j] + ys[j+1..]) == multiset(ys) - multiset{ys[j]}
  {
    assert ys == ys[..j] + [ys[j]] + ys[j+1..];
  }

  /** Removing the head of `xs` and its copy in `ys` keeps a permutation. */
  lemma PermutationTail<P>(xs: seq<P>, ys: seq<P>, j: nat)
    requires multiset(xs) == multiset(ys)
    requires 0 < |xs| && j < |ys| && ys[j] == xs[0]
    ensures multiset(xs[1..]) == multiset(ys[..j] + ys[j+1..])
  {
    assert multiset(xs[1..]) == multiset(xs) - multiset{xs[0]} by {
      assert xs == [xs[0]] + xs[1..];
    }
    RemoveAt(ys, j);
  }

  /** Moving the element at position `j` to the front does not change the
      fold that starts from the first element. */
  lemma MoveToFront<P(!new)>(add: (P, P) -> P, ys: seq<P>, j: nat)
    requires CommutativeSemigroup(add)
    requires 0 < j < |ys|
    ensures Fold(add, ys[0], ys[1..]) == Fold(add, ys[j], [ys[0]] + ys[1..j] + ys[j+1..])
  {
    var x, y := ys[j], ys[0];
    var mid, tail := ys[1..j], ys[j+1..];
    assert ys[1..] == mid + [x] + tail;
    FoldExtract(add, y, mid, x, tail);
    var moved := [y] + mid + tail;
    assert moved[0] == y;
    assert moved[1..] == mid + tail;
    assert add(x, y) == add(y, x);
  }

  /** `reduce` over a commutative semigroup depends only on the multiset of
      its inputs. */
  lemma {:induction false} ReducePermutation<P(!new)>(add: (P, P) -> P, xs: seq<P>, ys: seq<P>)
    requires CommutativeSemigroup(add)
    requires multiset(xs) == multiset(ys)
    ensures Reduce(add, xs) == Reduce(add, ys)
  {
    if |xs| == 0 {
      EmptyPermutation(xs, ys);
    } else {
      var x := xs[0];
      assert x in multiset(xs);
      var j := IndexOf(ys, x);
      PermutationTail(xs, ys, j);
      if j == 0 {
        assert ys[..0] + ys[1..] == ys[1..];
        FoldPermutation(add, x, xs[1..], ys[1..]);
      } else {
        MoveToFront(add, ys, j);
        var others := [ys[0]] + ys[1..j] + ys[j+1..];
        assert ys[..j] + ys[j+1..] == others;
        FoldPermutation(add, x, xs[1..], others);
      }
    }
  }

  /** The elements of `xs` that satisfy `p`, in their original order. */
  function Filter<A>(p: A -> bool, xs: seq<A>): (r: seq<A>)
    ensures |r| <= |xs|
    ensures forall i :: 0 <= i < |r| ==> p(r[i]) && r[i] in xs
    ensures forall x :: x in xs && p(x) ==> x in r
  {
    if |xs| == 0 then []
    else
      var init := Filter(p, xs[..|xs| - 1]);
      var x := xs[|xs| - 1];
      assert xs == xs[..|xs| - 1] + [x];
      if p(x) then init + [x] else init
  }

  lemma FilterSnoc<A>(p: A -> bool, xs: seq<A>, x: A)
    ensures Filter(p, xs + [x]) == if p(x) then Filter(p, xs) + [x] else Filter(p, xs)
  {
    assert (xs + [x])[..|xs|] == xs;
  }

  /** Filtering with a predicate every element satisfies changes nothing. */
  lemma {:induction false} FilterAll<A>(p: A -> bool, xs: seq<A>)
    requires forall i :: 0 <= i < |xs| ==> p(xs[i])
    ensures Filter(p, xs) == xs
    decreases |xs|
  {
    if |xs| > 0 {
      FilterAll(p, xs[..|xs| - 1]);
      assert xs == xs[..|xs| - 1] + [xs[|xs| - 1]];
    }
  }

  /** Filtering with a predicate no element satisfies leaves nothing. */
  lemma {:induction false} FilterNone<A>(p: A -> bool, xs: seq<A>)
    requires forall i :: 0 <= i < |xs| ==> !p(xs[i])
    ensures Filter(p, xs) == []
    decreases |xs|
  {
    if |xs| > 0 {
      FilterNone(p, xs[..|xs| - 1]);
    }
  }

  /** Filtering keeps every copy of a satisfying element and drops every copy
      of the others. */
  lemma {:induction false} FilterMultiset<A>(p: A -> bool, xs: seq<A>)
    ensures forall a :: multiset(Filter(p, xs))[a] == if p(a) then multiset(xs)[a] else 0
    decreases |xs|
  {
    if |xs| > 0 {
      var init := xs[..|xs| - 1];
      FilterMultiset(p, init);
      assert xs == init + [xs[|xs| - 1]];
    }
  }

  lemma FilterPermutation<A>(p: A -> bool, xs: seq<A>, ys: seq<A>)
    requires multiset(xs) == multiset(ys)
    ensures multiset(Filter(p, xs)) == multiset(Filter(p, ys))
  {
    FilterMultiset(p, xs);
    FilterMultiset(p, ys);
  }

  function Map<A, B>(f: A -> B, xs: seq<A>): (r: seq<B>)
    ensures |r| == |xs|
    ensures forall i :: 0 <= i < |xs| ==> r[i] == f(xs[i])
  {
    seq(|xs|, i requires 0 <= i < |xs| => f(xs[i]))
  }

  lemma MapConcat<A, B>(f: A -> B, xs: seq<A>, ys: seq<A>)
    ensures Map(f, xs + ys) == Map(f, xs) + Map(f, ys)
  {
    assert Map(f, xs + ys) == Map(f, xs) + Map(f, ys);
  }

  lemma MapSnoc<A, B>(f: A -> B, xs: seq<A>, x: A)
    ensures Map(f, xs + [x]) == Map(f, xs) + [f(x)]
  {
  }

  /** Mapping, then removing the image of position `j`, equals removing
      position `j`, then mapping. */
  lemma MapRemove<A, B>(f: A -> B, ys: seq<A>, j: nat)
    requires j < |ys|
    ensures multiset(Map(f, ys)) == multiset(Map(f, ys[..j] + ys[j+1..])) + multiset{f(ys[j])}
  {
    var a, y, b := ys[..j], ys[j], ys[j+1..];
    assert ys == a + ([y] + b);
    MapConcat(f, a, [y] + b);
    MapConcat(f, [y], b);
    MapConcat(f, a, b);
    var fa, fb := Map(f, a), Map(f, b);
    assert Map(f, [y]) == [f(y)];
    assert Map(f, ys) == fa + ([f(y)] + fb);
    assert Map(f, a + b) == fa + fb;
    assert multiset(fa + ([f(y)] + fb)) == multiset(fa) + multiset{f(y)} + multiset(fb);
  }

  /** Mapping a non-empty sequence contributes the image of its head once. */
  lemma MapHead<A, B>(f: A -> B, xs: seq<A>)
    requires 0 < |xs|
    ensures multiset(Map(f, xs)) == multiset(Map(f, xs[1..])) + multiset{f(xs[0])}
  {
    var t := Map(f, xs[1..]);
    assert Map(f, xs) == [f(xs[0])] + t;
  }

  /** Mapping a permutation gives a permutation. */
  lemma {:induction false} MapPermutation<A, B>(f: A -> B, xs: seq<A>, ys: seq<A>)
    requires multiset(xs) == multiset(ys)
    ensures multiset(Map(f, xs)) == multiset(Map(f, ys))
    decreases |xs|
  {
    if |xs| == 0 {
      EmptyPermutation(xs, ys);
    } else {
      var x := xs[0];
      assert x in multiset(xs);
      var j := IndexOf(ys, x);
      var tl, rest := xs[1..], ys[..j] + ys[j+1..];
      PermutationTail(xs, ys, j);
      MapPermutation(f, tl, rest);
      MapHead(f, xs);
      MapRemove(f, ys, j);
      var m1, m2 := multiset(Map(f, tl)), multiset(Map(f, rest));
      assert m1 == m2;
      assert multiset(Map(f, xs)) == m1 + multiset{f(x)};
      assert multiset(Map(f, ys)) == m2 + multiset{f(x)};
    }
  }

  /** Sum of amounts, accumulated left to right. */
  function Sum(xs: seq<nat>): nat
  {
    if |xs| == 0 then 0 else Sum(xs[..|xs| - 1]) + xs[|xs| - 1]
  }

  lemma SumSnoc(xs: seq<nat>, x: nat)
    ensures Sum(xs + [x]) == Sum(xs) + x
  {
    assert (xs + [x])[..|xs|] == xs;
  }

  /** Summing a mapped sequence, one more element at a time. */
  lemma SumMapSnoc<A>(f: A -> nat, xs: seq<A>, x: A)
    ensures Sum(Map(f, xs + [x])) == Sum(Map(f, xs)) + f(x)
  {
    MapSnoc(f, xs, x);
    SumSnoc(Map(f, xs), f(x));
  }

  predicate NoDuplicates<T(==)>(xs: seq<T>) {
    forall i, j :: 0 <= i < j < |xs| ==> xs[i] != xs[j]
  }

  /** `xs` lists every element of `s` exactly once: one possible iteration
      order of a Rust `HashSet` or of the keys of a `HashMap`. */
  predicate IsEnumeration<T(==)>(xs: seq<T>, s: set<T>) {
    && NoDuplicates(xs)
    && (forall i :: 0 <= i < |xs| ==> xs[i] in s)
    && (forall x :: x in s ==> x in xs)
  }

  lemma {:induction false} EnumerationSize<T>(xs: seq<T>, s: set<T>)
    requires IsEnumeration(xs, s)
    ensures |xs| == |s|
    decreases |xs|
  {
    if |xs| > 0 {
      var last := xs[|xs| - 1];
      var init := xs[..|xs| - 1];
      forall i | 0 <= i < |init|
        ensures init[i] in s - {last}
      {
        assert init[i] == xs[i];
      }
      forall x | x in s - {last}
        ensures x in init
      {
        var i :| 0 <= i < |xs| && xs[i] == x;
        assert i != |xs| - 1;
        assert init[i] == x;
      }
      EnumerationSize(init, s - {last});
    }
  }

  /** `Iterator::max_by_key` on a weighted iteration order: `None` when the
      order is empty, otherwise an element of maximal weight; among equal
      maxima the last one wins. */
  function MaxByKey<K>(order: seq<K>, weight: K -> nat): (r: Option<K>)
    ensures r.None? <==> |order| == 0
    ensures r.Some? ==> r.value in order
    ensures r.Some? ==> forall i :: 0 <= i < |order| ==> weight(order[i]) <= weight(r.value)
  {
    if |order| == 0 then None
    else
      var best := MaxByKey(order[..|order| - 1], weight);
      var k := order[|order| - 1];
      if best.None? || weight(k) >= weight(best.value) then Some(k) else best
  }

  /** The choice depends only on the weights of the listed keys. */
  lemma {:induction false} MaxByKeyWeights<K>(order: seq<K>, w1: K -> nat, w2: K -> nat)
    requires forall i :: 0 <= i < |order| ==> w1(order[i]) == w2(order[i])
    ensures MaxByKey(order, w1) == MaxByKey(order, w2)
    decreases |order|
  {
    if |order| > 0 {
      MaxByKeyWeights(order[..|order| - 1], w1, w2);
    }
  }
}
