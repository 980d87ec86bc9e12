/** Sending a task to every registered operator and keeping the replies that
    arrived and parsed. The network is an oracle `reply` that yields `None`
    for a failed send, an unreadable body or a body that does not parse. */
module Dispatch {
  import opened Wrappers

  /** The Rust request loop: one request per operator in iteration order,
      keeping each parsed reply with the operator it came from. */
  function Collect<O, R>(order: seq<O>, reply: O -> Option<R>): (r: seq<(O, R)>)
    ensures |r| <= |order|
    ensures forall i :: 0 <= i < |r| ==> r[i].0 in order && reply(r[i].0) == Some(r[i].1)
    ensures forall i :: 0 <= i < |order| && reply(order[i]).Some? ==> (order[i], reply(order[i]).value) in r
  {
    if |order| == 0 then []
    else
      var init := Collect(order[..|order| - 1], reply);
      var o := order[|order| - 1];
      assert forall i :: 0 <= i < |order| - 1 ==> order[..|order| - 1][i] == order[i];
      match reply(o)
      case Some(x) => init + [(o, x)]
      case None => init
  }

  /** Without duplicate operators, each replying operator appears once. */
  lemma {:induction false} CollectOncePerOperator<O, R>(order: seq<O>, reply: O -> Option<R>, i: nat, j: nat)
    requires forall a, b :: 0 <= a < b < |order| ==> order[a] != order[b]
    requires i < j < |Collect(order, reply)|
    ensures Collect(order, reply)[i].0 != Collect(order, reply)[j].0
    decreases |order|
  {
    var init := order[..|order| - 1];
    var o := order[|order| - 1];
    if j < |Collect(init, reply)| {
      CollectOncePerOperator(init, reply, i, j);
    } else {
      assert Collect(order, reply)[j].0 == o;
      assert Collect(order, reply)[i] == Collect(init, reply)[i];
      assert Collect(init, reply)[i].0 in init;
    }
  }

  /** When every request succeeds, the collected replies follow the
      iteration order one for one. */
  lemma {:induction false} CollectAllSucceed<O, R>(order: seq<O>, reply: O -> Option<R>)
    requires forall i :: 0 <= i < |order| ==> reply(order[i]).Some?
    ensures |Collect(order, reply)| == |order|
    ensures forall i :: 0 <= i < |order| ==> Collect(order, reply)[i] == (order[i], reply(order[i]).value)
    decreases |order|
  {
    if |order| > 0 {
      var init := order[..|order| - 1];
      var o := order[|order| - 1];
      assert forall i :: 0 <= i < |init| ==> init[i] == order[i];
      CollectAllSucceed(init, reply);
      var c, ci := Collect(order, reply), Collect(init, reply);
      assert c == ci + [(o, reply(o).value)];
      forall i | 0 <= i < |order|
        ensures c[i] == (order[i], reply(order[i]).value)
      {
        if i < |init| {
          assert c[i] == ci[i];
        }
      }
    }
  }

  /** The TypeScript `Promise.all` over the operators: one slot per operator,
      `None` standing for the `undefined` placeholder of a failed request. */
  function CollectAll<O, R>(order: seq<O>, reply: O -> Option<R>): seq<Option<R>>
  {
    seq(|order|, i requires 0 <= i < |order| => reply(order[i]))
  }

  /** The replies alone, in the order they were collected. */
  function Replies<O, R>(collected: seq<(O, R)>): (r: seq<R>)
    ensures |r| == |collected|
    ensures forall i :: 0 <= i < |r| ==> r[i] == collected[i].1
  {
    seq(|collected|, i requires 0 <= i < |collected| => collected[i].1)
  }

  /** A reply is among the collected ones exactly when some operator in the
      iteration sent it. */
  lemma CollectedReplies<O, R>(order: seq<O>, reply: O -> Option<R>)
    ensures forall x :: x in Replies(Collect(order, reply)) <==> exists i :: 0 <= i < |order| && reply(order[i]) == Some(x)
  {
    var c := Collect(order, reply);
    forall x | x in Replies(c)
      ensures exists i :: 0 <= i < |order| && reply(order[i]) == Some(x)
    {
      var j :| 0 <= j < |c| && Replies(c)[j] == x;
      var i :| 0 <= i < |order| && order[i] == c[j].0;
    }
    forall x, i | 0 <= i < |order| && reply(order[i]) == Some(x)
      ensures x in Replies(c)
    {
      var j :| 0 <= j < |c| && c[j] == (order[i], x);
      assert Replies(c)[j] == x;
    }
  }

  /** The replies held in the slots that are not `undefined`, in order. */
  function Present<R>(slots: seq<Option<R>>): (r: seq<R>)
    ensures |r| <= |slots|
    ensures forall i :: 0 <= i < |r| ==> Some(r[i]) in slots
    ensures forall i :: 0 <= i < |slots| && slots[i].Some? ==> slots[i].value in r
  {
    if |slots| == 0 then []
    else
      var init := slots[..|slots| - 1];
      assert slots == init + [slots[|slots| - 1]];
      match slots[|slots| - 1]
      case Some(x) => Present(init) + [x]
      case None => Present(init)
  }

  /** The Rust loop and the TypeScript `Promise.all` see the same replies
      in the same order: the Rust one simply never holds a slot for a
      failed request. */
  lemma {:induction false} CollectIsPresentSlots<O, R>(order: seq<O>, reply: O -> Option<R>)
    ensures Replies(Collect(order, reply)) == Present(CollectAll(order, reply))
    decreases |order|
  {
    if |order| > 0 {
      var init := order[..|order| - 1];
      var o := order[|order| - 1];
      CollectIsPresentSlots(init, reply);
      CollectAllSnoc(order, reply);
      PresentSnoc(CollectAll(init, reply), reply(o));
      match reply(o)
      case Some(x) =>
        assert Collect(order, reply) == Collect(init, reply) + [(o, x)];
        RepliesSnoc(Collect(init, reply), (o, x));
      case None =>
        assert Collect(order, reply) == Collect(init, reply);
    }
  }

  lemma CollectAllSnoc<O, R>(order: seq<O>, reply: O -> Option<R>)
    requires |order| > 0
    ensures CollectAll(order, reply) == CollectAll(order[..|order| - 1], reply) + [reply(order[|order| - 1])]
  {
  }

  lemma PresentSnoc<R>(slots: seq<Option<R>>, s: Option<R>)
    ensures Present(slots + [s]) == Present(slots) + (if s.Some? then [s.value] else [])
  {
    assert (slots + [s])[..|slots|] == slots;
  }

  lemma RepliesSnoc<O, R>(c: seq<(O, R)>, p: (O, R))
    ensures Replies(c + [p]) == Replies(c) + [p.1]
  {
  }
}
