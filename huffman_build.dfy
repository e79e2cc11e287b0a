/**
 * `HuffmanTree::from_queue`, shared by lab1-rs and lab5 (the two copies are
 * the same code over two priority queues that differ only in which item
 * `pop` yields): the stored items, drained in pop order, become leaves, and
 * the two trees popped first are merged until one is left.
 */
module HuffmanBuild {
  import opened Common
  import opened CodeTree
  import MaxQueue
  import MinQueue

  /** Which item a queue pops: the heaviest (lab1-rs) or the lightest (lab5). */
  datatype Order = HeaviestFirst | LightestFirst

  /** The index of the item `pop` yields. */
  function PopIndex<T>(order: Order, s: seq<Weighted<T>>): (i: nat)
    requires s != []
    ensures i < |s|
  {
    match order
    case HeaviestFirst => MaxQueue.MaxIndex(s)
    case LightestFirst => MinQueue.MinIndex(s)
  }

  /** The items of `s` in the order repeated `pop`s yield them. */
  function Drain<T>(order: Order, s: seq<Weighted<T>>): (r: seq<Weighted<T>>)
    decreases |s|
  {
    if s == [] then []
    else
      var i := PopIndex(order, s);
      RemoveAtBag(s, i);
      [s[i]] + Drain(order, RemoveAt(s, i))
  }

  /** Draining yields every stored item, once each. */
  lemma {:induction false} DrainBag<T>(order: Order, s: seq<Weighted<T>>)
    ensures |Drain(order, s)| == |s|
    ensures multiset(Drain(order, s)) == multiset(s)
    decreases |s|
  {
    if s != [] {
      var i := PopIndex(order, s);
      RemoveAtBag(s, i);
      DrainBag(order, RemoveAt(s, i));
    }
  }

  /** The same weights, each value wrapped in a leaf (the first loop of `from_queue`). */
  function AsLeaves<T>(s: seq<Weighted<T>>): (r: seq<Weighted<Tree<T>>>)
    ensures |r| == |s|
    ensures forall i :: 0 <= i < |s| ==> r[i] == Weighted(s[i].weight, Leaf(s[i].value))
  {
    if s == [] then [] else [Weighted(s[0].weight, Leaf(s[0].value))] + AsLeaves(s[1..])
  }

  /** The node `from_queue` queues for two popped trees: the first on the left, the weights summed. */
  function Join<T>(a: Weighted<Tree<T>>, b: Weighted<Tree<T>>): (r: Weighted<Tree<T>>)
    ensures r.weight == a.weight + b.weight
    ensures multiset(Leaves(r.value)) == multiset(Leaves(a.value)) + multiset(Leaves(b.value))
  {
    Weighted(a.weight + b.weight, Node(a.value, b.value))
  }

  /** Pops the items at `i` and then `j` and queues the node of the two. */
  function Combine<T>(q: seq<Weighted<Tree<T>>>, i: nat, j: nat): (r: seq<Weighted<Tree<T>>>)
    requires i < |q| && j < |q| - 1
    ensures |r| == |q| - 1
  {
    RemoveAt(RemoveAt(q, i), j) + [Join(q[i], RemoveAt(q, i)[j])]
  }

  /** One round of the second loop of `from_queue`: the two trees `pop` yields first are merged. */
  function MergeOnce<T>(order: Order, q: seq<Weighted<Tree<T>>>): (r: seq<Weighted<Tree<T>>>)
    requires |q| >= 2
    ensures |r| == |q| - 1
  {
    var i := PopIndex(order, q);
    RemoveAtBag(q, i);
    Combine(q, i, PopIndex(order, RemoveAt(q, i)))
  }

  /** The second loop of `from_queue`: merge while more than one tree is queued, then take the last. */
  function Merge<T>(order: Order, q: seq<Weighted<Tree<T>>>): Tree<T>
    requires q != []
    decreases |q|
  {
    if |q| == 1 then q[0].value else Merge(order, MergeOnce(order, q))
  }

  /** `from_queue` on the stored items: `None` where its `assert!` fails (an empty queue). */
  function FromQueueSpec<T>(order: Order, items: seq<Weighted<T>>): Option<Tree<T>>
  {
    if items == [] then None
    else
      DrainBag(order, items);
      Some(Merge(order, AsLeaves(Drain(order, items))))
  }

  /** All leaf values of the queued trees. */
  function Bag<T>(q: seq<Weighted<Tree<T>>>): multiset<T>
  {
    if q == [] then multiset{} else multiset(Leaves(q[0].value)) + Bag(q[1..])
  }

  lemma {:induction false} BagAppend<T>(a: seq<Weighted<Tree<T>>>, b: seq<Weighted<Tree<T>>>)
    ensures Bag(a + b) == Bag(a) + Bag(b)
  {
    if a == [] {
      assert a + b == b;
    } else {
      assert (a + b)[1..] == a[1..] + b;
      BagAppend(a[1..], b);
    }
  }

  lemma BagOne<T>(x: Weighted<Tree<T>>)
    ensures Bag([x]) == multiset(Leaves(x.value))
  {
    assert [x][1..] == [];
  }

  lemma BagRemove<T>(q: seq<Weighted<Tree<T>>>, i: nat)
    requires i < |q|
    ensures Bag(q) == multiset(Leaves(q[i].value)) + Bag(RemoveAt(q, i))
  {
    SplitAt(q, i);
    BagAppend(q[..i], [q[i]] + q[i + 1..]);
    BagAppend([q[i]], q[i + 1..]);
    BagAppend(q[..i], q[i + 1..]);
    BagOne(q[i]);
  }

  /** Popping two trees and queueing their node keeps the leaves, whichever two are popped. */
  lemma CombineBag<T>(q: seq<Weighted<Tree<T>>>, i: nat, j: nat)
    requires i < |q| && j < |q| - 1
    ensures Bag(Combine(q, i, j)) == Bag(q)
  {
    var q1 := RemoveAt(q, i);
    var q2 := RemoveAt(q1, j);
    var n := Join(q[i], q1[j]);
    BagAppend(q2, [n]);
    BagOne(n);
    BagRemove(q, i);
    BagRemove(q1, j);
  }

  /** A merge round keeps the leaves of the queued trees. */
  lemma MergeOnceBag<T>(order: Order, q: seq<Weighted<Tree<T>>>)
    requires |q| >= 2
    ensures Bag(MergeOnce(order, q)) == Bag(q)
  {
    var i := PopIndex(order, q);
    RemoveAtBag(q, i);
    CombineBag(q, i, PopIndex(order, RemoveAt(q, i)));
  }

  /** One pop at the front of the drained order. */
  lemma DrainStep<T>(order: Order, popped: seq<Weighted<T>>, s: seq<Weighted<T>>)
    requires s != []
    ensures PopIndex(order, s) < |s|
    ensures (popped + [s[PopIndex(order, s)]]) + Drain(order, RemoveAt(s, PopIndex(order, s))) == popped + Drain(order, s)
    ensures AsLeaves(popped + [s[PopIndex(order, s)]]) ==
            AsLeaves(popped) + [Weighted(s[PopIndex(order, s)].weight, Leaf(s[PopIndex(order, s)].value))]
  {
    var x := s[PopIndex(order, s)];
    var rest := Drain(order, RemoveAt(s, PopIndex(order, s)));
    assert Drain(order, s) == [x] + rest;
    Assoc(popped, [x], rest);
    AsLeavesSnoc(popped, x);
  }

  lemma AsLeavesSnoc<T>(s: seq<Weighted<T>>, x: Weighted<T>)
    ensures AsLeaves(s + [x]) == AsLeaves(s) + [Weighted(x.weight, Leaf(x.value))]
  {
    assert |AsLeaves(s + [x])| == |AsLeaves(s) + [Weighted(x.weight, Leaf(x.value))]|;
  }

  /** Merging loses no leaf and invents none. */
  lemma {:induction false} MergeBag<T>(order: Order, q: seq<Weighted<Tree<T>>>)
    requires q != []
    ensures multiset(Leaves(Merge(order, q))) == Bag(q)
    decreases |q|
  {
    if |q| == 1 {
      assert q == [q[0]];
      BagOne(q[0]);
    } else {
      MergeOnceBag(order, q);
      MergeBag(order, MergeOnce(order, q));
    }
  }

  lemma {:induction false} AsLeavesBag<T>(s: seq<Weighted<T>>)
    ensures Bag(AsLeaves(s)) == multiset(Values(s))
  {
    if s != [] {
      assert AsLeaves(s)[1..] == AsLeaves(s[1..]);
      assert Values(s) == [s[0].value] + Values(s[1..]);
      AsLeavesBag(s[1..]);
    }
  }

  lemma ValuesRemoveAt<T>(s: seq<Weighted<T>>, i: nat)
    requires i < |s|
    ensures Values(RemoveAt(s, i)) == RemoveAt(Values(s), i)
  {
    RemoveAtBag(s, i);
    RemoveAtBag(Values(s), i);
  }

  /** Draining yields the stored values, once each. */
  lemma {:induction false} DrainValues<T>(order: Order, s: seq<Weighted<T>>)
    ensures multiset(Values(Drain(order, s))) == multiset(Values(s))
    decreases |s|
  {
    if s != [] {
      var i := PopIndex(order, s);
      RemoveAtBag(s, i);
      DrainValues(order, RemoveAt(s, i));
      ValuesRemoveAt(s, i);
      RemoveAtBag(Values(s), i);
      assert Values(Drain(order, s)) == [s[i].value] + Values(Drain(order, RemoveAt(s, i)));
    }
  }

  /** The tree `from_queue` builds carries every queued value as a leaf, once per item. */
  lemma FromQueueLeaves<T>(order: Order, items: seq<Weighted<T>>)
    requires items != []
    ensures FromQueueSpec(order, items).Some?
    ensures multiset(Leaves(FromQueueSpec(order, items).value)) == multiset(Values(items))
  {
    DrainBag(order, items);
    MergeBag(order, AsLeaves(Drain(order, items)));
    AsLeavesBag(Drain(order, items));
    DrainValues(order, items);
  }
}
