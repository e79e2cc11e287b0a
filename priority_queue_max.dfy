/**
 * The priority queue of lab1-rs: a `BinaryHeap` of `Weighted` items whose
 * `Ord` compares weights ascending, so `pop` yields an item of greatest
 * weight. The heap is modelled as the sequence of stored items; which of
 * several equally heavy items `pop` yields is left to the heap's layout in
 * the source and is modelled as the first one stored.
 */
module MaxQueue {
  import opened Common

  /** `PartialEq for Weighted`: the payload takes no part. */
  predicate SameWeight<T>(a: Weighted<T>, b: Weighted<T>)
  {
    a.weight == b.weight
  }

  /** `Ord for Weighted` as -1 / 0 / 1: by weight, not reversed. */
  function Compare<T>(a: Weighted<T>, b: Weighted<T>): (r: int)
  {
    if a.weight < b.weight then -1 else if a.weight == b.weight then 0 else 1
  }

  /** The ordering agrees with equality, is antisymmetric, and ignores the payload. */
  lemma CompareConsistent<T>(a: Weighted<T>, b: Weighted<T>, c: T)
    ensures Compare(a, b) == 0 <==> SameWeight(a, b)
    ensures Compare(a, b) == -Compare(b, a)
    ensures Compare(a, b) == Compare(Weighted(a.weight, c), b)
    ensures Compare(a, b) > 0 <==> a.weight > b.weight
  {
  }

  /** Index of the first item of greatest weight: the item the max-heap pops. */
  function MaxIndex<T>(s: seq<Weighted<T>>): (i: nat)
    requires s != []
    ensures i < |s|
    ensures forall j :: 0 <= j < |s| ==> Compare(s[j], s[i]) <= 0
    ensures forall j :: 0 <= j < i ==> Compare(s[j], s[i]) < 0
  {
    if |s| == 1 then 0
    else
      var k := MaxIndex(s[1..]) + 1;
      if Compare(s[0], s[k]) >= 0 then 0 else k
  }

  class PriorityQueue<T> {
    /** The stored items. */
    var heap: seq<Weighted<T>>

    /** `PriorityQueue::new` */
    constructor ()
      ensures heap == []
    {
      heap := [];
    }

    /** Adds one item with the given priority and value; nothing else changes. */
    method Insert(priority: nat, value: T)
      modifies this
      ensures heap == old(heap) + [Weighted(priority, value)]
    {
      heap := heap + [Weighted(priority, value)];
    }

    /** `is_single` */
    predicate IsSingle()
      reads this
    {
      |heap| == 1
    }

    /** The number of stored items (`huf_queue.len()` in huffman.rs). */
    function Len(): (n: nat)
      reads this
      ensures n == |heap|
    {
      |heap|
    }

    /** `None` exactly when empty; otherwise removes and returns an item of greatest weight. */
    method Pop() returns (r: Option<Weighted<T>>)
      modifies this
      ensures old(heap) == [] ==> r == None && heap == []
      ensures old(heap) != [] ==>
                r == Some(old(heap)[MaxIndex(old(heap))]) &&
                heap == RemoveAt(old(heap), MaxIndex(old(heap)))
    {
      if heap == [] {
        r := None;
      } else {
        var i := MaxIndex(heap);
        r := Some(heap[i]);
        heap := RemoveAt(heap, i);
      }
    }
  }
}
