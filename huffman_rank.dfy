/**
 * The Huffman codec of lab1-rs: symbol weights are the ranks of the bytes in
 * ascending byte order, the tree is built by merging the two items a
 * max-first priority queue pops, the archive is a `RankHeader` header
 * followed by the packed code bits.
 */
module HuffmanRank {
  import opened Common
  import opened BitCodec
  import opened CodeTree
  import opened MaxQueue
  import opened HuffmanBuild
  import opened RankHeader

  // ---------------------------------------------------------------------
  // from_queue
  // ---------------------------------------------------------------------

  /** The first loop of `from_queue`: pops every item into a fresh queue of leaves. */
  method LeafQueue<T>(queue: PriorityQueue<T>) returns (hufQueue: PriorityQueue<Tree<T>>)
    modifies queue
    ensures fresh(hufQueue)
    ensures hufQueue.heap == AsLeaves(Drain(HeaviestFirst, old(queue.heap)))
    ensures queue.heap == []
  {
    hufQueue := new PriorityQueue<Tree<T>>();
    ghost var all := Drain(HeaviestFirst, queue.heap);
    ghost var popped: seq<Weighted<T>> := [];
    ghost var rest := queue.heap;
    while true
      invariant fresh(hufQueue) && rest == queue.heap
      invariant popped + Drain(HeaviestFirst, rest) == all
      invariant hufQueue.heap == AsLeaves(popped)
      decreases |rest|
    {
      var p := queue.Pop();
      if p.None? {
        break;
      }
      DrainStep(HeaviestFirst, popped, rest);
      hufQueue.Insert(p.value.weight, Leaf(p.value.value));
      popped, rest := popped + [p.value], queue.heap;
    }
  }

  /** One round of the second loop of `from_queue`. */
  method MergeTwo<T>(hufQueue: PriorityQueue<Tree<T>>)
    requires |hufQueue.heap| >= 2
    modifies hufQueue
    ensures hufQueue.heap == MergeOnce(HeaviestFirst, old(hufQueue.heap))
  {
    var v1 := hufQueue.Pop();
    var v2 := hufQueue.Pop();
    hufQueue.Insert(v1.value.weight + v2.value.weight, Node(v1.value.value, v2.value.value));
  }

  /** `HuffmanTree::from_queue`, including its `assert!` on an empty queue. */
  method FromQueue<T>(queue: PriorityQueue<T>) returns (r: Option<Tree<T>>)
    modifies queue
    ensures r == FromQueueSpec(HeaviestFirst, old(queue.heap))
  {
    DrainBag(HeaviestFirst, queue.heap);
    var hufQueue := LeafQueue(queue);
    if hufQueue.Len() == 0 {
      return None;
    }
    ghost var leaves := hufQueue.heap;
    while hufQueue.Len() > 1
      invariant hufQueue.heap != []
      invariant Merge(HeaviestFirst, hufQueue.heap) == Merge(HeaviestFirst, leaves)
      decreases |hufQueue.heap|
    {
      MergeTwo(hufQueue);
    }
    var last := hufQueue.Pop();
    r := Some(last.value.value);
  }

  // ---------------------------------------------------------------------
  // Metadata
  // ---------------------------------------------------------------------

  /** The loop of `compute` and `load` that fills a fresh queue from the weight map. */
  method FillQueue(w: map<byte, nat>) returns (queue: PriorityQueue<byte>)
    ensures fresh(queue)
    ensures queue.heap == ItemsOf(w)
  {
    queue := new PriorityQueue<byte>();
    var keys := Ascending(w.Keys);
    for i := 0 to |keys|
      invariant queue.heap == WeightItems(w, keys[..i])
    {
      assert keys[..i + 1][..i] == keys[..i];
      queue.Insert(w[keys[i]], keys[i]);
    }
    assert keys[..|keys|] == keys;
  }

  datatype Metadata = Metadata(weights: map<byte, nat>, tree: Tree<byte>, code: map<byte, seq<Bit>>, remainder: byte)

  /** The tree and code a weight map determines; `None` for an empty map. */
  function BuildMetadata(w: map<byte, nat>, remainder: byte): Option<Metadata>
  {
    match FromQueueSpec(HeaviestFirst, ItemsOf(w))
    case None => None
    case Some(t) => Some(Metadata(w, t, GetCode(t), remainder))
  }

  /** `Metadata::compute` */
  function ComputeSpec(data: seq<byte>): Option<Metadata>
  {
    BuildMetadata(Ranks(data), 0)
  }

  /** `Metadata::load`: `None` where it reads past the end of the archive or builds from no weights. */
  function LoadSpec(archive: seq<byte>): Option<Metadata>
  {
    match LoadHeader(archive)
    case None => None
    case Some((remainder, w)) => BuildMetadata(w, remainder)
  }

  lemma {:induction false} MultisetElems<T>(a: seq<T>, b: seq<T>)
    requires multiset(a) == multiset(b)
    ensures Elems(a) == Elems(b)
  {
    forall x
      ensures x in Elems(a) <==> x in Elems(b)
    {
      assert x in a <==> x in multiset(a);
      assert x in b <==> x in multiset(b);
    }
  }

  /** A weight map's metadata exists exactly when the map is non-empty, and codes exactly its keys. */
  lemma BuildMetadataSpec(w: map<byte, nat>, remainder: byte)
    ensures BuildMetadata(w, remainder).Some? <==> |w| >= 1
    ensures BuildMetadata(w, remainder).Some? ==>
              var md := BuildMetadata(w, remainder).value;
              md.weights == w && md.remainder == remainder &&
              md.code == GetCode(md.tree) &&
              Elems(Leaves(md.tree)) == w.Keys && md.code.Keys == w.Keys
  {
    ItemsOfSpec(w);
    if |w| >= 1 {
      FromQueueLeaves(HeaviestFirst, ItemsOf(w));
      MultisetElems(Leaves(FromQueueSpec(HeaviestFirst, ItemsOf(w)).value), Values(ItemsOf(w)));
    }
  }

  /** `compute` succeeds for every non-empty input, and its code covers every input byte. */
  lemma ComputeSpecCovers(data: seq<byte>)
    ensures ComputeSpec(data).Some? <==> data != []
    ensures ComputeSpec(data).Some? ==>
              var md := ComputeSpec(data).value;
              md.weights == Ranks(data) && md.remainder == 0 &&
              1 <= |md.weights| <= 256 &&
              (forall b :: b in md.weights ==> md.weights[b] < 256) &&
              forall i :: 0 <= i < |data| ==> data[i] in md.code && data[i] in Elems(Leaves(md.tree))
  {
    RanksSpec(data);
    var w := Ranks(data);
    BuildMetadataSpec(w, 0);
    if data != [] {
      assert data[0] in Elems(data);
      var md := ComputeSpec(data).value;
      assert md.code.Keys == Elems(data) && Elems(Leaves(md.tree)) == Elems(data);
      forall i | 0 <= i < |data|
        ensures data[i] in md.code && data[i] in Elems(Leaves(md.tree))
      {
        assert data[i] in Elems(data);
      }
      forall b | b in md.weights
        ensures md.weights[b] < 256
      {
      }
    }
  }

  /** A loaded header reaches no further into the archive than where its payload starts. */
  lemma LoadSpecBound(archive: seq<byte>)
    requires LoadSpec(archive).Some?
    ensures 2 + 2 * |LoadSpec(archive).value.weights| <= |archive|
  {
    var n := archive[1] as nat + 1;
    PairsMapCard(archive, n);
    BuildMetadataSpec(PairsMap(archive, n), archive[0]);
  }

  method ComputeMetadata(data: seq<byte>) returns (r: Option<Metadata>)
    ensures r == ComputeSpec(data)
  {
    var weights := GetWeights(data);
    var queue := FillQueue(weights);
    var tree := FromQueue(queue);
    if tree.None? {
      return None;
    }
    var code := GetCodeTable(tree.value);
    r := Some(Metadata(weights, tree.value, code, 0));
  }

  method LoadMetadata(archive: seq<byte>) returns (r: Option<Metadata>)
    ensures r == LoadSpec(archive)
  {
    var header := LoadWeights(archive);
    if header.None? {
      return None;
    }
    var (remainder, weights) := header.value;
    var queue := FillQueue(weights);
    var tree := FromQueue(queue);
    if tree.None? {
      return None;
    }
    var code := GetCodeTable(tree.value);
    r := Some(Metadata(weights, tree.value, code, remainder));
  }

  /** `Metadata::dump` */
  method DumpMetadata(md: Metadata) returns (result: seq<byte>)
    requires |md.weights| >= 1
    ensures result == DumpHeader(md.remainder, md.weights)
  {
    result := DumpWeights(md.remainder, md.weights);
  }

  // ---------------------------------------------------------------------
  // compress / decompress
  // ---------------------------------------------------------------------

  /** `compress`: `None` on empty input, where building the tree panics. */
  function CompressSpec(data: seq<byte>): Option<seq<byte>>
  {
    if data == [] then None
    else
      ComputeSpecCovers(data);
      var md := ComputeSpec(data).value;
      var bits := Encode(md.code, data);
      Some(DumpHeader(PaddingOf(|bits|) as byte, md.weights) + Pack(bits))
  }

  /** `decompress`: `None` where loading the header panics. */
  function DecompressSpec(archive: seq<byte>): Option<seq<byte>>
  {
    var loaded := LoadSpec(archive);
    if loaded.None? then None
    else
      LoadSpecBound(archive);
      var md := loaded.value;
      Some(Walk(md.tree, md.tree, Kept(archive[2 + 2 * |md.weights|..], md.remainder)))
  }

  lemma DecompressLoaded(archive: seq<byte>)
    requires LoadSpec(archive).Some?
    ensures 2 + 2 * |LoadSpec(archive).value.weights| <= |archive|
    ensures var md := LoadSpec(archive).value;
            DecompressSpec(archive) == Some(Walk(md.tree, md.tree, Kept(archive[2 + 2 * |md.weights|..], md.remainder)))
  {
    LoadSpecBound(archive);
  }

  method Compress(data: seq<byte>) returns (r: Option<seq<byte>>)
    ensures r == CompressSpec(data)
  {
    var md := ComputeMetadata(data);
    ComputeSpecCovers(data);
    if md.None? {
      return None;
    }
    var metadata := md.value;
    var payload, remainder := WriteCodes(metadata.code, data);
    metadata := metadata.(remainder := remainder);
    var dump := DumpMetadata(metadata);
    r := Some(dump + payload);
  }

  method Decompress(archive: seq<byte>) returns (r: Option<seq<byte>>)
    ensures r == DecompressSpec(archive)
  {
    var md := LoadMetadata(archive);
    if md.None? {
      return None;
    }
    var metadata := md.value;
    DecompressLoaded(archive);
    var start := 2 + |metadata.weights| * 2;
    assert start == 2 + 2 * |LoadSpec(archive).value.weights|;
    var result := ReadCodes(metadata.tree, archive[start..], metadata.remainder);
    r := Some(result);
  }

  /** Decompressing what `compress` produced gives back the input, for every non-empty input. */
  lemma RoundTrip(data: seq<byte>)
    requires data != []
    ensures CompressSpec(data).Some?
    ensures DecompressSpec(CompressSpec(data).value) == Some(data)
  {
    ComputeSpecCovers(data);
    var md := ComputeSpec(data).value;
    var bits := Encode(md.code, data);
    var rem := PaddingOf(|bits|) as byte;
    var header := DumpHeader(rem, md.weights);
    var archive := header + Pack(bits);
    HeaderRoundTrip(rem, md.weights, Pack(bits));
    assert LoadHeader(archive) == Some((rem, md.weights));
    BuildMetadataSpec(md.weights, rem);
    BuildMetadataSpec(md.weights, 0);
    var loaded := LoadSpec(archive).value;
    assert loaded.tree == md.tree;
    assert archive[2 + 2 * |loaded.weights|..] == Pack(bits);
    PackRoundTrip(bits);
    WalkEncode(md.tree, data);
  }
}
