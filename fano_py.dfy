/**
 * The Python Fano coder (lab2-py). Its tree builder is `Fano.FromWeighs`
 * with the `StopOnTie` bisection and its `get_code` is `Fano.FanoCode`;
 * what differs from the Rust lab is how the symbol list is made (by
 * frequency rank, in first-occurrence order), the header layout, and the
 * bit writer and reader of `PyBits`.
 */
module FanoPy {
  import opened Common
  import opened BitCodec
  import opened CodeTree
  import opened PyBits
  import Fano
  import RankHeader

  // ---------------------------------------------------------------------
  // get_probabilities
  // ---------------------------------------------------------------------

  /** The distinct bytes of `data` in order of first occurrence: the key order of the `counts` dict. */
  function FirstSeen(data: seq<byte>): (r: seq<byte>)
    ensures RankHeader.Distinct(r) && Elems(r) == Elems(data)
    decreases |data|
  {
    if data == [] then []
    else
      var s, x := FirstSeen(data[..|data| - 1]), data[|data| - 1];
      assert data == data[..|data| - 1] + [x];
      ElemsAppend(data[..|data| - 1], [x]);
      ElemsAppend(s, [x]);
      if x in s then s else s + [x]
  }

  /** The items of `counts`: each key with the number of times it occurs. */
  function Counted(data: seq<byte>, keys: seq<byte>): (r: seq<Weighted<byte>>)
    ensures |r| == |keys|
    ensures forall i :: 0 <= i < |r| ==> r[i] == Weighted(multiset(data)[keys[i]], keys[i])
  {
    if keys == [] then []
    else Counted(data, keys[..|keys| - 1]) + [Weighted(multiset(data)[keys[|keys| - 1]], keys[|keys| - 1])]
  }

  /** `enumerate` over the sorted items: each byte weighted by its position. */
  function Ranked(s: seq<Weighted<byte>>): (r: seq<Weighted<byte>>)
    ensures |r| == |s|
    ensures forall i :: 0 <= i < |r| ==> r[i] == Weighted(i, s[i].value)
  {
    if s == [] then [] else Ranked(s[..|s| - 1]) + [Weighted(|s| - 1, s[|s| - 1].value)]
  }

  /** `get_probabilities`: the bytes, stably sorted by count, each weighted by its position. */
  function Probabilities(data: seq<byte>): (p: seq<Weighted<byte>>)
    ensures forall i :: 0 <= i < |p| ==> p[i].weight == i
  {
    Ranked(Fano.SortByWeight(Counted(data, FirstSeen(data))))
  }

  /**
   * Sorting the counted keys keeps exactly the keys, orders them by count,
   * and keeps each key with its own count.
   */
  lemma SortedCounts(data: seq<byte>, keys: seq<byte>)
    ensures var t := Fano.SortByWeight(Counted(data, keys));
            |t| == |keys| && Elems(Values(t)) == Elems(keys) && Fano.ByWeight(t) &&
            forall k :: 0 <= k < |t| ==> t[k].weight == multiset(data)[t[k].value]
  {
    var items := Counted(data, keys);
    var t := Fano.SortByWeight(items);
    Fano.SortByWeightSpec(items);
    Fano.ValuesElems(t, items);
    assert Values(items) == keys;
    forall k | 0 <= k < |t|
      ensures t[k].weight == multiset(data)[t[k].value]
    {
      assert t[k] in multiset(items);
      var i :| 0 <= i < |items| && items[i] == t[k];
    }
  }

  /** Ranking keeps the values and their order. */
  lemma RankedValues(s: seq<Weighted<byte>>)
    ensures Values(Ranked(s)) == Values(s)
  {
  }

  /** One entry per distinct byte of the input, and every byte of the input among them. */
  lemma ProbabilitiesElems(data: seq<byte>)
    ensures |Probabilities(data)| == |Elems(data)| && Elems(Values(Probabilities(data))) == Elems(data)
  {
    var keys := FirstSeen(data);
    SortedCounts(data, keys);
    RankHeader.DistinctCard(keys);
    RankedValues(Fano.SortByWeight(Counted(data, keys)));
  }

  /** The entries come in order of non-decreasing frequency in the input. */
  lemma ProbabilitiesOrder(data: seq<byte>)
    ensures var p := Probabilities(data);
            forall i, j :: 0 <= i < j < |p| ==> multiset(data)[p[i].value] <= multiset(data)[p[j].value]
  {
    var keys := FirstSeen(data);
    SortedCounts(data, keys);
    RankedOrder(data, Fano.SortByWeight(Counted(data, keys)));
  }

  /** Ranking a list sorted by count keeps it in order of frequency. */
  lemma RankedOrder(data: seq<byte>, t: seq<Weighted<byte>>)
    requires Fano.ByWeight(t) && forall k :: 0 <= k < |t| ==> t[k].weight == multiset(data)[t[k].value]
    ensures var p := Ranked(t);
            forall i, j :: 0 <= i < j < |p| ==> multiset(data)[p[i].value] <= multiset(data)[p[j].value]
  {
  }

  /** The counting loop of `get_probabilities`: the dict's keys in insertion order and its counts. */
  method CountBytes(data: seq<byte>) returns (keys: seq<byte>, counts: map<byte, nat>)
    ensures keys == FirstSeen(data)
    ensures forall b :: b in counts <==> b in keys
    ensures forall b :: b in counts ==> counts[b] == multiset(data)[b]
  {
    keys, counts := [], map[];
    for i := 0 to |data|
      invariant keys == FirstSeen(data[..i])
      invariant forall b :: b in counts <==> b in keys
      invariant forall b :: b in counts ==> counts[b] == multiset(data[..i])[b]
    {
      var b := data[i];
      assert data[..i + 1] == data[..i] + [b];
      assert data[..i + 1][..i] == data[..i];
      assert multiset(data[..i + 1]) == multiset(data[..i]) + multiset{b};
      assert b in keys <==> b in Elems(keys);
      if b !in counts {
        keys := keys + [b];
        counts := counts[b := 0];
      }
      counts := counts[b := counts[b] + 1];
    }
    assert data[..|data|] == data;
  }

  /** The `enumerate` loop: each item's value with its position as weight. */
  method RankItems(sorted: seq<Weighted<byte>>) returns (p: seq<Weighted<byte>>)
    ensures p == Ranked(sorted)
  {
    p := [];
    for i := 0 to |sorted|
      invariant p == Ranked(sorted[..i])
    {
      assert sorted[..i + 1][..i] == sorted[..i];
      p := p + [Weighted(i, sorted[i].value)];
    }
    assert sorted[..|sorted|] == sorted;
  }

  /** `get_probabilities`: count, sort stably by count, rank. */
  method GetProbabilities(data: seq<byte>) returns (p: seq<Weighted<byte>>)
    ensures p == Probabilities(data)
  {
    var keys, counts := CountBytes(data);
    var items := seq(|keys|, i requires 0 <= i < |keys| => Weighted(counts[keys[i]], keys[i]));
    assert items == Counted(data, keys) by {
      forall i | 0 <= i < |keys|
        ensures items[i] == Counted(data, keys)[i]
      {
        assert keys[i] in counts;
      }
    }
    p := RankItems(Fano.SortByWeight(items));
  }

  // ---------------------------------------------------------------------
  // The header
  // ---------------------------------------------------------------------

  /** The `(val, w)` bytes of the header, one pair per entry, in list order. */
  function PairBytes(p: seq<Weighted<byte>>): (r: seq<byte>)
    requires forall i :: 0 <= i < |p| ==> p[i].weight < 256
    ensures |r| == 2 * |p|
  {
    if p == [] then []
    else PairBytes(p[..|p| - 1]) + [p[|p| - 1].value, p[|p| - 1].weight]
  }

  /** Entry i sits at offsets 2i and 2i + 1. */
  lemma {:induction false} PairBytesAt(p: seq<Weighted<byte>>, i: nat)
    requires forall j :: 0 <= j < |p| ==> p[j].weight < 256
    requires i < |p|
    ensures PairBytes(p)[2 * i] == p[i].value && PairBytes(p)[2 * i + 1] == p[i].weight
  {
    if i < |p| - 1 {
      PairBytesAt(p[..|p| - 1], i);
    }
  }

  /** The header `compress` writes: the remainder, the number of entries, then the pairs. */
  function Header(r: byte, p: seq<Weighted<byte>>): (h: seq<byte>)
    requires |p| < 256 && forall i :: 0 <= i < |p| ==> p[i].weight < 256
    ensures |h| == 2 + 2 * |p|
  {
    [r, |p|] + PairBytes(p)
  }

  /** The pairs `read_metadata` reads after the two leading bytes. */
  function Pairs(data: seq<byte>, n: nat): (r: seq<Weighted<byte>>)
    requires 2 + 2 * n <= |data|
    ensures |r| == n
    ensures forall i :: 0 <= i < n ==> r[i] == Weighted(data[2 + 2 * i + 1], data[2 + 2 * i])
  {
    if n == 0 then [] else Pairs(data, n - 1) + [Weighted(data[2 * n + 1], data[2 * n])]
  }

  /**
   * `read_metadata`: the remainder and the list of pairs it announces;
   * `None` where an index runs past the end of the archive.
   */
  function ReadMetadataSpec(data: seq<byte>): (r: Option<(byte, seq<Weighted<byte>>)>)
    ensures r.Some? <==> 2 <= |data| && 2 + 2 * (data[1] as int) <= |data|
    ensures r.Some? ==> r.value.0 == data[0] && |r.value.1| == data[1]
  {
    if |data| < 2 || |data| < 2 + 2 * (data[1] as int) then None
    else Some((data[0], Pairs(data, data[1])))
  }

  /** Reading a written header gives back the remainder and the list, whatever follows it. */
  lemma HeaderRoundTrip(r: byte, p: seq<Weighted<byte>>, rest: seq<byte>)
    requires |p| < 256 && forall i :: 0 <= i < |p| ==> p[i].weight < 256
    ensures ReadMetadataSpec(Header(r, p) + rest) == Some((r, p))
  {
    var a := Header(r, p) + rest;
    assert a[0] == r && a[1] == |p|;
    forall i | 0 <= i < |p|
      ensures Pairs(a, |p|)[i] == p[i]
    {
      PairBytesAt(p, i);
      assert a[2 + 2 * i] == PairBytes(p)[2 * i];
      assert a[2 + 2 * i + 1] == PairBytes(p)[2 * i + 1];
    }
    assert Pairs(a, |p|) == p;
  }

  /** `read_metadata` with its loop; an index past the end of the archive gives `None`. */
  method ReadMetadata(data: seq<byte>) returns (result: Option<(byte, seq<Weighted<byte>>)>)
    ensures result == ReadMetadataSpec(data)
  {
    if |data| < 2 {
      return None;
    }
    var r := data[0];
    var n := data[1];
    var d: seq<Weighted<byte>> := [];
    for i := 0 to n
      invariant 2 + 2 * i <= |data| && d == Pairs(data, i)
    {
      if 2 + i * 2 + 1 >= |data| {
        return None;
      }
      d := d + [Weighted(data[2 + i * 2 + 1], data[2 + i * 2])];
    }
    result := Some((r, d));
  }

  // ---------------------------------------------------------------------
  // compress / decompress
  // ---------------------------------------------------------------------

  /** Every byte of the input has a code word in a code over its bytes. */
  lemma Covers(data: seq<byte>, code: map<byte, seq<Bit>>)
    requires code.Keys == Elems(data)
    ensures forall i :: 0 <= i < |data| ==> data[i] in code
  {
    forall i | 0 <= i < |data|
      ensures data[i] in code
    {
      assert data[i] in Elems(data);
    }
  }

  /** The code bits `compress` writes for the input over the tree `t`. */
  function Payload(t: Tree<byte>, data: seq<byte>): seq<Bit>
    requires t.Node? && Elems(Leaves(t)) == Elems(data)
  {
    Fano.FanoCodePaths(t);
    Covers(data, Fano.FanoCode(t));
    Encode(Fano.FanoCode(t), data)
  }

  /** Decoding the payload over the same tree gives back the input. */
  lemma WalkPayload(t: Tree<byte>, data: seq<byte>)
    requires t.Node? && Elems(Leaves(t)) == Elems(data)
    ensures Walk(t, t, Payload(t, data)) == data
  {
    Fano.FanoCodePaths(t);
    forall i | 0 <= i < |data|
      ensures data[i] in Elems(Leaves(t))
    {
      assert data[i] in Elems(data);
    }
    WalkEncode(t, data);
  }

  /** The archive `compress` writes for the list `p` and the code bits: the header, then the payload. */
  function Archive(p: seq<Weighted<byte>>, bits: seq<Bit>): (a: seq<byte>)
    requires |p| < 256 && forall i :: 0 <= i < |p| ==> p[i].weight < 256
    ensures |a| == 2 + 2 * |p| + |PyPack(bits)| && a[2 + 2 * |p|..] == PyPack(bits)
  {
    Header(PyRemainder(|bits|) as byte, p) + PyPack(bits)
  }

  /**
   * `compress`, with its result as bytes: `None` where `make_tree` fails,
   * on fewer than two distinct bytes, and where the entry count 256 has no
   * byte to be written as (the source's list holds 256 there, and only the
   * conversion to bytes that follows rejects it).
   */
  function CompressSpec(data: seq<byte>): Option<seq<byte>>
  {
    var p := Probabilities(data);
    ProbabilitiesElems(data);
    match Fano.FromWeighs(Fano.StopOnTie, p)
    case None => None
    case Some(t) => if |p| >= 256 then None else Some(Archive(p, Payload(t, data)))
  }

  /** `compress` has a result exactly when the input holds between 2 and 255 distinct bytes. */
  lemma CompressDefined(data: seq<byte>)
    ensures CompressSpec(data).Some? <==> 2 <= |Elems(data)| < 256
  {
    ProbabilitiesElems(data);
  }

  /**
   * The first part of `decompress`: the remainder, the list and its tree;
   * `None` where `read_metadata` or `make_tree` fails.
   */
  function Loaded(archive: seq<byte>): (r: Option<(byte, seq<Weighted<byte>>, Tree<byte>)>)
    ensures r.Some? ==> 2 + 2 * |r.value.1| <= |archive|
  {
    match ReadMetadataSpec(archive)
    case None => None
    case Some((rem, p)) =>
      match Fano.FromWeighs(Fano.StopOnTie, p)
      case None => None
      case Some(tree) => Some((rem, p, tree))
  }

  /**
   * `decompress` as written: the reader yields all eight bits of every
   * payload byte, starting from the last byte; the remainder is ignored.
   */
  function DecompressSpec(archive: seq<byte>): Option<seq<byte>>
  {
    match Loaded(archive)
    case None => None
    case Some((_, p, tree)) => Some(Walk(tree, tree, Unpack(Reverse(archive[2 + 2 * |p|..]))))
  }

  /**
   * `decompress` with the reader the writer calls for: bytes in order, and
   * the last one cut to the `r` bits the remainder says it holds.
   */
  function FixedDecompressSpec(archive: seq<byte>): Option<seq<byte>>
  {
    var loaded := Loaded(archive);
    if loaded.None? then None
    else
      var tree := loaded.value.2;
      Some(Walk(tree, tree, Kept(archive[2 + 2 * |loaded.value.1|..], PyPadding(loaded.value.0))))
  }

  /** The list and tree an archive was written with are the ones `decompress` loads back. */
  lemma LoadArchive(p: seq<Weighted<byte>>, t: Tree<byte>, bits: seq<Bit>)
    requires |p| < 256 && forall i :: 0 <= i < |p| ==> p[i].weight < 256
    requires Fano.FromWeighs(Fano.StopOnTie, p) == Some(t)
    ensures Loaded(Archive(p, bits)) == Some((PyRemainder(|bits|) as byte, p, t))
  {
    HeaderRoundTrip(PyRemainder(|bits|) as byte, p, PyPack(bits));
  }

  /** With the fixed reader an archive decodes to the walk of its code bits. */
  lemma FixedArchive(p: seq<Weighted<byte>>, t: Tree<byte>, bits: seq<Bit>)
    requires |p| < 256 && forall i :: 0 <= i < |p| ==> p[i].weight < 256
    requires Fano.FromWeighs(Fano.StopOnTie, p) == Some(t)
    ensures FixedDecompressSpec(Archive(p, bits)) == Some(Walk(t, t, bits))
  {
    LoadArchive(p, t, bits);
    PyPackRoundTrip(bits);
  }

  /** As written, an archive decodes to the walk of all bits of its payload, read from the last byte. */
  lemma ReadArchive(p: seq<Weighted<byte>>, t: Tree<byte>, bits: seq<Bit>)
    requires |p| < 256 && forall i :: 0 <= i < |p| ==> p[i].weight < 256
    requires Fano.FromWeighs(Fano.StopOnTie, p) == Some(t)
    ensures DecompressSpec(Archive(p, bits)) == Some(Walk(t, t, Unpack(Reverse(PyPack(bits)))))
  {
    LoadArchive(p, t, bits);
  }

  /** What `compress` returns when it succeeds: the archive of its list and its tree's code bits. */
  lemma CompressArchive(data: seq<byte>)
    requires 2 <= |Elems(data)| < 256
    ensures var p := Probabilities(data);
            |p| < 256 && Fano.FromWeighs(Fano.StopOnTie, p).Some? &&
            var t := Fano.FromWeighs(Fano.StopOnTie, p).value;
            Elems(Leaves(t)) == Elems(data) &&
            CompressSpec(data) == Some(Archive(p, Payload(t, data)))
  {
    ProbabilitiesElems(data);
  }

  /** With the fixed reader, decompressing a compressed input gives back the input. */
  lemma FixedRoundTrip(data: seq<byte>)
    requires 2 <= |Elems(data)| < 256
    ensures CompressSpec(data).Some?
    ensures FixedDecompressSpec(CompressSpec(data).value) == Some(data)
  {
    CompressArchive(data);
    var p := Probabilities(data);
    var t := Fano.FromWeighs(Fano.StopOnTie, p).value;
    FixedArchive(p, t, Payload(t, data));
    WalkPayload(t, data);
  }

  /** The symbol list of `[0, 1]`: both bytes once, ranked in order. */
  lemma ProbabilitiesTwoBytes()
    ensures Probabilities([0, 1]) == [Weighted(0, 0), Weighted(1, 1)]
  {
    var data: seq<byte> := [0, 1];
    FirstSeenTwoBytes();
    CountedTwoBytes();
    SortTwoBytes();
  }

  lemma FirstSeenTwoBytes()
    ensures FirstSeen([0, 1]) == [0, 1]
  {
    var data: seq<byte> := [0, 1];
    assert data[..1] == [0];
    assert [0 as byte][..0] == [];
  }

  lemma CountedTwoBytes()
    ensures Counted([0, 1], [0, 1]) == [Weighted(1, 0), Weighted(1, 1)]
  {
    var data: seq<byte> := [0, 1];
    assert multiset(data)[0] == 1 && multiset(data)[1] == 1;
  }

  lemma SortTwoBytes()
    ensures Fano.SortByWeight([Weighted(1, 0 as byte), Weighted(1, 1)]) == [Weighted(1, 0), Weighted(1, 1)]
  {
    var items: seq<Weighted<byte>> := [Weighted(1, 0), Weighted(1, 1)];
    assert items[1..] == [Weighted(1, 1)];
    assert [Weighted(1, 1 as byte)][1..] == [];
  }

  /** The tree over that list: one split, two leaves. */
  lemma TreeTwoBytes()
    ensures Fano.FromWeighs(Fano.StopOnTie, [Weighted(0, 0), Weighted(1, 1)]) == Some(Node(Leaf(0), Leaf(1)))
  {
    var p: seq<Weighted<byte>> := [Weighted(0, 0), Weighted(1, 1)];
    PrefixSumsTwoBytes();
    assert Fano.Partition(Fano.StopOnTie, [0, 1]) == Some(0);
    Fano.FromWeighsSplit(Fano.StopOnTie, p, 0);
    assert p[..1] == [Weighted(0, 0)];
    assert p[1..] == [Weighted(1, 1)];
  }

  lemma PrefixSumsTwoBytes()
    ensures Fano.PrefixSums([Weighted(0, 0 as byte), Weighted(1, 1)]) == [0, 1]
  {
    var p: seq<Weighted<byte>> := [Weighted(0, 0), Weighted(1, 1)];
    var q := p[..1];
    assert q == [Weighted(0, 0)];
    assert q[..0] == [];
    assert Fano.WeightSum(q) == 0;
    assert Fano.PrefixSums(q) == [0];
    assert Fano.WeightSum(p) == 1;
  }

  /** Its code bits for `[0, 1]`: one bit per byte. */
  lemma PayloadTwoBytes()
    ensures Payload(Node(Leaf(0), Leaf(1)), [0, 1]) == [Zero, One]
  {
    var data: seq<byte> := [0, 1];
    var t: Tree<byte> := Node(Leaf(0), Leaf(1));
    var code := Fano.FanoCode(t);
    assert [] + [Zero] == [Zero] && [] + [One] == [One];
    assert code == map[0 := [Zero], 1 := [One]];
    assert data[1..] == [1];
    assert [1 as byte][1..] == [];
  }

  /** The archive for that list and those bits. */
  lemma ArchiveTwoBytes()
    ensures Archive([Weighted(0, 0), Weighted(1, 1)], [Zero, One]) == [2, 2, 0, 0, 1, 1, 2]
  {
    var p: seq<Weighted<byte>> := [Weighted(0, 0), Weighted(1, 1)];
    assert p[..1] == [Weighted(0, 0)];
    assert [Weighted(0, 0 as byte)][..0] == [];
    assert PairBytes(p) == [0, 0, 1, 1];
    assert PyPack([Zero, One]) == [2];
  }

  /** Two bytes, each once: a one-byte payload holding the two code bits, remainder 2. */
  lemma CompressTwoBytes()
    ensures CompressSpec([0, 1]) == Some([2, 2, 0, 0, 1, 1, 2])
  {
    var data: seq<byte> := [0, 1];
    ElemsTwoBytes();
    CompressArchive(data);
    ProbabilitiesTwoBytes();
    TreeTwoBytes();
    PayloadTwoBytes();
    ArchiveTwoBytes();
  }

  lemma ElemsTwoBytes()
    ensures |Elems([0 as byte, 1])| == 2
  {
    var data: seq<byte> := [0, 1];
    assert Elems(data) == {0, 1} by {
      assert data[0] == 0 && data[1] == 1;
    }
  }

  /** Decompressing that archive as written yields six extra zero bytes from the padding. */
  lemma DecompressTwoBytes()
    ensures DecompressSpec([2, 2, 0, 0, 1, 1, 2]) == Some([0, 1, 0, 0, 0, 0, 0, 0])
  {
    var p: seq<Weighted<byte>> := [Weighted(0, 0), Weighted(1, 1)];
    var t: Tree<byte> := Node(Leaf(0), Leaf(1));
    TreeTwoBytes();
    ArchiveTwoBytes();
    ReadArchive(p, t, [Zero, One]);
    assert PyPack([Zero, One]) == [2];
    assert Reverse([2 as byte]) == [2];
    UnpackTwo();
    WalkTwoBytes();
  }

  lemma UnpackTwo()
    ensures Unpack([2]) == [Zero, One, Zero, Zero, Zero, Zero, Zero, Zero]
  {
    assert [2 as byte][1..] == [];
    assert ByteBits(2) == [Zero, One, Zero, Zero, Zero, Zero, Zero, Zero];
  }

  lemma WalkTwoBytes()
    ensures var t: Tree<byte> := Node(Leaf(0), Leaf(1));
            Walk(t, t, [Zero, One, Zero, Zero, Zero, Zero, Zero, Zero]) == [0, 1, 0, 0, 0, 0, 0, 0]
  {
  }

  /** The writer part of `compress`: every byte's code word through a `BitWriter`. */
  method WriteCodes(code: map<byte, seq<Bit>>, data: seq<byte>) returns (bytes: seq<byte>, r: nat)
    requires forall i :: 0 <= i < |data| ==> data[i] in code
    ensures bytes == PyPack(Encode(code, data))
    ensures r == PyRemainder(|Encode(code, data)|)
  {
    var writer := new PyBitWriter();
    for i := 0 to |data|
      invariant writer.Valid() && writer.written == Encode(code, data[..i])
    {
      EncodeAppend(code, data[..i], [data[i]]);
      assert data[..i + 1] == data[..i] + [data[i]];
      assert Encode(code, [data[i]]) == code[data[i]] by {
        assert [data[i]][1..] == [];
      }
      writer.WriteBits(code[data[i]]);
    }
    assert data[..|data|] == data;
    bytes, r := writer.GetBuffer();
  }

  /** The metadata loop of `compress`: the remainder and the count, then each pair. */
  method WriteHeader(r: byte, p: seq<Weighted<byte>>) returns (metadata: seq<byte>)
    requires |p| < 256 && forall i :: 0 <= i < |p| ==> p[i].weight < 256
    ensures metadata == Header(r, p)
  {
    metadata := [r, |p|];
    for i := 0 to |p|
      invariant metadata == [r, |p|] + PairBytes(p[..i])
    {
      assert p[..i + 1][..i] == p[..i];
      metadata := metadata + [p[i].value, p[i].weight];
    }
    assert p[..|p|] == p;
  }

  /** The code of `compress` after `make_tree`. */
  method WriteArchive(p: seq<Weighted<byte>>, t: Tree<byte>, data: seq<byte>) returns (archive: seq<byte>)
    requires |p| < 256 && forall i :: 0 <= i < |p| ==> p[i].weight < 256
    requires t.Node? && Elems(Leaves(t)) == Elems(data)
    ensures archive == Archive(p, Payload(t, data))
  {
    Fano.FanoCodePaths(t);
    var code := Fano.GetFanoCode(t);
    Covers(data, code);
    var compressed, r := WriteCodes(code, data);
    var metadata := WriteHeader(r as byte, p);
    archive := metadata + compressed;
  }

  method Compress(data: seq<byte>) returns (archive: Option<seq<byte>>)
    ensures archive == CompressSpec(data)
  {
    var p := GetProbabilities(data);
    ProbabilitiesElems(data);
    var tree := Fano.BuildFromWeighs(Fano.StopOnTie, p);
    if tree.None? || |p| >= 256 {
      return None;
    }
    var bytes := WriteArchive(p, tree.value, data);
    archive := Some(bytes);
  }

  /**
   * The loop of `decompress`: a node steps to the child the bit names;
   * reaching a leaf emits its value and resets the state to the root.
   */
  method Decode(root: Tree<byte>, reader: PyBitReader) returns (result: seq<byte>)
    requires reader.Valid()
    modifies reader
    ensures result == Walk(root, root, old(reader.Remaining()))
  {
    result := [];
    var state := root;
    var done := false;
    ghost var all := reader.Remaining();
    ghost var rest := all;
    while !done
      invariant reader.Valid() && rest == reader.Remaining()
      invariant result + Walk(root, state, rest) == Walk(root, root, all)
      invariant done ==> rest == []
      decreases |rest| + (if done then 0 else 1)
    {
      var next, emitted;
      done, next, emitted := DecodeStep(root, state, reader);
      if !done {
        result, state := result + emitted, next;
      }
      rest := reader.Remaining();
    }
  }

  /** One turn of the `decompress` loop: reads a bit, or finds none left, and steps the state. */
  method DecodeStep(root: Tree<byte>, state: Tree<byte>, reader: PyBitReader) returns (done: bool, next: Tree<byte>, emitted: seq<byte>)
    requires reader.Valid()
    modifies reader
    ensures reader.Valid()
    ensures done ==> old(reader.Remaining()) == [] && reader.Remaining() == []
    ensures !done ==> |reader.Remaining()| < |old(reader.Remaining())|
    ensures !done ==> emitted + Walk(root, next, reader.Remaining()) == Walk(root, state, old(reader.Remaining()))
  {
    ghost var bits := reader.Remaining();
    var bit := reader.ReadBit();
    if bit.None? {
      return true, state, [];
    }
    WalkStep(root, state, bits);
    done := false;
    next, emitted := Advance(root, state, bit.value);
  }

  /** `read_metadata` and `make_tree` of `decompress`. */
  method LoadTree(archive: seq<byte>) returns (r: Option<(byte, seq<Weighted<byte>>, Tree<byte>)>)
    ensures r == Loaded(archive)
  {
    var header := ReadMetadata(archive);
    if header.None? {
      return None;
    }
    var (rem, p) := header.value;
    var tree := Fano.BuildFromWeighs(Fano.StopOnTie, p);
    if tree.None? {
      return None;
    }
    r := Some((rem, p, tree.value));
  }

  method Decompress(archive: seq<byte>) returns (result: Option<seq<byte>>)
    ensures result == DecompressSpec(archive)
  {
    var loaded := LoadTree(archive);
    if loaded.None? {
      return None;
    }
    var (r, p, tree) := loaded.value;
    var out := DecodePayload(tree, archive[2 + |p| * 2..], r);
    result := Some(out);
  }

  /** The reader over the payload, driving the decoding loop. */
  method DecodePayload(tree: Tree<byte>, payload: seq<byte>, r: int) returns (out: seq<byte>)
    ensures out == Walk(tree, tree, Unpack(Reverse(payload)))
  {
    var reader := new PyBitReader(payload, r);
    out := Decode(tree, reader);
  }

  /** `decompress` over the fixed reader: the payload through the in-order reader of `BitCodec`. */
  method FixedDecompress(archive: seq<byte>) returns (result: Option<seq<byte>>)
    ensures result == FixedDecompressSpec(archive)
  {
    var loaded := LoadTree(archive);
    if loaded.None? {
      return None;
    }
    var start := 2 + 2 * |loaded.value.1|;
    var out := ReadCodes(loaded.value.2, archive[start..], PyPadding(loaded.value.0));
    result := Some(out);
  }
}
