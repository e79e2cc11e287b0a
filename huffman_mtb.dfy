/**
 * The Huffman codec of lab5: the bytes are first recoded move-to-back (a
 * byte's symbol is one plus its position in a running alphabet, which then
 * moves it to the end), the symbols 1..k of a k-byte alphabet get Huffman
 * codes built with weight = symbol by a min-first queue, and the archive is
 * `[remainder, k - 1]`, the sorted alphabet, then the packed code bits.
 *
 * `Variant` selects between the code as written, where the symbol count is
 * `alphabet.len() as u8` (0 for a 256-byte alphabet) and a symbol is a `u8`
 * that must not overflow, and a widened variant that counts symbols without
 * truncation (see the finding on `ComputeSpec`).
 */
module HuffmanMtb {
  import opened Common
  import opened BitCodec
  import opened CodeTree
  import opened MinQueue
  import opened HuffmanBuild
  import opened RankHeader

  datatype Variant = AsWritten | Widened

  // ---------------------------------------------------------------------
  // Sorting (`Vec::sort` on the loaded alphabet)
  // ---------------------------------------------------------------------

  predicate Sorted(s: seq<byte>)
  {
    forall i, j :: 0 <= i < j < |s| ==> s[i] <= s[j]
  }

  function InsertSorted(x: byte, s: seq<byte>): (r: seq<byte>)
    ensures |r| == |s| + 1 && multiset(r) == multiset(s) + multiset{x}
  {
    if s == [] || x <= s[0] then [x] + s
    else
      assert s == [s[0]] + s[1..];
      [s[0]] + InsertSorted(x, s[1..])
  }

  lemma {:induction false} InsertSortedSorted(x: byte, s: seq<byte>)
    requires Sorted(s)
    ensures Sorted(InsertSorted(x, s))
    ensures InsertSorted(x, s) != [] && (InsertSorted(x, s)[0] == x || (s != [] && InsertSorted(x, s)[0] == s[0]))
  {
    if s != [] && x > s[0] {
      InsertSortedSorted(x, s[1..]);
    }
  }

  /** `alphabet.sort()`: an ascending permutation of the loaded bytes. */
  function SortBytes(s: seq<byte>): (r: seq<byte>)
    ensures |r| == |s| && multiset(r) == multiset(s)
  {
    if s == [] then []
    else
      assert s == [s[0]] + s[1..];
      InsertSorted(s[0], SortBytes(s[1..]))
  }

  lemma {:induction false} SortBytesSpec(s: seq<byte>)
    ensures Sorted(SortBytes(s))
  {
    if s != [] {
      SortBytesSpec(s[1..]);
      InsertSortedSorted(s[0], SortBytes(s[1..]));
    }
  }

  /** Sorting what is already sorted changes nothing. */
  lemma {:induction false} SortBytesSorted(s: seq<byte>)
    requires Sorted(s)
    ensures SortBytes(s) == s
  {
    if s != [] {
      assert Sorted(s[1..]);
      SortBytesSorted(s[1..]);
      assert s == [s[0]] + s[1..];
    }
  }

  // ---------------------------------------------------------------------
  // Tree and metadata
  // ---------------------------------------------------------------------

  /** How many symbols `compute` and `load` queue for an alphabet of `k` bytes. */
  function SymbolCount(v: Variant, k: nat): (n: nat)
    ensures v == AsWritten ==> n < 256
  {
    match v
    case AsWritten => k % 256
    case Widened => k
  }

  /** The items of `for value in 1..=n { queue.insert(value, value) }`. */
  function RankItems(n: nat): (r: seq<Weighted<nat>>)
    ensures |r| == n
    ensures forall i :: 0 <= i < n ==> r[i] == Weighted(i + 1, i + 1)
  {
    if n == 0 then [] else RankItems(n - 1) + [Weighted(n, n)]
  }

  datatype Metadata = Metadata(tree: Tree<nat>, alphabet: seq<byte>, code: map<nat, seq<Bit>>, remainder: byte)

  /** The tree and code for an alphabet; `None` where `from_queue` gets no symbols. */
  function BuildMetadata(v: Variant, alphabet: seq<byte>, remainder: byte): (r: Option<Metadata>)
    ensures r.Some? ==> r.value.alphabet == alphabet && r.value.remainder == remainder && |alphabet| >= 1
  {
    match FromQueueSpec(LightestFirst, RankItems(SymbolCount(v, |alphabet|)))
    case None => None
    case Some(t) => Some(Metadata(t, alphabet, GetCode(t), remainder))
  }

  /** The distinct bytes of the input, ascending (`HashSet`, then `Vec`, then `sort`). */
  function Alphabet(data: seq<byte>): seq<byte>
  {
    Ascending(Elems(data))
  }

  /** `Metadata::compute` */
  function ComputeSpec(v: Variant, data: seq<byte>): Option<Metadata>
  {
    BuildMetadata(v, Alphabet(data), 0)
  }

  /** `Metadata::load`: `None` where it reads past the end or gets no symbols. */
  function LoadSpec(v: Variant, archive: seq<byte>): (r: Option<Metadata>)
    ensures r.Some? ==> |archive| >= 2 && |r.value.alphabet| == archive[1] as nat + 1 <= |archive| - 2 && r.value.remainder == archive[0]
  {
    if |archive| < 2 || |archive| < 2 + (archive[1] as nat + 1) then None
    else BuildMetadata(v, SortBytes(archive[2..2 + archive[1] as nat + 1]), archive[0])
  }

  /** `Metadata::dump` */
  function DumpSpec(md: Metadata): (r: seq<byte>)
    requires |md.alphabet| >= 1
    ensures |r| == 2 + |md.alphabet| && r[2..] == md.alphabet && r[0] == md.remainder
    ensures |md.alphabet| <= 256 ==> r[1] as nat + 1 == |md.alphabet|
  {
    [md.remainder, ((|md.alphabet| - 1) % 256) as byte] + md.alphabet
  }

  lemma {:induction false} RankItemsValues(n: nat)
    ensures forall x :: x in Values(RankItems(n)) <==> 1 <= x <= n
  {
    forall x
      ensures x in Values(RankItems(n)) <==> 1 <= x <= n
    {
      if 1 <= x <= n {
        assert Values(RankItems(n))[x - 1] == x;
      }
    }
  }

  lemma {:induction false} MultisetElems<T>(a: seq<T>, b: seq<T>)
    requires multiset(a) == multiset(b)
    ensures forall x :: x in a <==> x in b
  {
    forall x
      ensures x in a <==> x in b
    {
      assert x in a <==> x in multiset(a);
      assert x in b <==> x in multiset(b);
    }
  }

  /** The tree has a leaf for each symbol 1..n, the code a word for each; `None` exactly when n = 0. */
  lemma BuildMetadataSpec(v: Variant, alphabet: seq<byte>, remainder: byte)
    ensures BuildMetadata(v, alphabet, remainder).Some? <==> SymbolCount(v, |alphabet|) >= 1
    ensures BuildMetadata(v, alphabet, remainder).Some? ==>
              var md := BuildMetadata(v, alphabet, remainder).value;
              md.alphabet == alphabet && md.remainder == remainder && md.code == GetCode(md.tree) &&
              forall x :: x in Leaves(md.tree) <==> 1 <= x <= SymbolCount(v, |alphabet|)
  {
    var n := SymbolCount(v, |alphabet|);
    if n >= 1 {
      FromQueueLeaves(LightestFirst, RankItems(n));
      MultisetElems(Leaves(FromQueueSpec(LightestFirst, RankItems(n)).value), Values(RankItems(n)));
      RankItemsValues(n);
    }
  }

  /** The tree depends on the alphabet's length only. */
  lemma BuildMetadataLength(v: Variant, a: seq<byte>, b: seq<byte>, ra: byte, rb: byte)
    requires |a| == |b|
    ensures BuildMetadata(v, a, ra).Some? <==> BuildMetadata(v, b, rb).Some?
    ensures BuildMetadata(v, a, ra).Some? ==>
              BuildMetadata(v, a, ra).value.tree == BuildMetadata(v, b, rb).value.tree
  {
  }

  /**
   * As written, an input holding all 256 byte values has no symbols: the
   * range `1..=alphabet.len() as u8` is empty, so `compress` panics. Widened,
   * the same input gets its 256 symbols.
   */
  lemma AllBytesLostSymbols()
    ensures |Alphabet(AllBytes())| == 256
    ensures ComputeSpec(AsWritten, AllBytes()) == None
    ensures ComputeSpec(Widened, AllBytes()).Some?
  {
    var all := AllBytes();
    assert Distinct(all);
    DistinctCard(all);
    AscendingSpec(Elems(all));
    BuildMetadataSpec(AsWritten, Alphabet(all), 0);
    BuildMetadataSpec(Widened, Alphabet(all), 0);
  }

  // ---------------------------------------------------------------------
  // Move-to-back recoding
  // ---------------------------------------------------------------------

  /** The output of a move-to-back step and the alphabet after it. */
  datatype Moved<S> = Moved(out: S, alphabet: seq<byte>)

  /** `alphabet.iter().position(|&x| x == byte)`: the first index holding `b`. */
  function Position(alphabet: seq<byte>, b: byte): (r: Option<nat>)
    ensures r.None? <==> b !in alphabet
    ensures r.Some? ==> r.value < |alphabet| && alphabet[r.value] == b &&
                        forall j :: 0 <= j < r.value ==> alphabet[j] != b
  {
    if alphabet == [] then None
    else if alphabet[0] == b then Some(0)
    else
      match Position(alphabet[1..], b)
      case None => None
      case Some(p) => Some(p + 1)
  }

  /**
   * One byte of the `compress` loop: its symbol is its position plus one, and
   * it moves to the end of the alphabet. As written the symbol is a `u8`, so
   * position 255 overflows.
   */
  function EncodeByte(v: Variant, alphabet: seq<byte>, b: byte): Option<Moved<nat>>
  {
    var pos := Position(alphabet, b);
    if pos.None? || (v == AsWritten && pos.value + 1 > 255) then None
    else Some(Moved(pos.value + 1, RemoveAt(alphabet, pos.value) + [b]))
  }

  /** One leaf of the `decompress` loop: `alphabet.remove(pos - 1)`, pushed back at the end. */
  function DecodeSymbol(alphabet: seq<byte>, symbol: nat): Option<Moved<byte>>
  {
    if 1 <= symbol <= |alphabet| then
      var b := alphabet[symbol - 1];
      Some(Moved(b, RemoveAt(alphabet, symbol - 1) + [b]))
    else None
  }

  function EncodeMore(v: Variant, m: Option<Moved<seq<nat>>>, b: byte): (r: Option<Moved<seq<nat>>>)
    ensures r.Some? ==> m.Some? && |r.value.out| == |m.value.out| + 1
  {
    if m.None? then None
    else
      var s := EncodeByte(v, m.value.alphabet, b);
      if s.None? then None else Some(Moved(m.value.out + [s.value.out], s.value.alphabet))
  }

  function DecodeMore(m: Option<Moved<seq<byte>>>, symbol: nat): (r: Option<Moved<seq<byte>>>)
    ensures r.Some? ==> m.Some? && |r.value.out| == |m.value.out| + 1
  {
    if m.None? then None
    else
      var s := DecodeSymbol(m.value.alphabet, symbol);
      if s.None? then None else Some(Moved(m.value.out + [s.value.out], s.value.alphabet))
  }

  /** The symbols `compress` codes for `data`, and the alphabet after them. */
  function MtbEncode(v: Variant, alphabet: seq<byte>, data: seq<byte>): (r: Option<Moved<seq<nat>>>)
    ensures r.Some? ==> |r.value.out| == |data|
  {
    if data == [] then Some(Moved([], alphabet))
    else
      EncodeMore(v, MtbEncode(v, alphabet, data[..|data| - 1]), data[|data| - 1])
  }

  /** The bytes `decompress` emits for a run of decoded symbols, and the alphabet after them. */
  function MtbDecode(alphabet: seq<byte>, symbols: seq<nat>): (r: Option<Moved<seq<byte>>>)
    ensures r.Some? ==> |r.value.out| == |symbols|
  {
    if symbols == [] then Some(Moved([], alphabet))
    else
      DecodeMore(MtbDecode(alphabet, symbols[..|symbols| - 1]), symbols[|symbols| - 1])
  }

  /** Decoding a step's symbol against the same alphabet gives back its byte and the same new alphabet. */
  lemma ByteRoundTrip(v: Variant, alphabet: seq<byte>, b: byte)
    requires EncodeByte(v, alphabet, b).Some?
    ensures DecodeSymbol(alphabet, EncodeByte(v, alphabet, b).value.out) ==
            Some(Moved(b, EncodeByte(v, alphabet, b).value.alphabet))
  {
  }

  /** The decoder's alphabet follows the encoder's, and the bytes come back. */
  lemma {:induction false} MtbRoundTrip(v: Variant, alphabet: seq<byte>, data: seq<byte>)
    requires MtbEncode(v, alphabet, data).Some?
    ensures MtbDecode(alphabet, MtbEncode(v, alphabet, data).value.out) ==
            Some(Moved(data, MtbEncode(v, alphabet, data).value.alphabet))
  {
    if data != [] {
      var init := data[..|data| - 1];
      var m := MtbEncode(v, alphabet, init).value;
      var s := EncodeByte(v, m.alphabet, data[|data| - 1]).value;
      MtbRoundTrip(v, alphabet, init);
      ByteRoundTrip(v, m.alphabet, data[|data| - 1]);
      var syms := m.out + [s.out];
      assert syms[..|syms| - 1] == m.out;
      assert init + [data[|data| - 1]] == data;
    }
  }

  /** A byte of the alphabet gets a symbol 1..k, and the alphabet stays a permutation of itself. */
  lemma EncodeByteSpec(v: Variant, alphabet: seq<byte>, b: byte)
    requires b in alphabet
    requires v == AsWritten ==> |alphabet| <= 255
    ensures EncodeByte(v, alphabet, b).Some?
    ensures 1 <= EncodeByte(v, alphabet, b).value.out <= |alphabet|
    ensures multiset(EncodeByte(v, alphabet, b).value.alphabet) == multiset(alphabet)
  {
    RemoveAtBag(alphabet, Position(alphabet, b).value);
  }

  /** Every byte of the alphabet can be coded, and the alphabet stays a permutation of itself. */
  lemma {:induction false} MtbEncodeTotal(v: Variant, alphabet: seq<byte>, data: seq<byte>)
    requires forall i :: 0 <= i < |data| ==> data[i] in alphabet
    requires v == AsWritten ==> |alphabet| <= 255
    ensures MtbEncode(v, alphabet, data).Some?
    ensures multiset(MtbEncode(v, alphabet, data).value.alphabet) == multiset(alphabet)
  {
    if data != [] {
      var init := data[..|data| - 1];
      var b := data[|data| - 1];
      assert forall i :: 0 <= i < |init| ==> init[i] == data[i];
      MtbEncodeTotal(v, alphabet, init);
      var m := MtbEncode(v, alphabet, init).value;
      assert b in m.alphabet && |m.alphabet| == |alphabet| by {
        assert b in multiset(alphabet);
        assert b in multiset(m.alphabet);
        assert |multiset(m.alphabet)| == |multiset(alphabet)|;
      }
      EncodeByteSpec(v, m.alphabet, b);
    }
  }

  /** Every symbol is one of 1..k for a k-byte alphabet. */
  lemma {:induction false} MtbEncodeSymbols(v: Variant, alphabet: seq<byte>, data: seq<byte>)
    requires forall i :: 0 <= i < |data| ==> data[i] in alphabet
    requires v == AsWritten ==> |alphabet| <= 255
    ensures MtbEncode(v, alphabet, data).Some?
    ensures forall i :: 0 <= i < |data| ==> 1 <= MtbEncode(v, alphabet, data).value.out[i] <= |alphabet|
  {
    MtbEncodeTotal(v, alphabet, data);
    if data != [] {
      var init := data[..|data| - 1];
      var b := data[|data| - 1];
      assert forall i :: 0 <= i < |init| ==> init[i] == data[i];
      MtbEncodeSymbols(v, alphabet, init);
      MtbEncodeTotal(v, alphabet, init);
      var m := MtbEncode(v, alphabet, init).value;
      assert b in m.alphabet && |m.alphabet| == |alphabet| by {
        assert b in multiset(alphabet);
        assert b in multiset(m.alphabet);
        assert |multiset(m.alphabet)| == |multiset(alphabet)|;
      }
      EncodeByteSpec(v, m.alphabet, b);
      var out := MtbEncode(v, alphabet, data).value.out;
      forall i | 0 <= i < |data|
        ensures 1 <= out[i] <= |alphabet|
      {
        if i < |init| {
          assert out[i] == m.out[i];
        }
      }
    }
  }

  /** A prefix that cannot be decoded spoils every extension. */
  lemma {:induction false} MtbDecodeNone(alphabet: seq<byte>, syms: seq<nat>, more: seq<nat>)
    requires MtbDecode(alphabet, syms).None?
    ensures MtbDecode(alphabet, syms + more).None?
    decreases |more|
  {
    if more != [] {
      var all := syms + more;
      MtbDecodeNone(alphabet, syms, more[..|more| - 1]);
      assert all[..|all| - 1] == syms + more[..|more| - 1];
    } else {
      assert syms + more == syms;
    }
  }

  // ---------------------------------------------------------------------
  // compress / decompress
  // ---------------------------------------------------------------------

  /**
   * The code bits the `compress` loop writes, and its alphabet after them:
   * `None` from the first byte that gets no symbol or whose symbol has no code word.
   */
  function CodeBits(v: Variant, md: Metadata, data: seq<byte>): Option<Moved<seq<Bit>>>
  {
    if data == [] then Some(Moved([], md.alphabet))
    else CodeMore(v, md, CodeBits(v, md, data[..|data| - 1]), data[|data| - 1])
  }

  function CodeMore(v: Variant, md: Metadata, p: Option<Moved<seq<Bit>>>, b: byte): Option<Moved<seq<Bit>>>
  {
    if p.None? then None
    else
      var s := EncodeByte(v, p.value.alphabet, b);
      if s.None? || s.value.out !in md.code then None
      else Some(Moved(p.value.out + md.code[s.value.out], s.value.alphabet))
  }

  /** `compress`: `None` where it panics (no symbols, a byte it cannot code). */
  function CompressSpec(v: Variant, data: seq<byte>): Option<seq<byte>>
  {
    var md := ComputeSpec(v, data);
    if md.None? then None
    else
      var bits := CodeBits(v, md.value, data);
      if bits.None? then None
      else Some(DumpSpec(md.value.(remainder := PaddingOf(|bits.value.out|) as byte)) + Pack(bits.value.out))
  }

  /** Every symbol has a code word (`code.get(...).unwrap()` does not panic). */
  predicate Codable(code: map<nat, seq<Bit>>, symbols: seq<nat>)
  {
    forall i :: 0 <= i < |symbols| ==> symbols[i] in code
  }

  /** `decompress`: `None` where it panics (a short header, no symbols, a symbol past the alphabet). */
  function DecompressSpec(v: Variant, archive: seq<byte>): Option<seq<byte>>
  {
    var loaded := LoadSpec(v, archive);
    if loaded.None? then None
    else
      var md := loaded.value;
      var symbols := Walk(md.tree, md.tree, Kept(archive[2 + |md.alphabet|..], md.remainder));
      match MtbDecode(md.alphabet, symbols)
      case None => None
      case Some(m) => Some(m.out)
  }

  /** The alphabet `compute` finds: every input byte, ascending, at most 256 of them. */
  lemma AlphabetSpec(data: seq<byte>)
    ensures forall i :: 0 <= i < |data| ==> data[i] in Alphabet(data)
    ensures Sorted(Alphabet(data))
    ensures |Alphabet(data)| == |Elems(data)| <= 256
    ensures data != [] ==> |Alphabet(data)| >= 1
  {
    AscendingSpec(Elems(data));
    forall i | 0 <= i < |data|
      ensures data[i] in Alphabet(data)
    {
      assert data[i] in Elems(data);
      assert data[i] in Elems(Alphabet(data));
    }
    if data != [] {
      assert data[0] in Alphabet(data);
    }
  }

  /** The archive holding a sorted alphabet and the code words of some tree leaves decompresses to their move-to-back decoding. */
  lemma DecompressArchive(v: Variant, a: seq<byte>, symbols: seq<nat>)
    requires Sorted(a) && |a| <= 256 && BuildMetadata(v, a, 0).Some?
    requires forall i :: 0 <= i < |symbols| ==> symbols[i] in Leaves(BuildMetadata(v, a, 0).value.tree)
    ensures var md := BuildMetadata(v, a, 0).value;
            var bits := Encode(md.code, symbols);
            var decoded := MtbDecode(a, symbols);
            DecompressSpec(v, DumpSpec(md.(remainder := PaddingOf(|bits|) as byte)) + Pack(bits)) ==
              if decoded.None? then None else Some(decoded.value.out)
  {
    BuildMetadataSpec(v, a, 0);
    var md := BuildMetadata(v, a, 0).value;
    var bits := Encode(md.code, symbols);
    var rem := PaddingOf(|bits|) as byte;
    var archive := DumpSpec(md.(remainder := rem)) + Pack(bits);
    var k := |a|;
    assert archive[0] == rem && archive[1] as nat + 1 == k;
    assert archive[2..2 + k] == a;
    SortBytesSorted(a);
    BuildMetadataSpec(v, a, rem);
    var loaded := LoadSpec(v, archive).value;
    assert loaded.tree == md.tree && loaded.alphabet == a && loaded.remainder == rem;
    assert archive[2 + k..] == Pack(bits);
    PackRoundTrip(bits);
    WalkEncode(md.tree, symbols);
  }

  /**
   * Decompressing what `compress` produced gives back the input: as written,
   * for inputs of at most 255 distinct bytes; widened, for every non-empty input.
   */
  lemma RoundTrip(v: Variant, data: seq<byte>)
    requires data != []
    requires v == AsWritten ==> |Elems(data)| <= 255
    ensures CompressSpec(v, data).Some?
    ensures DecompressSpec(v, CompressSpec(v, data).value) == Some(data)
  {
    var a := Alphabet(data);
    CompressCodable(v, data);
    var md := BuildMetadata(v, a, 0).value;
    var out := MtbEncode(v, a, data).value.out;
    var bits := Encode(md.code, out);
    CodeBitsEncode(v, md, data);
    assert CompressSpec(v, data) == Some(DumpSpec(md.(remainder := PaddingOf(|bits|) as byte)) + Pack(bits));
    DecompressArchive(v, a, out);
    MtbRoundTrip(v, a, data);
  }

  /** For such an input the tree exists and every move-to-back symbol is one of its leaves. */
  lemma CompressCodable(v: Variant, data: seq<byte>)
    requires data != []
    requires v == AsWritten ==> |Elems(data)| <= 255
    ensures var a := Alphabet(data);
            Sorted(a) && |a| <= 256 && BuildMetadata(v, a, 0).Some? && MtbEncode(v, a, data).Some? &&
            var md := BuildMetadata(v, a, 0).value;
            var m := MtbEncode(v, a, data).value;
            (forall i :: 0 <= i < |m.out| ==> m.out[i] in Leaves(md.tree)) && Codable(md.code, m.out)
  {
    var a := Alphabet(data);
    AlphabetSpec(data);
    assert SymbolCount(v, |a|) == |a|;
    BuildMetadataSpec(v, a, 0);
    var md := BuildMetadata(v, a, 0).value;
    MtbEncodeSymbols(v, a, data);
    var m := MtbEncode(v, a, data).value;
    forall i | 0 <= i < |m.out|
      ensures m.out[i] in Leaves(md.tree) && m.out[i] in md.code
    {
      assert 1 <= m.out[i] <= SymbolCount(v, |a|);
      assert m.out[i] in Elems(Leaves(md.tree));
    }
  }

  /** An input of 256 distinct bytes cannot be compressed as written, and round-trips widened. */
  lemma LostSymbols(data: seq<byte>)
    requires |Elems(data)| == 256
    ensures CompressSpec(AsWritten, data) == None
    ensures CompressSpec(Widened, data).Some?
    ensures DecompressSpec(Widened, CompressSpec(Widened, data).value) == Some(data)
  {
    AlphabetSpec(data);
    BuildMetadataSpec(AsWritten, Alphabet(data), 0);
    RoundTrip(Widened, data);
  }

  // ---------------------------------------------------------------------
  // The program: from_queue over a min-first queue, Metadata, compress, decompress
  // ---------------------------------------------------------------------

  /** The first loop of `from_queue`: pops every item into a fresh queue of leaves. */
  method LeafQueue<T>(queue: PriorityQueue<T>) returns (hufQueue: PriorityQueue<Tree<T>>)
    modifies queue
    ensures fresh(hufQueue)
    ensures hufQueue.heap == AsLeaves(Drain(LightestFirst, old(queue.heap)))
    ensures queue.heap == []
  {
    hufQueue := new PriorityQueue<Tree<T>>();
    ghost var all := Drain(LightestFirst, queue.heap);
    ghost var popped: seq<Weighted<T>> := [];
    ghost var rest := queue.heap;
    while true
      invariant fresh(hufQueue) && rest == queue.heap
      invariant popped + Drain(LightestFirst, rest) == all
      invariant hufQueue.heap == AsLeaves(popped)
      decreases |rest|
    {
      var p := queue.Pop();
      if p.None? {
        break;
      }
      DrainStep(LightestFirst, popped, rest);
      hufQueue.Insert(p.value.weight, Leaf(p.value.value));
      popped, rest := popped + [p.value], queue.heap;
    }
  }

  /** One round of the second loop of `from_queue`. */
  method MergeTwo<T>(hufQueue: PriorityQueue<Tree<T>>)
    requires |hufQueue.heap| >= 2
    modifies hufQueue
    ensures hufQueue.heap == MergeOnce(LightestFirst, old(hufQueue.heap))
  {
    var v1 := hufQueue.Pop();
    var v2 := hufQueue.Pop();
    hufQueue.Insert(v1.value.weight + v2.value.weight, Node(v1.value.value, v2.value.value));
  }

  /** `HuffmanTree::from_queue`, including its `assert!` on an empty queue. */
  method FromQueue<T>(queue: PriorityQueue<T>) returns (r: Option<Tree<T>>)
    modifies queue
    ensures r == FromQueueSpec(LightestFirst, old(queue.heap))
  {
    DrainBag(LightestFirst, queue.heap);
    var hufQueue := LeafQueue(queue);
    if hufQueue.Len() == 0 {
      return None;
    }
    ghost var leaves := hufQueue.heap;
    while hufQueue.Len() > 1
      invariant hufQueue.heap != []
      invariant Merge(LightestFirst, hufQueue.heap) == Merge(LightestFirst, leaves)
      decreases |hufQueue.heap|
    {
      MergeTwo(hufQueue);
    }
    var last := hufQueue.Pop();
    r := Some(last.value.value);
  }

  /** The loop `for value in 1..=count { queue.insert(value, value) }` of `compute` and `load`. */
  method FillQueue(count: nat) returns (queue: PriorityQueue<nat>)
    ensures fresh(queue)
    ensures queue.heap == RankItems(count)
  {
    queue := new PriorityQueue<nat>();
    for value := 1 to count + 1
      invariant queue.heap == RankItems(value - 1)
    {
      queue.Insert(value, value);
    }
  }

  /** The queue, tree and code for an alphabet, as `compute` and `load` build them. */
  method MetadataOf(alphabet: seq<byte>, remainder: byte) returns (r: Option<Metadata>)
    ensures r == BuildMetadata(AsWritten, alphabet, remainder)
  {
    var queue := FillQueue(|alphabet| % 256);
    var tree := FromQueue(queue);
    if tree.None? {
      return None;
    }
    var code := GetCodeTable(tree.value);
    r := Some(Metadata(tree.value, alphabet, code, remainder));
  }

  /** `Metadata::compute`: the distinct bytes through a set, sorted. */
  method ComputeMetadata(data: seq<byte>) returns (r: Option<Metadata>)
    ensures r == ComputeSpec(AsWritten, data)
  {
    var seen: set<byte> := {};
    for i := 0 to |data|
      invariant seen == Elems(data[..i])
    {
      ElemsAppend(data[..i], [data[i]]);
      assert data[..i + 1] == data[..i] + [data[i]];
      assert Elems([data[i]]) == {data[i]};
      seen := seen + {data[i]};
    }
    assert data[..|data|] == data;
    r := MetadataOf(Ascending(seen), 0);
  }

  /** `Metadata::load`: `None` where `data[0]`, `data[1]` or `data[2 + i]` is out of range, or there are no symbols. */
  method LoadMetadata(archive: seq<byte>) returns (r: Option<Metadata>)
    ensures r == LoadSpec(AsWritten, archive)
  {
    if |archive| < 2 {
      return None;
    }
    var remainder := archive[0];
    var dictLen := archive[1] as nat + 1;
    var alphabet: seq<byte> := [];
    for i := 0 to dictLen
      invariant 2 + i <= |archive|
      invariant alphabet == archive[2..2 + i]
    {
      if 2 + i >= |archive| {
        return None;
      }
      alphabet := alphabet + [archive[2 + i]];
    }
    r := MetadataOf(SortBytes(alphabet), remainder);
  }

  /** `Metadata::dump` */
  method DumpMetadata(md: Metadata) returns (result: seq<byte>)
    requires |md.alphabet| >= 1
    ensures result == DumpSpec(md)
  {
    result := [md.remainder, ((|md.alphabet| - 1) % 256) as byte];
    for i := 0 to |md.alphabet|
      invariant result == [md.remainder, ((|md.alphabet| - 1) % 256) as byte] + md.alphabet[..i]
    {
      assert md.alphabet[..i + 1] == md.alphabet[..i] + [md.alphabet[i]];
      result := result + [md.alphabet[i]];
    }
    assert md.alphabet[..|md.alphabet|] == md.alphabet;
  }

  /** Decoding one more symbol. */
  lemma DecodeSnoc(alphabet: seq<byte>, symbols: seq<nat>, symbol: nat)
    ensures MtbDecode(alphabet, symbols + [symbol]) == DecodeMore(MtbDecode(alphabet, symbols), symbol)
  {
    assert (symbols + [symbol])[..|symbols|] == symbols;
  }

  /** A prefix that cannot be written spoils every extension. */
  lemma {:induction false} CodeBitsNone(v: Variant, md: Metadata, data: seq<byte>, i: nat)
    requires i <= |data| && CodeBits(v, md, data[..i]).None?
    ensures CodeBits(v, md, data).None?
    decreases |data| - i
  {
    if i < |data| {
      CodeSnoc(v, md, data, i);
      CodeBitsNone(v, md, data, i + 1);
    } else {
      assert data[..i] == data;
    }
  }

  /** Writing one more byte takes one more step. */
  lemma CodeSnoc(v: Variant, md: Metadata, data: seq<byte>, i: nat)
    requires i < |data|
    ensures CodeBits(v, md, data[..i + 1]) == CodeMore(v, md, CodeBits(v, md, data[..i]), data[i])
  {
    assert data[..i + 1][..i] == data[..i];
  }

  /** Where every symbol has a code word, the loop writes exactly their concatenated code words. */
  lemma {:induction false} CodeBitsEncode(v: Variant, md: Metadata, data: seq<byte>)
    requires MtbEncode(v, md.alphabet, data).Some?
    requires Codable(md.code, MtbEncode(v, md.alphabet, data).value.out)
    ensures var m := MtbEncode(v, md.alphabet, data).value;
            CodeBits(v, md, data) == Some(Moved(Encode(md.code, m.out), m.alphabet))
  {
    if data != [] {
      var init := data[..|data| - 1];
      var b := data[|data| - 1];
      assert MtbEncode(v, md.alphabet, data) == EncodeMore(v, MtbEncode(v, md.alphabet, init), b);
      var m0 := MtbEncode(v, md.alphabet, init).value;
      var s := EncodeByte(v, m0.alphabet, b).value;
      var out := m0.out + [s.out];
      assert MtbEncode(v, md.alphabet, data).value == Moved(out, s.alphabet);
      assert Codable(md.code, m0.out) && s.out in md.code by {
        assert forall i :: 0 <= i < |m0.out| ==> m0.out[i] == out[i];
        assert out[|m0.out|] == s.out;
      }
      CodeBitsEncode(v, md, init);
      EncodeSnocWord(md.code, m0.out, s.out);
      assert CodeBits(v, md, data) == CodeMore(v, md, CodeBits(v, md, init), b);
    }
  }

  /** One more code word on the end of the bits. */
  lemma EncodeSnocWord(code: map<nat, seq<Bit>>, symbols: seq<nat>, symbol: nat)
    requires Codable(code, symbols) && symbol in code
    ensures Codable(code, symbols + [symbol])
    ensures Encode(code, symbols + [symbol]) == Encode(code, symbols) + code[symbol]
  {
    EncodeAppend(code, symbols, [symbol]);
    assert [symbol][1..] == [];
  }

  /** The writer loop of `compress`: each byte's move-to-back symbol, its code word, then `finish`. */
  method WriteSymbols(md: Metadata, data: seq<byte>) returns (r: Option<(seq<byte>, byte)>)
    ensures r.None? <==> CodeBits(AsWritten, md, data).None?
    ensures r.Some? ==> r.value.0 == Pack(CodeBits(AsWritten, md, data).value.out) &&
                        r.value.1 == PaddingOf(|CodeBits(AsWritten, md, data).value.out|) as byte
  {
    var alphabet := md.alphabet;
    var writer := new BitWriter();
    for i := 0 to |data|
      invariant writer.Valid()
      invariant CodeBits(AsWritten, md, data[..i]) == Some(Moved(writer.written, alphabet))
    {
      CodeSnoc(AsWritten, md, data, i);
      var pos := Position(alphabet, data[i]);
      if pos.None? || pos.value + 1 > 255 || pos.value + 1 !in md.code {
        CodeBitsNone(AsWritten, md, data, i + 1);
        return None;
      }
      writer.WriteBits(md.code[pos.value + 1]);
      alphabet := RemoveAt(alphabet, pos.value) + [data[i]];
    }
    assert data[..|data|] == data;
    writer.Finish();
    r := Some((writer.result, writer.remainder as byte));
  }

  /** `compress` */
  method Compress(data: seq<byte>) returns (r: Option<seq<byte>>)
    ensures r == CompressSpec(AsWritten, data)
  {
    var md := ComputeMetadata(data);
    if md.None? {
      return None;
    }
    var metadata := md.value;
    var payload := WriteSymbols(metadata, data);
    if payload.None? {
      return None;
    }
    metadata := metadata.(remainder := payload.value.1);
    var dump := DumpMetadata(metadata);
    r := Some(dump + payload.value.0);
  }

  /** After a decodable run, a symbol within the alphabet decodes to the byte at its position. */
  lemma DecodeSnocSome(alphabet0: seq<byte>, symbols: seq<nat>, result: seq<byte>, alphabet: seq<byte>, pos: nat)
    requires MtbDecode(alphabet0, symbols) == Some(Moved(result, alphabet))
    requires 1 <= pos <= |alphabet|
    ensures MtbDecode(alphabet0, symbols + [pos]) ==
            Some(Moved(result + [alphabet[pos - 1]], RemoveAt(alphabet, pos - 1) + [alphabet[pos - 1]]))
  {
    DecodeSnoc(alphabet0, symbols, pos);
  }

  /** After a decodable run, a symbol past the alphabet spoils every continuation. */
  lemma DecodeStuck(alphabet0: seq<byte>, symbols: seq<nat>, result: seq<byte>, alphabet: seq<byte>, pos: nat, more: seq<nat>)
    requires MtbDecode(alphabet0, symbols) == Some(Moved(result, alphabet))
    requires !(1 <= pos <= |alphabet|)
    ensures MtbDecode(alphabet0, symbols + ([pos] + more)).None?
  {
    DecodeSnoc(alphabet0, symbols, pos);
    MtbDecodeNone(alphabet0, symbols + [pos], more);
    Assoc(symbols, [pos], more);
  }

  /** The walk loop of `decompress`: tree steps driven by a `BitReader`, each leaf's symbol recoded move-to-back. */
  method ReadSymbols(tree: Tree<nat>, alphabet0: seq<byte>, reader: BitReader) returns (r: Option<seq<byte>>)
    requires reader.Valid()
    modifies reader
    ensures var m := MtbDecode(alphabet0, Walk(tree, tree, old(reader.Remaining())));
            r == if m.None? then None else Some(m.value.out)
  {
    var result: seq<byte> := [];
    var alphabet := alphabet0;
    var state := tree;
    var done := false;
    ghost var all := reader.Remaining();
    ghost var rest := all;
    ghost var symbols: seq<nat> := [];
    while !done
      invariant reader.Valid() && rest == reader.Remaining()
      invariant symbols + Walk(tree, state, rest) == Walk(tree, tree, all)
      invariant MtbDecode(alphabet0, symbols) == Some(Moved(result, alphabet))
      invariant done ==> rest == []
      decreases |rest| + (if done then 0 else 1)
    {
      var next, emitted;
      done, next, emitted := DecodeStep(tree, state, reader);
      ghost var after := reader.Remaining();
      if !done {
        assert symbols + (emitted + Walk(tree, next, after)) == Walk(tree, tree, all);
        if emitted != [] {
          var pos := emitted[0];
          assert emitted == [pos];
          if !(1 <= pos <= |alphabet|) {
            DecodeStuck(alphabet0, symbols, result, alphabet, pos, Walk(tree, next, after));
            return None;
          }
          DecodeSnocSome(alphabet0, symbols, result, alphabet, pos);
          var b := alphabet[pos - 1];
          alphabet := RemoveAt(alphabet, pos - 1) + [b];
          result := result + [b];
        } else {
          assert symbols + emitted == symbols;
        }
        assert symbols + emitted + Walk(tree, next, after) == Walk(tree, tree, all);
        symbols := symbols + emitted;
        state := next;
      }
      rest := after;
    }
    assert symbols + [] == symbols;
    r := Some(result);
  }

  /** `decompress` */
  method Decompress(archive: seq<byte>) returns (r: Option<seq<byte>>)
    ensures r == DecompressSpec(AsWritten, archive)
  {
    var md := LoadMetadata(archive);
    if md.None? {
      return None;
    }
    var metadata := md.value;
    var reader := new BitReader(archive[2 + |metadata.alphabet|..], metadata.remainder);
    r := ReadSymbols(metadata.tree, metadata.alphabet, reader);
  }
}
