/**
 * The adaptive Huffman coder of lab4-py: `compress` and `decompress` over
 * the tree of module AdaptiveTree and the bit writer and reader of PyBits.
 *
 * A `Variant` picks the value of the NYT leaf the coding starts from. The
 * source starts from `Leaf(0, 0)`, a leaf whose value is the byte 0, so a
 * 0 in the data is mistaken for that leaf; the corrected coder gives the
 * NYT leaf a value no byte has.
 */
module Adaptive {
  import opened Common
  import opened BitCodec
  import opened PyBits
  import opened AdaptiveTree

  datatype Variant = AsWritten | Fixed

  /** The value of the leaf coding starts from. */
  function Marker(v: Variant): Option<byte>
  {
    if v == AsWritten then Some(0) else None
  }

  /** `root = Leaf(0, 0)` (as written), or a NYT leaf of no byte's value. */
  function Initial(v: Variant): ATree
  {
    Leaf(Marker(v), 0)
  }

  /** `p` in front of a result that may have failed. */
  function Prepend<T>(p: seq<T>, rest: Option<seq<T>>): (r: Option<seq<T>>)
    ensures r.Some? <==> rest.Some?
    ensures r.Some? ==> r.value == p + rest.value
  {
    match rest
    case None => None
    case Some(s) => Some(p + s)
  }

  lemma PrependAssoc<T>(a: seq<T>, b: seq<T>, rest: Option<seq<T>>)
    ensures Prepend(a, Prepend(b, rest)) == Prepend(a + b, rest)
  {
    if rest.Some? {
      Assoc(a, b, rest.value);
    }
  }

  lemma PrependNil<T>(rest: Option<seq<T>>)
    ensures Prepend([], rest) == rest
  {
    if rest.Some? {
      assert [] + rest.value == rest.value;
    }
  }

  // ---------------------------------------------------------------------
  // compress
  // ---------------------------------------------------------------------

  /**
   * One pass of the `compress` loop: a byte already in the tree is sent as
   * its code and its weight increased; a new byte is sent as the NYT code
   * followed by its eight bits, and inserted. `None` where a tree
   * operation fails.
   */
  function EncodeSymbol(t: ATree, c: byte): Option<(seq<Bit>, ATree)>
  {
    var (inside, code) := FindChar(t, c);
    if !inside then
      match InsertChar(t, c)
      case None => None
      case Some(next) => Some((NytPath(t) + ByteBits(c), next))
    else
      match IncreaseWeights(t, code)
      case None => None
      case Some(next) => Some((code, next))
  }

  /** The bits the `compress` loop writes for `data`, from tree `t` on. */
  function Encode(t: ATree, data: seq<byte>): Option<seq<Bit>>
    decreases |data|
  {
    if data == [] then Some([])
    else
      match EncodeSymbol(t, data[0])
      case None => None
      case Some((bits, next)) => Prepend(bits, Encode(next, data[1..]))
  }

  /** `compress(data)`: `[r] + compressed` for a leading 0 bit followed by the codes. */
  function CompressSpec(v: Variant, data: seq<byte>): Option<seq<byte>>
  {
    ArchiveOf(Encode(Initial(v), data))
  }

  /** `[r] + compressed` for the bits written after the leading 0 bit, if the coding got through. */
  function ArchiveOf(bits: Option<seq<Bit>>): Option<seq<byte>>
  {
    match bits
    case None => None
    case Some(b) =>
      var all := [Zero] + b;
      Some([RunLength(|all|) as byte] + PyPack(all))
  }

  // ---------------------------------------------------------------------
  // decompress
  // ---------------------------------------------------------------------

  /**
   * The `decompress` loop from the node at `cur`: a bit moves down from a
   * node; at a leaf, a weight-0 leaf reads eight raw bits as a new byte and
   * inserts it, any other leaf yields its byte and has its weight
   * increased; then decoding goes on from the root. The loop ends when the
   * bits do; `None` where the source fails (fewer than eight raw bits, a
   * leaf with no byte value, a failing tree operation).
   */
  function Decode(root: ATree, cur: seq<Bit>, bits: seq<Bit>): Option<seq<byte>>
    requires IsPath(root, cur)
    decreases |bits|, 1
  {
    if bits == [] then Some([])
    else if At(root, cur).Node? then
      PathSnoc(root, cur, bits[0]);
      var next := cur + [bits[0]];
      if At(root, next).Node? then Decode(root, next, bits[1..])
      else AtLeaf(root, next, bits[1..])
    else AtLeaf(root, cur, bits[1..])
  }

  /** The leaf branch of the `decompress` loop, at the leaf at `p`, with `rest` still to read. */
  function AtLeaf(root: ATree, p: seq<Bit>, rest: seq<Bit>): Option<seq<byte>>
    requires IsPath(root, p) && At(root, p).Leaf?
    decreases |rest|, 2
  {
    var leaf := At(root, p);
    if leaf.weight == 0 then
      if |rest| < 8 then None
      else
        PackByteBound(rest[..8]);
        var c: byte := PackByte(rest[..8]);
        match InsertChar(root, c)
        case None => None
        case Some(next) => Prepend([c], Decode(next, [], rest[8..]))
    else
      match leaf.value
      case None => None
      case Some(c) =>
        match IncreaseWeights(root, p)
        case None => None
        case Some(next) => Prepend([c], Decode(next, [], rest))
  }

  /** `decompress(archive)`: the first byte is the bit count of the last; an empty archive fails. */
  function DecompressSpec(v: Variant, archive: seq<byte>): Option<seq<byte>>
  {
    if archive == [] then None
    else Decode(Initial(v), [], Kept(archive[1..], 8 - archive[0] as int))
  }

  // ---------------------------------------------------------------------
  // The round trip
  // ---------------------------------------------------------------------

  /**
   * What the coder keeps true of a tree once a byte has been coded: the
   * root is a node, a NYT leaf of weight 0 is among the leaves, and every
   * other leaf has weight at least one.
   */
  predicate Valid(v: Variant, t: ATree)
  {
    t.Node? && (Marker(v), 0) in LeafBag(t) &&
    forall x :: x in LeafBag(t) && x.0 != Marker(v) ==> x.1 >= 1
  }

  /** Reading the rest of a leaf's code from a node above it brings the decoder to that leaf. */
  lemma {:induction false} WalkTo(t: ATree, cur: seq<Bit>, p: seq<Bit>, rest: seq<Bit>)
    requires IsPath(t, p) && At(t, p).Leaf? && cur < p
    ensures IsPath(t, cur) && Decode(t, cur, p[|cur|..] + rest) == AtLeaf(t, p, rest)
    decreases |p| - |cur|
  {
    PathPrefix(t, p, cur);
    var bits := p[|cur|..] + rest;
    var next := cur + [bits[0]];
    assert next == p[..|cur| + 1];
    assert bits[1..] == p[|next|..] + rest;
    if next != p {
      assert next < p;
      PathPrefix(t, p, next);
      WalkTo(t, next, p, rest);
    } else {
      assert p[|next|..] == [];
    }
  }

  /** A tree that has a weight-0 leaf: `dfs(root, fweight=0)` finds one. */
  lemma NytFound(v: Variant, t: ATree)
    requires (Marker(v), 0) in LeafBag(t)
    ensures Dfs(t, WeightIs(0)).1
    ensures IsPath(t, NytPath(t)) && At(t, NytPath(t)).Leaf? && At(t, NytPath(t)).weight == 0
  {
    var p := BagLeaf(t, (Marker(v), 0));
    DfsComplete(t, WeightIs(0), p);
  }

  /** The parts of a symbol `compress` finds in the tree: its code and the tree after `increase_weights`. */
  lemma EncodeKnown(t: ATree, c: byte)
    requires FindChar(t, c).0 && EncodeSymbol(t, c).Some?
    ensures IsPath(t, FindChar(t, c).1) && IncreaseWeights(t, FindChar(t, c).1).Some?
    ensures EncodeSymbol(t, c).value == (FindChar(t, c).1, IncreaseWeights(t, FindChar(t, c).1).value)
  {
  }

  /** The parts of a symbol new to the tree: the NYT code and raw bits, and the tree after `insert_char`. */
  lemma EncodeNew(t: ATree, c: byte)
    requires !FindChar(t, c).0 && EncodeSymbol(t, c).Some?
    ensures InsertChar(t, c).Some?
    ensures EncodeSymbol(t, c).value == (NytPath(t) + ByteBits(c), InsertChar(t, c).value)
  {
  }

  /** Decoding the code of a leaf of positive weight yields its byte and increases its weight. */
  lemma KnownDecode(t: ATree, code: seq<Bit>, c: byte, next: ATree, rest: seq<Bit>)
    requires t.Node? && IsPath(t, code) && At(t, code).Leaf? && At(t, code).value == Some(c)
    requires At(t, code).weight >= 1 && IncreaseWeights(t, code) == Some(next)
    ensures Decode(t, [], code + rest) == Prepend([c], Decode(next, [], rest))
  {
    assert code != [] && code[0..] == code;
    WalkTo(t, [], code, rest);
  }

  /** Increasing the weight of a leaf holding a byte keeps a valid tree valid, and that leaf had positive weight. */
  lemma KnownValid(v: Variant, t: ATree, code: seq<Bit>, c: byte, next: ATree)
    requires Valid(v, t) && IsPath(t, code) && At(t, code).Leaf? && At(t, code).value == Some(c)
    requires Some(c) != Marker(v) && IncreaseWeights(t, code) == Some(next)
    ensures At(t, code).weight >= 1 && Valid(v, next)
  {
    LeafInBag(t, code);
    ClimbSpec(t, code, RecursionLimit);
    BumpValid(v, LeafBag(t), LeafBag(next), Some(c), At(t, code).weight);
  }

  /** Trading one non-NYT leaf for a heavier one keeps the leaves valid. */
  lemma BumpValid(v: Variant, before: multiset<(Option<byte>, nat)>, after: multiset<(Option<byte>, nat)>, c: Option<byte>, w: nat)
    requires (Marker(v), 0) in before && forall x :: x in before && x.0 != Marker(v) ==> x.1 >= 1
    requires c != Marker(v) && after + multiset{(c, w)} == before + multiset{(c, w + 1)}
    ensures (Marker(v), 0) in after && forall x :: x in after && x.0 != Marker(v) ==> x.1 >= 1
  {
    assert (after + multiset{(c, w)})[(Marker(v), 0)] == (before + multiset{(c, w + 1)})[(Marker(v), 0)];
    forall x | x in after && x.0 != Marker(v)
      ensures x.1 >= 1
    {
      if x != (c, w + 1) {
        assert (after + multiset{(c, w)})[x] >= 1;
        assert x in before;
      }
    }
  }

  /**
   * Decoding the NYT code and eight raw bits yields the byte and inserts
   * it; from the initial leaf, the NYT code is empty and the leading bit
   * of the stream stands in its place.
   */
  lemma NewDecode(t: ATree, c: byte, next: ATree, rest: seq<Bit>)
    requires IsPath(t, NytPath(t)) && At(t, NytPath(t)).Leaf? && At(t, NytPath(t)).weight == 0
    requires InsertChar(t, c) == Some(next)
    ensures t.Node? ==> Decode(t, [], NytPath(t) + ByteBits(c) + rest) == Prepend([c], Decode(next, [], rest))
    ensures t.Leaf? ==> Decode(t, [], [Zero] + ByteBits(c) + rest) == Prepend([c], Decode(next, [], rest))
  {
    var nyt := NytPath(t);
    AfterNyt(t, nyt, c, rest);
    if t.Node? {
      assert nyt != [] && nyt[0..] == nyt;
      WalkTo(t, [], nyt, ByteBits(c) + rest);
      Assoc(nyt, ByteBits(c), rest);
    } else {
      assert ([Zero] + ByteBits(c) + rest)[1..] == ByteBits(c) + rest;
    }
  }

  /** At a weight-0 leaf, eight raw bits of a byte insert that byte. */
  lemma AfterNyt(t: ATree, nyt: seq<Bit>, c: byte, rest: seq<Bit>)
    requires IsPath(t, nyt) && At(t, nyt).Leaf? && At(t, nyt).weight == 0
    ensures AtLeaf(t, nyt, ByteBits(c) + rest) ==
            match InsertChar(t, c)
            case None => None
            case Some(next) => Prepend([c], Decode(next, [], rest))
  {
    var bits := ByteBits(c) + rest;
    assert bits[..8] == ByteBits(c) && bits[8..] == rest;
    ByteBitsPack(c);
  }

  /** Inserting a byte keeps the leaves valid and makes the root a node. */
  lemma NewValid(v: Variant, t: ATree, c: byte, next: ATree)
    requires (Marker(v), 0) in LeafBag(t) && forall x :: x in LeafBag(t) && x.0 != Marker(v) ==> x.1 >= 1
    requires InsertChar(t, c) == Some(next)
    ensures Valid(v, next)
  {
    NytFound(v, t);
    InsertCharSpec(t, c);
  }

  /** From a valid tree, decoding what `compress` wrote for bytes other than the NYT value gives them back. */
  lemma {:induction false} EncodeRoundTrip(v: Variant, t: ATree, data: seq<byte>)
    requires Valid(v, t) && Encode(t, data).Some?
    requires forall i :: 0 <= i < |data| ==> Some(data[i]) != Marker(v)
    ensures Decode(t, [], Encode(t, data).value) == Some(data)
    decreases |data|
  {
    if data != [] {
      var c := data[0];
      var (bits, next) := EncodeSymbol(t, c).value;
      var more := Encode(next, data[1..]).value;
      assert Encode(t, data).value == bits + more;
      if FindChar(t, c).0 {
        EncodeKnown(t, c);
        KnownValid(v, t, bits, c, next);
        KnownDecode(t, bits, c, next, more);
      } else {
        EncodeNew(t, c);
        NytFound(v, t);
        NewValid(v, t, c, next);
        NewDecode(t, c, next, more);
      }
      EncodeRoundTrip(v, next, data[1..]);
      assert [c] + data[1..] == data;
    }
  }

  /**
   * Decoding what `compress` wrote for non-empty data that avoids the NYT
   * value gives the data back, whenever the tree operations of the
   * encoder succeed.
   */
  lemma BitsRoundTrip(v: Variant, data: seq<byte>)
    requires data != [] && Encode(Initial(v), data).Some?
    requires forall i :: 0 <= i < |data| ==> Some(data[i]) != Marker(v)
    ensures Decode(Initial(v), [], [Zero] + Encode(Initial(v), data).value) == Some(data)
  {
    var t := Initial(v);
    var c := data[0];
    assert data == [c] + data[1..];
    EncodeCons(t, c, data[1..]);
    InitialNew(v, c);
    var next := EncodeSymbol(t, c).value.1;
    var more := Encode(next, data[1..]).value;
    EncodeNew(t, c);
    NewValid(v, t, c, next);
    NewDecode(t, c, next, more);
    EncodeRoundTrip(v, next, data[1..]);
    assert [] + ByteBits(c) == ByteBits(c);
    assert Encode(t, data).value == ByteBits(c) + more;
    Assoc([Zero], ByteBits(c), more);
  }

  /** The first byte is always new: the initial leaf is the NYT leaf, with the empty code. */
  lemma InitialNew(v: Variant, c: byte)
    requires Some(c) != Marker(v)
    ensures !FindChar(Initial(v), c).0 && NytPath(Initial(v)) == []
    ensures (Marker(v), 0) in LeafBag(Initial(v))
    ensures forall x :: x in LeafBag(Initial(v)) && x.0 != Marker(v) ==> x.1 >= 1
  {
  }

  /** `Encode` on a byte in front: that byte's bits, then the rest from the tree it leaves. */
  lemma EncodeCons(t: ATree, c: byte, rest: seq<byte>)
    ensures EncodeSymbol(t, c).None? ==> Encode(t, [c] + rest) == None
    ensures EncodeSymbol(t, c).Some? ==>
              Encode(t, [c] + rest) == Prepend(EncodeSymbol(t, c).value.0, Encode(EncodeSymbol(t, c).value.1, rest))
  {
    assert ([c] + rest)[0] == c && ([c] + rest)[1..] == rest;
  }

  /**
   * `decompress(compress(data)) == data` for non-empty data that avoids
   * the NYT value (any data, in the corrected coder), whenever `compress`
   * succeeds.
   */
  lemma RoundTrip(v: Variant, data: seq<byte>)
    requires data != [] && CompressSpec(v, data).Some?
    requires forall i :: 0 <= i < |data| ==> Some(data[i]) != Marker(v)
    ensures DecompressSpec(v, CompressSpec(v, data).value) == Some(data)
  {
    var all := [Zero] + Encode(Initial(v), data).value;
    var archive := CompressSpec(v, data).value;
    assert archive[1..] == PyPack(all) && archive[0] == RunLength(|all|);
    RunLengthRoundTrip(all);
    BitsRoundTrip(v, data);
  }

  /** The corrected coder: every non-empty input it compresses comes back. */
  lemma FixedRoundTrip(data: seq<byte>)
    requires data != [] && CompressSpec(Fixed, data).Some?
    ensures DecompressSpec(Fixed, CompressSpec(Fixed, data).value) == Some(data)
  {
    RoundTrip(Fixed, data);
  }

  /**
   * As written, the byte 0 is the NYT leaf's value: the single byte 0 is
   * sent as nothing at all, so it compresses to the archive of the empty
   * input, and that archive does not decompress.
   */
  lemma ZeroCollides()
    ensures CompressSpec(AsWritten, [0]) == CompressSpec(AsWritten, []) == Some([1, 0])
    ensures DecompressSpec(AsWritten, CompressSpec(AsWritten, [0]).value) == None
  {
    var t := Initial(AsWritten);
    assert FindChar(t, 0) == (true, []);
    assert IncreaseWeights(t, []) == Some(Leaf(Some(0), 1));
    assert Encode(t, [0]) == Some([]);
    SilentArchive(AsWritten, [0]);
    EmptyInput(AsWritten);
  }

  /** In both coders the empty input compresses to an archive that does not decompress. */
  lemma EmptyInput(v: Variant)
    ensures CompressSpec(v, []) == Some([1, 0])
    ensures DecompressSpec(v, [1, 0]) == None
  {
    SilentArchive(v, []);
    assert [1, 0][1..] == [0];
    assert Decode(Initial(v), [], [Zero]) == None by {
      assert [Zero][1..] == [];
    }
    assert Kept([0], 7) == [Zero] by {
      assert ByteBits(0) == [Zero, Zero, Zero, Zero, Zero, Zero, Zero, Zero];
      assert Kept([0], 7) == Trim(ByteBits(0), 7) + Kept([], 7);
    }
  }

  /** Data for which no bit follows the leading one compresses to `[1, 0]`. */
  lemma SilentArchive(v: Variant, data: seq<byte>)
    requires Encode(Initial(v), data) == Some([])
    ensures CompressSpec(v, data) == Some([1, 0])
  {
    var all := [Zero] + Encode(Initial(v), data).value;
    assert all == [Zero];
    assert RunLength(|all|) == 1;
    assert PackByte([Zero]) == 0;
    assert PyPack(all) == [0];
    assert [RunLength(|all|) as byte] + PyPack(all) == [1, 0];
  }

  /** What the `compress` loop has written, once it has finished, makes up the archive. */
  lemma Finished(written: seq<Bit>, rest: Option<seq<Bit>>, bits: Option<seq<Bit>>)
    requires Prepend(written, rest) == Prepend([Zero], bits)
    ensures rest == Some([]) ==> ArchiveOf(bits) == Some([RunLength(|written|) as byte] + PyPack(written))
    ensures rest == None ==> ArchiveOf(bits) == None
  {
    if rest == Some([]) {
      assert written + [] == written;
      var b := bits.value;
      assert [Zero] + b == written;
    }
  }

  // ---------------------------------------------------------------------
  // The loops
  // ---------------------------------------------------------------------

  /** `to_bin(x)`: eight times, the low bit of `x`, then `x //= 2`. */
  method ToBin(x: byte) returns (bits: seq<Bit>)
    ensures bits == ByteBits(x)
  {
    bits := [];
    var y: nat := x;
    ghost var target := ByteBits(x);
    assert [] + LowBits(x, 8) == target;
    for i := 0 to 8
      invariant |bits| == i && bits + LowBits(y, 8 - i) == target
    {
      ToBinStep(bits, y, 8 - i);
      bits := bits + [BitOf(y % 2)];
      y := y / 2;
    }
    assert LowBits(y, 0) == [];
  }

  lemma ToBinStep(bits: seq<Bit>, y: nat, n: nat)
    requires n >= 1
    ensures bits + LowBits(y, n) == (bits + [BitOf(y % 2)]) + LowBits(y / 2, n - 1)
  {
  }

  /** `compress(data)`; `None` where a tree operation of the source fails. */
  method Compress(v: Variant, data: seq<byte>) returns (archive: Option<seq<byte>>)
    ensures archive == CompressSpec(v, data)
  {
    var writer := new PyBitWriter();
    writer.WriteBit(Zero);
    assert writer.written == [Zero];
    var ok := CodeAll(v, writer, data);
    if !ok {
      return None;
    }
    var bytes, r := writer.GetRunBuffer();
    archive := Some([r as byte] + bytes);
  }

  /** The `for c in data` loop of `compress`, after the leading 0 bit: false where a byte cannot be coded. */
  method CodeAll(v: Variant, writer: PyBitWriter, data: seq<byte>) returns (ok: bool)
    requires writer.Valid() && writer.written == [Zero]
    modifies writer
    ensures writer.Valid()
    ensures ok ==> CompressSpec(v, data) == Some([RunLength(|writer.written|) as byte] + PyPack(writer.written))
    ensures !ok ==> CompressSpec(v, data) == None
  {
    var root := Initial(v);
    assert data[0..] == data;
    for i := 0 to |data|
      invariant writer.Valid()
      invariant Prepend(writer.written, Encode(root, data[i..])) == Prepend([Zero], Encode(Initial(v), data))
    {
      ghost var before := writer.written;
      assert data[i..] == [data[i]] + data[i + 1..];
      EncodeCons(root, data[i], data[i + 1..]);
      var next := CodeSymbol(writer, root, data[i]);
      if next.None? {
        Finished(before, None, Encode(Initial(v), data));
        return false;
      }
      PrependAssoc(before, EncodeSymbol(root, data[i]).value.0, Encode(next.value, data[i + 1..]));
      root := next.value;
    }
    assert data[|data|..] == [];
    Finished(writer.written, Some([]), Encode(Initial(v), data));
    return true;
  }

  /** The body of the `compress` loop for one byte: writes its bits and returns the next tree. */
  method CodeSymbol(writer: PyBitWriter, root: ATree, c: byte) returns (next: Option<ATree>)
    requires writer.Valid()
    modifies writer
    ensures writer.Valid()
    ensures next.Some? <==> EncodeSymbol(root, c).Some?
    ensures next.Some? ==>
              next.value == EncodeSymbol(root, c).value.1 &&
              writer.written == old(writer.written) + EncodeSymbol(root, c).value.0
  {
    var (inside, code) := FindChar(root, c);
    if !inside {
      ghost var start := writer.written;
      var nyt := Dfs(root, WeightIs(0)).0;
      writer.WriteBits(nyt);
      var raw := ToBin(c);
      writer.WriteBits(raw);
      Assoc(start, nyt, raw);
      next := InsertChar(root, c);
    } else {
      writer.WriteBits(code);
      next := IncreaseWeights(root, code);
    }
  }

  /** One bit of the `decompress` loop: a step down from a node, then the leaf branch if a leaf is reached. */
  lemma DecodeCons(root: ATree, cur: seq<Bit>, b: Bit, rest: seq<Bit>)
    requires IsPath(root, cur)
    ensures At(root, cur).Node? ==> IsPath(root, cur + [b])
    ensures Decode(root, cur, [b] + rest) ==
            if At(root, cur).Node? then
              if At(root, cur + [b]).Node? then Decode(root, cur + [b], rest) else AtLeaf(root, cur + [b], rest)
            else AtLeaf(root, cur, rest)
  {
    assert ([b] + rest)[0] == b && ([b] + rest)[1..] == rest;
    if At(root, cur).Node? {
      PathSnoc(root, cur, b);
    }
  }

  /**
   * The raw-byte loop of `decompress`: eight `read_bit` calls. `None` when
   * fewer than eight bits are left (`from_bits` then fails on a missing
   * bit).
   */
  method ReadRaw(reader: TrimBitReader) returns (bits: Option<seq<Bit>>)
    requires reader.Valid()
    modifies reader
    ensures reader.Valid()
    ensures |old(reader.Remaining())| >= 8 ==>
              bits == Some(old(reader.Remaining())[..8]) && reader.Remaining() == old(reader.Remaining())[8..]
    ensures |old(reader.Remaining())| < 8 ==> bits == None && reader.Remaining() == []
  {
    ghost var start := reader.Remaining();
    var got: seq<Bit> := [];
    var missing := false;
    for i := 0 to 8
      invariant reader.Valid()
      invariant !missing ==> i <= |start| && got == start[..i] && reader.Remaining() == start[i..]
      invariant missing ==> |start| < 8 && reader.Remaining() == []
    {
      var bit := reader.ReadBit();
      if bit.None? {
        missing := true;
      } else if !missing {
        assert start[..i + 1] == start[..i] + [bit.value];
        assert start[i + 1..] == start[i..][1..];
        got := got + [bit.value];
      }
    }
    bits := if missing then None else Some(got);
  }

  /** `decompress(archive)`; `None` where the source fails. */
  method Decompress(v: Variant, archive: seq<byte>) returns (result: Option<seq<byte>>)
    ensures result == DecompressSpec(v, archive)
  {
    if |archive| == 0 {
      return None;
    }
    var reader := new TrimBitReader(archive[1..], archive[0]);
    var root := Initial(v);
    var cur: seq<Bit> := [];
    var out: seq<byte> := [];
    PrependNil(Decode(root, cur, reader.Remaining()));
    while true
      invariant reader.Valid() && IsPath(root, cur)
      invariant Prepend(out, Decode(root, cur, reader.Remaining())) == DecompressSpec(v, archive)
      decreases |reader.Remaining()|
    {
      ghost var before := reader.Remaining();
      var bit := reader.ReadBit();
      if bit.None? {
        assert out + [] == out;
        break;
      }
      HeadTail(before);
      var step := Advance(reader, root, cur, bit.value);
      if step.None? {
        return None;
      }
      PrependAssoc(out, step.value.0, Decode(step.value.1, step.value.2, reader.Remaining()));
      out := out + step.value.0;
      root := step.value.1;
      cur := step.value.2;
    }
    return Some(out);
  }

  /**
   * The rest of one pass of the `decompress` loop once bit `b` is read: a
   * step down from a node, then the leaf branch if that reaches a leaf.
   * Returns the bytes yielded (none or one), the tree and the path after it.
   */
  method Advance(reader: TrimBitReader, root: ATree, cur: seq<Bit>, b: Bit) returns (step: Option<(seq<byte>, ATree, seq<Bit>)>)
    requires reader.Valid() && IsPath(root, cur)
    modifies reader
    ensures reader.Valid() && |reader.Remaining()| <= |old(reader.Remaining())|
    ensures step.None? ==> Decode(root, cur, [b] + old(reader.Remaining())) == None
    ensures step.Some? ==>
              IsPath(step.value.1, step.value.2) &&
              Decode(root, cur, [b] + old(reader.Remaining())) ==
                Prepend(step.value.0, Decode(step.value.1, step.value.2, reader.Remaining()))
  {
    DecodeCons(root, cur, b, reader.Remaining());
    var p := cur;
    if At(root, cur).Node? {
      p := cur + [b];
    }
    if At(root, p).Leaf? {
      var leaf := LeafStep(reader, root, p);
      if leaf.None? {
        return None;
      }
      step := Some(([leaf.value.0], leaf.value.1, []));
    } else {
      PrependNil(Decode(root, p, reader.Remaining()));
      step := Some(([], root, p));
    }
  }

  /**
   * The leaf branch of the `decompress` loop: a weight-0 leaf reads eight
   * raw bits (`from_bits`) and inserts the byte; another leaf yields its
   * byte and has its weight increased. Returns the byte and the new tree.
   */
  method LeafStep(reader: TrimBitReader, root: ATree, p: seq<Bit>) returns (step: Option<(byte, ATree)>)
    requires reader.Valid() && IsPath(root, p) && At(root, p).Leaf?
    modifies reader
    ensures reader.Valid() && |reader.Remaining()| <= |old(reader.Remaining())|
    ensures step.None? ==> AtLeaf(root, p, old(reader.Remaining())) == None
    ensures step.Some? ==>
              AtLeaf(root, p, old(reader.Remaining())) == Prepend([step.value.0], Decode(step.value.1, [], reader.Remaining()))
  {
    var leaf := At(root, p);
    if leaf.weight == 0 {
      var raw := ReadRaw(reader);
      if raw.None? {
        return None;
      }
      var c := CollectByte(raw.value);
      var next := InsertChar(root, c);
      if next.None? {
        return None;
      }
      return Some((c, next.value));
    } else {
      if leaf.value.None? {
        return None;
      }
      var next := IncreaseWeights(root, p);
      if next.None? {
        return None;
      }
      return Some((leaf.value.value, next.value));
    }
  }
}
