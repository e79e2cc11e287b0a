/**
 * The decoder of lab3: its tree keeps each child of a node behind an
 * `Option`, and the `decompress` loop unwraps the child a bit names. The
 * bit writer and reader are the `BitCodec` ones.
 */
module Shannon {
  import opened Common
  import opened BitCodec
  import CodeTree

  /** `ShannonTree<u8>` */
  datatype ShannonTree = Leaf(value: byte) | Node(left: Option<ShannonTree>, right: Option<ShannonTree>)

  /** The state after one bit; `None` where the named child is missing and `unwrap` panics. */
  function Step(state: ShannonTree, bit: Bit): Option<ShannonTree>
  {
    match state
    case Leaf(_) => Some(state)
    case Node(l, r) => if bit == Zero then l else r
  }

  /** `p` in front of a walk that may have failed. */
  function Prepend(p: seq<byte>, rest: Option<seq<byte>>): (r: Option<seq<byte>>)
    ensures r.Some? <==> rest.Some?
  {
    if rest.None? then None else Some(p + rest.value)
  }

  /**
   * The `decompress` loop over a bit string from `state`: a node steps to
   * the child the bit names, reaching a leaf emits its byte and resets the
   * state to the root. `None` where it panics on a missing child.
   */
  function Walk(root: ShannonTree, state: ShannonTree, bits: seq<Bit>): Option<seq<byte>>
    decreases |bits|
  {
    if bits == [] then Some([])
    else
      match Step(state, bits[0])
      case None => None
      case Some(next) =>
        if next.Leaf? then Prepend([next.value], Walk(root, root, bits[1..]))
        else Walk(root, next, bits[1..])
  }

  /** Every node has both children. */
  predicate Full(t: ShannonTree)
  {
    match t
    case Leaf(_) => true
    case Node(l, r) => l.Some? && r.Some? && Full(l.value) && Full(r.value)
  }

  /** A full tree as a `CodeTree` tree of the same shape. */
  function ToTree(t: ShannonTree): (r: CodeTree.Tree<byte>)
    requires Full(t)
    ensures r.Leaf? <==> t.Leaf?
    ensures t.Leaf? ==> r.value == t.value
  {
    match t
    case Leaf(v) => CodeTree.Leaf(v)
    case Node(l, r) => CodeTree.Node(ToTree(l.value), ToTree(r.value))
  }

  /** On a full tree every step succeeds and moves as the `CodeTree` step does. */
  lemma StepFull(state: ShannonTree, bit: Bit)
    requires Full(state)
    ensures Step(state, bit).Some? && Full(Step(state, bit).value)
    ensures ToTree(Step(state, bit).value) == CodeTree.Step(ToTree(state), bit)
  {
  }

  /**
   * On a full tree the walk never panics and decodes exactly what the
   * `CodeTree` walk decodes, so the `CodeTree` round-trip lemmas apply.
   */
  lemma {:induction false} WalkFull(root: ShannonTree, state: ShannonTree, bits: seq<Bit>)
    requires Full(root) && Full(state)
    ensures Walk(root, state, bits) == Some(CodeTree.Walk(ToTree(root), ToTree(state), bits))
    decreases |bits|
  {
    if bits != [] {
      StepFull(state, bits[0]);
      var next := Step(state, bits[0]).value;
      if next.Leaf? {
        WalkFull(root, root, bits[1..]);
      } else {
        WalkFull(root, next, bits[1..]);
      }
    }
  }

  /** A node whose left child is missing fails on the first `Zero`, whatever follows. */
  lemma MissingLeft(right: Option<ShannonTree>, rest: seq<Bit>)
    ensures Walk(Node(None, right), Node(None, right), [Zero] + rest) == None
  {
  }

  lemma PrependAssoc(a: seq<byte>, b: seq<byte>, rest: Option<seq<byte>>)
    ensures Prepend(a, Prepend(b, rest)) == Prepend(a + b, rest)
    ensures Prepend([], rest) == rest
  {
    if rest.Some? {
      Assoc(a, b, rest.value);
      assert [] + rest.value == rest.value;
    }
  }

  /** The first bit of a walk, split off. */
  lemma WalkStep(root: ShannonTree, state: ShannonTree, bits: seq<Bit>)
    requires bits != [] && Step(state, bits[0]).Some?
    ensures var next := Step(state, bits[0]).value;
            Walk(root, state, bits) ==
            if next.Leaf? then Prepend([next.value], Walk(root, root, bits[1..]))
            else Prepend([], Walk(root, next, bits[1..]))
  {
    PrependAssoc([], [], Walk(root, Step(state, bits[0]).value, bits[1..]));
  }

  /** One turn of the loop: the next state, the byte emitted, or `None` on a missing child. */
  method Advance(root: ShannonTree, state: ShannonTree, bit: Bit) returns (r: Option<(ShannonTree, seq<byte>)>)
    ensures Step(state, bit).None? ==> r.None?
    ensures Step(state, bit).Some? ==>
              var next := Step(state, bit).value;
              r == Some(if next.Leaf? then (root, [next.value]) else (next, []))
  {
    var next := state;
    if next.Node? {
      var child := if bit == Zero then next.left else next.right;
      if child.None? {
        return None;
      }
      next := child.value;
    }
    if next.Leaf? {
      return Some((root, [next.value]));
    }
    r := Some((next, []));
  }

  /** The `while let Some(bit) = reader.read_bit()` loop of `decompress`. */
  method Decode(root: ShannonTree, reader: BitReader) returns (result: Option<seq<byte>>)
    requires reader.Valid()
    modifies reader
    ensures result == Walk(root, root, old(reader.Remaining()))
  {
    var out: seq<byte> := [];
    var state := root;
    ghost var all := reader.Remaining();
    ghost var rest := all;
    PrependAssoc([], [], Walk(root, root, all));
    while true
      invariant reader.Valid() && rest == reader.Remaining()
      invariant Prepend(out, Walk(root, state, rest)) == Walk(root, root, all)
      decreases |rest|
    {
      var bit := reader.ReadBit();
      if bit.None? {
        assert out + [] == out;
        return Some(out);
      }
      assert bit.value == rest[0] && reader.Remaining() == rest[1..];
      var step := Advance(root, state, bit.value);
      if step.None? {
        return None;
      }
      var (next, emitted) := step.value;
      WalkStep(root, state, rest);
      PrependAssoc(out, emitted, Walk(root, next, rest[1..]));
      out, state := out + emitted, next;
      rest := reader.Remaining();
    }
  }

  /** `decompress` from the payload on: a `BitReader` over it drives the walk. */
  method ReadCodes(tree: ShannonTree, data: seq<byte>, remainder: byte) returns (result: Option<seq<byte>>)
    ensures result == Walk(tree, tree, Kept(data, remainder))
  {
    var reader := new BitReader(data, remainder);
    result := Decode(tree, reader);
  }
}
