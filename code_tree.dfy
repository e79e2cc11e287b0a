/**
 * The binary code tree shared by the Huffman labs (lab1-rs, lab5) and the
 * Fano lab (lab2): `Leaf(value)` or `Node(left, right)`, with a zero bit
 * leading left and a one bit leading right. This module holds the code
 * assignment of `HuffmanTree::dfs/get_code`, the decoding walk of the
 * `decompress` loops, and the lemmas that make the codes prefix-free and
 * the walk an inverse of encoding.
 */
module CodeTree {
  import opened Common
  import opened BitCodec

  datatype Tree<T> = Leaf(value: T) | Node(left: Tree<T>, right: Tree<T>)

  /** The subtree reached from `t` along `path` (Zero = left, One = right), if any. */
  function Follow<T>(t: Tree<T>, path: seq<Bit>): Option<Tree<T>>
    decreases |path|
  {
    if path == [] then Some(t)
    else match t
      case Leaf(_) => None
      case Node(l, r) => Follow(if path[0] == Zero then l else r, path[1..])
  }

  /** The leaf values of `t`, left to right. */
  function Leaves<T>(t: Tree<T>): seq<T>
  {
    match t
    case Leaf(v) => [v]
    case Node(l, r) => Leaves(l) + Leaves(r)
  }

  /** `Vec::pop` with the popped value thrown away. */
  function DropLast<T>(s: seq<T>): seq<T>
  {
    if s == [] then [] else s[..|s| - 1]
  }

  /**
   * `dfs`: the shared accumulator is pushed before and popped after each
   * child, and each leaf inserts a copy of it. Returns the accumulator and
   * the updated code table.
   */
  function Dfs<T>(t: Tree<T>, acc: seq<Bit>, code: map<T, seq<Bit>>): (res: (seq<Bit>, map<T, seq<Bit>>))
  {
    match t
    case Leaf(v) => (acc, code[v := acc])
    case Node(l, r) =>
      var (acc1, code1) := Dfs(l, acc + [Zero], code);
      var (acc2, code2) := Dfs(r, DropLast(acc1) + [One], code1);
      (DropLast(acc2), code2)
  }

  /**
   * `dfs` hands back its accumulator unchanged, adds exactly the leaves of
   * `t` to the table, and gives each leaf the accumulator followed by its
   * path below `t`.
   */
  lemma {:induction false} DfsSpec<T>(t: Tree<T>, acc: seq<Bit>, code: map<T, seq<Bit>>)
    ensures Dfs(t, acc, code).0 == acc
    ensures Dfs(t, acc, code).1.Keys == code.Keys + Elems(Leaves(t))
    ensures forall v :: v in code && v !in Elems(Leaves(t)) ==> Dfs(t, acc, code).1[v] == code[v]
    ensures forall v :: v in Elems(Leaves(t)) ==>
              |Dfs(t, acc, code).1[v]| >= |acc| && Dfs(t, acc, code).1[v][..|acc|] == acc &&
              Follow(t, Dfs(t, acc, code).1[v][|acc|..]) == Some(Leaf(v))
  {
    match t
    case Leaf(v) =>
      assert acc[|acc|..] == [];
    case Node(l, r) =>
      DfsSpec(l, acc + [Zero], code);
      var (acc1, code1) := Dfs(l, acc + [Zero], code);
      assert DropLast(acc + [Zero]) == acc;
      DfsSpec(r, acc + [One], code1);
      var (acc2, code2) := Dfs(r, acc + [One], code1);
      ElemsAppend(Leaves(l), Leaves(r));
      DfsNode(l, r, acc, code1, code2);
  }

  /** The step of `Dfs` on a node: a code starting with `acc + [b]` continues into the child `b` names. */
  lemma DfsNode<T>(l: Tree<T>, r: Tree<T>, acc: seq<Bit>, code1: map<T, seq<Bit>>, code2: map<T, seq<Bit>>)
    requires forall v :: v in Elems(Leaves(l)) ==>
               v in code1 && |code1[v]| >= |acc| + 1 && code1[v][..|acc| + 1] == acc + [Zero] &&
               Follow(l, code1[v][|acc| + 1..]) == Some(Leaf(v))
    requires forall v :: v in Elems(Leaves(r)) ==>
               v in code2 && |code2[v]| >= |acc| + 1 && code2[v][..|acc| + 1] == acc + [One] &&
               Follow(r, code2[v][|acc| + 1..]) == Some(Leaf(v))
    requires forall v :: v in code1 && v !in Elems(Leaves(r)) ==> v in code2 && code2[v] == code1[v]
    ensures forall v :: v in Elems(Leaves(Node(l, r))) ==>
              v in code2 && |code2[v]| >= |acc| && code2[v][..|acc|] == acc &&
              Follow(Node(l, r), code2[v][|acc|..]) == Some(Leaf(v))
  {
    forall v | v in Elems(Leaves(Node(l, r)))
      ensures v in code2 && |code2[v]| >= |acc| && code2[v][..|acc|] == acc &&
              Follow(Node(l, r), code2[v][|acc|..]) == Some(Leaf(v))
    {
      var c := code2[v];
      assert c[..|acc|] == c[..|acc| + 1][..|acc|];
      assert c[|acc|..][1..] == c[|acc| + 1..];
      if v !in Elems(Leaves(r)) {
        assert v in Elems(Leaves(l));
      }
    }
  }

  /** `get_code`: a lone leaf gets the one-bit code `[One]`; otherwise `dfs` from an empty path. */
  function GetCode<T>(t: Tree<T>): (code: map<T, seq<Bit>>)
    ensures code.Keys == Elems(Leaves(t))
  {
    DfsSpec(t, [], map[]);
    if t.Leaf? then map[t.value := [One]] else Dfs(t, [], map[]).1
  }

  /** `dfs` as the source runs it, on a shared path that is pushed and popped around each child. */
  method DfsInto<T>(t: Tree<T>, acc0: seq<Bit>, code0: map<T, seq<Bit>>) returns (acc: seq<Bit>, code: map<T, seq<Bit>>)
    ensures (acc, code) == Dfs(t, acc0, code0)
    decreases t
  {
    acc, code := acc0, code0;
    match t
    case Leaf(v) =>
      code := code[v := acc];
    case Node(l, r) =>
      acc := acc + [Zero];
      acc, code := DfsInto(l, acc, code);
      acc := DropLast(acc);
      acc := acc + [One];
      acc, code := DfsInto(r, acc, code);
      acc := DropLast(acc);
  }

  /** `get_code` */
  method GetCodeTable<T>(t: Tree<T>) returns (code: map<T, seq<Bit>>)
    ensures code == GetCode(t)
  {
    code := map[];
    if t.Leaf? {
      code := code[t.value := [One]];
    } else {
      var _, c := DfsInto(t, [], code);
      code := c;
    }
  }

  /** A code table for `t`: every leaf value has a code, every code leads from the root to its leaf. */
  ghost predicate PathCode<T>(t: Tree<T>, code: map<T, seq<Bit>>)
  {
    code.Keys == Elems(Leaves(t)) &&
    forall v :: v in code ==> Follow(t, code[v]) == Some(Leaf(v))
  }

  /** Below the root of a node tree, `get_code` assigns each leaf its root-to-leaf path. */
  lemma GetCodePaths<T>(t: Tree<T>)
    requires t.Node?
    ensures PathCode(t, GetCode(t))
    ensures forall v :: v in GetCode(t) ==> GetCode(t)[v] != []
  {
    var code := GetCode(t);
    DfsSpec(t, [], map[]);
    forall v | v in code
      ensures Follow(t, code[v]) == Some(Leaf(v)) && code[v] != []
    {
      assert code[v][0..] == code[v];
    }
  }

  lemma {:induction false} FollowAppend<T>(t: Tree<T>, p: seq<Bit>, q: seq<Bit>)
    ensures Follow(t, p + q) == match Follow(t, p) case None => None case Some(s) => Follow(s, q)
    decreases |p|
  {
    if p == [] {
      assert p + q == q;
    } else if t.Node? {
      assert (p + q)[1..] == p[1..] + q;
      FollowAppend(if p[0] == Zero then t.left else t.right, p[1..], q);
    }
  }

  /** No code a path code assigns is a prefix of another's. */
  lemma PathCodePrefixFree<T>(t: Tree<T>, code: map<T, seq<Bit>>, u: T, v: T)
    requires PathCode(t, code)
    requires u in code && v in code && u != v
    ensures !(|code[u]| <= |code[v]| && code[v][..|code[u]|] == code[u])
  {
    if |code[u]| <= |code[v]| && code[v][..|code[u]|] == code[u] {
      var rest := code[v][|code[u]|..];
      assert code[v] == code[u] + rest;
      FollowAppend(t, code[u], rest);
    }
  }

  /** The codes `get_code` produces are prefix-free. */
  lemma GetCodePrefixFree<T>(t: Tree<T>, u: T, v: T)
    requires u in GetCode(t) && v in GetCode(t) && u != v
    ensures !(|GetCode(t)[u]| <= |GetCode(t)[v]| && GetCode(t)[v][..|GetCode(t)[u]|] == GetCode(t)[u])
  {
    if t.Node? {
      GetCodePaths(t);
      PathCodePrefixFree(t, GetCode(t), u, v);
    }
  }

  // ---------------------------------------------------------------------
  // Decoding walk
  // ---------------------------------------------------------------------

  /**
   * One bit of the `decompress` loop: a node steps to the child the bit
   * names; a leaf (only possible when the root itself is a leaf) stays.
   */
  function Step<T>(state: Tree<T>, bit: Bit): Tree<T>
  {
    match state
    case Leaf(_) => state
    case Node(l, r) => if bit == Zero then l else r
  }

  /** The values the `decompress` loop emits from `state` on `bits`: a leaf emits and resets to the root. */
  function Walk<T>(root: Tree<T>, state: Tree<T>, bits: seq<Bit>): seq<T>
    decreases |bits|
  {
    if bits == [] then []
    else
      var next := Step(state, bits[0]);
      if next.Leaf? then [next.value] + Walk(root, root, bits[1..])
      else Walk(root, next, bits[1..])
  }

  /** `bits` concatenated codes for `data`, the bits `compress` writes. */
  function Encode<T>(code: map<T, seq<Bit>>, data: seq<T>): seq<Bit>
    requires forall i :: 0 <= i < |data| ==> data[i] in code
  {
    if data == [] then [] else code[data[0]] + Encode(code, data[1..])
  }

  lemma {:induction false} EncodeAppend<T>(code: map<T, seq<Bit>>, a: seq<T>, b: seq<T>)
    requires forall i :: 0 <= i < |a| ==> a[i] in code
    requires forall i :: 0 <= i < |b| ==> b[i] in code
    ensures forall i :: 0 <= i < |a + b| ==> (a + b)[i] in code
    ensures Encode(code, a + b) == Encode(code, a) + Encode(code, b)
  {
    assert forall i :: 0 <= i < |a + b| ==> (a + b)[i] in code by {
      forall i | 0 <= i < |a + b| ensures (a + b)[i] in code {
        if i < |a| { assert (a + b)[i] == a[i]; } else { assert (a + b)[i] == b[i - |a|]; }
      }
    }
    if a == [] {
      assert a + b == b;
    } else {
      assert (a + b)[1..] == a[1..] + b;
      EncodeAppend(code, a[1..], b);
    }
  }

  /** Walking a non-empty path to a leaf emits that leaf and returns to the root. */
  lemma {:induction false} WalkPath<T>(root: Tree<T>, state: Tree<T>, path: seq<Bit>, v: T, rest: seq<Bit>)
    requires state.Node? && path != [] && Follow(state, path) == Some(Leaf(v))
    ensures Walk(root, state, path + rest) == [v] + Walk(root, root, rest)
    decreases |path|
  {
    var next := Step(state, path[0]);
    assert (path + rest)[0] == path[0];
    assert (path + rest)[1..] == path[1..] + rest;
    if path[1..] == [] {
      assert Follow(next, path[1..]) == Some(next);
      assert path[1..] + rest == rest;
    } else {
      assert next.Node?;
      WalkPath(root, next, path[1..], v, rest);
    }
  }

  /** The decoder's walk inverts the encoder on every input whose symbols the tree knows. */
  lemma {:induction false} WalkEncode<T>(t: Tree<T>, data: seq<T>)
    requires forall i :: 0 <= i < |data| ==> data[i] in Elems(Leaves(t))
    ensures Walk(t, t, Encode(GetCode(t), data)) == data
  {
    if data != [] {
      var code := GetCode(t);
      var rest := Encode(code, data[1..]);
      WalkEncode(t, data[1..]);
      if t.Leaf? {
        assert data[0] == t.value;
        assert code[data[0]] == [One];
        assert ([One] + rest)[1..] == rest;
      } else {
        GetCodePaths(t);
        WalkPath(t, t, code[data[0]], data[0], rest);
      }
      assert data == [data[0]] + data[1..];
    }
  }

  /**
   * The `while let Some(bit) = reader.read_bit()` loop of `decompress`: a
   * node steps to the child the bit names; reaching a leaf emits its value
   * and resets the state to the root.
   */
  method Decode<T>(root: Tree<T>, reader: BitReader) returns (result: seq<T>)
    requires reader.Valid()
    modifies reader
    ensures result == Walk(root, root, old(reader.Remaining()))
    ensures reader.Valid() && reader.Remaining() == []
  {
    result := [];
    var state := root;
    var done := false;
    ghost var all := reader.Remaining();
    ghost var rest := all;
    while !done
      invariant reader.Valid() && rest == reader.Remaining()
      invariant result + Walk(root, state, rest) == Walk(root, root, all)
      invariant done ==> rest == []
      decreases |rest| + (if done then 0 else 1)
    {
      var next, emitted;
      done, next, emitted := DecodeStep(root, state, reader);
      if !done {
        result, state := result + emitted, next;
      }
      rest := reader.Remaining();
    }
  }

  /** One turn of the `decompress` loop: reads a bit (or finds none left) and steps the state. */
  method DecodeStep<T>(root: Tree<T>, state: Tree<T>, reader: BitReader) returns (done: bool, next: Tree<T>, emitted: seq<T>)
    requires reader.Valid()
    modifies reader
    ensures reader.Valid()
    ensures done ==> old(reader.Remaining()) == [] && reader.Remaining() == []
    ensures !done ==> |reader.Remaining()| < |old(reader.Remaining())|
    ensures |emitted| <= 1
    ensures !done ==> emitted + Walk(root, next, reader.Remaining()) == Walk(root, state, old(reader.Remaining()))
  {
    ghost var bits := reader.Remaining();
    var bit := reader.ReadBit();
    if bit.None? {
      return true, state, [];
    }
    WalkStep(root, state, bits);
    done := false;
    next, emitted := Advance(root, state, bit.value);
  }

  /** The body of the `decompress` loop for one bit: the next state and the values emitted. */
  method Advance<T>(root: Tree<T>, state: Tree<T>, bit: Bit) returns (next: Tree<T>, emitted: seq<T>)
    ensures emitted == if Step(state, bit).Leaf? then [Step(state, bit).value] else []
    ensures next == if Step(state, bit).Leaf? then root else Step(state, bit)
  {
    next := state;
    if next.Node? {
      next := if bit == Zero then next.left else next.right;
    }
    emitted := [];
    if next.Leaf? {
      emitted := [next.value];
      next := root;
    }
  }

  lemma WalkStep<T>(root: Tree<T>, state: Tree<T>, bits: seq<Bit>)
    requires bits != []
    ensures Walk(root, state, bits) ==
            (if Step(state, bits[0]).Leaf? then [Step(state, bits[0]).value] else []) +
            Walk(root, if Step(state, bits[0]).Leaf? then root else Step(state, bits[0]), bits[1..])
  {
  }

  /** The writer part of `compress`: every byte's codeword through a `BitWriter`, then `finish`. */
  method WriteCodes<T>(code: map<T, seq<Bit>>, data: seq<T>) returns (bytes: seq<byte>, remainder: byte)
    requires forall i :: 0 <= i < |data| ==> data[i] in code
    ensures bytes == Pack(Encode(code, data))
    ensures remainder == PaddingOf(|Encode(code, data)|)
  {
    var writer := new BitWriter();
    for i := 0 to |data|
      invariant writer.Valid() && writer.written == Encode(code, data[..i])
    {
      EncodeAppend(code, data[..i], [data[i]]);
      assert data[..i + 1] == data[..i] + [data[i]];
      assert Encode(code, [data[i]]) == code[data[i]] by {
        assert [data[i]][1..] == [];
      }
      writer.WriteBits(code[data[i]]);
    }
    assert data[..|data|] == data;
    writer.Finish();
    bytes, remainder := writer.result, writer.remainder as byte;
  }

  /** The reader part of `decompress`: a `BitReader` over the payload drives the tree walk. */
  method ReadCodes<T>(tree: Tree<T>, data: seq<byte>, remainder: byte) returns (result: seq<T>)
    ensures result == Walk(tree, tree, Kept(data, remainder))
  {
    var reader := new BitReader(data, remainder);
    result := Decode(tree, reader);
  }
}
