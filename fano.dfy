/**
 * The Shannon-Fano codec of lab2: symbol weights are the ranks of the bytes
 * in ascending byte order, the tree is built by splitting the weight list
 * where its prefix sums balance, and the archive is a `RankHeader` header
 * followed by the packed code bits.
 */
module Fano {
  import opened Common
  import opened BitCodec
  import opened CodeTree
  import opened RankHeader

  // ---------------------------------------------------------------------
  // prefix_sum
  // ---------------------------------------------------------------------

  /** The total weight of a list of items. */
  function WeightSum<T>(s: seq<Weighted<T>>): nat
  {
    if s == [] then 0 else WeightSum(s[..|s| - 1]) + s[|s| - 1].weight
  }

  /** The running totals of the weights, one per item. */
  function PrefixSums<T>(ws: seq<Weighted<T>>): (pf: seq<nat>)
    ensures |pf| == |ws|
  {
    if ws == [] then [] else PrefixSums(ws[..|ws| - 1]) + [WeightSum(ws)]
  }

  /**
   * The sums are inclusive: entry `i` is the weight of the first `i + 1`
   * items. They never decrease, so `pf.last() - pf[m]` never underflows.
   */
  lemma {:induction false} PrefixSumsSpec<T>(ws: seq<Weighted<T>>)
    ensures forall i :: 0 <= i < |ws| ==> PrefixSums(ws)[i] == WeightSum(ws[..i + 1])
    ensures forall i, j :: 0 <= i <= j < |ws| ==> PrefixSums(ws)[i] <= PrefixSums(ws)[j]
  {
    if ws != [] {
      var init := ws[..|ws| - 1];
      PrefixSumsSpec(init);
      forall i | 0 <= i < |init|
        ensures PrefixSums(ws)[i] == WeightSum(ws[..i + 1])
      {
        assert init[..i + 1] == ws[..i + 1];
      }
      assert ws[..|ws|] == ws;
      forall i | 0 <= i < |init|
        ensures PrefixSums(ws)[i] <= WeightSum(ws)
      {
        WeightSumPrefix(ws, i + 1, |ws|);
      }
    }
  }

  lemma {:induction false} WeightSumPrefix<T>(ws: seq<Weighted<T>>, i: nat, j: nat)
    requires i <= j <= |ws|
    ensures WeightSum(ws[..i]) <= WeightSum(ws[..j])
    decreases j
  {
    if i < j {
      assert ws[..j][..j - 1] == ws[..j - 1];
      WeightSumPrefix(ws, i, j - 1);
    }
  }

  /** `FanoTree::prefix_sum` */
  method PrefixSum<T>(weights: seq<Weighted<T>>) returns (pf: seq<nat>)
    ensures pf == PrefixSums(weights)
  {
    pf := [];
    for i := 0 to |weights|
      invariant pf == PrefixSums(weights[..i])
    {
      assert weights[..i + 1][..i] == weights[..i];
      if i == 0 {
        pf := pf + [weights[i].weight];
      } else {
        assert weights[..i][..i - 1] == weights[..i - 1];
        pf := pf + [weights[i].weight + pf[i - 1]];
      }
    }
    assert weights[..|weights|] == weights;
  }

  // ---------------------------------------------------------------------
  // partition
  // ---------------------------------------------------------------------

  function Abs(x: int): nat
  {
    if x < 0 then -x else x
  }

  /**
   * The two copies of `partition`: lab2 stops only when the difference grows
   * or the range is exhausted; lab2-py also stops at once when the two sides
   * balance exactly (its `diff < 1e-5` test on integer sums).
   */
  datatype Bisection = Plain | StopOnTie

  /**
   * `inner` of `partition`: a bisection over `l..r` for the split whose left
   * and right sums are closest, stopping as soon as the difference grows.
   * When the previous candidate lies within the range, so does the answer;
   * on a range of two or more entries the answer is never the last entry.
   */
  function Inner(how: Bisection, pf: seq<nat>, l: nat, r: nat, prev: Option<(nat, nat)>): (m: nat)
    requires l <= r < |pf|
    ensures (prev.None? || prev.value.0 <= r) ==> m <= r
    ensures l < r && (prev.None? || prev.value.0 < r) ==> m < r
    decreases r - l
  {
    var m := (l + r) / 2;
    var half := (r - l) / 2;
    var val1 := pf[m];
    var val2 := pf[|pf| - 1] as int - pf[m] as int;
    var diff := Abs(val1 - val2);
    if prev.Some? && prev.value.1 < diff then prev.value.0
    else if (how == StopOnTie && diff == 0) || half == 0 then m
    else if val1 > val2 then Inner(how, pf, l, r - half, Some((m, diff)))
    else Inner(how, pf, l + half, r, Some((m, diff)))
  }

  /**
   * `partition`: `None` on an empty list, where `pf.len() - 1` underflows;
   * otherwise an index of the list, and for two or more entries one that
   * leaves both halves non-empty.
   */
  function Partition(how: Bisection, pf: seq<nat>): (m: Option<nat>)
    ensures m.Some? <==> pf != []
    ensures m.Some? ==> m.value < |pf| && (|pf| >= 2 ==> m.value <= |pf| - 2)
  {
    if pf == [] then None else Some(Inner(how, pf, 0, |pf| - 1, None))
  }

  // ---------------------------------------------------------------------
  // from_weighs / from_hashmap
  // ---------------------------------------------------------------------

  /** The values of a list are those of its two halves, in order. */
  lemma ValuesSplit<T>(ws: seq<Weighted<T>>, k: nat)
    requires k <= |ws|
    ensures Values(ws) == Values(ws[..k]) + Values(ws[k..])
  {
  }

  /** The node over two built halves, if both were built. */
  function Pair<T>(left: Option<Tree<T>>, right: Option<Tree<T>>): Option<Tree<T>>
  {
    if left.None? || right.None? then None else Some(Node(left.value, right.value))
  }

  /**
   * `FanoTree::from_weighs`: splits the list at `partition` of its prefix
   * sums. `None` wherever the source panics: on an empty list, and so on a
   * single item, whose right half is empty. Otherwise a full binary tree
   * whose leaves, read left to right, are the values of the items in order.
   */
  function FromWeighs<T>(how: Bisection, ws: seq<Weighted<T>>): (r: Option<Tree<T>>)
    ensures r.Some? <==> |ws| >= 2
    ensures r.Some? ==> r.value.Node? && Leaves(r.value) == Values(ws)
    decreases |ws|, 1
  {
    match Partition(how, PrefixSums(ws))
    case None => None
    case Some(m) =>
      var left, right := Half(how, ws[..m + 1]), Half(how, ws[m + 1..]);
      ValuesSplit(ws, m + 1);
      Pair(left, right)
  }

  /** One unfolding of `FromWeighs` at the split `partition` picks. */
  lemma FromWeighsSplit<T>(how: Bisection, ws: seq<Weighted<T>>, m: nat)
    requires Partition(how, PrefixSums(ws)) == Some(m)
    ensures m + 1 <= |ws|
    ensures FromWeighs(how, ws) == Pair(Half(how, ws[..m + 1]), Half(how, ws[m + 1..]))
  {
  }

  /** One half of a split: a single item becomes a leaf, a longer list a subtree. */
  function Half<T>(how: Bisection, ws: seq<Weighted<T>>): (r: Option<Tree<T>>)
    ensures r.Some? <==> ws != []
    ensures r.Some? ==> Leaves(r.value) == Values(ws)
    decreases |ws|, if |ws| == 1 then 0 else 2
  {
    if |ws| == 1 then
      assert Values(ws) == [ws[0].value];
      Some(Leaf(ws[0].value))
    else FromWeighs(how, ws)
  }

  /** Items in non-decreasing order of weight. */
  predicate ByWeight<T>(s: seq<Weighted<T>>)
  {
    forall i, j :: 0 <= i < j < |s| ==> s[i].weight <= s[j].weight
  }

  /** Puts `x` in front of the first item at least as heavy. */
  function InsertByWeight<T>(x: Weighted<T>, s: seq<Weighted<T>>): (r: seq<Weighted<T>>)
    ensures |r| == |s| + 1
    ensures multiset(r) == multiset(s) + multiset{x}
  {
    if s == [] || x.weight <= s[0].weight then [x] + s
    else
      assert s == [s[0]] + s[1..];
      [s[0]] + InsertByWeight(x, s[1..])
  }

  /** `sort_by_key(|p| p.weight)`, a stable sort. */
  function SortByWeight<T>(s: seq<Weighted<T>>): (r: seq<Weighted<T>>)
    ensures |r| == |s|
    ensures multiset(r) == multiset(s)
  {
    if s == [] then []
    else
      assert s == [s[0]] + s[1..];
      InsertByWeight(s[0], SortByWeight(s[1..]))
  }

  lemma {:induction false} InsertByWeightSorted<T>(x: Weighted<T>, s: seq<Weighted<T>>)
    requires ByWeight(s)
    ensures ByWeight(InsertByWeight(x, s))
    ensures InsertByWeight(x, s)[0] == x || InsertByWeight(x, s)[0] == s[0]
  {
    if s != [] && x.weight > s[0].weight {
      var t := InsertByWeight(x, s[1..]);
      InsertByWeightSorted(x, s[1..]);
      assert t[0] == x || t[0] == s[1];
      assert [s[0]] + t == InsertByWeight(x, s);
      forall i, j | 0 <= i < j < |t| + 1
        ensures ([s[0]] + t)[i].weight <= ([s[0]] + t)[j].weight
      {
        if i == 0 {
          assert t[0].weight <= t[j - 1].weight || j == 1;
        }
      }
    }
  }

  /** The sort orders by weight and keeps every item. */
  lemma {:induction false} SortByWeightSpec<T>(s: seq<Weighted<T>>)
    ensures ByWeight(SortByWeight(s))
    ensures multiset(SortByWeight(s)) == multiset(s)
  {
    if s != [] {
      SortByWeightSpec(s[1..]);
      InsertByWeightSorted(s[0], SortByWeight(s[1..]));
    }
  }

  /** Lists with the same items carry the same values. */
  lemma ValuesElems<T>(a: seq<Weighted<T>>, b: seq<Weighted<T>>)
    requires multiset(a) == multiset(b)
    ensures Elems(Values(a)) == Elems(Values(b))
  {
    forall v | v in Values(a)
      ensures v in Values(b)
    {
      var i :| 0 <= i < |a| && Values(a)[i] == v;
      assert a[i] in multiset(b);
      var j :| 0 <= j < |b| && b[j] == a[i];
      assert Values(b)[j] == v;
    }
    forall v | v in Values(b)
      ensures v in Values(a)
    {
      var j :| 0 <= j < |b| && Values(b)[j] == v;
      assert b[j] in multiset(a);
      var i :| 0 <= i < |a| && a[i] == b[j];
      assert Values(a)[i] == v;
    }
  }

  /** `FanoTree::from_hashmap` */
  function FromHashmap(w: map<byte, nat>): Option<Tree<byte>>
  {
    FromWeighs(Plain, SortByWeight(ItemsOf(w)))
  }

  /** A tree exists for two or more symbols, and its leaves are exactly the keys of the map. */
  lemma FromHashmapSpec(w: map<byte, nat>)
    ensures FromHashmap(w).Some? <==> |w| >= 2
    ensures FromHashmap(w).Some? ==> FromHashmap(w).value.Node? && Elems(Leaves(FromHashmap(w).value)) == w.Keys
  {
    ItemsOfSpec(w);
    SortByWeightSpec(ItemsOf(w));
    ValuesElems(SortByWeight(ItemsOf(w)), ItemsOf(w));
  }

  /** `from_weighs` with the loop of `prefix_sum`. */
  method BuildFromWeighs<T>(how: Bisection, weights: seq<Weighted<T>>) returns (r: Option<Tree<T>>)
    ensures r == FromWeighs(how, weights)
    decreases |weights|, 2
  {
    var pf := PrefixSum(weights);
    var m := Partition(how, pf);
    if m.None? {
      return None;
    }
    r := BuildSplit(how, weights, m.value);
  }

  /** The two recursive halves of `from_weighs` around the split `m`. */
  method BuildSplit<T>(how: Bisection, weights: seq<Weighted<T>>, m: nat) returns (r: Option<Tree<T>>)
    requires Partition(how, PrefixSums(weights)) == Some(m)
    ensures r == FromWeighs(how, weights)
    decreases |weights|, 1
  {
    FromWeighsSplit(how, weights, m);
    var lTree := BuildHalf(how, weights[..m + 1]);
    var rTree := BuildHalf(how, weights[m + 1..]);
    r := Pair(lTree, rTree);
  }

  /** The `if left.len() == 1` branch of `from_weighs`, for either half. */
  method BuildHalf<T>(how: Bisection, weights: seq<Weighted<T>>) returns (r: Option<Tree<T>>)
    ensures r == Half(how, weights)
    decreases |weights|, if |weights| == 1 then 0 else 3
  {
    if |weights| == 1 {
      r := Some(Leaf(weights[0].value));
    } else {
      r := BuildFromWeighs(how, weights);
    }
  }

  method BuildFromHashmap(w: map<byte, nat>) returns (r: Option<Tree<byte>>)
    ensures r == FromHashmap(w)
  {
    var weights := SortByWeight(ItemsOf(w));
    r := BuildFromWeighs(Plain, weights);
  }

  // ---------------------------------------------------------------------
  // get_code
  // ---------------------------------------------------------------------

  /** `get_code_rec`: the code table after visiting `t`, reached along `run`. */
  function CodeRec<T>(t: Tree<T>, run: seq<Bit>, codes: map<T, seq<Bit>>): map<T, seq<Bit>>
  {
    match t
    case Leaf(v) => codes[v := run]
    case Node(l, r) => CodeRec(r, run + [One], CodeRec(l, run + [Zero], codes))
  }

  /** The recursive walk builds the same table as the depth-first walk of `CodeTree`. */
  lemma {:induction false} CodeRecDfs<T>(t: Tree<T>, run: seq<Bit>, codes: map<T, seq<Bit>>)
    ensures CodeRec(t, run, codes) == Dfs(t, run, codes).1
  {
    match t
    case Leaf(_) =>
    case Node(l, r) =>
      var c1 := CodeRec(l, run + [Zero], codes);
      CodeRecDfs(l, run + [Zero], codes);
      DfsSpec(l, run + [Zero], codes);
      assert DropLast(run + [Zero]) == run;
      CodeRecDfs(r, run + [One], c1);
  }

  /** `FanoTree::get_code` */
  function FanoCode<T>(t: Tree<T>): map<T, seq<Bit>>
  {
    CodeRec(t, [], map[])
  }

  /**
   * On a tree with two or more leaves the code gives each leaf its path,
   * is non-empty for each, and covers exactly the leaves.
   */
  lemma FanoCodePaths<T>(t: Tree<T>)
    requires t.Node?
    ensures FanoCode(t) == GetCode(t)
    ensures FanoCode(t).Keys == Elems(Leaves(t))
    ensures PathCode(t, FanoCode(t))
    ensures forall v :: v in FanoCode(t) ==> FanoCode(t)[v] != []
  {
    CodeRecDfs(t, [], map[]);
    GetCodePaths(t);
  }

  /** No code word is a prefix of another. */
  lemma FanoCodePrefixFree<T>(t: Tree<T>, u: T, v: T)
    requires t.Node?
    requires u in FanoCode(t) && v in FanoCode(t) && u != v
    ensures !(|FanoCode(t)[u]| <= |FanoCode(t)[v]| && FanoCode(t)[v][..|FanoCode(t)[u]|] == FanoCode(t)[u])
  {
    FanoCodePaths(t);
    GetCodePrefixFree(t, u, v);
  }

  method GetCodeRec<T>(t: Tree<T>, codes0: map<T, seq<Bit>>, run: seq<Bit>) returns (codes: map<T, seq<Bit>>)
    ensures codes == CodeRec(t, run, codes0)
  {
    match t
    case Leaf(v) =>
      codes := codes0[v := run];
    case Node(l, r) =>
      codes := GetCodeRec(l, codes0, run + [Zero]);
      codes := GetCodeRec(r, codes, run + [One]);
  }

  method GetFanoCode<T>(t: Tree<T>) returns (code: map<T, seq<Bit>>)
    ensures code == FanoCode(t)
  {
    code := GetCodeRec(t, map[], []);
  }

  // ---------------------------------------------------------------------
  // Metadata
  // ---------------------------------------------------------------------

  datatype Metadata = Metadata(weights: map<byte, nat>, tree: Tree<byte>, code: map<byte, seq<Bit>>, remainder: byte)

  /** The tree and code a weight map determines; `None` where building the tree panics. */
  function BuildMetadata(w: map<byte, nat>, remainder: byte): Option<Metadata>
  {
    match FromHashmap(w)
    case None => None
    case Some(t) => Some(Metadata(w, t, FanoCode(t), remainder))
  }

  /** `Metadata::compute` */
  function ComputeSpec(data: seq<byte>): Option<Metadata>
  {
    BuildMetadata(Ranks(data), 0)
  }

  /** `Metadata::load`: `None` where it reads past the end of the archive or the tree cannot be built. */
  function LoadSpec(archive: seq<byte>): Option<Metadata>
  {
    match LoadHeader(archive)
    case None => None
    case Some((remainder, w)) => BuildMetadata(w, remainder)
  }

  /** Metadata exists exactly for two or more symbols, and then codes exactly the keys by tree paths. */
  lemma BuildMetadataSpec(w: map<byte, nat>, remainder: byte)
    ensures BuildMetadata(w, remainder).Some? <==> |w| >= 2
    ensures BuildMetadata(w, remainder).Some? ==>
              var md := BuildMetadata(w, remainder).value;
              md.weights == w && md.remainder == remainder &&
              md.tree.Node? && md.code == GetCode(md.tree) &&
              Elems(Leaves(md.tree)) == w.Keys && md.code.Keys == w.Keys
  {
    FromHashmapSpec(w);
    if |w| >= 2 {
      FanoCodePaths(FromHashmap(w).value);
    }
  }

  /** `compute` succeeds exactly when the input holds two distinct bytes, and then codes every input byte. */
  lemma ComputeSpecCovers(data: seq<byte>)
    ensures ComputeSpec(data).Some? <==> |Elems(data)| >= 2
    ensures ComputeSpec(data).Some? ==>
              var md := ComputeSpec(data).value;
              md.weights == Ranks(data) && md.remainder == 0 &&
              2 <= |md.weights| <= 256 &&
              (forall b :: b in md.weights ==> md.weights[b] < 256) &&
              forall i :: 0 <= i < |data| ==> data[i] in md.code && data[i] in Elems(Leaves(md.tree))
  {
    RanksSpec(data);
    BuildMetadataSpec(Ranks(data), 0);
    if |Elems(data)| >= 2 {
      var md := ComputeSpec(data).value;
      forall i | 0 <= i < |data|
        ensures data[i] in md.code && data[i] in Elems(Leaves(md.tree))
      {
        assert data[i] in Elems(data);
      }
    }
  }

  /** A loaded header reaches no further into the archive than where its payload starts. */
  lemma LoadSpecBound(archive: seq<byte>)
    requires LoadSpec(archive).Some?
    ensures 2 + 2 * |LoadSpec(archive).value.weights| <= |archive|
  {
    var n := archive[1] as nat + 1;
    var w := PairsMap(archive, n);
    assert LoadHeader(archive) == Some((archive[0], w));
    assert LoadSpec(archive) == BuildMetadata(w, archive[0]);
    PairsMapCard(archive, n);
    BuildMetadataSpec(w, archive[0]);
  }

  method ComputeMetadata(data: seq<byte>) returns (r: Option<Metadata>)
    ensures r == ComputeSpec(data)
  {
    var weights := GetWeights(data);
    var tree := BuildFromHashmap(weights);
    if tree.None? {
      return None;
    }
    var code := GetFanoCode(tree.value);
    r := Some(Metadata(weights, tree.value, code, 0));
  }

  method LoadMetadata(archive: seq<byte>) returns (r: Option<Metadata>)
    ensures r == LoadSpec(archive)
  {
    var header := LoadWeights(archive);
    if header.None? {
      return None;
    }
    var (remainder, weights) := header.value;
    var tree := BuildFromHashmap(weights);
    if tree.None? {
      return None;
    }
    var code := GetFanoCode(tree.value);
    r := Some(Metadata(weights, tree.value, code, remainder));
  }

  /** `Metadata::dump` */
  method DumpMetadata(md: Metadata) returns (result: seq<byte>)
    requires |md.weights| >= 1
    ensures result == DumpHeader(md.remainder, md.weights)
  {
    result := DumpWeights(md.remainder, md.weights);
  }

  // ---------------------------------------------------------------------
  // compress / decompress
  // ---------------------------------------------------------------------

  /** `compress`: `None` where building the tree panics. */
  function CompressSpec(data: seq<byte>): Option<seq<byte>>
  {
    var md := ComputeSpec(data);
    if md.None? then None
    else
      ComputeSpecCovers(data);
      var bits := Encode(md.value.code, data);
      Some(DumpHeader(PaddingOf(|bits|) as byte, md.value.weights) + Pack(bits))
  }

  /** `compress` has a result exactly for inputs with two or more distinct bytes. */
  lemma CompressDefined(data: seq<byte>)
    ensures CompressSpec(data).Some? <==> |Elems(data)| >= 2
    ensures |Elems(data)| == 1 ==> CompressSpec(data) == None
  {
    ComputeSpecCovers(data);
  }

  /** `decompress`: `None` where loading the header panics. */
  function DecompressSpec(archive: seq<byte>): Option<seq<byte>>
  {
    var loaded := LoadSpec(archive);
    if loaded.None? then None
    else
      LoadSpecBound(archive);
      var md := loaded.value;
      Some(Walk(md.tree, md.tree, Kept(archive[2 + 2 * |md.weights|..], md.remainder)))
  }

  lemma DecompressLoaded(archive: seq<byte>)
    requires LoadSpec(archive).Some?
    ensures 2 + 2 * |LoadSpec(archive).value.weights| <= |archive|
    ensures var md := LoadSpec(archive).value;
            DecompressSpec(archive) == Some(Walk(md.tree, md.tree, Kept(archive[2 + 2 * |md.weights|..], md.remainder)))
  {
    LoadSpecBound(archive);
  }

  method Compress(data: seq<byte>) returns (r: Option<seq<byte>>)
    ensures r == CompressSpec(data)
  {
    var md := ComputeMetadata(data);
    ComputeSpecCovers(data);
    if md.None? {
      return None;
    }
    var metadata := md.value;
    var payload, remainder := WriteCodes(metadata.code, data);
    metadata := metadata.(remainder := remainder);
    var dump := DumpMetadata(metadata);
    r := Some(dump + payload);
  }

  method Decompress(archive: seq<byte>) returns (r: Option<seq<byte>>)
    ensures r == DecompressSpec(archive)
  {
    var md := LoadMetadata(archive);
    if md.None? {
      return None;
    }
    var metadata := md.value;
    DecompressLoaded(archive);
    var start := 2 + |metadata.weights| * 2;
    assert start == 2 + 2 * |LoadSpec(archive).value.weights|;
    var result := ReadCodes(metadata.tree, archive[start..], metadata.remainder);
    r := Some(result);
  }

  /** Decompressing what `compress` produced gives back the input, for every input with two distinct bytes. */
  lemma RoundTrip(data: seq<byte>)
    requires |Elems(data)| >= 2
    ensures CompressSpec(data).Some?
    ensures DecompressSpec(CompressSpec(data).value) == Some(data)
  {
    ComputeSpecCovers(data);
    var md := ComputeSpec(data).value;
    var bits := Encode(md.code, data);
    var rem := PaddingOf(|bits|) as byte;
    var header := DumpHeader(rem, md.weights);
    var archive := header + Pack(bits);
    HeaderRoundTrip(rem, md.weights, Pack(bits));
    assert LoadHeader(archive) == Some((rem, md.weights));
    BuildMetadataSpec(md.weights, rem);
    BuildMetadataSpec(md.weights, 0);
    var loaded := LoadSpec(archive).value;
    assert loaded.tree == md.tree;
    assert archive[2 + 2 * |loaded.weights|..] == Pack(bits);
    PackRoundTrip(bits);
    BuildMetadataSpec(Ranks(data), 0);
    WalkEncode(md.tree, data);
  }
}
