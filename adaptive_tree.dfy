/**
 * The adaptive Huffman tree of lab4-py; research/adap_huf.py carries the
 * same tree code line for line.
 *
 * The source links `Leaf` and `Node` objects through `left`, `right` and
 * `parent` and rewrites those links in place. This model holds the tree as
 * a value and names each node by its path from the root (`Zero` for left,
 * `One` for right): in a tree, the chain of `parent` links of a node is
 * exactly that path read backwards.
 */
module AdaptiveTree {
  import opened Common

  /**
   * `Leaf(value, weight)` and `Node(left, right, weight)`. A leaf value is
   * `None` only for the not-yet-transmitted (NYT) leaf of the corrected
   * coder, which marks it with a value no byte can equal.
   */
  datatype ATree = Leaf(value: Option<byte>, weight: nat) | Node(left: ATree, right: ATree, weight: nat)

  /** The child a bit names. */
  function Child(t: ATree, b: Bit): ATree
    requires t.Node?
  {
    if b == Zero then t.left else t.right
  }

  /** `p` leads from the root through nodes to some node of `t`. */
  predicate IsPath(t: ATree, p: seq<Bit>)
    decreases |p|
  {
    p == [] || (t.Node? && IsPath(Child(t, p[0]), p[1..]))
  }

  /** The node at the end of `p`. */
  function At(t: ATree, p: seq<Bit>): ATree
    requires IsPath(t, p)
    decreases |p|
  {
    if p == [] then t else At(Child(t, p[0]), p[1..])
  }

  /** The path of the parent of a non-root node. */
  function Parent(p: seq<Bit>): seq<Bit>
    requires p != []
  {
    p[..|p| - 1]
  }

  /** `t` with the node at `p` replaced by `s`: the child-slot rewrite of `Node.replace`. */
  function Update(t: ATree, p: seq<Bit>, s: ATree): ATree
    requires IsPath(t, p)
    decreases |p|
  {
    if p == [] then s
    else if p[0] == Zero then Node(Update(t.left, p[1..], s), t.right, t.weight)
    else Node(t.left, Update(t.right, p[1..], s), t.weight)
  }

  /** The (value, weight) pairs of the leaves. */
  function LeafBag(t: ATree): multiset<(Option<byte>, nat)>
  {
    match t
    case Leaf(v, w) => multiset{(v, w)}
    case Node(l, r, _) => LeafBag(l) + LeafBag(r)
  }

  // ---------------------------------------------------------------------
  // Paths and updates
  // ---------------------------------------------------------------------

  /** A path that stops before a leaf's end continues through nodes. */
  lemma {:induction false} PathPrefix(t: ATree, p: seq<Bit>, q: seq<Bit>)
    requires IsPath(t, p) && q <= p
    ensures IsPath(t, q)
    ensures q < p ==> At(t, q).Node?
    ensures IsPath(At(t, q), p[|q|..]) && At(At(t, q), p[|q|..]) == At(t, p)
    decreases |q|
  {
    if q != [] {
      assert p[0] == q[0] && q[1..] <= p[1..];
      PathPrefix(Child(t, p[0]), p[1..], q[1..]);
      assert p[1..][|q| - 1..] == p[|q|..];
    } else {
      assert p[0..] == p;
    }
  }

  /** The parent of a node is a node. */
  lemma ParentNode(t: ATree, p: seq<Bit>)
    requires IsPath(t, p) && p != []
    ensures IsPath(t, Parent(p)) && At(t, Parent(p)).Node?
    ensures p == Parent(p) + [p[|p| - 1]]
    ensures At(t, p) == Child(At(t, Parent(p)), p[|p| - 1])
  {
    PathPrefix(t, p, Parent(p));
    var rest := p[|Parent(p)|..];
    assert rest == [p[|p| - 1]] && rest[1..] == [];
  }

  /** A path one step longer than a path to a node. */
  lemma {:induction false} PathSnoc(t: ATree, p: seq<Bit>, b: Bit)
    requires IsPath(t, p) && At(t, p).Node?
    ensures IsPath(t, p + [b]) && At(t, p + [b]) == Child(At(t, p), b)
    decreases |p|
  {
    if p == [] {
      assert ([] + [b])[1..] == [];
      assert [] + [b] == [b];
    } else {
      assert (p + [b])[0] == p[0] && (p + [b])[1..] == p[1..] + [b];
      PathSnoc(Child(t, p[0]), p[1..], b);
    }
  }

  /** After an update the new node sits at the path. */
  lemma {:induction false} UpdateAt(t: ATree, p: seq<Bit>, s: ATree)
    requires IsPath(t, p)
    ensures IsPath(Update(t, p, s), p) && At(Update(t, p, s), p) == s
    decreases |p|
  {
    if p != [] {
      UpdateAt(Child(t, p[0]), p[1..], s);
    }
  }

  /** An update leaves every node off its path alone. */
  lemma {:induction false} UpdateOther(t: ATree, p: seq<Bit>, s: ATree, q: seq<Bit>)
    requires IsPath(t, p) && IsPath(t, q) && !(p <= q) && !(q <= p)
    ensures IsPath(Update(t, p, s), q) && At(Update(t, p, s), q) == At(t, q)
    decreases |p|
  {
    assert p != [] && q != [];
    if p[0] == q[0] {
      UpdateOther(Child(t, p[0]), p[1..], s, q[1..]);
    }
  }

  /** Above the updated node, the nodes are those of the updated subtrees. */
  lemma {:induction false} UpdateAbove(t: ATree, p: seq<Bit>, s: ATree, q: seq<Bit>)
    requires IsPath(t, p) && q <= p
    ensures IsPath(t, q) && IsPath(At(t, q), p[|q|..])
    ensures IsPath(Update(t, p, s), q) && At(Update(t, p, s), q) == Update(At(t, q), p[|q|..], s)
    decreases |q|
  {
    PathPrefix(t, p, q);
    if q == [] {
      assert p[0..] == p;
    } else {
      assert p[0] == q[0] && q[1..] <= p[1..];
      UpdateAbove(Child(t, p[0]), p[1..], s, q[1..]);
      assert p[1..][|q| - 1..] == p[|q|..];
    }
  }

  /** Replacing a node trades its leaves for those of the new node. */
  lemma {:induction false} UpdateBag(t: ATree, p: seq<Bit>, s: ATree)
    requires IsPath(t, p)
    ensures LeafBag(Update(t, p, s)) + LeafBag(At(t, p)) == LeafBag(t) + LeafBag(s)
    decreases |p|
  {
    if p != [] {
      var c := Child(t, p[0]);
      UpdateBag(c, p[1..], s);
      if p[0] == Zero {
        BagBeside(LeafBag(Update(c, p[1..], s)), LeafBag(t.right), LeafBag(At(t, p)), LeafBag(c), LeafBag(s));
      } else {
        BagBeside(LeafBag(Update(c, p[1..], s)), LeafBag(t.left), LeafBag(At(t, p)), LeafBag(c), LeafBag(s));
        assert LeafBag(Update(t, p, s)) == LeafBag(t.left) + LeafBag(Update(c, p[1..], s));
      }
    }
  }

  /** A trade inside one part of a bag is a trade of the whole. */
  lemma BagBeside<T>(u: multiset<T>, o: multiset<T>, x: multiset<T>, c: multiset<T>, s: multiset<T>)
    requires u + x == c + s
    ensures u + o + x == c + o + s && o + u + x == o + c + s
  {
    forall e
      ensures (u + o + x)[e] == (c + o + s)[e] && (o + u + x)[e] == (o + c + s)[e]
    {
      assert (u + x)[e] == (c + s)[e];
    }
  }

  /** Equal bags stay equal when the same bag is taken away. */
  lemma BagCancel<T>(a: multiset<T>, b: multiset<T>, x: multiset<T>)
    requires a + x == b + x
    ensures a == b
  {
    forall e
      ensures a[e] == b[e]
    {
      assert (a + x)[e] == (b + x)[e];
    }
  }

  /** Two trades that undo each other leave the bag as it was. */
  lemma BagTrade<T>(s: multiset<T>, u: multiset<T>, t: multiset<T>, a: multiset<T>, b: multiset<T>)
    requires s + b == u + a && u + a == t + b
    ensures s == t
  {
    forall e
      ensures s[e] == t[e]
    {
      assert (s + b)[e] == (u + a)[e] && (u + a)[e] == (t + b)[e];
    }
  }

  /** Putting back the node that is there changes nothing. */
  lemma {:induction false} UpdateSelf(t: ATree, p: seq<Bit>)
    requires IsPath(t, p)
    ensures Update(t, p, At(t, p)) == t
    decreases |p|
  {
    if p != [] {
      UpdateSelf(Child(t, p[0]), p[1..]);
    }
  }

  /** A second update at the same path overrides the first. */
  lemma {:induction false} UpdateTwice(t: ATree, p: seq<Bit>, x: ATree, y: ATree)
    requires IsPath(t, p)
    ensures IsPath(Update(t, p, x), p) && Update(Update(t, p, x), p, y) == Update(t, p, y)
    decreases |p|
  {
    UpdateAt(t, p, x);
    if p != [] {
      UpdateTwice(Child(t, p[0]), p[1..], x, y);
    }
  }

  /** Updates at two paths neither of which extends the other commute. */
  lemma {:induction false} UpdateCommute(t: ATree, p: seq<Bit>, x: ATree, q: seq<Bit>, y: ATree)
    requires IsPath(t, p) && IsPath(t, q) && !(p <= q) && !(q <= p)
    ensures IsPath(Update(t, p, x), q) && IsPath(Update(t, q, y), p)
    ensures Update(Update(t, p, x), q, y) == Update(Update(t, q, y), p, x)
    decreases |p|
  {
    UpdateOther(t, p, x, q);
    UpdateOther(t, q, y, p);
    if p[0] == q[0] {
      UpdateCommute(Child(t, p[0]), p[1..], x, q[1..], y);
    }
  }

  /** The root keeps its weight when a node below it is replaced. */
  lemma UpdateRootWeight(t: ATree, p: seq<Bit>, s: ATree)
    requires IsPath(t, p) && p != []
    ensures Update(t, p, s).Node? && Update(t, p, s).weight == t.weight
  {
  }

  /** Every leaf of the tree is among its leaves. */
  lemma {:induction false} LeafInBag(t: ATree, p: seq<Bit>)
    requires IsPath(t, p) && At(t, p).Leaf?
    ensures (At(t, p).value, At(t, p).weight) in LeafBag(t)
    decreases |p|
  {
    if p != [] {
      LeafInBag(Child(t, p[0]), p[1..]);
    }
  }

  /** Every element of the bag is the leaf at some path. */
  lemma {:induction false} BagLeaf(t: ATree, x: (Option<byte>, nat)) returns (p: seq<Bit>)
    requires x in LeafBag(t)
    ensures IsPath(t, p) && At(t, p).Leaf? && (At(t, p).value, At(t, p).weight) == x
  {
    match t
    case Leaf(_, _) =>
      p := [];
    case Node(l, r, _) =>
      if x in LeafBag(l) {
        var q := BagLeaf(l, x);
        p := [Zero] + q;
        assert p[1..] == q;
      } else {
        var q := BagLeaf(r, x);
        p := [One] + q;
        assert p[1..] == q;
      }
  }

  // ---------------------------------------------------------------------
  // Node.make_swap, Node.replace, swap_nodes
  // ---------------------------------------------------------------------

  /** A node with its weight raised by one (`node.weight += 1`). */
  function Bumped(n: ATree): (r: ATree)
    ensures r.weight == n.weight + 1
    ensures r.Node? <==> n.Node?
    ensures n.Node? ==> r.left == n.left && r.right == n.right
    ensures n.Leaf? ==> r.value == n.value
  {
    match n
    case Leaf(v, w) => Leaf(v, w + 1)
    case Node(l, r, w) => Node(l, r, w + 1)
  }

  /** `node.weight += 1` on the node at `p`. */
  function Bump(t: ATree, p: seq<Bit>): ATree
    requires IsPath(t, p)
  {
    Update(t, p, Bumped(At(t, p)))
  }

  /** `Node.make_swap` on the node at `q`: its two children trade places. */
  function MakeSwap(t: ATree, q: seq<Bit>): ATree
    requires IsPath(t, q) && At(t, q).Node?
  {
    var n := At(t, q);
    Update(t, q, Node(n.right, n.left, n.weight))
  }

  /** A node's two children swapped twice are back in place. */
  lemma MakeSwapTwice(t: ATree, q: seq<Bit>)
    requires IsPath(t, q) && At(t, q).Node?
    ensures IsPath(MakeSwap(t, q), q) && At(MakeSwap(t, q), q).Node?
    ensures MakeSwap(MakeSwap(t, q), q) == t
  {
    var n := At(t, q);
    UpdateAt(t, q, Node(n.right, n.left, n.weight));
    UpdateTwice(t, q, Node(n.right, n.left, n.weight), n);
    UpdateSelf(t, q);
  }

  /**
   * `swap_nodes(node1, node2)`. Siblings (same parent) are swapped by
   * `make_swap` on the parent; otherwise each parent's child slot is
   * rewritten to the other node. `None` where the source fails: a node
   * without a parent (`None.make_swap` or `None.replace`), and a node and
   * one of its proper ancestors, which the source would link below itself.
   */
  function SwapNodes(t: ATree, p1: seq<Bit>, p2: seq<Bit>): (r: Option<ATree>)
    requires IsPath(t, p1) && IsPath(t, p2)
  {
    if p1 == [] || p2 == [] then None
    else if Parent(p1) == Parent(p2) then
      ParentNode(t, p1);
      Some(MakeSwap(t, Parent(p1)))
    else if p1 <= p2 || p2 <= p1 then None
    else
      UpdateOther(t, p1, At(t, p2), p2);
      Some(Update(Update(t, p1, At(t, p2)), p2, At(t, p1)))
  }

  /** `swap_nodes` fails exactly on a root or on a node and its proper ancestor. */
  lemma SwapNodesDefined(t: ATree, p1: seq<Bit>, p2: seq<Bit>)
    requires IsPath(t, p1) && IsPath(t, p2)
    ensures SwapNodes(t, p1, p2).None? <==>
              p1 == [] || p2 == [] || (Parent(p1) != Parent(p2) && (p1 < p2 || p2 < p1))
  {
  }

  /**
   * On two distinct nodes, a successful swap puts each where the other
   * was, keeps the leaves and keeps the weight of the root.
   */
  lemma SwapNodesSpec(t: ATree, p1: seq<Bit>, p2: seq<Bit>)
    requires IsPath(t, p1) && IsPath(t, p2) && p1 != p2 && SwapNodes(t, p1, p2).Some?
    ensures var s := SwapNodes(t, p1, p2).value;
            IsPath(s, p1) && IsPath(s, p2) && At(s, p1) == At(t, p2) && At(s, p2) == At(t, p1) &&
            LeafBag(s) == LeafBag(t) && s.Node? && s.weight == t.weight
  {
    var s := SwapNodes(t, p1, p2).value;
    if Parent(p1) == Parent(p2) {
      SwapSiblings(t, p1, p2);
    } else {
      SwapApart(t, p1, p2);
    }
  }

  lemma SwapSiblings(t: ATree, p1: seq<Bit>, p2: seq<Bit>)
    requires IsPath(t, p1) && IsPath(t, p2) && p1 != p2 && p1 != [] && p2 != [] && Parent(p1) == Parent(p2)
    ensures IsPath(t, Parent(p1)) && At(t, Parent(p1)).Node?
    ensures var s := MakeSwap(t, Parent(p1));
            IsPath(s, p1) && IsPath(s, p2) && At(s, p1) == At(t, p2) && At(s, p2) == At(t, p1) &&
            LeafBag(s) == LeafBag(t) && s.Node? && s.weight == t.weight
  {
    var q := Parent(p1);
    ParentNode(t, p1);
    ParentNode(t, p2);
    var n := At(t, q);
    var m := Node(n.right, n.left, n.weight);
    var s := MakeSwap(t, q);
    UpdateAt(t, q, m);
    assert p1[|p1| - 1] != p2[|p2| - 1] by {
      assert p1 == q + [p1[|p1| - 1]] && p2 == q + [p2[|p2| - 1]];
    }
    PathSnoc(s, q, p1[|p1| - 1]);
    PathSnoc(s, q, p2[|p2| - 1]);
    UpdateBag(t, q, m);
    assert LeafBag(m) == LeafBag(n);
    BagCancel(LeafBag(s), LeafBag(t), LeafBag(n));
    if q != [] {
      UpdateRootWeight(t, q, m);
    }
  }

  lemma SwapApart(t: ATree, p1: seq<Bit>, p2: seq<Bit>)
    requires IsPath(t, p1) && IsPath(t, p2) && !(p1 <= p2) && !(p2 <= p1)
    ensures IsPath(Update(t, p1, At(t, p2)), p2)
    ensures var s := Update(Update(t, p1, At(t, p2)), p2, At(t, p1));
            IsPath(s, p1) && IsPath(s, p2) && At(s, p1) == At(t, p2) && At(s, p2) == At(t, p1) &&
            LeafBag(s) == LeafBag(t) && s.Node? && s.weight == t.weight
  {
    var a, b := At(t, p1), At(t, p2);
    var u := Update(t, p1, b);
    UpdateOther(t, p1, b, p2);
    UpdateAt(t, p1, b);
    var s := Update(u, p2, a);
    UpdateAt(u, p2, a);
    UpdateOther(u, p2, a, p1);
    UpdateBag(t, p1, b);
    UpdateBag(u, p2, a);
    BagTrade(LeafBag(s), LeafBag(u), LeafBag(t), LeafBag(a), LeafBag(b));
    UpdateRootWeight(t, p1, b);
    UpdateRootWeight(u, p2, a);
  }

  /** Swapping the same two distinct nodes twice gives back the tree. */
  lemma SwapNodesTwice(t: ATree, p1: seq<Bit>, p2: seq<Bit>)
    requires IsPath(t, p1) && IsPath(t, p2) && p1 != p2 && SwapNodes(t, p1, p2).Some?
    ensures var s := SwapNodes(t, p1, p2).value;
            IsPath(s, p1) && IsPath(s, p2) && SwapNodes(s, p1, p2) == Some(t)
  {
    SwapNodesSpec(t, p1, p2);
    if Parent(p1) == Parent(p2) {
      ParentNode(t, p1);
      MakeSwapTwice(t, Parent(p1));
    } else {
      SwapApartTwice(t, p1, p2);
    }
  }

  lemma SwapApartTwice(t: ATree, p1: seq<Bit>, p2: seq<Bit>)
    requires IsPath(t, p1) && IsPath(t, p2) && !(p1 <= p2) && !(p2 <= p1)
    ensures IsPath(Update(t, p1, At(t, p2)), p2)
    ensures var s := Update(Update(t, p1, At(t, p2)), p2, At(t, p1));
            IsPath(s, p1) && IsPath(s, p2) && IsPath(Update(s, p1, At(s, p2)), p2) &&
            Update(Update(s, p1, At(s, p2)), p2, At(s, p1)) == t
  {
    var a, b := At(t, p1), At(t, p2);
    SwapApart(t, p1, p2);
    var s := Update(Update(t, p1, b), p2, a);
    var v := Update(t, p2, a);
    UpdateCommute(t, p1, b, p2, a);
    UpdateOther(t, p2, a, p1);
    UpdateAt(t, p2, a);
    UpdateTwice(v, p1, b, a);
    UpdateCommute(v, p1, a, p2, b);
    UpdateTwice(t, p2, a, b);
    UpdateSelf(t, p2);
    UpdateSelf(t, p1);
    UpdateOther(s, p1, a, p2);
  }

  // ---------------------------------------------------------------------
  // find_leader
  // ---------------------------------------------------------------------

  /**
   * `find_leader(tree, fweight)`: the tree itself, then its right child,
   * then its left child, then the search in the right subtree and last in
   * the left one; `None` when no node has the weight.
   */
  function FindLeader(t: ATree, w: nat): (r: Option<seq<Bit>>)
    ensures r.Some? ==> IsPath(t, r.value) && At(t, r.value).weight == w
  {
    if t.weight == w then Some([])
    else if t.Leaf? then None
    else if t.right.weight == w then Some([One])
    else if t.left.weight == w then Some([Zero])
    else
      match FindLeader(t.right, w)
      case Some(p) => assert ([One] + p)[1..] == p; Some([One] + p)
      case None =>
        match FindLeader(t.left, w)
        case Some(p) => assert ([Zero] + p)[1..] == p; Some([Zero] + p)
        case None => None
  }

  /** The search misses no node: it fails only when no node has the weight. */
  lemma {:induction false} FindLeaderComplete(t: ATree, w: nat, p: seq<Bit>)
    requires IsPath(t, p) && At(t, p).weight == w
    ensures FindLeader(t, w).Some?
    decreases |p|
  {
    if p != [] && t.weight != w {
      FindLeaderComplete(Child(t, p[0]), w, p[1..]);
    }
  }

  /**
   * Each node is looked at before every node below it, so no proper
   * ancestor of the leader has the weight; in particular the leader is
   * never below a node of that weight.
   */
  lemma {:induction false} FindLeaderHighest(t: ATree, w: nat, q: seq<Bit>)
    requires FindLeader(t, w).Some? && q < FindLeader(t, w).value
    ensures IsPath(t, q) && At(t, q).weight != w
    decreases |q|
  {
    var l := FindLeader(t, w).value;
    PathPrefix(t, l, q);
    if q != [] {
      var c := Child(t, l[0]);
      var sub := FindLeader(c, w);
      assert t.weight != w && t.Node? && t.right.weight != w && t.left.weight != w;
      assert sub.Some? && l == [l[0]] + sub.value;
      assert q[1..] < sub.value;
      FindLeaderHighest(c, w, q[1..]);
    }
  }

  // ---------------------------------------------------------------------
  // dfs / find_char
  // ---------------------------------------------------------------------

  /** The filter of a `dfs` call: `fvalue` or `fweight`. */
  datatype Query = ValueIs(v: byte) | WeightIs(w: nat)

  predicate Matches(leaf: ATree, q: Query)
    requires leaf.Leaf?
  {
    match q
    case ValueIs(v) => leaf.value == Some(v)
    case WeightIs(w) => leaf.weight == w
  }

  /**
   * `dfs(tree, fvalue=.., fweight=..)`: the code of the first leaf, left
   * subtree before right, that passes the filter, and whether one did;
   * when none does, the code is empty and the node returned is the root.
   */
  function Dfs(t: ATree, q: Query): (r: (seq<Bit>, bool))
    ensures r.1 ==> IsPath(t, r.0) && At(t, r.0).Leaf? && Matches(At(t, r.0), q)
    ensures !r.1 ==> r.0 == []
  {
    match t
    case Leaf(_, _) => ([], Matches(t, q))
    case Node(l, r, _) =>
      var (lp, lf) := Dfs(l, q);
      if lf then assert ([Zero] + lp)[1..] == lp; ([Zero] + lp, true)
      else
        var (rp, rf) := Dfs(r, q);
        if rf then assert ([One] + rp)[1..] == rp; ([One] + rp, true)
        else ([], false)
  }

  /** The search fails only when no leaf passes the filter. */
  lemma {:induction false} DfsComplete(t: ATree, q: Query, p: seq<Bit>)
    requires IsPath(t, p) && At(t, p).Leaf? && Matches(At(t, p), q)
    ensures Dfs(t, q).1
    decreases |p|
  {
    if p != [] {
      DfsComplete(Child(t, p[0]), q, p[1..]);
    }
  }

  /** `find_char(tree, char)`: whether a leaf holds the byte, and its code. */
  function FindChar(t: ATree, c: byte): (r: (bool, seq<Bit>))
    ensures r.0 ==> IsPath(t, r.1) && At(t, r.1).Leaf? && At(t, r.1).value == Some(c)
  {
    var (code, found) := Dfs(t, ValueIs(c));
    (found, code)
  }

  /** `find_char` finds the byte exactly when some leaf holds it. */
  lemma FindCharFound(t: ATree, c: byte)
    ensures FindChar(t, c).0 <==> exists p :: IsPath(t, p) && At(t, p).Leaf? && At(t, p).value == Some(c)
  {
    var r := FindChar(t, c);
    if r.0 {
      var q := r.1;
      assert IsPath(t, q) && At(t, q).Leaf? && At(t, q).value == Some(c);
      assert exists p :: IsPath(t, p) && At(t, p).Leaf? && At(t, p).value == Some(c);
    } else if p :| IsPath(t, p) && At(t, p).Leaf? && At(t, p).value == Some(c) {
      DfsComplete(t, ValueIs(c), p);
    }
  }

  // ---------------------------------------------------------------------
  // increase_weights / insert_char
  // ---------------------------------------------------------------------

  /**
   * The number of nested `increase_weights` calls the model follows,
   * Python's default recursion limit; a longer chain counts as a failure.
   */
  const RecursionLimit: nat := 1000

  /**
   * `increase_weights(node)` on the node at `p`: unless the node is the
   * root, the leader of its weight is found from the root and, when it is
   * neither the node nor its parent, swapped with it; the node's weight
   * goes up by one and the parent of its (new) position follows. At the
   * root only the weight goes up. `None` where the source fails: a failed
   * swap, and a chain longer than `fuel`.
   */
  function Climb(t: ATree, p: seq<Bit>, fuel: nat): Option<ATree>
    requires IsPath(t, p)
    decreases fuel
  {
    if fuel == 0 then None
    else if p == [] then Some(Bump(t, p))
    else
      match FindLeader(t, At(t, p).weight)
      case None => None
      case Some(l) =>
        if l != Parent(p) && l != p then
          match SwapNodes(t, l, p)
          case None => None
          case Some(s) =>
            SwapNodesSpec(t, l, p);
            ParentNode(s, l);
            UpdateAbove(s, l, Bumped(At(s, l)), Parent(l));
            Climb(Bump(s, l), Parent(l), fuel - 1)
        else
          ParentNode(t, p);
          UpdateAbove(t, p, Bumped(At(t, p)), Parent(p));
          Climb(Bump(t, p), Parent(p), fuel - 1)
  }

  /** `increase_weights`, within the recursion limit. */
  function IncreaseWeights(t: ATree, p: seq<Bit>): Option<ATree>
    requires IsPath(t, p)
  {
    Climb(t, p, RecursionLimit)
  }

  /** The code of the first weight-0 leaf, `dfs(root, fweight=0)`; the root when there is none. */
  function NytPath(t: ATree): (q: seq<Bit>)
    ensures IsPath(t, q)
  {
    Dfs(t, WeightIs(0)).0
  }

  /** The node at `q` replaced by a weight-0 node over it and a new weight-0 leaf for the byte. */
  function Split(t: ATree, q: seq<Bit>, c: byte): ATree
    requires IsPath(t, q)
  {
    Update(t, q, Node(At(t, q), Leaf(Some(c), 0), 0))
  }

  /**
   * `insert_char(tree, char)`: the first weight-0 leaf (or the root when
   * there is none) is replaced by a new weight-0 node whose left child is
   * that leaf and whose right child is a new weight-0 leaf for the byte;
   * then the weights are increased from the new leaf.
   */
  function InsertChar(t: ATree, c: byte): Option<ATree>
  {
    var q := NytPath(t);
    SplitSpec(t, q, c);
    IncreaseWeights(Split(t, q, c), q + [One])
  }

  /** After the split the new leaf sits right of the old node, and one weight-0 leaf is added. */
  lemma SplitSpec(t: ATree, q: seq<Bit>, c: byte)
    requires IsPath(t, q)
    ensures IsPath(Split(t, q, c), q + [One]) && At(Split(t, q, c), q + [One]) == Leaf(Some(c), 0)
    ensures Split(t, q, c).Node?
    ensures q != [] || At(t, q).weight == 0 ==> Split(t, q, c).weight == t.weight
    ensures LeafBag(Split(t, q, c)) == LeafBag(t) + multiset{(Some(c), 0)}
  {
    var split := Node(At(t, q), Leaf(Some(c), 0), 0);
    UpdateAt(t, q, split);
    PathSnoc(Split(t, q, c), q, One);
    UpdateBag(t, q, split);
    if q != [] {
      UpdateRootWeight(t, q, split);
    }
    var a := multiset{(Some(c), 0)};
    forall e
      ensures LeafBag(Split(t, q, c))[e] == (LeafBag(t) + a)[e]
    {
      assert (LeafBag(Split(t, q, c)) + LeafBag(At(t, q)))[e] == (LeafBag(t) + (LeafBag(At(t, q)) + a))[e];
    }
  }

  // ---------------------------------------------------------------------
  // What increase_weights and insert_char do to the leaves and the root
  // ---------------------------------------------------------------------

  /** Raising a node's weight changes its leaf if it is one, and nothing else among the leaves. */
  lemma BumpBag(t: ATree, p: seq<Bit>)
    requires IsPath(t, p)
    ensures At(t, p).Node? ==> LeafBag(Bump(t, p)) == LeafBag(t)
    ensures At(t, p).Leaf? ==>
              LeafBag(Bump(t, p)) + multiset{(At(t, p).value, At(t, p).weight)} ==
              LeafBag(t) + multiset{(At(t, p).value, At(t, p).weight + 1)}
  {
    UpdateBag(t, p, Bumped(At(t, p)));
  }

  /** Raising the weight of a node keeps the root a node. */
  lemma BumpRoot(t: ATree, p: seq<Bit>)
    requires IsPath(t, p)
    ensures Bump(t, p).Node? <==> t.Node?
    ensures Bump(t, p).weight == t.weight + (if p == [] then 1 else 0)
  {
    if p != [] {
      UpdateRootWeight(t, p, Bumped(At(t, p)));
    }
  }

  /**
   * A successful `increase_weights` raises the root's weight by exactly
   * one, keeps a node root a node, and among the leaves changes at most
   * the one it started from, whose weight goes up by one.
   */
  lemma {:induction false} ClimbSpec(t: ATree, p: seq<Bit>, fuel: nat)
    requires IsPath(t, p) && Climb(t, p, fuel).Some?
    ensures var r := Climb(t, p, fuel).value;
            r.weight == t.weight + 1 && (t.Node? ==> r.Node?) &&
            (At(t, p).Node? ==> LeafBag(r) == LeafBag(t)) &&
            (At(t, p).Leaf? ==>
               LeafBag(r) + multiset{(At(t, p).value, At(t, p).weight)} ==
               LeafBag(t) + multiset{(At(t, p).value, At(t, p).weight + 1)})
    decreases fuel
  {
    if p == [] {
      BumpBag(t, p);
      BumpRoot(t, p);
    } else {
      var l := FindLeader(t, At(t, p).weight).value;
      if l != Parent(p) && l != p {
        var s := SwapNodes(t, l, p).value;
        SwapNodesSpec(t, l, p);
        ClimbStep(s, l, fuel);
      } else {
        ClimbStep(t, p, fuel);
      }
    }
  }

  /** One level: bump the node at `l`, then climb from its parent. */
  lemma ClimbStep(s: ATree, l: seq<Bit>, fuel: nat)
    requires IsPath(s, l) && l != [] && fuel >= 1
    ensures IsPath(s, Parent(l)) && IsPath(Bump(s, l), Parent(l))
    ensures At(Bump(s, l), Parent(l)).Node?
    ensures Climb(Bump(s, l), Parent(l), fuel - 1).Some? ==>
              var r := Climb(Bump(s, l), Parent(l), fuel - 1).value;
              r.weight == s.weight + 1 && (s.Node? ==> r.Node?) &&
              (At(s, l).Node? ==> LeafBag(r) == LeafBag(s)) &&
              (At(s, l).Leaf? ==>
                 LeafBag(r) + multiset{(At(s, l).value, At(s, l).weight)} ==
                 LeafBag(s) + multiset{(At(s, l).value, At(s, l).weight + 1)})
    decreases fuel, 0
  {
    ParentNode(s, l);
    UpdateAbove(s, l, Bumped(At(s, l)), Parent(l));
    var b := Bump(s, l);
    assert At(b, Parent(l)).Node? by {
      assert At(s, Parent(l)).Node?;
      var rest := l[|Parent(l)|..];
      assert rest == [l[|l| - 1]];
    }
    BumpBag(s, l);
    BumpRoot(s, l);
    if Climb(b, Parent(l), fuel - 1).Some? {
      ClimbSpec(b, Parent(l), fuel - 1);
    }
  }

  /**
   * A successful `insert_char` into a tree that has a weight-0 leaf adds
   * one leaf for the byte, of weight one, and raises the root's weight by
   * one; the root is then a node.
   */
  lemma InsertCharSpec(t: ATree, c: byte)
    requires Dfs(t, WeightIs(0)).1 && InsertChar(t, c).Some?
    ensures var r := InsertChar(t, c).value;
            r.Node? && r.weight == t.weight + 1 && LeafBag(r) == LeafBag(t) + multiset{(Some(c), 1)}
  {
    var q := NytPath(t);
    var u := Split(t, q, c);
    SplitSpec(t, q, c);
    var r := InsertChar(t, c).value;
    ClimbSpec(u, q + [One], RecursionLimit);
    BagStep(LeafBag(r), LeafBag(u), LeafBag(t), multiset{(Some(c), 0)}, multiset{(Some(c), 1)});
  }

  /** Adding `a` and then trading it for `b` adds `b`. */
  lemma BagStep<T>(r: multiset<T>, u: multiset<T>, t: multiset<T>, a: multiset<T>, b: multiset<T>)
    requires r + a == u + b && u == t + a
    ensures r == t + b
  {
    forall e
      ensures r[e] == (t + b)[e]
    {
      assert (r + a)[e] == (u + b)[e];
    }
  }
}
