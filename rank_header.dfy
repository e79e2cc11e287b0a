/**
 * The rank weights and the archive header shared, character for character,
 * by lab1-rs/src/huffman.rs and lab2/src/fano.rs.
 *
 * `get_weights` counts the bytes of the input, sorts the `(byte, count)`
 * pairs, and gives every distinct byte its position in that order as its
 * weight. Since the bytes are distinct the counts never decide the order:
 * the weight of a byte is its rank among the distinct bytes, 0..k-1.
 *
 * The header is `[remainder, k - 1, (byte, weight as u8) x k]`, read back
 * by `Metadata::load` from offset 2 with stride 2.
 */
module RankHeader {
  import opened Common

  // ---------------------------------------------------------------------
  // Sorted distinct bytes
  // ---------------------------------------------------------------------

  /** Every byte value, 0..255 in order. */
  function AllBytes(): (r: seq<byte>)
    ensures |r| == 256 && forall i :: 0 <= i < 256 ==> r[i] == i
  {
    seq(256, (i: int) requires 0 <= i < 256 => i as byte)
  }

  /** The elements of `s` that lie in `keys`, in the order of `s`. */
  function Select(keys: set<byte>, s: seq<byte>): (r: seq<byte>)
    ensures |r| <= |s|
    ensures forall i :: 0 <= i < |r| ==> r[i] in keys
  {
    if s == [] then []
    else (if s[0] in keys then [s[0]] else []) + Select(keys, s[1..])
  }

  /** The elements of a set of bytes in ascending order (a sorted `Vec` of its elements). */
  function Ascending(keys: set<byte>): (r: seq<byte>)
    ensures |r| <= 256
    ensures forall i :: 0 <= i < |r| ==> r[i] in keys
  {
    Select(keys, AllBytes())
  }

  /** No element occurs twice. */
  predicate Distinct<T(==)>(s: seq<T>)
  {
    forall i, j :: 0 <= i < j < |s| ==> s[i] != s[j]
  }

  /** Selecting from an increasing sequence keeps exactly the members, increasing. */
  lemma {:induction false} SelectSpec(keys: set<byte>, s: seq<byte>)
    requires forall i, j :: 0 <= i < j < |s| ==> s[i] < s[j]
    ensures forall i, j :: 0 <= i < j < |Select(keys, s)| ==> Select(keys, s)[i] < Select(keys, s)[j]
    ensures forall x :: x in Select(keys, s) <==> x in keys && x in s
  {
    if s != [] {
      SelectSpec(keys, s[1..]);
      var r := Select(keys, s[1..]);
      assert forall x :: x in r ==> x in s[1..];
      assert forall x :: x in s[1..] ==> s[0] < x;
    }
  }

  /** Distinct elements: as many as the set they form. */
  lemma {:induction false} DistinctCard<T>(s: seq<T>)
    requires Distinct(s)
    ensures |Elems(s)| == |s|
  {
    if s != [] {
      var init := s[..|s| - 1];
      DistinctCard(init);
      assert s == init + [s[|s| - 1]];
      ElemsAppend(init, [s[|s| - 1]]);
      assert s[|s| - 1] !in Elems(init);
      assert Elems([s[|s| - 1]]) == {s[|s| - 1]};
    }
  }

  /** `Ascending` lists each element of the set exactly once, in increasing order. */
  lemma AscendingSpec(keys: set<byte>)
    ensures Elems(Ascending(keys)) == keys
    ensures forall i, j :: 0 <= i < j < |Ascending(keys)| ==> Ascending(keys)[i] < Ascending(keys)[j]
    ensures |Ascending(keys)| == |keys|
    ensures |keys| <= 256
  {
    SelectSpec(keys, AllBytes());
    assert forall x: byte :: x in AllBytes() by {
      forall x: byte ensures x in AllBytes() {
        assert AllBytes()[x] == x;
      }
    }
    DistinctCard(Ascending(keys));
  }

  // ---------------------------------------------------------------------
  // get_weights
  // ---------------------------------------------------------------------

  /** `enumerate` followed by `insert(byte, i)`: every element mapped to its index, the last index winning. */
  function IndexMap(s: seq<byte>): (m: map<byte, nat>)
    ensures m.Keys == Elems(s)
  {
    if s == [] then map[]
    else
      ElemsAppend(s[..|s| - 1], [s[|s| - 1]]);
      assert s == s[..|s| - 1] + [s[|s| - 1]];
      IndexMap(s[..|s| - 1])[s[|s| - 1] := |s| - 1]
  }

  lemma {:induction false} IndexMapSorted(s: seq<byte>)
    requires Distinct(s)
    ensures forall i :: 0 <= i < |s| ==> IndexMap(s)[s[i]] == i
  {
    if s != [] {
      var init := s[..|s| - 1];
      IndexMapSorted(init);
      forall i | 0 <= i < |s|
        ensures IndexMap(s)[s[i]] == i
      {
        if i < |s| - 1 {
          assert s[i] == init[i];
        }
      }
    }
  }

  /** What `get_weights` computes: each distinct byte of the input mapped to its rank. */
  function Ranks(data: seq<byte>): map<byte, nat>
  {
    IndexMap(Ascending(Elems(data)))
  }

  /**
   * The ranks are exactly 0..k-1: the i-th smallest distinct byte gets
   * weight i.
   */
  lemma RanksSpec(data: seq<byte>)
    ensures Ranks(data).Keys == Elems(data)
    ensures |Ranks(data)| == |Elems(data)| <= 256
    ensures |Ascending(Elems(data))| == |Elems(data)|
    ensures forall i :: 0 <= i < |Ascending(Elems(data))| ==> Ranks(data)[Ascending(Elems(data))[i]] == i
    ensures forall b :: b in Ranks(data) ==> Ranks(data)[b] < |Elems(data)|
  {
    var keys := Elems(data);
    var asc := Ascending(keys);
    AscendingSpec(keys);
    IndexMapSorted(asc);
    forall b | b in Ranks(data)
      ensures Ranks(data)[b] < |keys|
    {
      assert b in Elems(asc);
      var i :| 0 <= i < |asc| && asc[i] == b;
    }
  }

  /** The order of the weights is the order of the bytes. */
  lemma RanksOrder(data: seq<byte>, a: byte, b: byte)
    requires a in Ranks(data) && b in Ranks(data)
    ensures a < b <==> Ranks(data)[a] < Ranks(data)[b]
  {
    var asc := Ascending(Elems(data));
    RanksSpec(data);
    assert a in Elems(asc) && b in Elems(asc);
    var i :| 0 <= i < |asc| && asc[i] == a;
    var j :| 0 <= j < |asc| && asc[j] == b;
    assert Ranks(data)[a] == i && Ranks(data)[b] == j;
    AscendingSpec(Elems(data));
    if i < j {
      assert a < b;
    } else if j < i {
      assert b < a;
    }
  }

  /** `get_weights`: counts the bytes, sorts the `(byte, count)` pairs, numbers them. */
  method GetWeights(data: seq<byte>) returns (weights: map<byte, nat>)
    ensures weights == Ranks(data)
  {
    var freq: map<byte, nat> := map[];
    for i := 0 to |data|
      invariant freq.Keys == Elems(data[..i])
      invariant forall b :: b in freq ==> freq[b] == multiset(data[..i])[b] + 1
    {
      // `*freq.entry(byte).or_insert(1) += 1`
      var b := data[i];
      freq := freq[b := (if b in freq then freq[b] else 1) + 1];
      assert data[..i + 1] == data[..i] + [b];
      ElemsAppend(data[..i], [b]);
    }
    assert data[..|data|] == data;
    // the bytes are distinct, so sorting the pairs orders them by byte alone
    var sorted := Ascending(freq.Keys);
    weights := map[];
    for i := 0 to |sorted|
      invariant weights == IndexMap(sorted[..i])
    {
      assert sorted[..i + 1][..i] == sorted[..i];
      weights := weights[sorted[i] := i];
    }
    assert sorted[..|sorted|] == sorted;
  }

  // ---------------------------------------------------------------------
  // The header
  // ---------------------------------------------------------------------

  /** The `(byte, weight as u8)` pairs of `dump`, for the keys in the given order. */
  function PairBytes(w: map<byte, nat>, keys: seq<byte>): (r: seq<byte>)
    requires forall i :: 0 <= i < |keys| ==> keys[i] in w
    ensures |r| == 2 * |keys|
  {
    if keys == [] then [] else [keys[0], (w[keys[0]] % 256) as byte] + PairBytes(w, keys[1..])
  }

  /** `dump`: remainder, `(len - 1) as u8`, then the pairs (the map iterated in key order). */
  function DumpHeader(remainder: byte, w: map<byte, nat>): (r: seq<byte>)
    requires |w| >= 1
  {
    [remainder, ((|w| - 1) % 256) as byte] + PairBytes(w, Ascending(w.Keys))
  }

  /** The map filled by the first `n` pairs read from offset 2; a repeated byte keeps its last weight. */
  function PairsMap(data: seq<byte>, n: nat): map<byte, nat>
    requires 2 + 2 * n <= |data|
  {
    if n == 0 then map[] else PairsMap(data, n - 1)[data[2 * n] := data[2 * n + 1]]
  }

  /** `load`'s header part: `None` where reading past the end panics. */
  function LoadHeader(data: seq<byte>): (r: Option<(byte, map<byte, nat>)>)
  {
    if |data| < 2 || |data| < 2 + 2 * (data[1] as nat + 1) then None
    else Some((data[0], PairsMap(data, data[1] as nat + 1)))
  }

  /** A loaded header has at least one and at most `data[1] + 1` entries. */
  lemma {:induction false} PairsMapCard(data: seq<byte>, n: nat)
    requires 2 + 2 * n <= |data|
    ensures |PairsMap(data, n)| <= n
    ensures n >= 1 ==> |PairsMap(data, n)| >= 1
  {
    if n > 0 {
      PairsMapCard(data, n - 1);
    }
  }

  lemma {:induction false} PairBytesAt(w: map<byte, nat>, keys: seq<byte>, i: nat)
    requires forall j :: 0 <= j < |keys| ==> keys[j] in w
    requires i < |keys|
    ensures PairBytes(w, keys)[2 * i] == keys[i]
    ensures PairBytes(w, keys)[2 * i + 1] == w[keys[i]] % 256
  {
    if i > 0 {
      PairBytesAt(w, keys[1..], i - 1);
    }
  }

  /** The weights of the given keys, as a map. */
  function Restrict(w: map<byte, nat>, keys: seq<byte>): map<byte, nat>
    requires forall i :: 0 <= i < |keys| ==> keys[i] in w
  {
    if keys == [] then map[] else Restrict(w, keys[..|keys| - 1])[keys[|keys| - 1] := w[keys[|keys| - 1]]]
  }

  lemma {:induction false} RestrictAll(w: map<byte, nat>, keys: seq<byte>)
    requires forall i :: 0 <= i < |keys| ==> keys[i] in w
    ensures Restrict(w, keys).Keys == Elems(keys)
    ensures forall b :: b in Restrict(w, keys) ==> Restrict(w, keys)[b] == w[b]
  {
    if keys != [] {
      RestrictAll(w, keys[..|keys| - 1]);
      assert keys == keys[..|keys| - 1] + [keys[|keys| - 1]];
      ElemsAppend(keys[..|keys| - 1], [keys[|keys| - 1]]);
    }
  }

  /** Reading back the first `n` dumped pairs gives the weights of the first `n` keys. */
  lemma {:induction false} PairsMapDump(w: map<byte, nat>, keys: seq<byte>, d: seq<byte>, n: nat)
    requires forall i :: 0 <= i < |keys| ==> keys[i] in w
    requires forall b :: b in w ==> w[b] < 256
    requires n <= |keys|
    requires |d| >= 2 + 2 * |keys| && d[2..2 + 2 * |keys|] == PairBytes(w, keys)
    ensures PairsMap(d, n) == Restrict(w, keys[..n])
  {
    if n > 0 {
      PairsMapDump(w, keys, d, n - 1);
      PairBytesAt(w, keys, n - 1);
      assert d[2 * n] == d[2..2 + 2 * |keys|][2 * (n - 1)];
      assert d[2 * n + 1] == d[2..2 + 2 * |keys|][2 * (n - 1) + 1];
      assert keys[..n][..n - 1] == keys[..n - 1];
    }
  }

  /** `load` inverts `dump` for every non-empty table of weights that fit a byte. */
  lemma HeaderRoundTrip(remainder: byte, w: map<byte, nat>, rest: seq<byte>)
    requires |w| >= 1
    requires forall b :: b in w ==> w[b] < 256
    ensures LoadHeader(DumpHeader(remainder, w) + rest) == Some((remainder, w))
    ensures |DumpHeader(remainder, w)| == 2 + 2 * |w|
  {
    var asc := Ascending(w.Keys);
    var d := DumpHeader(remainder, w) + rest;
    DumpHeaderLayout(remainder, w, rest);
    PairsMapDump(w, asc, d, |asc|);
    assert asc[..|asc|] == asc;
    RestrictAscending(w);
    assert LoadHeader(d) == Some((remainder, PairsMap(d, |asc|)));
  }

  /** Where `dump` puts the remainder, the count and the pairs. */
  lemma DumpHeaderLayout(remainder: byte, w: map<byte, nat>, rest: seq<byte>)
    requires |w| >= 1
    ensures var asc := Ascending(w.Keys);
            var d := DumpHeader(remainder, w) + rest;
            |asc| == |w| && |DumpHeader(remainder, w)| == 2 + 2 * |w| &&
            d[0] == remainder && d[1] as nat + 1 == |w| && d[2..2 + 2 * |w|] == PairBytes(w, asc)
  {
    AscendingSpec(w.Keys);
  }

  lemma RestrictAscending(w: map<byte, nat>)
    ensures Restrict(w, Ascending(w.Keys)) == w
  {
    AscendingSpec(w.Keys);
    RestrictAll(w, Ascending(w.Keys));
  }

  /** `dump` as the source runs it: push the remainder and the count, then each pair. */
  method DumpWeights(remainder: byte, weights: map<byte, nat>) returns (result: seq<byte>)
    requires |weights| >= 1
    ensures result == DumpHeader(remainder, weights)
  {
    result := [remainder, ((|weights| - 1) % 256) as byte];
    var keys := Ascending(weights.Keys);
    ghost var pairs := PairBytes(weights, keys);
    for i := 0 to |keys|
      invariant result == [remainder, ((|weights| - 1) % 256) as byte] + pairs[..2 * i]
    {
      PairBytesAt(weights, keys, i);
      assert pairs[..2 * i + 2] == pairs[..2 * i] + [pairs[2 * i], pairs[2 * i + 1]];
      result := result + [keys[i], (weights[keys[i]] % 256) as byte];
    }
    assert pairs[..2 * |keys|] == pairs;
  }

  /** `load`'s header loop: `None` where an index would run past the end. */
  method LoadWeights(data: seq<byte>) returns (r: Option<(byte, map<byte, nat>)>)
    ensures r == LoadHeader(data)
  {
    if |data| < 2 {
      return None;
    }
    var remainder := data[0];
    var dictLen := data[1] as nat + 1;
    var weights: map<byte, nat> := map[];
    for i := 0 to dictLen
      invariant 2 + 2 * i <= |data| ==> weights == PairsMap(data, i)
      invariant 2 + 2 * i <= |data|
    {
      if 2 + 2 * i + 1 >= |data| {
        return None;
      }
      weights := weights[data[2 + 2 * i] := data[2 + 2 * i + 1]];
    }
    r := Some((remainder, weights));
  }

  // ---------------------------------------------------------------------
  // Walking the weight map
  // ---------------------------------------------------------------------

  /** One item per entry of the weight map, the map walked in key order (the `HashMap` iteration stand-in). */
  function WeightItems(w: map<byte, nat>, keys: seq<byte>): (r: seq<Weighted<byte>>)
    requires forall i :: 0 <= i < |keys| ==> keys[i] in w
    ensures |r| == |keys|
    ensures forall i :: 0 <= i < |keys| ==> r[i] == Weighted(w[keys[i]], keys[i])
  {
    if keys == [] then [] else WeightItems(w, keys[..|keys| - 1]) + [Weighted(w[keys[|keys| - 1]], keys[|keys| - 1])]
  }

  function ItemsOf(w: map<byte, nat>): seq<Weighted<byte>>
  {
    WeightItems(w, Ascending(w.Keys))
  }

  /** The queue holds one item per entry of the weight map, with its weight. */
  lemma ItemsOfSpec(w: map<byte, nat>)
    ensures |ItemsOf(w)| == |w|
    ensures Values(ItemsOf(w)) == Ascending(w.Keys)
    ensures Elems(Values(ItemsOf(w))) == w.Keys
    ensures forall i :: 0 <= i < |ItemsOf(w)| ==> ItemsOf(w)[i].weight == w[ItemsOf(w)[i].value]
  {
    AscendingSpec(w.Keys);
  }
}
