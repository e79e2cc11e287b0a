/** Types and small helpers shared by every codec of the model. */
module Common {

  /** A `u8` of the Rust labs, or a Python int known to be a byte. */
  type byte = x: int | 0 <= x < 256

  /** The `Bit` enum of the Rust labs; a 0/1 int in the Python labs. */
  datatype Bit = Zero | One

  datatype Option<T> = None | Some(value: T)

  /** `Bit::to_u8` */
  function BitValue(b: Bit): (r: int)
    ensures r == 0 || r == 1
    ensures r == 1 <==> b == One
  {
    match b
    case Zero => 0
    case One => 1
  }

  /** `Bit::from_u8`: every non-zero value is a one bit. */
  function BitOf(x: int): (b: Bit)
    ensures b == One <==> x != 0
  {
    if x == 0 then Zero else One
  }

  function Pow2(n: nat): (r: nat)
    ensures r >= 1
  {
    if n == 0 then 1 else 2 * Pow2(n - 1)
  }

  /** All elements of a sequence, as a set. */
  function Elems<T>(s: seq<T>): set<T>
  {
    set x | x in s
  }

  lemma ElemsAppend<T>(a: seq<T>, b: seq<T>)
    ensures Elems(a + b) == Elems(a) + Elems(b)
  {
  }

  /** `n` zero bits. */
  function Zeros(n: nat): (r: seq<Bit>)
    ensures |r| == n && forall i :: 0 <= i < n ==> r[i] == Zero
  {
    if n == 0 then [] else [Zero] + Zeros(n - 1)
  }

  /** `s` back to front (`Vec::reverse`, a Python `[::-1]`). */
  function Reverse<T>(s: seq<T>): (r: seq<T>)
    ensures |r| == |s|
  {
    if s == [] then [] else [s[|s| - 1]] + Reverse(s[..|s| - 1])
  }

  lemma {:induction false} ReverseCons<T>(x: T, s: seq<T>)
    ensures Reverse([x] + s) == Reverse(s) + [x]
  {
    if s != [] {
      var t := [x] + s;
      assert t[..|t| - 1] == [x] + s[..|s| - 1];
      ReverseCons(x, s[..|s| - 1]);
    } else {
      assert ([x] + s)[..0] == [];
    }
  }

  lemma {:induction false} ReverseReverse<T>(s: seq<T>)
    ensures Reverse(Reverse(s)) == s
  {
    if s != [] {
      ReverseCons(s[|s| - 1], Reverse(s[..|s| - 1]));
      ReverseReverse(s[..|s| - 1]);
      assert s == s[..|s| - 1] + [s[|s| - 1]];
    }
  }

  /** Regrouping a concatenation; called where a proof would otherwise re-derive it elementwise. */
  lemma Assoc<T>(a: seq<T>, b: seq<T>, c: seq<T>)
    ensures (a + b) + c == a + (b + c)
  {
  }

  /** Taking the last item of `buf` off takes the first item of `Reverse(buf) + rest`. */
  lemma PopLast<T>(buf: seq<T>, rest: seq<T>)
    requires |buf| > 0
    ensures Reverse(buf) + rest == [buf[|buf| - 1]] + (Reverse(buf[..|buf| - 1]) + rest)
  {
    assert Reverse(buf) == [buf[|buf| - 1]] + Reverse(buf[..|buf| - 1]);
    Assoc([buf[|buf| - 1]], Reverse(buf[..|buf| - 1]), rest);
  }

  /** A non-empty sequence is its head before its tail. */
  lemma HeadTail<T>(s: seq<T>)
    requires s != []
    ensures s == [s[0]] + s[1..]
  {
  }

  /** `s` cut around position `i`. */
  lemma SplitAt<T>(s: seq<T>, i: nat)
    requires i < |s|
    ensures s == s[..i] + ([s[i]] + s[i + 1..])
  {
  }

  function Min(a: int, b: int): int { if a <= b then a else b }
  function Max(a: int, b: int): int { if a >= b then a else b }

  /** Concatenation of a sequence of sequences. */
  function Flatten<T>(ss: seq<seq<T>>): seq<T>
  {
    if ss == [] then [] else ss[0] + Flatten(ss[1..])
  }

  lemma {:induction false} FlattenAppend<T>(a: seq<seq<T>>, b: seq<seq<T>>)
    ensures Flatten(a + b) == Flatten(a) + Flatten(b)
  {
    if a == [] {
      assert a + b == b;
    } else {
      assert (a + b)[1..] == a[1..] + b;
      FlattenAppend(a[1..], b);
    }
  }

  /** Strictly increasing: sorted and free of duplicates. */
  predicate StrictlySorted(s: seq<int>)
  {
    forall i, j :: 0 <= i < j < |s| ==> s[i] < s[j]
  }

  /** A payload with a `u32` weight: the `Weighted` struct of both priority queues. */
  datatype Weighted<T> = Weighted(weight: nat, value: T)

  /** The payloads of a sequence of weighted items, in order. */
  function Values<T>(s: seq<Weighted<T>>): (r: seq<T>)
    ensures |r| == |s| && forall i :: 0 <= i < |s| ==> r[i] == s[i].value
  {
    if s == [] then [] else [s[0].value] + Values(s[1..])
  }

  /** `Vec::remove(i)` on the value level. */
  function RemoveAt<T>(s: seq<T>, i: nat): (r: seq<T>)
    requires i < |s|
  {
    s[..i] + s[i + 1..]
  }

  /** Removing one item leaves every other item, in order, and nothing else. */
  lemma RemoveAtBag<T>(s: seq<T>, i: nat)
    requires i < |s|
    ensures |RemoveAt(s, i)| == |s| - 1
    ensures multiset(RemoveAt(s, i)) + multiset{s[i]} == multiset(s)
    ensures forall j :: 0 <= j < |s| - 1 ==> RemoveAt(s, i)[j] == s[if j < i then j else j + 1]
  {
    assert s == s[..i] + [s[i]] + s[i + 1..];
  }
}
