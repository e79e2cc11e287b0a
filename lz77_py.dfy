/**
 * The LZ77 coder of research/lz77.py.
 *
 * `lz77_encode` is the search of lab7 without the 256 cap on the match
 * length, so it shares the specification and the loops of module Lz77 with
 * the cap set to `len(msg)`, which `ptr + l < len(msg)` already implies.
 * `lz77_decode` differs from the Rust decoder on malformed triples: it
 * indexes with Python semantics, so a copy reaching before the start reads
 * from the end of the list instead of failing.
 */
module Lz77Py {
  import opened Common
  import opened Lz77

  /** `buf[k]` in Python: negative indices count from the end; anything else raises `IndexError`. */
  function PyIndex<T>(buf: seq<T>, k: int): (r: Option<T>)
    ensures r.Some? <==> -|buf| <= k < |buf|
    ensures 0 <= k < |buf| ==> r == Some(buf[k])
  {
    if 0 <= k < |buf| then Some(buf[k])
    else if -|buf| <= k < 0 then Some(buf[|buf| + k])
    else None
  }

  /** The inner `for i in range(length)` loop: each step appends `buf[ptr - offset + i]`, with `ptr + i == len(buf)`. */
  function PyCopyBack<T>(buf: seq<T>, offset: nat, n: nat): (r: Option<seq<T>>)
    ensures r.Some? ==> |r.value| == |buf| + n
    decreases n
  {
    if n == 0 then Some(buf)
    else match PyIndex(buf, |buf| - offset)
      case None => None
      case Some(x) => PyCopyBack(buf + [x], offset, n - 1)
  }

  /** One triple of `lz77_decode`. */
  function PyStep<T>(buf: seq<T>, t: Triple<T>): Option<seq<T>>
  {
    if t.length == 0 then Some(buf + [t.literal])
    else match PyCopyBack(buf, t.offset, t.length)
      case None => None
      case Some(b) => Some(b + [t.literal])
  }

  /** `lz77_decode` continuing after the output `buf`; `None` stands for an `IndexError`. */
  function PyDecode<T>(buf: seq<T>, ts: seq<Triple<T>>): Option<seq<T>>
    decreases |ts|
  {
    if ts == [] then Some(buf)
    else match PyStep(buf, ts[0])
      case None => None
      case Some(next) => PyDecode(next, ts[1..])
  }

  /** Where the copy stays inside the output, Python indexing is plain indexing. */
  lemma {:induction false} PyCopyBackAgrees<T>(buf: seq<T>, offset: nat, n: nat)
    requires 1 <= offset <= |buf|
    ensures PyCopyBack(buf, offset, n) == Some(CopyBack(buf, offset, n))
    decreases n
  {
    if n > 0 {
      PyCopyBackAgrees(buf + [buf[|buf| - offset]], offset, n - 1);
    }
  }

  /** On every triple sequence the Rust decoder accepts, the Python decoder gives the same output. */
  lemma {:induction false} PyDecodeAgrees<T>(buf: seq<T>, ts: seq<Triple<T>>)
    requires Decode(buf, ts).Some?
    ensures PyDecode(buf, ts) == Decode(buf, ts)
    decreases |ts|
  {
    if ts != [] {
      var t := ts[0];
      if t.length > 0 {
        PyCopyBackAgrees(buf, t.offset, t.length);
      }
      PyDecodeAgrees(Step(buf, t).value, ts[1..]);
    }
  }

  /** Decode inverts encode, for every window size. */
  lemma DecodeInvertsEncode<T>(msg: seq<T>, window: nat)
    ensures PyDecode([], EncodeFrom(msg, window, |msg|, 0)) == Some(msg)
  {
    DecodeEncode(msg, window, |msg|, 0);
    assert msg[..0] == [];
    PyDecodeAgrees([], EncodeFrom(msg, window, |msg|, 0));
  }

  /** A copy reaching one place before the start wraps to the end of the list, where lab7 fails. */
  lemma NegativeIndexWraps(a: char, b: char)
    ensures PyDecode([], [Triple(0, 0, a), Triple(2, 1, b)]) == Some([a, a, b])
    ensures Decode([], [Triple(0, 0, a), Triple(2, 1, b)]) == None
  {
    var ts := [Triple(0, 0, a), Triple(2, 1, b)];
    assert ts[1..] == [Triple(2, 1, b)] && ts[1..][1..] == [];
    assert [] + [a] == [a];
    assert PyIndex([a], |[a]| - 2) == Some(a);
    assert PyCopyBack([a, a], 2, 0) == Some([a, a]);
    assert [a] + [a] == [a, a];
    assert PyCopyBack([a], 2, 1) == Some([a, a]);
    assert ts[1].length == 1 && ts[1].offset == 2 && ts[1].literal == b;
    assert [a, a] + [b] == [a, a, b];
    assert PyStep([a], ts[1]) == Some([a, a, b]);
    assert PyDecode([a, a, b], []) == Some([a, a, b]);
  }

  /** `lz77_encode`: the triples of module Lz77 with no cap on the match length. */
  method Lz77Encode<T(==)>(msg: seq<T>, window: nat) returns (encoded: seq<Triple<T>>)
    ensures encoded == EncodeFrom(msg, window, |msg|, 0)
    ensures PyDecode([], encoded) == Some(msg)
    ensures forall t :: t in encoded ==>
              if t.length == 0 then t.offset == 0 else t.length < |msg| && 1 <= t.offset < window
  {
    encoded := EncodeTriples(msg, window, |msg|);
    EncodeBounds(msg, window, |msg|, 0);
    DecodeInvertsEncode(msg, window);
  }

  /** `lz77_decode`: keeps `ptr == len(buf)` and appends while indexing. */
  method Lz77Decode<T>(encoded: seq<Triple<T>>) returns (result: Option<seq<T>>)
    ensures result == PyDecode([], encoded)
  {
    var buf: seq<T> := [];
    var ptr: nat := 0;
    for n := 0 to |encoded|
      invariant ptr == |buf|
      invariant PyDecode(buf, encoded[n..]) == PyDecode([], encoded)
    {
      var t := encoded[n];
      assert encoded[n..][1..] == encoded[n + 1..];
      if t.length == 0 {
        buf := buf + [t.literal];
        ptr := ptr + 1;
      } else {
        ghost var start := buf;
        for i := 0 to t.length
          invariant |buf| == ptr + i
          invariant PyCopyBack(buf, t.offset, t.length - i) == PyCopyBack(start, t.offset, t.length)
        {
          var k := ptr - t.offset + i;
          if 0 <= k < |buf| {
            buf := buf + [buf[k]];
          } else if -|buf| <= k < 0 {
            buf := buf + [buf[|buf| + k]];
          } else {
            return None;
          }
        }
        buf := buf + [t.literal];
        ptr := ptr + t.length + 1;
      }
    }
    assert encoded[|encoded|..] == [];
    result := Some(buf);
  }
}
