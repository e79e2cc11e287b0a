/**
 * The LZ77 coder of lab7/src/lz77.rs.
 *
 * The encoder walks the input with an index `ptr`. At each position it grows a
 * match length `l` from 1 for as long as some offset in `1..window` (not
 * reaching before the start) gives a back run of `l` items equal to the run
 * at `ptr`, taking the smallest such offset each time. It then emits
 * `(offset, l, literal)` for the last length that matched, or
 * `(0, 0, literal)` when none did, and moves past the run and the literal.
 *
 * The specification functions are generic over the item type because
 * research/lz77.py runs the same search over a Python list and differs only
 * in having no cap on the match length (see module Lz77Py).
 */
module Lz77 {
  import opened Common
  import opened Matching

  /** An LZ77 triple: copy `length` items from `offset` back, then append `literal`. */
  datatype Triple<T> = Triple(offset: nat, length: nat, literal: T)

  /** The window size `compress` passes to `lz77_encode`. */
  const Window: nat := 8192

  /** The Rust encoder stops growing a match once `l` reaches 256, so lengths fit a `u8`. */
  const RustCap: nat := 256

  // ---------------------------------------------------------------------
  // Specification of the encoder
  // ---------------------------------------------------------------------

  /**
   * The `for offset in 1..window_size` search for match length `l`, resumed at
   * `off`: the first offset not past the start whose back run matches.
   */
  function FirstOffset<T(==)>(s: seq<T>, ptr: nat, l: nat, window: nat, off: nat): (r: Option<nat>)
    decreases window - off
    ensures r.Some? ==> off <= r.value < window && r.value <= ptr && Matches(s, ptr - r.value, ptr, l)
  {
    if off >= window || off > ptr then None
    else if Matches(s, ptr - off, ptr, l) then Some(off)
    else FirstOffset(s, ptr, l, window, off + 1)
  }

  /** A remembered `(length, offset)` of the inner loop names a real match that leaves room for the literal. */
  predicate Saved<T(==)>(s: seq<T>, ptr: nat, window: nat, cap: nat, saved: Option<(nat, nat)>)
  {
    saved.Some? ==>
      1 <= saved.value.0 < cap && ptr + saved.value.0 < |s| &&
      1 <= saved.value.1 < window && saved.value.1 <= ptr &&
      Matches(s, ptr - saved.value.1, ptr, saved.value.0)
  }

  /**
   * The inner `while` loop from length `l` on: while the literal still fits
   * and `l` is under the cap, look for an offset; remember `(l, offset)` and
   * try `l + 1`, or stop at the first length that has none.
   */
  function Scan<T(==)>(s: seq<T>, ptr: nat, window: nat, cap: nat, l: nat, saved: Option<(nat, nat)>): (r: Option<(nat, nat)>)
    requires l >= 1 && Saved(s, ptr, window, cap, saved)
    ensures Saved(s, ptr, window, cap, r)
    decreases |s| - l
  {
    if ptr + l < |s| && l < cap then
      match FirstOffset(s, ptr, l, window, 1)
      case None => saved
      case Some(o) => Scan(s, ptr, window, cap, l + 1, Some((l, o)))
    else saved
  }

  /** The triple emitted at `ptr`, and the position after it. */
  function Emit<T(==)>(s: seq<T>, ptr: nat, window: nat, cap: nat): (r: (Triple<T>, nat))
    requires ptr < |s|
    ensures ptr < r.1 <= |s|
  {
    match Scan(s, ptr, window, cap, 1, None)
    case None => (Triple(0, 0, s[ptr]), ptr + 1)
    case Some(m) => (Triple(m.1, m.0, s[ptr + m.0]), ptr + m.0 + 1)
  }

  /** The triples the encoder emits from position `ptr` to the end. */
  function EncodeFrom<T(==)>(s: seq<T>, window: nat, cap: nat, ptr: nat): (r: seq<Triple<T>>)
    decreases |s| - ptr
  {
    if ptr >= |s| then []
    else [Emit(s, ptr, window, cap).0] + EncodeFrom(s, window, cap, Emit(s, ptr, window, cap).1)
  }

  // ---------------------------------------------------------------------
  // Specification of the decoder
  // ---------------------------------------------------------------------

  /**
   * `n` single-item copies: each appends the item `offset` places before the
   * current end, so a copy may overlap what it is producing.
   */
  function CopyBack<T>(buf: seq<T>, offset: nat, n: nat): (r: seq<T>)
    requires 1 <= offset <= |buf|
    ensures |r| == |buf| + n && r[..|buf|] == buf
    decreases n
  {
    if n == 0 then buf else CopyBack(buf + [buf[|buf| - offset]], offset, n - 1)
  }

  /**
   * One triple of `decompress`: a literal alone when the length is 0, else the
   * back copy and the literal; an offset of 0 or one reaching before the start
   * indexes out of bounds (a panic).
   */
  function Step<T>(buf: seq<T>, t: Triple<T>): (r: Option<seq<T>>)
  {
    if t.length == 0 then Some(buf + [t.literal])
    else if 1 <= t.offset <= |buf| then Some(CopyBack(buf, t.offset, t.length) + [t.literal])
    else None
  }

  /** The decoder applied to `ts`, continuing after the output `buf`. */
  function Decode<T>(buf: seq<T>, ts: seq<Triple<T>>): (r: Option<seq<T>>)
    decreases |ts|
  {
    if ts == [] then Some(buf)
    else match Step(buf, ts[0])
      case None => None
      case Some(next) => Decode(next, ts[1..])
  }

  // ---------------------------------------------------------------------
  // Archive layout
  // ---------------------------------------------------------------------

  /** The four bytes `compress` writes: the two low little-endian bytes of the offset, the length, the literal. */
  function TripleBytes(t: Triple<byte>): (r: seq<byte>)
    ensures |r| == 4
  {
    [t.offset % 256, (t.offset / 256) % 256, t.length % 256, t.literal]
  }

  function Serialize(ts: seq<Triple<byte>>): (r: seq<byte>)
    ensures |r| == 4 * |ts|
  {
    if ts == [] then [] else Serialize(ts[..|ts| - 1]) + TripleBytes(ts[|ts| - 1])
  }

  /** Block `i` of an archive as `decompress` reads it. */
  function Block(a: seq<byte>, i: nat): Triple<byte>
    requires 4 * i + 4 <= |a|
  {
    Triple(a[4 * i] as nat + 256 * a[4 * i + 1] as nat, a[4 * i + 2] as nat, a[4 * i + 3])
  }

  /** The whole four-byte blocks of an archive; trailing bytes are never read. */
  function Parse(a: seq<byte>): (r: seq<Triple<byte>>)
    ensures |r| == |a| / 4
  {
    seq(|a| / 4, i requires 0 <= i < |a| / 4 => Block(a, i))
  }

  function CompressSpec(data: seq<byte>): seq<byte>
  {
    Serialize(EncodeFrom(data, Window, RustCap, 0))
  }

  function DecompressSpec(archive: seq<byte>): Option<seq<byte>>
  {
    Decode([], Parse(archive))
  }

  /** A triple `compress` writes without losing information. */
  predicate Fits(t: Triple<byte>)
  {
    t.offset < 65536 && t.length < 256
  }

  // ---------------------------------------------------------------------
  // Lemmas
  // ---------------------------------------------------------------------

  /** The offset search takes the smallest matching offset: every earlier one failed. */
  lemma {:induction false} FirstOffsetLeast<T>(s: seq<T>, ptr: nat, l: nat, window: nat, off: nat, o: nat)
    requires off <= o < window && o <= ptr && Matches(s, ptr - o, ptr, l)
    ensures FirstOffset(s, ptr, l, window, off).Some?
    ensures FirstOffset(s, ptr, l, window, off).value <= o
    decreases o - off
  {
    if off < o && !Matches(s, ptr - off, ptr, l) {
      FirstOffsetLeast(s, ptr, l, window, off + 1, o);
    }
  }

  /** Every triple obeys the encoder's bounds: offsets inside the window, lengths under the cap, and bare literals carry offset 0. */
  lemma {:induction false} EncodeBounds<T>(s: seq<T>, window: nat, cap: nat, ptr: nat)
    ensures forall t :: t in EncodeFrom(s, window, cap, ptr) ==>
              if t.length == 0 then t.offset == 0 else t.length < cap && 1 <= t.offset < window
    decreases |s| - ptr
  {
    if ptr < |s| {
      var e := Emit(s, ptr, window, cap);
      EncodeBounds(s, window, cap, e.1);
      assert EncodeFrom(s, window, cap, ptr) == [e.0] + EncodeFrom(s, window, cap, e.1);
    }
  }

  lemma EncodeFromStep<T>(s: seq<T>, window: nat, cap: nat, ptr: nat)
    requires ptr < |s|
    ensures EncodeFrom(s, window, cap, ptr) ==
            [Emit(s, ptr, window, cap).0] + EncodeFrom(s, window, cap, Emit(s, ptr, window, cap).1)
  {
  }

  /** Copying a run that matches its source `o` places back extends the decoded prefix by that run. */
  lemma {:induction false} CopyBackMatch<T>(s: seq<T>, ptr: nat, o: nat, l: nat, j: nat)
    requires 1 <= o <= ptr && j <= l && ptr + l <= |s| && Matches(s, ptr - o, ptr, l)
    ensures CopyBack(s[..ptr + j], o, l - j) == s[..ptr + l]
    decreases l - j
  {
    if j < l {
      var buf := s[..ptr + j];
      MatchesAt(s, ptr - o, ptr, l, j);
      assert buf[|buf| - o] == s[ptr - o + j];
      assert buf + [buf[|buf| - o]] == s[..ptr + j + 1];
      CopyBackMatch(s, ptr, o, l, j + 1);
    }
  }

  /** The literal of one emitted triple lands at its position and decoding picks up right after it. */
  lemma StepEmit<T>(s: seq<T>, window: nat, cap: nat, ptr: nat)
    requires ptr < |s|
    ensures Step(s[..ptr], Emit(s, ptr, window, cap).0) == Some(s[..Emit(s, ptr, window, cap).1])
  {
    match Scan(s, ptr, window, cap, 1, None)
    case None =>
      assert s[..ptr] + [s[ptr]] == s[..ptr + 1];
    case Some(m) =>
      var l, o := m.0, m.1;
      CopyBackMatch(s, ptr, o, l, 0);
      assert s[..ptr + l] + [s[ptr + l]] == s[..ptr + l + 1];
  }

  /** Decoding what the encoder emits from `ptr`, after the first `ptr` items, gives back the whole input. */
  lemma {:induction false} DecodeEncode<T>(s: seq<T>, window: nat, cap: nat, ptr: nat)
    requires ptr <= |s|
    ensures Decode(s[..ptr], EncodeFrom(s, window, cap, ptr)) == Some(s)
    decreases |s| - ptr
  {
    if ptr == |s| {
      assert s[..ptr] == s;
    } else {
      var e := Emit(s, ptr, window, cap);
      StepEmit(s, window, cap, ptr);
      DecodeEncode(s, window, cap, e.1);
      var ts := EncodeFrom(s, window, cap, ptr);
      assert ts[0] == e.0 && ts[1..] == EncodeFrom(s, window, cap, e.1);
    }
  }

  lemma {:induction false} SerializeAt(ts: seq<Triple<byte>>, k: nat, j: nat)
    requires k < |ts| && j < 4
    ensures Serialize(ts)[4 * k + j] == TripleBytes(ts[k])[j]
    decreases |ts|
  {
    if k < |ts| - 1 {
      var init := ts[..|ts| - 1];
      SerializeAt(init, k, j);
      assert init[k] == ts[k];
    }
  }

  /** Reading back the archive of triples that fit gives the same triples. */
  lemma ParseSerialize(ts: seq<Triple<byte>>)
    requires forall t :: t in ts ==> Fits(t)
    ensures Parse(Serialize(ts)) == ts
  {
    var a := Serialize(ts);
    forall k | 0 <= k < |ts|
      ensures Parse(a)[k] == ts[k]
    {
      SerializeAt(ts, k, 0);
      SerializeAt(ts, k, 1);
      SerializeAt(ts, k, 2);
      SerializeAt(ts, k, 3);
      assert Fits(ts[k]);
      var o := ts[k].offset;
      assert o % 256 + 256 * ((o / 256) % 256) == o;
    }
  }

  /** Round trip of lab7: `decompress(compress(d)) == d` for every input, the empty one included. */
  lemma RoundTrip(data: seq<byte>)
    ensures DecompressSpec(CompressSpec(data)) == Some(data)
  {
    var ts := EncodeFrom(data, Window, RustCap, 0);
    EncodeBounds(data, Window, RustCap, 0);
    ParseSerialize(ts);
    DecodeEncode(data, Window, RustCap, 0);
    assert data[..0] == [];
  }

  /** Bytes after the last whole block are ignored. */
  lemma TrailingIgnored(archive: seq<byte>, extra: seq<byte>)
    requires |archive| % 4 == 0 && |extra| < 4
    ensures DecompressSpec(archive + extra) == DecompressSpec(archive)
  {
    var a := archive + extra;
    assert |a| / 4 == |archive| / 4;
    forall i | 0 <= i < |a| / 4
      ensures Block(a, i) == Block(archive, i)
    {
      assert a[4 * i..4 * i + 4] == archive[4 * i..4 * i + 4];
    }
    assert Parse(a) == Parse(archive);
  }

  // ---------------------------------------------------------------------
  // The loops of `lz77_encode`, `compress` and `decompress`
  // ---------------------------------------------------------------------

  /** The `for offset in 1..window_size` loop, with its `break` once the offset passes the start. */
  method FindOffset<T(==)>(s: seq<T>, ptr: nat, l: nat, window: nat) returns (r: Option<nat>)
    requires ptr + l <= |s|
    ensures r == FirstOffset(s, ptr, l, window, 1)
  {
    var offset := 1;
    while offset < window
      invariant 1 <= offset
      invariant FirstOffset(s, ptr, l, window, offset) == FirstOffset(s, ptr, l, window, 1)
      decreases window - offset
    {
      if ptr < offset {
        return None;
      }
      var m := LzMatch(s, ptr - offset, ptr, l);
      if m {
        return Some(offset);
      }
      offset := offset + 1;
    }
    return None;
  }

  /** The inner `while` loop at `ptr`: the last `(length, offset)` that matched, if any. */
  method LongestMatch<T(==)>(s: seq<T>, ptr: nat, window: nat, cap: nat) returns (saved: Option<(nat, nat)>)
    requires ptr < |s|
    ensures saved == Scan(s, ptr, window, cap, 1, None)
  {
    saved := None;
    var l := 1;
    while ptr + l < |s| && l < cap
      invariant l >= 1 && Saved(s, ptr, window, cap, saved)
      invariant Scan(s, ptr, window, cap, l, saved) == Scan(s, ptr, window, cap, 1, None)
      decreases |s| - l
    {
      var found := FindOffset(s, ptr, l, window);
      if found.None? {
        break;
      }
      saved := Some((l, found.value));
      l := l + 1;
    }
  }

  /** `lz77_encode` with a cap on the match length (256 in the Rust lab). */
  method EncodeTriples<T(==)>(s: seq<T>, window: nat, cap: nat) returns (encoded: seq<Triple<T>>)
    ensures encoded == EncodeFrom(s, window, cap, 0)
  {
    encoded := [];
    var ptr := 0;
    while ptr < |s|
      invariant ptr <= |s|
      invariant encoded + EncodeFrom(s, window, cap, ptr) == EncodeFrom(s, window, cap, 0)
      decreases |s| - ptr
    {
      var t, next := EmitAt(s, ptr, window, cap);
      EncodeFromStep(s, window, cap, ptr);
      assert encoded + [t] + EncodeFrom(s, window, cap, next) == encoded + EncodeFrom(s, window, cap, ptr);
      encoded := encoded + [t];
      ptr := next;
    }
  }

  /** One round of the outer loop: the triple for the match found at `ptr`, and where `ptr` moves. */
  method EmitAt<T(==)>(s: seq<T>, ptr: nat, window: nat, cap: nat) returns (t: Triple<T>, next: nat)
    requires ptr < |s|
    ensures (t, next) == Emit(s, ptr, window, cap)
  {
    var saved := LongestMatch(s, ptr, window, cap);
    if saved.Some? {
      var l, offset := saved.value.0, saved.value.1;
      t, next := Triple(offset, l, s[ptr + l]), ptr + l + 1;
    } else {
      t, next := Triple(0, 0, s[ptr]), ptr + 1;
    }
  }

  /** `lz77_encode` of lab7. */
  method Lz77Encode(data: seq<byte>, window: nat) returns (encoded: seq<Triple<byte>>)
    ensures encoded == EncodeFrom(data, window, RustCap, 0)
    ensures forall t :: t in encoded ==> t.length < 256 && t.offset < Max(window, 1)
  {
    encoded := EncodeTriples(data, window, RustCap);
    EncodeBounds(data, window, RustCap, 0);
  }

  /** `compress`: four bytes per triple of `lz77_encode(data, 8192)`. */
  method Compress(data: seq<byte>) returns (archive: seq<byte>)
    ensures archive == CompressSpec(data)
    ensures DecompressSpec(archive) == Some(data)
  {
    var encoded := Lz77Encode(data, Window);
    archive := [];
    for i := 0 to |encoded|
      invariant archive == Serialize(encoded[..i])
    {
      var t := encoded[i];
      assert encoded[..i + 1][..i] == encoded[..i];
      archive := archive + [t.offset % 256, (t.offset / 256) % 256, t.length % 256, t.literal];
    }
    assert encoded[..|encoded|] == encoded;
    RoundTrip(data);
  }

  /** `decompress`: applies the blocks in order, failing where the Rust code would panic. */
  method Decompress(archive: seq<byte>) returns (result: Option<seq<byte>>)
    ensures result == DecompressSpec(archive)
  {
    ghost var ts := Parse(archive);
    var out: seq<byte> := [];
    var ptr: nat := 0;
    for i := 0 to |archive| / 4
      invariant ptr == |out|
      invariant Decode(out, ts[i..]) == DecompressSpec(archive)
    {
      var b := i * 4;
      var offset: nat := archive[b] as nat + 256 * archive[b + 1] as nat;
      var length: nat := archive[b + 2];
      var byte := archive[b + 3];
      assert ts[i] == Triple(offset, length, byte);
      assert ts[i..][1..] == ts[i + 1..];
      if length == 0 {
        out := out + [byte];
        ptr := ptr + 1;
      } else {
        if offset == 0 || offset > ptr {
          // `result[ptr - offset + j]` is out of bounds, or the subtraction underflows
          return None;
        }
        ghost var start := out;
        for j := 0 to length
          invariant |out| == ptr + j
          invariant CopyBack(out, offset, length - j) == CopyBack(start, offset, length)
        {
          out := out + [out[ptr - offset + j]];
        }
        out := out + [byte];
        ptr := ptr + length + 1;
      }
    }
    assert ts[|archive| / 4..] == [];
    result := Some(out);
  }
}
