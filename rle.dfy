/**
 * The run-length coder of lab10/src/rle.rs and its image front end.
 *
 * The archive is a sequence of signed bytes. A negative control `-n` is
 * followed by `n` literal bytes; a control `n >= 0` is followed by one byte
 * to repeat `n` times. The encoder keeps the current run (`last`, `count`)
 * and a buffer `unique` of runs of length one; a longer run flushes the
 * buffer as literal chunks and then itself as repeat pairs, each chunk and
 * each pair holding at most 127 bytes. The frame around the archives is
 * module Container.
 */
module Rle {
  import opened Common
  import opened Container

  /** `i8` */
  type i8 = x: int | -128 <= x < 128

  /** `x as u8`: the same bit pattern read unsigned. */
  function ToByte(x: i8): (b: byte)
  {
    if x < 0 then x + 256 else x
  }

  /** `b as i8`: the same bit pattern read as two's complement; `as u8` undoes it. */
  function FromByte(b: byte): (x: i8)
    ensures ToByte(x) == b
    ensures b < 128 <==> x >= 0
  {
    if b < 128 then b else b - 256
  }

  /** `as i8` after `as u8` is the identity too. */
  lemma FromToByte(x: i8)
    ensures FromByte(ToByte(x)) == x
  {
  }

  /** Each signed byte `as u8`. */
  function Bytes(xs: seq<i8>): (r: seq<byte>)
    ensures |r| == |xs| && forall i :: 0 <= i < |xs| ==> r[i] == ToByte(xs[i])
  {
    seq(|xs|, i requires 0 <= i < |xs| => ToByte(xs[i]))
  }

  /** Each byte `as i8`. */
  function Signed(bs: seq<byte>): (r: seq<i8>)
    ensures |r| == |bs| && forall i :: 0 <= i < |bs| ==> r[i] == FromByte(bs[i])
  {
    seq(|bs|, i requires 0 <= i < |bs| => FromByte(bs[i]))
  }

  /** Reading a signed archive back as bytes and then as signed bytes changes nothing. */
  lemma SignedBytes(xs: seq<i8>)
    ensures Signed(Bytes(xs)) == xs
  {
    forall i | 0 <= i < |xs|
      ensures Signed(Bytes(xs))[i] == xs[i]
    {
      FromToByte(xs[i]);
    }
  }

  /** `n` copies of `b`. */
  function Repeat(b: byte, n: nat): (r: seq<byte>)
    ensures |r| == n && forall i :: 0 <= i < n ==> r[i] == b
  {
    seq(n, _ => b)
  }

  // ---------------------------------------------------------------------
  // Archive syntax
  // ---------------------------------------------------------------------

  /**
   * An archive made of whole blocks whose controls lie in -127..=-1 (followed
   * by that many literals) or in 1..=127 (followed by one byte): neither 0 nor
   * -128 occurs as a control.
   */
  predicate WellFormed(a: seq<i8>)
    decreases |a|
  {
    a == [] ||
    (-127 <= a[0] <= -1 && Span(a[0]) <= |a| && WellFormed(a[Span(a[0])..])) ||
    (1 <= a[0] <= 127 && Span(a[0]) <= |a| && WellFormed(a[Span(a[0])..]))
  }

  /** The length of a block with control `h`: the control and its `-h` literals, or the control and its byte. */
  function Span(h: i8): (n: nat)
    ensures n >= 1
  {
    if h < 0 then 1 - h as int else 2
  }

  lemma {:induction false} WellFormedAppend(x: seq<i8>, y: seq<i8>)
    requires WellFormed(x) && WellFormed(y)
    ensures WellFormed(x + y)
    decreases |x|
  {
    if x != [] {
      var k := Span(x[0]);
      assert (x + y)[0] == x[0];
      assert (x + y)[k..] == x[k..] + y;
      WellFormedAppend(x[k..], y);
    } else {
      assert x + y == y;
    }
  }

  // ---------------------------------------------------------------------
  // The encoder
  // ---------------------------------------------------------------------

  /** `dump_unique`: chunks of at most 127 literals, each after minus its length. */
  function UniqueChunks(unique: seq<byte>): seq<i8>
    decreases |unique|
  {
    if unique == [] then []
    else
      var l := Min(127, |unique|);
      [-l] + Signed(unique[..l]) + UniqueChunks(unique[l..])
  }

  /** The chunks are whole blocks with controls in -127..=-1, adding one control per at most 127 literals. */
  lemma {:induction false} UniqueChunksShape(unique: seq<byte>)
    ensures WellFormed(UniqueChunks(unique))
    ensures |unique| <= |UniqueChunks(unique)| <= 2 * |unique|
    decreases |unique|
  {
    if unique != [] {
      var l := Min(127, |unique|);
      var r := UniqueChunks(unique);
      UniqueChunksShape(unique[l..]);
      assert r[1 + l..] == UniqueChunks(unique[l..]);
    }
  }

  /** `dump_repeat`: pairs `(l, byte)` with `1 <= l <= 127`, the `l` summing to `repeat`. */
  function RepeatPairs(b: byte, repeat: nat): seq<i8>
    decreases repeat
  {
    if repeat == 0 then []
    else
      var l := Min(127, repeat);
      [l, FromByte(b)] + RepeatPairs(b, repeat - l)
  }

  /** The pairs are whole blocks: a control in 1..=127 at every even position, the byte at every odd one. */
  lemma {:induction false} RepeatPairsShape(b: byte, repeat: nat)
    ensures WellFormed(RepeatPairs(b, repeat))
    ensures |RepeatPairs(b, repeat)| <= 2 * repeat && |RepeatPairs(b, repeat)| % 2 == 0
    ensures forall k :: 0 <= k < |RepeatPairs(b, repeat)| && k % 2 == 0 ==> 1 <= RepeatPairs(b, repeat)[k] <= 127
    ensures forall k :: 0 <= k < |RepeatPairs(b, repeat)| && k % 2 == 1 ==> RepeatPairs(b, repeat)[k] == FromByte(b)
    decreases repeat
  {
    if repeat > 0 {
      var l := Min(127, repeat);
      var r := RepeatPairs(b, repeat);
      var rest := RepeatPairs(b, repeat - l);
      RepeatPairsShape(b, repeat - l);
      assert r[2..] == rest;
      forall k | 2 <= k < |r|
        ensures r[k] == rest[k - 2]
      {
      }
    }
  }

  /**
   * The main loop of `rle_encode` from `ptr` on, in state (`last`, `count`,
   * `unique`), followed by the final flush.
   */
  function EncodeFrom(data: seq<byte>, ptr: nat, last: byte, count: nat, unique: seq<byte>): seq<i8>
    decreases |data| - ptr
  {
    if ptr >= |data| then UniqueChunks(unique) + RepeatPairs(last, count)
    else if data[ptr] == last then EncodeFrom(data, ptr + 1, last, count + 1, unique)
    else if count == 1 then EncodeFrom(data, ptr + 1, data[ptr], 1, unique + [last])
    else UniqueChunks(unique) + RepeatPairs(last, count) + EncodeFrom(data, ptr + 1, data[ptr], 1, [])
  }

  /** `rle_encode`: `data[0]` panics on empty input. */
  function RleEncodeSpec(data: seq<byte>): (r: Option<seq<i8>>)
    ensures r.Some? <==> data != []
  {
    if data == [] then None else Some(EncodeFrom(data, 1, data[0], 1, []))
  }

  // ---------------------------------------------------------------------
  // The decoder
  // ---------------------------------------------------------------------

  /**
   * `rle_decode` from the archive `a` with output `out` so far. A block that
   * runs past the end panics on its index; a control of -128 copies 128
   * bytes and then panics in `repeat.abs()` on an `i8`.
   */
  function DecodeFrom(a: seq<i8>, out: seq<byte>): Option<seq<byte>>
    decreases |a|
  {
    if a == [] then Some(out)
    else if a[0] < 0 then
      if |a| < Span(a[0]) then None
      else if a[0] == -128 then None
      else DecodeFrom(a[Span(a[0])..], out + Bytes(a[1..Span(a[0])]))
    else if |a| < 2 then None
    else DecodeFrom(a[2..], out + Repeat(ToByte(a[1]), a[0]))
  }

  function RleDecodeSpec(a: seq<i8>): Option<seq<byte>>
  {
    DecodeFrom(a, [])
  }

  // ---------------------------------------------------------------------
  // Lemmas
  // ---------------------------------------------------------------------

  /** A well-formed archive decodes, and what follows it is decoded after it. */
  lemma {:induction false} DecodeAppend(x: seq<i8>, y: seq<i8>, out: seq<byte>)
    requires WellFormed(x)
    ensures DecodeFrom(x, out).Some?
    ensures DecodeFrom(x + y, out) == DecodeFrom(y, DecodeFrom(x, out).value)
    decreases |x|
  {
    if x == [] {
      assert x + y == y;
    } else {
      var k := Span(x[0]);
      assert (x + y)[k..] == x[k..] + y;
      assert (x + y)[..k] == x[..k];
      if x[0] < 0 {
        assert (x + y)[1..k] == x[1..k];
        DecodeAppend(x[k..], y, out + Bytes(x[1..k]));
      } else {
        DecodeAppend(x[k..], y, out + Repeat(ToByte(x[1]), x[0]));
      }
    }
  }

  /** The literal chunks decode to the buffered bytes. */
  lemma {:induction false} DecodeUnique(unique: seq<byte>, out: seq<byte>)
    ensures DecodeFrom(UniqueChunks(unique), out) == Some(out + unique)
    decreases |unique|
  {
    if unique == [] {
      assert out + unique == out;
    } else {
      var l := Min(127, |unique|);
      var a := UniqueChunks(unique);
      assert a[1..1 + l] == Signed(unique[..l]);
      SignedBytes(Signed(unique[..l]));
      assert Bytes(Signed(unique[..l])) == unique[..l] by {
        forall i | 0 <= i < l
          ensures Bytes(Signed(unique[..l]))[i] == unique[..l][i]
        {
        }
      }
      DecodeUnique(unique[l..], out + unique[..l]);
      assert out + unique[..l] + unique[l..] == out + unique;
    }
  }

  /** The repeat pairs decode to `repeat` copies of the byte. */
  lemma {:induction false} DecodeRepeat(b: byte, repeat: nat, out: seq<byte>)
    ensures DecodeFrom(RepeatPairs(b, repeat), out) == Some(out + Repeat(b, repeat))
    decreases repeat
  {
    if repeat == 0 {
      assert out + Repeat(b, 0) == out;
    } else {
      var l := Min(127, repeat);
      DecodeRepeat(b, repeat - l, out + Repeat(b, l));
      assert out + Repeat(b, l) + Repeat(b, repeat - l) == out + Repeat(b, repeat);
    }
  }

  /** The flush at a run boundary decodes to the buffered literals and the run. */
  lemma FlushDecodes(unique: seq<byte>, last: byte, count: nat, rest: seq<i8>, out: seq<byte>)
    ensures DecodeFrom(UniqueChunks(unique) + RepeatPairs(last, count) + rest, out) ==
            DecodeFrom(rest, out + unique + Repeat(last, count))
  {
    assert UniqueChunks(unique) + RepeatPairs(last, count) + rest ==
           UniqueChunks(unique) + (RepeatPairs(last, count) + rest);
    UniqueChunksShape(unique);
    RepeatPairsShape(last, count);
    DecodeAppend(UniqueChunks(unique), RepeatPairs(last, count) + rest, out);
    DecodeUnique(unique, out);
    DecodeAppend(RepeatPairs(last, count), rest, out + unique);
    DecodeRepeat(last, count, out + unique);
  }

  /** With the decoded prefix `out`, the buffer and the current run making up `data[..ptr]`, the rest of the encoding decodes to the rest of `data`. */
  lemma {:induction false} DecodeEncode(data: seq<byte>, ptr: nat, last: byte, count: nat, unique: seq<byte>, out: seq<byte>)
    requires ptr <= |data| && out + unique + Repeat(last, count) == data[..ptr]
    ensures DecodeFrom(EncodeFrom(data, ptr, last, count, unique), out) == Some(data)
    decreases |data| - ptr
  {
    if ptr == |data| {
      FlushDecodes(unique, last, count, [], out);
      assert UniqueChunks(unique) + RepeatPairs(last, count) + [] == UniqueChunks(unique) + RepeatPairs(last, count);
      assert data[..ptr] == data;
    } else {
      assert data[..ptr + 1] == data[..ptr] + [data[ptr]];
      if data[ptr] == last {
        assert Repeat(last, count + 1) == Repeat(last, count) + [last];
        DecodeEncode(data, ptr + 1, last, count + 1, unique, out);
      } else if count == 1 {
        assert Repeat(last, 1) == [last] && Repeat(data[ptr], 1) == [data[ptr]];
        DecodeEncode(data, ptr + 1, data[ptr], 1, unique + [last], out);
      } else {
        var out' := out + unique + Repeat(last, count);
        assert Repeat(data[ptr], 1) == [data[ptr]];
        assert out' + [] + Repeat(data[ptr], 1) == data[..ptr + 1];
        FlushDecodes(unique, last, count, EncodeFrom(data, ptr + 1, data[ptr], 1, []), out);
        DecodeEncode(data, ptr + 1, data[ptr], 1, [], out');
      }
    }
  }

  /** Round trip of lab10's coder: `rle_decode(rle_encode(d)) == d` for every non-empty `d`. */
  lemma RoundTrip(data: seq<byte>)
    requires data != []
    ensures RleDecodeSpec(RleEncodeSpec(data).value) == Some(data)
  {
    assert [] + [] + Repeat(data[0], 1) == data[..1];
    DecodeEncode(data, 1, data[0], 1, [], []);
  }

  /** Every control the encoder writes lies in -127..=-1 or 1..=127, each followed by its whole block. */
  lemma {:induction false} EncodeWellFormed(data: seq<byte>, ptr: nat, last: byte, count: nat, unique: seq<byte>)
    ensures WellFormed(EncodeFrom(data, ptr, last, count, unique))
    decreases |data| - ptr
  {
    UniqueChunksShape(unique);
    RepeatPairsShape(last, count);
    if ptr >= |data| {
      WellFormedAppend(UniqueChunks(unique), RepeatPairs(last, count));
    } else if data[ptr] == last {
      EncodeWellFormed(data, ptr + 1, last, count + 1, unique);
    } else if count == 1 {
      EncodeWellFormed(data, ptr + 1, data[ptr], 1, unique + [last]);
    } else {
      WellFormedAppend(UniqueChunks(unique), RepeatPairs(last, count));
      EncodeWellFormed(data, ptr + 1, data[ptr], 1, []);
      WellFormedAppend(UniqueChunks(unique) + RepeatPairs(last, count), EncodeFrom(data, ptr + 1, data[ptr], 1, []));
    }
  }

  /** Every well-formed archive decodes without a panic. */
  lemma WellFormedDecodes(a: seq<i8>)
    requires WellFormed(a)
    ensures RleDecodeSpec(a).Some?
  {
    DecodeAppend(a, [], []);
    assert a + [] == a;
  }

  /** The archive is at most two signed bytes per input byte. */
  lemma {:induction false} EncodeLength(data: seq<byte>, ptr: nat, last: byte, count: nat, unique: seq<byte>)
    requires ptr <= |data|
    ensures |EncodeFrom(data, ptr, last, count, unique)| <= 2 * (|unique| + count + |data| - ptr)
    decreases |data| - ptr
  {
    UniqueChunksShape(unique);
    RepeatPairsShape(last, count);
    if ptr < |data| {
      if data[ptr] == last {
        EncodeLength(data, ptr + 1, last, count + 1, unique);
      } else if count == 1 {
        EncodeLength(data, ptr + 1, data[ptr], 1, unique + [last]);
      } else {
        EncodeLength(data, ptr + 1, data[ptr], 1, []);
      }
    }
  }

  lemma EncodedLength(data: seq<byte>)
    requires data != []
    ensures |RleEncodeSpec(data).value| <= 2 * |data|
  {
    EncodeLength(data, 1, data[0], 1, []);
  }

  // ---------------------------------------------------------------------
  // The loops of `dump_unique`, `dump_repeat`, `rle_encode` and `rle_decode`
  // ---------------------------------------------------------------------

  /** The chunks from `ptr` on: one chunk of `min(127, len - ptr)` literals, then the chunks after it. */
  lemma UniqueChunksStep(unique: seq<byte>, ptr: nat, r: seq<i8>, whole: seq<i8>)
    requires ptr < |unique| && r + UniqueChunks(unique[ptr..]) == whole
    ensures var l := Min(127, |unique| - ptr);
            r + [-l] + Signed(unique[ptr..ptr + l]) + UniqueChunks(unique[ptr + l..]) == whole
  {
    var l := Min(127, |unique| - ptr);
    assert unique[ptr..][..l] == unique[ptr..ptr + l] && unique[ptr..][l..] == unique[ptr + l..];
    var lit, more := Signed(unique[ptr..ptr + l]), UniqueChunks(unique[ptr + l..]);
    assert UniqueChunks(unique[ptr..]) == [-l] + lit + more;
    Assoc(r, [-l], lit);
    Assoc(r, [-l] + lit, more);
  }

  /** The inner `for i in 0..l` loop of `dump_unique`. */
  method PushLiterals(encoded: seq<i8>, unique: seq<byte>, ptr: nat, l: nat) returns (r: seq<i8>)
    requires ptr + l <= |unique|
    ensures r == encoded + Signed(unique[ptr..ptr + l])
  {
    r := encoded;
    for i := 0 to l
      invariant r == encoded + Signed(unique[ptr..ptr + i])
    {
      assert Signed(unique[ptr..ptr + i + 1]) == Signed(unique[ptr..ptr + i]) + [FromByte(unique[ptr + i])];
      r := r + [FromByte(unique[ptr + i])];
    }
  }

  /** `dump_unique(&mut encoded, &mut unique)` */
  method DumpUnique(encoded: seq<i8>, unique: seq<byte>) returns (r: seq<i8>)
    ensures r == encoded + UniqueChunks(unique)
  {
    r := encoded;
    var ptr: nat := 0;
    while ptr < |unique|
      invariant ptr <= |unique|
      invariant r + UniqueChunks(unique[ptr..]) == encoded + UniqueChunks(unique)
      decreases |unique| - ptr
    {
      var l := Min(127, |unique| - ptr);
      UniqueChunksStep(unique, ptr, r, encoded + UniqueChunks(unique));
      r := r + [-l];
      r := PushLiterals(r, unique, ptr, l);
      ptr := ptr + l;
    }
    assert unique[ptr..] == [];
  }

  /** `dump_repeat(&mut encoded, byte, repeat)` */
  method DumpRepeat(encoded: seq<i8>, b: byte, repeat: nat) returns (r: seq<i8>)
    ensures r == encoded + RepeatPairs(b, repeat)
  {
    r := encoded;
    var ptr: nat := 0;
    while ptr < repeat
      invariant ptr <= repeat
      invariant r + RepeatPairs(b, repeat - ptr) == encoded + RepeatPairs(b, repeat)
      decreases repeat - ptr
    {
      var l := Min(127, repeat - ptr);
      r := r + [l];
      r := r + [FromByte(b)];
      ptr := ptr + l;
    }
  }

  /** `rle_encode` */
  method RleEncode(data: seq<byte>) returns (result: Option<seq<i8>>)
    ensures result == RleEncodeSpec(data)
    ensures result.Some? ==> WellFormed(result.value) && RleDecodeSpec(result.value) == Some(data)
  {
    if |data| == 0 {
      // `data[0]` is out of bounds
      return None;
    }
    var encoded: seq<i8> := [];
    var last := data[0];
    var count: nat := 1;
    var unique: seq<byte> := [];
    var ptr: nat := 1;
    ghost var target := EncodeFrom(data, 1, last, 1, []);
    while ptr < |data|
      invariant ptr <= |data| && count >= 1
      invariant encoded + EncodeFrom(data, ptr, last, count, unique) == target
      decreases |data| - ptr
    {
      var b := data[ptr];
      if b == last {
        count := count + 1;
      } else {
        if count == 1 {
          unique := unique + [last];
        } else {
          ghost var rest := EncodeFrom(data, ptr + 1, b, 1, []);
          Assoc(encoded, UniqueChunks(unique), RepeatPairs(last, count) + rest);
          Assoc(UniqueChunks(unique), RepeatPairs(last, count), rest);
          Assoc(encoded + UniqueChunks(unique), RepeatPairs(last, count), rest);
          encoded := DumpUnique(encoded, unique);
          unique := [];
          encoded := DumpRepeat(encoded, last, count);
        }
        last := b;
        count := 1;
      }
      ptr := ptr + 1;
    }
    Assoc(encoded, UniqueChunks(unique), RepeatPairs(last, count));
    encoded := DumpUnique(encoded, unique);
    encoded := DumpRepeat(encoded, last, count);
    result := Some(encoded);
    EncodeWellFormed(data, 1, data[0], 1, []);
    RoundTrip(data);
  }

  /** The `for i in 0..(repeat as i32).abs()` loop: `n` literals from `ptr`, panicking at the first index past the end. */
  method CopyLiterals(out: seq<byte>, data: seq<i8>, ptr: nat, n: nat) returns (r: Option<seq<byte>>)
    requires ptr <= |data|
    ensures r == if ptr + n <= |data| then Some(out + Bytes(data[ptr..ptr + n])) else None
  {
    var o := out;
    for i := 0 to n
      invariant ptr + i <= |data| && o == out + Bytes(data[ptr..ptr + i])
    {
      if ptr + i >= |data| {
        // `data[ptr + i]` is out of bounds
        return None;
      }
      assert Bytes(data[ptr..ptr + i + 1]) == Bytes(data[ptr..ptr + i]) + [ToByte(data[ptr + i])];
      o := o + [ToByte(data[ptr + i])];
    }
    r := Some(o);
  }

  /** The `for _ in 0..repeat` loop. */
  method PushRepeat(out: seq<byte>, b: byte, n: nat) returns (r: seq<byte>)
    ensures r == out + Repeat(b, n)
  {
    r := out;
    for i := 0 to n
      invariant r == out + Repeat(b, i)
    {
      assert Repeat(b, i + 1) == Repeat(b, i) + [b];
      r := r + [b];
    }
  }

  /** `rle_decode` */
  method RleDecode(data: seq<i8>) returns (result: Option<seq<byte>>)
    ensures result == RleDecodeSpec(data)
  {
    var out: seq<byte> := [];
    var ptr: nat := 0;
    while ptr < |data|
      invariant ptr <= |data|
      invariant DecodeFrom(data[ptr..], out) == RleDecodeSpec(data)
      decreases |data| - ptr
    {
      ghost var a := data[ptr..];
      var repeat := data[ptr];
      ptr := ptr + 1;
      if repeat < 0 {
        var n: nat := -(repeat as int);
        var copied := CopyLiterals(out, data, ptr, n);
        if copied.None? {
          return None;
        }
        if repeat == -128 {
          // `repeat.abs()` overflows `i8`
          return None;
        }
        assert a[Span(repeat)..] == data[ptr + n..] && a[1..Span(repeat)] == data[ptr..ptr + n];
        out := copied.value;
        ptr := ptr + n;
      } else {
        if ptr >= |data| {
          // `data[ptr]` is out of bounds
          return None;
        }
        var b := data[ptr];
        ptr := ptr + 1;
        assert a[2..] == data[ptr..];
        out := PushRepeat(out, ToByte(b), repeat);
      }
    }
    assert data[ptr..] == [];
    result := Some(out);
  }

  // ---------------------------------------------------------------------
  // The image front end
  // ---------------------------------------------------------------------

  /** The archive bytes of one plane: `rle_encode` then `elem as u8`. */
  function Archive(data: seq<byte>): (r: Option<seq<byte>>)
    ensures r.Some? <==> data != []
  {
    match RleEncodeSpec(data)
    case None => None
    case Some(enc) => Some(Bytes(enc))
  }

  /** One plane of `decompress`: `*i as i8` on each archive byte, then `rle_decode`. */
  function Channel(archive: seq<byte>): Option<seq<byte>>
  {
    RleDecodeSpec(Signed(archive))
  }

  /** A plane's archive decodes back to the plane, and is at most twice its length. */
  lemma ChannelRoundTrip(data: seq<byte>)
    requires data != []
    ensures Channel(Archive(data).value) == Some(data)
    ensures |Archive(data).value| <= 2 * |data|
  {
    SignedBytes(RleEncodeSpec(data).value);
    RoundTrip(data);
    EncodedLength(data);
  }

  /** `compress_gray`; empty pixels panic in `rle_encode`. */
  function GraySpec(data: seq<byte>, w: u32, h: u32): (r: Option<seq<byte>>)
    ensures r.Some? <==> data != []
  {
    match Archive(data)
    case None => None
    case Some(enc) => Some(GrayBytes(w, h, enc))
  }

  /** `compress_rgb`; fewer than three pixel bytes leave a plane empty, which panics. */
  function RgbSpec(data: seq<byte>, w: u32, h: u32): (r: Option<seq<byte>>)
    ensures r.Some? <==> |data| >= 3
  {
    var p := SplitData(data);
    match (Archive(p.0), Archive(p.1), Archive(p.2))
    case (Some(re), Some(ge), Some(be)) => Some(RgbBytes(w, h, re, ge, be))
    case _ => None
  }

  /** `decompress`: the pixels and the dimensions of a frame, or `None` where it panics. */
  function DecompressSpec(data: seq<byte>): (r: Option<(seq<byte>, u32, u32)>)
    ensures r.Some? ==> ParseFrame(data).Some? && r.value.1 == ParseFrame(data).value.width && r.value.2 == ParseFrame(data).value.height
  {
    match ParseFrame(data)
    case None => None
    case Some(Gray(w, h, archive)) =>
      (match Channel(archive)
       case None => None
       case Some(pixels) => Some((pixels, w, h)))
    case Some(Rgb(w, h, ra, ga, ba)) =>
      match (Channel(ra), Channel(ga), Channel(ba))
      case (Some(r), Some(g), Some(b)) =>
        (match Interleave(r, g, b)
         case None => None
         case Some(pixels) => Some((pixels, w, h)))
      case _ => None
  }

  /** A gray frame of a non-empty image decompresses to the image and the dimensions written. */
  lemma GrayRoundTrip(data: seq<byte>, w: u32, h: u32)
    requires data != []
    ensures DecompressSpec(GraySpec(data, w, h).value) == Some((data, w, h))
  {
    ChannelRoundTrip(data);
    ParseGray(w, h, Archive(data).value);
  }

  /** An RGB frame decompresses to the whole pixels and the dimensions written, while each plane archive stays under 2^32 bytes. */
  lemma RgbRoundTrip(data: seq<byte>, w: u32, h: u32)
    requires 3 <= |data| < U32Limit
    ensures DecompressSpec(RgbSpec(data, w, h).value) == Some((data[..3 * (|data| / 3)], w, h))
  {
    var p := SplitData(data);
    ChannelRoundTrip(p.0);
    ChannelRoundTrip(p.1);
    ChannelRoundTrip(p.2);
    ParseRgb(w, h, Archive(p.0).value, Archive(p.1).value, Archive(p.2).value);
    SplitRoundTrip(data);
  }

  /** `for elem in enc { result.push(elem as u8); }` */
  method ToBytes(enc: seq<i8>) returns (r: seq<byte>)
    ensures r == Bytes(enc)
  {
    r := [];
    for i := 0 to |enc|
      invariant r == Bytes(enc[..i])
    {
      assert Bytes(enc[..i + 1]) == Bytes(enc[..i]) + [ToByte(enc[i])];
      r := r + [ToByte(enc[i])];
    }
    assert enc[..|enc|] == enc;
  }

  /** `for i in &data[..] { archive.push(*i as i8); }` */
  method ToSigned(data: seq<byte>) returns (r: seq<i8>)
    ensures r == Signed(data)
  {
    r := [];
    for i := 0 to |data|
      invariant r == Signed(data[..i])
    {
      assert Signed(data[..i + 1]) == Signed(data[..i]) + [FromByte(data[i])];
      r := r + [FromByte(data[i])];
    }
    assert data[..|data|] == data;
  }

  /** One plane's archive through `rle_encode` and the cast loop. */
  method CompressChannel(data: seq<byte>) returns (r: Option<seq<byte>>)
    ensures r == Archive(data)
  {
    var enc := RleEncode(data);
    if enc.None? {
      return None;
    }
    var bytes := ToBytes(enc.value);
    r := Some(bytes);
  }

  /** One plane's archive through the cast loop and `rle_decode`. */
  method DecompressChannel(archive: seq<byte>) returns (r: Option<seq<byte>>)
    ensures r == Channel(archive)
  {
    var signed := ToSigned(archive);
    r := RleDecode(signed);
  }

  /** `compress_gray` */
  method CompressGray(data: seq<byte>, w: u32, h: u32) returns (result: Option<seq<byte>>)
    ensures result == GraySpec(data, w, h)
    ensures result.Some? ==> DecompressSpec(result.value) == Some((data, w, h))
  {
    var enc := CompressChannel(data);
    if enc.None? {
      return None;
    }
    var bytes := WriteGray(w, h, enc.value);
    result := Some(bytes);
    GrayRoundTrip(data, w, h);
  }

  /** `compress_rgb` */
  method CompressRgb(data: seq<byte>, w: u32, h: u32) returns (result: Option<seq<byte>>)
    ensures result == RgbSpec(data, w, h)
    ensures result.Some? && |data| < U32Limit ==> DecompressSpec(result.value) == Some((data[..3 * (|data| / 3)], w, h))
  {
    var r, g, b := SplitChannels(data);
    var rEnc := CompressChannel(r);
    var gEnc := CompressChannel(g);
    var bEnc := CompressChannel(b);
    if rEnc.None? || gEnc.None? || bEnc.None? {
      return None;
    }
    var bytes := WriteRgb(w, h, rEnc.value, gEnc.value, bEnc.value);
    result := Some(bytes);
    if |data| < U32Limit {
      RgbRoundTrip(data, w, h);
    }
  }

  /** `decompress` */
  method Decompress(data: seq<byte>) returns (result: Option<(seq<byte>, u32, u32)>)
    ensures result == DecompressSpec(data)
  {
    var frame := ReadFrame(data);
    if frame.None? {
      return None;
    }
    match frame.value
    case Gray(w, h, archive) =>
      var decoded := DecompressChannel(archive);
      if decoded.None? {
        return None;
      }
      result := Some((decoded.value, w, h));
    case Rgb(w, h, ra, ga, ba) =>
      var rDecode := DecompressChannel(ra);
      var gDecode := DecompressChannel(ga);
      var bDecode := DecompressChannel(ba);
      if rDecode.None? || gDecode.None? || bDecode.None? {
        return None;
      }
      var pixels := InterleaveChannels(rDecode.value, gDecode.value, bDecode.value);
      if pixels.None? {
        return None;
      }
      result := Some((pixels.value, w, h));
  }
}
