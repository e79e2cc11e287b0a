/**
 * The image container that lab10/src/rle.rs and lab11/src/lzw.rs carry in
 * identical copies around their channel coders.
 *
 * A frame is a tag byte (0 for gray, anything else read back as RGB), the
 * width and the height as little-endian 32-bit words, then either one
 * length-prefixed archive (gray) or three (red, green, blue). The colour
 * planes are split from interleaved `r, g, b` triples and woven back on
 * decoding. The channel coder itself is a parameter of this module: the
 * frame bytes are stated over archives already produced.
 */
module Container {
  import opened Common

  /** `u32` */
  type u32 = x: int | 0 <= x < 0x1_0000_0000

  /** Number of distinct `u32` values: `len() as u32` keeps the length modulo this. */
  const U32Limit: nat := 0x1_0000_0000

  // ---------------------------------------------------------------------
  // Little-endian words
  // ---------------------------------------------------------------------

  /** The four bytes of `transmute::<u32, [u8; 4]>` on a little-endian machine, low byte first. */
  function DumpU32(v: u32): (r: seq<byte>)
    ensures |r| == 4
  {
    var v1 := v / 256;
    var v2 := v1 / 256;
    [v % 256, v1 % 256, v2 % 256, v2 / 256]
  }

  /** `read_u32(data, offset)`: the four bytes from `offset`, low byte first. */
  function ReadU32(data: seq<byte>, offset: nat): (r: u32)
    requires offset + 4 <= |data|
  {
    data[offset] as nat + 256 * (data[offset + 1] as nat + 256 * (data[offset + 2] as nat + 256 * data[offset + 3] as nat))
  }

  /** `read_u32` reads back the word `dump_u32` wrote, wherever it sits. */
  lemma ReadDump(prefix: seq<byte>, v: u32, suffix: seq<byte>)
    ensures ReadU32(prefix + DumpU32(v) + suffix, |prefix|) == v
  {
    var a := prefix + DumpU32(v) + suffix;
    assert a[|prefix|..|prefix| + 4] == DumpU32(v);
    assert a[|prefix|] == DumpU32(v)[0] && a[|prefix| + 1] == DumpU32(v)[1];
    assert a[|prefix| + 2] == DumpU32(v)[2] && a[|prefix| + 3] == DumpU32(v)[3];
  }

  /** `(a + 256 * k) / 256 == k` and the remainder is `a`, for a byte `a`. */
  lemma SplitByte(a: byte, k: nat)
    ensures (a + 256 * k) % 256 == a && (a + 256 * k) / 256 == k
  {
  }

  /** Conversely every four bytes are the dump of the word read from them. */
  lemma DumpRead(data: seq<byte>, offset: nat)
    requires offset + 4 <= |data|
    ensures DumpU32(ReadU32(data, offset)) == data[offset..offset + 4]
  {
    var a, b, c, d := data[offset], data[offset + 1], data[offset + 2], data[offset + 3];
    SplitByte(a, b as nat + 256 * (c as nat + 256 * d as nat));
    SplitByte(b, c as nat + 256 * d as nat);
    SplitByte(c, d);
  }

  /** `dump_u32(&mut data, val)`: four pushes. */
  method AppendU32(data: seq<byte>, val: u32) returns (r: seq<byte>)
    ensures r == data + DumpU32(val)
    ensures ReadU32(r, |data|) == val
  {
    var v1 := val / 256;
    var v2 := v1 / 256;
    r := data + [val % 256];
    r := r + [v1 % 256];
    r := r + [v2 % 256];
    r := r + [v2 / 256];
    ReadDump(data, val, []);
    assert data + DumpU32(val) + [] == r;
  }

  /** `for elem in enc { result.push(elem as u8); }` for an archive of bytes. */
  method AppendAll(data: seq<byte>, enc: seq<byte>) returns (r: seq<byte>)
    ensures r == data + enc
  {
    r := data;
    for i := 0 to |enc|
      invariant r == data + enc[..i]
    {
      assert enc[..i + 1] == enc[..i] + [enc[i]];
      r := r + [enc[i]];
    }
    assert enc[..|enc|] == enc;
  }

  // ---------------------------------------------------------------------
  // Colour planes
  // ---------------------------------------------------------------------

  /** `split_data`: plane `c` takes byte `3i + c` of each whole triple; the `len % 3` bytes after the last triple are dropped. */
  function SplitData(d: seq<byte>): (r: (seq<byte>, seq<byte>, seq<byte>))
    ensures |r.0| == |r.1| == |r.2| == |d| / 3
    ensures forall i :: 0 <= i < |d| / 3 ==> r.0[i] == d[3 * i] && r.1[i] == d[3 * i + 1] && r.2[i] == d[3 * i + 2]
  {
    (seq(|d| / 3, i requires 0 <= i < |d| / 3 => d[3 * i]),
     seq(|d| / 3, i requires 0 <= i < |d| / 3 => d[3 * i + 1]),
     seq(|d| / 3, i requires 0 <= i < |d| / 3 => d[3 * i + 2]))
  }

  /** The first `n` triples `r[i], g[i], b[i]`, as the decoder pushes them. */
  function Interleaved(r: seq<byte>, g: seq<byte>, b: seq<byte>, n: nat): (out: seq<byte>)
    requires n <= |r| && n <= |g| && n <= |b|
    ensures |out| == 3 * n
  {
    if n == 0 then [] else Interleaved(r, g, b, n - 1) + [r[n - 1], g[n - 1], b[n - 1]]
  }

  /** The interleaving loop of `decompress`: one triple per red byte; a shorter green or blue plane is indexed past its end and panics. */
  function Interleave(r: seq<byte>, g: seq<byte>, b: seq<byte>): (out: Option<seq<byte>>)
    ensures out.Some? <==> |r| <= |g| && |r| <= |b|
  {
    if |g| < |r| || |b| < |r| then None else Some(Interleaved(r, g, b, |r|))
  }

  /** Position `3i + c` of the interleaving holds byte `i` of plane `c`. */
  lemma {:induction false} InterleavedAt(r: seq<byte>, g: seq<byte>, b: seq<byte>, n: nat, i: nat)
    requires n <= |r| && n <= |g| && n <= |b| && i < n
    ensures Interleaved(r, g, b, n)[3 * i] == r[i]
    ensures Interleaved(r, g, b, n)[3 * i + 1] == g[i]
    ensures Interleaved(r, g, b, n)[3 * i + 2] == b[i]
  {
    if i < n - 1 {
      InterleavedAt(r, g, b, n - 1, i);
    }
  }

  /** Interleaving the split planes gives back every whole triple of the input. */
  lemma {:induction false} InterleaveSplit(d: seq<byte>, n: nat)
    requires n <= |d| / 3
    ensures var p := SplitData(d); Interleaved(p.0, p.1, p.2, n) == d[..3 * n]
  {
    if n > 0 {
      InterleaveSplit(d, n - 1);
      assert d[..3 * n] == d[..3 * (n - 1)] + [d[3 * (n - 1)], d[3 * (n - 1) + 1], d[3 * (n - 1) + 2]];
    }
  }

  /** `split_data` then the interleaving loop is the identity on inputs made of whole triples, and drops the rest otherwise. */
  lemma SplitRoundTrip(d: seq<byte>)
    ensures var p := SplitData(d); Interleave(p.0, p.1, p.2) == Some(d[..3 * (|d| / 3)])
    ensures |d| % 3 == 0 ==> var p := SplitData(d); Interleave(p.0, p.1, p.2) == Some(d)
  {
    InterleaveSplit(d, |d| / 3);
    assert |d| % 3 == 0 ==> d[..3 * (|d| / 3)] == d;
  }

  /** Splitting an interleaving gives back its three planes, cut to the red plane's length. */
  lemma SplitInterleave(r: seq<byte>, g: seq<byte>, b: seq<byte>)
    requires |r| <= |g| && |r| <= |b|
    ensures SplitData(Interleave(r, g, b).value) == (r, g[..|r|], b[..|r|])
  {
    var d := Interleaved(r, g, b, |r|);
    var p := SplitData(d);
    forall i | 0 <= i < |r|
      ensures p.0[i] == r[i] && p.1[i] == g[i] && p.2[i] == b[i]
    {
      InterleavedAt(r, g, b, |r|, i);
    }
    assert p.0 == r;
    assert p.1 == g[..|r|];
    assert p.2 == b[..|r|];
  }

  /** The `for i in 0..data.len() / 3` loop of `split_data`. */
  method SplitChannels(data: seq<byte>) returns (r: seq<byte>, g: seq<byte>, b: seq<byte>)
    ensures (r, g, b) == SplitData(data)
  {
    ghost var p := SplitData(data);
    r, g, b := [], [], [];
    for i := 0 to |data| / 3
      invariant r == p.0[..i] && g == p.1[..i] && b == p.2[..i]
    {
      assert p.0[..i + 1] == p.0[..i] + [data[i * 3 + 0]];
      assert p.1[..i + 1] == p.1[..i] + [data[i * 3 + 1]];
      assert p.2[..i + 1] == p.2[..i] + [data[i * 3 + 2]];
      r := r + [data[i * 3 + 0]];
      g := g + [data[i * 3 + 1]];
      b := b + [data[i * 3 + 2]];
    }
    assert p.0[..|data| / 3] == p.0 && p.1[..|data| / 3] == p.1 && p.2[..|data| / 3] == p.2;
  }

  /** The `for i in 0..r_decode.len()` loop of `decompress`. */
  method InterleaveChannels(r: seq<byte>, g: seq<byte>, b: seq<byte>) returns (result: Option<seq<byte>>)
    ensures result == Interleave(r, g, b)
  {
    var out: seq<byte> := [];
    for i := 0 to |r|
      invariant i <= |g| && i <= |b| && out == Interleaved(r, g, b, i)
    {
      if i >= |g| || i >= |b| {
        // `g_decode[i]` or `b_decode[i]` is out of bounds
        return None;
      }
      out := out + [r[i]];
      out := out + [g[i]];
      out := out + [b[i]];
      assert out == Interleaved(r, g, b, i) + [r[i], g[i], b[i]];
    }
    result := Some(out);
  }

  // ---------------------------------------------------------------------
  // Frames
  // ---------------------------------------------------------------------

  /** What `decompress` finds in a frame before decoding: the dimensions and the archives. */
  datatype Frame =
    | Gray(width: u32, height: u32, archive: seq<byte>)
    | Rgb(width: u32, height: u32, red: seq<byte>, green: seq<byte>, blue: seq<byte>)

  /** `archive.len() as u32` followed by the archive. */
  function Sized(enc: seq<byte>): (r: seq<byte>)
    ensures |r| == 4 + |enc|
  {
    DumpU32(|enc| % U32Limit) + enc
  }

  /** The bytes of `compress_gray` for an archive `enc`: `[0, w, h, len, enc]`. */
  function GrayBytes(w: u32, h: u32, enc: seq<byte>): (r: seq<byte>)
    ensures |r| == 13 + |enc| && r[0] == 0
  {
    [0] + DumpU32(w) + DumpU32(h) + Sized(enc)
  }

  /** The bytes of `compress_rgb` for the three plane archives: tag 1, `w`, `h`, then each archive after its length. */
  function RgbBytes(w: u32, h: u32, re: seq<byte>, ge: seq<byte>, be: seq<byte>): (r: seq<byte>)
    ensures |r| == 21 + |re| + |ge| + |be| && r[0] == 1
  {
    [1] + DumpU32(w) + DumpU32(h) + Sized(re) + Sized(ge) + Sized(be)
  }

  /**
   * The reading half of `decompress`. Fewer than 13 bytes panic in both
   * branches (`read_u32` at 1, 5 or 9, or `data[13..]`). A gray frame takes
   * everything from offset 13 and never reads its length field; an RGB frame
   * walks the three length-prefixed archives from `shift = 9`, any read or
   * slice past the end panicking.
   */
  function ParseFrame(data: seq<byte>): (r: Option<Frame>)
    ensures r.Some? && r.value.Rgb? ==> 21 + |r.value.red| + |r.value.green| + |r.value.blue| <= |data|
  {
    if |data| < 13 then None
    else
      var w, h := ReadU32(data, 1), ReadU32(data, 5);
      if data[0] == 0 then Some(Gray(w, h, data[13..]))
      else
        var s1: nat := 13 + ReadU32(data, 9);
        if |data| < s1 + 4 then None
        else
          var s2: nat := s1 + 4 + ReadU32(data, s1);
          if |data| < s2 + 4 then None
          else
            var s3: nat := s2 + 4 + ReadU32(data, s2);
            if |data| < s3 then None
            else Some(Rgb(w, h, data[13..s1], data[s1 + 4..s2], data[s2 + 4..s3]))
  }

  /** `[w, h, rest]` reads back as `w` and `h`. */
  lemma ReadDimensions(tag: byte, w: u32, h: u32, rest: seq<byte>)
    ensures var a := [tag] + DumpU32(w) + DumpU32(h) + rest;
            ReadU32(a, 1) == w && ReadU32(a, 5) == h
  {
    ReadDump([tag], w, DumpU32(h) + rest);
    ReadDump([tag] + DumpU32(w), h, rest);
    assert [tag] + DumpU32(w) + DumpU32(h) + rest == [tag] + DumpU32(w) + (DumpU32(h) + rest);
  }

  /** A gray frame parses back as its dimensions and archive, whatever the archive's length. */
  lemma ParseGray(w: u32, h: u32, enc: seq<byte>)
    ensures ParseFrame(GrayBytes(w, h, enc)) == Some(Gray(w, h, enc))
  {
    ReadDimensions(0, w, h, Sized(enc));
    var a := GrayBytes(w, h, enc);
    assert a[13..] == enc;
  }

  /** A length-prefixed archive shorter than 2^32 reads back whole at its offset. */
  lemma ReadSized(prefix: seq<byte>, enc: seq<byte>, suffix: seq<byte>)
    requires |enc| < U32Limit
    ensures var a := prefix + Sized(enc) + suffix;
            ReadU32(a, |prefix|) == |enc| &&
            a[|prefix| + 4..|prefix| + 4 + |enc|] == enc
  {
    ReadDump(prefix, |enc|, enc + suffix);
    assert prefix + Sized(enc) + suffix == prefix + DumpU32(|enc|) + (enc + suffix);
  }

  /** An RGB frame whose archives are each shorter than 2^32 bytes parses back as its dimensions and archives. */
  lemma ParseRgb(w: u32, h: u32, re: seq<byte>, ge: seq<byte>, be: seq<byte>)
    requires |re| < U32Limit && |ge| < U32Limit && |be| < U32Limit
    ensures ParseFrame(RgbBytes(w, h, re, ge, be)) == Some(Rgb(w, h, re, ge, be))
  {
    var head := [1] + DumpU32(w) + DumpU32(h);
    var a := RgbBytes(w, h, re, ge, be);
    ReadDimensions(1, w, h, Sized(re) + Sized(ge) + Sized(be));
    assert a == head + Sized(re) + (Sized(ge) + Sized(be));
    ReadSized(head, re, Sized(ge) + Sized(be));
    assert a == head + Sized(re) + Sized(ge) + Sized(be);
    ReadSized(head + Sized(re), ge, Sized(be));
    assert a == (head + Sized(re) + Sized(ge)) + Sized(be) + [];
    ReadSized(head + Sized(re) + Sized(ge), be, []);
  }

  /** The writing half of `compress_gray`, after the channel coder. */
  method WriteGray(w: u32, h: u32, enc: seq<byte>) returns (result: seq<byte>)
    ensures result == GrayBytes(w, h, enc)
  {
    result := [0];
    result := AppendU32(result, w);
    result := AppendU32(result, h);
    result := AppendU32(result, |enc| % U32Limit);
    result := AppendAll(result, enc);
  }

  /** The writing half of `compress_rgb`, after the three channel coders. */
  method WriteRgb(w: u32, h: u32, re: seq<byte>, ge: seq<byte>, be: seq<byte>) returns (result: seq<byte>)
    ensures result == RgbBytes(w, h, re, ge, be)
  {
    result := [1];
    result := AppendU32(result, w);
    result := AppendU32(result, h);
    result := AppendU32(result, |re| % U32Limit);
    result := AppendAll(result, re);
    result := AppendU32(result, |ge| % U32Limit);
    result := AppendAll(result, ge);
    result := AppendU32(result, |be| % U32Limit);
    result := AppendAll(result, be);
  }

  /** The reading half of `decompress`, with its moving `shift`. */
  method ReadFrame(data: seq<byte>) returns (frame: Option<Frame>)
    ensures frame == ParseFrame(data)
  {
    if |data| < 13 {
      // `read_u32` or `data[13..]` is out of bounds
      return None;
    }
    var isGray := data[0] == 0;
    var width := ReadU32(data, 1);
    var height := ReadU32(data, 5);
    if isGray {
      return Some(Gray(width, height, data[13..]));
    }
    var shift: nat := 9;
    var rsize := ReadU32(data, shift);
    shift := shift + 4;
    if |data| < shift + rsize + 4 {
      return None;
    }
    var red := data[shift..shift + rsize];
    shift := shift + rsize;
    var gsize := ReadU32(data, shift);
    shift := shift + 4;
    if |data| < shift + gsize + 4 {
      return None;
    }
    var green := data[shift..shift + gsize];
    shift := shift + gsize;
    var bsize := ReadU32(data, shift);
    shift := shift + 4;
    if |data| < shift + bsize {
      return None;
    }
    var blue := data[shift..shift + bsize];
    return Some(Rgb(width, height, red, green, blue));
  }
}
