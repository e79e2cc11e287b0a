/**
 * The bit writer and readers of the Python coders. The writer (the same in
 * lab2-py and lab4-py, but for `get_buffer`) flushes a byte only when a
 * ninth bit arrives, so its last byte always holds one to eight bits. The
 * lab2-py reader walks the bytes from the end of the payload and never
 * looks at the recorded remainder; the lab4-py reader walks them in order
 * and keeps only the recorded number of bits of the last byte.
 */
module PyBits {
  import opened Common
  import opened BitCodec

  /**
   * The bytes `get_buffer` returns for the bits written: one byte per group
   * of eight, the last group holding the one to eight bits that are left,
   * and no byte at all when nothing was written.
   */
  function PyPack(bits: seq<Bit>): (r: seq<byte>)
    decreases |bits|
  {
    if bits == [] then []
    else if |bits| <= 8 then
      PackByteBound(bits);
      [PackByte(bits)]
    else
      PackByteBound(bits[..8]);
      [PackByte(bits[..8])] + PyPack(bits[8..])
  }

  /** A group of eight bits in front packs to one byte in front. */
  lemma PyPackCons(group: seq<Bit>, rest: seq<Bit>)
    requires |group| == 8
    ensures PackByte(group) < 256
    ensures PyPack(group + rest) == [PackByte(group)] + PyPack(rest)
  {
    PackByteBound(group);
    assert (group + rest)[..8] == group;
    if rest == [] {
      assert group + rest == group;
    } else {
      assert (group + rest)[8..] == rest;
    }
  }

  /** The remainder `get_buffer` returns: `len(run) % 8`, or 8 when nothing was written. */
  function PyRemainder(n: nat): (r: nat)
    ensures r <= 8
  {
    if n == 0 then 8 else n % 8
  }

  /** One byte per started group of eight bits. */
  lemma {:induction false} PyPackLength(bits: seq<Bit>)
    ensures |PyPack(bits)| == (|bits| + 7) / 8
  {
    if |bits| > 8 {
      PyPackLength(bits[8..]);
    }
  }

  /** Whole groups of eight pack independently of what follows them. */
  lemma {:induction false} PyPackAppend(a: seq<Bit>, b: seq<Bit>)
    requires |a| % 8 == 0
    ensures PyPack(a + b) == PyPack(a) + PyPack(b)
    decreases |a|
  {
    if a == [] {
      assert a + b == b;
    } else {
      var g, t := a[..8], a[8..];
      assert a == g + t && a + b == g + (t + b);
      PyPackCons(g, t);
      PyPackCons(g, t + b);
      PyPackAppend(t, b);
    }
  }

  /**
   * The number of bits to drop from the last byte when the remainder `r`
   * counts the bits it holds (0 standing for a full byte): this is how the
   * reader would have to use the remainder for the payload to read back.
   */
  function PyPadding(r: byte): (k: byte)
    ensures k < 8
  {
    if 1 <= r <= 8 then 8 - r else 0
  }

  /** The last byte alone: its low bits are the group, the rest is padding. */
  lemma PyPackLast(bits: seq<Bit>)
    requires 1 <= |bits| <= 8
    ensures Kept(PyPack(bits), PyPadding(PyRemainder(|bits|) as byte)) == bits
  {
    SmallMod(|bits|);
    LastByte(bits, PyPadding(PyRemainder(|bits|) as byte));
  }

  lemma LastByte(bits: seq<Bit>, pad: int)
    requires 1 <= |bits| <= 8 && pad == 8 - |bits|
    ensures Kept(PyPack(bits), pad) == bits
  {
    PackByteBound(bits);
    var b: byte := PackByte(bits);
    assert PyPack(bits) == [b];
    LowBitsPack(bits, 8);
    var bb := ByteBits(b);
    assert bb == bits + Zeros(8 - |bits|);
    assert Trim(bb, pad) == bb[..|bits|] == bits;
    assert Kept([b], pad) == KeptBits(b, true, pad) + Kept([], pad);
  }

  lemma SmallMod(n: nat)
    requires 1 <= n <= 8
    ensures n % 8 == if n == 8 then 0 else n
  {
    if n == 8 {
      assert n % 8 == 0;
    } else {
      assert n % 8 == n;
    }
  }

  /**
   * Reading the bytes in order and dropping `PyPadding` of the remainder
   * high bits from the last one gives back exactly the bits written.
   */
  lemma {:induction false} PyPackRoundTrip(bits: seq<Bit>)
    ensures Kept(PyPack(bits), PyPadding(PyRemainder(|bits|) as byte)) == bits
    decreases |bits|
  {
    if 1 <= |bits| <= 8 {
      PyPackLast(bits);
    } else if |bits| > 8 {
      var g, rest := bits[..8], bits[8..];
      assert bits == g + rest;
      PyPackCons(g, rest);
      LowBitsPack(g, 8);
      assert Zeros(0) == [];
      assert PyRemainder(|rest|) == PyRemainder(|bits|);
      PyPackRoundTrip(rest);
      var p := PyPack(bits);
      assert p[1..] == PyPack(rest) && p[0] == PackByte(g);
      assert |PyPack(rest)| >= 1;
    }
  }

  /** The loop of `_get_byte`: bit i of the run or-ed into position i. */
  method GetByte(run: seq<Bit>) returns (byte: byte)
    requires |run| <= 8
    ensures byte == PackByte(run)
  {
    byte := CollectByte(run);
  }

  class PyBitWriter {
    var buffer: seq<byte>
    var run: seq<Bit>
    /** Every bit written so far. */
    ghost var written: seq<Bit>
    /** The bits already flushed into `buffer`. */
    ghost var flushed: seq<Bit>

    /**
     * Everything written is the flushed whole bytes, packed into `buffer`,
     * followed by the run, which holds at most eight bits and is empty only
     * before the first write.
     */
    ghost predicate Valid()
      reads this
    {
      written == flushed + run && |flushed| % 8 == 0 && buffer == PyPack(flushed) &&
      |run| <= 8 && (run == [] ==> written == [])
    }

    /** `BitWriter()` */
    constructor ()
      ensures Valid() && written == []
    {
      buffer := [];
      run := [];
      written := [];
      flushed := [];
    }

    /** `write_bit`: a full run of eight is flushed before the new bit is appended. */
    method WriteBit(bit: Bit)
      requires Valid()
      modifies this
      ensures Valid() && written == old(written) + [bit]
    {
      if |run| == 8 {
        var byte := GetByte(run);
        PyPackAppend(flushed, run);
        assert PyPack(run) == [byte];
        buffer := buffer + [byte];
        flushed := flushed + run;
        run := [];
      }
      run := run + [bit];
      written := written + [bit];
    }

    /** `write_bits` */
    method WriteBits(bits: seq<Bit>)
      requires Valid()
      modifies this
      ensures Valid() && written == old(written) + bits
    {
      for i := 0 to |bits|
        invariant Valid() && written == old(written) + bits[..i]
      {
        WriteBit(bits[i]);
        assert bits[..i + 1] == bits[..i] + [bits[i]];
      }
      assert bits[..|bits|] == bits;
    }

    /** `get_buffer`: the flushed bytes, the pending run as one more byte, and the remainder. */
    method GetBuffer() returns (bytes: seq<byte>, r: nat)
      requires Valid()
      ensures bytes == PyPack(written)
      ensures r == PyRemainder(|written|)
    {
      if |run| > 0 {
        var byte := GetByte(run);
        PyPackAppend(flushed, run);
        assert PyPack(run) == [byte];
        ModEight(|flushed|, |run|);
        r := |run| % 8;
        bytes := buffer + [byte];
      } else {
        r := 8;
        bytes := buffer;
      }
    }

    /** `get_buffer` of lab4-py: the same bytes, with the length of the pending run as remainder. */
    method GetRunBuffer() returns (bytes: seq<byte>, r: nat)
      requires Valid()
      ensures bytes == PyPack(written)
      ensures r == RunLength(|written|)
    {
      if |run| > 0 {
        var byte := GetByte(run);
        PyPackAppend(flushed, run);
        assert PyPack(run) == [byte];
        ModEight(|flushed|, |run|);
        SmallMod(|run|);
        r := |run|;
        bytes := buffer + [byte];
      } else {
        r := 8;
        bytes := buffer;
      }
    }
  }

  /** The number of bits in the last byte lab4-py's `get_buffer` reports: 1 to 8, and 8 when nothing was written. */
  function RunLength(n: nat): (r: nat)
    ensures 1 <= r <= 8
  {
    if n % 8 == 0 then 8 else n % 8
  }

  /**
   * Reading the bytes in order and keeping only `RunLength` bits of the
   * last one gives back exactly the bits written.
   */
  lemma RunLengthRoundTrip(bits: seq<Bit>)
    ensures Kept(PyPack(bits), 8 - RunLength(|bits|)) == bits
  {
    PyPackRoundTrip(bits);
    assert PyPadding(PyRemainder(|bits|) as byte) as int == 8 - RunLength(|bits|);
  }

  lemma ModEight(a: nat, b: nat)
    requires a % 8 == 0
    ensures (a + b) % 8 == b % 8
  {
  }

  // ---------------------------------------------------------------------
  // The reader as written
  // ---------------------------------------------------------------------

  /** A value below `2^k` other than zero needs at least one bit. */
  lemma LowBitsStep(x: nat, k: nat)
    requires 0 < x < Pow2(k)
    ensures k >= 1 && x / 2 < Pow2(k - 1)
    ensures LowBits(x, k) == [BitOf(x % 2)] + LowBits(x / 2, k - 1)
  {
  }

  /**
   * The two loops of `_next_byte` for one byte: halving while it is
   * non-zero collects its bits, least significant first; zeros then pad
   * the run to eight bits (the length the loop compares against is always
   * 8, because it tests the length of the whole payload, which is non-empty
   * whenever a byte is read).
   */
  method ByteRun(byte: byte, dataLength: nat, r: int) returns (run: seq<Bit>)
    requires dataLength != 0
    ensures run == ByteBits(byte)
  {
    run := SetBits(byte);
    var target := if dataLength != 0 then 8 else r;
    while |run| != target
      invariant |run| <= 8 && run + Zeros(8 - |run|) == ByteBits(byte)
      decreases 8 - |run|
    {
      assert Zeros(8 - |run|) == [Zero] + Zeros(8 - |run| - 1);
      run := run + [Zero];
    }
    assert Zeros(0) == [];
  }

  /** The halving loop: the bits of the byte up to its highest set bit. */
  method SetBits(byte: byte) returns (run: seq<Bit>)
    ensures |run| <= 8 && run + Zeros(8 - |run|) == ByteBits(byte)
  {
    assert Pow2(8) == 256;
    run := [];
    var x: nat := byte;
    while x != 0
      invariant |run| <= 8 && x < Pow2(8 - |run|)
      invariant run + LowBits(x, 8 - |run|) == ByteBits(byte)
      decreases x
    {
      LowBitsStep(x, 8 - |run|);
      assert run + LowBits(x, 8 - |run|) == (run + [BitOf(x % 2)]) + LowBits(x / 2, 8 - |run| - 1);
      run := run + [BitOf(x % 2)];
      x := x / 2;
    }
    LowBitsZero(8 - |run|);
  }

  class PyBitReader {
    /** `data[::-1]`: the payload, last byte first. */
    const data: seq<byte>
    /** The remainder from the header; the reader keeps it and never uses it. */
    const r: int
    /** Pending bits, popped from the end. */
    var buffer: seq<Bit>
    var ptr: nat

    ghost predicate Valid()
      reads this
    {
      ptr <= |data|
    }

    /** The bits still to be read, in order. */
    ghost function Remaining(): seq<Bit>
      reads this
      requires Valid()
    {
      Reverse(buffer) + Unpack(data[ptr..])
    }

    /** `BitReader(data, r)`: everything it will yield is the payload's bits, last byte first. */
    constructor (payload: seq<byte>, r: int)
      ensures Valid() && Remaining() == Unpack(Reverse(payload))
    {
      data := Reverse(payload);
      this.r := r;
      buffer := [];
      ptr := 0;
      new;
      assert data[0..] == data;
    }

    /** `_next_byte`: appends the reversed bit run of the next byte, if there is one. */
    method NextByte() returns (ok: bool)
      requires Valid() && buffer == []
      modifies this
      ensures Valid() && Remaining() == old(Remaining())
      ensures ok <==> old(ptr) < |data|
      ensures ok ==> buffer != []
    {
      if ptr < |data| {
        var byte := data[ptr];
        ptr := ptr + 1;
        var run := ByteRun(byte, |data|, r);
        buffer := buffer + Reverse(run);
        ReverseReverse(run);
        assert [] + Reverse(run) == Reverse(run);
        assert data[ptr - 1..] == [byte] + data[ptr..];
        return true;
      }
      return false;
    }

    /** `read_bit`: the next bit, or `None` once the payload is used up. */
    method ReadBit() returns (bit: Option<Bit>)
      requires Valid()
      modifies this
      ensures Valid()
      ensures old(Remaining()) == [] ==> bit == None && Remaining() == []
      ensures old(Remaining()) != [] ==>
        bit == Some(old(Remaining())[0]) && Remaining() == old(Remaining())[1..]
    {
      if |buffer| == 0 {
        var ok := NextByte();
        if !ok {
          assert data[ptr..] == [];
          return None;
        }
      }
      PopLast(buffer, Unpack(data[ptr..]));
      bit := Some(buffer[|buffer| - 1]);
      buffer := buffer[..|buffer| - 1];
    }
  }

  // ---------------------------------------------------------------------
  // The reader of lab4-py
  // ---------------------------------------------------------------------

  /** The two loops of lab4-py's `_next_byte` for one byte: halving, then padding to eight. */
  method FullRun(byte: byte) returns (run: seq<Bit>)
    ensures run == ByteBits(byte)
  {
    run := SetBits(byte);
    while |run| != 8
      invariant |run| <= 8 && run + Zeros(8 - |run|) == ByteBits(byte)
      decreases 8 - |run|
    {
      assert Zeros(8 - |run|) == [Zero] + Zeros(8 - |run| - 1);
      run := run + [Zero];
    }
    assert Zeros(0) == [];
  }

  class TrimBitReader {
    const data: seq<byte>
    /** How many bits of the last byte belong to the payload. */
    const r: byte
    /** Pending bits, popped from the end. */
    var buffer: seq<Bit>
    var ptr: nat

    ghost predicate Valid()
      reads this
    {
      ptr <= |data|
    }

    /** The bits still to be read, in order: `run[:r]` drops `8 - r` bits from the last byte. */
    ghost function Remaining(): seq<Bit>
      reads this
      requires Valid()
    {
      Reverse(buffer) + Kept(data[ptr..], 8 - r)
    }

    /** `BitReader(data, r)` */
    constructor (data: seq<byte>, r: byte)
      ensures Valid() && Remaining() == Kept(data, 8 - r)
    {
      this.data := data;
      this.r := r;
      buffer := [];
      ptr := 0;
      new;
      assert data[0..] == data;
    }

    /** `_next_byte`: the bits of the next byte, the last one cut to its first `r`; false when none are left. */
    method NextByte() returns (ok: bool)
      requires Valid() && buffer == []
      modifies this
      ensures Valid() && Remaining() == old(Remaining())
      ensures ok ==> buffer != []
      ensures !ok ==> Remaining() == []
    {
      if ptr < |data| {
        var byte := data[ptr];
        var run := FullRun(byte);
        if ptr == |data| - 1 {
          run := run[..Min(r, 8)];
        }
        assert run == KeptBits(byte, ptr == |data| - 1, 8 - r);
        KeptStep(data, ptr, 8 - r);
        buffer := buffer + Reverse(run);
        ReverseReverse(run);
        assert [] + Reverse(run) == Reverse(run);
        ptr := ptr + 1;
        if |run| == 0 {
          assert ptr == |data| && data[ptr..] == [];
        }
        return |run| != 0;
      }
      assert data[ptr..] == [];
      return false;
    }

    /** `read_bit`: the next bit, or `None` once the payload is used up. */
    method ReadBit() returns (bit: Option<Bit>)
      requires Valid()
      modifies this
      ensures Valid()
      ensures old(Remaining()) == [] ==> bit == None && Remaining() == []
      ensures old(Remaining()) != [] ==>
        bit == Some(old(Remaining())[0]) && Remaining() == old(Remaining())[1..]
    {
      if |buffer| == 0 {
        var ok := NextByte();
        if !ok {
          return None;
        }
      }
      PopLast(buffer, Kept(data[ptr..], 8 - r));
      bit := Some(buffer[|buffer| - 1]);
      buffer := buffer[..|buffer| - 1];
    }
  }

}
