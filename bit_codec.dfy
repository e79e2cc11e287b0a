/**
 * The bit writer and bit reader of the Rust labs. lab1-rs, lab2, lab3 and
 * lab5 carry textually identical copies of `BitWriter` and `BitReader`; this
 * module models that one implementation.
 *
 * The writer packs bit i of the pending run into bit i of a byte, flushes
 * every eight bits, and `finish` always flushes one more (possibly empty)
 * byte, recording how many high bits of it are padding. The reader unpacks
 * least significant bit first and drops that many high bits from the last
 * byte only.
 */
module BitCodec {
  import opened Common

  // ---------------------------------------------------------------------
  // Specification of the byte layout
  // ---------------------------------------------------------------------

  /** The byte whose bit i is `bits[i]` (the fold in `dump_byte`). */
  function PackByte(bits: seq<Bit>): (r: nat)
    ensures r < Pow2(|bits|)
  {
    if bits == [] then 0 else BitValue(bits[0]) + 2 * PackByte(bits[1..])
  }

  /** Bit i of x: 1 exactly when `x & (1 << i)` is non-zero. */
  function BitAt(x: nat, i: nat): (r: nat)
    ensures r < 2
  {
    if i == 0 then x % 2 else BitAt(x / 2, i - 1)
  }

  /** The low `n` bits of `x`, least significant first. */
  function LowBits(x: nat, n: nat): (r: seq<Bit>)
    ensures |r| == n
  {
    if n == 0 then [] else [BitOf(x % 2)] + LowBits(x / 2, n - 1)
  }

  /** The eight bits of a byte in the order the reader pushes them. */
  function ByteBits(b: byte): (r: seq<Bit>)
    ensures |r| == 8
  {
    LowBits(b, 8)
  }

  /** All bits of a byte sequence, eight per byte. */
  function Unpack(bytes: seq<byte>): (r: seq<Bit>)
    ensures |r| == 8 * |bytes|
  {
    if bytes == [] then [] else ByteBits(bytes[0]) + Unpack(bytes[1..])
  }

  /**
   * What the writer produces for a bit sequence: every group of eight bits
   * becomes a byte, and the final group (between zero and seven bits) is
   * always flushed as one more byte, zero-padded at the top.
   */
  function Pack(bits: seq<Bit>): (r: seq<byte>)
    decreases |bits|
  {
    PackByteBound(if |bits| < 8 then bits else bits[..8]);
    if |bits| < 8 then [PackByte(bits)] else [PackByte(bits[..8])] + Pack(bits[8..])
  }

  /** The padding count `finish` records: `8 - pending % 8`. */
  function PaddingOf(nbits: nat): (r: int)
    ensures 1 <= r <= 8
  {
    8 - nbits % 8
  }

  /** `s` with its last `k` elements removed (`Vec::pop` k times, a no-op once empty). */
  function Trim<T>(s: seq<T>, k: int): (r: seq<T>)
    ensures |r| == Max(0, |s| - Max(k, 0))
  {
    s[..Max(0, |s| - Max(k, 0))]
  }

  /** The bits the reader takes from one byte: all eight, or for the last byte the low `8 - remainder`. */
  function KeptBits(b: byte, last: bool, remainder: int): (r: seq<Bit>)
  {
    if last then Trim(ByteBits(b), remainder) else ByteBits(b)
  }

  /** Every bit the reader yields from `data`, in order. */
  function Kept(data: seq<byte>, remainder: int): (r: seq<Bit>)
    decreases |data|
  {
    if data == [] then []
    else KeptBits(data[0], |data| == 1, remainder) + Kept(data[1..], remainder)
  }

  // ---------------------------------------------------------------------
  // Lemmas about the layout
  // ---------------------------------------------------------------------

  lemma {:induction false} Pow2Monotone(a: nat, b: nat)
    requires a <= b
    ensures Pow2(a) <= Pow2(b)
  {
    if a < b {
      Pow2Monotone(a, b - 1);
    }
  }

  lemma PackByteBound(bits: seq<Bit>)
    requires |bits| <= 8
    ensures PackByte(bits) < 256
  {
    Pow2Monotone(|bits|, 8);
    assert Pow2(8) == 256;
  }

  /** Appending a bit adds it at the next position: the loop in `dump_byte`. */
  lemma {:induction false} PackByteSnoc(a: seq<Bit>, b: Bit)
    ensures PackByte(a + [b]) == PackByte(a) + BitValue(b) * Pow2(|a|)
  {
    if a == [] {
      assert [b][1..] == [];
    } else {
      assert (a + [b])[1..] == a[1..] + [b];
      PackByteSnoc(a[1..], b);
    }
  }

  lemma {:induction false} LowBitsZero(n: nat)
    ensures LowBits(0, n) == Zeros(n)
  {
    if n > 0 {
      LowBitsZero(n - 1);
    }
  }

  /** Unpacking a packed group gives the group back, followed by zero padding. */
  lemma {:induction false} LowBitsPack(bits: seq<Bit>, n: nat)
    requires |bits| <= n
    ensures LowBits(PackByte(bits), n) == bits + Zeros(n - |bits|)
  {
    if n == 0 {
    } else if bits == [] {
      LowBitsZero(n);
    } else {
      var p := PackByte(bits[1..]);
      assert PackByte(bits) % 2 == BitValue(bits[0]);
      assert PackByte(bits) / 2 == p;
      LowBitsPack(bits[1..], n - 1);
      assert BitOf(BitValue(bits[0])) == bits[0];
      assert bits == [bits[0]] + bits[1..];
    }
  }

  /** Packing the low bits of a value that fits gives the value back. */
  lemma {:induction false} PackLowBits(x: nat, n: nat)
    requires x < Pow2(n)
    ensures PackByte(LowBits(x, n)) == x
  {
    if n > 0 {
      PackLowBits(x / 2, n - 1);
      assert LowBits(x, n)[1..] == LowBits(x / 2, n - 1);
      assert BitValue(BitOf(x % 2)) == x % 2;
    }
  }

  /** The bits of a byte agree with the masks `byte & (1 << i)` the reader tests. */
  lemma {:induction false} LowBitsAt(x: nat, n: nat, i: nat)
    requires i < n
    ensures LowBits(x, n)[i] == BitOf(BitAt(x, i))
  {
    if i > 0 {
      LowBitsAt(x / 2, n - 1, i - 1);
    }
  }

  lemma ByteBitsPack(b: byte)
    ensures PackByte(ByteBits(b)) == b
  {
    assert Pow2(8) == 256;
    PackLowBits(b, 8);
  }

  lemma {:induction false} PackUnpack(bytes: seq<byte>, tail: seq<Bit>)
    requires |tail| < 8
    ensures PackByte(tail) < 256
    ensures Pack(Unpack(bytes) + tail) == bytes + [PackByte(tail) as byte]
  {
    PackByteBound(tail);
    if bytes == [] {
      assert Unpack(bytes) + tail == tail;
    } else {
      var s := Unpack(bytes) + tail;
      assert s == ByteBits(bytes[0]) + (Unpack(bytes[1..]) + tail);
      assert s[..8] == ByteBits(bytes[0]);
      assert s[8..] == Unpack(bytes[1..]) + tail;
      ByteBitsPack(bytes[0]);
      PackUnpack(bytes[1..], tail);
    }
  }

  /** The writer emits one byte per eight bits, plus the final one. */
  lemma {:induction false} PackLength(bits: seq<Bit>)
    ensures |Pack(bits)| == |bits| / 8 + 1
  {
    if |bits| >= 8 {
      PackLength(bits[8..]);
    }
  }

  /**
   * The central property of the codec: reading back what the writer produced,
   * with the padding count it recorded, yields exactly the written bits.
   */
  lemma {:induction false} PackRoundTrip(bits: seq<Bit>)
    ensures Kept(Pack(bits), PaddingOf(|bits|)) == bits
  {
    var pad := PaddingOf(|bits|);
    if |bits| < 8 {
      PackByteBound(bits);
      LowBitsPack(bits, 8);
      OffsetInByte(0, |bits|);
      assert pad == 8 - |bits|;
      assert (bits + Zeros(8 - |bits|))[..|bits|] == bits;
    } else {
      var rest := bits[8..];
      PackByteBound(bits[..8]);
      LowBitsPack(bits[..8], 8);
      assert Zeros(0) == [];
      WholeByteMore(|rest|);
      PackRoundTrip(rest);
      PackLength(rest);
      var p := Pack(bits);
      assert p[1..] == Pack(rest);
      assert |p| >= 2;
      assert Kept(p, pad) == KeptBits(p[0], false, pad) + Kept(p[1..], pad);
      assert KeptBits(p[0], false, pad) == bits[..8];
      assert bits == bits[..8] + rest;
    }
  }

  // ---------------------------------------------------------------------
  // The loops inside `dump_byte` and `read_byte`
  // ---------------------------------------------------------------------

  /** The fold of `dump_byte`: bit i of the run is or-ed into position i. */
  method CollectByte(bits: seq<Bit>) returns (byte: byte)
    requires |bits| <= 8
    ensures byte == PackByte(bits)
  {
    PackByteBound(bits);
    var acc: nat := 0;
    for i := 0 to |bits|
      invariant acc == PackByte(bits[..i])
    {
      // below 2^i nothing is set yet, so or-ing in bit i adds it
      PackByteSnoc(bits[..i], bits[i]);
      assert bits[..i + 1] == bits[..i] + [bits[i]];
      acc := acc + BitValue(bits[i]) * Pow2(i);
    }
    assert bits[..|bits|] == bits;
    byte := acc;
  }

  /** The push loop of `read_byte`: the bit under each mask `1 << i`, for i in 0..8. */
  method SpreadByte(byte: byte) returns (bits: seq<Bit>)
    ensures bits == ByteBits(byte)
  {
    bits := [];
    for i := 0 to 8
      invariant bits == ByteBits(byte)[..i]
    {
      LowBitsAt(byte, 8, i);
      assert ByteBits(byte)[..i + 1] == ByteBits(byte)[..i] + [ByteBits(byte)[i]];
      bits := bits + [BitOf(BitAt(byte, i))];
    }
  }

  /** `remainder` calls of `Vec::pop`, each a no-op on an empty vector. */
  method PopTimes<T>(s: seq<T>, k: nat) returns (t: seq<T>)
    ensures t == Trim(s, k)
  {
    t := s;
    for j := 0 to k
      invariant t == Trim(s, j)
    {
      if |t| > 0 {
        t := t[..|t| - 1];
      }
    }
  }

  // ---------------------------------------------------------------------
  // BitWriter
  // ---------------------------------------------------------------------

  class BitWriter {
    var buffer: seq<Bit>
    var remainder: int
    var result: seq<byte>
    /** Every bit written so far (the logical content of the writer). */
    ghost var written: seq<Bit>

    ghost predicate Valid()
      reads this
    {
      |buffer| < 8 && Unpack(result) + buffer == written
    }

    /** `BitWriter::new` */
    constructor ()
      ensures Valid() && written == [] && buffer == [] && result == [] && remainder == 0
    {
      buffer := [];
      remainder := 0;
      result := [];
      written := [];
    }

    /** Packs the pending bits (bit i at position i) into one byte and clears the buffer. */
    method DumpByte()
      requires |buffer| <= 8
      modifies this
      ensures PackByte(old(buffer)) < 256
      ensures result == old(result) + [PackByte(old(buffer)) as byte]
      ensures buffer == [] && remainder == old(remainder) && written == old(written)
    {
      var byte := CollectByte(buffer);
      result := result + [byte];
      buffer := [];
    }

    /** Appends one bit; a byte is emitted exactly when eight bits are pending. */
    method WriteBit(bit: Bit)
      requires Valid()
      modifies this
      ensures Valid() && written == old(written) + [bit] && remainder == old(remainder)
      ensures |buffer| == (|old(buffer)| + 1) % 8
      ensures |result| == |old(result)| + (if |old(buffer)| == 7 then 1 else 0)
    {
      buffer := buffer + [bit];
      written := written + [bit];
      if |buffer| == 8 {
        ghost var full := buffer;
        DumpByte();
        LowBitsPack(full, 8);
        assert Zeros(0) == [];
        assert ByteBits(result[|result| - 1]) == full;
        assert Unpack(result) == Unpack(old(result)) + full by {
          UnpackAppend(old(result), [result[|result| - 1]]);
          assert result == old(result) + [result[|result| - 1]];
        }
      }
    }

    /** Writes a codeword, one bit at a time. */
    method WriteBits(bits: seq<Bit>)
      requires Valid()
      modifies this
      ensures Valid() && written == old(written) + bits && remainder == old(remainder)
    {
      for i := 0 to |bits|
        invariant Valid() && written == old(written) + bits[..i] && remainder == old(remainder)
      {
        WriteBit(bits[i]);
        assert bits[..i + 1] == bits[..i] + [bits[i]];
      }
      assert bits[..|bits|] == bits;
    }

    /** Always flushes a last byte and records `remainder = 8 - pending`, in 1..=8. */
    method Finish()
      requires Valid()
      modifies this
      ensures result == Pack(written)
      ensures remainder == PaddingOf(|written|)
      ensures buffer == [] && written == old(written)
    {
      ghost var bytes, tail := result, buffer;
      assert |written| == 8 * |bytes| + |tail|;
      OffsetInByte(|bytes|, |tail|);
      PackUnpack(bytes, tail);
      var rem := 8 - |buffer| % 8;
      if rem != 0 {
        DumpByte();
      }
      remainder := rem;
      assert result == bytes + [PackByte(tail) as byte];
    }
  }

  /** A bit count of whole bytes and `b < 8` more leaves `b` pending. */
  lemma OffsetInByte(k: nat, b: nat)
    requires b < 8
    ensures (8 * k + b) % 8 == b && b % 8 == b
  {
  }

  /** Eight more bits leave the padding as it was. */
  lemma WholeByteMore(n: nat)
    ensures PaddingOf(n + 8) == PaddingOf(n)
  {
  }

  /** Reading from position p: the kept bits of byte p, then the rest. */
  lemma KeptStep(data: seq<byte>, p: nat, remainder: int)
    requires p < |data|
    ensures Kept(data[p..], remainder) ==
            KeptBits(data[p], p == |data| - 1, remainder) + Kept(data[p + 1..], remainder)
  {
    assert data[p..][1..] == data[p + 1..];
  }

  /** Refilling an empty reader buffer from byte p keeps the bits that remain to be read. */
  lemma RefillStep(data: seq<byte>, p: nat, remainder: int)
    requires p < |data|
    ensures Reverse(Reverse(Trim([] + ByteBits(data[p]), if p == |data| - 1 then remainder else 0)))
            + Kept(data[p + 1..], remainder) == Kept(data[p..], remainder)
    ensures p < |data| - 1 ==> |Trim([] + ByteBits(data[p]), if p == |data| - 1 then remainder else 0)| == 8
  {
    var last := p == |data| - 1;
    KeptStep(data, p, remainder);
    assert [] + ByteBits(data[p]) == ByteBits(data[p]);
    assert Trim(ByteBits(data[p]), 0) == ByteBits(data[p]);
    ReverseReverse(KeptBits(data[p], last, remainder));
  }

  lemma {:induction false} UnpackAppend(a: seq<byte>, b: seq<byte>)
    ensures Unpack(a + b) == Unpack(a) + Unpack(b)
  {
    if a == [] {
      assert a + b == b;
    } else {
      assert (a + b)[1..] == a[1..] + b;
      UnpackAppend(a[1..], b);
    }
  }

  // ---------------------------------------------------------------------
  // BitReader
  // ---------------------------------------------------------------------

  class BitReader {
    const data: seq<byte>
    /** The padding count of the archive header (a `u8`). */
    const remainder: byte
    /** Pending bits, popped from the end. */
    var buffer: seq<Bit>
    var ptr: nat

    ghost predicate Valid()
      reads this
    {
      ptr <= |data|
    }

    /** How many bits `read_byte` drops from the byte at `p`. */
    function LastPadding(p: nat): int
    {
      if p == |data| - 1 then remainder as int else 0
    }

    /** The bits still to be read, in order. */
    ghost function Remaining(): seq<Bit>
      reads this
      requires Valid()
    {
      Reverse(buffer) + Kept(data[ptr..], remainder)
    }

    /** `BitReader::new` */
    constructor (data: seq<byte>, remainder: byte)
      ensures Valid() && this.data == data && this.remainder == remainder
      ensures buffer == [] && ptr == 0
      ensures Remaining() == Kept(data, remainder)
    {
      this.data := data;
      this.remainder := remainder;
      buffer := [];
      ptr := 0;
      new;
      assert data[0..] == data;
    }

    /**
     * Pushes the eight bits of the next byte (least significant first), pops
     * `remainder` of them if it is the last byte, then reverses the buffer.
     */
    method ReadByte()
      requires Valid()
      modifies this
      ensures Valid()
      ensures old(ptr) == |data| ==> ptr == old(ptr) && buffer == old(buffer)
      ensures old(ptr) < |data| ==>
                ptr == old(ptr) + 1 &&
                buffer == Reverse(Trim(old(buffer) + ByteBits(data[old(ptr)]), LastPadding(old(ptr))))
    {
      if ptr < |data| {
        var bits := SpreadByte(data[ptr]);
        buffer := buffer + bits;
        if ptr == |data| - 1 {
          buffer := PopTimes(buffer, remainder);
        } else {
          assert Trim(buffer, 0) == buffer;
        }
        buffer := Reverse(buffer);
        ptr := ptr + 1;
      }
    }

    /** The first half of `read_bit`: reads a byte when the buffer is empty. */
    method Refill()
      requires Valid()
      modifies this
      ensures Valid() && Remaining() == old(Remaining())
      ensures buffer == [] ==> Remaining() == []
    {
      if |buffer| == 0 {
        ghost var p := ptr;
        if p < |data| {
          RefillStep(data, p, remainder);
        }
        ReadByte();
        if buffer == [] {
          assert data[ptr..] == [];
        }
      }
    }

    /** The next bit in written order, or `None` once every byte is consumed. */
    method ReadBit() returns (r: Option<Bit>)
      requires Valid()
      modifies this
      ensures Valid()
      ensures old(Remaining()) == [] ==> r == None && Remaining() == []
      ensures old(Remaining()) != [] ==>
        r == Some(old(Remaining())[0]) && Remaining() == old(Remaining())[1..]
    {
      Refill();
      if |buffer| == 0 {
        r := None;
      } else {
        PopLast(buffer, Kept(data[ptr..], remainder));
        r := Some(buffer[|buffer| - 1]);
        buffer := buffer[..|buffer| - 1];
      }
    }
  }
}
