/**
 * lab11/src/lzw.rs: the image front end around its channel coder.
 *
 * `lzw_encode`, `lzw_compress` and `lzw_decompress` are lab8's
 * `lz78_encode`, `compress` and `decompress` under other names, line for
 * line, so the channel coder is module Lz78. What lab11 adds is the frame of
 * module Container: a gray image is one archive, an RGB image three, one per
 * colour plane.
 */
module Lzw {
  import opened Common
  import opened Container
  import Lz78

  /** `decompress` on the archive of one plane; a panic of `lzw_decompress` is `None`. */
  function Channel(archive: seq<byte>): Option<seq<byte>>
  {
    Lz78.DecompressSpec(archive)
  }

  /** The bytes `compress_gray` writes for `data` with dimensions `(w, h)`. */
  function GraySpec(data: seq<byte>, w: u32, h: u32): seq<byte>
  {
    GrayBytes(w, h, Lz78.CompressSpec(data))
  }

  /** The bytes `compress_rgb` writes: each plane of `split_data` compressed on its own. */
  function RgbSpec(data: seq<byte>, w: u32, h: u32): seq<byte>
  {
    var p := SplitData(data);
    RgbBytes(w, h, Lz78.CompressSpec(p.0), Lz78.CompressSpec(p.1), Lz78.CompressSpec(p.2))
  }

  /** `decompress`: the pixels and the dimensions of a frame, or `None` where it panics. */
  function DecompressSpec(data: seq<byte>): (r: Option<(seq<byte>, u32, u32)>)
    ensures r.Some? ==> ParseFrame(data).Some? && r.value.1 == ParseFrame(data).value.width && r.value.2 == ParseFrame(data).value.height
  {
    match ParseFrame(data)
    case None => None
    case Some(Gray(w, h, archive)) =>
      (match Channel(archive)
       case None => None
       case Some(pixels) => Some((pixels, w, h)))
    case Some(Rgb(w, h, ra, ga, ba)) =>
      match (Channel(ra), Channel(ga), Channel(ba))
      case (Some(r), Some(g), Some(b)) =>
        (match Interleave(r, g, b)
         case None => None
         case Some(pixels) => Some((pixels, w, h)))
      case _ => None
  }

  /** A gray frame decompresses to the image and the dimensions written, for every image. */
  lemma GrayRoundTrip(data: seq<byte>, w: u32, h: u32)
    ensures DecompressSpec(GraySpec(data, w, h)) == Some((data, w, h))
  {
    ParseGray(w, h, Lz78.CompressSpec(data));
    Lz78.RoundTrip(data);
  }

  /** An RGB frame decompresses to the whole pixels of the image and the dimensions written, while each plane archive stays under 2^32 bytes. */
  lemma RgbRoundTrip(data: seq<byte>, w: u32, h: u32)
    requires |data| < U32Limit
    ensures DecompressSpec(RgbSpec(data, w, h)) == Some((data[..3 * (|data| / 3)], w, h))
  {
    var p := SplitData(data);
    Lz78.CompressLength(p.0);
    Lz78.CompressLength(p.1);
    Lz78.CompressLength(p.2);
    ParseRgb(w, h, Lz78.CompressSpec(p.0), Lz78.CompressSpec(p.1), Lz78.CompressSpec(p.2));
    Lz78.RoundTrip(p.0);
    Lz78.RoundTrip(p.1);
    Lz78.RoundTrip(p.2);
    SplitRoundTrip(data);
  }

  /** `compress_gray` */
  method CompressGray(data: seq<byte>, w: u32, h: u32) returns (result: seq<byte>)
    ensures result == GraySpec(data, w, h)
    ensures DecompressSpec(result) == Some((data, w, h))
  {
    var enc := Lz78.Compress(data);
    result := WriteGray(w, h, enc);
    GrayRoundTrip(data, w, h);
  }

  /** `compress_rgb` */
  method CompressRgb(data: seq<byte>, w: u32, h: u32) returns (result: seq<byte>)
    ensures result == RgbSpec(data, w, h)
    ensures |data| < U32Limit ==> DecompressSpec(result) == Some((data[..3 * (|data| / 3)], w, h))
  {
    var r, g, b := SplitChannels(data);
    var rEnc := Lz78.Compress(r);
    var gEnc := Lz78.Compress(g);
    var bEnc := Lz78.Compress(b);
    result := WriteRgb(w, h, rEnc, gEnc, bEnc);
    if |data| < U32Limit {
      RgbRoundTrip(data, w, h);
    }
  }

  /** `decompress` */
  method Decompress(data: seq<byte>) returns (result: Option<(seq<byte>, u32, u32)>)
    ensures result == DecompressSpec(data)
  {
    var frame := ReadFrame(data);
    if frame.None? {
      return None;
    }
    match frame.value
    case Gray(w, h, archive) =>
      var decoded := Lz78.Decompress(archive);
      if decoded.None? {
        return None;
      }
      result := Some((decoded.value, w, h));
    case Rgb(w, h, ra, ga, ba) =>
      var rDecode := Lz78.Decompress(ra);
      var gDecode := Lz78.Decompress(ga);
      var bDecode := Lz78.Decompress(ba);
      if rDecode.None? || gDecode.None? || bDecode.None? {
        return None;
      }
      var pixels := InterleaveChannels(rDecode.value, gDecode.value, bDecode.value);
      if pixels.None? {
        return None;
      }
      result := Some((pixels.value, w, h));
  }
}
