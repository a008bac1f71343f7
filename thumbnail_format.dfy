/**
 * The X1TH preview thumbnail: a 12-byte header (`X1TH`, then version, width, height and channel count as
 * little-endian 16-bit fields) followed by `width * height` RGBA pixels, top row first. The native side writes
 * it; the activity decodes it into opaque ARGB pixels with the rows flipped top to bottom.
 */
module ThumbnailFormat {
  import opened Wrappers
  import opened CBytes
  import opened IndexArith

  const HeaderSize := 12
  /** The magic bytes `X`, `1`, `T`, `H`. */
  const Magic: seq<byte> := ['X' as byte, '1' as byte, 'T' as byte, 'H' as byte]
  const FormatVersion := 1
  const RgbaChannels := 4
  /** Kotlin's `Int.MAX_VALUE`. */
  const IntMax := 0x7FFF_FFFF

  /** An `ARGB_8888` pixel: the bits of the Kotlin `Int`, read as an unsigned number. */
  type Argb = p: int | 0 <= p < 0x1_0000_0000

  /** A decoded thumbnail; `pixels` is row-major, top row first. */
  datatype Image = Image(width: nat, height: nat, pixels: seq<Argb>)

  /** `(0xFF shl 24) or (r shl 16) or (g shl 8) or b`; the four fields occupy disjoint bits, so `or` adds them. */
  function OpaquePixel(r: byte, g: byte, b: byte): Argb {
    0xFF00_0000 + r * 0x1_0000 + g * 0x100 + b
  }

  /** A packed pixel is fully opaque and gives back its three colour channels. */
  lemma OpaquePixelChannels(r: byte, g: byte, b: byte)
    ensures OpaquePixel(r, g, b) / 0x100_0000 == 0xFF
    ensures (OpaquePixel(r, g, b) / 0x1_0000) % 0x100 == r
    ensures (OpaquePixel(r, g, b) / 0x100) % 0x100 == g
    ensures OpaquePixel(r, g, b) % 0x100 == b
  {
    RowMajorDivMod(0xFF, r * 0x1_0000 + g * 0x100 + b, 0x100_0000);
    RowMajorDivMod(0xFF00 + r, g * 0x100 + b, 0x1_0000);
    RowMajorDivMod(0xFF_0000 + r * 0x100 + g, b, 0x100);
    RowMajorDivMod(0xFF, r, 0x100);
    RowMajorDivMod(0xFF00 + r, g, 0x100);
  }

  function Version(bytes: seq<byte>): nat requires |bytes| >= HeaderSize { ReadLe16(bytes, 4) }
  function Width(bytes: seq<byte>): nat requires |bytes| >= HeaderSize { ReadLe16(bytes, 6) }
  function Height(bytes: seq<byte>): nat requires |bytes| >= HeaderSize { ReadLe16(bytes, 8) }
  function Channels(bytes: seq<byte>): nat requires |bytes| >= HeaderSize { ReadLe16(bytes, 10) }

  /** Every check `decodeSnapshotThumbnail` makes before it reads a pixel. */
  predicate HeaderAccepted(bytes: seq<byte>) {
    && |bytes| >= HeaderSize
    && bytes[..4] == Magic
    && Version(bytes) == FormatVersion
    && Channels(bytes) == RgbaChannels
    && Width(bytes) > 0
    && Height(bytes) > 0
    && Width(bytes) * Height(bytes) * RgbaChannels <= IntMax
    && |bytes| >= HeaderSize + Width(bytes) * Height(bytes) * RgbaChannels
  }

  /** Where source pixel (x, y) starts in the file: after the header, four bytes per pixel, row-major. */
  function SourceOffset(w: nat, h: nat, y: nat, x: nat): (offset: nat)
    requires y < h && x < w
    ensures HeaderSize <= offset && offset + RgbaChannels <= HeaderSize + w * h * RgbaChannels
  {
    RowMajorBound(y, x, w, h);
    HeaderSize + RgbaChannels * (y * w + x)
  }

  /** Where source row `y`, column `x` lands in the decoded image: row `h - 1 - y`. */
  function DestIndex(w: nat, h: nat, y: nat, x: nat): (index: nat)
    requires y < h && x < w
    ensures index < w * h
  {
    RowMajorBound(h - 1 - y, x, w, h);
    (h - 1 - y) * w + x
  }

  /** Decoded pixel `i`: row `i / w` of the image comes from stored row `h - 1 - i / w`, alpha replaced by 0xFF. */
  function DecodedPixel(bytes: seq<byte>, w: nat, h: nat, i: nat): Argb
    requires 0 < w && i < w * h && |bytes| >= HeaderSize + w * h * RgbaChannels
  {
    RowOfIndex(i, w, h);
    var offset := SourceOffset(w, h, h - 1 - i / w, i % w);
    OpaquePixel(bytes[offset], bytes[offset + 1], bytes[offset + 2])
  }

  /** The image a thumbnail file decodes to, or `None` when a header check fails. */
  function DecodedThumbnail(bytes: seq<byte>): Option<Image> {
    if !HeaderAccepted(bytes) then None
    else
      var w, h := Width(bytes), Height(bytes);
      Some(Image(w, h, seq(w * h, i requires 0 <= i < w * h => DecodedPixel(bytes, w, h, i))))
  }

  /** Stored row `y` becomes image row `h - 1 - y`, each pixel opaque with the stored R, G, B. */
  lemma DecodedThumbnailFlipsRows(bytes: seq<byte>)
    requires DecodedThumbnail(bytes).Some?
    ensures var image := DecodedThumbnail(bytes).value;
      && image.width == Width(bytes) && image.height == Height(bytes)
      && |image.pixels| == image.width * image.height
      && forall y, x :: 0 <= y < image.height && 0 <= x < image.width ==>
           var offset := SourceOffset(image.width, image.height, y, x);
           image.pixels[DestIndex(image.width, image.height, y, x)]
             == OpaquePixel(bytes[offset], bytes[offset + 1], bytes[offset + 2])
  {
    var w, h := Width(bytes), Height(bytes);
    forall y, x | 0 <= y < h && 0 <= x < w
      ensures DecodedPixel(bytes, w, h, DestIndex(w, h, y, x))
        == OpaquePixel(bytes[SourceOffset(w, h, y, x)], bytes[SourceOffset(w, h, y, x) + 1], bytes[SourceOffset(w, h, y, x) + 2])
    {
      DecodedPixelAtDest(bytes, w, h, y, x);
    }
  }

  /** The decoded pixel at the destination of stored pixel (x, y) is that stored pixel, made opaque. */
  lemma DecodedPixelAtDest(bytes: seq<byte>, w: nat, h: nat, y: nat, x: nat)
    requires y < h && x < w && |bytes| >= HeaderSize + w * h * RgbaChannels
    ensures var offset := SourceOffset(w, h, y, x);
      DecodedPixel(bytes, w, h, DestIndex(w, h, y, x)) == OpaquePixel(bytes[offset], bytes[offset + 1], bytes[offset + 2])
  {
    var i := DestIndex(w, h, y, x);
    assert i / w == h - 1 - y && i % w == x by {
      RowMajorDivMod(h - 1 - y, x, w);
    }
  }

  /** One pass of the inner pixel loop: stored row `y`, read from `src` on, written to image row `h - 1 - y`. */
  method DecodeRow(bytes: seq<byte>, w: nat, h: nat, y: nat, src: nat, pixels: array<Argb>) returns (next: nat)
    requires 0 < w && y < h && |bytes| >= HeaderSize + w * h * RgbaChannels
    requires pixels.Length == w * h && src == SourceOffset(w, h, y, 0)
    modifies pixels
    ensures next == src + RgbaChannels * w
    ensures forall x :: 0 <= x < w ==> pixels[DestIndex(w, h, y, x)] == DecodedPixel(bytes, w, h, DestIndex(w, h, y, x))
    ensures forall i :: 0 <= i < pixels.Length && !(DestIndex(w, h, y, 0) <= i < DestIndex(w, h, y, 0) + w) ==>
      pixels[i] == old(pixels[i])
  {
    var dstRow := (h - 1 - y) * w;
    next := src;
    for x := 0 to w
      invariant next == src + RgbaChannels * x
      invariant forall x' :: 0 <= x' < x ==> pixels[DestIndex(w, h, y, x')] == DecodedPixel(bytes, w, h, DestIndex(w, h, y, x'))
      invariant forall i :: 0 <= i < pixels.Length && !(dstRow <= i < dstRow + x) ==> pixels[i] == old(pixels[i])
    {
      assert next == SourceOffset(w, h, y, x);
      assert dstRow + x == DestIndex(w, h, y, x);
      RowMajorDivMod(h - 1 - y, x, w);
      var r := bytes[next];
      var g := bytes[next + 1];
      var b := bytes[next + 2];
      pixels[dstRow + x] := OpaquePixel(r, g, b);
      next := next + RgbaChannels;
    }
  }

  /** The pixel loop of `decodeSnapshotThumbnail`: stored rows in order, each written to its flipped image row. */
  method DecodePixels(bytes: seq<byte>, w: nat, h: nat) returns (decoded: seq<Argb>)
    requires 0 < w && 0 < h && |bytes| >= HeaderSize + w * h * RgbaChannels
    ensures |decoded| == w * h
    ensures forall i :: 0 <= i < w * h ==> decoded[i] == DecodedPixel(bytes, w, h, i)
  {
    var pixels := new Argb[w * h];
    var src := HeaderSize;
    for y := 0 to h
      invariant src == HeaderSize + RgbaChannels * (y * w)
      invariant forall i :: (h - y) * w <= i < h * w ==> pixels[i] == DecodedPixel(bytes, w, h, i)
    {
      assert src == SourceOffset(w, h, y, 0);
      assert DestIndex(w, h, y, 0) + w == (h - y) * w;
      assert (h - (y + 1)) * w == DestIndex(w, h, y, 0);
      src := DecodeRow(bytes, w, h, y, src, pixels);
      assert src == HeaderSize + RgbaChannels * ((y + 1) * w);
      forall i | DestIndex(w, h, y, 0) <= i < DestIndex(w, h, y, 0) + w
        ensures pixels[i] == DecodedPixel(bytes, w, h, i)
      {
        assert i == DestIndex(w, h, y, i - DestIndex(w, h, y, 0));
      }
    }
    decoded := pixels[..];
  }

  /**
   * `decodeSnapshotThumbnail` once the file's bytes are in hand: the header checks in the source's order,
   * then the nested loop that walks the stored rows with a moving `src` cursor and fills an `IntArray`.
   */
  method DecodeThumbnailBytes(bytes: seq<byte>) returns (image: Option<Image>)
    ensures image.None? <==> !HeaderAccepted(bytes)
    ensures image == DecodedThumbnail(bytes)
    ensures image.Some? ==>
      && image.value.width == Width(bytes) && image.value.height == Height(bytes)
      && |image.value.pixels| == image.value.width * image.value.height
      && forall y, x :: 0 <= y < image.value.height && 0 <= x < image.value.width ==>
           var offset := SourceOffset(image.value.width, image.value.height, y, x);
           image.value.pixels[DestIndex(image.value.width, image.value.height, y, x)]
             == OpaquePixel(bytes[offset], bytes[offset + 1], bytes[offset + 2])
  {
    if |bytes| < HeaderSize {
      return None;
    }
    if bytes[0] != 'X' as byte || bytes[1] != '1' as byte || bytes[2] != 'T' as byte || bytes[3] != 'H' as byte {
      assert bytes[..4] != Magic by { assert bytes[..4][0] == bytes[0] && bytes[..4][1] == bytes[1]; }
      return None;
    }
    assert bytes[..4] == Magic;
    var version := ReadLe16(bytes, 4);
    var width := ReadLe16(bytes, 6);
    var height := ReadLe16(bytes, 8);
    var channels := ReadLe16(bytes, 10);
    if version != FormatVersion || channels != RgbaChannels || width <= 0 || height <= 0 {
      return None;
    }
    var pixelBytesLong := width * height * channels;
    if pixelBytesLong <= 0 || pixelBytesLong > IntMax {
      return None;
    }
    var pixelBytes := pixelBytesLong;
    if |bytes| < HeaderSize + pixelBytes {
      return None;
    }
    assert HeaderAccepted(bytes);

    var pixels := DecodePixels(bytes, width, height);
    assert pixels == seq(width * height, i requires 0 <= i < width * height => DecodedPixel(bytes, width, height, i));
    image := Some(Image(width, height, pixels));
    DecodedThumbnailFlipsRows(bytes);
  }

  /**
   * `SnapshotPreviewHeader` as it lies in memory on a little-endian host: `char magic[4]` and four
   * `uint16_t` fields, twelve bytes with no padding.
   */
  function PreviewHeader(width: nat, height: nat): (header: seq<byte>)
    requires width < 0x1_0000 && height < 0x1_0000
    ensures |header| == HeaderSize
  {
    Magic + Le16(FormatVersion) + Le16(width) + Le16(height) + Le16(RgbaChannels)
  }

  /** A thumbnail file: the header, then the RGBA payload. */
  function ThumbnailFile(width: nat, height: nat, payload: seq<byte>): seq<byte>
    requires width < 0x1_0000 && height < 0x1_0000
  {
    PreviewHeader(width, height) + payload
  }

  /** The header reads back the dimensions it was written with. */
  lemma PreviewHeaderFields(width: nat, height: nat, payload: seq<byte>)
    requires width < 0x1_0000 && height < 0x1_0000
    ensures var file := ThumbnailFile(width, height, payload);
      && |file| == HeaderSize + |payload| && file[..4] == Magic
      && Version(file) == FormatVersion && Width(file) == width && Height(file) == height
      && Channels(file) == RgbaChannels && file[HeaderSize..] == payload
  {
    var file := ThumbnailFile(width, height, payload);
    ReadLe16OfLe16(FormatVersion, Magic, Le16(width) + Le16(height) + Le16(RgbaChannels) + payload);
    ReadLe16OfLe16(width, Magic + Le16(FormatVersion), Le16(height) + Le16(RgbaChannels) + payload);
    ReadLe16OfLe16(height, Magic + Le16(FormatVersion) + Le16(width), Le16(RgbaChannels) + payload);
    ReadLe16OfLe16(RgbaChannels, Magic + Le16(FormatVersion) + Le16(width) + Le16(height), payload);
    assert file == Magic + Le16(FormatVersion) + (Le16(width) + Le16(height) + Le16(RgbaChannels) + payload);
    assert file == Magic + Le16(FormatVersion) + Le16(width) + (Le16(height) + Le16(RgbaChannels) + payload);
    assert file == Magic + Le16(FormatVersion) + Le16(width) + Le16(height) + (Le16(RgbaChannels) + payload);
  }

  /**
   * Encoding a `width` x `height` RGBA payload and decoding it gives back an image of that size whose row
   * `height - 1 - y` holds payload row `y`, every pixel opaque with the payload's R, G, B.
   */
  lemma ThumbnailRoundTrip(width: nat, height: nat, payload: seq<byte>)
    requires 0 < width < 0x1_0000 && 0 < height < 0x1_0000
    requires width * height * RgbaChannels <= IntMax
    requires |payload| == width * height * RgbaChannels
    ensures var decoded := DecodedThumbnail(ThumbnailFile(width, height, payload));
      && decoded.Some? && decoded.value.width == width && decoded.value.height == height
      && |decoded.value.pixels| == width * height
      && forall y, x :: 0 <= y < height && 0 <= x < width ==>
           var offset := SourceOffset(width, height, y, x) - HeaderSize;
           decoded.value.pixels[DestIndex(width, height, y, x)]
             == OpaquePixel(payload[offset], payload[offset + 1], payload[offset + 2])
  {
    var file := ThumbnailFile(width, height, payload);
    PreviewHeaderFields(width, height, payload);
    assert HeaderAccepted(file);
    DecodedThumbnailFlipsRows(file);
  }

  // The length check as the source computes it, in 32-bit `Int` arithmetic.

  /** Kotlin `Int` arithmetic: a mathematical result wrapped to 32-bit two's complement. */
  function WrapInt(v: int): int {
    (v + 0x8000_0000) % 0x1_0000_0000 - 0x8000_0000
  }

  /** `HeaderAccepted`, except that `SNAPSHOT_PREVIEW_HEADER_SIZE + pixelBytes` wraps around as an `Int` sum does. */
  predicate HeaderAcceptedAsWritten(bytes: seq<byte>) {
    && |bytes| >= HeaderSize
    && bytes[..4] == Magic
    && Version(bytes) == FormatVersion
    && Channels(bytes) == RgbaChannels
    && Width(bytes) > 0
    && Height(bytes) > 0
    && Width(bytes) * Height(bytes) * RgbaChannels <= IntMax
    && !(|bytes| < WrapInt(HeaderSize + Width(bytes) * Height(bytes) * RgbaChannels))
  }

  /**
   * A bare 12-byte header declaring 14351 x 37410 pixels (2147483640 payload bytes, within `Int.MAX_VALUE`)
   * passes every check as written, because `12 + pixelBytes` wraps to a negative `Int`; the pixel loop would
   * then read far past the end of the file. The check in unbounded arithmetic rejects it.
   */
  lemma PayloadLengthCheckOverflows()
    ensures var bytes := PreviewHeader(14351, 37410);
      && HeaderAcceptedAsWritten(bytes)
      && !HeaderAccepted(bytes)
      && |bytes| < HeaderSize + Width(bytes) * Height(bytes) * RgbaChannels
  {
    PreviewHeaderFields(14351, 37410, []);
    assert PreviewHeader(14351, 37410) == ThumbnailFile(14351, 37410, []);
  }
}
