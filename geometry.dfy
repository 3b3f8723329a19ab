/**
 * Split geometry of split_png.c: where a row of an 8-bit image is cut into
 * a left and a right half, what bytes each half holds, and the IHDR each
 * half is written with.
 */
module Geometry {
  import opened Png

  /** Width of the left half: floor division by two. */
  function LeftWidth(width: nat): (lw: nat)
    ensures lw + lw <= width <= lw + lw + 1
  {
    width / 2
  }

  /** Width of the right half: the remaining columns, so the odd column goes right. */
  function RightWidth(width: nat): (rw: nat)
    ensures LeftWidth(width) + rw == width
    ensures rw == LeftWidth(width) || rw == LeftWidth(width) + 1
    ensures width % 2 == 0 <==> rw == LeftWidth(width)
  {
    width - LeftWidth(width)
  }

  lemma MulLeq(a: nat, b: nat, c: nat)
    requires a <= b
    ensures a * c <= b * c
  {
  }

  lemma MulAdd(a: nat, b: nat, c: nat)
    ensures (a + b) * c == a * c + b * c
  {
  }

  /** Byte offset of the first right-half byte in an original row. */
  function SplitOffset(width: nat, channels: nat): (off: nat)
    ensures off + RightWidth(width) * channels == width * channels
  {
    MulAdd(LeftWidth(width), RightWidth(width), channels);
    LeftWidth(width) * channels
  }

  /** The bytes of a left-half row: the first LeftWidth(width) pixels of the original row. */
  function LeftPart(row: seq<byte>, width: nat, channels: nat): (r: seq<byte>)
    requires width * channels <= |row|
    ensures |r| == LeftWidth(width) * channels
    ensures forall i :: 0 <= i < |r| ==> r[i] == row[i]
  {
    row[..SplitOffset(width, channels)]
  }

  /** The bytes of a right-half row: the RightWidth(width) pixels that follow the left half. */
  function RightPart(row: seq<byte>, width: nat, channels: nat): (r: seq<byte>)
    requires width * channels <= |row|
    ensures |r| == RightWidth(width) * channels
    ensures forall i :: 0 <= i < |r| ==> r[i] == row[SplitOffset(width, channels) + i]
  {
    row[SplitOffset(width, channels)..width * channels]
  }

  /**
   * When the row holds exactly width * channels bytes, the two halves put
   * back together are the row.
   */
  lemma {:induction false} HalvesRejoin(row: seq<byte>, width: nat, channels: nat)
    requires |row| == width * channels
    ensures LeftPart(row, width, channels) + RightPart(row, width, channels) == row
  {
    var off := SplitOffset(width, channels);
    assert LeftPart(row, width, channels) == row[..off];
    assert RightPart(row, width, channels) == row[off..];
  }

  /** Index of byte b of pixel x in a row of 8-bit pixels of `channels` bytes each. */
  function ByteIndex(x: nat, b: nat, width: nat, channels: nat): (i: nat)
    requires x < width && b < channels
    ensures i < width * channels
  {
    MulLeq(x + 1, width, channels);
    MulAdd(x, 1, channels);
    x * channels + b
  }

  /**
   * Column coverage: every byte of pixel column x lands in the left half at
   * the same column when x < LeftWidth(width), and otherwise in the right
   * half at column x - LeftWidth(width).
   */
  lemma {:induction false} PixelCoverage(row: seq<byte>, width: nat, channels: nat, x: nat, b: nat)
    requires width * channels <= |row|
    requires x < width && b < channels
    ensures x < LeftWidth(width) ==>
              LeftPart(row, width, channels)[ByteIndex(x, b, LeftWidth(width), channels)]
              == row[ByteIndex(x, b, width, channels)]
    ensures x >= LeftWidth(width) ==>
              RightPart(row, width, channels)[ByteIndex(x - LeftWidth(width), b, RightWidth(width), channels)]
              == row[ByteIndex(x, b, width, channels)]
  {
    var lw := LeftWidth(width);
    if x >= lw {
      MulAdd(lw, x - lw, channels);
    }
  }

  /** The IHDR written for one half: its own width, everything else from the decoded image. */
  function HalfHeader(halfWidth: nat, f: FinalInfo): (h: Ihdr)
    ensures h.width == halfWidth && h.height == f.height
    ensures h.bitDepth == f.bitDepth && h.colorType == f.colorType
    ensures h.interlace == InterlaceNone && h.compression == CompressionBase && h.filter == FilterBase
  {
    Ihdr(halfWidth, f.height, f.bitDepth, f.colorType, InterlaceNone, CompressionBase, FilterBase)
  }

  /** The left IHDR is acceptable exactly when the image is at least two pixels wide and not too large. */
  function LeftHeader(f: FinalInfo): (h: Ihdr)
    ensures h.width == LeftWidth(f.width)
    ensures DimensionsValid(h) <==> 2 <= f.width <= 2 * MaxDimension + 1 && 0 < f.height <= MaxDimension
  {
    HalfHeader(LeftWidth(f.width), f)
  }

  /** The right IHDR is acceptable exactly when the image is at least one pixel wide and not too large. */
  function RightHeader(f: FinalInfo): (h: Ihdr)
    ensures h.width == RightWidth(f.width)
    ensures DimensionsValid(h) <==> 1 <= f.width <= 2 * MaxDimension && 0 < f.height <= MaxDimension
  {
    HalfHeader(RightWidth(f.width), f)
  }

  /**
   * The two output headers agree with the decoded image on everything but
   * the width, use the fixed interlace/compression/filter methods, and their
   * widths add up to the decoded width.
   */
  lemma HeadersPartitionWidth(f: FinalInfo)
    ensures LeftHeader(f).width + RightHeader(f).width == f.width
    ensures LeftHeader(f).(width := f.width) == RightHeader(f).(width := f.width)
    ensures LeftHeader(f).height == f.height && LeftHeader(f).bitDepth == f.bitDepth
    ensures LeftHeader(f).colorType == f.colorType
    ensures LeftHeader(f).interlace == InterlaceNone && LeftHeader(f).compression == CompressionBase
    ensures LeftHeader(f).filter == FilterBase
  {
  }

  /**
   * A one-pixel-wide image gives a left header of width zero, which
   * section 11.2.2 forbids, while the right header keeps the single column.
   */
  lemma WidthOneLeftHeaderInvalid(f: FinalInfo)
    requires f.width == 1
    ensures LeftHeader(f).width == 0 && !DimensionsValid(LeftHeader(f))
    ensures RightHeader(f).width == 1
    ensures 0 < f.height <= MaxDimension ==> DimensionsValid(RightHeader(f))
  {
  }

  /** A decoded image whose rows are long enough for the split copies. */
  predicate RowsCover(pixels: seq<seq<byte>>, f: FinalInfo)
  {
    forall y :: 0 <= y < |pixels| ==> f.width * f.channels <= |pixels[y]|
  }

  /** The left-half image: one left part per decoded row. */
  function LeftImage(pixels: seq<seq<byte>>, f: FinalInfo): (r: seq<seq<byte>>)
    requires RowsCover(pixels, f)
    ensures |r| == |pixels|
    ensures forall y :: 0 <= y < |pixels| ==>
              r[y] == LeftPart(pixels[y], f.width, f.channels) && |r[y]| == LeftWidth(f.width) * f.channels
  {
    seq(|pixels|, y requires 0 <= y < |pixels| => LeftPart(pixels[y], f.width, f.channels))
  }

  /** The right-half image: one right part per decoded row. */
  function RightImage(pixels: seq<seq<byte>>, f: FinalInfo): (r: seq<seq<byte>>)
    requires RowsCover(pixels, f)
    ensures |r| == |pixels|
    ensures forall y :: 0 <= y < |pixels| ==>
              r[y] == RightPart(pixels[y], f.width, f.channels) && |r[y]| == RightWidth(f.width) * f.channels
  {
    seq(|pixels|, y requires 0 <= y < |pixels| => RightPart(pixels[y], f.width, f.channels))
  }

  /**
   * Both halves have one row per decoded row, of the half's width in bytes,
   * and row y of the left half followed by row y of the right half is row y
   * of the decoded image whenever rows hold exactly width * channels bytes.
   */
  lemma {:induction false} ImageRejoin(pixels: seq<seq<byte>>, f: FinalInfo)
    requires forall y :: 0 <= y < |pixels| ==> |pixels[y]| == f.width * f.channels
    ensures RowsCover(pixels, f)
    ensures |LeftImage(pixels, f)| == |RightImage(pixels, f)| == |pixels|
    ensures forall y :: 0 <= y < |pixels| ==>
              |LeftImage(pixels, f)[y]| == LeftWidth(f.width) * f.channels
              && |RightImage(pixels, f)[y]| == RightWidth(f.width) * f.channels
              && LeftImage(pixels, f)[y] + RightImage(pixels, f)[y] == pixels[y]
  {
    forall y | 0 <= y < |pixels|
      ensures LeftImage(pixels, f)[y] + RightImage(pixels, f)[y] == pixels[y]
    {
      HalvesRejoin(pixels[y], f.width, f.channels);
    }
  }
}
