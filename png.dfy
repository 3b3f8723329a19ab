/**
 * The parts of the PNG format that the split utility relies on: the file
 * signature (section 5.2 of the PNG specification), the IHDR colour-type
 * codes and dimension rules (section 11.2.2), and the normalisation policy
 * that the utility asks the decoder to apply before it splits an image.
 */
module Png {

  newtype byte = x: int | 0 <= x < 256

  /** The eight bytes every PNG datastream starts with (section 5.2). */
  const Signature: seq<byte> := [137, 80, 78, 71, 13, 10, 26, 10]
  const SignatureLength: nat := 8

  // Colour-type codes of section 11.2.2.
  const Gray: nat := 0
  const Rgb: nat := 2
  const Palette: nat := 3
  const GrayAlpha: nat := 4
  const Rgba: nat := 6

  // The only interlace, compression and filter methods the utility writes.
  const InterlaceNone: nat := 0
  const CompressionBase: nat := 0
  const FilterBase: nat := 0

  // Largest value of a PNG four-byte unsigned integer (section 7.1).
  const MaxDimension: nat := 0x7FFF_FFFF

  /** Outcome of reading the first eight bytes of the input and comparing them. */
  datatype SignatureCheck = SignatureOk | SignatureTooShort | SignatureMismatch

  /**
   * The signature gate of split_png.c: fewer than eight bytes is one failure,
   * eight bytes that differ from the signature is another.
   */
  function CheckSignature(input: seq<byte>): (r: SignatureCheck)
    ensures r == SignatureTooShort <==> |input| < SignatureLength
    ensures r == SignatureOk <==>
              |input| >= SignatureLength && forall i :: 0 <= i < SignatureLength ==> input[i] == Signature[i]
  {
    if |input| < SignatureLength then SignatureTooShort
    else if input[..SignatureLength] == Signature then SignatureOk
    else SignatureMismatch
  }

  /** Header facts png_read_info makes available before any transform. */
  datatype SourceInfo = SourceInfo(width: nat, height: nat, bitDepth: nat, colorType: nat, hasTrns: bool)

  /** Header facts after png_read_update_info has applied the requested transforms. */
  datatype FinalInfo = FinalInfo(width: nat, height: nat, bitDepth: nat, colorType: nat, channels: nat, rowBytes: nat)

  /** The transforms the utility may request from the decoder. */
  datatype Transform = ExpandPalette | TrnsToAlpha | Strip16 | GrayToRgb

  /** Position of each transform in the order the utility issues requests. */
  function Rank(t: Transform): nat
  {
    match t
    case ExpandPalette => 0
    case TrnsToAlpha => 1
    case Strip16 => 2
    case GrayToRgb => 3
  }

  /**
   * The transform requests issued for a source image, in the order they are
   * issued: each one exactly when its condition holds, and never out of order.
   */
  function TransformsFor(src: SourceInfo): (r: seq<Transform>)
    ensures ExpandPalette in r <==> src.colorType == Palette
    ensures TrnsToAlpha in r <==> src.hasTrns
    ensures Strip16 in r <==> src.bitDepth == 16
    ensures GrayToRgb in r <==> src.colorType == Gray || src.colorType == GrayAlpha
    ensures forall i, j :: 0 <= i < j < |r| ==> Rank(r[i]) < Rank(r[j])
  {
    (if src.colorType == Palette then [ExpandPalette] else [])
    + (if src.hasTrns then [TrnsToAlpha] else [])
    + (if src.bitDepth == 16 then [Strip16] else [])
    + (if src.colorType == Gray || src.colorType == GrayAlpha then [GrayToRgb] else [])
  }

  /** The post-transform format the splitter can handle: 8-bit truecolour, with or without alpha. */
  predicate SupportedFinal(bitDepth: nat, colorType: nat): (ok: bool)
    ensures ok ==> DepthAllowed(colorType, bitDepth) && Samples(colorType) in {3, 4}
    ensures ok ==> colorType != Palette && colorType != Gray && colorType != GrayAlpha
  {
    bitDepth == 8 && (colorType == Rgb || colorType == Rgba)
  }

  /** Samples per pixel of each colour type (Table 11.1). */
  function Samples(colorType: nat): nat
  {
    if colorType == Rgb then 3
    else if colorType == Rgba then 4
    else if colorType == GrayAlpha then 2
    else 1
  }

  /** Only the depths of Table 11.1 that a colour type allows. */
  predicate DepthAllowed(colorType: nat, bitDepth: nat)
  {
    if colorType == Gray then bitDepth in {1, 2, 4, 8, 16}
    else if colorType == Palette then bitDepth in {1, 2, 4, 8}
    else if colorType == Rgb || colorType == GrayAlpha || colorType == Rgba then bitDepth in {8, 16}
    else false
  }

  /**
   * The accepted final formats are exactly the 8-bit colour types with a
   * colour bit and no palette bit: they are legal PNG combinations with three
   * or four one-byte samples per pixel.
   */
  lemma SupportedFinalIsEightBitTruecolour(bitDepth: nat, colorType: nat)
    ensures SupportedFinal(bitDepth, colorType) <==>
              bitDepth == 8 && DepthAllowed(colorType, bitDepth) && Samples(colorType) >= 3
    ensures SupportedFinal(bitDepth, colorType) ==> Samples(colorType) * bitDepth / 8 in {3, 4}
  {
  }

  /** An IHDR chunk as png_set_IHDR receives it. */
  datatype Ihdr = Ihdr(width: nat, height: nat, bitDepth: nat, colorType: nat,
                       interlace: nat, compression: nat, filter: nat)

  /** Section 11.2.2: width and height are non-zero four-byte unsigned integers. */
  predicate DimensionsValid(h: Ihdr)
  {
    0 < h.width <= MaxDimension && 0 < h.height <= MaxDimension
  }
}
