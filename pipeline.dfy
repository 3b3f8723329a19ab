/**
 * What one run of split_png.c does, as a function of everything outside the
 * program: whether files open, what the decoder reports, which malloc calls
 * return NULL and where the encoder gives up. The imperative model in
 * module SplitPng is proved to follow these definitions.
 */
module Pipeline {
  import opened Png
  import opened Geometry

  datatype Option<T> = None | Some(value: T)

  const ExitSuccess: int := 0
  const ExitFailure: int := 1

  /** The program name and the three file names: input, left output, right output. */
  const ArgCount: nat := 4

  /** Every malloc call of a run, told apart by what it allocates. */
  datatype Alloc =
    | OrigPointers        // orig_rows
    | OrigRow(y: nat)     // orig_rows[y]
    | LeftPointers        // left_rows
    | RightPointers       // right_rows
    | LeftRow(y: nat)     // left_rows[y]
    | RightRow(y: nat)    // right_rows[y]

  /** The libpng calls whose fatal error lands in the read handler. */
  datatype ReadStep = ReadInfoStep | UpdateInfoStep | ReadImageStep | ReadEndStep

  /** The stages of writing one half, in the order they happen. */
  datatype WriteStep =
    | OpenOutput | CreateWriteStruct | CreateInfoStruct | SetHeader | WriteInfo | WriteImage | WriteEnd

  function StepRank(s: WriteStep): nat
  {
    match s
    case OpenOutput => 0
    case CreateWriteStruct => 1
    case CreateInfoStruct => 2
    case SetHeader => 3
    case WriteInfo => 4
    case WriteImage => 5
    case WriteEnd => 6
  }

  /**
   * The encoder side of one half: the first stage that fails on its own
   * account (fopen, a create call, or libpng signalling an error), if any.
   */
  datatype Encoder = Encoder(failAt: Option<WriteStep>)

  /** Everything a run depends on besides the program itself. */
  datatype Env = Env(
    argCount: nat,
    inputOpens: bool,
    input: seq<byte>,
    readStructOk: bool,
    infoStructOk: bool,
    readInfoOk: bool,
    source: SourceInfo,
    updateOk: bool,
    final: FinalInfo,
    readImageOk: bool,
    pixels: seq<seq<byte>>,
    readEndOk: bool,
    fails: set<Alloc>,
    left: Encoder,
    right: Encoder)

  /**
   * What the decoder guarantees: the decoded image has one row of rowBytes
   * bytes per image row, and for an 8-bit RGB/RGBA result every pixel is
   * one byte per sample of the colour type and a row is at least
   * width * channels bytes long.
   */
  predicate Wf(e: Env)
  {
    && |e.pixels| == e.final.height
    && (SupportedFinal(e.final.bitDepth, e.final.colorType) ==> e.final.channels == Samples(e.final.colorType))
    && (forall y :: 0 <= y < |e.pixels| ==> |e.pixels[y]| == e.final.rowBytes)
    && (SupportedFinal(e.final.bitDepth, e.final.colorType) ==> e.final.width * e.final.channels <= e.final.rowBytes)
  }

  /** Where a run ends. */
  datatype Stop =
    | BadUsage
    | CannotOpenInput
    | InputTooShort
    | BadSignature
    | NoReadStruct
    | NoInfoStruct
    | ReadFailed(readStep: ReadStep)
    | UnsupportedFormat(bitDepth: nat, colorType: nat)
    | NoRowPointers
    | NoOrigRow(y: nat)
    | NoSplitPointers
    | NoSplitRow(y: nat)
    | LeftFailed(leftStep: WriteStep)
    | RightFailed(rightStep: WriteStep)
    | Completed

  /** The first y in [from, height) whose original-row malloc fails, or height. */
  function FirstOrigRowFailure(fails: set<Alloc>, from: nat, height: nat): (r: nat)
    requires from <= height
    ensures from <= r <= height
    ensures forall k :: from <= k < r ==> OrigRow(k) !in fails
    ensures r < height ==> OrigRow(r) in fails
    decreases height - from
  {
    if from == height then height
    else if OrigRow(from) in fails then from
    else FirstOrigRowFailure(fails, from + 1, height)
  }

  /** The first y in [from, height) whose left or right row malloc fails, or height. */
  function FirstSplitRowFailure(fails: set<Alloc>, from: nat, height: nat): (r: nat)
    requires from <= height
    ensures from <= r <= height
    ensures forall k :: from <= k < r ==> LeftRow(k) !in fails && RightRow(k) !in fails
    ensures r < height ==> LeftRow(r) in fails || RightRow(r) in fails
    decreases height - from
  {
    if from == height then height
    else if LeftRow(from) in fails || RightRow(from) in fails then from
    else FirstSplitRowFailure(fails, from + 1, height)
  }

  /** The transform requests a run issues: none unless png_read_info returned. */
  function ExpectedTransforms(e: Env): (r: seq<Transform>)
    ensures HeaderStop(e).None? ==> r == TransformsFor(e.source)
    ensures (HeaderStop(e).Some? && HeaderStop(e).value in
               {BadUsage, CannotOpenInput, InputTooShort, BadSignature, NoReadStruct, NoInfoStruct, ReadFailed(ReadInfoStep)})
              ==> r == []
    ensures r == [] || r == TransformsFor(e.source)
  {
    if e.argCount == ArgCount && e.inputOpens && CheckSignature(e.input) == SignatureOk
       && e.readStructOk && e.infoStructOk && e.readInfoOk
    then TransformsFor(e.source)
    else []
  }

  /** Where reading the header and checking the final format stops, if it does. */
  function HeaderStop(e: Env): (r: Option<Stop>)
    ensures r.None? <==>
              && e.argCount == ArgCount && e.inputOpens && CheckSignature(e.input) == SignatureOk
              && e.readStructOk && e.infoStructOk && e.readInfoOk && e.updateOk
              && SupportedFinal(e.final.bitDepth, e.final.colorType)
    ensures r == Some(BadUsage) <==> e.argCount != ArgCount
    ensures r.Some? ==> !r.value.NoRowPointers? && !r.value.NoOrigRow? && ExitCode(r.value) == ExitFailure
  {
    if e.argCount != ArgCount then Some(BadUsage)
    else if !e.inputOpens then Some(CannotOpenInput)
    else if CheckSignature(e.input) == SignatureTooShort then Some(InputTooShort)
    else if CheckSignature(e.input) == SignatureMismatch then Some(BadSignature)
    else if !e.readStructOk then Some(NoReadStruct)
    else if !e.infoStructOk then Some(NoInfoStruct)
    else if !e.readInfoOk then Some(ReadFailed(ReadInfoStep))
    else if !e.updateOk then Some(ReadFailed(UpdateInfoStep))
    else if !SupportedFinal(e.final.bitDepth, e.final.colorType) then
      Some(UnsupportedFormat(e.final.bitDepth, e.final.colorType))
    else None
  }

  /** Where allocating the original rows stops, if it does. */
  function OrigRowsStop(fails: set<Alloc>, height: nat): (r: Option<Stop>)
    ensures r.None? <==> OrigPointers !in fails && forall k :: 0 <= k < height ==> OrigRow(k) !in fails
    ensures r.Some? && r.value.NoOrigRow? ==>
              && OrigPointers !in fails && r.value.y < height && OrigRow(r.value.y) in fails
              && forall k :: 0 <= k < r.value.y ==> OrigRow(k) !in fails
    ensures r.Some? ==> r.value.NoRowPointers? || r.value.NoOrigRow?
  {
    if OrigPointers in fails then Some(NoRowPointers)
    else if FirstOrigRowFailure(fails, 0, height) < height then
      Some(NoOrigRow(FirstOrigRowFailure(fails, 0, height)))
    else None
  }

  /** Where the decoding part (up to and including png_read_end) stops, if it does. */
  function DecodeStop(e: Env): (r: Option<Stop>)
    ensures r.None? <==>
              && HeaderStop(e).None? && OrigRowsStop(e.fails, e.final.height).None?
              && e.readImageOk && e.readEndOk
    ensures r.Some? ==> ExitCode(r.value) == ExitFailure
  {
    if HeaderStop(e).Some? then HeaderStop(e)
    else if OrigRowsStop(e.fails, e.final.height).Some? then OrigRowsStop(e.fails, e.final.height)
    else if !e.readImageOk then Some(ReadFailed(ReadImageStep))
    else if !e.readEndOk then Some(ReadFailed(ReadEndStep))
    else None
  }

  /** Where the split part stops, if it does. */
  function SplitStop(e: Env): (r: Option<Stop>)
    ensures r.None? <==>
              && LeftPointers !in e.fails && RightPointers !in e.fails
              && forall k :: 0 <= k < e.final.height ==> LeftRow(k) !in e.fails && RightRow(k) !in e.fails
    ensures r.Some? && r.value.NoSplitRow? ==>
              && r.value.y < e.final.height && (LeftRow(r.value.y) in e.fails || RightRow(r.value.y) in e.fails)
              && forall k :: 0 <= k < r.value.y ==> LeftRow(k) !in e.fails && RightRow(k) !in e.fails
    ensures r.Some? ==> r.value == NoSplitPointers || r.value.NoSplitRow?
  {
    if LeftPointers in e.fails || RightPointers in e.fails then Some(NoSplitPointers)
    else if FirstSplitRowFailure(e.fails, 0, e.final.height) < e.final.height then
      Some(NoSplitRow(FirstSplitRowFailure(e.fails, 0, e.final.height)))
    else None
  }

  /**
   * Case split over the encoder oracle, naming every value it can take;
   * a helper for the proof of WriteHalf, not a property of the program.
   */
  lemma EncoderCases(enc: Encoder)
    ensures enc.failAt in {None, Some(OpenOutput), Some(CreateWriteStruct), Some(CreateInfoStruct),
                           Some(SetHeader), Some(WriteInfo), Some(WriteImage), Some(WriteEnd)}
  {
    match enc.failAt
    case None =>
    case Some(step) =>
      match step
      case OpenOutput =>
      case CreateWriteStruct =>
      case CreateInfoStruct =>
      case SetHeader =>
      case WriteInfo =>
      case WriteImage =>
      case WriteEnd =>
  }

  /**
   * The stage at which writing one half fails, if any. libpng rejects an
   * IHDR whose width or height is zero (section 11.2.2) in png_set_IHDR, so
   * such a header fails at SetHeader unless an earlier stage already failed.
   */
  function WriteStop(enc: Encoder, h: Ihdr): (r: Option<WriteStep>)
    ensures r.None? <==> enc.failAt.None? && DimensionsValid(h)
    ensures !DimensionsValid(h) ==> r.Some? && StepRank(r.value) <= StepRank(SetHeader)
    ensures r == Some(OpenOutput) <==> enc.failAt == Some(OpenOutput)
    ensures DimensionsValid(h) ==> r == enc.failAt
  {
    if enc.failAt.Some? && StepRank(enc.failAt.value) < StepRank(SetHeader) then enc.failAt
    else if !DimensionsValid(h) then Some(SetHeader)
    else enc.failAt
  }

  /** What is on disk under an output name after its write stage. */
  datatype FileState = Absent | Incomplete | Complete(header: Ihdr, rows: seq<seq<byte>>)

  function FileAfter(enc: Encoder, h: Ihdr, rows: seq<seq<byte>>): (r: FileState)
    ensures r.Complete? <==> enc.failAt.None? && DimensionsValid(h)
    ensures r.Complete? ==> r.header == h && r.rows == rows
    ensures r == Absent <==> enc.failAt == Some(OpenOutput)
  {
    match WriteStop(enc, h)
    case None => Complete(h, rows)
    case Some(step) => if step == OpenOutput then Absent else Incomplete
  }

  /** Where the two writes stop: the right half is only written once the left half was. */
  function WritesStop(e: Env): (r: Stop)
    ensures r == Completed <==>
              WriteStop(e.left, LeftHeader(e.final)).None? && WriteStop(e.right, RightHeader(e.final)).None?
    ensures r.LeftFailed? <==> WriteStop(e.left, LeftHeader(e.final)).Some?
    ensures r.LeftFailed? ==> Some(r.leftStep) == WriteStop(e.left, LeftHeader(e.final))
    ensures r.RightFailed? ==> Some(r.rightStep) == WriteStop(e.right, RightHeader(e.final))
    ensures r.Completed? || r.LeftFailed? || r.RightFailed?
  {
    match WriteStop(e.left, LeftHeader(e.final))
    case Some(step) => LeftFailed(step)
    case None =>
      match WriteStop(e.right, RightHeader(e.final))
      case Some(step) => RightFailed(step)
      case None => Completed
  }

  /** Where a run that decoded the image stops. */
  function AfterDecode(e: Env): (r: Stop)
    ensures ExitCode(r) == ExitSuccess
    ensures r == Completed <==> SplitStop(e).None? && WritesStop(e) == Completed
    ensures r.LeftFailed? || r.RightFailed? ==> SplitStop(e).None?
  {
    match SplitStop(e)
    case Some(s) => s
    case None => WritesStop(e)
  }

  /** Where a whole run stops. */
  function ExpectedStop(e: Env): (r: Stop)
    ensures r == Completed <==>
              && DecodeStop(e).None? && SplitStop(e).None?
              && WriteStop(e.left, LeftHeader(e.final)).None? && WriteStop(e.right, RightHeader(e.final)).None?
    ensures DecodeStop(e).Some? ==> r == DecodeStop(e).value
  {
    match DecodeStop(e)
    case Some(s) => s
    case None => AfterDecode(e)
  }

  /** The exit status main returns: every path through cleanup_orig returns EXIT_SUCCESS. */
  function ExitCode(s: Stop): (code: int)
    ensures code == ExitSuccess || code == ExitFailure
    ensures s == Completed ==> code == ExitSuccess
    ensures s.LeftFailed? || s.RightFailed? || s.NoSplitRow? || s == NoSplitPointers ==> code == ExitSuccess
    ensures s.BadUsage? || s.CannotOpenInput? || s.ReadFailed? || s.NoRowPointers? || s.NoOrigRow? ==> code == ExitFailure
  {
    match s
    case NoSplitPointers | NoSplitRow(_) | LeftFailed(_) | RightFailed(_) | Completed => ExitSuccess
    case _ => ExitFailure
  }

  /** The left output after a run. */
  function ExpectedLeftFile(e: Env): (r: FileState)
    requires Wf(e)
    ensures r != Absent ==> DecodeStop(e).None? && SplitStop(e).None?
    ensures r.Complete? <==> ExpectedStop(e) == Completed || ExpectedStop(e).RightFailed?
    ensures r.Complete? ==> r.header == LeftHeader(e.final) && r.rows == LeftImage(e.pixels, e.final)
  {
    if DecodeStop(e).Some? || SplitStop(e).Some? then Absent
    else FileAfter(e.left, LeftHeader(e.final), LeftImage(e.pixels, e.final))
  }

  /** The right output after a run: it is only attempted once the left half was written. */
  function ExpectedRightFile(e: Env): (r: FileState)
    requires Wf(e)
    ensures r != Absent ==> DecodeStop(e).None? && SplitStop(e).None? && WriteStop(e.left, LeftHeader(e.final)).None?
    ensures r.Complete? <==> ExpectedStop(e) == Completed
    ensures r.Complete? ==> r.header == RightHeader(e.final) && r.rows == RightImage(e.pixels, e.final)
  {
    if DecodeStop(e).Some? || SplitStop(e).Some? || WriteStop(e.left, LeftHeader(e.final)).Some? then Absent
    else FileAfter(e.right, RightHeader(e.final), RightImage(e.pixels, e.final))
  }

  /** The stops after which the original rows were never freed. */
  predicate LeaksOriginalRows(s: Stop): (leaks: bool)
    ensures leaks ==> s.ReadFailed? && ExitCode(s) == ExitFailure
    ensures leaks <==> s.ReadFailed? && s.readStep != ReadInfoStep && s.readStep != UpdateInfoStep
  {
    match s
    case ReadFailed(step) => step == ReadImageStep || step == ReadEndStep
    case _ => false
  }

  // ---------------------------------------------------------------------
  // Properties of a run
  // ---------------------------------------------------------------------

  /**
   * Exit status: a run returns EXIT_SUCCESS exactly when decoding got past
   * png_read_end, whether or not the split and the two writes then succeed.
   */
  lemma ExitSuccessIffDecoded(e: Env)
    ensures ExitCode(ExpectedStop(e)) == ExitSuccess <==> DecodeStop(e).None?
    ensures DecodeStop(e).None? && ExpectedStop(e) != Completed ==> ExitCode(ExpectedStop(e)) == ExitSuccess
  {
  }

  /**
   * The signature gate: input shorter than eight bytes and input whose first
   * eight bytes are not the signature both stop the run with EXIT_FAILURE.
   */
  lemma SignatureGate(e: Env)
    requires e.argCount == ArgCount && e.inputOpens
    ensures |e.input| < SignatureLength ==> ExpectedStop(e) == InputTooShort
    ensures |e.input| >= SignatureLength && e.input[..SignatureLength] != Signature ==>
              ExpectedStop(e) == BadSignature
    ensures ExpectedStop(e) in {InputTooShort, BadSignature} ==>
              ExitCode(ExpectedStop(e)) == ExitFailure && ExpectedTransforms(e) == []
  {
    if |e.input| >= SignatureLength && e.input[..SignatureLength] != Signature {
      var k :| 0 <= k < SignatureLength && e.input[..SignatureLength][k] != Signature[k];
      assert e.input[k] != Signature[k];
    }
  }

  /**
   * The post-transform check: a run that got its updated header continues
   * exactly when the result is 8-bit RGB or RGBA.
   */
  lemma FinalFormatGate(e: Env)
    requires DecodeStop(e) != Some(BadUsage) && DecodeStop(e) != Some(CannotOpenInput)
    requires DecodeStop(e) != Some(InputTooShort)
    requires DecodeStop(e) != Some(BadSignature) && DecodeStop(e) != Some(NoReadStruct)
    requires DecodeStop(e) != Some(NoInfoStruct) && DecodeStop(e) != Some(ReadFailed(ReadInfoStep))
    requires DecodeStop(e) != Some(ReadFailed(UpdateInfoStep))
    ensures ExpectedStop(e).UnsupportedFormat? <==> !SupportedFinal(e.final.bitDepth, e.final.colorType)
  {
  }

  /**
   * Once the format check passes, the bytes per pixel used for the split are
   * three or four: one byte per sample of RGB or RGBA.
   */
  lemma SplitPixelSize(e: Env)
    requires Wf(e) && HeaderStop(e).None?
    ensures e.final.channels in {3, 4}
    ensures e.final.channels == Samples(e.final.colorType) * e.final.bitDepth / 8
  {
    SupportedFinalIsEightBitTruecolour(e.final.bitDepth, e.final.colorType);
  }

  /** A failure anywhere in the left write means the right output is never opened. */
  lemma LeftFailureSkipsRight(e: Env)
    requires Wf(e)
    ensures ExpectedStop(e).LeftFailed? ==> ExpectedRightFile(e) == Absent
    ensures ExpectedStop(e).LeftFailed? && ExpectedStop(e).leftStep != OpenOutput ==> ExpectedLeftFile(e) == Incomplete
    ensures ExpectedStop(e).RightFailed? ==> ExpectedLeftFile(e).Complete?
  {
  }

  /**
   * A completed run writes both halves, with headers of the two half widths
   * and one row per decoded row, and each decoded row is the left row
   * followed by the right row.
   */
  lemma {:induction false} CompletedRunRejoins(e: Env)
    requires Wf(e)
    requires ExpectedStop(e) == Completed
    requires e.final.rowBytes == e.final.width * e.final.channels
    ensures ExpectedLeftFile(e).Complete? && ExpectedRightFile(e).Complete?
    ensures ExpectedLeftFile(e).header == LeftHeader(e.final)
    ensures ExpectedRightFile(e).header == RightHeader(e.final)
    ensures |ExpectedLeftFile(e).rows| == |ExpectedRightFile(e).rows| == e.final.height
    ensures forall y :: 0 <= y < e.final.height ==>
              ExpectedLeftFile(e).rows[y] + ExpectedRightFile(e).rows[y] == e.pixels[y]
  {
    ImageRejoin(e.pixels, e.final);
  }

  /**
   * A one-pixel-wide image never completes: once decoding and the split
   * succeed, the left header is rejected (or an earlier left stage fails),
   * the right output is never opened, and the run still exits with
   * EXIT_SUCCESS.
   */
  lemma WidthOneNeverCompletes(e: Env)
    requires Wf(e)
    requires e.final.width == 1
    requires DecodeStop(e).None? && SplitStop(e).None?
    ensures ExpectedStop(e).LeftFailed? && StepRank(ExpectedStop(e).leftStep) <= StepRank(SetHeader)
    ensures ExpectedRightFile(e) == Absent
    ensures ExitCode(ExpectedStop(e)) == ExitSuccess
  {
    WidthOneLeftHeaderInvalid(e.final);
  }
}
