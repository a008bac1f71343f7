/**
 * The C entry point of the Rust ISO-to-XISO converter: it reads two C path strings, runs the conversion under
 * a panic guard, reports the outcome as a return code (0 success, 1 error, 2 panic) and leaves a NUL-terminated
 * message in the caller's error buffer.
 */
module XisoConverter {
  import opened Wrappers
  import opened Sequences
  import opened CBytes

  /** What the guarded closure ends with: `Ok(Ok(()))`, `Ok(Err(e))` (with `e.to_string()`), or a caught panic. */
  datatype ConversionOutcome = Converted | Failed(message: seq<byte>) | Panicked

  /** `usize::saturating_sub`. */
  function SaturatingSub(a: nat, b: nat): nat {
    if a >= b then a - b else 0
  }

  /** The buffer `write_err_buf` leaves: the message cut to `len - 1` bytes, then zeros to the end. */
  function ErrBufContents(msg: seq<byte>, len: nat): (buf: seq<byte>)
    requires len > 0
    ensures |buf| == len && buf[len - 1] == 0
    ensures var copyLen := Min(|msg|, len - 1);
      buf[..copyLen] == msg[..copyLen] && forall i :: copyLen <= i < len ==> buf[i] == 0
  {
    var copyLen := Min(|msg|, SaturatingSub(len, 1));
    msg[..copyLen] + Repeat(0, len - copyLen)
  }

  /** Read back as a C string, the buffer gives the message (cut to `len - 1` bytes) when the message has no NUL. */
  lemma ErrBufReadsBack(msg: seq<byte>, len: nat)
    requires len > 0 && 0 !in msg
    ensures CStr(ErrBufContents(msg, len)) == msg[..Min(|msg|, len - 1)]
  {
    var copyLen := Min(|msg|, len - 1);
    var buf := ErrBufContents(msg, len);
    assert buf == msg[..copyLen] + [0] + buf[copyLen + 1..];
    CStrOfTerminated(msg[..copyLen], buf[copyLen + 1..]);
  }

  /** An empty message leaves the whole buffer zero. */
  lemma EmptyMessageZeroesBuffer(len: nat)
    requires len > 0
    ensures forall i :: 0 <= i < len ==> ErrBufContents([], len)[i] == 0
  {
  }

  /**
   * `write_err_buf`: nothing for a null buffer or a zero length; otherwise `fill(0)` over the `len` bytes the
   * caller owns, then the truncating copy.
   */
  method WriteErrBuf(errBuf: array?<byte>, errBufLen: nat, msg: seq<byte>)
    requires errBuf != null ==> errBufLen <= errBuf.Length
    modifies errBuf
    ensures errBuf != null && errBufLen == 0 ==> errBuf[..] == old(errBuf[..])
    ensures errBuf != null && errBufLen > 0 ==>
      errBuf[..errBufLen] == ErrBufContents(msg, errBufLen) && errBuf[errBufLen..] == old(errBuf[errBufLen..])
  {
    if errBuf == null || errBufLen == 0 {
      return;
    }
    for i := 0 to errBufLen
      invariant forall k :: 0 <= k < i ==> errBuf[k] == 0
      invariant errBuf[errBufLen..] == old(errBuf[errBufLen..])
    {
      errBuf[i] := 0;
    }
    var copyLen := Min(|msg|, SaturatingSub(errBufLen, 1));
    for i := 0 to copyLen
      invariant errBuf[..i] == msg[..i]
      invariant forall k :: i <= k < errBufLen ==> errBuf[k] == 0
      invariant errBuf[errBufLen..] == old(errBuf[errBufLen..])
    {
      errBuf[i] := msg[i];
    }
    assert errBuf[..errBufLen] == msg[..copyLen] + Repeat(0, errBufLen - copyLen);
  }

  /** The names the entry point gives its two path arguments in error messages. */
  const InputPathArg: seq<byte> := AsciiBytes("input_path")
  const OutputPathArg: seq<byte> := AsciiBytes("output_path")
  const WasNull: seq<byte> := AsciiBytes(" was null")
  const WasNotUtf8: seq<byte> := AsciiBytes(" was not valid UTF-8")
  const PanicMessage: seq<byte> := AsciiBytes("ISO conversion panicked")

  /**
   * `c_path_to_owned`: a null pointer (`None`) is the error `<arg> was null`; otherwise the C string's bytes,
   * or the error `<arg> was not valid UTF-8` when `isUtf8` rejects them.
   */
  function CPathToOwned(ptr: Option<CString>, argName: seq<byte>, isUtf8: seq<byte> -> bool): (r: Result<seq<byte>, seq<byte>>)
    ensures ptr.None? <==> r == Err(argName + WasNull)
    ensures r.Ok? <==> ptr.Some? && isUtf8(ptr.value)
    ensures r.Ok? ==> r.value == ptr.value
  {
    if ptr.None? then Err(argName + WasNull)
    else if !isUtf8(ptr.value) then
      assert |argName + WasNotUtf8| != |argName + WasNull|;
      Err(argName + WasNotUtf8)
    else Ok(ptr.value)
  }

  /**
   * The closure under `catch_unwind`: the input path is checked first and its error wins, then the output path;
   * the conversion runs only with both paths usable. `convert` stands for `convert_iso_to_xiso` on the two
   * paths, including whether it panics.
   */
  function GuardedOutcome(inputPath: Option<CString>, outputPath: Option<CString>, isUtf8: seq<byte> -> bool,
                          convert: (seq<byte>, seq<byte>) -> ConversionOutcome): (outcome: ConversionOutcome)
    ensures CPathToOwned(inputPath, InputPathArg, isUtf8).Err? ==>
      outcome == Failed(CPathToOwned(inputPath, InputPathArg, isUtf8).error)
    ensures CPathToOwned(inputPath, InputPathArg, isUtf8).Ok? && CPathToOwned(outputPath, OutputPathArg, isUtf8).Err? ==>
      outcome == Failed(CPathToOwned(outputPath, OutputPathArg, isUtf8).error)
    ensures CPathToOwned(inputPath, InputPathArg, isUtf8).Ok? && CPathToOwned(outputPath, OutputPathArg, isUtf8).Ok? ==>
      outcome == convert(inputPath.value, outputPath.value)
  {
    match CPathToOwned(inputPath, InputPathArg, isUtf8)
    case Err(e) => Failed(e)
    case Ok(input) =>
      match CPathToOwned(outputPath, OutputPathArg, isUtf8)
      case Err(e) => Failed(e)
      case Ok(output) => convert(input, output)
  }

  /** The return code for an outcome. */
  function ReturnCode(outcome: ConversionOutcome): (rc: int)
    ensures rc == 0 <==> outcome.Converted?
    ensures rc == 1 <==> outcome.Failed?
    ensures rc == 2 <==> outcome.Panicked?
  {
    match outcome
    case Converted => 0
    case Failed(_) => 1
    case Panicked => 2
  }

  /** The message written to the error buffer for an outcome. */
  function OutcomeMessage(outcome: ConversionOutcome): seq<byte> {
    match outcome
    case Converted => []
    case Failed(message) => message
    case Panicked => PanicMessage
  }

  /** A null input path fails with `input_path was null`, whatever the other argument and without converting anything. */
  lemma NullInputPathFailsFirst(outputPath: Option<CString>, isUtf8: seq<byte> -> bool,
                                convert: (seq<byte>, seq<byte>) -> ConversionOutcome)
    ensures GuardedOutcome(None, outputPath, isUtf8, convert) == Failed(InputPathArg + WasNull)
    ensures ReturnCode(GuardedOutcome(None, outputPath, isUtf8, convert)) == 1
  {
  }

  /** A null output path (with a usable input path) fails with `output_path was null`, without converting anything. */
  lemma NullOutputPathFails(inputPath: CString, isUtf8: seq<byte> -> bool,
                            convert: (seq<byte>, seq<byte>) -> ConversionOutcome)
    requires isUtf8(inputPath)
    ensures GuardedOutcome(Some(inputPath), None, isUtf8, convert) == Failed(OutputPathArg + WasNull)
  {
  }

  /** With two usable paths, the outcome is the conversion's own. */
  lemma ValidPathsRunConversion(inputPath: CString, outputPath: CString, isUtf8: seq<byte> -> bool,
                                convert: (seq<byte>, seq<byte>) -> ConversionOutcome)
    requires isUtf8(inputPath) && isUtf8(outputPath)
    ensures GuardedOutcome(Some(inputPath), Some(outputPath), isUtf8, convert) == convert(inputPath, outputPath)
  {
  }

  /**
   * `xiso_convert_iso_to_xiso`: runs the guarded closure, writes the outcome's message to the error buffer and
   * returns the outcome's code.
   */
  method XisoConvertIsoToXiso(inputPath: Option<CString>, outputPath: Option<CString>, errBuf: array?<byte>,
                              errBufLen: nat, isUtf8: seq<byte> -> bool,
                              convert: (seq<byte>, seq<byte>) -> ConversionOutcome)
    returns (rc: int)
    requires errBuf != null ==> errBufLen <= errBuf.Length
    modifies errBuf
    ensures rc == ReturnCode(GuardedOutcome(inputPath, outputPath, isUtf8, convert))
    ensures errBuf != null && errBufLen > 0 ==>
      errBuf[..errBufLen] == ErrBufContents(OutcomeMessage(GuardedOutcome(inputPath, outputPath, isUtf8, convert)), errBufLen)
    ensures errBuf != null ==> errBuf[errBufLen..] == old(errBuf[errBufLen..])
  {
    var outcome := GuardedOutcome(inputPath, outputPath, isUtf8, convert);
    match outcome {
      case Converted =>
        WriteErrBuf(errBuf, errBufLen, []);
        rc := 0;
      case Failed(e) =>
        WriteErrBuf(errBuf, errBufLen, e);
        rc := 1;
      case Panicked =>
        WriteErrBuf(errBuf, errBufLen, PanicMessage);
        rc := 2;
    }
  }

  /** On success the caller finds code 0 and an all-zero buffer, i.e. the empty string. */
  lemma SuccessLeavesEmptyMessage(outcome: ConversionOutcome, len: nat)
    requires outcome.Converted? && len > 0
    ensures ReturnCode(outcome) == 0
    ensures forall i :: 0 <= i < len ==> ErrBufContents(OutcomeMessage(outcome), len)[i] == 0
    ensures CStr(ErrBufContents(OutcomeMessage(outcome), len)) == []
  {
    ErrBufReadsBack([], len);
  }
}
