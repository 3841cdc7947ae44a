/**
  The interface of the libwebp incremental decoder as nsWEBPDecoder.cpp uses it
  (WebPINewRGB, WebPIAppend, WebPIDecGetRGB, WebPIDelete). The library itself is
  not modelled: what it answers is given to the model as a Reply, and the calls
  made to it are recorded as EngineCalls.
*/
module Engine {
  import opened Options
  import opened Pixels
  import opened Host

  /** VP8StatusCode. */
  datatype Status =
    | Ok
    | OutOfMemory
    | InvalidParam
    | BitstreamError
    | UnsupportedFeature
    | Suspended
    | UserAbort
    | NotEnoughData

  /** What WebPIDecGetRGB reports: the last decoded row, the geometry, and the
      output buffer (None for a null pointer). The buffer is read from its start. */
  datatype Progress = Progress(lastLineRead: int, width: int, height: int, stride: int, data: Option<seq<byte>>)

  /** The engine's answer to one chunk: WebPIAppend's status and, when the
      caller goes on to ask, WebPIDecGetRGB's report. */
  datatype Reply = Reply(status: Status, progress: Progress)

  /** The calls the decoder makes into the library, in order. */
  datatype EngineCall =
    | NewRGB                        // WebPINewRGB(MODE_rgbA, nullptr, 0, 0)
    | Append(chunk: seq<byte>)      // WebPIAppend(mDecoder, aBuffer, aCount)
    | GetRGB                        // WebPIDecGetRGB(mDecoder, ...)
    | Delete(nonNull: bool)         // WebPIDelete(mDecoder), null allowed

  /** What the library guarantees about its output buffer: once it reports a
      positive geometry and a buffer, the buffer holds width * height RGBA
      pixels (the decoder asked for the library's own buffer, with no special
      stride). */
  predicate WellFormed(p: Progress)
  {
    p.data.Some? && p.width > 0 && p.height > 0 ==> |p.data.value| >= 4 * p.width * p.height
  }

  /** What WriteInternal does after WebPIAppend returns. */
  datatype Verdict = Proceed | Reject(event: Event)

  /** The status cascade of WriteInternal: out of memory is a decoder error
      (OOM); a bad parameter or bitstream is a data error; every other status
      except OK and SUSPENDED is a decoder error (failure). */
  function Classify(s: Status): (v: Verdict)
    ensures v == Proceed <==> s == Ok || s == Suspended
    ensures v == Reject(DecoderError(OutOfMemoryError)) <==> s == OutOfMemory
    ensures v == Reject(DataError) <==> s == InvalidParam || s == BitstreamError
    ensures v == Reject(DecoderError(Failure)) <==>
      s != Ok && s != Suspended && s != OutOfMemory && s != InvalidParam && s != BitstreamError
    ensures v.Reject? ==> v.event.IsError()
  {
    if s == OutOfMemory then Reject(DecoderError(OutOfMemoryError))
    else if s == InvalidParam || s == BitstreamError then Reject(DataError)
    else if s == UnsupportedFeature || s == UserAbort then Reject(DecoderError(Failure))
    else if s != Ok && s != Suspended then Reject(DecoderError(Failure))
    else Proceed
  }
}
