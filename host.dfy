/**
  What the decoder tells its host (the Decoder base class and RasterImage).
  Every Post... call of nsWEBPDecoder.cpp appends one Event to a log.
*/
module Host {
  import opened Options

  datatype Size = Size(width: int, height: int)

  /** nsIntRect(x, y, width, height). */
  datatype Rect = Rect(x: int, y: int, width: int, height: int)

  /** The downscaler's output-space rectangle returned by TakeInvalidRect().
      Its contents depend on the resampling, which is not modelled; it is
      identified by the number of input rows committed when it was taken. */
  datatype FilterRect = FilterRect(rowsCommitted: nat)

  /** The nsresult passed to PostDecoderError. */
  datatype ErrorKind = OutOfMemoryError | Failure

  datatype Event =
    | SizeKnown(size: Size)
    | DataError
    | DecoderError(kind: ErrorKind)
    | HasTransparency
    | Invalidation(rect: Rect, filterRect: Option<FilterRect>)
    | FrameStop
    | DecodeDone
  {
    predicate IsError() { DataError? || DecoderError? }

    function Tag(): (t: Tag)
    {
      match this
      case SizeKnown(_) => SizeTag
      case DataError => DataErrorTag
      case DecoderError(_) => DecoderErrorTag
      case HasTransparency => TransparencyTag
      case Invalidation(_, _) => InvalidationTag
      case FrameStop => FrameStopTag
      case DecodeDone => DecodeDoneTag
    }
  }

  /** One tag per kind of event, to count events of a kind. */
  datatype Tag =
    SizeTag | DataErrorTag | DecoderErrorTag | TransparencyTag | InvalidationTag | FrameStopTag | DecodeDoneTag

  /** The number of events of kind `t` in `log`. */
  function Count(log: seq<Event>, t: Tag): (n: nat)
  {
    if log == [] then 0
    else Count(log[..|log| - 1], t) + (if log[|log| - 1].Tag() == t then 1 else 0)
  }

  /** The number of error events (data or decoder errors) in `log`. */
  function ErrorCount(log: seq<Event>): (n: nat)
  {
    Count(log, DataErrorTag) + Count(log, DecoderErrorTag)
  }

  lemma CountSnoc(log: seq<Event>, e: Event, t: Tag)
    ensures Count(log + [e], t) == Count(log, t) + (if e.Tag() == t then 1 else 0)
  {
    assert (log + [e])[..|log + [e]| - 1] == log;
  }

  /** An error event counts as an error, and only error events do. */
  lemma ErrorCountSnoc(log: seq<Event>, e: Event)
    ensures ErrorCount(log + [e]) == ErrorCount(log) + (if e.IsError() then 1 else 0)
  {
    CountSnoc(log, e, DataErrorTag);
    CountSnoc(log, e, DecoderErrorTag);
  }
}
