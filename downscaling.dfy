/**
  The downscaler as the decoder sees it: an abstract row sink. BeginFrame may
  succeed or fail (its result is given); on success it holds a row buffer one
  source row wide, which the decoder fills through RowBuffer() and hands over
  with CommitRow(). The resampling itself, and the output rows it produces,
  are not modelled: the sink records the rows committed to it.
*/
module Downscaling {
  import opened Options
  import opened Pixels
  import opened Host

  datatype Sink = Sink(target: Size, frame: Option<Size>, hasAlpha: bool, rowBuffer: seq<Pixel>, committed: seq<seq<Pixel>>)

  /** A downscaler just created for a target size: no frame begun. */
  function NewSink(target: Size): (d: Sink)
  {
    Sink(target, None, false, [], [])
  }

  /** The sink after a successful BeginFrame(frame, ..., hasAlpha). */
  function Begun(d: Sink, frame: Size, hasAlpha: bool): (b: Sink)
    requires frame.width >= 0
  {
    d.(frame := Some(frame), hasAlpha := hasAlpha, rowBuffer := seq(frame.width, _ => 0), committed := [])
  }

  /** What TakeInvalidRect() returns, identified by the rows committed so far. */
  function InvalidRect(d: Sink): (r: FilterRect)
  {
    FilterRect(|d.committed|)
  }

  class Downscaler {
    const target: Size
    var frame: Option<Size>
    var hasAlpha: bool
    var rowBuffer: array<Pixel>
    var committed: seq<seq<Pixel>>

    ghost function Model(): Sink
      reads this, rowBuffer
    {
      Sink(target, frame, hasAlpha, rowBuffer[..], committed)
    }

    constructor (target: Size)
      ensures Model() == NewSink(target)
      ensures fresh(rowBuffer)
    {
      this.target := target;
      frame := None;
      hasAlpha := false;
      rowBuffer := new Pixel[0];
      committed := [];
    }

    /** BeginFrame(aOriginalSize, aOutputBuffer, aHasAlpha); whether it
        succeeds is decided inside the downscaler and given as `succeeds`. */
    method BeginFrame(frameSize: Size, hasAlpha: bool, succeeds: bool) returns (ok: bool)
      requires frameSize.width >= 0
      modifies this
      ensures ok == succeeds
      ensures Model() == if ok then Begun(old(Model()), frameSize, hasAlpha) else old(Model())
      ensures if ok then fresh(rowBuffer) else rowBuffer == old(rowBuffer)
    {
      ok := succeeds;
      if ok {
        frame := Some(frameSize);
        this.hasAlpha := hasAlpha;
        rowBuffer := new Pixel[frameSize.width](_ => 0);
        committed := [];
      }
    }

    /** CommitRow(): the row buffer's contents are handed over. */
    method CommitRow()
      modifies this`committed
      ensures committed == old(committed) + [rowBuffer[..]]
    {
      committed := committed + [rowBuffer[..]];
    }

    method TakeInvalidRect() returns (r: FilterRect)
      ensures r == InvalidRect(Model())
    {
      r := FilterRect(|committed|);
    }
  }
}
