/**
  What nsWEBPDecoder promises, proved on the value model of module
  DecodeSession: the outcome of one WriteInternal call in each of its cases,
  what every call preserves, and what a whole decoding session (the
  constructor, SetTargetSize, InitInternal, the chunks, FinishInternal and
  the destructor) posts to its host and asks of the engine.
*/
module SessionFacts {
  import opened Options
  import opened Pixels
  import opened Host
  import opened Engine
  import opened Transfer
  import opened Downscaling
  import DS = DecodeSession

  type State = DS.State

  /** The state once WebPIAppend has accepted the chunk and WebPIDecGetRGB has
      been asked for the progress (cpp:93-121): mData now points at the start
      of the engine's buffer. */
  function Queried(s: State, chunk: seq<byte>, p: Progress): (t: State)
  {
    s.(engineCalls := s.engineCalls + [Append(chunk)] + [GetRGB], data := p.data, dataPos := 0)
  }

  /** The state once the size is known (cpp:127-145). */
  function Known(s: State, p: Progress): (t: State)
    requires DS.Inv(s) && (s.size.Some? || (p.width > 0 && p.height > 0))
  {
    if s.size.None? then DS.PostSize(s, p.width, p.height) else s
  }

  /** The state once the context is ready (cpp:158-182), when it was already
      or is now initialised. */
  function Ready(s: State, p: Progress): (t: State)
    requires DS.Inv(s) && s.size.Some? && !s.sizeDecode
  {
    if s.contextInitialized then s else DS.InitContext(s, p.stride)
  }

  // ---------------------------------------------------------------------
  // One WriteInternal call, case by case (cpp:89-182)

  /** cpp:97-114: a status other than OK or SUSPENDED posts its one error and
      ends the call: no query, no size, no pixel, no invalidation. */
  lemma WriteRejected(s: State, chunk: seq<byte>, reply: Reply, beginOk: bool)
    requires DS.Inv(s) && Classify(reply.status).Reject?
    ensures var e := Classify(reply.status).event;
      && e.IsError()
      && DS.Write(s, chunk, reply, beginOk) == s.(engineCalls := s.engineCalls + [Append(chunk)], events := s.events + [e])
  {
  }

  /** cpp:121-125: with no row decoded yet, or no buffer, the call ends after
      the query with nothing posted and nothing written. */
  lemma WriteNoProgress(s: State, chunk: seq<byte>, reply: Reply, beginOk: bool)
    requires DS.Inv(s) && Classify(reply.status) == Proceed
    requires reply.progress.lastLineRead == -1 || reply.progress.data.None?
    ensures DS.Write(s, chunk, reply, beginOk) == Queried(s, chunk, reply.progress)
  {
  }

  /** cpp:127-131: a first report with a non-positive side is a data error and
      nothing else. */
  lemma WriteBadFirstGeometry(s: State, chunk: seq<byte>, reply: Reply, beginOk: bool)
    requires DS.Inv(s) && Classify(reply.status) == Proceed
    requires var p := reply.progress; p.lastLineRead != -1 && p.data.Some?
    requires s.size.None? && (reply.progress.width <= 0 || reply.progress.height <= 0)
    ensures var q := Queried(s, chunk, reply.progress);
      DS.Write(s, chunk, reply, beginOk) == q.(events := q.events + [DataError])
  {
  }

  /** cpp:127-150: a size-only decode publishes the size once (only while none
      is known) and stops there; nothing else is posted or written. */
  lemma WriteSizeOnly(s: State, chunk: seq<byte>, reply: Reply, beginOk: bool)
    requires DS.Inv(s) && s.sizeDecode && Classify(reply.status) == Proceed
    requires var p := reply.progress; p.lastLineRead != -1 && p.data.Some?
    requires s.size.Some? || (reply.progress.width > 0 && reply.progress.height > 0)
    ensures var p := reply.progress;
      var q := Queried(s, chunk, p);
      DS.Write(s, chunk, reply, beginOk) ==
        if s.size.Some? then q
        else q.(events := q.events + [SizeKnown(Size(p.width, p.height))], size := Some(Size(p.width, p.height)))
  {
  }

  /** cpp:152-156: a report whose geometry differs from the published size is
      a decoder error, and nothing is transferred. */
  lemma WriteGeometryMismatch(s: State, chunk: seq<byte>, reply: Reply, beginOk: bool)
    requires DS.Inv(s) && !s.sizeDecode && Classify(reply.status) == Proceed
    requires var p := reply.progress; p.lastLineRead != -1 && p.data.Some?
    requires s.size.Some? && s.size.value != Size(reply.progress.width, reply.progress.height)
    ensures var q := Queried(s, chunk, reply.progress);
      DS.Write(s, chunk, reply, beginOk) == q.(events := q.events + [DecoderError(Failure)])
  {
  }

  /** cpp:165-176: when the downscaler refuses the frame, transparency has
      already been posted, then a decoder error is; the context stays
      uninitialised and nothing is transferred. */
  lemma WriteBeginFrameFails(s: State, chunk: seq<byte>, reply: Reply)
    requires DS.Inv(s) && !s.sizeDecode && !s.contextInitialized && s.downscaler.Some?
    requires Classify(reply.status) == Proceed
    requires var p := reply.progress;
      && p.lastLineRead != -1 && p.data.Some? && p.width > 0 && p.height > 0
      && (s.size.None? || s.size.value == Size(p.width, p.height))
    ensures var k := Known(Queried(s, chunk, reply.progress), reply.progress);
      DS.Write(s, chunk, reply, false) == k.(events := k.events + [HasTransparency, DecoderError(Failure)])
  {
    var p := reply.progress;
    var q := Queried(s, chunk, p);
    var k := Known(q, p);
    assert DS.Write(s, chunk, reply, false) == DS.Sized(k, p, false);
    assert DS.Sized(k, p, false) == DS.Post(DS.Post(k, HasTransparency), DecoderError(Failure));
  }

  /** cpp:158-182: the first call that gets this far (and whose downscaler, if
      any, accepts the frame) posts transparency, begins the downscaler's
      frame with alpha on the image size, stores the buffer padding and marks
      the context initialised. */
  lemma WriteInitialisesContext(s: State, chunk: seq<byte>, reply: Reply, beginOk: bool)
    requires DS.Inv(s) && !s.sizeDecode && !s.contextInitialized
    requires s.downscaler.None? || beginOk
    requires Classify(reply.status) == Proceed
    requires var p := reply.progress;
      && p.lastLineRead != -1 && p.data.Some? && p.width > 0 && p.height > 0
      && (s.size.None? || s.size.value == Size(p.width, p.height))
    ensures var p := reply.progress;
      var t := DS.Write(s, chunk, reply, beginOk);
      && t.contextInitialized
      && t.bufferRowPadding == p.stride - 4 * p.width
      && Count(t.events, TransparencyTag) == Count(s.events, TransparencyTag) + 1
      && (s.downscaler.Some? ==> t.downscaler.value.frame == Some(Size(p.width, p.height)) && t.downscaler.value.hasAlpha)
  {
    var p := reply.progress;
    var k := Known(Queried(s, chunk, p), p);
    var c := Ready(k, p);
    WriteReachesReconcile(s, chunk, reply, beginOk);
    ReconcileGrows(c, p.lastLineRead, p.width, p.height);
    ReconcileCounts(c, p.lastLineRead, p.width, p.height);
    CountSnoc(k.events, HasTransparency, TransparencyTag);
    if s.size.None? {
      CountSnoc(s.events, SizeKnown(Size(p.width, p.height)), TransparencyTag);
    }
  }

  /** A call that passes the checks of cpp:97-182 goes on to the rows. */
  lemma WriteReachesReconcile(s: State, chunk: seq<byte>, reply: Reply, beginOk: bool)
    requires DS.Inv(s) && !s.sizeDecode
    requires s.contextInitialized || s.downscaler.None? || beginOk
    requires Classify(reply.status) == Proceed
    requires var p := reply.progress;
      && p.lastLineRead != -1 && p.data.Some? && p.width > 0 && p.height > 0
      && (s.size.None? || s.size.value == Size(p.width, p.height))
    ensures var p := reply.progress;
      var c := Ready(Known(Queried(s, chunk, p), p), p);
      && c.contextInitialized && c.data == p.data && c.size == Some(Size(p.width, p.height))
      && DS.Write(s, chunk, reply, beginOk) == DS.Reconcile(c, p.lastLineRead, p.width, p.height)
  {
    var p := reply.progress;
    var k := Known(Queried(s, chunk, p), p);
    assert DS.Write(s, chunk, reply, beginOk) == DS.Sized(k, p, beginOk);
  }

  /** cpp:158: once the context is initialised it is not set up again: no
      second transparency, and the padding stays as first computed. */
  lemma WriteContextOnce(s: State, chunk: seq<byte>, reply: Reply, beginOk: bool)
    requires DS.Inv(s) && s.contextInitialized
    ensures var t := DS.Write(s, chunk, reply, beginOk);
      && t.contextInitialized
      && t.bufferRowPadding == s.bufferRowPadding
      && Count(t.events, TransparencyTag) == Count(s.events, TransparencyTag)
  {
    WriteGrows(s, chunk, reply, beginOk);
    WriteCounts(s, chunk, reply, beginOk);
  }

  // ---------------------------------------------------------------------
  // The rows of one call (cpp:184-246)

  /** cpp:184-187: nothing new decoded, nothing done. Because the cursor
      starts at 0 (cpp:28), a first report of row 0 is such a report. */
  lemma ReconcileWaits(s: State, lastLineRead: int, width: int, height: int)
    requires DS.Inv(s) && s.contextInitialized && s.data.Some? && s.size == Some(Size(width, height))
    requires lastLineRead <= s.previousLastLine
    ensures DS.Reconcile(s, lastLineRead, width, height) == s
  {
  }

  /** The consequence of the initial cursor: a decoder that has transferred
      nothing yet ignores a report that the first row is done. */
  lemma FirstRowReportIgnored(s: State, width: int, height: int)
    requires DS.Inv(s) && s.contextInitialized && s.data.Some? && s.size == Some(Size(width, height))
    requires s.previousLastLine == 0
    ensures DS.Reconcile(s, 0, width, height) == s
  {
    ReconcileWaits(s, 0, width, height);
  }

  /** cpp:190-194: once the last row has been transferred, reports past the
      bottom change nothing. */
  lemma ReconcileDoneAtBottom(s: State, lastLineRead: int, width: int, height: int)
    requires DS.Inv(s) && s.contextInitialized && s.data.Some? && s.size == Some(Size(width, height))
    requires lastLineRead >= height && s.previousLastLine == height - 1
    ensures DS.Reconcile(s, lastLineRead, width, height) == s
  {
  }

  /** cpp:184-246 when rows are transferred: the last row is the report
      clamped to the image; exactly one invalidation is posted, for
      (0, previousLastLine, width, last) -- the height field is the last
      row, not a row count -- with the downscaler's rectangle iff there is a
      downscaler; the cursor moves to the last row; the source pointer ends
      after the rows, counted from the buffer start. */
  lemma ReconcileTransfers(s: State, lastLineRead: int, width: int, height: int)
    requires DS.Inv(s) && s.contextInitialized && s.data.Some? && s.size == Some(Size(width, height))
    requires lastLineRead > s.previousLastLine && !(lastLineRead >= height && s.previousLastLine == height - 1)
    ensures var t := DS.Reconcile(s, lastLineRead, width, height);
      var last := if lastLineRead < height then lastLineRead else height - 1;
      && s.previousLastLine < last < height
      && t.previousLastLine == last
      && t.dataPos == (last - s.previousLastLine + 1) * 4 * width
      && t.events[..|s.events|] == s.events
      && |t.events| == |s.events| + 1
      && t.events[|s.events|].Invalidation?
      && t.events[|s.events|].rect == Rect(0, s.previousLastLine, width, last)
      && (t.events[|s.events|].filterRect.Some? <==> s.downscaler.Some?)
      && (s.downscaler.Some? ==>
            t.events[|s.events|].filterRect == Some(FilterRect(|t.downscaler.value.committed|)))
  {
    var last := if lastLineRead < height then lastLineRead else height - 1;
    assert LastToTransfer(s.previousLastLine, lastLineRead, height) == Some(last);
    var m := DS.TransferRows(s, last, width);
    assert DS.Reconcile(s, lastLineRead, width, height) == DS.Invalidate(m, last, width);
  }

  /** cpp:223-239: without a downscaler, pixel p of each transferred row r is
      the word packed from the four bytes at ((r - previousLastLine) * width
      + p) * 4 of the buffer (the rows are read from the buffer's start, and
      the row at the cursor is written again); the destination index is
      inside the surface; every other word is unchanged. */
  lemma ReconcileDirectRows(s: State, lastLineRead: int, width: int, height: int, r: int, p: int)
    requires DS.Inv(s) && s.contextInitialized && s.data.Some? && s.size == Some(Size(width, height))
    requires s.downscaler.None?
    requires var last := LastToTransfer(s.previousLastLine, lastLineRead, height);
      last.Some? && s.previousLastLine <= r <= last.value
    requires 0 <= p < width
    ensures 0 <= r * width + p < |s.surface|
    ensures DS.Reconcile(s, lastLineRead, width, height).surface[r * width + p] ==
      WordAt(s.data.value, 4 * ((r - s.previousLastLine) * width + p))
  {
    var last := LastToTransfer(s.previousLastLine, lastLineRead, height).value;
    DirectFacts(s, lastLineRead, width, height, r);
    DestinationInBounds(width, height, r, p);
    ReconcileSurface(s, lastLineRead, width, height);
    DirectTransferWord(s.surface, s.data.value, width, s.previousLastLine, last, r, p);
  }

  /** Without a downscaler the surface holds the image and a transferred row
      is a row of it. */
  lemma DirectFacts(s: State, lastLineRead: int, width: int, height: int, r: int)
    requires DS.Inv(s) && s.contextInitialized && s.size == Some(Size(width, height))
    requires s.downscaler.None?
    requires var last := LastToTransfer(s.previousLastLine, lastLineRead, height);
      last.Some? && s.previousLastLine <= r <= last.value
    ensures 0 <= r < height && 0 < width && |s.surface| == width * height
  {
  }

  /** The same word in terms of the buffer's bytes: when the engine's buffer
      holds the 4 * width * height bytes of the image, the word is packed
      from the four bytes at that offset, alpha from the fourth. */
  lemma ReconcileDirectBytes(s: State, lastLineRead: int, width: int, height: int, r: int, p: int)
    requires DS.Inv(s) && s.contextInitialized && s.data.Some? && s.size == Some(Size(width, height))
    requires s.downscaler.None? && |s.data.value| >= 4 * width * height
    requires var last := LastToTransfer(s.previousLastLine, lastLineRead, height);
      last.Some? && s.previousLastLine <= r <= last.value
    requires 0 <= p < width
    ensures var src := s.data.value;
      var o := 4 * ((r - s.previousLastLine) * width + p);
      && 0 <= o && o + 4 <= |src|
      && 0 <= r * width + p < |s.surface|
      && DS.Reconcile(s, lastLineRead, width, height).surface[r * width + p] == Pack(src[o + 3], src[o], src[o + 1], src[o + 2])
  {
    ReconcileDirectRows(s, lastLineRead, width, height, r, p);
    WordInBuffer(s.data.value, width, height, r - s.previousLastLine, p);
  }

  /** Word p of row r after the direct transfer of rows prev..last, with no
      row padding: the word at 4 * ((r - prev) * width + p) of the buffer. */
  lemma DirectTransferWord(dst: seq<Pixel>, src: seq<byte>, width: nat, prev: int, last: int, r: int, p: int)
    requires prev <= r <= last && 0 <= p < width && 0 <= r * width + p < |dst|
    ensures DirectTransfer(dst, src, width, 0, prev, last)[r * width + p] == WordAt(src, 4 * ((r - prev) * width + p))
  {
    DirectTransferRow(dst, src, width, 0, prev, last, r, p);
    WordsAt(src, SourceOffset(width, 0, r - prev, 0), width, p);
    PixelOffset(width, r - prev, p);
  }

  /** Pixel p of the k-th row of a width-by-height image lies inside a buffer
      of 4 * width * height bytes, and its word is packed from those bytes. */
  lemma WordInBuffer(src: seq<byte>, width: int, height: int, k: int, p: int)
    requires 0 <= k < height && 0 <= p < width && |src| >= 4 * width * height
    ensures var o := 4 * (k * width + p);
      && 0 <= o && o + 4 <= |src|
      && WordAt(src, o) == Pack(src[o + 3], src[o], src[o + 1], src[o + 2])
  {
    DestinationInBounds(width, height, k, p);
  }

  /** Without a downscaler the rows go to the surface. */
  lemma ReconcileSurface(s: State, lastLineRead: int, width: int, height: int)
    requires DS.Inv(s) && s.contextInitialized && s.data.Some? && s.size == Some(Size(width, height))
    requires s.downscaler.None? && width >= 0
    requires LastToTransfer(s.previousLastLine, lastLineRead, height).Some?
    ensures var last := LastToTransfer(s.previousLastLine, lastLineRead, height).value;
      DS.Reconcile(s, lastLineRead, width, height).surface ==
        DirectTransfer(s.surface, s.data.value, width, 0, s.previousLastLine, last)
  {
    var last := LastToTransfer(s.previousLastLine, lastLineRead, height).value;
    assert DS.Reconcile(s, lastLineRead, width, height).surface == DS.TransferRows(s, last, width).surface;
  }

  /** Byte offset of pixel p of the k-th row read, with no row padding. */
  lemma PixelOffset(width: int, k: int, p: int)
    ensures SourceOffset(width, 0, k, 0) + 4 * p == 4 * (k * width + p)
  {
  }

  /** The words of the surface outside the transferred rows are untouched. */
  lemma ReconcileDirectOutside(s: State, lastLineRead: int, width: int, height: int, i: int)
    requires DS.Inv(s) && s.contextInitialized && s.data.Some? && s.size == Some(Size(width, height))
    requires s.downscaler.None? && 0 <= i < |s.surface|
    requires var last := LastToTransfer(s.previousLastLine, lastLineRead, height);
      last.None? || i < s.previousLastLine * width || i >= (last.value + 1) * width
    ensures DS.Reconcile(s, lastLineRead, width, height).surface[i] == s.surface[i]
  {
    var last := LastToTransfer(s.previousLastLine, lastLineRead, height);
    if last.Some? {
      assert DS.Reconcile(s, lastLineRead, width, height).surface == DS.TransferRows(s, last.value, width).surface;
      DirectTransferOutside(s.surface, s.data.value, width, 0, s.previousLastLine, last.value, i);
    }
  }

  /** Row r of a width-by-height image, pixel p, is inside the surface. */
  lemma DestinationInBounds(width: int, height: int, r: int, p: int)
    requires 0 <= r < height && 0 <= p < width
    ensures 0 <= r * width + p < width * height
  {
    MulLe(r + 1, height, width);
    MulSucc(r, width);
  }

  /** cpp:204-222: with a downscaler, exactly one row is committed per
      transferred row, row k holding the words packed from the bytes at
      (k * width + p) * 4 of the buffer; the surface is not written. */
  lemma ReconcileDownscaledRows(s: State, lastLineRead: int, width: int, height: int)
    requires DS.Inv(s) && s.contextInitialized && s.data.Some? && s.size == Some(Size(width, height))
    requires s.downscaler.Some?
    requires LastToTransfer(s.previousLastLine, lastLineRead, height).Some?
    ensures var last := LastToTransfer(s.previousLastLine, lastLineRead, height).value;
      var t := DS.Reconcile(s, lastLineRead, width, height);
      && t.surface == s.surface
      && t.downscaler.Some?
      && t.downscaler.value.committed == s.downscaler.value.committed + Rows(s.data.value, width, 0, last - s.previousLastLine + 1)
      && |t.downscaler.value.committed| == |s.downscaler.value.committed| + (last - s.previousLastLine + 1)
  {
    var last := LastToTransfer(s.previousLastLine, lastLineRead, height).value;
    assert DS.Reconcile(s, lastLineRead, width, height).downscaler == DS.TransferRows(s, last, width).downscaler;
  }

  /** The rows given to the downscaler, word by word. */
  lemma CommittedRowWord(src: seq<byte>, width: nat, n: nat, k: int, p: int)
    requires 0 <= k < n && 0 <= p < width
    ensures |Rows(src, width, 0, n)[k]| == width
    ensures Rows(src, width, 0, n)[k][p] == WordAt(src, 4 * (k * width + p))
  {
    WordsAt(src, SourceOffset(width, 0, k, 0), width, p);
    PixelOffset(width, k, p);
  }

  /** With a downscaler and a buffer holding the 4 * width * height bytes of
      the image, word p of the k-th row committed by the call is packed from
      the four bytes at 4 * (k * width + p), alpha from the fourth. */
  lemma ReconcileDownscaledBytes(s: State, lastLineRead: int, width: int, height: int, k: int, p: int)
    requires DS.Inv(s) && s.contextInitialized && s.data.Some? && s.size == Some(Size(width, height))
    requires s.downscaler.Some? && |s.data.value| >= 4 * width * height
    requires var last := LastToTransfer(s.previousLastLine, lastLineRead, height);
      last.Some? && 0 <= k <= last.value - s.previousLastLine
    requires 0 <= p < width
    ensures var src := s.data.value;
      var before := |s.downscaler.value.committed|;
      var t := DS.Reconcile(s, lastLineRead, width, height);
      var o := 4 * (k * width + p);
      && t.downscaler.Some? && before + k < |t.downscaler.value.committed|
      && |t.downscaler.value.committed[before + k]| == width
      && 0 <= o && o + 4 <= |src|
      && t.downscaler.value.committed[before + k][p] == Pack(src[o + 3], src[o], src[o + 1], src[o + 2])
  {
    var last := LastToTransfer(s.previousLastLine, lastLineRead, height).value;
    var n := last - s.previousLastLine + 1;
    ReconcileDownscaledRows(s, lastLineRead, width, height);
    CommittedRowWord(s.data.value, width, n, k, p);
    WordInBuffer(s.data.value, width, height, k, p);
  }

  // ---------------------------------------------------------------------
  // What every call preserves

  /** What can only grow or stay: the event log is only appended to, the
      cursor never moves back, a known size and an initialised context stay,
      the downscaler's presence and the size-only mode never change. */
  predicate Grows(s: State, t: State)
  {
    && s.events <= t.events
    && s.previousLastLine <= t.previousLastLine
    && (s.size.Some? ==> t.size == s.size)
    && (s.contextInitialized ==> t.contextInitialized && t.bufferRowPadding == s.bufferRowPadding)
    && t.downscaler.Some? == s.downscaler.Some?
    && t.sizeDecode == s.sizeDecode
    && t.handle == s.handle
  }

  lemma ReconcileGrows(s: State, lastLineRead: int, width: int, height: int)
    requires DS.Inv(s) && s.contextInitialized && s.data.Some? && s.size == Some(Size(width, height))
    ensures var t := DS.Reconcile(s, lastLineRead, width, height);
      Grows(s, t) && t.engineCalls == s.engineCalls
  {
  }

  lemma SizedGrows(s: State, p: Progress, beginOk: bool)
    requires DS.Inv(s) && s.size.Some? && s.data == p.data && p.data.Some? && s.dataPos == 0
    ensures var t := DS.Sized(s, p, beginOk);
      Grows(s, t) && t.engineCalls == s.engineCalls
  {
    if !s.sizeDecode && s.size.value == Size(p.width, p.height) && !(!s.contextInitialized && s.downscaler.Some? && !beginOk) {
      var c := if s.contextInitialized then s else DS.InitContext(s, p.stride);
      ReconcileGrows(c, p.lastLineRead, p.width, p.height);
    }
  }

  lemma ProgressedGrows(s: State, p: Progress, beginOk: bool)
    requires DS.Inv(s) && s.data == p.data && s.dataPos == 0
    ensures var t := DS.Progressed(s, p, beginOk);
      Grows(s, t) && t.engineCalls == s.engineCalls
  {
    if p.lastLineRead != -1 && p.data.Some? && !(s.size.None? && (p.width <= 0 || p.height <= 0)) {
      SizedGrows(Known(s, p), p, beginOk);
    }
  }

  /** Every WriteInternal call grows the state; the engine is asked for the
      progress (after the append) exactly when the status is OK or SUSPENDED. */
  lemma WriteGrows(s: State, chunk: seq<byte>, reply: Reply, beginOk: bool)
    requires DS.Inv(s)
    ensures var t := DS.Write(s, chunk, reply, beginOk);
      && Grows(s, t)
      && t.engineCalls == s.engineCalls + [Append(chunk)] + (if Classify(reply.status) == Proceed then [GetRGB] else [])
  {
    if Classify(reply.status) == Proceed {
      ProgressedGrows(Queried(s, chunk, reply.progress), reply.progress, beginOk);
    }
  }

  // ---------------------------------------------------------------------
  // How the event log and the fields agree

  /** Between calls, before FinishInternal: the size was posted once iff it is
      known; transparency at most once, and (while no error) exactly when the
      context is initialised; a size-only decode posts neither transparency
      nor invalidations; at most one error; no frame stop or decode done yet. */
  predicate Coherent(s: State)
  {
    && Count(s.events, SizeTag) == (if s.size.Some? then 1 else 0)
    && Count(s.events, TransparencyTag) <= 1
    && (!DS.HasError(s) ==> Count(s.events, TransparencyTag) == (if s.contextInitialized then 1 else 0))
    && (s.sizeDecode ==> Count(s.events, TransparencyTag) == 0 && Count(s.events, InvalidationTag) == 0)
    && ErrorCount(s.events) <= 1
    && Count(s.events, FrameStopTag) == 0 && Count(s.events, DecodeDoneTag) == 0
  }

  /** Posting e adds one to e's kind and nothing to the others. */
  lemma CountPost(s: State, e: Event)
    requires DS.Inv(s)
    ensures forall t :: Count(DS.Post(s, e).events, t) == Count(s.events, t) + (if e.Tag() == t then 1 else 0)
  {
    forall t {
      CountSnoc(s.events, e, t);
    }
  }

  /** The transfer posts one invalidation and nothing else. */
  lemma ReconcileCounts(s: State, lastLineRead: int, width: int, height: int)
    requires DS.Inv(s) && s.contextInitialized && s.data.Some? && s.size == Some(Size(width, height))
    ensures var t := DS.Reconcile(s, lastLineRead, width, height);
      forall g :: g != InvalidationTag ==> Count(t.events, g) == Count(s.events, g)
  {
    match LastToTransfer(s.previousLastLine, lastLineRead, height)
    case None =>
    case Some(last) =>
      var m := DS.TransferRows(s, last, width);
      CountPost(m, Invalidation(Rect(0, s.previousLastLine, width, last),
        if m.downscaler.Some? then Some(InvalidRect(m.downscaler.value)) else None));
  }

  /** An error posted while none was keeps the log coherent. */
  lemma CoherentError(s: State, e: Event)
    requires DS.Inv(s) && Coherent(s) && !DS.HasError(s) && e.IsError()
    ensures Coherent(DS.Post(s, e)) && DS.HasError(DS.Post(s, e))
  {
    CountPost(s, e);
  }

  lemma CoherentSize(s: State, width: int, height: int)
    requires DS.Inv(s) && Coherent(s) && !DS.HasError(s) && s.size.None? && width > 0 && height > 0
    ensures Coherent(DS.PostSize(s, width, height)) && !DS.HasError(DS.PostSize(s, width, height))
  {
    CountSnoc(s.events, SizeKnown(Size(width, height)), SizeTag);
    CountSnoc(s.events, SizeKnown(Size(width, height)), TransparencyTag);
    CountSnoc(s.events, SizeKnown(Size(width, height)), InvalidationTag);
    CountSnoc(s.events, SizeKnown(Size(width, height)), DataErrorTag);
    CountSnoc(s.events, SizeKnown(Size(width, height)), DecoderErrorTag);
    CountSnoc(s.events, SizeKnown(Size(width, height)), FrameStopTag);
    CountSnoc(s.events, SizeKnown(Size(width, height)), DecodeDoneTag);
  }

  lemma CoherentInitContext(s: State, stride: int)
    requires DS.Inv(s) && Coherent(s) && !DS.HasError(s) && s.size.Some? && !s.sizeDecode && !s.contextInitialized
    ensures Coherent(DS.InitContext(s, stride)) && !DS.HasError(DS.InitContext(s, stride))
  {
    CountPost(s, HasTransparency);
  }

  lemma CoherentBeginFrameFails(s: State)
    requires DS.Inv(s) && Coherent(s) && !DS.HasError(s) && !s.sizeDecode && !s.contextInitialized
    ensures Coherent(DS.Post(DS.Post(s, HasTransparency), DecoderError(Failure)))
  {
    CountPost(s, HasTransparency);
    var s1 := DS.Post(s, HasTransparency);
    assert Count(s1.events, TransparencyTag) == 1;
    CountPost(s1, DecoderError(Failure));
  }

  lemma CoherentReconcile(s: State, lastLineRead: int, width: int, height: int)
    requires DS.Inv(s) && s.contextInitialized && s.data.Some? && s.size == Some(Size(width, height))
    requires Coherent(s) && !DS.HasError(s)
    ensures Coherent(DS.Reconcile(s, lastLineRead, width, height))
    ensures !DS.HasError(DS.Reconcile(s, lastLineRead, width, height))
  {
    ReconcileCounts(s, lastLineRead, width, height);
    ReconcileGrows(s, lastLineRead, width, height);
  }

  lemma SizedCoherent(s: State, p: Progress, beginOk: bool)
    requires DS.Inv(s) && s.size.Some? && s.data == p.data && p.data.Some? && s.dataPos == 0
    requires Coherent(s) && !DS.HasError(s)
    ensures Coherent(DS.Sized(s, p, beginOk))
  {
    if s.sizeDecode {
    } else if s.size.value != Size(p.width, p.height) {
      CoherentError(s, DecoderError(Failure));
    } else if !s.contextInitialized && s.downscaler.Some? && !beginOk {
      CoherentBeginFrameFails(s);
    } else {
      if !s.contextInitialized {
        CoherentInitContext(s, p.stride);
      }
      CoherentReconcile(Ready(s, p), p.lastLineRead, p.width, p.height);
    }
  }

  lemma ProgressedCoherent(s: State, p: Progress, beginOk: bool)
    requires DS.Inv(s) && s.data == p.data && s.dataPos == 0
    requires Coherent(s) && !DS.HasError(s)
    ensures Coherent(DS.Progressed(s, p, beginOk))
  {
    if p.lastLineRead == -1 || p.data.None? {
    } else if s.size.None? && (p.width <= 0 || p.height <= 0) {
      CoherentError(s, DataError);
    } else {
      if s.size.None? {
        CoherentSize(s, p.width, p.height);
      }
      SizedCoherent(Known(s, p), p, beginOk);
    }
  }

  /** WriteInternal, called while no error is posted (cpp:91), keeps the log
      and the fields in agreement. */
  lemma WriteCoherent(s: State, chunk: seq<byte>, reply: Reply, beginOk: bool)
    requires DS.Inv(s) && Coherent(s) && !DS.HasError(s)
    ensures Coherent(DS.Write(s, chunk, reply, beginOk))
  {
    match Classify(reply.status)
    case Reject(e) =>
      CoherentError(s.(engineCalls := s.engineCalls + [Append(chunk)]), e);
    case Proceed =>
      ProgressedCoherent(Queried(s, chunk, reply.progress), reply.progress, beginOk);
  }

  /** A call made once the context is initialised adds no transparency. */
  lemma WriteCounts(s: State, chunk: seq<byte>, reply: Reply, beginOk: bool)
    requires DS.Inv(s) && s.contextInitialized
    ensures var t := DS.Write(s, chunk, reply, beginOk);
      Count(t.events, TransparencyTag) == Count(s.events, TransparencyTag)
  {
    match Classify(reply.status)
    case Reject(e) =>
      CountPost(s.(engineCalls := s.engineCalls + [Append(chunk)]), e);
    case Proceed =>
      var p := reply.progress;
      var q := Queried(s, chunk, p);
      if p.lastLineRead != -1 && p.data.Some? && !(q.size.None? && (p.width <= 0 || p.height <= 0)) {
        if q.size.value != Size(p.width, p.height) {
          CountPost(q, DecoderError(Failure));
        } else {
          ReconcileCounts(q, p.lastLineRead, p.width, p.height);
        }
      }
  }

  // ---------------------------------------------------------------------
  // A whole decoding session

  /** One chunk handed to WriteInternal, with the engine's reply to it and the
      result BeginFrame would give. */
  datatype Chunk = Chunk(bytes: seq<byte>, reply: Reply, beginOk: bool)

  /** The chunks are handed over one by one; once an error is posted no
      further chunk is (WriteInternal must not be called then, cpp:91). */
  function Feed(s: State, chunks: seq<Chunk>): (t: State)
    requires DS.Inv(s)
    ensures DS.Inv(t)
    decreases |chunks|
  {
    if chunks == [] || DS.HasError(s) then s
    else Feed(DS.Write(s, chunks[0].bytes, chunks[0].reply, chunks[0].beginOk), chunks[1..])
  }

  /** A decoding session: construction, an optional SetTargetSize, InitInternal
      (whose handle creation succeeds or not), the chunks, FinishInternal when
      no error was posted (cpp:76), and the destructor. */
  function Session(sizeDecode: bool, target: Option<Size>, created: bool, chunks: seq<Chunk>, frameCount: nat): (t: State)
    requires frameCount <= 1
  {
    Close(Feed(Started(sizeDecode, target, created), chunks), frameCount)
  }

  /** FinishInternal when no error was posted, then the destructor. */
  function Close(s: State, frameCount: nat): (t: State)
    requires DS.Inv(s) && frameCount <= 1
  {
    DS.Destroy(if DS.HasError(s) then s else DS.Finish(s, frameCount))
  }

  /** The state after construction, the optional SetTargetSize and InitInternal. */
  function Started(sizeDecode: bool, target: Option<Size>, created: bool): (s: State)
    ensures DS.Inv(s)
  {
    DS.Init(Targeted(sizeDecode, target), created)
  }

  /** The state after construction (cpp:23-29) and the optional SetTargetSize
      (cpp:47-60): nothing posted or asked of the engine yet, and a downscaler
      exactly when a target with positive sides was given. It is written as the
      constructed state with that downscaler; TargetedBySetTargetSize shows it
      is what SetTargetSize leaves. */
  function Targeted(sizeDecode: bool, target: Option<Size>): (s: State)
    ensures DS.Inv(s) && s.events == [] && s.engineCalls == [] && s.size.None? && s.sizeDecode == sizeDecode
    ensures s.downscaler.Some? <==> target.Some? && target.value.width > 0 && target.value.height > 0
  {
    var ok := target.Some? && target.value.width > 0 && target.value.height > 0;
    DS.Initial(sizeDecode).(downscaler := if ok then Some(NewSink(target.value)) else None)
  }

  /** Targeted is the constructed decoder, after SetTargetSize when a target
      is given. */
  lemma TargetedBySetTargetSize(sizeDecode: bool, target: Option<Size>)
    ensures target.None? ==> Targeted(sizeDecode, target) == DS.Initial(sizeDecode)
    ensures target.Some? ==> Targeted(sizeDecode, target) == DS.SetTargetSize(DS.Initial(sizeDecode), target.value).1
  {
  }

  lemma GrowsTrans(a: State, b: State, c: State)
    requires Grows(a, b) && Grows(b, c)
    ensures Grows(a, c)
  {
  }

  /** Calls that only hand over data or ask for progress. */
  predicate Streaming(calls: seq<EngineCall>)
  {
    forall i :: 0 <= i < |calls| ==> calls[i].Append? || calls[i].GetRGB?
  }

  lemma StreamingTrans(a: seq<EngineCall>, b: seq<EngineCall>, c: seq<EngineCall>)
    requires a <= b <= c && Streaming(b[|a|..]) && Streaming(c[|b|..])
    ensures a <= c && Streaming(c[|a|..])
  {
    forall i | 0 <= i < |c| - |a|
      ensures c[|a|..][i].Append? || c[|a|..][i].GetRGB?
    {
      if |a| + i < |b| {
        assert c[|a|..][i] == b[|a|..][i];
      } else {
        assert c[|a|..][i] == c[|b|..][|a| + i - |b|];
      }
    }
  }

  /** Any number of chunks grows the state as one call does. */
  lemma {:induction false} FeedGrows(s: State, chunks: seq<Chunk>)
    requires DS.Inv(s)
    ensures Grows(s, Feed(s, chunks))
    decreases |chunks|
  {
    if chunks != [] && !DS.HasError(s) {
      var c := chunks[0];
      var s1 := DS.Write(s, c.bytes, c.reply, c.beginOk);
      WriteGrows(s, c.bytes, c.reply, c.beginOk);
      FeedGrows(s1, chunks[1..]);
      GrowsTrans(s, s1, Feed(s1, chunks[1..]));
    }
  }

  /** Any number of chunks asks the engine only to append and to report. */
  lemma {:induction false} FeedStreams(s: State, chunks: seq<Chunk>)
    requires DS.Inv(s)
    ensures var t := Feed(s, chunks);
      s.engineCalls <= t.engineCalls && Streaming(t.engineCalls[|s.engineCalls|..])
    decreases |chunks|
  {
    if chunks != [] && !DS.HasError(s) {
      var c := chunks[0];
      var s1 := DS.Write(s, c.bytes, c.reply, c.beginOk);
      WriteStreams(s, c.bytes, c.reply, c.beginOk);
      FeedStreams(s1, chunks[1..]);
      StreamingTrans(s.engineCalls, s1.engineCalls, Feed(s1, chunks[1..]).engineCalls);
    } else {
      assert s.engineCalls[|s.engineCalls|..] == [];
    }
  }

  lemma WriteStreams(s: State, chunk: seq<byte>, reply: Reply, beginOk: bool)
    requires DS.Inv(s)
    ensures var t := DS.Write(s, chunk, reply, beginOk);
      s.engineCalls <= t.engineCalls && Streaming(t.engineCalls[|s.engineCalls|..])
  {
    WriteGrows(s, chunk, reply, beginOk);
    var t := DS.Write(s, chunk, reply, beginOk);
    assert t.engineCalls[|s.engineCalls|..] == [Append(chunk)] + (if Classify(reply.status) == Proceed then [GetRGB] else []);
  }

  lemma {:induction false} FeedCoherent(s: State, chunks: seq<Chunk>)
    requires DS.Inv(s) && Coherent(s)
    ensures Coherent(Feed(s, chunks))
    decreases |chunks|
  {
    if chunks != [] && !DS.HasError(s) {
      var c := chunks[0];
      WriteCoherent(s, c.bytes, c.reply, c.beginOk);
      FeedCoherent(DS.Write(s, c.bytes, c.reply, c.beginOk), chunks[1..]);
    }
  }

  /** The state InitInternal leaves, with or without a downscaler. */
  lemma InitCoherent(sizeDecode: bool, target: Option<Size>, created: bool)
    ensures var s := Started(sizeDecode, target, created);
      && Coherent(s)
      && s.engineCalls == [NewRGB]
      && s.handle == created
      && s.sizeDecode == sizeDecode
      && (DS.HasError(s) <==> !created)
      && (s.downscaler.Some? <==> target.Some? && target.value.width > 0 && target.value.height > 0)
  {
    InitFacts(Targeted(sizeDecode, target), created);
  }

  /** InitInternal on a fresh decoder (cpp:63-71): the handle is asked for, and
      a null one is the only error. */
  lemma InitFacts(s: State, created: bool)
    requires DS.Inv(s) && s.events == [] && s.engineCalls == [] && s.size.None?
    ensures var t := DS.Init(s, created);
      && Coherent(t)
      && t.engineCalls == [NewRGB]
      && t.handle == created
      && t.sizeDecode == s.sizeDecode
      && t.downscaler == s.downscaler
      && (DS.HasError(t) <==> !created)
  {
    var s1 := s.(engineCalls := s.engineCalls + [NewRGB], handle := created);
    assert Coherent(s1);
    if !created {
      CoherentError(s1, DecoderError(Failure));
    }
  }

  /** FinishInternal and the destructor: frame stop then decode done are
      posted exactly for a full decode of one frame with no error
      (cpp:82-85), and the handle is released (cpp:42-43). */
  lemma CloseFacts(s: State, frameCount: nat)
    requires DS.Inv(s) && frameCount <= 1
    ensures var t := Close(s, frameCount);
      var done := !s.sizeDecode && frameCount == 1 && !DS.HasError(s);
      t == s.(events := s.events + (if done then [FrameStop, DecodeDone] else []),
              engineCalls := s.engineCalls + [Delete(s.handle)])
  {
  }

  /** What is posted by the end of a session that was coherent before
      FinishInternal. */
  lemma CloseEvents(s: State, frameCount: nat)
    requires DS.Inv(s) && Coherent(s) && frameCount <= 1
    ensures var t := Close(s, frameCount);
      var done := !s.sizeDecode && frameCount == 1 && !DS.HasError(t);
      && t.size == s.size && t.downscaler == s.downscaler
      && Count(t.events, SizeTag) == (if t.size.Some? then 1 else 0)
      && Count(t.events, TransparencyTag) <= 1
      && ErrorCount(t.events) <= 1
      && (s.sizeDecode ==> Count(t.events, TransparencyTag) == 0 && Count(t.events, InvalidationTag) == 0)
      && Count(t.events, FrameStopTag) == (if done then 1 else 0)
      && Count(t.events, DecodeDoneTag) == (if done then 1 else 0)
      && (done ==> |t.events| >= 2 && t.events[|t.events| - 2..] == [FrameStop, DecodeDone])
  {
    CloseFacts(s, frameCount);
    if !DS.HasError(s) && !s.sizeDecode && frameCount == 1 {
      CloseEventsDone(s, frameCount);
    }
  }

  lemma CloseEventsDone(s: State, frameCount: nat)
    requires DS.Inv(s) && Coherent(s) && frameCount == 1 && !DS.HasError(s) && !s.sizeDecode
    ensures var t := Close(s, frameCount);
      && Count(t.events, SizeTag) == Count(s.events, SizeTag)
      && Count(t.events, TransparencyTag) == Count(s.events, TransparencyTag)
      && Count(t.events, InvalidationTag) == Count(s.events, InvalidationTag)
      && ErrorCount(t.events) == 0
      && Count(t.events, FrameStopTag) == 1
      && Count(t.events, DecodeDoneTag) == 1
      && |t.events| >= 2 && t.events[|t.events| - 2..] == [FrameStop, DecodeDone]
  {
    CloseFacts(s, frameCount);
    assert Close(s, frameCount).events == s.events + [FrameStop] + [DecodeDone];
    FinishLog(s.events);
  }

  /** The log FinishInternal leaves when it posts: one more frame stop and
      decode done, last, and no other kind of event. */
  lemma FinishLog(log: seq<Event>)
    ensures var l := log + [FrameStop] + [DecodeDone];
      && Count(l, SizeTag) == Count(log, SizeTag)
      && Count(l, TransparencyTag) == Count(log, TransparencyTag)
      && Count(l, InvalidationTag) == Count(log, InvalidationTag)
      && ErrorCount(l) == ErrorCount(log)
      && Count(l, FrameStopTag) == Count(log, FrameStopTag) + 1
      && Count(l, DecodeDoneTag) == Count(log, DecodeDoneTag) + 1
      && l[|l| - 2..] == [FrameStop, DecodeDone]
  {
    var l := log + [FrameStop] + [DecodeDone];
    ErrorCountSnoc(log, FrameStop);
    ErrorCountSnoc(log + [FrameStop], DecodeDone);
    CountSnoc(log, FrameStop, SizeTag);
    CountSnoc(log + [FrameStop], DecodeDone, SizeTag);
    CountSnoc(log, FrameStop, TransparencyTag);
    CountSnoc(log + [FrameStop], DecodeDone, TransparencyTag);
    CountSnoc(log, FrameStop, InvalidationTag);
    CountSnoc(log + [FrameStop], DecodeDone, InvalidationTag);
    CountSnoc(log, FrameStop, FrameStopTag);
    CountSnoc(log + [FrameStop], DecodeDone, FrameStopTag);
    CountSnoc(log, FrameStop, DecodeDoneTag);
    CountSnoc(log + [FrameStop], DecodeDone, DecodeDoneTag);
    assert l[|l| - 2..] == [FrameStop, DecodeDone];
  }

  /** The engine calls at the end of a session that was started, then fed. */
  lemma CloseCalls(s: State, frameCount: nat)
    requires DS.Inv(s) && frameCount <= 1
    requires [NewRGB] <= s.engineCalls && Streaming(s.engineCalls[1..])
    ensures var calls := Close(s, frameCount).engineCalls;
      && |calls| >= 2 && calls[0] == NewRGB && calls[|calls| - 1] == Delete(s.handle)
      && Streaming(calls[1..|calls| - 1])
  {
    var calls := Close(s, frameCount).engineCalls;
    assert calls == s.engineCalls + [Delete(s.handle)];
    assert calls[1..|calls| - 1] == s.engineCalls[1..];
  }

  /** The engine across a session: the handle is created first and released
      last, exactly once, null or not (cpp:42-43); between the two the decoder
      only appends and asks for progress. */
  lemma SessionEngineCalls(sizeDecode: bool, target: Option<Size>, created: bool, chunks: seq<Chunk>, frameCount: nat)
    requires frameCount <= 1
    ensures var calls := Session(sizeDecode, target, created, chunks, frameCount).engineCalls;
      && |calls| >= 2
      && calls[0] == NewRGB
      && calls[|calls| - 1] == Delete(created)
      && Streaming(calls[1..|calls| - 1])
  {
    InitCoherent(sizeDecode, target, created);
    var s2 := Started(sizeDecode, target, created);
    var s3 := Feed(s2, chunks);
    FeedStreams(s2, chunks);
    FeedGrows(s2, chunks);
    CloseCalls(s3, frameCount);
  }

  /** A session whose handle could not be created (cpp:65-70) hands the
      engine nothing: the null handle is created, then released. */
  lemma SessionWithoutHandle(sizeDecode: bool, target: Option<Size>, chunks: seq<Chunk>, frameCount: nat)
    requires frameCount <= 1
    ensures Session(sizeDecode, target, false, chunks, frameCount).engineCalls == [NewRGB, Delete(false)]
  {
    InitCoherent(sizeDecode, target, false);
    var s2 := Started(sizeDecode, target, false);
    assert Feed(s2, chunks) == s2;
    CloseFacts(s2, frameCount);
  }

  /** What a session posts: the size at most once, and exactly when it is
      known; transparency at most once; at most one error; nothing of a
      frame in a size-only decode; frame stop then decode done, once each and
      last, exactly for a full decode of one frame with no error. */
  lemma SessionEvents(sizeDecode: bool, target: Option<Size>, created: bool, chunks: seq<Chunk>, frameCount: nat)
    requires frameCount <= 1
    ensures var t := Session(sizeDecode, target, created, chunks, frameCount);
      var done := !sizeDecode && frameCount == 1 && !DS.HasError(t);
      && Count(t.events, SizeTag) == (if t.size.Some? then 1 else 0)
      && Count(t.events, TransparencyTag) <= 1
      && ErrorCount(t.events) <= 1
      && (sizeDecode ==> Count(t.events, TransparencyTag) == 0 && Count(t.events, InvalidationTag) == 0)
      && Count(t.events, FrameStopTag) == (if done then 1 else 0)
      && Count(t.events, DecodeDoneTag) == (if done then 1 else 0)
      && (done ==> |t.events| >= 2 && t.events[|t.events| - 2..] == [FrameStop, DecodeDone])
  {
    InitCoherent(sizeDecode, target, created);
    var s2 := Started(sizeDecode, target, created);
    var s3 := Feed(s2, chunks);
    FeedGrows(s2, chunks);
    FeedCoherent(s2, chunks);
    CloseEvents(s3, frameCount);
  }

  /** A session has a downscaler exactly when SetTargetSize succeeded
      (cpp:52-57); its presence never changes afterwards. */
  lemma SessionDownscaler(sizeDecode: bool, target: Option<Size>, created: bool, chunks: seq<Chunk>, frameCount: nat)
    requires frameCount <= 1
    ensures var t := Session(sizeDecode, target, created, chunks, frameCount);
      t.downscaler.Some? <==> target.Some? && target.value.width > 0 && target.value.height > 0
  {
    InitCoherent(sizeDecode, target, created);
    var s2 := Started(sizeDecode, target, created);
    var s3 := Feed(s2, chunks);
    FeedGrows(s2, chunks);
    CloseFacts(s3, frameCount);
  }

  /** The fields a session leaves: the row padding the loops use is still 0
      (cpp:27), the cursor is a row of the image, and the cursor never moved
      back from its initial 0 (cpp:28). */
  lemma SessionCursor(sizeDecode: bool, target: Option<Size>, created: bool, chunks: seq<Chunk>, frameCount: nat)
    requires frameCount <= 1
    ensures var t := Session(sizeDecode, target, created, chunks, frameCount);
      && t.dataRowPadding == 0
      && 0 <= t.previousLastLine
      && (t.size.Some? ==> t.previousLastLine < t.size.value.height)
      && (t.size.None? ==> t.previousLastLine == 0 && !t.contextInitialized)
  {
    CloseFacts(Feed(Started(sizeDecode, target, created), chunks), frameCount);
  }
}
