/**
  The decoder as a value. State holds every field of nsWEBPDecoder together
  with the parts of the Decoder base class it reads or changes (the size, the
  frame surface mImageData and the notifications, as an event log). Each
  member of nsWEBPDecoder is a function taking the state before the call to
  the state after it; the class in module WebP is proved to do exactly that.
*/
module DecodeSession {
  import opened Options
  import opened Pixels
  import opened Host
  import opened Engine
  import opened Transfer
  import opened Downscaling

  datatype State = State(
    // Decoder base class: IsSizeDecode(), HasSize()/GetSize(), mImageData, Post... log
    sizeDecode: bool,
    size: Option<Size>,
    surface: seq<Pixel>,
    events: seq<Event>,
    // nsWEBPDecoder members (nsWEBPDecoder.h:35-40), then mBufferRowPadding,
    // which that header does not declare: a Decoder base-class field
    downscaler: Option<Sink>,
    handle: bool,                  // mDecoder != nullptr
    engineCalls: seq<EngineCall>,  // what has been asked of mDecoder
    data: Option<seq<byte>>,       // the buffer mData points into (None: null)
    dataPos: int,                  // the offset of mData in that buffer
    dataRowPadding: int,
    bufferRowPadding: int,
    previousLastLine: int,
    contextInitialized: bool)

  /** The constructor (cpp:23-29): no handle, no data, cursor at 0 (not -1),
      context not initialised, no downscaler. */
  function Initial(sizeDecode: bool): (r: State)
    ensures Inv(r) && !HasError(r)
    ensures r.previousLastLine == 0 && r.dataRowPadding == 0 && !r.contextInitialized
    ensures !r.handle && r.data.None? && r.downscaler.None? && r.size.None?
    ensures r.events == [] && r.engineCalls == [] && r.sizeDecode == sizeDecode
  {
    State(sizeDecode, None, [], [], None, false, [], None, 0, 0, 0, 0, false)
  }

  /** HasError() of the Decoder base class: a data or decoder error was posted. */
  predicate HasError(s: State)
  {
    ErrorCount(s.events) > 0
  }

  /** What holds of the decoder between calls. */
  predicate Inv(s: State)
  {
    // mDataRowPadding is 0 (cpp:27) and never assigned.
    && s.dataRowPadding == 0
    && 0 <= s.previousLastLine
    && (s.size.None? ==> s.previousLastLine == 0 && !s.contextInitialized)
    // Once the size is known the cursor is a row of the image.
    && (s.size.Some? ==>
          0 < s.size.value.width && 0 < s.size.value.height && s.previousLastLine < s.size.value.height)
    && (s.contextInitialized ==> !s.sizeDecode)
    && (s.downscaler.Some? ==> 0 < s.downscaler.value.target.width && 0 < s.downscaler.value.target.height)
    // Without a downscaler the surface is the image, one word per pixel.
    && (s.size.Some? && !s.sizeDecode && s.downscaler.None? ==>
          |s.surface| == s.size.value.width * s.size.value.height)
    // Once the context is initialised, the downscaler has begun the frame.
    && (s.contextInitialized && s.downscaler.Some? ==>
          s.downscaler.value.frame == s.size && |s.downscaler.value.rowBuffer| == s.size.value.width)
  }

  function Post(s: State, e: Event): (t: State)
    requires Inv(s)
    ensures Inv(t)
  {
    s.(events := s.events + [e])
  }

  /** SetTargetSize (cpp:47-60): a size with a non-positive side fails and
      changes nothing; otherwise a new downscaler for that size replaces any
      previous one. It is called before decoding begins. */
  function SetTargetSize(s: State, target: Size): (r: (bool, State))
    requires Inv(s) && !s.contextInitialized
    ensures r.0 <==> target.width > 0 && target.height > 0
    ensures r.0 ==> r.1 == s.(downscaler := Some(NewSink(target)))
    ensures !r.0 ==> r.1 == s
    ensures Inv(r.1)
  {
    if target.width <= 0 || target.height <= 0 then (false, s)
    else (true, s.(downscaler := Some(NewSink(target))))
  }

  /** InitInternal (cpp:63-71): create the engine handle; a null handle is a
      decoder error. */
  function Init(s: State, created: bool): (t: State)
    requires Inv(s)
    ensures Inv(t)
    ensures t.handle == created && t.engineCalls == s.engineCalls + [NewRGB]
    ensures t.events == if created then s.events else s.events + [DecoderError(Failure)]
    ensures t.size == s.size && t.downscaler == s.downscaler && t.sizeDecode == s.sizeDecode
  {
    var s1 := s.(engineCalls := s.engineCalls + [NewRGB], handle := created);
    if created then s1 else Post(s1, DecoderError(Failure))
  }

  /** PostSize of the Decoder base class. That the host then provides the frame
      surface (one zeroed word per output pixel: the image, or the downscaler's
      target) is how the model stands for the allocation of mImageData. */
  function PostSize(s: State, width: int, height: int): (t: State)
    requires Inv(s) && s.size.None? && width > 0 && height > 0
    ensures Inv(t) && t.size == Some(Size(width, height))
  {
    var area := if s.downscaler.Some? then s.downscaler.value.target.width * s.downscaler.value.target.height
                else width * height;
    s.(events := s.events + [SizeKnown(Size(width, height))],
       size := Some(Size(width, height)),
       surface := if s.sizeDecode then s.surface else seq(area, _ => 0))
  }

  /** The one-time context setup (cpp:158-182) when it succeeds: transparency
      is posted, the downscaler (if any) begins the frame with alpha, and the
      buffer padding is computed. */
  function InitContext(s: State, stride: int): (t: State)
    requires Inv(s) && s.size.Some? && !s.sizeDecode
    ensures Inv(t) && t.contextInitialized && t.size == s.size && t.previousLastLine == s.previousLastLine
  {
    var s1 := Post(s, HasTransparency);
    var s2 := if s1.downscaler.Some? then s1.(downscaler := Some(Begun(s1.downscaler.value, s1.size.value, true))) else s1;
    s2.(bufferRowPadding := stride - s.size.value.width * 4, contextInitialized := true)
  }

  /** The row loops (cpp:204-240) for rows previousLastLine..last, source read
      from the start of the buffer. */
  function TransferRows(s: State, last: int, width: int): (t: State)
    requires Inv(s) && s.contextInitialized && s.data.Some? && s.size.Some? && width == s.size.value.width
    requires s.previousLastLine <= last
    ensures Inv(t) && t.size == s.size && t.previousLastLine == s.previousLastLine && t.contextInitialized
  {
    var n := last - s.previousLastLine + 1;
    var src := s.data.value;
    var pad := s.dataRowPadding;
    var s1 := s.(dataPos := n * (4 * width + pad));
    if s.downscaler.Some? then
      var d := s.downscaler.value;
      var rows := Rows(src, width, pad, n);
      s1.(downscaler := Some(d.(rowBuffer := Row(src, width, pad, n - 1), committed := d.committed + rows)))
    else
      s1.(surface := DirectTransfer(s.surface, src, width, pad, s.previousLastLine, last))
  }

  /** cpp:243-246: one invalidation (0, previousLastLine, width, last), with the
      downscaler's rectangle when there is a downscaler; then the cursor moves. */
  function Invalidate(s: State, last: int, width: int): (t: State)
    requires Inv(s) && s.size.Some? && s.previousLastLine <= last < s.size.value.height
    ensures Inv(t)
  {
    var filter := if s.downscaler.Some? then Some(InvalidRect(s.downscaler.value)) else None;
    Post(s, Invalidation(Rect(0, s.previousLastLine, width, last), filter)).(previousLastLine := last)
  }

  /** WriteInternal (cpp:89-248) for one chunk, given the engine's reply and
      the result BeginFrame would give: the chunk is appended, and the status
      either ends the call with an error or the progress is read. */
  function Write(s: State, chunk: seq<byte>, reply: Reply, beginOk: bool): (t: State)
    requires Inv(s)
    ensures Inv(t)
  {
    var s0 := s.(engineCalls := s.engineCalls + [Append(chunk)]);
    match Classify(reply.status)
    case Reject(e) => Post(s0, e)
    case Proceed =>
      var p := reply.progress;
      Progressed(s0.(engineCalls := s0.engineCalls + [GetRGB], data := p.data, dataPos := 0), p, beginOk)
  }

  /** cpp:116-143, after WebPIDecGetRGB: no rows yet or no buffer ends the
      call; a first report with a non-positive side is a data error; the first
      valid report publishes the size. */
  function Progressed(s: State, p: Progress, beginOk: bool): (t: State)
    requires Inv(s) && s.data == p.data && s.dataPos == 0
    ensures Inv(t)
  {
    if p.lastLineRead == -1 || p.data.None? then s
    else if s.size.None? && (p.width <= 0 || p.height <= 0) then Post(s, DataError)
    else Sized(if s.size.None? then PostSize(s, p.width, p.height) else s, p, beginOk)
  }

  /** cpp:145-246, once the size is known: a size-only decode stops; a
      geometry that differs from the published size is a decoder error; the
      context is set up once (a failed BeginFrame is a decoder error); then the
      rows are reconciled. */
  function Sized(s: State, p: Progress, beginOk: bool): (t: State)
    requires Inv(s) && s.size.Some? && s.data == p.data && p.data.Some? && s.dataPos == 0
    ensures Inv(t)
  {
    if s.sizeDecode then s
    else if s.size.value != Size(p.width, p.height) then Post(s, DecoderError(Failure))
    else if !s.contextInitialized && s.downscaler.Some? && !beginOk then
      Post(Post(s, HasTransparency), DecoderError(Failure))
    else
      Reconcile(if s.contextInitialized then s else InitContext(s, p.stride), p.lastLineRead, p.width, p.height)
  }

  /** The rest of WriteInternal once the context is ready (cpp:184-246): the
      cursor guard and clamp, then the transfer and its invalidation. */
  function Reconcile(s: State, lastLineRead: int, width: int, height: int): (t: State)
    requires Inv(s) && s.contextInitialized && s.data.Some? && s.size == Some(Size(width, height))
    ensures Inv(t)
  {
    match LastToTransfer(s.previousLastLine, lastLineRead, height)
    case None => s
    case Some(last) => Invalidate(TransferRows(s, last, width), last, width)
  }

  /** FinishInternal (cpp:74-86): frame stop then decode done, only for a full
      decode that produced exactly one frame (GetFrameCount() is given). */
  function Finish(s: State, frameCount: nat): (t: State)
    requires Inv(s) && !HasError(s) && frameCount <= 1
    ensures Inv(t)
  {
    if !s.sizeDecode && frameCount == 1 then Post(Post(s, FrameStop), DecodeDone) else s
  }

  /** The destructor (cpp:36-44): the handle is passed to WebPIDelete, null or not. */
  function Destroy(s: State): (r: State)
    ensures r.engineCalls == s.engineCalls + [Delete(s.handle)]
  {
    s.(engineCalls := s.engineCalls + [Delete(s.handle)])
  }
}
