# nsWEBPDecoder in Dafny

A model of `nsWEBPDecoder`, the image decoder that feeds a WebP stream to the
libwebp incremental decoder chunk by chunk and copies each newly decoded row
into the image. It covers the whole decoder:

- construction and destruction, including the release of the engine handle;
- `SetTargetSize`, which requests downscale-during-decode;
- `InitInternal` and `FinishInternal`;
- `WriteInternal`, which:
  - hands the chunk to the engine and maps its status to a data error, a
    decoder error or "go on";
  - asks the engine how far it has got;
  - publishes the image size once and checks later geometry against it;
  - sets up the output context once;
  - guards and clamps the row cursor `mPreviousLastLine`;
  - converts the new rows from RGBA bytes to packed BGRA words, into the
    frame surface or through the downscaler;
  - posts one invalidation and advances the cursor.

The model has two layers:

- **Value layer** (`DecodeSession`, `session.dfy`). One datatype `State`
  holds every member of the class and the parts of the `Decoder` base class it
  touches. Each operation is a function from the state before a call to the
  state after it.
- **Class layer** (`WebP`, `decoder.dfy`). `WebPDecoder` is a class with the
  same fields. Its surface is an `array`, the downscaler is an object, and the
  pixel and row loops are `while` loops with invariants.
  - Each method that has a `DecodeSession` counterpart (the constructor,
    `SetTargetSize`, `InitInternal`, `FinishInternal`, `Destroy`, `Post`,
    `PostSize`, `InitializeContext`, `Transfer`, `Invalidate`, `Reconcile`,
    `Progressed`, `Sized` and `WriteInternal`) is proved to move `Model()`
    exactly as that function does. So everything proved about the functions
    holds of the class.
  - The smaller steps have their own contracts instead: `AppendChunk`,
    `GetRGB`, `AllocateSurface`, `BeginFrame` and `MarkInitialized` state
    their new `Model()` as a field update of the old one, and `CopyRow`,
    `TransferDirect` and `TransferDownscaled` state their effect on the
    arrays and the rows they write.
  - The row loops are proved against the specification functions of
    `Transfer`: `DirectTransfer`, `Rows` and `Row`.

`SessionFacts` (`properties.dfy`) proves the properties:

- the outcome of each branch of `WriteInternal`;
- what every call preserves: the cursor never moves back, a known size and an
  initialised context stay, and the event log is only appended to;
- what a whole session posts and asks of the engine.

The other modules:

| module | content |
|---|---|
| `Options` | an optional value |
| `Pixels` | bytes and packed 32-bit pixels |
| `Host` | the notifications posted to the host, as an event log |
| `Engine` | the libwebp interface: status, progress report, the calls made |
| `Transfer` | the byte-to-word row conversion and the cursor clamp |
| `Downscaling` | the downscaler as an abstract row sink |

The model follows the code as written, including these details:

- The cursor starts at 0, not -1. A first report that row 0 is done therefore
  transfers nothing.
- The row loops start at the cursor, inclusive, so the boundary row of the
  previous call is written again.
- Each call takes the engine's buffer afresh, and the rows are read from its
  start. Row `k` of the call reads bytes `k * 4 * width` onwards, whatever the
  cursor.
- The loops advance by `mDataRowPadding`, which is 0 and never assigned in
  nsWEBPDecoder.cpp. The header's comment on it (h:38, "Buffer row stride minus
  row data width") describes exactly the value computed at cpp:179, but that
  value goes to `mBufferRowPadding`, which nothing in nsWEBPDecoder.cpp reads.
  `mBufferRowPadding` is not declared in nsWEBPDecoder.h, so it is a field of
  the `Decoder` base class.
- The invalidation rectangle is `(0, previousLastLine, width, last)`. Its
  height field is the last row, not the number of rows.

## Model

| member | source | states |
|---|---|---|
| Engine.Classify | image/decoders/nsWEBPDecoder.cpp:97-114 | OK and SUSPENDED go on. Out of memory is a decoder error (OOM). Invalid parameter or bitstream is a data error. Every other status is a decoder error (failure). Each case is an if-and-only-if, and every rejection is an error event. |
| Pixels.Pack | image/decoders/nsWEBPDecoder.cpp:210-213 | gfxPackedPixelNoPreMultiply(a, r, g, b) as a function (no contract of its own); what the word holds is stated by the next three lemmas. |
| Pixels.PackChannels | image/decoders/nsWEBPDecoder.cpp:202-203 | The packed word has alpha, red, green and blue in its four bytes, high to low. |
| Pixels.PackInjective | image/decoders/nsWEBPDecoder.cpp:202-203 | Two packed words are equal iff their four channels are. |
| Pixels.PackMemoryOrder | image/decoders/nsWEBPDecoder.cpp:202-203 | In little-endian memory a packed word is the bytes B, G, R, A. |
| Transfer.WordAt | image/decoders/nsWEBPDecoder.cpp:210-213 | The word for the four bytes at an offset (no contract of its own): packed with alpha from the fourth byte and red, green, blue from the first three, and 0 outside the buffer; TransferReadsInBounds and WordInBuffer show the loops never read there. |
| Transfer.WordAtReorders | image/decoders/nsWEBPDecoder.cpp:210-213 | The word made from the four source bytes R, G, B, A lies in memory as B, G, R, A. |
| Transfer.OnePixelExample | image/decoders/nsWEBPDecoder.cpp:229-232 | An example, not a general property: one worked pixel, where bytes 10, 20, 30, 40 become the word 0x280A141E. |
| Transfer.RowsSnoc | image/decoders/nsWEBPDecoder.cpp:205-222 | Committing one more row appends exactly that row to the rows committed so far. |
| Transfer.LastToTransfer | image/decoders/nsWEBPDecoder.cpp:184-199 | There is a row to transfer iff the report is past the cursor and not (past the bottom with the cursor on the last row). The last row is the report clamped to height-1, and it is past the cursor. |
| Transfer.WordsAt | image/decoders/nsWEBPDecoder.cpp:209-216 | A helper that unfolds the definition of Words: word p of a row is the word at 4*p past the row's offset. |
| Transfer.FilledSucc | image/decoders/nsWEBPDecoder.cpp:227-239 | A helper that unfolds the definition of Filled: one more iteration of the direct row loop writes one more row, at the next destination row. |
| Transfer.FilledRow | image/decoders/nsWEBPDecoder.cpp:227-239 | After n rows, destination word r*width+p holds pixel p of source row r-prev. |
| Transfer.FilledOutside | image/decoders/nsWEBPDecoder.cpp:227-239 | After n rows, every destination word outside rows prev..prev+n-1 is unchanged. |
| Transfer.DirectTransferRow | image/decoders/nsWEBPDecoder.cpp:224-239 | For every row r from the cursor to the last row and every pixel p, mImageData[r*width+p] is pixel p of the (r-cursor)-th row read. |
| Transfer.DirectTransferOutside | image/decoders/nsWEBPDecoder.cpp:224-239 | Destination words outside the transferred rows are unchanged. |
| Transfer.DirectTransferReadsBufferStart | image/decoders/nsWEBPDecoder.cpp:224-225 | The row at the cursor is written from the first bytes of the buffer: the source starts at offset 0 while the destination starts at row previousLastLine. |
| Transfer.TransferReadsInBounds | image/decoders/nsWEBPDecoder.cpp:209-238 | Every byte the row loops read lies inside a buffer of 4*width*height bytes. |
| Downscaling.Downscaler.constructor | image/decoders/nsWEBPDecoder.cpp:57 | A new downscaler for the target size, with no frame begun and no row committed. |
| Downscaling.Downscaler.BeginFrame | image/decoders/nsWEBPDecoder.cpp:169-176 | Whether BeginFrame succeeds is decided inside the downscaler and is given as a parameter. On success the frame size and alpha flag are recorded and a row buffer of frame width is provided. On failure nothing changes. |
| Downscaling.Downscaler.CommitRow | image/decoders/nsWEBPDecoder.cpp:219 | The contents of the row buffer are appended to the committed rows. |
| Downscaling.Downscaler.TakeInvalidRect | image/decoders/nsWEBPDecoder.cpp:244 | The rectangle identifies the rows committed so far. Taking it does not reset anything in the model: the reset that "take" implies happens inside the downscaler, which is not modelled. |
| DecodeSession.Initial | image/decoders/nsWEBPDecoder.cpp:23-29 | The constructed decoder satisfies the invariant and has posted no error: no handle, no data, row padding 0, cursor 0, context not initialised, no downscaler, no size, nothing logged. |
| DecodeSession.Post | image/decoders/nsWEBPDecoder.cpp:165 | Posting a notification keeps the invariant. |
| DecodeSession.SetTargetSize | image/decoders/nsWEBPDecoder.cpp:47-60 | It succeeds iff both sides are positive. On success a new downscaler for that size is installed. On failure nothing changes. |
| DecodeSession.Init | image/decoders/nsWEBPDecoder.cpp:63-71 | The handle becomes the one created and NewRGB is the one engine call added; a null handle, and only a null handle, posts a decoder error; size, downscaler and size-only flag are unchanged. |
| DecodeSession.PostSize | image/decoders/nsWEBPDecoder.cpp:144 | The size becomes the reported size, and the invariant is kept. |
| DecodeSession.InitContext | image/decoders/nsWEBPDecoder.cpp:158-182 | The context becomes initialised. Size and cursor are unchanged, and the invariant is kept. |
| DecodeSession.TransferRows | image/decoders/nsWEBPDecoder.cpp:201-240 | The row loops keep the size, the cursor, the context and the invariant. |
| DecodeSession.Invalidate | image/decoders/nsWEBPDecoder.cpp:242-246 | Moving the cursor to a row of the image keeps the invariant. |
| DecodeSession.Write | image/decoders/nsWEBPDecoder.cpp:89-248 | One WriteInternal call keeps the invariant; its cases are the SessionFacts lemmas. |
| DecodeSession.Progressed | image/decoders/nsWEBPDecoder.cpp:116-145 | What follows the progress query keeps the invariant. |
| DecodeSession.Sized | image/decoders/nsWEBPDecoder.cpp:147-246 | What follows the size step keeps the invariant. |
| DecodeSession.Reconcile | image/decoders/nsWEBPDecoder.cpp:184-246 | The guard, clamp, transfer and invalidation keep the invariant, so the cursor stays below the height. |
| DecodeSession.Finish | image/decoders/nsWEBPDecoder.cpp:74-86 | FinishInternal keeps the invariant. |
| DecodeSession.Destroy | image/decoders/nsWEBPDecoder.cpp:36-44 | The destructor appends the release of the handle, null or not, to the engine log; no other field is stated (the whole state is in SessionFacts.CloseFacts). |
| WebP.CopyRow | image/decoders/nsWEBPDecoder.cpp:209-236 | The pixel loop writes exactly `width` words from `start` on, each packed from the next four source bytes. The rest of the array is unchanged, and the source position advances by 4*width. |
| WebP.WebPDecoder.constructor | image/decoders/nsWEBPDecoder.cpp:23-29 | The new object is the initial state: it owns only itself and a new empty surface, and satisfies the invariant. |
| WebP.WebPDecoder.SetTargetSize | image/decoders/nsWEBPDecoder.cpp:47-60 | Result and new state are those of DecodeSession.SetTargetSize. |
| WebP.WebPDecoder.InitInternal | image/decoders/nsWEBPDecoder.cpp:63-71 | The new state is DecodeSession.Init of the old one. |
| WebP.WebPDecoder.FinishInternal | image/decoders/nsWEBPDecoder.cpp:74-86 | The new state is DecodeSession.Finish of the old one. |
| WebP.WebPDecoder.Destroy | image/decoders/nsWEBPDecoder.cpp:36-44 | The handle is passed to WebPIDelete, null or not, and nothing else changes. |
| WebP.WebPDecoder.Post | image/decoders/nsWEBPDecoder.cpp:165 | One notification is appended to the log. |
| WebP.WebPDecoder.PostSize | image/decoders/nsWEBPDecoder.cpp:127-145 | The new state is DecodeSession.PostSize of the old one. |
| WebP.WebPDecoder.AllocateSurface | image/decoders/nsWEBPDecoder.cpp:144 | The surface is replaced by a zeroed one of the given area, and nothing else changes. |
| WebP.WebPDecoder.BeginFrame | image/decoders/nsWEBPDecoder.cpp:168-176 | The downscaler begins the frame at the image size with alpha exactly when BeginFrame succeeds; on failure nothing changes. |
| WebP.WebPDecoder.MarkInitialized | image/decoders/nsWEBPDecoder.cpp:179-181 | The stride padding is stored and the context becomes initialised; nothing else changes. |
| WebP.WebPDecoder.InitializeContext | image/decoders/nsWEBPDecoder.cpp:158-182 | The setup succeeds iff there is no downscaler or BeginFrame succeeds. On success the state is DecodeSession.InitContext of the old one. On failure transparency and a decoder error are posted, and the context stays uninitialised. |
| WebP.WebPDecoder.TransferDirect | image/decoders/nsWEBPDecoder.cpp:223-239 | The loop leaves mImageData equal to DirectTransfer of its old contents, and mData after the transferred rows. |
| WebP.WebPDecoder.TransferDownscaled | image/decoders/nsWEBPDecoder.cpp:204-222 | One row is committed per transferred row, in order, each equal to that row of the buffer. The row buffer holds the last of them, and mData ends after the rows. |
| WebP.WebPDecoder.Transfer | image/decoders/nsWEBPDecoder.cpp:201-240 | The new state is DecodeSession.TransferRows of the old one. |
| WebP.WebPDecoder.Invalidate | image/decoders/nsWEBPDecoder.cpp:242-246 | The new state is DecodeSession.Invalidate of the old one. |
| WebP.WebPDecoder.Reconcile | image/decoders/nsWEBPDecoder.cpp:184-246 | The new state is DecodeSession.Reconcile of the old one. |
| WebP.WebPDecoder.AppendChunk | image/decoders/nsWEBPDecoder.cpp:93-95 | Only the append is recorded. |
| WebP.WebPDecoder.GetRGB | image/decoders/nsWEBPDecoder.cpp:121 | The query is recorded, and mData points at the start of the reported buffer. |
| WebP.WebPDecoder.Progressed | image/decoders/nsWEBPDecoder.cpp:116-145 | The new state is DecodeSession.Progressed of the old one. |
| WebP.WebPDecoder.Sized | image/decoders/nsWEBPDecoder.cpp:147-246 | The new state is DecodeSession.Sized of the old one. |
| WebP.WebPDecoder.WriteInternal | image/decoders/nsWEBPDecoder.cpp:89-248 | The new state is DecodeSession.Write of the old one. |
| SessionFacts.WriteRejected | image/decoders/nsWEBPDecoder.cpp:97-114 | A status other than OK or SUSPENDED posts its one error event. Only the append is recorded: no progress query, no size, no pixel, no invalidation. |
| SessionFacts.WriteNoProgress | image/decoders/nsWEBPDecoder.cpp:121-125 | With lastLineRead == -1 or no buffer, the call ends after the query. Nothing is posted, and no field other than the engine log and mData changes. |
| SessionFacts.WriteBadFirstGeometry | image/decoders/nsWEBPDecoder.cpp:127-131 | With no size known, a report with a non-positive side posts a data error and nothing else. |
| SessionFacts.WriteSizeOnly | image/decoders/nsWEBPDecoder.cpp:127-150 | A size-only decode publishes the size if none was known, then stops. Nothing else is posted or written. |
| SessionFacts.WriteGeometryMismatch | image/decoders/nsWEBPDecoder.cpp:152-156 | A geometry that differs from the published size posts a decoder error and transfers nothing. |
| SessionFacts.WriteBeginFrameFails | image/decoders/nsWEBPDecoder.cpp:165-176 | If BeginFrame fails, transparency and then a decoder error are posted. Nothing else changes after the size step, and the context stays uninitialised. |
| SessionFacts.WriteInitialisesContext | image/decoders/nsWEBPDecoder.cpp:158-182 | The first call that reaches the setup posts transparency exactly once. The downscaler, if any, begins the frame at the image size with alpha. The stride padding is stored, and the context is initialised. |
| SessionFacts.WriteReachesReconcile | image/decoders/nsWEBPDecoder.cpp:147-184 | A call that passes every check goes on to the rows with the context initialised, the buffer set and the size equal to the report. |
| SessionFacts.WriteContextOnce | image/decoders/nsWEBPDecoder.cpp:158 | Once initialised, the context is not set up again: no second transparency, and the padding is unchanged. |
| SessionFacts.ReconcileWaits | image/decoders/nsWEBPDecoder.cpp:184-187 | A report at or before the cursor changes nothing. |
| SessionFacts.FirstRowReportIgnored | image/decoders/nsWEBPDecoder.cpp:28 | With the cursor at its initial 0, a report of row 0 changes nothing. |
| SessionFacts.ReconcileDoneAtBottom | image/decoders/nsWEBPDecoder.cpp:190-194 | A report past the bottom, with the last row already transferred, changes nothing. |
| SessionFacts.ReconcileTransfers | image/decoders/nsWEBPDecoder.cpp:184-246 | When rows are transferred, the last row is the report clamped to height-1, past the cursor. Exactly one event is appended: the invalidation (0, cursor, width, last), with the downscaler's rectangle iff there is a downscaler. The cursor becomes the last row, and mData ends after the rows. |
| SessionFacts.ReconcileDirectRows | image/decoders/nsWEBPDecoder.cpp:223-239 | Without a downscaler, word r*width+p of the surface is inside the surface. It becomes the word packed from bytes 4*((r-cursor)*width+p) onwards of the buffer, for every transferred row r and pixel p. |
| SessionFacts.ReconcileDirectBytes | image/decoders/nsWEBPDecoder.cpp:223-239 | Without a downscaler, and with a buffer of 4*width*height bytes, word r*width+p of the surface is gfxPackedPixelNoPreMultiply of the four buffer bytes at 4*((r-cursor)*width+p), alpha from the fourth; the offset lies inside the buffer. |
| SessionFacts.DirectTransferWord | image/decoders/nsWEBPDecoder.cpp:224-239 | With no row padding, the direct transfer writes at r*width+p the word at byte 4*((r-prev)*width+p) of the buffer. |
| SessionFacts.WordInBuffer | image/decoders/nsWEBPDecoder.cpp:210-213 | Pixel p of row k of a width-by-height image lies inside a buffer of 4*width*height bytes, and its word is packed from those four bytes. |
| SessionFacts.ReconcileDirectOutside | image/decoders/nsWEBPDecoder.cpp:223-239 | Without a downscaler, every surface word outside the transferred rows is unchanged. |
| SessionFacts.ReconcileSurface | image/decoders/nsWEBPDecoder.cpp:204 | Without a downscaler the rows go to the surface. |
| SessionFacts.DestinationInBounds | image/decoders/nsWEBPDecoder.cpp:224-235 | Pixel p of row r of a width-by-height image is a surface index below width*height. |
| SessionFacts.ReconcileDownscaledRows | image/decoders/nsWEBPDecoder.cpp:204-222 | With a downscaler, exactly one row is committed per transferred row: the rows of the buffer from its start. The surface is not written. |
| SessionFacts.CommittedRowWord | image/decoders/nsWEBPDecoder.cpp:209-217 | Pixel p of the k-th committed row is the word packed from bytes 4*(k*width+p) onwards. |
| SessionFacts.ReconcileDownscaledBytes | image/decoders/nsWEBPDecoder.cpp:204-222 | With a downscaler, and with a buffer of 4*width*height bytes, word p of the k-th row committed by the call is gfxPackedPixelNoPreMultiply of the four buffer bytes at 4*(k*width+p), alpha from the fourth. |
| SessionFacts.ReconcileGrows | image/decoders/nsWEBPDecoder.cpp:184-246 | The row step only grows the state and makes no engine call. |
| SessionFacts.SizedGrows | image/decoders/nsWEBPDecoder.cpp:147-246 | The size step and what follows only grow the state and make no engine call. |
| SessionFacts.ProgressedGrows | image/decoders/nsWEBPDecoder.cpp:123-246 | Everything after the query only grows the state and makes no engine call. |
| SessionFacts.WriteGrows | image/decoders/nsWEBPDecoder.h:35-40 | Every call appends to the log, and the cursor never decreases. A known size stays, an initialised context and its padding stay, and downscaler presence and size-only mode never change. The engine sees the append, then the query iff the status is OK or SUSPENDED. |
| SessionFacts.ReconcileCounts | image/decoders/nsWEBPDecoder.cpp:243-244 | The row step posts nothing but invalidations. |
| SessionFacts.CoherentError | image/decoders/nsWEBPDecoder.cpp:97-114 | The first error posted keeps the log coherent, and the decoder then has an error. |
| SessionFacts.CoherentReconcile | image/decoders/nsWEBPDecoder.cpp:184-246 | The row step keeps the log coherent and posts no error. |
| SessionFacts.SizedCoherent | image/decoders/nsWEBPDecoder.cpp:147-246 | The steps after the size keep the log coherent. |
| SessionFacts.ProgressedCoherent | image/decoders/nsWEBPDecoder.cpp:123-246 | The steps after the query keep the log coherent. |
| SessionFacts.CoherentSize | image/decoders/nsWEBPDecoder.cpp:127-145 | Publishing the size keeps the log coherent, with one size event. |
| SessionFacts.CoherentInitContext | image/decoders/nsWEBPDecoder.cpp:165-181 | The setup posts the one transparency as the context becomes initialised. |
| SessionFacts.CoherentBeginFrameFails | image/decoders/nsWEBPDecoder.cpp:165-176 | A BeginFrame failure keeps transparency at one and errors at one. |
| SessionFacts.WriteCoherent | image/decoders/nsWEBPDecoder.cpp:91 | A call made with no error posted keeps the log coherent with the fields. Coherent means: one size event iff the size is known; at most one transparency, and, while there is no error, one iff the context is initialised; none of either in a size-only decode; at most one error. |
| SessionFacts.WriteCounts | image/decoders/nsWEBPDecoder.cpp:158 | With the context initialised, a call posts no transparency. |
| SessionFacts.Session | image/decoders/nsWEBPDecoder.cpp:23-86 | What a session is: construction, an optional SetTargetSize, InitInternal, the chunks until the first error, FinishInternal when no error was posted, then the destructor (no contract of its own; the Session lemmas below state what it leaves). |
| SessionFacts.Started | image/decoders/nsWEBPDecoder.cpp:23-71 | The state after construction, the optional SetTargetSize and InitInternal keeps the invariant. |
| SessionFacts.Targeted | image/decoders/nsWEBPDecoder.cpp:23-60 | After construction and the optional SetTargetSize nothing is posted or asked of the engine, no size is known, and there is a downscaler iff a target with positive sides was given. |
| SessionFacts.TargetedBySetTargetSize | image/decoders/nsWEBPDecoder.cpp:47-60 | That state is the constructed decoder, after DecodeSession.SetTargetSize when a target is given. |
| SessionFacts.Close | image/decoders/nsWEBPDecoder.cpp:36-86 | FinishInternal when no error was posted, then the destructor (no contract of its own; CloseFacts states the state it leaves). |
| SessionFacts.Feed | image/decoders/nsWEBPDecoder.cpp:91 | Handing over chunks until the first error keeps the invariant. |
| SessionFacts.FeedGrows | image/decoders/nsWEBPDecoder.h:39-40 | Any number of calls only grows the state: the cursor and the context flag never go back. |
| SessionFacts.FeedStreams | image/decoders/nsWEBPDecoder.cpp:93-121 | Any number of calls only appends and queries. |
| SessionFacts.WriteStreams | image/decoders/nsWEBPDecoder.cpp:93-121 | One call adds only an append and possibly a query to the engine log. |
| SessionFacts.FeedCoherent | image/decoders/nsWEBPDecoder.cpp:91 | Any number of calls keeps the log coherent. |
| SessionFacts.InitFacts | image/decoders/nsWEBPDecoder.cpp:63-71 | On a fresh decoder, InitInternal asks for the handle. The only error is a null handle, and nothing else changes. |
| SessionFacts.InitCoherent | image/decoders/nsWEBPDecoder.cpp:47-71 | After construction, SetTargetSize and InitInternal, the state is coherent. A downscaler is present iff SetTargetSize succeeded, and there is an error iff no handle was created. |
| SessionFacts.CloseFacts | image/decoders/nsWEBPDecoder.cpp:74-86 | FinishInternal posts frame stop then decode done exactly for a full decode of one frame with no error. The destructor then releases the handle. |
| SessionFacts.CloseEvents | image/decoders/nsWEBPDecoder.cpp:82-85 | At the end of a coherent session the counts are as stated, with frame stop and decode done once each and last exactly when the decode finished. |
| SessionFacts.CloseEventsDone | image/decoders/nsWEBPDecoder.cpp:82-85 | When FinishInternal posts, it adds one frame stop and one decode done, in that order and last, and no other event. |
| SessionFacts.FinishLog | image/decoders/nsWEBPDecoder.cpp:83-84 | Appending frame stop then decode done changes no other count and leaves them last. |
| SessionFacts.CloseCalls | image/decoders/nsWEBPDecoder.cpp:42-43 | The handle release is the last engine call. |
| SessionFacts.SessionEngineCalls | image/decoders/nsWEBPDecoder.cpp:42-43 | Across a session, the first engine call creates the handle and the last releases it, null or not, exactly once. Everything between is an append or a query. |
| SessionFacts.SessionWithoutHandle | image/decoders/nsWEBPDecoder.cpp:65-70 | A session whose handle could not be created makes no engine call other than create and release. |
| SessionFacts.SessionEvents | image/decoders/nsWEBPDecoder.cpp:74-86 | A session posts the size at most once, exactly when it is known. It posts transparency at most once and at most one error. A size-only decode posts no transparency and no invalidation. Frame stop then decode done are posted once each, last, exactly for a full decode of one frame with no error. |
| SessionFacts.SessionDownscaler | image/decoders/nsWEBPDecoder.h:35 | A session has a downscaler iff its single SetTargetSize call succeeded. |
| SessionFacts.SessionCursor | image/decoders/nsWEBPDecoder.h:38-39 | At the end of a session the loops' row padding is still 0. The cursor is a row of the image, and it is 0 while no size is known. |

## Left out

- libwebp (`WebPINewRGB`, `WebPIAppend`, `WebPIDecGetRGB`, `WebPIDelete`) is a
  foreign library and is not modelled.
  - Its answers are parameters: whether a handle was created, the status and
    progress report for each chunk, and the buffer contents.
  - The calls made to it are recorded as a log.
  - `WebP.WebPDecoder.WriteInternal` requires the library's guarantee that a
    reported buffer holds at least 4*width*height bytes (`Engine.WellFormed`).
- The `Downscaler` internals are not modelled: resampling, the output it writes
  into the surface, and the contents of its invalidation rectangle. It is an
  abstract sink that records the frame, the committed rows and the rectangles
  taken. Whether `BeginFrame` succeeds is a parameter.
- The `Decoder` base class and `RasterImage` are not part of this model.
  - `PostSize`, `HasSize`, `GetSize`, `IsSizeDecode`, `HasError` are fields
    of the state, and the `Post...` notifications are an event log.
  - `GetFrameCount` is a parameter of `FinishInternal`.
  - The allocation of `mImageData` is modelled as a zeroed surface provided
    when the size is posted: the image size, or the downscaler's target size.
  - The buffer handed to `BeginFrame` is not recorded.
- `gfxPackedPixelNoPreMultiply` (gfxColor.h) is not part of this model. It is
  modelled as the packing `(a<<24)|(r<<16)|(g<<8)|b` that the comment at
  cpp:202-203 describes. Premultiplication is not modelled.
- The `mData` pointer is modelled as an offset into the reported buffer.
- PR_LOG logging is left out.
- Debug assertions become preconditions:
  - `!HasError()` for `WriteInternal` and `FinishInternal`;
  - a frame count of at most 1 for `FinishInternal`.
- The 16383 dimension bound (cpp:136) is asserted and not enforced in the
  source, so it is not modelled.
- Integers are unbounded. The `int32_t` casts at cpp:144 cannot truncate,
  because the sides are positive and bounded by the engine.
- SessionFacts.Feed: it hands no chunk to `WriteInternal` once an error is
  posted, because cpp:91 asserts that none is. Whatever the host does with
  such chunks is not modelled.
- DecodeSession.SetTargetSize and WebP.WebPDecoder.SetTargetSize require that
  the context is not yet initialised. The host requests downscaling before
  decoding starts; a downscaler installed later would never have begun its
  frame.
- SessionFacts.Session: a session makes at most one SetTargetSize call. The
  source allows the host to call it again before decoding, and each
  successful call replaces the downscaler (DecodeSession.SetTargetSize models
  that one call), but SessionDownscaler and InitCoherent state "a downscaler
  iff SetTargetSize succeeded" for a single call only.
