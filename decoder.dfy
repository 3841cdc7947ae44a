/**
  nsWEBPDecoder (image/decoders/nsWEBPDecoder.h, nsWEBPDecoder.cpp) as a class
  whose fields are the decoder's members plus the Decoder base-class state it
  touches. The constructor and the methods SetTargetSize, InitInternal,
  FinishInternal, Destroy, Post, PostSize, InitializeContext, Transfer,
  Invalidate, Reconcile, Progressed, Sized and WriteInternal are proved to take
  the decoder from `old(Model())` to the state the matching function of
  DecodeSession computes, so what is proved about those functions holds of
  them. AppendChunk, GetRGB, AllocateSurface, BeginFrame and MarkInitialized
  state their new Model() as a field update of the old one; CopyRow,
  TransferDirect and TransferDownscaled state their effect on the arrays
  against the functions of Transfer.
*/
module WebP {
  import opened Options
  import opened Pixels
  import opened Host
  import opened Engine
  import opened Transfer
  import opened Downscaling
  import DS = DecodeSession

  /** The pixel loop shared by both row loops (cpp:210-218 and cpp:227-236):
      `width` RGBA pixels read from `pos0` on become words written to `dst`
      from index `start` on; the read position afterwards is returned. */
  method CopyRow(dst: array<Pixel>, start: int, src: seq<byte>, pos0: int, width: int) returns (pos: int)
    requires 0 <= width && 0 <= start && start + width <= dst.Length
    requires 0 <= pos0 && pos0 + 4 * width <= |src|
    modifies dst
    ensures pos == pos0 + 4 * width
    ensures dst[..] == PutRow(old(dst[..]), start, Words(src, pos0, width))
  {
    ghost var before := dst[..];
    ghost var row := Words(src, pos0, width);
    pos := pos0;
    var iPixel := 0;
    while iPixel < width
      invariant 0 <= iPixel <= width && pos == pos0 + 4 * iPixel
      invariant forall j :: 0 <= j < iPixel ==> dst[start + j] == row[j]
      invariant forall i :: 0 <= i < dst.Length && !(start <= i < start + iPixel) ==> dst[i] == before[i]
    {
      WordsAt(src, pos0, width, iPixel);
      dst[start + iPixel] := Pack(src[pos + 3], src[pos], src[pos + 1], src[pos + 2]);
      pos := pos + 4;
      iPixel := iPixel + 1;
    }
    forall i | 0 <= i < dst.Length
      ensures dst[..][i] == PutRow(before, start, row)[i]
    {
      if start <= i < start + width {
        assert dst[start + (i - start)] == row[i - start];
      }
    }
  }

  class WebPDecoder {
    // Decoder base class (Decoder.h is not part of this model)
    const sizeDecode: bool
    var size: Option<Size>
    var imageData: array<Pixel>
    var events: seq<Event>
    // nsWEBPDecoder members
    var downscaler: Downscaler?
    var handle: bool
    var engineCalls: seq<EngineCall>
    var data: Option<seq<byte>>
    var dataPos: int
    var dataRowPadding: int
    var bufferRowPadding: int
    var previousLastLine: int
    var contextInitialized: bool
    ghost var Repr: set<object>

    /** The objects the decoder owns: itself, the surface, and the downscaler
        with its row buffer, which is never the surface. */
    ghost predicate Framed()
      reads this, downscaler
    {
      && Repr == {this, imageData} + (if downscaler != null then {downscaler, downscaler.rowBuffer} else {})
      && (downscaler != null ==> downscaler.rowBuffer != imageData)
    }

    ghost function Model(): DS.State
      reads this, downscaler, Repr
      requires Framed()
    {
      DS.State(sizeDecode, size, imageData[..], events,
               if downscaler != null then Some(downscaler.Model()) else None,
               handle, engineCalls, data, dataPos, dataRowPadding, bufferRowPadding,
               previousLastLine, contextInitialized)
    }

    ghost predicate Valid()
      reads this, downscaler, Repr
    {
      Framed() && DS.Inv(Model())
    }

    constructor (sizeDecode: bool)
      ensures Framed() && Model() == DS.Initial(sizeDecode)
      ensures Valid() && Repr == {this, imageData} && fresh(imageData)
    {
      var surface := new Pixel[0];
      this.sizeDecode := sizeDecode;
      size := None;
      imageData := surface;
      events := [];
      downscaler := null;
      handle := false;
      engineCalls := [];
      data := None;
      dataPos := 0;
      dataRowPadding := 0;
      bufferRowPadding := 0;
      previousLastLine := 0;
      contextInitialized := false;
      Repr := {this, surface};
    }

    /** The Post... notifications of the Decoder base class. */
    method Post(e: Event)
      requires Valid()
      modifies this`events
      ensures Framed() && Model() == DS.Post(old(Model()), e)
      ensures Valid()
    {
      events := events + [e];
    }

    method SetTargetSize(width: int, height: int) returns (ok: bool)
      requires Valid() && !contextInitialized
      modifies this
      ensures Valid() && fresh(Repr - old(Repr))
      ensures (ok, Model()) == DS.SetTargetSize(old(Model()), Size(width, height))
    {
      if width <= 0 || height <= 0 {
        return false;
      }
      downscaler := new Downscaler(Size(width, height));
      Repr := {this, imageData, downscaler, downscaler.rowBuffer};
      ok := true;
    }

    /** `created` is whether WebPINewRGB returned a handle. */
    method InitInternal(created: bool)
      requires Valid()
      modifies this`engineCalls, this`handle, this`events
      ensures Framed() && Model() == DS.Init(old(Model()), created)
      ensures Valid()
    {
      engineCalls := engineCalls + [NewRGB];
      handle := created;
      if !handle {
        Post(DecoderError(Failure));
        return;
      }
    }

    /** `frameCount` is GetFrameCount() of the Decoder base class. */
    method FinishInternal(frameCount: nat)
      requires Valid() && !DS.HasError(Model()) && frameCount <= 1
      modifies this`events
      ensures Framed() && Model() == DS.Finish(old(Model()), frameCount)
      ensures Valid()
    {
      if !sizeDecode && frameCount == 1 {
        Post(FrameStop);
        Post(DecodeDone);
      }
    }

    /** The destructor. */
    method Destroy()
      requires Valid()
      modifies this`engineCalls
      ensures Framed() && Model() == DS.Destroy(old(Model()))
      ensures Valid()
    {
      engineCalls := engineCalls + [Delete(handle)];
    }

    /** PostSize of the Decoder base class, with the host's allocation of the
        frame surface (see DecodeSession.PostSize). */
    method PostSize(width: int, height: int)
      requires Valid() && size.None? && width > 0 && height > 0
      modifies this
      ensures Framed() && Model() == DS.PostSize(old(Model()), width, height)
      ensures Valid() && fresh(Repr - old(Repr))
    {
      if !sizeDecode {
        var area := if downscaler != null then downscaler.target.width * downscaler.target.height
                    else width * height;
        AllocateSurface(area);
      }
      events := events + [SizeKnown(Size(width, height))];
      size := Some(Size(width, height));
    }

    /** A fresh zeroed surface of `area` words replaces mImageData. */
    method AllocateSurface(area: nat)
      requires Valid() && size.None?
      modifies this`imageData, this`Repr
      ensures Framed() && Model() == old(Model()).(surface := seq(area, _ => 0))
      ensures Valid() && fresh(Repr - old(Repr))
    {
      imageData := new Pixel[area](_ => 0);
      Repr := {this, imageData} + (if downscaler != null then {downscaler, downscaler.rowBuffer} else {});
      assert imageData[..] == seq(area, _ => 0);
    }

    /** The one-time context setup (cpp:158-182); false when BeginFrame failed. */
    method InitializeContext(stride: int, beginOk: bool) returns (ok: bool)
      requires Valid() && size.Some? && !sizeDecode && !contextInitialized
      modifies this`events, this`bufferRowPadding, this`contextInitialized, this`Repr, downscaler
      ensures ok == (old(downscaler) == null || beginOk)
      ensures Framed() && Model() == if ok then DS.InitContext(old(Model()), stride)
                                     else DS.Post(DS.Post(old(Model()), HasTransparency), DecoderError(Failure))
      ensures Valid() && fresh(Repr - old(Repr))
    {
      Post(HasTransparency);
      if downscaler != null {
        var rv := BeginFrame(beginOk);
        if !rv {
          Post(DecoderError(Failure));
          return false;
        }
      }
      MarkInitialized(stride);
      return true;
    }

    /** mBufferRowPadding and mContextInitialized (cpp:179-181). */
    method MarkInitialized(stride: int)
      requires Framed() && size.Some?
      modifies this`bufferRowPadding, this`contextInitialized
      ensures Framed() && Model() == old(Model()).(bufferRowPadding := stride - old(Model()).size.value.width * 4, contextInitialized := true)
    {
      bufferRowPadding := stride - size.value.width * 4;
      contextInitialized := true;
    }

    /** mDownscaler->BeginFrame(GetSize(), mImageData, true) (cpp:171-176). */
    method BeginFrame(beginOk: bool) returns (ok: bool)
      requires Valid() && size.Some? && !contextInitialized && downscaler != null
      modifies this`Repr, downscaler
      ensures ok == beginOk && downscaler == old(downscaler)
      ensures Framed() && Model() == if ok then old(Model()).(downscaler := Some(Begun(old(Model()).downscaler.value, size.value, true)))
                                     else old(Model())
      ensures Valid() && fresh(Repr - old(Repr))
    {
      ok := downscaler.BeginFrame(size.value, true, beginOk);
      Repr := {this, imageData, downscaler, downscaler.rowBuffer};
    }

    /** The row loop without a downscaler (cpp:224-239). */
    method TransferDirect(last: int, width: int, height: int)
      requires data.Some? && 0 <= previousLastLine <= last < height && width > 0
      requires dataPos == 0 && dataRowPadding == 0
      requires imageData.Length == width * height && |data.value| >= 4 * width * height
      modifies this`dataPos, imageData
      ensures imageData[..] == DirectTransfer(old(imageData[..]), data.value, width, dataRowPadding, previousLastLine, last)
      ensures dataPos == (last - previousLastLine + 1) * (4 * width + dataRowPadding)
    {
      var src := data.value;
      var prev := previousLastLine;
      ghost var before := imageData[..];
      var pad := dataRowPadding;
      var pos := 0;
      var dataOut := prev * width;
      var iLine := prev;
      ghost var k: nat := 0;
      while iLine <= last
        modifies imageData
        invariant prev <= iLine <= last + 1 && k == iLine - prev
        invariant dataOut == (prev + k) * width
        invariant pos == k * (4 * width + pad)
        invariant imageData[..] == Filled(before, src, width, pad, prev, k)
      {
        assert 0 <= pos && pos + 4 * width <= |src| by {
          TransferReadsInBounds(width, height, prev, last, |src|, k, width - 1);
        }
        assert 0 <= dataOut && dataOut + width <= imageData.Length by {
          MulLe(0, prev + k, width);
          MulLe(prev + k + 1, height, width);
          MulSucc(prev + k, width);
          assert height * width == width * height;
        }
        assert Row(src, width, pad, k) == Words(src, pos, width);
        FilledSucc(before, src, width, pad, prev, k);
        pos := CopyRow(imageData, dataOut, src, pos, width);
        dataOut := dataOut + width;
        pos := pos + pad;
        MulSucc(prev + k, width);
        MulSucc(k, 4 * width + pad);
        iLine := iLine + 1;
        k := k + 1;
      }
      assert imageData[..] == DirectTransfer(before, src, width, pad, prev, last);
      dataPos := pos;
    }

    /** The row loop through the downscaler (cpp:205-222). */
    method TransferDownscaled(last: int, width: int, height: int)
      requires downscaler != null && downscaler.rowBuffer.Length == width
      requires data.Some? && 0 <= previousLastLine <= last < height && width > 0
      requires dataPos == 0 && dataRowPadding == 0 && |data.value| >= 4 * width * height
      modifies this`dataPos, downscaler`committed, downscaler.rowBuffer
      ensures downscaler.committed
           == old(downscaler.committed) + Rows(data.value, width, dataRowPadding, last - previousLastLine + 1)
      ensures downscaler.rowBuffer[..] == Row(data.value, width, dataRowPadding, last - previousLastLine)
      ensures dataPos == (last - previousLastLine + 1) * (4 * width + dataRowPadding)
    {
      var src := data.value;
      var prev := previousLastLine;
      var pad := dataRowPadding;
      var sink: Downscaler := downscaler;
      var buffer := sink.rowBuffer;
      ghost var committed0 := sink.committed;
      var pos := 0;
      var iLine := prev;
      ghost var k: nat := 0;
      while iLine <= last
        modifies sink`committed, buffer
        invariant prev <= iLine <= last + 1 && k == iLine - prev
        invariant pos == k * (4 * width + pad)
        invariant sink.rowBuffer == buffer
        invariant sink.committed == committed0 + Rows(src, width, pad, k)
        invariant 0 < k ==> buffer[..] == Row(src, width, pad, k - 1)
      {
        assert 0 <= pos && pos + 4 * width <= |src| by {
          TransferReadsInBounds(width, height, prev, last, |src|, k, width - 1);
        }
        PutRowWhole(buffer[..], Words(src, pos, width));
        assert Row(src, width, pad, k) == Words(src, pos, width);
        pos := CopyRow(buffer, 0, src, pos, width);
        sink.CommitRow();
        RowsSnoc(src, width, pad, k);
        pos := pos + pad;
        MulSucc(k, 4 * width + pad);
        iLine := iLine + 1;
        k := k + 1;
      }
      assert k == last - prev + 1;
      dataPos := pos;
    }

    /** The cursor guard, the clamp, the transfer and the invalidation
        (cpp:184-246), once the context is ready. */
    method Reconcile(lastLineRead: int, width: int, height: int)
      requires Valid() && contextInitialized && data.Some? && size == Some(Size(width, height))
      requires dataPos == 0 && |data.value| >= 4 * width * height
      modifies this`dataPos, this`events, this`previousLastLine, Repr - {this}
      ensures Framed() && Model() == DS.Reconcile(old(Model()), lastLineRead, width, height)
      ensures Valid()
    {
      ghost var reported := lastLineRead;
      var lastLineRead := lastLineRead;
      if lastLineRead <= previousLastLine {
        return;
      }
      if lastLineRead >= height {
        if previousLastLine == height - 1 {
          return;
        }
        lastLineRead := height - 1;
      }
      assert LastToTransfer(previousLastLine, reported, height) == Some(lastLineRead);
      Transfer(lastLineRead, width, height);
      Invalidate(lastLineRead, width);
    }

    /** The row loops (cpp:204-240) for rows previousLastLine..last. */
    method Transfer(last: int, width: int, height: int)
      requires Valid() && contextInitialized && data.Some? && size == Some(Size(width, height))
      requires dataPos == 0 && |data.value| >= 4 * width * height && previousLastLine <= last < height
      modifies this`dataPos, Repr - {this}
      ensures Framed() && Model() == DS.TransferRows(old(Model()), last, width)
      ensures Valid()
    {
      if downscaler != null {
        TransferDownscaled(last, width, height);
      } else {
        TransferDirect(last, width, height);
      }
    }

    /** The invalidation and the cursor move (cpp:243-246). */
    method Invalidate(last: int, width: int)
      requires Valid() && size.Some? && previousLastLine <= last < size.value.height
      modifies this`events, this`previousLastLine
      ensures Framed() && Model() == DS.Invalidate(old(Model()), last, width)
      ensures Valid()
    {
      var filter: Option<FilterRect> := None;
      if downscaler != null {
        var r := downscaler.TakeInvalidRect();
        filter := Some(r);
      }
      Post(Invalidation(Rect(0, previousLastLine, width, last), filter));
      previousLastLine := last;
    }

    /** WriteInternal (cpp:89-248). The engine's answer to this chunk is
        `reply`; `beginOk` is what BeginFrame would return. */
    method WriteInternal(chunk: seq<byte>, reply: Reply, beginOk: bool)
      requires Valid() && !DS.HasError(Model()) && WellFormed(reply.progress)
      modifies Repr
      ensures Framed() && Model() == DS.Write(old(Model()), chunk, reply, beginOk)
      ensures Valid() && fresh(Repr - old(Repr))
    {
      AppendChunk(chunk);
      var verdict := Classify(reply.status);
      if verdict.Reject? {
        Post(verdict.event);
        return;
      }
      GetRGB(reply.progress);
      Progressed(reply.progress, beginOk);
    }

    /** WebPIAppend(mDecoder, aBuffer, aCount) (cpp:93-95); its status is
        the `reply` given to WriteInternal. */
    method AppendChunk(chunk: seq<byte>)
      requires Valid()
      modifies this`engineCalls
      ensures Framed() && Model() == old(Model()).(engineCalls := old(Model()).engineCalls + [Append(chunk)])
      ensures Valid()
    {
      engineCalls := engineCalls + [Append(chunk)];
    }

    /** mData = WebPIDecGetRGB(mDecoder, ...) (cpp:121): mData points at the
        start of the buffer returned in `p`, if any. */
    method GetRGB(p: Progress)
      requires Valid()
      modifies this`engineCalls, this`data, this`dataPos
      ensures Framed()
      ensures Model() == old(Model()).(engineCalls := old(Model()).engineCalls + [EngineCall.GetRGB], data := p.data, dataPos := 0)
      ensures Valid()
    {
      engineCalls := engineCalls + [EngineCall.GetRGB];
      data, dataPos := p.data, 0;
    }

    /** cpp:116-143: what follows a successful WebPIDecGetRGB. */
    method Progressed(p: Progress, beginOk: bool)
      requires Valid() && WellFormed(p) && data == p.data && dataPos == 0
      modifies Repr
      ensures Framed() && Model() == DS.Progressed(old(Model()), p, beginOk)
      ensures Valid() && fresh(Repr - old(Repr))
    {
      if p.lastLineRead == -1 || data.None? {
        return;
      }
      if size.None? {
        if p.width <= 0 || p.height <= 0 {
          Post(DataError);
          return;
        }
        PostSize(p.width, p.height);
      }
      Sized(p, beginOk);
    }

    /** cpp:145-246: what follows once the size is known. */
    method Sized(p: Progress, beginOk: bool)
      requires Valid() && WellFormed(p) && size.Some? && data == p.data && p.data.Some? && dataPos == 0
      modifies Repr
      ensures Framed() && Model() == DS.Sized(old(Model()), p, beginOk)
      ensures Valid() && fresh(Repr - old(Repr))
    {
      if sizeDecode {
        return;
      }
      if size.value.width != p.width || size.value.height != p.height {
        Post(DecoderError(Failure));
        return;
      }
      if !contextInitialized {
        var ok := InitializeContext(p.stride, beginOk);
        if !ok {
          return;
        }
      }
      Reconcile(p.lastLineRead, p.width, p.height);
    }
  }
}
