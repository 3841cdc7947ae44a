/**
  The row arithmetic of WriteInternal (nsWEBPDecoder.cpp:184-240): which rows a
  call transfers, where each source byte is read, and what the surface holds
  afterwards.

  The transfer is written as it is in the source: the read position starts at
  the beginning of the engine's buffer although the first destination row is
  the previous call's last row, and rows are advanced by `4 * width + pad`
  bytes where `pad` is mDataRowPadding.
*/
module Transfer {
  import opened Options
  import opened Pixels

  /** Byte offset, from the start of the engine's buffer, of pixel `p` of the
      `k`-th row transferred in one call. */
  function SourceOffset(width: int, pad: int, k: int, p: int): (o: int)
  {
    k * (4 * width + pad) + 4 * p
  }

  /** The word written for the RGBA bytes at offset `o`: alpha from `o + 3`,
      red from `o`, green from `o + 1`, blue from `o + 2`. Offsets outside the
      buffer give 0; the decoder never reads there (TransferReadsInBounds). */
  function WordAt(src: seq<byte>, o: int): (w: Pixel)
  {
    if 0 <= o && o + 4 <= |src| then Pack(src[o + 3], src[o], src[o + 1], src[o + 2]) else 0
  }

  /** RGBA bytes in, BGRA bytes (in memory order) out: a pure reordering. */
  lemma WordAtReorders(src: seq<byte>, o: int)
    requires 0 <= o && o + 4 <= |src|
    ensures MemoryBytes(WordAt(src, o)) == [src[o + 2], src[o + 1], src[o], src[o + 3]]
  {
    PackMemoryOrder(src[o + 3], src[o], src[o + 1], src[o + 2]);
  }

  /** The pixel R=10, G=20, B=30, A=40 becomes the word 0x280A141E, whose
      bytes in memory are B=30, G=20, R=10, A=40. */
  lemma OnePixelExample()
    ensures WordAt([10, 20, 30, 40], 0) == 0x280A141E
    ensures MemoryBytes(WordAt([10, 20, 30, 40], 0)) == [30, 20, 10, 40]
  {
    WordAtReorders([10, 20, 30, 40], 0);
  }

  /** The `n` words whose RGBA bytes start at offset `o`, 4 bytes apart. */
  function Words(src: seq<byte>, o: int, n: nat): (r: seq<Pixel>)
    ensures |r| == n
  {
    seq(n, p => WordAt(src, o + 4 * p))
  }

  lemma WordsAt(src: seq<byte>, o: int, n: nat, p: int)
    requires 0 <= p < n
    ensures Words(src, o, n)[p] == WordAt(src, o + 4 * p)
  {
  }

  /** The `k`-th row a call transfers, as words: pixel p of it is the word at
      SourceOffset(width, pad, k, p). */
  function Row(src: seq<byte>, width: nat, pad: int, k: int): (row: seq<Pixel>)
  {
    Words(src, SourceOffset(width, pad, k, 0), width)
  }

  /** The `n` rows a call transfers, in order. */
  function Rows(src: seq<byte>, width: nat, pad: int, n: nat): (rows: seq<seq<Pixel>>)
  {
    seq(n, k => Row(src, width, pad, k))
  }

  lemma RowsSnoc(src: seq<byte>, width: nat, pad: int, n: nat)
    ensures Rows(src, width, pad, n + 1) == Rows(src, width, pad, n) + [Row(src, width, pad, n)]
  {
  }

  /** The cursor guard and the clamp (cpp:184-199): None when the call transfers
      nothing, otherwise the last row it transfers. */
  function LastToTransfer(prev: int, lastLineRead: int, height: int): (r: Option<int>)
    ensures r.Some? <==> lastLineRead > prev && !(lastLineRead >= height && prev == height - 1)
    ensures r.Some? ==> r.value == if lastLineRead < height then lastLineRead else height - 1
    ensures r.Some? && prev <= height - 1 ==> prev < r.value <= height - 1
  {
    if lastLineRead <= prev then None
    else if lastLineRead >= height then
      if prev == height - 1 then None else Some(height - 1)
    else Some(lastLineRead)
  }

  /** `dst` with the words of `row` written from index `start` on. */
  function PutRow(dst: seq<Pixel>, start: int, row: seq<Pixel>): (r: seq<Pixel>)
    ensures |r| == |dst|
  {
    seq(|dst|, i requires 0 <= i < |dst| => if start <= i < start + |row| then row[i - start] else dst[i])
  }

  lemma PutRowInside(dst: seq<Pixel>, start: int, row: seq<Pixel>, p: int)
    requires 0 <= p < |row| && 0 <= start + p < |dst|
    ensures PutRow(dst, start, row)[start + p] == row[p]
  {
  }

  lemma PutRowOutside(dst: seq<Pixel>, start: int, row: seq<Pixel>, i: int)
    requires 0 <= i < |dst| && (i < start || i >= start + |row|)
    ensures PutRow(dst, start, row)[i] == dst[i]
  {
  }

  lemma PutRowWhole(dst: seq<Pixel>, row: seq<Pixel>)
    requires |row| == |dst|
    ensures PutRow(dst, 0, row) == row
  {
  }

  /** The surface, `width` words a row, once the first `n` rows of a call have
      been transferred: the k-th one over surface row prev + k. */
  function Filled(dst: seq<Pixel>, src: seq<byte>, width: nat, pad: int, prev: int, n: nat): (r: seq<Pixel>)
    ensures |r| == |dst|
  {
    if n == 0 then dst
    else PutRow(Filled(dst, src, width, pad, prev, n - 1), (prev + n - 1) * width, Row(src, width, pad, n - 1))
  }

  lemma FilledSucc(dst: seq<Pixel>, src: seq<byte>, width: nat, pad: int, prev: int, k: nat)
    ensures Filled(dst, src, width, pad, prev, k + 1)
         == PutRow(Filled(dst, src, width, pad, prev, k), (prev + k) * width, Row(src, width, pad, k))
  {
  }

  /** The surface after the direct (no downscaler) transfer of rows prev..last. */
  function DirectTransfer(dst: seq<Pixel>, src: seq<byte>, width: nat, pad: int, prev: int, last: int): (r: seq<Pixel>)
    requires prev <= last + 1
    ensures |r| == |dst|
  {
    Filled(dst, src, width, pad, prev, last - prev + 1)
  }

  lemma MulLe(a: int, b: int, w: int)
    requires a <= b && w >= 0
    ensures a * w <= b * w
  {
    assert b * w - a * w == (b - a) * w;
  }

  lemma MulSucc(k: int, c: int)
    ensures (k + 1) * c == k * c + c
  {
  }

  /** After n rows, word p of surface row r (prev <= r < prev + n) is word p
      of the call's source row r - prev. */
  lemma {:induction false} FilledRow(dst: seq<Pixel>, src: seq<byte>, width: nat, pad: int, prev: int, n: nat, r: int, p: int)
    requires prev <= r < prev + n && 0 <= p < width && 0 <= r * width + p < |dst|
    ensures Filled(dst, src, width, pad, prev, n)[r * width + p] == Row(src, width, pad, r - prev)[p]
  {
    var start := (prev + n - 1) * width;
    var before := Filled(dst, src, width, pad, prev, n - 1);
    if r == prev + n - 1 {
      PutRowInside(before, start, Row(src, width, pad, n - 1), p);
    } else {
      MulSucc(r, width);
      MulLe(r + 1, prev + n - 1, width);
      PutRowOutside(before, start, Row(src, width, pad, n - 1), r * width + p);
      FilledRow(dst, src, width, pad, prev, n - 1, r, p);
    }
  }

  /** Words outside the rows transferred are left as they were. */
  lemma {:induction false} FilledOutside(dst: seq<Pixel>, src: seq<byte>, width: nat, pad: int, prev: int, n: nat, i: int)
    requires 0 <= i < |dst| && (i < prev * width || i >= (prev + n) * width)
    ensures Filled(dst, src, width, pad, prev, n)[i] == dst[i]
  {
    if n > 0 {
      MulLe(prev, prev + n - 1, width);
      MulSucc(prev + n - 1, width);
      PutRowOutside(Filled(dst, src, width, pad, prev, n - 1), (prev + n - 1) * width, Row(src, width, pad, n - 1), i);
      FilledOutside(dst, src, width, pad, prev, n - 1, i);
    }
  }

  /** Row r (prev <= r <= last) of the surface after the direct transfer holds
      the (r - prev)-th source row of the call. */
  lemma DirectTransferRow(dst: seq<Pixel>, src: seq<byte>, width: nat, pad: int, prev: int, last: int, r: int, p: int)
    requires prev <= r <= last && 0 <= p < width && 0 <= r * width + p < |dst|
    ensures DirectTransfer(dst, src, width, pad, prev, last)[r * width + p] == Row(src, width, pad, r - prev)[p]
  {
    FilledRow(dst, src, width, pad, prev, last - prev + 1, r, p);
  }

  /** Words outside rows prev..last are left as they were. */
  lemma DirectTransferOutside(dst: seq<Pixel>, src: seq<byte>, width: nat, pad: int, prev: int, last: int, i: int)
    requires prev <= last + 1 && 0 <= i < |dst| && (i < prev * width || i >= (last + 1) * width)
    ensures DirectTransfer(dst, src, width, pad, prev, last)[i] == dst[i]
  {
    FilledOutside(dst, src, width, pad, prev, last - prev + 1, i);
  }

  /** The first row written, row `prev`, is filled from the first bytes of the
      engine's buffer (its row 0), not from row `prev` of the decoded image. */
  lemma DirectTransferReadsBufferStart(dst: seq<Pixel>, src: seq<byte>, width: nat, pad: int, prev: int, last: int, p: int)
    requires prev <= last && 0 <= p < width && 0 <= prev * width + p < |dst|
    ensures DirectTransfer(dst, src, width, pad, prev, last)[prev * width + p] == WordAt(src, 4 * p)
  {
    DirectTransferRow(dst, src, width, pad, prev, last, prev, p);
  }

  /** With mDataRowPadding at 0, a transfer of rows prev..last reads only the
      first (last - prev + 1) * 4 * width bytes, which the engine's buffer of
      4 * width * height bytes holds whenever 0 <= prev <= last < height. */
  lemma TransferReadsInBounds(width: int, height: int, prev: int, last: int, len: int, k: int, p: int)
    requires width > 0 && 0 <= prev <= last < height && len >= 4 * width * height
    requires 0 <= k <= last - prev && 0 <= p < width
    ensures 0 <= SourceOffset(width, 0, k, p) && SourceOffset(width, 0, k, p) + 4 <= len
  {
    MulLe(0, k, 4 * width);
    MulLe(k + 1, height, 4 * width);
    assert 4 * width * height == height * (4 * width);
  }
}
