/**
  `Alg_CameraMirrorProcess` of cameraMirrorAlgo.c as a method over the
  contents of the frame buffer, with the two pointer walks and the word swap
  through `temp` kept as in the C loops, and its corrected counterpart whose
  bottom pointer starts at the frame's last row.
 */
module MirrorAlgo {
  import opened SysTypes
  import opened RowSwaps
  import opened MirrorSpec

  /**
    The geometry with the bottom pointer started `height - 1` pitch strides
    into the buffer, the row the top pointer reaches last; width and stride
    are those of `AsWritten`.
   */
  function Corrected(width: UInt32, height: UInt32, pitch: UInt32): (g: Geometry)
    ensures g.wordWidth == AsWritten(width, height, pitch).wordWidth
    ensures g.stride == AsWritten(width, height, pitch).stride && g.height == height
    ensures StartsAtLastRow(g)
  {
    var stride := pitch / 4;
    Geometry(WordWidth(width), height, stride, Times(height - 1, stride))
  }

  /**
    The inner loop of one iteration: for `colIdx` from 0 to `w`, the words at
    `inputPtr + colIdx` and `outputPtr + colIdx` are exchanged through `temp`.
   */
  method SwapWords(buf: seq<Word>, inputPtr: int, outputPtr: int, w: nat) returns (out: seq<Word>)
    requires w == 0 || (0 <= inputPtr && inputPtr + w <= |buf| && 0 <= outputPtr && outputPtr + w <= |buf|)
    ensures out == SwapRow(buf, inputPtr, outputPtr, w)
  {
    out := buf;
    var colIdx := 0;
    while colIdx < w
      invariant 0 <= colIdx <= w
      invariant |out| == |buf|
      invariant SwapRow(out, inputPtr + colIdx, outputPtr + colIdx, w - colIdx)
             == SwapRow(buf, inputPtr, outputPtr, w)
    {
      var temp := out[inputPtr + colIdx];
      out := out[inputPtr + colIdx := out[outputPtr + colIdx]];
      out := out[outputPtr + colIdx := temp];
      colIdx := colIdx + 1;
    }
  }

  /**
    The outer loop: `inputPtr` walks down from the first row and `outputPtr`
    up from `g.base`, both by `g.stride` words, and each of the `height / 2`
    iterations exchanges the `wordWidth` words under the two pointers. The
    result is the reference flip.
   */
  method SwapRowPairs(buf: seq<Word>, g: Geometry) returns (out: seq<Word>)
    requires InBounds(g, |buf|)
    ensures out == Flip(buf, g)
  {
    ghost var rows := g.Rows();
    out := buf;
    var inputPtr := 0;
    var outputPtr := g.base;
    var rowIdx := 0;
    while rowIdx < g.height / 2
      invariant 0 <= rowIdx <= |rows|
      invariant inputPtr == g.Top(rowIdx) && outputPtr == g.Bot(rowIdx)
      invariant |out| == |buf|
      invariant SwapPairsFrom(out, rows, g.wordWidth, rowIdx) == Flip(buf, g)
    {
      assert rows[rowIdx] == RowPair(inputPtr, outputPtr);
      out := SwapWords(out, inputPtr, outputPtr, g.wordWidth);
      inputPtr := inputPtr + g.stride;
      outputPtr := outputPtr - g.stride;
      rowIdx := rowIdx + 1;
    }
  }

  /**
    `Alg_CameraMirrorProcess`: any format other than YUYV 4:2:2 interleaved
    fails and leaves the buffer alone; YUYV succeeds and the buffer is flipped
    with the geometry the code computes. The result is always a permutation of
    the buffer, and for a packed frame (pitch of exactly one row) whose size
    stays below 2^32 words it is the vertical mirror of the frame. The call
    must stay inside the buffer; with a padded pitch the code as written can
    address words before it even when the frame fits
    (`MirrorFinding.AsWrittenLeavesBuffer`), and such calls are not modelled.
   */
  method Process(buf: seq<Word>, width: UInt32, height: UInt32, pitch: UInt32, format: DataFormat)
    returns (status: Status, out: seq<Word>)
    requires format == Yuv422iYuyv ==> InBounds(AsWritten(width, height, pitch), |buf|)
    ensures status == Sok <==> format == Yuv422iYuyv
    ensures status == Efail ==> out == buf
    ensures status == Sok ==> out == Flip(buf, AsWritten(width, height, pitch))
    ensures multiset(out) == multiset(buf)
    ensures var g := AsWritten(width, height, pitch);
      status == Sok && g.stride == g.wordWidth && height * g.wordWidth < TWO_32 && FrameFits(g, |buf|)
      ==> RowsMirrored(buf, out, g)
  {
    if format != Yuv422iYuyv {
      return Efail, buf;
    }
    var g := AsWritten(width, height, pitch);
    out := SwapRowPairs(buf, g);
    FlipPermutes(buf, g);
    if g.stride == g.wordWidth && height * g.wordWidth < TWO_32 && FrameFits(g, |buf|) {
      PackedStartsAtLastRow(width, height, pitch);
      FlipMirrors(buf, g);
    }
    status := Sok;
  }

  /** For a packed frame below 2^32 words, the computed bottom start is the last row. */
  lemma PackedStartsAtLastRow(width: UInt32, height: UInt32, pitch: UInt32)
    requires AsWritten(width, height, pitch).stride == WordWidth(width)
    requires height * WordWidth(width) < TWO_32
    ensures StartsAtLastRow(AsWritten(width, height, pitch))
  {
    var w := WordWidth(width);
    var hw := Times(height, w);
    TimesIsProduct(height, w);
    assert 0 <= hw < TWO_32 && hw % TWO_32 == hw;
    if height > 0 {
      assert hw - w == Times(height - 1, w);
    } else {
      assert Times(-1, w) + w == 0;
    }
  }

  /**
    `Alg_CameraMirrorProcess` with the bottom pointer started at the last row.
    Formats and failure are as in `Process`; on YUYV the result is a
    permutation of the buffer that, whenever the pitch covers a row and the
    frame fits the buffer, mirrors every row of the frame and keeps every word
    outside the frame's rows.
   */
  method ProcessCorrected(buf: seq<Word>, width: UInt32, height: UInt32, pitch: UInt32, format: DataFormat)
    returns (status: Status, out: seq<Word>)
    requires format == Yuv422iYuyv ==> InBounds(Corrected(width, height, pitch), |buf|)
    ensures status == Sok <==> format == Yuv422iYuyv
    ensures status == Efail ==> out == buf
    ensures status == Sok ==> out == Flip(buf, Corrected(width, height, pitch))
    ensures |out| == |buf| && multiset(out) == multiset(buf)
    ensures var g := Corrected(width, height, pitch);
      status == Sok && g.wordWidth <= g.stride && FrameFits(g, |buf|) ==>
        RowsMirrored(buf, out, g) &&
        forall k :: 0 <= k < |buf| && OutsideFrame(g, k) ==> out[k] == buf[k]
  {
    if format != Yuv422iYuyv {
      return Efail, buf;
    }
    var g := Corrected(width, height, pitch);
    out := SwapRowPairs(buf, g);
    FlipPermutes(buf, g);
    if g.wordWidth <= g.stride && FrameFits(g, |buf|) {
      FlipMirrors(buf, g);
    }
    status := Sok;
  }

  /** `Alg_CameraMirrorControl`: the algorithm has no control parameters and always succeeds. */
  function AlgControl(): (s: Status)
    ensures s == Sok
  {
    Sok
  }

  /** `Alg_CameraMirrorDelete`: frees the handle and succeeds. */
  function AlgDelete(): (s: Status)
    ensures s == Sok
  {
    Sok
  }
}
