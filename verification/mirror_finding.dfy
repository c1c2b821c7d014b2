/**
  The bottom pointer of `Alg_CameraMirrorProcess` starts at
  `height * wordWidth - wordWidth`, a position measured in row widths, while
  both pointers then step by the pitch. Whenever the pitch is wider than a row
  the start is not the frame's last row and the output is not a mirror.
 */
module MirrorFinding {
  import opened SysTypes
  import opened RowSwaps
  import opened MirrorSpec
  import opened MirrorAlgo

  /** A positive number of steps of a longer stride reaches further. */
  lemma {:induction false} TimesStrict(r: int, s1: nat, s2: nat)
    requires r >= 1 && s1 < s2
    ensures Times(r, s1) < Times(r, s2)
  {
    if r > 1 {
      TimesStrict(r - 1, s1, s2);
    }
  }

  /**
    For every frame of at least two non-empty rows whose pitch exceeds the row
    width (and whose size in words stays below 2^32), the computed start lies
    before the last row.
   */
  lemma AsWrittenMissesLastRow(width: UInt32, height: UInt32, pitch: UInt32)
    requires WordWidth(width) > 0 && pitch / 4 > WordWidth(width) && height >= 2
    requires height * WordWidth(width) < TWO_32
    ensures !StartsAtLastRow(AsWritten(width, height, pitch))
    ensures AsWritten(width, height, pitch).base < Corrected(width, height, pitch).base
  {
    var w := WordWidth(width);
    var g := AsWritten(width, height, pitch);
    var hw := Times(height, w);
    TimesIsProduct(height, w);
    assert 0 <= hw < TWO_32;
    assert g.base == hw - w;
    TimesSub(height, height - 1, w);
    assert Times(1, w) == w;
    TimesStrict(height - 1, w, g.stride);
  }

  /** The geometries of a 2-pixel-wide, 2-row frame with an 8-byte pitch. */
  lemma SmallPaddedGeometry()
    ensures AsWritten(2, 2, 8) == Geometry(1, 2, 2, 1)
    ensures Corrected(2, 2, 8) == Geometry(1, 2, 2, 2)
  {
    assert WordWidth(2) == 1;
    assert Times(2, 1) == 2;
    assert Times(1, 2) == 2;
  }

  /**
    A 2-pixel-wide, 2-row frame with an 8-byte pitch, whose geometry as
    written is `Geometry(1, 2, 2, 1)` (`SmallPaddedGeometry`): one word per
    row and one padding word after each row. The code as written exchanges the
    first row with the padding word behind it, so the result can be the
    mirrored frame only when the first three words are equal; `[1, 2, 3, 4]`
    is not mirrored.
   */
  lemma AsWrittenFlipCounterexample(b: seq<Word>, g: Geometry)
    requires |b| == 4 && g == Geometry(1, 2, 2, 1)
    ensures InBounds(g, |b|) && FrameFits(g, |b|) && Flip(b, g) == [b[1], b[0], b[2], b[3]]
    ensures RowsMirrored(b, Flip(b, g), g) ==> b[0] == b[1] == b[2]
  {
    assert g.Top(0) == 0 && g.Top(1) == 2;
    var p := SmallFlip(b, g);
    assert p == [b[1], b[0], b[2], b[3]];
    RowZeroWithPadding(b, p, g);
  }

  /**
    In the same frame, a result that exchanges word 0 (the first row) with
    word 1 (its padding) is the mirrored frame only if words 0, 1 and 2 are
    equal.
   */
  lemma RowZeroWithPadding(b: seq<Word>, p: seq<Word>, g: Geometry)
    requires |b| == 4 && g == Geometry(1, 2, 2, 1) && p == [b[1], b[0], b[2], b[3]]
    ensures FrameFits(g, |b|)
    ensures RowsMirrored(b, p, g) ==> b[0] == b[1] == b[2]
  {
    assert g.Top(0) == 0 && g.Top(1) == 2;
    assert InSpan(g.Top(0), g.wordWidth, 0) && InSpan(g.Top(1), g.wordWidth, 2);
    if RowsMirrored(b, p, g) {
      assert p[0] == b[g.Top(1) + 0] && p[2] == b[g.Top(0) + 0];
    }
  }

  /**
    The same frame with the corrected geometry `Geometry(1, 2, 2, 2)`: the two
    rows are exchanged, the padding stays, and the frame is mirrored.
   */
  lemma CorrectedFlipExample(b: seq<Word>, g: Geometry)
    requires |b| == 4 && g == Geometry(1, 2, 2, 2)
    ensures InBounds(g, |b|) && FrameFits(g, |b|) && Flip(b, g) == [b[2], b[1], b[0], b[3]]
    ensures RowsMirrored(b, Flip(b, g), g)
  {
    assert g.Top(0) == 0 && g.Top(1) == 2;
    var p := SmallFlip(b, g);
    assert p == [b[2], b[1], b[0], b[3]];
    forall r, k | 0 <= r < g.height && InSpan(g.Top(r), g.wordWidth, k)
      ensures p[k] == b[g.Top(g.height - 1 - r) + (k - g.Top(r))]
    {
      if r == 0 {
        assert k == 0;
      } else {
        assert r == 1 && k == 2;
      }
    }
  }

  /** A one-word, two-row frame with a two-word stride flips with a single swap of word 0 and word `base`. */
  lemma SmallFlip(b: seq<Word>, g: Geometry) returns (p: seq<Word>)
    requires |b| == 4 && g.wordWidth == 1 && g.height == 2 && g.stride == 2 && 0 < g.base < 4
    ensures InBounds(g, |b|) && Flip(b, g) == p
    ensures p == b[0 := b[g.base]][g.base := b[0]]
  {
    assert g.Top(0) == 0 && g.Bot(0) == g.base;
    assert g.Rows() == [RowPair(0, g.base)];
    var rows := g.Rows();
    p := SwapRow(b, 0, g.base, 1);
    assert p == SwapRow(Swap(b, 0, g.base), 1, g.base + 1, 0) == Swap(b, 0, g.base);
    assert SwapPairsFrom(b, rows, 1, 0) == SwapPairsFrom(p, rows, 1, 1) == p;
  }

  /** The geometries as written of three more padded frames, used below. */
  lemma MorePaddedGeometries()
    ensures AsWritten(2, 3, 8) == Geometry(1, 3, 2, 2)
    ensures AsWritten(2, 4, 8) == Geometry(1, 4, 2, 3)
    ensures AsWritten(4, 6, 12) == Geometry(2, 6, 3, 10)
    ensures AsWritten(2, 4, 40) == Geometry(1, 4, 10, 3)
  {
    assert WordWidth(2) == 1 && WordWidth(4) == 2;
    assert Times(3, 1) == 3 && Times(4, 1) == 4 && Times(6, 2) == 12;
  }

  /**
    A 2-pixel-wide, 3-row frame with an 8-byte pitch: the code as written
    exchanges row 0 with word 2, the first word of the middle row, which a
    mirror leaves in place.
   */
  lemma AsWrittenSwapsMiddleRow(g: Geometry)
    requires g == Geometry(1, 3, 2, 2)
    ensures g.height % 2 == 1 && g.Top(g.Pairs()) == 2
    ensures InPairRows(g, 2) && !StartsAtLastRow(g)
  {
    assert g.Top(1) == 2 && g.Top(2) == 4;
    var rows := g.Rows();
    assert |rows| == 1 && rows[0].bot == 2;
    assert InSpan(rows[0].bot, g.wordWidth, 2);
  }

  /**
    A 2-pixel-wide, 4-row frame with an 8-byte pitch: the pairs the code as
    written exchanges are words (0, 3) and (2, 1), so the second pair crosses
    the first, yet no two rows share a word and the exchange and involution
    lemmas apply.
   */
  lemma AsWrittenCrossingRows(g: Geometry)
    requires g == Geometry(1, 4, 2, 3)
    ensures g.Rows() == [RowPair(0, 3), RowPair(2, 1)]
    ensures RowsApart(g) && !Separated(g)
  {
    assert g.Top(1) == 2 && g.Bot(1) == 1;
    assert g.Rows() == [RowPair(0, 3), RowPair(2, 1)];
    TwoPairsApart(RowPair(0, 3), RowPair(2, 1), 1);
  }

  /**
    A 4-pixel-wide, 6-row frame with a 12-byte pitch: the rows of the second
    pair (words 3-4 and 7-8) overlap those of the third (words 6-7 and 4-5),
    so the exchange and involution lemmas do not apply to the flip as written.
   */
  lemma AsWrittenOverlappingRows(g: Geometry)
    requires g == Geometry(2, 6, 3, 10)
    ensures g.Rows() == [RowPair(0, 10), RowPair(3, 7), RowPair(6, 4)]
    ensures !RowsApart(g)
  {
    assert g.Top(1) == 3 && g.Top(2) == 6 && g.Bot(1) == 7 && g.Bot(2) == 4;
    assert g.Rows() == [RowPair(0, 10), RowPair(3, 7), RowPair(6, 4)];
    assert !Disjoint(g.Rows()[1].top, g.Rows()[2].bot, g.wordWidth);
  }

  /**
    A 2-pixel-wide, 4-row frame with a 40-byte pitch (`AsWritten(2, 4, 40)`):
    the frame's rows fit in the 40 words of its `height * pitch` bytes, yet
    the second iteration of the code as written starts the bottom row 7 words
    before the buffer, so no buffer, however large, holds what the call
    addresses.
   */
  lemma AsWrittenLeavesBuffer(g: Geometry)
    requires g == Geometry(1, 4, 10, 3)
    ensures FrameFits(g, 40)
    ensures g.Pairs() == 2 && g.Bot(1) == -7
    ensures forall n: nat :: !InBounds(g, n)
  {
    assert g.Top(1) == 10 && g.Top(2) == 20 && g.Top(3) == 30;
    var rows := g.Rows();
    assert rows[1].bot == -7;
  }
}
