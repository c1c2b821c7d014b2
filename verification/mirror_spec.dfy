/**
  The addressing of `Alg_CameraMirrorProcess` (cameraMirrorAlgo.c) and what
  the flip amounts to.

  The C code walks two word pointers over one buffer: `inputPtr` starts at the
  first word and moves down by the pitch stride, `outputPtr` starts at the word
  the code computes for the last row and moves up by the same stride. A
  `Geometry` records the four numbers that fix those walks (row width in
  words, height, stride, start of the bottom pointer); `Rows` turns them into
  the schedule of row pairs that the swaps of `RowSwaps` replay. The lemmas say
  that the flip exchanges row pairs and undoes itself whenever no two
  scheduled rows share a word, when that is so, and that the flip is a true
  vertical mirror of the frame when the bottom pointer starts at the last row.
 */
module MirrorSpec {
  import opened SysTypes
  import opened RowSwaps

  /** Words per row: `(width*2)>>2` in `UInt32` arithmetic, i.e. two pixels per word. */
  function WordWidth(width: UInt32): (w: nat)
    ensures w == (width % 0x8000_0000) / 2
    ensures width < 0x8000_0000 ==> w == width / 2
  {
    ((width * 2) % TWO_32) / 4
  }

  /**
    The product `r * s`, spelt out as repeated addition: the offset a pointer
    reaches after `r` steps of `s` words. Keeping `*` out of the addressing
    lets the proofs about pointer offsets stay in linear arithmetic;
    `TimesIsProduct` ties it back to multiplication.
   */
  function Times(r: int, s: nat): int
    decreases if r < 0 then -r else r
  {
    if r == 0 then 0
    else if r > 0 then Times(r - 1, s) + s
    else Times(r + 1, s) - s
  }

  /** `Times` is multiplication. */
  lemma {:induction false} TimesIsProduct(r: int, s: nat)
    ensures Times(r, s) == r * s
    decreases if r < 0 then -r else r
  {
    if r > 0 {
      TimesIsProduct(r - 1, s);
    } else if r < 0 {
      TimesIsProduct(r + 1, s);
    }
  }

  /** `Times` distributes over a difference of step counts. */
  lemma TimesSub(a: int, r: int, s: nat)
    ensures Times(a, s) - Times(r, s) == Times(a - r, s)
  {
    TimesIsProduct(a, s);
    TimesIsProduct(r, s);
    TimesIsProduct(a - r, s);
    assert a * s - r * s == (a - r) * s;
  }

  /** A non-negative number of steps reaches no further with a shorter stride. */
  lemma {:induction false} TimesStrideMono(r: nat, s1: nat, s2: nat)
    requires s1 <= s2
    ensures 0 <= Times(r, s1) <= Times(r, s2)
  {
    if r > 0 {
      TimesStrideMono(r - 1, s1, s2);
    }
  }

  /** A product with a non-negative factor `s` grows with the other factor. */
  lemma TimesMono(a: int, b: int, s: nat)
    requires a <= b
    ensures Times(a, s) <= Times(b, s)
  {
    TimesSub(b, a, s);
    TimesIsProduct(b - a, s);
  }

  /**
    The addressing of one call: words exchanged per row, frame height, the
    pointer step in words (`inPitch[0] >> 2`), and the word offset at which the
    bottom pointer starts.
   */
  datatype Geometry = Geometry(wordWidth: nat, height: nat, stride: nat, base: int)
  {
    /** Number of row pairs the outer loop exchanges. */
    function Pairs(): nat {
      height / 2
    }

    /** Offset of `inputPtr` in iteration `r`. */
    function Top(r: int): int {
      Times(r, stride)
    }

    /** Offset of `outputPtr` in iteration `r`. */
    function Bot(r: int): int {
      base - Times(r, stride)
    }

    /** The schedule of the outer loop: one (top, bottom) pair per iteration. */
    function Rows(): seq<RowPair> {
      seq(Pairs(), r => RowPair(Top(r), Bot(r)))
    }
  }

  /**
    The geometry `Alg_CameraMirrorProcess` uses: the bottom pointer starts at
    `height * wordWidth - wordWidth` (the product taken modulo 2^32), a
    width-based position, while both pointers step by the pitch.
   */
  function AsWritten(width: UInt32, height: UInt32, pitch: UInt32): (g: Geometry)
    ensures g.wordWidth == WordWidth(width) && g.height == height && g.stride == pitch / 4
    ensures Times(height, g.wordWidth) < TWO_32 ==> g.base == Times(height - 1, g.wordWidth)
  {
    var w := WordWidth(width);
    RowWidthsBack(height, w);
    Geometry(w, height, pitch / 4, Times(height, w) % TWO_32 - w)
  }

  /** Below 2^32, one row width back from `height` row widths is `height - 1` row widths. */
  lemma RowWidthsBack(height: nat, w: nat)
    ensures Times(height, w) < TWO_32 ==> Times(height, w) % TWO_32 - w == Times(height - 1, w)
  {
    TimesStrideMono(height, 0, w);
    if height == 0 {
      assert Times(-1, w) + w == 0;
    }
  }

  /** Every word the row-pair swaps address lies inside a buffer of `n` words. */
  predicate InBounds(g: Geometry, n: nat) {
    RowsInRange(g.Rows(), g.wordWidth, n)
  }

  /** The whole flip: all `height / 2` row pairs, swapped word by word in the order of the C loops. */
  function Flip(b: seq<Word>, g: Geometry): (s: seq<Word>)
    requires InBounds(g, |b|)
    ensures |s| == |b|
  {
    SwapPairsFrom(b, g.Rows(), g.wordWidth, 0)
  }

  /** Word `k` lies in a row of some pair the flip exchanges. */
  predicate InPairRows(g: Geometry, k: int) {
    !Untouched(g.Rows(), g.wordWidth, 0, k)
  }

  /** The flip only exchanges words, so it keeps the multiset of words of the buffer. */
  lemma FlipPermutes(b: seq<Word>, g: Geometry)
    requires InBounds(g, |b|)
    ensures multiset(Flip(b, g)) == multiset(b)
  {
    SwapPairsPermutes(b, g.Rows(), g.wordWidth, 0);
  }

  /** The flip changes no word outside the rows of the exchanged pairs (pitch padding, a middle row, the rest of the buffer). */
  lemma FlipFrame(b: seq<Word>, g: Geometry)
    requires InBounds(g, |b|)
    ensures forall k :: 0 <= k < |b| && !InPairRows(g, k) ==> Flip(b, g)[k] == b[k]
  {
    SwapPairsFrame(b, g.Rows(), g.wordWidth, 0);
  }

  /**
    The rows of different pairs never share a word and every top row lies
    before every bottom row. The packed layout and every layout whose bottom
    pointer starts at the last row satisfy it.
   */
  predicate Separated(g: Geometry) {
    g.wordWidth == 0 || g.Pairs() == 0 ||
    ((g.Pairs() == 1 || g.wordWidth <= g.stride) &&
     g.Top(g.Pairs() - 1) + g.wordWidth <= g.Bot(g.Pairs() - 1))
  }

  /** With a stride of at least one row, a lower row index starts at least one row earlier. */
  lemma TopOrder(g: Geometry, r1: int, r2: int)
    requires g.wordWidth <= g.stride && r1 < r2
    ensures g.Top(r1) + g.wordWidth <= g.Top(r2)
  {
    TimesMono(r1 + 1, r2, g.stride);
    assert Times(r1 + 1, g.stride) == Times(r1, g.stride) + g.stride;
  }

  /** Under separation, top rows precede bottom rows and rows of a side are ordered and disjoint. */
  lemma RowOrder(g: Geometry, r1: int, r2: int)
    requires Separated(g) && g.wordWidth > 0
    requires 0 <= r1 < g.Pairs() && 0 <= r2 < g.Pairs()
    ensures g.Top(r1) + g.wordWidth <= g.Bot(r2)
    ensures r1 < r2 ==> g.Top(r1) + g.wordWidth <= g.Top(r2) && g.Bot(r2) + g.wordWidth <= g.Bot(r1)
  {
    var last := g.Pairs() - 1;
    TimesMono(r1, last, g.stride);
    TimesMono(r2, last, g.stride);
    if r1 < r2 {
      TopOrder(g, r1, r2);
    }
  }

  /** No two rows the flip addresses share a word, in whatever order they lie. */
  predicate RowsApart(g: Geometry) {
    Apart(g.Rows(), g.wordWidth)
  }

  /** A separated geometry has its rows apart. */
  lemma SeparatedApart(g: Geometry)
    requires Separated(g)
    ensures RowsApart(g)
  {
    var rows := g.Rows();
    var w := g.wordWidth;
    if w > 0 {
      forall i | 0 <= i < |rows|
        ensures Disjoint(rows[i].top, rows[i].bot, w)
      {
        RowOrder(g, i, i);
      }
      forall i, j | 0 <= i < |rows| && 0 <= j < |rows| && i != j
        ensures Disjoint(rows[i].top, rows[j].top, w) && Disjoint(rows[i].top, rows[j].bot, w)
        ensures Disjoint(rows[i].bot, rows[j].bot, w)
      {
        RowOrder(g, i, j);
        RowOrder(g, j, i);
      }
    }
  }

  /** With its rows apart, the flip exchanges the two rows of every pair. */
  lemma FlipExchangesPairs(b: seq<Word>, g: Geometry)
    requires InBounds(g, |b|) && RowsApart(g)
    ensures AllPairsExchanged(b, Flip(b, g), g.Rows(), g.wordWidth)
  {
    SwapPairsExchange(b, g.Rows(), g.wordWidth);
  }

  /** With its rows apart, flipping twice with the same geometry restores the buffer. */
  lemma FlipInvolution(b: seq<Word>, g: Geometry)
    requires InBounds(g, |b|) && RowsApart(g)
    ensures Flip(Flip(b, g), g) == b
  {
    SwapPairsInvolution(b, g.Rows(), g.wordWidth);
  }

  /** The bottom pointer starts exactly at the frame's last row. */
  predicate StartsAtLastRow(g: Geometry) {
    g.base == g.Top(g.height - 1)
  }

  /** All `height` rows, `stride` words apart, fit in a buffer of `n` words. */
  predicate FrameFits(g: Geometry, n: nat) {
    forall r :: 0 <= r < g.height ==> 0 <= g.Top(r) && g.Top(r) + g.wordWidth <= n
  }

  /** Row `r` of `s` holds the old row `height - 1 - r` of `b`, for every row of the frame. */
  ghost predicate RowsMirrored(b: seq<Word>, s: seq<Word>, g: Geometry)
    requires |s| == |b| && FrameFits(g, |b|)
  {
    forall r, k :: 0 <= r < g.height && InSpan(g.Top(r), g.wordWidth, k) ==>
      s[k] == b[g.Top(g.height - 1 - r) + (k - g.Top(r))]
  }

  /** Word `k` lies in no row of the frame (pitch padding or beyond the last row). */
  predicate OutsideFrame(g: Geometry, k: int) {
    forall r :: 0 <= r < g.height ==> !InSpan(g.Top(r), g.wordWidth, k)
  }

  /** Rows no longer than the stride all fit in `n` words when `height` strides do. */
  lemma FrameFitsWithin(g: Geometry, n: nat)
    requires g.wordWidth <= g.stride && Times(g.height, g.stride) <= n
    ensures FrameFits(g, n)
  {
    forall r | 0 <= r < g.height
      ensures 0 <= g.Top(r) && g.Top(r) + g.wordWidth <= n
    {
      TimesMono(0, r, g.stride);
      TimesMono(r + 1, g.height, g.stride);
      assert Times(r + 1, g.stride) == Times(r, g.stride) + g.stride;
    }
  }

  /** When the bottom pointer starts at the last row, iteration `r` addresses row `height - 1 - r`. */
  lemma BotIsMirrorRow(g: Geometry, r: int)
    requires StartsAtLastRow(g)
    ensures g.Bot(r) == g.Top(g.height - 1 - r)
  {
    TimesSub(g.height - 1, r, g.stride);
  }

  /** A frame that fits, with the bottom pointer at its last row and a stride of at least one row, is in bounds and separated. */
  lemma MirrorGeometry(g: Geometry, n: nat)
    requires StartsAtLastRow(g) && g.wordWidth <= g.stride && FrameFits(g, n)
    ensures InBounds(g, n) && Separated(g)
  {
    var rows := g.Rows();
    forall r | 0 <= r < |rows|
      ensures rows[r].bot == g.Top(g.height - 1 - r)
    {
      BotIsMirrorRow(g, r);
    }
    if g.wordWidth > 0 && g.Pairs() > 0 {
      BotIsMirrorRow(g, g.Pairs() - 1);
      TopOrder(g, g.Pairs() - 1, g.height - g.Pairs());
    }
  }

  /** For an odd height, the middle row lies in no exchanged row when the bottom pointer starts at the last row. */
  lemma MiddleRowUntouched(g: Geometry, k: int)
    requires StartsAtLastRow(g) && g.wordWidth <= g.stride && g.height % 2 == 1
    requires InSpan(g.Top(g.Pairs()), g.wordWidth, k)
    ensures !InPairRows(g, k)
  {
    var mid := g.Pairs();
    var rows := g.Rows();
    forall r | 0 <= r < |rows|
      ensures !InSpan(rows[r].top, g.wordWidth, k) && !InSpan(rows[r].bot, g.wordWidth, k)
    {
      TopOrder(g, r, mid);
      BotIsMirrorRow(g, r);
      TopOrder(g, mid, g.height - 1 - r);
    }
  }

  /** A word in no row of the frame lies in no exchanged row when the bottom pointer starts at the last row. */
  lemma OutsideFrameUntouched(g: Geometry, k: int)
    requires StartsAtLastRow(g) && OutsideFrame(g, k)
    ensures !InPairRows(g, k)
  {
    var rows := g.Rows();
    forall r | 0 <= r < |rows|
      ensures !InSpan(rows[r].top, g.wordWidth, k) && !InSpan(rows[r].bot, g.wordWidth, k)
    {
      BotIsMirrorRow(g, r);
    }
  }

  /** One row of the mirrored frame, from the pair exchanges and the frame of the flip. */
  lemma MirrorRow(b: seq<Word>, s: seq<Word>, g: Geometry, r: int, k: int)
    requires StartsAtLastRow(g) && g.wordWidth <= g.stride && FrameFits(g, |b|)
    requires |s| == |b| && InBounds(g, |b|)
    requires AllPairsExchanged(b, s, g.Rows(), g.wordWidth)
    requires forall q :: 0 <= q < |b| && !InPairRows(g, q) ==> s[q] == b[q]
    requires 0 <= r < g.height && InSpan(g.Top(r), g.wordWidth, k)
    ensures s[k] == b[g.Top(g.height - 1 - r) + (k - g.Top(r))]
  {
    var h := g.height;
    var rows := g.Rows();
    if r < g.Pairs() {
      BotIsMirrorRow(g, r);
      assert rows[r] == RowPair(g.Top(r), g.Bot(r));
      assert PairExchanged(b, s, rows, g.wordWidth, r);
    } else if h - 1 - r < g.Pairs() {
      var r' := h - 1 - r;
      BotIsMirrorRow(g, r');
      assert rows[r'] == RowPair(g.Top(r'), g.Bot(r'));
      assert PairExchanged(b, s, rows, g.wordWidth, r');
    } else {
      assert r == g.Pairs() && h % 2 == 1;
      MiddleRowUntouched(g, k);
    }
  }

  /**
    When the bottom pointer starts at the last row and the stride covers a row,
    the flip is a true vertical mirror of the frame and leaves every word
    outside the frame's rows (pitch padding included) unchanged.
   */
  lemma FlipMirrors(b: seq<Word>, g: Geometry)
    requires StartsAtLastRow(g) && g.wordWidth <= g.stride && FrameFits(g, |b|)
    ensures InBounds(g, |b|) && Separated(g)
    ensures RowsMirrored(b, Flip(b, g), g)
    ensures forall k :: 0 <= k < |b| && OutsideFrame(g, k) ==> Flip(b, g)[k] == b[k]
  {
    MirrorGeometry(g, |b|);
    var s := Flip(b, g);
    SeparatedApart(g);
    FlipExchangesPairs(b, g);
    FlipFrame(b, g);
    forall r, k | 0 <= r < g.height && InSpan(g.Top(r), g.wordWidth, k)
      ensures s[k] == b[g.Top(g.height - 1 - r) + (k - g.Top(r))]
    {
      MirrorRow(b, s, g, r, k);
    }
    forall k | 0 <= k < |b| && OutsideFrame(g, k)
      ensures s[k] == b[k]
    {
      OutsideFrameUntouched(g, k);
    }
  }
}
