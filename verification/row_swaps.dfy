/**
  The word-swapping core of the mirror loop, stated over an explicit schedule.

  `Alg_CameraMirrorProcess` (cameraMirrorAlgo.c) runs an outer loop over row
  pairs and, for each pair, an inner loop that exchanges the word at
  `inputPtr[c]` with the word at `outputPtr[c]` for `c = 0 .. wordWidth-1`.
  This module takes the schedule of (top row, bottom row) word offsets as data
  and replays the swaps in exactly the order the C loops perform them, so the
  semantics stays exact even when rows overlap. The lemmas say what the replay
  amounts to: a permutation of the buffer that leaves every word outside the
  scheduled rows alone and, when no two scheduled rows share a word, an
  exchange of each top row with its bottom row that undoes itself when run
  twice.
 */
module RowSwaps {
  import opened SysTypes

  /** The word offsets of `inputPtr` (top) and `outputPtr` (bottom) in one outer iteration. */
  datatype RowPair = RowPair(top: int, bot: int)

  /** Word `k` lies among the `len` words starting at `start`. */
  predicate InSpan(start: int, len: nat, k: int) {
    start <= k < start + len
  }

  /** Exchange the words at `i` and `j` through a temporary, as the inner loop body does. */
  function Swap(b: seq<Word>, i: int, j: int): (s: seq<Word>)
    requires 0 <= i < |b| && 0 <= j < |b|
    ensures |s| == |b|
  {
    b[i := b[j]][j := b[i]]
  }

  /** An exchange of two words keeps the multiset of words. */
  lemma SwapPermutes(b: seq<Word>, i: int, j: int)
    requires 0 <= i < |b| && 0 <= j < |b|
    ensures multiset(Swap(b, i, j)) == multiset(b)
  {
  }

  /**
    The inner loop with `n` columns left: words `top` and `bot` are exchanged
    first, then `top + 1` and `bot + 1`, and so on.
   */
  function SwapRow(b: seq<Word>, top: int, bot: int, n: nat): (s: seq<Word>)
    requires n == 0 || (0 <= top && top + n <= |b| && 0 <= bot && bot + n <= |b|)
    ensures |s| == |b|
    decreases n
  {
    if n == 0 then b
    else SwapRow(Swap(b, top, bot), top + 1, bot + 1, n - 1)
  }

  /** The inner loop only exchanges words, so it permutes the buffer. */
  lemma {:induction false} SwapRowPermutes(b: seq<Word>, top: int, bot: int, n: nat)
    requires n == 0 || (0 <= top && top + n <= |b| && 0 <= bot && bot + n <= |b|)
    ensures multiset(SwapRow(b, top, bot, n)) == multiset(b)
    decreases n
  {
    if n > 0 {
      SwapPermutes(b, top, bot);
      SwapRowPermutes(Swap(b, top, bot), top + 1, bot + 1, n - 1);
    }
  }

  /** The inner loop changes no word outside its two rows. */
  lemma {:induction false} SwapRowFrame(b: seq<Word>, top: int, bot: int, n: nat)
    requires n == 0 || (0 <= top && top + n <= |b| && 0 <= bot && bot + n <= |b|)
    ensures forall k :: 0 <= k < |b| && !InSpan(top, n, k) && !InSpan(bot, n, k) ==> SwapRow(b, top, bot, n)[k] == b[k]
    decreases n
  {
    if n > 0 {
      SwapRowFrame(Swap(b, top, bot), top + 1, bot + 1, n - 1);
    }
  }

  /** The `w`-word rows starting at `a` and at `c` share no word. */
  predicate Disjoint(a: int, c: int, w: nat) {
    a + w <= c || c + w <= a
  }

  /** When the two rows share no word, in either order, the inner loop exchanges them. */
  lemma {:induction false} SwapRowExchanges(b: seq<Word>, top: int, bot: int, n: nat)
    requires 0 <= top && top + n <= |b| && 0 <= bot && bot + n <= |b| && Disjoint(top, bot, n)
    ensures forall k :: InSpan(top, n, k) ==> SwapRow(b, top, bot, n)[k] == b[bot + (k - top)]
    ensures forall k :: InSpan(bot, n, k) ==> SwapRow(b, top, bot, n)[k] == b[top + (k - bot)]
    decreases n
  {
    if n > 0 {
      var p := Swap(b, top, bot);
      SwapRowExchanges(p, top + 1, bot + 1, n - 1);
      SwapRowFrame(p, top + 1, bot + 1, n - 1);
    }
  }

  /** Every row of the schedule, `w` words long, lies inside a buffer of `n` words. */
  predicate RowsInRange(rows: seq<RowPair>, w: nat, n: nat) {
    w == 0 ||
    forall j :: 0 <= j < |rows| ==>
      0 <= rows[j].top && rows[j].top + w <= n && 0 <= rows[j].bot && rows[j].bot + w <= n
  }

  /** The outer loop from iteration `i` on: pairs `i`, `i + 1`, ... swapped in turn. */
  function SwapPairsFrom(b: seq<Word>, rows: seq<RowPair>, w: nat, i: nat): (s: seq<Word>)
    requires i <= |rows| && RowsInRange(rows, w, |b|)
    ensures |s| == |b|
    decreases |rows| - i
  {
    if i == |rows| then b
    else SwapPairsFrom(SwapRow(b, rows[i].top, rows[i].bot, w), rows, w, i + 1)
  }

  /** The outer loop only exchanges words, so it permutes the buffer. */
  lemma {:induction false} SwapPairsPermutes(b: seq<Word>, rows: seq<RowPair>, w: nat, i: nat)
    requires i <= |rows| && RowsInRange(rows, w, |b|)
    ensures multiset(SwapPairsFrom(b, rows, w, i)) == multiset(b)
    decreases |rows| - i
  {
    if i < |rows| {
      SwapRowPermutes(b, rows[i].top, rows[i].bot, w);
      SwapPairsPermutes(SwapRow(b, rows[i].top, rows[i].bot, w), rows, w, i + 1);
    }
  }

  /** Word `k` lies in neither row of any pair from `i` on. */
  predicate Untouched(rows: seq<RowPair>, w: nat, i: nat, k: int) {
    forall j :: i <= j < |rows| ==> !InSpan(rows[j].top, w, k) && !InSpan(rows[j].bot, w, k)
  }

  /** The outer loop changes no word outside the rows it visits. */
  lemma {:induction false} SwapPairsFrame(b: seq<Word>, rows: seq<RowPair>, w: nat, i: nat)
    requires i <= |rows| && RowsInRange(rows, w, |b|)
    ensures forall k :: 0 <= k < |b| && Untouched(rows, w, i, k) ==> SwapPairsFrom(b, rows, w, i)[k] == b[k]
    decreases |rows| - i
  {
    if i < |rows| {
      var p := SwapRow(b, rows[i].top, rows[i].bot, w);
      SwapRowFrame(b, rows[i].top, rows[i].bot, w);
      SwapPairsFrame(p, rows, w, i + 1);
      forall k | 0 <= k < |b| && Untouched(rows, w, i, k)
        ensures SwapPairsFrom(b, rows, w, i)[k] == b[k]
      {
        assert !InSpan(rows[i].top, w, k) && !InSpan(rows[i].bot, w, k);
        assert Untouched(rows, w, i + 1, k);
      }
    }
  }

  /**
    The scheduled rows never interfere: no two of them share a word, whether
    they are the two rows of one pair or rows of different pairs. Their order
    in the buffer does not matter.
   */
  predicate Apart(rows: seq<RowPair>, w: nat) {
    (forall i :: 0 <= i < |rows| ==> Disjoint(rows[i].top, rows[i].bot, w)) &&
    (forall i, j :: 0 <= i < |rows| && 0 <= j < |rows| && i != j ==>
      Disjoint(rows[i].top, rows[j].top, w) && Disjoint(rows[i].top, rows[j].bot, w) &&
      Disjoint(rows[i].bot, rows[j].bot, w))
  }

  /** A schedule of two pairs is apart when no two of its four rows share a word. */
  lemma TwoPairsApart(p: RowPair, q: RowPair, w: nat)
    requires Disjoint(p.top, p.bot, w) && Disjoint(q.top, q.bot, w)
    requires Disjoint(p.top, q.top, w) && Disjoint(p.top, q.bot, w)
    requires Disjoint(p.bot, q.top, w) && Disjoint(p.bot, q.bot, w)
    ensures Apart([p, q], w)
  {
    var rows := [p, q];
    forall i, j | 0 <= i < 2 && 0 <= j < 2 && i != j
      ensures Disjoint(rows[i].top, rows[j].top, w) && Disjoint(rows[i].top, rows[j].bot, w)
      ensures Disjoint(rows[i].bot, rows[j].bot, w)
    {
      if i == 1 {
        assert rows[i] == q && rows[j] == p;
      }
    }
  }

  /** On apart rows, no word of pair `i` lies in a row of a different pair `j`. */
  lemma ApartPairs(rows: seq<RowPair>, w: nat, i: int, j: int, q: int)
    requires Apart(rows, w) && 0 <= i < |rows| && 0 <= j < |rows| && i != j
    requires InSpan(rows[i].top, w, q) || InSpan(rows[i].bot, w, q)
    ensures !InSpan(rows[j].top, w, q) && !InSpan(rows[j].bot, w, q)
  {
    assert Disjoint(rows[i].top, rows[j].top, w) && Disjoint(rows[i].top, rows[j].bot, w);
    assert Disjoint(rows[i].bot, rows[j].bot, w) && Disjoint(rows[j].top, rows[i].bot, w);
  }

  /**
    Where the outer loop from iteration `i` on fetches the word it leaves at
    `k`, on apart rows: the partner word when `k` lies in a row of one of those
    pairs, and `k` itself otherwise.
   */
  function Partner(rows: seq<RowPair>, w: nat, i: nat, k: int): int
    requires i <= |rows|
    decreases |rows| - i
  {
    if i == |rows| then k
    else if InSpan(rows[i].top, w, k) then rows[i].bot + (k - rows[i].top)
    else if InSpan(rows[i].bot, w, k) then rows[i].top + (k - rows[i].bot)
    else Partner(rows, w, i + 1, k)
  }

  /** A word in no row of the pairs from `i` on is its own partner. */
  lemma {:induction false} PartnerUntouched(rows: seq<RowPair>, w: nat, i: nat, k: int)
    requires i <= |rows| && Untouched(rows, w, i, k)
    ensures Partner(rows, w, i, k) == k
    decreases |rows| - i
  {
    if i < |rows| {
      assert !InSpan(rows[i].top, w, k) && !InSpan(rows[i].bot, w, k);
      assert Untouched(rows, w, i + 1, k);
      PartnerUntouched(rows, w, i + 1, k);
    }
  }

  /** On apart rows, a word outside the rows of pair `i` has its later partner outside them too. */
  lemma {:induction false} PartnerAvoids(rows: seq<RowPair>, w: nat, i: nat, l: nat, k: int)
    requires Apart(rows, w) && i < l <= |rows|
    requires !InSpan(rows[i].top, w, k) && !InSpan(rows[i].bot, w, k)
    ensures !InSpan(rows[i].top, w, Partner(rows, w, l, k)) && !InSpan(rows[i].bot, w, Partner(rows, w, l, k))
    decreases |rows| - l
  {
    if l < |rows| {
      var q := Partner(rows, w, l, k);
      if InSpan(rows[l].top, w, k) {
        assert InSpan(rows[l].bot, w, q);
        ApartPairs(rows, w, l, i, q);
      } else if InSpan(rows[l].bot, w, k) {
        assert InSpan(rows[l].top, w, q);
        ApartPairs(rows, w, l, i, q);
      } else {
        PartnerAvoids(rows, w, i, l + 1, k);
      }
    }
  }

  /** On apart rows, seen from any iteration up to `j`, a word of pair `j` has its mirror word in pair `j` as partner. */
  lemma {:induction false} PartnerOfPair(rows: seq<RowPair>, w: nat, i: nat, j: int, k: int)
    requires Apart(rows, w) && i <= j < |rows|
    ensures InSpan(rows[j].top, w, k) ==> Partner(rows, w, i, k) == rows[j].bot + (k - rows[j].top)
    ensures InSpan(rows[j].bot, w, k) ==> Partner(rows, w, i, k) == rows[j].top + (k - rows[j].bot)
    decreases j - i
  {
    assert Disjoint(rows[j].top, rows[j].bot, w);
    if i < j && (InSpan(rows[j].top, w, k) || InSpan(rows[j].bot, w, k)) {
      ApartPairs(rows, w, j, i, k);
      PartnerOfPair(rows, w, i + 1, j, k);
    }
  }

  /** One outer iteration on apart rows: pair `i` fetches, for the partner the later pairs chose, the word at the partner seen from `i`. */
  lemma PartnerStep(b: seq<Word>, rows: seq<RowPair>, w: nat, i: nat, k: int)
    requires RowsInRange(rows, w, |b|) && Apart(rows, w) && i < |rows| && 0 <= k < |b|
    requires 0 <= Partner(rows, w, i + 1, k) < |b|
    ensures 0 <= Partner(rows, w, i, k) < |b|
    ensures SwapRow(b, rows[i].top, rows[i].bot, w)[Partner(rows, w, i + 1, k)] == b[Partner(rows, w, i, k)]
  {
    var top, bot := rows[i].top, rows[i].bot;
    SwapRowFrame(b, top, bot, w);
    if InSpan(top, w, k) || InSpan(bot, w, k) {
      assert Disjoint(top, bot, w);
      SwapRowExchanges(b, top, bot, w);
      forall j | i + 1 <= j < |rows|
        ensures !InSpan(rows[j].top, w, k) && !InSpan(rows[j].bot, w, k)
      {
        ApartPairs(rows, w, i, j, k);
      }
      PartnerUntouched(rows, w, i + 1, k);
    } else {
      PartnerAvoids(rows, w, i, i + 1, k);
    }
  }

  /** On apart rows, the outer loop from iteration `i` on leaves at every `k` the old word at its partner. */
  lemma {:induction false} SwapPairsToPartners(b: seq<Word>, rows: seq<RowPair>, w: nat, i: nat)
    requires RowsInRange(rows, w, |b|) && Apart(rows, w) && i <= |rows|
    ensures forall k :: 0 <= k < |b| ==>
      0 <= Partner(rows, w, i, k) < |b| && SwapPairsFrom(b, rows, w, i)[k] == b[Partner(rows, w, i, k)]
    decreases |rows| - i
  {
    if i < |rows| {
      var p := SwapRow(b, rows[i].top, rows[i].bot, w);
      SwapPairsToPartners(p, rows, w, i + 1);
      forall k | 0 <= k < |b|
        ensures 0 <= Partner(rows, w, i, k) < |b| && SwapPairsFrom(b, rows, w, i)[k] == b[Partner(rows, w, i, k)]
      {
        PartnerStep(b, rows, w, i, k);
      }
    }
  }

  /** The two rows of pair `j` hold each other's old words. */
  ghost predicate PairExchanged(b: seq<Word>, s: seq<Word>, rows: seq<RowPair>, w: nat, j: int)
    requires |s| == |b| && RowsInRange(rows, w, |b|) && 0 <= j < |rows|
  {
    (forall k {:trigger InSpan(rows[j].top, w, k)} ::
       InSpan(rows[j].top, w, k) ==> s[k] == b[rows[j].bot + (k - rows[j].top)]) &&
    (forall k {:trigger InSpan(rows[j].bot, w, k)} ::
       InSpan(rows[j].bot, w, k) ==> s[k] == b[rows[j].top + (k - rows[j].bot)])
  }

  /** Every scheduled pair is exchanged. */
  ghost predicate AllPairsExchanged(b: seq<Word>, s: seq<Word>, rows: seq<RowPair>, w: nat)
    requires |s| == |b| && RowsInRange(rows, w, |b|)
  {
    forall j :: 0 <= j < |rows| ==> PairExchanged(b, s, rows, w, j)
  }

  /** On apart rows, a buffer holding at every word the old word at its partner has every pair exchanged. */
  lemma PartnersExchangePair(b: seq<Word>, s: seq<Word>, rows: seq<RowPair>, w: nat, j: int)
    requires |s| == |b| && RowsInRange(rows, w, |b|) && Apart(rows, w) && 0 <= j < |rows|
    requires forall k :: 0 <= k < |b| ==> 0 <= Partner(rows, w, 0, k) < |b| && s[k] == b[Partner(rows, w, 0, k)]
    ensures PairExchanged(b, s, rows, w, j)
  {
    forall k | InSpan(rows[j].top, w, k)
      ensures s[k] == b[rows[j].bot + (k - rows[j].top)]
    {
      PartnerOfPair(rows, w, 0, j, k);
    }
    forall k | InSpan(rows[j].bot, w, k)
      ensures s[k] == b[rows[j].top + (k - rows[j].bot)]
    {
      PartnerOfPair(rows, w, 0, j, k);
    }
  }

  /** On apart rows, the whole outer loop exchanges every scheduled pair. */
  lemma SwapPairsExchange(b: seq<Word>, rows: seq<RowPair>, w: nat)
    requires RowsInRange(rows, w, |b|) && Apart(rows, w)
    ensures AllPairsExchanged(b, SwapPairsFrom(b, rows, w, 0), rows, w)
  {
    var s := SwapPairsFrom(b, rows, w, 0);
    SwapPairsToPartners(b, rows, w, 0);
    forall j | 0 <= j < |rows|
      ensures PairExchanged(b, s, rows, w, j)
    {
      PartnersExchangePair(b, s, rows, w, j);
    }
  }

  /** Two exchanges of the same pair put its words back. */
  lemma ExchangedTwice(b: seq<Word>, p: seq<Word>, s: seq<Word>, rows: seq<RowPair>, w: nat, j: int)
    requires |b| == |p| == |s| && RowsInRange(rows, w, |b|) && 0 <= j < |rows|
    requires PairExchanged(b, p, rows, w, j) && PairExchanged(p, s, rows, w, j)
    ensures forall k :: InSpan(rows[j].top, w, k) || InSpan(rows[j].bot, w, k) ==> s[k] == b[k]
  {
    assert forall k :: InSpan(rows[j].top, w, k) ==> InSpan(rows[j].bot, w, rows[j].bot + (k - rows[j].top));
    assert forall k :: InSpan(rows[j].bot, w, k) ==> InSpan(rows[j].top, w, rows[j].top + (k - rows[j].bot));
  }

  /** On apart rows, running the whole outer loop twice restores the buffer. */
  lemma SwapPairsInvolution(b: seq<Word>, rows: seq<RowPair>, w: nat)
    requires RowsInRange(rows, w, |b|) && Apart(rows, w)
    ensures SwapPairsFrom(SwapPairsFrom(b, rows, w, 0), rows, w, 0) == b
  {
    var s := SwapPairsFrom(b, rows, w, 0);
    var t := SwapPairsFrom(s, rows, w, 0);
    SwapPairsExchange(b, rows, w);
    SwapPairsExchange(s, rows, w);
    SwapPairsFrame(b, rows, w, 0);
    SwapPairsFrame(s, rows, w, 0);
    forall k | 0 <= k < |b|
      ensures t[k] == b[k]
    {
      if !Untouched(rows, w, 0, k) {
        var j :| 0 <= j < |rows| && (InSpan(rows[j].top, w, k) || InSpan(rows[j].bot, w, k));
        assert PairExchanged(b, s, rows, w, j) && PairExchanged(s, t, rows, w, j);
        ExchangedTwice(b, s, t, rows, w, j);
      }
    }
  }
}
