/** Space: what the blocks add up to, and what is left once none is in use. */
module Accounting {
  import opened Tiles
  import opened Bins
  import opened Heaps
  import opened HeapTheorems
  import opened Sums

  /** The sizes of the blocks below c. */
  ghost function SizesBelow(t: Tiling, c: int): map<int, int> {
    map a | a in t && a < c :: t[a].size
  }

  ghost function Sizes(t: Tiling): map<int, int> {
    map a | a in t :: t[a].size
  }

  lemma BelowNext(t: Tiling, lo: int, hi: int, q: int)
    requires Tiled(t, lo, hi) && q in t
    ensures SizesBelow(t, Next(t, q)) == SizesBelow(t, q)[q := t[q].size]
  {
  }

  lemma {:induction false} SumBelow(t: Tiling, lo: int, hi: int, c: int)
    requires Tiled(t, lo, hi)
    requires c in t || c == hi
    ensures Sum(SizesBelow(t, c)) == c - lo
    decreases c - lo
  {
    if c == lo {
      assert SizesBelow(t, c) == map[];
    } else {
      PredecessorExists(t, lo, hi, lo, c);
      var q :| q in t && Next(t, q) == c;
      SumBelow(t, lo, hi, q);
      BelowNext(t, lo, hi, q);
      SumAdd(SizesBelow(t, q), q, t[q].size);
    }
  }

  /** The 14 reserved words and all the blocks account for every byte below the break. */
  lemma BlocksFillHeap(h: Heap)
    requires Ok(h, 0)
    ensures 56 + Sum(Sizes(h.tiles)) == h.brk - h.base
  {
    SumBelow(h.tiles, h.Lo(), h.brk, h.brk);
    assert SizesBelow(h.tiles, h.brk) == Sizes(h.tiles);
  }

  /** Payloads that fit the blocks in use never add up to more than the heap. */
  lemma PayloadFitsHeap(h: Heap, payload: map<int, int>)
    requires Ok(h, 0)
    requires forall a :: a in payload ==> IsLive(h.tiles, a) && payload[a] <= h.tiles[a].size
    ensures Sum(payload) <= h.brk - h.base
  {
    SumMono(payload, Sizes(h.tiles));
    BlocksFillHeap(h);
  }

  // ---- nothing in use ----

  /** One free block from the prologue to the epilogue, in the bin of its size. */
  ghost predicate AllFree(h: Heap) {
    && h.tiles == map[h.Lo() := Block(h.brk - h.Lo(), false)]
    && h.bins == seq(NBINS, k => if k == BinOf(h.brk - h.Lo()) then [h.Lo()] else [])
  }

  lemma TwoDistinct(b: seq<int>)
    requires NoDup(b) && |b| >= 2
    ensures exists c, d :: c in b && d in b && c != d
  {
    assert b[0] in b && b[1] in b;
  }

  lemma OneBlockBins(t: Tiling, bins: Bins, a: int, k: nat)
    requires BinsOk(t, bins, {0}) && a != 0 && k < NBINS
    requires a in t && t == map[a := Block(t[a].size, false)]
    ensures bins[k] == if k == BinOf(t[a].size) then [a] else []
  {
    var b := bins[k];
    BinHolds(t, bins, {0}, k, a);
    assert BinOk(t, b, k, {0});
    if |b| >= 2 {
      TwoDistinct(b);
    }
    assert |b| == 1 ==> b[0] in b;
  }

  /** A valid, non-empty heap with no block in use is a single free block. */
  lemma NoneLive(h: Heap)
    requires Ok(h, 0) && h.Lo() < h.brk
    requires Live(h.tiles) == map[]
    ensures AllFree(h)
  {
    var t, lo := h.tiles, h.Lo();
    assert forall a :: a in t ==> a in Live(t) || IsFree(t, a);
    assert Next(t, lo) == h.brk;
    assert forall a :: a in t ==> a == lo;
    assert t == map[lo := Block(h.brk - lo, false)];
    forall k | 0 <= k < NBINS
      ensures h.bins[k] == if k == BinOf(t[lo].size) then [lo] else []
    {
      OneBlockBins(t, h.bins, lo, k);
    }
  }
}
