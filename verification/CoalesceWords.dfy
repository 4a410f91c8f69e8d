/** Boundary tags: what coalesce reads around a block and what its tag writes mean. */
module CoalesceWords {
  import opened Words
  import opened Tiles
  import opened Bins
  import opened Heaps
  import opened HeapWords

  /** Two blocks that end at the same place are the same block. */
  lemma PrevUnique(t: Tiling, lo: int, hi: int, q: int, r: int)
    requires Tiled(t, lo, hi) && q in t && r in t && Next(t, q) == Next(t, r)
    ensures q == r
  {
  }

  /** The footer before p leads to the block before p, and its allocated bit says whether that
      block is free; before the first block stands the prologue. */
  lemma PrevWords(m: Image, h: Heap, x: int, p: int)
    requires Ok(h, x) && Rep(m, h) && p in h.tiles
    ensures
      var q := p - SizeField(At(m, p - 8));
      var f := q + SizeField(At(m, q - 4)) - 8;
      && IsCell(h, p - 8) && IsCell(h, q - 4) && IsCell(h, f)
      && (AllocField(At(m, f)) == 0 <==> PrevFree(h.tiles, p))
      && (PrevFree(h.tiles, p) ==> q == PrevOf(h.tiles, p))
  {
    var t := h.tiles;
    BlockCells(h, p);
    if p == h.Lo() {
      PrologueWords(m, h);
    } else {
      PredecessorExists(t, h.Lo(), h.brk, h.Lo(), p);
      var r :| r in t && Next(t, r) == p;
      BlockCells(h, r);
      TagSizes(m, t, r);
      if PrevFree(t, p) {
        PrevUnique(t, h.Lo(), h.brk, r, PrevOf(t, p));
      }
    }
  }

  lemma PrologueWords(m: Image, h: Heap)
    requires Tiled(h.tiles, h.Lo(), h.brk) && FencesOk(m, h) && h.base % 8 == 0
    ensures SizeField(At(m, h.base + 48)) == 8 && SizeField(At(m, h.base + 44)) == 8
    ensures AllocField(At(m, h.base + 48)) == 1
    ensures IsCell(h, h.base + 44) && IsCell(h, h.base + 48)
    ensures !PrevFree(h.tiles, h.Lo())
  {
    PrologueCells(h);
  }

  lemma PrologueCells(h: Heap)
    requires h.base % 8 == 0 && h.Lo() <= h.brk
    ensures IsCell(h, h.base + 44) && IsCell(h, h.base + 48)
  {
    WordsAway(h.base, 11);
    WordsAway(h.base, 12);
  }

  /** The header behind p's block says whether the block there is free; behind the last block
      stands the epilogue. */
  lemma NextWords(m: Image, h: Heap, x: int, p: int)
    requires Ok(h, x) && Rep(m, h) && p in h.tiles
    ensures
      var n := p + SizeField(At(m, p - 4));
      && n == Next(h.tiles, p)
      && IsCell(h, p - 4) && IsCell(h, n - 4)
      && (AllocField(At(m, n - 4)) == 0 <==> NextFree(h.tiles, p))
      && (NextFree(h.tiles, p) ==> SizeField(At(m, n - 4)) == h.tiles[n].size)
  {
    var t := h.tiles;
    BlockCells(h, p);
    TagSizes(m, t, p);
    var n := Next(t, p);
    if n in t {
      BlockCells(h, n);
      TagSizes(m, t, n);
    } else {
      EpilogueCell(h);
    }
  }

  lemma EpilogueCell(h: Heap)
    requires h.brk % 8 == 0 && h.Lo() <= h.brk
    ensures IsCell(h, h.brk - 4)
  {
    WordsAway(h.brk, -1);
  }

  /** The two tags written around a block s..e. */
  function Tagged(m: Image, s: int, e: int, alloc: bool): Image
    requires 0 <= e - s < TWO_32 && BlockSized(e - s)
  {
    assert Unfold(0);
    m[s - 4 := Pack(e - s, alloc)][e - 8 := Pack(e - s, alloc)]
  }

  /** Tags are not link words. */
  lemma TagsSpareChain(m: Image, m': Image, t: Tiling, lo: int, hi: int, root: int, b: seq<int>, s: int, e: int)
    requires Tiled(t, lo, hi) && s in t && Next(t, s) == e
    requires ChainOk(m, root, b) && root < lo - 4
    requires forall i :: 0 <= i < |b| ==> b[i] in t && b[i] != s
    requires forall x {:trigger At(m', x)} :: x != s - 4 && x != e - 8 ==> At(m', x) == At(m, x)
    ensures ChainOk(m', root, b)
  {
    forall i | 0 <= i < |b|
      ensures LinkOk(m', b, i)
    {
      assert LinkOk(m, b, i);
      assert b[i] in t;
    }
  }

  /** Writing the tags of a new block s..e that replaces the blocks inside it. */
  lemma TagsReplace(m: Image, m': Image, t: Tiling, t': Tiling, lo: int, hi: int, s: int, e: int, alloc: bool)
    requires Tiled(t, lo, hi) && Tiled(t', lo, hi) && TagsOk(m, t)
    requires s in t' && Next(t', s) == e && t'[s].alloc == alloc && e - s < TWO_32
    requires forall a :: a in t' && a != s ==> a in t && t'[a] == t[a]
    requires forall x {:trigger At(m', x)} :: x != s - 4 && x != e - 8 ==> At(m', x) == At(m, x)
    requires At(m', s - 4) == Pack(e - s, alloc) && At(m', e - 8) == Pack(e - s, alloc)
    ensures TagsOk(m', t')
  {
    forall a | a in t'
      ensures TagOk(m', a, t'[a])
    {
      if a != s {
        assert TagOk(m, a, t[a]);
      }
    }
  }

  /** The heap after the neighbours of p are merged with it, p not yet listed. */
  ghost function MergedHeap(h: Heap, p: int): Heap {
    h.(tiles := MergedTiles(h.tiles, p), bins := UnlistNeighbours(h.tiles, h.bins, p))
  }

  lemma MergedHeapOk(h: Heap, p: int)
    requires Ok(h, p) && IsFree(h.tiles, p)
    ensures
      var h2 := MergedHeap(h, p);
      var s := MergedAt(h.tiles, p);
      && Tiled(h2.tiles, h2.Lo(), h2.brk) && IsFree(h2.tiles, s) && BinsOk(h2.tiles, h2.bins, {0, s})
      && Coalesce(h, p) == h2.(bins := Enlist(h2.tiles, h2.bins, s))
  {
    MergedTiled(h.tiles, h.Lo(), h.brk, p);
    NeighboursUnlisted(h.tiles, h.Lo(), h.brk, h.bins, p);
    MergedBins(h.tiles, h.Lo(), h.brk, UnlistNeighbours(h.tiles, h.bins, p), p);
  }

  /** Where the block merged around p ends. */
  ghost function MergedEnd(t: Tiling, p: int): int
    requires p in t
  {
    if NextFree(t, p) then Next(t, Next(t, p)) else Next(t, p)
  }

  lemma MergedSpan(h: Heap, p: int)
    requires Ok(h, p) && IsFree(h.tiles, p) && h.brk <= TWO_32
    ensures
      var s := MergedAt(h.tiles, p);
      var e := MergedEnd(h.tiles, p);
      0 < e - s < TWO_32 && BlockSized(e - s)
  {
    MergedTiled(h.tiles, h.Lo(), h.brk, p);
  }

  lemma MergedTags(m: Image, h: Heap, p: int)
    requires Ok(h, p) && IsFree(h.tiles, p) && h.brk <= TWO_32
    requires Rep(m, h.(bins := UnlistNeighbours(h.tiles, h.bins, p)))
    requires 0 < MergedEnd(h.tiles, p) - MergedAt(h.tiles, p) < TWO_32
    requires BlockSized(MergedEnd(h.tiles, p) - MergedAt(h.tiles, p))
    ensures
      var m' := Tagged(m, MergedAt(h.tiles, p), MergedEnd(h.tiles, p), false);
      TagsOk(m', MergedHeap(h, p).tiles) && FencesOk(m', MergedHeap(h, p))
  {
    var t, s, e := h.tiles, MergedAt(h.tiles, p), MergedEnd(h.tiles, p);
    MergedShape(t, h.Lo(), h.brk, p);
    TagsReplace(m, Tagged(m, s, e, false), t, MergedTiles(t, p), h.Lo(), h.brk, s, e, false);
  }

  /** Tags of a block outside the bins are not link words of a bin. */
  lemma TagsSpareBin(m: Image, m': Image, t: Tiling, lo: int, hi: int, bins: Bins, k: nat, root: int, s: int, e: int)
    requires Tiled(t, lo, hi) && s in t && Next(t, s) == e && k < NBINS && BinsOk(t, bins, {0, s})
    requires ChainOk(m, root, bins[k]) && root < lo - 4
    requires forall x {:trigger At(m', x)} :: x != s - 4 && x != e - 8 ==> At(m', x) == At(m, x)
    ensures ChainOk(m', root, bins[k])
  {
    assert BinOk(t, bins[k], k, {0, s});
    TagsSpareChain(m, m', t, lo, hi, root, bins[k], s, e);
  }

  /** With the neighbours unlisted, writing the merged block's tags lays out the merged heap. */
  lemma MergedRep(m: Image, h: Heap, p: int)
    requires Ok(h, p) && IsFree(h.tiles, p) && h.brk <= TWO_32
    requires Rep(m, h.(bins := UnlistNeighbours(h.tiles, h.bins, p)))
    ensures
      var s := MergedAt(h.tiles, p);
      var e := MergedEnd(h.tiles, p);
      0 < e - s < TWO_32 && BlockSized(e - s) && Rep(Tagged(m, s, e, false), MergedHeap(h, p))
  {
    var s := MergedAt(h.tiles, p);
    var e := MergedEnd(h.tiles, p);
    var h2 := MergedHeap(h, p);
    MergedSpan(h, p);
    MergedTags(m, h, p);
    MergedHeapOk(h, p);
    MergedTiled(h.tiles, h.Lo(), h.brk, p);
    var m' := Tagged(m, s, e, false);
    forall k | 0 <= k < NBINS
      ensures ChainOk(m', Root(h.base, k), h2.bins[k])
    {
      assert ChainOk(m, Root(h.base, k), h2.bins[k]);
      TagsSpareBin(m, m', h2.tiles, h.Lo(), h.brk, h2.bins, k, Root(h.base, k), s, e);
    }
  }

  /** What coalesce may change: link words of blocks that were free, the roots, and the two tags
      of the merged block. */
  ghost predicate CoalesceFrame(m: Image, m': Image, h: Heap, p: int)
    requires p in h.tiles
  {
    forall x {:trigger At(m', x)} ::
      && h.base + 40 <= x
      && !IsFree(h.tiles, x) && !IsFree(h.tiles, x - 4)
      && x != MergedAt(h.tiles, p) - 4 && x != MergedEnd(h.tiles, p) - 8
      ==> At(m', x) == At(m, x)
  }

  /** Unlisting the neighbours and tagging the merged block is all that coalesce does before
      it lists the block. */
  lemma MergedDone(m: Image, m1: Image, h: Heap, p: int)
    requires Ok(h, p) && IsFree(h.tiles, p) && h.brk <= TWO_32
    requires Rep(m1, h.(bins := UnlistNeighbours(h.tiles, h.bins, p))) && FreeFrame(m, m1, h.base, h.tiles)
    ensures
      var s := MergedAt(h.tiles, p);
      var e := MergedEnd(h.tiles, p);
      && 0 < e - s < TWO_32 && BlockSized(e - s)
      && Rep(Tagged(m1, s, e, false), MergedHeap(h, p))
      && CoalesceFrame(m, Tagged(m1, s, e, false), h, p)
  {
    MergedRep(m1, h, p);
    var m' := Tagged(m1, MergedAt(h.tiles, p), MergedEnd(h.tiles, p), false);
    assert forall x {:trigger At(m', x)} ::
        x != MergedAt(h.tiles, p) - 4 && x != MergedEnd(h.tiles, p) - 8 ==> At(m', x) == At(m1, x);
  }

  /** The words coalesce reads and writes when the next block is free. */
  lemma NextFreeFacts(m: Image, h: Heap, p: int)
    requires Ok(h, p) && IsFree(h.tiles, p) && Rep(m, h) && NextFree(h.tiles, p)
    ensures
      var n := Next(h.tiles, p);
      && n == p + SizeField(At(m, p - 4))
      && IsCell(h, p - 4) && IsCell(h, n - 4) && IsCell(h, MergedEnd(h.tiles, p) - 8)
      && MergedEnd(h.tiles, p) == n + SizeField(At(m, n - 4))
      && SizeField(At(m, MergedEnd(h.tiles, p) - 8)) == SizeField(At(m, n - 4)) == h.tiles[n].size >= 16
      && SizeField(At(m, p - 4)) == h.tiles[p].size >= 16
  {
    BlockCells(h, p);
    BlockCells(h, Next(h.tiles, p));
    TagSizes(m, h.tiles, p);
    TagSizes(m, h.tiles, Next(h.tiles, p));
  }

  /** And when the previous block is free. */
  lemma PrevFreeFacts(m: Image, h: Heap, p: int)
    requires Ok(h, p) && IsFree(h.tiles, p) && Rep(m, h) && PrevFree(h.tiles, p)
    ensures
      var q := PrevOf(h.tiles, p);
      && q == p - SizeField(At(m, p - 8))
      && IsCell(h, p - 8) && IsCell(h, p - 4) && IsCell(h, q - 4) && IsCell(h, p + h.tiles[p].size - 8)
      && SizeField(At(m, q - 4)) == h.tiles[q].size == p - q >= 16
      && SizeField(At(m, p - 4)) == h.tiles[p].size >= 16
  {
    BlockCells(h, p);
    BlockCells(h, PrevOf(h.tiles, p));
    TagSizes(m, h.tiles, p);
    TagSizes(m, h.tiles, PrevOf(h.tiles, p));
  }
}
