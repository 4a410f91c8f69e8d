/** mm.c, word by word, proved against the abstract heap. */
module Allocators {
  import opened Words
  import opened Tiles
  import opened Bins
  import opened Heaps
  import opened Mallocs
  import opened HeapTheorems
  import opened HeapWords
  import opened CoalesceWords
  import opened Folds
  import opened Steps
  import opened Memory
  import opened RangeLists

  class Allocator {
    const mem: Mem
    var heapListp: int
    var blockListStart: int
    var ranges: RangeList?
    ghost var heap: Heap

    constructor (mem: Mem)
      ensures this.mem == mem && ranges == null
    {
      this.mem := mem;
      heapListp := 0;
      blockListStart := 0;
      ranges := null;
      heap := Empty(0);
    }

    /** The globals and the break agree with the heap h. */
    ghost predicate Anchored(h: Heap)
      reads this, mem, mem.words
    {
      && mem.Valid()
      && mem.start <= h.base
      && h.Lo() <= h.brk == mem.brk
      && blockListStart == h.base
      && heapListp == h.base + 48
    }

    /** GET_SIZE */
    method GetSize(p: int) returns (s: Word)
      requires mem.Valid() && mem.InHeap(p)
      ensures s == SizeField(At(mem.image, p))
    {
      var w := mem.Get(p);
      s := SizeField(w);
    }

    /** GET_ALLOC */
    method GetAlloc(p: int) returns (a: Word)
      requires mem.Valid() && mem.InHeap(p)
      ensures a == AllocField(At(mem.image, p))
    {
      var w := mem.Get(p);
      a := AllocField(w);
    }

    /** NEXT_BLKP */
    method NextBlkp(bp: int) returns (n: int)
      requires mem.Valid() && mem.InHeap(bp - 4)
      ensures n == bp + SizeField(At(mem.image, bp - 4))
    {
      var s := GetSize(bp - 4);
      n := bp + s;
    }

    /** PREV_BLKP */
    method PrevBlkp(bp: int) returns (q: int)
      requires mem.Valid() && mem.InHeap(bp - 8)
      ensures q == bp - SizeField(At(mem.image, bp - 8))
    {
      var s := GetSize(bp - 8);
      q := bp - s;
    }

    /** FTRP */
    method Ftrp(bp: int) returns (f: int)
      requires mem.Valid() && mem.InHeap(bp - 4)
      ensures f == bp + SizeField(At(mem.image, bp - 4)) - 8
    {
      var s := GetSize(bp - 4);
      f := bp + s - 8;
    }

    /** get_freeCategory_root */
    method GetFreeCategoryRoot(size: int) returns (root: int)
      ensures root == Root(blockListStart, BinOf(size))
    {
      var i;
      if size <= 8 { i := 0; }
      else if size <= 16 { i := 0; }
      else if size <= 32 { i := 0; }
      else if size <= 64 { i := 1; }
      else if size <= 128 { i := 2; }
      else if size <= 256 { i := 3; }
      else if size <= 512 { i := 4; }
      else if size <= 2048 { i := 5; }
      else if size <= 4096 { i := 6; }
      else if size <= 8192 { i := 7; }
      else if size <= 16384 { i := 8; }
      else { i := 9; }
      root := blockListStart + i * 4;
    }

    /** remove_free_block: the words it writes. */
    method Unlink(p: int)
      requires mem.Valid() && mem.InHeap(p - 4) && mem.InHeap(p) && mem.InHeap(p + 4)
      requires mem.InHeap(Root(blockListStart, BinOf(SizeField(At(mem.image, p - 4)))))
      requires At(mem.image, p) != 0 ==> mem.InHeap(At(mem.image, p) + 4)
      requires At(mem.image, p + 4) != 0 ==> mem.InHeap(At(mem.image, p + 4))
      modifies mem`image, mem.words
      ensures mem.Valid()
      ensures
        var root := Root(blockListStart, BinOf(SizeField(At(old(mem.image), p - 4))));
        mem.image == Unlinked(old(mem.image), root, p)
    {
      var size := GetSize(p - 4);
      var root := GetFreeCategoryRoot(size);
      var prevp := mem.Get(p);
      var nextp := mem.Get(p + 4);
      if prevp == 0 {
        if nextp != 0 {
          mem.Put(nextp, 0);
        }
        mem.Put(root, nextp);
      } else {
        if nextp != 0 {
          mem.Put(nextp, prevp);
        }
        mem.Put(prevp + 4, nextp);
      }
      mem.Put(p + 4, 0);
      mem.Put(p, 0);
    }

    /** remove_free_block */
    method RemoveFreeBlock(p: int, ghost h: Heap, ghost x: set<int>) returns (ghost h': Heap)
      requires Anchored(h) && Laid(mem.image, h, x) && IsFree(h.tiles, p) && p !in x
      modifies mem`image, mem.words
      ensures mem.Valid()
      ensures h'.tiles == h.tiles && h'.base == h.base && h'.brk == h.brk
      ensures Laid(mem.image, h', x + {p}) && Removed(old(mem.image), mem.image, h, h', p)
    {
      ghost var m := mem.image;
      ghost var k, i := RemoveFacts(m, h, x, p);
      Unlink(p);
      h' := RemoveDone(m, h, x, k, i, p);
    }

    /** The writes of insert_free_block, between prevp (the root itself if p comes first) and
        nextp (0 if p comes last). */
    method LinkIn(p: Word, root: Word, prevp: Word, nextp: Word)
      requires mem.Valid() && mem.InHeap(root) && mem.InHeap(p) && mem.InHeap(p + 4)
      requires mem.InHeap(prevp + 4)
      requires nextp != 0 ==> mem.InHeap(nextp)
      modifies mem`image, mem.words
      ensures mem.Valid()
      ensures mem.image == Inserted(old(mem.image), root, p, if prevp == root then 0 else prevp, nextp)
    {
      if prevp == root {
        mem.Put(root, p);
        mem.Put(p + 4, nextp);
        mem.Put(p, 0);
        if nextp != 0 {
          mem.Put(nextp, p);
        }
      } else {
        mem.Put(prevp + 4, p);
        mem.Put(p, prevp);
        mem.Put(p + 4, nextp);
        if nextp != 0 {
          mem.Put(nextp, p);
        }
      }
    }

    /** GET_SIZE(HDRP(p)) */
    method BlockSize(p: Word, ghost h: Heap, ghost x: set<int>) returns (size: int)
      requires Anchored(h) && Laid(mem.image, h, x) && p in h.tiles
      ensures size == h.tiles[p].size
    {
      BlockFacts(mem.image, h, x, p);
      size := GetSize(p - 4);
    }

    /** The search of insert_free_block: the link behind which p belongs (the root itself if p
        comes first) and the block before which it belongs (0 if p comes last). */
    method FindPlace(p: Word, ghost h: Heap, ghost x: set<int>) returns (root: int, prevp: int, nextp: Word)
      requires Anchored(h) && Laid(mem.image, h, x) && IsFree(h.tiles, p)
      ensures IsCell(h, root) && IsCell(h, prevp + 4) && root <= prevp
      ensures nextp != 0 ==> IsCell(h, nextp)
      ensures PlaceFound(h, p, root, prevp, nextp)
    {
      ghost var k := BinOf(h.tiles[p].size);
      ghost var b := h.bins[k];
      var size := BlockSize(p, h, x);
      root := GetFreeCategoryRoot(size);
      RootFacts(mem.image, h, x, k);
      prevp := root;
      nextp := mem.Get(root);
      ghost var i: nat := 0;
      PassedNone(h, k, size, root);
      while nextp != 0
        invariant i <= |b| && nextp == Nth(b, i)
        invariant IsCell(h, prevp + 4) && root <= prevp
        invariant Passed(h, k, i, size, root, prevp)
        decreases |b| - i
      {
        ListedFacts(mem.image, h, x, k, i);
        var nextSize := GetSize(nextp - 4);
        if nextSize >= size {
          break;
        }
        PassedNext(h, k, i, size, root, prevp);
        prevp := nextp;
        nextp := mem.Get(nextp + 4);
        i := i + 1;
      }
      if i < |b| {
        ListedFacts(mem.image, h, x, k, i);
      }
      PlaceAt(h, p, i, root, prevp, nextp);
    }

    /** insert_free_block */
    method InsertFreeBlock(p: Word, ghost h: Heap, ghost x: set<int>) returns (ghost h': Heap)
      requires Anchored(h) && Laid(mem.image, h, x) && IsFree(h.tiles, p) && p in x
      modifies mem`image, mem.words
      ensures mem.Valid()
      ensures h'.tiles == h.tiles && h'.base == h.base && h'.brk == h.brk
      ensures Laid(mem.image, h', x - {p}) && Listed(old(mem.image), mem.image, h, h', p)
    {
      ghost var m := mem.image;
      BlockFacts(m, h, x, p);
      var root, prevp, nextp := FindPlace(p, h, x);
      LinkIn(p, root, prevp, nextp);
      h' := InsertDone(m, h, x, p, root, prevp, nextp);
    }

    /** The tag writes of case 2 of coalesce: the footer is found through the new header. */
    method TagForward(bp: int, size: int)
      requires mem.Valid() && mem.InHeap(bp - 4) && mem.InHeap(bp + size - 8)
      requires 16 <= size < TWO_32 && BlockSized(size)
      modifies mem`image, mem.words
      ensures mem.Valid() && mem.image == Tagged(old(mem.image), bp, bp + size, false)
    {
      assert Unfold(0);
      mem.Put(bp - 4, Pack(size, false));
      var ftr := Ftrp(bp);
      mem.Put(ftr, Pack(size, false));
    }

    /** The tag writes of cases 3 and 4: the header is found through the stale footer of the
        previous block, which the merged block now encloses. */
    method TagBackward(bp: int, ftr: int, size: int) returns (r: int)
      requires mem.Valid() && mem.InHeap(bp - 8) && mem.InHeap(ftr)
      requires 16 <= size < TWO_32 && BlockSized(size)
      requires
        var q := bp - SizeField(At(mem.image, bp - 8));
        q + 16 <= bp <= ftr && mem.InHeap(q - 4) && q + size == ftr + 8
      modifies mem`image, mem.words
      ensures r == bp - SizeField(At(old(mem.image), bp - 8))
      ensures mem.Valid() && mem.image == Tagged(old(mem.image), r, r + size, false)
    {
      assert Unfold(0);
      mem.Put(ftr, Pack(size, false));
      var prevp := PrevBlkp(bp);
      mem.Put(prevp - 4, Pack(size, false));
      r := PrevBlkp(bp);
    }

    /** Case 2 of coalesce: only the next block is free. */
    method MergeNext(bp: int, ghost h: Heap, ghost n: int, ghost total: int) returns (r: int, ghost h': Heap)
      requires Anchored(h) && Laid(mem.image, h, {bp}) && FreeNext(mem.image, h, bp, n, total)
      requires IsFree(h.tiles, n) && bp < n && n == bp + SizeField(At(mem.image, bp - 4))
      requires 32 <= total < TWO_32 && BlockSized(total)
      requires IsCell(h, bp - 4) && IsCell(h, n - 4) && IsCell(h, bp + total - 8)
      requires total == SizeField(At(mem.image, bp - 4)) + SizeField(At(mem.image, n - 4))
      modifies mem`image, mem.words
      ensures mem.Valid() && IsFree(h'.tiles, r) && h'.base == h.base && h'.brk == h.brk
      ensures Laid(mem.image, h', {0, r}) && Merged(old(mem.image), mem.image, h, h', bp, r)
    {
      ghost var m := mem.image;
      var nextp := NextBlkp(bp);
      var size := NextSizes(bp, nextp);
      ghost var h1 := RemoveFreeBlock(nextp, h, {bp});
      ghost var m1 := mem.image;
      TagForward(bp, size);
      r := bp;
      h' := MergeNextDone(m, m1, mem.image, h, h1, bp, nextp, size);
    }

    /** The size of the two blocks of case 2 together. */
    method NextSizes(bp: int, nextp: int) returns (size: int)
      requires mem.Valid() && mem.InHeap(bp - 4) && mem.InHeap(nextp - 4)
      ensures size == SizeField(At(mem.image, bp - 4)) + SizeField(At(mem.image, nextp - 4))
    {
      var bpSize: int := GetSize(bp - 4);
      var nextSize: int := GetSize(nextp - 4);
      size := bpSize + nextSize;
    }

    /** Case 3 of coalesce: only the previous block is free. */
    method MergePrev(bp: int, ghost h: Heap, ghost q: int, ghost total: int) returns (r: int, ghost h': Heap)
      requires Anchored(h) && TwoFree(mem.image, h, bp, q, total)
      modifies mem`image, mem.words
      ensures mem.Valid() && IsFree(h'.tiles, r) && h'.base == h.base && h'.brk == h.brk
      ensures Laid(mem.image, h', {0, r}) && Merged(old(mem.image), mem.image, h, h', bp, r)
    {
      ghost var m := mem.image;
      var prevp, size := PrevSizes(bp, h, q, total);
      ghost var h1 := UnlistPrev(bp, prevp, h, total);
      ghost var m1 := mem.image;
      r := TagTwo(bp, size, m, h, h1, q);
      h' := MergePrevDone(m, m1, mem.image, h, h1, bp, q, total);
    }

    /** The previous block and the size of the two blocks of case 3 together. */
    method PrevSizes(bp: int, ghost h: Heap, ghost q: int, ghost total: int) returns (prevp: int, size: int)
      requires Anchored(h) && TwoFree(mem.image, h, bp, q, total)
      ensures prevp == q && size == total
    {
      TwoFacts(mem.image, h, bp, q, total);
      var bpSize: int := GetSize(bp - 4);
      prevp := PrevBlkp(bp);
      var prevSize := GetSize(prevp - 4);
      size := bpSize + prevSize;
    }

    /** The removal of case 3. */
    method UnlistPrev(bp: int, prevp: int, ghost h: Heap, ghost total: int) returns (ghost h1: Heap)
      requires Anchored(h) && TwoFree(mem.image, h, bp, prevp, total)
      modifies mem`image, mem.words
      ensures mem.Valid() && h1.tiles == h.tiles
      ensures Laid(mem.image, h1, {bp} + {prevp}) && Removed(old(mem.image), mem.image, h, h1, prevp)
    {
      TwoFacts(mem.image, h, bp, prevp, total);
      h1 := RemoveFreeBlock(prevp, h, {bp});
    }

    /** The tag writes of case 3. */
    method TagTwo(bp: int, size: int, ghost m: Image, ghost h: Heap, ghost h1: Heap, ghost q: int) returns (r: int)
      requires Anchored(h) && TwoFree(m, h, bp, q, size)
      requires h1.tiles == h.tiles && Laid(mem.image, h1, {bp} + {q})
      modifies mem`image, mem.words
      ensures r == q && mem.Valid() && 16 <= size < TWO_32 && BlockSized(size)
      ensures mem.image == Tagged(old(mem.image), q, q + size, false)
    {
      TwoFacts(m, h, bp, q, size);
      PrevStill(mem.image, h1, {bp} + {q}, bp, q);
      var ftr := Ftrp(bp);
      r := TagBackward(bp, ftr, size);
    }

    /** Case 4 of coalesce: both neighbours are free. */
    method MergeBoth(bp: int, ghost h: Heap, ghost q: int, ghost n: int, ghost total: int)
      returns (r: int, ghost h': Heap)
      requires Anchored(h) && ThreeFree(mem.image, h, bp, q, n, total)
      modifies mem`image, mem.words
      ensures mem.Valid() && IsFree(h'.tiles, r) && h'.base == h.base && h'.brk == h.brk
      ensures Laid(mem.image, h', {0, r}) && Merged(old(mem.image), mem.image, h, h', bp, r)
    {
      ghost var m := mem.image;
      var prevp, size := BothSizes(bp, h, q, n, total);
      ghost var m0, h0, h1 := UnlistBoth(bp, prevp, h, n, total);
      ghost var m1 := mem.image;
      r := TagThree(bp, size, m, h, h1, q, n);
      h' := MergeBothDone(m, m0, m1, mem.image, h, h0, h1, bp, q, n, total);
    }

    /** The previous block and the size of the three blocks of case 4 together. */
    method BothSizes(bp: int, ghost h: Heap, ghost q: int, ghost n: int, ghost total: int)
      returns (prevp: int, size: int)
      requires Anchored(h) && ThreeFree(mem.image, h, bp, q, n, total)
      ensures prevp == q && size == total
    {
      ThreeFacts(mem.image, h, bp, q, n, total);
      var bpSize: int := GetSize(bp - 4);
      var nextFtr := NextFtr(bp);
      var nextSize: int := GetSize(nextFtr);
      prevp := PrevBlkp(bp);
      var prevSize := GetSize(prevp - 4);
      size := bpSize + nextSize + prevSize;
    }

    /** FTRP(NEXT_BLKP(bp)) */
    method NextFtr(bp: int) returns (f: int)
      requires mem.Valid() && mem.InHeap(bp - 4)
      requires mem.InHeap(bp + SizeField(At(mem.image, bp - 4)) - 4)
      ensures
        var n := bp + SizeField(At(mem.image, bp - 4));
        f == n + SizeField(At(mem.image, n - 4)) - 8
    {
      var nextp := NextBlkp(bp);
      f := Ftrp(nextp);
    }

    /** The tag writes of case 4. */
    method TagThree(bp: int, size: int, ghost m: Image, ghost h: Heap, ghost h1: Heap, ghost q: int, ghost n: int)
      returns (r: int)
      requires Anchored(h) && ThreeFree(m, h, bp, q, n, size)
      requires h1.tiles == h.tiles && Laid(mem.image, h1, {bp} + {q} + {n})
      modifies mem`image, mem.words
      ensures r == q && mem.Valid() && 16 <= size < TWO_32 && BlockSized(size)
      ensures mem.image == Tagged(old(mem.image), q, q + size, false)
    {
      ThreeFacts(m, h, bp, q, n, size);
      BothStill(mem.image, h1, {bp} + {q} + {n}, bp, q, n);
      var nextFtr := NextFtr(bp);
      r := TagBackward(bp, nextFtr, size);
    }

    /** The two removals of case 4: previous block first. */
    method UnlistBoth(bp: int, prevp: int, ghost h: Heap, ghost n: int, ghost total: int)
      returns (ghost m0: Image, ghost h0: Heap, ghost h1: Heap)
      requires Anchored(h) && ThreeFree(mem.image, h, bp, prevp, n, total)
      modifies mem`image, mem.words
      ensures mem.Valid() && h1.tiles == h.tiles
      ensures Laid(mem.image, h1, {bp} + {prevp} + {n})
      ensures Removed(old(mem.image), m0, h, h0, prevp) && Removed(m0, mem.image, h0, h1, n)
    {
      ThreeFacts(mem.image, h, bp, prevp, n, total);
      h0 := RemoveFreeBlock(prevp, h, {bp});
      m0 := mem.image;
      BlockFacts(m0, h0, {bp} + {prevp}, bp);
      var nextp := NextBlkp(bp);
      h1 := RemoveFreeBlock(nextp, h0, {bp} + {prevp});
    }

    /** The two allocated bits coalesce decides by. */
    method Neighbours(bp: int, ghost h: Heap) returns (prevAlloc: int, nextAlloc: int)
      requires Anchored(h) && Whole(mem.image, h, bp) && IsFree(h.tiles, bp)
      ensures prevAlloc == 0 <==> PrevFree(h.tiles, bp)
      ensures nextAlloc == 0 <==> NextFree(h.tiles, bp)
    {
      AroundFacts(mem.image, h, bp);
      var prevp := PrevBlkp(bp);
      var prevFtr := Ftrp(prevp);
      prevAlloc := GetAlloc(prevFtr);
      var nextp := NextBlkp(bp);
      nextAlloc := GetAlloc(nextp - 4);
    }

    /** coalesce up to the insertion: merge bp with its free neighbours. */
    method Merge(bp: int, ghost h: Heap) returns (r: int, ghost h': Heap)
      requires Anchored(h) && Whole(mem.image, h, bp) && IsFree(h.tiles, bp)
      modifies mem`image, mem.words
      ensures mem.Valid() && IsFree(h'.tiles, r) && h'.base == h.base && h'.brk == h.brk
      ensures Laid(mem.image, h', {0, r}) && Merged(old(mem.image), mem.image, h, h', bp, r)
    {
      var prevAlloc, nextAlloc := Neighbours(bp, h);
      if prevAlloc != 0 && nextAlloc != 0 {
        r := bp;
        h' := AloneDone(mem.image, h, bp);
      } else if prevAlloc != 0 && nextAlloc == 0 {
        ghost var n, total := NextFactsOf(mem.image, h, bp);
        WholeIsLaid(mem.image, h, bp);
        r, h' := MergeNext(bp, h, n, total);
      } else if prevAlloc == 0 && nextAlloc != 0 {
        ghost var q, total := PrevFactsOf(mem.image, h, bp);
        r, h' := MergePrev(bp, h, q, total);
      } else {
        ghost var q, n, total := BothFacts(mem.image, h, bp);
        r, h' := MergeBoth(bp, h, q, n, total);
      }
    }

    /** coalesce */
    method CoalesceBlock(bp: int, ghost h: Heap) returns (r: int, ghost h': Heap)
      requires Anchored(h) && Whole(mem.image, h, bp) && IsFree(h.tiles, bp)
      modifies mem`image, mem.words
      ensures mem.Valid() && h'.base == h.base && h'.brk == h.brk
      ensures Whole(mem.image, h', 0) && Coalesced(old(mem.image), mem.image, h, h', bp, r)
    {
      ghost var m := mem.image;
      ghost var h1: Heap;
      r, h1 := Merge(bp, h);
      ghost var m1 := mem.image;
      BlockFacts(m1, h1, {0, r}, r);
      h' := InsertFreeBlock(r, h1, {0, r});
      CoalesceDone(m, m1, mem.image, h, h1, h', bp, r);
    }

    // ---- place ----

    /** place */
    method PlaceBlock(bp: int, asize: int, ghost h: Heap) returns (ghost h': Heap)
      requires Anchored(h) && Whole(mem.image, h, 0) && IsFree(h.tiles, bp)
      requires BlockSized(asize) && 16 <= asize <= h.tiles[bp].size
      modifies mem`image, mem.words
      ensures mem.Valid() && h'.base == h.base && h'.brk == h.brk
      ensures Whole(mem.image, h', 0) && Placed(h, h', bp, asize) && Kept(old(mem.image), mem.image, h.tiles)
    {
      ghost var m := mem.image;
      WholeIsLaid(m, h, 0);
      BlockFacts(m, h, {0}, bp);
      var csize := GetSize(bp - 4);
      ghost var h1 := RemoveFreeBlock(bp, h, {0});
      ghost var m1 := mem.image;
      if csize - asize >= 2 * 8 {
        h' := SplitBlock(bp, asize, csize, m, h, h1);
      } else {
        h' := WholeTaken(m, m1, h, h1, bp);
        WriteTags(bp, csize, true);
      }
    }

    /** place once the block is unlisted, when it splits. */
    method SplitBlock(bp: int, asize: int, csize: int, ghost m: Image, ghost h: Heap, ghost h1: Heap)
      returns (ghost h': Heap)
      requires Anchored(h) && Whole(m, h, 0) && IsFree(h.tiles, bp) && csize == h.tiles[bp].size
      requires IsCell(h, bp - 4) && IsCell(h, bp + csize - 8)
      requires BlockSized(asize) && 16 <= asize && Splits(csize, asize)
      requires h1.base == h.base && h1.brk == h.brk
      requires Removed(m, mem.image, h, h1, bp) && Laid(mem.image, h1, {0} + {bp})
      modifies mem`image, mem.words
      ensures mem.Valid() && h'.base == h.base && h'.brk == h.brk
      ensures Whole(mem.image, h', 0) && Placed(h, h', bp, asize) && Kept(m, mem.image, h.tiles)
    {
      ghost var m1 := mem.image;
      ghost var h2 := SplitTaken(m, m1, h, h1, bp, asize);
      WriteSplit(bp, asize, csize);
      ghost var m2 := mem.image;
      ghost var r: int;
      r, h' := CoalesceRest(bp + asize, h2);
      PlacedSplit(m, m1, m2, mem.image, h, h1, h2, h', bp, asize, r);
    }

    /** The coalesce call of place. */
    method CoalesceRest(bp: int, ghost h: Heap) returns (ghost r: int, ghost h': Heap)
      requires Anchored(h) && Whole(mem.image, h, bp) && IsFree(h.tiles, bp)
      modifies mem`image, mem.words
      ensures mem.Valid() && h'.base == h.base && h'.brk == h.brk
      ensures Whole(mem.image, h', 0) && Coalesced(old(mem.image), mem.image, h, h', bp, r)
    {
      var start;
      start, h' := CoalesceBlock(bp, h);
      r := start;
    }

    /** PUT(HDRP(bp), PACK(size, alloc)); PUT(FTRP(bp), PACK(size, alloc)) */
    method WriteTags(bp: int, size: int, alloc: bool)
      requires mem.Valid() && mem.InHeap(bp - 4) && mem.InHeap(bp + size - 8)
      requires 16 <= size < TWO_32 && BlockSized(size)
      modifies mem`image, mem.words
      ensures mem.Valid() && mem.image == Tagged(old(mem.image), bp, bp + size, alloc)
    {
      assert Unfold(0);
      mem.Put(bp - 4, Pack(size, alloc));
      var ftr := Ftrp(bp);
      mem.Put(ftr, Pack(size, alloc));
    }

    /** PUT(NEXT_LINKNODE_RP(bp), NULL); PUT(PREV_LINKNODE_RP(bp), NULL) */
    method ClearLinks(bp: int)
      requires mem.Valid() && mem.InHeap(bp) && mem.InHeap(bp + 4)
      modifies mem`image, mem.words
      ensures mem.Valid() && mem.image == Cleared(old(mem.image), bp)
    {
      mem.Put(bp + 4, 0);
      mem.Put(bp, 0);
    }

    /** The writes of place when it splits. */
    method WriteSplit(bp: int, asize: int, csize: int)
      requires mem.Valid() && mem.InHeap(bp - 4) && mem.InHeap(bp + csize - 8)
      requires 16 <= asize <= csize - 16 && csize < TWO_32 && BlockSized(asize) && BlockSized(csize - asize)
      modifies mem`image, mem.words
      ensures mem.Valid() && mem.image == SplitWords(old(mem.image), bp, asize, csize)
    {
      SplitAligned(bp, asize);
      WriteTags(bp, asize, true);
      var rest := NextBlkp(bp);
      WriteTags(rest, csize - asize, false);
      ClearLinks(rest);
    }

    // ---- extend_heap ----

    /** extend_heap, once the break has moved. */
    method AppendBlock(bp: int, size: int, ghost h: Heap) returns (r: int, ghost h': Heap)
      requires mem.Valid() && mem.start <= h.base && h.Lo() <= h.brk == bp && mem.brk == bp + size
      requires blockListStart == h.base && heapListp == h.base + 48
      requires Whole(mem.image, h, 0) && 16 <= size && BlockSized(size)
      modifies mem`image, mem.words
      ensures mem.Valid() && h'.base == h.base && h'.brk == h.brk + size
      ensures Whole(mem.image, h', 0) && Grown(h, h', size, r) && Kept(old(mem.image), mem.image, h.tiles)
      ensures IsFree(h'.tiles, r) && size <= h'.tiles[r].size && r != 0
    {
      ghost var m := mem.image;
      BreakCells(m, h, size);
      ExtendedDone(m, h, size);
      WriteTags(bp, size, false);
      ClearLinks(bp);
      var nextp := NextBlkp(bp);
      PutEpilogue(nextp - 4);
      ghost var m1 := mem.image;
      r, h' := CoalesceBlock(bp, Appended(h, size));
      GrownDone(m, m1, mem.image, h, h', size, r);
    }

    method PutEpilogue(p: int)
      requires mem.Valid() && mem.InHeap(p)
      modifies mem`image, mem.words
      ensures mem.Valid() && mem.image == EpilogueAt(old(mem.image), p)
    {
      assert Unfold(0);
      mem.Put(p, Pack(0, true));
    }

    /** extend_heap */
    method ExtendHeap(dwords: int, ghost h: Heap) returns (bp: int, ghost h': Heap)
      requires Anchored(h) && Whole(mem.image, h, 0)
      requires 16 <= EvenBytes(dwords) && BlockSized(EvenBytes(dwords))
      requires NoWrap(h.brk, AsInt32(EvenBytes(dwords)))
      modifies mem`brk, mem`image, mem.words
      ensures mem.Valid()
      ensures Room(h.brk, mem.limit, EvenBytes(dwords)) <==> bp != 0
      ensures bp == 0 ==> h' == h && mem.image == old(mem.image) && Anchored(h)
      ensures bp != 0 ==>
        && Anchored(h')
        && h'.base == h.base && h'.brk == h.brk + EvenBytes(dwords)
        && Whole(mem.image, h', 0) && Grown(h, h', EvenBytes(dwords), bp)
        && Kept(old(mem.image), mem.image, h.tiles)
        && IsFree(h'.tiles, bp) && EvenBytes(dwords) <= h'.tiles[bp].size
    {
      var size := (if dwords % 2 != 0 then (dwords + 1) * 8 else dwords * 8) % TWO_32;
      bp := mem.Sbrk(AsInt32(size));
      if bp == -1 {
        return 0, h;
      }
      bp, h' := AppendBlock(bp, size, h);
    }

    // ---- mm_init ----

    /** The 14 words mm_init reserves. */
    method WriteStart(p: int)
      requires mem.Valid() && mem.start <= p && p + 56 <= mem.brk && p % 8 == 0
      modifies mem`image, mem.words
      ensures mem.Valid() && mem.image == InitWords(old(mem.image), p)
    {
      AlignedWords(p);
      WriteRoots(p);
      WriteFences(p);
    }

    method WriteRoots(p: int)
      requires mem.Valid()
      requires mem.InHeap(p) && mem.InHeap(p + 4) && mem.InHeap(p + 8) && mem.InHeap(p + 12) && mem.InHeap(p + 16)
      requires mem.InHeap(p + 20) && mem.InHeap(p + 24) && mem.InHeap(p + 28) && mem.InHeap(p + 32)
      requires mem.InHeap(p + 36)
      modifies mem`image, mem.words
      ensures mem.Valid() && mem.image == RootWords(old(mem.image), p)
    {
      mem.Put(p, 0);
      mem.Put(p + 1 * 4, 0);
      mem.Put(p + 2 * 4, 0);
      mem.Put(p + 3 * 4, 0);
      mem.Put(p + 4 * 4, 0);
      mem.Put(p + 5 * 4, 0);
      mem.Put(p + 6 * 4, 0);
      mem.Put(p + 7 * 4, 0);
      mem.Put(p + 8 * 4, 0);
      mem.Put(p + 9 * 4, 0);
    }

    method WriteFences(p: int)
      requires mem.Valid()
      requires mem.InHeap(p + 40) && mem.InHeap(p + 44) && mem.InHeap(p + 48) && mem.InHeap(p + 52)
      modifies mem`image, mem.words
      ensures mem.Valid() && mem.image == FenceWords(old(mem.image), p)
    {
      assert Unfold(0);
      mem.Put(p + 10 * 4, 0);
      mem.Put(p + 11 * 4, Pack(8, true));
      mem.Put(p + 12 * 4, Pack(8, true));
      mem.Put(p + 13 * 4, Pack(0, true));
    }

    /** Neither of the two growths of mm_init wraps around. */
    predicate InitUnwrapped()
      reads mem
    {
      mem.brk + 56 < TWO_32 && (mem.brk + 56 <= mem.limit ==> mem.brk + 56 + CHUNKSIZE < TWO_32)
    }

    /** mm_init: 0, or -1 when the break cannot grow by 14 words and a page. */
    method MmInit(rs: RangeList?) returns (r: int)
      requires mem.Valid() && mem.brk % 8 == 0 && InitUnwrapped()
      requires rs != null ==> rs.Valid()
      modifies this, mem`brk, mem`image, mem.words
      ensures mem.Valid() && (r == 0 || r == -1)
      ensures r == 0 <==> old(mem.brk) + 56 + CHUNKSIZE <= mem.limit
      ensures r == 0 ==> Valid() && ranges == rs && heap == Extend(Empty(old(mem.brk)), CHUNKSIZE)
    {
      var ok;
      ghost var h;
      ok, h := InitHeap();
      if !ok {
        return -1;
      }
      ranges := rs;
      heap := h;
      return 0;
    }

    /** mm_init without the range list. */
    method InitHeap() returns (ok: bool, ghost h: Heap)
      requires mem.Valid() && mem.brk % 8 == 0 && InitUnwrapped()
      modifies this`heapListp, this`blockListStart, mem`brk, mem`image, mem.words
      ensures mem.Valid() && (ok <==> old(mem.brk) + 56 + CHUNKSIZE <= mem.limit)
      ensures ok ==>
        && h == Extend(Empty(old(mem.brk)), CHUNKSIZE) && h.Lo() < h.brk
        && Anchored(h) && Whole(mem.image, h, 0)
    {
      h := Empty(0);
      ok := ReserveStart();
      if ok {
        FirstPage(mem.brk, mem.limit);
        var bp;
        bp, h := ExtendHeap(4096 / 8, Empty(blockListStart));
        ok := bp != 0;
        if ok {
          GrownIs(Empty(blockListStart), h, CHUNKSIZE, bp);
        }
      }
    }

    /** The first half of mm_init: roots, prologue, epilogue. */
    method ReserveStart() returns (ok: bool)
      requires mem.Valid() && mem.brk % 8 == 0 && mem.brk + 56 < TWO_32
      modifies this`heapListp, this`blockListStart, mem`brk, mem`image, mem.words
      ensures mem.Valid() && (ok <==> old(mem.brk) + 56 <= mem.limit)
      ensures ok ==>
        && blockListStart == old(mem.brk)
        && Anchored(Empty(blockListStart)) && Whole(mem.image, Empty(blockListStart), 0)
    {
      heapListp := mem.Sbrk(14 * 4);
      if heapListp == -1 {
        return false;
      }
      WriteStart(heapListp);
      InitDone(old(mem.image), heapListp);
      blockListStart := heapListp;
      heapListp := heapListp + 12 * 4;
      return true;
    }

    // ---- the allocator's state ----

    /** The objects the allocator writes. */
    ghost function Repr(): set<object>
      reads this, ranges
    {
      {this, mem, mem.words} + if ranges == null then {} else ranges.Repr()
    }

    /** The allocator invariant between calls. */
    ghost predicate Valid()
      reads this, Repr()
    {
      && Anchored(heap)
      && Whole(mem.image, heap, 0)
      && heap.Lo() < heap.brk
      && (ranges != null ==> ranges.Valid())
    }

    // ---- find_fit ----

    /** find_fit's walk along one list. */
    method SearchBin(root: int, size: int, ghost h: Heap, ghost k: nat) returns (p: int)
      requires Anchored(h) && Laid(mem.image, h, {0}) && k < NBINS && root == Root(h.base, k)
      ensures FirstFound(h, k, size, p)
    {
      RootFacts(mem.image, h, {0}, k);
      p := mem.Get(root);
      ghost var b := h.bins[k];
      ghost var i: nat := 0;
      while p != 0
        invariant i <= |b| && p == Nth(b, i)
        invariant i == |b| ==> p == 0
        invariant forall j :: 0 <= j < i ==> SizeAt(h.tiles, b[j]) < size
        decreases |b| - i
      {
        ListedFacts(mem.image, h, {0}, k, i);
        var s := GetSize(p - 4);
        if s >= size {
          return p;
        }
        p := mem.Get(p + 4);
        i := i + 1;
      }
      if i < |b| {
        ListedFacts(mem.image, h, {0}, k, i);
      }
    }

    /** find_fit */
    method FindFitBlock(size: int, ghost h: Heap) returns (p: int)
      requires Anchored(h) && Laid(mem.image, h, {0})
      ensures FitFound(h, BinOf(size), size, p)
    {
      var root := GetFreeCategoryRoot(size);
      ghost var k := BinOf(size);
      while root != heapListp - 2 * 4
        invariant k <= NBINS && root == Root(h.base, k)
        invariant NotFoundBefore(h, BinOf(size), k, size)
        decreases NBINS - k
      {
        p := SearchBin(root, size, h, k);
        if p != 0 {
          return;
        }
        root := root + 4;
        k := k + 1;
      }
      return 0;
    }

    // ---- mm_malloc ----

    /** mm_malloc */
    method MmMalloc(size: int) returns (bp: int)
      requires Valid() && 0 <= size < TWO_32 && Servable(heap, mem.limit, size)
      modifies this`heap, mem`brk, mem`image, mem.words
      ensures Valid()
      ensures (heap, bp) == Malloc(old(heap), mem.limit, size)
      ensures Kept(old(mem.image), mem.image, old(heap.tiles))
      ensures bp == 0 ==> mem.image == old(mem.image)
    {
      ghost var h := heap;
      if size == 0 {
        return 0;
      }
      var asize;
      if size <= 8 {
        asize := 2 * 8;
      } else {
        asize := 8 * (((size + 8 + (8 - 1)) % TWO_32) / 8);
      }
      bp := TakeFit(size, asize);
      if bp == 0 {
        bp := TakeGrown(size, asize);
      }
      MallocedIs(h, heap, mem.limit, size, bp);
    }

    /** The first half of mm_malloc: take a free block that fits, if there is one. */
    method TakeFit(ghost size: int, asize: int) returns (bp: int)
      requires Valid() && 0 < size < TWO_32 && asize == AdjustedSize(size) && Servable(heap, mem.limit, size)
      modifies this`heap, mem`image, mem.words
      ensures Valid()
      ensures bp != 0 ==> Malloced(old(heap), heap, mem.limit, size, bp)
      ensures bp != 0 ==> Kept(old(mem.image), mem.image, old(heap.tiles))
      ensures bp == 0 ==> heap == old(heap) && mem.image == old(mem.image) && FitFound(heap, BinOf(asize), asize, 0)
    {
      ghost var h := heap;
      WholeIsLaid(mem.image, h, 0);
      bp := FindFitBlock(asize, h);
      FitUsable(mem.image, h, asize, bp);
      if bp != 0 {
        FitSizes(h, mem.limit, size, bp);
        heap := PlaceBlock(bp, asize, h);
      }
    }

    /** The second half of mm_malloc: grow the heap and take the new block. */
    method TakeGrown(ghost size: int, asize: int) returns (bp: int)
      requires Valid() && 0 < size < TWO_32 && asize == AdjustedSize(size) && Servable(heap, mem.limit, size)
      requires FitFound(heap, BinOf(asize), asize, 0)
      modifies this`heap, mem`brk, mem`image, mem.words
      ensures Valid()
      ensures Malloced(old(heap), heap, mem.limit, size, bp) && Kept(old(mem.image), mem.image, old(heap.tiles))
      ensures bp == 0 ==> heap == old(heap) && mem.image == old(mem.image)
    {
      ghost var m, h := mem.image, heap;
      GrowSizes(h, mem.limit, size);
      var extendsize := if asize > CHUNKSIZE then asize else CHUNKSIZE;
      ghost var h1;
      bp, h1 := ExtendHeap(extendsize / 8, h);
      if bp == 0 {
        return;
      }
      ghost var m1 := mem.image;
      heap := PlaceBlock(bp, asize, h1);
      KeptGrown(m, m1, mem.image, h, h1, ExtendBytes(asize), bp);
    }

    // ---- mm_free ----

    /** mm_free */
    method MmFree(bp: int)
      requires Valid() && (bp == 0 || IsLive(heap.tiles, bp))
      modifies this`heap, mem`image, mem.words, if ranges == null then {} else ranges.Repr()
      ensures Valid()
      ensures bp == 0 ==> heap == old(heap) && mem.image == old(mem.image)
      ensures bp != 0 ==>
        && heap == Free(old(heap), bp)
        && Live(heap.tiles) == Live(old(heap.tiles)) - {bp}
        && heap.brk == old(heap.brk) && heap.base == old(heap.base)
        && LedOn(mem.image, heap, bp)
      ensures Kept(old(mem.image), mem.image, heap.tiles)
      ensures ranges != null ==>
        && ranges.Repr() <= old(ranges.Repr())
        && ranges.Extents() == if bp == 0 then old(ranges.Extents()) else WithoutLo(old(ranges.Extents()), bp)
    {
      if bp == 0 {
        return;
      }
      FreeBlock(bp);
      assert Valid();
      Prune(bp);
    }

    /** The end of mm_free. */
    method Prune(bp: int)
      requires Valid()
      modifies if ranges == null then {} else ranges.Repr()
      ensures Valid() && heap == old(heap) && mem.image == old(mem.image)
      ensures ranges != null ==>
        && ranges.Repr() <= old(ranges.Repr())
        && ranges.Extents() == WithoutLo(old(ranges.Extents()), bp)
    {
      if ranges != null {
        ranges.Remove(bp);
      }
    }

    /** The writes of mm_free. */
    method Unmark(bp: int, ghost h: Heap)
      requires Anchored(h) && Whole(mem.image, h, 0) && IsLive(h.tiles, bp)
      modifies mem`image, mem.words
      ensures mem.Valid() && Whole(mem.image, Unmarked(h, bp), bp) && IsFree(Unmarked(h, bp).tiles, bp)
      ensures Kept(old(mem.image), mem.image, Unmarked(h, bp).tiles)
    {
      UnmarkedDone(mem.image, h, bp);
      WholeIsLaid(mem.image, h, 0);
      BlockFacts(mem.image, h, {0}, bp);
      var size := GetSize(bp - 4);
      WriteTags(bp, size, false);
      ClearLinks(bp);
    }

    /** mm_free without the range list. */
    method FreeBlock(bp: int)
      requires Anchored(heap) && Whole(mem.image, heap, 0) && IsLive(heap.tiles, bp)
      modifies this`heap, mem`image, mem.words
      ensures Anchored(heap) && Whole(mem.image, heap, 0)
      ensures heap == Free(old(heap), bp)
      ensures Live(heap.tiles) == Live(old(heap.tiles)) - {bp}
      ensures heap.brk == old(heap.brk) && heap.base == old(heap.base)
      ensures LedOn(mem.image, heap, bp) && Kept(old(mem.image), mem.image, heap.tiles)
    {
      ghost var m, h := mem.image, heap;
      Unmark(bp, h);
      ghost var m1, r := mem.image, 0;
      r, heap := CoalesceRest(bp, Unmarked(h, bp));
      FreedDone(m, m1, mem.image, h, Unmarked(h, bp), heap, bp, r);
      FreedIs(h, heap, bp);
    }

    /** mm_realloc: a stub. */
    method MmRealloc(ptr: int, size: int) returns (bp: int)
      ensures bp == 0
    {
      return 0;
    }

    // ---- mm_exit ----

    /** The list of extents, if there is one, holds blocks in use only, each once. */
    ghost predicate RangesLive()
      reads this, Repr()
    {
      ranges != null ==>
        && DistinctLo(ranges.Extents())
        && forall e :: e in ranges.Extents() ==> IsLive(heap.tiles, e.0)
    }

    /** One round of mm_exit's loop: the next cursor, 0 when it passes the break. */
    method ExitStep(p: int, p2: int) returns (next: int)
      requires Valid() && Cursor(mem.image, heap, p) && 0 < p < mem.brk && p2 == mem.brk - 1
      requires forall a :: IsLive(heap.tiles, a) ==> p <= a
      modifies this`heap, mem`image, mem.words, if ranges == null then {} else ranges.Repr()
      ensures Valid() && heap.brk == old(heap.brk) && heap.base == old(heap.base)
      ensures ranges != null ==> ranges.Repr() <= old(ranges.Repr())
      ensures
        if IsLive(old(heap.tiles), p)
        then heap == Free(old(heap), p) && Live(heap.tiles) == Live(old(heap.tiles)) - {p}
        else heap == old(heap)
      ensures old(RangesLive()) ==> RangesLive()
      ensures next == 0 || (p < next < mem.brk && Cursor(mem.image, heap, next))
      ensures forall a :: IsLive(heap.tiles, a) ==> next != 0 && next <= a
    {
      FreeIfUsed(p);
      next := NextBlkp(p);
      ExitLands(mem.image, heap, p, next);
      if next > p2 {
        next := 0;
      }
    }

    /** Free the block at mm_exit's cursor if it is in use. */
    method FreeIfUsed(p: int)
      requires Valid() && Cursor(mem.image, heap, p) && 0 < p < mem.brk
      requires forall a :: IsLive(heap.tiles, a) ==> p <= a
      modifies this`heap, mem`image, mem.words, if ranges == null then {} else ranges.Repr()
      ensures Valid() && heap.brk == old(heap.brk) && heap.base == old(heap.base)
      ensures ranges != null ==> ranges.Repr() <= old(ranges.Repr())
      ensures
        if IsLive(old(heap.tiles), p)
        then heap == Free(old(heap), p) && Live(heap.tiles) == Live(old(heap.tiles)) - {p}
        else heap == old(heap)
      ensures old(RangesLive()) ==> RangesLive()
      ensures LedOn(mem.image, heap, p) && IsCell(heap, p - 4)
      ensures forall a :: IsLive(heap.tiles, a) ==> p < a
    {
      ghost var h := heap;
      ExitFacts(mem.image, h, p);
      var headAlloc := GetAlloc(p - 4);
      if headAlloc != 0 {
        FreeAndPrune(p);
      } else {
        CursorMoves(mem.image, heap, p);
      }
      StillBeyond(h, heap, p);
    }

    /** The mm_free call of mm_exit. */
    method FreeAndPrune(p: int)
      requires Valid() && IsLive(heap.tiles, p)
      modifies this`heap, mem`image, mem.words, if ranges == null then {} else ranges.Repr()
      ensures Valid() && heap.brk == old(heap.brk) && heap.base == old(heap.base)
      ensures ranges != null ==> ranges.Repr() <= old(ranges.Repr())
      ensures heap == Free(old(heap), p) && Live(heap.tiles) == Live(old(heap.tiles)) - {p}
      ensures LedOn(mem.image, heap, p)
      ensures old(RangesLive()) ==> RangesLive()
    {
      ghost var t := heap.tiles;
      ghost var live := RangesLive();
      ghost var r := if ranges == null then [] else ranges.Extents();
      NotZero(mem.image, heap, p);
      MmFree(p);
      if live && ranges != null {
        WithoutLoKeeps(r, p);
        LiveMeans(t);
        LiveMeans(heap.tiles);
        assert forall a :: IsLive(t, a) && a != p ==> a in Live(heap.tiles);
      }
    }

    /** mm_exit: every block in use is freed, once, in address order. */
    method MmExit() returns (ghost freed: seq<int>)
      requires Valid()
      modifies this`heap, mem`image, mem.words, if ranges == null then {} else ranges.Repr()
      ensures Valid() && heap.brk == old(heap.brk) && heap.base == old(heap.base)
      ensures (forall i, j :: 0 <= i < j < |freed| ==> freed[i] < freed[j])
      ensures (forall a :: a in freed <==> IsLive(old(heap.tiles), a))
      ensures heap == FreeAll(old(heap), freed)
      ensures Live(heap.tiles) == map[]
      ensures old(RangesLive()) && ranges != null ==> ranges.Extents() == []
    {
      var p2 := mem.HeapHi();
      var p := heapListp + 8;
      freed := [];
      ghost var h0 := heap;
      ghost var live := RangesLive();
      ExitStart(mem.image, heap);
      while p != 0
        invariant Valid() && heap.brk == h0.brk && heap.base == h0.base
        invariant ranges != null ==> ranges.Repr() <= old(ranges.Repr())
        invariant live ==> RangesLive()
        invariant p == 0 || (0 < p < mem.brk && Cursor(mem.image, heap, p))
        invariant forall a :: IsLive(heap.tiles, a) ==> p != 0 && p <= a
        invariant FreedSoFar(h0, heap, freed) && (p == 0 || forall i :: 0 <= i < |freed| ==> freed[i] < p)
        decreases if p == 0 then 0 else mem.brk - p
      {
        ghost var h := heap;
        var next := ExitStep(p, p2);
        if IsLive(h.tiles, p) {
          FreedOneMore(h0, h, heap, freed, p);
          freed := freed + [p];
        }
        p := next;
      }
      ExitEnd(h0, heap, freed);
      if live && ranges != null && ranges.Extents() != [] {
        assert ranges.Extents()[0] in ranges.Extents();
      }
    }
  }
}
