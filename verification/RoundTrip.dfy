/** mm_free undoes mm_malloc. */
module RoundTrip {
  import opened Words
  import opened Tiles
  import opened Bins
  import opened Heaps
  import opened Mallocs
  import opened HeapTheorems

  /** find_fit's answer is the first block of at least s bytes of its bin. */
  lemma {:induction false} FitPosition(h: Heap, k: nat, s: int)
    requires Ok(h, 0) && k <= NBINS
    requires FitFrom(h.tiles, h.bins, k, s) != 0
    ensures
      var p := FitFrom(h.tiles, h.bins, k, s);
      && IsFree(h.tiles, p) && s <= h.tiles[p].size
      && var b := h.bins[BinOf(h.tiles[p].size)];
         var r := Rank(h.tiles, b, s);
         r < |b| && b[r] == p
    decreases NBINS - k
  {
    if k < NBINS {
      FirstFitIsSmallest(h.tiles, h.bins, k, s);
      if FirstFit(h.tiles, h.bins[k], s) == 0 {
        FitPosition(h, k + 1, s);
      }
    }
  }

  /** The rest that place splits off has no free neighbour. */
  lemma RestAlone(h: Heap, p: int, asize: int)
    requires Ok(h, 0) && IsFree(h.tiles, p)
    requires asize % 8 == 0 && 16 <= asize && Splits(h.tiles[p].size, asize)
    ensures
      var t1 := Split(h.tiles, p, asize);
      !PrevFree(t1, p + asize) && !NextFree(t1, p + asize)
  {
    var t := h.tiles;
    var t1 := Split(t, p, asize);
    SplitTiled(t, h.Lo(), h.brk, p, asize);
    assert Next(t1, p + asize) == Next(t, p);
  }

  lemma PlaceSplits(h: Heap, p: int, asize: int)
    requires Ok(h, 0) && IsFree(h.tiles, p)
    requires asize % 8 == 0 && 16 <= asize && Splits(h.tiles[p].size, asize)
    ensures
      var t1 := Split(h.tiles, p, asize);
      Place(h, p, asize) == h.(tiles := t1, bins := Enlist(t1, Unlist(h.tiles, h.bins, p), p + asize))
  {
    RestAlone(h, p, asize);
    SplitReady(h, p, asize);
  }

  /** The free of the placed block re-absorbs the rest. */
  lemma RestReabsorbed(h: Heap, p: int, asize: int)
    requires Ok(h, 0) && IsFree(h.tiles, p)
    requires asize % 8 == 0 && 16 <= asize && Splits(h.tiles[p].size, asize)
    ensures
      var t2 := Split(h.tiles, p, asize)[p := Block(asize, false)];
      && Tiled(t2, h.Lo(), h.brk) && IsFree(t2, p)
      && !PrevFree(t2, p) && NextFree(t2, p) && Next(t2, p) == p + asize
      && MergedTiles(t2, p) == h.tiles
  {
    var t, rest := h.tiles, p + asize;
    var t1 := Split(t, p, asize);
    var t2 := t1[p := Block(asize, false)];
    SplitTiled(t, h.Lo(), h.brk, p, asize);
    SetAllocTiled(t1, h.Lo(), h.brk, p, false);
    StillAlone(h, p, asize);
  }

  /** No free block ends where the freed block starts. */
  lemma StillAlone(h: Heap, p: int, asize: int)
    requires Ok(h, 0) && IsFree(h.tiles, p)
    requires asize % 8 == 0 && 16 <= asize && Splits(h.tiles[p].size, asize)
    ensures !PrevFree(Split(h.tiles, p, asize)[p := Block(asize, false)], p)
  {
    var t := h.tiles;
    var t2 := Split(t, p, asize)[p := Block(asize, false)];
    forall q | IsFree(t2, q)
      ensures Next(t2, q) != p
    {
      if q != p && q != p + asize {
        assert Next(t2, q) == Next(t, q);
      }
    }
  }

  /** Taking the rest off its list again restores the lists. */
  lemma RestUnlisted(h: Heap, p: int, asize: int)
    requires Ok(h, 0) && IsFree(h.tiles, p)
    requires asize % 8 == 0 && 16 <= asize && Splits(h.tiles[p].size, asize)
    ensures
      var t1 := Split(h.tiles, p, asize);
      var b1 := Unlist(h.tiles, h.bins, p);
      Unlist(t1[p := Block(asize, false)], Enlist(t1, b1, p + asize), p + asize) == b1
  {
    var t1 := Split(h.tiles, p, asize);
    SplitReady(h, p, asize);
    UnlistEnlist(t1, t1[p := Block(asize, false)], Unlist(h.tiles, h.bins, p), {p + asize}, p + asize);
  }

  lemma SplitRoundTrip(h: Heap, p: int, asize: int)
    requires Ok(h, 0) && IsFree(h.tiles, p)
    requires asize % 8 == 0 && 16 <= asize && Splits(h.tiles[p].size, asize)
    requires
      var b := h.bins[BinOf(h.tiles[p].size)];
      var r := Rank(h.tiles, b, asize);
      r < |b| && b[r] == p
    ensures Ok(Place(h, p, asize), 0) && IsLive(Place(h, p, asize).tiles, p)
    ensures Free(Place(h, p, asize), p) == h
  {
    PlaceOk(h, p, asize);
    PlaceSplits(h, p, asize);
    RestReabsorbed(h, p, asize);
    RestUnlisted(h, p, asize);
    EnlistUnlist(h.tiles, h.bins, {0}, p, asize);
  }

  lemma WholeRoundTrip(h: Heap, p: int, asize: int)
    requires Ok(h, 0) && IsFree(h.tiles, p)
    requires asize % 8 == 0 && 16 <= asize <= h.tiles[p].size && !Splits(h.tiles[p].size, asize)
    requires
      var b := h.bins[BinOf(h.tiles[p].size)];
      var r := Rank(h.tiles, b, asize);
      r < |b| && b[r] == p
    ensures Ok(Place(h, p, asize), 0) && IsLive(Place(h, p, asize).tiles, p)
    ensures Free(Place(h, p, asize), p) == h
  {
    var t, c := h.tiles, h.tiles[p].size;
    PlaceOk(h, p, asize);
    assert t[p := Block(c, true)][p := Block(c, false)] == t;
    EnlistUnlist(t, h.bins, {0}, p, asize);
  }

  /** Freeing a block just allocated gives back the very same heap, the order of every list
      included, whenever the allocation did not grow the break. */
  lemma FreeUndoesMalloc(h: Heap, limit: int, size: int)
    requires Ok(h, 0) && 0 <= size < TWO_32 && h.brk <= limit
    requires !Grows(h, limit, size)
    ensures
      var (h', p) := Malloc(h, limit, size);
      if p == 0 then h' == h
      else size <= MAX_REQUEST ==> Ok(h', 0) && IsLive(h'.tiles, p) && Free(h', p) == h
  {
    if size == 0 || size > MAX_REQUEST {
      return;
    }
    SizesOf(size);
    var asize := AdjustedSize(size);
    FindFitIsBestFit(h, asize);
    var p := FindFit(h.tiles, h.bins, asize);
    if p != 0 {
      FitPosition(h, BinOf(asize), asize);
      if Splits(h.tiles[p].size, asize) {
        SplitRoundTrip(h, p, asize);
      } else {
        WholeRoundTrip(h, p, asize);
      }
    }
  }
}
