/** What the allocator's operations promise, proved about the abstract heap. */
module HeapTheorems {
  import opened Words
  import opened Tiles
  import opened Bins
  import opened Heaps
  import opened Mallocs
  import opened Memory

  /** The blocks in use: payload address to block size. */
  ghost function Live(t: Tiling): map<int, int> {
    map a | a in t && t[a].alloc :: t[a].size
  }

  // ---- what each operation does to the live blocks ----

  lemma LiveEqual(t: Tiling, t': Tiling)
    requires forall a {:trigger IsLive(t, a)} {:trigger IsLive(t', a)} ::
               (IsLive(t', a) <==> IsLive(t, a)) && (IsLive(t, a) ==> t'[a] == t[a])
    ensures Live(t') == Live(t)
  {
    forall a
      ensures a in Live(t') <==> a in Live(t)
      ensures a in Live(t) ==> Live(t')[a] == Live(t)[a]
    {
      assert IsLive(t', a) <==> IsLive(t, a);
    }
  }

  lemma MergedKeepsBlock(t: Tiling, lo: int, hi: int, p: int, a: int)
    requires Tiled(t, lo, hi) && IsFree(t, p)
    ensures IsLive(MergedTiles(t, p), a) <==> IsLive(t, a)
    ensures IsLive(t, a) ==> MergedTiles(t, p)[a] == t[a]
  {
    MergedShape(t, lo, hi, p);
  }

  lemma MergedKeepsLive(t: Tiling, lo: int, hi: int, p: int)
    requires Tiled(t, lo, hi) && IsFree(t, p)
    ensures forall a {:trigger IsLive(t, a)} {:trigger IsLive(MergedTiles(t, p), a)} ::
              IsLive(MergedTiles(t, p), a) <==> IsLive(t, a)
    ensures forall a :: IsLive(t, a) ==> MergedTiles(t, p)[a] == t[a]
    ensures Live(MergedTiles(t, p)) == Live(t)
  {
    var t' := MergedTiles(t, p);
    forall a
      ensures (IsLive(t', a) <==> IsLive(t, a)) && (IsLive(t, a) ==> t'[a] == t[a])
    {
      MergedKeepsBlock(t, lo, hi, p, a);
    }
    LiveEqual(t, t');
  }

  lemma SetFreeLive(t: Tiling, p: int)
    requires IsLive(t, p)
    ensures Live(t[p := Block(t[p].size, false)]) == Live(t) - {p}
  {
  }

  /** The heap invariant as one fact. */
  ghost predicate Good(h: Heap, x: int) {
    forall i {:trigger Unfold(i)} :: Unfold(i) ==> Ok(h, x)
  }

  /** h' is a valid heap within the bounds of h. */
  ghost predicate StaysGood(h: Heap, h': Heap) {
    Good(h', 0) && h'.base == h.base && h'.brk == h.brk
  }

  lemma CoalesceKeepsLive(h: Heap, p: int)
    requires Good(h, p) && IsFree(h.tiles, p)
    ensures StaysGood(h, Coalesce(h, p)) && Live(Coalesce(h, p).tiles) == Live(h.tiles)
  {
    assert Unfold(0);
    CoalesceOk(h, p);
    MergedKeepsLive(h.tiles, h.Lo(), h.brk, p);
  }

  lemma FreeOk(h: Heap, p: int)
    requires Ok(h, 0) && IsLive(h.tiles, p)
    ensures Ok(Free(h, p), 0)
    ensures Free(h, p).base == h.base && Free(h, p).brk == h.brk
    ensures Live(Free(h, p).tiles) == Live(h.tiles) - {p}
  {
    FreeReady(h, p);
    var h1 := h.(tiles := h.tiles[p := Block(h.tiles[p].size, false)]);
    CoalesceKeepsLive(h1, p);
    assert Ok(Free(h, p), 0) by {
      assert Unfold(0);
    }
    SetFreeLive(h.tiles, p);
  }

  lemma SplitKeepsLive(t: Tiling, lo: int, hi: int, p: int, asize: int)
    requires Tiled(t, lo, hi) && IsFree(t, p)
    requires asize % 8 == 0 && 16 <= asize <= t[p].size - 16
    ensures Live(Split(t, p, asize)) == Live(t)[p := asize]
    ensures Tiled(Split(t, p, asize), lo, hi)
    ensures IsFree(Split(t, p, asize), p + asize)
  {
    SplitTiled(t, lo, hi, p, asize);
  }

  lemma PlaceWholeOk(h: Heap, p: int)
    requires Ok(h, 0) && IsFree(h.tiles, p)
    ensures
      var t1 := h.tiles[p := Block(h.tiles[p].size, true)];
      && Ok(h.(tiles := t1, bins := Unlist(h.tiles, h.bins, p)), 0)
      && Live(t1) == Live(h.tiles)[p := h.tiles[p].size]
  {
    var t := h.tiles;
    var t1 := t[p := Block(t[p].size, true)];
    var b := Unlist(t, h.bins, p);
    SetAllocTiled(t, h.Lo(), h.brk, p, true);
    assert BinsOk(t1, b, {0}) by {
      UnlistOk(t, h.bins, {0}, p);
      BinsIgnore(t, t1, b, {0} + {p}, {0});
    }
    forall a | IsFree(t1, a)
      ensures !IsFree(t1, Next(t1, a))
    {
      assert Next(t1, a) == Next(t, a);
    }
  }

  /** The heap place hands to coalesce when it splits. */
  function Cut(h: Heap, p: int, asize: int): Heap
    requires p in h.tiles
  {
    h.(tiles := Split(h.tiles, p, asize), bins := Unlist(h.tiles, h.bins, p))
  }

  lemma CutOk(h: Heap, p: int, asize: int)
    requires Ok(h, 0) && IsFree(h.tiles, p)
    requires asize % 8 == 0 && 16 <= asize && Splits(h.tiles[p].size, asize)
    ensures
      var h1 := Cut(h, p, asize);
      && Good(h1, p + asize) && IsFree(h1.tiles, p + asize)
      && h1.base == h.base && h1.brk == h.brk && Live(h1.tiles) == Live(h.tiles)[p := asize]
  {
    SplitReady(h, p, asize);
    SplitKeepsLive(h.tiles, h.Lo(), h.brk, p, asize);
  }

  /** place's outcome: a valid heap in which p is one more block in use, of size bytes. */
  ghost predicate Takes(h: Heap, h': Heap, p: int, size: int) {
    StaysGood(h, h') && Live(h'.tiles) == Live(h.tiles)[p := size]
  }

  lemma PlaceSplitTakes(h: Heap, p: int, asize: int)
    requires Ok(h, 0) && IsFree(h.tiles, p)
    requires asize % 8 == 0 && 16 <= asize && Splits(h.tiles[p].size, asize)
    ensures Takes(h, Place(h, p, asize), p, asize)
  {
    CutOk(h, p, asize);
    CoalesceKeepsLive(Cut(h, p, asize), p + asize);
  }

  lemma PlaceWholeTakes(h: Heap, p: int, asize: int)
    requires Ok(h, 0) && IsFree(h.tiles, p) && !Splits(h.tiles[p].size, asize)
    ensures Takes(h, Place(h, p, asize), p, h.tiles[p].size)
  {
    PlaceWholeOk(h, p);
  }

  lemma LiveBlock(t: Tiling, p: int, size: int)
    requires p in Live(t) && Live(t)[p] == size
    ensures IsLive(t, p) && t[p].size == size
  {
  }

  /** What place does not split off is at most 8 bytes. */
  lemma RestSmall(csize: int, asize: int)
    requires csize % 8 == 0 && asize % 8 == 0 && asize <= csize && !Splits(csize, asize)
    ensures csize <= asize + 8
  {
    assert csize - asize == 8 * (csize / 8 - asize / 8);
  }

  /** The bytes place takes. */
  lemma TakenSize(h: Heap, p: int, asize: int)
    requires Ok(h, 0) && IsFree(h.tiles, p)
    requires asize % 8 == 0 && asize <= h.tiles[p].size
    ensures
      var size := if Splits(h.tiles[p].size, asize) then asize else h.tiles[p].size;
      asize <= size <= asize + 8
  {
    if !Splits(h.tiles[p].size, asize) {
      RestSmall(h.tiles[p].size, asize);
    }
  }

  /** place takes asize bytes, or up to 8 more when the rest is too small to stand alone. */
  lemma PlaceOk(h: Heap, p: int, asize: int)
    requires Ok(h, 0) && IsFree(h.tiles, p)
    requires asize % 8 == 0 && 16 <= asize <= h.tiles[p].size
    ensures
      var h' := Place(h, p, asize);
      && Ok(h', 0) && h'.base == h.base && h'.brk == h.brk
      && IsLive(h'.tiles, p) && asize <= h'.tiles[p].size <= asize + 8
      && Live(h'.tiles) == Live(h.tiles)[p := h'.tiles[p].size]
  {
    var h', size := Place(h, p, asize), if Splits(h.tiles[p].size, asize) then asize else h.tiles[p].size;
    assert Takes(h, h', p, size) by {
      if Splits(h.tiles[p].size, asize) {
        PlaceSplitTakes(h, p, asize);
      } else {
        PlaceWholeTakes(h, p, asize);
      }
    }
    assert Ok(h', 0) by {
      assert Unfold(0);
    }
    LiveBlock(h'.tiles, p, size);
    TakenSize(h, p, asize);
  }

  /** Some free block is at least as large as the computed size. */
  ghost predicate Fitting(h: Heap, size: int) {
    exists a :: IsFree(h.tiles, a) && h.tiles[a].size >= AdjustedSize(size)
  }

  /** When mm_malloc grows the heap: mem_sbrk accepts. */
  ghost predicate Grows(h: Heap, limit: int, size: int) {
    !Fitting(h, size) && Room(h.brk, limit, ExtendBytes(AdjustedSize(size)))
  }

  /** When mm_malloc gives up: mem_sbrk refuses. */
  ghost predicate GivesUp(h: Heap, limit: int, size: int) {
    !Fitting(h, size) && !Room(h.brk, limit, ExtendBytes(AdjustedSize(size)))
  }

  /** When mm_malloc has to give up: there is no room. */
  ghost predicate Exhausted(h: Heap, limit: int, size: int) {
    !Fitting(h, size) && !HasRoom(h.brk, limit, ExtendBytes(AdjustedSize(size)))
  }

  /** Every free block is too small for the request and its two tags, and the growth it needs is no
      int or passes the limit. */
  ghost predicate OutOfMemory(h: Heap, limit: int, size: int) {
    && (forall a :: IsFree(h.tiles, a) ==> h.tiles[a].size < size + 8)
    && forall g :: Growth(size, g) ==> g >= TWO_31 || h.brk + g > limit
  }

  /** A multiple of 8 that holds the request and its tags holds the computed size. */
  lemma HoldsAdjusted(c: int, size: int)
    requires 0 < size <= MAX_REQUEST && c % 8 == 0
    ensures AdjustedSize(size) <= c <==> size + 8 <= c
  {
    SizesOf(size);
    var asize := AdjustedSize(size);
    assert c - asize == 8 * (c / 8 - asize / 8);
  }

  /** The computed sizes give up exactly when the request itself has to. */
  lemma ExhaustedIff(h: Heap, limit: int, size: int)
    requires Ok(h, 0) && 0 < size <= MAX_REQUEST
    ensures Exhausted(h, limit, size) <==> OutOfMemory(h, limit, size)
  {
    var g0 := ExtendBytes(AdjustedSize(size));
    GrowthIs(size, g0);
    forall g | Growth(size, g)
      ensures g == g0
    {
      GrowthIs(size, g);
    }
    forall a | IsFree(h.tiles, a)
      ensures AdjustedSize(size) <= h.tiles[a].size <==> size + 8 <= h.tiles[a].size
    {
      HoldsAdjusted(h.tiles[a].size, size);
    }
  }

  lemma FittingIsFound(h: Heap, size: int)
    requires Ok(h, 0)
    ensures Fitting(h, size) <==> FindFit(h.tiles, h.bins, AdjustedSize(size)) != 0
  {
    FindFitIsBestFit(h, AdjustedSize(size));
  }

  lemma ExtendKeepsLive(h: Heap, bytes: int)
    requires Ok(h, 0) && bytes % 8 == 0 && 16 <= bytes
    ensures Extend(h, bytes).brk == h.brk + bytes && Extend(h, bytes).base == h.base
    ensures Live(Extend(h, bytes).tiles) == Live(h.tiles)
  {
    AppendReady(h, bytes);
    var h1 := Appended(h, bytes);
    MergedKeepsLive(h1.tiles, h1.Lo(), h1.brk, h.brk);
  }

  /** The block p was not in use, holds the request, and no other block in use is touched. */
  ghost predicate Served(h: Heap, h': Heap, size: int, p: int) {
    && !IsLive(h.tiles, p)
    && IsLive(h'.tiles, p)
    && size + 8 <= h'.tiles[p].size <= size + 23
    && Live(h'.tiles) == Live(h.tiles)[p := h'.tiles[p].size]
  }

  /** The block placed in the grown heap. */
  lemma GrownServed(h: Heap, size: int)
    requires Ok(h, 0) && 0 < size <= MAX_REQUEST
    ensures
      var bytes, asize := ExtendBytes(AdjustedSize(size)), AdjustedSize(size);
      var p := ExtendAt(h, bytes);
      var h' := Place(Extend(h, bytes), p, asize);
      Ok(h', 0) && h'.base == h.base && h'.brk == h.brk + bytes && p != 0 && Served(h, h', size, p)
  {
    SizesOf(size);
    var bytes, asize := ExtendBytes(AdjustedSize(size)), AdjustedSize(size);
    ExtendFits(h, bytes);
    ExtendKeepsLive(h, bytes);
    PlaceOk(Extend(h, bytes), ExtendAt(h, bytes), asize);
  }

  lemma ServedOk(h: Heap, limit: int, size: int)
    requires Ok(h, 0) && 0 < size <= MAX_REQUEST && h.brk <= limit && Servable(h, limit, size)
    ensures
      var (h', p) := Malloc(h, limit, size);
      var found := FindFit(h.tiles, h.bins, AdjustedSize(size)) != 0;
      var room := HasRoom(h.brk, limit, ExtendBytes(AdjustedSize(size)));
      && Ok(h', 0) && h'.base == h.base && h.brk <= h'.brk <= limit
      && (p == 0 ==> h' == h)
      && (p == 0 <==> !found && !room)
      && (h'.brk != h.brk <==> !found && room)
      && (h'.brk != h.brk ==> h'.brk == h.brk + ExtendBytes(AdjustedSize(size)))
      && (p != 0 ==> Served(h, h', size, p))
  {
    SizesOf(size);
    var asize := AdjustedSize(size);
    FindFitIsBestFit(h, asize);
    if FindFit(h.tiles, h.bins, asize) != 0 {
      PlaceOk(h, FindFit(h.tiles, h.bins, asize), asize);
    } else {
      GrownServed(h, size);
    }
  }

  /** The address extend_heap returns is never NULL. */
  lemma NotNull(h: Heap, size: int)
    requires Ok(h, 0) && 0 < size
    ensures FindFit(h.tiles, h.bins, AdjustedSize(size)) == 0 ==> ExtendAt(h, ExtendBytes(AdjustedSize(size))) != 0
  {
    var t := Appended(h, ExtendBytes(AdjustedSize(size))).tiles;
    if PrevFree(t, h.brk) {
      var q := PrevOf(t, h.brk);
      assert q == h.brk || q in h.tiles;
    }
  }

  /** The break grows only when every free block is too small, and by exactly the growth; otherwise
      the block is a smallest one that holds the request and its two tags. */
  ghost predicate Chosen(h: Heap, h': Heap, size: int, p: int) {
    if h'.brk != h.brk
    then (forall a :: IsFree(h.tiles, a) ==> h.tiles[a].size < size + 8) && Growth(size, h'.brk - h.brk)
    else SmallestFit(h.tiles, p, size + 8)
  }

  lemma ChosenOk(h: Heap, h': Heap, limit: int, size: int, p: int)
    requires Ok(h, 0) && 0 < size <= MAX_REQUEST && h.brk <= limit && Servable(h, limit, size)
    requires (h', p) == Malloc(h, limit, size) && p != 0
    ensures Chosen(h, h', size, p)
  {
    ServedOk(h, limit, size);
    FindFitIsBestFit(h, AdjustedSize(size));
    GrowthIs(size, ExtendBytes(AdjustedSize(size)));
    forall a | IsFree(h.tiles, a)
      ensures AdjustedSize(size) <= h.tiles[a].size <==> size + 8 <= h.tiles[a].size
    {
      HoldsAdjusted(h.tiles[a].size, size);
    }
  }

  lemma AnsweredOk(h: Heap, limit: int, size: int)
    requires Ok(h, 0) && 0 < size <= MAX_REQUEST && h.brk <= limit && Servable(h, limit, size)
    ensures
      var (h', p) := Malloc(h, limit, size);
      && (p == 0 <==> OutOfMemory(h, limit, size))
      && Ok(h', 0) && h'.base == h.base && h.brk <= h'.brk <= limit
      && (h'.brk != h.brk <==> Grows(h, limit, size))
      && (p != 0 ==> Served(h, h', size, p) && Chosen(h, h', size, p))
  {
    var (h', p) := Malloc(h, limit, size);
    FittingIsFound(h, size);
    ServedOk(h, limit, size);
    ExhaustedIff(h, limit, size);
    if p != 0 {
      ChosenOk(h, h', limit, size, p);
    }
  }

  /** mm_malloc, on every size_t. It returns NULL exactly when asked for nothing or when no free
      block fits and mem_sbrk refuses, and then nothing changes. A request of at most MAX_REQUEST
      bytes whose growth does not wrap around gets NULL exactly when it has to, and keeps the heap
      invariant; the break grows only when no free block holds the request, and then by a page or the
      next multiple of 16; otherwise a smallest block that holds it is taken; the block returned was not
      in use, holds the request and its two tags with at most 15 bytes to spare, and no other block in
      use is touched. */
  lemma MallocOk(h: Heap, limit: int, size: int)
    requires Ok(h, 0) && 0 <= size < TWO_32 && h.brk <= limit
    ensures
      var (h', p) := Malloc(h, limit, size);
      && (p == 0 <==> size == 0 || GivesUp(h, limit, size))
      && (p == 0 ==> h' == h)
      && (size <= MAX_REQUEST && Servable(h, limit, size) ==>
            && (p == 0 <==> size == 0 || OutOfMemory(h, limit, size))
            && Ok(h', 0) && h'.base == h.base && h.brk <= h'.brk <= limit
            && (h'.brk != h.brk <==> size != 0 && Grows(h, limit, size))
            && (p != 0 ==> Served(h, h', size, p) && Chosen(h, h', size, p)))
  {
    if size != 0 {
      FittingIsFound(h, size);
      NotNull(h, size);
      FindFitIsBestFit(h, AdjustedSize(size));
      if size <= MAX_REQUEST && Servable(h, limit, size) {
        AnsweredOk(h, limit, size);
      }
    }
  }

  /** mm_malloc returns NULL exactly when it has to if and only if a free block fits, or growing the
      heap does not wrap around. */
  lemma NullRightlyIff(h: Heap, limit: int, size: int)
    requires Ok(h, 0) && 0 <= size < TWO_32 && h.brk <= limit < TWO_32
    ensures
      (Malloc(h, limit, size).1 == 0 <==> size == 0 || Exhausted(h, limit, size)) <==>
        size == 0 || Fitting(h, size) || NoWrap(h.brk, AsInt32(ExtendBytes(AdjustedSize(size))))
  {
    MallocOk(h, limit, size);
    RefusesRightlyIff(h.brk, limit, AsInt32(ExtendBytes(AdjustedSize(size))));
  }

  /** The heap right after mm_init, high in memory, answers a request it has no room for. */
  lemma WrapAnswered()
    ensures
      var h, limit, size := Extend(Empty(0xF000_0000), CHUNKSIZE), 0xF000_0000 + MAX_HEAP, 0x1000_0000;
      Ok(h, 0) && h.brk <= limit && Exhausted(h, limit, size) && Malloc(h, limit, size).1 != 0
  {
    var h, limit, size := Extend(Empty(0xF000_0000), CHUNKSIZE), 0xF000_0000 + MAX_HEAP, 0x1000_0000;
    EmptyOk(0xF000_0000);
    ExtendFits(Empty(0xF000_0000), CHUNKSIZE);
    ExtendKeepsLive(Empty(0xF000_0000), CHUNKSIZE);
    SizesOf(size);
    assert !Fitting(h, size);
    NullRightlyIff(h, limit, size);
  }

  /** A request above MAX_REQUEST exceeds every block of a heap below 2^32, so NULL is the only
      right answer. mm_malloc gives it if and only if the size wraps to nothing, there is no free
      block at all, and mem_sbrk refuses a page: it does not fit below the limit, nor does its end
      wrap around. */
  lemma BeyondRefusedIff(h: Heap, limit: int, size: int)
    requires Ok(h, 0) && MAX_REQUEST < size < TWO_32 && h.brk <= limit < TWO_32
    ensures forall a :: a in h.tiles ==> h.tiles[a].size < size + 8
    ensures
      Malloc(h, limit, size).1 == 0 <==>
        size > TWO_32 - 16 && (forall a :: !IsFree(h.tiles, a)) && limit < h.brk + CHUNKSIZE < TWO_32
  {
    SizesBeyond(size);
    MallocOk(h, limit, size);
    forall a | a in h.tiles
      ensures 16 <= h.tiles[a].size < size + 8
    {
    }
  }

  /** Above MAX_REQUEST the requests mm_malloc can serve are exactly those it refuses. */
  lemma ServableBeyond(h: Heap, limit: int, size: int)
    requires Ok(h, 0) && MAX_REQUEST < size < TWO_32 && h.brk <= limit < TWO_32
    ensures Servable(h, limit, size) <==> Malloc(h, limit, size).1 == 0
  {
    SizesBeyond(size);
    MallocOk(h, limit, size);
    FindFitIsBestFit(h, AdjustedSize(size));
  }

  /** A heap of one free page answers the largest request with a block. */
  lemma BeyondAnswered()
    ensures
      var h := Extend(Empty(8), CHUNKSIZE);
      Ok(h, 0) && Malloc(h, 8 + MAX_HEAP, TWO_32 - 1).1 != 0
  {
    EmptyOk(8);
    ExtendFits(Empty(8), CHUNKSIZE);
    ExtendKeepsLive(Empty(8), CHUNKSIZE);
    BeyondRefusedIff(Extend(Empty(8), CHUNKSIZE), 8 + MAX_HEAP, TWO_32 - 1);
  }

  // ---- free blocks are the maximal gaps: the canonical form ----

  /** At an address where both heaps have a block, it is the same block. */
  lemma SameBlock(h1: Heap, h2: Heap, a: int)
    requires Ok(h1, 0) && Ok(h2, 0)
    requires h1.base == h2.base && h1.brk == h2.brk && Live(h1.tiles) == Live(h2.tiles)
    requires a in h1.tiles && a in h2.tiles
    ensures h1.tiles[a] == h2.tiles[a]
  {
    assert IsLive(h1.tiles, a) <==> a in Live(h1.tiles);
    assert IsLive(h2.tiles, a) <==> a in Live(h2.tiles);
    if IsLive(h1.tiles, a) {
      assert Live(h1.tiles)[a] == Live(h2.tiles)[a];
    } else {
      GapEnds(h1, h2, a);
      GapEnds(h2, h1, a);
    }
  }

  /** A free block ends no later than the other heap's free block at the same address. */
  lemma GapEnds(h1: Heap, h2: Heap, a: int)
    requires Ok(h1, 0) && Ok(h2, 0)
    requires h1.base == h2.base && h1.brk == h2.brk && Live(h1.tiles) == Live(h2.tiles)
    requires IsFree(h1.tiles, a) && IsFree(h2.tiles, a)
    ensures h2.tiles[a].size <= h1.tiles[a].size
  {
    var n := Next(h1.tiles, a);
    if n != h1.brk {
      assert !IsFree(h1.tiles, n);
      assert n in Live(h1.tiles);
      assert n in Live(h2.tiles);
      assert n in h2.tiles;
    }
  }

  /** Two valid heaps with the same blocks in use have the same blocks altogether. */
  lemma {:induction false} SameTilesFrom(h1: Heap, h2: Heap, a: int)
    requires Ok(h1, 0) && Ok(h2, 0)
    requires h1.base == h2.base && h1.brk == h2.brk && Live(h1.tiles) == Live(h2.tiles)
    requires a == h1.brk || (a in h1.tiles && a in h2.tiles)
    ensures forall b :: a <= b && b in h1.tiles ==> b in h2.tiles && h2.tiles[b] == h1.tiles[b]
    decreases h1.brk - a
  {
    if a != h1.brk {
      SameBlock(h1, h2, a);
      assert Next(h1.tiles, a) == Next(h2.tiles, a);
      SameTilesFrom(h1, h2, Next(h1.tiles, a));
    }
  }

  lemma TilesDetermined(h1: Heap, h2: Heap)
    requires Ok(h1, 0) && Ok(h2, 0)
    requires h1.base == h2.base && h1.brk == h2.brk && Live(h1.tiles) == Live(h2.tiles)
    ensures h1.tiles == h2.tiles
  {
    SameTilesFrom(h1, h2, h1.Lo());
    SameTilesFrom(h2, h1, h1.Lo());
  }

  lemma HeldDetermined(t: Tiling, b1: Bins, b2: Bins)
    requires BinsOk(t, b1, {0}) && BinsOk(t, b2, {0})
    ensures Held(b1) == Held(b2)
  {
    forall k | 0 <= k < NBINS
      ensures Held(b1)[k] == Held(b2)[k]
    {
      forall a
        ensures a in Held(b1)[k] <==> a in Held(b2)[k]
      {
        BinHolds(t, b1, {0}, k, a);
        BinHolds(t, b2, {0}, k, a);
      }
    }
  }

  /** The blocks in use determine everything but the order of equal-sized free blocks: the
      free blocks are the maximal gaps, and each bin holds the gaps of its class. */
  lemma LiveDeterminesHeap(h1: Heap, h2: Heap)
    requires Ok(h1, 0) && Ok(h2, 0)
    requires h1.base == h2.base && h1.brk == h2.brk && Live(h1.tiles) == Live(h2.tiles)
    ensures h1.tiles == h2.tiles && Held(h1.bins) == Held(h2.bins)
  {
    TilesDetermined(h1, h2);
    HeldDetermined(h1.tiles, h1.bins, h2.bins);
  }

  // ---- frees commute ----

  ghost predicate CanFreeAll(h: Heap, ps: seq<int>) {
    && Ok(h, 0)
    && NoDup(ps)
    && forall i :: 0 <= i < |ps| ==> ps[i] in Live(h.tiles)
  }

  ghost function FreeAll(h: Heap, ps: seq<int>): Heap
    decreases |ps|
  {
    if ps == [] then h else FreeAll(Free(h, ps[0]), ps[1..])
  }

  lemma RemoveInTurn(m: map<int, int>, ps: seq<int>)
    requires ps != []
    ensures (m - {ps[0]}) - (set p | p in ps[1..]) == m - (set p | p in ps)
  {
    assert ps == [ps[0]] + ps[1..];
    assert (set p | p in ps) == {ps[0]} + (set p | p in ps[1..]);
  }

  lemma {:induction false} FreeAllOk(h: Heap, ps: seq<int>)
    requires CanFreeAll(h, ps)
    ensures
      var h' := FreeAll(h, ps);
      && Ok(h', 0) && h'.base == h.base && h'.brk == h.brk
      && Live(h'.tiles) == Live(h.tiles) - (set p | p in ps)
    decreases |ps|
  {
    if ps != [] {
      FreeOk(h, ps[0]);
      FreeAllOk(Free(h, ps[0]), ps[1..]);
      RemoveInTurn(Live(h.tiles), ps);
    }
  }

  /** Freeing the same blocks in any order gives the same blocks and the same bins, up to the
      order of equal sizes within a bin. */
  lemma FreesCommute(h: Heap, ps: seq<int>, qs: seq<int>)
    requires CanFreeAll(h, ps) && CanFreeAll(h, qs)
    requires (set p | p in ps) == (set q | q in qs)
    ensures FreeAll(h, ps).tiles == FreeAll(h, qs).tiles
    ensures Held(FreeAll(h, ps).bins) == Held(FreeAll(h, qs).bins)
  {
    FreeAllOk(h, ps);
    FreeAllOk(h, qs);
    LiveDeterminesHeap(FreeAll(h, ps), FreeAll(h, qs));
  }

  lemma FreeAllFirst(h: Heap, ps: seq<int>)
    requires ps != []
    ensures FreeAll(h, ps) == FreeAll(Free(h, ps[0]), ps[1..])
  {
  }

  lemma {:induction false} FreeAllAppend(h: Heap, ps: seq<int>, p: int)
    ensures FreeAll(h, ps + [p]) == Free(FreeAll(h, ps), p)
    decreases |ps|
  {
    var all := ps + [p];
    FreeAllFirst(h, all);
    if ps == [] {
      assert all[1..] == [];
    } else {
      var h1 := Free(h, ps[0]);
      FreeAllFirst(h, ps);
      FreeAllAppend(h1, ps[1..], p);
      assert all[1..] == ps[1..] + [p];
    }
  }
}
