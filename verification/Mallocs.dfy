/** find_fit, extend_heap, mm_init and mm_malloc on the abstract heap. */
module Mallocs {
  import opened Words
  import opened Tiles
  import opened Bins
  import opened Heaps
  import opened Memory

  // ---- size_t arithmetic ----

  /** The block size mm_malloc asks for, in 32-bit unsigned arithmetic. */
  function AdjustedSize(size: int): int {
    if size <= 8 then 2 * 8 else 8 * (((size + 8 + (8 - 1)) % TWO_32) / 8)
  }

  /** The bytes extend_heap asks for when mm_malloc needs asize: at least a page, an even
      number of double words, in 32-bit unsigned arithmetic. */
  function ExtendBytes(asize: int): int {
    EvenBytes((if asize > CHUNKSIZE then asize else CHUNKSIZE) / 8)
  }

  function EvenBytes(dwords: int): (r: int)
    ensures 0 <= r < TWO_32
  {
    (if dwords % 2 != 0 then (dwords + 1) * 8 else dwords * 8) % TWO_32
  }

  /** The conversion of a size_t to mem_sbrk's int parameter. */
  function AsInt32(w: int): int {
    if w >= TWO_31 then w - TWO_32 else w
  }

  /** It keeps the number below 2^31 and takes 2^32 from any other. */
  lemma AsInt32Is(w: int)
    requires 0 <= w < TWO_32
    ensures -TWO_31 <= AsInt32(w) < TWO_31 && (AsInt32(w) - w) % TWO_32 == 0
    ensures AsInt32(w) == w <==> w < TWO_31
  {
  }

  /** The largest request whose size computations do not wrap around. */
  const MAX_REQUEST: int := TWO_32 - 24

  /** The computed sizes cover the request, its header and its footer exactly when the
      request is at most MAX_REQUEST; beyond, one of the two computations wraps. */
  lemma SizesCoverIff(size: int)
    requires 0 < size < TWO_32
    ensures
      var asize := AdjustedSize(size);
      ExtendBytes(asize) >= asize >= size + 8 <==> size <= MAX_REQUEST
  {
    if size > 8 && size + 15 < TWO_32 {
      var d := (size + 15) / 8;
      assert AdjustedSize(size) == 8 * d;
    }
  }

  lemma SizesOf(size: int)
    requires 0 < size <= MAX_REQUEST
    ensures
      var asize := AdjustedSize(size);
      && asize % 8 == 0 && 16 <= asize && size + 8 <= asize <= size + 15
      && asize <= ExtendBytes(asize) && ExtendBytes(asize) % 16 == 0 && CHUNKSIZE <= ExtendBytes(asize)
  {
    if size > 8 {
      var d := (size + 15) / 8;
      assert AdjustedSize(size) == 8 * d;
    }
  }

  /** g is how far the heap has to grow for a request of size bytes: the least multiple of 16 that
      holds the request and its two tags, but no less than a page. */
  predicate Growth(size: int, g: int) {
    g % 16 == 0 && CHUNKSIZE <= g && size + 8 <= g && (g == CHUNKSIZE || g < size + 24)
  }

  lemma GrowthUnique(size: int, g: int, g': int)
    requires Growth(size, g) && Growth(size, g')
    ensures g == g'
  {
    assert g - g' == 16 * (g / 16 - g' / 16);
    assert -1 < g / 16 - g' / 16 < 1;
  }

  /** What extend_heap adds, in numbers. */
  lemma GrowthIs(size: int, g: int)
    requires 0 < size <= MAX_REQUEST
    ensures Growth(size, g) <==> g == ExtendBytes(AdjustedSize(size))
  {
    SizesOf(size);
    var asize := AdjustedSize(size);
    assert asize == 8 * (asize / 8);
    if Growth(size, g) {
      GrowthUnique(size, g, ExtendBytes(asize));
    }
  }

  // ---- find_fit ----

  /** The first block of b of at least s bytes, 0 if there is none. */
  function FirstFit(t: Tiling, b: seq<int>, s: int): int {
    var r := Rank(t, b, s);
    if r < |b| then b[r] else 0
  }

  /** find_fit from bin k on. */
  function FitFrom(t: Tiling, bins: Bins, k: nat, s: int): int
    requires k <= NBINS
    decreases NBINS - k
  {
    if k == NBINS then 0
    else if FirstFit(t, bins[k], s) != 0 then FirstFit(t, bins[k], s)
    else FitFrom(t, bins, k + 1, s)
  }

  function FindFit(t: Tiling, bins: Bins, s: int): int {
    FitFrom(t, bins, BinOf(s), s)
  }

  /** p is a free block of at least s bytes, and a smallest one. */
  ghost predicate SmallestFit(t: Tiling, p: int, s: int) {
    && IsFree(t, p)
    && s <= t[p].size
    && forall a :: IsFree(t, a) && s <= t[a].size ==> t[p].size <= t[a].size
  }

  lemma FirstFitIsSmallest(t: Tiling, bins: Bins, k: nat, s: int)
    requires BinsOk(t, bins, {0}) && k < NBINS
    ensures
      var p := FirstFit(t, bins[k], s);
      && (p != 0 ==> IsFree(t, p) && s <= t[p].size && BinOf(t[p].size) == k)
      && forall a :: IsFree(t, a) && a != 0 && s <= t[a].size && BinOf(t[a].size) == k ==>
           p != 0 && t[p].size <= t[a].size
  {
    var b := bins[k];
    var r := Rank(t, b, s);
    assert BinOk(t, b, k, {0});
    assert r < |b| ==> IsFree(t, b[r]) && b[r] !in {0};
    forall a | IsFree(t, a) && a != 0 && s <= t[a].size && BinOf(t[a].size) == k
      ensures r < |b| && t[b[r]].size <= t[a].size
    {
      assert InBin(t, bins, a);
      var i :| 0 <= i < |b| && b[i] == a;
    }
  }

  lemma {:induction false} FitFromIsSmallest(h: Heap, k: nat, s: int)
    requires Ok(h, 0) && k <= NBINS
    requires forall a :: IsFree(h.tiles, a) && s <= h.tiles[a].size ==> k <= BinOf(h.tiles[a].size)
    ensures
      var p := FitFrom(h.tiles, h.bins, k, s);
      if p == 0 then forall a :: IsFree(h.tiles, a) ==> h.tiles[a].size < s
      else SmallestFit(h.tiles, p, s)
    decreases NBINS - k
  {
    var t := h.tiles;
    if k == NBINS {
      assert forall a :: IsFree(t, a) ==> BinOf(t[a].size) < NBINS;
    } else {
      FirstFitIsSmallest(t, h.bins, k, s);
      if FirstFit(t, h.bins[k], s) == 0 {
        FitFromIsSmallest(h, k + 1, s);
      }
    }
  }

  /** find_fit returns a smallest free block that is large enough, and 0 exactly when no
      free block is. */
  lemma FindFitIsBestFit(h: Heap, s: int)
    requires Ok(h, 0)
    ensures
      var p := FindFit(h.tiles, h.bins, s);
      && (p == 0 <==> forall a :: IsFree(h.tiles, a) ==> h.tiles[a].size < s)
      && (p != 0 ==> SmallestFit(h.tiles, p, s))
  {
    forall a | IsFree(h.tiles, a) && s <= h.tiles[a].size
      ensures BinOf(s) <= BinOf(h.tiles[a].size)
    {
      BinOfMonotone(s, h.tiles[a].size);
    }
    FitFromIsSmallest(h, BinOf(s), s);
  }

  // ---- extend_heap, mm_init, mm_malloc ----

  /** mem_sbrk accepts the increment. */
  predicate Room(brk: int, limit: int, bytes: int) {
    !Refuses(brk, limit, AsInt32(bytes))
  }

  /** The increment fits below the limit. */
  predicate HasRoom(brk: int, limit: int, bytes: int) {
    0 <= AsInt32(bytes) && brk + AsInt32(bytes) <= limit
  }

  /** mm_init asks for one page. */
  lemma FirstPage(brk: int, limit: int)
    requires 0 <= brk && brk + CHUNKSIZE < TWO_32
    ensures EvenBytes(4096 / 8) == CHUNKSIZE && BlockSized(CHUNKSIZE)
    ensures Room(brk, limit, CHUNKSIZE) <==> brk + CHUNKSIZE <= limit
  {
  }

  /** The heap with a free block of bytes bytes appended, before it is coalesced. */
  function Appended(h: Heap, bytes: int): Heap {
    h.(brk := h.brk + bytes, tiles := h.tiles[h.brk := Block(bytes, false)])
  }

  ghost function Extend(h: Heap, bytes: int): Heap {
    Coalesce(Appended(h, bytes), h.brk)
  }

  /** The block extend_heap returns. */
  ghost function ExtendAt(h: Heap, bytes: int): int {
    MergedAt(Appended(h, bytes).tiles, h.brk)
  }

  lemma AppendReady(h: Heap, bytes: int)
    requires Ok(h, 0) && bytes % 8 == 0 && 16 <= bytes
    ensures Ok(Appended(h, bytes), h.brk) && IsFree(Appended(h, bytes).tiles, h.brk)
  {
    var t := h.tiles;
    var t1 := Appended(h, bytes).tiles;
    AppendTiled(t, h.Lo(), h.brk, bytes);
    BinsIgnore(t, t1, h.bins, {0}, {h.brk});
    forall a | IsFree(t1, a) && a != h.brk && Next(t1, a) != h.brk
      ensures !IsFree(t1, Next(t1, a))
    {
      assert Next(t1, a) == Next(t, a);
    }
  }

  /** The block extend_heap returns is free and holds at least the new bytes. */
  lemma ExtendFits(h: Heap, bytes: int)
    requires Ok(h, 0) && bytes % 8 == 0 && 16 <= bytes
    ensures
      var p := ExtendAt(h, bytes);
      var h' := Extend(h, bytes);
      Ok(h', 0) && IsFree(h'.tiles, p) && bytes <= h'.tiles[p].size
  {
    AppendReady(h, bytes);
    var h1 := Appended(h, bytes);
    CoalesceOk(h1, h.brk);
    MergedShape(h1.tiles, h1.Lo(), h1.brk, h.brk);
  }

  /** mm_init once its 14 words are reserved: no block yet. */
  function Empty(base: int): Heap {
    Heap(base, base + 56, map[], seq(NBINS, _ => []))
  }

  lemma EmptyOk(base: int)
    requires 0 < base && base % 8 == 0
    ensures Ok(Empty(base), 0)
  {
  }

  /** mm_malloc: the new heap and the payload address, 0 for NULL. */
  ghost function Malloc(h: Heap, limit: int, size: int): (Heap, int) {
    if size == 0 then (h, 0)
    else
      var asize := AdjustedSize(size);
      var p := FindFit(h.tiles, h.bins, asize);
      var bytes := ExtendBytes(asize);
      if p != 0 then (Place(h, p, asize), p)
      else if Room(h.brk, limit, bytes) then
        (Place(Extend(h, bytes), ExtendAt(h, bytes), asize), ExtendAt(h, bytes))
      else (h, 0)
  }

  /** Whether mm_malloc can serve the request: one that finds a free block must not have wrapped;
      one that finds none must not wrap in mem_sbrk, nor grow the heap if it has wrapped. */
  ghost predicate Servable(h: Heap, limit: int, size: int) {
    var asize := AdjustedSize(size);
    var bytes := ExtendBytes(asize);
    size == 0 ||
    if FindFit(h.tiles, h.bins, asize) != 0 then size <= MAX_REQUEST
    else NoWrap(h.brk, AsInt32(bytes)) && (size <= MAX_REQUEST || !Room(h.brk, limit, bytes))
  }

  /** Beyond MAX_REQUEST the block size is the largest, or wraps to nothing. */
  lemma SizesBeyond(size: int)
    requires MAX_REQUEST < size < TWO_32
    ensures AdjustedSize(size) == if size <= TWO_32 - 16 then TWO_32 - 8 else if size < TWO_32 - 7 then 0 else 8
    ensures ExtendBytes(AdjustedSize(size)) == if size <= TWO_32 - 16 then 0 else CHUNKSIZE
  {
    if size <= TWO_32 - 16 {
      assert (size + 15) / 8 == TWO_32 / 8 - 1;
    }
  }
}
