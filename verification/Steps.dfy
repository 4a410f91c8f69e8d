/** The words place, mm_free and extend_heap write before they call coalesce. */
module Steps {
  import opened Words
  import opened Tiles
  import opened Bins
  import opened Heaps
  import opened Mallocs
  import opened Memory
  import opened HeapTheorems
  import opened HeapWords
  import opened CoalesceWords
  import opened Folds

  /** Only words from the header of the block s up to its end e differ. */
  ghost predicate InsideOnly(m: Image, m': Image, s: int, e: int) {
    forall x {:trigger At(m', x)} :: x < s - 4 || e - 4 <= x ==> At(m', x) == At(m, x)
  }

  /** Rewriting the inside of one block that is in no list, as t' has it. */
  lemma RewrittenRep(m: Image, m': Image, h: Heap, x: set<int>, t': Tiling, s: int)
    requires 0 < h.base && h.base % 8 == 0
    requires Tiled(h.tiles, h.Lo(), h.brk) && BinsOk(h.tiles, h.bins, x) && Rep(m, h)
    requires s in h.tiles && (s in x || !IsFree(h.tiles, s))
    requires InsideOnly(m, m', s, Next(h.tiles, s))
    requires forall a :: a in t' && (a < s || Next(h.tiles, s) <= a) ==> a in h.tiles && t'[a] == h.tiles[a]
    requires forall a :: a in t' && s <= a < Next(h.tiles, s) ==> TagOk(m', a, t'[a])
    ensures Rep(m', h.(tiles := t'))
  {
    assert TagsOk(m', t') by {
      RewrittenTags(m, m', h, t', s);
    }
    forall k | 0 <= k < NBINS
      ensures ChainOk(m', Root(h.base, k), h.bins[k])
    {
      RewrittenChain(m, m', h, x, s, k);
    }
  }

  lemma RewrittenTags(m: Image, m': Image, h: Heap, t': Tiling, s: int)
    requires Tiled(h.tiles, h.Lo(), h.brk) && Rep(m, h) && s in h.tiles
    requires InsideOnly(m, m', s, Next(h.tiles, s))
    requires forall a :: a in t' && (a < s || Next(h.tiles, s) <= a) ==> a in h.tiles && t'[a] == h.tiles[a]
    requires forall a :: a in t' && s <= a < Next(h.tiles, s) ==> TagOk(m', a, t'[a])
    ensures TagsOk(m', t')
  {
    forall a | a in t'
      ensures TagOk(m', a, t'[a])
    {
      if a < s || Next(h.tiles, s) <= a {
        assert TagOk(m, a, h.tiles[a]);
      }
    }
  }

  lemma RewrittenChain(m: Image, m': Image, h: Heap, x: set<int>, s: int, k: nat)
    requires Tiled(h.tiles, h.Lo(), h.brk) && BinsOk(h.tiles, h.bins, x) && Rep(m, h)
    requires s in h.tiles && (s in x || !IsFree(h.tiles, s)) && k < NBINS
    requires InsideOnly(m, m', s, Next(h.tiles, s))
    ensures ChainOk(m', Root(h.base, k), h.bins[k])
  {
    var b := h.bins[k];
    assert ChainOk(m, Root(h.base, k), b) && BinOk(h.tiles, b, k, x);
    forall i | 0 <= i < |b|
      ensures LinkOk(m', b, i)
    {
      assert LinkOk(m, b, i);
      assert b[i] in h.tiles && b[i] != s;
    }
  }

  /** The payloads of the blocks in use in t survive. */
  ghost predicate Kept(m: Image, m': Image, t: Tiling) {
    forall i {:trigger Unfold(i)} :: Unfold(i) ==> PayloadsKept(m, m', t)
  }

  lemma InsideKeeps(m: Image, m': Image, t: Tiling, lo: int, hi: int, s: int)
    requires Tiled(t, lo, hi) && s in t && InsideOnly(m, m', s, Next(t, s))
    ensures PayloadsKept(m, m', t[s := Block(t[s].size, false)])
  {
  }

  /** The link words of p set to NULL. */
  function Cleared(m: Image, p: int): Image {
    m[p + 4 := 0][p := 0]
  }

  // ---- mm_free ----

  /** mm_free's block marked free, not yet coalesced. */
  function Unmarked(h: Heap, p: int): Heap {
    h.(tiles := h.tiles[p := Block(SizeAt(h.tiles, p), false)])
  }

  function UnmarkedWords(m: Image, p: int, size: int): Image
    requires 0 <= size < TWO_32 && BlockSized(size)
  {
    Cleared(Tagged(m, p, p + size, false), p)
  }

  lemma UnmarkedDone(m: Image, h: Heap, p: int)
    requires Whole(m, h, 0) && IsLive(h.tiles, p) && h.brk <= TWO_32
    ensures
      var size := h.tiles[p].size;
      && 16 <= size < TWO_32 && BlockSized(size)
      && Whole(UnmarkedWords(m, p, size), Unmarked(h, p), p)
      && Kept(m, UnmarkedWords(m, p, size), Unmarked(h, p).tiles)
  {
    assert Ok(h, 0) && Rep(m, h) by {
      assert Unfold(0);
    }
    var h1 := Unmarked(h, p);
    var m1 := UnmarkedWords(m, p, h.tiles[p].size);
    FreeReady(h, p);
    assert TagOk(m1, p, h1.tiles[p]);
    RewrittenRep(m, m1, h, {0}, h1.tiles, p);
    InsideKeeps(m, m1, h.tiles, h.Lo(), h.brk, p);
  }

  // ---- place ----

  /** place without a split: only the tags change. */
  lemma WholeTaken(m: Image, m1: Image, h: Heap, h1: Heap, p: int) returns (h': Heap)
    requires Whole(m, h, 0) && IsFree(h.tiles, p) && h.brk <= TWO_32
    requires Removed(m, m1, h, h1, p) && Laid(m1, h1, {0} + {p})
    ensures
      var size := h.tiles[p].size;
      && 16 <= size < TWO_32 && BlockSized(size)
      && h' == h1.(tiles := h.tiles[p := Block(size, true)])
      && Whole(Tagged(m1, p, p + size, true), h', 0)
      && Kept(m, Tagged(m1, p, p + size, true), h.tiles)
  {
    assert Ok(h, 0) && Rep(m, h) by {
      assert Unfold(0);
    }
    RemovedIs(m, m1, h, h1, p);
    var size := h.tiles[p].size;
    h' := h1.(tiles := h.tiles[p := Block(size, true)]);
    var m2 := Tagged(m1, p, p + size, true);
    WholeTakenRep(m1, m2, h1, p);
    PlaceWholeOk(h, p);
    KeptInsideFree(m, m1, m2, h, p);
  }

  /** Rep, folded. */
  ghost predicate Represents(m: Image, h: Heap) {
    forall i {:trigger Unfold(i)} :: Unfold(i) ==> Rep(m, h)
  }

  lemma WholeTakenRep(m1: Image, m2: Image, h1: Heap, p: int)
    requires Laid(m1, h1, {0} + {p}) && IsFree(h1.tiles, p) && h1.tiles[p].size < TWO_32 && 16 <= h1.tiles[p].size
    requires BlockSized(h1.tiles[p].size) && m2 == Tagged(m1, p, p + h1.tiles[p].size, true)
    ensures Represents(m2, h1.(tiles := h1.tiles[p := Block(h1.tiles[p].size, true)]))
    ensures InsideOnly(m1, m2, p, Next(h1.tiles, p))
  {
    assert Unfold(0);
    var t' := h1.tiles[p := Block(h1.tiles[p].size, true)];
    assert TagOk(m2, p, t'[p]);
    RewrittenRep(m1, m2, h1, {0} + {p}, t', p);
  }

  /** Unlinking free blocks and rewriting one of them touches no payload. */
  lemma KeptInsideFree(m: Image, m1: Image, m2: Image, h: Heap, p: int)
    requires Ok(h, 0) && IsFree(h.tiles, p)
    requires FreeFrame(m, m1, h.base, h.tiles) && InsideOnly(m1, m2, p, Next(h.tiles, p))
    ensures Kept(m, m2, h.tiles)
  {
    var t := h.tiles;
    forall a, x | IsLive(t, a) && a <= x < a + t[a].size - 8
      ensures At(m2, x) == At(m, x)
    {
      assert At(m2, x) == At(m1, x);
      assert At(m1, x) == At(m, x);
    }
  }

  function SplitWords(m: Image, p: int, asize: int, csize: int): Image
    requires 0 <= asize < TWO_32 && BlockSized(asize)
    requires 0 <= csize - asize < TWO_32 && BlockSized(csize - asize)
  {
    Cleared(Tagged(Tagged(m, p, p + asize, true), p + asize, p + csize, false), p + asize)
  }

  lemma SplitInside(t: Tiling, lo: int, hi: int, p: int, asize: int)
    requires Tiled(t, lo, hi) && p in t && 16 <= asize <= t[p].size - 16
    ensures forall a :: a in Split(t, p, asize) && p <= a < Next(t, p) ==> a == p || a == p + asize
  {
  }

  /** The tags of the two halves are in place. */
  lemma SplitTags(m1: Image, m2: Image, p: int, asize: int, csize: int)
    requires BlockSized(asize) && BlockSized(csize - asize) && 16 <= asize <= csize - 16 && csize < TWO_32
    requires p % 8 == 0 && m2 == SplitWords(m1, p, asize, csize)
    ensures TagOk(m2, p, Block(asize, true)) && TagOk(m2, p + asize, Block(csize - asize, false))
    ensures InsideOnly(m1, m2, p, p + csize)
  {
    assert Unfold(0);
  }

  lemma SplitTakenRep(m1: Image, m2: Image, h1: Heap, p: int, asize: int, csize: int)
    requires Laid(m1, h1, {0} + {p}) && IsFree(h1.tiles, p) && csize == h1.tiles[p].size < TWO_32
    requires BlockSized(asize) && BlockSized(csize - asize) && 16 <= asize <= csize - 16
    requires m2 == SplitWords(m1, p, asize, csize)
    ensures Represents(m2, h1.(tiles := Split(h1.tiles, p, asize)))
    ensures InsideOnly(m1, m2, p, Next(h1.tiles, p))
  {
    assert Unfold(0);
    var t' := Split(h1.tiles, p, asize);
    SplitTiled(h1.tiles, h1.Lo(), h1.brk, p, asize);
    SplitTags(m1, m2, p, asize, csize);
    SplitInside(h1.tiles, h1.Lo(), h1.brk, p, asize);
    RewrittenRep(m1, m2, h1, {0} + {p}, t', p);
  }

  /** place with a split, up to the coalesce of the rest. */
  lemma SplitTaken(m: Image, m1: Image, h: Heap, h1: Heap, p: int, asize: int) returns (h2: Heap)
    requires Whole(m, h, 0) && IsFree(h.tiles, p) && h.brk <= TWO_32
    requires Removed(m, m1, h, h1, p) && Laid(m1, h1, {0} + {p})
    requires BlockSized(asize) && 16 <= asize && Splits(h.tiles[p].size, asize)
    ensures
      var csize := h.tiles[p].size;
      && csize < TWO_32 && BlockSized(csize - asize)
      && h2 == h1.(tiles := Split(h.tiles, p, asize))
      && IsFree(h2.tiles, p + asize)
      && Whole(SplitWords(m1, p, asize, csize), h2, p + asize)
      && Kept(m, SplitWords(m1, p, asize, csize), h.tiles)
  {
    assert Ok(h, 0) && Rep(m, h) by {
      assert Unfold(0);
    }
    RemovedIs(m, m1, h, h1, p);
    assert asize % 8 == 0 by {
      assert Unfold(0);
    }
    var csize := h.tiles[p].size;
    SizedDifference(csize, asize);
    h2 := h1.(tiles := Split(h.tiles, p, asize));
    var m2 := SplitWords(m1, p, asize, csize);
    SplitTakenRep(m1, m2, h1, p, asize, csize);
    SplitReady(h, p, asize);
    KeptInsideFree(m, m1, m2, h, p);
  }

  /** place's outcome. */
  ghost predicate Placed(h: Heap, h': Heap, p: int, asize: int) {
    forall i {:trigger Unfold(i)} :: Unfold(i) ==> h' == Place(h, p, asize)
  }

  /** The blocks in use do not notice the cut. */
  lemma SplitSpares(t: Tiling, p: int, asize: int)
    requires IsFree(t, p) && p + asize !in t
    ensures
      var t' := Split(t, p, asize);
      forall a {:trigger IsLive(t, a)} :: IsLive(t, a) ==> IsLive(t', a) && t'[a] == t[a]
  {
  }

  lemma PlacedSplitKept(m: Image, m2: Image, m3: Image, h: Heap, h2: Heap, h': Heap, p: int, asize: int, r: int)
    requires IsFree(h.tiles, p) && p + asize !in h.tiles && h2.tiles == Split(h.tiles, p, asize)
    requires Whole(m2, h2, p + asize) && Coalesced(m2, m3, h2, h', p + asize, r) && Kept(m, m2, h.tiles)
    ensures Kept(m, m3, h.tiles)
  {
    CoalesceKept(m2, m3, h2, h', p + asize, r);
    SplitSpares(h.tiles, p, asize);
    KeptThrough(m, m2, m3, h.tiles, h2.tiles);
  }

  lemma PlacedSplit(m: Image, m1: Image, m2: Image, m3: Image, h: Heap, h1: Heap, h2: Heap, h': Heap, p: int,
                    asize: int, r: int)
    requires IsFree(h.tiles, p) && Splits(h.tiles[p].size, asize)
    requires Removed(m, m1, h, h1, p) && h2 == h1.(tiles := Split(h.tiles, p, asize))
    requires Whole(m2, h2, p + asize) && Coalesced(m2, m3, h2, h', p + asize, r)
    requires Kept(m, m2, h.tiles) && Whole(m, h, 0) && BlockSized(asize) && 16 <= asize
    ensures Placed(h, h', p, asize)
    ensures Kept(m, m3, h.tiles)
  {
    assert p + asize !in h.tiles by {
      assert Unfold(0);
      SplitTiled(h.tiles, h.Lo(), h.brk, p, asize);
    }
    RemovedIs(m, m1, h, h1, p);
    CoalescedIs(m2, m3, h2, h', p + asize, r);
    PlacedSplitKept(m, m2, m3, h, h2, h', p, asize, r);
  }

  lemma CoalesceKept(m: Image, m': Image, h: Heap, h': Heap, p: int, r: int)
    requires Whole(m, h, p) && IsFree(h.tiles, p) && Coalesced(m, m', h, h', p, r)
    ensures Kept(m, m', h.tiles)
  {
    assert Unfold(0);
    CoalesceKeeps(m, m', h, p);
  }

  /** Payloads survive two steps when the blocks in use survive the first. */
  lemma KeptThrough(m: Image, m1: Image, m2: Image, t: Tiling, t1: Tiling)
    requires Kept(m, m1, t) && Kept(m1, m2, t1)
    requires forall a {:trigger IsLive(t, a)} :: IsLive(t, a) ==> IsLive(t1, a) && t1[a] == t[a]
    ensures Kept(m, m2, t)
  {
    assert Unfold(0);
    forall a, x | IsLive(t, a) && a <= x < a + t[a].size - 8
      ensures At(m2, x) == At(m, x)
    {
      assert IsLive(t1, a);
      assert At(m2, x) == At(m1, x);
      assert At(m1, x) == At(m, x);
    }
  }

  /** coalesce touches no payload of a block in use. */
  lemma CoalesceKeeps(m: Image, m': Image, h: Heap, p: int)
    requires Ok(h, p) && p in h.tiles && IsFree(h.tiles, p) && CoalesceFrame(m, m', h, p)
    ensures PayloadsKept(m, m', h.tiles)
  {
    var t := h.tiles;
    MergedShape(t, h.Lo(), h.brk, p);
    forall a, x | IsLive(t, a) && a <= x < a + t[a].size - 8
      ensures At(m', x) == At(m, x)
    {
      var s, e := MergedAt(t, p), MergedEnd(t, p);
      assert a < s || e <= a;
      assert a < s ==> a + t[a].size <= s;
    }
  }

  // ---- extend_heap ----

  function EpilogueAt(m: Image, p: int): Image {
    m[p := Pack(0, true)]
  }

  function ExtendedWords(m: Image, p: int, size: int): Image
    requires 0 <= size < TWO_32 && BlockSized(size)
  {
    EpilogueAt(Cleared(Tagged(m, p, p + size, false), p), p + size - 4)
  }

  /** The words extend_heap writes lie below the new break. */
  lemma BreakCells(m: Image, h: Heap, size: int)
    requires Whole(m, h, 0) && 16 <= size && BlockSized(size)
    ensures
      var h1 := Appended(h, size);
      && IsCell(h1, h.brk - 4) && IsCell(h1, h.brk) && IsCell(h1, h.brk + 4)
      && IsCell(h1, h.brk + size - 8) && IsCell(h1, h.brk + size - 4)
      && 0 < h.base
  {
    assert h.brk % 8 == 0 && size % 8 == 0 && h.Lo() <= h.brk && 0 < h.base by {
      assert Unfold(0);
    }
    AlignedAround(h.brk);
    AlignedAround(h.brk + size);
  }

  lemma AlignedWords(p: int)
    requires p % 8 == 0
    ensures WordAligned(p) && WordAligned(p + 4) && WordAligned(p + 8) && WordAligned(p + 12) && WordAligned(p + 16)
    ensures WordAligned(p + 20) && WordAligned(p + 24) && WordAligned(p + 28) && WordAligned(p + 32)
    ensures WordAligned(p + 36)
    ensures WordAligned(p + 40) && WordAligned(p + 44) && WordAligned(p + 48) && WordAligned(p + 52)
  {
    forall j: int
      ensures WordAligned(p + 4 * j)
    {
      WordsAway(p, j);
    }
    assert WordAligned(p + 4 * 0) && WordAligned(p + 4 * 1) && WordAligned(p + 4 * 2) && WordAligned(p + 4 * 3);
    assert WordAligned(p + 4 * 4) && WordAligned(p + 4 * 5) && WordAligned(p + 4 * 6) && WordAligned(p + 4 * 7);
    assert WordAligned(p + 4 * 8) && WordAligned(p + 4 * 9) && WordAligned(p + 4 * 10) && WordAligned(p + 4 * 11);
    assert WordAligned(p + 4 * 12) && WordAligned(p + 4 * 13);
  }

  /** Where the rest of a split block starts. */
  lemma SplitAligned(bp: int, asize: int)
    requires WordAligned(bp - 4) && BlockSized(asize)
    ensures WordAligned(bp + asize - 8) && WordAligned(bp + asize - 4) && WordAligned(bp + asize)
    ensures WordAligned(bp + asize + 4)
  {
    assert Unfold(0);
    var k := (bp - 4) / 4 + 2 * (asize / 8);
    MultipleAligned(k - 1, bp + asize - 8);
    MultipleAligned(k, bp + asize - 4);
    MultipleAligned(k + 1, bp + asize);
    MultipleAligned(k + 2, bp + asize + 4);
  }

  /** The new block lies beyond every old word but the old epilogue. */
  lemma ExtendedDone(m: Image, h: Heap, size: int)
    requires Whole(m, h, 0) && 16 <= size && BlockSized(size) && h.brk + size <= TWO_32
    ensures size < TWO_32
    ensures Whole(ExtendedWords(m, h.brk, size), Appended(h, size), h.brk)
    ensures IsFree(Appended(h, size).tiles, h.brk)
    ensures Kept(m, ExtendedWords(m, h.brk, size), h.tiles)
  {
    assert Unfold(0);
    var m1 := ExtendedWords(m, h.brk, size);
    ExtendedRep(m, m1, h, size);
    AppendReady(h, size);
  }

  lemma ExtendedRep(m: Image, m1: Image, h: Heap, size: int)
    requires Ok(h, 0) && Rep(m, h) && 16 <= size < TWO_32 && BlockSized(size)
    requires m1 == ExtendedWords(m, h.brk, size)
    ensures Rep(m1, Appended(h, size))
    ensures PayloadsKept(m, m1, h.tiles)
  {
    assert Unfold(0);
    var h1 := Appended(h, size);
    assert forall x {:trigger At(m1, x)} :: x < h.brk - 4 ==> At(m1, x) == At(m, x);
    assert TagOk(m1, h.brk, h1.tiles[h.brk]);
    forall a | a in h1.tiles
      ensures TagOk(m1, a, h1.tiles[a])
    {
      if a != h.brk {
        assert TagOk(m, a, h.tiles[a]);
      }
    }
    forall k | 0 <= k < NBINS
      ensures ChainOk(m1, Root(h.base, k), h.bins[k])
    {
      ExtendedChain(m, m1, h, k);
    }
  }

  lemma ExtendedChain(m: Image, m': Image, h: Heap, k: nat)
    requires Ok(h, 0) && Rep(m, h) && k < NBINS
    requires forall x {:trigger At(m', x)} :: x < h.brk - 4 ==> At(m', x) == At(m, x)
    ensures ChainOk(m', Root(h.base, k), h.bins[k])
  {
    var b := h.bins[k];
    assert ChainOk(m, Root(h.base, k), b) && BinOk(h.tiles, b, k, {0});
    forall i | 0 <= i < |b|
      ensures LinkOk(m', b, i)
    {
      assert LinkOk(m, b, i);
      assert b[i] in h.tiles;
    }
  }

  /** extend_heap's outcome. */
  ghost predicate Grown(h: Heap, h': Heap, bytes: int, r: int) {
    forall i {:trigger Unfold(i)} :: Unfold(i) ==> h' == Extend(h, bytes) && r == ExtendAt(h, bytes)
  }

  lemma GrownIs(h: Heap, h': Heap, bytes: int, r: int)
    requires Grown(h, h', bytes, r)
    ensures h' == Extend(h, bytes) && r == ExtendAt(h, bytes)
  {
    assert Unfold(0);
  }

  lemma GrownDone(m: Image, m1: Image, m2: Image, h: Heap, h': Heap, bytes: int, r: int)
    requires Whole(m, h, 0) && BlockSized(bytes) && 16 <= bytes
    requires Kept(m, m1, h.tiles) && Whole(m1, Appended(h, bytes), h.brk)
    requires Coalesced(m1, m2, Appended(h, bytes), h', h.brk, r)
    ensures Grown(h, h', bytes, r) && Kept(m, m2, h.tiles)
    ensures IsFree(h'.tiles, r) && bytes <= h'.tiles[r].size && r != 0 && h'.brk == h.brk + bytes
  {
    assert Unfold(0);
    var h1 := Appended(h, bytes);
    AppendReady(h, bytes);
    ExtendFits(h, bytes);
    ExtendKeepsLive(h, bytes);
    CoalesceKept(m1, m2, h1, h', h.brk, r);
    KeptThrough(m, m1, m2, h.tiles, h1.tiles);
  }

  // ---- mm_init ----

  /** Ten empty roots. */
  function RootWords(m: Image, p: int): Image {
    m[p := 0][p + 4 := 0][p + 8 := 0][p + 12 := 0][p + 16 := 0]
     [p + 20 := 0][p + 24 := 0][p + 28 := 0][p + 32 := 0][p + 36 := 0]
  }

  /** Padding, prologue and epilogue. */
  function FenceWords(m: Image, p: int): Image {
    assert Unfold(0);
    m[p + 40 := 0][p + 44 := Pack(8, true)][p + 48 := Pack(8, true)][p + 52 := Pack(0, true)]
  }

  /** The 14 words mm_init writes. */
  function InitWords(m: Image, base: int): Image {
    FenceWords(RootWords(m, base), base)
  }

  lemma InitDone(m: Image, base: int)
    requires 0 < base && base % 8 == 0
    ensures Whole(InitWords(m, base), Empty(base), 0)
  {
    var m' := InitWords(m, base);
    EmptyOk(base);
    forall k | 0 <= k < NBINS
      ensures ChainOk(m', Root(base, k), Empty(base).bins[k])
    {
    }
  }

  // ---- find_fit ----

  /** p is what find_fit finds from bin k on. */
  ghost predicate FitFound(h: Heap, k: nat, size: int, p: int) {
    forall i {:trigger Unfold(i)} :: Unfold(i) ==> k <= NBINS && p == FitFrom(h.tiles, h.bins, k, size)
  }

  /** p is the first block of bin k of at least size bytes, 0 if there is none. */
  ghost predicate FirstFound(h: Heap, k: nat, size: int, p: int) {
    forall i {:trigger Unfold(i)} :: Unfold(i) ==> k < NBINS && p == FirstFit(h.tiles, h.bins[k], size)
  }

  /** Nothing was found in the bins from k0 up to k. */
  ghost predicate NotFoundBefore(h: Heap, k0: nat, k: nat, size: int) {
    forall i {:trigger Unfold(i)} :: Unfold(i) ==>
      && k0 <= k <= NBINS
      && FitFrom(h.tiles, h.bins, k0, size) == FitFrom(h.tiles, h.bins, k, size)
  }

  /** What mm_malloc needs to know of find_fit's answer. */
  lemma FitUsable(m: Image, h: Heap, size: int, p: int)
    requires Whole(m, h, 0) && FitFound(h, BinOf(size), size, p)
    ensures p != 0 ==> IsFree(h.tiles, p) && size <= h.tiles[p].size
  {
    assert Unfold(0);
    FindFitIsBestFit(h, size);
  }

  // ---- mm_malloc ----

  lemma RequestSizes(size: int)
    requires 0 < size <= MAX_REQUEST
    ensures
      var asize := AdjustedSize(size);
      var bytes := ExtendBytes(asize);
      && BlockSized(asize) && 16 <= asize < TWO_32
      && BlockSized(bytes) && 16 <= bytes < TWO_32 && asize <= bytes
  {
    SizesOf(size);
  }

  /** What mm_malloc asks extend_heap for when it can serve the request without a fit. */
  lemma GrowSizes(h: Heap, limit: int, size: int)
    requires 0 < size < TWO_32 && h.brk <= limit
    requires FitFound(h, BinOf(AdjustedSize(size)), AdjustedSize(size), 0) && Servable(h, limit, size)
    ensures
      var asize := AdjustedSize(size);
      var bytes := ExtendBytes(asize);
      && NoWrap(h.brk, AsInt32(bytes)) && BlockSized(bytes) && 16 <= bytes < TWO_32
      && (Room(h.brk, limit, bytes) ==> size <= MAX_REQUEST && BlockSized(asize) && 16 <= asize <= bytes)
  {
    assert Unfold(0);
    if size <= MAX_REQUEST {
      RequestSizes(size);
    } else {
      SizesBeyond(size);
    }
  }

  /** What mm_malloc asks place for when it can serve the request with a fit. */
  lemma FitSizes(h: Heap, limit: int, size: int, p: int)
    requires 0 < size && p != 0
    requires FitFound(h, BinOf(AdjustedSize(size)), AdjustedSize(size), p) && Servable(h, limit, size)
    ensures size <= MAX_REQUEST && BlockSized(AdjustedSize(size)) && 16 <= AdjustedSize(size)
  {
    assert Unfold(0);
    RequestSizes(size);
  }

  /** mm_malloc's outcome. */
  ghost predicate Malloced(h: Heap, h': Heap, limit: int, size: int, p: int) {
    forall i {:trigger Unfold(i)} :: Unfold(i) ==> (h', p) == Malloc(h, limit, size)
  }

  /** Payloads survive extend_heap and then place. */
  lemma KeptGrown(m: Image, m1: Image, m2: Image, h: Heap, h1: Heap, bytes: int, r: int)
    requires Whole(m, h, 0) && BlockSized(bytes) && 16 <= bytes
    requires Grown(h, h1, bytes, r) && Kept(m, m1, h.tiles) && Kept(m1, m2, h1.tiles)
    ensures Kept(m, m2, h.tiles)
  {
    assert forall a :: IsLive(h.tiles, a) ==> IsLive(h1.tiles, a) && h1.tiles[a] == h.tiles[a] by {
      assert Unfold(0);
      ExtendKeepsLive(h, bytes);
      LiveMeans(h.tiles);
      LiveMeans(h1.tiles);
      NoNewSizes(h, h1);
    }
    KeptThrough(m, m1, m2, h.tiles, h1.tiles);
  }

  lemma LiveMeans(t: Tiling)
    ensures forall a {:trigger IsLive(t, a)} {:trigger a in Live(t)} :: IsLive(t, a) <==> a in Live(t)
  {
  }

  lemma NoNewSizes(h: Heap, h1: Heap)
    requires Live(h.tiles) == Live(h1.tiles)
    ensures forall a {:trigger IsLive(h.tiles, a)} ::
              IsLive(h.tiles, a) ==> IsLive(h1.tiles, a) && h1.tiles[a] == h.tiles[a]
  {
    forall a | IsLive(h.tiles, a)
      ensures IsLive(h1.tiles, a) && h1.tiles[a] == h.tiles[a]
    {
      assert a in Live(h.tiles) && Live(h.tiles)[a] == h.tiles[a].size;
      assert a in Live(h1.tiles) && Live(h1.tiles)[a] == h1.tiles[a].size;
    }
  }

  // ---- mm_exit ----

  /** q lies inside the free block f, merged over it, where a header of a block that used to be
      there still says: free, and f's end is next. */
  ghost predicate StaleAt(m: Image, h: Heap, f: int, q: int) {
    && IsFree(h.tiles, f)
    && f < q < Next(h.tiles, f)
    && AllocField(At(m, q - 4)) == 0
    && q + SizeField(At(m, q - 4)) == Next(h.tiles, f)
  }

  /** Where mm_exit's cursor may stand: at a block, at the break, or at a stale header. */
  ghost predicate Cursor(m: Image, h: Heap, q: int) {
    q == h.brk || q in h.tiles || exists f :: StaleAt(m, h, f, q)
  }

  /** After the block p was freed, the word at its header, stale or not, leads the cursor on,
      past no block in use. */
  ghost predicate LedOn(m: Image, h: Heap, p: int) {
    forall i {:trigger Unfold(i)} :: Unfold(i) ==>
      var q := p + SizeField(At(m, p - 4));
      && p < q && Cursor(m, h, q)
      && forall a :: IsLive(h.tiles, a) && p < a ==> q <= a
  }

  /** A header inside the merged block is as coalesce found it. */
  lemma StaleHeader(m: Image, m': Image, h: Heap, p: int, a: int)
    requires Ok(h, p) && IsFree(h.tiles, p) && CoalesceFrame(m, m', h, p) && TagsOk(m, h.tiles)
    requires a in h.tiles && MergedAt(h.tiles, p) < a < MergedEnd(h.tiles, p)
    ensures At(m', a - 4) == At(m, a - 4)
  {
    var t := h.tiles;
    MergedShape(t, h.Lo(), h.brk, p);
    var s := MergedAt(t, p);
    assert s in t && s + t[s].size <= a;
    assert !IsFree(t, a - 8);
    assert a % 8 == 0 && MergedEnd(t, p) % 8 == 0;
  }

  /** Where the cursor lands when the freed block was merged into the one before it. */
  lemma LandsStale(m: Image, m': Image, h: Heap, h': Heap, p: int)
    requires Ok(h, p) && IsFree(h.tiles, p) && TagsOk(m, h.tiles) && CoalesceFrame(m, m', h, p)
    requires PrevFree(h.tiles, p) && h'.brk == h.brk && h'.tiles == MergedTiles(h.tiles, p)
    ensures p + SizeField(At(m', p - 4)) == Next(h.tiles, p) && Cursor(m', h', Next(h.tiles, p))
  {
    var t := h.tiles;
    var n := Next(t, p);
    MergedShape(t, h.Lo(), h.brk, p);
    StaleHeader(m, m', h, p, p);
    TagSizes(m, t, p);
    if NextFree(t, p) {
      StaleHeader(m, m', h, p, n);
      TagSizes(m, t, n);
      assert StaleAt(m', h', MergedAt(t, p), n);
    } else {
      assert n == h.brk || n in t;
    }
  }

  /** And where it lands otherwise. */
  lemma LandsNext(m': Image, h: Heap, h': Heap, p: int)
    requires Ok(h, p) && IsFree(h.tiles, p) && h'.tiles == MergedTiles(h.tiles, p) && TagsOk(m', h'.tiles)
    requires !PrevFree(h.tiles, p) && h'.brk == h.brk
    ensures
      var q := p + SizeField(At(m', p - 4));
      p < q && q == MergedEnd(h.tiles, p) && (q == h.brk || q in h'.tiles)
  {
    MergedTiled(h.tiles, h.Lo(), h.brk, p);
    TagSizes(m', h'.tiles, p);
    assert Next(h'.tiles, p) == MergedEnd(h.tiles, p);
  }

  lemma Led(m: Image, m': Image, h: Heap, h': Heap, p: int)
    requires Ok(h, p) && IsFree(h.tiles, p) && TagsOk(m, h.tiles) && CoalesceFrame(m, m', h, p)
    requires h'.brk == h.brk && h'.tiles == MergedTiles(h.tiles, p) && TagsOk(m', h'.tiles)
    ensures
      var q := p + SizeField(At(m', p - 4));
      p < q && Cursor(m', h', q) && forall a :: IsLive(h'.tiles, a) && p < a ==> q <= a
  {
    if PrevFree(h.tiles, p) {
      LandsStale(m, m', h, h', p);
      MergedShape(h.tiles, h.Lo(), h.brk, p);
    } else {
      LandsNext(m', h, h', p);
    }
  }

  lemma LedOnDone(m: Image, m': Image, h: Heap, h': Heap, p: int, r: int)
    requires Whole(m, h, p) && IsFree(h.tiles, p) && Coalesced(m, m', h, h', p, r) && Whole(m', h', 0)
    ensures LedOn(m', h', p)
  {
    assert Unfold(0);
    Led(m, m', h, h', p);
  }

  /** The cursor's next position, from a free block or a stale header. */
  lemma CursorMoves(m: Image, h: Heap, p: int)
    requires Whole(m, h, 0) && Cursor(m, h, p) && p != h.brk && !IsLive(h.tiles, p)
    ensures LedOn(m, h, p)
    ensures IsCell(h, p - 4) && AllocField(At(m, p - 4)) == 0
  {
    assert Unfold(0);
    if p in h.tiles {
      MovesFromBlock(m, h, p);
    } else {
      var f :| StaleAt(m, h, f, p);
      MovesFromStale(m, h, f, p);
    }
  }

  lemma MovesFromBlock(m: Image, h: Heap, p: int)
    requires Ok(h, 0) && TagsOk(m, h.tiles) && IsFree(h.tiles, p)
    ensures
      var q := p + SizeField(At(m, p - 4));
      && p < q && Cursor(m, h, q) && (forall a :: IsLive(h.tiles, a) && p < a ==> q <= a)
      && IsCell(h, p - 4) && AllocField(At(m, p - 4)) == 0
  {
    BlockCells(h, p);
    TagSizes(m, h.tiles, p);
    assert Next(h.tiles, p) == h.brk || Next(h.tiles, p) in h.tiles;
  }

  lemma EightBefore(p: int, size: int, next: int)
    requires size % 8 == 0 && next % 8 == 0 && p + size == next
    ensures p % 8 == 0
  {
    assert p == 8 * (next / 8 - size / 8);
  }

  lemma MovesFromStale(m: Image, h: Heap, f: int, p: int)
    requires Ok(h, 0) && StaleAt(m, h, f, p)
    ensures
      var q := p + SizeField(At(m, p - 4));
      && p < q && Cursor(m, h, q) && (forall a :: IsLive(h.tiles, a) && p < a ==> q <= a)
      && IsCell(h, p - 4)
  {
    BlockCells(h, f);
    assert Next(h.tiles, f) == h.brk || Next(h.tiles, f) in h.tiles;
    assert Next(h.tiles, f) % 8 == 0;
    EightBefore(p, SizeField(At(m, p - 4)), Next(h.tiles, f));
    AlignedAround(p);
  }

  // ---- mm_free ----

  /** mm_free's outcome. */
  ghost predicate FreedTo(h: Heap, h': Heap, p: int) {
    forall i {:trigger Unfold(i)} :: Unfold(i) ==> h' == Free(h, p)
  }

  lemma FreedDone(m: Image, m1: Image, m2: Image, h: Heap, h1: Heap, h': Heap, p: int, r: int)
    requires Whole(m, h, 0) && IsLive(h.tiles, p) && h1 == Unmarked(h, p)
    requires Whole(m1, h1, p) && Kept(m, m1, h1.tiles)
    requires Coalesced(m1, m2, h1, h', p, r) && Whole(m2, h', 0)
    ensures FreedTo(h, h', p) && LedOn(m2, h', p)
    ensures Kept(m, m2, h'.tiles)
    ensures Live(h'.tiles) == Live(h.tiles) - {p}
    ensures h'.brk == h.brk && h'.base == h.base
  {
    LedOnDone(m1, m2, h1, h', p, r);
    CoalesceKept(m1, m2, h1, h', p, r);
    KeptThrough(m, m1, m2, h1.tiles, h1.tiles);
    assert h' == Free(h, p) by {
      assert Unfold(0);
    }
    assert Ok(h, 0) by {
      assert Unfold(0);
    }
    FreeOk(h, p);
    SetFreeLive(h.tiles, p);
    KeptByLive(m, m2, h1.tiles, h'.tiles);
  }

  /** Whether a payload survives depends on the blocks in use only. */
  lemma KeptByLive(m: Image, m': Image, t: Tiling, t': Tiling)
    requires Kept(m, m', t) && Live(t) == Live(t')
    ensures Kept(m, m', t')
  {
    assert Unfold(0);
    forall a, x | IsLive(t', a) && a <= x < a + t'[a].size - 8
      ensures At(m', x) == At(m, x)
    {
      assert a in Live(t') && Live(t')[a] == t'[a].size;
      assert a in Live(t) && Live(t)[a] == t[a].size;
      assert IsLive(t, a);
    }
  }

  lemma FreedIs(h: Heap, h': Heap, p: int)
    requires FreedTo(h, h', p)
    ensures h' == Free(h, p)
  {
    assert Unfold(0);
  }

  lemma MallocedIs(h: Heap, h': Heap, limit: int, size: int, p: int)
    requires Malloced(h, h', limit, size, p)
    ensures (h', p) == Malloc(h, limit, size)
  {
    assert Unfold(0);
  }

  // ---- mm_exit's loop ----

  lemma NotZero(m: Image, h: Heap, p: int)
    requires Whole(m, h, 0) && p in h.tiles
    ensures 0 < p < h.brk
  {
    assert Unfold(0);
  }

  /** The header mm_exit reads says whether the cursor stands at a block in use. */
  lemma ExitFacts(m: Image, h: Heap, p: int)
    requires Whole(m, h, 0) && Cursor(m, h, p) && p != h.brk
    ensures IsCell(h, p - 4)
    ensures AllocField(At(m, p - 4)) != 0 <==> IsLive(h.tiles, p)
  {
    if IsLive(h.tiles, p) {
      WholeIsLaid(m, h, 0);
      BlockFacts(m, h, {0}, p);
    } else {
      CursorMoves(m, h, p);
    }
  }

  lemma ExitLands(m: Image, h: Heap, p: int, q: int)
    requires LedOn(m, h, p) && q == p + SizeField(At(m, p - 4)) && Whole(m, h, 0)
    requires forall a :: IsLive(h.tiles, a) ==> p < a
    ensures p < q && (q < h.brk ==> Cursor(m, h, q))
    ensures forall a :: IsLive(h.tiles, a) ==> q <= a && q < h.brk
  {
    assert Unfold(0);
  }

  lemma StillBeyond(h: Heap, h': Heap, p: int)
    requires forall a :: IsLive(h.tiles, a) ==> p <= a
    requires if IsLive(h.tiles, p) then Live(h'.tiles) == Live(h.tiles) - {p} else h' == h
    ensures forall a :: IsLive(h'.tiles, a) ==> p < a
  {
    LiveMeans(h.tiles);
    LiveMeans(h'.tiles);
    assert forall a :: IsLive(h'.tiles, a) ==> a in Live(h'.tiles);
  }

  lemma ExitStart(m: Image, h: Heap)
    requires Whole(m, h, 0) && h.Lo() < h.brk
    ensures 0 < h.Lo() && Cursor(m, h, h.Lo())
    ensures forall a :: IsLive(h.tiles, a) ==> h.Lo() <= a
    ensures FreedSoFar(h, h, [])
  {
    assert Unfold(0);
    assert Live(h.tiles) - (set a | a in []) == Live(h.tiles);
  }

  /** h is h0 after freeing the blocks `freed`, which are in ascending order and were in use. */
  ghost predicate FreedSoFar(h0: Heap, h: Heap, freed: seq<int>) {
    forall i {:trigger Unfold(i)} :: Unfold(i) ==>
      && h == FreeAll(h0, freed)
      && (forall i, j :: 0 <= i < j < |freed| ==> freed[i] < freed[j])
      && (forall a :: a in freed ==> IsLive(h0.tiles, a))
      && Live(h.tiles) == Live(h0.tiles) - (set a | a in freed)
  }

  lemma FreedOneMore(h0: Heap, h: Heap, h': Heap, freed: seq<int>, p: int)
    requires FreedSoFar(h0, h, freed) && IsLive(h.tiles, p)
    requires forall i :: 0 <= i < |freed| ==> freed[i] < p
    requires h' == Free(h, p) && Live(h'.tiles) == Live(h.tiles) - {p}
    ensures FreedSoFar(h0, h', freed + [p])
  {
    assert Unfold(0);
    FreeAllAppend(h0, freed, p);
    LiveMeans(h0.tiles);
    LiveMeans(h.tiles);
    assert p in Live(h.tiles);
    DropOneMore(Live(h0.tiles), freed, p);
  }

  lemma DropOneMore(live: map<int, int>, freed: seq<int>, p: int)
    ensures (live - (set a | a in freed)) - {p} == live - (set a | a in freed + [p])
  {
  }

  lemma ExitEnd(h0: Heap, h: Heap, freed: seq<int>)
    requires FreedSoFar(h0, h, freed)
    requires forall a :: !IsLive(h.tiles, a)
    ensures h == FreeAll(h0, freed)
    ensures forall i, j :: 0 <= i < j < |freed| ==> freed[i] < freed[j]
    ensures forall a :: a in freed <==> IsLive(h0.tiles, a)
    ensures Live(h.tiles) == map[]
  {
    assert Unfold(0);
    NothingLeft(h.tiles);
    forall a
      ensures a in freed <==> IsLive(h0.tiles, a)
    {
      assert a !in Live(h.tiles);
      assert a in Live(h0.tiles) <==> IsLive(h0.tiles, a);
    }
  }

  lemma NothingLeft(t: Tiling)
    requires forall a :: !IsLive(t, a)
    ensures Live(t) == map[]
  {
    LiveMeans(t);
    assert forall a :: a !in Live(t);
  }
}
