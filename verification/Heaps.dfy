/** The abstract heap and what each allocator operation does to it. The operations of
    mm.c are proved, word by word, to refine these functions (module Allocators). */
module Heaps {
  import opened Tiles
  import opened Bins

  /** base is the address of the ten roots, brk the break, above the last block. */
  datatype Heap = Heap(base: int, brk: int, tiles: Tiling, bins: Bins) {
    /** Payload address of the first block: 14 words of roots, prologue and epilogue precede. */
    function Lo(): int {
      base + 56
    }
  }

  /** The heap invariant. The block x, if any, is free but in no list and may have free
      neighbours: that is the state in which coalesce is called. x == 0 means none. */
  ghost predicate Ok(h: Heap, x: int) {
    && 0 < h.base
    && h.base % 8 == 0
    && Tiled(h.tiles, h.Lo(), h.brk)
    && NoFreePair(h.tiles, x)
    && BinsOk(h.tiles, h.bins, {x})
  }

  // ---- coalesce ----

  ghost predicate PrevFree(t: Tiling, p: int) {
    exists q :: IsFree(t, q) && Next(t, q) == p
  }

  ghost function PrevOf(t: Tiling, p: int): (q: int)
    requires PrevFree(t, p)
    ensures IsFree(t, q) && Next(t, q) == p
  {
    var q :| IsFree(t, q) && Next(t, q) == p;
    q
  }

  predicate NextFree(t: Tiling, p: int) {
    p in t && IsFree(t, Next(t, p))
  }

  /** Where the block merged around p starts. */
  ghost function MergedAt(t: Tiling, p: int): int {
    if PrevFree(t, p) then PrevOf(t, p) else p
  }

  ghost function MergedTiles(t: Tiling, p: int): Tiling {
    var t1 := if NextFree(t, p) then Fuse(t, p) else t;
    if PrevFree(t, p) then Fuse(t1, PrevOf(t, p)) else t1
  }

  ghost function UnlistNeighbours(t: Tiling, bins: Bins, p: int): Bins {
    var b1 := if PrevFree(t, p) then Unlist(t, bins, PrevOf(t, p)) else bins;
    if NextFree(t, p) then Unlist(t, b1, Next(t, p)) else b1
  }

  /** Merge p with its free neighbours and list the result. */
  ghost function Coalesce(h: Heap, p: int): Heap {
    var t := MergedTiles(h.tiles, p);
    var b := UnlistNeighbours(h.tiles, h.bins, p);
    h.(tiles := t, bins := Enlist(t, b, MergedAt(h.tiles, p)))
  }

  lemma MergedTiled(t: Tiling, lo: int, hi: int, p: int)
    requires Tiled(t, lo, hi) && IsFree(t, p)
    ensures
      var t' := MergedTiles(t, p);
      var s := MergedAt(t, p);
      && Tiled(t', lo, hi)
      && IsFree(t', s)
      && Next(t', s) == if NextFree(t, p) then Next(t, Next(t, p)) else Next(t, p)
  {
    var t1 := if NextFree(t, p) then Fuse(t, p) else t;
    if NextFree(t, p) {
      FuseTiled(t, lo, hi, p);
    }
    if PrevFree(t, p) {
      FuseBefore(t, t1, lo, hi, p);
    }
  }

  /** The merged tiling: the blocks around p become one free block, the others stay. */
  lemma MergedShape(t: Tiling, lo: int, hi: int, p: int)
    requires Tiled(t, lo, hi) && IsFree(t, p)
    ensures
      var t' := MergedTiles(t, p);
      var s := MergedAt(t, p);
      var e := if NextFree(t, p) then Next(t, Next(t, p)) else Next(t, p);
      && Tiled(t', lo, hi)
      && IsFree(t', s) && Next(t', s) == e
      && s <= p && Next(t, p) <= e
      && (forall a :: a in t' && a != s ==> a in t && t'[a] == t[a] && (a < s || e <= a))
      && (forall a :: a in t && (a < s || e <= a) ==> a in t')
      && (forall a :: a in t && s <= a < e ==> IsFree(t, a) && (a == s || a == p || a == Next(t, p)))
  {
    MergedTiled(t, lo, hi, p);
  }

  lemma FuseBefore(t: Tiling, t1: Tiling, lo: int, hi: int, p: int)
    requires Tiled(t, lo, hi) && Tiled(t1, lo, hi) && IsFree(t, p) && IsFree(t1, p)
    requires PrevFree(t, p)
    requires forall a :: a < p ==> (a in t <==> a in t1) && (a in t ==> t[a] == t1[a])
    ensures
      var q := PrevOf(t, p);
      && IsFree(t1, q) && Next(t1, q) == p
      && Tiled(Fuse(t1, q), lo, hi)
      && IsFree(Fuse(t1, q), q) && Next(Fuse(t1, q), q) == Next(t1, p)
  {
    var q := PrevOf(t, p);
    assert Next(t1, q) == p;
    FuseTiled(t1, lo, hi, q);
  }

  lemma MergedNoFreePair(t: Tiling, lo: int, hi: int, p: int)
    requires Tiled(t, lo, hi) && IsFree(t, p)
    requires NoFreePair(t, p)
    ensures NoFreePair(MergedTiles(t, p), 0)
  {
    MergedShape(t, lo, hi, p);
    var t' := MergedTiles(t, p);
    var s := MergedAt(t, p);
    var n := Next(t, p);
    forall a | IsFree(t', a)
      ensures !IsFree(t', Next(t', a))
    {
      if a == s {
        var e := Next(t', s);
        if NextFree(t, p) {
          assert !IsFree(t, Next(t, n));
        }
      } else {
        assert Next(t', a) == Next(t, a);
      }
    }
  }

  lemma NeighboursUnlisted(t: Tiling, lo: int, hi: int, bins: Bins, p: int)
    requires Tiled(t, lo, hi) && IsFree(t, p)
    requires BinsOk(t, bins, {p})
    ensures BinsOk(t, UnlistNeighbours(t, bins, p), {p} + Neighbours(t, p))
  {
    var n := Next(t, p);
    var xq: set<int> := if PrevFree(t, p) then {PrevOf(t, p)} else {};
    var b1 := if PrevFree(t, p) then Unlist(t, bins, PrevOf(t, p)) else bins;
    if PrevFree(t, p) {
      UnlistOk(t, bins, {p}, PrevOf(t, p));
    }
    assert {p} + {} == {p};
    assert BinsOk(t, b1, {p} + xq);
    if NextFree(t, p) {
      UnlistOk(t, b1, {p} + xq, n);
      assert ({p} + xq) + {n} == {p} + (xq + {n});
    } else {
      assert {p} + xq == {p} + (xq + {});
    }
  }

  /** The blocks coalesce unlists beside p. */
  ghost function Neighbours(t: Tiling, p: int): set<int> {
    (if PrevFree(t, p) then {PrevOf(t, p)} else {}) + (if NextFree(t, p) then {Next(t, p)} else {})
  }

  /** Only the merged block is missing from the bins. */
  lemma MergedBins(t: Tiling, lo: int, hi: int, b: Bins, p: int)
    requires Tiled(t, lo, hi) && IsFree(t, p) && 0 < lo
    requires BinsOk(t, b, {p} + Neighbours(t, p))
    ensures BinsOk(MergedTiles(t, p), b, {0, MergedAt(t, p)})
  {
    MergedShape(t, lo, hi, p);
    BinsIgnore(t, MergedTiles(t, p), b, {p} + Neighbours(t, p), {0, MergedAt(t, p)});
  }

  lemma CoalescedBins(t: Tiling, lo: int, hi: int, bins: Bins, p: int)
    requires Tiled(t, lo, hi) && IsFree(t, p) && 0 < lo && BinsOk(t, bins, {p})
    ensures BinsOk(MergedTiles(t, p), Enlist(MergedTiles(t, p), UnlistNeighbours(t, bins, p), MergedAt(t, p)), {0})
  {
    var s := MergedAt(t, p);
    NeighboursUnlisted(t, lo, hi, bins, p);
    MergedBins(t, lo, hi, UnlistNeighbours(t, bins, p), p);
    MergedTiled(t, lo, hi, p);
    EnlistOk(MergedTiles(t, p), UnlistNeighbours(t, bins, p), {0, s}, s);
    assert {0, s} - {s} == {0};
  }

  lemma CoalesceOk(h: Heap, p: int)
    requires Ok(h, p) && IsFree(h.tiles, p)
    ensures Ok(Coalesce(h, p), 0)
  {
    MergedTiled(h.tiles, h.Lo(), h.brk, p);
    MergedNoFreePair(h.tiles, h.Lo(), h.brk, p);
    CoalescedBins(h.tiles, h.Lo(), h.brk, h.bins, p);
  }

  // ---- place ----

  /** Whether place splits: the rest must hold a smallest block. */
  predicate Splits(csize: int, asize: int) {
    csize - asize >= 16
  }

  ghost function Place(h: Heap, p: int, asize: int): Heap {
    var c := SizeAt(h.tiles, p);
    var b := Unlist(h.tiles, h.bins, p);
    if p in h.tiles && Splits(c, asize) then
      Coalesce(h.(tiles := Split(h.tiles, p, asize), bins := b), p + asize)
    else
      h.(tiles := h.tiles[p := Block(c, true)], bins := b)
  }

  lemma SplitReady(h: Heap, p: int, asize: int)
    requires Ok(h, 0) && IsFree(h.tiles, p)
    requires asize % 8 == 0 && 16 <= asize && Splits(h.tiles[p].size, asize)
    ensures
      var h1 := h.(tiles := Split(h.tiles, p, asize), bins := Unlist(h.tiles, h.bins, p));
      Ok(h1, p + asize) && IsFree(h1.tiles, p + asize) && IsLive(h1.tiles, p)
  {
    var t, r := h.tiles, p + asize;
    var t1 := Split(t, p, asize);
    SplitTiled(t, h.Lo(), h.brk, p, asize);
    assert BinsOk(t1, Unlist(t, h.bins, p), {r}) by {
      UnlistOk(t, h.bins, {0}, p);
      BinsIgnore(t, t1, Unlist(t, h.bins, p), {0} + {p}, {r});
    }
    forall a | IsFree(t1, a) && a != r && Next(t1, a) != r
      ensures !IsFree(t1, Next(t1, a))
    {
      assert Next(t1, a) == Next(t, a);
    }
  }

  // ---- free ----

  ghost function Free(h: Heap, p: int): Heap {
    Coalesce(h.(tiles := h.tiles[p := Block(SizeAt(h.tiles, p), false)]), p)
  }

  lemma FreeReady(h: Heap, p: int)
    requires Ok(h, 0) && IsLive(h.tiles, p)
    ensures
      var h1 := h.(tiles := h.tiles[p := Block(h.tiles[p].size, false)]);
      Ok(h1, p) && IsFree(h1.tiles, p)
  {
    var t := h.tiles;
    var t1 := t[p := Block(t[p].size, false)];
    SetAllocTiled(t, h.Lo(), h.brk, p, false);
    BinsIgnore(t, t1, h.bins, {0}, {p});
    forall a | IsFree(t1, a) && a != p && Next(t1, a) != p
      ensures !IsFree(t1, Next(t1, a))
    {
      assert Next(t1, a) == Next(t, a);
    }
  }
}
