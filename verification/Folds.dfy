/** The heap invariant over the words, folded: methods carry it through their contracts as one
    fact, and the lemmas here unfold it where a step needs what is inside. */
module Folds {
  import opened Words
  import opened Tiles
  import opened Bins
  import opened Heaps
  import opened HeapWords
  import opened CoalesceWords

  /** h is tiled, its bins hold every free block outside x, and m represents it. */
  ghost predicate Laid(m: Image, h: Heap, x: set<int>) {
    forall i {:trigger Unfold(i)} :: Unfold(i) ==>
      && 0 < h.base && h.base % 8 == 0
      && Tiled(h.tiles, h.Lo(), h.brk)
      && BinsOk(h.tiles, h.bins, x)
      && Rep(m, h)
  }

  /** h satisfies the heap invariant, x set aside, and m represents it. */
  ghost predicate Whole(m: Image, h: Heap, x: int) {
    forall i {:trigger Unfold(i)} :: Unfold(i) ==> Ok(h, x) && Rep(m, h)
  }

  lemma WholeIsLaid(m: Image, h: Heap, x: int)
    requires Whole(m, h, x)
    ensures Laid(m, h, {x})
  {
    assert Unfold(0);
  }

  // ---- list steps ----

  lemma RemoveFacts(m: Image, h: Heap, x: set<int>, p: int) returns (k: nat, i: nat)
    requires Laid(m, h, x) && IsFree(h.tiles, p) && p !in x
    ensures k == BinOf(h.tiles[p].size) && i < |h.bins[k]| && h.bins[k][i] == p
    ensures BinOf(SizeField(At(m, p - 4))) == k
    ensures IsCell(h, p - 4) && IsCell(h, p) && IsCell(h, p + 4) && IsCell(h, Root(h.base, k))
    ensures At(m, p) != 0 ==> IsCell(h, At(m, p) + 4)
    ensures At(m, p + 4) != 0 ==> IsCell(h, At(m, p + 4))
  {
    assert Unfold(0);
    k, i := Position(h, x, p);
    LinkedNeighbours(m, h, x, k, i);
  }

  /** h' is h with p unlisted, and m' differs from m in roots and link words only. */
  ghost predicate Removed(m: Image, m': Image, h: Heap, h': Heap, p: int) {
    forall i {:trigger Unfold(i)} :: Unfold(i) ==>
      h' == h.(bins := Unlist(h.tiles, h.bins, p)) && FreeFrame(m, m', h.base, h.tiles)
  }

  lemma RemovedIs(m: Image, m': Image, h: Heap, h': Heap, p: int)
    requires Removed(m, m', h, h', p)
    ensures h' == h.(bins := Unlist(h.tiles, h.bins, p)) && FreeFrame(m, m', h.base, h.tiles)
  {
    assert Unfold(0);
  }

  lemma RemoveDone(m: Image, h: Heap, x: set<int>, k: nat, i: nat, p: int) returns (h': Heap)
    requires Laid(m, h, x) && h.brk <= TWO_32
    requires k < NBINS && i < |h.bins[k]| && h.bins[k][i] == p && p !in x && IsFree(h.tiles, p)
    ensures h'.tiles == h.tiles && h'.base == h.base && h'.brk == h.brk
    ensures Laid(Unlinked(m, Root(h.base, k), p), h', x + {p})
    ensures Removed(m, Unlinked(m, Root(h.base, k), p), h, h', p)
  {
    assert Unfold(0);
    UnlinkedRep(m, h, x, k, i);
    UnlistOk(h.tiles, h.bins, x, p);
    h' := h.(bins := Unlist(h.tiles, h.bins, p));
  }

  lemma RootFacts(m: Image, h: Heap, x: set<int>, k: nat)
    requires Laid(m, h, x) && k < NBINS
    ensures IsCell(h, Root(h.base, k)) && IsCell(h, Root(h.base, k) + 4)
    ensures At(m, Root(h.base, k)) == Nth(h.bins[k], 0)
  {
    assert Unfold(0);
    RootCell(h, k);
    assert ChainOk(m, Root(h.base, k), h.bins[k]);
  }

  lemma ListedFacts(m: Image, h: Heap, x: set<int>, k: nat, i: nat)
    requires Laid(m, h, x) && k < NBINS && i < |h.bins[k]|
    ensures
      var a := h.bins[k][i];
      && a in h.tiles && a != 0 && Root(h.base, k) < a
      && IsCell(h, a - 4) && IsCell(h, a) && IsCell(h, a + 4)
      && SizeField(At(m, a - 4)) == SizeAt(h.tiles, a)
      && At(m, a + 4) == Nth(h.bins[k], i + 1)
  {
    assert Unfold(0);
    ListedBlock(m, h, x, k, i);
  }

  lemma BlockFacts(m: Image, h: Heap, x: set<int>, a: int)
    requires Laid(m, h, x) && a in h.tiles
    ensures IsCell(h, a - 4) && IsCell(h, a) && IsCell(h, a + 4) && IsCell(h, a + h.tiles[a].size - 8)
    ensures 16 <= h.tiles[a].size && BlockSized(h.tiles[a].size)
    ensures 0 < h.base && h.Lo() <= a && Next(h.tiles, a) <= h.brk
    ensures SizeField(At(m, a - 4)) == h.tiles[a].size && SizeField(At(m, a + h.tiles[a].size - 8)) == h.tiles[a].size
    ensures AllocField(At(m, a - 4)) == if h.tiles[a].alloc then 1 else 0
  {
    assert Unfold(0);
    BlockCells(h, a);
    TagSizes(m, h.tiles, a);
  }

  /** h' is h with p listed, and m' differs from m in roots and link words only. */
  ghost predicate Listed(m: Image, m': Image, h: Heap, h': Heap, p: int) {
    forall i {:trigger Unfold(i)} :: Unfold(i) ==>
      h' == h.(bins := Enlist(h.tiles, h.bins, p)) && FreeFrame(m, m', h.base, h.tiles)
  }

  /** Where insert_free_block puts p: behind prevp, the root if p comes first, before nextp. */
  ghost predicate PlaceFound(h: Heap, p: int, root: int, prevp: int, nextp: int) {
    forall i {:trigger Unfold(i)} :: Unfold(i) ==>
      var b := h.bins[BinOf(SizeAt(h.tiles, p))];
      var r := Rank(h.tiles, b, SizeAt(h.tiles, p));
      && root == Root(h.base, BinOf(SizeAt(h.tiles, p)))
      && prevp == (if r == 0 then root else b[r - 1])
      && nextp == Nth(b, r)
      && (r > 0 ==> root < prevp)
  }

  /** The search has passed the first i blocks of bin k, all smaller than size, and prevp is the
      last of them, the root if there is none. */
  ghost predicate Passed(h: Heap, k: nat, i: nat, size: int, root: int, prevp: int) {
    forall u {:trigger Unfold(u)} :: Unfold(u) ==>
      && k < NBINS && i <= |h.bins[k]|
      && root == Root(h.base, k)
      && prevp == (if i == 0 then root else h.bins[k][i - 1]) && (i > 0 ==> root < prevp)
      && forall j :: 0 <= j < i ==> SizeAt(h.tiles, h.bins[k][j]) < size
  }

  lemma PassedNone(h: Heap, k: nat, size: int, root: int)
    requires k < NBINS && root == Root(h.base, k)
    ensures Passed(h, k, 0, size, root, root)
  {
  }

  lemma PassedNext(h: Heap, k: nat, i: nat, size: int, root: int, prevp: int)
    requires Passed(h, k, i, size, root, prevp) && k < NBINS && i < |h.bins[k]|
    requires root < h.bins[k][i] && SizeAt(h.tiles, h.bins[k][i]) < size
    ensures Passed(h, k, i + 1, size, root, h.bins[k][i])
  {
    assert Unfold(0);
  }

  /** The search stops at the block's rank. */
  lemma PlaceAt(h: Heap, p: int, i: nat, root: int, prevp: int, nextp: int)
    requires p in h.tiles && Passed(h, BinOf(h.tiles[p].size), i, h.tiles[p].size, root, prevp)
    requires
      var b := h.bins[BinOf(h.tiles[p].size)];
      nextp == Nth(b, i) && (i < |b| ==> SizeAt(h.tiles, b[i]) >= h.tiles[p].size)
    ensures PlaceFound(h, p, root, prevp, nextp)
  {
    assert Unfold(0);
    RankUnique(h.tiles, h.bins[BinOf(h.tiles[p].size)], h.tiles[p].size, i);
  }

  lemma InsertDone(m: Image, h: Heap, x: set<int>, p: Word, root: int, prevp: Word, nextp: Word) returns (h': Heap)
    requires Laid(m, h, x) && h.brk <= TWO_32
    requires IsFree(h.tiles, p) && p in x && PlaceFound(h, p, root, prevp, nextp)
    ensures h'.tiles == h.tiles && h'.base == h.base && h'.brk == h.brk
    ensures
      var m' := Inserted(m, root, p, if prevp == root then 0 else prevp, nextp);
      Laid(m', h', x - {p}) && Listed(m, m', h, h', p)
  {
    assert Unfold(0);
    var k := BinOf(h.tiles[p].size);
    var r := Rank(h.tiles, h.bins[k], h.tiles[p].size);
    var m' := Inserted(m, root, p, if prevp == root then 0 else prevp, nextp);
    InsertedRep(m, h, x, k, r, p, if prevp == root then 0 else prevp, nextp);
    EnlistOk(h.tiles, h.bins, x, p);
    h' := h.(bins := Enlist(h.tiles, h.bins, p));
  }

  // ---- coalesce ----

  lemma AroundFacts(m: Image, h: Heap, p: int)
    requires Whole(m, h, p) && IsFree(h.tiles, p)
    ensures
      var q := p - SizeField(At(m, p - 8));
      var f := q + SizeField(At(m, q - 4)) - 8;
      var n := p + SizeField(At(m, p - 4));
      && IsCell(h, p - 8) && IsCell(h, q - 4) && IsCell(h, f) && IsCell(h, p - 4) && IsCell(h, n - 4)
      && (AllocField(At(m, f)) == 0 <==> PrevFree(h.tiles, p))
      && (AllocField(At(m, n - 4)) == 0 <==> NextFree(h.tiles, p))
  {
    assert Unfold(0);
    PrevWords(m, h, p, p);
    NextWords(m, h, p, p);
  }

  lemma NextFacts(m: Image, h: Heap, p: int)
    requires Whole(m, h, p) && IsFree(h.tiles, p) && NextFree(h.tiles, p)
    ensures
      var n := Next(h.tiles, p);
      && n == p + SizeField(At(m, p - 4)) && IsFree(h.tiles, n) && n != p
      && IsCell(h, p - 4) && IsCell(h, n - 4) && IsCell(h, MergedEnd(h.tiles, p) - 8)
      && MergedEnd(h.tiles, p) == n + SizeField(At(m, n - 4))
      && SizeField(At(m, MergedEnd(h.tiles, p) - 8)) == SizeField(At(m, n - 4)) >= 16
      && SizeField(At(m, p - 4)) == h.tiles[p].size >= 16
  {
    assert Unfold(0);
    NextFreeFacts(m, h, p);
  }

  lemma PrevFacts(m: Image, h: Heap, p: int)
    requires Whole(m, h, p) && IsFree(h.tiles, p) && PrevFree(h.tiles, p)
    ensures
      var q := PrevOf(h.tiles, p);
      && q == p - SizeField(At(m, p - 8)) && q != p && q + 16 <= p
      && IsCell(h, p - 8) && IsCell(h, p - 4) && IsCell(h, q - 4) && IsCell(h, Next(h.tiles, p) - 8)
      && SizeField(At(m, q - 4)) == p - q
      && SizeField(At(m, p - 4)) == h.tiles[p].size >= 16
  {
    assert Unfold(0);
    PrevFreeFacts(m, h, p);
  }

  /** Case 2: p and n are consecutive free blocks and take size bytes together. */
  ghost predicate FreeNext(m: Image, h: Heap, p: int, n: int, size: int) {
    forall i {:trigger Unfold(i)} :: Unfold(i) ==>
      && Whole(m, h, p) && IsFree(h.tiles, p)
      && !PrevFree(h.tiles, p) && NextFree(h.tiles, p)
      && n == Next(h.tiles, p) && p + size == MergedEnd(h.tiles, p)
  }

  /** What case 2 reads before it unlists the next block. */
  lemma NextFactsOf(m: Image, h: Heap, p: int) returns (n: int, size: int)
    requires Whole(m, h, p) && IsFree(h.tiles, p) && !PrevFree(h.tiles, p) && NextFree(h.tiles, p) && h.brk <= TWO_32
    ensures FreeNext(m, h, p, n, size)
    ensures IsFree(h.tiles, n) && p < n && n == p + SizeField(At(m, p - 4))
    ensures 32 <= size < TWO_32 && BlockSized(size)
    ensures IsCell(h, p - 4) && IsCell(h, n - 4) && IsCell(h, p + size - 8)
    ensures size == SizeField(At(m, p - 4)) + SizeField(At(m, n - 4))
  {
    NextFacts(m, h, p);
    WholeIsLaid(m, h, p);
    n := Next(h.tiles, p);
    size := MergedEnd(h.tiles, p) - p;
    BlockFacts(m, h, {p}, n);
    BlockFacts(m, h, {p}, p);
    SizedSum(h.tiles[p].size, h.tiles[n].size, size);
  }

  /** Case 3: q and p are consecutive free blocks and take size bytes together. */
  ghost predicate TwoFree(m: Image, h: Heap, p: int, q: int, size: int) {
    forall i {:trigger Unfold(i)} :: Unfold(i) ==>
      && Whole(m, h, p) && IsFree(h.tiles, p)
      && PrevFree(h.tiles, p) && !NextFree(h.tiles, p)
      && q == PrevOf(h.tiles, p) && q + size == MergedEnd(h.tiles, p)
  }

  lemma PrevFactsOf(m: Image, h: Heap, p: int) returns (q: int, size: int)
    requires Whole(m, h, p) && IsFree(h.tiles, p) && PrevFree(h.tiles, p) && !NextFree(h.tiles, p)
    ensures TwoFree(m, h, p, q, size)
  {
    q := PrevOf(h.tiles, p);
    size := Next(h.tiles, p) - q;
  }

  /** What case 3 reads before it unlists the previous block. */
  lemma TwoFacts(m: Image, h: Heap, p: int, q: int, size: int)
    requires TwoFree(m, h, p, q, size) && h.brk <= TWO_32
    ensures Laid(m, h, {p}) && IsFree(h.tiles, p) && IsFree(h.tiles, q) && q < p
    ensures Next(h.tiles, q) == p && Next(h.tiles, p) == q + size
    ensures 32 <= size < TWO_32 && BlockSized(size)
    ensures q == p - SizeField(At(m, p - 8))
    ensures IsCell(h, p - 8) && IsCell(h, p - 4) && IsCell(h, q - 4) && IsCell(h, q + size - 8)
    ensures size == SizeField(At(m, p - 4)) + SizeField(At(m, q - 4))
  {
    assert Whole(m, h, p) && IsFree(h.tiles, p) && PrevFree(h.tiles, p) && IsFree(h.tiles, q)
           && q == PrevOf(h.tiles, p) && Next(h.tiles, q) == p && Next(h.tiles, p) == q + size by {
      assert Unfold(0);
    }
    PrevFacts(m, h, p);
    WholeIsLaid(m, h, p);
    BlockFacts(m, h, {p}, q);
    BlockFacts(m, h, {p}, p);
    SizedSum(h.tiles[q].size, h.tiles[p].size, size);
  }

  /** What case 3 reads after it. */
  lemma PrevStill(m: Image, h: Heap, x: set<int>, p: int, q: int)
    requires Laid(m, h, x) && q in h.tiles && p in h.tiles && Next(h.tiles, q) == p
    ensures q == p - SizeField(At(m, p - 8)) && p + SizeField(At(m, p - 4)) == Next(h.tiles, p)
    ensures q + 16 <= p < p + 16 <= Next(h.tiles, p)
  {
    BlockFacts(m, h, x, q);
    BlockFacts(m, h, x, p);
  }

  /** Case 4: q, p and n are consecutive free blocks and take size bytes together. */
  ghost predicate ThreeFree(m: Image, h: Heap, p: int, q: int, n: int, size: int) {
    forall i {:trigger Unfold(i)} :: Unfold(i) ==>
      && Whole(m, h, p) && IsFree(h.tiles, p)
      && PrevFree(h.tiles, p) && NextFree(h.tiles, p)
      && q == PrevOf(h.tiles, p) && n == Next(h.tiles, p) && q + size == MergedEnd(h.tiles, p)
  }

  lemma BothFacts(m: Image, h: Heap, p: int) returns (q: int, n: int, size: int)
    requires Whole(m, h, p) && IsFree(h.tiles, p) && PrevFree(h.tiles, p) && NextFree(h.tiles, p)
    ensures ThreeFree(m, h, p, q, n, size)
  {
    q := PrevOf(h.tiles, p);
    n := Next(h.tiles, p);
    size := MergedEnd(h.tiles, p) - q;
  }

  /** What case 4 reads before it unlists the neighbours. */
  lemma ThreeFacts(m: Image, h: Heap, p: int, q: int, n: int, size: int)
    requires ThreeFree(m, h, p, q, n, size) && h.brk <= TWO_32
    ensures Laid(m, h, {p}) && IsFree(h.tiles, p) && IsFree(h.tiles, q) && IsFree(h.tiles, n) && q < p < n
    ensures Next(h.tiles, q) == p && Next(h.tiles, p) == n && Next(h.tiles, n) == q + size
    ensures 48 <= size < TWO_32 && BlockSized(size)
    ensures q == p - SizeField(At(m, p - 8)) && n == p + SizeField(At(m, p - 4))
    ensures IsCell(h, p - 8) && IsCell(h, p - 4) && IsCell(h, q - 4) && IsCell(h, n - 4) && IsCell(h, q + size - 8)
    ensures n + SizeField(At(m, n - 4)) == q + size
    ensures size == SizeField(At(m, p - 4)) + SizeField(At(m, q + size - 8)) + SizeField(At(m, q - 4))
  {
    assert Whole(m, h, p) && IsFree(h.tiles, p) && PrevFree(h.tiles, p) && NextFree(h.tiles, p)
           && IsFree(h.tiles, q) && IsFree(h.tiles, n) && q == PrevOf(h.tiles, p)
           && Next(h.tiles, q) == p && Next(h.tiles, p) == n && Next(h.tiles, n) == q + size by {
      assert Unfold(0);
    }
    NextFacts(m, h, p);
    PrevFacts(m, h, p);
    WholeIsLaid(m, h, p);
    BlockFacts(m, h, {p}, q);
    BlockFacts(m, h, {p}, n);
    BlockFacts(m, h, {p}, p);
    SizedSum(h.tiles[q].size, h.tiles[p].size, n - q);
    SizedSum(n - q, h.tiles[n].size, size);
  }

  /** What case 4 reads after it. */
  lemma BothStill(m: Image, h: Heap, x: set<int>, p: int, q: int, n: int)
    requires Laid(m, h, x) && q in h.tiles && p in h.tiles && n in h.tiles
    requires Next(h.tiles, q) == p && Next(h.tiles, p) == n
    ensures q == p - SizeField(At(m, p - 8)) && n == p + SizeField(At(m, p - 4))
    ensures n + SizeField(At(m, n - 4)) == Next(h.tiles, n)
    ensures q + 16 <= p < p + 16 <= n <= Next(h.tiles, n) - 16
  {
    BlockFacts(m, h, x, q);
    BlockFacts(m, h, x, p);
    BlockFacts(m, h, x, n);
  }

  /** The block r holds p and its free neighbours, h' is the heap so merged, and m' differs from
      m as coalesce may before it lists r. */
  ghost predicate Merged(m: Image, m': Image, h: Heap, h': Heap, p: int, r: int) {
    forall i {:trigger Unfold(i)} :: Unfold(i) ==>
      && p in h.tiles
      && r == MergedAt(h.tiles, p)
      && h' == MergedHeap(h, p)
      && CoalesceFrame(m, m', h, p)
  }

  /** Case 1 writes nothing. */
  lemma AloneDone(m: Image, h: Heap, p: int) returns (h': Heap)
    requires Whole(m, h, p) && IsFree(h.tiles, p)
    requires !PrevFree(h.tiles, p) && !NextFree(h.tiles, p)
    ensures IsFree(h'.tiles, p) && h'.base == h.base && h'.brk == h.brk
    ensures Laid(m, h', {0, p}) && Merged(m, m, h, h', p, p)
  {
    assert Unfold(0);
    MergedHeapOk(h, p);
    h' := MergedHeap(h, p);
  }

  /** Cases 2 to 4: neighbours unlisted, merged block tagged. */
  lemma MergeDone(m: Image, m1: Image, m2: Image, h: Heap, h1: Heap, p: int, x: set<int>, s: int, e: int)
    returns (h': Heap)
    requires Whole(m, h, p) && IsFree(h.tiles, p) && h.brk <= TWO_32
    requires h1 == h.(bins := UnlistNeighbours(h.tiles, h.bins, p))
    requires Laid(m1, h1, x) && FreeFrame(m, m1, h.base, h.tiles)
    requires s == MergedAt(h.tiles, p) && e == MergedEnd(h.tiles, p)
    requires 16 <= e - s < TWO_32 && BlockSized(e - s) && m2 == Tagged(m1, s, e, false)
    ensures IsFree(h'.tiles, s) && h'.base == h.base && h'.brk == h.brk
    ensures Laid(m2, h', {0, s}) && Merged(m, m2, h, h', p, s)
  {
    assert Unfold(0);
    MergedDone(m, m1, h, p);
    MergedHeapOk(h, p);
    h' := MergedHeap(h, p);
  }

  lemma MergeNextDone(m: Image, m1: Image, m2: Image, h: Heap, h1: Heap, p: int, n: int, size: int) returns (h': Heap)
    requires FreeNext(m, h, p, n, size) && h.brk <= TWO_32
    requires Laid(m1, h1, {p} + {n}) && Removed(m, m1, h, h1, n)
    requires 16 <= size < TWO_32 && BlockSized(size) && m2 == Tagged(m1, p, p + size, false)
    ensures IsFree(h'.tiles, p) && h'.base == h.base && h'.brk == h.brk
    ensures Laid(m2, h', {0, p}) && Merged(m, m2, h, h', p, p)
  {
    assert Unfold(0);
    h' := MergeDone(m, m1, m2, h, h1, p, {p} + {n}, p, p + size);
  }

  lemma MergePrevDone(m: Image, m1: Image, m2: Image, h: Heap, h1: Heap, p: int, q: int, size: int) returns (h': Heap)
    requires TwoFree(m, h, p, q, size) && h.brk <= TWO_32
    requires Laid(m1, h1, {p} + {q}) && Removed(m, m1, h, h1, q)
    requires 16 <= size < TWO_32 && BlockSized(size) && m2 == Tagged(m1, q, q + size, false)
    ensures IsFree(h'.tiles, q) && h'.base == h.base && h'.brk == h.brk
    ensures Laid(m2, h', {0, q}) && Merged(m, m2, h, h', p, q)
  {
    assert Unfold(0);
    h' := MergeDone(m, m1, m2, h, h1, p, {p} + {q}, q, q + size);
  }

  lemma MergeBothDone(m: Image, m0: Image, m1: Image, m2: Image, h: Heap, h0: Heap, h1: Heap, p: int,
                      q: int, n: int, size: int)
    returns (h': Heap)
    requires ThreeFree(m, h, p, q, n, size) && h.brk <= TWO_32
    requires Removed(m, m0, h, h0, q) && Removed(m0, m1, h0, h1, n)
    requires Laid(m1, h1, {p} + {q} + {n})
    requires 16 <= size < TWO_32 && BlockSized(size) && m2 == Tagged(m1, q, q + size, false)
    ensures IsFree(h'.tiles, q) && h'.base == h.base && h'.brk == h.brk
    ensures Laid(m2, h', {0, q}) && Merged(m, m2, h, h', p, q)
  {
    assert Unfold(0);
    assert FreeFrame(m, m1, h.base, h.tiles) by {
      assert forall x {:trigger At(m0, x)} :: At(m0, x) == At(m0, x);
      forall x | h.base + 40 <= x && !IsFree(h.tiles, x) && !IsFree(h.tiles, x - 4)
        ensures At(m1, x) == At(m, x)
      {
        assert At(m0, x) == At(m, x);
      }
    }
    h' := MergeDone(m, m1, m2, h, h1, p, {p} + {q} + {n}, q, q + size);
  }

  /** coalesce's outcome: the merged and listed heap, laid out, and nothing changed but what its
      frame allows. */
  ghost predicate Coalesced(m: Image, m': Image, h: Heap, h': Heap, p: int, r: int) {
    forall i {:trigger Unfold(i)} :: Unfold(i) ==>
      && p in h.tiles
      && r == MergedAt(h.tiles, p)
      && h' == Coalesce(h, p)
      && CoalesceFrame(m, m', h, p)
  }

  lemma CoalescedIs(m: Image, m': Image, h: Heap, h': Heap, p: int, r: int)
    requires Coalesced(m, m', h, h', p, r)
    ensures h' == Coalesce(h, p)
  {
    assert Unfold(0);
  }

  lemma CoalesceDone(m: Image, m1: Image, m2: Image, h: Heap, h1: Heap, h': Heap, p: int, r: int)
    requires Whole(m, h, p) && IsFree(h.tiles, p)
    requires Merged(m, m1, h, h1, p, r) && Listed(m1, m2, h1, h', r)
    requires Laid(m2, h', {0, r} - {r})
    ensures Whole(m2, h', 0)
    ensures Coalesced(m, m2, h, h', p, r)
  {
    assert Ok(h, p) && Rep(m, h) by {
      assert Unfold(0);
    }
    assert r == MergedAt(h.tiles, p) && h1 == MergedHeap(h, p) && CoalesceFrame(m, m1, h, p) by {
      assert Unfold(0);
    }
    assert h' == h1.(bins := Enlist(h1.tiles, h1.bins, r)) && FreeFrame(m1, m2, h1.base, h1.tiles) by {
      assert Unfold(0);
    }
    MergedHeapOk(h, p);
    CoalesceOk(h, p);
    assert Rep(m2, h') by {
      assert Unfold(0);
    }
    FrameThrough(m, m1, m2, h, p);
  }

  /** Listing the merged block stays within coalesce's frame. */
  lemma FrameThrough(m: Image, m1: Image, m2: Image, h: Heap, p: int)
    requires Ok(h, p) && IsFree(h.tiles, p)
    requires CoalesceFrame(m, m1, h, p) && FreeFrame(m1, m2, h.base, MergedTiles(h.tiles, p))
    ensures CoalesceFrame(m, m2, h, p)
  {
    MergedShape(h.tiles, h.Lo(), h.brk, p);
    var t' := MergedTiles(h.tiles, p);
    assert forall a :: IsFree(t', a) ==> IsFree(h.tiles, a);
    forall x | h.base + 40 <= x && !IsFree(h.tiles, x) && !IsFree(h.tiles, x - 4)
        && x != MergedAt(h.tiles, p) - 4 && x != MergedEnd(h.tiles, p) - 8
      ensures At(m2, x) == At(m, x)
    {
      assert At(m1, x) == At(m, x);
    }
  }
}
