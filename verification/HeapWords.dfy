/** How the abstract heap is laid out in words: tags around every block, the ten roots, and
    the links inside the free blocks. */
module HeapWords {
  import opened Words
  import opened Tiles
  import opened Bins
  import opened Heaps

  type Image = map<int, Word>

  /** Header and footer of the block at a. */
  ghost predicate TagOk(m: Image, a: int, b: Block) {
    && 0 <= b.size < TWO_32
    && b.size % 8 == 0
    && At(m, a - 4) == Pack(b.size, b.alloc)
    && At(m, a + b.size - 8) == Pack(b.size, b.alloc)
  }

  ghost predicate TagsOk(m: Image, t: Tiling) {
    forall a {:trigger TagOk(m, a, t[a])} :: a in t ==> TagOk(m, a, t[a])
  }

  /** Prologue header and footer, and the epilogue header. */
  ghost predicate FencesOk(m: Image, h: Heap) {
    && At(m, h.base + 44) == Pack(8, true)
    && At(m, h.base + 48) == Pack(8, true)
    && At(m, h.brk - 4) == Pack(0, true)
  }

  /** The i-th address of b, NULL beyond either end. */
  function Nth(b: seq<int>, i: int): int {
    if 0 <= i < |b| then b[i] else 0
  }

  function Root(base: int, k: int): (r: int)
  {
    base + k * 4
  }

  lemma RootCell(h: Heap, k: nat)
    requires h.base % 8 == 0 && h.Lo() <= h.brk && k < NBINS
    ensures IsCell(h, Root(h.base, k)) && IsCell(h, Root(h.base, k) + 4) && Root(h.base, k) % 4 == 0
  {
    WordsAway(h.base, k);
    WordsAway(h.base, k + 1);
    assert Unfold(0);
  }

  /** A word address between the roots and the break. */
  ghost predicate IsCell(h: Heap, a: int) {
    h.base <= a && a + 4 <= h.brk && WordAligned(a)
  }

  /** What the tags of a block say. */
  lemma TagSizes(m: Image, t: Tiling, a: int)
    requires TagsOk(m, t) && a in t
    ensures SizeField(At(m, a - 4)) == t[a].size && SizeField(At(m, a + t[a].size - 8)) == t[a].size
    ensures At(m, a - 4) == At(m, a + t[a].size - 8)
    ensures AllocField(At(m, a - 4)) == if t[a].alloc then 1 else 0
  {
    assert TagOk(m, a, t[a]);
  }

  lemma BlockCells(h: Heap, a: int)
    requires Tiled(h.tiles, h.Lo(), h.brk) && a in h.tiles
    ensures IsCell(h, a - 4) && IsCell(h, a) && IsCell(h, a + 4) && IsCell(h, a + h.tiles[a].size - 8)
    ensures a % 8 == 0 && h.tiles[a].size % 8 == 0 && 16 <= h.tiles[a].size && h.Lo() <= a
    ensures a + h.tiles[a].size <= h.brk
  {
    AlignedAround(a);
    EightSum(a, h.tiles[a].size);
    AlignedAround(a + h.tiles[a].size);
  }

  /** The i-th block's prev and next words point to its list neighbours. */
  ghost predicate LinkOk(m: Image, b: seq<int>, i: int)
    requires 0 <= i < |b|
  {
    At(m, b[i]) == Nth(b, i - 1) && At(m, b[i] + 4) == Nth(b, i + 1)
  }

  /** The doubly linked list hanging from root is b. */
  ghost predicate ChainOk(m: Image, root: int, b: seq<int>) {
    && At(m, root) == Nth(b, 0)
    && forall i {:trigger LinkOk(m, b, i)} :: 0 <= i < |b| ==> LinkOk(m, b, i)
  }

  ghost predicate ChainsOk(m: Image, base: int, bins: Bins) {
    forall k {:trigger ChainOk(m, Root(base, k), bins[k])} :: 0 <= k < NBINS ==> ChainOk(m, Root(base, k), bins[k])
  }

  /** The words m represent the heap h. */
  ghost predicate Rep(m: Image, h: Heap) {
    && TagsOk(m, h.tiles)
    && FencesOk(m, h)
    && ChainsOk(m, h.base, h.bins)
  }

  /** Only the word root and the link words of the blocks in s may differ. */
  ghost predicate OnlyLinks(m: Image, m': Image, root: int, s: set<int>) {
    forall x {:trigger At(m', x)} :: x != root && x !in s && x - 4 !in s ==> At(m', x) == At(m, x)
  }

  ghost predicate AllFreeIn(t: Tiling, s: set<int>) {
    forall a :: a in s ==> IsFree(t, a)
  }

  /** Link words never touch a tag. */
  lemma LinksSpareTags(m: Image, m': Image, h: Heap, k: nat, s: set<int>)
    requires Tiled(h.tiles, h.Lo(), h.brk) && k < NBINS
    requires TagsOk(m, h.tiles) && FencesOk(m, h)
    requires OnlyLinks(m, m', Root(h.base, k), s) && AllFreeIn(h.tiles, s)
    ensures TagsOk(m', h.tiles) && FencesOk(m', h)
  {
    var t := h.tiles;
    forall a | a in t
      ensures TagOk(m', a, t[a])
    {
      assert TagOk(m, a, t[a]);
      var f := a + t[a].size - 8;
      assert a - 4 - 4 !in s;
      assert f !in s && f - 4 !in s;
    }
  }

  /** Nor the lists of other bins. */
  lemma LinksSpareBin(m: Image, m': Image, h: Heap, x: set<int>, k: nat, s: set<int>, l: nat)
    requires Tiled(h.tiles, h.Lo(), h.brk) && k < NBINS && l < NBINS && k != l
    requires BinsOk(h.tiles, h.bins, x) && ChainOk(m, Root(h.base, l), h.bins[l])
    requires OnlyLinks(m, m', Root(h.base, k), s) && AllFreeIn(h.tiles, s)
    requires forall a :: a in s ==> BinOf(h.tiles[a].size) == k
    ensures ChainOk(m', Root(h.base, l), h.bins[l])
  {
    var b := h.bins[l];
    assert BinOk(h.tiles, b, l, x);
    forall i | 0 <= i < |b|
      ensures LinkOk(m', b, i)
    {
      assert LinkOk(m, b, i);
      assert b[i] in h.tiles && b[i] !in s;
    }
  }

  /** Relinking one bin leaves the rest of the heap represented. */
  lemma Relinked(m: Image, m': Image, h: Heap, x: set<int>, k: nat, s: set<int>, b: seq<int>)
    requires Tiled(h.tiles, h.Lo(), h.brk) && BinsOk(h.tiles, h.bins, x) && Rep(m, h)
    requires k < NBINS && OnlyLinks(m, m', Root(h.base, k), s) && AllFreeIn(h.tiles, s)
    requires forall a :: a in s ==> BinOf(h.tiles[a].size) == k
    requires ChainOk(m', Root(h.base, k), b)
    ensures Rep(m', h.(bins := h.bins[k := b]))
  {
    LinksSpareTags(m, m', h, k, s);
    forall l | 0 <= l < NBINS && l != k
      ensures ChainOk(m', Root(h.base, l), h.bins[l])
    {
      LinksSpareBin(m, m', h, x, k, s, l);
    }
  }

  /** The j-th block's link words in m' and m, when its prev word becomes `prev` if j is before
      and its next word becomes `next` if j is behind the place that changes. */
  ghost predicate Rewired(m: Image, m': Image, b: seq<int>, j: int, after: int, prev: int, before: int, next: int)
    requires 0 <= j < |b|
  {
    && At(m', b[j]) == (if j == after then prev else At(m, b[j]))
    && At(m', b[j] + 4) == (if j == before then next else At(m, b[j] + 4))
  }

  /** Unlinking the i-th block of a list. */
  lemma ChainCut(m: Image, m': Image, root: int, b: seq<int>, i: nat)
    requires ChainOk(m, root, b) && i < |b|
    requires At(m', root) == if i == 0 then Nth(b, 1) else At(m, root)
    requires forall j {:trigger Rewired(m, m', b, j, i + 1, Nth(b, i - 1), i - 1, Nth(b, i + 1))} ::
               0 <= j < |b| && j != i ==> Rewired(m, m', b, j, i + 1, Nth(b, i - 1), i - 1, Nth(b, i + 1))
    ensures ChainOk(m', root, b[..i] + b[i + 1..])
  {
    var c := b[..i] + b[i + 1..];
    forall j | 0 <= j < |c|
      ensures LinkOk(m', c, j)
    {
      var o := if j < i then j else j + 1;
      assert c[j] == b[o] && LinkOk(m, b, o);
      assert Rewired(m, m', b, o, i + 1, Nth(b, i - 1), i - 1, Nth(b, i + 1));
    }
  }

  /** Linking p in as the i-th block of a list. */
  lemma ChainInsert(m: Image, m': Image, root: int, b: seq<int>, i: nat, p: int)
    requires ChainOk(m, root, b) && i <= |b|
    requires At(m', root) == if i == 0 then p else At(m, root)
    requires At(m', p) == Nth(b, i - 1) && At(m', p + 4) == Nth(b, i)
    requires forall j {:trigger Rewired(m, m', b, j, i, p, i - 1, p)} ::
               0 <= j < |b| ==> Rewired(m, m', b, j, i, p, i - 1, p)
    ensures ChainOk(m', root, InsertAt(b, i, p))
  {
    var c := InsertAt(b, i, p);
    forall j | 0 <= j < |c|
      ensures LinkOk(m', c, j)
    {
      if j != i {
        var o := if j < i then j else j - 1;
        assert c[j] == b[o] && LinkOk(m, b, o);
        assert Rewired(m, m', b, o, i, p, i - 1, p);
      }
    }
  }

  /** The cells of a list are apart from each other and above its root. */
  ghost predicate Spaced(root: int, b: seq<int>) {
    && NoDup(b)
    && 0 < root
    && root % 4 == 0
    && forall i :: 0 <= i < |b| ==> root + 8 <= b[i] < TWO_32 && b[i] % 8 == 0
  }

  lemma BinSpaced(h: Heap, x: set<int>, k: nat)
    requires Tiled(h.tiles, h.Lo(), h.brk) && BinsOk(h.tiles, h.bins, x) && k < NBINS
    requires 0 < h.base && h.base % 8 == 0 && h.brk <= TWO_32
    ensures Spaced(Root(h.base, k), h.bins[k])
  {
    var b := h.bins[k];
    assert BinOk(h.tiles, b, k, x);
    assert NoDup(b);
    RootCell(h, k);
    forall i | 0 <= i < |b|
      ensures Root(h.base, k) + 8 <= b[i] < TWO_32 && b[i] % 8 == 0
    {
      assert b[i] in h.tiles;
    }
  }

  /** The words after remove_free_block(p). */
  function Unlinked(m: Image, root: int, p: int): Image {
    var prevp := At(m, p);
    var nextp := At(m, p + 4);
    var m1 := if nextp != 0 then m[nextp := prevp] else m;
    var m2 := if prevp == 0 then m1[root := nextp] else m1[prevp + 4 := nextp];
    m2[p + 4 := 0][p := 0]
  }

  lemma UnlinkedChain(m: Image, root: int, b: seq<int>, i: nat)
    requires ChainOk(m, root, b) && Spaced(root, b) && i < |b|
    ensures ChainOk(Unlinked(m, root, b[i]), root, b[..i] + b[i + 1..])
    ensures OnlyLinks(m, Unlinked(m, root, b[i]), root, set a | a in b)
  {
    var m' := Unlinked(m, root, b[i]);
    assert LinkOk(m, b, i);
    forall j {:trigger Rewired(m, m', b, j, i + 1, Nth(b, i - 1), i - 1, Nth(b, i + 1))} | 0 <= j < |b| && j != i
      ensures Rewired(m, m', b, j, i + 1, Nth(b, i - 1), i - 1, Nth(b, i + 1))
    {
      assert b[j] != b[i];
      assert i > 0 && j != i - 1 ==> b[j] != b[i - 1];
      assert i + 1 < |b| && j != i + 1 ==> b[j] != b[i + 1];
    }
    ChainCut(m, m', root, b, i);
  }

  /** The words after insert_free_block(p) behind prevp (0: at the root) and before nextp. */
  function Inserted(m: Image, root: int, p: Word, prevp: Word, nextp: Word): Image {
    var m1 :=
      if prevp == 0 then m[root := p][p + 4 := nextp][p := 0]
      else m[prevp + 4 := p][p := prevp][p + 4 := nextp];
    if nextp != 0 then m1[nextp := p] else m1
  }

  /** A block of the list is rewired only if it stands beside p. */
  lemma InsertedRewires(m: Image, root: int, b: seq<int>, i: nat, p: Word, j: nat)
    requires Spaced(root, b) && i <= |b| && j < |b| && p !in b && root + 8 <= p && p % 8 == 0
    ensures Rewired(m, Inserted(m, root, p, Nth(b, i - 1), Nth(b, i)), b, j, i, p, i - 1, p)
  {
    assert b[j] in b;
    assert i > 0 && j != i - 1 ==> b[j] != b[i - 1];
    assert i < |b| && j != i ==> b[j] != b[i];
  }

  lemma InsertedChain(m: Image, root: int, b: seq<int>, i: nat, p: Word)
    requires ChainOk(m, root, b) && Spaced(root, b) && i <= |b|
    requires p !in b && root + 8 <= p && p % 8 == 0
    ensures
      var m' := Inserted(m, root, p, Nth(b, i - 1), Nth(b, i));
      && ChainOk(m', root, InsertAt(b, i, p))
      && OnlyLinks(m, m', root, (set a | a in b) + {p})
  {
    var m' := Inserted(m, root, p, Nth(b, i - 1), Nth(b, i));
    forall j {:trigger Rewired(m, m', b, j, i, p, i - 1, p)} | 0 <= j < |b|
      ensures Rewired(m, m', b, j, i, p, i - 1, p)
    {
      InsertedRewires(m, root, b, i, p, j);
    }
    assert i < |b| ==> b[i] in b;
    assert i > 0 ==> b[i - 1] in b;
    ChainInsert(m, m', root, b, i, p);
  }

  /** A block of a bin, its header and its links. */
  lemma ListedBlock(m: Image, h: Heap, x: set<int>, k: nat, i: nat)
    requires Tiled(h.tiles, h.Lo(), h.brk) && BinsOk(h.tiles, h.bins, x) && Rep(m, h)
    requires k < NBINS && i < |h.bins[k]|
    ensures
      var a := h.bins[k][i];
      && IsFree(h.tiles, a) && a !in x && BinOf(h.tiles[a].size) == k
      && IsCell(h, a - 4) && IsCell(h, a) && IsCell(h, a + 4) && h.Lo() <= a
      && TagOk(m, a, h.tiles[a]) && LinkOk(m, h.bins[k], i)
  {
    var b := h.bins[k];
    assert BinOk(h.tiles, b, k, x) && ChainOk(m, Root(h.base, k), b);
    BlockCells(h, b[i]);
    assert TagOk(m, b[i], h.tiles[b[i]]);
  }

  /** The bin and the index of a listed block. */
  lemma Position(h: Heap, x: set<int>, p: int) returns (k: nat, i: nat)
    requires BinsOk(h.tiles, h.bins, x)
    requires IsFree(h.tiles, p) && p !in x
    ensures k == BinOf(h.tiles[p].size) && i < |h.bins[k]| && h.bins[k][i] == p
  {
    k := BinOf(h.tiles[p].size);
    assert InBin(h.tiles, h.bins, p);
    i :| 0 <= i < |h.bins[k]| && h.bins[k][i] == p;
  }

  /** What remove_free_block reads: the block's bin from its header, and its neighbours. */
  lemma LinkedNeighbours(m: Image, h: Heap, x: set<int>, k: nat, i: nat)
    requires Tiled(h.tiles, h.Lo(), h.brk) && BinsOk(h.tiles, h.bins, x) && Rep(m, h)
    requires 0 < h.base && h.base % 8 == 0 && h.Lo() <= h.brk && k < NBINS && i < |h.bins[k]|
    ensures
      var a := h.bins[k][i];
      && BinOf(SizeField(At(m, a - 4))) == k
      && IsCell(h, a - 4) && IsCell(h, a) && IsCell(h, a + 4) && IsCell(h, Root(h.base, k))
      && (At(m, a) != 0 ==> IsCell(h, At(m, a) + 4))
      && (At(m, a + 4) != 0 ==> IsCell(h, At(m, a + 4)))
  {
    RootCell(h, k);
    ListedBlock(m, h, x, k, i);
    if i > 0 {
      ListedBlock(m, h, x, k, i - 1);
    }
    if i + 1 < |h.bins[k]| {
      ListedBlock(m, h, x, k, i + 1);
    }
  }

  lemma UnlinkedRep(m: Image, h: Heap, x: set<int>, k: nat, i: nat)
    requires Tiled(h.tiles, h.Lo(), h.brk) && BinsOk(h.tiles, h.bins, x) && Rep(m, h)
    requires 0 < h.base && h.base % 8 == 0 && h.brk <= TWO_32 && k < NBINS && i < |h.bins[k]|
    ensures
      var b := h.bins[k];
      var m' := Unlinked(m, Root(h.base, k), b[i]);
      && b[i] in h.tiles
      && Rep(m', h.(bins := Unlist(h.tiles, h.bins, b[i])))
      && FreeFrame(m, m', h.base, h.tiles)
  {
    var b := h.bins[k];
    BinSpaced(h, x, k);
    ListedBlock(m, h, x, k, i);
    assert ChainOk(m, Root(h.base, k), b);
    UnlinkedChain(m, Root(h.base, k), b, i);
    WithoutAt(b, i);
    AllListed(h.tiles, h.bins, x, k);
    Relinked(m, Unlinked(m, Root(h.base, k), b[i]), h, x, k, (set a | a in b), b[..i] + b[i + 1..]);
  }

  lemma AllListed(t: Tiling, bins: Bins, x: set<int>, k: nat)
    requires BinsOk(t, bins, x) && k < NBINS
    ensures forall a :: a in bins[k] ==> IsFree(t, a) && a !in x && BinOf(t[a].size) == k
  {
    forall a | a in bins[k]
      ensures IsFree(t, a) && a !in x && BinOf(t[a].size) == k
    {
      BinHolds(t, bins, x, k, a);
    }
  }

  lemma InsertedRep(m: Image, h: Heap, x: set<int>, k: nat, i: nat, p: Word, prevp: Word, nextp: Word)
    requires Tiled(h.tiles, h.Lo(), h.brk) && BinsOk(h.tiles, h.bins, x) && Rep(m, h)
    requires 0 < h.base && h.base % 8 == 0 && h.brk <= TWO_32
    requires IsFree(h.tiles, p) && p in x && k == BinOf(h.tiles[p].size)
    requires i == Rank(h.tiles, h.bins[k], h.tiles[p].size)
    requires prevp == Nth(h.bins[k], i - 1) && nextp == Nth(h.bins[k], i)
    ensures
      var b := h.bins[k];
      var m' := Inserted(m, Root(h.base, k), p, prevp, nextp);
      && Rep(m', h.(bins := Enlist(h.tiles, h.bins, p)))
      && FreeFrame(m, m', h.base, h.tiles)
  {
    var b := h.bins[k];
    BinSpaced(h, x, k);
    AllListed(h.tiles, h.bins, x, k);
    var m' := Inserted(m, Root(h.base, k), p, prevp, nextp);
    assert ChainOk(m, Root(h.base, k), b);
    InsertedChain(m, Root(h.base, k), b, i, p);
    Relinked(m, m', h, x, k, (set a | a in b) + {p}, InsertAt(b, i, p));
  }

  /** Only roots and link words of blocks free in t differ. */
  ghost predicate FreeFrame(m: Image, m': Image, base: int, t: Tiling) {
    forall x {:trigger At(m', x)} :: base + 40 <= x && !IsFree(t, x) && !IsFree(t, x - 4) ==> At(m', x) == At(m, x)
  }

  // ---- payloads ----

  /** No word of the payload of a block in use in t differs. */
  ghost predicate PayloadsKept(m: Image, m': Image, t: Tiling) {
    forall a, x :: IsLive(t, a) && a <= x < a + t[a].size - 8 ==> At(m', x) == At(m, x)
  }
}
