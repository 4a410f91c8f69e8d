/** The ten segregated free lists. Each bin is the sequence of its blocks' addresses in
    list order; sizes are read from the tiling. */
module Bins {
  import opened Tiles

  const NBINS: nat := 10

  /** One list of addresses per size class. */
  type Bins = b: seq<seq<int>> | |b| == NBINS witness seq(NBINS, _ => [])

  /** The index computed by get_freeCategory_root. */
  function BinOf(size: int): (k: nat)
    ensures k < NBINS
  {
    if size <= 32 then 0
    else if size <= 64 then 1
    else if size <= 128 then 2
    else if size <= 256 then 3
    else if size <= 512 then 4
    else if size <= 2048 then 5
    else if size <= 4096 then 6
    else if size <= 8192 then 7
    else if size <= 16384 then 8
    else 9
  }

  /** The largest size of each class but the last. */
  const LARGEST: seq<int> := [32, 64, 128, 256, 512, 2048, 4096, 8192, 16384]

  /** Class k holds the sizes above those of class k - 1 up to its own largest, the last class all
      that are larger. */
  lemma BinOfBounds(size: int, k: nat)
    requires k < NBINS
    ensures BinOf(size) == k <==> (k == 0 || LARGEST[k - 1] < size) && (k == NBINS - 1 || size <= LARGEST[k])
  {
    assert LARGEST == [32, 64, 128, 256, 512, 2048, 4096, 8192, 16384];
  }

  /** A larger size is in the same class or a later one. */
  lemma BinOfMonotone(size: int, larger: int)
    requires size <= larger
    ensures BinOf(size) <= BinOf(larger)
  {
  }

  function SizeAt(t: Tiling, a: int): int {
    if a in t then t[a].size else 0
  }

  ghost predicate AllIn(t: Tiling, b: seq<int>) {
    forall i :: 0 <= i < |b| ==> b[i] in t
  }

  ghost predicate Ascending(t: Tiling, b: seq<int>)
    requires AllIn(t, b)
  {
    forall i, j :: 0 <= i < j < |b| ==> t[b[i]].size <= t[b[j]].size
  }

  ghost predicate NoDup<T>(b: seq<T>) {
    forall i, j :: 0 <= i < j < |b| ==> b[i] != b[j]
  }

  /** Bin k holds only free blocks of class k outside x, each once, smallest first. */
  ghost predicate BinOk(t: Tiling, b: seq<int>, k: nat, x: set<int>) {
    && AllIn(t, b)
    && (forall i :: 0 <= i < |b| ==> !t[b[i]].alloc && b[i] !in x && BinOf(t[b[i]].size) == k)
    && Ascending(t, b)
    && NoDup(b)
  }

  /** The ten bins hold every free block outside x exactly once, in its class. */
  ghost predicate BinsOk(t: Tiling, bins: Bins, x: set<int>) {
    && (forall k {:trigger BinOk(t, bins[k], k, x)} :: 0 <= k < NBINS ==> BinOk(t, bins[k], k, x))
    && (forall a {:trigger InBin(t, bins, a)} :: IsFree(t, a) && a !in x ==> InBin(t, bins, a))
  }

  /** The bin of its class holds the block a. */
  ghost predicate InBin(t: Tiling, bins: Bins, a: int)
    requires a in t
  {
    a in bins[BinOf(t[a].size)]
  }

  /** The bins as sets: what they hold, the order among equal sizes forgotten. */
  ghost function Held(bins: Bins): seq<set<int>> {
    seq(NBINS, k requires 0 <= k < NBINS => set a | a in bins[k])
  }

  // ---- removing ----

  function Without(b: seq<int>, p: int): (r: seq<int>) {
    if b == [] then [] else if b[0] == p then b[1..] else [b[0]] + Without(b[1..], p)
  }

  /** remove_free_block on the bins. */
  function Unlist(t: Tiling, bins: Bins, p: int): Bins {
    var k := BinOf(SizeAt(t, p));
    bins[k := Without(bins[k], p)]
  }

  lemma {:induction false} WithoutAt(b: seq<int>, i: nat)
    requires i < |b| && NoDup(b)
    ensures Without(b, b[i]) == b[..i] + b[i + 1..]
  {
    if i > 0 {
      WithoutAt(b[1..], i - 1);
      assert b[0] != b[i];
      assert b[1..][i - 1] == b[i];
      assert b[1..][..i - 1] == b[1..i];
      assert b[..i] == [b[0]] + b[1..i];
      assert b[1..][i..] == b[i + 1..];
    }
  }

  lemma BinSubsequence(t: Tiling, b: seq<int>, k: nat, x: set<int>, i: nat, c: seq<int>)
    requires BinOk(t, b, k, x)
    requires i < |b| == |c| + 1
    requires forall j :: 0 <= j < |c| ==> c[j] == b[if j < i then j else j + 1]
    ensures BinOk(t, c, k, x + {b[i]})
  {
    forall j | 0 <= j < |c|
      ensures c[j] in b && c[j] != b[i]
    {
    }
  }

  lemma BinWithout(t: Tiling, b: seq<int>, k: nat, x: set<int>, i: nat)
    requires BinOk(t, b, k, x)
    requires i < |b|
    ensures BinOk(t, Without(b, b[i]), k, x + {b[i]})
    ensures forall a :: a in b && a != b[i] ==> a in Without(b, b[i])
  {
    WithoutAt(b, i);
    var c := b[..i] + b[i + 1..];
    BinSubsequence(t, b, k, x, i, c);
    forall a | a in b && a != b[i]
      ensures a in c
    {
      var j :| 0 <= j < |b| && b[j] == a;
      assert c[if j < i then j else j - 1] == a;
    }
  }

  lemma UnlistOk(t: Tiling, bins: Bins, x: set<int>, p: int)
    requires BinsOk(t, bins, x)
    requires IsFree(t, p) && p !in x
    ensures BinsOk(t, Unlist(t, bins, p), x + {p})
  {
    var k := BinOf(t[p].size);
    assert InBin(t, bins, p) && BinOk(t, bins[k], k, x);
    var i :| 0 <= i < |bins[k]| && bins[k][i] == p;
    BinWithout(t, bins[k], k, x, i);
    forall l | 0 <= l < NBINS && l != k
      ensures BinOk(t, bins[l], l, x + {p})
    {
      assert BinOk(t, bins[l], l, x);
    }
    forall a | IsFree(t, a) && a !in x + {p}
      ensures InBin(t, Unlist(t, bins, p), a)
    {
      assert InBin(t, bins, a);
    }
  }

  // ---- inserting ----

  /** The number of blocks before the first one of at least s bytes. */
  function Rank(t: Tiling, b: seq<int>, s: int): (r: nat)
    ensures r <= |b|
    ensures forall i :: 0 <= i < r ==> SizeAt(t, b[i]) < s
    ensures r < |b| ==> SizeAt(t, b[r]) >= s
  {
    if b == [] || SizeAt(t, b[0]) >= s then 0 else 1 + Rank(t, b[1..], s)
  }

  function InsertAt(b: seq<int>, i: nat, p: int): seq<int>
    requires i <= |b|
  {
    b[..i] + [p] + b[i..]
  }

  /** insert_free_block on the bins: before the first block that is not smaller. */
  function Enlist(t: Tiling, bins: Bins, p: int): Bins {
    var k := BinOf(SizeAt(t, p));
    bins[k := InsertAt(bins[k], Rank(t, bins[k], SizeAt(t, p)), p)]
  }

  /** Whatever index satisfies Rank's two bounds is Rank. */
  lemma RankUnique(t: Tiling, b: seq<int>, s: int, r: nat)
    requires r <= |b|
    requires forall i :: 0 <= i < r ==> SizeAt(t, b[i]) < s
    requires r < |b| ==> SizeAt(t, b[r]) >= s
    ensures r == Rank(t, b, s)
  {
  }

  lemma BinSupersequence(t: Tiling, b: seq<int>, k: nat, x: set<int>, p: int, r: nat, c: seq<int>)
    requires BinOk(t, b, k, x)
    requires IsFree(t, p) && p in x && BinOf(t[p].size) == k
    requires r <= |b| && |c| == |b| + 1 && c[r] == p
    requires forall j :: 0 <= j < r ==> c[j] == b[j] && t[b[j]].size < t[p].size
    requires forall j :: r < j < |c| ==> c[j] == b[j - 1] && t[b[j - 1]].size >= t[p].size
    ensures BinOk(t, c, k, x - {p})
  {
    assert AllIn(t, c);
    forall i, j | 0 <= i < j < |c|
      ensures c[i] != c[j] && t[c[i]].size <= t[c[j]].size
    {
      assert b == b[..r] + b[r..];
    }
  }

  lemma BinInsert(t: Tiling, b: seq<int>, k: nat, x: set<int>, p: int)
    requires BinOk(t, b, k, x)
    requires IsFree(t, p) && p in x && BinOf(t[p].size) == k
    ensures BinOk(t, InsertAt(b, Rank(t, b, t[p].size), p), k, x - {p})
  {
    var r := Rank(t, b, t[p].size);
    var c := InsertAt(b, r, p);
    forall j | r < j < |c|
      ensures c[j] == b[j - 1] && t[b[j - 1]].size >= t[p].size
    {
      assert t[b[r]].size <= t[b[j - 1]].size;
    }
    BinSupersequence(t, b, k, x, p, r, c);
  }

  lemma EnlistOk(t: Tiling, bins: Bins, x: set<int>, p: int)
    requires BinsOk(t, bins, x)
    requires IsFree(t, p) && p in x
    ensures BinsOk(t, Enlist(t, bins, p), x - {p})
  {
    var k := BinOf(t[p].size);
    assert BinOk(t, bins[k], k, x);
    BinInsert(t, bins[k], k, x, p);
    forall l | 0 <= l < NBINS && l != k
      ensures BinOk(t, bins[l], l, x - {p})
    {
      assert BinOk(t, bins[l], l, x);
    }
    forall a | IsFree(t, a) && a !in x - {p}
      ensures InBin(t, Enlist(t, bins, p), a)
    {
      assert a != p ==> InBin(t, bins, a);
    }
  }

  /** The bins do not notice a change of blocks they do not hold. */
  lemma BinsIgnore(t: Tiling, t': Tiling, bins: Bins, x: set<int>, x': set<int>)
    requires BinsOk(t, bins, x)
    requires forall a :: IsFree(t, a) && a !in x ==> a in t' && t'[a] == t[a] && a !in x'
    requires forall a :: IsFree(t', a) && a !in x' ==> IsFree(t, a) && t'[a] == t[a] && a !in x
    ensures BinsOk(t', bins, x')
  {
    forall k | 0 <= k < NBINS
      ensures BinOk(t', bins[k], k, x')
    {
      var b := bins[k];
      assert BinOk(t, b, k, x);
      assert forall i :: 0 <= i < |b| ==> IsFree(t, b[i]) && b[i] !in x;
    }
    forall a | IsFree(t', a) && a !in x'
      ensures InBin(t', bins, a)
    {
      assert InBin(t, bins, a);
    }
  }

  /** What bin k holds: the free blocks of class k outside x. */
  lemma BinHolds(t: Tiling, bins: Bins, x: set<int>, k: nat, a: int)
    requires BinsOk(t, bins, x) && k < NBINS
    ensures a in bins[k] <==> IsFree(t, a) && a !in x && BinOf(t[a].size) == k
  {
    assert BinOk(t, bins[k], k, x);
    if IsFree(t, a) && a !in x {
      assert InBin(t, bins, a);
    }
    if a in bins[k] {
      var i :| 0 <= i < |bins[k]| && bins[k][i] == a;
    }
  }

  lemma WithoutInserted(b: seq<int>, r: nat, p: int)
    requires r <= |b| && NoDup(InsertAt(b, r, p))
    ensures Without(InsertAt(b, r, p), p) == b
  {
    var c := InsertAt(b, r, p);
    WithoutAt(c, r);
    assert c[..r] + c[r + 1..] == b;
  }

  lemma InsertedWithout(b: seq<int>, r: nat)
    requires r < |b|
    ensures InsertAt(b[..r] + b[r + 1..], r, b[r]) == b
  {
  }

  /** Listing a block and taking it off again changes nothing. */
  lemma UnlistEnlist(t: Tiling, t': Tiling, bins: Bins, x: set<int>, p: int)
    requires BinsOk(t, bins, x)
    requires IsFree(t, p) && p in x
    requires p in t' && t'[p].size == t[p].size
    ensures Unlist(t', Enlist(t, bins, p), p) == bins
  {
    var k := BinOf(t[p].size);
    var r := Rank(t, bins[k], t[p].size);
    assert BinOk(t, bins[k], k, x);
    BinInsert(t, bins[k], k, x, p);
    WithoutInserted(bins[k], r, p);
  }

  /** Without its block at index r, a bin still ranks that block at r. */
  lemma RankWithout(t: Tiling, b: seq<int>, k: nat, x: set<int>, r: nat, s: int)
    requires BinOk(t, b, k, x)
    requires r < |b| && r == Rank(t, b, s)
    ensures Rank(t, b[..r] + b[r + 1..], t[b[r]].size) == r
  {
    var c := b[..r] + b[r + 1..];
    assert r < |c| ==> c[r] == b[r + 1];
    RankUnique(t, c, t[b[r]].size, r);
  }

  /** Taking off the first block of at least s bytes and listing it again puts it back in its
      place: all blocks before it are smaller, and ties are inserted in front. */
  lemma EnlistUnlist(t: Tiling, bins: Bins, x: set<int>, p: int, s: int)
    requires BinsOk(t, bins, x)
    requires IsFree(t, p) && p !in x && s <= t[p].size
    requires
      var b := bins[BinOf(t[p].size)];
      var r := Rank(t, b, s);
      r < |b| && b[r] == p
    ensures Enlist(t, Unlist(t, bins, p), p) == bins
  {
    var k := BinOf(t[p].size);
    var r := Rank(t, bins[k], s);
    assert BinOk(t, bins[k], k, x);
    RankWithout(t, bins[k], k, x, r, s);
    WithoutAt(bins[k], r);
    InsertedWithout(bins[k], r);
  }
}
