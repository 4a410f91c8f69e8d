/** The tiling of the heap: every block between the prologue and the epilogue,
    keyed by the address of its payload (the `bp` of mm.c). */
module Tiles {

  datatype Block = Block(size: int, alloc: bool)

  type Tiling = map<int, Block>

  predicate IsFree(t: Tiling, a: int) {
    a in t && !t[a].alloc
  }

  predicate IsLive(t: Tiling, a: int) {
    a in t && t[a].alloc
  }

  /** NEXT_BLKP on the tiling. */
  function Next(t: Tiling, a: int): int
    requires a in t
  {
    a + t[a].size
  }

  /** The blocks cover [lo, hi) without gap or overlap; every size is a multiple of 8 and
      at least 16. */
  ghost predicate Tiled(t: Tiling, lo: int, hi: int) {
    && lo % 8 == 0
    && hi % 8 == 0
    && lo <= hi
    && (lo < hi ==> lo in t)
    && (forall a :: a in t ==>
          && lo <= a
          && a % 8 == 0
          && t[a].size % 8 == 0
          && 16 <= t[a].size
          && a + t[a].size <= hi)
    && (forall a {:trigger Next(t, a)} :: a in t ==> Next(t, a) == hi || Next(t, a) in t)
    && (forall a, b :: a in t && b in t && a < b ==> a + t[a].size <= b)
  }

  /** No two neighbours are both free, the block x set aside. */
  ghost predicate NoFreePair(t: Tiling, x: int) {
    forall a {:trigger Next(t, a)} ::
      IsFree(t, a) && a != x && Next(t, a) != x ==> !IsFree(t, Next(t, a))
  }

  /** Where a block starts, or the tiling ends, another block ends; lo alone is excepted. */
  lemma {:induction false} PredecessorExists(t: Tiling, lo: int, hi: int, c: int, b: int)
    requires Tiled(t, lo, hi)
    requires c in t && (b in t || b == hi) && c < b
    ensures exists q :: q in t && Next(t, q) == b
    decreases b - c
  {
    if Next(t, c) != b {
      PredecessorExists(t, lo, hi, Next(t, c), b);
    }
  }

  /** Absorb the block after a, if there is one, into a. */
  function Fuse(t: Tiling, a: int): Tiling {
    if a in t && Next(t, a) in t
    then (t - {Next(t, a)})[a := Block(t[a].size + t[Next(t, a)].size, false)]
    else t
  }

  lemma FuseApart(t: Tiling, lo: int, hi: int, a: int)
    requires Tiled(t, lo, hi) && a in t && Next(t, a) in t
    ensures
      var f := Fuse(t, a);
      forall b, c :: b in f && c in f && b < c ==> b + f[b].size <= c
  {
    var f := Fuse(t, a);
    forall b, c | b in f && c in f && b < c
      ensures b + f[b].size <= c
    {
      assert b in t && c in t;
    }
  }

  lemma FuseSized(t: Tiling, lo: int, hi: int, a: int)
    requires Tiled(t, lo, hi) && a in t && Next(t, a) in t
    ensures
      var f := Fuse(t, a);
      forall b :: b in f ==>
        lo <= b && b % 8 == 0 && f[b].size % 8 == 0 && 16 <= f[b].size && b + f[b].size <= hi
  {
    assert (t[a].size + t[Next(t, a)].size) % 8 == 0;
  }

  lemma FuseTiled(t: Tiling, lo: int, hi: int, a: int)
    requires Tiled(t, lo, hi)
    requires a in t && Next(t, a) in t
    ensures Tiled(Fuse(t, a), lo, hi)
    ensures Next(Fuse(t, a), a) == Next(t, Next(t, a))
  {
    var n := Next(t, a);
    var f := Fuse(t, a);
    FuseApart(t, lo, hi, a);
    FuseSized(t, lo, hi, a);
    forall b {:trigger Next(f, b)} | b in f
      ensures Next(f, b) == hi || Next(f, b) in f
    {
      if b == a {
        assert Next(f, a) == Next(t, n);
      } else {
        assert Next(f, b) == Next(t, b);
      }
    }
  }

  /** Cut the block a into an allocated front of `front` bytes and a free rest. */
  function Split(t: Tiling, a: int, front: int): Tiling
    requires a in t
  {
    t[a := Block(front, true)][a + front := Block(t[a].size - front, false)]
  }

  lemma SplitApart(t: Tiling, lo: int, hi: int, a: int, front: int)
    requires Tiled(t, lo, hi)
    requires a in t
    requires 16 <= front <= t[a].size - 16
    ensures
      var s := Split(t, a, front);
      forall b, c :: b in s && c in s && b < c ==> b + s[b].size <= c
  {
    var s := Split(t, a, front);
    forall b, c | b in s && c in s && b < c
      ensures b + s[b].size <= c
    {
      assert b == a + front || b in t;
      assert c == a + front || c in t;
    }
  }

  lemma EightParts(a: int, front: int, size: int)
    requires a % 8 == 0 && front % 8 == 0 && size % 8 == 0
    ensures (a + front) % 8 == 0 && (size - front) % 8 == 0
  {
    assert a + front == 8 * (a / 8 + front / 8) && size - front == 8 * (size / 8 - front / 8);
  }

  lemma SplitSized(t: Tiling, lo: int, hi: int, a: int, front: int)
    requires Tiled(t, lo, hi)
    requires a in t
    requires front % 8 == 0 && 16 <= front <= t[a].size - 16
    ensures
      var s := Split(t, a, front);
      forall b :: b in s ==>
        lo <= b && b % 8 == 0 && s[b].size % 8 == 0 && 16 <= s[b].size && b + s[b].size <= hi
  {
    EightParts(a, front, t[a].size);
    var s := Split(t, a, front);
    forall b | b in s
      ensures lo <= b && b % 8 == 0 && s[b].size % 8 == 0 && 16 <= s[b].size && b + s[b].size <= hi
    {
      assert b == a || b == a + front || (b in t && s[b] == t[b]);
    }
  }

  lemma SplitTiled(t: Tiling, lo: int, hi: int, a: int, front: int)
    requires Tiled(t, lo, hi)
    requires a in t
    requires front % 8 == 0 && 16 <= front <= t[a].size - 16
    ensures a + front !in t
    ensures Tiled(Split(t, a, front), lo, hi)
  {
    var s := Split(t, a, front);
    SplitApart(t, lo, hi, a, front);
    SplitSized(t, lo, hi, a, front);
    forall b {:trigger Next(s, b)} | b in s
      ensures Next(s, b) == hi || Next(s, b) in s
    {
      if b == a {
      } else if b == a + front {
        assert Next(s, b) == Next(t, a);
      } else {
        assert Next(s, b) == Next(t, b);
      }
    }
  }

  /** Changing the allocated bit of one block keeps the tiling. */
  lemma SetAllocTiled(t: Tiling, lo: int, hi: int, a: int, alloc: bool)
    requires Tiled(t, lo, hi)
    requires a in t
    ensures Tiled(t[a := Block(t[a].size, alloc)], lo, hi)
  {
    var s := t[a := Block(t[a].size, alloc)];
    forall b | b in s
      ensures Next(s, b) == hi || Next(s, b) in s
    {
      assert Next(s, b) == Next(t, b);
    }
  }

  /** A block of size bytes appended at the end. */
  lemma AppendTiled(t: Tiling, lo: int, hi: int, size: int)
    requires Tiled(t, lo, hi)
    requires size % 8 == 0 && 16 <= size
    ensures hi !in t
    ensures Tiled(t[hi := Block(size, false)], lo, hi + size)
  {
    var s := t[hi := Block(size, false)];
    forall b | b in s
      ensures Next(s, b) == hi + size || Next(s, b) in s
    {
      if b != hi {
        assert Next(s, b) == Next(t, b);
      }
    }
  }
}
