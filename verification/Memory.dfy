/** memlib.c: an arena of MAX_HEAP bytes with a break that moves upward. */
module Memory {
  import opened Words

  /** The words w by address, the first one at base. */
  ghost function ImageOf(base: int, w: seq<Word>): map<int, Word> {
    map i: int | 0 <= i < |w| :: base + 4 * i := w[i]
  }

  lemma ImageAt(base: int, w: seq<Word>, i: nat)
    requires i < |w|
    ensures At(ImageOf(base, w), base + 4 * i) == w[i]
  {
    var m := ImageOf(base, w);
    assert base + 4 * i in m && m[base + 4 * i] == w[i];
  }

  /** The index of the word at p in an arena that starts at base. */
  function IndexOf(base: int, p: int): (i: int)
    requires base % 8 == 0 && p % 4 == 0
    ensures base + 4 * i == p
  {
    assert p - base == 4 * (p / 4 - 2 * (base / 8));
    (p - base) / 4
  }

  /** Adding an int to an address: 32-bit unsigned arithmetic. */
  function AddressSum(p: int, n: int): (r: int)
    ensures 0 <= p < TWO_32 && 0 <= n < TWO_32 ==> 0 <= r < TWO_32 && r == (p + n) % TWO_32
  {
    if p + n < TWO_32 then p + n else p + n - TWO_32
  }

  /** mem_sbrk's test: the increment is negative or the new break is above the arena. */
  predicate Refuses(brk: int, limit: int, incr: int) {
    incr < 0 || AddressSum(brk, incr) > limit
  }

  /** The break that mem_sbrk computes is an address above the old one. */
  predicate NoWrap(brk: int, incr: int) {
    incr < 0 || brk + incr < TWO_32
  }

  /** mem_sbrk refuses exactly the increments there is no room for if and only if the new break
      does not wrap around; when it wraps, mem_sbrk accepts what it should refuse. */
  lemma RefusesRightlyIff(brk: int, limit: int, incr: int)
    requires 0 <= brk <= limit < TWO_32 && incr < TWO_31
    ensures (Refuses(brk, limit, incr) <==> incr < 0 || brk + incr > limit) <==> NoWrap(brk, incr)
  {
  }

  /** An increment beyond the arena that mem_sbrk accepts. */
  lemma WrapAccepted()
    ensures
      var brk, limit, incr := 0xF000_1038, 0xF400_0000, 0x1000_0010;
      brk + incr > limit && !Refuses(brk, limit, incr)
  {
  }

  class Mem {
    const start: int
    const limit: int
    const words: array<Word>
    var brk: int
    /** The words of the arena by address. */
    ghost var image: map<int, Word>

    /** The arena is 8-aligned, not at address 0, and its end is an address. */
    ghost predicate Valid()
      reads this, words
    {
      && 0 < start
      && start % 8 == 0
      && limit == start + MAX_HEAP
      && limit < TWO_32
      && words.Length == 0x100_0000
      && start <= brk <= limit
      && forall i {:trigger words[i]} :: 0 <= i < words.Length ==> At(image, start + 4 * i) == words[i]
    }

    /** mem_init, with the block malloc returned for the arena. */
    constructor (base: int)
      requires 0 < base && base % 8 == 0 && base + MAX_HEAP < TWO_32
      ensures Valid() && start == base && brk == base && fresh(words)
      ensures limit == base + 64 * 1024 * 1024
    {
      start := base;
      limit := base + MAX_HEAP;
      words := new Word[0x100_0000];
      brk := base;
      new;
      image := ImageOf(base, words[..]);
      forall i {:trigger words[i]} | 0 <= i < words.Length
        ensures At(image, base + 4 * i) == words[i]
      {
        ImageAt(base, words[..], i);
      }
    }

    /** A word address below the break. */
    ghost predicate InHeap(p: int)
      reads this
    {
      start <= p && p + 4 <= brk && WordAligned(p)
    }

    /** GET */
    method Get(p: int) returns (w: Word)
      requires Valid() && InHeap(p)
      ensures w == At(image, p)
    {
      assert Unfold(0);
      w := words[IndexOf(start, p)];
    }

    /** PUT */
    method Put(p: int, w: Word)
      requires Valid() && InHeap(p)
      modifies this`image, words
      ensures Valid()
      ensures image == old(image)[p := w]
    {
      assert Unfold(0);
      words[IndexOf(start, p)] := w;
      image := image[p := w];
    }

    /** mem_sbrk: the old break, or -1 with the break unmoved. The break stays in the arena unless
        the sum wraps around. */
    method Sbrk(incr: int) returns (p: int)
      requires Valid() && incr < TWO_31
      modifies this`brk
      ensures p == -1 <==> Refuses(old(brk), limit, incr)
      ensures if p == -1 then brk == old(brk) else p == old(brk) && brk == AddressSum(p, incr)
      ensures NoWrap(old(brk), incr) ==>
        && Valid()
        && (p == -1 <==> incr < 0 || old(brk) + incr > limit)
        && (p != -1 ==> brk == p + incr)
    {
      var oldBrk := brk;
      if incr < 0 || AddressSum(brk, incr) > limit {
        return -1;
      }
      brk := AddressSum(brk, incr);
      return oldBrk;
    }

    /** mem_reset_brk */
    method ResetBrk()
      requires Valid()
      modifies this`brk
      ensures Valid() && brk == start
    {
      brk := start;
    }

    function HeapLo(): int {
      start
    }

    /** mem_heap_hi: the last byte below the break. */
    function HeapHi(): int
      reads this
    {
      brk - 1
    }

    function HeapSize(): int
      reads this
    {
      brk - start
    }
  }
}
