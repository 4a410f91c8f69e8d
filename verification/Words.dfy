/** The words of the simulated heap: the constants of mm.c and config.h and the
    macros that pack a block size and an allocated bit into one 32-bit word. WSIZE and DSIZE
    are written 4 and 8 throughout. */
module Words {

  const CHUNKSIZE: int := 4096
  const MAX_HEAP: int := 0x400_0000
  const TWO_31: int := 0x8000_0000
  const TWO_32: int := 0x1_0000_0000

  /** An `unsigned int`, the unit GET and PUT move. */
  type Word = w: int | 0 <= w < TWO_32

  /** Facts stated as `forall i :: Unfold(i) ==> P` are carried as one; a proof that needs P
      mentions Unfold. It keeps divisibility and the heap invariant out of the way of the address
      arithmetic. */
  predicate Unfold(i: int) {
    true
  }

  /** A word address. */
  ghost predicate WordAligned(a: int) {
    forall i {:trigger Unfold(i)} :: Unfold(i) ==> a % 4 == 0
  }

  /** A block size: its low three bits are free for the allocated bit. */
  ghost predicate BlockSized(size: int) {
    forall i {:trigger Unfold(i)} :: Unfold(i) ==> size % 8 == 0
  }

  lemma MultipleAligned(k: int, a: int)
    requires a == 4 * k
    ensures WordAligned(a)
  {
  }

  /** Whole words away from a double word there is a word. */
  lemma WordsAway(a: int, j: int)
    requires a % 8 == 0
    ensures WordAligned(a + 4 * j)
  {
    MultipleAligned(2 * (a / 8) + j, a + 4 * j);
  }

  lemma AlignedAround(a: int)
    requires a % 8 == 0
    ensures WordAligned(a - 8) && WordAligned(a - 4) && WordAligned(a) && WordAligned(a + 4)
  {
    WordsAway(a, -2);
    WordsAway(a, -1);
    WordsAway(a, 0);
    WordsAway(a, 1);
  }

  lemma EightSum(a: int, b: int)
    requires a % 8 == 0 && b % 8 == 0
    ensures (a + b) % 8 == 0
  {
    assert a + b == 8 * (a / 8 + b / 8);
  }

  lemma SizedSum(a: int, b: int, c: int)
    requires BlockSized(a) && BlockSized(b) && c == a + b
    ensures BlockSized(c)
  {
    assert Unfold(0);
  }

  lemma LowBits(size: int, q: int)
    requires size == 8 * q
    ensures (size + 1) % 8 == 1 && (size + 1) % 2 == 1 && size % 2 == 0
  {
    Remainder8(size + 1, q, 1);
    Remainder2(size + 1, 4 * q, 1);
    Remainder2(size, 4 * q, 0);
  }

  lemma Remainder8(a: int, q: int, r: int)
    requires a == 8 * q + r && 0 <= r < 8
    ensures a % 8 == r
  {
    var e := a / 8 - q;
    assert a % 8 == r - 8 * e;
    assert -1 < e < 1;
  }

  lemma Remainder2(a: int, q: int, r: int)
    requires a == 2 * q + r && 0 <= r < 2
    ensures a % 2 == r
  {
    var e := a / 2 - q;
    assert a % 2 == r - 2 * e;
    assert -1 < e < 1;
  }

  lemma SizedDifference(a: int, b: int)
    requires a % 8 == 0 && b % 8 == 0
    ensures BlockSized(a - b)
  {
    assert a - b == 8 * (a / 8 - b / 8);
  }

  /** PACK(size, alloc): the low three bits of a size are zero, so `|` is `+`. */
  function Pack(size: int, alloc: bool): (w: Word)
    requires 0 <= size < TWO_32 && size % 8 == 0
    ensures SizeField(w) == size
    ensures AllocField(w) == if alloc then 1 else 0
  {
    LowBits(size, size / 8);
    if alloc then size + 1 else size
  }

  /** GET_SIZE's mask `& ~0x7`. */
  function SizeField(w: Word): Word {
    w - w % 8
  }

  /** GET_ALLOC's mask `& 0x1`. */
  function AllocField(w: Word): Word {
    w % 2
  }

  /** The arithmetic above is the masking of the source, bit for bit. */
  lemma MasksAreArithmetic(w: bv32)
    ensures w & !7 == w - w % 8
    ensures w & 1 == w % 2
    ensures w & 7 == 0 ==> w | 1 == w + 1
  {
  }

  /** The word stored at address a; addresses outside the map read as 0. */
  function At(m: map<int, Word>, a: int): Word {
    if a in m then m[a] else 0
  }
}
