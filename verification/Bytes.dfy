/** The four bytes of a word, lowest address first, for the stores of memset. */
module Bytes {
  import opened Words

  /** Byte i of w. */
  function Byte(w: Word, i: int): int
    requires 0 <= i < 4
  {
    if i == 0 then w % 0x100
    else if i == 1 then w / 0x100 % 0x100
    else if i == 2 then w / 0x1_0000 % 0x100
    else w / 0x100_0000
  }

  function Compose(b0: int, b1: int, b2: int, b3: int): int {
    b0 + 0x100 * b1 + 0x1_0000 * b2 + 0x100_0000 * b3
  }

  lemma ComposeBytes(b0: int, b1: int, b2: int, b3: int)
    requires 0 <= b0 < 0x100 && 0 <= b1 < 0x100 && 0 <= b2 < 0x100 && 0 <= b3 < 0x100
    ensures 0 <= Compose(b0, b1, b2, b3) < TWO_32
    ensures Byte(Compose(b0, b1, b2, b3), 0) == b0 && Byte(Compose(b0, b1, b2, b3), 1) == b1
    ensures Byte(Compose(b0, b1, b2, b3), 2) == b2 && Byte(Compose(b0, b1, b2, b3), 3) == b3
  {
    var w := Compose(b0, b1, b2, b3);
    assert w / 0x100 == b1 + 0x100 * b2 + 0x1_0000 * b3;
    assert w / 0x1_0000 == b2 + 0x100 * b3;
    assert w / 0x100_0000 == b3;
  }

  lemma BytesBounded(w: Word, i: int)
    requires 0 <= i < 4
    ensures 0 <= Byte(w, i) < 0x100
  {
  }

  /** w with byte i replaced by v. */
  function SetByte(w: Word, i: int, v: int): (r: Word)
    requires 0 <= i < 4 && 0 <= v < 0x100
  {
    var b0 := if i == 0 then v else Byte(w, 0);
    var b1 := if i == 1 then v else Byte(w, 1);
    var b2 := if i == 2 then v else Byte(w, 2);
    var b3 := if i == 3 then v else Byte(w, 3);
    BytesBounded(w, 0);
    BytesBounded(w, 1);
    BytesBounded(w, 2);
    BytesBounded(w, 3);
    ComposeBytes(b0, b1, b2, b3);
    Compose(b0, b1, b2, b3)
  }

  lemma SetByteReads(w: Word, i: int, v: int, j: int)
    requires 0 <= i < 4 && 0 <= v < 0x100 && 0 <= j < 4
    ensures Byte(SetByte(w, i, v), j) == if i == j then v else Byte(w, j)
  {
    BytesBounded(w, 0);
    BytesBounded(w, 1);
    BytesBounded(w, 2);
    BytesBounded(w, 3);
    ComposeBytes(if i == 0 then v else Byte(w, 0), if i == 1 then v else Byte(w, 1),
                 if i == 2 then v else Byte(w, 2), if i == 3 then v else Byte(w, 3));
  }

  /** The address of the word that holds the byte at a. */
  function WordOf(a: int): int {
    a - a % 4
  }

  lemma WordInside(a: int, x: int)
    requires a % 4 == 0 && a <= x
    ensures a <= WordOf(x) <= x
  {
    assert WordOf(x) == 4 * (x / 4) && a == 4 * (a / 4);
  }

  /** The byte at address a. */
  function ByteAt(m: map<int, Word>, a: int): int {
    Byte(At(m, WordOf(a)), a % 4)
  }

  lemma SameWord(m: map<int, Word>, m': map<int, Word>, a: int)
    requires At(m', WordOf(a)) == At(m, WordOf(a))
    ensures ByteAt(m', a) == ByteAt(m, a)
  {
  }

  /** The words after a store of v to the byte at a. */
  function Stored(m: map<int, Word>, a: int, v: int): map<int, Word>
    requires 0 <= v < 0x100
  {
    m[WordOf(a) := SetByte(At(m, WordOf(a)), a % 4, v)]
  }

  /** A byte store changes that byte and no other. */
  lemma StoredReads(m: map<int, Word>, a: int, v: int, b: int)
    requires 0 <= v < 0x100
    ensures ByteAt(Stored(m, a, v), b) == if a == b then v else ByteAt(m, b)
  {
    SetByteReads(At(m, WordOf(a)), a % 4, v, b % 4);
    if WordOf(a) == WordOf(b) && a % 4 == b % 4 {
      assert a == b;
    }
  }
}
