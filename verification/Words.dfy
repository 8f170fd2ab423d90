/** Bytes and 32-bit words, the operations on them, and their byte orders. */
module Words {
  type Byte = bv8
  type Word = bv32

  function Xor(a: Word, b: Word): Word {
    a ^ b
  }

  lemma XorCommutes(a: Word, b: Word)
    ensures Xor(a, b) == Xor(b, a)
  {
  }

  lemma XorAssociates(a: Word, b: Word, c: Word)
    ensures Xor(Xor(a, b), c) == Xor(a, Xor(b, c))
  {
    RawXor(a, b, c);
  }

  lemma RawXor(a: Word, b: Word, c: Word)
    ensures (a ^ b) ^ c == a ^ (b ^ c)
  {
  }

  lemma XorSelf(a: Word)
    ensures Xor(a, a) == 0 && Xor(a, 0) == a && Xor(0, a) == a
  {
  }

  /** Applying the same word twice undoes it. */
  lemma XorCancels(a: Word, b: Word)
    ensures Xor(Xor(a, b), b) == a
  {
    XorAssociates(a, b, b);
    XorSelf(b);
    XorSelf(a);
  }

  /** Big-endian bytes, the order tags are stored in. */
  function Be(w: Word): (s: seq<Byte>)
    ensures |s| == 4
  {
    [((w >> 24) & 0xff) as Byte, ((w >> 16) & 0xff) as Byte, ((w >> 8) & 0xff) as Byte, (w & 0xff) as Byte]
  }

  function FromBe(s: seq<Byte>): Word
    requires |s| == 4
  {
    ((s[0] as Word) << 24) | ((s[1] as Word) << 16) | ((s[2] as Word) << 8) | (s[3] as Word)
  }

  /** Little-endian bytes, the order of everything else on disk. */
  function Le(w: Word): (s: seq<Byte>)
    ensures |s| == 4
  {
    [(w & 0xff) as Byte, ((w >> 8) & 0xff) as Byte, ((w >> 16) & 0xff) as Byte, ((w >> 24) & 0xff) as Byte]
  }

  function FromLe(s: seq<Byte>): Word
    requires |s| == 4
  {
    (s[0] as Word) | ((s[1] as Word) << 8) | ((s[2] as Word) << 16) | ((s[3] as Word) << 24)
  }

  lemma RoundTrip(w: Word)
    ensures FromBe(Be(w)) == w && FromLe(Le(w)) == w
  {
  }
}
