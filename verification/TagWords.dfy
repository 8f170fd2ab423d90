/** The 32-bit form of a metadata tag: a valid bit, an 11-bit type, a 10-bit id and a 10-bit size. */
module TagWords {
  import opened Words
  import opened Tags

  const ALL_BITS: Word := 0xffff_ffff

  function TypeField(w: Word): bv11 {
    ((w >> 20) & 0x7ff) as bv11
  }

  function IdField(w: Word): bv10 {
    ((w >> 10) & 0x3ff) as bv10
  }

  function SizeField(w: Word): bv10 {
    (w & 0x3ff) as bv10
  }

  predicate Valid(w: Word) {
    w & 0x8000_0000 == 0
  }

  function MkTag(t: bv11, id: bv10, size: bv10): Word {
    ((t as Word) << 20) | ((id as Word) << 10) | (size as Word)
  }

  lemma MkTagFields(t: bv11, id: bv10, size: bv10)
    ensures TypeField(MkTag(t, id, size)) == t && IdField(MkTag(t, id, size)) == id
    ensures SizeField(MkTag(t, id, size)) == size && Valid(MkTag(t, id, size))
  {
  }

  /** The tag a word stands for; the valid bit is no part of it. */
  function Decode(w: Word): (t: Tag)
    ensures t.id <= ALL_ONES && t.size <= ALL_ONES
  {
    FieldBounds(TypeField(w), IdField(w), SizeField(w));
    Tag(TypeField(w) as int, IdField(w) as nat, SizeField(w) as nat)
  }

  lemma FieldBounds(t: bv11, id: bv10, size: bv10)
    ensures t as int < 0x800 && id as int <= 0x3ff && size as int <= 0x3ff
  {
  }

  /** What a tag and its data take on disk; a removal has no data. */
  function DSize(w: Word): (n: nat)
    ensures 4 <= n <= 4 + ALL_ONES
  {
    4 + if IsRemoval(Decode(w)) then 0 else Decode(w).size
  }

  /** The word with the valid bit inverted. */
  function Flip(w: Word): Word {
    w ^ 0x8000_0000
  }

  /** The word with the valid bit set to valid. */
  function Clear(w: Word): Word {
    w & 0x7fff_ffff
  }

  predicate SameFields(a: Word, b: Word) {
    TypeField(a) == TypeField(b) && IdField(a) == IdField(b) && SizeField(a) == SizeField(b)
  }

  lemma SameTag(a: Word, b: Word)
    requires SameFields(a, b)
    ensures Decode(a) == Decode(b) && DSize(a) == DSize(b)
  {
    hide TypeField, IdField, SizeField;
  }

  lemma FlipValid(w: Word)
    ensures Valid(Flip(w)) == !Valid(w)
  {
  }

  lemma FlipClear(w: Word)
    ensures Clear(Flip(w)) == Clear(w)
  {
  }

  lemma FlipFields(w: Word)
    ensures SameFields(Flip(w), w)
  {
    hide *;
    ClearFields(w);
    ClearFields(Flip(w));
    FlipClear(w);
    SameFieldsChain(Flip(w), Clear(w), w);
  }

  lemma SameFieldsChain(a: Word, b: Word, c: Word)
    requires SameFields(b, a) && SameFields(b, c)
    ensures SameFields(a, c)
  {
    hide TypeField, IdField, SizeField;
  }

  lemma ClearFields(w: Word)
    ensures Valid(Clear(w)) && (Valid(w) ==> Clear(w) == w) && SameFields(Clear(w), w)
  {
  }

  lemma FlipOnlyFlips(w: Word)
    ensures Valid(Flip(w)) == !Valid(w) && Clear(Flip(w)) == Clear(w)
    ensures Decode(Flip(w)) == Decode(w) && DSize(Flip(w)) == DSize(w)
  {
    hide *;
    FlipValid(w);
    FlipClear(w);
    FlipFields(w);
    SameTag(Flip(w), w);
  }

  lemma ClearOnlyClears(w: Word)
    ensures Valid(Clear(w)) && (Valid(w) ==> Clear(w) == w)
    ensures Decode(Clear(w)) == Decode(w) && DSize(Clear(w)) == DSize(w)
  {
    hide *;
    ClearFields(w);
    SameTag(Clear(w), w);
  }

  /** The valid bit of an XOR: valid exactly when both or neither of the words are. */
  lemma XorValid(a: Word, b: Word)
    ensures Valid(Xor(a, b)) == (Valid(a) == Valid(b))
  {
  }

  lemma AllBits()
    ensures !Valid(ALL_BITS) && DSize(ALL_BITS) == 4 && DSize(Clear(ALL_BITS)) == 4
  {
    assert SizeField(ALL_BITS) == 0x3ff;
    assert SizeField(Clear(ALL_BITS)) == 0x3ff;
    assert (0x3ff as bv10) as nat == 0x3ff;
  }

  // ---- the tags the writer makes ----

  /** The size field that holds a number. */
  function SizeOf(n: nat): bv10 {
    if n == 0 then 0 else Succ(SizeOf(n - 1))
  }

  function Succ(b: bv10): bv10 {
    b + 1
  }

  lemma SuccIs(b: bv10)
    requires b != 0x3ff
    ensures Succ(b) as nat == b as nat + 1
  {
  }

  lemma MaxField()
    ensures (0x3ff as bv10) as nat == 0x3ff
  {
  }

  lemma {:induction false} SizeOfIs(n: nat)
    requires n < 0x400
    ensures SizeOf(n) as nat == n
  {
    hide Succ;
    if n > 0 {
      SizeOfIs(n - 1);
      MaxField();
      SuccIs(SizeOf(n - 1));
    }
  }

  /** The tag of a checksum: its chunk tells whether the valid bit of the next tag is inverted. */
  function CrcTag(reset: bool, size: nat): Word {
    MkTag(if reset then 0x501 else 0x500, 0x3ff, SizeOf(size))
  }

  lemma CrcTagDecodes(reset: bool, size: nat)
    requires size < 0x400
    ensures Valid(CrcTag(reset, size))
    ensures Decode(CrcTag(reset, size)) == Tag(if reset then CRC + 1 else CRC, ALL_ONES, size)
  {
    hide TypeField, IdField, SizeField, MkTag, Valid, SizeOf, Succ;
    MkTagFields(if reset then 0x501 else 0x500, 0x3ff, SizeOf(size));
    SizeOfIs(size);
    MaxField();
    CrcTypes();
  }

  lemma CrcTypes()
    ensures (0x500 as bv11) as int == CRC && (0x501 as bv11) as int == CRC + 1
  {
  }
}
