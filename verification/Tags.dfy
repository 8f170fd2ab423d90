/** Metadata tags as the log sees them: an 11-bit type, an entry id and a size.
    The top three bits of the type are the class ("type1"), the low eight its chunk. */
module Tags {
  import opened Words

  type Type3 = t: int | 0 <= t < 0x800

  const NAME: Type3 := 0x000
  const FROM: Type3 := 0x100
  const STRUCT: Type3 := 0x200
  const USERATTR: Type3 := 0x300
  const SPLICE: Type3 := 0x400
  const CREATE: Type3 := 0x401
  const DELETE: Type3 := 0x4ff
  const CRC: Type3 := 0x500
  const TAIL: Type3 := 0x600
  const FROM_MOVE: Type3 := 0x101
  const FROM_USERATTRS: Type3 := 0x102

  /** The id field of tags that belong to no entry, and the size field that marks a removal. */
  const ALL_ONES: nat := 0x3ff

  datatype Tag = Tag(type3: Type3, id: nat, size: nat)

  function Type1(t: Type3): Type3 {
    t - t % 0x100
  }

  /** The chunk of a splice tag read as a signed byte: the change in the entry count. */
  function Splice(t: Type3): int {
    var chunk := t % 0x100;
    if chunk < 0x80 then chunk else chunk - 0x100
  }

  predicate IsSplice(t: Tag) {
    Type1(t.type3) == SPLICE
  }

  predicate IsRemoval(t: Tag) {
    t.size == ALL_ONES
  }

  /** Tags the writer puts on disk: no in-memory pseudo tags, and the only splices are
      the creation and the deletion of one entry. */
  predicate OnDisk(t: Tag) {
    && Type1(t.type3) != FROM
    && t.type3 != 0
    && (IsSplice(t) ==> t.type3 in {CREATE, DELETE} && t.size == 0)
  }

  type DiskTag = t: Tag | OnDisk(t) witness Tag(CREATE, 0, 0)

  datatype Entry = Entry(tag: DiskTag, data: seq<Byte>)

  /** Bit 0x100 of the type says that every chunk is an attribute of its own; without it
      the whole class holds one attribute. */
  predicate PerChunk(t: Type3) {
    t / 0x100 % 2 == 1
  }

  /** The attribute a tag sets: its class, or its exact type where chunks are separate. */
  function Key(t: Type3): Type3 {
    if PerChunk(t) then t else Type1(t)
  }

  /** Attributes that belong to an entry: its name, its structure and its user attributes. */
  predicate IsAttr(t: Type3) {
    t < SPLICE && Type1(t) != FROM
  }
}
