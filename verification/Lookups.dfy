/** What the lookups of the file system read from a block: names, structures and user attributes of files,
    each by its own tag types. */
module Lookups {
  import opened Words
  import opened Tags
  import opened TagWords
  import opened DirBlock
  import opened DirGet
  import opened MetaLog
  import opened Meaning

  function NameOf(files: seq<File>, id: nat): Option<Value> {
    if id < |files| then files[id].name else None
  }

  function StructureOf(files: seq<File>, id: nat): Option<Value> {
    if id < |files| then files[id].structure else None
  }

  /** The files that a log holds once a pending move has taken its entry away. */
  function FilesIn(log: seq<Entry>, moved: Option<nat>): seq<File> {
    var files := PlayAll([], log);
    if moved.Some? && moved.value < |files| then files[..moved.value] + files[moved.value + 1..] else files
  }

  /** User attributes are looked up by their whole type, names and structures by their class. */
  lemma QueryMasks(kind: bv11)
    ensures kind as int < 0x800 && ByKey(kind).kind == kind && ByKey(kind).entry
    ensures 0x300 <= kind as int < 0x400 ==> ByKey(kind).mask == 0x7ff
    ensures kind as int < 0x100 || 0x200 <= kind as int < 0x300 ==> ByKey(kind).mask == 0x700
  {
    ClassBits(kind);
  }

  /** What a lookup of this type returns. */
  function Wanted(files: seq<File>, kind: int, id: nat): Option<Value> {
    if kind < 0x100 then NameOf(files, id)
    else if kind < 0x300 then StructureOf(files, id)
    else User(files, id, kind - 0x300)
  }

  lemma GetIsWanted(dir: Dir, id: nat, kind: Type3)
    requires kind < 0x100 || 0x200 <= kind < 0x400
    ensures Get(dir, id, Key(kind)) == Wanted(Files(dir), kind, id)
  {
    hide Users, Key;
    KeyIs(kind);
    if id < |dir| && kind >= 0x300 {
      UsersHas(dir[id], kind - 0x300);
    }
  }

  lemma MovedFiles(log: seq<Entry>, moved: Option<nat>)
    ensures Files(Replay(log + MovedAway(moved))) == FilesIn(log, moved)
  {
    hide FileOf, Files, PlayAll, ReplayFrom;
    ReplayIsPlay(log);
    if moved.None? {
      assert log + MovedAway(moved) == log;
    } else {
      var del := Entry(Tag(0x4ff, moved.value, 0), []);
      ReplayAppend([], log, [del]);
      OneApplied(Replay(log), del);
      ApplyIsPlay(Replay(log), del);
    }
  }

  lemma OneApplied(dir: Dir, e: Entry)
    ensures ReplayFrom(dir, [e]) == Apply(dir, e)
  {
    assert [e][1..] == [];
  }

  /** A lookup in a block reads what the file has: a user attribute by its own type, whatever other ones
      are set; the one name and the one structure there are; and nothing if the file has none. */
  lemma FileIsRead(block: seq<Byte>, log: seq<Raw>, etag: Word, kind: bv11, mask: bv11, moved: Option<nat>, id: nat,
                   size: nat)
    requires Holds(block, log) && AreOnDisk(log) && etag == Last(ALL_BITS, log)
    requires kind as int < 0x100 || 0x200 <= kind as int < 0x400
    requires mask == if 0x300 <= kind as int then 0x7ff else 0x700
    ensures 4 + Span(log) <= |block|
    ensures var q := Query(mask, kind, true);
            Slice(block, Lookup(block, 4 + Span(log), etag, q, StartId(q, moved, id)), id, 0, size)
            == match Wanted(FilesIn(Entries(log), moved), kind as int, id)
               case None => NoEntry
               case Some(v) => Cut(v, id, size)
  {
    hide Decode, Lookup, Last, AreOnDisk, Get, Replay, Holds, Key, IsAttr, Wanted, FilesIn, Span, Slice, Files,
         ByKey, PerChunk;
    QueryMasks(kind);
    KeyIs(kind as int);
    GetIsReplay(block, log, etag, kind, moved, id, size);
    MovedFiles(Entries(log), moved);
    GetIsWanted(Replay(Entries(log) + MovedAway(moved)), id, kind as int);
  }

  /** A buffer receives as much of a value as it holds, and zeros behind it. */
  lemma CutBytes(v: Value, id: nat, size: nat)
    ensures var got := Cut(v, id, size);
            && got.Data? && got.type3 == v.type3 && got.id == id && got.size == v.size && |got.bytes| == size
            && forall i | 0 <= i < size :: got.bytes[i] == if i < |v.data| then v.data[i] else 0
  {
  }

  /** And so does reading part of it. */
  lemma PartIsRead(block: seq<Byte>, log: seq<Raw>, etag: Word, kind: bv11, mask: bv11, moved: Option<nat>, id: nat,
                   from: nat, size: nat)
    requires Holds(block, log) && AreOnDisk(log) && etag == Last(ALL_BITS, log)
    requires kind as int < 0x100 || 0x200 <= kind as int < 0x400
    requires mask == if 0x300 <= kind as int then 0x7ff else 0x700
    ensures 4 + Span(log) <= |block|
    ensures var q := Query(mask, kind, true);
            var r := Slice(block, Lookup(block, 4 + Span(log), etag, q, StartId(q, moved, id)), id, from, size);
            match Wanted(FilesIn(Entries(log), moved), kind as int, id)
            case None => r == NoEntry
            case Some(v) =>
              && |v.data| == v.size
              && (from + (if v.size < size then v.size else size) <= v.size ==> r == Part(v, id, from, size))
  {
    hide Decode, Lookup, Last, AreOnDisk, Get, Replay, Holds, Key, IsAttr, Wanted, FilesIn, Span, Slice, Files,
         ByKey, PerChunk, Part;
    QueryMasks(kind);
    KeyIs(kind as int);
    GetPartIsReplay(block, log, etag, kind, moved, id, from, size);
    MovedFiles(Entries(log), moved);
    GetIsWanted(Replay(Entries(log) + MovedAway(moved)), id, kind as int);
  }

  /** The value set last is the one that is read, also when other attributes were set after it. */
  lemma {:induction false} LastIsKept(files: seq<File>, after: seq<Entry>, id: nat, a: int)
    requires 0 <= a < 0x100 && id < |files|
    requires forall i | 0 <= i < |after| :: !(0x400 <= after[i].tag.type3 < 0x500)
    requires forall i | 0 <= i < |after| :: after[i].tag.type3 != 0x300 + a || after[i].tag.id != id
    ensures User(PlayAll(files, after), id, a) == User(files, id, a)
    decreases |after|
  {
    if after != [] {
      var t := after[0].tag;
      LastIsKept(Play(files, t.type3, t.id, t.size, after[0].data), after[1..], id, a);
    }
  }

  lemma SetIsRead(before: seq<Entry>, after: seq<Entry>, a: int, id: nat, size: nat, data: seq<Byte>)
    requires 0 <= a < 0x100
    requires forall i | 0 <= i < |after| :: !(0x400 <= after[i].tag.type3 < 0x500)
    requires forall i | 0 <= i < |after| :: after[i].tag.type3 != 0x300 + a || after[i].tag.id != id
    ensures var e := Entry(Tag(0x300 + a, id, size), data);
            User(PlayAll([], before + [e] + after), id, a)
            == if size == 0x3ff then None else Some(Value(0x300 + a, size, data))
  {
    var e := Entry(Tag(0x300 + a, id, size), data);
    PlayAppend([], before + [e], after);
    PlayAppend([], before, [e]);
    var files := PlayAll([], before);
    assert [e][1..] == [];
    LastIsKept(Play(files, 0x300 + a, id, size, data), after, id, a);
  }

  lemma {:induction false} PlayAppend(files: seq<File>, a: seq<Entry>, b: seq<Entry>)
    ensures PlayAll(files, a + b) == PlayAll(PlayAll(files, a), b)
    decreases |a|
  {
    hide Play;
    if a == [] {
      assert a + b == b;
    } else {
      assert (a + b)[1..] == a[1..] + b;
      var t := a[0].tag;
      PlayAppend(Play(files, t.type3, t.id, t.size, a[0].data), a[1..], b);
    }
  }
}
