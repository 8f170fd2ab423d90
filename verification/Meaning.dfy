/** What a log means, told tag type by tag type: files with a name, a structure and user attributes. The
    replay, the lookups and the compaction, which work on attribute keys, are shown to keep to it. */
module Meaning {
  import opened Words
  import opened Tags
  import opened MetaLog
  import opened Compaction
  import opened CompactionProof
  import opened Rename

  /** An entry of a directory: user attributes go by their own numbers, 0 to 0xff. */
  datatype File = File(name: Option<Value>, structure: Option<Value>, users: map<int, Value>)

  const BLANK: File := File(None, None, map[])

  /** A directory with room for at least n entries. */
  function Room(files: seq<File>, n: nat): seq<File> {
    files + seq(if n > |files| then n - |files| else 0, _ => BLANK)
  }

  /** One tag of the log, by its type. */
  function Play(files: seq<File>, kind: int, id: nat, size: nat, data: seq<Byte>): seq<File>
    requires 0 <= kind < 0x800
  {
    var value := if size == 0x3ff then None else Some(Value(kind, size, data));
    if kind == 0x401 then
      Room(files, id)[..id] + [BLANK] + Room(files, id)[id..]
    else if kind == 0x4ff then
      if id < |files| then files[..id] + files[id + 1..] else files
    else if kind < 0x100 then
      var f := Room(files, id + 1);
      f[id := f[id].(name := value)]
    else if 0x200 <= kind < 0x300 then
      var f := Room(files, id + 1);
      f[id := f[id].(structure := value)]
    else if 0x300 <= kind < 0x400 then
      var f := Room(files, id + 1);
      var a := kind - 0x300;
      f[id := f[id].(users := if value.Some? then f[id].users[a := value.value] else f[id].users - {a})]
    else
      files
  }

  function PlayAll(files: seq<File>, log: seq<Entry>): seq<File>
    decreases |log|
  {
    if log == [] then files
    else
      var t := log[0].tag;
      PlayAll(Play(files, t.type3, t.id, t.size, log[0].data), log[1..])
  }

  /** The attributes of an entry as a file. */
  function FileOf(attrs: Attrs): File {
    File(At(attrs, 0x000), At(attrs, 0x200), Users(attrs))
  }

  function Users(attrs: Attrs): map<int, Value> {
    map a | 0 <= a < 0x100 && UserType(a) in attrs :: attrs[UserType(a)]
  }

  function UserType(a: int): Type3
    requires 0 <= a < 0x100
  {
    0x300 + a
  }

  function At(attrs: Attrs, key: Type3): Option<Value> {
    if key in attrs then Some(attrs[key]) else None
  }

  function Files(dir: Dir): (files: seq<File>)
    ensures |files| == |dir| && forall i | 0 <= i < |dir| :: files[i] == FileOf(dir[i])
  {
    seq(|dir|, i requires 0 <= i < |dir| => FileOf(dir[i]))
  }

  // ---- the replay ----

  /** Which key each type of attribute goes by. */
  lemma KeyIs(t: Type3)
    ensures t < 0x100 ==> IsAttr(t) && Key(t) == 0x000
    ensures 0x200 <= t < 0x300 ==> IsAttr(t) && Key(t) == 0x200
    ensures 0x300 <= t < 0x400 ==> IsAttr(t) && Key(t) == t
    ensures IsAttr(t) <==> t < 0x100 || 0x200 <= t < 0x400
  {
  }

  lemma FileUpdated(attrs: Attrs, t: Type3, v: Value)
    requires t < 0x100 || 0x200 <= t < 0x400
    ensures var f := FileOf(attrs);
            FileOf(attrs[Key(t) := v])
            == if t < 0x100 then f.(name := Some(v))
               else if t < 0x300 then f.(structure := Some(v))
               else f.(users := f.users[t - 0x300 := v])
  {
    hide Users;
    KeyIs(t);
    if t >= 0x300 {
      UsersUpdated(attrs, t, v);
    } else {
      UsersApartFrom(attrs, if t < 0x100 then 0x000 else 0x200, v);
    }
  }

  lemma UsersHas(attrs: Attrs, a: int)
    ensures a in Users(attrs) <==> 0 <= a < 0x100 && UserType(a) in attrs
    ensures a in Users(attrs) ==> Users(attrs)[a] == attrs[UserType(a)]
  {
  }

  lemma UsersUpdated(attrs: Attrs, t: Type3, v: Value)
    requires 0x300 <= t < 0x400
    ensures Users(attrs[t := v]) == Users(attrs)[t - 0x300 := v]
  {
    hide Users;
    var now, expected := Users(attrs[t := v]), Users(attrs)[t - 0x300 := v];
    forall a ensures a in now <==> a in expected {
      UsersHas(attrs, a);
      UsersHas(attrs[t := v], a);
    }
    forall a | a in now ensures now[a] == expected[a] {
      UsersHas(attrs, a);
      UsersHas(attrs[t := v], a);
    }
  }

  lemma UsersWithout(attrs: Attrs, t: Type3)
    requires 0x300 <= t < 0x400
    ensures Users(attrs - {t}) == Users(attrs) - {t - 0x300}
  {
    hide Users;
    var now, expected := Users(attrs - {t}), Users(attrs) - {t - 0x300};
    forall a ensures a in now <==> a in expected {
      UsersHas(attrs, a);
      UsersHas(attrs - {t}, a);
    }
    forall a | a in now ensures now[a] == expected[a] {
      UsersHas(attrs, a);
      UsersHas(attrs - {t}, a);
    }
  }

  lemma UsersApartFrom(attrs: Attrs, key: Type3, v: Value)
    requires key < 0x300
    ensures Users(attrs[key := v]) == Users(attrs) && Users(attrs - {key}) == Users(attrs)
  {
    assert forall a | 0 <= a < 0x100 :: UserType(a) != key;
  }

  lemma FileWithout(attrs: Attrs, t: Type3)
    requires t < 0x100 || 0x200 <= t < 0x400
    ensures var f := FileOf(attrs);
            FileOf(attrs - {Key(t)})
            == if t < 0x100 then f.(name := None)
               else if t < 0x300 then f.(structure := None)
               else f.(users := f.users - {t - 0x300})
  {
    hide Users;
    KeyIs(t);
    if t >= 0x300 {
      UsersWithout(attrs, t);
    } else {
      UsersApartFrom(attrs, if t < 0x100 then 0x000 else 0x200, SOME);
    }
  }

  const SOME: Value := Value(0, 0, [])

  lemma BlankFile()
    ensures FileOf(map[]) == BLANK
  {
  }

  lemma PadIsRoom(dir: Dir, n: nat)
    ensures Files(Pad(dir, n)) == Room(Files(dir), n)
  {
    PadKeeps(dir, n);
    PadLength(dir, n);
    BlankFile();
  }

  lemma FilesInserted(dir: Dir, id: nat)
    requires id <= |dir|
    ensures Files(dir[..id] + [map[]] + dir[id..]) == Files(dir)[..id] + [BLANK] + Files(dir)[id..]
  {
    BlankFile();
  }

  lemma FilesDeleted(dir: Dir, id: nat)
    requires id < |dir|
    ensures Files(dir[..id] + dir[id + 1..]) == Files(dir)[..id] + Files(dir)[id + 1..]
  {
  }

  lemma FilesUpdated(dir: Dir, id: nat, attrs: Attrs)
    requires id < |dir|
    ensures Files(dir[id := attrs]) == Files(dir)[id := FileOf(attrs)]
  {
  }

  /** One tag replayed is one tag played. */
  lemma ApplyIsPlay(dir: Dir, e: Entry)
    ensures Files(Apply(dir, e)) == Play(Files(dir), e.tag.type3, e.tag.id, e.tag.size, e.data)
  {
    hide FileOf, Key, Pad, Room, Files, IsAttr;
    var id, t := e.tag.id, e.tag.type3;
    KeyIs(t);
    PadIsRoom(dir, id);
    PadIsRoom(dir, id + 1);
    if t == 0x401 {
      FilesInserted(Pad(dir, id), id);
    } else if t == 0x4ff {
      if id < |dir| {
        FilesDeleted(dir, id);
      }
    } else if t < 0x100 || 0x200 <= t < 0x400 {
      var d := Pad(dir, id + 1);
      if e.tag.size == 0x3ff {
        FileWithout(d[id], t);
        FilesUpdated(d, id, d[id] - {Key(t)});
      } else {
        FileUpdated(d[id], t, ValueOf(e));
        FilesUpdated(d, id, d[id][Key(t) := ValueOf(e)]);
      }
    }
  }

  lemma {:induction false} ReplayFromIsPlay(dir: Dir, log: seq<Entry>)
    ensures Files(ReplayFrom(dir, log)) == PlayAll(Files(dir), log)
    decreases |log|
  {
    hide Play, Apply, Files;
    if log != [] {
      ApplyIsPlay(dir, log[0]);
      ReplayFromIsPlay(Apply(dir, log[0]), log[1..]);
    }
  }

  /** Replaying a log by attribute keys gives the directory that playing it type by type gives. */
  lemma ReplayIsPlay(log: seq<Entry>)
    ensures Files(Replay(log)) == PlayAll([], log)
  {
    ReplayFromIsPlay([], log);
    assert Files([]) == [];
  }

  // ---- attributes do not get in each other's way ----

  /** What a directory holds as user attribute `a` of an entry. */
  function User(files: seq<File>, id: nat, a: int): Option<Value> {
    if id < |files| && a in files[id].users then Some(files[id].users[a]) else None
  }

  /** Setting or removing one user attribute leaves all others, of this entry and of every other one. */
  lemma UsersApart(dir: Dir, a: int, id: nat, size: nat, data: seq<Byte>, i: nat, b: int)
    requires 0 <= a < 0x100 && 0 <= b < 0x100
    ensures var e := Entry(Tag(0x300 + a, id, size), data);
            Get(Apply(dir, e), i, 0x300 + b)
            == if i == id && a == b then (if size == 0x3ff then None else Some(Value(0x300 + a, size, data)))
               else Get(dir, i, 0x300 + b)
  {
    var e := Entry(Tag(0x300 + a, id, size), data);
    KeyIs(0x300 + a);
    PadKeeps(dir, id + 1);
  }

  /** A structure takes the place of any other structure of its entry, and a name of any other name; they
      leave everything else. */
  lemma ClassesReplace(dir: Dir, t: Type3, id: nat, size: nat, data: seq<Byte>, i: nat, key: Type3)
    requires 0 < t < 0x100 || 0x200 <= t < 0x300
    requires key == 0x000 || key == 0x200 || 0x300 <= key < 0x400
    ensures var e := Entry(Tag(t, id, size), data);
            Get(Apply(dir, e), i, key)
            == if i == id && key == (if t < 0x100 then 0x000 else 0x200)
               then (if size == 0x3ff then None else Some(Value(t, size, data)))
               else Get(dir, i, key)
  {
    KeyIs(t);
    PadKeeps(dir, id + 1);
  }

  // ---- compaction ----

  lemma KeysAre(key: Type3)
    requires key == 0x000 || key == 0x200 || 0x300 <= key < 0x400
    ensures IsKey(key)
  {
    KeyIs(key);
  }

  /** Compaction keeps the files of its range, as played type by type. */
  lemma CompactionKeepsFiles(log: seq<Entry>, attrs: seq<Item>, begin: nat, end: nat)
    requires Tame(attrs) && begin <= end && Named(Updated(log, attrs), begin, end)
    ensures var files := PlayAll([], log + Plain(attrs));
            end <= |files| && PlayAll([], Compacted(Wrap(log) + attrs, CompactRange(begin, end))) == files[begin..end]
  {
    hide Compacted, Wrap, Plain, ReplayFrom, Tame, PlayAll, Files, FileOf;
    CompactionPreservesDir(log, attrs, begin, end);
    ReplayAppend([], log, Plain(attrs));
    ReplayIsPlay(log + Plain(attrs));
    ReplayIsPlay(Compacted(Wrap(log) + attrs, CompactRange(begin, end)));
    FilesOfPart(Updated(log, attrs), begin, end);
  }

  lemma FilesOfPart(dir: Dir, begin: nat, end: nat)
    requires begin <= end <= |dir|
    ensures Files(dir[begin..end]) == Files(dir)[begin..end]
  {
  }

  /** Every user attribute survives compaction on its own, whatever else is set beside it and whether or
      not the entry has a name. */
  lemma CompactionKeepsUsers(log: seq<Entry>, attrs: seq<Item>, begin: nat, end: nat, id: nat, a: int)
    requires Tame(attrs) && begin <= id < end && 0 <= a < 0x100
    ensures User(PlayAll([], Compacted(Wrap(log) + attrs, CompactRange(begin, end))), id - begin, a)
         == User(PlayAll([], log + Plain(attrs)), id, a)
  {
    hide Compacted, Wrap, Plain, ReplayFrom, Tame, PlayAll;
    KeysAre(0x300 + a);
    CompactionPreservesLookup(log, attrs, begin, end, id, 0x300 + a);
    ReplayAppend([], log, Plain(attrs));
    ReplayIsPlay(log + Plain(attrs));
    ReplayIsPlay(Compacted(Wrap(log) + attrs, CompactRange(begin, end)));
  }

  /** A list of user attributes sets each under its own type. */
  lemma {:induction false} UserEntriesAre(id: nat, attrs: seq<UserAttr>, i: nat)
    requires i < |attrs|
    ensures |UserEntries(id, attrs)| == |attrs|
    ensures UserEntries(id, attrs)[i] == Entry(Tag(0x300 + attrs[i].kind, id, |attrs[i].data|), attrs[i].data)
  {
    if i > 0 {
      UserEntriesAre(id, attrs[1..], i - 1);
    } else {
      UserEntriesLength(id, attrs);
    }
  }

  lemma {:induction false} UserEntriesLength(id: nat, attrs: seq<UserAttr>)
    ensures |UserEntries(id, attrs)| == |attrs|
  {
    if attrs != [] {
      UserEntriesLength(id, attrs[1..]);
    }
  }

  /** A file is what its attributes say. */
  lemma FileIs(attrs: Attrs, f: File)
    requires At(attrs, 0x000) == f.name && At(attrs, 0x200) == f.structure
    requires forall a | 0 <= a < 0x100 :: At(attrs, UserType(a)) == if a in f.users then Some(f.users[a]) else None
    requires forall a | a in f.users :: 0 <= a < 0x100
    ensures FileOf(attrs) == f
  {
    forall a ensures a in Users(attrs) <==> a in f.users {
      assert 0 <= a < 0x100 ==> At(attrs, UserType(a)) == if a in f.users then Some(f.users[a]) else None;
    }
    forall a | a in f.users ensures Users(attrs)[a] == f.users[a] {
      assert At(attrs, UserType(a)) == Some(f.users[a]);
    }
    assert Users(attrs) == f.users;
  }

  lemma FileSays(attrs: Attrs)
    ensures forall a | 0 <= a < 0x100 ::
              At(attrs, UserType(a)) == if a in FileOf(attrs).users then Some(FileOf(attrs).users[a]) else None
    ensures forall a | a in FileOf(attrs).users :: 0 <= a < 0x100
  {
  }

  lemma NoOthers(attrs: Attrs)
    requires FileOf(attrs).structure == None && FileOf(attrs).users == map[]
    ensures forall k | IsKey(k) && STRUCT <= k :: k !in attrs
  {
    FileSays(attrs);
    forall k: Type3 | IsKey(k) && STRUCT <= k ensures k !in attrs {
      KeyIs(k);
      if k >= 0x300 {
        assert At(attrs, UserType(k - 0x300)) == None;
      }
    }
  }

  /** A move gives a new file the structure and the user attributes of another one, and not its name. */
  lemma MoveGives(dir: Dir, to: nat, from: nat, src: seq<Entry>)
    requires to < |dir| && FileOf(dir[to]).structure == None && FileOf(dir[to]).users == map[]
    requires from < |Replay(src)|
    ensures var source := PlayAll([], src);
            && from < |source|
            && PlayAll(Files(dir), Written(Move(to, from, src), to))
               == Files(dir)[to := File(FileOf(dir[to]).name, source[from].structure, source[from].users)]
  {
    hide Written, ReplayFrom, PlayAll, FileOf, AttrsBelow, Compacted;
    var out := ReplayFrom(dir, Written(Move(to, from, src), to));
    ReplayIsPlay(src);
    ReplayFromIsPlay(dir, Written(Move(to, from, src), to));
    NoOthers(dir[to]);
    MoveWrites(to, from, src);
    BelowMore(Written(Move(to, from, src), to), to + 1, |dir|);
    AttrsKeepLength(dir, Written(Move(to, from, src), to));
    var expected := File(FileOf(dir[to]).name, FileOf(Replay(src)[from]).structure, FileOf(Replay(src)[from]).users);
    forall i | 0 <= i < |out| ensures FileOf(out[i]) == if i == to then expected else FileOf(dir[i]) {
      MovedFile(dir, to, from, src, i);
    }
  }

  lemma MovedFile(dir: Dir, to: nat, from: nat, src: seq<Entry>, i: nat)
    requires to < |dir| && (forall k | IsKey(k) && STRUCT <= k :: k !in dir[to]) && from < |Replay(src)|
    requires var out := ReplayFrom(dir, Written(Move(to, from, src), to)); i < |out| == |dir|
    ensures FileOf(ReplayFrom(dir, Written(Move(to, from, src), to))[i])
         == if i == to then File(FileOf(dir[to]).name, FileOf(Replay(src)[from]).structure,
                                 FileOf(Replay(src)[from]).users)
            else FileOf(dir[i])
  {
    hide Written, ReplayFrom, Users, IsKey;
    var out := ReplayFrom(dir, Written(Move(to, from, src), to));
    var f := if i == to then File(FileOf(dir[to]).name, FileOf(Replay(src)[from]).structure,
                                  FileOf(Replay(src)[from]).users)
             else FileOf(dir[i]);
    FileSays(dir[i]);
    FileSays(Replay(src)[from]);
    KeysAre(0x000);
    KeysAre(0x200);
    MoveCopies(dir, to, from, src, i, 0x000);
    MoveCopies(dir, to, from, src, i, 0x200);
    forall a | 0 <= a < 0x100 ensures At(out[i], UserType(a)) == if a in f.users then Some(f.users[a]) else None {
      KeysAre(UserType(a));
      MoveCopies(dir, to, from, src, i, UserType(a));
    }
    FileIs(out[i], f);
  }
}
