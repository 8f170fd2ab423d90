/** What the attribute list of a rename does to a directory. */
module Rename {
  import opened Tags
  import opened MetaLog
  import opened Compaction
  import opened CompactionProof

  function Without(dir: Dir, id: nat): Dir
    requires id < |dir|
  {
    dir[..id] + dir[id + 1..]
  }

  /** An entry under a new name: its structure and user attributes, and the name given. */
  function Renamed(attrs: Attrs, name: Value): Attrs {
    (map k | k in attrs && k >= STRUCT :: attrs[k])[NAME := name]
  }

  /** A directory with an entry put in at an id, or in place of the one there. */
  function Placed(dir: Dir, replace: bool, id: nat, entry: Attrs): Dir
    requires id <= |dir| && (replace ==> id < |dir|)
  {
    dir[..id] + [entry] + dir[if replace then id + 1 else id..]
  }

  predicate IsName(name: Entry, id: nat) {
    Type1(name.tag.type3) == NAME && name.tag.id == id && !IsRemoval(name.tag)
  }

  /** The attributes committed to the new directory: the entry replaced is deleted, a new one is
      created, named, and given what the old one has. */
  function Items(replace: bool, id: nat, name: Entry, from: nat, src: seq<Entry>): seq<Item> {
    [if replace then Attr(Entry(Tag(DELETE, id, 0), [])) else Noop,
     Attr(Entry(Tag(CREATE, id, 0), [])), Attr(name), Move(id, from, src)]
  }

  /** Attributes of entries that are there do not change their number. */
  lemma {:induction false} AttrsKeepLength(dir: Dir, log: seq<Entry>)
    requires AttrsBelow(log, |dir|)
    ensures |ReplayFrom(dir, log)| == |dir|
    decreases |log|
  {
    if log != [] {
      AttrsKeepLength(Apply(dir, log[0]), log[1..]);
    }
  }

  /** The created and named entry, before it is given the rest. */
  lemma Created(dir: Dir, replace: bool, id: nat, name: Entry)
    requires id <= |dir| && (replace ==> id < |dir|) && IsName(name, id)
    ensures var d := if replace then Apply(dir, Entry(Tag(DELETE, id, 0), [])) else dir;
            Apply(Apply(d, Entry(Tag(CREATE, id, 0), [])), name) == Placed(dir, replace, id, map[NAME := ValueOf(name)])
  {
  }

  lemma MoveWrites(id: nat, from: nat, src: seq<Entry>)
    ensures AttrsBelow(Written(Move(id, from, src), id), id + 1)
  {
    CompactedBelow(Wrap(src), MoveRange(from, id));
  }

  lemma EmptyHasKeys()
    ensures HasKeys([])
  {
  }

  lemma PlacedHasKeys(dir: Dir, replace: bool, id: nat, entry: Attrs)
    requires id <= |dir| && (replace ==> id < |dir|) && HasKeys(dir) && forall k | k in entry :: IsKey(k)
    ensures HasKeys(Placed(dir, replace, id, entry))
  {
    hide IsKey;
  }

  lemma RenamedHasKeys(dir: Dir, from: nat, name: Value)
    requires HasKeys(dir) && from < |dir|
    ensures forall k | k in Renamed(dir[from], name) :: IsKey(k)
  {
  }

  /** Moving an entry into a directory, as its new entry. */
  lemma MoveFills(dir: Dir, replace: bool, id: nat, name: Entry, from: nat, src: seq<Entry>)
    requires id <= |dir| && (replace ==> id < |dir|) && IsName(name, id) && HasKeys(dir) && from < |Replay(src)|
    ensures ReplayFrom(Placed(dir, replace, id, map[NAME := ValueOf(name)]), Written(Move(id, from, src), id))
         == Placed(dir, replace, id, Renamed(Replay(src)[from], ValueOf(name)))
  {
    hide Written, ReplayFrom, AttrsBelow, HasKeys;
    var start := Placed(dir, replace, id, map[NAME := ValueOf(name)]);
    var end := Placed(dir, replace, id, Renamed(Replay(src)[from], ValueOf(name)));
    var written := Written(Move(id, from, src), id);
    var got := ReplayFrom(start, written);
    MoveWrites(id, from, src);
    AttrsKeepLength(start, written);
    ReplayHasKeys([], src);
    EmptyHasKeys();
    PlacedHasKeys(dir, replace, id, map[NAME := ValueOf(name)]);
    RenamedHasKeys(Replay(src), from, ValueOf(name));
    PlacedHasKeys(dir, replace, id, Renamed(Replay(src)[from], ValueOf(name)));
    ReplayHasKeys(start, written);
    forall i, key | 0 <= i < |end| && IsKey(key) ensures Get(got, i, key) == Get(end, i, key) {
      MoveCopies(start, id, from, src, i, key);
    }
    forall i | 0 <= i < |end| ensures got[i] == end[i] {
      SameAttrs(got, i, end, i);
    }
  }

  lemma PlainItems(replace: bool, id: nat, name: Entry, from: nat, src: seq<Entry>, rest: seq<Item>)
    requires name.tag.id == id
    ensures Plain(Items(replace, id, name, from, src) + rest)
         == (if replace then [Entry(Tag(DELETE, id, 0), [])] else [])
            + ([Entry(Tag(CREATE, id, 0), []), name] + (Written(Move(id, from, src), id) + Plain(rest)))
  {
    var move := Move(id, from, src);
    var items := Items(replace, id, name, from, src);
    assert (items + rest)[1..] == items[1..] + rest;
    assert (items[1..] + rest)[1..] == items[2..] + rest;
    assert (items[2..] + rest)[1..] == [move] + rest;
    assert ([move] + rest)[1..] == rest;
    assert Plain([move] + rest) == Written(move, id) + Plain(rest);
    assert Written(Attr(name), id) == [name];
    assert Plain(items[2..] + rest) == [name] + Plain([move] + rest);
  }

  /** Committing the attribute list of a rename to the new directory puts the entry there. */
  lemma RenamePlaces(dir: Dir, replace: bool, id: nat, name: Entry, from: nat, src: seq<Entry>, rest: seq<Item>)
    requires id <= |dir| && (replace ==> id < |dir|) && IsName(name, id) && HasKeys(dir) && from < |Replay(src)|
    ensures ReplayFrom(dir, Plain(Items(replace, id, name, from, src) + rest))
         == ReplayFrom(Placed(dir, replace, id, Renamed(Replay(src)[from], ValueOf(name))), Plain(rest))
  {
    hide Apply, Placed, Written, Renamed, HasKeys, IsName;
    var del, create := Entry(Tag(DELETE, id, 0), []), Entry(Tag(CREATE, id, 0), []);
    var written := Written(Move(id, from, src), id);
    var d := if replace then Apply(dir, del) else dir;
    var start := Placed(dir, replace, id, map[NAME := ValueOf(name)]);
    NameAtId(name, id);
    PlainItems(replace, id, name, from, src, rest);
    ReplayAppend(dir, if replace then [del] else [], [create, name] + (written + Plain(rest)));
    ReplayAppend(d, [create, name], written + Plain(rest));
    ReplayAppend(start, written, Plain(rest));
    assert [del][1..] == [] && [create, name][1..] == [name] && [name][1..] == [];
    Created(dir, replace, id, name);
    MoveFills(dir, replace, id, name, from, src);
  }

  lemma NameAtId(name: Entry, id: nat)
    requires IsName(name, id)
    ensures name.tag.id == id
  {
  }

  /** Where the old entry is once the new one has been put in. */
  function OldIdAfter(replace: bool, id: nat, from: nat): nat {
    if !replace && id <= from then from + 1 else from
  }

  /** Within one directory the same commit also deletes the old entry, wherever the new one has shifted
      it to. */
  lemma RenameWithin(log: seq<Entry>, replace: bool, id: nat, name: Entry, from: nat)
    requires var dir := Replay(log);
             id <= |dir| && (replace ==> id < |dir| && id != from) && from < |dir| && IsName(name, id)
    ensures var dir := Replay(log);
            var old' := OldIdAfter(replace, id, from);
            var placed := Placed(dir, replace, id, Renamed(dir[from], ValueOf(name)));
            && old' < |placed| && placed[old'] == dir[from] && old' != id
            && Updated(log, Items(replace, id, name, from, log) + [Attr(Entry(Tag(DELETE, old', 0), []))])
               == Without(placed, old')
  {
    hide Items, Renamed, HasKeys, Plain, ReplayFrom, IsName;
    var dir := Replay(log);
    var old' := OldIdAfter(replace, id, from);
    var del := Attr(Entry(Tag(DELETE, old', 0), []));
    ReplayHasKeys([], log);
    RenamePlaces(dir, replace, id, name, from, log, [del]);
    OldIsPlaced(dir, replace, id, from, Renamed(dir[from], ValueOf(name)));
    DeleteIs(Placed(dir, replace, id, Renamed(dir[from], ValueOf(name))), old');
  }

  lemma OldIsPlaced(dir: Dir, replace: bool, id: nat, from: nat, entry: Attrs)
    requires id <= |dir| && (replace ==> id < |dir| && id != from) && from < |dir|
    ensures var old' := OldIdAfter(replace, id, from);
            var placed := Placed(dir, replace, id, entry);
            old' < |placed| && placed[old'] == dir[from] && old' != id
  {
  }

  lemma DeleteIs(dir: Dir, id: nat)
    requires id < |dir|
    ensures ReplayFrom(dir, Plain([Attr(Entry(Tag(DELETE, id, 0), []))])) == Without(dir, id)
  {
    var del := Entry(Tag(DELETE, id, 0), []);
    assert [Attr(del)][1..] == [] && [del][1..] == [];
    assert Plain([Attr(del)]) == [del];
    assert ReplayFrom(dir, [del]) == Apply(dir, del);
  }

  /** The attribute lists of a rename are ones that compaction preserves. */
  lemma ItemsAreTame(replace: bool, id: nat, name: Entry, from: nat, src: seq<Entry>, rest: seq<Entry>)
    requires from < ALL_ONES && NoRemoval(rest)
    ensures Tame(Items(replace, id, name, from, src) + Wrap(rest))
  {
    hide Spares;
    var items := Items(replace, id, name, from, src);
    var all := items + Wrap(rest);
    WrapTame(rest);
    SparesWithout(Move(id, from, src), Wrap(rest));
    var last := [Move(id, from, src)] + Wrap(rest);
    assert last[1..] == Wrap(rest);
    assert Tame(last);
    assert all[1..][1..][1..] == last;
    assert Tame(all[1..][1..]);
    assert Tame(all[1..]);
  }

  /** So are those that write a file, with its user attributes, and all that copy nothing. */
  lemma FileItemsAreTame(file: Entry, id: nat, attrs: seq<UserAttr>)
    requires SmallUsers(attrs)
    ensures Tame([Attr(file), Users(id, attrs)])
  {
    hide Spares;
    SparesWithout(Users(id, attrs), []);
    assert [Users(id, attrs)][1..] == [];
    assert Tame([Users(id, attrs)]);
    assert [Attr(file), Users(id, attrs)][1..] == [Users(id, attrs)];
  }

  lemma {:induction false} NoCopiesTame(items: seq<Item>)
    requires NoCopies(items)
    ensures Tame(items)
  {
    if items != [] {
      NoCopiesTame(items[1..]);
    }
  }
}
