/** Logs as commits and compactions make them over the life of a directory: the entry count that a fetch
    keeps while it scans them is the number of entries they mean. */
module History {
  import opened Tags
  import opened MetaLog
  import opened Compaction
  import opened CompactionProof
  import opened DirBlock
  import opened Rename
  import DirGet

  /** Attributes are appended, or rewritten together with entries [begin, end) of the log, or tags that
      belong to no entry are appended: checksums, tails and the global state. */
  datatype Step =
    | Appended(items: seq<Item>)
    | Rewritten(items: seq<Item>, begin: nat, end: nat)
    | Others(tags: seq<Entry>)

  function Log(steps: seq<Step>): seq<Entry>
    decreases |steps|
  {
    if steps == [] then [] else After(Log(steps[..|steps| - 1]), steps[|steps| - 1])
  }

  function After(log: seq<Entry>, step: Step): seq<Entry> {
    match step
    case Appended(items) => log + Plain(items)
    case Rewritten(items, begin, end) => Compacted(Wrap(log) + items, CompactRange(begin, end))
    case Others(tags) => log + tags
  }

  predicate NoEntries(tags: seq<Entry>) {
    forall i | 0 <= i < |tags| :: !IsAttr(tags[i].tag.type3) && !IsSplice(tags[i].tag)
  }

  /** What the file system does: the attributes it appends keep ids within the directory, and the entries
      it rewrites have names. */
  ghost predicate ProperStep(log: seq<Entry>, step: Step) {
    match step
    case Appended(items) => DirGet.InOrder(|Replay(log)|, Plain(items))
    case Rewritten(items, begin, end) => Tame(items) && begin <= end && Named(Updated(log, items), begin, end)
    case Others(tags) => NoEntries(tags)
  }

  ghost predicate Proper(steps: seq<Step>)
    decreases |steps|
  {
    steps == [] || (Proper(steps[..|steps| - 1]) && ProperStep(Log(steps[..|steps| - 1]), steps[|steps| - 1]))
  }

  predicate Counted(log: seq<Entry>) {
    DirGet.CountFrom(0, log) == |Replay(log)|
  }

  // ---- counting ----

  lemma {:induction false} CountAppend(n: int, a: seq<Entry>, b: seq<Entry>)
    ensures DirGet.CountFrom(n, a + b) == DirGet.CountFrom(DirGet.CountFrom(n, a), b)
    decreases |a|
  {
    hide Count;
    if a == [] {
      assert a + b == b;
    } else {
      assert (a + b)[1..] == a[1..] + b;
      CountAppend(Count(n, a[0].tag), a[1..], b);
    }
  }

  lemma {:induction false} InOrderAppend(n: nat, a: seq<Entry>, b: seq<Entry>)
    requires DirGet.InOrder(n, a) && DirGet.CountFrom(n, a) >= 0 && DirGet.InOrder(DirGet.CountFrom(n, a), b)
    ensures DirGet.InOrder(n, a + b)
    decreases |a|
  {
    hide Count;
    if a == [] {
      assert a + b == b;
    } else {
      assert (a + b)[1..] == a[1..] + b;
      InOrderAppend(Count(n, a[0].tag), a[1..], b);
    }
  }

  /** Attributes of entries that are there. */
  lemma {:induction false} BelowInOrder(log: seq<Entry>, n: nat)
    requires AttrsBelow(log, n)
    ensures DirGet.InOrder(n, log) && DirGet.CountFrom(n, log) == n
  {
    if log != [] {
      BelowInOrder(log[1..], n);
    }
  }

  lemma {:induction false} OthersInOrder(tags: seq<Entry>, n: nat)
    requires NoEntries(tags)
    ensures DirGet.InOrder(n, tags) && DirGet.CountFrom(n, tags) == n
  {
    if tags != [] {
      OthersInOrder(tags[1..], n);
    }
  }

  /** Attributes alone never count more entries than their ids allow, nor fewer than they name. */
  lemma {:induction false} AttrsCount(n: nat, log: seq<Entry>, max: nat)
    requires AttrsBelow(log, max) && n <= max
    ensures n <= DirGet.CountFrom(n, log) <= max
    ensures forall i | 0 <= i < |log| && Type1(log[i].tag.type3) == NAME :: log[i].tag.id < DirGet.CountFrom(n, log)
    decreases |log|
  {
    if log != [] {
      AttrsCount(Count(n, log[0].tag), log[1..], max);
      forall i | 0 <= i < |log| && Type1(log[i].tag.type3) == NAME
        ensures log[i].tag.id < DirGet.CountFrom(n, log) {
        assert i > 0 ==> log[i] == log[1..][i - 1];
      }
    }
  }

  /** A name that a search finds among attributes is there. */
  lemma {:induction false} NameIsThere(log: seq<Entry>, max: nat, id: nat) returns (i: nat)
    requires AttrsBelow(log, max) && Search(log, id, NAME).Found?
    ensures i < |log| && Type1(log[i].tag.type3) == NAME && log[i].tag.id == id
  {
    AttrsReach(log[1..], max, id, NAME);
    if Search(log[1..], id, NAME).Found? {
      i := NameIsThere(log[1..], max, id);
      i := i + 1;
    } else {
      i := 0;
    }
  }

  lemma RewrittenIsCounted(log: seq<Entry>, items: seq<Item>, begin: nat, end: nat)
    requires Tame(items) && begin <= end && Named(Updated(log, items), begin, end)
    ensures Counted(After(log, Rewritten(items, begin, end)))
  {
    hide Compacted, Wrap, Tame, Updated, Search, AttrsBelow, DirGet.CountFrom;
    var out := Compacted(Wrap(log) + items, CompactRange(begin, end));
    CompactionPreservesDir(log, items, begin, end);
    CompactedBelow(Wrap(log) + items, CompactRange(begin, end));
    var n := end - begin;
    AttrsCount(0, out, n);
    if n > 0 {
      SearchRefinesReplay(out, n - 1, NAME);
      assert Get(Replay(out), n - 1, NAME).Some?;
      var i := NameIsThere(out, n, n - 1);
    }
  }

  /** Over every run of commits and compactions the count stays the number of entries. */
  lemma {:induction false} CountIsExact(steps: seq<Step>)
    requires Proper(steps)
    ensures Counted(Log(steps))
    decreases |steps|
  {
    hide DirGet.InOrder, Plain, NoEntries;
    if steps != [] {
      var log, step := Log(steps[..|steps| - 1]), steps[|steps| - 1];
      CountIsExact(steps[..|steps| - 1]);
      match step
      case Appended(items) => AppendedIsCounted(log, Plain(items));
      case Rewritten(items, begin, end) => RewrittenIsCounted(log, items, begin, end);
      case Others(tags) =>
        OthersInOrder(tags, |Replay(log)|);
        AppendedIsCounted(log, tags);
    }
  }

  lemma AppendedIsCounted(log: seq<Entry>, more: seq<Entry>)
    requires Counted(log) && DirGet.InOrder(|Replay(log)|, more)
    ensures Counted(log + more)
  {
    hide DirGet.InOrder, DirGet.CountFrom, ReplayFrom;
    CountAppend(0, log, more);
    ReplayAppend([], log, more);
    DirGet.CountIsLength(Replay(log), more);
  }

  /** So the entry count that a fetch reports is the number of entries in the directory, whatever commits
      and compactions made its log. */
  lemma FetchCountsHistory(log: seq<Raw>, steps: seq<Step>)
    requires AreRaw(log) && DirGet.AreOnDisk(log) && Proper(steps) && DirGet.Entries(log) == Log(steps)
    ensures Summary(EMPTY, log).count == |Replay(Log(steps))|
  {
    hide Summary, ReplayFrom, DirGet.CountFrom, Proper, Log;
    DirGet.SummaryCounts(EMPTY, log);
    CountIsExact(steps);
  }

  // ---- what the file system appends ----

  /** A rename, with or without an entry in the way. */
  lemma RenameInOrder(n: nat, replace: bool, id: nat, name: Entry, from: nat, src: seq<Entry>)
    requires id <= n && (replace ==> id < n) && IsName(name, id)
    ensures DirGet.InOrder(n, Plain(Items(replace, id, name, from, src)))
  {
    hide Written, DirGet.InOrder, DirGet.CountFrom, Plain, AttrsBelow, Items, IsName;
    var items := Items(replace, id, name, from, src);
    NameAtId(name, id);
    PlainOfNone();
    var head := if replace then [Entry(Tag(DELETE, id, 0), [])] else [];
    var made := [Entry(Tag(CREATE, id, 0), []), name];
    var copied := Written(Move(id, from, src), id);
    var n' := if replace then n else n + 1;
    assert items + [] == items && copied + Plain([]) == copied;
    PlainItems(replace, id, name, from, src, []);
    MoveWrites(id, from, src);
    BelowMore(copied, id + 1, n');
    BelowInOrder(copied, n');
    MadeInOrder(if replace then n - 1 else n, id, name);
    InOrderAppend(if replace then n - 1 else n, made, copied);
    if replace {
      DeleteInOrder(n, id);
      InOrderAppend(n, head, made + copied);
    } else {
      assert head + (made + copied) == made + copied;
    }
  }

  lemma OneInOrder(n: nat, e: Entry)
    requires e.tag.type3 == CREATE || Type1(e.tag.type3) == NAME
    requires e.tag.type3 == CREATE ==> e.tag.id <= n
    requires Type1(e.tag.type3) == NAME ==> e.tag.id < n
    ensures DirGet.InOrder(n, [e]) && DirGet.CountFrom(n, [e]) == if e.tag.type3 == CREATE then n + 1 else n
  {
    assert [e][1..] == [];
    assert Count(n, e.tag) == if e.tag.type3 == CREATE then n + 1 else n;
  }

  lemma MadeInOrder(n: nat, id: nat, name: Entry)
    requires id <= n && IsName(name, id)
    ensures var made := [Entry(Tag(CREATE, id, 0), []), name];
            DirGet.InOrder(n, made) && DirGet.CountFrom(n, made) == n + 1
  {
    var made := [Entry(Tag(CREATE, id, 0), []), name];
    assert made[1..] == [name] && [name][1..] == [];
    OneInOrder(n + 1, name);
    OneInOrder(n, made[0]);
    InOrderAppend(n, [made[0]], [name]);
    CountAppend(n, [made[0]], [name]);
    assert made == [made[0]] + [name];
  }

  lemma DeleteInOrder(n: nat, id: nat)
    requires id < n
    ensures var del := [Entry(Tag(DELETE, id, 0), [])];
            DirGet.InOrder(n, del) && DirGet.CountFrom(n, del) == n - 1
  {
    var del := [Entry(Tag(DELETE, id, 0), [])];
    assert del[1..] == [];
    assert Count(n, del[0].tag) == n - 1;
  }

  /** Writing a file, with its user attributes. */
  lemma FileInOrder(n: nat, file: Entry, attrs: seq<UserAttr>)
    requires IsAttr(file.tag.type3) && file.tag.id < n
    ensures DirGet.InOrder(n, Plain([Attr(file), Users(file.tag.id, attrs)]))
  {
    var id := file.tag.id;
    assert [Attr(file), Users(id, attrs)][1..] == [Users(id, attrs)] && [Users(id, attrs)][1..] == [];
    assert Plain([Users(id, attrs)]) == UserEntries(id, attrs) + Plain([]);
    assert Plain([Attr(file), Users(id, attrs)]) == [file] + Plain([Users(id, attrs)]);
    UsersBelow(id, attrs, n);
    assert AttrsBelow([file], n);
    BelowAppend([file], UserEntries(id, attrs), n);
    assert UserEntries(id, attrs) + Plain([]) == UserEntries(id, attrs);
    BelowInOrder([file] + UserEntries(id, attrs), n);
  }
}
