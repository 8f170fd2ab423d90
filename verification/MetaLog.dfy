/** The metadata log of one directory block: forward replay as the meaning of a log, and the
    backward search the lookups use. */
module MetaLog {
  import opened Words
  import opened Tags

  /** What a lookup returns: the exact type and size of the tag found, and its data. */
  datatype Value = Value(type3: Type3, size: nat, data: seq<Byte>)
  datatype Option<+T> = None | Some(value: T)

  type Attrs = map<Type3, Value>

  /** The meaning of a log: the attributes of each entry, by entry id. */
  type Dir = seq<Attrs>

  function Pad(dir: Dir, n: nat): (r: Dir)
    ensures |r| >= n && |r| >= |dir|
    ensures |dir| >= n ==> r == dir
    decreases n - |dir|
  {
    if |dir| >= n then dir else Pad(dir + [map[]], n)
  }

  function Get(dir: Dir, id: nat, key: Type3): Option<Value> {
    if id < |dir| && key in dir[id] then Some(dir[id][key]) else None
  }

  function ValueOf(e: Entry): Value {
    Value(e.tag.type3, e.tag.size, e.data)
  }

  /** One log entry played forwards. */
  function Apply(dir: Dir, e: Entry): Dir {
    var id := e.tag.id;
    if e.tag.type3 == CREATE then
      Pad(dir, id)[..id] + [map[]] + Pad(dir, id)[id..]
    else if e.tag.type3 == DELETE then
      if id < |dir| then dir[..id] + dir[id + 1..] else dir
    else if IsAttr(e.tag.type3) then
      var d := Pad(dir, id + 1);
      d[id := if IsRemoval(e.tag) then d[id] - {Key(e.tag.type3)}
              else d[id][Key(e.tag.type3) := ValueOf(e)]]
    else
      dir
  }

  function ReplayFrom(dir: Dir, log: seq<Entry>): Dir
    decreases |log|
  {
    if log == [] then dir else ReplayFrom(Apply(dir, log[0]), log[1..])
  }

  function Replay(log: seq<Entry>): Dir {
    ReplayFrom([], log)
  }

  /** How a search that walks the log backwards ends: at the attribute, at its removal, at the
      creation of the entry, or at the start of the log with the id the entry had there. */
  datatype Outcome = Found(value: Value) | Removed | Created | Reached(id: nat)

  function View(o: Outcome): Option<Value> {
    if o.Found? then Some(o.value) else None
  }

  /** One log entry met by the backward search for attribute `key` of entry `id`. */
  function StepBack(e: Entry, id: nat, key: Type3): Outcome {
    if IsSplice(e.tag) && e.tag.id <= id then
      if e.tag.type3 == CREATE && e.tag.id == id then Created
      else Reached(id - Splice(e.tag.type3))
    else if IsAttr(e.tag.type3) && e.tag.id == id && Key(e.tag.type3) == key then
      if IsRemoval(e.tag) then Removed else Found(ValueOf(e))
    else
      Reached(id)
  }

  function Search(log: seq<Entry>, id: nat, key: Type3): Outcome {
    if log == [] then Reached(id)
    else
      match Search(log[1..], id, key)
      case Reached(j) => StepBack(log[0], j, key)
      case o => o
  }

  lemma {:induction false} SearchAppend(a: seq<Entry>, b: seq<Entry>, id: nat, key: Type3)
    ensures Search(a + b, id, key)
         == match Search(b, id, key) { case Reached(j) => Search(a, j, key) case o => o }
  {
    if a == [] {
      assert a + b == b;
    } else {
      assert (a + b)[1..] == a[1..] + b;
      SearchAppend(a[1..], b, id, key);
    }
  }

  lemma {:induction false} PadKeeps(dir: Dir, n: nat)
    ensures forall i | 0 <= i < |Pad(dir, n)| ::
              Pad(dir, n)[i] == if i < |dir| then dir[i] else map[]
    decreases n - |dir|
  {
    if |dir| < n {
      PadKeeps(dir + [map[]], n);
    }
  }

  lemma {:induction false} PadLength(dir: Dir, n: nat)
    ensures |Pad(dir, n)| == if n <= |dir| then |dir| else n
    decreases n - |dir|
  {
    if |dir| < n {
      PadLength(dir + [map[]], n);
    }
  }

  lemma StepRefines(dir: Dir, e: Entry, id: nat, key: Type3)
    ensures Get(Apply(dir, e), id, key)
         == match StepBack(e, id, key) { case Reached(j) => Get(dir, j, key) case o => View(o) }
  {
    PadKeeps(dir, e.tag.id);
    PadKeeps(dir, e.tag.id + 1);
  }

  lemma {:induction false} SearchRefinesFrom(dir: Dir, log: seq<Entry>, id: nat, key: Type3)
    ensures Get(ReplayFrom(dir, log), id, key)
         == match Search(log, id, key) { case Reached(j) => Get(dir, j, key) case o => View(o) }
    decreases |log|
  {
    if log != [] {
      SearchRefinesFrom(Apply(dir, log[0]), log[1..], id, key);
      var o := Search(log[1..], id, key);
      if o.Reached? {
        StepRefines(dir, log[0], o.id, key);
      }
    }
  }

  /** Searching backwards finds exactly what replaying forwards leaves. */
  lemma SearchRefinesReplay(log: seq<Entry>, id: nat, key: Type3)
    ensures Get(Replay(log), id, key) == View(Search(log, id, key))
  {
    SearchRefinesFrom([], log, id, key);
  }

  lemma {:induction false} ReplayAppend(dir: Dir, a: seq<Entry>, b: seq<Entry>)
    ensures ReplayFrom(dir, a + b) == ReplayFrom(ReplayFrom(dir, a), b)
    decreases |a|
  {
    if a == [] {
      assert a + b == b;
    } else {
      assert (a + b)[1..] == a[1..] + b;
      ReplayAppend(Apply(dir, a[0]), a[1..], b);
    }
  }

  /** An entry that is being moved away counts as deleted. */
  function MovedAway(moved: Option<nat>): seq<Entry> {
    if moved.None? then [] else [Entry(Tag(DELETE, moved.value, 0), [])]
  }
}
