/** Rewriting a log without its dead tags: the filter that drops what later tags supersede and
    renumbers what they shift, and the proof that the rewritten log means the same. */
module Compaction {
  import opened Words
  import opened Tags
  import opened MetaLog

  type Kind = k: nat | k < 0x100

  datatype UserAttr = UserAttr(kind: Kind, data: seq<Byte>)

  /** What a traversal walks over: tags of the log or of the pending attribute list, and the
      pseudo tags that stand for tags copied from elsewhere. */
  datatype Item =
    | Attr(e: Entry)
    | Noop
    | Move(to: nat, from: nat, src: seq<Entry>)
    | Users(id: nat, attrs: seq<UserAttr>)

  function Wrap(log: seq<Entry>): (items: seq<Item>)
    ensures |items| == |log|
    ensures forall i | 0 <= i < |log| :: items[i] == Attr(log[i])
  {
    seq(|log|, i requires 0 <= i < |log| => Attr(log[i]))
  }

  function ItemTag(it: Item): Tag {
    match it
    case Attr(e) => e.tag
    case Noop => Tag(0, 0, 0)
    case Move(to, from, _) => Tag(FROM_MOVE, to, from)
    case Users(id, attrs) => Tag(FROM_USERATTRS, id, |attrs|)
  }

  function UserEntries(id: nat, attrs: seq<UserAttr>): seq<Entry> {
    if attrs == [] then []
    else [Entry(Tag(USERATTR + attrs[0].kind, id, |attrs[0].data|), attrs[0].data)]
         + UserEntries(id, attrs[1..])
  }

  // ---- the filter ----

  predicate Supersedes(t: Tag, f: Tag) {
    && t.id == f.id
    && (if PerChunk(t.type3) then t.type3 == f.type3 else Type1(t.type3) == Type1(f.type3))
  }

  /** A tag `f` being copied meets a later tag `t`: it is dropped, renumbered or unchanged. */
  function FilterStep(f: Tag, t: DiskTag): Option<Tag> {
    if Supersedes(t, f) || IsRemoval(f) || (t.type3 == DELETE && t.id == f.id) then
      None
    else if IsSplice(t) && t.id <= f.id then
      Some(f.(id := f.id + Splice(t.type3)))
    else
      Some(f)
  }

  function Survive(f: Tag, later: seq<Entry>): Option<Tag>
    decreases |later|
  {
    if later == [] then Some(f)
    else
      match FilterStep(f, later[0].tag)
      case None => None
      case Some(g) => Survive(g, later[1..])
  }

  /** The tags a filter sees: moves are skipped, user attribute lists are spelt out. */
  function Visible(items: seq<Item>): seq<Entry> {
    if items == [] then []
    else
      (match items[0]
       case Attr(e) => [e]
       case Users(id, attrs) => UserEntries(id, attrs)
       case _ => [])
      + Visible(items[1..])
  }

  // ---- the traversal ----

  /** The tag classes, ids and id shift of one traversal. */
  datatype Range = Range(lo: Type3, begin: nat, end: nat, shift: int)

  predicate Selects(r: Range, t: Type3) {
    r.lo <= t < SPLICE
  }

  predicate ValidRange(r: Range) {
    r.begin + r.shift >= 0 && r.lo in {NAME, STRUCT}
  }

  predicate HasMove(items: seq<Item>) {
    exists i :: 0 <= i < |items| && items[i].Move?
  }

  /** Compacting names, structures and user attributes of ids [begin, end) to start at 0. */
  function CompactRange(begin: nat, end: nat): Range {
    Range(NAME, begin, end, 0 - (begin as int))
  }

  /** Moving structure and user attributes of `from` to `to`. */
  function MoveRange(from: nat, to: nat): Range {
    Range(STRUCT, from, from + 1, to - from)
  }

  /** The tags written for one item whose id is `id` after the shift. */
  function Written(it: Item, id: nat): seq<Entry>
    decreases it.Move?, 0
  {
    match it
    case Attr(e) => [Entry(e.tag.(id := id), e.data)]
    case Noop => []
    case Move(_, from, src) => Compacted(Wrap(src), MoveRange(from, id))
    case Users(_, attrs) => UserEntries(id, attrs)
  }

  /** A filtered traversal. */
  function Compacted(items: seq<Item>, r: Range): seq<Entry>
    requires ValidRange(r)
    decreases HasMove(items), |items| + 1
  {
    if items == [] then []
    else
      assert HasMove(items[1..]) ==> HasMove(items) by {
        if i :| 0 <= i < |items[1..]| && items[1..][i].Move? { assert items[i + 1].Move?; }
      }
      CompactedHead(items, r) + Compacted(items[1..], r)
  }

  function CompactedHead(items: seq<Item>, r: Range): seq<Entry>
    requires ValidRange(r) && items != []
    decreases HasMove(items), 1
  {
    assert items[0].Move? ==> HasMove(items);
    var tag := ItemTag(items[0]);
    if !Selects(r, tag.type3) then []
    else
      match Survive(tag, Visible(items[1..]))
      case None => []
      case Some(t) =>
        if r.begin <= t.id < r.end then
          Written(items[0], t.id + r.shift)
        else []
  }

  /** An unfiltered traversal, as an append writes it: every item at its own id. */
  function Plain(items: seq<Item>): seq<Entry> {
    if items == [] then [] else Written(items[0], ItemTag(items[0]).id) + Plain(items[1..])
  }

  // ---- what the filter keeps ----

  /** A surviving attribute is the last of its kind: nothing later answers a search for it, and
      the search gets back to the id it started from. */
  lemma {:induction false} SurvivorIsLast(f: Tag, later: seq<Entry>)
    requires IsAttr(f.type3)
    ensures Survive(f, later).Some? ==>
              var t := Survive(f, later).value;
              && t == f.(id := t.id)
              && Search(later, t.id, Key(f.type3)) == Reached(f.id)
    decreases |later|
  {
    if later != [] && FilterStep(f, later[0].tag).Some? {
      SurvivorIsLast(FilterStep(f, later[0].tag).value, later[1..]);
    }
  }

  /** An attribute that a search can get back to survives, under the id the search started from. */
  lemma {:induction false} ReachedSurvives(f: Tag, later: seq<Entry>, id: nat, key: Type3)
    requires (IsAttr(f.type3) && Key(f.type3) == key) || f.type3 in {FROM_MOVE, FROM_USERATTRS}
    requires !IsRemoval(f)
    requires Search(later, id, key) == Reached(f.id)
    ensures Survive(f, later) == Some(f.(id := id))
    decreases |later|
  {
    if later != [] {
      var j := Search(later[1..], id, key).id;
      assert StepBack(later[0], j, key) == Reached(f.id);
      assert FilterStep(f, later[0].tag) == Some(f.(id := j));
      ReachedSurvives(f.(id := j), later[1..], id, key);
    }
  }

  /** Renumbering is injective: a search started at a surviving id cannot end at a creation, nor
      at the start of the log under another id. */
  lemma {:induction false} SurvivorIsTracked(f: Tag, later: seq<Entry>, key: Type3)
    ensures Survive(f, later).Some? ==>
              var t := Survive(f, later).value;
              var o := Search(later, t.id, key);
              t == f.(id := t.id) && !o.Created? && (o.Reached? ==> o.id == f.id)
    decreases |later|
  {
    if later != [] && FilterStep(f, later[0].tag).Some? {
      SurvivorIsTracked(FilterStep(f, later[0].tag).value, later[1..], key);
    }
  }
}
