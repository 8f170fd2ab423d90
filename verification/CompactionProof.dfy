/** Compaction preserves meaning: every lookup gives the same answer on the rewritten log. */
module CompactionProof {
  import opened Tags
  import opened MetaLog
  import opened Compaction

  predicate IsKey(key: Type3) {
    IsAttr(key) && Key(key) == key
  }

  predicate SmallUsers(attrs: seq<UserAttr>) {
    |attrs| < ALL_ONES && forall i | 0 <= i < |attrs| :: |attrs[i].data| < ALL_ONES
  }

  /** The id that an entry had before some log, by its id after it; no attribute has this key. */
  function Origin(log: seq<Entry>, id: nat): Outcome {
    Search(log, id, FROM_MOVE)
  }

  /** A copied attribute list sets this attribute of its entry. */
  predicate Copies(it: Item, key: Type3) {
    Search(Written(it, ItemTag(it).id), ItemTag(it).id, key).Found?
  }

  predicate LastRemoves(log: seq<Entry>, id: nat, key: Type3) {
    log != [] && StepBack(log[|log| - 1], id, key) == Removed
  }

  /** No attribute that a copied list sets is removed from its entry by what comes after it, and not
      set again, unless the removal comes last. */
  ghost predicate Spares(it: Item, rest: seq<Item>) {
    forall id: nat, key | IsKey(key) && RemovedFrom(it, rest, id, key) :: !Copies(it, key)
  }

  predicate RemovedFrom(it: Item, rest: seq<Item>, id: nat, key: Type3) {
    && Search(Plain(rest), id, key) == Removed && Origin(Visible(rest), id) == Reached(ItemTag(it).id)
    && !LastRemoves(Visible(rest), id, key)
  }

  /** What the attribute lists built by the file system satisfy: ids and counts fit their fields, and
      attributes that were copied are not removed by the same list. */
  ghost predicate Tame(items: seq<Item>) {
    items != [] ==>
      && (match items[0]
          case Move(_, from, _) => from < ALL_ONES && Spares(items[0], items[1..])
          case Users(_, attrs) => SmallUsers(attrs) && Spares(items[0], items[1..])
          case _ => true)
      && Tame(items[1..])
  }

  lemma {:induction false} WrapTame(log: seq<Entry>)
    ensures Tame(Wrap(log)) && Visible(Wrap(log)) == log && Plain(Wrap(log)) == log
  {
    if log != [] {
      assert Wrap(log)[1..] == Wrap(log[1..]);
      WrapTame(log[1..]);
    }
  }

  predicate NoRemoval(log: seq<Entry>) {
    forall i | 0 <= i < |log| :: IsAttr(log[i].tag.type3) ==> !IsRemoval(log[i].tag)
  }

  lemma {:induction false} NoRemovalSearch(log: seq<Entry>, id: nat, key: Type3)
    requires NoRemoval(log)
    ensures !Search(log, id, key).Removed?
  {
    if log != [] {
      NoRemovalSearch(log[1..], id, key);
    }
  }

  /** Nothing behind a copied list removes anything. */
  lemma SparesWithout(it: Item, rest: seq<Item>)
    requires NoRemoval(Plain(rest))
    ensures Spares(it, rest)
  {
    hide Search, Plain;
    forall id: nat, key | IsKey(key) ensures !RemovedFrom(it, rest, id, key) {
      NoRemovalSearch(Plain(rest), id, key);
    }
  }

  lemma {:induction false} OriginSays(log: seq<Entry>, id: nat)
    ensures Origin(log, id).Created? || Origin(log, id).Reached?
  {
    if log != [] {
      OriginSays(log[1..], id);
    }
  }

  /** The answer of a search through the tags written at id `a` only, at another id. */
  predicate SameAnswer(o: Outcome, a: nat, p: Outcome, b: nat) {
    || (o == Reached(a) && p == Reached(b))
    || ((o.Found? || o.Removed?) && o == p)
  }

  lemma {:induction false} UsersSearch(attrs: seq<UserAttr>, a: nat, b: nat, key: Type3)
    ensures SameAnswer(Search(UserEntries(a, attrs), a, key), a, Search(UserEntries(b, attrs), b, key), b)
    ensures a != b ==> Search(UserEntries(a, attrs), b, key) == Reached(b)
  {
    if attrs != [] {
      UsersSearch(attrs[1..], a, b, key);
    }
  }

  /** A move writes the same attributes wherever it writes them, and nothing anywhere else. */
  lemma {:induction false} MoveSearch(src: seq<Entry>, from: nat, a: nat, b: nat, key: Type3)
    ensures SameAnswer(Search(Compacted(Wrap(src), MoveRange(from, a)), a, key), a,
                       Search(Compacted(Wrap(src), MoveRange(from, b)), b, key), b)
    ensures a != b ==> Search(Compacted(Wrap(src), MoveRange(from, a)), b, key) == Reached(b)
  {
    if src != [] {
      assert Wrap(src)[1..] == Wrap(src[1..]);
      MoveSearch(src[1..], from, a, b, key);
      WrittenIsAttr(src, MoveRange(from, a));
      WrittenIsAttr(src, MoveRange(from, b));
      SearchAppend(CompactedHead(Wrap(src), MoveRange(from, a)), Compacted(Wrap(src[1..]), MoveRange(from, a)), a, key);
      SearchAppend(CompactedHead(Wrap(src), MoveRange(from, a)), Compacted(Wrap(src[1..]), MoveRange(from, a)), b, key);
      SearchAppend(CompactedHead(Wrap(src), MoveRange(from, b)), Compacted(Wrap(src[1..]), MoveRange(from, b)), b, key);
    }
  }

  lemma WrittenIsAttr(src: seq<Entry>, r: Range)
    requires ValidRange(r) && src != []
    ensures var out := CompactedHead(Wrap(src), r);
            out == [] || (|out| == 1 && IsAttr(out[0].tag.type3) && r.lo <= out[0].tag.type3
                          && r.begin <= out[0].tag.id - r.shift < r.end)
  {
    WrapTame(src[1..]);
    assert Wrap(src)[1..] == Wrap(src[1..]);
    SurvivorIsTracked(src[0].tag, src[1..], NAME);
  }

  lemma CopySearch(it: Item, a: nat, b: nat, key: Type3)
    requires it.Move? || it.Users?
    ensures SameAnswer(Search(Written(it, a), a, key), a, Search(Written(it, b), b, key), b)
    ensures a != b ==> Search(Written(it, a), b, key) == Reached(b)
  {
    match it
    case Move(_, from, src) => MoveSearch(src, from, a, b, key);
    case Users(_, attrs) => UsersSearch(attrs, a, b, key);
  }

  lemma PlainStep(items: seq<Item>, id: nat, key: Type3)
    requires items != []
    ensures Search(Plain(items), id, key)
         == match Search(Plain(items[1..]), id, key)
            case Reached(j) => Search(Written(items[0], ItemTag(items[0]).id), j, key)
            case o => o
  {
    SearchAppend(Written(items[0], ItemTag(items[0]).id), Plain(items[1..]), id, key);
  }

  lemma CompactedStep(items: seq<Item>, r: Range, id: nat, key: Type3)
    requires ValidRange(r) && items != []
    ensures Search(Compacted(items, r), id, key)
         == match Search(Compacted(items[1..], r), id, key)
            case Reached(j) => Search(CompactedHead(items, r), j, key)
            case o => o
  {
    SearchAppend(CompactedHead(items, r), Compacted(items[1..], r), id, key);
  }

  /** Skipping moves can only let a search go further back. */
  lemma {:induction false} VisibleSearch(items: seq<Item>, id: nat, key: Type3)
    ensures var o := Search(Plain(items), id, key);
            o.Created? || o.Reached? ==> Search(Visible(items), id, key) == o
  {
    if items != [] {
      var it := items[0];
      VisibleSearch(items[1..], id, key);
      var w := Written(it, ItemTag(it).id);
      SearchAppend(w, Plain(items[1..]), id, key);
      var v := match it { case Attr(e) => [e] case Users(u, attrs) => UserEntries(u, attrs) case _ => [] };
      assert Visible(items) == v + Visible(items[1..]);
      SearchAppend(v, Visible(items[1..]), id, key);
      var o := Search(Plain(items[1..]), id, key);
      if o.Reached? && it.Move? {
        CopySearch(it, it.to, o.id, key);
        CopySearch(it, it.to, it.to, key);
      }
    }
  }

  /** How the search of a compacted log answers for the search of the log it was made from, where
      `g` is the answer of the tags the filter saw. */
  predicate Preserved(o: Outcome, g: Outcome, c: Outcome, id: nat) {
    match o
    case Found(v) => c == o
    case Removed => c == Removed || (c == Reached(id) && g == Removed)
    case _ => c == Reached(id)
  }

  /** What one tag contributes to the compacted log, by what the search meets before it. */
  lemma AttrContribution(items: seq<Item>, r: Range, id: nat, key: Type3)
    requires ValidRange(r) && r.begin <= id < r.end && IsKey(key) && Selects(r, key)
    requires items != [] && items[0].Attr?
    ensures var o := Search(Plain(items[1..]), id, key);
            var g := Search(Visible(items[1..]), id, key);
            var c := Search(CompactedHead(items, r), id + r.shift, key);
            && (o.Reached? ==>
                  match StepBack(items[0].e, o.id, key)
                  case Found(v) => c == Found(v)
                  case Removed => c == Removed || c == Reached(id + r.shift)
                  case _ => c == Reached(id + r.shift))
            && (o.Created? || g.Removed? ==> c == Reached(id + r.shift))
  {
    var e := items[0].e;
    var later := Visible(items[1..]);
    var o := Search(Plain(items[1..]), id, key);
    VisibleSearch(items[1..], id, key);
    if IsAttr(e.tag.type3) {
      SurvivorIsLast(e.tag, later);
      if o.Reached? && o.id == e.tag.id && Key(e.tag.type3) == key && !IsRemoval(e.tag) {
        ReachedSurvives(e.tag, later, id, key);
      }
    }
  }

  lemma HeadAttr(items: seq<Item>, r: Range, id: nat, key: Type3)
    requires ValidRange(r) && r.begin <= id < r.end && IsKey(key) && Selects(r, key)
    requires items != [] && items[0].Attr?
    requires Preserved(Search(Plain(items[1..]), id, key), Search(Visible(items[1..]), id, key),
                       Search(Compacted(items[1..], r), id + r.shift, key), id + r.shift)
    ensures Preserved(Search(Plain(items), id, key), Search(Visible(items), id, key),
                      Search(Compacted(items, r), id + r.shift, key), id + r.shift)
  {
    hide Plain, Visible, Compacted, CompactedHead, Search, Selects, IsKey;
    var e := items[0].e;
    VisibleSearch(items[1..], id, key);
    AttrContribution(items, r, id, key);
    OneBefore(items, id, key);
    CompactedStep(items, r, id + r.shift, key);
  }

  /** An attribute in front of what a search has gone through. */
  lemma OneBefore(items: seq<Item>, id: nat, key: Type3)
    requires items != [] && items[0].Attr?
    ensures Search(Plain(items), id, key)
         == match Search(Plain(items[1..]), id, key) { case Reached(j) => StepBack(items[0].e, j, key) case o => o }
    ensures Search(Visible(items), id, key)
         == match Search(Visible(items[1..]), id, key) { case Reached(j) => StepBack(items[0].e, j, key) case o => o }
  {
    hide StepBack;
    var e := items[0].e;
    assert Plain(items) == [e] + Plain(items[1..]) && Visible(items) == [e] + Visible(items[1..]);
    SearchAppend([e], Plain(items[1..]), id, key);
    SearchAppend([e], Visible(items[1..]), id, key);
    assert [e][1..] == [];
  }

  /** A copied attribute list is written to the compacted log if the search gets back to it. */
  lemma CopyReached(items: seq<Item>, r: Range, id: nat, key: Type3)
    requires ValidRange(r) && r.begin <= id < r.end && r.lo <= FROM
    requires items != [] && (items[0].Move? || items[0].Users?) && !IsRemoval(ItemTag(items[0]))
    requires Search(Plain(items[1..]), id, key) == Reached(ItemTag(items[0]).id)
    ensures var tag := ItemTag(items[0]);
            SameAnswer(Search(Written(items[0], tag.id), tag.id, key), tag.id,
                       Search(CompactedHead(items, r), id + r.shift, key), id + r.shift)
  {
    var tag := ItemTag(items[0]);
    VisibleSearch(items[1..], id, key);
    ReachedSurvives(tag, Visible(items[1..]), id, key);
    assert CompactedHead(items, r) == Written(items[0], id + r.shift);
    CopySearch(items[0], tag.id, id + r.shift, key);
  }

  /** Otherwise, unless the search has already ended, it is not written under the id looked for. */
  lemma CopyMissed(items: seq<Item>, r: Range, id: nat, key: Type3)
    requires ValidRange(r) && r.begin <= id < r.end
    requires items != [] && (items[0].Move? || items[0].Users?)
    requires var o := Search(Plain(items[1..]), id, key);
             o.Created? || (o.Reached? && o.id != ItemTag(items[0]).id)
    ensures Search(CompactedHead(items, r), id + r.shift, key) == Reached(id + r.shift)
  {
    hide Compacted, CompactedHead, Plain, Written, Visible, Survive;
    var tag := ItemTag(items[0]);
    VisibleSearch(items[1..], id, key);
    var written := HeadWritten(items, r, key);
    if written != id {
      CopySearch(items[0], written + r.shift, id + r.shift, key);
    }
  }

  /** The id, before the shift, under which the head of a traversal is written, if it is. */
  lemma HeadWritten(items: seq<Item>, r: Range, key: Type3) returns (id: nat)
    requires ValidRange(r) && items != []
    ensures id + r.shift >= 0
    ensures CompactedHead(items, r) == []
         || (CompactedHead(items, r) == Written(items[0], id + r.shift)
             && var o := Search(Visible(items[1..]), id, key);
                !o.Created? && (o.Reached? ==> o.id == ItemTag(items[0]).id))
  {
    var tag := ItemTag(items[0]);
    SurvivorIsTracked(tag, Visible(items[1..]), key);
    id := r.begin;
    if Survive(tag, Visible(items[1..])).Some? {
      var t := Survive(tag, Visible(items[1..])).value;
      if r.begin <= t.id < r.end {
        id := t.id;
      }
    }
  }

  /** A removal that comes last is written. */
  lemma {:induction false} LastIsWritten(items: seq<Item>, r: Range, id: nat, key: Type3)
    requires ValidRange(r) && r.begin <= id < r.end && IsKey(key) && Selects(r, key)
    requires Tame(items) && LastRemoves(Visible(items), id, key)
    ensures !Search(Compacted(items, r), id + r.shift, key).Reached?
  {
    hide Spares, Compacted, StepBack;
    CompactedStep(items, r, id + r.shift, key);
    CompactedBelow(items[1..], r);
    AttrsReach(Compacted(items[1..], r), r.end + r.shift, id + r.shift, key);
    VisibleHead(items);
    if Visible(items[1..]) != [] {
      assert Visible(items)[|Visible(items)| - 1] == Visible(items[1..])[|Visible(items[1..])| - 1];
      LastIsWritten(items[1..], r, id, key);
    } else {
      match items[0]
      case Attr(e) => RemovalWritten(items, r, id, key);
      case Users(u, attrs) => UsersRemoveNone(u, attrs, id, key);
      case _ =>
    }
  }

  lemma {:induction false} AttrsReach(log: seq<Entry>, n: int, id: nat, key: Type3)
    requires AttrsBelow(log, n)
    ensures !Search(log, id, key).Created?
    ensures Search(log, id, key).Reached? ==> Search(log, id, key).id == id
  {
    if log != [] {
      AttrsReach(log[1..], n, id, key);
    }
  }

  lemma VisibleHead(items: seq<Item>)
    ensures items == [] ==> Visible(items) == []
    ensures items != [] ==> Visible(items) == (match items[0]
                                               case Attr(e) => [e]
                                               case Users(id, attrs) => UserEntries(id, attrs)
                                               case _ => []) + Visible(items[1..])
  {
  }

  lemma RemovalWritten(items: seq<Item>, r: Range, id: nat, key: Type3)
    requires ValidRange(r) && r.begin <= id < r.end && IsKey(key) && Selects(r, key)
    requires items != [] && items[0].Attr? && Visible(items[1..]) == [] && StepBack(items[0].e, id, key) == Removed
    ensures Search(CompactedHead(items, r), id + r.shift, key) == Removed
  {
    assert CompactedHead(items, r) == [Entry(items[0].e.tag.(id := id + r.shift), items[0].e.data)];
  }

  lemma {:induction false} UsersRemoveNone(u: nat, attrs: seq<UserAttr>, id: nat, key: Type3)
    requires SmallUsers(attrs)
    ensures !LastRemoves(UserEntries(u, attrs), id, key)
  {
    if attrs != [] {
      UsersRemoveNone(u, attrs[1..], id, key);
      var rest := UserEntries(u, attrs[1..]);
      assert rest != [] ==> UserEntries(u, attrs)[|rest|] == rest[|rest| - 1];
    }
  }

  /** A copied list that is not spared is the only one that can bring back what was removed. */
  lemma HeadSpared(items: seq<Item>, r: Range, id: nat, key: Type3)
    requires ValidRange(r) && r.begin <= id < r.end && IsKey(key)
    requires items != [] && (items[0].Move? || items[0].Users?) && Spares(items[0], items[1..])
    requires Search(Plain(items[1..]), id, key) == Removed && !LastRemoves(Visible(items[1..]), id, key)
    ensures !Search(CompactedHead(items, r), id + r.shift, key).Found?
  {
    hide Compacted, CompactedHead, Plain, Written, Visible, Survive, Search, IsKey, LastRemoves, ItemTag;
    var it := items[0];
    var written := HeadWritten(items, r, FROM_MOVE);
    OriginSays(Visible(items[1..]), written);
    if CompactedHead(items, r) == [] {
      NothingFound(id + r.shift, key);
    } else {
      CopySearch(it, written + r.shift, id + r.shift, key);
      CopySearch(it, ItemTag(it).id, written + r.shift, key);
      assert written == id ==> RemovedFrom(it, items[1..], id, key);
    }
  }

  lemma NothingFound(id: nat, key: Type3)
    ensures Search([], id, key) == Reached(id)
  {
  }

  lemma HeadCopy(items: seq<Item>, r: Range, id: nat, key: Type3)
    requires ValidRange(r) && r.begin <= id < r.end && r.lo <= FROM && IsKey(key) && Selects(r, key)
    requires items != [] && (items[0].Move? || items[0].Users?) && !IsRemoval(ItemTag(items[0]))
    requires Spares(items[0], items[1..]) && Tame(items[1..])
    requires Preserved(Search(Plain(items[1..]), id, key), Search(Visible(items[1..]), id, key),
                       Search(Compacted(items[1..], r), id + r.shift, key), id + r.shift)
    ensures Preserved(Search(Plain(items), id, key), Search(Visible(items), id, key),
                      Search(Compacted(items, r), id + r.shift, key), id + r.shift)
  {
    hide Compacted, CompactedHead, Plain, Written, Search, Visible, Survive, Spares, Tame, LastRemoves;
    var tag := ItemTag(items[0]);
    var o := Search(Plain(items[1..]), id, key);
    PlainStep(items, id, key);
    CompactedStep(items, r, id + r.shift, key);
    if o == Reached(tag.id) {
      CopyReached(items, r, id, key);
    } else if o.Created? || o.Reached? {
      CopyMissed(items, r, id, key);
      if o.Reached? {
        CopySearch(items[0], tag.id, o.id, key);
      }
    } else if o.Removed? {
      if LastRemoves(Visible(items[1..]), id, key) {
        LastIsWritten(items[1..], r, id, key);
      } else {
        HeadSpared(items, r, id, key);
        HeadGoesOn(items, r, id, key);
      }
      if Search(Visible(items[1..]), id, key).Removed? {
        VisibleGoesOn(items, id, key);
      }
    }
  }

  /** What is written for one item never creates an entry, and leads to no other id. */
  lemma HeadGoesOn(items: seq<Item>, r: Range, id: nat, key: Type3)
    requires ValidRange(r) && items != [] && (items[0].Move? || items[0].Users?) && id + r.shift >= 0
    ensures var h := Search(CompactedHead(items, r), id + r.shift, key);
            h.Found? || h == Removed || h == Reached(id + r.shift)
  {
    hide Compacted, CompactedHead, Plain, Written, Visible, Survive, Search;
    var written := HeadWritten(items, r, key);
    if CompactedHead(items, r) == [] {
      NothingFound(id + r.shift, key);
    } else {
      CopySearch(items[0], written + r.shift, id + r.shift, key);
    }
  }

  lemma VisibleGoesOn(items: seq<Item>, id: nat, key: Type3)
    requires items != [] && !Search(Visible(items[1..]), id, key).Reached?
    ensures Search(Visible(items), id, key) == Search(Visible(items[1..]), id, key)
  {
    hide Search;
    var head := match items[0] { case Attr(e) => [e] case Users(u, attrs) => UserEntries(u, attrs) case _ => [] };
    VisibleHead(items);
    SearchAppend(head, Visible(items[1..]), id, key);
  }

  predicate NoCopies(items: seq<Item>) {
    forall i | 0 <= i < |items| :: !items[i].Move? && !items[i].Users?
  }

  lemma {:induction false} CompactedSearch(items: seq<Item>, r: Range, id: nat, key: Type3)
    requires ValidRange(r) && r.begin <= id < r.end && IsKey(key) && Selects(r, key)
    requires Tame(items) && (r.lo <= FROM || NoCopies(items))
    ensures Preserved(Search(Plain(items), id, key), Search(Visible(items), id, key),
                      Search(Compacted(items, r), id + r.shift, key), id + r.shift)
  {
    if items != [] {
      CompactedSearch(items[1..], r, id, key);
      match items[0]
      case Attr(_) => HeadAttr(items, r, id, key);
      case Noop =>
        assert Plain(items) == Plain(items[1..]);
        assert Visible(items) == Visible(items[1..]);
        assert CompactedHead(items, r) == [];
        assert Compacted(items, r) == Compacted(items[1..], r);
      case _ => HeadCopy(items, r, id, key);
    }
  }

  // ---- the theorems ----

  lemma {:induction false} TameAppend(log: seq<Entry>, attrs: seq<Item>)
    requires Tame(attrs)
    ensures Tame(Wrap(log) + attrs)
  {
    if log == [] {
      assert Wrap(log) + attrs == attrs;
    } else {
      assert (Wrap(log) + attrs)[1..] == Wrap(log[1..]) + attrs;
      TameAppend(log[1..], attrs);
    }
  }

  lemma PlainOfNone()
    ensures Plain([]) == []
  {
  }

  lemma {:induction false} PlainAppend(log: seq<Entry>, attrs: seq<Item>)
    ensures Plain(Wrap(log) + attrs) == log + Plain(attrs)
  {
    if log == [] {
      assert Wrap(log) + attrs == attrs;
    } else {
      assert (Wrap(log) + attrs)[1..] == Wrap(log[1..]) + attrs;
      PlainAppend(log[1..], attrs);
      assert Written(Attr(log[0]), log[0].tag.id) == [log[0]];
    }
  }

  /** The directory after a pending attribute list has been appended to a log. */
  function Updated(log: seq<Entry>, attrs: seq<Item>): Dir {
    ReplayFrom(Replay(log), Plain(attrs))
  }

  lemma CompactedLookup(items: seq<Item>, begin: nat, end: nat, id: nat, key: Type3)
    requires Tame(items) && begin <= id < end && IsKey(key)
    ensures Get(Replay(Compacted(items, CompactRange(begin, end))), id - begin, key)
         == Get(Replay(Plain(items)), id, key)
  {
    hide Compacted, Plain, Search, Replay, Tame, Visible;
    CompactedSearch(items, CompactRange(begin, end), id, key);
    SameView(Compacted(items, CompactRange(begin, end)), id - begin, Plain(items), id, key);
  }

  lemma SameView(a: seq<Entry>, i: nat, b: seq<Entry>, j: nat, key: Type3)
    requires View(Search(a, i, key)) == View(Search(b, j, key))
    ensures Get(Replay(a), i, key) == Get(Replay(b), j, key)
  {
    SearchRefinesReplay(a, i, key);
    SearchRefinesReplay(b, j, key);
  }

  /** Compacting a log together with pending attributes answers every lookup of an id in
      [begin, end) as the log with the attributes appended would. */
  lemma CompactionPreservesLookup(log: seq<Entry>, attrs: seq<Item>, begin: nat, end: nat, id: nat, key: Type3)
    requires Tame(attrs) && begin <= id < end && IsKey(key)
    ensures Get(Replay(Compacted(Wrap(log) + attrs, CompactRange(begin, end))), id - begin, key)
         == Get(Updated(log, attrs), id, key)
  {
    TameAppend(log, attrs);
    PlainAppend(log, attrs);
    CompactedLookup(Wrap(log) + attrs, begin, end, id, key);
    ReplayAppend([], log, Plain(attrs));
  }

  predicate HasKeys(dir: Dir) {
    forall i, k | 0 <= i < |dir| && k in dir[i] :: IsKey(k)
  }

  lemma {:induction false} ReplayHasKeys(dir: Dir, log: seq<Entry>)
    requires HasKeys(dir)
    ensures HasKeys(ReplayFrom(dir, log))
    decreases |log|
  {
    if log != [] {
      PadKeeps(dir, log[0].tag.id);
      PadKeeps(dir, log[0].tag.id + 1);
      ReplayHasKeys(Apply(dir, log[0]), log[1..]);
    }
  }

  /** Compacted tags are attributes with ids counted from the start of the range. */
  predicate AttrsBelow(log: seq<Entry>, n: int) {
    forall i | 0 <= i < |log| :: IsAttr(log[i].tag.type3) && log[i].tag.id < n
  }

  lemma {:induction false} UsersBelow(id: nat, attrs: seq<UserAttr>, n: int)
    requires id < n
    ensures AttrsBelow(UserEntries(id, attrs), n)
  {
    if attrs != [] {
      UsersBelow(id, attrs[1..], n);
    }
  }

  lemma BelowAppend(a: seq<Entry>, b: seq<Entry>, n: int)
    requires AttrsBelow(a, n) && AttrsBelow(b, n)
    ensures AttrsBelow(a + b, n)
  {
  }

  lemma {:induction false} CompactedBelow(items: seq<Item>, r: Range)
    requires ValidRange(r)
    ensures AttrsBelow(Compacted(items, r), r.end + r.shift)
    decreases HasMove(items), |items|
  {
    hide AttrsBelow, CompactedHead;
    if items == [] {
      NoneBelow(r.end + r.shift);
    } else {
      RestHasMove(items);
      CompactedBelow(items[1..], r);
      forall id: nat | id < r.end + r.shift ensures items[0].Attr? || AttrsBelow(Written(items[0], id),
           r.end + r.shift) {
        match items[0]
        case Move(_, from, src) =>
          WrapIsShorter(items, src);
          CompactedBelow(Wrap(src), MoveRange(from, id));
          BelowMore(Written(items[0], id), id + 1, r.end + r.shift);
        case Users(_, attrs) => UsersBelow(id, attrs, r.end + r.shift);
        case Attr(_) =>
        case Noop => NoneBelow(r.end + r.shift);
      }
      HeadBelow(items, r);
      BelowAppend(CompactedHead(items, r), Compacted(items[1..], r), r.end + r.shift);
    }
  }

  lemma BelowMore(log: seq<Entry>, m: int, n: int)
    requires AttrsBelow(log, m) && m <= n
    ensures AttrsBelow(log, n)
  {
  }

  lemma NoneBelow(n: int)
    ensures AttrsBelow([], n)
  {
  }

  lemma RestHasMove(items: seq<Item>)
    requires items != []
    ensures HasMove(items[1..]) ==> HasMove(items)
  {
    if i :| 0 <= i < |items[1..]| && items[1..][i].Move? {
      assert items[i + 1].Move?;
    }
  }

  lemma WrapIsShorter(items: seq<Item>, src: seq<Entry>)
    requires items != [] && items[0].Move?
    ensures HasMove(items) && !HasMove(Wrap(src))
  {
  }

  lemma HeadBelow(items: seq<Item>, r: Range)
    requires ValidRange(r) && items != []
    requires forall id: nat | id < r.end + r.shift :: items[0].Attr? || AttrsBelow(Written(items[0], id),
              r.end + r.shift)
    ensures AttrsBelow(CompactedHead(items, r), r.end + r.shift)
  {
    SurvivorIsTracked(ItemTag(items[0]), Visible(items[1..]), NAME);
  }

  lemma {:induction false} BelowBounds(dir: Dir, log: seq<Entry>, n: nat)
    requires AttrsBelow(log, n) && |dir| <= n
    ensures |ReplayFrom(dir, log)| <= n
    decreases |log|
  {
    if log != [] {
      PadLength(dir, log[0].tag.id + 1);
      BelowBounds(Apply(dir, log[0]), log[1..], n);
    }
  }

  /** Every entry of a range has a name. */
  predicate Named(dir: Dir, begin: nat, end: nat) {
    end <= |dir| && forall i | begin <= i < end :: NAME in dir[i]
  }

  /** Compaction preserves meaning: replaying the compacted log gives exactly the entries
      [begin, end) of the directory that appending the attributes would have given. */
  lemma CompactionPreservesDir(log: seq<Entry>, attrs: seq<Item>, begin: nat, end: nat)
    requires Tame(attrs) && begin <= end && Named(Updated(log, attrs), begin, end)
    ensures Replay(Compacted(Wrap(log) + attrs, CompactRange(begin, end)))
         == Updated(log, attrs)[begin..end]
  {
    var dir := Updated(log, attrs);
    var out := Compacted(Wrap(log) + attrs, CompactRange(begin, end));
    CompactedBelow(Wrap(log) + attrs, CompactRange(begin, end));
    BelowBounds([], out, end - begin);
    ReplayHasKeys([], log);
    ReplayHasKeys(Replay(log), Plain(attrs));
    ReplayHasKeys([], out);
    forall id, key | begin <= id < end && IsKey(key) ensures Get(Replay(out), id - begin, key) == Get(dir, id, key) {
      CompactionPreservesLookup(log, attrs, begin, end, id, key);
    }
    SameRange(Replay(out), dir, begin, end);
  }

  lemma SameRange(a: Dir, dir: Dir, begin: nat, end: nat)
    requires HasKeys(a) && HasKeys(dir) && begin <= end && Named(dir, begin, end) && |a| <= end - begin
    requires forall id, key | begin <= id < end && IsKey(key) :: Get(a, id - begin, key) == Get(dir, id, key)
    ensures a == dir[begin..end]
  {
    if begin < end {
      assert Get(a, end - 1 - begin, NAME) == Get(dir, end - 1, NAME);
    }
    forall i | 0 <= i < end - begin ensures a[i] == dir[begin..end][i] {
      SameAttrs(a, i, dir, begin + i);
    }
  }

  lemma SameAttrs(a: Dir, i: nat, b: Dir, j: nat)
    requires HasKeys(a) && HasKeys(b) && i < |a| && j < |b|
    requires forall key | IsKey(key) :: Get(a, i, key) == Get(b, j, key)
    ensures a[i] == b[j]
  {
    assert forall k | k in a[i] :: Get(a, i, k) == Get(b, j, k);
    assert forall k | k in b[j] :: Get(a, i, k) == Get(b, j, k);
  }

  /** A move gives a newly created entry exactly the structure and user attributes that the source
      entry has, leaves its name alone, and touches no other entry. */
  lemma MoveCopies(dir: Dir, to: nat, from: nat, src: seq<Entry>, id: nat, key: Type3)
    requires to < |dir| && (forall k | IsKey(k) && STRUCT <= k :: k !in dir[to]) && IsKey(key)
    ensures Get(ReplayFrom(dir, Written(Move(to, from, src), to)), id, key)
         == if id == to && STRUCT <= key then Get(Replay(src), from, key) else Get(dir, id, key)
  {
    var r := MoveRange(from, to);
    var out := Compacted(Wrap(src), r);
    WrapTame(src);
    SearchRefinesFrom(dir, out, id, key);
    if id != to {
      MoveSearch(src, from, to, id, key);
    } else if STRUCT <= key {
      CompactedSearch(Wrap(src), r, from, key);
      SearchRefinesReplay(src, from, key);
    } else {
      MoveSkipsNames(src, r, to, key);
    }
  }

  lemma {:induction false} MoveSkipsNames(src: seq<Entry>, r: Range, id: nat, key: Type3)
    requires ValidRange(r) && r.lo == STRUCT && IsKey(key) && key < STRUCT
    ensures Search(Compacted(Wrap(src), r), id, key) == Reached(id)
  {
    if src != [] {
      assert Wrap(src)[1..] == Wrap(src[1..]);
      MoveSkipsNames(src[1..], r, id, key);
      WrittenIsAttr(src, r);
      SearchAppend(CompactedHead(Wrap(src), r), Compacted(Wrap(src[1..]), r), id, key);
    }
  }

  const SOME_ATTR: Entry := Entry(Tag(USERATTR, 0, 1), [7])
  const ITS_REMOVAL: Entry := Entry(Tag(USERATTR, 0, ALL_ONES), [])
  const SOME_STRUCT: Entry := Entry(Tag(STRUCT, 0, 0), [])

  lemma CopiedAttr()
    ensures Written(Move(0, 0, [SOME_ATTR]), 0) == [SOME_ATTR]
  {
    assert Wrap([SOME_ATTR]) == [Attr(SOME_ATTR)] && [Attr(SOME_ATTR)][1..] == [];
    assert CompactedHead(Wrap([SOME_ATTR]), MoveRange(0, 0)) == [SOME_ATTR];
    assert Compacted(Wrap([SOME_ATTR]), MoveRange(0, 0)) == [SOME_ATTR] + Compacted([], MoveRange(0, 0));
  }

  lemma CopySurvives(items: seq<Item>)
    requires items == [Move(0, 0, [SOME_ATTR]), Attr(ITS_REMOVAL), Attr(SOME_STRUCT)]
    ensures Plain(items) == [SOME_ATTR, ITS_REMOVAL, SOME_STRUCT]
    ensures Plain(items[1..]) == Visible(items[1..]) == [ITS_REMOVAL, SOME_STRUCT]
    ensures Compacted(items, CompactRange(0, 1)) == [SOME_ATTR, SOME_STRUCT]
  {
    var r := CompactRange(0, 1);
    var rest, end := items[1..], items[2..];
    assert rest == [Attr(ITS_REMOVAL), Attr(SOME_STRUCT)] && rest[1..] == end == [Attr(SOME_STRUCT)] && end[1..] == [];
    assert Visible(end) == [SOME_STRUCT] && Visible(rest) == [ITS_REMOVAL, SOME_STRUCT];
    assert [ITS_REMOVAL, SOME_STRUCT][1..] == [SOME_STRUCT] && [SOME_STRUCT][1..] == [];
    assert Visible(rest)[0] == ITS_REMOVAL;
    CopiedAttr();
    assert Written(Attr(ITS_REMOVAL), 0) == [ITS_REMOVAL] && Written(Attr(SOME_STRUCT), 0) == [SOME_STRUCT];
    assert Plain(end) == [SOME_STRUCT];
    assert Plain(rest) == [ITS_REMOVAL] + Plain(end);
    assert Plain(items) == [SOME_ATTR] + Plain(rest);
    var tag := ItemTag(items[0]);
    assert FilterStep(tag, ITS_REMOVAL.tag) == Some(tag) && FilterStep(tag, SOME_STRUCT.tag) == Some(tag);
    assert Survive(tag, [SOME_STRUCT]) == Some(tag);
    assert Survive(tag, Visible(rest)) == Some(tag);
    assert CompactedHead(items, r) == [SOME_ATTR];
    assert CompactedHead(rest, r) == [] && Compacted(end, r) == [SOME_STRUCT] && Compacted(rest, r) == [SOME_STRUCT];
  }

  lemma CopyNotSpared(items: seq<Item>)
    requires items == [Move(0, 0, [SOME_ATTR]), Attr(ITS_REMOVAL), Attr(SOME_STRUCT)]
    requires Plain(items[1..]) == Visible(items[1..]) == [ITS_REMOVAL, SOME_STRUCT]
    ensures !Tame(items)
  {
    var end, rest := [SOME_STRUCT], [ITS_REMOVAL, SOME_STRUCT];
    assert end[1..] == [] && rest[1..] == end && [SOME_ATTR][1..] == [];
    assert Search(end, 0, USERATTR) == Reached(0) && Search(end, 0, FROM_MOVE) == Reached(0);
    assert Origin(rest, 0) == Reached(0) && Search(rest, 0, USERATTR) == Removed;
    assert RemovedFrom(items[0], items[1..], 0, USERATTR);
    CopiedAttr();
    assert Search([], 0, USERATTR) == Reached(0);
    assert Copies(items[0], USERATTR) && IsKey(USERATTR);
    assert !Spares(items[0], items[1..]);
  }

  /** Why copied attributes must not be removed by the same list: the filter drops a removal that is not
      the last tag, and does not see that it was meant for an attribute still to be copied. */
  lemma RemovalAfterMoveIsLost()
    ensures var items := [Move(0, 0, [SOME_ATTR]), Attr(ITS_REMOVAL), Attr(SOME_STRUCT)];
            && !Tame(items) && Get(Replay(Plain(items)), 0, USERATTR) == None
            && Get(Replay(Compacted(items, CompactRange(0, 1))), 0, USERATTR) == Some(ValueOf(SOME_ATTR))
  {
    hide Compacted, Plain, Tame, Replay;
    CopySurvives([Move(0, 0, [SOME_ATTR]), Attr(ITS_REMOVAL), Attr(SOME_STRUCT)]);
    CopyNotSpared([Move(0, 0, [SOME_ATTR]), Attr(ITS_REMOVAL), Attr(SOME_STRUCT)]);
    var end := [SOME_STRUCT];
    var key := USERATTR;
    assert end[1..] == [] && [ITS_REMOVAL, SOME_STRUCT][1..] == end && [SOME_ATTR, SOME_STRUCT][1..] == end;
    assert [SOME_ATTR, ITS_REMOVAL, SOME_STRUCT][1..] == [ITS_REMOVAL, SOME_STRUCT];
    assert Search(end, 0, key) == Reached(0);
    assert Search([ITS_REMOVAL, SOME_STRUCT], 0, key) == Removed;
    assert Search([SOME_ATTR, SOME_STRUCT], 0, key) == Outcome.Found(ValueOf(SOME_ATTR));
    SearchRefinesReplay([SOME_ATTR, ITS_REMOVAL, SOME_STRUCT], 0, key);
    SearchRefinesReplay([SOME_ATTR, SOME_STRUCT], 0, key);
  }
}
