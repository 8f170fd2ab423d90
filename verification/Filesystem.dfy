/** The metadata pairs of a file system and its global state: commits, compactions, splits and drops
    conserve the global state, and a rename between two directories survives a loss of power. */
module Filesystem {
  import opened Words
  import opened TagWords
  import opened Tags
  import opened MetaLog
  import opened Compaction
  import opened CompactionProof
  import opened Gstate
  import opened Rename

  /** A metadata pair: its two blocks, its log, and its share of the global state. */
  datatype Mdir = Mdir(pair: (Word, Word), log: seq<Entry>, share: Gstate)

  function Shares(pairs: seq<Mdir>): (s: seq<Gstate>)
    ensures |s| == |pairs| && forall k | 0 <= k < |pairs| :: s[k] == pairs[k].share
  {
    seq(|pairs|, k requires 0 <= k < |pairs| => pairs[k].share)
  }

  predicate Clean(pairs: seq<Mdir>) {
    forall k | 0 <= k < |pairs| :: Stored(pairs[k].share) == pairs[k].share
  }

  /** The shares on disk and the share not yet written make up the global state on disk. */
  predicate Conserves(pairs: seq<Mdir>, gdelta: Gstate, gdisk: Gstate) {
    Clean(pairs) && Stored(gdelta) == gdelta && Plus(gdelta, Total(Shares(pairs))) == Stored(gdisk)
  }

  /** The pending move, if it takes an entry from this pair. */
  function MoveFrom(g: Gstate, pair: (Word, Word)): Option<nat> {
    if HasMoveHere(g, pair) then Some(MoveId(g)) else None
  }

  /** A directory as anyone sees it who mounts what is on disk: its log, and the pending move. */
  function Seen(pairs: seq<Mdir>, k: nat): Dir
    requires k < |pairs|
  {
    Replay(pairs[k].log + MovedAway(MoveFrom(Total(Shares(pairs)), pairs[k].pair)))
  }

  // ---- conservation ----

  lemma {:induction false} TotalIsClean(pairs: seq<Mdir>)
    requires Clean(pairs)
    ensures Stored(Total(Shares(pairs))) == Total(Shares(pairs))
    decreases |pairs|
  {
    hide Stored, Plus;
    if pairs == [] {
      StoredPlus(ZERO, ZERO);
    } else {
      assert Shares(pairs)[1..] == Shares(pairs[1..]);
      TotalIsClean(pairs[1..]);
      StoredPlus(pairs[0].share, Total(Shares(pairs[1..])));
    }
  }

  /** Adding what changes in the global state, and what is not yet written, to one share. */
  lemma ShareChanges(pairs: seq<Mdir>, i: nat, d: Mdir, delta: Gstate, gdelta: Gstate, gdisk: Gstate, gstate: Gstate)
    requires i < |pairs| && Conserves(pairs, gdelta, gdisk) && Stored(delta) == delta
              && d.share == Plus(delta, pairs[i].share)
    requires Plus(delta, Stored(gdisk)) == Plus(gdelta, Stored(gstate))
    ensures Conserves(pairs[i := d], ZERO, gstate)
  {
    hide Stored, Plus;
    assert Shares(pairs[i := d]) == Shares(pairs)[i := Plus(delta, Shares(pairs)[i])];
    TotalUpdate(Shares(pairs), i, delta);
    StoredPlus(delta, pairs[i].share);
    StoredPlus(ZERO, ZERO);
    var t := Total(Shares(pairs));
    // gdelta + (delta + t) == delta + (gdelta + t) == gdelta + gstate
    PlusAssociates(gdelta, delta, t);
    PlusCommutes(gdelta, delta);
    PlusAssociates(delta, gdelta, t);
    PlusCancels(Plus(delta, t), gdelta);
    PlusCancels(Stored(gstate), gdelta);
    PlusSelf(Plus(delta, t));
    assert Clean(pairs[i := d]);
  }

  /** What a commit writes of the global state. */
  function Delta(gstate: Gstate, gdisk: Gstate, gdelta: Gstate): Gstate {
    Stored(Plus(Plus(Plus(ZERO, gstate), gdisk), gdelta))
  }

  lemma DeltaIs(gstate: Gstate, gdisk: Gstate, gdelta: Gstate)
    requires Stored(gdelta) == gdelta
    ensures var delta := Delta(gstate, gdisk, gdelta);
            Stored(delta) == delta && Plus(delta, Stored(gdisk)) == Plus(gdelta, Stored(gstate))
  {
    hide Stored, Plus;
    PlusSelf(gstate);
    var both := Plus(gstate, gdisk);
    StoredPlus(gstate, gdisk);
    StoredPlus(both, gdelta);
    StoredPlus(Plus(both, gdelta), gdelta);
    PlusCommutes(Stored(both), gdelta);
    PlusAssociates(gdelta, Stored(both), Stored(gdisk));
    PlusCancels(Stored(gstate), Stored(gdisk));
  }

  /** A pair put into the list, and a pair taken out of it. */
  function Inserted(pairs: seq<Mdir>, i: nat, d: Mdir): seq<Mdir>
    requires i <= |pairs|
  {
    pairs[..i] + [d] + pairs[i..]
  }

  lemma TotalInserted(pairs: seq<Mdir>, i: nat, d: Mdir)
    requires i <= |pairs|
    ensures Total(Shares(Inserted(pairs, i, d))) == Plus(d.share, Total(Shares(pairs)))
  {
    hide Plus;
    var a, b := Shares(pairs[..i]), Shares(pairs[i..]);
    assert Shares(Inserted(pairs, i, d)) == a + ([d.share] + b);
    assert Shares(pairs) == a + b;
    TotalAppend(a, [d.share] + b);
    TotalAppend(a, b);
    assert ([d.share] + b)[1..] == b;
    PlusAssociates(Total(a), d.share, Total(b));
    PlusCommutes(Total(a), d.share);
    PlusAssociates(d.share, Total(a), Total(b));
  }

  /** A new pair that takes what is to be written of the global state. */
  lemma ShareInserted(pairs: seq<Mdir>, i: nat, d: Mdir, gdelta: Gstate, gdisk: Gstate, gstate: Gstate)
    requires i <= |pairs| && Conserves(pairs, gdelta, gdisk) && Stored(d.share) == d.share
    requires Plus(d.share, Stored(gdisk)) == Plus(gdelta, Stored(gstate))
    ensures Conserves(Inserted(pairs, i, d), ZERO, gstate)
  {
    hide Stored, Plus;
    TotalInserted(pairs, i, d);
    StoredPlus(ZERO, ZERO);
    var t := Total(Shares(pairs));
    PlusAssociates(gdelta, d.share, t);
    PlusCommutes(gdelta, d.share);
    PlusAssociates(d.share, gdelta, t);
    PlusCancels(Plus(d.share, t), gdelta);
    PlusCancels(Stored(gstate), gdelta);
    PlusSelf(Plus(d.share, t));
    var all := Inserted(pairs, i, d);
    assert forall k | 0 <= k < |all| :: all[k] == if k < i then pairs[k] else if k == i then d else pairs[k - 1];
  }

  /** Taking a pair out of the list together with its share. */
  lemma ShareTaken(pairs: seq<Mdir>, i: nat, d: Mdir, gdelta: Gstate, gdisk: Gstate)
    requires i <= |pairs| && Conserves(Inserted(pairs, i, d), gdelta, gdisk)
    ensures Conserves(pairs, Plus(gdelta, d.share), gdisk)
  {
    hide Stored, Plus;
    TotalInserted(pairs, i, d);
    var all := Inserted(pairs, i, d);
    assert all[i] == d;
    forall k | 0 <= k < |pairs| ensures Stored(pairs[k].share) == pairs[k].share {
      assert pairs[k] == if k < i then all[k] else all[k + 1];
    }
    PlusAssociates(gdelta, d.share, Total(Shares(pairs)));
    StoredPlus(gdelta, d.share);
  }

  lemma TotalOfPrefix(shares: seq<Gstate>, k: nat)
    requires k <= |shares|
    ensures Total(shares[..0]) == ZERO && Total(shares[..|shares|]) == Total(shares)
    ensures k < |shares| ==> Total(shares[..k + 1]) == Plus(Total(shares[..k]), shares[k])
  {
    hide Plus;
    assert shares[..|shares|] == shares;
    if k < |shares| {
      TotalAppend(shares[..k], [shares[k]]);
      assert shares[..k] + [shares[k]] == shares[..k + 1] && [shares[k]][1..] == [];
      PlusSelf(shares[k]);
    }
  }

  lemma MountConserves(pairs: seq<Mdir>)
    requires Clean(pairs)
    ensures Conserves(pairs, ZERO, Mounted(Total(Shares(pairs))))
  {
    hide Stored, Plus, Mounted, Total;
    TotalIsClean(pairs);
    MountedKeeps(Total(Shares(pairs)));
    PlusSelf(Total(Shares(pairs)));
    StoredPlus(ZERO, ZERO);
  }

  // ---- what is visible ----

  /** No two pairs share a block. */
  predicate Apart(pairs: seq<Mdir>) {
    forall j, k | 0 <= j < |pairs| && 0 <= k < |pairs| && j != k :: !Touches(pairs[j].pair, pairs[k].pair)
  }

  predicate Touches(a: (Word, Word), b: (Word, Word)) {
    SharesBlock(a.0, a.1, b.0, b.1)
  }

  predicate SameBlocks(a: (Word, Word), b: (Word, Word)) {
    a == b || a == (b.1, b.0)
  }

  lemma SwapsTouch(a: (Word, Word), a': (Word, Word), b: (Word, Word), b': (Word, Word))
    requires SameBlocks(a', a) && SameBlocks(b', b)
    ensures Touches(a, b) == Touches(a', b') && Touches(a, a) && Touches(a, a')
  {
  }

  lemma ApartAgain(pairs: seq<Mdir>, pairs': seq<Mdir>, i: nat)
    requires i < |pairs| == |pairs'| && Apart(pairs) && SameBlocks(pairs'[i].pair, pairs[i].pair)
    requires forall k | 0 <= k < |pairs| && k != i :: pairs'[k] == pairs[k]
    ensures Apart(pairs')
  {
    hide Touches, SameBlocks;
    forall j, k | 0 <= j < |pairs'| && 0 <= k < |pairs'| && j != k ensures !Touches(pairs'[j].pair, pairs'[k].pair) {
      assert !Touches(pairs[j].pair, pairs[k].pair);
      Same(pairs[j].pair);
      Same(pairs[k].pair);
      SwapsTouch(pairs[j].pair, pairs'[j].pair, pairs[k].pair, pairs'[k].pair);
    }
  }

  lemma Same(a: (Word, Word))
    ensures SameBlocks(a, a)
  {
  }

  /** When everything is written, what is on disk tells of the move that the global state tells of. */
  lemma DiskSays(pairs: seq<Mdir>, gdisk: Gstate)
    requires Conserves(pairs, ZERO, gdisk)
    ensures Moving(Total(Shares(pairs))) == Moving(gdisk) && MoveId(Total(Shares(pairs))) == MoveId(gdisk)
    ensures Total(Shares(pairs)).pair0 == gdisk.pair0 && Total(Shares(pairs)).pair1 == gdisk.pair1
  {
    hide Moving, MoveId, Plus, WithoutCount, Total;
    PlusSelf(Total(Shares(pairs)));
    TotalIsClean(pairs);
    StoredSays(Total(Shares(pairs)), gdisk);
  }

  lemma VisibleWithout(pairs: seq<Mdir>, gdisk: Gstate, k: nat)
    requires k < |pairs| && Conserves(pairs, ZERO, gdisk) && !Moving(gdisk)
    ensures Seen(pairs, k) == Replay(pairs[k].log)
  {
    hide Moving, MoveId, Conserves, Total, Replay;
    DiskSays(pairs, gdisk);
    assert pairs[k].log + [] == pairs[k].log;
  }

  /** A pending move hides the entry it moves, and nothing else. */
  lemma VisibleMoving(pairs: seq<Mdir>, gdisk: Gstate, o: nat, k: nat)
    requires o < |pairs| && k < |pairs| && Conserves(pairs, ZERO, gdisk) && Apart(pairs)
    requires Moving(gdisk) && SameBlocks((gdisk.pair0, gdisk.pair1), pairs[o].pair)
    requires MoveId(gdisk) < |Replay(pairs[o].log)|
    ensures Seen(pairs, k)
         == if k == o then Without(Replay(pairs[k].log), MoveId(gdisk)) else Replay(pairs[k].log)
  {
    hide Moving, MoveId, Conserves, Total, SharesBlock, SameBlocks;
    DiskSays(pairs, gdisk);
    Same(pairs[k].pair);
    SwapsTouch(pairs[o].pair, (gdisk.pair0, gdisk.pair1), pairs[k].pair, pairs[k].pair);
    if k == o {
      var del := Entry(Tag(DELETE, MoveId(gdisk), 0), []);
      ReplayAppend([], pairs[k].log, [del]);
      assert [del][1..] == [];
    } else {
      assert !Touches(pairs[o].pair, pairs[k].pair);
      assert pairs[k].log + [] == pairs[k].log;
    }
  }

  /** Every entry has a name. */
  predicate AllNamed(dir: Dir) {
    Named(dir, 0, |dir|)
  }

  lemma WithoutIsDelete(log: seq<Entry>, id: nat)
    requires id < |Replay(log)|
    ensures Updated(log, [Attr(Entry(Tag(DELETE, id, 0), []))]) == Without(Replay(log), id)
    ensures AllNamed(Replay(log)) ==> AllNamed(Without(Replay(log), id))
    ensures Tame([Attr(Entry(Tag(DELETE, id, 0), []))])
  {
    var dir := Replay(log);
    assert [Attr(Entry(Tag(DELETE, id, 0), []))][1..] == [];
    DeleteIs(dir, id);
    if AllNamed(dir) {
      forall i | 0 <= i < |dir| - 1 ensures NAME in Without(dir, id)[i] {
        assert Without(dir, id)[i] == if i < id then dir[i] else dir[i + 1];
      }
    }
  }

  lemma PlacedIsNamed(dir: Dir, replace: bool, id: nat, attrs: Attrs, name: Value)
    requires id <= |dir| && (replace ==> id < |dir|) && AllNamed(dir)
    ensures AllNamed(Placed(dir, replace, id, Renamed(attrs, name)))
  {
  }

  /** What a rename asks for: entry `oldId` of pair o becomes entry `newId` of pair n, under a name. */
  datatype Renaming = Renaming(o: nat, oldId: bv10, n: nat, newId: nat, replace: bool, name: Entry)

  predicate CanRename(pairs: seq<Mdir>, a: Renaming) {
    && a.o < |pairs| && a.n < |pairs| && a.o != a.n && Apart(pairs)
    && IdOf(a.oldId) < ALL_ONES && IdOf(a.oldId) < |Replay(pairs[a.o].log)|
    && a.newId <= |Replay(pairs[a.n].log)| && (a.replace ==> a.newId < |Replay(pairs[a.n].log)|)
    && IsName(a.name, a.newId)
  }

  /** The directories after a rename. */
  function Moved(pairs: seq<Mdir>, a: Renaming, k: nat): Dir
    requires CanRename(pairs, a) && k < |pairs|
  {
    var dir := Replay(pairs[k].log);
    if k == a.o then Without(dir, IdOf(a.oldId))
    else if k == a.n then
      Placed(dir, a.replace, a.newId, Renamed(Replay(pairs[a.o].log)[IdOf(a.oldId)], ValueOf(a.name)))
    else dir
  }

  function RenameItems(pairs: seq<Mdir>, a: Renaming): seq<Item>
    requires a.o < |pairs|
  {
    Items(a.replace, a.newId, a.name, IdOf(a.oldId), pairs[a.o].log)
  }

  /** The commit to the new directory. */
  lemma RenameCommits(pairs: seq<Mdir>, a: Renaming)
    requires CanRename(pairs, a)
    ensures Updated(pairs[a.n].log, RenameItems(pairs, a)) == Moved(pairs, a, a.n) && Tame(RenameItems(pairs, a))
    ensures AllNamed(Replay(pairs[a.n].log)) ==> AllNamed(Moved(pairs, a, a.n))
  {
    hide IdOf, IsName, Apart, Plain, Tame, ReplayFrom, Placed, Renamed, HasKeys, AllNamed, Items;
    var src := pairs[a.o].log;
    var items := RenameItems(pairs, a);
    ReplayHasKeys([], pairs[a.n].log);
    RenamePlaces(Replay(pairs[a.n].log), a.replace, a.newId, a.name, IdOf(a.oldId), src, []);
    ItemsAreTame(a.replace, a.newId, a.name, IdOf(a.oldId), src, []);
    assert items + [] == items && items + Wrap([]) == items;
    NothingPlain(Placed(Replay(pairs[a.n].log), a.replace, a.newId, Renamed(Replay(src)[IdOf(a.oldId)],
         ValueOf(a.name))));
    if AllNamed(Replay(pairs[a.n].log)) {
      PlacedIsNamed(Replay(pairs[a.n].log), a.replace, a.newId, Replay(src)[IdOf(a.oldId)], ValueOf(a.name));
    }
  }

  /** Rewriting a whole log alone keeps its directory. */
  lemma RewriteKeeps(log: seq<Entry>)
    requires AllNamed(Replay(log))
    ensures Replay(Compacted(Wrap(log) + [], CompactRange(0, |Replay(log)|))) == Replay(log)
  {
    hide Compacted, Wrap, Replay;
    NothingPlain(Replay(log));
    CompactionPreservesDir(log, [], 0, |Replay(log)|);
    assert Replay(log)[0..|Replay(log)|] == Replay(log);
  }

  lemma NothingPlain(dir: Dir)
    ensures ReplayFrom(dir, Plain([])) == dir
  {
  }

  class Lfs {
    var pairs: seq<Mdir>
    var gstate: Gstate
    var gdisk: Gstate
    var gdelta: Gstate

    ghost predicate Conserved()
      reads this
    {
      Conserves(pairs, gdelta, gdisk)
    }

    constructor (pairs: seq<Mdir>)
      requires Clean(pairs)
      ensures this.pairs == pairs && Conserved() && gdelta == ZERO && gdisk == gstate == Mounted(Total(Shares(pairs)))
    {
      this.pairs := pairs;
      gstate, gdisk, gdelta := ZERO, ZERO, ZERO;
      new;
      Mount();
    }

    /** Finds the global state in what is on disk. */
    method Mount()
      requires Clean(pairs)
      modifies this`gstate, this`gdisk, this`gdelta
      ensures Conserved() && gdelta == ZERO && gdisk == gstate == Mounted(Total(Shares(pairs)))
    {
      hide Stored, Plus, TagWords.Valid, Total;
      gstate, gdelta := ZERO, ZERO;
      TotalOfPrefix(Shares(pairs), 0);
      for k := 0 to |pairs|
        invariant gstate == Total(Shares(pairs)[..k]) && gdelta == ZERO
      {
        TotalOfPrefix(Shares(pairs), k);
        gstate := Plus(gstate, pairs[k].share);
      }
      TotalOfPrefix(Shares(pairs), |pairs|);
      MountConserves(pairs);
      gstate := gstate.(tag := if TagWords.Valid(gstate.tag) then gstate.tag else gstate.tag + 1);
      gdisk := gstate;
    }

    /** Appends attributes and the change of the global state to a pair. */
    method Append(i: nat, items: seq<Item>)
      requires Conserved() && i < |pairs|
      modifies this
      ensures Conserved() && gdelta == ZERO && gdisk == gstate == old(gstate) && |pairs| == old(|pairs|)
      ensures forall k | 0 <= k < |pairs| && k != i :: pairs[k] == old(pairs[k])
      ensures pairs[i].pair == old(pairs[i].pair) && pairs[i].log == old(pairs[i].log) + Plain(items)
    {
      hide Stored, Plus, Total, Plain;
      var delta := Plus(Plus(Plus(ZERO, gstate), gdisk), gdelta);
      delta := Stored(delta);
      DeltaIs(gstate, gdisk, gdelta);
      var share := pairs[i].share;
      ghost var d := Mdir(pairs[i].pair, pairs[i].log + Plain(items), Plus(delta, share));
      ShareChanges(pairs, i, d, delta, gdelta, gdisk, gstate);
      PlusSelf(share);
      if delta != ZERO {
        share := Plus(delta, share);
      }
      pairs := pairs[i := Mdir(pairs[i].pair, pairs[i].log + Plain(items), share)];
      gdisk := gstate;
      gdelta := ZERO;
    }

    /** Rewrites entries of a pair together with attributes into its other block, or, if that block is
        bad or tired, into a new one; the global state on disk then waits for a later commit. */
    method Compact(i: nat, items: seq<Item>, begin: nat, end: nat, relocated: Option<Word>)
      requires Conserved() && i < |pairs|
      modifies this
      ensures Conserved() && gdelta == ZERO && gstate == old(gstate) && |pairs| == old(|pairs|)
      ensures gdisk == if relocated.None? then gstate else old(gdisk)
      ensures forall k | 0 <= k < |pairs| && k != i :: pairs[k] == old(pairs[k])
      ensures pairs[i].pair == (if relocated.Some? then relocated.value else old(pairs[i].pair.1), old(pairs[i].pair.0))
      ensures pairs[i].log == Compacted(Wrap(old(pairs[i].log)) + items, CompactRange(begin, end))
    {
      hide Stored, Plus, Total, Compacted, Wrap;
      var delta := ZERO;
      if relocated.None? {
        delta := Plus(Plus(delta, gdisk), gstate);
        PlusSelf(gdisk);
        PlusSelf(gstate);
        PlusCommutes(gdisk, gstate);
      }
      delta := Plus(delta, gdelta);
      delta := Stored(delta);
      DeltaIs(gstate, gdisk, gdelta);
      PlusSelf(gdelta);
      ghost var d := Mdir((if relocated.Some? then relocated.value else pairs[i].pair.1, pairs[i].pair.0),
                          Compacted(Wrap(pairs[i].log) + items, CompactRange(begin, end)), Plus(delta, pairs[i].share));
      ShareChanges(pairs, i, d, delta, gdelta, gdisk, if relocated.None? then gstate else gdisk);
      delta := Plus(delta, pairs[i].share);
      pairs := pairs[i := Mdir((if relocated.Some? then relocated.value else pairs[i].pair.1, pairs[i].pair.0),
                               Compacted(Wrap(pairs[i].log) + items, CompactRange(begin, end)), delta)];
      gdelta := ZERO;
      if relocated.None? {
        gdisk := gstate;
      }
    }

    /** Splits the entries from `split` on off into a new pair behind this one. */
    method Split(i: nat, items: seq<Item>, split: nat, end: nat, pair: (Word, Word))
      requires Conserved() && i < |pairs|
      modifies this
      ensures Conserved() && gdelta == ZERO && gdisk == gstate == old(gstate) && |pairs| == old(|pairs|) + 1
      ensures pairs == Inserted(old(pairs), i + 1, pairs[i + 1]) && pairs[i + 1].pair == pair
      ensures pairs[i + 1].log == Compacted(Wrap(old(pairs[i].log)) + items, CompactRange(split, end))
    {
      hide Stored, Plus, Total, Compacted, Wrap;
      var delta := Plus(Plus(Plus(ZERO, gdisk), gstate), gdelta);
      PlusSelf(gdisk);
      PlusSelf(gstate);
      PlusCommutes(gdisk, gstate);
      delta := Stored(delta);
      DeltaIs(gstate, gdisk, gdelta);
      var tail := Mdir(pair, Compacted(Wrap(pairs[i].log) + items, CompactRange(split, end)), delta);
      ShareInserted(pairs, i + 1, tail, gdelta, gdisk, gstate);
      pairs := Inserted(pairs, i + 1, tail);
      gdelta := ZERO;
      gdisk := gstate;
    }

    /** A commit that changes no entry of a pair. */
    method Unlink(i: nat, compact: bool, relocated: Option<Word>)
      requires Conserved() && i < |pairs| && (compact ==> AllNamed(Replay(pairs[i].log)))
      modifies this
      ensures Conserved() && gdelta == ZERO && gstate == old(gstate) && |pairs| == old(|pairs|)
      ensures gdisk == if compact && relocated.Some? then old(gdisk) else gstate
      ensures Replay(pairs[i].log) == Replay(old(pairs[i].log)) && (!compact ==> pairs[i].log == old(pairs[i].log))
      ensures pairs[i].pair == if !compact then old(pairs[i].pair)
                               else (if relocated.Some? then relocated.value else old(pairs[i].pair.1),
                                     old(pairs[i].pair.0))
      ensures forall k | 0 <= k < |pairs| && k != i :: pairs[k] == old(pairs[k])
    {
      hide Conserves, Plain, Compacted, Wrap, Replay, AllNamed;
      if compact {
        RewriteKeeps(pairs[i].log);
        Compact(i, [], 0, |Replay(pairs[i].log)|, relocated);
      } else {
        PlainOfNone();
        Append(i, []);
        assert pairs[i].log == old(pairs[i].log);
      }
    }

    /** Drops the pair behind this one: its share goes into the commit that unlinks it, which is appended
        or rewrites this pair, into a new block if need be. */
    method Drop(i: nat, compact: bool, relocated: Option<Word>)
      requires Conserved() && i + 1 < |pairs| && (compact ==> AllNamed(Replay(pairs[i].log)))
      modifies this
      ensures Conserved() && gdelta == ZERO && gstate == old(gstate) && |pairs| == old(|pairs|) - 1
      ensures gdisk == if compact && relocated.Some? then old(gdisk) else gstate
      ensures Replay(pairs[i].log) == Replay(old(pairs[i].log)) && (!compact ==> pairs[i].log == old(pairs[i].log))
      ensures pairs[i].pair == if !compact then old(pairs[i].pair)
                               else (if relocated.Some? then relocated.value else old(pairs[i].pair.1),
                                     old(pairs[i].pair.0))
      ensures forall k | 0 <= k < |pairs| && k != i :: pairs[k] == if k < i then old(pairs[k]) else old(pairs)[k + 1]
    {
      hide Stored, Plus, Total, Replay, AllNamed;
      var tail := pairs[i + 1];
      var rest := pairs[..i + 1] + pairs[i + 2..];
      assert Inserted(rest, i + 1, tail) == pairs;
      ShareTaken(rest, i + 1, tail, gdelta, gdisk);
      gdelta := Plus(gdelta, tail.share);
      pairs := rest;
      assert rest[i] == old(pairs)[i];
      Unlink(i, compact, relocated);
    }

    /** Commits attributes to a pair, by appending them or by rewriting it: the directory becomes what
        appending them makes of it. */
    method Commit(i: nat, items: seq<Item>, compact: bool)
      requires Conserved() && i < |pairs|
      requires compact ==> Tame(items) && AllNamed(Updated(pairs[i].log, items))
      modifies this
      ensures Conserved() && gdelta == ZERO && gdisk == gstate == old(gstate) && |pairs| == old(|pairs|)
      ensures forall k | 0 <= k < |pairs| && k != i :: pairs[k] == old(pairs[k])
      ensures SameBlocks(pairs[i].pair, old(pairs[i].pair)) && Replay(pairs[i].log) == Updated(old(pairs[i].log), items)
    {
      hide Conserves, Plain, Compacted, Wrap, Tame, ReplayFrom;
      if compact {
        var dir := Updated(pairs[i].log, items);
        CompactionPreservesDir(pairs[i].log, items, 0, |dir|);
        assert dir[0..|dir|] == dir;
        Compact(i, items, 0, |dir|, None);
      } else {
        ReplayAppend([], pairs[i].log, Plain(items));
        Append(i, items);
      }
    }

    /** Deletes the entry a pending move has moved, together with the announcement of the move. */
    method DeleteMoved(o: nat, id: nat, compact: bool)
      requires Conserved() && gdelta == ZERO && Apart(pairs) && Moving(gdisk)
      requires o < |pairs| && SameBlocks((gdisk.pair0, gdisk.pair1), pairs[o].pair)
      requires id == MoveId(gdisk) < |Replay(pairs[o].log)| && (compact ==> AllNamed(Replay(pairs[o].log)))
      modifies this
      ensures Conserved() && gdelta == ZERO && Apart(pairs) && |pairs| == old(|pairs|) && !Moving(gdisk)
      ensures forall k | 0 <= k < |pairs| :: Seen(pairs, k) == old(Seen(pairs, k))
    {
      hide Conserves, Replay, Updated, Without, Seen, Moving, MoveId, Apart, SameBlocks, AllNamed, Tame, PrepMove,
           Stored;
      ghost var was, g := pairs, gdisk;
      forall k | 0 <= k < |pairs| ensures Seen(was, k)
          == if k == o then Without(Replay(was[k].log), id) else Replay(was[k].log) {
        VisibleMoving(was, g, o, k);
      }
      WithoutIsDelete(pairs[o].log, id);
      PrepMoveSays(gstate, false, 0, (0, 0));
      gstate := PrepMove(gstate, false, 0, (0, 0));
      Commit(o, [Attr(Entry(Tag(DELETE, id, 0), []))], compact);
      ApartAgain(was, pairs, o);
      forall k | 0 <= k < |pairs| ensures Seen(pairs, k) == Seen(was, k) {
        VisibleWithout(pairs, gdisk, k);
      }
    }

    /** Finishes a move that was pending when power was lost. Nobody sees a difference. */
    method Demove(o: nat, compact: bool)
      requires Conserved() && gdelta == ZERO && Apart(pairs)
      requires Moving(gdisk) ==> o < |pairs| && SameBlocks((gdisk.pair0, gdisk.pair1), pairs[o].pair)
                                 && MoveId(gdisk) < |Replay(pairs[o].log)|
                                 && (compact ==> AllNamed(Replay(pairs[o].log)))
      modifies this
      ensures Conserved() && gdelta == ZERO && Apart(pairs) && |pairs| == old(|pairs|) && !Moving(gdisk)
      ensures forall k | 0 <= k < |pairs| :: Seen(pairs, k) == old(Seen(pairs, k))
    {
      hide Conserves, Replay, Seen, Moving, MoveId, Apart, SameBlocks, AllNamed;
      if !Moving(gdisk) {
        return;
      }
      DeleteMoved(o, MoveId(gdisk), compact);
    }

    /** The first commit of a rename into another directory: the new entry, and the announcement that the
        old one has moved. */
    method Announce(a: Renaming, compact: bool)
      requires Conserved() && gdelta == ZERO && Stored(gstate) == Stored(gdisk) && !Moving(gdisk) && CanRename(pairs, a)
      requires compact ==> AllNamed(Replay(pairs[a.n].log))
      modifies this
      ensures Conserved() && gdelta == ZERO && |pairs| == old(|pairs|) && gstate == gdisk
      ensures Announced(pairs, gdisk, a.o, IdOf(a.oldId)) && pairs[a.o] == old(pairs[a.o])
      ensures forall k | 0 <= k < |pairs| :: Seen(pairs, k) == old(Moved(pairs, a, k))
    {
      hide Conserves, Replay, Updated, Without, Seen, Moving, MoveId, Apart, SameBlocks, AllNamed, Tame, PrepMove,
           Stored, Items, RenameItems, Moved, IdOf;
      ghost var was := pairs;
      RenameCommits(pairs, a);
      PrepMoveSays(gstate, true, a.oldId, pairs[a.o].pair);
      gstate := PrepMove(gstate, true, a.oldId, pairs[a.o].pair);
      Commit(a.n, RenameItems(pairs, a), compact);
      Halfway(was, pairs, gdisk, a);
    }

    /** A rename into another directory: the new entry and the announcement that the old one has moved
        are one commit, the deletion of the old entry is another. Between the two, and after them, anyone
        sees the entry under its new name and no longer under the old one; and between the two the disk
        names the move, so that recovery can finish it. */
    method Rename(a: Renaming, compactNew: bool, compactOld: bool) returns (ghost between: seq<Mdir>)
      requires Conserved() && gdelta == ZERO && Stored(gstate) == Stored(gdisk) && !Moving(gdisk) && CanRename(pairs, a)
      requires compactNew ==> AllNamed(Replay(pairs[a.n].log))
      requires compactOld ==> AllNamed(Replay(pairs[a.o].log))
      modifies this
      ensures Conserved() && gdelta == ZERO && !Moving(gdisk) && Apart(pairs) && |between| == |pairs| == old(|pairs|)
      ensures between[a.o] == old(pairs[a.o]) && exists g :: Announced(between, g, a.o, IdOf(a.oldId))
      ensures forall k | 0 <= k < |pairs| :: Seen(old(pairs), k) == Replay(old(pairs[k].log))
      ensures forall k | 0 <= k < |pairs| :: Seen(between, k) == old(Moved(pairs, a, k))
      ensures forall k | 0 <= k < |pairs| :: Seen(pairs, k) == old(Moved(pairs, a, k))
    {
      hide Conserves, Replay, Seen, Moving, MoveId, Apart, SameBlocks, AllNamed, Stored, Moved, IdOf;
      SeenBefore(pairs, gdisk);
      Announce(a, compactNew);
      between := pairs;
      AnnouncedSays(pairs, gdisk, a.o, IdOf(a.oldId));
      if Moving(gstate) {
        DeleteMoved(a.o, IdOf(a.oldId), compactOld);
      }
    }

    /** A rename that loses power after some of its commits, the next mount, and the recovery it runs:
        every directory is as before the rename if no commit was made, and as after it otherwise, and
        no move is pending any more. */
    method RenameAndRecover(a: Renaming, commits: nat, compactNew: bool, compactOld: bool, compactLater: bool)
      returns (next: Lfs)
      requires Conserved() && gdelta == ZERO && Stored(gstate) == Stored(gdisk) && !Moving(gdisk) && CanRename(pairs, a)
      requires compactNew ==> AllNamed(Replay(pairs[a.n].log))
      requires compactOld || compactLater ==> AllNamed(Replay(pairs[a.o].log))
      modifies this
      ensures fresh(next) && next.Conserved() && next.gdelta == ZERO && !Moving(next.gdisk)
      ensures |next.pairs| == old(|pairs|)
      ensures forall k | 0 <= k < |next.pairs| ::
                Seen(next.pairs, k) == if commits == 0 then Replay(old(pairs[k].log)) else old(Moved(pairs, a, k))
    {
      hide Conserves, Replay, Seen, Moving, MoveId, Apart, SameBlocks, AllNamed, Stored, Moved, IdOf, Announced, Clean,
           Mounted, Total;
      SeenBefore(pairs, gdisk);
      if commits == 1 {
        Announce(a, compactNew);
        AnnouncedSays(pairs, gdisk, a.o, IdOf(a.oldId));
      } else if commits > 1 {
        ghost var between := Rename(a, compactNew, compactOld);
      }
      IsClean(pairs, gdelta, gdisk);
      MountSays(pairs, gdisk);
      next := new Lfs(pairs);
      next.Demove(a.o, compactLater);
    }
  }

  /** The disk names a pending move of an entry, and nothing else is outstanding. */
  ghost predicate Announced(pairs: seq<Mdir>, g: Gstate, o: nat, id: nat) {
    && o < |pairs| && Apart(pairs) && Conserves(pairs, ZERO, g) && Moving(g) && MoveId(g) == id
    && (g.pair0, g.pair1) == pairs[o].pair && id < |Replay(pairs[o].log)|
  }

  lemma AnnouncedSays(pairs: seq<Mdir>, g: Gstate, o: nat, id: nat)
    requires Announced(pairs, g, o, id)
    ensures Apart(pairs) && Conserves(pairs, ZERO, g) && Moving(g) && MoveId(g) == id < |Replay(pairs[o].log)|
    ensures SameBlocks((g.pair0, g.pair1), pairs[o].pair)
  {
    hide Apart, Conserves, Moving, MoveId;
  }

  lemma IsClean(pairs: seq<Mdir>, gdelta: Gstate, gdisk: Gstate)
    requires Conserves(pairs, gdelta, gdisk)
    ensures Clean(pairs)
  {
    hide Stored, Plus, Total;
  }

  lemma SeenBefore(pairs: seq<Mdir>, gdisk: Gstate)
    requires Conserves(pairs, ZERO, gdisk) && !Moving(gdisk)
    ensures forall k | 0 <= k < |pairs| :: Seen(pairs, k) == Replay(pairs[k].log)
  {
    hide Conserves, Moving, Seen, Replay;
    forall k | 0 <= k < |pairs| ensures Seen(pairs, k) == Replay(pairs[k].log) {
      VisibleWithout(pairs, gdisk, k);
    }
  }

  /** A mount finds the same pending move as the state that was last written. */
  lemma MountSays(pairs: seq<Mdir>, g: Gstate)
    requires Conserves(pairs, ZERO, g) && Clean(pairs)
    ensures var m := Mounted(Total(Shares(pairs)));
            && Moving(m) == Moving(g) && MoveId(m) == MoveId(g) && (m.pair0, m.pair1) == (g.pair0, g.pair1)
  {
    hide Conserves, Moving, MoveId, Total, Mounted;
    MountConserves(pairs);
    DiskSays(pairs, g);
    DiskSays(pairs, Mounted(Total(Shares(pairs))));
  }

  /** After the first commit of a rename everything visible is as it will be. */
  lemma Halfway(was: seq<Mdir>, now: seq<Mdir>, gdisk: Gstate, a: Renaming)
    requires CanRename(was, a) && |now| == |was| && Conserves(now, ZERO, gdisk)
    requires forall k | 0 <= k < |now| && k != a.n :: now[k] == was[k]
    requires SameBlocks(now[a.n].pair, was[a.n].pair) && Replay(now[a.n].log) == Moved(was, a, a.n)
    requires Moving(gdisk) && MoveId(gdisk) == IdOf(a.oldId) && (gdisk.pair0, gdisk.pair1) == was[a.o].pair
    ensures Announced(now, gdisk, a.o, IdOf(a.oldId)) && forall k | 0 <= k < |now| :: Seen(now, k) == Moved(was, a, k)
  {
    hide Replay, Without, Seen, Moving, MoveId, Apart, SameBlocks, Total, IdOf;
    ApartAgain(was, now, a.n);
    Same(was[a.o].pair);
    forall k | 0 <= k < |now| ensures Seen(now, k) == Moved(was, a, k) {
      VisibleMoving(now, gdisk, a.o, k);
    }
  }
}
