/** The share of the global state that a metadata block holds, and reading it back. */
module StateTag {
  import opened Words
  import opened Tags
  import opened TagWords
  import opened DirBlock
  import opened DirGet
  import opened Gstate
  import opened MetaLog

  // ---- lookups that ask for no entry ----

  /** The last tag of some type in a log. */
  function LastOf(log: seq<Raw>, kind: int): Option<Raw> {
    if log == [] then None
    else if Decode(log[|log| - 1].word).type3 == kind then Some(log[|log| - 1])
    else LastOf(log[..|log| - 1], kind)
  }

  lemma {:induction false} LastOfAppend(a: seq<Raw>, b: seq<Raw>, kind: int)
    ensures LastOf(a + b, kind) == if LastOf(b, kind).Some? then LastOf(b, kind) else LastOf(a, kind)
    decreases |b|
  {
    hide Decode;
    if b == [] {
      assert a + b == a;
    } else {
      assert (a + b)[..|a + b| - 1] == a + b[..|b| - 1];
      LastOfAppend(a, b[..|b| - 1], kind);
    }
  }

  lemma {:induction false} NoneOf(log: seq<Raw>, kind: int)
    requires forall i | 0 <= i < |log| :: Decode(log[i].word).type3 != kind
    ensures LastOf(log, kind) == None
  {
    hide Decode;
    if log != [] {
      NoneOf(log[..|log| - 1], kind);
    }
  }

  /** The lookup that takes any entry: the whole type has to match. */
  function AnyEntry(kind: bv11): Query {
    Query(0x7ff, kind, false)
  }

  lemma AnyEntryHits(tag: Word, kind: bv11, id: int)
    ensures Hits(AnyEntry(kind), tag, id) <==> Decode(tag).type3 == kind as int
  {
    hide TypeField, IdField, SizeField, Masked;
    ClassBits(TypeField(tag));
    ClassBits(kind);
    SameBits(TypeField(tag), kind);
  }

  /** What such a lookup ends at: the last tag of the type, under whatever id it has. */
  predicate EndsAt(block: seq<Byte>, hit: Hit, e: Raw, id: int) {
    && hit.At? && hit.id == id && Decode(hit.word) == Decode(e.word)
    && hit.off + 4 + |e.data| <= |block| && block[hit.off + 4..hit.off + 4 + |e.data|] == e.data
  }

  lemma {:induction false} LookupLast(block: seq<Byte>, log: seq<Raw>, tag: Word, kind: bv11, id: nat)
    requires Holds(block, log) && Clear(tag) == Clear(Last(ALL_BITS, log))
    ensures 4 + Span(log) <= |block|
    ensures var hit := Lookup(block, 4 + Span(log), tag, AnyEntry(kind), id);
            match LastOf(log, kind as int)
            case None => hit == Miss
            case Some(e) => if Decode(e.word).size == 0x3ff then hit == Miss else EndsAt(block, hit, e, id)
    decreases |log|
  {
    hide Decode, DSize, Clear, Previous, Holds, Hits, AnyEntry, Last, Span, Lookup;
    SpanFits(block, log);
    LookupOnce(block, 4 + Span(log), tag, AnyEntry(kind), id);
    NoShift(kind, tag, id);
    EmptySpan();
    if log == [] {
      EmptyLog(tag);
    } else {
      var init, e := log[..|log| - 1], log[|log| - 1];
      assert log == init + [e];
      StepBackwards(block, init, e, tag);
      AnyEntryHits(tag, kind, id);
      if Decode(e.word).type3 != kind as int {
        LookupLast(block, init, Previous(block, 4 + Span(init), tag), kind, id);
      }
    }
  }

  lemma NoShift(kind: bv11, tag: Word, id: nat)
    ensures !Shifts(AnyEntry(kind), Decode(tag), id)
  {
  }

  // ---- the share ----

  /** Three little-endian words. */
  function WordsOf(data: seq<Byte>): Gstate
    requires |data| == 12
  {
    Gstate(FromLe(data[0..4]), FromLe(data[4..8]), FromLe(data[8..12]))
  }

  /** The share of the global state in a log: that of its last tag of type 0x7ff. */
  function StateIn(log: seq<Raw>): Gstate {
    match LastOf(log, 0x7ff)
    case None => ZERO
    case Some(e) => if Decode(e.word).size == 0x3ff then ZERO else WordsOf((e.data + Zeros(12))[..12])
  }

  /** The share as it is committed. */
  function StateAttr(share: Gstate): (Word, seq<Byte>) {
    (MkTag(0x7ff, 0x3ff, 12), Le(share.tag) + Le(share.pair0) + Le(share.pair1))
  }

  lemma StateFields()
    ensures (0x7ff as bv11) as int == 0x7ff && (0x3ff as bv10) as nat == 0x3ff && (12 as bv10) as nat == 12
  {
  }

  lemma StateTagIs(share: Gstate)
    ensures Decode(StateAttr(share).0) == Tag(0x7ff, 0x3ff, 12) && DSize(StateAttr(share).0) == 16
    ensures Valid(StateAttr(share).0) && |StateAttr(share).1| == 12
  {
    hide TypeField, IdField, SizeField, MkTag, Le, Valid;
    MkTagFields(0x7ff, 0x3ff, 12);
    StateFields();
  }

  /** What is written is what is read. */
  lemma StateReadsBack(log: seq<Raw>, e: Raw, share: Gstate)
    requires Decode(e.word) == Decode(StateAttr(share).0) && e.data == StateAttr(share).1
    ensures StateIn(log + [e]) == share
  {
    hide Decode, Le, FromLe, MkTag;
    StateTagIs(share);
    LastOfAppend(log, [e], 0x7ff);
    var a, b, c := Le(share.tag), Le(share.pair0), Le(share.pair1);
    assert (e.data + Zeros(12))[..12] == e.data;
    assert e.data[0..4] == a && e.data[4..8] == b && e.data[8..12] == c;
    RoundTrip(share.tag);
    RoundTrip(share.pair0);
    RoundTrip(share.pair1);
  }

  lemma {:induction false} StateOf(log: seq<Raw>, more: seq<Raw>)
    requires forall i | 0 <= i < |more| :: Decode(more[i].word).type3 != 0x7ff
    ensures StateIn(log + more) == StateIn(log)
  {
    hide Decode, WordsOf;
    LastOfAppend(log, more, 0x7ff);
    NoneOf(more, 0x7ff);
  }

  /** Adds the share of a block to a global state. */
  method GetState(block: seq<Byte>, off: nat, etag: Word, moved: Option<nat>, gstate: Gstate, ghost log: seq<Raw>)
    returns (r: Gstate)
    requires Holds(block, log) && off == 4 + Span(log) && Clear(etag) == Clear(Last(ALL_BITS, log))
    ensures r == Plus(gstate, StateIn(log))
  {
    hide Decode, Lookup, Holds, Span, Last, Clear, Plus, FromLe;
    SpanFits(block, log);
    LookupLast(block, log, etag, 0x7ff, 0);
    StateFields();
    ghost var hit := Lookup(block, off, etag, AnyEntry(0x7ff), 0);
    var got := GetSlice(block, off, etag, moved, AnyEntry(0x7ff), 0, 0, 12);
    StartsAt(moved);
    PlusSelf(gstate);
    HoldsRaw(block, log);
    LastIsThere(log, 0x7ff);
    if hit.At? {
      HitBytes(block, hit, LastOf(log, 0x7ff).value);
    }
    match got {
      case NoEntry => r := gstate;
      case Corrupt => assert false;
      case Data(_, _, _, bytes) =>
        r := Plus(gstate, Gstate(FromLe(bytes[0..4]), FromLe(bytes[4..8]), FromLe(bytes[8..12])));
    }
  }

  lemma HoldsRaw(block: seq<Byte>, log: seq<Raw>)
    requires Holds(block, log)
    ensures AreRaw(log)
  {
    hide IsRaw;
  }

  lemma {:induction false} LastIsThere(log: seq<Raw>, kind: int)
    ensures LastOf(log, kind).Some? ==> LastOf(log, kind).value in log
  {
    hide Decode;
    if log != [] {
      LastIsThere(log[..|log| - 1], kind);
    }
  }

  lemma StartsAt(moved: Option<nat>)
    ensures StartId(AnyEntry(0x7ff), moved, 0) == 0
  {
  }

  lemma HitBytes(block: seq<Byte>, hit: Hit, e: Raw)
    requires EndsAt(block, hit, e, 0) && IsRaw(e) && Decode(e.word).size != 0x3ff
    ensures var got := Slice(block, hit, 0, 0, 12);
            got.Data? && got.bytes == (e.data + Zeros(12))[..12]
  {
    hide Decode, Valid;
  }
}
