/** Looking up an attribute in a metadata block: the walk from the last tag back to the first, and the
    proof that it finds what replaying the log forwards leaves. */
module DirGet {
  import opened Words
  import opened Tags
  import opened TagWords
  import opened DirBlock
  import opened MetaLog

  // ---- the backward walk ----

  /** A tag met by a walk, and where it is. */
  datatype Met = Met(word: Word, off: nat)

  /** The tag before the one at `off`, as the XOR of the two tells it. */
  function Previous(block: seq<Byte>, off: nat, tag: Word): Word
    requires off + 4 <= |block|
  {
    Clear(Xor(FromBe(block[off..off + 4]), tag))
  }

  /** The tags met from the end of a log back to its start. */
  function Back(block: seq<Byte>, off: nat, tag: Word): seq<Met>
    requires off <= |block|
    decreases off
  {
    if off < 4 + DSize(tag) then []
    else [Met(Clear(tag), off - DSize(tag))] + Back(block, off - DSize(tag), Previous(block, off - DSize(tag), tag))
  }

  /** The tags of a log in order, and where they are. */
  function Positions(off: nat, log: seq<Raw>): seq<Met>
    decreases |log|
  {
    if log == [] then [] else [Met(log[0].word, off)] + Positions(off + 4 + |log[0].data|, log[1..])
  }

  function Reversed<T>(s: seq<T>): seq<T> {
    if s == [] then [] else [s[|s| - 1]] + Reversed(s[..|s| - 1])
  }

  /** The bytes a log takes. */
  function Span(log: seq<Raw>): nat
    decreases |log|
  {
    if log == [] then 0 else 4 + |log[0].data| + Span(log[1..])
  }

  lemma {:induction false} EncodeSpan(ptag: Word, log: seq<Raw>)
    ensures |Encode(ptag, log)| == Span(log)
    decreases |log|
  {
    hide DirBlock.Next, Be, Xor;
    if log != [] {
      EncodeSpan(DirBlock.Next(log[0].word), log[1..]);
    }
  }

  lemma {:induction false} PositionsAppend(off: nat, log: seq<Raw>, e: Raw)
    ensures Positions(off, log + [e]) == Positions(off, log) + [Met(e.word, off + Span(log))]
    ensures Span(log + [e]) == Span(log) + 4 + |e.data|
    decreases |log|
  {
    if log == [] {
      assert log + [e] == [e] && [e][1..] == [];
    } else {
      assert (log + [e])[1..] == log[1..] + [e];
      PositionsAppend(off + 4 + |log[0].data|, log[1..], e);
    }
  }

  lemma ReversedPositions(log: seq<Raw>, e: Raw)
    ensures Reversed(Positions(4, log + [e])) == [Met(e.word, 4 + Span(log))] + Reversed(Positions(4, log))
  {
    PositionsAppend(4, log, e);
    var met := Positions(4, log + [e]);
    assert met[..|met| - 1] == Positions(4, log);
  }

  lemma EmptyPositions()
    ensures Reversed(Positions(4, [])) == []
  {
  }

  /** XORing twice with words that differ at most in the valid bit gives the first word, but for it. */
  lemma ClearXor(a: Word, b: Word, c: Word)
    requires Clear(b) == Clear(c)
    ensures Clear(Xor(Xor(b, a), c)) == Clear(a)
  {
    ClearXorRaw(a, b, c);
  }

  lemma ClearXorRaw(a: Word, b: Word, c: Word)
    requires b & 0x7fff_ffff == c & 0x7fff_ffff
    ensures ((b ^ a) ^ c) & 0x7fff_ffff == a & 0x7fff_ffff
  {
  }

  /** A block whose bytes from `off` on are those of a log. */
  predicate Holds(block: seq<Byte>, log: seq<Raw>) {
    |block| >= 4 && AreRaw(log) && Reads(block, 4, ALL_BITS, log)
  }

  lemma RawParts(log: seq<Raw>, e: Raw)
    requires AreRaw(log + [e])
    ensures AreRaw(log) && IsRaw(e)
  {
    hide IsRaw;
    assert (log + [e])[|log|] == e;
    assert forall i | 0 <= i < |log| :: (log + [e])[i] == log[i];
  }

  lemma EncodeParts(ptag: Word, log: seq<Raw>, e: Raw)
    ensures Encode(ptag, log + [e]) == Encode(ptag, log) + (Be(Xor(e.word, Last(ptag, log))) + e.data)
    ensures Last(ptag, log + [e]) == DirBlock.Next(e.word)
    ensures |Encode(ptag, log)| == Span(log) && Span(log + [e]) == Span(log) + 4 + |e.data|
  {
    hide DirBlock.Next, Be, Xor, Encode, Last;
    EncodeAppend(ptag, log, [e]);
    LastAppend(ptag, log, [e]);
    EncodeOne(Last(ptag, log), e);
    EncodeSpan(ptag, log);
    PositionsAppend(4, log, e);
  }

  /** The last entry of a log: where it is, and what its bytes are. */
  lemma LastEntry(block: seq<Byte>, log: seq<Raw>, e: Raw)
    requires Holds(block, log + [e])
    ensures Holds(block, log) && IsRaw(e)
    ensures var off := 4 + Span(log);
            && off + 4 + |e.data| <= |block| && 4 + Span(log + [e]) == off + 4 + |e.data|
            && block[off..off + 4] == Be(Xor(e.word, Last(ALL_BITS, log)))
               && block[off + 4..off + 4 + |e.data|] == e.data
            && Last(ALL_BITS, log + [e]) == DirBlock.Next(e.word)
  {
    hide DirBlock.Next, Be, Xor, IsRaw, Encode, Last, AreRaw, Span;
    RawParts(log, e);
    EncodeParts(ALL_BITS, log, e);
    PartsRead(block, Encode(ALL_BITS, log), Be(Xor(e.word, Last(ALL_BITS, log))), e.data);
  }

  lemma PartsRead(block: seq<Byte>, prefix: seq<Byte>, tag: seq<Byte>, data: seq<Byte>)
    requires |block| >= 4 && prefix + (tag + data) <= block[4..]
    ensures prefix <= block[4..]
    ensures var off := 4 + |prefix|;
            && off + |tag| + |data| <= |block|
            && block[off..off + |tag|] == tag && block[off + |tag|..off + |tag| + |data|] == data
  {
    var rest := block[4..][|prefix| + |tag| + |data|..];
    assert block[4..] == prefix + tag + (data + rest);
    Slices(block, 4, prefix, tag, data + rest);
    Slices(block, 4 + |prefix|, tag, data, rest);
    assert block[4..][..|prefix|] == prefix;
  }

  lemma NextClears(w: Word)
    ensures Clear(DirBlock.Next(w)) == Clear(w)
  {
    hide Decode, Flip, Clear;
    FlipOnlyFlips(w);
  }

  lemma PreviousIs(block: seq<Byte>, off: nat, e: Raw, ptag: Word, tag: Word)
    requires off + 4 <= |block| && block[off..off + 4] == Be(Xor(e.word, ptag)) && Clear(tag) == Clear(e.word)
    ensures Previous(block, off, tag) == Clear(ptag)
  {
    hide Be, FromBe, Clear, Xor;
    RoundTrip(Xor(e.word, ptag));
    ClearXor(ptag, e.word, tag);
  }

  /** A tag takes the same bytes whatever its valid bit. */
  lemma ClearSize(tag: Word, e: Raw)
    requires IsRaw(e) && Clear(tag) == Clear(e.word)
    ensures DSize(tag) == 4 + |e.data| && Decode(tag) == Decode(e.word) && Clear(tag) == e.word
  {
    hide Decode, DSize, Clear, Valid;
    ClearOnlyClears(tag);
    ClearOnlyClears(e.word);
  }

  /** One step back over the last entry of a log. */
  lemma StepBackwards(block: seq<Byte>, init: seq<Raw>, e: Raw, tag: Word)
    requires Holds(block, init + [e]) && Clear(tag) == Clear(Last(ALL_BITS, init + [e]))
    ensures Holds(block, init) && IsRaw(e)
    ensures var at := 4 + Span(init);
            && at + 4 + |e.data| <= |block| && 4 + Span(init + [e]) == at + 4 + |e.data|
            && block[at + 4..at + 4 + |e.data|] == e.data
            && DSize(tag) == 4 + |e.data| && Decode(tag) == Decode(e.word) && Clear(tag) == e.word
            && Clear(Previous(block, at, tag)) == Clear(Last(ALL_BITS, init))
  {
    hide Decode, DSize, Clear, Valid, Previous, DirBlock.Next, Encode, IsRaw, Holds;
    LastEntry(block, init, e);
    NextClears(e.word);
    ClearSize(tag, e);
    PreviousIs(block, 4 + Span(init), e, Last(ALL_BITS, init), tag);
    ClearTwice(Last(ALL_BITS, init));
  }

  lemma EmptyLog(tag: Word)
    requires Clear(tag) == Clear(Last(ALL_BITS, []))
    ensures DSize(tag) == 4
  {
    hide DSize, Clear;
    AllBits();
    ClearOnlyClears(tag);
    ClearOnlyClears(ALL_BITS);
  }

  lemma SpanFits(block: seq<Byte>, log: seq<Raw>)
    requires Holds(block, log)
    ensures 4 + Span(log) <= |block|
  {
    EncodeSpan(ALL_BITS, log);
  }

  /** Walking back from the last tag visits exactly the tags of the log, in reverse. */
  lemma {:induction false} BackIsReverse(block: seq<Byte>, log: seq<Raw>, tag: Word)
    requires Holds(block, log) && Clear(tag) == Clear(Last(ALL_BITS, log))
    ensures 4 + Span(log) <= |block|
    ensures Back(block, 4 + Span(log), tag) == Reversed(Positions(4, log))
    decreases |log|
  {
    hide Decode, DSize, Clear, Previous, Holds, Last, Positions, Reversed;
    SpanFits(block, log);
    if log == [] {
      EmptyLog(tag);
      EmptyPositions();
    } else {
      var init, e := log[..|log| - 1], log[|log| - 1];
      assert log == init + [e];
      StepBackwards(block, init, e, tag);
      BackIsReverse(block, init, Previous(block, 4 + Span(init), tag));
      ReversedPositions(init, e);
    }
  }

  lemma ClearTwice(w: Word)
    ensures Clear(Clear(w)) == Clear(w)
  {
  }

  // ---- lookups ----

  /** What a lookup asks for: a type under a mask, of one entry or of the whole directory. */
  datatype Query = Query(mask: bv11, kind: bv11, entry: bool)

  function Masked(kind: bv11, mask: bv11): bv11 {
    kind & mask
  }

  predicate Hits(q: Query, tag: Word, id: int) {
    Masked(TypeField(tag), q.mask) == Masked(q.kind, q.mask) && (q.entry ==> Decode(tag).id == id)
  }

  /** The tag a lookup ends at, and the id its entry had there. */
  datatype Hit = Miss | At(word: Word, off: nat, id: int)

  /** A creation or deletion that shifts the id looked for. */
  predicate Shifts(q: Query, t: Tag, id: int) {
    q.entry && IsSplice(t) && t.id <= id
  }

  function Lookup(block: seq<Byte>, off: nat, tag: Word, q: Query, id: int): Hit
    requires off <= |block|
    decreases off
  {
    if off < 4 + DSize(tag) then Miss
    else
      var t := Decode(tag);
      var at := off - DSize(tag);
      if Shifts(q, t, id) && t.type3 == CREATE && t.id == id && t.size == 0 then Miss
      else
        var id' := if Shifts(q, t, id) then id - Splice(t.type3) else id;
        if !Hits(q, tag, id') then Lookup(block, at, Previous(block, at, tag), q, id')
        else if IsRemoval(t) then Miss
        else At(tag, at, id')
  }

  /** The result of a lookup: the tag found under the id asked for, and a slice of its data. */
  datatype Got = NoEntry | Corrupt | Data(type3: Type3, id: int, size: nat, bytes: seq<Byte>)

  function Zeros(n: nat): seq<Byte> {
    seq(n, _ => 0)
  }

  function Slice(block: seq<Byte>, hit: Hit, id: int, from: nat, size: nat): Got {
    if hit.Miss? then NoEntry
    else
      var t := Decode(hit.word);
      var n := if t.size < size then t.size else size;
      if hit.off + 4 + from + n > |block| then Corrupt
      else Data(t.type3, t.id + (id - hit.id), t.size,
                block[hit.off + 4 + from..hit.off + 4 + from + n] + Zeros(size - n))
  }

  /** The id a lookup starts with: one more if a pending move has taken away an entry before it. */
  function StartId(q: Query, moved: Option<nat>, id: nat): int {
    if moved.Some? && q.entry && moved.value <= id then id + 1 else id
  }

  /** The data behind a tag, cut to a buffer. */
  method Extract(block: seq<Byte>, off: nat, tag: Word, gdiff: int, id: nat, from: nat, size: nat) returns (r: Got)
    ensures r == Slice(block, At(tag, off, id - gdiff), id, from, size)
  {
    hide Decode;
    var t := Decode(tag);
    var n := if t.size < size then t.size else size;
    if off + 4 + from + n > |block| {
      return Corrupt;
    }
    r := Data(t.type3, t.id + gdiff, t.size, block[off + 4 + from..off + 4 + from + n] + Zeros(size - n));
  }

  method GetSlice(block: seq<Byte>, dirOff: nat, etag: Word, moved: Option<nat>, q: Query, id: nat, from: nat,
    size: nat)
    returns (r: Got)
    requires dirOff <= |block|
    ensures r == Slice(block, Lookup(block, dirOff, etag, q, StartId(q, moved, id)), id, from, size)
  {
    hide Decode, DSize, Hits, Xor, FromBe, Clear, IsSplice, Splice, IsRemoval, Zeros;
    var off: nat, ntag, gdiff := dirOff, etag, 0;
    if moved.Some? && q.entry && moved.value <= id {
      // the entry being moved away counts as deleted
      gdiff := gdiff - 1;
    }
    while off >= 4 + DSize(ntag)
      invariant off <= |block|
      invariant Lookup(block, dirOff, etag, q, StartId(q, moved, id)) == Lookup(block, off, ntag, q, id - gdiff)
      decreases off
    {
      off := off - DSize(ntag);
      var tag := ntag;
      ntag := Clear(Xor(FromBe(block[off..off + 4]), tag));
      var t := Decode(tag);
      if q.entry && IsSplice(t) && t.id <= id - gdiff {
        if t.type3 == CREATE && t.id == id - gdiff && t.size == 0 {
          r := NoEntry;
          return;
        }
        gdiff := gdiff + Splice(t.type3);
      }
      if Hits(q, tag, id - gdiff) {
        if IsRemoval(t) {
          r := NoEntry;
          return;
        }
        r := Extract(block, off, tag, gdiff, id, from, size);
        return;
      }
    }
    r := NoEntry;
  }

  // ---- lookups find what replay leaves ----

  predicate AreOnDisk(log: seq<Raw>) {
    forall i | 0 <= i < |log| :: OnDisk(Decode(log[i].word))
  }

  function EntryOf(e: Raw): Entry
    requires OnDisk(Decode(e.word))
  {
    Entry(Decode(e.word), e.data)
  }

  /** The log that the tags on disk stand for. */
  function Entries(log: seq<Raw>): (r: seq<Entry>)
    requires AreOnDisk(log)
    ensures |r| == |log| && forall i | 0 <= i < |log| :: r[i] == EntryOf(log[i])
  {
    seq(|log|, i requires 0 <= i < |log| => EntryOf(log[i]))
  }

  /** The lookups of the file system: names and structures by class, user attributes by exact type. */
  function ByKey(kind: bv11): Query
  {
    Query(if PerChunk(kind as int) then 0x7ff else 0x700, kind, true)
  }

  lemma ClassBits(t: bv11)
    ensures t as int < 0x800 && Masked(t, 0x700) as int == Type1(t as int) && Masked(t, 0x7ff) == t
  {
  }

  lemma SameBits(a: bv11, b: bv11)
    ensures a == b <==> a as int == b as int
  {
    BackAgain(a);
    BackAgain(b);
  }

  lemma BackAgain(a: bv11)
    ensures a as int < 0x800 && (a as int) as bv11 == a
  {
  }

  lemma SameKey(t: bv11, kind: bv11)
    ensures t as int < 0x800 && kind as int < 0x800
    ensures Masked(t, ByKey(kind).mask) == Masked(kind, ByKey(kind).mask) <==> Key(t as int) == Key(kind as int)
  {
    hide Masked, Key, PerChunk, Type1;
    ClassBits(t);
    ClassBits(kind);
    SameBits(t, kind);
    SameBits(Masked(t, 0x700), Masked(kind, 0x700));
    KeysAgree(t as int, kind as int);
  }

  lemma ByKeyIsKey(tag: Word, kind: bv11, id: int)
    ensures kind as int < 0x800
    ensures Hits(ByKey(kind), tag, id) <==> Key(Decode(tag).type3) == Key(kind as int) && Decode(tag).id == id
  {
    hide TypeField, IdField, SizeField, Masked, Key, PerChunk, Type1;
    SameKey(TypeField(tag), kind);
  }

  lemma KeysAgree(a: Type3, b: Type3)
    ensures Key(a) == Key(b) <==> if PerChunk(b) then a == b else Type1(a) == Type1(b)
  {
  }

  /** One tag, met by the lookup and by the search over the log it stands for. */
  lemma StepIsStep(tag: Word, e: Raw, kind: bv11, id: nat)
    requires IsRaw(e) && Decode(tag) == Decode(e.word) && OnDisk(Decode(e.word))
    requires kind as int < 0x800 && IsAttr(kind as int)
    ensures var t := Decode(tag);
            var q := ByKey(kind);
            var o := StepBack(EntryOf(e), id, Key(kind as int));
            if Shifts(q, t, id) && t.type3 == CREATE && t.id == id && t.size == 0 then o == Created
            else
              var id' := if Shifts(q, t, id) then id - Splice(t.type3) else id;
              if !Hits(q, tag, id') then o == Reached(id')
              else id' == id && t.id == id && o == (if IsRemoval(t) then Removed else Outcome.Found(Value(t.type3,
                   t.size, e.data)))
  {
    hide Decode, DSize, Valid, Hits;
    var t := Decode(tag);
    ByKeyIsKey(tag, kind, id);
    ByKeyIsKey(tag, kind, id - Splice(t.type3));
    AttrKeys(t.type3, kind as int);
  }

  /** A tag with the key of an attribute is an attribute, and not a splice. */
  lemma AttrKeys(t: Type3, kind: Type3)
    requires IsAttr(kind)
    ensures Key(t) == Key(kind) ==> IsAttr(t) && Type1(t) != SPLICE
  {
  }

  /** What a hit says of the value it stands for. */
  predicate Shows(block: seq<Byte>, hit: Hit, v: Value) {
    && hit.At? && hit.id >= 0 && hit.off + 4 + |v.data| <= |block|
       && block[hit.off + 4..hit.off + 4 + |v.data|] == v.data
    && Decode(hit.word) == Tag(v.type3, hit.id, v.size) && |v.data| == v.size
  }

  /** One tag of a lookup. */
  lemma LookupOnce(block: seq<Byte>, off: nat, tag: Word, q: Query, id: int)
    requires off <= |block|
    ensures off < 4 + DSize(tag) ==> Lookup(block, off, tag, q, id) == Miss
    ensures off >= 4 + DSize(tag) ==>
              var t, at := Decode(tag), off - DSize(tag);
              var id' := if Shifts(q, t, id) then id - Splice(t.type3) else id;
              Lookup(block, off, tag, q, id)
              == if Shifts(q, t, id) && t.type3 == CREATE && t.id == id && t.size == 0 then Miss
                 else if !Hits(q, tag, id') then Lookup(block, at, Previous(block, at, tag), q, id')
                 else if IsRemoval(t) then Miss else At(tag, at, id')
  {
    hide Decode, DSize, Previous, Hits, Shifts;
  }

  lemma EmptySpan()
    ensures Span([]) == 0
  {
  }

  /** A lookup that walks the block back from the end of a log finds what the search over the log finds. */
  lemma {:induction false} LookupIsSearch(block: seq<Byte>, log: seq<Raw>, tag: Word, kind: bv11, id: nat)
    requires Holds(block, log) && AreOnDisk(log) && Clear(tag) == Clear(Last(ALL_BITS, log))
    requires kind as int < 0x800 && IsAttr(kind as int)
    ensures 4 + Span(log) <= |block|
    ensures var hit := Lookup(block, 4 + Span(log), tag, ByKey(kind), id);
            match Search(Entries(log), id, Key(kind as int))
            case Found(v) => Shows(block, hit, v)
            case _ => hit == Miss
    decreases |log|
  {
    hide Decode, DSize, Clear, Previous, Holds, Hits, Shifts, IsAttr, ByKey, StepBack, Shows, AreOnDisk, Key, Splice,
         IsRemoval, Last, ValueOf, Lookup, Span,
         Search, Entries, EntryOf;
    SpanFits(block, log);
    LookupOnce(block, 4 + Span(log), tag, ByKey(kind), id);
    EmptySpan();
    if log == [] {
      EmptyLog(tag);
      EmptySearch(id, Key(kind as int));
    } else {
      var init, e := log[..|log| - 1], log[|log| - 1];
      assert log == init + [e];
      var at := 4 + Span(init);
      StepBackwards(block, init, e, tag);
      LastSearched(init, e, id, Key(kind as int));
      StepIsStep(tag, e, kind, id);
      var o := StepBack(EntryOf(e), id, Key(kind as int));
      if o.Reached? {
        LookupIsSearch(block, init, Previous(block, at, tag), kind, o.id);
      } else if o.Found? {
        HitShows(block, At(tag, at, id), e);
      }
    }
  }

  lemma HitShows(block: seq<Byte>, hit: Hit, e: Raw)
    requires IsRaw(e) && !IsRemoval(Decode(e.word)) && hit.At? && hit.id == Decode(e.word).id
    requires Decode(hit.word) == Decode(e.word)
    requires hit.off + 4 + |e.data| <= |block| && block[hit.off + 4..hit.off + 4 + |e.data|] == e.data
    ensures Shows(block, hit, Value(Decode(e.word).type3, Decode(e.word).size, e.data))
  {
    hide Decode, Valid;
  }

  lemma EmptySearch(id: nat, key: Type3)
    ensures AreOnDisk([]) && Search(Entries([]), id, key) == Reached(id)
  {
  }

  lemma LastSearched(init: seq<Raw>, e: Raw, id: nat, key: Type3)
    requires AreOnDisk(init + [e])
    ensures AreOnDisk(init) && OnDisk(Decode(e.word))
    ensures Search(Entries(init + [e]), id, key)
         == match StepBack(EntryOf(e), id, key) { case Reached(j) => Search(Entries(init), j, key) case o => o }
  {
    hide Decode, StepBack, OnDisk;
    assert (init + [e])[|init|] == e;
    assert forall i | 0 <= i < |init| :: (init + [e])[i] == init[i];
    assert Entries(init + [e]) == Entries(init) + [EntryOf(e)];
    SearchAppend(Entries(init), [EntryOf(e)], id, key);
    assert [EntryOf(e)][1..] == [];
  }

  // ---- the lookup of the file system ----

  /** A value as a buffer of some size receives it. */
  function Cut(v: Value, id: nat, size: nat): Got {
    Data(v.type3, id, v.size, if |v.data| < size then v.data + Zeros(size - |v.data|) else v.data[..size])
  }

  lemma HitSlice(block: seq<Byte>, hit: Hit, v: Value, id: nat, size: nat)
    requires Shows(block, hit, v)
    ensures Slice(block, hit, id, 0, size) == Cut(v, id, size)
  {
    hide Decode;
    var n := if v.size < size then v.size else size;
    assert block[hit.off + 4..hit.off + 4 + n] == v.data[..n];
    assert v.data[..|v.data|] == v.data && Zeros(0) == [];
  }

  /** A part of a value from some offset on, as a buffer of some size receives it. */
  function Part(v: Value, id: nat, from: nat, size: nat): Got
    requires from + (if v.size < size then v.size else size) <= |v.data|
  {
    var n := if v.size < size then v.size else size;
    Data(v.type3, id, v.size, v.data[from..from + n] + Zeros(size - n))
  }

  lemma HitPart(block: seq<Byte>, hit: Hit, v: Value, id: nat, from: nat, size: nat)
    requires Shows(block, hit, v) && from + (if v.size < size then v.size else size) <= |v.data|
    ensures Slice(block, hit, id, from, size) == Part(v, id, from, size)
  {
    hide Decode;
    var n := if v.size < size then v.size else size;
    var at := hit.off + 4;
    var held := block[at..at + |v.data|];
    var read, part := block[at + from..at + from + n], v.data[from..from + n];
    forall k | 0 <= k < n ensures read[k] == part[k] {
      assert held[from + k] == block[at + from + k];
    }
  }

  /** Looking up part of an attribute gives that part of its data, as long as the data goes so far. */
  lemma GetPartIsReplay(block: seq<Byte>, log: seq<Raw>, etag: Word, kind: bv11, moved: Option<nat>, id: nat,
                        from: nat, size: nat)
    requires Holds(block, log) && AreOnDisk(log) && etag == Last(ALL_BITS, log)
    requires kind as int < 0x800 && IsAttr(kind as int)
    ensures 4 + Span(log) <= |block|
    ensures var q := ByKey(kind);
            var r := Slice(block, Lookup(block, 4 + Span(log), etag, q, StartId(q, moved, id)), id, from, size);
            match Get(Replay(Entries(log) + MovedAway(moved)), id, Key(kind as int))
            case None => r == NoEntry
            case Some(v) =>
              && |v.data| == v.size
              && (from + (if v.size < size then v.size else size) <= v.size ==> r == Part(v, id, from, size))
  {
    hide Decode, Key, IsAttr, Lookup, Last, AreOnDisk, Get, Replay, Shows, Holds;
    SpanFits(block, log);
    var q := ByKey(kind);
    var start := StartId(q, moved, id);
    LookupIsSearch(block, log, etag, kind, start);
    SearchRefinesReplay(Entries(log) + MovedAway(moved), id, Key(kind as int));
    SearchMoved(Entries(log), moved, id, Key(kind as int));
    match Search(Entries(log), start, Key(kind as int))
    case Found(v) =>
      var hit := Lookup(block, 4 + Span(log), etag, q, start);
      ShowsSize(block, hit, v);
      if from + (if v.size < size then v.size else size) <= v.size {
        HitPart(block, hit, v, id, from, size);
      }
    case _ =>
  }

  lemma ShowsSize(block: seq<Byte>, hit: Hit, v: Value)
    requires Shows(block, hit, v)
    ensures |v.data| == v.size
  {
    hide Decode;
  }

  /** Looking up an attribute in a block gives what replaying its log, and then the pending move, leaves:
      the type, the size and as much data as fits, or no entry. */
  lemma GetIsReplay(block: seq<Byte>, log: seq<Raw>, etag: Word, kind: bv11, moved: Option<nat>, id: nat, size: nat)
    requires Holds(block, log) && AreOnDisk(log) && etag == Last(ALL_BITS, log)
    requires kind as int < 0x800 && IsAttr(kind as int)
    ensures 4 + Span(log) <= |block|
    ensures var q := ByKey(kind);
            Slice(block, Lookup(block, 4 + Span(log), etag, q, StartId(q, moved, id)), id, 0, size)
            == match Get(Replay(Entries(log) + MovedAway(moved)), id, Key(kind as int))
            { case None => NoEntry case Some(v) => Cut(v, id, size) }
  {
    hide Decode, Key, IsAttr, Lookup, Last, AreOnDisk, Get, Replay, Shows, Holds;
    SpanFits(block, log);
    var q := ByKey(kind);
    var start := StartId(q, moved, id);
    LookupIsSearch(block, log, etag, kind, start);
    SearchRefinesReplay(Entries(log) + MovedAway(moved), id, Key(kind as int));
    SearchMoved(Entries(log), moved, id, Key(kind as int));
    match Search(Entries(log), start, Key(kind as int))
    case Found(v) => HitSlice(block, Lookup(block, 4 + Span(log), etag, q, start), v, id, size);
    case _ =>
  }

  lemma SearchMoved(log: seq<Entry>, moved: Option<nat>, id: nat, key: Type3)
    ensures Search(log + MovedAway(moved), id, key)
         == Search(log, if moved.Some? && moved.value <= id then id + 1 else id, key)
  {
    SearchAppend(log, MovedAway(moved), id, key);
    if moved.None? {
      assert log + MovedAway(moved) == log;
    } else {
      assert MovedAway(moved)[1..] == [];
    }
  }

  // ---- the number of entries ----

  /** The number of entries as the scan counts it. */
  function CountFrom(n: int, log: seq<Entry>): int
    decreases |log|
  {
    if log == [] then n else CountFrom(Count(n, log[0].tag), log[1..])
  }

  /** Ids stay within the directory: entries are created at most one past the last, deleted only if they
      are there, and only a name may name an entry that is not. */
  predicate InOrder(n: nat, log: seq<Entry>)
    decreases |log|
  {
    log == [] ||
    (var t := log[0].tag;
     && (t.type3 == CREATE ==> t.id <= n) && (t.type3 == DELETE ==> t.id < n)
     && (IsAttr(t.type3) && Type1(t.type3) != NAME ==> t.id < n)
     && Count(n, t) >= 0 && InOrder(Count(n, t), log[1..]))
  }

  lemma CountStep(dir: MetaLog.Dir, e: Entry)
    requires InOrder(|dir|, [e])
    ensures |Apply(dir, e)| == Count(|dir|, e.tag)
  {
    PadLength(dir, e.tag.id);
    PadLength(dir, e.tag.id + 1);
  }

  /** The count the scan keeps is the number of entries the replay leaves. */
  lemma {:induction false} CountIsLength(dir: MetaLog.Dir, log: seq<Entry>)
    requires InOrder(|dir|, log)
    ensures CountFrom(|dir|, log) == |ReplayFrom(dir, log)|
    decreases |log|
  {
    hide Apply, Count;
    if log != [] {
      assert [log[0]][1..] == [];
      CountStep(dir, log[0]);
      CountIsLength(Apply(dir, log[0]), log[1..]);
    }
  }

  lemma {:induction false} SummaryCounts(c: Contents, log: seq<Raw>)
    requires AreRaw(log) && AreOnDisk(log)
    ensures Summary(c, log).count == CountFrom(c.count, Entries(log))
    decreases |log|
  {
    hide Decode, DSize, Valid, Count, OnDisk;
    if log != [] {
      SummaryCounts(Gather(c, log[0].word, log[0].data), log[1..]);
      assert Entries(log)[1..] == Entries(log[1..]);
    }
  }

  /** The entry count a fetch reports is the number of entries in the directory. */
  lemma FetchCounts(log: seq<Raw>)
    requires AreRaw(log) && AreOnDisk(log) && InOrder(0, Entries(log))
    ensures Summary(EMPTY, log).count == |Replay(Entries(log))|
  {
    hide Summary, ReplayFrom, CountFrom, InOrder;
    SummaryCounts(EMPTY, log);
    CountIsLength([], Entries(log));
  }
}
