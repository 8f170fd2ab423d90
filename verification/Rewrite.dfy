/** A compaction down to the bytes: what it is measured as is what it takes in a block, so that what is
    found to fit can be committed. */
module Rewrite {
  import opened Arith
  import opened Words
  import opened Tags
  import opened TagWords
  import opened DirBlock
  import opened DirGet
  import opened MetaLog
  import opened Compaction
  import opened Commits
  import opened StateTag
  import Gstate
  import Split
  import opened DirFetch

  // ---- sizes ----

  /** The measure of a slice is the number of bytes it takes: tags and data. */
  lemma {:induction false} SizeIsBytes(ptag: Word, log: seq<Raw>)
    requires AreRaw(log) && AreOnDisk(log)
    ensures Split.SizeOf(Entries(log)) == |Encode(ptag, log)|
    decreases |log|
  {
    hide Decode, Valid, Be, Xor, DirBlock.Next, OnDisk;
    if log != [] {
      assert Entries(log)[1..] == Entries(log[1..]);
      SizeIsBytes(DirBlock.Next(log[0].word), log[1..]);
      EntrySize(log[0]);
    }
  }

  lemma EntrySize(e: Raw)
    requires IsRaw(e)
    ensures 4 + |e.data| == 4 + if IsRemoval(Decode(e.word)) then 0 else Decode(e.word).size
  {
    hide Decode, Valid;
  }

  /** As a commit takes it. */
  lemma {:induction false} TotalIsBytes(ptag: Word, attrs: seq<(Word, seq<Byte>)>)
    requires AreWritable(attrs)
    ensures Total(attrs) == |Encode(ptag, Raws(attrs))|
    decreases |attrs|
  {
    hide DSize, Be, Xor, DirBlock.Next, Encode, Last, IsCrc, Class;
    if attrs == [] {
      NothingEncoded(ptag);
    } else {
      var init, a := attrs[..|attrs| - 1], attrs[|attrs| - 1];
      TotalIsBytes(ptag, init);
      var e := Raw(Clear(a.0), a.1);
      assert Raws(attrs) == Raws(init) + [e];
      EncodeAppend(ptag, Raws(init), [e]);
      EncodeOne(Last(ptag, Raws(init)), e);
    }
  }

  lemma NothingEncoded(ptag: Word)
    ensures Encode(ptag, []) == []
  {
  }

  lemma WritableIsRaw(attrs: seq<(Word, seq<Byte>)>)
    requires AreWritable(attrs)
    ensures AreRaw(Raws(attrs))
  {
    hide DSize, Decode, TagWords.Valid, IsCrc, Class, Clear;
    forall i | 0 <= i < |attrs| ensures IsRaw(Raws(attrs)[i]) {
      AttrIsRaw(attrs[i].0, attrs[i].1);
    }
  }

  // ---- what the size limits are for ----

  /** What a split aims at leaves room for a tail, a checksum, the global state and a deletion, and leaves
      half of the block, rounded down to program units, for later commits; it is the most that does. */
  lemma CapIs(blockSize: nat, metadataMax: nat, unit: nat)
    requires unit > 0 && 36 <= blockSize && metadataMax <= blockSize
    ensures var cap := Split.Cap(blockSize, metadataMax, unit);
            var half := (if metadataMax > 0 then metadataMax else blockSize) / 2;
            && cap + 36 <= blockSize
            && cap < half + unit
            && (Aligned(half, unit) ==> cap <= half && 2 * cap <= blockSize)
            && (cap + 36 == blockSize || (half <= cap && Aligned(cap, unit)))
  {
    var half := (if metadataMax > 0 then metadataMax else blockSize) / 2;
    AlignUpIs(half, unit);
    if Aligned(half, unit) {
      AlignUpLeast(half, half, unit);
    }
  }

  // ---- committing a slice ----

  /** A tail as it is committed: a tag of type 0x600 to 0x6ff with two addresses. */
  predicate IsTailAttr(a: (Word, seq<Byte>)) {
    0x600 <= Decode(a.0).type3 < 0x700 && Decode(a.0).size == 8 && |a.1| == 8
  }

  function WithTail(attrs: seq<(Word, seq<Byte>)>, tail: Option<(Word, seq<Byte>)>): seq<(Word, seq<Byte>)> {
    if tail.None? then attrs else attrs + [tail.value]
  }

  lemma WithTailTakes(attrs: seq<(Word, seq<Byte>)>, tail: Option<(Word, seq<Byte>)>)
    requires AreWritable(attrs) && AreOnDisk(Raws(attrs)) && NoState(attrs) && (tail.Some? ==> IsTailAttr(tail.value))
    ensures var all := WithTail(attrs, tail);
            && AreWritable(all) && NoState(all)
            && Total(all) == Split.SizeOf(Entries(Raws(attrs))) + if tail.Some? then 12 else 0
  {
    hide IsWritable, Decode, Encode, Entries, Raws, AreOnDisk, DSize, Split.SizeOf, Total;
    WritableIsRaw(attrs);
    SizeIsBytes(ALL_BITS, Raws(attrs));
    TotalIsBytes(ALL_BITS, attrs);
    if tail.Some? {
      TailTakes(tail.value);
      TotalMore(attrs, tail.value);
    }
  }

  lemma TailTakes(a: (Word, seq<Byte>))
    requires IsTailAttr(a)
    ensures DSize(a.0) == 12 && IsWritable(a)
  {
    hide Decode;
  }

  lemma TotalMore(attrs: seq<(Word, seq<Byte>)>, a: (Word, seq<Byte>))
    ensures Total(attrs + [a]) == Total(attrs) + DSize(a.0)
  {
    hide DSize;
    assert (attrs + [a])[..|attrs|] == attrs;
  }

  /** A slice that is measured to fit is committed to an erased block, with a tail and a share of the global
      state; the block is then fetched as exactly these. */
  method CommitSlice(block: seq<Byte>, unit: nat, end: nat, rev: Word, ghost slice: seq<Entry>,
                     attrs: seq<(Word, seq<Byte>)>, tail: Option<(Word, seq<Byte>)>, room: nat,
                     delta: Gstate.Gstate, held: Gstate.Gstate)
    returns (c: Commit, ok: bool)
    requires unit > 0 && Aligned(|block|, unit) && end + 8 <= |block|
    requires AreWritable(attrs) && AreOnDisk(Raws(attrs)) && Entries(Raws(attrs)) == slice && NoState(attrs)
    requires tail.Some? ==> IsTailAttr(tail.value)
    requires Split.SizeOf(slice) <= room && 4 + room + 12 + 16 <= end
    ensures fresh(c) && c.Valid() && c.unit == unit && ok && Raws(WithTail(attrs, tail)) <= c.log
    ensures StateIn(c.log) == Gstate.Plus(delta, held)
    ensures var found := Recovered(c.block, unit);
            found.off == c.off && found.etag == c.ptag && ReportsTail(c.log, found.contents)
  {
    hide Decode, DSize, Commits.Written, Total, Raws, Entries, AreRaw, ReportsTail, StateIn, Gstate.Plus, AreWritable,
         NoState, AreOnDisk, WithTail, Recovered, Aligned, Split.SizeOf, IsTailAttr;
    WithTailTakes(attrs, tail);
    c := new Commit.Compact(block, unit, end, rev);
    ok := c.CompactAll(WithTail(attrs, tail), delta, held);
  }
}
