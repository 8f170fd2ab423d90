/** Writing a commit into a metadata block: tags, and the checksum tags that fill it up to a program
    unit, sealed so that whatever the block held behind them cannot be taken for another tag. */
module Commits {
  import opened Words
  import opened Tags
  import opened TagWords
  import opened DirBlock
  import opened DirFetch
  import opened Arith
  import opened Blocks
  import Crc
  import DirGet
  import Gstate
  import opened StateTag
  import MetaLog

  // ---- where the checksum tags go ----

  /** The largest size a checksum tag may give: one less would mark a removal. */
  const MAX_SIZE: nat := 0x3fe

  /** Where the checksum tag at p ends: at the end of the commit if its size can reach that far, and
      else as far as it can while leaving room for another checksum tag. */
  function FooterEnd(p: nat, end: nat): (n: nat)
    requires p + 8 <= end
    ensures p + 8 <= n <= end && (n < end ==> n + 8 <= end)
    ensures 4 <= n - (p + 4) <= MAX_SIZE
  {
    var off := p + 4;
    var noff := Min(end - off, MAX_SIZE) + off;
    if noff < end then Min(noff, end - 8) else noff
  }

  // ---- the check after a commit ----

  /** The check of what was written: every stretch of the commit, from `off` through the checksum behind
      the tag at p, comes to zero, and the first checksum is the one that was computed. */
  predicate Checks(block: seq<Byte>, off: nat, p: nat, first: nat, crc: Word, end: nat)
    requires off < end ==> off <= p && p + 8 <= end <= |block|
    decreases end - off
  {
    off >= end ||
    (&& (off <= first < p + 8 ==> Crc.Crc(ALL_BITS, block[off..first]) == crc)
     && Crc.Crc(ALL_BITS, block[off..p + 8]) == 0
     && Checks(block, FooterEnd(p, end), FooterEnd(p, end), first, crc, end))
  }

  /** Reads a commit back and checks it. */
  method Verify(block: seq<Byte>, begin: nat, off1: nat, crc1: Word, end: nat) returns (ok: bool)
    requires begin + 4 <= off1 && off1 + 4 <= end <= |block|
    ensures ok == Checks(block, begin, off1 - 4, off1, crc1, end)
  {
    hide Crc.Feed, FooterEnd;
    var off, noff := begin, off1;
    while off < end
      invariant 4 <= noff && (off < end ==> off + 4 <= noff && noff + 4 <= end)
      invariant Checks(block, begin, off1 - 4, off1, crc1, end) == Checks(block, off, noff - 4, off1, crc1, end)
      decreases end - off
    {
      var crc := ALL_BITS;
      var i := off;
      assert block[off..off] == [];
      while i < noff + 4
        invariant off <= i <= noff + 4
        invariant crc == Crc.Crc(ALL_BITS, block[off..i])
        invariant off <= off1 < i ==> Crc.Crc(ALL_BITS, block[off..off1]) == crc1
      {
        if i == off1 && crc != crc1 {
          return false;
        }
        Crc.CrcAppend(ALL_BITS, block[off..i], [block[i]]);
        assert block[off..i] + [block[i]] == block[off..i + 1];
        crc := Crc.LfsCrc(crc, [block[i]]);
        i := i + 1;
      }
      if crc != 0 {
        return false;
      }
      // on behind the padding, to the next stretch
      off := NextOff(noff, end);
      noff := off + 4;
    }
    ok := true;
  }

  /** The position behind the padding of the checksum stored at noff. */
  method NextOff(noff: nat, end: nat) returns (off: nat)
    requires noff >= 4 && noff + 4 <= end
    ensures off == FooterEnd(noff - 4, end)
  {
    off := Min(end - noff, MAX_SIZE) + noff;
    if off < end {
      off := Min(off, end - 8);
    }
  }

  // ---- the commit ----

  /** A block holds a log from its revision count on, and the bytes from `begin` on have a checksum. */
  predicate Written(block: seq<Byte>, log: seq<Raw>, begin: nat, off: nat, ptag: Word, crc: Word) {
    && |block| >= 4 && begin <= off <= |block| && off >= 4 && AreRaw(log)
    && Sums(log, ALL_BITS, Crc.Crc(ALL_BITS, block[..4]))
    && block[4..off] == Encode(ALL_BITS, log) && ptag == Last(ALL_BITS, log)
    && crc == Run(DirBlock.Start(block), log).crc == Crc.Crc(ALL_BITS, block[begin..off])
  }

  /** One more entry behind a written log. */
  lemma EntryWritten(block: seq<Byte>, log: seq<Raw>, begin: nat, off: nat, ptag: Word, crc: Word, e: Raw)
    requires Written(block, log, begin, off, ptag, crc) && IsRaw(e) && off + 4 + |e.data| <= |block|
    requires IsCrc(e.word) ==> FromLe(e.data[..4]) == Crc.Crc(crc, Be(Xor(e.word, ptag)))
    ensures var bytes := Be(Xor(e.word, ptag)) + e.data;
            var next := off + |bytes|;
            Written(Overlay(block, off, bytes), log + [e], if IsCrc(e.word) then next else begin, next,
                 DirBlock.Next(e.word),
                    if IsCrc(e.word) then ALL_BITS else Crc.Crc(crc, bytes))
  {
    hide Xor, Be, IsRaw, Decode, DSize, Crc.Crc, IsCrc, DirBlock.Next, Encode, Last, Sums, Run, FromLe, Le;
    var bytes := Be(Xor(e.word, ptag)) + e.data;
    var block' := Overlay(block, off, bytes);
    var next := off + |bytes|;
    SnocRaw(log, e);
    EncodeAppend(ALL_BITS, log, [e]);
    LastAppend(ALL_BITS, log, [e]);
    EncodeOne(ptag, e);
    assert block'[..4] == block[..4];
    var c := DirBlock.Start(block);
    RunReaches(c, log);
    SumsSnoc(c, log, e);
    assert block'[4..next] == block[4..off] + bytes;
    if !IsCrc(e.word) {
      Crc.CrcAppend(ALL_BITS, block[begin..off], bytes);
      assert block'[begin..next] == block[begin..off] + bytes;
    } else {
      assert block'[next..next] == [];
      NoBytes();
    }
  }

  lemma AttrIsRaw(tag: Word, data: seq<Byte>)
    requires 4 + |data| == DSize(tag) && !IsCrc(tag) && (Class(tag) == TAIL ==> |data| >= 8)
    ensures IsRaw(Raw(Clear(tag), data)) && !IsCrc(Clear(tag)) && DirBlock.Next(Clear(tag)) == Clear(tag)
  {
    hide Decode, DSize, Clear, Valid;
    ClearOnlyClears(tag);
  }

  /** After whole commits the checksum starts again. */
  lemma {:induction false} ClosedCrc(c: Cursor, log: seq<Raw>)
    requires AreRaw(log) && log != [] && Closed(log)
    ensures Run(c, log).crc == ALL_BITS
    decreases |log|
  {
    hide Decode, DSize, Valid, Xor, Be, Crc.Crc, Gather, Class, OddChunk, Flip;
    if |log| == 1 {
      assert log[1..] == [];
    } else {
      assert log[1..][|log| - 2] == log[|log| - 1];
      ClosedCrc(RunEntry(c, log[0]), log[1..]);
    }
  }

  lemma NoBytes()
    ensures Crc.Crc(ALL_BITS, []) == ALL_BITS
  {
  }

  lemma SnocRaw(log: seq<Raw>, e: Raw)
    requires AreRaw(log) && IsRaw(e)
    ensures AreRaw(log + [e])
  {
    hide IsRaw;
  }

  /** The checksums of a log with one more entry. */
  lemma {:induction false} SumsSnoc(c: Cursor, log: seq<Raw>, e: Raw)
    requires AreRaw(log) && IsRaw(e) && Sums(log, c.ptag, c.crc)
    requires IsCrc(e.word) ==> FromLe(e.data[..4]) == Crc.Crc(Run(c, log).crc, Be(Xor(e.word, Run(c, log).ptag)))
    ensures AreRaw(log + [e]) && Sums(log + [e], c.ptag, c.crc)
    ensures Run(c, log + [e]) == RunEntry(Run(c, log), e)
    decreases |log|
  {
    hide Xor, Be, IsRaw, Decode, DSize, Crc.Crc, IsCrc, Class, FromLe, Gather, Flip, OddChunk;
    SnocRaw(log, e);
    if log == [] {
      assert log + [e] == [e] && [e][1..] == [];
      EmptySums(RunEntry(c, e));
    } else {
      assert (log + [e])[1..] == log[1..] + [e];
      Crc.CrcAppend(c.crc, Be(Xor(log[0].word, c.ptag)), log[0].data);
      SumsSnoc(RunEntry(c, log[0]), log[1..], e);
    }
  }

  lemma EmptySums(c: Cursor)
    ensures AreRaw([]) && Sums([], c.ptag, c.crc) && Run(c, []) == c
  {
    hide IsRaw;
  }

  /** Whatever the next tag's bytes are, the word they are XORed with makes them an invalid tag. */
  lemma ResetInvalidates(raw: Word, tag: Word, ptag: Word)
    requires Valid(tag) && ptag == if Valid(raw) then Flip(tag) else tag
    ensures !Valid(Xor(raw, ptag))
  {
    hide *;
    FlipOnlyFlips(tag);
    XorValid(raw, ptag);
  }

  /** A checksum tag with its checksum and padding is an entry like the others. */
  lemma FooterIsRaw(reset: bool, sum: Word, padding: seq<Byte>)
    requires 4 + |padding| <= MAX_SIZE
    ensures var tag := CrcTag(reset, 4 + |padding|);
            var e := Raw(tag, Le(sum) + padding);
            && IsRaw(e) && IsCrc(tag) && FromLe(e.data[..4]) == sum
            && DirBlock.Next(tag) == (if reset then Flip(tag) else tag) && DSize(tag) == 8 + |padding|
  {
    hide CrcTag, Decode, Valid, Le, FromLe, Flip;
    CrcTagDecodes(reset, 4 + |padding|);
    RoundTrip(sum);
    assert (Le(sum) + padding)[..4] == Le(sum);
  }

  /** A stretch that ends in its own checksum comes to zero. */
  lemma StretchIsZero(block: seq<Byte>, from: nat, off: nat, crc: Word, tag: seq<Byte>, padding: seq<Byte>)
    requires |tag| == 4 && from <= off && off + 8 + |padding| <= |block| && crc == Crc.Crc(ALL_BITS, block[from..off])
    ensures var sum := Crc.Crc(crc, tag);
            var block' := Overlay(block, off, tag + (Le(sum) + padding));
            && Crc.Crc(ALL_BITS, block'[from..off + 4]) == sum && Crc.Crc(ALL_BITS, block'[from..off + 8]) == 0
  {
    hide Crc.Crc, Le;
    var sum := Crc.Crc(crc, tag);
    var block' := Overlay(block, off, tag + (Le(sum) + padding));
    assert block'[from..off + 4] == block[from..off] + tag;
    assert block'[from..off + 8] == block'[from..off + 4] + Le(sum);
    Crc.CrcAppend(ALL_BITS, block[from..off], tag);
    Crc.CrcAppend(ALL_BITS, block'[from..off + 4], Le(sum));
    Crc.Residue(sum);
  }

  /** The word of erased or old bytes behind a checksum tag. */
  function Behind(block: seq<Byte>, off: nat): Word {
    if off + 4 <= |block| then FromBe(block[off..off + 4]) else ALL_BITS
  }

  /** A checksum tag written at `off`, with the padding that is there. */
  function FooterEntry(block: seq<Byte>, off: nat, ptag: Word, crc: Word, next: nat): Raw
    requires off + 8 <= next <= |block|
  {
    var tag := CrcTag(Valid(Behind(block, next)), next - (off + 4));
    Raw(tag, Le(Crc.Crc(crc, Be(Xor(tag, ptag)))) + block[off + 8..next])
  }

  /** What a block is after a checksum tag is written into it. */
  function FooterBlock(block: seq<Byte>, off: nat, ptag: Word, crc: Word, next: nat): (b: seq<Byte>)
    requires off + 8 <= next <= |block|
    ensures |b| == |block| && b[..off] == block[..off] && b[next..] == block[next..]
  {
    var e := FooterEntry(block, off, ptag, crc, next);
    Overlay(block, off, Be(Xor(e.word, ptag)) + Le(Crc.Crc(crc, Be(Xor(e.word, ptag)))))
  }

  lemma FooterWritten(block: seq<Byte>, log: seq<Raw>, from: nat, off: nat, ptag: Word, crc: Word, next: nat)
    requires Written(block, log, from, off, ptag, crc) && off + 8 <= next <= |block| && next - (off + 4) <= MAX_SIZE
    ensures var e := FooterEntry(block, off, ptag, crc, next);
            && IsCrc(e.word)
            && Written(FooterBlock(block, off, ptag, crc, next), log + [e], next, next, DirBlock.Next(e.word), ALL_BITS)
  {
    hide Xor, Be, Le, Decode, Crc.Crc, IsCrc, DirBlock.Next, IsRaw, CrcTag, Valid, Flip, FromLe, Behind, Written, DSize;
    var e := FooterEntry(block, off, ptag, crc, next);
    var tag := Be(Xor(e.word, ptag));
    var sum := Le(Crc.Crc(crc, tag));
    FooterIsRaw(Valid(Behind(block, next)), Crc.Crc(crc, tag), block[off + 8..next]);
    WrittenFits(block, log, from, off, ptag, crc);
    EntryWritten(block, log, from, off, ptag, crc, e);
    assert tag + sum + block[off + 8..next] == tag + e.data;
    assert Overlay(block, off, tag + sum) == Overlay(block, off, tag + e.data);
  }

  lemma WrittenFits(block: seq<Byte>, log: seq<Raw>, from: nat, off: nat, ptag: Word, crc: Word)
    requires Written(block, log, from, off, ptag, crc)
    ensures from <= off <= |block| && crc == Crc.Crc(ALL_BITS, block[from..off])
  {
    hide Encode, Last, Run, Crc.Crc, AreRaw, Sums;
  }

  lemma FooterInvalidates(block: seq<Byte>, off: nat, ptag: Word, crc: Word, next: nat)
    requires off + 8 <= next <= |block| && next - (off + 4) <= MAX_SIZE
    ensures var e := FooterEntry(block, off, ptag, crc, next);
            next + 4 <= |block| ==> !Valid(TagAt(FooterBlock(block, off, ptag, crc, next), next, DirBlock.Next(e.word)))
  {
    hide Xor, Be, Le, Decode, Crc.Crc, IsCrc, DirBlock.Next, IsRaw, CrcTag, Valid, Flip, FromLe, FromBe, DSize,
         FooterBlock;
    var e := FooterEntry(block, off, ptag, crc, next);
    var raw := Behind(block, next);
    var after := FooterBlock(block, off, ptag, crc, next);
    FooterIsRaw(Valid(raw), Crc.Crc(crc, Be(Xor(e.word, ptag))), block[off + 8..next]);
    CrcTagDecodes(Valid(raw), next - (off + 4));
    ResetInvalidates(raw, e.word, DirBlock.Next(e.word));
    if next + 4 <= |block| {
      assert after[next..next + 4] == after[next..][..4] == block[next..][..4] == block[next..next + 4];
    }
  }

  lemma FooterSums(block: seq<Byte>, from: nat, off: nat, ptag: Word, crc: Word, next: nat)
    requires off + 8 <= next <= |block| && from <= off && crc == Crc.Crc(ALL_BITS, block[from..off])
    ensures var e := FooterEntry(block, off, ptag, crc, next);
            var after := FooterBlock(block, off, ptag, crc, next);
            && Crc.Crc(ALL_BITS, after[from..off + 4]) == Crc.Crc(crc, Be(Xor(e.word, ptag)))
            && Crc.Crc(ALL_BITS, after[from..off + 8]) == 0
  {
    hide Xor, Be, Le, Decode, Crc.Crc, CrcTag, Valid, Behind;
    var e := FooterEntry(block, off, ptag, crc, next);
    var tag := Be(Xor(e.word, ptag));
    StretchIsZero(block, from, off, crc, tag, []);
    assert Le(Crc.Crc(crc, tag)) + [] == Le(Crc.Crc(crc, tag));
  }

  /** Builds a checksum tag: it looks at what the next tag would be read from, and seals the commit
      against it. */
  method MakeFooter(block: seq<Byte>, off: nat, ptag: Word, crc: Word, next: nat)
    returns (block': seq<Byte>, ptag': Word, sum: Word)
    requires off + 8 <= next <= |block| && next - (off + 4) <= MAX_SIZE
    ensures var e := FooterEntry(block, off, ptag, crc, next);
            && block' == FooterBlock(block, off, ptag, crc, next) && ptag' == DirBlock.Next(e.word)
            && sum == Crc.Crc(crc, Be(Xor(e.word, ptag)))
  {
    hide Xor, Be, Le, Decode, DSize, Crc.Crc, IsCrc, DirBlock.Next, FromBe, IsRaw, CrcTag, Valid, Flip, FromLe, Overlay;
    // what lies behind decides whether the next valid bit has to be inverted
    var raw := if next + 4 <= |block| then FromBe(block[next..next + 4]) else ALL_BITS;
    var reset := Valid(raw);
    var tag := CrcTag(reset, next - (off + 4));
    var footer := Be(Xor(tag, ptag));
    sum := Crc.LfsCrc(crc, footer);
    FooterIsRaw(reset, sum, block[off + 8..next]);
    block' := Overlay(block, off, footer + Le(sum));
    ptag' := if reset then Flip(tag) else tag;
  }

  // ---- what the check after the commit sees ----

  /** Where the stretch of a checksum tag starts. */
  function StretchAt(done: seq<nat>, begin: nat, k: nat): nat
    requires k < |done|
  {
    if k == 0 then begin else done[k]
  }

  predicate StretchDone(block: seq<Byte>, begin: nat, done: seq<nat>, k: nat, p: nat, stop: nat)
    requires k < |done|
  {
    && StretchAt(done, begin, k) <= done[k] && done[k] + 8 <= p <= stop && stop <= |block|
    && (k > 0 ==> done[0] + 8 <= done[k])
    && FooterEnd(done[k], stop) == (if k + 1 < |done| then done[k + 1] else p)
    && Crc.Crc(ALL_BITS, block[StretchAt(done, begin, k)..done[k] + 8]) == 0
  }

  /** The checksum tags written so far: each continues where the one before ended, and each stretch
      comes to zero. */
  predicate Done(block: seq<Byte>, begin: nat, crc1: Word, done: seq<nat>, p: nat, stop: nat) {
    && (done != [] ==> begin <= done[0] && done[0] + 8 <= p <= |block|
                       && Crc.Crc(ALL_BITS, block[begin..done[0] + 4]) == crc1)
    && forall k | 0 <= k < |done| :: StretchDone(block, begin, done, k, p, stop)
  }

  lemma SliceKept(a: seq<Byte>, b: seq<Byte>, n: nat, i: nat, j: nat)
    requires i <= j <= n <= |a| && n <= |b| && a[..n] == b[..n]
    ensures a[i..j] == b[i..j]
  {
    forall k | 0 <= k < j - i ensures a[i..j][k] == b[i..j][k] {
      assert a[..n][i + k] == b[..n][i + k];
    }
  }

  /** One more checksum tag. */
  lemma DoneMore(block: seq<Byte>, block': seq<Byte>, begin: nat, from: nat, crc1: Word, crc1': Word, done: seq<nat>,
                 p: nat, stop: nat)
    requires Done(block, begin, crc1, done, p, stop) && p + 8 <= stop <= |block| && |block'| == |block|
    requires block'[..p] == block[..p] && begin <= p && from == (if done == [] then begin else p)
    requires crc1' == if done == [] then Crc.Crc(ALL_BITS, block'[from..p + 4]) else crc1
    requires Crc.Crc(ALL_BITS, block'[from..p + 8]) == 0
    ensures Done(block', begin, crc1', done + [p], FooterEnd(p, stop), stop)
  {
    hide Crc.Crc;
    var all, next := done + [p], FooterEnd(p, stop);
    forall k | 0 <= k < |all| ensures StretchDone(block', begin, all, k, next, stop) {
      if k < |done| {
        assert StretchDone(block, begin, done, k, p, stop);
        SliceKept(block', block, p, StretchAt(done, begin, k), done[k] + 8);
      }
    }
    if done != [] {
      assert StretchDone(block, begin, done, 0, p, stop);
      SliceKept(block', block, p, begin, done[0] + 4);
    }
  }

  /** The check accepts what was written, at the offsets it works out again. */
  lemma {:induction false} DoneChecks(block: seq<Byte>, begin: nat, crc1: Word, done: seq<nat>, k: nat, stop: nat)
    requires Done(block, begin, crc1, done, stop, stop) && k < |done|
    ensures StretchAt(done, begin, k) <= done[k] && done[k] + 8 <= stop <= |block|
    ensures Checks(block, StretchAt(done, begin, k), done[k], done[0] + 4, crc1, stop)
    decreases |done| - k
  {
    hide Crc.Crc, FooterEnd;
    assert StretchDone(block, begin, done, k, stop, stop);
    if k + 1 < |done| {
      assert StretchDone(block, begin, done, k + 1, stop, stop);
      DoneChecks(block, begin, crc1, done, k + 1, stop);
    }
  }

  lemma NothingWritten(block: seq<Byte>, off: nat, crc: Word, data: seq<Byte>)
    requires off <= |block|
    ensures Overlay(block, off, data[..0]) == block && Crc.Crc(crc, data[..0]) == crc
  {
  }

  lemma NothingDone(block: seq<Byte>, begin: nat, crc: Word, p: nat, stop: nat)
    ensures Done(block, begin, crc, [], p, stop)
  {
  }

  lemma DoneStarts(block: seq<Byte>, begin: nat, crc: Word, done: seq<nat>, stop: nat)
    requires Done(block, begin, crc, done, stop, stop) && done != []
    ensures begin <= done[0] && done[0] + 8 <= stop <= |block|
  {
    hide Crc.Crc, FooterEnd;
    assert StretchDone(block, begin, done, 0, stop, stop);
  }

  /** A block with whole commits and an invalid tag behind them is fetched as those commits. */
  lemma WrittenIsFetched(block: seq<Byte>, log: seq<Raw>, from: nat, off: nat, ptag: Word, crc: Word, unit: nat)
    requires unit > 0 && Written(block, log, from, off, ptag, crc) && log != [] && Closed(log) && Aligned(off, unit)
    requires off + 4 <= |block| ==> !Valid(TagAt(block, off, ptag))
    ensures Recovered(block, unit) == Found(off, ptag, Summary(EMPTY, log), off + 4 <= |block|)
  {
    hide Crc.Crc, Encode, Last, Sums, IsRaw, Decode, DSize, Run, IsCrc, Valid, TagAt, Summary, Scan, Closed;
    assert block[4..][..off - 4] == block[4..off];
    FetchRecovers(block, unit, log);
    AlignedIsRemainder(off, unit);
  }

  /** What was committed is what a lookup after the next fetch finds: the attribute that replaying the
      whole log of the block, and then a pending move, leaves. */
  lemma CommittedIsFound(block: seq<Byte>, log: seq<Raw>, from: nat, off: nat, ptag: Word, crc: Word, unit: nat,
                         kind: bv11, moved: MetaLog.Option<nat>, id: nat, size: nat)
    requires unit > 0 && Written(block, log, from, off, ptag, crc) && log != [] && Closed(log) && Aligned(off, unit)
    requires off + 4 <= |block| ==> !Valid(TagAt(block, off, ptag))
    requires DirGet.AreOnDisk(log) && kind as int < 0x800 && IsAttr(kind as int)
    ensures var dir := Recovered(block, unit);
            var q := DirGet.ByKey(kind);
            && dir.off <= |block|
            && DirGet.Slice(block, DirGet.Lookup(block, dir.off, dir.etag, q, DirGet.StartId(q, moved, id)), id, 0,
               size)
               == match MetaLog.Get(MetaLog.Replay(DirGet.Entries(log) + MetaLog.MovedAway(moved)), id,
                    Key(kind as int))
                  { case None => DirGet.NoEntry case Some(v) => DirGet.Cut(v, id, size) }
  {
    hide *;
    WrittenIsFetched(block, log, from, off, ptag, crc, unit);
    WrittenHolds(block, log, from, off, ptag, crc);
    DirGet.GetIsReplay(block, log, ptag, kind, moved, id, size);
  }

  lemma WrittenHolds(block: seq<Byte>, log: seq<Raw>, from: nat, off: nat, ptag: Word, crc: Word)
    requires Written(block, log, from, off, ptag, crc)
    ensures AreRaw(log) && DirGet.Holds(block, log) && off == 4 + DirGet.Span(log) && ptag == Last(ALL_BITS, log)
  {
    hide Encode, Last, Run, Crc.Crc, AreRaw, Sums, DirGet.Span;
    assert block[4..][..off - 4] == block[4..off];
    DirGet.EncodeSpan(ALL_BITS, log);
  }

  lemma {:induction false} SummaryOfChecksums(c: Contents, log: seq<Raw>, n: nat)
    requires AreRaw(log) && n <= |log| && forall i | n <= i < |log| :: IsCrc(log[i].word)
    ensures AreRaw(log[..n]) && Summary(c, log) == Summary(c, log[..n])
    decreases |log|
  {
    hide Decode, DSize, Valid, IsCrc, Gather, Class;
    if log != [] {
      if n == 0 {
        ChecksumAddsNothing(c, log[0].word, log[0].data);
        SummaryOfChecksums(c, log[1..], 0);
        assert log[..0] == log[1..][..0] == [];
      } else {
        SummaryOfChecksums(Gather(c, log[0].word, log[0].data), log[1..], n - 1);
        assert log[..n][1..] == log[1..][..n - 1];
      }
    }
  }

  lemma WrittenIsRaw(block: seq<Byte>, log: seq<Raw>, from: nat, off: nat, ptag: Word, crc: Word)
    requires Written(block, log, from, off, ptag, crc)
    ensures AreRaw(log) && |block| >= 4
  {
    hide Encode, Last, Run, Crc.Crc, AreRaw, Sums;
  }

  class Commit {
    const unit: nat
    const begin: nat
    const end: nat
    var block: seq<Byte>
    var off: nat
    var ptag: Word
    var crc: Word
    /** Everything the block holds from its revision count on, and where the open stretch starts. */
    ghost var log: seq<Raw>
    ghost var from: nat

    ghost predicate Valid()
      reads this
    {
      && unit > 0 && Aligned(|block|, unit) && end + 8 <= |block|
      && Written(block, log, from, off, ptag, crc)
    }

    /** Starts a commit behind the whole commits of a block. */
    constructor Append(block: seq<Byte>, unit: nat, end: nat, off: nat, etag: Word, ghost log: seq<Raw>)
      requires unit > 0 && Aligned(|block|, unit) && end + 8 <= |block| && |block| >= 4
      requires log != [] && Sealed(log, ALL_BITS, Crc.Crc(ALL_BITS, block[..4])) && Reads(block, 4, ALL_BITS, log)
      requires off == 4 + |Encode(ALL_BITS, log)| && etag == Last(ALL_BITS, log)
      ensures Valid() && this.block == block && this.unit == unit && this.off == begin == from == off && this.log == log
      ensures this.end == end
    {
      hide Crc.Crc, Encode, Last, Sums, IsRaw, Decode, DSize, Run, IsCrc;
      this.block, this.unit, this.begin, this.end := block, unit, off, end;
      this.off, this.ptag, this.crc, this.log, this.from := off, etag, ALL_BITS, log, off;
      RunReaches(DirBlock.Start(block), log);
      ClosedCrc(DirBlock.Start(block), log);
      assert block[4..][..off - 4] == block[4..off] && block[off..off] == [];
      NoBytes();
    }

    /** Starts to rewrite an erased block under a new revision count. */
    constructor Compact(block: seq<Byte>, unit: nat, end: nat, rev: Word)
      requires unit > 0 && Aligned(|block|, unit) && end + 8 <= |block|
      ensures Valid() && this.block == Overlay(block, 0, Le(rev)) && this.unit == unit
      ensures this.off == 4 && begin == from == 0 && this.log == [] && this.end == end
    {
      hide Crc.Crc, IsRaw, Decode, DSize, Le;
      var block' := Overlay(block, 0, Le(rev));
      this.block, this.unit, this.begin, this.end := block', unit, 0, end;
      this.off, this.ptag, this.log, this.from := 4, ALL_BITS, [], 0;
      this.crc := Crc.Crc(ALL_BITS, Le(rev));
      assert block'[0..4] == Le(rev) == block'[..4];
      EmptySums(DirBlock.Start(block'));
    }

    method CommitProg(data: seq<Byte>)
      requires off + |data| <= |block|
      modifies this`block, this`off, this`crc
      ensures block == Overlay(old(block), old(off), data) && off == old(off) + |data|
      ensures crc == Crc.Crc(old(crc), data)
    {
      block := Overlay(block, off, data);
      crc := Crc.LfsCrc(crc, data);
      off := off + |data|;
    }

    /** Copies data byte by byte, as it comes from another block. */
    method CommitFromDisk(data: seq<Byte>)
      requires off + |data| <= |block|
      modifies this`block, this`off, this`crc
      ensures block == Overlay(old(block), old(off), data) && off == old(off) + |data|
      ensures crc == Crc.Crc(old(crc), data)
    {
      hide Crc.Crc, Overlay;
      ghost var b, o, c := block, off, crc;
      NothingWritten(b, o, c, data);
      for i := 0 to |data|
        invariant off == o + i && block == Overlay(b, o, data[..i]) && crc == Crc.Crc(c, data[..i])
      {
        OverlayTwice(b, o, data[..i], [data[i]]);
        Crc.CrcAppend(c, data[..i], [data[i]]);
        assert data[..i] + [data[i]] == data[..i + 1];
        CommitProg([data[i]]);
      }
      assert data[..|data|] == data;
    }

    /** Appends one attribute if it leaves room for the checksum. */
    method CommitAttr(tag: Word, data: seq<Byte>) returns (ok: bool)
      requires Valid() && 4 + |data| == DSize(tag) && !IsCrc(tag) && (Class(tag) == TAIL ==> |data| >= 8)
      modifies this
      ensures Valid() && from == old(from) && ok == (old(off) + DSize(tag) <= end)
      ensures ok ==> log == old(log) + [Raw(Clear(tag), data)] && off == old(off) + DSize(tag)
      ensures |block| == old(|block|)
      ensures ok ==> block[..old(off)] == old(block[..off]) && block[off..] == old(block)[off..]
      ensures !ok ==> log == old(log) && block == old(block) && off == old(off)
    {
      hide Xor, Be, DSize, Decode, Crc.Crc, IsCrc, Class, DirBlock.Next, TagWords.Valid, Clear, Written, IsRaw, Overlay;
      var dsize := DSize(tag);
      if off + dsize > end {
        return false;
      }
      ghost var e := Raw(Clear(tag), data);
      ghost var b, o, p, c := block, off, ptag, crc;
      var ntag := Be(Xor(Clear(tag), ptag));
      CommitProg(ntag);
      if TagWords.Valid(tag) {
        CommitProg(data);
      } else {
        CommitFromDisk(data);
      }
      ptag := Clear(tag);
      log := log + [e];
      OverlayTwice(b, o, ntag, data);
      OverlayKeeps(b, o, ntag + data);
      Crc.CrcAppend(c, ntag, data);
      AttrIsRaw(tag, data);
      EntryWritten(b, old(log), from, o, p, c, e);
      ok := true;
    }

    /** Writes the next checksum tag: the checksum, and as much padding as there is. */
    method Footer(stop: nat) returns (sum: Word)
      requires Valid() && off + 8 <= stop <= |block|
      modifies this
      ensures Valid() && off == FooterEnd(old(off), stop) && from == off && |block| == old(|block|)
      ensures block[..old(off)] == old(block[..off]) && block[off..] == old(block)[off..]
      ensures log != [] && log[..|log| - 1] == old(log) && IsCrc(log[|log| - 1].word)
      ensures sum == Crc.Crc(ALL_BITS, block[old(from)..old(off) + 4])
                && Crc.Crc(ALL_BITS, block[old(from)..old(off) + 8]) == 0
      ensures off + 4 <= |block| ==> !TagWords.Valid(TagAt(block, off, ptag))
    {
      hide Xor, Be, DSize, Crc.Crc, IsCrc, DirBlock.Next, TagWords.Valid, Written, FooterEnd, TagAt, Aligned,
           FooterEntry;
      var noff := FooterEnd(off, stop);
      ghost var e := FooterEntry(block, off, ptag, crc, noff);
      WrittenFits(block, log, from, off, ptag, crc);
      FooterWritten(block, log, from, off, ptag, crc, noff);
      FooterInvalidates(block, off, ptag, crc, noff);
      FooterSums(block, from, off, ptag, crc, noff);
      block, ptag, sum := MakeFooter(block, off, ptag, crc, noff);
      off := noff;
      crc := ALL_BITS;
      log := log + [e];
      from := off;
    }

    /** Seals the commit: fills it up to a program unit with checksum tags, and reads it back. The block
        is then fetched as everything it holds, whatever lies behind the commit. */
    method CommitCrc() returns (ok: bool)
      requires Valid() && from == begin && off <= end
      modifies this
      ensures ok && Valid() && off == from == AlignUp(old(off) + 8, unit) && |block| == old(|block|)
      ensures block[..old(off)] == old(block[..off]) && block[off..] == old(block)[off..]
      ensures old(log) <= log && |old(log)| < |log| && forall i | |old(log)| <= i < |log| :: IsCrc(log[i].word)
      ensures AreRaw(log) && AreRaw(old(log)) && Summary(EMPTY, log) == Summary(EMPTY, old(log))
      ensures Recovered(block, unit) == Found(off, ptag, Summary(EMPTY, log), off + 4 <= |block|)
    {
      hide Crc.Crc, IsCrc, TagWords.Valid, Written, TagAt, Decode, Done, Aligned, AlignUp, IsRaw, Summary, Recovered,
           Checks;
      AlignUpIs(off + 8, unit);
      AlignUpLeast(off + 8, |block|, unit);
      var stop := AlignUp(off + 8, unit);
      ghost var begun, done := off, [];
      var off1, crc1 := 0, 0;
      WrittenIsRaw(block, log, from, off, ptag, crc);
      WrittenFits(block, log, from, off, ptag, crc);
      NothingDone(block, begin, crc1, off, stop);
      while off < stop
        invariant Valid() && |block| == old(|block|) && (off == stop || off + 8 <= stop) && begun <= off
        invariant from == if done == [] then begin else off
        invariant done == [] ==> off == begun && log == old(log) && off1 == 0
        invariant done != [] ==> off1 == done[0] + 4
        invariant Done(block, begin, crc1, done, off, stop)
        invariant block[..begun] == old(block)[..begun] && block[stop..] == old(block)[stop..]
        invariant old(log) <= log && forall i | |old(log)| <= i < |log| :: IsCrc(log[i].word)
        invariant done != [] ==> |log| > |old(log)| && (off + 4 <= |block| ==> !TagWords.Valid(TagAt(block, off, ptag)))
        decreases stop - off
      {
        var p := off;
        ghost var b, f, c := block, from, crc1;
        var sum := Footer(stop);
        if off1 == 0 {
          off1, crc1 := p + 4, sum;
        }
        DoneMore(b, block, begin, f, c, crc1, done, p, stop);
        done := done + [p];
      }
      DoneStarts(block, begin, crc1, done, stop);
      DoneChecks(block, begin, crc1, done, 0, stop);
      WrittenIsRaw(block, log, from, off, ptag, crc);
      SummaryOfChecksums(EMPTY, log, |old(log)|);
      assert log[..|old(log)|] == old(log);
      WrittenIsFetched(block, log, from, off, ptag, crc, unit);
      ok := Verify(block, begin, off1, crc1, stop);
    }

    /** Appends attributes as long as they leave room for the checksum. */
    method CommitAttrs(attrs: seq<(Word, seq<Byte>)>) returns (ok: bool)
      requires Valid() && from == begin && off <= end && AreWritable(attrs)
      modifies this
      ensures Valid() && from == begin && old(off) <= off <= end && |block| == old(|block|)
      ensures block[..old(off)] == old(block[..off]) && ok == (old(off) + Total(attrs) <= end)
      ensures ok ==> log == old(log) + Raws(attrs) && off == old(off) + Total(attrs)
    {
      hide Crc.Crc, IsCrc, TagWords.Valid, Written, Decode, Clear, DSize, Class, IsWritable, Total;
      ghost var was, at := log, off;
      TotalOfNone();
      assert attrs[..0] == [];
      for i := 0 to |attrs|
        invariant Valid() && from == begin && off <= end && |block| == old(|block|) && off == at + Total(attrs[..i])
        invariant block[..at] == old(block)[..at] && log == was + Raws(attrs[..i])
      {
        ghost var b, o := block, off;
        Writable(attrs, i);
        TotalOfPrefix(attrs, i);
        var done := CommitAttr(attrs[i].0, attrs[i].1);
        if !done {
          return false;
        }
        assert block[..at] == block[..o][..at] == b[..o][..at] == b[..at];
        assert Raws(attrs[..i + 1]) == Raws(attrs[..i]) + [Raw(Clear(attrs[i].0), attrs[i].1)];
      }
      assert attrs[..|attrs|] == attrs;
      ok := true;
    }

    /** A whole commit: every attribute, a new share of the global state if there is one, and the checksum.
        It is made if there is room for all of them; what is fetched afterwards is what was there with them
        added. Without room nothing of what was there has changed. */
    method CommitAll(attrs: seq<(Word, seq<Byte>)>, share: MetaLog.Option<Gstate.Gstate>) returns (ok: bool)
      requires Valid() && from == begin && off <= end && AreWritable(attrs)
      modifies this
      ensures Valid() && |block| == old(|block|) && block[..old(off)] == old(block[..off])
      ensures ok == (old(off) + Total(WithState(attrs, share)) <= end)
      ensures ok ==> old(log) + Raws(WithState(attrs, share)) <= log
      ensures ok ==> forall i | |old(log)| + |WithState(attrs, share)| <= i < |log| :: IsCrc(log[i].word)
      ensures ok ==> AreRaw(old(log)) && AreRaw(Raws(WithState(attrs, share)))
                     && Recovered(block, unit) == Found(off, ptag,
                          Summary(Summary(EMPTY, old(log)), Raws(WithState(attrs, share))), off + 4 <= |block|)
                     && ReportsTail(log, Recovered(block, unit).contents)
    {
      hide Crc.Crc, IsCrc, TagWords.Valid, Written, Decode, Aligned, AlignUp, IsRaw, Summary, Recovered, Clear, DSize,
           Class, IsWritable, Total, StateAttr, ReportsTail;
      ghost var was, at, all := log, off, WithState(attrs, share);
      TotalWithState(attrs, share);
      ok := CommitAttrs(attrs);
      if !ok {
        return;
      }
      if share.Some? {
        ghost var b, o := block, off;
        StateTagIs(share.value);
        StateIsWritable(share.value);
        var state := StateAttr(share.value);
        ok := CommitAttr(state.0, state.1);
        if !ok {
          return;
        }
        assert block[..at] == block[..o][..at] == b[..o][..at] == b[..at];
        assert Raws(all) == Raws(attrs) + [Raw(Clear(state.0), state.1)];
      }
      assert log == was + Raws(all);
      ghost var b, o := block, off;
      WrittenIsRaw(block, log, from, off, ptag, crc);
      RawPrefix(was, Raws(all));
      SummaryAppend(EMPTY, was, Raws(all));
      ok := CommitCrc();
      SummaryReports(log);
      assert block[..at] == block[..o][..at] == b[..o][..at] == b[..at];
    }

    /** A commit behind others. A change of the global state is added to the share that the block holds. */
    method AppendAll(attrs: seq<(Word, seq<Byte>)>, delta: Gstate.Gstate, moved: MetaLog.Option<nat>)
      returns (ok: bool)
      requires Valid() && from == begin == off <= end && AreWritable(attrs) && NoState(attrs)
      modifies this
      ensures Valid() && |block| == old(|block|) && block[..old(off)] == old(block[..off])
      ensures ok == (old(off) + Total(attrs) + (if delta == Gstate.ZERO then 0 else 16) <= end)
      ensures ok ==> old(log) + Raws(attrs) <= log && StateIn(log) == Gstate.Plus(delta, StateIn(old(log)))
      ensures ok ==> Recovered(block, unit).off == off && Recovered(block, unit).etag == ptag
      ensures ok ==> ReportsTail(log, Recovered(block, unit).contents)
    {
      hide Crc.Crc, IsCrc, TagWords.Valid, Written, Decode, Aligned, AlignUp, IsRaw, Summary, Recovered, Clear, DSize,
           Class, IsWritable, Total, StateAttr, ReportsTail, StateIn, Gstate.Plus, NoState, AreRaw;
      ghost var was := log;
      var share := MetaLog.None;
      if delta != Gstate.ZERO {
        WrittenHolds(block, log, from, off, ptag, crc);
        var held := GetState(block, off, ptag, moved, delta, log);
        share := MetaLog.Some(held);
      }
      TotalWithState(attrs, share);
      ok := CommitAll(attrs, share);
      if ok {
        StateCommitted(was, attrs, share, log);
        Gstate.PlusSelf(StateIn(was));
        Prefix(was, Raws(attrs), WithState(attrs, share), log);
      }
    }

    /** The commit of a rewritten block. The share that the directory held and the change of the global
        state are brought over. */
    method CompactAll(attrs: seq<(Word, seq<Byte>)>, delta: Gstate.Gstate, held: Gstate.Gstate) returns (ok: bool)
      requires Valid() && from == begin && log == [] && off <= end && AreWritable(attrs) && NoState(attrs)
      modifies this
      ensures Valid() && |block| == old(|block|)
      ensures ok == (old(off) + Total(attrs) + (if Gstate.Plus(delta, held) == Gstate.ZERO then 0 else 16) <= end)
      ensures ok ==> Raws(attrs) <= log && StateIn(log) == Gstate.Plus(delta, held)
      ensures ok ==> Recovered(block, unit).off == off && Recovered(block, unit).etag == ptag
      ensures ok ==> ReportsTail(log, Recovered(block, unit).contents)
    {
      hide Crc.Crc, IsCrc, TagWords.Valid, Written, Decode, Aligned, AlignUp, IsRaw, Summary, Recovered, Clear, DSize,
           Class, IsWritable, Total, StateAttr, ReportsTail, Gstate.Plus, NoState, AreRaw;
      ghost var was := log;
      var all := Gstate.Plus(delta, held);
      var share := if all == Gstate.ZERO then MetaLog.None else MetaLog.Some(all);
      TotalWithState(attrs, share);
      ok := CommitAll(attrs, share);
      if ok {
        StateCommitted(was, attrs, share, log);
        Prefix(was, Raws(attrs), WithState(attrs, share), log);
      }
    }

    /** Fetches the block again and reads its share of the global state, as a mount does. */
    method ReadState(moved: MetaLog.Option<nat>, gstate: Gstate.Gstate) returns (r: Gstate.Gstate)
      requires Valid() && Recovered(block, unit).off == off && Recovered(block, unit).etag == ptag
      ensures r == Gstate.Plus(gstate, StateIn(log))
    {
      hide Crc.Crc, IsCrc, TagWords.Valid, Written, Decode, Aligned, IsRaw, Clear, StateIn, Gstate.Plus, Scan, AreRaw;
      WrittenHolds(block, log, from, off, ptag, crc);
      WrittenIsRaw(block, log, from, off, ptag, crc);
      var found := ScanBlock(block, unit);
      r := GetState(block, found.off, found.etag, moved, gstate, log);
    }
  }

  // ---- whole commits ----

  /** An attribute as callers pass it: a tag, with the valid bit set if its data comes from disk, and
      the data. */
  predicate IsWritable(a: (Word, seq<Byte>)) {
    4 + |a.1| == DSize(a.0) && !IsCrc(a.0) && (Class(a.0) == TAIL ==> |a.1| >= 8)
  }

  predicate AreWritable(attrs: seq<(Word, seq<Byte>)>) {
    forall i | 0 <= i < |attrs| :: IsWritable(attrs[i])
  }

  /** What attributes take on disk. */
  function Total(attrs: seq<(Word, seq<Byte>)>): nat {
    if attrs == [] then 0 else Total(attrs[..|attrs| - 1]) + DSize(attrs[|attrs| - 1].0)
  }

  lemma TotalOfNone()
    ensures Total([]) == 0
  {
  }

  lemma {:induction false} TotalOfPrefix(attrs: seq<(Word, seq<Byte>)>, i: nat)
    requires i < |attrs|
    ensures Total(attrs[..i + 1]) == Total(attrs[..i]) + DSize(attrs[i].0) <= Total(attrs)
    decreases |attrs|
  {
    hide DSize;
    assert attrs[..i + 1][..i] == attrs[..i];
    if i + 1 < |attrs| {
      var init := attrs[..|attrs| - 1];
      TotalOfPrefix(init, i);
      assert init[..i + 1] == attrs[..i + 1];
    } else {
      assert attrs[..i + 1] == attrs;
    }
  }

  /** The attributes of a commit: those asked for, and the share of the global state. */
  function WithState(attrs: seq<(Word, seq<Byte>)>, share: MetaLog.Option<Gstate.Gstate>): seq<(Word, seq<Byte>)> {
    if share.None? then attrs else attrs + [StateAttr(share.value)]
  }

  lemma TotalWithState(attrs: seq<(Word, seq<Byte>)>, share: MetaLog.Option<Gstate.Gstate>)
    ensures Total(WithState(attrs, share)) == Total(attrs) + if share.None? then 0 else 16
  {
    hide DSize, StateAttr;
    if share.Some? {
      StateTagIs(share.value);
      assert (attrs + [StateAttr(share.value)])[..|attrs|] == attrs;
    }
  }

  lemma StateIsWritable(share: Gstate.Gstate)
    ensures IsWritable(StateAttr(share)) && 4 + |StateAttr(share).1| == DSize(StateAttr(share).0)
    ensures !IsCrc(StateAttr(share).0) && Class(StateAttr(share).0) != TAIL
  {
    hide Decode, DSize, StateAttr;
    StateTagIs(share);
  }

  /** Attributes that are no share of the global state. */
  predicate NoState(attrs: seq<(Word, seq<Byte>)>) {
    forall i | 0 <= i < |attrs| :: Decode(attrs[i].0).type3 != 0x7ff
  }

  /** The share that a commit leaves in its block. */
  lemma StateCommitted(was: seq<Raw>, attrs: seq<(Word, seq<Byte>)>, share: MetaLog.Option<Gstate.Gstate>,
                       log: seq<Raw>)
    requires NoState(attrs) && was + Raws(WithState(attrs, share)) <= log
    requires forall i | |was| + |WithState(attrs, share)| <= i < |log| :: IsCrc(log[i].word)
    ensures StateIn(log) == if share.Some? then share.value else StateIn(was)
  {
    hide Decode, StateIn, Clear, StateAttr, IsCrc;
    var all := was + Raws(WithState(attrs, share));
    var rest := log[|all|..];
    forall i | 0 <= i < |rest| ensures Decode(rest[i].word).type3 != 0x7ff {
      assert rest[i] == log[|all| + i];
      ChecksumType(rest[i].word);
    }
    assert log == all + rest;
    StateOf(all, rest);
    forall i | 0 <= i < |attrs| ensures Decode(Raws(attrs)[i].word).type3 != 0x7ff {
      ClearOnlyClears(attrs[i].0);
    }
    StateOf(was, Raws(attrs));
    if share.Some? {
      var e := Raw(Clear(StateAttr(share.value).0), StateAttr(share.value).1);
      ClearOnlyClears(StateAttr(share.value).0);
      assert all == was + Raws(attrs) + [e];
      StateReadsBack(was + Raws(attrs), e, share.value);
    }
  }

  lemma ChecksumType(w: Word)
    requires IsCrc(w)
    ensures Decode(w).type3 != 0x7ff
  {
    hide Decode;
  }

  lemma Prefix(was: seq<Raw>, some: seq<Raw>, attrs: seq<(Word, seq<Byte>)>, log: seq<Raw>)
    requires was + Raws(attrs) <= log && some <= Raws(attrs)
    ensures was + some <= log
  {
    assert (was + Raws(attrs))[..|was| + |some|] == was + some;
  }

  lemma Writable(attrs: seq<(Word, seq<Byte>)>, i: nat)
    requires AreWritable(attrs) && i < |attrs|
    ensures 4 + |attrs[i].1| == DSize(attrs[i].0) && !IsCrc(attrs[i].0)
    ensures Class(attrs[i].0) == TAIL ==> |attrs[i].1| >= 8
    ensures DSize(attrs[i].0) >= 4
  {
    hide Decode;
  }

  function Raws(attrs: seq<(Word, seq<Byte>)>): (log: seq<Raw>)
    ensures |log| == |attrs| && forall i | 0 <= i < |attrs| :: log[i] == Raw(Clear(attrs[i].0), attrs[i].1)
  {
    seq(|attrs|, i requires 0 <= i < |attrs| => Raw(Clear(attrs[i].0), attrs[i].1))
  }

  lemma RawPrefix(a: seq<Raw>, b: seq<Raw>)
    requires AreRaw(a + b)
    ensures AreRaw(a) && AreRaw(b)
  {
    hide IsRaw;
    assert forall i | 0 <= i < |a| :: a[i] == (a + b)[i];
    assert forall i | 0 <= i < |b| :: b[i] == (a + b)[|a| + i];
  }

  lemma {:induction false} SummaryAppend(c: Contents, a: seq<Raw>, b: seq<Raw>)
    requires AreRaw(a) && AreRaw(b)
    ensures AreRaw(a + b) && Summary(c, a + b) == Summary(Summary(c, a), b)
    decreases |a|
  {
    hide Decode, DSize, Valid, Gather, Class, IsCrc;
    if a == [] {
      assert a + b == b;
    } else {
      assert (a + b)[1..] == a[1..] + b;
      SummaryAppend(Gather(c, a[0].word, a[0].data), a[1..], b);
    }
  }
}
