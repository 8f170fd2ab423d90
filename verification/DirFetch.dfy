/** Fetching a metadata pair: which block wins, what its scan recovers, and why torn commits vanish. */
module DirFetch {
  import opened Words
  import opened Tags
  import opened TagWords
  import opened DirBlock
  import Crc

  // ---- what a scan of whole commits finds ----

  lemma ChecksumAddsNothing(c: Contents, w: Word, data: seq<Byte>)
    requires IsCrc(w)
    ensures Gather(c, w, data) == c
  {
    hide Decode;
  }

  /** A scan over a log gets to the end of its bytes and gathers what the log says. */
  lemma {:induction false} RunReaches(c: Cursor, log: seq<Raw>)
    requires AreRaw(log)
    ensures var c' := Run(c, log);
            && c'.off == c.off + |Encode(c.ptag, log)| && c'.ptag == Last(c.ptag, log)
            && c'.temp == Summary(c.temp, log) && c'.found.erased == c.found.erased
    ensures log != [] && Closed(log) ==>
              Run(c, log).found == Found(c.off + |Encode(c.ptag, log)|, Last(c.ptag, log),
                                         Summary(c.temp, log), c.found.erased)
    decreases |log|
  {
    hide Decode, DSize, Valid, Xor, Be, Flip, Gather, Class, OddChunk;
    if log != [] {
      var e := log[0];
      var c' := RunEntry(c, e);
      RunReaches(c', log[1..]);
      if IsCrc(e.word) {
        ChecksumAddsNothing(c.temp, e.word, e.data);
      }
      assert |log| > 1 ==> log[1..][|log| - 2] == log[|log| - 1];
    }
  }

  /** A block that holds whole commits after its revision count, with an invalid tag or the end of the
      block behind them, is fetched as exactly those commits. */
  lemma FetchRecovers(block: seq<Byte>, unit: nat, log: seq<Raw>)
    requires unit > 0 && |block| >= 4 && log != [] && Sealed(log, ALL_BITS, Crc.Crc(ALL_BITS, block[..4]))
    requires Reads(block, 4, ALL_BITS, log)
    requires var end := 4 + |Encode(ALL_BITS, log)|;
             end + 4 <= |block| ==> !Valid(TagAt(block, end, Last(ALL_BITS, log)))
    ensures var end := 4 + |Encode(ALL_BITS, log)|;
            Scan(block, unit, DirBlock.Start(block))
            == Found(end, Last(ALL_BITS, log), Summary(EMPTY, log), end + 4 <= |block| && end % unit == 0)
    ensures ReportsTail(log, Scan(block, unit, DirBlock.Start(block)).contents)
  {
    hide ReportsTail, Decode, DSize, Valid, Xor, Be, Crc.Crc, Sums, IsRaw, TagAt, Encode, Run;
    var c := DirBlock.Start(block);
    ScanReads(block, unit, c, log);
    RunReaches(c, log);
    LastOfClosed(ALL_BITS, log);
    SummaryReports(log);
  }

  lemma {:induction false} LastOfClosed(ptag: Word, log: seq<Raw>)
    requires log != [] && Closed(log)
    ensures IsCrc(Last(ptag, log))
    decreases |log|
  {
    hide Decode, Flip, Class, OddChunk;
    var w := log[0].word;
    if |log| == 1 {
      assert log[1..] == [];
      NextKeepsClass(w);
    } else {
      assert log[1..][|log| - 2] == log[|log| - 1];
      LastOfClosed(Next(w), log[1..]);
    }
  }

  lemma NextKeepsClass(w: Word)
    ensures IsCrc(Next(w)) == IsCrc(w)
  {
    hide Decode, Flip;
    FlipOnlyFlips(w);
  }

  // ---- torn commits ----

  /** The scan after k tags that are not checksums; it stays where it has to stop. */
  function Walk(block: seq<Byte>, unit: nat, c: Cursor, k: nat): Cursor
    requires unit > 0
    decreases k
  {
    if k == 0 then c
    else
      match LookAt(block, unit, c)
      case Pass(w) => Walk(block, unit, Passed(block, c, w), k - 1)
      case _ => c
  }

  /** After k tags the scan meets a checksum that matches the bytes before it. */
  predicate SealsAfter(block: seq<Byte>, unit: nat, c: Cursor, k: nat)
    requires unit > 0
  {
    LookAt(block, unit, Walk(block, unit, c, k)).Seal?
  }

  predicate SameCommit(f: Found, g: Found) {
    f.off == g.off && f.etag == g.etag && f.contents == g.contents
  }

  lemma {:induction false} ScanGoesForward(block: seq<Byte>, unit: nat, c: Cursor)
    requires unit > 0 && c.found.off <= c.off
    ensures Scan(block, unit, c).off >= c.found.off
    decreases |block| - c.off
  {
    hide Decode, DSize, Valid, Gather, LookAt;
    match LookAt(block, unit, c)
    case Stop(_) =>
    case Seal(w) => ScanGoesForward(block, unit, Accepted(c, w));
    case Pass(w) => ScanGoesForward(block, unit, Passed(block, c, w));
  }

  /** Whatever follows the last whole commit is ignored exactly when no checksum in it matches: then the
      fetch finds that commit, and otherwise it finds a later one. */
  lemma {:induction false} TornCommitVanishes(block: seq<Byte>, unit: nat, c: Cursor)
    requires unit > 0 && c.found.off <= c.off
    ensures SameCommit(Scan(block, unit, c), c.found) <==> forall k: nat :: !SealsAfter(block, unit, c, k)
    ensures !SameCommit(Scan(block, unit, c), c.found) ==> Scan(block, unit, c).off > c.found.off
    decreases |block| - c.off
  {
    hide Decode, DSize, Valid, Gather, LookAt;
    match LookAt(block, unit, c)
    case Stop(_) =>
      forall k: nat ensures !SealsAfter(block, unit, c, k) {
        assert Walk(block, unit, c, k) == c;
      }
    case Seal(w) =>
      ScanGoesForward(block, unit, Accepted(c, w));
      assert Walk(block, unit, c, 0) == c;
      assert SealsAfter(block, unit, c, 0);
    case Pass(w) =>
      var c' := Passed(block, c, w);
      TornCommitVanishes(block, unit, c');
      forall k: nat ensures SealsAfter(block, unit, c, k + 1) == SealsAfter(block, unit, c', k) {
      }
      forall k: nat ensures SealsAfter(block, unit, c, k) ==> k > 0 && SealsAfter(block, unit, c', k - 1) {
        assert k == 0 ==> Walk(block, unit, c, k) == c;
      }
  }

  /** A commit appended behind whole commits is there or not: the fetch finds the whole commits before it
      exactly as long as no checksum behind them matches, and a later commit otherwise. */
  lemma AppendIsAtomic(block: seq<Byte>, unit: nat, log: seq<Raw>)
    requires unit > 0 && |block| >= 4 && log != [] && Sealed(log, ALL_BITS, Crc.Crc(ALL_BITS, block[..4]))
    requires Reads(block, 4, ALL_BITS, log)
    ensures var c := Run(DirBlock.Start(block), log);
            var found := Scan(block, unit, DirBlock.Start(block));
            && c.found == Found(4 + |Encode(ALL_BITS, log)|, Last(ALL_BITS, log), Summary(EMPTY, log), false)
            && (SameCommit(found, c.found) <==> forall k: nat :: !SealsAfter(block, unit, c, k))
            && (!SameCommit(found, c.found) ==> found.off > c.found.off)
  {
    hide Decode, DSize, Valid, Xor, Be, Crc.Crc, Sums, IsRaw, Encode, Run, SealsAfter, SameCommit, Scan;
    ScanReads(block, unit, DirBlock.Start(block), log);
    RunReaches(DirBlock.Start(block), log);
    TornCommitVanishes(block, unit, Run(DirBlock.Start(block), log));
  }

  lemma StopsAt(block: seq<Byte>, unit: nat, c: Cursor)
    requires unit > 0 && (c.off + 4 <= |block| ==> !Valid(TagAt(block, c.off, c.ptag)))
    ensures SameCommit(Scan(block, unit, c), c.found)
  {
    hide Decode, DSize, Valid, TagAt, IsCrc;
  }

  /** A commit cut off between two tags, with an invalid tag behind the cut, needs no checksum to be
      ignored. */
  lemma CutBetweenTags(block: seq<Byte>, unit: nat, log: seq<Raw>, part: seq<Raw>)
    requires unit > 0 && |block| >= 4 && log != [] && Sealed(log, ALL_BITS, Crc.Crc(ALL_BITS, block[..4]))
    requires AreRaw(part) && (forall i | 0 <= i < |part| :: !IsCrc(part[i].word))
    requires Reads(block, 4, ALL_BITS, log + part)
    requires var end := 4 + |Encode(ALL_BITS, log + part)|;
             end + 4 <= |block| ==> !Valid(TagAt(block, end, Last(ALL_BITS, log + part)))
    ensures SameCommit(Scan(block, unit, DirBlock.Start(block)),
                       Found(4 + |Encode(ALL_BITS, log)|, Last(ALL_BITS, log), Summary(EMPTY, log), false))
  {
    hide Decode, DSize, Valid, Xor, Be, Crc.Crc, Sums, IsRaw, Encode, Run, TagAt, Last, Summary, Closed, Scan,
         LookAt, SameCommit,
         Reads;
    var c := DirBlock.Start(block);
    EncodeAppend(ALL_BITS, log, part);
    LastAppend(ALL_BITS, log, part);
    PrefixReads(block, log, part);
    ScanReads(block, unit, c, log);
    RunReaches(c, log);
    var c' := Run(c, log);
    RunOpen(c', part);
    ScanReads(block, unit, c', part);
    RunReaches(c', part);
    StopsAt(block, unit, Run(c', part));
  }

  lemma PrefixReads(block: seq<Byte>, log: seq<Raw>, part: seq<Raw>)
    requires |block| >= 4 && Reads(block, 4, ALL_BITS, log + part)
    ensures Reads(block, 4, ALL_BITS, log)
    ensures 4 + |Encode(ALL_BITS, log)| <= |block|
    ensures Reads(block, 4 + |Encode(ALL_BITS, log)|, Last(ALL_BITS, log), part)
  {
    hide Encode, Last;
    EncodeAppend(ALL_BITS, log, part);
    var a, b := Encode(ALL_BITS, log), Encode(Last(ALL_BITS, log), part);
    assert block[4..][..|a|] == a;
    assert block[4 + |a|..][..|b|] == block[4..][..|a| + |b|][|a|..] == b;
  }

  /** Entries that are no checksums make no commit, and no checksum to check. */
  lemma {:induction false} RunOpen(c: Cursor, part: seq<Raw>)
    requires AreRaw(part) && forall i | 0 <= i < |part| :: !IsCrc(part[i].word)
    ensures Sums(part, c.ptag, c.crc) && Run(c, part).found == c.found
    decreases |part|
  {
    hide Decode, DSize, Valid, Xor, Be, Crc.Crc, IsCrc, Gather, Class, FromLe, OddChunk, Flip;
    if part != [] {
      var e := part[0];
      Crc.CrcAppend(c.crc, Be(Xor(e.word, c.ptag)), e.data);
      RunOpen(RunEntry(c, e), part[1..]);
    }
  }

  // ---- commits cut off anywhere ----

  /** Everything from an offset on is erased. */
  predicate ErasedFrom(block: seq<Byte>, off: nat) {
    forall i | off <= i < |block| :: block[i] == 0xff
  }

  /** A block goes on with the first k bytes of what was to be written, and is erased behind them. */
  predicate CutAt(block: seq<Byte>, off: nat, bytes: seq<Byte>, k: nat) {
    k <= |bytes| && off + k <= |block| && block[off..off + k] == bytes[..k] && ErasedFrom(block, off + k)
  }

  lemma ErasedWord(block: seq<Byte>, off: nat)
    requires off + 4 <= |block| && ErasedFrom(block, off)
    ensures FromBe(block[off..off + 4]) == ALL_BITS
  {
    assert block[off..off + 4] == [0xff, 0xff, 0xff, 0xff];
  }

  /** Erased bytes behind a valid tag read as an invalid one. */
  lemma ErasedStops(block: seq<Byte>, unit: nat, c: Cursor)
    requires unit > 0 && ErasedFrom(block, c.off) && Valid(c.ptag)
    ensures SameCommit(Scan(block, unit, c), c.found)
    ensures Scan(block, unit, c).erased == (c.off + 4 <= |block| && IsCrc(c.ptag) && c.found.off % unit == 0)
  {
    hide IsCrc, Valid, FromBe, Xor, ErasedFrom, SameCommit, Scan;
    if c.off + 4 <= |block| {
      ErasedWord(block, c.off);
      XorValid(ALL_BITS, c.ptag);
      AllBits();
    }
    StopsAt(block, unit, c);
    StopsErased(block, unit, c);
  }

  lemma StopsErased(block: seq<Byte>, unit: nat, c: Cursor)
    requires unit > 0 && (c.off + 4 <= |block| ==> !Valid(TagAt(block, c.off, c.ptag)))
    ensures Scan(block, unit, c).erased == (c.off + 4 <= |block| && IsCrc(c.ptag) && c.found.off % unit == 0)
  {
    hide Decode, DSize, Valid, TagAt, IsCrc;
  }

  /** The first byte of a tag holds its valid bit and its class. */
  lemma FirstByte(w: Word, ptag: Word, s: seq<Byte>)
    requires |s| == 4 && s[0] == Be(Xor(w, ptag))[0]
    ensures var read := Xor(FromBe(s), ptag);
            Valid(read) == Valid(w) && ClassBits(read) == ClassBits(w)
  {
  }

  function ClassBits(w: Word): bv11 {
    TypeField(w) & 0x700
  }

  lemma ClassOfBits(a: Word, b: Word)
    requires ClassBits(a) == ClassBits(b)
    ensures Class(a) == Class(b)
  {
    hide TypeField, IdField, SizeField;
    HighBits(TypeField(a));
    HighBits(TypeField(b));
  }

  lemma HighBits(t: bv11)
    ensures t as int < 0x800 && (t & 0x700) as int == Type1(t as int)
  {
  }

  lemma FirstByteSays(w: Word, ptag: Word, s: seq<Byte>)
    requires |s| == 4 && s[0] == Be(Xor(w, ptag))[0]
    ensures var read := Xor(FromBe(s), ptag); Valid(read) == Valid(w) && IsCrc(read) == IsCrc(w)
  {
    hide Valid, ClassBits, Class, Be, FromBe, Xor;
    FirstByte(w, ptag, s);
    ClassOfBits(Xor(FromBe(s), ptag), w);
  }

  /** What the scan reads where a tag was cut: at least the first byte is there. */
  lemma CutTag(block: seq<Byte>, c: Cursor, e: Raw, rest: seq<Byte>, k: nat)
    requires IsRaw(e) && 0 < k && CutAt(block, c.off, Be(Xor(e.word, c.ptag)) + e.data + rest, k)
    ensures c.off + 4 <= |block| ==>
              && IsCrc(TagAt(block, c.off, c.ptag)) == IsCrc(e.word) && Valid(TagAt(block, c.off, c.ptag))
              && (k >= 4 ==> TagAt(block, c.off, c.ptag) == e.word)
  {
    hide Valid, Class, Be, FromBe, Xor, DSize, IsCrc;
    if c.off + 4 <= |block| {
      var bytes := Be(Xor(e.word, c.ptag)) + e.data + rest;
      var s := block[c.off..c.off + 4];
      assert s[0] == block[c.off..c.off + k][0] == bytes[..k][0] == Be(Xor(e.word, c.ptag))[0];
      FirstByteSays(e.word, c.ptag, s);
      RawSize(e);
      if k >= 4 {
        assert s == block[c.off..c.off + k][..4] == bytes[..k][..4] == Be(Xor(e.word, c.ptag));
        TagIsRead(block, c.off, c.ptag, e.word);
      }
    }
  }

  /** A tag, or its data, cut off: the scan takes in what is there and stops behind it. */
  lemma CutEntry(block: seq<Byte>, unit: nat, c: Cursor, e: Raw, rest: seq<Byte>, k: nat)
    requires unit > 0 && IsRaw(e) && !IsCrc(e.word) && 0 < k < 4 + |e.data|
    requires CutAt(block, c.off, Be(Xor(e.word, c.ptag)) + e.data + rest, k)
    ensures SameCommit(Scan(block, unit, c), c.found) && !Scan(block, unit, c).erased
  {
    hide Valid, Class, Be, FromBe, Xor, DSize, IsCrc, TagAt, Gather, Crc.Crc, IsRaw, FromLe;
    CutTag(block, c, e, rest, k);
    match LookAt(block, unit, c)
    case Stop(_) =>
    case Seal(_) =>
    case Pass(w) =>
      RawSize(e);
      ErasedStops(block, unit, Passed(block, c, w));
      PassedTag(block, unit, c, w);
  }

  lemma PassedTag(block: seq<Byte>, unit: nat, c: Cursor, w: Word)
    requires unit > 0 && LookAt(block, unit, c) == Pass(w)
    ensures !IsCrc(w)
  {
    hide Valid, DSize, IsCrc, TagAt, Crc.Crc, FromLe, Class;
  }

  lemma RawSize(e: Raw)
    requires IsRaw(e)
    ensures DSize(e.word) == 4 + |e.data| && Valid(e.word) && (IsCrc(e.word) ==> |e.data| >= 4)
  {
    hide DSize, Valid;
  }

  /** A commit of which any number of bytes before its checksum have been written, over erased bytes, is
      not there: cut between tags, inside a tag or inside data. No checksum is needed for that. */
  lemma {:induction false} CutScan(block: seq<Byte>, unit: nat, c: Cursor, part: seq<Raw>, k: nat)
    requires unit > 0 && AreRaw(part) && (forall i | 0 <= i < |part| :: !IsCrc(part[i].word)) && Valid(c.ptag)
    requires CutAt(block, c.off, Encode(c.ptag, part), k)
    ensures SameCommit(Scan(block, unit, c), c.found)
    ensures Scan(block, unit, c).erased
         == (k == 0 && c.off + 4 <= |block| && IsCrc(c.ptag) && c.found.off % unit == 0)
    decreases |part|
  {
    hide Valid, Class, Be, FromBe, Xor, DSize, IsCrc, TagAt, Gather, Crc.Crc, IsRaw, FromLe, SameCommit, Scan, LookAt;
    if k == 0 {
      ErasedStops(block, unit, c);
    } else {
      var e, rest := part[0], Encode(Next(part[0].word), part[1..]);
      var n := 4 + |e.data|;
      if k < n {
        CutEntry(block, unit, c, e, rest, k);
      } else {
        WholeEntry(block, unit, c, e, rest, k);
        CutScan(block, unit, RunEntry(c, e), part[1..], k - n);
        SameAgain(block, unit, c, RunEntry(c, e));
      }
    }
  }

  lemma SameAgain(block: seq<Byte>, unit: nat, c: Cursor, c': Cursor)
    requires unit > 0 && Scan(block, unit, c) == Scan(block, unit, c') && c'.found == c.found
    requires SameCommit(Scan(block, unit, c'), c'.found)
    ensures SameCommit(Scan(block, unit, c), c.found)
  {
  }

  /** An entry that is there in whole is passed. */
  lemma WholeEntry(block: seq<Byte>, unit: nat, c: Cursor, e: Raw, rest: seq<Byte>, k: nat)
    requires unit > 0 && IsRaw(e) && !IsCrc(e.word) && 4 + |e.data| <= k
    requires CutAt(block, c.off, Be(Xor(e.word, c.ptag)) + e.data + rest, k)
    ensures var c' := RunEntry(c, e);
            && Scan(block, unit, c) == Scan(block, unit, c') && c'.found == c.found && Valid(c'.ptag)
            && c'.ptag == Next(e.word) && !IsCrc(c'.ptag) && c'.off == c.off + 4 + |e.data|
            && CutAt(block, c'.off, rest, k - (4 + |e.data|))
  {
    hide Valid, Class, Be, FromBe, Xor, DSize, IsCrc, Gather, Crc.Crc, IsRaw, FromLe, Sums, LookAt, Encode;
    RawSize(e);
    assert [e][1..] == [];
    RunOpen(c, [e]);
    CutReads(block, c, e, rest, k);
    OneEntry(block, unit, c, [e]);
  }

  lemma CutReads(block: seq<Byte>, c: Cursor, e: Raw, rest: seq<Byte>, k: nat)
    requires 4 + |e.data| <= k && CutAt(block, c.off, Be(Xor(e.word, c.ptag)) + e.data + rest, k)
    ensures Reads(block, c.off, c.ptag, [e]) && CutAt(block, c.off + 4 + |e.data|, rest, k - (4 + |e.data|))
  {
    hide Be, Xor, Next;
    var bytes, n := Be(Xor(e.word, c.ptag)) + e.data, 4 + |e.data|;
    assert [e][1..] == [];
    assert Encode(c.ptag, [e]) == bytes;
    assert block[c.off..][..n] == block[c.off..c.off + k][..n] == (bytes + rest)[..k][..n] == bytes;
    assert block[c.off + n..c.off + k] == block[c.off..c.off + k][n..] == (bytes + rest)[..k][n..] == rest[..k - n];
  }

  /** A commit behind whole commits, cut off after any number of bytes before its checksum, is not there;
      the rest of the block counts as erased only if none of it has been written. */
  lemma CutAnywhere(block: seq<Byte>, unit: nat, log: seq<Raw>, part: seq<Raw>, k: nat)
    requires unit > 0 && |block| >= 4 && log != [] && Sealed(log, ALL_BITS, Crc.Crc(ALL_BITS, block[..4]))
    requires Reads(block, 4, ALL_BITS, log) && Valid(Last(ALL_BITS, log))
    requires AreRaw(part) && (forall i | 0 <= i < |part| :: !IsCrc(part[i].word))
    requires CutAt(block, 4 + |Encode(ALL_BITS, log)|, Encode(Last(ALL_BITS, log), part), k)
    ensures SameCommit(Scan(block, unit, DirBlock.Start(block)),
                       Found(4 + |Encode(ALL_BITS, log)|, Last(ALL_BITS, log), Summary(EMPTY, log), false))
    ensures var end := 4 + |Encode(ALL_BITS, log)|;
            Scan(block, unit, DirBlock.Start(block)).erased == (k == 0 && end + 4 <= |block| && end % unit == 0)
  {
    hide Decode, DSize, Valid, Xor, Be, Crc.Crc, Sums, IsRaw, Encode, Run, Scan, SameCommit, Last, CutAt, IsCrc;
    LastOfClosed(ALL_BITS, log);
    var c := DirBlock.Start(block);
    ScanReads(block, unit, c, log);
    RunReaches(c, log);
    CutScan(block, unit, Run(c, log), part, k);
  }

  /** Cut off in its first checksum, behind a whole part: the commit is ignored unless what reads as the
      checksum matches. With the tag whole that means that the bytes not written are erased bytes
      anyway; with the tag cut, that the checksum comes to what erased bytes read as. */
  lemma CutInChecksum(block: seq<Byte>, unit: nat, c: Cursor, e: Raw, k: nat)
    requires unit > 0 && IsRaw(e) && IsCrc(e.word) && 0 < k < 8 && c.off + DSize(e.word) <= |block|
    requires FromLe(e.data[..4]) == Crc.Crc(c.crc, Be(Xor(e.word, c.ptag)))
    requires CutAt(block, c.off, Be(Xor(e.word, c.ptag)) + e.data, k) && c.found.off <= c.off
    ensures SameCommit(Scan(block, unit, c), c.found) <==> !LookAt(block, unit, c).Seal?
    ensures !LookAt(block, unit, c).Seal? ==> !Scan(block, unit, c).erased
    ensures k >= 4 ==> (LookAt(block, unit, c).Seal? <==> block[c.off + 4..c.off + 8] == e.data[..4])
    ensures k < 4 && LookAt(block, unit, c).Seal? ==> Crc.Crc(c.crc, block[c.off..c.off + 4]) == ALL_BITS
  {
    hide Valid, Class, Be, FromBe, Xor, DSize, IsCrc, TagAt, Gather, Crc.Crc, IsRaw, FromLe;
    CutTag(block, c, e, [], k);
    assert Be(Xor(e.word, c.ptag)) + e.data + [] == Be(Xor(e.word, c.ptag)) + e.data;
    RawSize(e);
    match LookAt(block, unit, c) {
      case Stop(_) =>
      case Seal(w) => ScanGoesForward(block, unit, Accepted(c, w));
      case Pass(w) =>
    }
    if k >= 4 {
      WholeTag(block, c, e, k);
      SameWord(block[c.off + 4..c.off + 8], e.data[..4]);
    } else {
      ErasedChecksum(block, c.off + 4);
    }
  }

  lemma WholeTag(block: seq<Byte>, c: Cursor, e: Raw, k: nat)
    requires 4 <= k && CutAt(block, c.off, Be(Xor(e.word, c.ptag)) + e.data, k)
    ensures block[c.off..c.off + 4] == Be(Xor(e.word, c.ptag))
  {
    hide Be, Xor;
    var bytes := Be(Xor(e.word, c.ptag)) + e.data;
    assert block[c.off..c.off + 4] == block[c.off..c.off + k][..4] == bytes[..k][..4];
  }

  lemma ErasedChecksum(block: seq<Byte>, off: nat)
    requires off + 4 <= |block| && ErasedFrom(block, off)
    ensures FromLe(block[off..off + 4]) == ALL_BITS
  {
    assert block[off..off + 4] == [0xff, 0xff, 0xff, 0xff];
  }

  lemma SameWord(a: seq<Byte>, b: seq<Byte>)
    requires |a| == 4 && |b| == 4
    ensures FromLe(a) == FromLe(b) <==> a == b
  {
    hide Le, FromLe;
    BytesAgain(a);
    BytesAgain(b);
  }

  lemma BytesAgain(a: seq<Byte>)
    requires |a| == 4
    ensures Le(FromLe(a)) == a
  {
    var b := Le(FromLe(a));
    assert b[0] == a[0] && b[1] == a[1] && b[2] == a[2] && b[3] == a[3];
  }

  // ---- the scan as a loop ----

  /** The checksum of the data behind a tag, byte by byte. */
  method CrcData(block: seq<Byte>, crc: Word, off: nat, size: nat) returns (r: Word)
    requires off + size <= |block|
    ensures r == Crc.Crc(crc, block[off..off + size])
  {
    hide Crc.Feed;
    r := crc;
    assert block[off..off] == [];
    for j := 0 to size
      invariant r == Crc.Crc(crc, block[off..off + j])
    {
      Crc.CrcAppend(crc, block[off..off + j], [block[off + j]]);
      assert block[off..off + j] + [block[off + j]] == block[off..off + (j + 1)];
      r := Crc.LfsCrc(r, [block[off + j]]);
    }
  }

  /** Reads the tag at a position and decides what the scan does with it. */
  method Examine(block: seq<Byte>, unit: nat, c: Cursor) returns (l: Look, crc: Word)
    requires unit > 0
    ensures l == LookAt(block, unit, c)
    ensures !l.Stop? ==> crc == Crc.Crc(c.crc, block[c.off..c.off + 4])
  {
    hide Decode, DSize, Valid, Xor, FromBe, FromLe, Class, IsCrc, Crc.Crc;
    crc := c.crc;
    if c.off + 4 > |block| {
      return Stop(false), crc;
    }
    crc := Crc.LfsCrc(crc, block[c.off..c.off + 4]);
    var tag := Xor(FromBe(block[c.off..c.off + 4]), c.ptag);
    if !Valid(tag) {
      return Stop(IsCrc(c.ptag) && c.found.off % unit == 0), crc;
    } else if c.off + DSize(tag) > |block| {
      return Stop(false), crc;
    }
    if IsCrc(tag) {
      if c.off + 8 > |block| {
        return Stop(false), crc;
      }
      if crc != FromLe(block[c.off + 4..c.off + 8]) {
        return Stop(false), crc;
      }
      return Seal(tag), crc;
    }
    if Class(tag) == TAIL && c.off + 12 > |block| {
      return Stop(false), crc;
    }
    l := Pass(tag);
  }

  method ScanBlock(block: seq<Byte>, unit: nat) returns (found: Found)
    requires unit > 0 && |block| >= 4
    ensures found == Scan(block, unit, DirBlock.Start(block))
  {
    hide Decode, DSize, Valid, Gather, Class, IsCrc, OddChunk, Flip, Crc.Crc, LookAt;
    var crc := Crc.LfsCrc(ALL_BITS, block[..4]);
    var c := Cursor(4, ALL_BITS, crc, EMPTY, Found(0, 0, EMPTY, false));
    while true
      invariant Scan(block, unit, DirBlock.Start(block)) == Scan(block, unit, c)
      decreases |block| - c.off
    {
      var look;
      look, crc := Examine(block, unit, c);
      match look {
        case Stop(erased) =>
          return c.found.(erased := erased);
        case Seal(tag) =>
          // the next valid bit is inverted if the tag says so, and the checksum starts again
          var ptag := if OddChunk(tag) then Flip(tag) else tag;
          var next := c.off + DSize(tag);
          SealedTag(block, unit, c, tag);
          c := Cursor(next, ptag, ALL_BITS, c.temp, Found(next, ptag, c.temp, c.found.erased));
        case Pass(tag) =>
          var next := c.off + DSize(tag);
          crc := CrcData(block, crc, c.off + 4, DSize(tag) - 4);
          EntryCrc(block, c, tag);
          c := Cursor(next, tag, crc, Gather(c.temp, tag, block[c.off + 4..]), c.found);
      }
    }
  }

  lemma SealedTag(block: seq<Byte>, unit: nat, c: Cursor, tag: Word)
    requires unit > 0 && LookAt(block, unit, c) == Seal(tag)
    ensures IsCrc(tag)
  {
    hide Decode, DSize, Valid, Class, Crc.Crc;
  }

  lemma EntryCrc(block: seq<Byte>, c: Cursor, tag: Word)
    requires c.off + DSize(tag) <= |block|
    ensures Crc.Crc(Crc.Crc(c.crc, block[c.off..c.off + 4]), block[c.off + 4..c.off + DSize(tag)])
         == Crc.Crc(c.crc, block[c.off..c.off + DSize(tag)])
  {
    hide Decode, DSize, Crc.Feed;
    Crc.CrcAppend(c.crc, block[c.off..c.off + 4], block[c.off + 4..c.off + DSize(tag)]);
    assert block[c.off..c.off + 4] + block[c.off + 4..c.off + DSize(tag)] == block[c.off..c.off + DSize(tag)];
  }

  // ---- the two blocks of a pair ----

  /** Revision counts compare by their distance, whatever wraps around. */
  predicate Newer(a: Word, b: Word) {
    a - b != 0 && (a - b) & 0x8000_0000 == 0
  }

  /** One revision count is newer than another if it comes less than half the range after it. */
  lemma NewerIsAhead(rev: Word, ahead: Word)
    ensures Newer(rev + ahead, rev) <==> 0 < ahead < 0x8000_0000
  {
  }

  lemma NextRevisionIsNewer(rev: Word)
    ensures Newer(rev + 1, rev) && !Newer(rev, rev + 1)
  {
  }

  datatype Fetched = Corrupt | Dir(first: nat, second: nat, rev: Word, found: Found)

  function Revision(block: seq<Byte>): Word
    requires |block| >= 4
  {
    FromLe(block[..4])
  }

  predicate AreBlocks(blocks: seq<seq<Byte>>) {
    forall b | 0 <= b < |blocks| :: |blocks[b]| >= 4
  }

  /** Fetching a pair: the block with the newer revision, or the other one if that holds no commit. */
  method Fetch(blocks: seq<seq<Byte>>, unit: nat, pair: (nat, nat)) returns (dir: Fetched)
    requires unit > 0 && AreBlocks(blocks)
    ensures dir == FetchOf(blocks, unit, pair)
  {
    hide Scan, Revision, Newer;
    if pair.0 >= |blocks| || pair.1 >= |blocks| {
      return Corrupt;
    }
    var revs := [Revision(blocks[pair.0]), Revision(blocks[pair.1])];
    var r := 0;
    if Newer(revs[0], 0) {
      r := 0;
    }
    if Newer(revs[1], revs[0]) {
      r := 1;
    }
    var first, second := if r == 0 then pair.0 else pair.1, if r == 0 then pair.1 else pair.0;
    var rev := revs[r];
    var found := ScanBlock(blocks[first], unit);
    if found.off > 0 {
      return Dir(first, second, rev, found);
    }
    first, second, rev := second, first, revs[1 - r];
    found := ScanBlock(blocks[first], unit);
    dir := if found.off > 0 then Dir(first, second, rev, found) else Corrupt;
  }

  function Recovered(block: seq<Byte>, unit: nat): Found
    requires unit > 0 && |block| >= 4
  {
    Scan(block, unit, DirBlock.Start(block))
  }

  function FetchOf(blocks: seq<seq<Byte>>, unit: nat, pair: (nat, nat)): Fetched
    requires unit > 0 && AreBlocks(blocks)
  {
    if pair.0 >= |blocks| || pair.1 >= |blocks| then Corrupt
    else
      var (x, y) := if Newer(Revision(blocks[pair.1]), Revision(blocks[pair.0])) then (pair.1, pair.0) else pair;
      if Recovered(blocks[x], unit).off > 0 then Dir(x, y, Revision(blocks[x]), Recovered(blocks[x], unit))
      else if Recovered(blocks[y], unit).off > 0 then Dir(y, x, Revision(blocks[y]), Recovered(blocks[y], unit))
      else Corrupt
  }

  /** While one block of a pair is rewritten, the other block answers: a rewrite of which no checksum
      matches yet, whatever its revision count reads as, leaves the old directory, and once its first
      commit is whole under the next revision count it is the new one. */
  lemma RewriteIsAtomic(blocks: seq<seq<Byte>>, unit: nat, was: nat, now: nat, pair: (nat, nat))
    requires unit > 0 && AreBlocks(blocks) && pair in {(was, now), (now, was)} && was < |blocks| && now < |blocks|
    requires Recovered(blocks[was], unit).off > 0
    ensures (forall k: nat :: !SealsAfter(blocks[now], unit, DirBlock.Start(blocks[now]), k)) ==>
              FetchOf(blocks, unit, pair) == Dir(was, now, Revision(blocks[was]), Recovered(blocks[was], unit))
    ensures !(forall k: nat :: !SealsAfter(blocks[now], unit, DirBlock.Start(blocks[now]), k))
            && Revision(blocks[now]) == Revision(blocks[was]) + 1 ==>
              FetchOf(blocks, unit, pair) == Dir(now, was, Revision(blocks[now]), Recovered(blocks[now], unit))
  {
    hide Scan, Revision, Newer;
    TornCommitVanishes(blocks[now], unit, DirBlock.Start(blocks[now]));
    NextRevisionIsNewer(Revision(blocks[was]));
  }
}
