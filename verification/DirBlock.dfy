/** The bytes of a metadata block: tags XORed with their predecessors, checksums that seal commits, and
    the scan that finds the last commit that is whole. */
module DirBlock {
  import opened Words
  import opened Tags
  import opened TagWords
  import Crc

  const NULL: Word := 0xffff_ffff

  // ---- the log as bytes ----

  /** A tag as it is read back, with the bytes stored behind it. */
  datatype Raw = Raw(word: Word, data: seq<Byte>)

  function Class(w: Word): Type3 {
    Type1(Decode(w).type3)
  }

  predicate IsCrc(w: Word) {
    Class(w) == CRC
  }

  /** An odd chunk: in a checksum it inverts the next valid bit, in a tail it says the tail is hard. */
  predicate OddChunk(w: Word) {
    Decode(w).type3 % 2 == 1
  }

  /** A raw entry as the writer makes them: sizes agree, checksums and tails have room for theirs. */
  predicate IsRaw(e: Raw) {
    && Valid(e.word) && 4 + |e.data| == DSize(e.word)
    && (IsCrc(e.word) ==> |e.data| >= 4) && (Class(e.word) == TAIL ==> |e.data| >= 8)
  }

  predicate AreRaw(log: seq<Raw>) {
    forall i | 0 <= i < |log| :: IsRaw(log[i])
  }

  /** The word the next tag is XORed with. */
  function Next(w: Word): Word {
    if IsCrc(w) && OddChunk(w) then Flip(w) else w
  }

  function Last(ptag: Word, log: seq<Raw>): Word
    decreases |log|
  {
    if log == [] then ptag else Last(Next(log[0].word), log[1..])
  }

  function Encode(ptag: Word, log: seq<Raw>): seq<Byte>
    decreases |log|
  {
    if log == [] then [] else Be(Xor(log[0].word, ptag)) + log[0].data + Encode(Next(log[0].word), log[1..])
  }

  lemma {:induction false} LastAppend(ptag: Word, a: seq<Raw>, b: seq<Raw>)
    ensures Last(ptag, a + b) == Last(Last(ptag, a), b)
    decreases |a|
  {
    hide Next;
    if a == [] {
      assert a + b == b;
    } else {
      assert (a + b)[1..] == a[1..] + b;
      LastAppend(Next(a[0].word), a[1..], b);
    }
  }

  lemma {:induction false} EncodeAppend(ptag: Word, a: seq<Raw>, b: seq<Raw>)
    ensures Encode(ptag, a + b) == Encode(ptag, a) + Encode(Last(ptag, a), b)
    decreases |a|
  {
    hide Next, Be, Xor;
    if a == [] {
      assert a + b == b;
    } else {
      assert (a + b)[1..] == a[1..] + b;
      EncodeAppend(Next(a[0].word), a[1..], b);
    }
  }

  lemma EncodeOne(ptag: Word, e: Raw)
    ensures Encode(ptag, [e]) == Be(Xor(e.word, ptag)) + e.data && Last(ptag, [e]) == Next(e.word)
  {
    hide Next, Be, Xor;
    assert [e][1..] == [];
  }

  // ---- sealed logs ----

  /** Every checksum in the log is the one of the bytes since the checksum before it. */
  predicate Sums(log: seq<Raw>, ptag: Word, crc: Word)
    requires AreRaw(log)
    decreases |log|
  {
    log == [] ||
    (var e := log[0];
     var crc' := Crc.Crc(crc, Be(Xor(e.word, ptag)));
     if IsCrc(e.word) then FromLe(e.data[..4]) == crc' && Sums(log[1..], Next(e.word), ALL_BITS)
     else Sums(log[1..], Next(e.word), Crc.Crc(crc', e.data)))
  }

  /** A log of whole commits. */
  predicate Closed(log: seq<Raw>) {
    log == [] || IsCrc(log[|log| - 1].word)
  }

  /** A log of whole commits with good checksums. */
  predicate Sealed(log: seq<Raw>, ptag: Word, crc: Word) {
    AreRaw(log) && Closed(log) && Sums(log, ptag, crc)
  }

  /** A log that can be read in a block from a position on. */
  predicate Reads(block: seq<Byte>, off: nat, ptag: Word, log: seq<Raw>) {
    off <= |block| && Encode(ptag, log) <= block[off..]
  }

  // ---- what a log says ----

  /** What the scan gathers: the number of entries, the next metadata pair and whether it belongs to
      the same directory. */
  datatype Contents = Contents(count: int, tail: (Word, Word), split: bool)

  const EMPTY: Contents := Contents(0, (NULL, NULL), false)

  function Pair(data: seq<Byte>): (Word, Word)
    requires |data| >= 8
  {
    (FromLe(data[..4]), FromLe(data[4..8]))
  }

  function Count(count: int, t: Tag): int {
    if Type1(t.type3) == NAME then (if t.id >= count then t.id + 1 else count)
    else if IsSplice(t) then count + Splice(t.type3)
    else count
  }

  /** What one tag adds; a tail pair is read from the bytes behind its tag. */
  function Gather(c: Contents, w: Word, data: seq<Byte>): Contents
    requires Class(w) == TAIL ==> |data| >= 8
  {
    var c' := c.(count := Count(c.count, Decode(w)));
    if Class(w) == TAIL then c'.(tail := Pair(data), split := OddChunk(w)) else c'
  }

  function Summary(c: Contents, log: seq<Raw>): Contents
    requires AreRaw(log)
    decreases |log|
  {
    hide Decode, DSize;
    if log == [] then c else Summary(Gather(c, log[0].word, log[0].data), log[1..])
  }

  /** A tag of type 0x600 to 0x6ff: the next metadata pair. */
  predicate IsTail(e: Raw) {
    0x600 <= Decode(e.word).type3 < 0x700
  }

  predicate NoTail(log: seq<Raw>, n: nat) {
    forall j | n <= j < |log| :: !IsTail(log[j])
  }

  /** The pair and the flag are those of the last tail: two little-endian addresses, and an odd type if
      the pair belongs to the same directory. */
  predicate TailIs(c: Contents, e: Raw) {
    && |e.data| >= 8 && c.tail == (FromLe(e.data[..4]), FromLe(e.data[4..8]))
    && c.split == (Decode(e.word).type3 % 2 == 1)
  }

  predicate ReportsTail(log: seq<Raw>, c: Contents) {
    && (forall i | 0 <= i < |log| && IsTail(log[i]) && NoTail(log, i + 1) :: TailIs(c, log[i]))
    && (NoTail(log, 0) ==> c.tail == (0xffff_ffff, 0xffff_ffff) && !c.split)
  }

  lemma TailClass(e: Raw)
    ensures IsTail(e) <==> Class(e.word) == TAIL
  {
    hide Decode;
  }

  /** What one tag says of the next pair. */
  lemma GatherTail(c: Contents, e: Raw)
    requires IsRaw(e)
    ensures var c' := Gather(c, e.word, e.data);
            if IsTail(e) then TailIs(c', e) else c'.tail == c.tail && c'.split == c.split
  {
    hide Decode, DSize, Valid, FromLe;
    TailClass(e);
  }

  lemma {:induction false} SummaryTail(c: Contents, log: seq<Raw>)
    requires AreRaw(log)
    ensures forall i | 0 <= i < |log| && IsTail(log[i]) && NoTail(log, i + 1) :: TailIs(Summary(c, log), log[i])
    ensures NoTail(log, 0) ==> Summary(c, log).tail == c.tail && Summary(c, log).split == c.split
    decreases |log|
  {
    hide Decode, DSize, Valid, Gather, IsTail, TailIs;
    if log != [] {
      var c' := Gather(c, log[0].word, log[0].data);
      GatherTail(c, log[0]);
      SummaryTail(c', log[1..]);
      RestTail(log);
      forall i | 0 <= i < |log| && IsTail(log[i]) && NoTail(log, i + 1) ensures TailIs(Summary(c, log), log[i]) {
        if i > 0 {
          assert log[1..][i - 1] == log[i];
          assert NoTail(log[1..], i);
        } else {
          SameTail(c', Summary(c', log[1..]), log[0]);
        }
      }
    }
  }

  lemma RestTail(log: seq<Raw>)
    requires log != []
    ensures NoTail(log, 0) ==> NoTail(log[1..], 0)
    ensures NoTail(log, 1) ==> NoTail(log[1..], 0)
    ensures forall i | 0 < i <= |log| :: NoTail(log, i) ==> NoTail(log[1..], i - 1)
  {
    hide IsTail;
  }

  lemma SameTail(a: Contents, b: Contents, e: Raw)
    requires TailIs(a, e) && a.tail == b.tail && a.split == b.split
    ensures TailIs(b, e)
  {
    hide Decode, FromLe;
  }

  /** So a log says what its last tail says, and without one that nothing follows. */
  lemma SummaryReports(log: seq<Raw>)
    requires AreRaw(log)
    ensures ReportsTail(log, Summary(EMPTY, log))
  {
    hide Decode, Summary, IsRaw, IsTail, TailIs;
    SummaryTail(EMPTY, log);
  }

  // ---- the scan ----

  /** What a fetch has found so far; no commit yet while `off` is 0. */
  datatype Found = Found(off: nat, etag: Word, contents: Contents, erased: bool)

  /** Where a scan is: the next tag, the word it is XORed with, the checksum since the last commit, what
      has been gathered, and what the last whole commit left. */
  datatype Cursor = Cursor(off: nat, ptag: Word, crc: Word, temp: Contents, found: Found)

  function Start(block: seq<Byte>): Cursor
    requires |block| >= 4
  {
    Cursor(4, ALL_BITS, Crc.Crc(ALL_BITS, block[..4]), EMPTY, Found(0, 0, EMPTY, false))
  }

  function TagAt(block: seq<Byte>, off: nat, ptag: Word): Word
    requires off + 4 <= |block|
  {
    Xor(FromBe(block[off..off + 4]), ptag)
  }

  /** What a scan does at a position: it stops, accepts a checksum, or takes in another tag. */
  datatype Look = Stop(erased: bool) | Seal(w: Word) | Pass(w: Word)

  /** The checksum and the tail pair are read whatever size their tags give. */
  function LookAt(block: seq<Byte>, unit: nat, c: Cursor): (l: Look)
    requires unit > 0
    ensures !l.Stop? ==> c.off + DSize(l.w) <= |block|
    ensures l.Pass? && Class(l.w) == TAIL ==> c.off + 12 <= |block|
  {
    if c.off + 4 > |block| then Stop(false)
    else
      var tag := TagAt(block, c.off, c.ptag);
      if !Valid(tag) then Stop(IsCrc(c.ptag) && c.found.off % unit == 0)
      else if c.off + DSize(tag) > |block| then Stop(false)
      else if IsCrc(tag) then
        if c.off + 8 <= |block| && FromLe(block[c.off + 4..c.off + 8]) == Crc.Crc(c.crc, block[c.off..c.off + 4])
        then Seal(tag) else Stop(false)
      else if Class(tag) == TAIL && c.off + 12 > |block| then Stop(false)
      else Pass(tag)
  }

  function Passed(block: seq<Byte>, c: Cursor, w: Word): Cursor
    requires c.off + DSize(w) <= |block| && (Class(w) == TAIL ==> c.off + 12 <= |block|)
  {
    var next := c.off + DSize(w);
    Cursor(next, w, Crc.Crc(c.crc, block[c.off..next]), Gather(c.temp, w, block[c.off + 4..]), c.found)
  }

  function Accepted(c: Cursor, w: Word): Cursor {
    var next := c.off + DSize(w);
    Cursor(next, Next(w), ALL_BITS, c.temp, Found(next, Next(w), c.temp, c.found.erased))
  }

  function Scan(block: seq<Byte>, unit: nat, c: Cursor): Found
    requires unit > 0
    decreases |block| - c.off
  {
    match LookAt(block, unit, c)
    case Stop(erased) => c.found.(erased := erased)
    case Seal(w) => Scan(block, unit, Accepted(c, w))
    case Pass(w) => Scan(block, unit, Passed(block, c, w))
  }

  // ---- logs that a scan reads ----

  /** A scan over one entry, and over a log, without the block. */
  function RunEntry(c: Cursor, e: Raw): Cursor
    requires IsRaw(e)
  {
    if IsCrc(e.word) then Accepted(c, e.word)
    else Cursor(c.off + DSize(e.word), e.word, Crc.Crc(c.crc, Be(Xor(e.word, c.ptag)) + e.data),
                Gather(c.temp, e.word, e.data), c.found)
  }

  function Run(c: Cursor, log: seq<Raw>): Cursor
    requires AreRaw(log)
    decreases |log|
  {
    if log == [] then c else Run(RunEntry(c, log[0]), log[1..])
  }

  lemma Slices(s: seq<Byte>, off: nat, a: seq<Byte>, b: seq<Byte>, c: seq<Byte>)
    requires off <= |s| && s[off..] == a + b + c
    ensures off + |a| + |b| <= |s|
    ensures s[off..off + |a|] == a && s[off + |a|..] == b + c
    ensures s[off..off + |a| + |b|] == a + b && s[off + |a| + |b|..] == c
  {
    assert |s[off..]| == |s| - off;
    assert s[off..off + |a|] == s[off..][..|a|] == a;
    assert s[off + |a|..] == s[off..][|a|..] == b + c;
    assert s[off..off + |a| + |b|] == s[off..][..|a| + |b|] == a + b;
    assert s[off + |a| + |b|..] == s[off..][|a| + |b|..] == c;
  }

  /** The tag of an entry is read back from its bytes. */
  lemma TagIsRead(block: seq<Byte>, off: nat, ptag: Word, w: Word)
    requires off + 4 <= |block| && block[off..off + 4] == Be(Xor(w, ptag))
    ensures TagAt(block, off, ptag) == w
  {
    hide Xor, Be, FromBe;
    RoundTrip(Xor(w, ptag));
    XorCancels(w, ptag);
  }

  lemma LogHead(log: seq<Raw>, ptag: Word, crc: Word, block: seq<Byte>, off: nat) returns (rest: seq<Byte>)
    requires AreRaw(log) && log != [] && Reads(block, off, ptag, log)
    ensures off <= |block| && block[off..] == Be(Xor(log[0].word, ptag)) + log[0].data + rest
    ensures Encode(Next(log[0].word), log[1..]) <= rest
  {
    hide Xor, Be, Next, IsRaw;
    var tail := Encode(Next(log[0].word), log[1..]);
    var head := Be(Xor(log[0].word, ptag)) + log[0].data;
    assert Encode(ptag, log) == head + tail;
    rest := block[off..][|head|..];
    assert rest[..|tail|] == block[off..][..|head| + |tail|][|head|..] == tail;
  }

  /** One entry of a log is one step of the scan. */
  lemma OneEntry(block: seq<Byte>, unit: nat, c: Cursor, log: seq<Raw>)
    requires unit > 0 && AreRaw(log) && log != [] && Sums(log, c.ptag, c.crc) && Reads(block, c.off, c.ptag, log)
    ensures var e := log[0];
            && LookAt(block, unit, c) == (if IsCrc(e.word) then Seal(e.word) else Pass(e.word))
            && RunEntry(c, e) == (if IsCrc(e.word) then Accepted(c, e.word) else Passed(block, c, e.word))
    ensures var c' := RunEntry(c, log[0]);
            AreRaw(log[1..]) && Sums(log[1..], c'.ptag, c'.crc) && Reads(block, c'.off, c'.ptag, log[1..])
  {
    hide Xor, Be, DSize, Decode, Valid, Crc.Crc, FromLe, TagAt, Flip, Gather, OddChunk, LookAt, Class, IsCrc, Sums,
         Reads,
         Encode;
    var e := log[0];
    var rest := LogHead(log, c.ptag, c.crc, block, c.off);
    Slices(block, c.off, Be(Xor(e.word, c.ptag)), e.data, rest);
    TagIsRead(block, c.off, c.ptag, e.word);
    SumsOfFirst(log, c);
    EntryStep(block, unit, c, e, rest);
    RestIsRead(block, c, log, rest);
  }

  lemma SumsOfFirst(log: seq<Raw>, c: Cursor)
    requires AreRaw(log) && log != [] && Sums(log, c.ptag, c.crc)
    ensures IsCrc(log[0].word) ==> FromLe(log[0].data[..4]) == Crc.Crc(c.crc, Be(Xor(log[0].word, c.ptag)))
    ensures var c' := RunEntry(c, log[0]); AreRaw(log[1..]) && Sums(log[1..], c'.ptag, c'.crc)
  {
    hide Xor, Be, DSize, Decode, Valid, Crc.Crc, FromLe, Flip, Gather, OddChunk, Class, IsCrc;
    Crc.CrcAppend(c.crc, Be(Xor(log[0].word, c.ptag)), log[0].data);
  }

  lemma RestIsRead(block: seq<Byte>, c: Cursor, log: seq<Raw>, rest: seq<Byte>)
    requires AreRaw(log) && log != [] && Encode(Next(log[0].word), log[1..]) <= rest
    requires c.off + 4 + |log[0].data| <= |block| && block[c.off + 4 + |log[0].data|..] == rest
    ensures var c' := RunEntry(c, log[0]); Reads(block, c'.off, c'.ptag, log[1..])
  {
    hide Xor, Be, DSize, Decode, Valid, Crc.Crc, Flip, Gather, OddChunk, Class, IsCrc, Encode;
  }

  lemma EntryStep(block: seq<Byte>, unit: nat, c: Cursor, e: Raw, rest: seq<Byte>)
    requires unit > 0 && IsRaw(e) && c.off + DSize(e.word) <= |block| && TagAt(block, c.off, c.ptag) == e.word
    requires block[c.off + 4..] == e.data + rest
    requires IsCrc(e.word) ==> FromLe(e.data[..4]) == Crc.Crc(c.crc, block[c.off..c.off + 4])
    ensures LookAt(block, unit, c) == if IsCrc(e.word) then Seal(e.word) else Pass(e.word)
    ensures Class(e.word) == TAIL ==> c.off + 12 <= |block|
    ensures Gather(c.temp, e.word, block[c.off + 4..]) == Gather(c.temp, e.word, e.data)
  {
    hide TagAt, Valid, DSize, Decode, Crc.Crc, FromLe;
    assert |block[c.off + 4..]| == |block| - (c.off + 4);
    if IsCrc(e.word) {
      assert block[c.off + 4..c.off + 8] == block[c.off + 4..][..4] == e.data[..4];
    } else if Class(e.word) == TAIL {
      assert (e.data + rest)[..4] == e.data[..4] && (e.data + rest)[4..8] == e.data[4..8];
    }
  }

  /** A scan reads through every log with good checksums. */
  lemma {:induction false} ScanReads(block: seq<Byte>, unit: nat, c: Cursor, log: seq<Raw>)
    requires unit > 0 && AreRaw(log) && Sums(log, c.ptag, c.crc) && Reads(block, c.off, c.ptag, log)
    ensures Scan(block, unit, c) == Scan(block, unit, Run(c, log))
    decreases |log|
  {
    hide LookAt, RunEntry, Accepted, Passed, Sums, IsCrc, Encode;
    if log != [] {
      OneEntry(block, unit, c, log);
      ScanReads(block, unit, RunEntry(c, log[0]), log[1..]);
    }
  }
}
