/** Compacting a directory that has grown too large: its entries are split over new metadata pairs, and
    the chain of pairs still lists the same directory. */
module Split {
  import opened Arith
  import opened Tags
  import opened MetaLog
  import opened Compaction
  import opened CompactionProof
  import Traverse

  /** What follows a metadata pair: the next directory, or another pair of the same directory. */
  datatype Chain = Soft(next: Option<nat>) | Hard(log: seq<Entry>, rest: Chain)

  /** The entries of a chain, in order. */
  function Listing(c: Chain): Dir {
    match c
    case Soft(_) => []
    case Hard(log, rest) => Replay(log) + Listing(rest)
  }

  function EndOf(c: Chain): Option<nat> {
    match c
    case Soft(next) => next
    case Hard(_, rest) => EndOf(rest)
  }

  /** The chain with another pair of the same directory put in front. */
  lemma ListingHard(log: seq<Entry>, rest: Chain)
    ensures Listing(Hard(log, rest)) == Replay(log) + Listing(rest) && EndOf(Hard(log, rest)) == EndOf(rest)
  {
  }

  // ---- sizes ----

  const MAX_COUNT: nat := 0xff
  /** Room for a tail, a checksum, the global state and a deletion. */
  const SPARE: nat := 36

  function SizeOf(log: seq<Entry>): nat {
    if log == [] then 0
    else 4 + (if IsRemoval(log[0].tag) then 0 else log[0].tag.size) + SizeOf(log[1..])
  }

  method Measure(log: seq<Entry>) returns (size: nat)
    ensures size == SizeOf(log)
  {
    size := 0;
    for i := 0 to |log|
      invariant size + SizeOf(log[i..]) == SizeOf(log)
    {
      assert log[i..][1..] == log[i + 1..];
      size := size + 4 + (if IsRemoval(log[i].tag) then 0 else log[i].tag.size);
    }
    assert log[|log|..] == [];
  }

  /** The most that a pair is given when it is compacted: half of it stays free for updates. */
  function Cap(blockSize: nat, metadataMax: nat, unit: nat): nat
    requires unit > 0
  {
    var half := AlignUp((if metadataMax > 0 then metadataMax else blockSize) / 2, unit);
    var most := if blockSize < SPARE then 0 else blockSize - SPARE;
    if most < half then most else half
  }

  // ---- the slices of a directory ----

  /** What compacting ids [begin, end) writes. */
  function Slice(log: seq<Entry>, attrs: seq<Item>, begin: nat, end: nat): seq<Entry> {
    Compacted(Wrap(log) + attrs, CompactRange(begin, end))
  }

  lemma SliceIs(log: seq<Entry>, attrs: seq<Item>, begin: nat, end: nat)
    requires Tame(attrs) && begin <= end && Named(Updated(log, attrs), begin, end)
    ensures Replay(Slice(log, attrs, begin, end)) == Updated(log, attrs)[begin..end]
  {
    hide Replay, Updated, Tame, Compacted, Wrap, Named;
    NamedFits(Updated(log, attrs), begin, end);
    CompactionPreservesDir(log, attrs, begin, end);
  }

  lemma NamedFits(dir: Dir, begin: nat, end: nat)
    requires Named(dir, begin, end)
    ensures end <= |dir|
  {
  }

  lemma NamedPart(dir: Dir, begin: nat, end: nat, b: nat, e: nat)
    requires Named(dir, begin, end) && begin <= b <= e <= end
    ensures Named(dir, b, e)
  {
  }

  lemma Cut(dir: Dir, begin: nat, mid: nat, end: nat, rest: Dir)
    requires begin <= mid <= end <= |dir|
    ensures dir[begin..mid] + (dir[mid..end] + rest) == dir[begin..end] + rest
  {
    assert dir[begin..mid] + dir[mid..end] == dir[begin..end];
  }

  lemma NothingCut(dir: Dir, at: nat, rest: Dir)
    requires at <= |dir|
    ensures dir[at..at] + rest == rest
  {
  }

  /** A pair is small enough, unless a single entry is all it holds. */
  predicate Small(log: seq<Entry>, attrs: seq<Item>, begin: nat, end: nat, cap: nat) {
    end - begin <= 1 || (end - begin < MAX_COUNT && SizeOf(Slice(log, attrs, begin, end)) <= cap)
  }

  /** A block has room for what a split aims at, and for every single entry. */
  predicate Roomy(log: seq<Entry>, attrs: seq<Item>, begin: nat, end: nat, cap: nat, room: nat) {
    cap <= room && forall i | begin <= i < end :: EntryFits(log, attrs, i, room)
  }

  predicate EntryFits(log: seq<Entry>, attrs: seq<Item>, i: nat, room: nat) {
    SizeOf(Slice(log, attrs, i, i + 1)) <= room
  }

  lemma SmallFits(log: seq<Entry>, attrs: seq<Item>, begin: nat, end: nat, lo: nat, hi: nat, cap: nat, room: nat)
    requires Roomy(log, attrs, begin, end, cap, room) && begin <= lo <= hi <= end && Small(log, attrs, lo, hi, cap)
    ensures SizeOf(Slice(log, attrs, lo, hi)) <= room
  {
    hide Slice, SizeOf;
    if lo == hi {
      NothingToWrite(log, attrs, lo);
    } else if hi - lo == 1 {
      assert EntryFits(log, attrs, lo, room);
    }
  }

  lemma NothingToWrite(log: seq<Entry>, attrs: seq<Item>, id: nat)
    ensures SizeOf(Slice(log, attrs, id, id)) == 0
  {
    hide Compacted, Wrap;
    CompactedBelow(Wrap(log) + attrs, CompactRange(id, id));
    assert forall i | 0 <= i < |Slice(log, attrs, id, id)| :: Slice(log, attrs, id, id)[i].tag.id < 0;
  }

  class Mdir {
    const blockSize: nat
    const metadataMax: nat
    const unit: nat
    /** What a compaction can write to a block beside tail, global state and checksum. */
    const room: nat
    /** The pair on disk: its log, and what follows it. */
    var log: seq<Entry>
    var tail: Chain
    /** In memory: what will follow it once it is compacted. */
    var next: Chain
    /** How many more pairs can be allocated. */
    var free: nat

    constructor (blockSize: nat, metadataMax: nat, unit: nat, room: nat, log: seq<Entry>, tail: Chain, free: nat)
      ensures this.blockSize == blockSize && this.metadataMax == metadataMax && this.unit == unit && this.room == room
      ensures this.log == log && this.tail == next == tail && this.free == free
    {
      this.blockSize, this.metadataMax, this.unit, this.room := blockSize, metadataMax, unit, room;
      this.log, this.tail, this.next, this.free := log, tail, tail, free;
    }

    /** Where to split: the upper part of the range is halved until it fits. */
    method FindSplit(attrs: seq<Item>, begin: nat, end: nat) returns (split: nat)
      requires begin <= end && unit > 0
      ensures begin <= split <= end && (begin < end ==> split < end)
      ensures Small(log, attrs, split, end, Cap(blockSize, metadataMax, unit)) && end - split < 0xff
      ensures Small(log, attrs, begin, end, Cap(blockSize, metadataMax, unit)) ==> split == begin
    {
      hide Compacted, Wrap, SizeOf, Cap;
      var cap := Cap(blockSize, metadataMax, unit);
      split := begin;
      while end - split > 1
        invariant begin <= split <= end && (begin < end ==> split < end)
        invariant split > begin ==> !Small(log, attrs, begin, end, cap)
        decreases end - split
      {
        var out, _ := Traverse.Run(Wrap(log) + attrs, true, CompactRange(split, end));
        var size := Measure(out);
        if end - split < MAX_COUNT && size <= cap {
          break;
        }
        split := split + (end - split) / 2;
      }
    }

    /** Writes part of the directory to a new pair in front of what follows; without a pair for it, or
        without room in that pair, what is listed stays as it is. */
    method SplitOff(attrs: seq<Item>, split: nat, end: nat) returns (ok: bool)
      requires Tame(attrs) && split <= end && Named(Updated(log, attrs), split, end)
      modifies this`next, this`free
      ensures ok == (old(free) > 0 && SizeOf(Slice(log, attrs, split, end)) <= room)
      ensures free == (if old(free) > 0 then old(free) - 1 else 0) && EndOf(next) == EndOf(old(next))
      ensures Listing(next) == if ok then Updated(log, attrs)[split..end] + Listing(old(next)) else Listing(old(next))
    {
      hide Replay, Updated, Tame, Compacted, Wrap, Named, Listing, EndOf;
      NamedFits(Updated(log, attrs), split, end);
      if free == 0 {
        return false;
      }
      free := free - 1;
      var out, _ := Traverse.Run(Wrap(log) + attrs, true, CompactRange(split, end));
      var size := Measure(out);
      if size > room {
        return false;
      }
      SliceIs(log, attrs, split, end);
      ListingHard(out, next);
      next := Hard(out, next);
      ok := true;
    }

    /** Splits off pairs from the end of the range until what is left fits or no pair is left. */
    method SplitAll(attrs: seq<Item>, begin: nat, end: nat) returns (kept: nat)
      requires Tame(attrs) && begin <= end && Named(Updated(log, attrs), begin, end) && unit > 0
      modifies this`next, this`free
      ensures begin <= kept <= end && (begin < end ==> begin < kept) && end <= |Updated(log, attrs)|
      ensures Listing(next) == Updated(log, attrs)[kept..end] + Listing(old(next)) && EndOf(next) == EndOf(old(next))
      ensures Roomy(log, attrs, begin, end, Cap(blockSize, metadataMax, unit), room) ==>
                && (Small(log, attrs, begin, kept, Cap(blockSize, metadataMax, unit)) || free == 0)
                && (old(free) > end - begin ==> free > 0)
      ensures Small(log, attrs, begin, end, Cap(blockSize, metadataMax, unit)) ==> kept == end
    {
      hide Replay, Updated, Tame, Compacted, Wrap, Named, Listing, EndOf, Small, Cap, Roomy, Slice;
      ghost var cap := Cap(blockSize, metadataMax, unit);
      ghost var roomy := Roomy(log, attrs, begin, end, cap, room);
      kept := end;
      ghost var dir := Updated(log, attrs);
      NamedFits(dir, begin, end);
      NothingCut(dir, end, Listing(next));
      while true
        invariant begin <= kept <= end && (begin < end ==> begin < kept)
        invariant Listing(next) == dir[kept..end] + Listing(old(next)) && EndOf(next) == EndOf(old(next))
        invariant roomy ==> old(free) <= free + (end - kept)
        invariant kept < end ==> !Small(log, attrs, begin, end, cap)
        decreases kept
      {
        var split := FindSplit(attrs, begin, kept);
        if split == begin {
          return;
        }
        NamedPart(dir, begin, end, split, kept);
        if roomy {
          SmallFits(log, attrs, begin, end, split, kept, cap, room);
        }
        var ok := SplitOff(attrs, split, kept);
        if !ok {
          // no pair, or no room in it: what is left is compacted as it is
          return;
        }
        Cut(dir, split, kept, end, Listing(old(next)));
        kept := split;
      }
    }

    /** Compacts a directory, over as many pairs as it takes. The chain then lists the directory with the
        attributes appended, and what followed it still follows; without space nothing changes on disk,
        and with enough pairs, and room in a block for every entry, it succeeds. What is left in the first
        pair fits its block: unless the superblock is expanded that is at least one entry, if there is one;
        when it is expanded no entry is left in the first pair. What needs no split is not split. */
    method SplittingCompact(attrs: seq<Item>, begin: nat, end: nat, expand: bool) returns (ok: bool, kept: nat)
      requires Tame(attrs) && begin <= end && Named(Updated(log, attrs), begin, end) && unit > 0
      modifies this
      ensures begin <= kept <= end <= |Updated(old(log), attrs)|
      ensures ok ==> Listing(Hard(log, tail)) == Updated(old(log), attrs)[begin..end] + Listing(old(next))
      ensures ok ==> EndOf(tail) == EndOf(old(next)) && Replay(log) == Updated(old(log), attrs)[begin..kept]
      ensures Roomy(old(log), attrs, begin, end, Cap(blockSize, metadataMax, unit), room) && old(free) > end - begin ==>
                && ok && Small(old(log), attrs, begin, kept, Cap(blockSize, metadataMax, unit))
                && kept - begin < 0xff && (expand ==> kept == begin)
      ensures !expand && begin < end ==> begin < kept
      ensures !expand && Small(old(log), attrs, begin, end, Cap(blockSize, metadataMax, unit)) ==> kept == end
      ensures ok ==> SizeOf(log) <= room
      ensures !ok ==> log == old(log) && tail == old(tail)
    {
      hide Replay, Updated, Tame, Compacted, Wrap, Named, Listing, EndOf, Cap, Roomy, SizeOf;
      ghost var dir := Updated(log, attrs);
      ghost var cap := Cap(blockSize, metadataMax, unit);
      ghost var roomy := Roomy(log, attrs, begin, end, cap, room) && free > end - begin;
      kept := SplitAll(attrs, begin, end);
      NamedPart(dir, begin, end, begin, kept);
      if expand {
        // too many writes to the superblock: move the whole directory away from it
        var moved := SplitOff(attrs, begin, kept);
        if moved {
          Cut(dir, begin, kept, end, Listing(old(next)));
          kept := begin;
        }
      }
      NamedPart(dir, begin, end, begin, kept);
      if roomy {
        SmallFits(log, attrs, begin, end, begin, kept, cap, room);
      }
      var out, _ := Traverse.Run(Wrap(log) + attrs, true, CompactRange(begin, kept));
      var size := Measure(out);
      if size > room {
        return false, kept;
      }
      SliceIs(log, attrs, begin, kept);
      ListingHard(out, next);
      Cut(dir, begin, kept, end, Listing(old(next)));
      log, tail := out, next;
      ok := true;
    }
  }
}
