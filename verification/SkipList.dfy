/** The skip list that holds a file's blocks: block `n` starts with pointers to the blocks 1, 2, 4, ...
    before it, one for every trailing zero of `n` and one more. */
module SkipList {
  import opened Bits
  import opened CtzIndex
  import opened Blocks

  type Address = n: int | 0 <= n < 0x1_0000_0000

  /** A block address as four little-endian bytes, and back. */
  function Le(n: Address): (s: seq<Octet>)
    ensures |s| == 4
  {
    [n % 0x100, n / 0x100 % 0x100, n / 0x100 / 0x100 % 0x100, n / 0x100 / 0x100 / 0x100]
  }

  function OfLe(s: seq<Octet>): Address
    requires |s| == 4
  {
    s[0] as int + 0x100 * (s[1] as int + 0x100 * (s[2] as int + 0x100 * (s[3] as int)))
  }

  lemma LeRoundTrip(n: Address)
    ensures OfLe(Le(n)) == n
    ensures var s := Le(n);
            n == s[0] as int + 0x100 * (s[1] as int) + 0x1_0000 * (s[2] as int) + 0x100_0000 * (s[3] as int)
  {
  }

  const BLOCK_NULL: Address := 0xffff_ffff

  /** A block device whose blocks all have the same size, with room in them for the pointers of the
      longest file. */
  class Device {
    const size: nat
    const fileMax: nat
    var blocks: map<Address, seq<Octet>>

    ghost predicate Valid()
      reads this
    {
      RoomForPointers(size, fileMax) && forall b | b in blocks :: |blocks[b]| == size
    }

    constructor (size: nat, fileMax: nat, blocks: map<Address, seq<Octet>>)
      requires RoomForPointers(size, fileMax) && forall b | b in blocks :: |blocks[b]| == size
      ensures Valid() && this.size == size && this.fileMax == fileMax && this.blocks == blocks
    {
      this.size := size;
      this.fileMax := fileMax;
      this.blocks := blocks;
    }

    method Erase(b: Address)
      requires Valid() && b in blocks
      modifies this
      ensures Valid() && blocks == old(blocks)[b := Fill(size)]
    {
      blocks := blocks[b := Fill(size)];
    }

    method Prog(b: Address, off: nat, data: seq<Octet>)
      requires Valid() && b in blocks && off + |data| <= size
      modifies this
      ensures Valid()
      ensures blocks == old(blocks)[b := old(blocks)[b][..off] + data + old(blocks)[b][off + |data|..]]
    {
      var old_ := blocks[b];
      blocks := blocks[b := old_[..off] + data + old_[off + |data|..]];
    }

    /** Reads or programs one little-endian pointer. */
    method ReadPointer(b: Address, i: nat) returns (p: Address)
      requires Valid() && b in blocks && 4 * i + 4 <= size
      ensures p == Pointer(blocks[b], i)
    {
      var data := Read(b, 4 * i, 4);
      p := OfLe(data);
    }

    method ProgPointer(b: Address, i: nat, p: Address)
      requires Valid() && b in blocks && 4 * i + 4 <= size
      modifies this
      ensures Valid() && blocks == old(blocks)[b := WithPointer(old(blocks)[b], i, p)]
    {
      Prog(b, 4 * i, Le(p));
    }

    method Read(b: Address, off: nat, n: nat) returns (data: seq<Octet>)
      requires Valid() && b in blocks && off + n <= size
      ensures data == blocks[b][off..off + n]
    {
      data := blocks[b][off..off + n];
    }
  }

  /** Pointer `i` of a block. */
  ghost function Pointer(block: seq<Octet>, i: nat): Address
    requires 4 * i + 4 <= |block|
  {
    OfLe(block[4 * i..4 * i + 4])
  }

  /** A block with one pointer written behind the first `i`. */
  ghost function WithPointer(block: seq<Octet>, i: nat, p: Address): seq<Octet>
    requires 4 * i + 4 <= |block|
  {
    block[..4 * i] + Le(p) + block[4 * i + 4..]
  }

  /** Copy on write: only one block may differ. */
  ghost predicate OthersKept(before: map<Address, seq<Octet>>, after: map<Address, seq<Octet>>, b: Address) {
    after.Keys == before.Keys && forall a | a in before && a != b :: after[a] == before[a]
  }

  /** Pointer `i` of block `n` of a list goes 2^i blocks back. */
  ghost predicate PointerOk(block: seq<Octet>, list: seq<Address>, n: nat, i: nat)
    requires n <= |list| && 4 * i + 4 <= |block|
  {
    0 < Pow2(i) <= n && Pointer(block, i) == list[n - Pow2(i)]
  }

  /** The first `k` pointers of block `n`. */
  ghost predicate PointersUpTo(block: seq<Octet>, list: seq<Address>, n: nat, k: nat)
    requires n <= |list| && 4 * k <= |block|
  {
    forall i {:trigger PointerOk(block, list, n, i)} | 0 <= i < k :: PointerOk(block, list, n, i)
  }

  ghost predicate PointersOk(block: seq<Octet>, list: seq<Address>, n: nat)
    requires n <= |list|
  {
    DataStart(n) <= |block| && (n > 0 ==> PointersUpTo(block, list, n, Ctz(n) + 1))
  }

  ghost predicate NodeOk(disk: map<Address, seq<Octet>>, list: seq<Address>, n: nat)
    requires n < |list|
  {
    list[n] in disk && PointersOk(disk[list[n]], list, n)
  }

  ghost predicate IsList(disk: map<Address, seq<Octet>>, list: seq<Address>) {
    forall n {:trigger NodeOk(disk, list, n)} | 0 <= n < |list| :: NodeOk(disk, list, n)
  }

  lemma FollowPointer(disk: map<Address, seq<Octet>>, list: seq<Address>, n: nat, k: nat)
    requires IsList(disk, list) && 0 < n < |list| && k <= Ctz(n)
    ensures list[n] in disk && 4 * k + 4 <= |disk[list[n]]| && Pow2(k) <= n
    ensures Pointer(disk[list[n]], k) == list[n - Pow2(k)]
  {
    CtzAfterSkip(n, k);
    assert NodeOk(disk, list, n);
    assert PointerOk(disk[list[n]], list, n, k);
  }

  // ---- finding a block ----

  ghost predicate Rising(s: seq<nat>) {
    forall i | 0 < i < |s| :: s[i - 1] < s[i]
  }

  ghost predicate Falling(s: seq<nat>) {
    forall i | 0 < i < |s| :: s[i - 1] > s[i]
  }

  lemma {:induction false} RisingRank(s: seq<nat>, i: nat)
    requires Rising(s) && i < |s|
    ensures s[i] >= i
  {
    if i > 0 {
      RisingRank(s, i - 1);
    }
  }

  lemma {:induction false} FallingRank(s: seq<nat>, i: nat)
    requires Falling(s) && i < |s|
    ensures s[i] >= |s| - 1 - i
    decreases |s| - i
  {
    if i + 1 < |s| {
      FallingRank(s, i + 1);
    }
  }

  /** One strictly rising run followed by one strictly falling run, of numbers up to `max`. */
  ghost predicate OneHill(s: seq<nat>, peak: nat, max: nat) {
    && peak <= |s| && Rising(s[..peak]) && Falling(s[peak..])
    && forall i | 0 <= i < |s| :: s[i] <= max
  }

  lemma HillIsShort(s: seq<nat>, peak: nat, max: nat)
    requires OneHill(s, peak, max)
    ensures |s| <= 2 * (max + 1)
  {
    if peak > 0 {
      RisingRank(s[..peak], peak - 1);
      assert s[..peak][peak - 1] == s[peak - 1];
    }
    if peak < |s| {
      FallingRank(s[peak..], 0);
      assert s[peak..][0] == s[peak];
    }
  }

  lemma IndexMonotone(size: nat, p: nat, q: nat)
    requires RoomForPointers(size, q) && p <= q
    ensures Index(size, p).0 <= Index(size, q).0
  {
    RoomBelow(size, q, p);
    IndexIsExact(size, p);
    IndexIsExact(size, q);
    var m, n := Index(size, p).0, Index(size, q).0;
    BlockBound(size, q, m);
    if n < m {
      StartIncreases(size, q, n + 1, m);
    }
  }

  /** The skip taken from block `current` towards block `target`: the largest power of two that does
      not pass the target, if the block has a pointer for it. */
  function Skip(current: nat, target: nat): nat
    requires current > target
  {
    var log := Npw2(current - target + 1) - 1;
    if log < Ctz(current) then log else Ctz(current)
  }

  lemma SkipStaysAbove(current: nat, target: nat)
    requires current > target
    ensures var k := Skip(current, target);
            k <= Ctz(current) && k <= Log2(current - target) && Pow2(k) <= current - target
  {
    Log2Bounds(current - target);
    Pow2Monotone(Skip(current, target), Log2(current - target));
  }

  lemma {:induction false} Log2Monotone(a: nat, b: nat)
    requires 0 < a <= b
    ensures Log2(a) <= Log2(b)
  {
    if a > 1 {
      Log2Monotone(a / 2, b / 2);
    }
  }

  /** While the skips are limited by the trailing zeros, they rise: the next block has more of them. */
  lemma SkipRises(current: nat, target: nat)
    requires current > target && Skip(current, target) == Ctz(current)
    ensures var next := current - Pow2(Ctz(current));
            next > 0 ==> Ctz(next) > Ctz(current)
  {
    CtzAfterSkip(current, Ctz(current));
  }

  /** Once a skip is limited by the distance, all later ones are, and they fall. */
  lemma SkipFalls(current: nat, target: nat)
    requires current > target && Log2(current - target) <= Ctz(current)
    ensures var k := Log2(current - target);
            var next := current - Pow2(k);
            && Skip(current, target) == k && next >= target
            && (next > target ==> Log2(next - target) < k <= Ctz(next))
  {
    var k := Log2(current - target);
    Log2Bounds(current - target);
    CtzAfterSkip(current, k);
    var next := current - Pow2(k);
    if next > target {
      Log2Bounds(next - target);
      Pow2Reflects(Log2(next - target), k);
    }
  }

  /** The skips taken from block `current` to block `target`. */
  ghost function Skips(current: nat, target: nat): seq<nat>
    requires current >= target
    decreases current
  {
    if current == target then []
    else
      SkipStaysAbove(current, target);
      [Skip(current, target)] + Skips(current - Pow2(Skip(current, target)), target)
  }

  lemma {:induction false} FallingSkips(current: nat, target: nat)
    requires current > target && Log2(current - target) <= Ctz(current)
    ensures var s := Skips(current, target);
            Falling(s) && s[0] == Log2(current - target) && forall i | 0 <= i < |s| :: s[i] <= s[0]
    decreases current
  {
    SkipFalls(current, target);
    var next := current - Pow2(Log2(current - target));
    if next > target {
      FallingSkips(next, target);
    }
  }

  lemma {:induction false} HillOfSkips(current: nat, target: nat, max: nat) returns (peak: nat)
    requires current > target && Log2(current - target) <= max
    ensures OneHill(Skips(current, target), peak, max)
    ensures peak > 0 ==> Skips(current, target)[0] == Ctz(current)
    decreases current
  {
    var s := Skips(current, target);
    if Log2(current - target) <= Ctz(current) {
      FallingSkips(current, target);
      peak := 0;
      assert s[0..] == s;
    } else {
      SkipStaysAbove(current, target);
      SkipRises(current, target);
      var next := current - Pow2(Ctz(current));
      var t := Skips(next, target);
      assert s == [Ctz(current)] + t;
      if next == target {
        peak := 1;
      } else {
        Log2Monotone(next - target, current - target);
        var p := HillOfSkips(next, target, max);
        peak := p + 1;
        assert s[..peak] == [Ctz(current)] + t[..p];
        assert s[peak..] == t[p..];
        assert p > 0 ==> t[..p][0] == Ctz(next);
      }
    }
  }

  /** The search is logarithmic: its skips rise once and fall once. */
  lemma SkipsAreFew(current: nat, target: nat)
    requires current > target
    ensures exists peak :: OneHill(Skips(current, target), peak, Log2(current))
    ensures |Skips(current, target)| <= 2 * (Log2(current) + 1)
  {
    Log2Monotone(current - target, current);
    var peak := HillOfSkips(current, target, Log2(current));
    HillIsShort(Skips(current, target), peak, Log2(current));
  }

  /** The block and offset of a file position. */
  ghost predicate IndexedAt(size: nat, list: seq<Address>, pos: nat, block: Address, off: nat)
    requires size > 8
  {
    var index := Index(size, pos);
    index.0 < |list| && block == list[index.0] && off == index.1
  }

  /** The list of a file of `fileSize` bytes. */
  ghost predicate IsFile(dev: Device, list: seq<Address>, fileSize: nat)
    reads dev
  {
    && dev.Valid() && IsList(dev.blocks, list) && fileSize <= dev.fileMax
    && |list| == if fileSize == 0 then 0 else Index(dev.size, fileSize - 1).0 + 1
  }

  /** Follows pointers from the last block of a file back to the block that holds `pos`. */
  method Find(dev: Device, head: Address, fileSize: nat, pos: nat, ghost list: seq<Address>)
    returns (block: Address, off: nat, ghost skips: seq<nat>)
    requires IsFile(dev, list, fileSize)
    requires fileSize > 0 ==> head == list[|list| - 1] && pos < fileSize
    ensures fileSize == 0 ==> block == BLOCK_NULL && off == 0
    ensures fileSize > 0 ==>
              && IndexedAt(dev.size, list, pos, block, off)
              && Index(dev.size, pos).0 < |list| && skips == Skips(|list| - 1, Index(dev.size, pos).0)
  {
    skips := [];
    if fileSize == 0 {
      return BLOCK_NULL, 0, [];
    }
    var index := Index(dev.size, pos);
    RoomBelow(dev.size, dev.fileMax, fileSize - 1);
    IndexMonotone(dev.size, pos, fileSize - 1);
    block, skips := Follow(dev, head, Index(dev.size, fileSize - 1).0, index.0, list);
    off := index.1;
  }

  lemma SkipsStep(current: nat, target: nat)
    requires current > target
    ensures var k := Skip(current, target);
            && k <= Ctz(current) && 0 < Pow2(k) <= current - target
            && Skips(current, target) == [k] + Skips(current - Pow2(k), target)
  {
    SkipStaysAbove(current, target);
  }

  lemma NoSkips(target: nat)
    ensures Skips(target, target) == []
  {
  }

  /** The loop of the search. */
  method Follow(dev: Device, head: Address, start: nat, target: nat, ghost list: seq<Address>)
    returns (block: Address, ghost skips: seq<nat>)
    requires dev.Valid() && IsList(dev.blocks, list) && target <= start < |list| && head == list[start]
    ensures block == list[target] && skips == Skips(start, target)
  {
    hide IsList, Skip, Skips, Pow2;
    var current := start;
    block, skips := head, [];
    assert [] + Skips(start, target) == Skips(start, target);
    while current > target
      invariant target <= current < |list| && block == list[current]
      invariant skips + Skips(current, target) == Skips(start, target)
      decreases current
    {
      var skip := Skip(current, target);
      SkipsStep(current, target);
      FollowPointer(dev.blocks, list, current, skip);
      block := dev.ReadPointer(block, skip);
      assert skips + ([skip] + Skips(current - Pow2(skip), target))
          == skips + [skip] + Skips(current - Pow2(skip), target);
      skips := skips + [skip];
      current := current - Pow2(skip);
    }
    NoSkips(target);
  }

  // ---- growing a file ----

  /** The byte at a file position. */
  ghost function FileByte(size: nat, fileMax: nat, disk: map<Address, seq<Octet>>, list: seq<Address>, pos: nat): Octet
    requires RoomForPointers(size, fileMax) && pos <= fileMax && Index(size, pos).0 < |list|
    requires forall b | b in disk :: |disk[b]| == size
    requires IsList(disk, list)
  {
    var n := Index(size, pos).0;
    RoomBelow(size, fileMax, pos);
    IndexIsExact(size, pos);
    assert NodeOk(disk, list, n);
    disk[list[n]][Index(size, pos).1]
  }

  lemma PointerReadsBack(block: seq<Octet>, i: nat, p: Address)
    requires 4 * i + 4 <= |block|
    ensures |WithPointer(block, i, p)| == |block| && Pointer(WithPointer(block, i, p), i) == p
  {
    LeRoundTrip(p);
    assert WithPointer(block, i, p)[4 * i..4 * i + 4] == Le(p);
  }

  lemma EarlierPointersKept(block: seq<Octet>, i: nat, p: Address, j: nat)
    requires 4 * i + 4 <= |block| && j < i
    ensures Pointer(WithPointer(block, i, p), j) == Pointer(block, j)
  {
    assert WithPointer(block, i, p)[4 * j..4 * j + 4] == block[4 * j..4 * j + 4];
  }

  lemma PointerWritten(block: seq<Octet>, list: seq<Address>, index: nat, i: nat, p: Address)
    requires index <= |list| && 4 * i + 4 <= |block| && PointersUpTo(block, list, index, i)
    requires Pow2(i) <= index && p == list[index - Pow2(i)]
    ensures var b := WithPointer(block, i, p);
            |b| == |block| && PointersUpTo(b, list, index, i + 1)
  {
    var b := WithPointer(block, i, p);
    PointerReadsBack(block, i, p);
    forall j | 0 <= j < i + 1 ensures PointerOk(b, list, index, j) {
      if j < i {
        EarlierPointersKept(block, i, p, j);
        assert PointerOk(block, list, index, j);
      }
    }
  }

  /** Writes the pointers of a new last block, each read from the block the one before points to. */
  method AppendPointers(dev: Device, nblock: Address, head: Address, index: nat, ghost list: seq<Address>)
    requires dev.Valid() && IsList(dev.blocks, list) && |list| == index > 0 && head == list[index - 1]
    requires nblock in dev.blocks && nblock !in list && DataStart(index) <= dev.size
    modifies dev
    ensures dev.Valid() && OthersKept(old(dev.blocks), dev.blocks, nblock)
    ensures PointersOk(dev.blocks[nblock], list, index)
    ensures dev.blocks[nblock][DataStart(index)..] == old(dev.blocks)[nblock][DataStart(index)..]
  {
    var skips := Ctz(index) + 1;
    var nhead := head;
    ghost var disk := dev.blocks;
    CtzBound(index);
    var i := 0;
    while i < skips
      invariant i <= skips
      invariant dev.Valid() && OthersKept(disk, dev.blocks, nblock)
      invariant i < skips ==> Pow2(i) <= index && nhead == list[index - Pow2(i)]
      invariant PointersUpTo(dev.blocks[nblock], list, index, i)
      invariant dev.blocks[nblock][4 * i..] == disk[nblock][4 * i..]
    {
      PointerBefore(dev.blocks[nblock], disk[nblock], i, nhead);
      PointerWritten(dev.blocks[nblock], list, index, i, nhead);
      dev.ProgPointer(nblock, i, nhead);
      if i != skips - 1 {
        NextPointer(disk, list, index, i);
        nhead := dev.ReadPointer(nhead, i);
      }
      i := i + 1;
    }
  }

  /** A pointer changes nothing behind it. */
  lemma PointerBefore(block: seq<Octet>, was: seq<Octet>, i: nat, p: Address)
    requires 4 * i + 4 <= |block| == |was| && block[4 * i..] == was[4 * i..]
    ensures WithPointer(block, i, p)[4 * (i + 1)..] == was[4 * (i + 1)..]
  {
    hide Le;
    assert WithPointer(block, i, p)[4 * i + 4..] == block[4 * i + 4..];
    assert block[4 * i + 4..] == block[4 * i..][4..] == was[4 * i..][4..] == was[4 * i + 4..];
  }

  /** Pointers only go back: those of block `n` depend on the blocks before it alone, and on the
      bytes they are stored in. */
  lemma PointersSame(from: seq<Octet>, to: seq<Octet>, a: seq<Address>, b: seq<Address>, n: nat, k: nat)
    requires n <= |a| && n <= |b| && a[..n] == b[..n] && 4 * k <= |from| && 4 * k <= |to|
    requires from[..4 * k] == to[..4 * k] && PointersUpTo(from, a, n, k)
    ensures PointersUpTo(to, b, n, k)
  {
    forall i | 0 <= i < k ensures PointerOk(to, b, n, i) {
      assert PointerOk(from, a, n, i);
      assert from[4 * i..4 * i + 4] == from[..4 * k][4 * i..4 * i + 4];
      assert to[4 * i..4 * i + 4] == to[..4 * k][4 * i..4 * i + 4];
      assert a[..n][n - Pow2(i)] == b[..n][n - Pow2(i)];
    }
  }

  lemma PointersOkSame(from: seq<Octet>, to: seq<Octet>, a: seq<Address>, b: seq<Address>, n: nat)
    requires n <= |a| && n <= |b| && a[..n] == b[..n] && PointersOk(from, a, n)
    requires DataStart(n) <= |to| && from[..DataStart(n)] == to[..DataStart(n)]
    ensures PointersOk(to, b, n)
  {
    if n > 0 {
      PointersSame(from, to, a, b, n, Ctz(n) + 1);
    }
  }

  /** The block 2^i back has a pointer for another 2^i. */
  lemma NextPointer(disk: map<Address, seq<Octet>>, list: seq<Address>, index: nat, i: nat)
    requires IsList(disk, list) && index == |list| && index > 0 && i < Ctz(index)
    ensures Pow2(i + 1) <= index
    ensures var p := list[index - Pow2(i)];
            && p in disk && 4 * i + 4 <= |disk[p]|
            && Pointer(disk[p], i) == list[index - Pow2(i + 1)]
  {
    CtzAfterSkip(index, i);
    CtzAfterSkip(index, i + 1);
    FollowPointer(disk, list, index - Pow2(i), i);
  }

  /** The position behind a file's last byte is in the last block if that is not full, and else
      behind the pointers of the next one. */
  lemma NextIndex(size: nat, fileSize: nat)
    requires RoomForPointers(size, fileSize) && fileSize > 0
    ensures var last := Index(size, fileSize - 1);
            && last.1 < size
            && Index(size, fileSize) == if last.1 + 1 != size then (last.0, last.1 + 1)
                                        else (last.0 + 1, DataStart(last.0 + 1))
  {
    hide Index, Start, DataStart;
    var last := Index(size, fileSize - 1);
    RoomBelow(size, fileSize, fileSize - 1);
    IndexIsExact(size, fileSize - 1);
    IndexIsExact(size, fileSize);
    var n := if last.1 + 1 != size then last.0 else last.0 + 1;
    StartAfter(size, last.0);
    BlockBound(size, fileSize, n);
    PointersFit(size, fileSize, n);
    StartAfter(size, n);
    IndexIsUnique(size, fileSize, n);
  }

  lemma StartAfter(size: nat, n: nat)
    ensures Start(size, n + 1) == Start(size, n) + size - DataStart(n)
  {
  }

  /** A list is still one when other blocks change. */
  lemma ListKept(before: map<Address, seq<Octet>>, after: map<Address, seq<Octet>>, b: Address, list: seq<Address>)
    requires IsList(before, list) && OthersKept(before, after, b) && b !in list
    ensures IsList(after, list)
  {
    forall n {:trigger NodeOk(after, list, n)} | 0 <= n < |list| ensures NodeOk(after, list, n) {
      assert NodeOk(before, list, n);
    }
  }

  lemma ListAppended(disk: map<Address, seq<Octet>>, list: seq<Address>, b: Address)
    requires IsList(disk, list) && b in disk && PointersOk(disk[b], list, |list|)
    ensures IsList(disk, list + [b])
  {
    var longer := list + [b];
    forall n {:trigger NodeOk(disk, longer, n)} | 0 <= n < |longer| ensures NodeOk(disk, longer, n) {
      assert n < |list| ==> NodeOk(disk, list, n);
      assert list[..n] == longer[..n];
      PointersOkSame(disk[longer[n]], disk[longer[n]], list, longer, n);
    }
  }

  lemma ListInit(disk: map<Address, seq<Octet>>, list: seq<Address>)
    requires IsList(disk, list) && list != []
    ensures IsList(disk, list[..|list| - 1]) && list[|list| - 1] in disk
    ensures PointersOk(disk[list[|list| - 1]], list[..|list| - 1], |list| - 1)
  {
    var init := list[..|list| - 1];
    forall n {:trigger NodeOk(disk, init, n)} | 0 <= n < |init| ensures NodeOk(disk, init, n) {
      assert NodeOk(disk, list, n);
      assert list[..n] == init[..n];
      PointersOkSame(disk[list[n]], disk[list[n]], list, init, n);
    }
    assert NodeOk(disk, list, |list| - 1);
    assert list[..|init|] == init[..|init|];
    PointersOkSame(disk[list[|init|]], disk[list[|init|]], list, init, |init|);
  }

  /** What growing a file leaves: a list that ends in the new block, erased behind the last byte. */
  ghost predicate Grown(size: nat, before: map<Address, seq<Octet>>, after: map<Address, seq<Octet>>,
                        list: seq<Address>, fileSize: nat, grown: seq<Address>, block: Address, off: nat)
    requires size >= 16
  {
    && OthersKept(before, after, block) && IsList(after, grown) && off <= size
    && block in after && off <= |after[block]| && (forall i | off <= i < |after[block]| :: after[block][i] == 0xff)
    && |grown| > 0 && Index(size, fileSize) == (|grown| - 1, off)
    && (if fileSize > 0 && |grown| == |list| then
          && grown == list[..|list| - 1] + [block] && list[|list| - 1] in before
          && off <= |before[list[|list| - 1]]|
          && after[block][..off] == before[list[|list| - 1]][..off]
        else
          grown == list + [block])
  }

  /** Copies the beginning of an incomplete last block, byte by byte. */
  method CopyBlock(dev: Device, head: Address, nblock: Address, noff: nat)
    requires dev.Valid() && head in dev.blocks && nblock in dev.blocks && head != nblock && noff <= dev.size
    modifies dev
    ensures dev.Valid() && OthersKept(old(dev.blocks), dev.blocks, nblock)
    ensures dev.blocks[nblock][..noff] == old(dev.blocks)[head][..noff]
    ensures dev.blocks[nblock][noff..] == old(dev.blocks)[nblock][noff..]
  {
    ghost var disk := dev.blocks;
    var i := 0;
    while i < noff
      invariant i <= noff
      invariant dev.Valid() && OthersKept(disk, dev.blocks, nblock)
      invariant dev.blocks[nblock][..i] == disk[head][..i]
      invariant dev.blocks[nblock][i..] == disk[nblock][i..]
    {
      var data := dev.Read(head, i, 1);
      ghost var was := dev.blocks[nblock];
      dev.Prog(nblock, i, data);
      assert dev.blocks[nblock][i + 1..] == was[i + 1..] == was[i..][1..] == disk[nblock][i + 1..];
      assert dev.blocks[nblock][..i + 1] == disk[head][..i] + [disk[head][i]];
      i := i + 1;
    }
  }

  lemma FirstBlock(disk: map<Address, seq<Octet>>, b: Address)
    requires b in disk
    ensures IsList(disk, [b])
  {
    assert NodeOk(disk, [b], 0);
  }

  /** Makes room at the end of a file: a copy of an incomplete last block, or a new last block. */
  method Extend(dev: Device, head: Address, fileSize: nat, nblock: Address, ghost list: seq<Address>)
    returns (block: Address, off: nat, ghost grown: seq<Address>)
    requires IsFile(dev, list, fileSize) && (fileSize > 0 ==> head == list[|list| - 1])
    requires nblock in dev.blocks && nblock !in list
    modifies dev
    ensures dev.Valid() && block == nblock
    ensures Grown(dev.size, old(dev.blocks), dev.blocks, list, fileSize, grown, block, off)
  {
    hide Index, IsList, PointersOk, Start, Fill;
    ghost var disk := dev.blocks;
    RoomBelow(dev.size, dev.fileMax, fileSize);
    block := nblock;
    dev.Erase(nblock);
    FillIsErased(dev.size);
    ghost var erased := dev.blocks[nblock];
    ListKept(disk, dev.blocks, nblock, list);
    if fileSize == 0 {
      off, grown := 0, [nblock];
      IndexOfStart(dev.size);
      FirstBlock(dev.blocks, nblock);
      return;
    }
    var last := Index(dev.size, fileSize - 1);
    var index, noff := last.0, last.1 + 1;
    RoomBelow(dev.size, dev.fileMax, fileSize - 1);
    NextIndex(dev.size, fileSize);
    IndexIsExact(dev.size, fileSize - 1);
    if noff != dev.size {
      ListInit(disk, list);
      CopyBlock(dev, head, nblock, noff);
      StillErased(erased, dev.blocks[nblock], noff);
      off, grown := noff, list[..|list| - 1] + [nblock];
      CopyIsList(disk, dev.blocks, list, nblock, noff);
      return;
    }
    index := index + 1;
    NewBlockFits(dev.size, fileSize);
    AppendPointers(dev, nblock, head, index, list);
    StillErased(erased, dev.blocks[nblock], DataStart(index));
    off, grown := 4 * (Ctz(index) + 1), list + [nblock];
    ListKept(disk, dev.blocks, nblock, list);
    ListAppended(dev.blocks, list, nblock);
  }

  lemma StillErased(erased: seq<Octet>, block: seq<Octet>, off: nat)
    requires off <= |erased| == |block| && block[off..] == erased[off..]
    requires forall i | 0 <= i < |erased| :: erased[i] == 0xff
    ensures forall i | off <= i < |block| :: block[i] == 0xff
  {
    assert forall i | off <= i < |block| :: block[i] == block[off..][i - off] == erased[off..][i - off] == erased[i];
  }

  lemma IndexOfStart(size: nat)
    requires size >= 16
    ensures Index(size, 0) == (0, 0)
  {
  }

  lemma NewBlockFits(size: nat, fileSize: nat)
    requires RoomForPointers(size, fileSize)
    ensures DataStart(Index(size, fileSize).0) < size
  {
    IndexIsExact(size, fileSize);
  }

  lemma CopyIsList(before: map<Address, seq<Octet>>, after: map<Address, seq<Octet>>, list: seq<Address>,
                   nblock: Address, noff: nat)
    requires IsList(before, list) && list != [] && nblock !in list && nblock in after
    requires OthersKept(before, after, nblock)
    requires var head := list[|list| - 1];
             && head in before && DataStart(|list| - 1) <= noff <= |before[head]| && noff <= |after[nblock]|
             && after[nblock][..noff] == before[head][..noff]
    ensures IsList(after, list[..|list| - 1] + [nblock])
  {
    var init, head, d := list[..|list| - 1], list[|list| - 1], DataStart(|list| - 1);
    ListInit(before, list);
    ListKept(before, after, nblock, init);
    assert after[nblock][..noff][..d] == after[nblock][..d] && before[head][..noff][..d] == before[head][..d];
    PointersOkSame(before[head], after[nblock], init, init, |init|);
    ListAppended(after, init, nblock);
  }

  /** Growing a file changes none of its bytes. */
  lemma GrownKeepsFile(size: nat, fileMax: nat, before: map<Address, seq<Octet>>, after: map<Address, seq<Octet>>,
                       list: seq<Address>, fileSize: nat, grown: seq<Address>, block: Address, off: nat, pos: nat)
    requires RoomForPointers(size, fileMax) && pos < fileSize <= fileMax && block !in list
    requires forall b | b in before :: |before[b]| == size
    requires forall b | b in after :: |after[b]| == size
    requires IsList(before, list) && |list| == Index(size, fileSize - 1).0 + 1
    requires Grown(size, before, after, list, fileSize, grown, block, off)
    ensures Index(size, pos).0 < |list| && Index(size, pos).0 < |grown|
    ensures FileByte(size, fileMax, after, grown, pos) == FileByte(size, fileMax, before, list, pos)
  {
    var n := Index(size, pos).0;
    RoomBelow(size, fileMax, fileSize);
    RoomBelow(size, fileMax, fileSize - 1);
    RoomBelow(size, fileMax, pos);
    IndexMonotone(size, pos, fileSize - 1);
    IndexIsExact(size, pos);
    IndexIsExact(size, fileSize);
    NextIndex(size, fileSize);
    assert NodeOk(before, list, n) && NodeOk(after, grown, n);
    if |grown| == |list| && n == |list| - 1 {
      assert Index(size, pos).1 < off;
      assert after[block][..off][Index(size, pos).1] == before[list[n]][..off][Index(size, pos).1];
    }
  }

  // ---- visiting every block ----

  /** The blocks of a list from the last one down to block `k`. */
  ghost function Descending(list: seq<Address>, k: nat): seq<Address>
    requires k <= |list|
    decreases |list| - k
  {
    if k == |list| then [] else Descending(list, k + 1) + [list[k]]
  }

  /** Every block occurs once, the last one first. */
  lemma {:induction false} DescendingIsReversal(list: seq<Address>, k: nat)
    requires k <= |list|
    ensures |Descending(list, k)| == |list| - k
    ensures forall i | 0 <= i < |list| - k :: Descending(list, k)[i] == list[|list| - 1 - i]
    decreases |list| - k
  {
    if k < |list| {
      DescendingIsReversal(list, k + 1);
    }
  }

  /** Hands every block of a file to the caller, reading one or two pointers a step. */
  method Visit(dev: Device, head: Address, fileSize: nat, ghost list: seq<Address>) returns (visited: seq<Address>)
    requires IsFile(dev, list, fileSize) && (fileSize > 0 ==> head == list[|list| - 1])
    ensures visited == Descending(list, 0)
  {
    visited := [];
    if fileSize == 0 {
      return;
    }
    var index := Index(dev.size, fileSize - 1).0;
    var block := head;
    while true
      invariant 0 <= index < |list| && block == list[index]
      invariant visited == Descending(list, index + 1)
      decreases index
    {
      visited := visited + [block];
      if index == 0 {
        return;
      }
      var count := 2 - index % 2;
      FollowPointer(dev.blocks, list, index, 0);
      var next := dev.ReadPointer(block, 0);
      if count == 2 {
        FollowPointer(dev.blocks, list, index, 1);
        visited := visited + [next];
        next := dev.ReadPointer(block, 1);
      }
      block := next;
      index := index - count;
    }
  }
}
