/** Which block of a file's skip list holds a byte, and where in the block. */
module CtzIndex {
  import opened Arith
  import opened Bits

  const LIMIT: nat := 0x1_0000_0000

  // ---- the layout ----

  /** Block `n` starts with a pointer for every trailing zero of `n`, and one more; block 0 with none. */
  function DataStart(n: nat): nat {
    if n == 0 then 0 else 4 * (Ctz(n) + 1)
  }

  /** The file position of the first byte in block `n`: what the blocks before it can hold. */
  function Start(size: nat, n: nat): int {
    if n == 0 then 0 else Start(size, n - 1) + size - DataStart(n - 1)
  }

  /** The number of pointers in blocks 1 to `n`. */
  function Pointers(n: nat): nat {
    if n == 0 then 0 else Pointers(n - 1) + Ctz(n) + 1
  }

  /** The closed form the index computation rests on. */
  lemma {:induction false} PointersClosed(n: nat)
    ensures Pointers(n) == 2 * n - Popc(n)
  {
    if n > 0 {
      PointersClosed(n - 1);
      PopcStep(n);
    }
  }

  // ---- the computation ----

  /** The smallest number of binary ones in an index at which the correction for the pointers takes
      off more than a block. */
  function TooManyOnes(size: nat): nat
    requires size >= 16
  {
    (size - 12) / 4
  }

  /** A block size that leaves room beside the pointers of every block that a position up to `max` can
      be in: none of these blocks has an index with too many ones. */
  predicate RoomForPointers(size: nat, max: nat) {
    16 <= size && max < LIMIT && Div(max, size - 8) < Pow2(TooManyOnes(size))
  }

  lemma RoomBelow(size: nat, max: nat, pos: nat)
    requires RoomForPointers(size, max) && pos <= max
    ensures RoomForPointers(size, pos)
  {
    DivMonotone(pos, max, size - 8);
  }

  /** Arithmetic as 32-bit words do it. */
  function Wrap(a: int): nat {
    a % LIMIT
  }

  function Sub(a: nat, b: nat): nat {
    Wrap(a - b)
  }

  /** The block that holds file position `pos`, and the offset of the position in it. */
  function Index(size: nat, pos: nat): (nat, nat)
    requires size > 8
  {
    var b := size - 8;
    var i := Div(pos, b);
    if i == 0 then (0, pos)
    else
      var n := Div(Sub(pos, 4 * (Popc(i - 1) + 2)), b);
      (n, Offset(size, pos, n))
  }

  function Offset(size: nat, pos: nat, n: nat): nat
    requires size > 8
  {
    Sub(Sub(pos, Wrap(Times(n, size - 8))), 4 * Popc(n))
  }

  lemma WrapIsExact(a: nat)
    requires a < LIMIT
    ensures Wrap(a) == a
  {
  }

  lemma SubIsExact(a: nat, b: nat)
    requires b <= a < LIMIT
    ensures Sub(a, b) == a - b
  {
  }

  lemma PopcOfNone()
    ensures Popc(0) == 0 && forall b :: Times(0, b) == 0
  {
  }

  lemma TimesStep(n: nat, b: nat)
    requires n > 0
    ensures Times(n, b) == Times(n - 1, b) + b
  {
  }

  /** Where block `n` starts, counted from the end of its own pointers. */
  lemma {:induction false} StartOf(size: nat, n: nat)
    requires size > 8
    ensures Start(size, n) == Times(n, size - 8) + 4 * Popc(n) + DataStart(n)
    ensures n > 0 ==> Start(size, n) == Times(n, size - 8) + 8 + 4 * Popc(n - 1)
  {
    hide Ctz, Popc, Times;
    PopcOfNone();
    if n > 0 {
      StartOf(size, n - 1);
      PopcStep(n);
      TimesStep(n, size - 8);
    }
  }

  /** The least number with so many ones has nothing but ones. */
  lemma {:induction false} OnesNeed(n: nat, k: nat)
    requires Popc(n) >= k
    ensures n + 1 >= Pow2(k)
  {
    if k > 0 {
      OnesNeed(n / 2, k - n % 2);
    }
  }

  /** Every block before the last one has few enough ones in its index. */
  lemma FewOnes(size: nat, max: nat, n: nat)
    requires RoomForPointers(size, max) && n < Div(max, size - 8)
    ensures 8 + 4 * Popc(n) <= size - 8
  {
    if Popc(n) >= TooManyOnes(size) {
      OnesNeed(n, TooManyOnes(size));
    }
  }

  /** The pointers of every block a file can reach leave room for data. */
  lemma PointersFit(size: nat, max: nat, n: nat)
    requires RoomForPointers(size, max) && n <= Div(max, size - 8)
    ensures DataStart(n) < size
  {
    if n > 0 {
      CtzBound(n);
      Pow2Order(TooManyOnes(size), Ctz(n));
    }
  }

  /** The quotient of a position by the smallest amount of data a block could be thought to add is
      its block or the block after. */
  lemma QuotientIsClose(size: nat, pos: nat)
    requires RoomForPointers(size, pos) && size - 8 <= pos
    ensures var i := Div(pos, size - 8);
            && i > 0 && 8 + 4 * Popc(i - 1) <= size - 8
            && Start(size, i - 1) <= pos < Start(size, i + 1)
  {
    hide Start, Popc, Times, Div;
    var b := size - 8;
    var i := Div(pos, b);
    DivSplits(pos, b);
    PopcOfNone();
    assert i > 0;
    TimesStep(i, b);
    TimesStep(i + 1, b);
    StartOf(size, i + 1);
    StartOf(size, i - 1);
    FewOnes(size, pos, i - 1);
    if i > 1 {
      FewOnes(size, pos, i - 2);
    }
  }

  /** Correcting the position by the pointers of the quotient's block picks the right one of the two. */
  lemma CorrectedQuotient(size: nat, pos: nat)
    requires RoomForPointers(size, pos) && size - 8 <= pos
    ensures var i := Div(pos, size - 8);
            Index(size, pos).0 == if pos >= Start(size, i) then i else i - 1
  {
    hide Start, Popc, Times, Div;
    var b := size - 8;
    var i := Div(pos, b);
    QuotientIsClose(size, pos);
    DivSplits(pos, b);
    TimesStep(i, b);
    StartOf(size, i);
    var p := 4 * (Popc(i - 1) + 2);
    SubIsExact(pos, p);
    DivIs(pos - p, b, if pos >= Start(size, i) then i else i - 1);
  }

  /** The block's range holds the position, and the offset lies behind the block's pointers and
      inside the block. */
  ghost predicate ExactAt(size: nat, pos: nat, n: nat, off: nat) {
    && Start(size, n) <= pos < Start(size, n + 1)
    && off == DataStart(n) + pos - Start(size, n)
    && DataStart(n) <= off < size
  }

  ghost predicate Exact(size: nat, pos: nat)
    requires size > 8
  {
    ExactAt(size, pos, Index(size, pos).0, Index(size, pos).1)
  }

  lemma OffsetValue(size: nat, pos: nat, n: nat)
    requires size > 8 && Times(n, size - 8) + 4 * Popc(n) <= pos < LIMIT
    ensures Offset(size, pos, n) == pos - Times(n, size - 8) - 4 * Popc(n)
  {
    var x, y := Times(n, size - 8), 4 * Popc(n);
    WrapIsExact(x);
    SubIsExact(pos, x);
    SubIsExact(pos - x, y);
  }

  lemma OffsetIsExact(size: nat, pos: nat, n: nat)
    requires size > 8 && pos < LIMIT && Start(size, n) <= pos < Start(size, n + 1)
    ensures ExactAt(size, pos, n, Offset(size, pos, n))
  {
    StartOf(size, n);
    OffsetValue(size, pos, n);
    assert Start(size, n + 1) == Start(size, n) + size - DataStart(n);
  }

  /** With room for its pointers the index of a position is exact. */
  lemma IndexIsExact(size: nat, pos: nat)
    requires RoomForPointers(size, pos)
    ensures Exact(size, pos)
  {
    if pos >= size - 8 {
      QuotientIsClose(size, pos);
      CorrectedQuotient(size, pos);
      OffsetIsExact(size, pos, Index(size, pos).0);
    } else {
      DivIs(pos, size - 8, 0);
      assert Start(size, 1) == size;
    }
  }

  lemma {:induction false} StartIncreases(size: nat, max: nat, m: nat, n: nat)
    requires RoomForPointers(size, max) && m <= n <= Div(max, size - 8)
    ensures Start(size, m) <= Start(size, n)
    decreases n - m
  {
    if m < n {
      StartIncreases(size, max, m, n - 1);
      PointersFit(size, max, n - 1);
    }
  }

  lemma BlockBound(size: nat, pos: nat, n: nat)
    requires size > 8 && Start(size, n) <= pos
    ensures n <= Div(pos, size - 8)
  {
    var m := Div(pos, size - 8);
    StartOf(size, n);
    DivSplits(pos, size - 8);
    if m < n {
      TimesMonotone(m, n, size - 8);
    }
  }

  /** No other block holds the position. */
  lemma IndexIsUnique(size: nat, pos: nat, n: nat)
    requires RoomForPointers(size, pos) && Start(size, n) <= pos < Start(size, n + 1)
    ensures n == Index(size, pos).0
  {
    var m := Index(size, pos).0;
    IndexIsExact(size, pos);
    BlockBound(size, pos, n);
    BlockBound(size, pos, m);
    if n < m {
      StartIncreases(size, pos, n + 1, m);
    } else if m < n {
      StartIncreases(size, pos, m + 1, n);
    }
  }

  // ---- where the computation fails ----

  /** The first position behind 2^k blocks' worth of data, where `k` ones are too many: the
      correction takes off more than a block. */
  function Failing(size: nat): nat
    requires size >= 16
  {
    Times(Pow2(TooManyOnes(size)), size - 8)
  }

  /** It is in the block before the quotient's, and the computation finds an earlier one. */
  lemma FailsThere(size: nat)
    requires size >= 16 && Failing(size) < LIMIT
    ensures var n := Pow2(TooManyOnes(size)) - 1;
            && n > 0 && Start(size, n) <= Failing(size) < Start(size, n + 1)
            && Index(size, Failing(size)).0 == n - 1
    ensures !Exact(size, Failing(size))
  {
    var b, k, i, pos := size - 8, TooManyOnes(size), Pow2(TooManyOnes(size)), Failing(size);
    FailingBlock(size);
    DivIs(pos, b, i);
    SubIsExact(pos, 4 * (k + 2));
    DivIs(pos - 4 * (k + 2), b, i - 2);
    FailsAt(size, pos, i - 1);
  }

  lemma {:induction false} PopcOnes(k: nat)
    ensures Popc(Pow2(k) - 1) == k
    decreases k
  {
    if k > 0 {
      PopcOnes(k - 1);
      assert (Pow2(k) - 1) / 2 == Pow2(k - 1) - 1;
    }
  }

  lemma Pow2Doubles(k: nat)
    requires k > 0
    ensures Pow2(k) == 2 * Pow2(k - 1)
  {
  }

  lemma OddCtz(n: nat)
    requires n % 2 == 1
    ensures Ctz(n) == 0
  {
  }

  lemma FailingBlock(size: nat)
    requires size >= 16
    ensures var b, k, i := size - 8, TooManyOnes(size), Pow2(TooManyOnes(size));
            && i > 1 && Popc(i - 1) == k && b < 4 * (k + 2) <= b + b
            && Start(size, i - 1) <= Times(i, b) < Start(size, i)
            && Times(i, b) == Times(i - 2, b) + b + b
  {
    hide Start, Popc, Ctz, Times, Pow2;
    var b, k, i := size - 8, TooManyOnes(size), Pow2(TooManyOnes(size));
    Pow2Doubles(k);
    PopcOnes(k);
    PopcStep(i - 1);
    OddCtz(i - 1);
    StartOf(size, i);
    StartOf(size, i - 1);
    TimesStep(i, b);
    TimesStep(i - 1, b);
  }

  lemma FailsAt(size: nat, pos: nat, n: nat)
    requires size > 8 && n > 0 && Start(size, n) <= pos && Index(size, pos).0 == n - 1
    ensures !Exact(size, pos)
  {
  }

  /** The exact condition: the index is right for every position up to `max` if and only if the blocks
      have room for the pointers of them all. */
  lemma ExactIffRoom(size: nat, max: nat)
    requires size >= 16 && max < LIMIT
    ensures (forall pos: nat | pos <= max :: Exact(size, pos)) <==> RoomForPointers(size, max)
  {
    if RoomForPointers(size, max) {
      forall pos: nat | pos <= max ensures Exact(size, pos) {
        RoomBelow(size, max, pos);
        IndexIsExact(size, pos);
      }
    } else {
      DivBelow(max, size - 8, Pow2(TooManyOnes(size)));
      FailsThere(size);
    }
  }

  // ---- block sizes ----

  /** The size a file may not exceed. */
  const FILE_MAX: nat := 0x7fff_ffff

  lemma RoomIsBelowFailing(size: nat, max: nat)
    requires size >= 16 && max < LIMIT
    ensures RoomForPointers(size, max) <==> max < Failing(size)
  {
    DivBelow(max, size - 8, Pow2(TooManyOnes(size)));
  }

  /** The first failing position against that of a block size near it. */
  lemma FailingAround(size: nat, k: nat, i: nat)
    requires size >= 16 && Pow2(k) == i
    ensures TooManyOnes(size) >= k ==> Failing(size) >= i * (size - 8)
    ensures TooManyOnes(size) <= k ==> Failing(size) <= i * (size - 8)
  {
    var m, b := TooManyOnes(size), size - 8;
    TimesIs(i, b);
    if k <= m {
      Pow2Monotone(k, m);
      TimesMonotone(i, Pow2(m), b);
    }
    if m <= k {
      Pow2Monotone(m, k);
      TimesMonotone(Pow2(m), i, b);
    }
  }

  lemma Pow2Of24(k: nat)
    requires k == 24
    ensures Pow2(k) == 16777216 && Pow2(k + 1) == 33554432 && Pow2(k + 2) == 67108864
  {
    Pow2Steps(k - 8);
    Pow2Steps(k - 16);
    Pow2Steps(k - 24);
    assert Pow2(k + 2) == 2 * Pow2(k + 1);
  }

  /** The block sizes whose index is right for every file are those from 112 bytes on; for every
      32-bit position those from 116 bytes on. */
  lemma SizesThatWork(size: nat)
    requires size >= 16
    ensures (forall pos: nat | pos <= FILE_MAX :: Exact(size, pos)) <==> size >= 112
    ensures (forall pos: nat | pos < LIMIT :: Exact(size, pos)) <==> size >= 116
    ensures RoomForPointers(size, FILE_MAX) <==> size >= 112
    ensures RoomForPointers(size, LIMIT - 1) <==> size >= 116
  {
    hide RoomForPointers, Exact;
    SizesWithRoom(size);
    ExactIffRoom(size, FILE_MAX);
    ExactIffRoom(size, LIMIT - 1);
  }

  lemma SizesWithRoom(size: nat)
    requires size >= 16
    ensures RoomForPointers(size, FILE_MAX) <==> size >= 112
    ensures RoomForPointers(size, LIMIT - 1) <==> size >= 116
  {
    var k := 24;
    Pow2Of24(k);
    FailingAround(size, k, 16777216);
    FailingAround(size, k + 1, 33554432);
    FailingAround(size, k + 2, 67108864);
    RoomIsBelowFailing(size, FILE_MAX);
    RoomIsBelowFailing(size, LIMIT - 1);
  }

  /** The assertion at initialisation, for block sizes it can be computed for. */
  predicate Asserted(size: nat)
    requires 8 < size <= LIMIT / 2
  {
    Div(LIMIT - 1, size - 8) >= 2 && 4 * Npw2(Div(LIMIT - 1, size - 8)) <= size
  }

  lemma AssertedFrom(size: nat)
    requires 16 <= size <= LIMIT / 2
    ensures Asserted(size) <==> size >= 104
  {
    hide Div, Npw2;
    var k := 24;
    LastQuotient(LIMIT - 1, size - 8);
    Pow2Of24(k);
    Npw2Around(Div(LIMIT - 1, size - 8), k);
  }

  lemma LastQuotient(max: nat, b: nat)
    requires max == LIMIT - 1 && 0 < b <= LIMIT / 2 - 8
    ensures Div(max, b) >= 2
    ensures b >= 96 ==> Div(max, b) <= 67108864
    ensures b < 96 ==> Div(max, b) > 33554432
  {
    hide Div, Times;
    DivBelow(max, b, 2);
    TimesIs(2, b);
    DivBelow(max, b, 33554433);
    TimesIs(33554433, b);
    DivBelow(max, b, 67108865);
    TimesIs(67108865, b);
  }

  lemma Npw2Around(q: nat, k: nat)
    requires q >= 2
    ensures q <= Pow2(k + 2) ==> Npw2(q) <= k + 2
    ensures q > Pow2(k + 1) ==> Npw2(q) >= k + 2
  {
    Npw2IsLeast(q);
    if q > Pow2(k + 1) {
      Pow2Reflects(k + 1, Npw2(q));
    }
  }

  /** The assertion at initialisation is too weak for exactly the sizes from 104 to 111: it lets
      them pass, and the index is wrong for some position a file can have. */
  lemma AssertionIsTooWeak(size: nat)
    requires 16 <= size <= LIMIT / 2
    ensures Asserted(size) && !(forall pos: nat | pos <= FILE_MAX :: Exact(size, pos)) <==> 104 <= size < 112
  {
    AssertedFrom(size);
    SizesThatWork(size);
  }

  /** For instance with blocks of 104 bytes, where the offset found is even outside the block. */
  lemma WrongAt104(size: nat, pos: nat, n: nat)
    requires size == 104 && pos == 805306368 && n == 8388606
    ensures Asserted(size) && pos <= FILE_MAX && Index(size, pos) == (n, size) && !Exact(size, pos)
    ensures Start(size, n + 1) == pos
  {
    hide Index, Exact, Start, Times, Asserted, Pow2, Popc, TooManyOnes, Failing, Offset;
    AssertedFrom(size);
    FailingOf104(size, 23, n);
    FailsThere(size);
    OffsetValue(size, pos, n);
    OffsetOfIndex(size, pos);
  }

  lemma OffsetOfIndex(size: nat, pos: nat)
    requires size > 8 && Index(size, pos).0 > 0
    ensures Index(size, pos).1 == Offset(size, pos, Index(size, pos).0)
  {
  }

  lemma FailingOf104(size: nat, k: nat, n: nat)
    requires size == 104 && k == 23 && n == 8388606
    ensures TooManyOnes(size) == k && Pow2(k) == n + 2 && Failing(size) == 805306368
    ensures Start(size, n + 1) == 805306368 && Times(n, size - 8) == 805306176 && Popc(n) == 22
  {
    hide Start, Times, Popc;
    Pow2Of24(k + 1);
    assert Pow2(k + 1) == 2 * Pow2(k);
    TimesIs(n + 2, size - 8);
    TimesIs(n + 1, size - 8);
    TimesIs(n, size - 8);
    PopcOnes(k);
    PopcStep(n + 1);
    StartOf(size, n + 1);
  }
}
