/** The block allocator: a lookahead window that slides round the device, and a budget that ends the
    search after one whole turn. */
module Allocator {
  /** Positions wrap round at the end of a device of `n` blocks. */
  function Wrap(n: nat, x: nat): nat {
    if x >= n then x - n else x
  }

  /** How far block `b` is ahead of block `base`. */
  function Distance(n: nat, base: nat, b: nat): nat
    requires base < n && b < n
  {
    if b >= base then b - base else b - base + n
  }

  /** For positions less than two turns ahead this is the remainder the code computes. */
  lemma WrapIsRemainder(n: nat, x: nat)
    requires x < 2 * n
    ensures Wrap(n, x) == x % n
  {
    if x >= n {
      assert x == 1 * n + (x - n);
    }
  }

  lemma DistanceIsRemainder(n: nat, base: nat, b: nat)
    requires base < n && b < n
    ensures Distance(n, base, b) == (b - base + n) % n
    ensures Wrap(n, base + Distance(n, base, b)) == b
  {
    WrapIsRemainder(n, b - base + n);
  }

  /** A search that stands at block `base`, with the scanned window `w` ahead of it and `ack` blocks
      left until it has gone once round. The sets are the blocks reachable from the file system, those
      that were when the window was scanned, those handed out since the last acknowledgement, and
      those found in use since then. */
  datatype Search = Search(n: nat, base: nat, w: seq<bool>, ack: nat,
                           reach: set<nat>, scanned: set<nat>, handed: set<nat>, inUse: set<nat>)

  /** The block `m` steps ahead of a search. */
  function Ahead(s: Search, m: nat): nat {
    Wrap(s.n, s.base + m)
  }

  ghost predicate Blocks(s: set<nat>, n: nat) {
    forall b | b in s :: b < n
  }

  ghost predicate Ok(s: Search) {
    && s.base < s.n && |s.w| <= s.ack <= s.n
    && Blocks(s.reach, s.n) && Blocks(s.handed, s.n)
    // the window shows what the scan found, and everything in use or handed out shows as marked
    && (forall m | 0 <= m < |s.w| :: s.w[m] <==> Ahead(s, m) in s.scanned)
    && (forall m | 0 <= m < |s.w| :: Ahead(s, m) in s.reach ==> s.w[m])
    // what was handed out lies behind the search, and everything behind it is accounted for
    && (forall b | b in s.handed :: Distance(s.n, s.base, b) >= s.ack)
    && (forall b | 0 <= b < s.n && Distance(s.n, s.base, b) >= s.ack :: b in s.handed + s.inUse)
  }

  /** The search steps over one block of the window. */
  function Step(s: Search): Search
    requires Ok(s) && s.w != []
  {
    var t := s.(base := Wrap(s.n, s.base + 1), w := s.w[1..], ack := s.ack - 1);
    if s.w[0] then t.(inUse := s.inUse + {s.base}) else t.(handed := s.handed + {s.base})
  }

  /** A block found unmarked is not in use and has not been handed out, and the search stays in order. */
  lemma StepOk(s: Search)
    requires Ok(s) && s.w != []
    ensures Ok(Step(s))
    ensures if s.w[0] then s.base in s.scanned else s.base !in s.reach && s.base !in s.handed
  {
    var t := Step(s);
    assert Ahead(s, 0) == s.base;
    assert Distance(s.n, s.base, s.base) == 0;
    forall b | 0 <= b < s.n
      ensures Distance(s.n, t.base, b) == if b == s.base then s.n - 1 else Distance(s.n, s.base, b) - 1
    {
    }
    forall m | 0 <= m < |t.w| ensures Ahead(t, m) == Ahead(s, m + 1) {
    }
  }

  /** The search scans a new window when it has used up the old one. */
  function Slide(s: Search, w: seq<bool>): Search {
    s.(w := w, scanned := s.reach)
  }

  lemma SlideOk(s: Search, w: seq<bool>)
    requires Ok(s) && |w| <= s.ack && forall m | 0 <= m < |w| :: w[m] <==> Ahead(s, m) in s.reach
    ensures Ok(Slide(s, w))
  {
  }

  /** The set of blocks in use may change, as long as only blocks handed out join it. */
  lemma ChangeOk(s: Search, now: set<nat>)
    requires Ok(s) && now <= s.reach + s.handed
    ensures Ok(s.(reach := now))
  {
    forall m | 0 <= m < |s.w| ensures Ahead(s, m) !in s.handed {
      assert Distance(s.n, s.base, Ahead(s, m)) == m;
    }
  }

  datatype Outcome = Found(block: nat) | NoSpace | Failed

  class Lookahead {
    const blockCount: nat
    const bits: nat

    var off: nat
    var size: nat
    var i: nat
    var ack: nat
    const buffer: array<bool>

    ghost var reach: set<nat>
    ghost var scanned: set<nat>
    ghost var handed: set<nat>
    ghost var inUse: set<nat>

    ghost function State(): Search
      reads this, buffer
      requires i <= size <= buffer.Length
    {
      Search(blockCount, Wrap(blockCount, off + i), buffer[i..size], ack, reach, scanned, handed, inUse)
    }

    ghost predicate Valid()
      reads this, buffer
    {
      && 0 < bits && buffer.Length == bits
      && off < blockCount && i <= size <= bits && size <= blockCount
      && Ok(State())
    }

    constructor (blockCount: nat, bits: nat, off: nat, ghost reach: set<nat>)
      requires off < blockCount && 0 < bits && Blocks(reach, blockCount)
      ensures Valid() && fresh(buffer) && this.blockCount == blockCount && this.bits == bits
      ensures this.reach == reach && handed == {}
    {
      this.blockCount, this.bits := blockCount, bits;
      this.off, size, i, ack := off, 0, 0, blockCount;
      buffer := new bool[bits];
      this.reach, scanned, handed, inUse := reach, {}, {}, {};
    }

    /** All blocks handed out so far are accounted for: the next search may go once round again. */
    method Ack()
      requires Valid()
      modifies this`ack, this`handed, this`inUse
      ensures Valid() && handed == {} && inUse == {} && ack == blockCount
    {
      ack := blockCount;
      handed, inUse := {}, {};
    }

    /** Forgets the window. */
    method Drop()
      requires 0 < bits && buffer.Length == bits && off < blockCount && Blocks(reach, blockCount)
      modifies this`size, this`i, this`ack, this`handed, this`inUse
      ensures Valid() && handed == {} && inUse == {} && ack == blockCount && size == 0
    {
      size := 0;
      i := 0;
      handed, inUse := {}, {};
      ack := blockCount;
    }

    /** The file system changes: only blocks handed out since the last acknowledgement can have
        become reachable. */
    ghost method Change(now: set<nat>)
      requires Valid() && now <= reach + handed
      modifies this`reach
      ensures Valid() && reach == now
    {
      ChangeOk(State(), now);
      reach := now;
    }

    /** Steps over the next block of the window and reports whether it is free. */
    method Examine() returns (free: bool)
      requires Valid() && i != size
      modifies this`i, this`ack, this`handed, this`inUse
      ensures Valid() && i == old(i) + 1 && ack == old(ack) - 1 && free == !buffer[old(i)]
      ensures State() == Step(old(State()))
    {
      ghost var s := State();
      StepOk(s);
      free := !buffer[i];
      if free {
        handed := handed + {s.base};
      } else {
        inUse := inUse + {s.base};
      }
      i := i + 1;
      ack := ack - 1;
      assert State() == Step(s);
    }

    /** Marks a block of the file system in the window, if it lies there. */
    method Mark(block: nat)
      requires off < blockCount && size <= buffer.Length && block < blockCount
      modifies buffer
      ensures var d := Distance(blockCount, off, block);
              buffer[..] == if d < size then old(buffer[..])[d := true] else old(buffer[..])
    {
      var d := Distance(blockCount, off, block);
      if d < size {
        buffer[d] := true;
      }
    }

    /** Fills the window from a traversal that reports every reachable block. */
    method Scan(tree: seq<nat>)
      requires off < blockCount && size <= buffer.Length && size <= blockCount
      requires forall t | 0 <= t < |tree| :: tree[t] < blockCount
      modifies buffer
      ensures forall m | 0 <= m < size :: buffer[m] <==> Wrap(blockCount, off + m) in tree
    {
      forall k | 0 <= k < buffer.Length {
        buffer[k] := false;
      }
      for t := 0 to |tree|
        invariant forall m | 0 <= m < size :: buffer[m] <==> Wrap(blockCount, off + m) in tree[..t]
      {
        Mark(tree[t]);
        assert tree[..t + 1] == tree[..t] + [tree[t]];
      }
      assert tree[..|tree|] == tree;
    }

    /** Steps on to the next free block, so that an acknowledgement discredits the ones passed. */
    method SkipMarked()
      requires Valid()
      modifies this`i, this`ack, this`handed, this`inUse
      ensures Valid() && ack - (size - i) == old(ack - (size - i)) && handed == old(handed)
      ensures old(inUse) <= inUse <= old(inUse) + scanned
    {
      while i != size && buffer[i]
        invariant Valid() && handed == old(handed)
        invariant old(inUse) <= inUse <= old(inUse) + scanned
        invariant ack - (size - i) == old(ack - (size - i))
        decreases size - i
      {
        StepOk(State());
        var _ := Examine();
      }
    }

    /** Looks for a free block in what is left of the window, and steps on to the next free one. */
    method TakeFree() returns (r: Outcome)
      requires Valid()
      modifies this`i, this`ack, this`handed, this`inUse
      ensures Valid() && ack - (size - i) == old(ack - (size - i))
      ensures old(inUse) <= inUse <= old(inUse) + scanned
      ensures r.Found? ==>
                && r.block < blockCount && r.block !in reach && r.block !in old(handed)
                && handed == old(handed) + {r.block}
      ensures !r.Found? ==> r.NoSpace? && i == size && handed == old(handed)
    {
      while i != size
        invariant Valid() && handed == old(handed)
        invariant old(inUse) <= inUse <= old(inUse) + scanned
        invariant ack - (size - i) == old(ack - (size - i))
        decreases size - i
      {
        StepOk(State());
        ghost var block := State().base;
        r := Found(Wrap(blockCount, off + i));
        var free := Examine();
        if free {
          SkipMarked();
          return;
        }
      }
      return NoSpace;
    }

    /** Scans the next window, of at most as many blocks as are left to examine. */
    method NextWindow(tree: seq<nat>)
      requires Valid() && i == size && ack > 0 && forall b :: b in tree <==> b in reach
      modifies this`off, this`size, this`i, this`scanned, buffer
      ensures Valid() && scanned == reach && i == 0 < size
    {
      ghost var s := State();
      off := Wrap(blockCount, off + size);
      size := if bits < ack then bits else ack;
      i := 0;
      assert forall t | 0 <= t < |tree| :: tree[t] in reach;
      Scan(tree);
      scanned := reach;
      SlideOk(s, buffer[..size]);
      assert State() == Slide(s, buffer[..size]);
    }

    /** Hands out a block. `tree` is what a traversal of the file system would report now, and
        `broken` says that the traversal would fail. */
    method Alloc(tree: seq<nat>, broken: bool) returns (r: Outcome)
      requires Valid() && forall b :: b in tree <==> b in reach
      modifies this, buffer
      ensures Valid() && reach == old(reach)
      ensures r.Found? ==>
                && r.block < blockCount && r.block !in reach && r.block !in old(handed)
                && handed == old(handed) + {r.block}
      ensures r.NoSpace? ==> handed == old(handed) && forall b | 0 <= b < blockCount :: b in handed + inUse
      ensures r.Failed? ==> broken && handed == {}
      ensures !r.Failed? ==> old(inUse) <= inUse <= old(inUse) + old(scanned) + reach
    {
      while true
        invariant Valid() && reach == old(reach) && handed == old(handed)
        invariant old(inUse) <= inUse <= old(inUse) + old(scanned) + reach
        invariant scanned <= old(scanned) + reach
        decreases ack, if i == size then 1 else 0
      {
        r := TakeFree();
        if r.Found? {
          return;
        }
        if ack == 0 {
          AllExamined(State());
          return NoSpace;
        }
        if broken {
          off := Wrap(blockCount, off + size);
          Drop();
          return Failed;
        }
        NextWindow(tree);
      }
    }
  }

  lemma AllExamined(s: Search)
    requires Ok(s) && s.ack == 0
    ensures forall b | 0 <= b < s.n :: b in s.handed + s.inUse
  {
    assert forall b | 0 <= b < s.n :: Distance(s.n, s.base, b) >= 0;
  }
}
