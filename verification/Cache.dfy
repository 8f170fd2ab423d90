/** The two block caches: reads see the device through a read cache and a program cache, and programs
    reach the device in aligned pieces. */
module Cache {
  import opened Arith
  import opened CacheBytes
  import opened Blocks

  datatype ReadResult = Data(bytes: seq<Octet>) | Corrupt

  class Device {
    const readSize: nat
    const progSize: nat
    const cacheSize: nat
    const blockSize: nat
    const blockCount: nat

    var disk: seq<seq<Octet>>
    var rblock: int
    var roff: nat
    var rsize: nat
    const rbuf: array<Octet>
    var pblock: int
    var poff: nat
    var psize: nat
    const pbuf: array<Octet>
    ghost var programs: seq<Program>

    constructor (readSize: nat, progSize: nat, cacheSize: nat, blockSize: nat, disk: seq<seq<Octet>>)
      requires readSize > 0 && progSize > 0 && cacheSize > 0
      requires Aligned(cacheSize, readSize) && Aligned(cacheSize, progSize) && Aligned(blockSize, cacheSize)
      requires Aligned(progSize, readSize) && forall b | 0 <= b < |disk| :: |disk[b]| == blockSize
      ensures Valid() && Settled() && Coherent() && this.disk == disk && pblock == BLOCK_NULL && programs == []
    {
      this.readSize, this.progSize, this.cacheSize, this.blockSize := readSize, progSize, cacheSize, blockSize;
      this.blockCount, this.disk := |disk|, disk;
      rblock, roff, rsize, pblock, poff, psize := BLOCK_NULL, 0, 0, BLOCK_NULL, 0, 0;
      rbuf := new Octet[cacheSize](i => ERASED);
      pbuf := new Octet[cacheSize](i => ERASED);
      programs := [];
    }

    /** The sizes the file system asserts when it is set up, and that program units are made of read units. */
    ghost predicate Sizes() {
      && readSize > 0 && progSize > 0 && cacheSize > 0
      && Aligned(cacheSize, readSize) && Aligned(cacheSize, progSize) && Aligned(blockSize, cacheSize)
      && Aligned(progSize, readSize)
    }

    ghost predicate Valid()
      reads this, rbuf, pbuf
    {
      && Sizes()
      && |disk| == blockCount && (forall b | 0 <= b < blockCount :: |disk[b]| == blockSize)
      && rbuf.Length == cacheSize && pbuf.Length == cacheSize && rbuf != pbuf
      && (rblock != BLOCK_NULL ==>
            0 <= rblock < blockCount && rsize <= cacheSize && roff + rsize <= blockSize && Aligned(roff, readSize))
      && (pblock != BLOCK_NULL ==>
            0 <= pblock < blockCount && psize <= cacheSize && poff + psize <= blockSize && Aligned(poff, progSize))
      && (forall k | (if pblock == BLOCK_NULL then 0 else psize) <= k < cacheSize :: pbuf[k] == ERASED)
    }

    /** Between calls a full program cache has been programmed. */
    ghost predicate Settled()
      reads this
    {
      pblock != BLOCK_NULL ==> psize < cacheSize
    }

    /** The read cache holds what the device holds. */
    ghost predicate Coherent()
      reads this, rbuf, pbuf
      requires Valid()
    {
      rblock != BLOCK_NULL ==> rbuf[..rsize] == disk[rblock][roff..roff + rsize]
    }

    function Waiting(): Region
      reads this, pbuf
      requires pblock != BLOCK_NULL ==> psize <= pbuf.Length
    {
      if pblock == BLOCK_NULL then Region(BLOCK_NULL, 0, []) else Region(pblock, poff, pbuf[..psize])
    }

    /** What a reader that looks into the program cache, or past it, sees of a block. */
    ghost function View(block: nat, pending: bool): seq<Octet>
      reads this, rbuf, pbuf
      requires Valid() && block < blockCount
    {
      if pending then Seen(disk[block], Waiting(), block) else disk[block]
    }

    lemma FromProgCache(block: nat, off: nat, n: nat)
      requires Valid() && block < blockCount && block == pblock && poff <= off && off + n <= poff + psize
      ensures pbuf[off - poff..off - poff + n] == View(block, true)[off..off + n]
    {
      SeenWaiting(disk[block], Waiting(), block, off, n);
      assert pbuf[..psize][off - poff..off - poff + n] == pbuf[off - poff..off - poff + n];
    }

    lemma FromReadCache(off: nat, n: nat)
      requires Valid() && Coherent() && rblock != BLOCK_NULL && roff <= off && off + n <= roff + rsize
      ensures rbuf[off - roff..off - roff + n] == disk[rblock][off..off + n]
    {
      Nested(rbuf[..], 0, rsize, off - roff, off - roff + n);
      Nested(disk[rblock], roff, roff + rsize, off - roff, off - roff + n);
      assert rbuf[..rsize] == rbuf[..][0..rsize];
    }

    lemma FromDevice(pending: bool, block: nat, off: nat, n: nat)
      requires Valid() && block < blockCount && off + n <= blockSize
      requires pending ==> block != pblock || off + n <= poff || poff + psize <= off
      ensures disk[block][off..off + n] == View(block, pending)[off..off + n]
    {
      SeenPast(disk[block], Waiting(), block, off, n, pending);
    }

    /** Every block as a reader sees it. */
    ghost function Views(): (v: seq<seq<Octet>>)
      reads this, rbuf, pbuf
      requires Valid()
      ensures |v| == blockCount
      ensures forall b | 0 <= b < blockCount :: v[b] == View(b, true) && |v[b]| == blockSize
    {
      AllSeen(disk, Waiting())
    }

    /** The bytes one turn of the read loop copies, from either cache or straight from the device;
        none when the read cache has to be filled first. */
    method Pick(pending: bool, hint: nat, block: nat, off: nat, size: nat) returns (data: seq<Octet>)
      requires Valid() && Coherent() && hint >= 1 && block < blockCount && 0 < size && off + size <= blockSize
      ensures |data| <= size && data == View(block, pending)[off..off + |data|]
      ensures rblock == block && roff <= off < roff + rsize ==> data != []
    {
      var diff := size;
      if pending && block == pblock && off < poff + psize {
        if off >= poff {
          diff := Min(diff, psize - (off - poff));
          FromProgCache(block, off, diff);
          return pbuf[off - poff..off - poff + diff];
        }
        diff := Min(diff, poff - off);
      }
      data := PickPast(pending, hint, block, off, size, diff);
    }

    /** The same, for at most `limit` bytes that stop before any waiting byte. */
    method PickPast(pending: bool, hint: nat, block: nat, off: nat, size: nat, limit: nat) returns (data: seq<Octet>)
      requires Valid() && Coherent() && hint >= 1 && block < blockCount && off + size <= blockSize
      requires 0 < limit <= size && (limit == size || (pblock != BLOCK_NULL && limit == poff - off))
      requires pending ==> block != pblock || off + limit <= poff || poff + psize <= off
      ensures |data| <= limit && data == View(block, pending)[off..off + |data|]
      ensures rblock == block && roff <= off < roff + rsize ==> data != []
    {
      hide Overlay, Fill, Aligned, AlignDown, AlignUp;
      var diff := limit;
      if block == rblock && off < roff + rsize {
        if off >= roff {
          diff := Min(diff, rsize - (off - roff));
          FromDevice(pending, block, off, diff);
          FromReadCache(off, diff);
          return rbuf[off - roff..off - roff + diff];
        }
        diff := Min(diff, roff - off);
      }
      if size >= hint && Aligned(off, readSize) && size >= readSize {
        RoomForRead(block, off, diff);
        data := Bypass(pending, block, off, diff);
      } else {
        data := [];
      }
    }

    /** A read of whole read units straight from the device. */
    method Bypass(pending: bool, block: nat, off: nat, limit: nat) returns (data: seq<Octet>)
      requires Valid() && block < blockCount && off + limit <= blockSize
      requires pending ==> block != pblock || off + limit <= poff || poff + psize <= off
      ensures |data| == AlignDown(limit, readSize) <= limit && data == View(block, pending)[off..off + |data|]
    {
      AlignDownIs(limit, readSize);
      var diff := AlignDown(limit, readSize);
      FromDevice(pending, block, off, diff);
      data := disk[block][off..off + diff];
    }

    /** One turn of the read loop. */
    method Piece(pending: bool, hint: nat, block: nat, off: nat, size: nat) returns (data: seq<Octet>)
      requires Valid() && Coherent() && hint >= 1 && block < blockCount && 0 < size && off + size <= blockSize
      modifies this`rblock, this`roff, this`rsize, rbuf
      ensures Valid() && Coherent() && |data| <= size && View(block, pending) == old(View(block, pending))
      ensures data == View(block, pending)[off..off + |data|]
      ensures data == [] ==> rblock == block && roff <= off < roff + rsize
      ensures data != [] ==> rblock == old(rblock) && roff == old(roff) && rsize == old(rsize)
      ensures old(rblock == block && roff <= off < roff + rsize) ==> data != []
    {
      data := Pick(pending, hint, block, off, size);
      if data == [] {
        Load(block, off, hint);
      }
    }

    /** Reads through the caches. */
    method Read(pending: bool, hint: nat, block: nat, off: nat, size: nat) returns (r: ReadResult)
      requires Valid() && Coherent() && hint >= 1
      modifies this`rblock, this`roff, this`rsize, rbuf
      ensures Valid() && Coherent()
      ensures r == if block >= blockCount || off + size > blockSize then Corrupt
                   else Data(View(block, pending)[off..off + size])
    {
      if block >= blockCount || off + size > blockSize {
        return Corrupt;
      }
      ghost var view := View(block, pending);
      var data: seq<Octet> := [];
      while |data| < size
        invariant Valid() && Coherent() && view == View(block, pending)
        invariant |data| <= size && data == view[off..off + |data|]
        decreases size - |data|, if rblock == block && roff <= off + |data| < roff + rsize then 0 else 1
      {
        var piece := Piece(pending, hint, block, off + |data|, size - |data|);
        Joined(view, off, off + |data|, |piece|);
        data := data + piece;
      }
      r := Data(data);
    }

    /** An aligned offset leaves room for a whole read before either cached region starts. */
    lemma RoomForRead(block: nat, o: nat, diff: nat)
      requires Valid() && Aligned(o, readSize) && diff >= 1
      requires diff >= readSize || (pblock != BLOCK_NULL && o < poff && diff == poff - o)
            || (rblock != BLOCK_NULL && o < roff && diff == roff - o)
      ensures AlignDown(diff, readSize) >= 1 && AlignDown(diff, readSize) <= diff
    {
      if pblock != BLOCK_NULL && o < poff && diff == poff - o {
        AlignedTrans(poff, progSize, readSize);
        AlignedDifference(poff, o, readSize);
      } else if rblock != BLOCK_NULL && o < roff && diff == roff - o {
        AlignedDifference(roff, o, readSize);
      }
      AlignDownIs(diff, readSize);
    }

    /** Fills the read cache from around an offset. */
    method Load(block: nat, off: nat, hint: nat)
      requires Valid() && block < blockCount && off < blockSize && hint >= 1
      modifies this`rblock, this`roff, this`rsize, rbuf
      ensures Valid() && Coherent() && rblock == block && roff <= off < roff + rsize
    {
      hide Overlay, Seen, AllSeen, Tiling, AlignUp, AlignDown;
      AlignDownIs(off, readSize);
      AlignUpIs(off + hint, readSize);
      rblock := block;
      roff := AlignDown(off, readSize);
      rsize := Min(Min(AlignUp(off + hint, readSize), blockSize) - roff, cacheSize);
      var from := disk[block];
      forall k | 0 <= k < rsize {
        rbuf[k] := from[roff + k];
      }
    }

    // ---- programming ----

    /** The erased bytes that fill the last program unit of what is waiting. */
    ghost function Padding(): (n: nat)
      reads this, rbuf, pbuf
      requires Valid()
      ensures pblock != BLOCK_NULL ==> psize + n == AlignUp(psize, progSize) <= cacheSize
      ensures pblock != BLOCK_NULL ==> poff + psize + n <= blockSize
    {
      AlignUpIs(psize, progSize);
      if pblock == BLOCK_NULL then 0 else
        AlignedTrans(blockSize, cacheSize, progSize);
        AlignedDifference(blockSize, poff, progSize);
        AlignUpLeast(psize, blockSize - poff, progSize);
        AlignUpLeast(psize, cacheSize, progSize);
        AlignUp(psize, progSize) - psize
    }

    /** Programs the waiting bytes, padded to whole program units. */
    method Flush()
      requires Valid()
      modifies this`disk, this`pblock, pbuf, this`programs
      ensures Valid() && pblock == BLOCK_NULL
      ensures forall b | 0 <= b < blockCount ::
                disk[b] == if b == old(pblock)
                           then Overlay(old(disk[b]), old(poff), old(pbuf[..psize]) + Fill(old(Padding())))
                           else old(disk[b])
      ensures programs == if old(pblock) == BLOCK_NULL then old(programs)
                          else old(programs) + [Program(old(pblock), poff, psize + old(Padding()))]
    {
      if pblock != BLOCK_NULL {
        var diff := AlignUp(psize, progSize);
        assert diff == psize + Padding();
        assert pbuf[..diff] == pbuf[..psize] + Fill(Padding());
        disk := disk[pblock := Overlay(disk[pblock], poff, pbuf[..diff])];
        programs := programs + [Program(pblock, poff, diff)];
        forall k | 0 <= k < pbuf.Length {
          pbuf[k] := ERASED;
        }
        pblock := BLOCK_NULL;
      }
    }

    /** Copies bytes into the program cache. */
    method Copy(off: nat, data: seq<Octet>)
      requires Valid() && pblock != BLOCK_NULL && poff <= off < off + |data| <= poff + cacheSize
      requires off + |data| <= blockSize
      modifies this`psize, pbuf
      ensures Valid() && psize == (if off + |data| - poff < old(psize) then old(psize) else off + |data| - poff)
      ensures var gap := Gap(old(Waiting()), off, progSize);
              Waiting() == Grown(old(Waiting()), gap, Fill(off - gap) + data)
    {
      forall k | off - poff <= k < off - poff + |data| {
        pbuf[k] := data[k - (off - poff)];
      }
      if psize < off - poff + |data| {
        psize := off - poff + |data|;
      }
    }

    /** A program cache that has become full goes to the device as it is. */
    method FlushIfFull() returns (ghost made: seq<Program>)
      requires Valid() && pblock != BLOCK_NULL
      modifies this`disk, this`pblock, pbuf, this`programs
      ensures Valid() && Settled() && Views() == old(Views())
      ensures Waiting() == if psize == cacheSize then Region(BLOCK_NULL, 0, []) else old(Waiting())
      ensures made == if psize == cacheSize then [Program(old(pblock), poff, cacheSize)] else []
      ensures programs == old(programs) + made
    {
      made := [];
      if psize == cacheSize {
        AlignUpIs(psize, progSize);
        AlignUpLeast(psize, cacheSize, progSize);
        assert Padding() == 0 && pbuf[..psize] + Fill(0) == pbuf[..psize];
        made := [Program(pblock, poff, cacheSize)];
        Flush();
        assert Views() == old(Views());
      }
    }

    /** One turn of the program loop that finds room in the cache: copies what fits, and programs the
        cache as soon as it is full. */
    method Put(off: nat, data: seq<Octet>) returns (n: nat, ghost made: seq<Program>)
      requires Valid() && Settled() && pblock != BLOCK_NULL && poff <= off < poff + cacheSize
      requires data != [] && off + |data| <= blockSize
      modifies this`disk, this`pblock, this`psize, pbuf, this`programs
      ensures Valid() && Settled() && 0 < n <= |data| && programs == old(programs) + made
      ensures Progress(Request(old(pblock), off, data[..n], old(Waiting()), old(Views())), n, progSize, Views(),
                Waiting(), made)
      ensures pblock != BLOCK_NULL ==> n == |data|
    {
      hide Overlay, Seen, AllSeen, Tiling, After, Progress, Aligned, AlignDown, Fits;
      n := Min(|data|, cacheSize - (off - poff));
      var piece := data[..n];
      ghost var q := Request(pblock, off, piece, Waiting(), Views());
      ghost var gap := Gap(Waiting(), off, progSize);
      MoreWaits(disk, Waiting(), gap, Fill(off - gap) + piece);
      Copy(off, piece);
      ghost var r := Waiting();
      made := FlushIfFull();
      PutIsProgress(q, r, cacheSize, progSize, Views());
    }

    /** One turn of the program loop: prepares the cache or puts bytes into it. */
    method Turn(ghost q: Request, block: nat, off: nat, data: seq<Octet>, k: nat, ghost made: seq<Program>)
      returns (k': nat, ghost more: seq<Program>)
      requires q.block == block < blockCount && q.off == off && q.data == data && k < |data|
                && off + |data| <= blockSize
      requires Valid() && Settled() && Progress(q, k, progSize, Views(), Waiting(), made)
      requires |q.was| == blockCount && |q.was[block]| == blockSize && Reaches(Waiting(), block, off + k, cacheSize)
      modifies this`disk, this`pblock, this`poff, this`psize, pbuf, this`programs
      ensures Valid() && Settled() && Progress(q, k', progSize, Views(), Waiting(), made + more)
      ensures k' <= |data| && (k' < |data| ==> Reaches(Waiting(), block, off + k', cacheSize))
      ensures k < k' || (k == k' && old(pblock) == BLOCK_NULL && pblock != BLOCK_NULL)
      ensures programs == old(programs) + more
    {
      hide Progress, Tiling, Gap, Start, Overlay, After, Max, AlignDown;
      ghost var r, v := Waiting(), Views();
      if pblock != BLOCK_NULL {
        var n;
        n, more := Put(off + k, data[k..]);
        assert Request(old(pblock), off + k, data[k..][..n], r, v) == Request(q.block, q.off + k, q.data[k..][..n],
             r, v);
        Compose(q, k, n, progSize, v, r, made, Views(), Waiting(), more);
        k' := k + n;
      } else {
        Prepare(block, off + k);
        PrepareIsProgress(q, k, progSize, v, r, Waiting(), made);
        k', more := k, [];
        assert made + more == made;
      }
    }

    /** Gives the program cache an empty region to fill. */
    method Prepare(block: nat, at: nat)
      requires Valid() && pblock == BLOCK_NULL && block < blockCount && at < blockSize
      modifies this`pblock, this`poff, this`psize
      ensures Valid() && Settled() && Waiting() == Region(block, AlignDown(at, progSize), []) && Views() == old(Views())
      ensures Reaches(Waiting(), block, at, cacheSize)
    {
      AlignDownIs(at, progSize);
      pblock := block;
      poff := AlignDown(at, progSize);
      psize := 0;
      NothingWaits(disk, old(Waiting()));
      NothingWaits(disk, Waiting());
    }

    /** Programs bytes through the program cache: a reader sees them at once, behind the gap, and
        whatever reaches the device does so in consecutive aligned programs. */
    method Prog(block: nat, off: nat, data: seq<Octet>) returns (ghost made: seq<Program>)
      requires Valid() && Settled() && block < blockCount && off + |data| <= blockSize
      requires data != [] ==> Reaches(Waiting(), block, off, cacheSize)
      modifies this`disk, this`pblock, this`poff, this`psize, pbuf, this`programs
      ensures Valid() && Settled() && programs == old(programs) + made && (data == [] ==> unchanged(this, pbuf))
      ensures Progress(Request(block, off, data, old(Waiting()), old(Views())), |data|, progSize, Views(), Waiting(),
                made)
    {
      hide Progress, Tiling, Gap, Start, Overlay, After, Max, AlignDown;
      ghost var q := Request(block, off, data, Waiting(), Views());
      Begin(q, progSize);
      made := [];
      var k := 0;
      while k < |data|
        invariant Valid() && Settled() && Progress(q, k, progSize, Views(), Waiting(), made)
        invariant k <= |data| && (k < |data| ==> Reaches(Waiting(), block, off + k, cacheSize))
        invariant programs == old(programs) + made && (data == [] ==> unchanged(this, pbuf))
        decreases |data| - k, if pblock == BLOCK_NULL then 1 else 0
      {
        ghost var more;
        k, more := Turn(q, block, off, data, k, made);
        Associates(old(programs), made, more);
        made := made + more;
      }
    }

    /** Programs what waits and drops the read cache: the device then holds what readers saw, and any
        read from now on sees the device. */
    method Sync()
      requires Valid()
      modifies this`rblock, this`disk, this`pblock, pbuf, this`programs
      ensures Valid() && Settled() && Coherent() && pblock == BLOCK_NULL && Views() == disk
      ensures disk == if old(pblock) == BLOCK_NULL then old(Views())
                      else old(Views()[pblock := Overlay(Views()[pblock], poff + psize, Fill(Padding()))])
      ensures programs == if old(pblock) == BLOCK_NULL then old(programs)
                          else old(programs) + [Program(old(pblock), poff, psize + old(Padding()))]
    {
      hide Overlay, Aligned, AlignUp, Tiling;
      if pblock != BLOCK_NULL {
        OverlayTwice(disk[pblock], poff, pbuf[..psize], Fill(Padding()));
      }
      rblock := BLOCK_NULL;
      Flush();
      NothingWaits(disk, Waiting());
    }

    /** One call of a sequential run. */
    method RunChunk(ghost q: Request, block: nat, off: nat, sent: nat, chunk: seq<Octet>, ghost made: seq<Program>)
      returns (ghost more: seq<Program>)
      requires q.block == block && q.off == off && sent + |chunk| <= |q.data| && chunk == q.data[sent..][..|chunk|]
      requires Valid() && Settled() && Progress(q, sent, progSize, Views(), Waiting(), made)
      requires |q.was| == blockCount && |q.was[block]| == blockSize && (sent == 0 ==> pblock == BLOCK_NULL)
      requires q.start.block == BLOCK_NULL && Aligned(off, progSize)
      modifies this`disk, this`pblock, this`poff, this`psize, pbuf, this`programs
      ensures Valid() && Settled() && Progress(q, sent + |chunk|, progSize, Views(), Waiting(), made + more)
      ensures sent + |chunk| == 0 ==> pblock == BLOCK_NULL
      ensures programs == old(programs) + more
    {
      hide Progress, Tiling, Gap, Start, Overlay, After, Max, AlignDown;
      AtEnd(q, sent, progSize, Views(), Waiting(), made);
      ghost var r, v := Waiting(), Views();
      more := Prog(block, off + sent, chunk);
      Compose(q, sent, |chunk|, progSize, v, r, made, Views(), Waiting(), more);
    }

    /** All calls of a sequential run. */
    method RunChunks(ghost q: Request, block: nat, off: nat, chunks: seq<seq<Octet>>) returns (ghost made: seq<Program>)
      requires q.block == block && q.off == off && q.data == Concat(chunks)
      requires q.start.block == BLOCK_NULL && Aligned(off, progSize)
      requires Valid() && pblock == BLOCK_NULL && Progress(q, 0, progSize, Views(), Waiting(), [])
      requires |q.was| == blockCount && |q.was[block]| == blockSize
      modifies this`disk, this`pblock, this`poff, this`psize, pbuf, this`programs
      ensures Valid() && Progress(q, |q.data|, progSize, Views(), Waiting(), made)
      ensures (q.data == [] ==> pblock == BLOCK_NULL) && programs == old(programs) + made
    {
      hide Progress;
      made := [];
      var sent: nat := 0;
      for i := 0 to |chunks|
        invariant Valid() && Settled() && Progress(q, sent, progSize, Views(), Waiting(), made)
        invariant sent == |Concat(chunks[..i])| && (sent == 0 ==> pblock == BLOCK_NULL)
        invariant programs == old(programs) + made
      {
        NextChunk(chunks, i);
        ghost var more := RunChunk(q, block, off, sent, chunks[i], made);
        Associates(old(programs), made, more);
        made := made + more;
        sent := sent + |chunks[i]|;
      }
      assert chunks[..|chunks|] == chunks;
    }

    /** Padding fills the program unit in which the waiting bytes end. */
    lemma LastUnit(block: nat, end: nat)
      requires Valid() && (pblock != BLOCK_NULL ==> pblock == block) && Gap(Waiting(), end, progSize) == end
                && (pblock != BLOCK_NULL ==> poff <= end == poff + psize)
      ensures pblock == BLOCK_NULL ==> AlignUp(end, progSize) == end == Start(Waiting(), end, progSize)
      ensures pblock != BLOCK_NULL ==> AlignUp(end, progSize) == end + Padding()
      ensures var last := if pblock == BLOCK_NULL then [] else [Program(pblock, poff, psize + Padding())];
              Tiling(last, block, Start(Waiting(), end, progSize), AlignUp(end, progSize), progSize)
    {
      AlignDownIs(end, progSize);
      AlignUpIs(end, progSize);
      if pblock == BLOCK_NULL {
        AlignUpLeast(end, end, progSize);
      } else {
        AlignUpIs(psize, progSize);
        AlignedSum(poff, AlignUp(psize, progSize), progSize);
        AlignUpLeast(end, poff + AlignUp(psize, progSize), progSize);
        AlignedDifference(AlignUp(end, progSize), poff, progSize);
        AlignUpLeast(psize, AlignUp(end, progSize) - poff, progSize);
      }
    }

    /** The sync that ends a run. */
    method Finish(ghost q: Request, ghost made: seq<Program>) returns (ghost more: seq<Program>)
      requires Valid() && Progress(q, |q.data|, progSize, Views(), Waiting(), made)
      requires q.start.block == BLOCK_NULL && Aligned(q.off, progSize)
      requires |q.was| == blockCount && |q.was[q.block]| == blockSize && (q.data == [] ==> pblock == BLOCK_NULL)
      modifies this`rblock, this`disk, this`pblock, pbuf, this`programs
      ensures Valid() && Coherent() && pblock == BLOCK_NULL
      ensures var end := q.off + |q.data|;
              var padded := AlignUp(end, progSize);
              && end <= padded <= blockSize
              && disk == q.was[q.block := Overlay(q.was[q.block], q.off, q.data + Fill(padded - end))]
              && programs == old(programs) + more && Tiling(made + more, q.block, q.off, padded, progSize)
    {
      hide Progress, Tiling, Gap, Start, Overlay, After, Max, AlignDown;
      ghost var end := q.off + |q.data|;
      AtEnd(q, |q.data|, progSize, Views(), Waiting(), made);
      AlignedTrans(blockSize, cacheSize, progSize);
      AlignUpLeast(end, blockSize, progSize);
      AlignUpIs(end, progSize);
      ghost var padded := AlignUp(end, progSize);
      LastUnit(q.block, end);
      more := if pblock == BLOCK_NULL then [] else [Program(pblock, poff, psize + Padding())];
      assert Tiling(more, q.block, Start(Waiting(), end, progSize), padded, progSize);
      TilingAppend(made, more, q.block, q.off, Start(Waiting(), end, progSize), padded, progSize);
      AfterAll(q.was, q.block, q.off, q.data, padded - end);
      Sync();
    }

    /** Any run of sequential program calls that starts at a program unit, and then a sync, leaves the
        bytes on the device: nothing else changes but the padding of the last unit, every program is
        aligned, no two overlap, and the read cache is coherent again. */
    method ProgRun(block: nat, off: nat, chunks: seq<seq<Octet>>) returns (ghost made: seq<Program>)
      requires Valid() && pblock == BLOCK_NULL && block < blockCount
      requires Aligned(off, progSize) && off + |Concat(chunks)| <= blockSize
      modifies this, pbuf
      ensures Valid() && Coherent() && pblock == BLOCK_NULL
      ensures var end := off + |Concat(chunks)|;
              var padded := AlignUp(end, progSize);
              && end <= padded <= blockSize
              && disk == old(disk)[block := Overlay(old(disk)[block], off, Concat(chunks) + Fill(padded - end))]
              && programs == old(programs) + made
              && Tiling(made, block, off, padded, progSize)
    {
      hide Progress, Tiling, Overlay, AlignUp, Aligned, Coherent, Concat;
      NothingWaits(disk, Waiting());
      ghost var q := Request(block, off, Concat(chunks), Waiting(), disk);
      Begin(q, progSize);
      made := RunChunks(q, block, off, chunks);
      ghost var more := Finish(q, made);
      made := made + more;
    }
  }
}
