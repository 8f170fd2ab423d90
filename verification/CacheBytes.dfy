/** What the block caches promise about bytes: what readers see while bytes wait to be programmed, what
    a program request changes, and which program operations it may cause. */
module CacheBytes {
  import opened Arith
  import opened Blocks

  const BLOCK_NULL: int := -1

  /** A cached region of one block. */
  datatype Region = Region(block: int, off: nat, data: seq<Octet>)

  predicate Fits(r: Region, block: int, size: nat) {
    r.block == block ==> r.off + |r.data| <= size
  }

  /** A block as a reader sees it: the device, overlaid by the bytes waiting to be programmed. */
  function Seen(disk: seq<Octet>, r: Region, block: int): (s: seq<Octet>)
    requires Fits(r, block, |disk|)
    ensures |s| == |disk|
  {
    if r.block == block then Overlay(disk, r.off, r.data) else disk
  }

  lemma Joined(s: seq<Octet>, from: nat, mid: nat, n: nat)
    requires from <= mid && mid + n <= |s|
    ensures s[from..mid] + s[mid..mid + n] == s[from..mid + n]
  {
  }

  lemma Nested(s: seq<Octet>, from: nat, to: nat, a: nat, b: nat)
    requires a <= b && from + b <= to <= |s|
    ensures s[from..to][a..b] == s[from + a..from + b]
  {
    var l, r := s[from..to][a..b], s[from + a..from + b];
    forall k | 0 <= k < b - a ensures l[k] == r[k] {
      assert l[k] == s[from..to][a + k];
    }
  }

  /** Inside the waiting region a reader sees the waiting bytes, and outside it the device. */
  lemma SeenWaiting(disk: seq<Octet>, r: Region, block: int, o: nat, n: nat)
    requires Fits(r, block, |disk|)
    requires r.block == block && r.off <= o && o + n <= r.off + |r.data|
    ensures Seen(disk, r, block)[o..o + n] == r.data[o - r.off..o - r.off + n]
  {
  }

  lemma SeenPast(disk: seq<Octet>, r: Region, block: int, o: nat, n: nat, pending: bool)
    requires Fits(r, block, |disk|) && o + n <= |disk|
    requires pending ==> r.block != block || o + n <= r.off || r.off + |r.data| <= o
    ensures (if pending then Seen(disk, r, block) else disk)[o..o + n] == disk[o..o + n]
  {
  }

  /** Writing further into the waiting bytes, or behind a gap of erased bytes after them, is
      writing over what a reader saw. */
  lemma OverlayGrows(disk: seq<Octet>, off: nat, was: seq<Octet>, now: seq<Octet>, lo: nat, piece: seq<Octet>)
    requires off + |was| <= |disk| && off + |now| <= |disk|
    requires off <= lo <= off + |was| && lo + |piece| <= off + |now|
    requires |now| == if lo + |piece| <= off + |was| then |was| else lo + |piece| - off
    requires now[lo - off..lo - off + |piece|] == piece
    requires forall k | 0 <= k < |was| && !(lo - off <= k < lo - off + |piece|) :: now[k] == was[k]
    ensures Overlay(disk, off, now) == Overlay(Overlay(disk, off, was), lo, piece)
  {
    var l, r := Overlay(disk, off, now), Overlay(Overlay(disk, off, was), lo, piece);
    forall k | 0 <= k < |disk| ensures l[k] == r[k] {
      if lo <= k < lo + |piece| {
        assert now[lo - off..lo - off + |piece|][k - lo] == now[k - off];
      }
    }
  }

  /** Every block as a reader sees it. */
  function AllSeen(disk: seq<seq<Octet>>, r: Region): (v: seq<seq<Octet>>)
    requires forall b | 0 <= b < |disk| :: Fits(r, b, |disk[b]|)
    ensures |v| == |disk| && forall b | 0 <= b < |disk| :: v[b] == Seen(disk[b], r, b)
  {
    seq(|disk|, b requires 0 <= b < |disk| => Seen(disk[b], r, b))
  }

  lemma NothingWaits(disk: seq<seq<Octet>>, r: Region)
    requires r.data == [] && forall b | 0 <= b < |disk| :: Fits(r, b, |disk[b]|)
    ensures AllSeen(disk, r) == disk
  {
    forall b | 0 <= b < |disk| ensures AllSeen(disk, r)[b] == disk[b] {
      assert r.block == b ==> Overlay(disk[b], r.off, []) == disk[b];
    }
  }

  /** A waiting region after more bytes are copied into it, or behind a gap after it. */
  function Grown(r: Region, lo: nat, piece: seq<Octet>): (g: Region)
    requires r.off <= lo <= r.off + |r.data|
  {
    var rest := if lo + |piece| < r.off + |r.data| then r.data[lo + |piece| - r.off..] else [];
    Region(r.block, r.off, r.data[..lo - r.off] + piece + rest)
  }

  lemma MoreWaits(disk: seq<seq<Octet>>, r: Region, lo: nat, piece: seq<Octet>)
    requires 0 <= r.block < |disk| && r.off + |r.data| <= |disk[r.block]| && lo + |piece| <= |disk[r.block]|
    requires r.off <= lo <= r.off + |r.data|
    ensures AllSeen(disk, Grown(r, lo, piece))
         == AllSeen(disk, r)[r.block := Overlay(Seen(disk[r.block], r, r.block), lo, piece)]
  {
    OverlayGrows(disk[r.block], r.off, r.data, Grown(r, lo, piece).data, lo, piece);
  }

  /** One program operation on the device. */
  datatype Program = Program(block: int, off: nat, size: nat)

  /** Programs that cover a range of a block without gap or overlap, aligned to program units. */
  predicate Tiling(ps: seq<Program>, block: int, from: nat, to: nat, unit: nat) {
    if ps == [] then from == to
    else
      && ps[0].block == block && ps[0].off == from
      && Aligned(ps[0].off, unit) && Aligned(ps[0].size, unit)
      && Tiling(ps[1..], block, from + ps[0].size, to, unit)
  }

  lemma Associates(a: seq<Program>, b: seq<Program>, c: seq<Program>)
    ensures a + b + c == a + (b + c)
  {
  }

  lemma {:induction false} TilingAppend(a: seq<Program>, b: seq<Program>, block: int, x: nat, y: nat, z: nat, unit: nat)
    requires Tiling(a, block, x, y, unit) && Tiling(b, block, y, z, unit)
    ensures Tiling(a + b, block, x, z, unit)
  {
    if a == [] {
      assert a + b == b;
    } else {
      assert (a + b)[1..] == a[1..] + b;
      TilingAppend(a[1..], b, block, x + a[0].size, y, z, unit);
    }
  }

  /** A tiling starts no program before its range and ends none behind it. */
  lemma {:induction false} TilingBounds(ps: seq<Program>, block: int, from: nat, to: nat, unit: nat)
    requires Tiling(ps, block, from, to, unit)
    ensures from <= to
    ensures forall i | 0 <= i < |ps| :: from <= ps[i].off && ps[i].off + ps[i].size <= to
  {
    if ps != [] {
      TilingBounds(ps[1..], block, from + ps[0].size, to, unit);
      forall i | 0 <= i < |ps| ensures from <= ps[i].off && ps[i].off + ps[i].size <= to {
        assert i > 0 ==> ps[i] == ps[1..][i - 1];
      }
    }
  }

  /** No two programs of a tiling touch the same byte. */
  lemma {:induction false} TilingIsDisjoint(ps: seq<Program>, block: int, from: nat, to: nat, unit: nat, i: nat, j: nat)
    requires Tiling(ps, block, from, to, unit) && i < j < |ps|
    ensures ps[i].off + ps[i].size <= ps[j].off
  {
    if i > 0 {
      TilingIsDisjoint(ps[1..], block, from + ps[0].size, to, unit, i - 1, j - 1);
    } else {
      TilingBounds(ps[1..], block, from + ps[0].size, to, unit);
      assert ps[j] == ps[1..][j - 1];
    }
  }

  // ---- program requests ----

  /** Where the next program operation starts, if the bytes at `off` come next. */
  function Start(r: Region, off: nat, unit: nat): nat
    requires unit > 0
  {
    if r.block == BLOCK_NULL then AlignDown(off, unit) else r.off
  }

  /** Where the erased bytes before `off` start that are programmed together with it. */
  function Gap(r: Region, off: nat, unit: nat): (g: nat)
    requires unit > 0
    ensures g <= off
  {
    AlignDownIs(off, unit);
    if r.block == BLOCK_NULL then AlignDown(off, unit) else Min(off, End(r))
  }

  /** The end of the waiting bytes. */
  function End(r: Region): nat {
    if r.block == BLOCK_NULL then 0 else r.off + |r.data|
  }

  /** The blocks and offsets a program request may name: any when nothing waits, and otherwise what the
      program cache can still hold. */
  predicate Reaches(r: Region, block: int, off: nat, cache: nat) {
    r.block != BLOCK_NULL ==> r.block == block && r.off <= off < r.off + cache
  }

  /** A request to program bytes, with the waiting region and the readers' view it meets. */
  datatype Request = Request(block: nat, off: nat, data: seq<Octet>, start: Region, was: seq<seq<Octet>>)

  predicate WellPosed(q: Request) {
    q.block < |q.was| && q.off + |q.data| <= |q.was[q.block]|
  }

  /** What readers see after the first k bytes of a request that starts behind a gap. */
  function After(was: seq<seq<Octet>>, block: nat, lo: nat, off: nat, data: seq<Octet>, k: nat): seq<seq<Octet>>
    requires block < |was| && lo <= off && k <= |data| && off + |data| <= |was[block]|
  {
    if k == 0 then was else was[block := Overlay(was[block], lo, Fill(off - lo) + data[..k])]
  }

  lemma AfterMore(was: seq<seq<Octet>>, block: nat, lo: nat, off: nat, data: seq<Octet>, k: nat, n: nat, gap: nat)
    requires block < |was| && lo <= off && k + n <= |data| && off + |data| <= |was[block]|
    requires gap == if k == 0 then lo else off + k
    ensures var v := After(was, block, lo, off, data, k);
            |v| == |was| && |v[block]| == |was[block]|
            && After(v, block, gap, off + k, data[k..][..n], n) == After(was, block, lo, off, data, k + n)
  {
    hide Overlay, Fill, After;
    Parts(data, k, n);
    NothingAfter(was, block, lo, off, data);
    AfterSays(was, block, lo, off, data, k);
    var v := After(was, block, lo, off, data, k);
    NothingAfter(v, block, gap, off + k, data[k..][..n]);
    if k == 0 {
      SameAfter(was, block, lo, off, data[k..][..n], data, n);
    } else if n > 0 {
      var head, more := Fill(off - lo) + data[..k], data[k..][..n];
      AfterSays(was, block, lo, off, data, k + n);
      AfterTwice(was, block, lo, head, more);
      assert head + more == Fill(off - lo) + (data[..k] + more);
    }
  }

  lemma UpdatedTwice<T>(s: seq<T>, i: nat, x: T, y: T)
    requires i < |s|
    ensures s[i := x][i := y] == s[i := y] && s[i := x][i] == x
  {
  }

  lemma NothingAfter(was: seq<seq<Octet>>, block: nat, lo: nat, off: nat, data: seq<Octet>)
    requires block < |was| && lo <= off && off + |data| <= |was[block]|
    ensures After(was, block, lo, off, data, 0) == was
  {
  }

  lemma AfterSays(was: seq<seq<Octet>>, block: nat, lo: nat, off: nat, data: seq<Octet>, k: nat)
    requires block < |was| && lo <= off && k <= |data| && off + |data| <= |was[block]|
    ensures var v := After(was, block, lo, off, data, k); |v| == |was| && |v[block]| == |was[block]|
    ensures k > 0 ==> After(was, block, lo, off, data, k)
                      == was[block := Overlay(was[block], lo, Fill(off - lo) + data[..k])]
  {
    hide Overlay, Fill;
  }

  lemma SameAfter(was: seq<seq<Octet>>, block: nat, lo: nat, off: nat, a: seq<Octet>, b: seq<Octet>, n: nat)
    requires block < |was| && lo <= off && n <= |a| && n <= |b| && a[..n] == b[..n]
    requires off + |a| <= |was[block]| && off + |b| <= |was[block]|
    ensures After(was, block, lo, off, a, n) == After(was, block, lo, off, b, n)
  {
    hide Overlay, Fill;
  }

  lemma AfterTwice(was: seq<seq<Octet>>, block: nat, lo: nat, head: seq<Octet>, more: seq<Octet>)
    requires block < |was| && lo + |head| + |more| <= |was[block]| && more != []
    ensures var v := was[block := Overlay(was[block], lo, head)];
            After(v, block, lo + |head|, lo + |head|, more, |more|)
            == was[block := Overlay(was[block], lo, head + more)]
  {
    hide Overlay, Fill;
    NoGap(more);
    assert more[..|more|] == more;
    OverlayTwice(was[block], lo, head, more);
    UpdatedTwice(was, block, Overlay(was[block], lo, head), Overlay(was[block], lo, head + more));
  }

  lemma Parts(data: seq<Octet>, k: nat, n: nat)
    requires k + n <= |data|
    ensures data[k..][..n][..n] == data[k..][..n] && data[..k] + data[k..][..n] == data[..k + n]
    ensures data[..0] + data[0..][..n] == data[..n] == data[0..][..n]
  {
  }

  lemma NoGap(data: seq<Octet>)
    ensures Fill(0) + data == data
  {
  }

  /** A request of which k bytes are done: readers see exactly those, behind the gap; the programs made
      so far tile the block up to where the waiting bytes start; and nothing past them waits. */
  predicate Progress(q: Request, k: nat, unit: nat, views: seq<seq<Octet>>, r: Region, made: seq<Program>)
    requires unit > 0
  {
    var at := q.off + k;
    && WellPosed(q) && k <= |q.data|
    && (k > 0 && r.block != BLOCK_NULL ==> r.block == q.block && r.off <= at <= End(r))
    && Max(End(r), at) == Max(End(q.start), at)
    && Gap(r, at, unit) == (if k == 0 then Gap(q.start, q.off, unit) else at)
    && views == After(q.was, q.block, Gap(q.start, q.off, unit), q.off, q.data, k)
    && Tiling(made, q.block, Start(q.start, q.off, unit), Start(r, at, unit), unit)
  }

  lemma Begin(q: Request, unit: nat)
    requires unit > 0 && WellPosed(q)
    ensures Progress(q, 0, unit, q.was, q.start, [])
  {
  }

  /** Doing a request in two parts does the request. */
  lemma Compose(q: Request, k: nat, n: nat, unit: nat, v: seq<seq<Octet>>, r: Region, made: seq<Program>,
                v': seq<seq<Octet>>, r': Region, more: seq<Program>)
    requires unit > 0 && k + n <= |q.data| && Progress(q, k, unit, v, r, made)
    requires Progress(Request(q.block, q.off + k, q.data[k..][..n], r, v), n, unit, v', r', more)
    requires n == 0 ==> r' == r
    ensures Progress(q, k + n, unit, v', r', made + more)
  {
    hide After, Tiling, Start;
    var at := q.off + k;
    var next := at + n;
    assert q.off + (k + n) == next;
    AfterMore(q.was, q.block, Gap(q.start, q.off, unit), q.off, q.data, k, n, Gap(r, at, unit));
    TilingAppend(made, more, q.block, Start(q.start, q.off, unit), Start(r, at, unit), Start(r', next, unit), unit);
  }

  /** A request that started at a program unit with nothing waiting leaves nothing waiting past its end. */
  lemma AtEnd(q: Request, k: nat, unit: nat, v: seq<seq<Octet>>, r: Region, made: seq<Program>)
    requires unit > 0 && Progress(q, k, unit, v, r, made) && q.start.block == BLOCK_NULL && Aligned(q.off, unit)
    requires k == 0 ==> r.block == BLOCK_NULL
    ensures r.block != BLOCK_NULL ==> r.block == q.block && r.off <= q.off + k == End(r)
    ensures Gap(r, q.off + k, unit) == q.off + k
    ensures WellPosed(q) && k <= |q.data| && v == After(q.was, q.block, q.off, q.off, q.data, k)
    ensures Tiling(made, q.block, q.off, Start(r, q.off + k, unit), unit)
  {
    AlignDownIs(q.off, unit);
  }

  lemma AllAfter(q: Request, unit: nat)
    requires unit > 0 && WellPosed(q) && q.data != []
    ensures var gap := Gap(q.start, q.off, unit);
            After(q.was, q.block, gap, q.off, q.data, |q.data|)
            == q.was[q.block := Overlay(q.was[q.block], gap, Fill(q.off - gap) + q.data)]
  {
    assert q.data[..|q.data|] == q.data;
  }

  lemma GrownEnds(r: Region, lo: nat, piece: seq<Octet>)
    requires r.off <= lo <= r.off + |r.data|
    ensures var g := Grown(r, lo, piece);
            g.block == r.block && g.off == r.off && g.off + |g.data| == Max(r.off + |r.data|, lo + |piece|)
  {
  }

  /** Copying part of a request into the cache, and programming the cache if that fills it, is progress. */
  lemma PutIsProgress(q: Request, r: Region, cache: nat, unit: nat, views: seq<seq<Octet>>)
    requires unit > 0 && WellPosed(q) && q.data != [] && q.start.block == q.block && q.start.block != BLOCK_NULL
    requires Aligned(q.start.off, unit) && Aligned(cache, unit) && |q.start.data| < cache
    requires q.start.off <= q.off && q.off + |q.data| <= q.start.off + cache
    requires var gap := Gap(q.start, q.off, unit);
             && r == Grown(q.start, gap, Fill(q.off - gap) + q.data)
             && views == q.was[q.block := Overlay(q.was[q.block], gap, Fill(q.off - gap) + q.data)]
    ensures if |r.data| == cache
            then Progress(q, |q.data|, unit, views, Region(BLOCK_NULL, 0, []), [Program(q.block, r.off, cache)])
            else Progress(q, |q.data|, unit, views, r, [])
  {
    hide Overlay, AlignUp, AlignDown, After;
    AllAfter(q, unit);
    GrownEnds(q.start, Gap(q.start, q.off, unit), Fill(q.off - Gap(q.start, q.off, unit)) + q.data);
    if |r.data| == cache {
      AlignedSum(q.start.off, cache, unit);
      AlignDownIs(q.start.off + cache, unit);
      assert q.off + |q.data| == q.start.off + cache;
      assert Tiling([Program(q.block, r.off, cache)], q.block, r.off, r.off + cache, unit);
    }
  }

  lemma PrepareIsProgress(q: Request, k: nat, unit: nat, v: seq<seq<Octet>>, r: Region, r': Region, made: seq<Program>)
    requires unit > 0 && Progress(q, k, unit, v, r, made) && r.block == BLOCK_NULL
    requires r' == Region(q.block, AlignDown(q.off + k, unit), [])
    ensures Progress(q, k, unit, v, r', made)
  {
    AlignDownIs(q.off + k, unit);
  }

  /** A sync after a request that started at a program unit with nothing waiting. */
  lemma AfterAll(was: seq<seq<Octet>>, block: nat, off: nat, data: seq<Octet>, pad: nat)
    requires block < |was| && off + |data| + pad <= |was[block]|
    ensures var v := After(was, block, off, off, data, |data|);
            |v| == |was| && |v[block]| == |was[block]|
            && v[block := Overlay(v[block], off + |data|, Fill(pad))] == was[block := Overlay(was[block], off,
               data + Fill(pad))]
    ensures pad == 0 ==> After(was, block, off, off, data, |data|) == was[block := Overlay(was[block], off,
              data + Fill(pad))]
  {
    assert data[..|data|] == data && Fill(0) + data == data;
    assert data == [] ==> Overlay(was[block], off, data) == was[block];
    OverlayTwice(was[block], off, data, Fill(pad));
    assert pad == 0 ==> data + Fill(pad) == data;
  }

  lemma NextChunk(chunks: seq<seq<Octet>>, i: nat)
    requires i < |chunks|
    ensures var sent := |Concat(chunks[..i])|;
            && |Concat(chunks[..i + 1])| == sent + |chunks[i]| <= |Concat(chunks)|
            && Concat(chunks)[sent..][..|chunks[i]|] == chunks[i]
  {
    ConcatBounds(chunks, i + 1);
    assert chunks[..i + 1][..i] == chunks[..i];
    var data, now := Concat(chunks), Concat(chunks[..i + 1]);
    assert now == Concat(chunks[..i]) + chunks[i];
    assert data[..|now|] == now;
  }

  function Concat(chunks: seq<seq<Octet>>): seq<Octet> {
    if chunks == [] then [] else Concat(chunks[..|chunks| - 1]) + chunks[|chunks| - 1]
  }

  lemma {:induction false} ConcatBounds(chunks: seq<seq<Octet>>, i: nat)
    requires i <= |chunks|
    ensures Concat(chunks[..i]) <= Concat(chunks)
    decreases |chunks|
  {
    if i == |chunks| {
      assert chunks[..i] == chunks;
    } else {
      assert chunks[..|chunks| - 1][..i] == chunks[..i];
      ConcatBounds(chunks[..|chunks| - 1], i);
    }
  }
}
