/**
 The pools of mm/kmalloc.c on values, while one table exists: fixed-size chunks carved out of
 page runs, each with a header that names its pool.
 */
module HeapSpec {
  import P = PageSpec

  const NR_PAGE_SIZE := 4096
  const NR_SIZES := 16
  const HEADER := 8
  const TWO_32 := 0x1_0000_0000

  /** is_free is FREE_MEM or USED_MEM. */
  datatype Header = Header(slot: nat, used: bool)

  /** mem_t; a pool with no blocks is unoccupied. */
  datatype Pool = Pool(size: nat, rsize: nat, nrBlocks: nat, nrAlloc: nat, nrPages: nat, memory: nat)

  const ZERO_MEM := Pool(0, 0, 0, 0, 0, 0)

  type Headers = map<nat, Header>

  /** Address of chunk k: what k steps of mptr += rsize reach. */
  function Chunk(base: nat, rsize: nat, k: nat): nat
  {
    if k == 0 then base else Chunk(base, rsize, k - 1) + rsize
  }

  function Count(h: Headers, base: nat, rsize: nat, n: nat): (c: nat)
    ensures c <= n
  {
    if n == 0 then 0
    else Count(h, base, rsize, n - 1) +
         (var a := Chunk(base, rsize, n - 1); if a in h && h[a].used then 1 else 0)
  }

  function UsedAt(h: Headers, p: Pool, k: nat): bool
  {
    var a := Chunk(p.memory, p.rsize, k);
    a in h && h[a].used
  }

  ghost predicate PoolOk(p: Pool, i: nat, h: Headers)
  {
    if p.nrBlocks == 0 then p.nrAlloc == 0
    else
      && HEADER <= p.rsize && p.nrBlocks == p.nrPages * NR_PAGE_SIZE / p.rsize && p.memory > 0
      && 0 < p.nrAlloc == Count(h, p.memory, p.rsize, p.nrBlocks)
      && forall k | 0 <= k < p.nrBlocks ::
           var a := Chunk(p.memory, p.rsize, k);
           a in h && (h[a].used ==> h[a].slot == i)
  }

  /** Two pools share no page. */
  ghost predicate Apart(p: Pool, q: Pool)
  {
    || p.nrBlocks == 0 || q.nrBlocks == 0
    || p.memory + p.nrPages * NR_PAGE_SIZE <= q.memory || q.memory + q.nrPages * NR_PAGE_SIZE <= p.memory
  }

  ghost predicate HeapOk(pools: seq<Pool>, h: Headers)
  {
    && |pools| == NR_SIZES
    && (forall i | 0 <= i < NR_SIZES :: PoolOk(pools[i], i, h))
    && (forall i, j | 0 <= i < j < NR_SIZES :: Apart(pools[i], pools[j]))
  }

  function Occupied(pools: seq<Pool>): (n: nat)
    ensures n <= |pools|
  {
    if pools == [] then 0
    else Occupied(pools[..|pools| - 1]) + (if pools[|pools| - 1].nrBlocks == 0 then 0 else 1)
  }

  lemma {:induction false} OccupiedUpdate(pools: seq<Pool>, i: nat, p: Pool)
    requires i < |pools|
    ensures Occupied(pools[i := p]) ==
            Occupied(pools) + (if p.nrBlocks == 0 then 0 else 1) - (if pools[i].nrBlocks == 0 then 0 else 1)
  {
    var n := |pools| - 1;
    if i < n {
      OccupiedUpdate(pools[..n], i, p);
      assert pools[i := p][..n] == pools[..n][i := p];
    } else {
      assert pools[i := p][..n] == pools[..n];
    }
  }

  lemma {:induction false} OccupiedFull(pools: seq<Pool>)
    ensures Occupied(pools) == |pools| <==> forall i | 0 <= i < |pools| :: pools[i].nrBlocks != 0
    ensures Occupied(pools) == 0 <==> forall i | 0 <= i < |pools| :: pools[i].nrBlocks == 0
  {
    if pools != [] {
      var n := |pools| - 1;
      OccupiedFull(pools[..n]);
      assert forall i | 0 <= i < n :: pools[..n][i] == pools[i];
    }
  }

  // ---------------------------------------------------------------- geometry

  lemma ChunkIs(base: nat, rsize: nat, k: nat)
    ensures Chunk(base, rsize, k) == base + k * rsize
  {
  }

  /** Chunks of one pool do not overlap. */
  lemma ChunksOrdered(base: nat, rsize: nat, j: nat, k: nat)
    requires j < k
    ensures Chunk(base, rsize, j) + rsize <= Chunk(base, rsize, k)
    decreases k - j
  {
  }

  /** Every chunk lies inside the pages of its pool. */
  lemma ChunkInside(p: Pool, k: nat)
    requires p.rsize > 0 && p.nrBlocks == p.nrPages * NR_PAGE_SIZE / p.rsize && k < p.nrBlocks
    ensures p.memory <= Chunk(p.memory, p.rsize, k)
    ensures Chunk(p.memory, p.rsize, k) + p.rsize <= p.memory + p.nrPages * NR_PAGE_SIZE
  {
    ChunkIs(p.memory, p.rsize, k + 1);
    DivTimes(p.nrPages * NR_PAGE_SIZE, p.rsize);
    TimesMono(k + 1, p.nrBlocks, p.rsize);
    ChunkIs(p.memory, p.rsize, k);
  }

  lemma DivTimes(t: nat, r: nat)
    requires r > 0
    ensures t / r * r <= t
  {
  }

  lemma TimesMono(a: nat, b: nat, r: nat)
    requires a <= b
    ensures a * r <= b * r
  {
  }

  /** No two chunks of the heap overlap, whatever pools they belong to. */
  lemma ChunksDisjoint(pools: seq<Pool>, h: Headers, i: nat, k: nat, j: nat, l: nat)
    requires HeapOk(pools, h) && i < NR_SIZES && j < NR_SIZES
    requires k < pools[i].nrBlocks && l < pools[j].nrBlocks && (i != j || k != l)
    ensures var a, b := Chunk(pools[i].memory, pools[i].rsize, k), Chunk(pools[j].memory, pools[j].rsize, l);
            a + pools[i].rsize <= b || b + pools[j].rsize <= a
  {
    var p, q := pools[i], pools[j];
    assert PoolOk(p, i, h) && PoolOk(q, j, h);
    if i == j {
      if k < l {
        ChunksOrdered(p.memory, p.rsize, k, l);
      } else {
        ChunksOrdered(p.memory, p.rsize, l, k);
      }
    } else {
      ChunkInside(p, k);
      ChunkInside(q, l);
      assert if i < j then Apart(pools[i], pools[j]) else Apart(pools[j], pools[i]);
    }
  }

  // ---------------------------------------------------------------- counting

  lemma CountSame(h: Headers, h': Headers, base: nat, rsize: nat, n: nat)
    requires forall k | 0 <= k < n :: var a := Chunk(base, rsize, k);
               (a in h && h[a].used) == (a in h' && h'[a].used)
    ensures Count(h, base, rsize, n) == Count(h', base, rsize, n)
  {
  }

  /** Changing one header moves the count by one. */
  lemma CountOne(h: Headers, base: nat, rsize: nat, n: nat, k: nat, x: Header)
    requires rsize > 0
    ensures var a := Chunk(base, rsize, k);
            Count(h[a := x], base, rsize, n) ==
            Count(h, base, rsize, n)
            + (if k < n then (if x.used then 1 else 0) - (if a in h && h[a].used then 1 else 0) else 0)
  {
    if n > 0 {
      CountOne(h, base, rsize, n - 1, k, x);
      if k < n - 1 {
        ChunksOrdered(base, rsize, k, n - 1);
      } else if k > n - 1 {
        ChunksOrdered(base, rsize, n - 1, k);
      }
    }
  }

  // ---------------------------------------------------------------- operations

  /** The chunks handed out: pairs of pool number and chunk number. */
  ghost function Live(pools: seq<Pool>, h: Headers): set<(nat, nat)>
  {
    set i: nat, k: nat | i < |pools| && k < pools[i].nrBlocks && UsedAt(h, pools[i], k) :: (i, k)
  }

  /** Rewriting the header of chunk k of pool i, and pool i's count with it. */
  lemma Reheader(pools: seq<Pool>, h: Headers, i: nat, k: nat, x: Header)
    requires HeapOk(pools, h) && i < NR_SIZES && k < pools[i].nrBlocks && (x.used ==> x.slot == i)
    requires x.used != UsedAt(h, pools[i], k)
    ensures var p := pools[i];
            var h' := h[Chunk(p.memory, p.rsize, k) := x];
            var n := p.nrAlloc + (if x.used then 1 else -1);
            && n == Count(h', p.memory, p.rsize, p.nrBlocks)
            && (n > 0 ==> PoolOk(p.(nrAlloc := n), i, h'))
            && (forall j | 0 <= j < NR_SIZES && j != i :: PoolOk(pools[j], j, h'))
            && (forall j, l | 0 <= j < NR_SIZES && 0 <= l < pools[j].nrBlocks ::
                  UsedAt(h', pools[j], l) == if j == i && l == k then x.used else UsedAt(h, pools[j], l))
  {
    var p := pools[i];
    assert PoolOk(p, i, h);
    var a := Chunk(p.memory, p.rsize, k);
    var h' := h[a := x];
    CountOne(h, p.memory, p.rsize, p.nrBlocks, k, x);
    forall j, l | 0 <= j < NR_SIZES && 0 <= l < pools[j].nrBlocks && (j != i || l != k)
      ensures Chunk(pools[j].memory, pools[j].rsize, l) != a
    {
      assert PoolOk(pools[j], j, h);
      ChunksDisjoint(pools, h, i, k, j, l);
    }
    forall j | 0 <= j < NR_SIZES && j != i
      ensures PoolOk(pools[j], j, h')
    {
      assert PoolOk(pools[j], j, h);
      CountSame(h, h', pools[j].memory, pools[j].rsize, pools[j].nrBlocks);
    }
  }

  /** Handing out chunk k of pool i. */
  lemma TakeOk(pools: seq<Pool>, h: Headers, i: nat, k: nat)
    requires HeapOk(pools, h) && i < NR_SIZES && k < pools[i].nrBlocks && !UsedAt(h, pools[i], k)
    ensures var p := pools[i];
            var pools' := pools[i := p.(nrAlloc := p.nrAlloc + 1)];
            var h' := h[Chunk(p.memory, p.rsize, k) := Header(i, true)];
            && HeapOk(pools', h') && (i, k) !in Live(pools, h) && Live(pools', h') == Live(pools, h) + {(i, k)}
  {
    var p := pools[i];
    var pools' := pools[i := p.(nrAlloc := p.nrAlloc + 1)];
    var h' := h[Chunk(p.memory, p.rsize, k) := Header(i, true)];
    Reheader(pools, h, i, k, Header(i, true));
    SameLive(pools, pools', h, h', i, k, true);
  }

  lemma SameLive(pools: seq<Pool>, pools': seq<Pool>, h: Headers, h': Headers, i: nat, k: nat, on: bool)
    requires |pools| == |pools'| == NR_SIZES && i < NR_SIZES && k < pools[i].nrBlocks
    requires forall j | 0 <= j < NR_SIZES ::
               pools'[j].memory == pools[j].memory && pools'[j].rsize == pools[j].rsize && pools'[j].nrBlocks == pools[j].nrBlocks
    requires forall j, l | 0 <= j < NR_SIZES && 0 <= l < pools[j].nrBlocks ::
               UsedAt(h', pools[j], l) == if j == i && l == k then on else UsedAt(h, pools[j], l)
    ensures Live(pools', h') == if on then Live(pools, h) + {(i, k)} else Live(pools, h) - {(i, k)}
  {
  }

  lemma CountZero(h: Headers, base: nat, rsize: nat, n: nat, k: nat)
    requires Count(h, base, rsize, n) == 0 && k < n
    ensures var a := Chunk(base, rsize, k); !(a in h && h[a].used)
  {
  }

  /** The pool record once one of its chunks has been freed; its pages go back with the last one. */
  function Freed(p: Pool): Pool
    requires p.nrAlloc > 0
  {
    if p.nrAlloc == 1 then Pool(0, 0, 0, 0, p.nrPages, 0) else p.(nrAlloc := p.nrAlloc - 1)
  }

  /** Taking back chunk k of pool i. */
  lemma FreeOk(pools: seq<Pool>, h: Headers, i: nat, k: nat)
    requires HeapOk(pools, h) && (i, k) in Live(pools, h)
    ensures i < NR_SIZES && k < pools[i].nrBlocks && pools[i].nrAlloc > 0
    ensures var p := pools[i];
            var a := Chunk(p.memory, p.rsize, k);
            var pools' := pools[i := Freed(p)];
            && a in h
            && HeapOk(pools', h[a := h[a].(used := false)])
            && Live(pools', h[a := h[a].(used := false)]) == Live(pools, h) - {(i, k)}
            && (pools'[i].nrBlocks == 0 <==> forall l | (i, l) in Live(pools, h) :: l == k)
  {
    var p := pools[i];
    assert PoolOk(p, i, h);
    var a := Chunk(p.memory, p.rsize, k);
    var x := h[a].(used := false);
    var h' := h[a := x];
    Reheader(pools, h, i, k, x);
    var mid := pools[i := p.(nrAlloc := p.nrAlloc - 1)];
    SameLive(pools, mid, h, h', i, k, false);
    if p.nrAlloc == 1 {
      forall l | 0 <= l < p.nrBlocks
        ensures !UsedAt(h', p, l)
      {
        CountZero(h', p.memory, p.rsize, p.nrBlocks, l);
      }
      DropPool(mid, h', i);
    } else {
      var l := AnyUsed(h', p.memory, p.rsize, p.nrBlocks);
      assert UsedAt(h', p, l) && (i, l) in Live(mid, h');
    }
  }

  lemma AnyUsed(h: Headers, base: nat, rsize: nat, n: nat) returns (k: nat)
    requires Count(h, base, rsize, n) > 0
    ensures k < n && var a := Chunk(base, rsize, k); a in h && h[a].used
  {
    k := n - 1;
    var a := Chunk(base, rsize, k);
    if !(a in h && h[a].used) {
      k := AnyUsed(h, base, rsize, n - 1);
    }
  }

  /** Forgetting a pool none of whose chunks is in use. */
  lemma DropPool(pools: seq<Pool>, h: Headers, i: nat)
    requires |pools| == NR_SIZES && i < NR_SIZES
    requires forall l | 0 <= l < pools[i].nrBlocks :: !UsedAt(h, pools[i], l)
    ensures Live(pools[i := Pool(0, 0, 0, 0, pools[i].nrPages, 0)], h) == Live(pools, h)
  {
  }

  /** The initialisation loop of a new pool, first n chunks. */
  function InitHeaders(h: Headers, base: nat, rsize: nat, n: nat): Headers
  {
    if n == 0 then h else InitHeaders(h, base, rsize, n - 1)[Chunk(base, rsize, n - 1) := Header(0, false)]
  }

  lemma {:induction false} InitAt(h: Headers, base: nat, rsize: nat, n: nat, k: nat)
    requires rsize > 0 && k < n
    ensures var h' := InitHeaders(h, base, rsize, n); Chunk(base, rsize, k) in h' && h'[Chunk(base, rsize, k)] == Header(0, false)
  {
    if k < n - 1 {
      InitAt(h, base, rsize, n - 1, k);
      ChunksOrdered(base, rsize, k, n - 1);
    }
  }

  lemma {:induction false} InitElsewhere(h: Headers, base: nat, rsize: nat, n: nat, a: nat)
    requires rsize > 0 && (a < base || Chunk(base, rsize, n) <= a)
    ensures var h' := InitHeaders(h, base, rsize, n); (a in h' <==> a in h) && (a in h ==> h'[a] == h[a])
  {
    if n > 0 {
      ChunkIs(base, rsize, n - 1);
      InitElsewhere(h, base, rsize, n - 1, a);
    }
  }

  /** The headers of a new pool p at slot i, its first chunk handed out. */
  function NewHeaders(h: Headers, p: Pool, i: nat): Headers
  {
    InitHeaders(h, p.memory, p.rsize, p.nrBlocks)[p.memory := Header(i, true)]
  }

  /** Opening a pool on fresh pages in an unoccupied slot. */
  lemma NewPoolOk(pools: seq<Pool>, h: Headers, i: nat, p: Pool)
    requires HeapOk(pools, h) && i < NR_SIZES && pools[i].nrBlocks == 0
    requires HEADER <= p.rsize && p.nrBlocks == p.nrPages * NR_PAGE_SIZE / p.rsize >= 1
    requires p.memory > 0 && p.nrAlloc == 1 && forall j | 0 <= j < NR_SIZES :: Apart(p, pools[j])
    ensures HeapOk(pools[i := p], NewHeaders(h, p, i))
    ensures Live(pools[i := p], NewHeaders(h, p, i)) == Live(pools, h) + {(i, 0)}
  {
    var pools', h' := pools[i := p], NewHeaders(h, p, i);
    NewPoolHeaders(h, p, i);
    forall j | 0 <= j < NR_SIZES && j != i && pools[j].nrBlocks > 0
      ensures PoolOk(pools[j], j, h') && forall l | 0 <= l < pools[j].nrBlocks :: UsedAt(h', pools[j], l) == UsedAt(h, pools[j], l)
    {
      OtherPoolKept(pools, h, i, p, j);
    }
    forall j: nat, l: nat
      ensures (j, l) in Live(pools', h') <==> (j, l) in Live(pools, h) + {(i, 0)}
    {
      if j < NR_SIZES && j != i {
        assert pools'[j] == pools[j];
      }
    }
    assert HeapOk(pools', h') by {
      forall j, l | 0 <= j < l < NR_SIZES
        ensures Apart(pools'[j], pools'[l])
      {
        assert Apart(pools[j], pools[l]);
      }
    }
  }

  lemma NewPoolHeaders(h: Headers, p: Pool, i: nat)
    requires HEADER <= p.rsize && p.nrBlocks == p.nrPages * NR_PAGE_SIZE / p.rsize >= 1 && p.memory > 0 && p.nrAlloc == 1
    ensures PoolOk(p, i, NewHeaders(h, p, i))
    ensures forall k | 0 <= k < p.nrBlocks :: UsedAt(NewHeaders(h, p, i), p, k) <==> k == 0
    ensures forall a | a < p.memory || p.memory + p.nrPages * NR_PAGE_SIZE <= a ::
              var h' := NewHeaders(h, p, i); (a in h' <==> a in h) && (a in h ==> h'[a] == h[a])
  {
    var g := InitHeaders(h, p.memory, p.rsize, p.nrBlocks);
    forall k | 0 <= k < p.nrBlocks
      ensures Chunk(p.memory, p.rsize, k) in g && g[Chunk(p.memory, p.rsize, k)] == Header(0, false)
    {
      InitAt(h, p.memory, p.rsize, p.nrBlocks, k);
    }
    CountNone(g, p.memory, p.rsize, p.nrBlocks);
    CountOne(g, p.memory, p.rsize, p.nrBlocks, 0, Header(i, true));
    forall k | 0 < k < p.nrBlocks
      ensures Chunk(p.memory, p.rsize, k) != p.memory
    {
      ChunksOrdered(p.memory, p.rsize, 0, k);
    }
    ChunkInside(p, p.nrBlocks - 1);
    forall a: nat | a < p.memory || p.memory + p.nrPages * NR_PAGE_SIZE <= a
      ensures (a in g <==> a in h) && (a in h ==> g[a] == h[a])
    {
      InitElsewhere(h, p.memory, p.rsize, p.nrBlocks, a);
    }
  }

  lemma CountNone(h: Headers, base: nat, rsize: nat, n: nat)
    requires forall k | 0 <= k < n :: var a := Chunk(base, rsize, k); a in h && !h[a].used
    ensures Count(h, base, rsize, n) == 0
  {
  }

  lemma OtherPoolKept(pools: seq<Pool>, h: Headers, i: nat, p: Pool, j: nat)
    requires HeapOk(pools, h) && i < NR_SIZES && j < NR_SIZES && j != i && pools[j].nrBlocks > 0
    requires HEADER <= p.rsize && p.nrBlocks == p.nrPages * NR_PAGE_SIZE / p.rsize >= 1 && p.memory > 0 && p.nrAlloc == 1
    requires Apart(p, pools[j])
    ensures PoolOk(pools[j], j, NewHeaders(h, p, i))
    ensures forall l | 0 <= l < pools[j].nrBlocks :: UsedAt(NewHeaders(h, p, i), pools[j], l) == UsedAt(h, pools[j], l)
  {
    var q, h' := pools[j], NewHeaders(h, p, i);
    assert PoolOk(q, j, h);
    NewPoolHeaders(h, p, i);
    forall l | 0 <= l < q.nrBlocks
      ensures var a := Chunk(q.memory, q.rsize, l); a in h' && h'[a] == h[a]
    {
      ChunkInside(q, l);
    }
    CountSame(h, h', q.memory, q.rsize, q.nrBlocks);
  }

  /** The header of a live chunk names its pool. */
  lemma LiveHeader(pools: seq<Pool>, h: Headers, i: nat, k: nat)
    requires HeapOk(pools, h) && (i, k) in Live(pools, h)
    ensures i < NR_SIZES && var a := Chunk(pools[i].memory, pools[i].rsize, k); a in h && h[a].slot == i
  {
  }

  lemma NotLiveYet(pools: seq<Pool>, h: Headers, i: nat)
    requires i < |pools| && pools[i].nrBlocks == 0
    ensures (i, 0) !in Live(pools, h)
  {
  }

  lemma LiveInRange(pools: seq<Pool>, h: Headers)
    ensures forall j, l | (j, l) in Live(pools, h) :: j < |pools| && l < pools[j].nrBlocks
  {
  }

  lemma OccupiedPool(pools: seq<Pool>, h: Headers, i: nat)
    requires HeapOk(pools, h) && i < NR_SIZES && pools[i].nrBlocks > 0
    ensures HEADER <= pools[i].rsize && PoolOk(pools[i], i, h)
  {
  }

  // ---------------------------------------------------------------- sizes

  /** rsize, blocks and nr_blocks as the 32-bit code computes them for a request. */
  function RealSize(size: nat): nat
  {
    var tmp := (size + HEADER) % TWO_32;
    (tmp / 4 + (if tmp % 4 != 0 then 1 else 0)) * 4 % TWO_32
  }

  function PagesFor(rsize: nat): nat
  {
    rsize / NR_PAGE_SIZE + (if rsize % NR_PAGE_SIZE != 0 then 1 else 0)
  }

  function BlocksIn(pages: nat, rsize: nat): nat
    requires rsize > 0
  {
    pages * NR_PAGE_SIZE % TWO_32 / rsize
  }

  const MAX_REQUEST := 0xFFFF_EFF8

  /** A new pool can serve its first request exactly when the request is at most 4 GB less a page and a header. */
  lemma SizesExact(size: nat)
    requires size < TWO_32
    ensures size <= MAX_REQUEST <==>
            var r := RealSize(size); size + HEADER <= r && r > 0 && BlocksIn(PagesFor(r), r) >= 1
    ensures size <= MAX_REQUEST ==>
            var r := RealSize(size);
            && r < size + HEADER + 4 && r % 4 == 0 && r <= PagesFor(r) * NR_PAGE_SIZE < r + NR_PAGE_SIZE
            && BlocksIn(PagesFor(r), r) == PagesFor(r) * NR_PAGE_SIZE / r
  {
    if size <= MAX_REQUEST {
      SizesGood(size);
    } else {
      SizesBad(size);
    }
  }

  lemma SizesGood(size: nat)
    requires size <= MAX_REQUEST
    ensures var r := RealSize(size);
            && size + HEADER <= r < size + HEADER + 4 && r % 4 == 0 && r <= PagesFor(r) * NR_PAGE_SIZE < r + NR_PAGE_SIZE
            && BlocksIn(PagesFor(r), r) == PagesFor(r) * NR_PAGE_SIZE / r >= 1
  {
    hide RealSize, PagesFor, BlocksIn;
    RealSizeIs(size);
    var r := RealSize(size);
    RoundUp(r);
    BlocksAre(PagesFor(r) * NR_PAGE_SIZE, PagesFor(r), r);
    AtLeastOnce(PagesFor(r) * NR_PAGE_SIZE, r);
  }

  lemma BlocksAre(bytes: nat, pages: nat, r: nat)
    requires bytes == pages * NR_PAGE_SIZE < TWO_32 && r > 0
    ensures BlocksIn(pages, r) == bytes / r
  {
  }

  lemma RealSizeIs(size: nat)
    requires size + HEADER <= TWO_32 - 4
    ensures size + HEADER <= RealSize(size) < size + HEADER + 4 && RealSize(size) % 4 == 0
  {
  }

  lemma RoundUp(r: nat)
    ensures r <= PagesFor(r) * NR_PAGE_SIZE < r + NR_PAGE_SIZE
    ensures r <= 0xFFFF_F000 ==> PagesFor(r) * NR_PAGE_SIZE <= 0xFFFF_F000
  {
  }

  lemma AtLeastOnce(t: nat, r: nat)
    requires 0 < r <= t
    ensures t / r >= 1
  {
  }

  lemma SizesBad(size: nat)
    requires MAX_REQUEST < size < TWO_32
    ensures var r := RealSize(size); r < size + HEADER || r == 0 || BlocksIn(PagesFor(r), r) == 0
  {
    var r := RealSize(size);
    if size < TWO_32 - 11 {
      RealSizeIs(size);
      assert PagesFor(r) == 0x10_0000;
    }
  }

  // ---------------------------------------------------------------- the pages behind the pools

  /** The pages of a pool as the page allocator counts them. */
  function RunOf(p: Pool): P.Run
  {
    P.Run(P.Kernel, p.memory / NR_PAGE_SIZE, p.nrPages)
  }

  /** Every occupied pool lies on a live run of kernel pages. */
  ghost predicate Backed(pools: seq<Pool>, live: seq<P.Run>)
  {
    forall i | 0 <= i < |pools| && pools[i].nrBlocks != 0 ::
      pools[i].nrPages > 0 && pools[i].memory % NR_PAGE_SIZE == 0 && RunOf(pools[i]) in live
  }

  /** What the page allocator grants overlaps no pool and does not start at address 0. */
  lemma GrantApart(pools: seq<Pool>, m: P.Memory, reserved: nat, live: seq<P.Run>, p: Pool)
    requires Backed(pools, live) && P.Accounted(m, reserved, live) && reserved > 0
    requires p.nrPages > 0 && p.memory % NR_PAGE_SIZE == 0 && P.Fits(m.used, p.memory / NR_PAGE_SIZE, p.nrPages)
    ensures p.memory > 0 && forall j | 0 <= j < |pools| :: Apart(p, pools[j])
  {
    var r := RunOf(p);
    P.AllocApart(m.used, reserved, live, r);
    assert (live + [r])[|live|] == r;
    forall j | 0 <= j < |pools| && pools[j].nrBlocks != 0
      ensures Apart(p, pools[j])
    {
      var q := pools[j];
      var l :| 0 <= l < |live| && live[l] == RunOf(q);
      assert P.Disjoint((live + [r])[l], (live + [r])[|live|]);
      PageGap(p, q);
      PageGap(q, p);
    }
  }

  lemma PageGap(p: Pool, q: Pool)
    requires p.memory % NR_PAGE_SIZE == 0 && q.memory % NR_PAGE_SIZE == 0
    ensures p.memory / NR_PAGE_SIZE + p.nrPages <= q.memory / NR_PAGE_SIZE ==> p.memory + p.nrPages * NR_PAGE_SIZE <= q.memory
  {
  }

  /** A pool opened on a new run. */
  lemma OpenBacked(pools: seq<Pool>, live: seq<P.Run>, i: nat, p: Pool)
    requires Backed(pools, live) && i < |pools| && p.nrPages > 0 && p.memory % NR_PAGE_SIZE == 0
    ensures Backed(pools[i := p], live + [RunOf(p)])
  {
  }

  /** A pool whose counts change stays on its run. */
  lemma StillBacked(pools: seq<Pool>, live: seq<P.Run>, i: nat, p: Pool)
    requires Backed(pools, live) && i < |pools| && pools[i].nrBlocks != 0
    requires p.nrPages == pools[i].nrPages && p.memory == pools[i].memory
    ensures Backed(pools[i := p], live)
  {
  }

  /** Two pools never stand on the same run. */
  lemma RunsDiffer(pools: seq<Pool>, h: Headers, live: seq<P.Run>, i: nat, j: nat)
    requires HeapOk(pools, h) && Backed(pools, live) && i < NR_SIZES && j < NR_SIZES && i != j
    requires pools[i].nrBlocks != 0 && pools[j].nrBlocks != 0
    ensures RunOf(pools[i]) != RunOf(pools[j])
  {
    assert Apart(pools[if i < j then i else j], pools[if i < j then j else i]);
  }

  /** The pool that loses its last chunk gives its run back, and the others keep theirs. */
  lemma CloseBacked(pools: seq<Pool>, h: Headers, live: seq<P.Run>, i: nat, l: nat, p: Pool)
    requires HeapOk(pools, h) && Backed(pools, live) && i < NR_SIZES && pools[i].nrBlocks != 0
    requires l < |live| && live[l] == RunOf(pools[i]) && p.nrBlocks == 0
    ensures Backed(pools[i := p], P.Drop(live, l))
  {
    LengthOf(pools, h);
    hide HeapOk;
    var pools', rest := pools[i := p], P.Drop(live, l);
    forall j | 0 <= j < |pools'| && pools'[j].nrBlocks != 0
      ensures pools'[j].nrPages > 0 && pools'[j].memory % NR_PAGE_SIZE == 0 && RunOf(pools'[j]) in rest
    {
      RunsDiffer(pools, h, live, i, j);
      var k :| 0 <= k < |live| && live[k] == RunOf(pools[j]);
      assert rest[if k < l then k else k - 1] == live[k];
    }
  }

  lemma LengthOf(pools: seq<Pool>, h: Headers)
    requires HeapOk(pools, h)
    ensures |pools| == NR_SIZES
  {
  }

  /** Calls of anybody else leave the pools on their runs, as long as they free only their own. */
  lemma OthersKeepBacked(pools: seq<Pool>, m: P.Memory, live: seq<P.Run>, e: P.Event, m': P.Memory, live': seq<P.Run>)
    requires Backed(pools, live) && P.Step(m, live, e, m', live')
    requires e.Free? ==> e.i < |live| && forall j | 0 <= j < |pools| && pools[j].nrBlocks != 0 :: RunOf(pools[j]) != live[e.i]
    ensures Backed(pools, live')
  {
    if e.Free? {
      forall j | 0 <= j < |pools| && pools[j].nrBlocks != 0
        ensures RunOf(pools[j]) in live'
      {
        var k :| 0 <= k < |live| && live[k] == RunOf(pools[j]);
        assert live'[if k < e.i then k else k - 1] == live[k];
      }
    }
  }
}
