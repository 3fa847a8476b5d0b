/**
 mm/kmalloc.c while a single table exists: kmalloc with its last-pool shortcut, its two
 table scans and the opening of pools, and kfree.
 */
module KernelHeap {
  import opened HeapSpec
  import P = PageSpec
  import opened PageAllocator

  /**
   SecondTable: the code would now link another table in front of the root. NoPages: kpage_alloc
   returned the null pointer, which the code uses as an address. OffTheBitmap: kpage_alloc read past its
   bitmap. TooLarge: the size arithmetic has wrapped and the new pool cannot hold the request.
   */
  datatype Outcome = Got(addr: nat) | SecondTable | NoPages | OffTheBitmap | TooLarge

  /** Panicked: kpage_free refused the pool's first page. */
  datatype Freeing = KeptPool | GaveBack | Panicked

  /** sizeof(table_t), 392 bytes, in pages. */
  const TABLE_PAGES := 1

  class KernelHeap {
    /** root != NULL. */
    var rooted: bool
    /** nr_slots of the root table, an unsigned 32-bit number. */
    var nrSlots: nat
    const sizes: array<Pool>
    var headers: Headers
    /** The statics ptr (-1 is NULL) and nr_slot. */
    var ptr: int
    var nrSlot: nat
    const pages: PageAllocator
    /** The live runs of the page allocator, the heap's and everybody else's, and the pages reserved at boot. */
    ghost var live: seq<P.Run>
    ghost const reserved: nat
    /** Frees that did not give a pool back; each of them lowered nr_slots all the same. */
    ghost var lowered: nat

    constructor (pages: PageAllocator, ghost live: seq<P.Run>, ghost reserved: nat)
      requires P.Accounted(pages.State(), reserved, live) && P.Anchored(pages.State(), live) && reserved > 0
      ensures Valid() && Live(sizes[..], headers) == {} && fresh(sizes) && this.pages == pages
      ensures !rooted && lowered == 0 && this.live == live && this.reserved == reserved
    {
      this.pages, this.live, this.reserved := pages, live, reserved;
      rooted, nrSlots, headers, ptr, nrSlot, lowered := false, 0, map[], -1, 0, 0;
      sizes := new Pool[NR_SIZES](_ => ZERO_MEM);
      new;
      OccupiedFull(sizes[..]);
    }

    ghost predicate Valid()
      reads this, sizes, pages, pages.mem
    {
      Tabled() && Paged()
    }

    /** The page allocator is in order and every pool stands on a live run of its own. */
    ghost predicate Paged()
      reads this`live, sizes, pages, pages.mem
    {
      P.Accounted(pages.State(), reserved, live) && P.Anchored(pages.State(), live) && reserved > 0 && Backed(sizes[..], live)
    }

    ghost predicate Tabled()
      reads this, sizes
    {
      && sizes.Length == NR_SIZES && HeapOk(sizes[..], headers)
      && -1 <= ptr < NR_SIZES && (ptr >= 0 ==> rooted && nrSlot == ptr)
      && (!rooted ==> nrSlots == 0 && lowered == 0 && forall i | 0 <= i < NR_SIZES :: sizes[i].nrBlocks == 0)
      && nrSlots < TWO_32 && (nrSlots + lowered - Occupied(sizes[..])) % TWO_32 == 0
    }

    /** First chunk whose header says FREE_MEM. */
    method FindFree(i: nat) returns (ghost k: nat, mptr: nat)
      requires Tabled() && i < NR_SIZES && sizes[i].nrAlloc < sizes[i].nrBlocks
      ensures k < sizes[i].nrBlocks && !UsedAt(headers, sizes[i], k) && mptr == Chunk(sizes[i].memory, sizes[i].rsize, k)
      ensures forall j | 0 <= j < k :: UsedAt(headers, sizes[i], j)
    {
      var p := sizes[i];
      assert PoolOk(sizes[..][i], i, headers);
      var j := 0;
      mptr := p.memory;
      while j < p.nrBlocks && headers[mptr].used
        invariant 0 <= j <= p.nrBlocks && mptr == Chunk(p.memory, p.rsize, j)
        invariant Count(headers, p.memory, p.rsize, j) == j && forall l | 0 <= l < j :: UsedAt(headers, p, l)
      {
        j := j + 1;
        mptr := mptr + p.rsize;
      }
      k := j;
    }

    /** The test made on a pool before its headers are searched; rsize - 8 wraps for an unoccupied pool. */
    predicate Serves(p: Pool, size: nat)
    {
      size <= (p.rsize - HEADER) % TWO_32 && p.nrBlocks > p.nrAlloc
    }

    /** In a table that is in order the wrap never shows: a pool serves exactly if it has a free chunk that is large enough. */
    lemma ServesExact(i: nat, size: nat)
      requires Tabled() && i < NR_SIZES && size < TWO_32 && sizes[i].rsize < TWO_32
      ensures Serves(sizes[i], size) <==> sizes[i].nrAlloc < sizes[i].nrBlocks && size + HEADER <= sizes[i].rsize
    {
      assert PoolOk(sizes[..][i], i, headers);
    }

    /** Hands out a chunk of pool i, whose number the header must carry. */
    method Take(i: nat, size: nat, slot: nat) returns (addr: nat, ghost k: nat)
      requires Valid() && i < NR_SIZES && Serves(sizes[i], size) && rooted && slot == i
      modifies this, sizes
      ensures Valid() && ptr == i && Given(old(sizes[..]), old(headers), addr, i, k, size)
      ensures lowered == old(lowered) && live == old(live)
    {
      hide HeapOk, Live, Occupied, Backed, P.Accounted, P.Anchored;
      var p := sizes[i];
      ghost var pools := sizes[..];
      OccupiedPool(pools, headers, i);
      k, addr := FindFree(i);
      TakeOk(pools, headers, i, k);
      OccupiedUpdate(pools, i, p.(nrAlloc := p.nrAlloc + 1));
      StillBacked(pools, live, i, p.(nrAlloc := p.nrAlloc + 1));
      LiveInRange(pools, headers);
      headers := headers[addr := Header(slot, true)];
      sizes[i] := p.(nrAlloc := p.nrAlloc + 1);
      ptr, nrSlot := i, slot;
      assert sizes[..] == pools[i := p.(nrAlloc := p.nrAlloc + 1)];
      addr := addr + HEADER;
    }

    /** addr is a chunk of pool i that was not live, is live now, and can hold size bytes; nothing else moved. */
    ghost predicate Given(pools: seq<Pool>, h: Headers, addr: nat, i: nat, k: nat, size: nat)
      requires |pools| == sizes.Length
      reads this, sizes
    {
      && i < sizes.Length && k < sizes[i].nrBlocks
      && addr == Chunk(sizes[i].memory, sizes[i].rsize, k) + HEADER && size + HEADER <= sizes[i].rsize
      && (i, k) !in Live(pools, h) && Live(sizes[..], headers) == Live(pools, h) + {(i, k)}
      && forall j, l | (j, l) in Live(pools, h) ::
           j < |pools| && sizes[j].memory == pools[j].memory && sizes[j].rsize == pools[j].rsize
    }

    /** kpage_alloc gives no run of n pages: the quota is used up, or no run is free. */
    ghost predicate Refuses(m: P.Memory, n: nat)
    {
      P.OverQuota(m.kernel) || P.Choose(m.used, m.kernel, n).None?
    }

    /** kpage_alloc may look past its bitmap for n pages. */
    ghost predicate RunsOff(m: P.Memory, n: nat)
    {
      !P.OverQuota(m.kernel) && pages.Top(m.kernel) + n > 8 * pages.mem.Length
    }

    /** On the first call: for the table's page, or, once it has one, for the pool. */
    ghost predicate FirstRunsOff(m: P.Memory, size: nat)
    {
      var table := P.Choose(m.used, m.kernel, TABLE_PAGES);
      RunsOff(m, TABLE_PAGES) || (table.At? && RunsOff(P.AllocDone(m, P.Kernel, table.page, TABLE_PAGES), PagesFor(RealSize(size))))
    }

    /** On the first call: no page for the table, or, once it has one, none for the pool. */
    ghost predicate NoRoom(m: P.Memory, size: nat)
    {
      var table := P.Choose(m.used, m.kernel, TABLE_PAGES);
      Refuses(m, TABLE_PAGES) || Refuses(P.AllocDone(m, P.Kernel, table.page, TABLE_PAGES), PagesFor(RealSize(size)))
    }

    /** In state m, kpage_alloc has chosen the n pages at addr. */
    ghost predicate Granted(m: P.Memory, n: nat, addr: nat)
      reads pages, pages.mem
    {
      && P.Choose(m.used, m.kernel, n) == P.At(addr / NR_PAGE_SIZE) && addr % NR_PAGE_SIZE == 0
      && pages.State() == P.AllocDone(m, P.Kernel, addr / NR_PAGE_SIZE, n)
    }

    /** kpage_alloc; the run granted joins the live ones. */
    method GetPages(n: nat) returns (r: Grant)
      requires Paged() && n > 0
      modifies this`live, pages, pages.mem
      ensures r.Null? ==> Refuses(old(pages.State()), n)
      ensures r.Beyond? ==> RunsOff(old(pages.State()), n)
      ensures r.Address? ==> Paged() && r.addr % NR_PAGE_SIZE == 0 && !Refuses(old(pages.State()), n)
      ensures r.Address? ==> var page := P.Choose(old(pages.Used()), old(pages.kernel), n).page;
                pages.State() == P.AllocDone(old(pages.State()), P.Kernel, page, n)
      ensures r.Address? ==> P.Fits(old(pages.Used()), r.addr / NR_PAGE_SIZE, n) && Granted(old(pages.State()), n, r.addr)
      ensures r.Address? ==> live == old(live) + [P.Run(P.Kernel, r.addr / NR_PAGE_SIZE, n)]
    {
      hide Backed, P.Choose, P.Fits, P.Pages, P.Marks, P.Apart, P.Total;
      ghost var m := pages.State();
      r := pages.Alloc(P.Kernel, n);
      if r.Address? {
        ghost var page := r.addr / NR_PAGE_SIZE;
        P.AllocFits(m.used, m.kernel, n);
        P.AllocAccounted(m, reserved, live, P.Kernel, page, n);
        ghost var live' := live + [P.Run(P.Kernel, page, n)];
        P.StepAnchored(m, live, P.Alloc(P.Kernel, n), pages.State(), live');
        MoreLive(sizes[..], live, P.Run(P.Kernel, page, n));
        live := live';
      }
    }

    lemma MoreLive(pools: seq<Pool>, live: seq<P.Run>, r: P.Run)
      requires Backed(pools, live)
      ensures Backed(pools, live + [r])
    {
    }

    /** Pool i has been opened for the request on the pages that kpage_alloc chooses in state m. */
    ghost predicate Opened(m: P.Memory, i: nat, size: nat)
      reads this, sizes, pages, pages.mem
    {
      var n := PagesFor(RealSize(size));
      var c := P.Choose(m.used, m.kernel, n);
      && i < sizes.Length && sizes[i].rsize == RealSize(size) && sizes[i].nrPages == n
      && c.At? && sizes[i].memory == c.page * NR_PAGE_SIZE && pages.State() == P.AllocDone(m, P.Kernel, c.page, n)
    }

    /** On the first call the table has been given its page before. */
    ghost predicate FirstOpened(m: P.Memory, size: nat)
      reads this, sizes, pages, pages.mem
    {
      var table := P.Choose(m.used, m.kernel, TABLE_PAGES);
      table.At? && Opened(P.AllocDone(m, P.Kernel, table.page, TABLE_PAGES), 0, size)
    }

    /** Opens a pool for the request in the unoccupied slot i. */
    method OpenPool(i: nat, size: nat) returns (r: Outcome)
      requires Valid() && rooted && i < NR_SIZES && sizes[i].nrBlocks == 0 && size < TWO_32
      modifies this, sizes, pages, pages.mem
      ensures !r.SecondTable? && (r.TooLarge? <==> size > MAX_REQUEST)
      ensures r.NoPages? ==> Refuses(old(pages.State()), PagesFor(RealSize(size)))
      ensures r.OffTheBitmap? ==> RunsOff(old(pages.State()), PagesFor(RealSize(size)))
      ensures r.Got? ==> Valid() && rooted && ptr == i && Given(old(sizes[..]), old(headers), r.addr, i, 0, size)
      ensures r.Got? ==> Opened(old(pages.State()), i, size)
      ensures lowered == old(lowered)
    {
      hide HeapOk, Live, Occupied, Count, Chunk, RealSize, PagesFor, BlocksIn, Backed, P.Accounted, P.Anchored, P.Fits, P.Choose, Opened, Granted, Given;
      if size > MAX_REQUEST {
        return TooLarge;
      }
      SizesGood(size);
      var rsize := RealSize(size);
      var blocks := PagesFor(rsize);
      assert blocks > 0 by {
        RoundUp(rsize);
      }
      ghost var m, live0 := pages.State(), live;
      var grant := GetPages(blocks);
      if !grant.Address? {
        return if grant.Null? then NoPages else OffTheBitmap;
      }
      var p := Pool(size, rsize, BlocksIn(blocks, rsize), 1, blocks, grant.addr);
      GrantApart(sizes[..], m, reserved, live0, p);
      OpenBacked(sizes[..], live0, i, p);
      Occupy(i, p);
      IsOpened(m, i, size, grant.addr);
      return Got(grant.addr + HEADER);
    }

    lemma IsOpened(m: P.Memory, i: nat, size: nat, addr: nat)
      requires i < sizes.Length && sizes[i].rsize == RealSize(size) && sizes[i].nrPages == PagesFor(RealSize(size)) && sizes[i].memory == addr
      requires Granted(m, PagesFor(RealSize(size)), addr)
      ensures Opened(m, i, size)
    {
      hide RealSize, PagesFor, P.Choose, P.AllocDone;
    }

    /** Fills in the pool record and the headers. */
    method Occupy(i: nat, p: Pool)
      requires Tabled() && rooted && i < NR_SIZES && sizes[i].nrBlocks == 0
      requires HEADER <= p.rsize && p.nrBlocks == p.nrPages * NR_PAGE_SIZE / p.rsize >= 1
      requires p.memory > 0 && p.nrAlloc == 1 && forall j | 0 <= j < NR_SIZES :: Apart(p, sizes[j])
      modifies this`nrSlots, this`headers, this`ptr, this`nrSlot, sizes
      ensures Tabled() && rooted && ptr == i && sizes[..] == old(sizes[..])[i := p]
      ensures p.size + HEADER <= p.rsize ==> Given(old(sizes[..]), old(headers), p.memory + HEADER, i, 0, p.size)
    {
      hide HeapOk, PoolOk, Apart, Count, Live, Occupied, NewHeaders, InitHeaders;
      ghost var pools, h := sizes[..], headers;
      NewPoolOk(pools, h, i, p);
      OccupiedUpdate(pools, i, p);
      LiveInRange(pools, h);
      NotLiveYet(pools, h, i);
      nrSlots := (nrSlots + 1) % TWO_32;
      sizes[i] := p;
      InitPool(p, i);
      ptr, nrSlot := i, i;
      assert sizes[..] == pools[i := p];
    }

    /** The header loop of a new pool, and its first chunk marked. */
    method InitPool(p: Pool, slot: nat)
      requires p.nrBlocks > 0
      modifies this`headers
      ensures headers == NewHeaders(old(headers), p, slot)
    {
      var k, mptr := 0, p.memory;
      while k < p.nrBlocks
        invariant 0 <= k <= p.nrBlocks && mptr == Chunk(p.memory, p.rsize, k)
        invariant headers == InitHeaders(old(headers), p.memory, p.rsize, k)
      {
        headers := headers[mptr := Header(0, false)];
        k := k + 1;
        mptr := mptr + p.rsize;
      }
      headers := headers[p.memory := Header(slot, true)];
    }

    /** No pool can serve the request, and the second scan would not find an unoccupied slot either. */
    ghost predicate NeedsTable(size: nat)
      requires sizes.Length == NR_SIZES
      reads this, sizes
    {
      && rooted && (forall j | 0 <= j < NR_SIZES :: !Serves(sizes[j], size))
      && (nrSlots == NR_SIZES || forall j | 0 <= j < NR_SIZES :: sizes[j].nrBlocks != 0)
    }

    /** kmalloc. */
    method Kmalloc(size: nat) returns (r: Outcome, ghost i: nat, ghost k: nat)
      requires Valid() && size < TWO_32
      modifies this, sizes, pages, pages.mem
      ensures r.Got? ==> Valid() && Given(old(sizes[..]), old(headers), r.addr, i, k, size)
      ensures r.SecondTable? <==> old(NeedsTable(size))
      ensures r.SecondTable? ==> Valid() && sizes[..] == old(sizes[..]) && headers == old(headers)
      ensures r.TooLarge? ==> size > MAX_REQUEST
      ensures r.NoPages? ==> if old(rooted) then Refuses(old(pages.State()), PagesFor(RealSize(size)))
                             else NoRoom(old(pages.State()), size)
      ensures r.OffTheBitmap? ==> if old(rooted) then RunsOff(old(pages.State()), PagesFor(RealSize(size)))
                                  else FirstRunsOff(old(pages.State()), size)
      ensures old(rooted && exists j :: 0 <= j < NR_SIZES && Serves(sizes[j], size)) ==>
                && r.Got? && i < NR_SIZES && old(Serves(sizes[i], size)) && pages.State() == old(pages.State())
                && (i == old(ptr) || (old(ptr >= 0 ==> !Serves(sizes[ptr], size)) && forall j | 0 <= j < i :: !old(Serves(sizes[j], size))))
      ensures r.Got? && old(rooted && forall j | 0 <= j < NR_SIZES :: !Serves(sizes[j], size)) ==>
                && Opened(old(pages.State()), i, size)
                && old(sizes[i].nrBlocks) == 0 && forall j | 0 <= j < i :: old(sizes[j].nrBlocks) != 0
      ensures r.Got? && !old(rooted) ==> i == 0 && FirstOpened(old(pages.State()), size)
      ensures lowered == old(lowered)
    {
      hide HeapOk, Live, Occupied, Given, Paged, Refuses, NoRoom, RunsOff, FirstRunsOff, PagesFor, RealSize, Opened, FirstOpened;
      var addr;
      i, k := 0, 0;
      if ptr >= 0 && Serves(sizes[ptr], size) {
        i := ptr;
        addr, k := Take(ptr, size, nrSlot);
        return Got(addr), i, k;
      }
      if !rooted {
        r := OpenRoot(size);
        return r, 0, 0;
      }
      var n := 0;
      while n < NR_SIZES && !Serves(sizes[n], size)
        invariant 0 <= n <= NR_SIZES && forall j | 0 <= j < n :: !Serves(sizes[j], size)
      {
        n := n + 1;
      }
      if n < NR_SIZES {
        i := n;
        addr, k := Take(n, size, n);
        return Got(addr), i, k;
      }
      n := 0;
      while n < NR_SIZES && nrSlots != NR_SIZES && sizes[n].nrBlocks != 0
        invariant 0 <= n <= NR_SIZES && forall j | 0 <= j < n :: sizes[j].nrBlocks != 0
      {
        n := n + 1;
      }
      if n < NR_SIZES && nrSlots != NR_SIZES {
        i := n;
        r := OpenPool(n, size);
        return r, i, 0;
      }
      return SecondTable, i, k;
    }

    /** The first call: pages for the table itself, then the first pool. */
    method OpenRoot(size: nat) returns (r: Outcome)
      requires Valid() && !rooted && size < TWO_32
      modifies this, sizes, pages, pages.mem
      ensures !r.SecondTable? && (r.TooLarge? ==> size > MAX_REQUEST)
      ensures r.NoPages? ==> NoRoom(old(pages.State()), size)
      ensures r.OffTheBitmap? ==> FirstRunsOff(old(pages.State()), size)
      ensures r.Got? ==> Valid() && Given(old(sizes[..]), old(headers), r.addr, 0, 0, size) && FirstOpened(old(pages.State()), size)
      ensures lowered == old(lowered)
    {
      hide HeapOk, Live, Occupied, Given, Backed, P.Accounted, P.Anchored;
      var table := GetPages(TABLE_PAGES);
      if !table.Address? {
        return if table.Null? then NoPages else OffTheBitmap;
      }
      rooted := true;
      r := OpenPool(0, size);
    }

    /** The counter of occupied slots is right exactly while no free has lowered it without giving a pool back. */
    lemma SlotsExact()
      requires Tabled()
      ensures nrSlots == Occupied(sizes[..]) <==> lowered % TWO_32 == 0
    {
      CountersMeet(nrSlots, lowered, Occupied(sizes[..]));
    }

    lemma CountersMeet(slots: nat, lowered: nat, occupied: nat)
      requires slots < TWO_32 && occupied < TWO_32 && (slots + lowered - occupied) % TWO_32 == 0
      ensures slots == occupied <==> lowered % TWO_32 == 0
    {
      var q := (slots + lowered - occupied) / TWO_32;
      assert lowered == TWO_32 * q + (occupied - slots);
    }

    /** What a second table should be for: there is a table, no pool of it serves and every slot is occupied. */
    ghost predicate Exhausted(size: nat)
      requires sizes.Length == NR_SIZES
      reads this, sizes
    {
      rooted && forall j | 0 <= j < NR_SIZES :: !Serves(sizes[j], size) && sizes[j].nrBlocks != 0
    }

    /** The drifted counter says that all slots are taken while some are not. */
    ghost predicate LooksFull(size: nat)
      requires sizes.Length == NR_SIZES
      reads this, sizes
    {
      && rooted && (forall j | 0 <= j < NR_SIZES :: !Serves(sizes[j], size))
      && Occupied(sizes[..]) < NR_SIZES && (lowered + NR_SIZES - Occupied(sizes[..])) % TWO_32 == 0
    }

    /**
     In every state a second table is asked for exactly when the table is exhausted or only looks full,
     and it can look full only after almost 2^32 frees that kept their pool.
     */
    lemma TableExact(size: nat)
      requires Tabled()
      ensures NeedsTable(size) <==> Exhausted(size) || LooksFull(size)
      ensures (NeedsTable(size) <==> Exhausted(size)) <==> !LooksFull(size)
      ensures lowered < TWO_32 - NR_SIZES ==> !LooksFull(size)
    {
      hide HeapOk;
      OccupiedFull(sizes[..]);
      LooksExact(nrSlots, lowered, Occupied(sizes[..]));
      assert forall j | 0 <= j < NR_SIZES :: sizes[..][j] == sizes[j];
    }

    lemma LooksExact(slots: nat, lowered: nat, occupied: nat)
      requires slots < TWO_32 && occupied <= NR_SIZES && (slots + lowered - occupied) % TWO_32 == 0
      ensures slots == NR_SIZES <==> (lowered + NR_SIZES - occupied) % TWO_32 == 0
      ensures lowered < TWO_32 - NR_SIZES && (lowered + NR_SIZES - occupied) % TWO_32 == 0 ==> occupied == NR_SIZES
    {
      CountersMeet(slots, lowered + NR_SIZES - occupied, NR_SIZES);
    }

    /** kfree of a live chunk: pool i, chunk k. */
    method Kfree(addr: nat, ghost i: nat, ghost k: nat) returns (r: Freeing)
      requires Valid() && (i, k) in Live(sizes[..], headers) && i < NR_SIZES
      requires addr == Chunk(sizes[i].memory, sizes[i].rsize, k) + HEADER
      modifies this, sizes, pages, pages.mem
      ensures !r.Panicked? ==> Valid() && Live(sizes[..], headers) == old(Live(sizes[..], headers)) - {(i, k)}
      ensures !r.Panicked? ==> forall j, l | (j, l) in Live(sizes[..], headers) ::
                j < sizes.Length && sizes[j].memory == old(sizes[j].memory) && sizes[j].rsize == old(sizes[j].rsize)
      ensures r.KeptPool? <==> exists l :: l != k && (i, l) in old(Live(sizes[..], headers))
      ensures !r.KeptPool? ==> (r.Panicked? <==> old(RunOf(sizes[i]).page) > pages.kernel.limit)
      ensures r.GaveBack? ==> sizes[i].nrBlocks == 0 && pages.Used() == old(pages.Used()) - P.Pages(old(RunOf(sizes[i]).page), old(sizes[i].nrPages))
      ensures lowered == old(lowered) + (if r.KeptPool? then 1 else 0)
      ensures !r.Panicked? && old(nrSlots == Occupied(sizes[..])) ==> (nrSlots == Occupied(sizes[..]) <==> r.GaveBack?)
    {
      hide HeapOk, Live, Occupied, PoolOk, Paged, Chunk, P.Pages;
      ghost var pools, h := sizes[..], headers;
      FreeOk(pools, h, i, k);
      LiveHeader(pools, h, i, k);
      LiveInRange(pools, h);
      OccupiedUpdate(pools, i, Freed(pools[i]));
      SlotsExact();
      var hdr := addr - HEADER;
      var slot := headers[hdr].slot % NR_SIZES;
      headers := headers[hdr := headers[hdr].(used := false)];
      nrSlots := (nrSlots - 1) % TWO_32;
      var p := sizes[slot];
      p := p.(nrAlloc := p.nrAlloc - 1);
      r := KeptPool;
      if p.nrAlloc == 0 {
        r := ClosePool(slot, h);
        if r.Panicked? {
          return;
        }
      } else {
        KeepPool(slot, p);
      }
      assert sizes[..] == pools[i := Freed(pools[i])];
      SlotsExact();
    }

    /** The pool stays. */
    method KeepPool(i: nat, p: Pool)
      requires Paged() && i < sizes.Length && sizes[i].nrBlocks != 0
      requires p.nrPages == sizes[i].nrPages && p.memory == sizes[i].memory
      modifies this`lowered, sizes
      ensures Paged() && sizes[..] == old(sizes[..])[i := p] && lowered == old(lowered) + 1
    {
      StillBacked(sizes[..], live, i, p);
      hide Backed;
      lowered := lowered + 1;
      sizes[i] := p;
      assert sizes[..] == old(sizes[..])[i := p];
    }

    /** The last chunk is gone: kpage_free, then the record is cleared except for nr_pages. */
    method ClosePool(i: nat, ghost h: Headers) returns (r: Freeing)
      requires Paged() && sizes.Length == NR_SIZES && HeapOk(sizes[..], h) && i < NR_SIZES && sizes[i].nrBlocks != 0
      modifies this`live, sizes, pages, pages.mem
      ensures !r.KeptPool? && (r.Panicked? <==> old(RunOf(sizes[i]).page) > pages.kernel.limit)
      ensures r.GaveBack? ==> Paged() && sizes[..] == old(sizes[..])[i := Pool(0, 0, 0, 0, old(sizes[i].nrPages), 0)]
      ensures r.GaveBack? ==> pages.Used() == old(pages.Used()) - P.Pages(old(RunOf(sizes[i]).page), old(sizes[i].nrPages))
    {
      ghost var pools, m := sizes[..], pages.State();
      var p := sizes[i];
      ghost var l :| 0 <= l < |live| && live[l] == RunOf(p);
      InBitmap(l);
      CloseBacked(pools, h, live, i, l, Pool(0, 0, 0, 0, p.nrPages, 0));
      P.FreeAccounted(m, reserved, live, l);
      hide HeapOk, Backed, P.Marks, P.Apart, P.Total;
      var release := pages.Free(P.Kernel, p.memory, p.nrPages);
      if release.BadPage? {
        return Panicked;
      }
      P.StepAnchored(m, live, P.Free(l), pages.State(), P.Drop(live, l));
      live := P.Drop(live, l);
      sizes[i] := Pool(0, 0, 0, 0, p.nrPages, 0);
      assert sizes[..] == pools[i := Pool(0, 0, 0, 0, p.nrPages, 0)];
      return GaveBack;
    }

    /** A live run lies inside the bitmap. */
    lemma InBitmap(l: nat)
      requires P.Accounted(pages.State(), reserved, live) && l < |live| && live[l].n > 0
      ensures live[l].page + live[l].n <= 8 * pages.mem.Length
    {
      var p: nat := live[l].page + live[l].n - 1;
      assert P.Holds(live[l], p) && p in pages.Used();
    }
  }
}
