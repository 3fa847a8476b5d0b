/**
 mm/page.c: the page bitmap in memory, the scanning loops over it, and the calls
 page_alloc, page_free, kpage_alloc and kpage_free, proved against PageSpec.
 */
module PageAllocator {
  import opened Bytes
  import opened PageSpec

  const PAGE_BITS := 32768
  const BITS_PER_BYTE := 8

  /** Outside: the scan would read past the bitmap. */
  datatype Scan = Found(page: nat) | Nothing | Outside

  /** The address returned, the null pointer, or a call that reads past the bitmap. */
  datatype Grant = Address(addr: nat) | Null | Beyond

  datatype Release = Done | BadPage | TooMany | Past

  class PageAllocator {
    /** mem_map, page after page; byte y of map block b is mem[4096 * b + y]. */
    const mem: array<Byte>
    var user: Region
    var kernel: Region

    /** mem_init: all clear, then the pages below the kernel's dynamic memory are reserved. */
    constructor (bytes: nat, user: Region, kernel: Region)
      requires kernel.start <= 8 * bytes
      requires user.held == kernel.held == 0 && user.last == kernel.last == 0
      ensures fresh(mem) && mem.Length == bytes && this.user == user && this.kernel == kernel
      ensures Used() == Pages(0, kernel.start) && Accounted(State(), kernel.start, []) && Anchored(State(), [])
    {
      mem := new Byte[bytes](_ => ZERO_BYTE);
      this.user, this.kernel := user, kernel;
      new;
      var i := 0;
      while i < kernel.start
        invariant 0 <= i <= kernel.start && this.user == user && this.kernel == kernel
        invariant forall p: nat | p < 8 * mem.Length :: Bit(p) <==> p < i
      {
        SetBit(i);
        i := i + 1;
      }
    }

    ghost predicate Bit(p: nat)
      requires p < 8 * mem.Length
      reads mem
    {
      BitGet(mem[..], p)
    }

    ghost function Used(): (u: set<nat>)
      reads mem
      ensures forall p: nat :: p in u <==> p < 8 * mem.Length && Bit(p)
    {
      set p: nat | p < 8 * mem.Length && Bit(p)
    }

    ghost function State(): Memory
      reads this, mem
    {
      Memory(Used(), user, kernel)
    }

    /** (block, byte, bit) name one bit each: together they are page / 8 and page % 8. */
    lemma Decompose(page: nat)
      ensures PAGE_SIZE * (page / PAGE_BITS) + page % PAGE_BITS / BITS_PER_BYTE == page / 8
      ensures page % PAGE_BITS % BITS_PER_BYTE == page % 8
    {
    }

    method SetBit(page: nat)
      requires page < 8 * mem.Length
      modifies mem
      ensures forall p: nat | p < 8 * mem.Length :: Bit(p) == (p == page || old(Bit(p)))
      ensures Used() == old(Used()) + {page}
    {
      var block := page / PAGE_BITS;
      var byte := page % PAGE_BITS / BITS_PER_BYTE;
      var bit := page % PAGE_BITS % BITS_PER_BYTE;
      Decompose(page);
      ghost var before := mem[..];
      mem[PAGE_SIZE * block + byte] := mem[PAGE_SIZE * block + byte][bit := true];
      assert mem[..] == BitSet(before, page, true);
      forall p: nat | p < 8 * mem.Length
        ensures Bit(p) == (p == page || old(Bit(p)))
      {
        BitSetExact(before, page, true, p);
      }
    }

    method ClearBit(page: nat)
      requires page < 8 * mem.Length
      modifies mem
      ensures forall p: nat | p < 8 * mem.Length :: Bit(p) == (p != page && old(Bit(p)))
      ensures Used() == old(Used()) - {page}
    {
      var block := page / PAGE_BITS;
      var byte := page % PAGE_BITS / BITS_PER_BYTE;
      var bit := page % PAGE_BITS % BITS_PER_BYTE;
      Decompose(page);
      ghost var before := mem[..];
      mem[PAGE_SIZE * block + byte] := mem[PAGE_SIZE * block + byte][bit := false];
      assert mem[..] == BitSet(before, page, false);
      forall p: nat | p < 8 * mem.Length
        ensures Bit(p) == (p != page && old(Bit(p)))
      {
        BitSetExact(before, page, false, p);
      }
    }

    method TestBit(page: nat) returns (on: bool)
      requires page < 8 * mem.Length
      ensures on <==> page in Used()
    {
      var block := page / PAGE_BITS;
      var byte := page % PAGE_BITS / BITS_PER_BYTE;
      var bit := page % PAGE_BITS % BITS_PER_BYTE;
      Decompose(page);
      on := mem[PAGE_SIZE * block + byte][bit];
    }

    /** One of the two scans of an allocation, with its skip past a run that does not fit. */
    method FindRun(from: nat, to: nat, n: nat) returns (r: Scan)
      ensures r.Outside? ==> to + n > 8 * mem.Length
      ensures r.Found? ==> r.page == FirstFit(Used(), from, to, n) < to && r.page + n <= 8 * mem.Length
      ensures r.Nothing? ==> FirstFit(Used(), from, to, n) >= to
    {
      var page := from;
      while page < to
        invariant FirstFit(Used(), from, to, n) == FirstFit(Used(), page, to, n)
        decreases if page < to then to - page else 0
      {
        if page >= 8 * mem.Length {
          return Outside;
        }
        var taken := TestBit(page);
        if !taken {
          var run := CountFree(page, n);
          if run < n && page + run >= 8 * mem.Length {
            return Outside;
          }
          if run == n {
            return Found(page);
          }
          Skip(Used(), page, page + run, to, n);
          page := page + run;
        }
        page := page + 1;
      }
      return Nothing;
    }

    /** The probing loop; it stops at a used page or where the bitmap ends. */
    method CountFree(page: nat, n: nat) returns (run: nat)
      requires page <= 8 * mem.Length
      ensures run <= n && FreeRun(Used(), page, run) && page + run <= 8 * mem.Length
      ensures run < n ==> page + run in Used() || page + run == 8 * mem.Length
    {
      run := 0;
      while run < n && page + run < 8 * mem.Length
        invariant run <= n && FreeRun(Used(), page, run) && page + run <= 8 * mem.Length
      {
        var taken := TestBit(page + run);
        if taken {
          return;
        }
        run := run + 1;
      }
    }

    method SetRun(page: nat, n: nat)
      requires page + n <= 8 * mem.Length
      modifies mem
      ensures Used() == old(Used()) + Pages(page, n)
    {
      var run := 0;
      while run < n
        invariant run <= n && Used() == old(Used()) + Pages(page, run)
      {
        SetBit(page + run);
        run := run + 1;
      }
    }

    method ClearRun(page: nat, n: nat)
      requires page + n <= 8 * mem.Length
      modifies mem
      ensures Used() == old(Used()) - Pages(page, n)
    {
      var run := 0;
      while run < n
        invariant run <= n && Used() == old(Used()) - Pages(page, run)
      {
        ClearBit(page + run);
        run := run + 1;
      }
    }

    ghost function Top(g: Region): nat
    {
      if g.limit < From(g) then From(g) else g.limit
    }

    /** page_alloc (User) and kpage_alloc (Kernel). */
    method Alloc(kind: Kind, n: nat) returns (r: Grant)
      modifies this, mem
      ensures var g := old(State().Get(kind)); r.Beyond? ==> !OverQuota(g) && Top(g) + n > 8 * mem.Length
      ensures r.Null? ==> State() == RefusedDone(old(State()), kind) && var g := old(State().Get(kind));
                OverQuota(g) || Choose(old(Used()), g, n).None?
      ensures r.Address? ==> var g := old(State().Get(kind));
                && !OverQuota(g) && Choose(old(Used()), g, n) == At(r.addr / PAGE_SIZE) && r.addr % PAGE_SIZE == 0
                && State() == AllocDone(old(State()), kind, r.addr / PAGE_SIZE, n)
    {
      hide FirstFit, Pages, Used, Choose, OverQuota;
      var g := if kind.User? then user else kernel;
      if OverQuota(g) {
        return Null;
      }
      var scan := Scans(g, n);
      if g.last == 0 {
        g := g.(last := g.start);
      }
      if scan.Outside? {
        return Beyond;
      }
      if scan.Found? {
        SetRun(scan.page, n);
        g := g.(last := scan.page + n + 1, held := g.held + n);
        r := Address(scan.page * PAGE_SIZE);
      } else {
        r := Null;
      }
      if kind.User? {
        user := g;
      } else {
        kernel := g;
      }
    }

    /** The scan from the last page up and, if that finds nothing, the scan from the start of the region. */
    method Scans(g: Region, n: nat) returns (r: Scan)
      ensures r.Outside? ==> Top(g) + n > 8 * mem.Length
      ensures r.Found? ==> Choose(Used(), g, n) == At(r.page) && r.page + n <= 8 * mem.Length
      ensures r.Nothing? ==> Choose(Used(), g, n).None?
    {
      hide FirstFit, Used;
      var last := if g.last == 0 then g.start else g.last;
      r := FindRun(last, g.limit, n);
      if r.Nothing? {
        r := FindRun(g.start, last, n);
      }
    }

    /**
     page_free and kpage_free: BadPage and TooMany are the two panics, before and after the pages are
     cleared; Past is a run that would clear bits behind the bitmap.
     */
    method Free(kind: Kind, addr: nat, n: nat) returns (r: Release)
      modifies this, mem
      ensures r.BadPage? <==>
              !(if kind.User? then kernel.limit <= addr / PAGE_SIZE <= user.limit else addr / PAGE_SIZE <= kernel.limit)
      ensures r.Past? <==> !r.BadPage? && addr / PAGE_SIZE + n > 8 * mem.Length
      ensures r.BadPage? ==> State() == old(State())
      ensures r.Done? || r.TooMany? ==> State() == FreeDone(old(State()), kind, addr / PAGE_SIZE, n)
      ensures r.Done? || r.TooMany? ==> (r.TooMany? <==> State().Get(kind).held < 0)
    {
      var page := addr / PAGE_SIZE;
      var past := page + n > 8 * mem.Length;
      if kind.User? {
        if page < kernel.limit || page > user.limit {
          return BadPage;
        }
        if past {
          return Past;
        }
        ClearRun(page, n);
        user := user.(last := page, held := user.held - n);
        return if user.held < 0 then TooMany else Done;
      }
      if page > kernel.limit {
        return BadPage;
      }
      if past {
        return Past;
      }
      ClearRun(page, n);
      kernel := kernel.(last := page, held := kernel.held - n);
      return if kernel.held < 0 then TooMany else Done;
    }
  }
}
