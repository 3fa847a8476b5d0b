/**
 The page allocator of mm/page.c on a set of used pages: next-fit scans for runs in the
 kernel and user regions, and what any mix of allocations and frees keeps.
 */
module PageSpec {

  datatype Kind = User | Kernel

  const PAGE_SIZE := 4096

  /** Page numbers: the region is [start, limit); last is ULAST_PAGE or KLAST_PAGE, held is
   ALLOC_PAGES or KALLOC_PAGES, bytesFree is UBYTES_FREE or KBYTES_FREE. */
  datatype Region = Region(start: nat, limit: nat, last: nat, held: int, bytesFree: nat)

  ghost predicate FreeRun(used: set<nat>, s: nat, n: nat)
  {
    forall p | s <= p < s + n :: p !in used
  }

  /** A page at which the scan would accept a run of n. */
  ghost predicate Fits(used: set<nat>, s: nat, n: nat)
  {
    s !in used && FreeRun(used, s, n)
  }

  /** The least acceptable start in [from, to), or to. */
  ghost function FirstFit(used: set<nat>, from: nat, to: nat, n: nat): (r: nat)
    ensures r < to ==> from <= r && Fits(used, r, n)
    ensures forall s | from <= s < to && s < r :: !Fits(used, s, n)
    ensures from <= to ==> r <= to
    decreases if from < to then to - from else 0
  {
    if from >= to then to else if Fits(used, from, n) then from else FirstFit(used, from + 1, to, n)
  }

  ghost function Pages(s: nat, n: nat): (r: set<nat>)
    ensures forall p :: p in r <==> s <= p < s + n
  {
    if n == 0 then {} else Pages(s, n - 1) + {s + n - 1}
  }

  /** Where the scans start: the first call has no last page yet. */
  function From(g: Region): nat
  {
    if g.last == 0 then g.start else g.last
  }

  datatype Choice = At(page: nat) | None

  /** The scan from the last page up, then the scan from the start of the region. */
  ghost function Choose(used: set<nat>, g: Region, n: nat): Choice
  {
    var a := FirstFit(used, From(g), g.limit, n);
    var b := FirstFit(used, g.start, From(g), n);
    if a < g.limit then At(a) else if b < From(g) then At(b) else None
  }

  function AfterAlloc(g: Region, page: nat, n: nat): Region
  {
    g.(last := page + n + 1, held := g.held + n)
  }

  /** The test made before any scan: as many pages are out as the region has bytes for. */
  predicate OverQuota(g: Region)
  {
    g.held * PAGE_SIZE >= g.bytesFree
  }

  // ---------------------------------------------------------------- the skip

  /** A used page `hit` less than n pages after s rules out every start from s to hit. */
  lemma Skip(used: set<nat>, s: nat, hit: nat, to: nat, n: nat)
    requires s <= hit < s + n && hit in used && s < to
    ensures FirstFit(used, s, to, n) == FirstFit(used, hit + 1, to, n)
    decreases hit - s
  {
  }

  // ---------------------------------------------------------------- completeness

  /** Past the quota, failure means no run of n free pages starts anywhere in the region. */
  lemma AllocComplete(used: set<nat>, g: Region, n: nat)
    requires g.start <= From(g) && n >= 1 && Choose(used, g, n).None?
    ensures forall s | g.start <= s < g.limit :: !FreeRun(used, s, n)
  {
    forall s | g.start <= s < g.limit
      ensures !FreeRun(used, s, n)
    {
      if s < From(g) {
        assert !Fits(used, s, n);
      } else {
        assert !Fits(used, s, n);
      }
    }
  }

  /** And success really finds a free run. */
  lemma AllocFits(used: set<nat>, g: Region, n: nat)
    requires Choose(used, g, n).At? && g.start <= From(g)
    ensures Fits(used, Choose(used, g, n).page, n) && g.start <= Choose(used, g, n).page
    ensures Choose(used, g, n).page < g.limit || Choose(used, g, n).page < From(g)
  {
  }

  // ---------------------------------------------------------------- region bounds: what holds and what does not

  /** With the cursor inside the region and the page behind it in use, a run never leaves the region. */
  lemma StaysInside(used: set<nat>, g: Region, n: nat)
    requires g.start <= From(g) <= g.limit && g.limit in used && Choose(used, g, n).At?
    ensures Choose(used, g, n).page + n <= g.limit
  {
  }

  /**
   Exactly when an allocation stays in its region: the scan that succeeds, the one from the cursor
   or else the one from the start, has some run of n free pages wholly inside to meet.
   */
  lemma InsideExact(used: set<nat>, g: Region, n: nat)
    requires n >= 1 && Choose(used, g, n).At?
    ensures var first := if FirstFit(used, From(g), g.limit, n) < g.limit then From(g) else g.start;
            Choose(used, g, n).page + n <= g.limit <==>
            exists s :: first <= s && s + n <= g.limit && FreeRun(used, s, n)
  {
    var page := Choose(used, g, n).page;
    var first := if FirstFit(used, From(g), g.limit, n) < g.limit then From(g) else g.start;
    assert FreeRun(used, page, n) && first <= page;
    forall s | first <= s && s + n <= g.limit && FreeRun(used, s, n)
      ensures page <= s
    {
      assert Fits(used, s, n);
    }
  }

  // ---------------------------------------------------------------- safety over whole runs

  datatype Run = Run(kind: Kind, page: nat, n: nat)

  datatype Memory = Memory(used: set<nat>, user: Region, kernel: Region)
  {
    function Get(k: Kind): Region { if k.User? then user else kernel }

    function Put(k: Kind, g: Region): Memory { if k.User? then this.(user := g) else this.(kernel := g) }
  }

  ghost predicate Disjoint(a: Run, b: Run)
  {
    a.page + a.n <= b.page || b.page + b.n <= a.page || a.n == 0 || b.n == 0
  }

  function Total(live: seq<Run>, k: Kind): nat
  {
    if live == [] then 0
    else Total(live[..|live| - 1], k) + (if live[|live| - 1].kind == k then live[|live| - 1].n else 0)
  }

  ghost predicate Holds(r: Run, p: nat)
  {
    r.page <= p < r.page + r.n
  }

  /** The pages marked are exactly the reserved ones and those of live runs. */
  ghost predicate Marks(used: set<nat>, reserved: nat, live: seq<Run>)
  {
    && (forall p | 0 <= p < reserved :: p in used)
    && (forall i, p | 0 <= i < |live| && Holds(live[i], p) :: p in used)
    && (forall p | p in used :: p < reserved || exists i :: 0 <= i < |live| && Holds(live[i], p))
  }

  /** Live runs overlap neither each other nor the reserved pages. */
  ghost predicate Apart(reserved: nat, live: seq<Run>)
  {
    && (forall i, j | 0 <= i < j < |live| :: Disjoint(live[i], live[j]))
    && (forall i | 0 <= i < |live| :: live[i].n == 0 || reserved <= live[i].page)
  }

  ghost predicate Accounted(m: Memory, reserved: nat, live: seq<Run>)
  {
    && Marks(m.used, reserved, live) && Apart(reserved, live)
    && m.user.held == Total(live, User) && m.kernel.held == Total(live, Kernel)
  }

  function Drop(live: seq<Run>, i: nat): seq<Run>
    requires i < |live|
  {
    live[..i] + live[i + 1..]
  }

  lemma TotalAppend(a: seq<Run>, b: seq<Run>, k: Kind)
    ensures Total(a + b, k) == Total(a, k) + Total(b, k)
    decreases |b|
  {
    if b == [] {
      assert a + b == a;
    } else {
      assert (a + b)[..|a + b| - 1] == a + b[..|b| - 1];
      TotalAppend(a, b[..|b| - 1], k);
    }
  }

  lemma TotalDrop(live: seq<Run>, i: nat, k: Kind)
    requires i < |live|
    ensures Total(Drop(live, i), k) == Total(live, k) - (if live[i].kind == k then live[i].n else 0)
  {
    assert live == live[..i] + ([live[i]] + live[i + 1..]);
    TotalAppend(live[..i], [live[i]] + live[i + 1..], k);
    TotalAppend([live[i]], live[i + 1..], k);
    TotalAppend(live[..i], live[i + 1..], k);
    assert [live[i]][..0] == [];
  }

  /** State after a successful page_alloc or kpage_alloc. */
  ghost function AllocDone(m: Memory, k: Kind, page: nat, n: nat): Memory
  {
    m.(used := m.used + Pages(page, n)).Put(k, AfterAlloc(m.Get(k), page, n))
  }

  /** State after a refusal: a scan that found nothing has still set the last page the first time. */
  function RefusedDone(m: Memory, k: Kind): Memory
  {
    if OverQuota(m.Get(k)) then m else m.Put(k, m.Get(k).(last := From(m.Get(k))))
  }

  /** State after page_free or kpage_free. */
  ghost function FreeDone(m: Memory, k: Kind, page: nat, n: nat): Memory
  {
    m.(used := m.used - Pages(page, n)).Put(k, m.Get(k).(last := page, held := m.Get(k).held - n))
  }

  lemma AllocMarks(used: set<nat>, reserved: nat, live: seq<Run>, r: Run)
    requires Marks(used, reserved, live)
    ensures Marks(used + Pages(r.page, r.n), reserved, live + [r])
  {
    var live' := live + [r];
    forall p | p in used + Pages(r.page, r.n)
      ensures p < reserved || exists i :: 0 <= i < |live'| && Holds(live'[i], p)
    {
      if p in used && p >= reserved {
        var i :| 0 <= i < |live| && Holds(live[i], p);
        assert Holds(live'[i], p);
      } else if p !in used {
        assert Holds(live'[|live|], p);
      }
    }
  }

  lemma AllocApart(used: set<nat>, reserved: nat, live: seq<Run>, r: Run)
    requires Marks(used, reserved, live) && Apart(reserved, live) && Fits(used, r.page, r.n)
    ensures Apart(reserved, live + [r])
  {
    forall i | 0 <= i < |live|
      ensures Disjoint(live[i], r)
    {
      assert live[i].n > 0 ==> Holds(live[i], live[i].page) && live[i].page in used;
      assert Holds(live[i], r.page) ==> r.page in used;
    }
  }

  lemma AllocAccounted(m: Memory, reserved: nat, live: seq<Run>, k: Kind, page: nat, n: nat)
    requires Accounted(m, reserved, live) && Fits(m.used, page, n)
    ensures Accounted(AllocDone(m, k, page, n), reserved, live + [Run(k, page, n)])
  {
    hide Marks, Apart, Fits;
    var r := Run(k, page, n);
    AllocMarks(m.used, reserved, live, r);
    AllocApart(m.used, reserved, live, r);
    TotalAppend(live, [r], User);
    TotalAppend(live, [r], Kernel);
    assert [r][..0] == [];
  }

  lemma DropAt(live: seq<Run>, i: nat, j: nat)
    requires i < |live| && j < |live| - 1
    ensures Drop(live, i)[j] == live[if j < i then j else j + 1]
  {
  }

  lemma FreeMarks(used: set<nat>, reserved: nat, live: seq<Run>, i: nat)
    requires Marks(used, reserved, live) && Apart(reserved, live) && i < |live|
    ensures Marks(used - Pages(live[i].page, live[i].n), reserved, Drop(live, i))
  {
    var used', rest := used - Pages(live[i].page, live[i].n), Drop(live, i);
    forall j, p: nat | 0 <= j < |rest| && Holds(rest[j], p)
      ensures p in used'
    {
      DropAt(live, i, j);
      if j < i {
        assert Disjoint(live[j], live[i]) && Holds(live[j], p);
      } else {
        assert Disjoint(live[i], live[j + 1]) && Holds(live[j + 1], p);
      }
    }
    forall p | p in used'
      ensures p < reserved || exists j :: 0 <= j < |rest| && Holds(rest[j], p)
    {
      if p >= reserved {
        var l :| 0 <= l < |live| && Holds(live[l], p);
        var j := if l < i then l else l - 1;
        DropAt(live, i, j);
        assert Holds(rest[j], p);
      }
    }
  }

  lemma FreeAccounted(m: Memory, reserved: nat, live: seq<Run>, i: nat)
    requires Accounted(m, reserved, live) && i < |live|
    ensures Accounted(FreeDone(m, live[i].kind, live[i].page, live[i].n), reserved, Drop(live, i))
  {
    hide Marks, Pages;
    FreeMarks(m.used, reserved, live, i);
    TotalDrop(live, i, User);
    TotalDrop(live, i, Kernel);
    assert forall j | 0 <= j < |live| - 1 :: Drop(live, i)[j] == live[if j < i then j else j + 1];
  }

  datatype Event = Alloc(kind: Kind, n: nat) | Refused(kind: Kind, n: nat) | Free(i: nat)

  /** One call, with the list of live runs before and after it. Frees give back a live run whole. */
  ghost predicate Step(m: Memory, live: seq<Run>, e: Event, m': Memory, live': seq<Run>)
  {
    match e
    case Alloc(k, n) =>
      var c := Choose(m.used, m.Get(k), n);
      !OverQuota(m.Get(k)) && c.At? && m' == AllocDone(m, k, c.page, n) && live' == live + [Run(k, c.page, n)]
    case Refused(k, n) =>
      (OverQuota(m.Get(k)) || Choose(m.used, m.Get(k), n).None?) && m' == RefusedDone(m, k) && live' == live
    case Free(i) =>
      i < |live| && m' == FreeDone(m, live[i].kind, live[i].page, live[i].n) && live' == Drop(live, i)
  }

  ghost predicate Trace(ms: seq<Memory>, lives: seq<seq<Run>>, es: seq<Event>)
  {
    && |ms| == |lives| == |es| + 1
    && forall i | 0 <= i < |es| :: Step(ms[i], lives[i], es[i], ms[i + 1], lives[i + 1])
  }

  /** Over any interleaving of user and kernel calls, live runs never overlap each other or the boot pages. */
  lemma {:induction false} RunsAccounted(ms: seq<Memory>, lives: seq<seq<Run>>, es: seq<Event>, reserved: nat, t: nat)
    requires Trace(ms, lives, es) && t <= |es|
    requires lives[0] == [] && Accounted(ms[0], reserved, [])
    ensures Accounted(ms[t], reserved, lives[t])
  {
    if t > 0 {
      RunsAccounted(ms, lives, es, reserved, t - 1);
      var m, live := ms[t - 1], lives[t - 1];
      assert Step(m, live, es[t - 1], ms[t], lives[t]);
      match es[t - 1]
      case Alloc(k, n) => AllocAccounted(m, reserved, live, k, Choose(m.used, m.Get(k), n).page, n);
      case Refused(k, n) =>
      case Free(i) => FreeAccounted(m, reserved, live, i);
    }
  }

  // ---------------------------------------------------------------- completeness over whole runs

  /** The cursors and the live runs are not below their regions. */
  ghost predicate Anchored(m: Memory, live: seq<Run>)
  {
    && m.user.start <= From(m.user) && m.kernel.start <= From(m.kernel)
    && forall i | 0 <= i < |live| :: m.Get(live[i].kind).start <= live[i].page
  }

  lemma StepAnchored(m: Memory, live: seq<Run>, e: Event, m': Memory, live': seq<Run>)
    requires Anchored(m, live) && Step(m, live, e, m', live')
    ensures Anchored(m', live')
  {
    hide FirstFit, Pages;
    match e
    case Alloc(k, n) => AllocFits(m.used, m.Get(k), n);
    case Refused(k, n) =>
    case Free(i) => assert forall j | 0 <= j < |live'| :: live'[j] == live[if j < i then j else j + 1];
  }

  lemma {:induction false} RunsAnchored(ms: seq<Memory>, lives: seq<seq<Run>>, es: seq<Event>, t: nat)
    requires Trace(ms, lives, es) && t <= |es| && Anchored(ms[0], lives[0])
    ensures Anchored(ms[t], lives[t])
  {
    hide Anchored, Step;
    if t > 0 {
      RunsAnchored(ms, lives, es, t - 1);
      assert Step(ms[t - 1], lives[t - 1], es[t - 1], ms[t], lives[t]);
      StepAnchored(ms[t - 1], lives[t - 1], es[t - 1], ms[t], lives[t]);
    }
  }

  /** In every run a call below its quota is refused only when no run of n free pages starts anywhere in its region. */
  lemma RunComplete(ms: seq<Memory>, lives: seq<seq<Run>>, es: seq<Event>, t: nat)
    requires Trace(ms, lives, es) && t < |es| && Anchored(ms[0], lives[0]) && es[t].Refused? && es[t].n >= 1
    ensures var g := ms[t].Get(es[t].kind);
            OverQuota(g) || forall s | g.start <= s < g.limit :: !FreeRun(ms[t].used, s, es[t].n)
  {
    RunsAnchored(ms, lives, es, t);
    assert Step(ms[t], lives[t], es[t], ms[t + 1], lives[t + 1]);
    var g := ms[t].Get(es[t].kind);
    if !OverQuota(g) {
      AllocComplete(ms[t].used, g, es[t].n);
    }
  }

  // ---------------------------------------------------------------- runs that leave the region

  /** As mem_init leaves it: everything below the kernel's region is marked and nothing is out. */
  ghost predicate Boot(m: Memory)
  {
    && m.used == Pages(0, m.kernel.start) && m.user.held == m.kernel.held == 0 && m.user.last == m.kernel.last == 0
    && m.kernel.limit == m.user.start
  }

  lemma FirstFitIs(used: set<nat>, from: nat, to: nat, n: nat, p: nat)
    requires from <= p < to && Fits(used, p, n) && forall s | from <= s < p :: !Fits(used, s, n)
    ensures FirstFit(used, from, to, n) == p
  {
    assert FirstFit(used, from, to, n) <= p;
  }

  /** One allocation appended to a trace. */
  lemma Extend(ms: seq<Memory>, lives: seq<seq<Run>>, es: seq<Event>, k: Kind, n: nat, page: nat)
    returns (ms': seq<Memory>, lives': seq<seq<Run>>)
    requires Trace(ms, lives, es)
    requires var m := ms[|es|]; !OverQuota(m.Get(k)) && Choose(m.used, m.Get(k), n) == At(page)
    ensures Trace(ms', lives', es + [Alloc(k, n)])
    ensures ms' == ms + [AllocDone(ms[|es|], k, page, n)] && lives' == lives + [lives[|es|] + [Run(k, page, n)]]
  {
    hide FirstFit, Pages, OverQuota, Choose;
    ms', lives' := ms + [AllocDone(ms[|es|], k, page, n)], lives + [lives[|es|] + [Run(k, page, n)]];
    var es' := es + [Alloc(k, n)];
    forall i | 0 <= i < |es'|
      ensures Step(ms'[i], lives'[i], es'[i], ms'[i + 1], lives'[i + 1])
    {
      assert i < |es| ==> Step(ms[i], lives[i], es[i], ms[i + 1], lives[i + 1]);
    }
  }

  /** The quota that mem_init computes. */
  predicate FullQuota(g: Region)
  {
    g.bytesFree == (g.limit - g.start) * PAGE_SIZE
  }

  /** No call moves a region or its quota. */
  lemma {:induction false} RunsFixed(ms: seq<Memory>, lives: seq<seq<Run>>, es: seq<Event>, t: nat, k: Kind)
    requires Trace(ms, lives, es) && t <= |es|
    ensures var g, h := ms[0].Get(k), ms[t].Get(k); h.start == g.start && h.limit == g.limit && h.bytesFree == g.bytesFree
  {
    hide Choose, Pages, OverQuota;
    if t > 0 {
      RunsFixed(ms, lives, es, t - 1, k);
      assert Step(ms[t - 1], lives[t - 1], es[t - 1], ms[t], lives[t]);
    }
  }

  lemma BootAccounted(m: Memory)
    requires Boot(m)
    ensures Accounted(m, m.kernel.start, []) && Anchored(m, [])
  {
  }

  /**
   From boot, in every run: a region that has all its pages out is granted nothing more and stays as it
   is; one that has not is refused only if no run of n free pages starts anywhere in it.
   */
  lemma QuotaExact(ms: seq<Memory>, lives: seq<seq<Run>>, es: seq<Event>, t: nat)
    requires Trace(ms, lives, es) && t < |es| && !es[t].Free? && lives[0] == [] && Boot(ms[0])
    requires FullQuota(ms[0].Get(es[t].kind))
    ensures var g := ms[0].Get(es[t].kind);
            && (es[t].Alloc? ==> Total(lives[t], es[t].kind) < g.limit - g.start)
            && (Total(lives[t], es[t].kind) >= g.limit - g.start ==> es[t].Refused? && ms[t + 1] == ms[t] && lives[t + 1] == lives[t])
            && (Total(lives[t], es[t].kind) < g.limit - g.start && es[t].Refused? && es[t].n >= 1 ==>
                  forall s | g.start <= s < g.limit :: !FreeRun(ms[t].used, s, es[t].n))
  {
    hide Accounted, Anchored, Choose, FreeRun, Marks;
    var k := es[t].kind;
    BootAccounted(ms[0]);
    RunsAccounted(ms, lives, es, ms[0].kernel.start, t);
    RunsFixed(ms, lives, es, t, k);
    HeldIsTotal(ms[t], ms[0].kernel.start, lives[t], k);
    assert Step(ms[t], lives[t], es[t], ms[t + 1], lives[t + 1]);
    if es[t].Refused? && es[t].n >= 1 {
      RunComplete(ms, lives, es, t);
    }
  }

  lemma HeldIsTotal(m: Memory, reserved: nat, live: seq<Run>, k: Kind)
    requires Accounted(m, reserved, live)
    ensures m.Get(k).held == Total(live, k)
  {
  }

  /** Next fit: the least start from the cursor up to the limit, or else the least one from the start of the region to the cursor. */
  lemma NextFit(used: set<nat>, g: Region, n: nat, s: nat)
    requires Choose(used, g, n).At? && Fits(used, s, n)
    ensures var page := Choose(used, g, n).page;
            && (From(g) <= s < g.limit ==> From(g) <= page <= s)
            && (g.start <= s < From(g) && !(From(g) <= page < g.limit) ==> page <= s)
  {
  }

  /** After a run has been granted the scan goes on one page behind the page that follows it. */
  lemma GrantMovesOn(m: Memory, k: Kind, page: nat, n: nat, next: nat)
    requires var m' := AllocDone(m, k, page, n); page + n + 1 < m.Get(k).limit && Fits(m'.used, page + n + 1, next)
    ensures var m' := AllocDone(m, k, page, n); Choose(m'.used, m'.Get(k), next) == At(page + n + 1)
  {
    hide Pages;
    var m' := AllocDone(m, k, page, n);
    FirstFitIs(m'.used, page + n + 1, m.Get(k).limit, next, page + n + 1);
  }

  /** A run given back is the first place the next call looks at. */
  lemma FreedIsNext(m: Memory, k: Kind, page: nat, n: nat, next: nat)
    requires 0 < page < m.Get(k).limit && 1 <= next <= n
    ensures var m' := FreeDone(m, k, page, n); Choose(m'.used, m'.Get(k), next) == At(page)
  {
    var m' := FreeDone(m, k, page, n);
    assert Fits(m'.used, page, next);
    FirstFitIs(m'.used, page, m.Get(k).limit, next, page);
  }

  /**
   From boot, all pages of the kernel's region but one, and then two: the second run covers the last
   page of the region and the first one of the user's.
   */
  lemma RunsOverTheEnd(m: Memory, size: nat) returns (ms: seq<Memory>, lives: seq<seq<Run>>)
    requires Boot(m) && FullQuota(m.kernel) && size >= 2 && m.kernel.limit == m.kernel.start + size
    ensures Trace(ms, lives, [Alloc(Kernel, size - 1), Alloc(Kernel, 2)]) && ms[0] == m && lives[0] == []
    ensures |lives[2]| == 2 && lives[2][1] == Run(Kernel, m.kernel.limit - 1, 2)
  {
    hide FirstFit, Trace;
    var s, most := m.kernel.start, Alloc(Kernel, size - 1);
    FirstFitIs(m.used, s, s + size, size - 1, s);
    Start(m);
    ms, lives := Extend([m], [[]], [], Kernel, size - 1, s);
    assert forall p: nat :: p in ms[1].used <==> p < s + size - 1;
    FirstFitIs(ms[1].used, s, s + size, 2, s + size - 1);
    ms, lives := Extend(ms, lives, [] + [most], Kernel, 2, s + size - 1);
    assert [] + [most] + [Alloc(Kernel, 2)] == [most, Alloc(Kernel, 2)];
  }

  /**
   From boot, one page, then all but two, then two: the cursor has passed the limit, and the last
   run starts at it.
   */
  lemma StartsPastTheEnd(m: Memory, size: nat) returns (ms: seq<Memory>, lives: seq<seq<Run>>)
    requires Boot(m) && FullQuota(m.kernel) && size >= 3 && m.kernel.limit == m.kernel.start + size
    ensures Trace(ms, lives, [Alloc(Kernel, 1), Alloc(Kernel, size - 2), Alloc(Kernel, 2)]) && ms[0] == m && lives[0] == []
    ensures |lives[3]| == 3 && lives[3][2] == Run(Kernel, m.kernel.limit, 2)
  {
    hide FirstFit, Choose, Trace, Pages, OverQuota;
    var s := m.kernel.start;
    var one, most, two := Alloc(Kernel, 1), Alloc(Kernel, size - 2), Alloc(Kernel, 2);
    ThreeChoices(m, size);
    Start(m);
    ms, lives := Extend([m], [[]], [], Kernel, 1, s);
    ms, lives := Extend(ms, lives, [] + [one], Kernel, size - 2, s + 2);
    ms, lives := Extend(ms, lives, [] + [one] + [most], Kernel, 2, s + size);
    assert [] + [one] + [most] + [two] == [one, most, two];
  }

  lemma Start(m: Memory)
    ensures Trace([m], [[]], [])
  {
  }

  lemma ThreeChoices(m: Memory, size: nat)
    requires Boot(m) && FullQuota(m.kernel) && size >= 3 && m.kernel.limit == m.kernel.start + size
    ensures var s := m.kernel.start;
            var m1 := AllocDone(m, Kernel, s, 1);
            var m2 := AllocDone(m1, Kernel, s + 2, size - 2);
            && !OverQuota(m.kernel) && Choose(m.used, m.kernel, 1) == At(s)
            && !OverQuota(m1.kernel) && Choose(m1.used, m1.kernel, size - 2) == At(s + 2)
            && !OverQuota(m2.kernel) && Choose(m2.used, m2.kernel, 2) == At(s + size)
  {
    hide FirstFit;
    var s := m.kernel.start;
    var m1 := AllocDone(m, Kernel, s, 1);
    var m2 := AllocDone(m1, Kernel, s + 2, size - 2);
    FirstFitIs(m.used, s, s + size, 1, s);
    FirstFitIs(m1.used, s + 2, s + size, size - 2, s + 2);
    assert forall p: nat :: p in m2.used <==> p < s + 1 || s + 2 <= p < s + size;
    assert forall p | s <= p < s + size :: p in m2.used || p + 1 in m2.used;
    FirstFitIs(m2.used, s, s + size + 1, 2, s + size);
  }
}
