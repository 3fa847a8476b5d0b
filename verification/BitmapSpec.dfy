/**
 The free-block bitmaps of fs/inode.c as a state machine: the map blocks on disk, a cursor,
 and the one map block held in memory. Positions are bit numbers counted across the maps.
 */
module BitmapSpec {
  import opened Bytes

  /** Only DEV_BLOCK_SIZE bits of each map block are used. */
  const MAP_BITS := 512

  /** maps: the map blocks as the cache shows them; ptr, bit: the cursor; window: the loaded copy of maps[ptr]. */
  datatype Bitmap = Bitmap(maps: seq<Block>, ptr: nat, bit: nat, window: Block)
  {
    predicate WellFormed()
    {
      ptr < |maps| && bit < MAP_BITS
    }

    predicate InRange(n: nat)
    {
      n < MAP_BITS * |maps|
    }

    predicate DiskBit(n: nat)
      requires InRange(n)
    {
      BitGet(maps[n / MAP_BITS], n % MAP_BITS)
    }

    /** The bit an allocation would look at now. */
    predicate Marked(n: nat)
      requires InRange(n)
    {
      if n / MAP_BITS == ptr then BitGet(window, n % MAP_BITS) else DiskBit(n)
    }
  }

  /** Every live block is marked on disk, and in the window when the window covers it. */
  ghost predicate Sound(a: Bitmap, live: set<nat>)
  {
    && a.WellFormed()
    && forall n | n in live :: a.InRange(n) && a.DiskBit(n) && a.Marked(n)
  }

  /** No clear bit behind the cursor is known to the window alone. */
  ghost predicate Synced(a: Bitmap)
  {
    a.WellFormed() && (a.window == a.maps[a.ptr] || !BitGet(a.window, a.bit))
  }

  // ---------------------------------------------------------------- operations

  /** First clear bit at or after b, or MAP_BITS. */
  function NextClear(w: Block, b: nat): (r: nat)
    requires b <= MAP_BITS
    ensures b <= r <= MAP_BITS
    ensures forall c | b <= c < r :: BitGet(w, c)
    ensures r < MAP_BITS ==> !BitGet(w, r)
    decreases MAP_BITS - b
  {
    if b == MAP_BITS || !BitGet(w, b) then b else NextClear(w, b + 1)
  }

  /** First map at or after p with a clear bit, or |maps|. */
  function NextMap(maps: seq<Block>, p: nat): (r: nat)
    requires p <= |maps|
    ensures p <= r <= |maps|
    ensures forall q | p <= q < r :: NextClear(maps[q], 0) == MAP_BITS
    ensures r < |maps| ==> NextClear(maps[r], 0) < MAP_BITS
    decreases |maps| - p
  {
    if p == |maps| || NextClear(maps[p], 0) < MAP_BITS then p else NextMap(maps, p + 1)
  }

  datatype Pick = Found(p: nat, b: nat, w: Block) | Full

  /**
   Scan order of the two-pass loop: the rest of the window, the later maps as they are on
   disk, then every map from the first.
   */
  function Choose(a: Bitmap): (r: Pick)
    requires a.WellFormed()
    ensures r.Found? ==> r.p < |a.maps| && r.b < MAP_BITS && !BitGet(r.w, r.b)
    ensures r.Found? ==> r.w == a.maps[r.p] || (r.w == a.window && r.p == a.ptr)
  {
    if NextClear(a.window, a.bit) < MAP_BITS then Found(a.ptr, NextClear(a.window, a.bit), a.window)
    else
      var p := if NextMap(a.maps, a.ptr + 1) < |a.maps| then NextMap(a.maps, a.ptr + 1) else NextMap(a.maps, 0);
      if p < |a.maps| then Found(p, NextClear(a.maps[p], 0), a.maps[p]) else Full
  }

  /** The window with the chosen bit set; not yet on disk. */
  function Mark(a: Bitmap): Bitmap
    requires a.WellFormed() && Choose(a).Found?
  {
    var f := Choose(a);
    Bitmap(a.maps, f.p, f.b, BitSet(f.w, f.b, true))
  }

  /** inode_get_data_block / inode_get_inode_block when they succeed. */
  function GetDone(a: Bitmap): Bitmap
    requires a.WellFormed() && Choose(a).Found?
  {
    var m := Mark(a);
    m.(maps := a.maps[m.ptr := m.window])
  }

  function GetPosition(a: Bitmap): nat
    requires a.WellFormed() && Choose(a).Found?
  {
    MAP_BITS * Choose(a).p + Choose(a).b
  }

  /** The state in which two fruitless passes leave the cursor. */
  function GetFull(a: Bitmap): Bitmap
    requires a.WellFormed()
  {
    Bitmap(a.maps, 0, 0, a.maps[0])
  }

  /** inode_free_data_block / inode_free_inode_block: only the window is changed. */
  function FreeDone(a: Bitmap, n: nat): Bitmap
    requires a.InRange(n)
  {
    var p, b := n / MAP_BITS, n % MAP_BITS;
    Bitmap(a.maps, p, b, BitSet(if p == a.ptr then a.window else a.maps[p], b, false))
  }

  // ---------------------------------------------------------------- the two-pass loop

  /** From a, the loop has reached cursor and window s on the given pass without meeting a clear bit. */
  ghost predicate Scanning(a: Bitmap, s: Bitmap, pass: nat)
  {
    && a.WellFormed() && s.WellFormed() && s.maps == a.maps && pass <= 2
    && (if pass == 0 && s.ptr == a.ptr then
          s.window == a.window && NextClear(a.window, s.bit) == NextClear(a.window, a.bit)
        else
          && NextClear(a.window, a.bit) == MAP_BITS
          && s.window == a.maps[s.ptr] && NextClear(s.window, s.bit) == NextClear(s.window, 0)
          && (pass == 0 ==> s.ptr > a.ptr && NextMap(a.maps, s.ptr) == NextMap(a.maps, a.ptr + 1))
          && (pass > 0 ==> NextMap(a.maps, a.ptr + 1) == |a.maps|)
          && (pass == 1 ==> NextMap(a.maps, s.ptr) == NextMap(a.maps, 0))
          && (pass == 2 ==> NextMap(a.maps, 0) == |a.maps| && s.ptr == 0 && s.bit == 0))
  }

  lemma ScanStart(a: Bitmap)
    requires a.WellFormed()
    ensures Scanning(a, a, 0)
  {
  }

  lemma ScanFound(a: Bitmap, s: Bitmap, pass: nat)
    requires Scanning(a, s, pass) && pass < 2 && !BitGet(s.window, s.bit)
    ensures Choose(a) == Found(s.ptr, s.bit, s.window)
  {
  }

  lemma ScanBit(a: Bitmap, s: Bitmap, pass: nat)
    requires Scanning(a, s, pass) && pass < 2 && BitGet(s.window, s.bit) && s.bit + 1 < MAP_BITS
    ensures Scanning(a, s.(bit := s.bit + 1), pass)
  {
  }

  lemma ScanMap(a: Bitmap, s: Bitmap, pass: nat)
    requires Scanning(a, s, pass) && pass < 2 && BitGet(s.window, s.bit) && s.bit + 1 == MAP_BITS
    ensures s.ptr + 1 < |a.maps| ==> Scanning(a, Bitmap(a.maps, s.ptr + 1, 0, a.maps[s.ptr + 1]), pass)
    ensures s.ptr + 1 == |a.maps| ==> Scanning(a, GetFull(a), pass + 1)
  {
    assert NextClear(s.window, s.bit) == MAP_BITS;
  }

  lemma ScanDone(a: Bitmap, s: Bitmap)
    requires Scanning(a, s, 2)
    ensures Choose(a).Full? && s == GetFull(a)
  {
  }

  // ---------------------------------------------------------------- safety

  lemma SplitPosition(p: nat, b: nat)
    requires b < MAP_BITS
    ensures (MAP_BITS * p + b) / MAP_BITS == p && (MAP_BITS * p + b) % MAP_BITS == b
  {
  }

  /** The block handed out is not live, and afterwards it is safe to count it as live. */
  lemma GetSound(a: Bitmap, live: set<nat>)
    requires Sound(a, live) && Choose(a).Found?
    ensures GetPosition(a) !in live
    ensures Sound(Mark(a), live)
    ensures Sound(GetDone(a), live + {GetPosition(a)})
  {
    var f, a' := Choose(a), GetDone(a);
    SplitPosition(f.p, f.b);
    forall n | n in live
      ensures n != GetPosition(a) && a'.DiskBit(n) && a'.Marked(n) && Mark(a).Marked(n)
    {
      if n / MAP_BITS == f.p {
        BitSetExact(f.w, f.b, true, n % MAP_BITS);
      }
    }
    BitSetExact(f.w, f.b, true, f.b);
  }

  lemma GetFullSound(a: Bitmap, live: set<nat>)
    requires Sound(a, live)
    ensures Sound(GetFull(a), live)
  {
  }

  /** Frees are safe whatever they name: a block freed twice or never allocated included. */
  lemma FreeSound(a: Bitmap, live: set<nat>, n: nat)
    requires Sound(a, live) && a.InRange(n)
    ensures Sound(FreeDone(a, n), live - {n})
  {
  }

  /** A get sets the bit of its block and no other, on disk and in the window; the map it chose is loaded first. */
  lemma GetMarksOne(a: Bitmap, n: nat)
    requires a.WellFormed() && Choose(a).Found? && a.InRange(n)
    ensures var was := if n / MAP_BITS == Choose(a).p then BitGet(Choose(a).w, n % MAP_BITS) else a.DiskBit(n);
            && (GetDone(a).DiskBit(n) <==> n == GetPosition(a) || was)
            && (GetDone(a).Marked(n) <==> n == GetPosition(a) || was)
            && (Mark(a).Marked(n) <==> n == GetPosition(a) || was) && Mark(a).DiskBit(n) == a.DiskBit(n)
  {
    var f := Choose(a);
    SplitPosition(f.p, f.b);
    BitSetExact(f.w, f.b, true, n % MAP_BITS);
  }

  /** A free clears the bit of its block in the window, which holds that block's map, and nothing on disk. */
  lemma FreeClearsOne(a: Bitmap, n: nat, m: nat)
    requires a.WellFormed() && a.InRange(n) && a.InRange(m)
    ensures FreeDone(a, n).DiskBit(m) == a.DiskBit(m)
    ensures FreeDone(a, n).Marked(m) <==> m != n && if m / MAP_BITS == n / MAP_BITS then a.Marked(m) else a.DiskBit(m)
  {
    var b := n % MAP_BITS;
    BitSetExact(if n / MAP_BITS == a.ptr then a.window else a.maps[n / MAP_BITS], b, false, m % MAP_BITS);
  }

  /** With the window loaded, the block chosen is the first clear one from the cursor on, or else the first of all. */
  lemma ChoiceIsNext(a: Bitmap, m: nat)
    requires a.WellFormed() && a.window == a.maps[a.ptr] && Choose(a).Found? && a.InRange(m) && !a.DiskBit(m)
    ensures var n, cursor := GetPosition(a), MAP_BITS * a.ptr + a.bit;
            a.InRange(n) && !a.DiskBit(n) && if n >= cursor then m < cursor || n <= m else m < cursor && n <= m
  {
    var f, p, b := Choose(a), m / MAP_BITS, m % MAP_BITS;
    SplitPosition(f.p, f.b);
    assert !BitGet(a.maps[p], b) && NextClear(a.maps[p], 0) <= b;
    assert p == a.ptr && b >= a.bit ==> NextClear(a.window, a.bit) <= b;
    InOrder(f.p, f.b, p, b);
    InOrder(p, b, a.ptr, a.bit);
    InOrder(f.p, f.b, a.ptr, a.bit);
  }

  lemma InOrder(p: nat, b: nat, q: nat, c: nat)
    requires b < MAP_BITS && c < MAP_BITS
    ensures MAP_BITS * p + b < MAP_BITS * q + c <==> p < q || (p == q && b < c)
  {
  }

  /** A get leaves the cursor on its block, so that the next one goes on behind it; a free leaves it on the freed one, which the next get takes. */
  lemma CursorFollows(a: Bitmap, n: nat)
    requires a.WellFormed() && a.InRange(n)
    ensures Choose(a).Found? ==> MAP_BITS * GetDone(a).ptr + GetDone(a).bit == GetPosition(a) && GetDone(a).window == GetDone(a).maps[GetDone(a).ptr]
    ensures Choose(FreeDone(a, n)).Found? && GetPosition(FreeDone(a, n)) == n
  {
    var p, b := n / MAP_BITS, n % MAP_BITS;
    BitSetExact(if p == a.ptr then a.window else a.maps[p], b, false, b);
    assert NextClear(FreeDone(a, n).window, b) == b;
  }

  // ---------------------------------------------------------------- a map block that cannot be read

  /** What a failed load of map p leaves: the cursor has moved there, the window still is the old map. */
  function Stale(a: Bitmap, p: nat, b: nat): Bitmap
  {
    a.(ptr := p, bit := b)
  }

  /** A get that has looked at every bit of its window and cannot read the map that comes next. */
  ghost predicate GetUnread(a: Bitmap, a': Bitmap)
  {
    exists s, pass :: GetUnreadAt(a, s, pass, a')
  }

  ghost predicate GetUnreadAt(a: Bitmap, s: Bitmap, pass: nat, a': Bitmap)
  {
    && Scanning(a, s, pass) && pass < 2 && s.bit + 1 == MAP_BITS && BitGet(s.window, s.bit)
    && a' == Stale(s, if s.ptr + 1 < |a.maps| then s.ptr + 1 else 0, 0)
  }

  /** A free of n that cannot read n's map. */
  ghost predicate FreeUnread(a: Bitmap, n: nat, a': Bitmap)
  {
    a.InRange(n) && n / MAP_BITS != a.ptr && a' == Stale(a, n / MAP_BITS, n % MAP_BITS)
  }

  /** The live blocks of the map under the cursor are marked in the window, whichever map that holds. */
  ghost predicate Harmless(a: Bitmap, live: set<nat>)
  {
    forall n | n in live && n / MAP_BITS == a.ptr :: BitGet(a.window, n % MAP_BITS)
  }

  /** A failed load of map p is safe exactly when the old window marks every live block of map p. */
  lemma StaleExact(a: Bitmap, live: set<nat>, p: nat, b: nat)
    requires Sound(a, live) && p < |a.maps| && b < MAP_BITS
    ensures Sound(Stale(a, p, b), live) <==> forall n | n in live && n / MAP_BITS == p :: BitGet(a.window, n % MAP_BITS)
  {
  }

  /** The same of a get, whose window may already be another map than the one it started with. */
  lemma GetUnreadExact(a: Bitmap, a': Bitmap, live: set<nat>)
    requires Sound(a, live) && GetUnread(a, a')
    ensures Sound(a', live) <==> Harmless(a', live)
  {
  }

  /**
   While the disk marks every live block, a get hands one out exactly when the first clear bit
   of the window from the cursor on, taken as a bit of the map under the cursor, is live.
   */
  lemma DoubleAllocationExact(a: Bitmap, live: set<nat>)
    requires a.WellFormed() && Choose(a).Found? && forall n | n in live :: a.InRange(n) && a.DiskBit(n)
    ensures var b := NextClear(a.window, a.bit);
            GetPosition(a) in live <==> b < MAP_BITS && MAP_BITS * a.ptr + b in live
  {
    SplitPosition(Choose(a).p, Choose(a).b);
  }

  // ---------------------------------------------------------------- completeness

  /** In every state a get fails exactly when the disk is full and so is the window from the cursor on. */
  lemma FullExact(a: Bitmap)
    requires a.WellFormed()
    ensures Choose(a).Full? <==>
            (forall n: nat | a.InRange(n) :: a.DiskBit(n)) && forall b | a.bit <= b < MAP_BITS :: BitGet(a.window, b)
  {
    if Choose(a).Full? {
      forall n: nat | a.InRange(n)
        ensures a.DiskBit(n)
      {
        FullMeansDiskFull(a, n);
      }
    } else {
      SplitPosition(Choose(a).p, Choose(a).b);
      if NextClear(a.window, a.bit) == MAP_BITS {
        assert !a.DiskBit(GetPosition(a));
      }
    }
  }

  lemma SyncedKept(a: Bitmap, n: nat)
    requires a.WellFormed() && a.InRange(n)
    ensures Choose(a).Found? ==> Synced(GetDone(a))
    ensures Synced(GetFull(a))
    ensures Synced(FreeDone(a, n))
  {
  }

  ghost predicate AllMarked(a: Bitmap)
  {
    forall n: nat | a.InRange(n) :: a.Marked(n)
  }

  /** A synced allocator fails exactly when every bit it could look at is set. */
  lemma GetComplete(a: Bitmap)
    requires Synced(a)
    ensures Choose(a).Full? <==> AllMarked(a)
  {
    hide NextClear, NextMap, BitGet;
    FullExact(a);
    if Choose(a).Full? {
      assert BitGet(a.window, a.bit) && forall n: nat | a.InRange(n) :: a.DiskBit(n);
    } else {
      SplitPosition(Choose(a).p, Choose(a).b);
      assert !a.Marked(GetPosition(a));
    }
  }

  /** Whatever the state, failure means every bit on disk is set. */
  lemma FullMeansDiskFull(a: Bitmap, n: nat)
    requires a.WellFormed() && Choose(a).Full? && a.InRange(n)
    ensures a.DiskBit(n)
  {
  }

  /**
   A freed bit is not always reusable: the clear lives in the window only. After freeing n and
   then m, n is still clear exactly when m shares n's map block or the disk never had n set.
   */
  lemma FreeLostExact(a: Bitmap, n: nat, m: nat)
    requires a.WellFormed() && a.InRange(n) && a.InRange(m) && n != m
    ensures !FreeDone(FreeDone(a, n), m).Marked(n) <==> m / MAP_BITS == n / MAP_BITS || !a.DiskBit(n)
  {
  }

  // ---------------------------------------------------------------- whole runs

  /** MarkedOnly: a get whose disk write failed; Unread and FreeFailed: a get and a free that could not read a map. */
  datatype Event = Got(n: nat) | GotNothing | MarkedOnly | Freed(n: nat) | Unread | FreeFailed(n: nat)
  {
    predicate ReadFails() { Unread? || FreeFailed? }
  }

  ghost predicate Step(a: Bitmap, e: Event, a': Bitmap)
  {
    && a.WellFormed()
    && match e
       case Got(n) => Choose(a).Found? && n == GetPosition(a) && a' == GetDone(a)
       case GotNothing => Choose(a).Full? && a' == GetFull(a)
       case MarkedOnly => Choose(a).Found? && a' == Mark(a)
       case Freed(n) => a.InRange(n) && a' == FreeDone(a, n)
       case Unread => GetUnread(a, a')
       case FreeFailed(n) => FreeUnread(a, n, a')
  }

  /** Blocks given out and not freed since. */
  function Live(es: seq<Event>): set<nat>
  {
    if es == [] then {}
    else
      var l := Live(es[..|es| - 1]);
      match es[|es| - 1]
      case Got(n) => l + {n}
      case Freed(n) => l - {n}
      case _ => l
  }

  ghost predicate Trace(as_: seq<Bitmap>, es: seq<Event>)
  {
    |as_| == |es| + 1 && forall i | 0 <= i < |es| :: Step(as_[i], es[i], as_[i + 1])
  }

  /** No failed read of the run hides the mark of a block live at that time. */
  ghost predicate AllHarmless(as_: seq<Bitmap>, es: seq<Event>)
    requires |as_| == |es| + 1
  {
    forall i | 0 <= i < |es| && es[i].ReadFails() :: Harmless(as_[i + 1], Live(es[..i]))
  }

  lemma StepSound(a: Bitmap, e: Event, a': Bitmap, es: seq<Event>)
    requires Step(a, e, a') && Sound(a, Live(es)) && (e.ReadFails() ==> Harmless(a', Live(es)))
    ensures Sound(a', Live(es + [e]))
  {
    assert (es + [e])[..|es|] == es;
    match e
    case Got(n) => GetSound(a, Live(es));
    case GotNothing => GetFullSound(a, Live(es));
    case MarkedOnly => GetSound(a, Live(es));
    case Freed(n) => FreeSound(a, Live(es), n);
    case Unread => GetUnreadExact(a, a', Live(es));
    case FreeFailed(n) => StaleExact(a, Live(es), n / MAP_BITS, n % MAP_BITS);
  }

  lemma {:induction false} RunSound(as_: seq<Bitmap>, es: seq<Event>)
    requires Trace(as_, es) && as_[0].WellFormed() && AllHarmless(as_, es)
    ensures Sound(as_[|es|], Live(es))
    decreases |es|
  {
    hide Sound, Step, Harmless;
    if es != [] {
      var k := |es| - 1;
      Prefix(as_, es, k);
      RunSound(as_[..k + 1], es[..k]);
      assert Step(as_[k], es[k], as_[k + 1]);
      assert es == es[..k] + [es[k]];
      StepSound(as_[k], es[k], as_[k + 1], es[..k]);
    } else {
      NothingLive(as_[0]);
    }
  }

  lemma NothingLive(a: Bitmap)
    requires a.WellFormed()
    ensures Sound(a, Live([]))
  {
  }

  lemma Prefix(as_: seq<Bitmap>, es: seq<Event>, k: nat)
    requires Trace(as_, es) && k <= |es|
    ensures Trace(as_[..k + 1], es[..k]) && (AllHarmless(as_, es) ==> AllHarmless(as_[..k + 1], es[..k]))
  {
    assert forall i | 0 <= i < k :: es[..k][..i] == es[..i];
    assert forall i | 0 <= i < k :: Step(as_[i], es[i], as_[i + 1]);
  }

  lemma SoundIsHarmless(a: Bitmap, live: set<nat>)
    ensures Sound(a, live) ==> Harmless(a, live)
  {
  }

  /** Live blocks are marked at every point of a run exactly when every failed read in it is harmless. */
  lemma RunSoundExact(as_: seq<Bitmap>, es: seq<Event>)
    requires Trace(as_, es) && as_[0].WellFormed()
    ensures AllHarmless(as_, es) <==> forall k | 0 <= k <= |es| :: Sound(as_[k], Live(es[..k]))
  {
    hide Sound, Step, Harmless;
    if AllHarmless(as_, es) {
      forall k | 0 <= k <= |es|
        ensures Sound(as_[k], Live(es[..k]))
      {
        Prefix(as_, es, k);
        RunSound(as_[..k + 1], es[..k]);
      }
    } else {
      var i :| 0 <= i < |es| && es[i].ReadFails() && !Harmless(as_[i + 1], Live(es[..i]));
      assert es[..i + 1][..i] == es[..i];
      SoundIsHarmless(as_[i + 1], Live(es[..i]));
      assert Live(es[..i + 1]) == Live(es[..i]);
    }
  }

  /** No run whose failed reads are harmless hands out a block that is still live. */
  lemma NoDoubleAllocation(as_: seq<Bitmap>, es: seq<Event>, i: nat)
    requires Trace(as_, es) && as_[0].WellFormed() && i < |es| && es[i].Got?
    requires AllHarmless(as_[..i + 1], es[..i])
    ensures es[i].n !in Live(es[..i])
  {
    hide Sound;
    Prefix(as_, es, i);
    RunSound(as_[..i + 1], es[..i]);
    assert Step(as_[i], es[i], as_[i + 1]);
    GetSound(as_[i], Live(es[..i]));
  }

  function FilledMap(): Block
  {
    seq(DEV_BLOCK_SIZE, _ => [true, true, true, true, true, true, true, true])
  }

  /**
   Without that condition a run of four calls hands block 512 out twice: it is allocated, block 0 of
   the other map is freed, the map of 512 cannot be read when 512 is to be freed, and the next get
   takes the clear bit of the stale window for bit 0 of that map.
   */
  lemma DoubleAllocationWitness() returns (as_: seq<Bitmap>, es: seq<Event>)
    ensures Trace(as_, es) && as_[0].WellFormed() && es == [Got(512), Freed(0), FreeFailed(512), Got(512)]
    ensures 512 in Live(es[..3])
  {
    hide Live;
    var full, empty := FilledMap(), ZeroBlock();
    var a0 := Bitmap([full, empty], 1, 0, empty);
    assert !BitGet(empty, 0);
    var a1 := GetDone(a0);
    var a2 := FreeDone(a1, 0);
    assert !BitGet(a2.window, 0);
    var a3 := Stale(a2, 1, 0);
    as_, es := [a0, a1, a2, a3, GetDone(a3)], [Got(512), Freed(0), FreeFailed(512), Got(512)];
    assert Step(a0, es[0], a1) && Step(a1, es[1], a2) && Step(a2, es[2], a3) && Step(a3, es[3], as_[4]);
    LiveOf3(Got(512), Freed(0), FreeFailed(512));
    assert es[..3] == [Got(512), Freed(0), FreeFailed(512)];
  }

  lemma LiveOf3(a: Event, b: Event, c: Event)
    requires a == Got(512) && b == Freed(0) && c == FreeFailed(512)
    ensures Live([a, b, c]) == {512}
  {
    assert [a, b, c][..2] == [a, b] && [a, b][..1] == [a] && [a][..0] == [];
    assert Live([a]) == {512};
    assert Live([a, b]) == {512};
  }

  /** The window is loaded and the marks are exactly the live blocks. */
  ghost predicate Exact(a: Bitmap, live: set<nat>)
  {
    && a.WellFormed() && a.window == a.maps[a.ptr]
    && (forall n | n in live :: a.InRange(n)) && forall n: nat | a.InRange(n) :: a.DiskBit(n) <==> n in live
  }

  lemma StepExact(a: Bitmap, e: Event, a': Bitmap, live: set<nat>)
    requires Exact(a, live) && Step(a, e, a') && (e.Got? || e.GotNothing?)
    ensures |a'.maps| == |a.maps| && Exact(a', if e.Got? then live + {e.n} else live)
    ensures if e.Got? then e.n !in live else forall n: nat | a.InRange(n) :: n in live
  {
    if e.Got? {
      SplitPosition(Choose(a).p, Choose(a).b);
      forall n: nat | a.InRange(n)
        ensures a'.DiskBit(n) <==> n in live + {e.n}
      {
        GetMarksOne(a, n);
      }
      GetMarksOne(a, e.n);
      assert !a.DiskBit(e.n);
    } else {
      forall n: nat | a.InRange(n)
        ensures a.DiskBit(n)
      {
        FullMeansDiskFull(a, n);
      }
    }
  }

  /**
   Without frees and failures nothing is wasted: the marks stay exactly the live blocks, every get that
   succeeds adds one, and one finds nothing only when all blocks are live.
   */
  lemma {:induction false} RunExact(as_: seq<Bitmap>, es: seq<Event>, live: set<nat>)
    requires Trace(as_, es) && Exact(as_[0], live) && forall i | 0 <= i < |es| :: es[i].Got? || es[i].GotNothing?
    ensures Exact(as_[|es|], live + Live(es)) && |as_[|es|].maps| == |as_[0].maps|
    ensures es != [] && es[|es| - 1].GotNothing? ==> |live + Live(es)| == MAP_BITS * |as_[0].maps|
    ensures es != [] && es[|es| - 1].Got? ==> |live + Live(es)| == |live + Live(es[..|es| - 1])| + 1
    decreases |es|
  {
    hide Exact, Step;
    if es != [] {
      var k := |es| - 1;
      var a, e, now := as_[k], es[k], live + Live(es[..k]);
      Prefix(as_, es, k);
      RunExact(as_[..k + 1], es[..k], live);
      assert Step(a, e, as_[k + 1]);
      StepExact(a, e, as_[k + 1], now);
      if e.Got? {
        assert live + Live(es) == now + {e.n};
      } else {
        assert live + Live(es) == now;
        AllLive(now, MAP_BITS * |as_[0].maps|, a);
      }
    } else {
      assert live + Live(es) == live;
    }
  }

  lemma AllLive(live: set<nat>, size: nat, a: Bitmap)
    requires Exact(a, live) && size == MAP_BITS * |a.maps| && forall n: nat | a.InRange(n) :: n in live
    ensures |live| == size
  {
    assert live == Below(size);
  }

  function Below(n: nat): (s: set<nat>)
    ensures |s| == n && forall m: nat :: m in s <==> m < n
  {
    if n == 0 then {} else Below(n - 1) + {n - 1}
  }

  /** After any call but one that failed on the disk, a get that finds nothing has seen every bit set. */
  lemma RunComplete(as_: seq<Bitmap>, es: seq<Event>, i: nat)
    requires Trace(as_, es) && i < |es| && es[i].GotNothing?
    requires if i == 0 then Synced(as_[0]) else !es[i - 1].MarkedOnly? && !es[i - 1].ReadFails()
    ensures AllMarked(as_[i])
  {
    assert Step(as_[i], es[i], as_[i + 1]);
    if i > 0 {
      var a, e := as_[i - 1], es[i - 1];
      assert Step(a, e, as_[i]);
      SyncedKept(a, if e.Freed? then e.n else 0);
    }
    assert Choose(as_[i]).Full?;
    GetComplete(as_[i]);
  }
}
