/**
 The write-back block cache of fs/block.c as a state machine on values: which slot a
 request uses, what the slot and the disk hold afterwards, and why none of it shows.
 */
module CacheSpec {
  import opened Bytes

  const BLOCK_ARRAY_SIZE := 128
  /** BLOCK_FREE is -1 in an unsigned block_t. */
  const BLOCK_FREE: Word := 0xFFFF_FFFF
  const BLOCK_MAX_LRU: Word := 0xFFFF_FFFF

  datatype Key = Key(dev: int, block: Word)

  type Disk = map<Key, Block>

  /** Sectors never written read as zeros. */
  function DiskAt(disk: Disk, k: Key): Block
  {
    if k in disk then disk[k] else ZeroBlock()
  }

  datatype Slot = Slot(dev: int, block: Word, lru: Word, dirty: bool, data: Block)
  {
    predicate Free() { block == BLOCK_FREE }

    function Id(): Key { Key(dev, block) }

    predicate Holds(k: Key) { !Free() && Id() == k }

    /** A hit adds one to the use count until it saturates. */
    function Touch(): Slot
    {
      if lru < BLOCK_MAX_LRU then this.(lru := lru + 1) else this
    }
  }

  datatype Cache = Cache(slots: seq<Slot>, highest: Word, disk: Disk)

  /** The invariant behind transparency: no key is cached twice and a clean slot equals the disk. */
  ghost predicate Coherent(c: Cache)
  {
    && |c.slots| == BLOCK_ARRAY_SIZE
    && (forall i | 0 <= i < |c.slots| && c.slots[i].Free() :: !c.slots[i].dirty)
    && (forall i | 0 <= i < |c.slots| && !c.slots[i].Free() && !c.slots[i].dirty ::
          c.slots[i].data == DiskAt(c.disk, c.slots[i].Id()))
    && Unique(c.slots)
  }

  ghost predicate Unique(slots: seq<Slot>)
  {
    forall i, j | 0 <= i < |slots| && 0 <= j < |slots| && !slots[i].Free() && slots[i].Id() == slots[j].Id() :: i == j
  }

  /** The first slot at or after n holding k, or |slots|. */
  function FindFrom(slots: seq<Slot>, k: Key, n: nat): (i: nat)
    requires n <= |slots|
    ensures n <= i <= |slots|
    ensures i < |slots| ==> slots[i].Holds(k)
    ensures forall j | n <= j < i :: !slots[j].Holds(k)
    decreases |slots| - n
  {
    if n == |slots| || slots[n].Holds(k) then n else FindFrom(slots, k, n + 1)
  }

  function Find(slots: seq<Slot>, k: Key): nat
  {
    FindFrom(slots, k, 0)
  }

  predicate Cached(c: Cache, k: Key)
  {
    Find(c.slots, k) < |c.slots|
  }

  /** What a caller of the cache should see at k. */
  function ViewAt(c: Cache, k: Key): Block
  {
    if Cached(c, k) then c.slots[Find(c.slots, k)].data else DiskAt(c.disk, k)
  }

  /** A plain store: the contents of every sector of every device. */
  type Store = imap<Key, Block>

  ghost function Look(v: Store, k: Key): Block
  {
    if k in v then v[k] else ZeroBlock()
  }

  /** The sector of one device. */
  ghost function At(v: Store, dev: int, b: Word): Block
  {
    Look(v, Key(dev, b))
  }

  ghost function View(c: Cache): Store
  {
    imap k: Key :: ViewAt(c, k)
  }

  lemma LookUpdated(v: Store, k: Key, data: Block, q: Key)
    ensures Look(v[k := data], q) == if q == k then data else Look(v, q)
  {
  }

  // ---------------------------------------------------------------- slot selection

  datatype Choice = FreeSlot(i: nat) | CleanSlot(i: nat) | DirtySlot(i: nat) | NoSlot

  /** First slot of the wanted kind with the lowest count below BLOCK_MAX_LRU; |slots| if none. */
  function Lowest(slots: seq<Slot>, dirty: bool, n: nat): (r: nat)
    requires n <= |slots|
    ensures r < n || r == |slots|
    ensures r < n ==> slots[r].dirty == dirty && slots[r].lru < BLOCK_MAX_LRU
  {
    if n == 0 then |slots|
    else
      var p := Lowest(slots, dirty, n - 1);
      if slots[n - 1].dirty == dirty && slots[n - 1].lru < (if p < n then slots[p].lru else BLOCK_MAX_LRU)
      then n - 1 else p
  }

  function FirstFree(slots: seq<Slot>, n: nat): (r: nat)
    requires n <= |slots|
    ensures n <= r <= |slots|
    ensures forall j | n <= j < r :: !slots[j].Free()
    ensures r < |slots| ==> slots[r].Free()
    decreases |slots| - n
  {
    if n == |slots| || slots[n].Free() then n else FirstFree(slots, n + 1)
  }

  /** A free slot if there is one, then the least used clean slot, then the least used dirty one. */
  function Choose(slots: seq<Slot>): Choice
  {
    var n := |slots|;
    if FirstFree(slots, 0) < n then FreeSlot(FirstFree(slots, 0))
    else if Lowest(slots, false, n) < n then CleanSlot(Lowest(slots, false, n))
    else if Lowest(slots, true, n) < n then DirtySlot(Lowest(slots, true, n))
    else NoSlot
  }

  /** The running maximum that the selection scan leaves in `highest`. */
  function ScanHighest(slots: seq<Slot>, n: nat, h: Word): Word
    requires n <= |slots|
  {
    if n == 0 then h
    else
      var p := ScanHighest(slots, n - 1, h);
      if slots[n - 1].lru > p then slots[n - 1].lru else p
  }

  // ---------------------------------------------------------------- operations

  /**
   Where an eviction's dev_write lands. A seek-positioned device writes where dev_scan left it;
   a block-addressed one uses the number argument, which is the incoming block.
   */
  function WriteBack(disk: Disk, s: Slot, incoming: Word, addressed: bool): Disk
  {
    disk[Key(s.dev, if addressed then incoming else s.block) := s.data]
  }

  /** `highest` after the selection scan, which stops at the first free slot. */
  function Scanned(c: Cache): Cache
  {
    c.(highest := ScanHighest(c.slots, FirstFree(c.slots, 0), c.highest))
  }

  function Install(c: Cache, i: nat, k: Key, data: Block, dirty: bool): Cache
    requires i < |c.slots|
  {
    var bump := c.slots[i].lru < BLOCK_MAX_LRU;
    var h := if bump then (c.highest + 1) % 0x1_0000_0000 else c.highest;
    c.(slots := c.slots[i := Slot(k.dev, k.block, if bump then h else c.slots[i].lru, dirty, data)],
       highest := h)
  }

  /** The request misses and only dirty slots are left to evict. */
  predicate EvictsDirty(c: Cache, k: Key)
  {
    !Cached(c, k) && Choose(c.slots).DirtySlot?
  }

  /** The disk once a miss on k has written its victim back. */
  function Evicted(c: Cache, k: Key, addressed: bool): Disk
  {
    match Choose(c.slots)
    case DirtySlot(i) => WriteBack(c.disk, c.slots[i], k.block, addressed)
    case _ => c.disk
  }

  predicate CanServe(c: Cache, k: Key)
  {
    Cached(c, k) || !Choose(c.slots).NoSlot?
  }

  /** State after block_write succeeds. */
  function WriteDone(c: Cache, k: Key, data: Block, addressed: bool): Cache
    requires CanServe(c, k)
  {
    if Cached(c, k) then
      var i := Find(c.slots, k);
      c.(slots := c.slots[i := c.slots[i].Touch().(dirty := true, data := data)])
    else
      Install(Scanned(c).(disk := Evicted(c, k, addressed)), Choose(c.slots).i, k, data, true)
  }

  /** State after block_read succeeds; the bytes handed out are those now in the slot. */
  function ReadDone(c: Cache, k: Key, addressed: bool): Cache
    requires CanServe(c, k)
  {
    if Cached(c, k) then
      var i := Find(c.slots, k);
      c.(slots := c.slots[i := c.slots[i].Touch()])
    else
      var d := Evicted(c, k, addressed);
      Install(Scanned(c).(disk := d), Choose(c.slots).i, k, DiskAt(d, k), false)
  }

  /** State after block_free succeeds. */
  function FreeDone(c: Cache, k: Key): Cache
  {
    if Cached(c, k) then
      var i := Find(c.slots, k);
      c.(slots := c.slots[i := Slot(-1, BLOCK_FREE, 0, false, c.slots[i].data)],
         disk := if c.slots[i].dirty then c.disk[k := c.slots[i].data] else c.disk)
    else c
  }

  /** State after block_disk_write succeeds. */
  function DiskWriteDone(c: Cache, k: Key, data: Block): Cache
  {
    (if Cached(c, k) then
       var i := Find(c.slots, k);
       c.(slots := c.slots[i := c.slots[i].(data := data)])
     else c).(disk := c.disk[k := data])
  }

  // ---------------------------------------------------------------- selection is least-used, clean first

  lemma LowestIsMinimum(slots: seq<Slot>, dirty: bool, n: nat)
    requires n <= |slots|
    ensures var r := Lowest(slots, dirty, n);
            forall j | 0 <= j < n && slots[j].dirty == dirty && slots[j].lru < BLOCK_MAX_LRU ::
              r < n && slots[r].lru <= slots[j].lru && (slots[r].lru == slots[j].lru ==> r <= j)
  {
  }

  /** Eviction policy: a dirty slot is chosen only when no slot is free or usable and clean. */
  lemma ChoiceIsPolicy(slots: seq<Slot>)
    ensures match Choose(slots)
            case FreeSlot(i) => i < |slots| && slots[i].Free()
            case CleanSlot(i) =>
              && i < |slots| && !slots[i].dirty
              && (forall j | 0 <= j < |slots| :: !slots[j].Free())
              && (forall j | 0 <= j < |slots| && !slots[j].dirty :: slots[i].lru <= slots[j].lru)
            case DirtySlot(i) =>
              && i < |slots| && slots[i].dirty
              && (forall j | 0 <= j < |slots| :: !slots[j].Free())
              && (forall j | 0 <= j < |slots| && !slots[j].dirty :: slots[j].lru == BLOCK_MAX_LRU)
              && (forall j | 0 <= j < |slots| && slots[j].dirty :: slots[i].lru <= slots[j].lru)
            case NoSlot => forall j | 0 <= j < |slots| :: !slots[j].Free() && slots[j].lru == BLOCK_MAX_LRU
  {
    LowestIsMinimum(slots, false, |slots|);
    LowestIsMinimum(slots, true, |slots|);
  }

  // ---------------------------------------------------------------- what a call moves

  /** A hit adds one to the count of its slot, up to the maximum, and touches no other slot, nor the disk. */
  lemma HitCounts(c: Cache, k: Key, data: Block, addressed: bool)
    requires Cached(c, k)
    ensures var i, r, w := Find(c.slots, k), ReadDone(c, k, addressed), WriteDone(c, k, data, addressed);
            && r.slots[i].lru == w.slots[i].lru == (if c.slots[i].lru == BLOCK_MAX_LRU then BLOCK_MAX_LRU else c.slots[i].lru + 1)
            && r.slots[i].dirty == c.slots[i].dirty && w.slots[i].dirty
            && r.disk == w.disk == c.disk && r.highest == w.highest == c.highest
            && forall j | 0 <= j < |c.slots| && j != i :: r.slots[j] == w.slots[j] == c.slots[j]
  {
  }

  /** A miss replaces the tenant of one slot: dirty after a write, clean after a read. The disk changes only by a dirty victim, at its own sector. */
  lemma MissReplacesOne(c: Cache, k: Key, data: Block)
    requires !Cached(c, k) && CanServe(c, k) && k.block != BLOCK_FREE
    ensures var i, r, w := Choose(c.slots).i, ReadDone(c, k, false), WriteDone(c, k, data, false);
            && i < |c.slots| && r.slots[i].Holds(k) && w.slots[i].Holds(k) && !r.slots[i].dirty && w.slots[i].dirty && w.slots[i].data == data
            && (forall j | 0 <= j < |c.slots| && j != i :: r.slots[j] == w.slots[j] == c.slots[j])
            && r.disk == w.disk
            && (forall q :: DiskAt(r.disk, q) == if EvictsDirty(c, k) && q == c.slots[i].Id() then c.slots[i].data else DiskAt(c.disk, q))
  {
    hide ScanHighest;
    ChoiceIsPolicy(c.slots);
  }

  /** A free, a write-through and a write-back leave every other slot and every other sector alone. */
  lemma OthersKept(c: Cache, k: Key, data: Block, j: nat, q: Key)
    requires j < |c.slots| && !c.slots[j].Holds(k) && q != k
    ensures FreeDone(c, k).slots[j] == DiskWriteDone(c, k, data).slots[j] == c.slots[j]
    ensures DiskAt(FreeDone(c, k).disk, q) == DiskAt(DiskWriteDone(c, k, data).disk, q) == DiskAt(c.disk, q)
    ensures forall i | 0 <= i < |c.slots| && c.slots[i].Holds(k) :: SyncDone(c, i).slots[j] == c.slots[j] && DiskAt(SyncDone(c, i).disk, q) == DiskAt(c.disk, q)
  {
  }

  lemma {:induction false} HighestIsMax(slots: seq<Slot>, n: nat, h: Word)
    requires n <= |slots|
    ensures var m := ScanHighest(slots, n, h);
            h <= m && (forall j | 0 <= j < n :: slots[j].lru <= m) && (m == h || exists j :: 0 <= j < n && slots[j].lru == m)
  {
    if n > 0 {
      HighestIsMax(slots, n - 1, h);
    }
  }

  /**
   A new tenant counts as used last: more than every slot that the selection looked at, which is all of
   them when one had to go. Once a count is saturated the next one wraps to zero instead.
   */
  lemma TenantIsNewest(c: Cache, k: Key, data: Block, addressed: bool, j: nat)
    requires !Cached(c, k) && CanServe(c, k) && j < |c.slots| && c.slots[Choose(c.slots).i].lru < BLOCK_MAX_LRU
    requires Choose(c.slots).FreeSlot? ==> j < Choose(c.slots).i
    ensures var i, r, w := Choose(c.slots).i, ReadDone(c, k, addressed), WriteDone(c, k, data, addressed);
            && r.slots[i].lru == w.slots[i].lru
            && (c.highest < BLOCK_MAX_LRU && (forall l | 0 <= l < |c.slots| :: c.slots[l].lru < BLOCK_MAX_LRU) ==>
                  c.slots[j].lru < r.slots[i].lru && c.highest < r.slots[i].lru)
            && (c.highest == BLOCK_MAX_LRU || c.slots[j].lru == BLOCK_MAX_LRU ==> r.slots[i].lru == 0)
  {
    hide ScanHighest, Lowest;
    HighestIsMax(c.slots, FirstFree(c.slots, 0), c.highest);
    ChoiceIsPolicy(c.slots);
  }

  // ---------------------------------------------------------------- transparency

  lemma FindUnique(c: Cache, i: nat, k: Key)
    requires Coherent(c) && i < |c.slots| && c.slots[i].Holds(k)
    ensures Find(c.slots, k) == i && Cached(c, k) && ViewAt(c, k) == c.slots[i].data
  {
  }

  /** Replacing slot i (whose key is no longer, or still, k) only moves the view at the two keys involved. */
  lemma ReplaceSlot(c: Cache, i: nat, s: Slot, disk: Disk)
    requires Coherent(c) && i < |c.slots|
    requires s.Free() || c.slots[i].Holds(s.Id()) || !Cached(c, s.Id())
    requires s.Free() ==> !s.dirty
    requires !s.Free() && !s.dirty ==> s.data == DiskAt(disk, s.Id())
    requires forall k | DiskAt(disk, k) != DiskAt(c.disk, k) :: !Cached(c, k) || c.slots[i].Holds(k) || s.Holds(k)
    ensures var c' := c.(slots := c.slots[i := s], disk := disk);
            && Coherent(c')
            && forall k ::
                 ViewAt(c', k) == if s.Holds(k) then s.data
                                  else if c.slots[i].Holds(k) then DiskAt(disk, k)
                                  else if Cached(c, k) then ViewAt(c, k)
                                  else DiskAt(disk, k)
  {
    hide FindFrom;
    var c' := c.(slots := c.slots[i := s], disk := disk);
    forall a, b | 0 <= a < |c'.slots| && 0 <= b < |c'.slots| && !c'.slots[a].Free() && c'.slots[a].Id() == c'.slots[b].Id()
      ensures a == b
    {
    }
    forall j | 0 <= j < |c'.slots| && !c'.slots[j].Free() && !c'.slots[j].dirty
      ensures c'.slots[j].data == DiskAt(disk, c'.slots[j].Id())
    {
      if j != i {
        FindUnique(c, j, c.slots[j].Id());
      }
    }
    forall k
      ensures ViewAt(c', k) == if s.Holds(k) then s.data
                               else if c.slots[i].Holds(k) then DiskAt(disk, k)
                               else if Cached(c, k) then ViewAt(c, k)
                               else DiskAt(disk, k)
    {
      if s.Holds(k) {
        FindUnique(c', i, k);
      } else if Cached(c, k) && !c.slots[i].Holds(k) {
        FindUnique(c', Find(c.slots, k), k);
      } else {
        assert !Cached(c', k);
      }
    }
  }

  lemma ViewIs(c: Cache, c': Cache, k: Key, data: Block)
    requires forall q :: ViewAt(c', q) == if q == k then data else ViewAt(c, q)
    ensures View(c') == View(c)[k := data]
    ensures data == ViewAt(c, k) ==> View(c') == View(c)
  {
  }

  /** The use counters are invisible. */
  lemma SameView(c: Cache, c': Cache)
    requires c'.slots == c.slots && c'.disk == c.disk
    ensures Coherent(c) ==> Coherent(c')
    ensures View(c') == View(c)
  {
  }

  /** A slot gets a new tenant after its old one was written back where it belongs. */
  lemma Retenant(c: Cache, i: nat, s: Slot, disk: Disk)
    requires Coherent(c) && i < |c.slots|
    requires !s.Free() && !Cached(c, s.Id())
    requires disk == if c.slots[i].dirty then WriteBack(c.disk, c.slots[i], 0, false) else c.disk
    requires !s.dirty ==> s.data == DiskAt(disk, s.Id())
    ensures var c' := c.(slots := c.slots[i := s], disk := disk);
            Coherent(c') && View(c') == View(c)[s.Id() := s.data]
  {
    var v := c.slots[i];
    if !v.Free() {
      FindUnique(c, i, v.Id());
    }
    ReplaceSlot(c, i, s, disk);
    ViewIs(c, c.(slots := c.slots[i := s], disk := disk), s.Id(), s.data);
  }

  /** A slot keeps its tenant but takes new bytes, on disk as well when `through`. */
  lemma Overwrite(c: Cache, i: nat, s: Slot, through: bool)
    requires Coherent(c) && i < |c.slots|
    requires !s.Free() && s.Id() == c.slots[i].Id()
    requires s.dirty || through || (!c.slots[i].dirty && s.data == c.slots[i].data)
    ensures var c' := c.(slots := c.slots[i := s], disk := if through then c.disk[s.Id() := s.data] else c.disk);
            Coherent(c') && View(c') == View(c)[s.Id() := s.data]
  {
    var disk := if through then c.disk[s.Id() := s.data] else c.disk;
    FindUnique(c, i, s.Id());
    ReplaceSlot(c, i, s, disk);
    ViewIs(c, c.(slots := c.slots[i := s], disk := disk), s.Id(), s.data);
  }

  /** On a miss the slot chosen has been written back where it belongs, if it was dirty. */
  lemma VictimWrittenBack(c: Cache, k: Key, addressed: bool)
    requires Coherent(c) && CanServe(c, k) && !Cached(c, k) && (addressed ==> !EvictsDirty(c, k))
    ensures var i := Choose(c.slots).i;
            i < |c.slots| && Evicted(c, k, addressed) == if c.slots[i].dirty then WriteBack(c.disk, c.slots[i], 0, false) else c.disk
  {
    hide Lowest, FirstFree, Unique;
    ChoiceIsPolicy(c.slots);
  }

  lemma ViewKept(c: Cache, k: Key)
    ensures View(c)[k := ViewAt(c, k)] == View(c) && Look(View(c), k) == ViewAt(c, k)
  {
  }

  /** A successful block_write changes the view at its own key only, whichever slot it used. */
  lemma WriteTransparent(c: Cache, k: Key, data: Block, addressed: bool)
    requires Coherent(c) && k.block != BLOCK_FREE && CanServe(c, k)
    requires addressed ==> !EvictsDirty(c, k)
    ensures Coherent(WriteDone(c, k, data, addressed))
    ensures View(WriteDone(c, k, data, addressed)) == View(c)[k := data]
  {
    hide Coherent, View, FindFrom, Choose, ScanHighest, FirstFree;
    var c' := WriteDone(c, k, data, addressed);
    if Cached(c, k) {
      Overwrite(c, Find(c.slots, k), c'.slots[Find(c.slots, k)], false);
    } else {
      VictimWrittenBack(c, k, addressed);
      var i := Choose(c.slots).i;
      Retenant(c, i, c'.slots[i], c'.disk);
      SameView(c.(slots := c'.slots, disk := c'.disk), c');
    }
  }

  lemma ReadHit(c: Cache, k: Key, addressed: bool)
    requires Coherent(c) && Cached(c, k)
    ensures var c' := ReadDone(c, k, addressed);
            Coherent(c') && View(c') == View(c) && Cached(c', k) && ViewAt(c', k) == ViewAt(c, k)
  {
    hide Coherent, View, FindFrom, Choose;
    var i, c' := Find(c.slots, k), ReadDone(c, k, addressed);
    Overwrite(c, i, c'.slots[i], false);
    FindUnique(c', i, k);
    ViewKept(c, k);
  }

  lemma ReadFill(c: Cache, k: Key, addressed: bool)
    requires Coherent(c) && k.block != BLOCK_FREE && CanServe(c, k) && !Cached(c, k)
    requires addressed ==> !EvictsDirty(c, k)
    ensures var c' := ReadDone(c, k, addressed);
            Coherent(c') && View(c') == View(c) && Cached(c', k) && ViewAt(c', k) == ViewAt(c, k)
  {
    hide Coherent, View, FindFrom, Choose, ScanHighest, FirstFree;
    VictimWrittenBack(c, k, addressed);
    var i, c' := Choose(c.slots).i, ReadDone(c, k, addressed);
    var mid := c.(slots := c'.slots, disk := c'.disk);
    NotTheVictim(c, k, i);
    Retenant(c, i, c'.slots[i], c'.disk);
    SameView(mid, c');
    FindUnique(c', i, k);
    ViewKept(c, k);
  }

  /** A slot's tenant is cached, so it is not the block that misses. */
  lemma NotTheVictim(c: Cache, k: Key, i: nat)
    requires Coherent(c) && !Cached(c, k) && k.block != BLOCK_FREE && i < |c.slots|
    ensures c.slots[i].Id() != k && DiskAt(WriteBack(c.disk, c.slots[i], 0, false), k) == DiskAt(c.disk, k)
  {
  }

  /** The sector that a miss reads is still what callers see there, and the state after it has that disk. */
  lemma FillsFromView(c: Cache, k: Key, addressed: bool)
    requires Coherent(c) && k.block != BLOCK_FREE && CanServe(c, k) && !Cached(c, k)
    requires addressed ==> !EvictsDirty(c, k)
    ensures DiskAt(ReadDone(c, k, addressed).disk, k) == ViewAt(c, k)
  {
    hide Coherent, FindFrom, Choose, ScanHighest, FirstFree;
    VictimWrittenBack(c, k, addressed);
    NotTheVictim(c, k, Choose(c.slots).i);
  }

  /** A successful block_read returns the view and disturbs it nowhere. */
  lemma ReadTransparent(c: Cache, k: Key, addressed: bool)
    requires Coherent(c) && k.block != BLOCK_FREE && CanServe(c, k)
    requires addressed ==> !EvictsDirty(c, k)
    ensures Coherent(ReadDone(c, k, addressed))
    ensures View(ReadDone(c, k, addressed)) == View(c)
    ensures Cached(ReadDone(c, k, addressed), k)
    ensures ViewAt(ReadDone(c, k, addressed), k) == ViewAt(c, k)
  {
    hide Coherent, View, ReadDone, EvictsDirty;
    if Cached(c, k) {
      ReadHit(c, k, addressed);
    } else {
      ReadFill(c, k, addressed);
    }
  }

  /** Writing a dirty victim back before the rest of the call fails is also invisible. */
  lemma WriteBackTransparent(c: Cache, i: nat)
    requires Coherent(c) && i < |c.slots| && c.slots[i].dirty
    ensures var c' := c.(disk := WriteBack(c.disk, c.slots[i], 0, false));
            Coherent(c') && View(c') == View(c)
  {
    Overwrite(c, i, c.slots[i], true);
    FindUnique(c, i, c.slots[i].Id());
    assert c.slots[i := c.slots[i]] == c.slots;
    assert Look(View(c), c.slots[i].Id()) == ViewAt(c, c.slots[i].Id());
  }

  /** block_free empties the slot without moving the view. */
  lemma FreeTransparent(c: Cache, k: Key)
    requires Coherent(c)
    ensures Coherent(FreeDone(c, k)) && View(FreeDone(c, k)) == View(c) && !Cached(FreeDone(c, k), k)
  {
    var c' := FreeDone(c, k);
    if Cached(c, k) {
      var i := Find(c.slots, k);
      ReplaceSlot(c, i, c'.slots[i], c'.disk);
      ViewIs(c, c', k, ViewAt(c, k));
      assert forall j | 0 <= j < |c'.slots| :: !c'.slots[j].Holds(k);
    }
  }

  /** block_disk_write moves the view at k only, and the disk agrees with it there. */
  lemma DiskWriteTransparent(c: Cache, k: Key, data: Block)
    requires Coherent(c)
    ensures Coherent(DiskWriteDone(c, k, data)) && View(DiskWriteDone(c, k, data)) == View(c)[k := data]
    ensures DiskAt(DiskWriteDone(c, k, data).disk, k) == data
  {
    var c' := DiskWriteDone(c, k, data);
    if Cached(c, k) {
      Overwrite(c, Find(c.slots, k), c'.slots[Find(c.slots, k)], true);
    } else {
      ViewIs(c, c', k, data);
    }
  }

  /** State left by block_disk_write when the device refuses: a cached copy already has the new bytes. */
  function DiskWriteFailed(c: Cache, k: Key, data: Block): Cache
  {
    if Cached(c, k) then c.(slots := c.slots[Find(c.slots, k) := c.slots[Find(c.slots, k)].(data := data)]) else c
  }

  /** That failure keeps the cache coherent exactly when it did not change a clean slot. */
  lemma DiskWriteFailedExact(c: Cache, k: Key, data: Block)
    requires Coherent(c)
    ensures Coherent(DiskWriteFailed(c, k, data)) <==>
            !Cached(c, k) || c.slots[Find(c.slots, k)].dirty || data == ViewAt(c, k)
    ensures !Cached(c, k) || data == ViewAt(c, k) ==> DiskWriteFailed(c, k, data) == c
  {
    var c' := DiskWriteFailed(c, k, data);
    if Cached(c, k) {
      var i := Find(c.slots, k);
      if c.slots[i].dirty {
        Overwrite(c, i, c'.slots[i], false);
      } else if data == ViewAt(c, k) {
        assert c'.slots == c.slots;
      } else {
        assert c'.slots[i].data != DiskAt(c'.disk, c'.slots[i].Id());
      }
    }
  }

  // ---------------------------------------------------------------- the block-addressed build

  /**
   On a block-addressed device an eviction writes the victim over the incoming sector of the
   victim's device. What callers then see, the request having put `slot` in the victim's place.
   */
  lemma AddressedView(c: Cache, k: Key, slot: Slot, c': Cache)
    requires Coherent(c) && k.block != BLOCK_FREE && EvictsDirty(c, k) && slot.Holds(k)
    requires var i := Choose(c.slots).i;
             i < |c.slots| && c'.slots == c.slots[i := slot] && c'.disk == Evicted(c, k, true)
    ensures var v := c.slots[Choose(c.slots).i];
            forall q :: ViewAt(c', q) == if q == k then slot.data
                                         else if q != v.Id() && Cached(c, q) then ViewAt(c, q)
                                         else if q == Key(v.dev, k.block) then v.data
                                         else DiskAt(c.disk, q)
  {
    var i := Choose(c.slots).i;
    var v := c.slots[i];
    hide Choose, FindFrom;
    forall q
      ensures ViewAt(c', q) == if q == k then slot.data
                               else if q != v.Id() && Cached(c, q) then ViewAt(c, q)
                               else if q == Key(v.dev, k.block) then v.data
                               else DiskAt(c.disk, q)
    {
      if q == k {
        assert c'.slots[i].Holds(q) && forall j | 0 <= j < |c'.slots| && j != i :: !c'.slots[j].Holds(q);
      } else if q != v.Id() && Cached(c, q) {
        var f := Find(c.slots, q);
        assert c'.slots[f].Holds(q) && forall j | 0 <= j < |c'.slots| && j != f :: !c'.slots[j].Holds(q);
      } else {
        assert forall j | 0 <= j < |c'.slots| :: !c'.slots[j].Holds(q);
      }
    }
  }

  /** The rest of the view survives exactly when the victim equalled its sector and the sector hit is k's own, hidden or equal. */
  lemma AddressedExact(c: Cache, k: Key, slot: Slot, c': Cache)
    requires Coherent(c) && k.block != BLOCK_FREE && EvictsDirty(c, k) && slot.Holds(k)
    requires var i := Choose(c.slots).i;
             i < |c.slots| && c'.slots == c.slots[i := slot] && c'.disk == Evicted(c, k, true)
    ensures var v := c.slots[Choose(c.slots).i];
            var hit := Key(v.dev, k.block);
            View(c') == View(c)[k := slot.data] <==>
            && (v.block != k.block ==> v.data == DiskAt(c.disk, v.Id()))
            && (hit == k || Cached(c, hit) || DiskAt(c.disk, hit) == v.data)
  {
    hide Coherent, Choose, Find, View, ViewAt, DiskAt;
    var i := Choose(c.slots).i;
    var v := c.slots[i];
    AddressedView(c, k, slot, c');
    VictimSeen(c, k);
    ViewsAgree(c, c', k, slot.data);
    if v.block == k.block {
      assert v.dev != k.dev && Key(v.dev, k.block) == v.Id();
    }
    forall q
      ensures Cached(c, q) || ViewAt(c, q) == DiskAt(c.disk, q)
    {
      Uncached(c, q);
    }
    if View(c') == View(c)[k := slot.data] {
      assert ViewAt(c', v.Id()) == v.data;
      assert Key(v.dev, k.block) == k || ViewAt(c', Key(v.dev, k.block)) == ViewAt(c, Key(v.dev, k.block));
    }
  }

  /** The victim is a tenant of its own, and not the block that misses. */
  lemma VictimSeen(c: Cache, k: Key)
    requires Coherent(c) && EvictsDirty(c, k) && k.block != BLOCK_FREE
    ensures Choose(c.slots).i < |c.slots| && var v := c.slots[Choose(c.slots).i];
            v.dirty && Cached(c, v.Id()) && ViewAt(c, v.Id()) == v.data && v.Id() != k
  {
    hide Lowest, FirstFree;
    ChoiceIsPolicy(c.slots);
    FindUnique(c, Choose(c.slots).i, c.slots[Choose(c.slots).i].Id());
  }

  lemma Uncached(c: Cache, q: Key)
    ensures !Cached(c, q) ==> ViewAt(c, q) == DiskAt(c.disk, q)
  {
  }

  lemma ViewsAgree(c: Cache, c': Cache, k: Key, data: Block)
    ensures View(c') == View(c)[k := data] <==> forall q :: ViewAt(c', q) == if q == k then data else ViewAt(c, q)
  {
    hide ViewAt;
    if View(c') == View(c)[k := data] {
      forall q
        ensures ViewAt(c', q) == if q == k then data else ViewAt(c, q)
      {
        assert View(c')[q] == ViewAt(c', q);
      }
    }
  }

  /** A write that evicts a dirty slot keeps the rest of the view exactly when nothing was lost, or only its own old bytes. */
  lemma AddressedWriteExact(c: Cache, k: Key, data: Block)
    requires Coherent(c) && k.block != BLOCK_FREE && EvictsDirty(c, k)
    ensures var v := c.slots[Choose(c.slots).i];
            var hit := Key(v.dev, k.block);
            View(WriteDone(c, k, data, true)) == View(c)[k := data] <==>
            && (v.block != k.block ==> v.data == DiskAt(c.disk, v.Id()))
            && (hit == k || Cached(c, hit) || DiskAt(c.disk, hit) == v.data)
  {
    var c' := WriteDone(c, k, data, true);
    var i := Choose(c.slots).i;
    FindUnique(c, i, c.slots[i].Id());
    hide Coherent, View, Choose, FindFrom, ScanHighest, FirstFree, Lowest;
    AddressedExact(c, k, c'.slots[i], c');
  }

  /**
   A read that evicts a dirty slot leaves what callers see alone exactly when nothing was lost; if
   the victim is on the read's own device, the bytes returned are the victim's.
   */
  lemma AddressedReadExact(c: Cache, k: Key)
    requires Coherent(c) && k.block != BLOCK_FREE && EvictsDirty(c, k)
    ensures var v := c.slots[Choose(c.slots).i];
            var hit := Key(v.dev, k.block);
            View(ReadDone(c, k, true)) == View(c) <==>
            && (v.block != k.block ==> v.data == DiskAt(c.disk, v.Id()))
            && (Cached(c, hit) || DiskAt(c.disk, hit) == v.data)
    ensures var v := c.slots[Choose(c.slots).i];
            ViewAt(ReadDone(c, k, true), k) == if v.dev == k.dev then v.data else DiskAt(c.disk, k)
  {
    var c' := ReadDone(c, k, true);
    var i := Choose(c.slots).i;
    var v := c.slots[i];
    FindUnique(c, i, v.Id());
    AddressedView(c, k, c'.slots[i], c');
    hide Coherent, Choose, FindFrom, ScanHighest, FirstFree, Lowest;
    assert ViewAt(c, k) == DiskAt(c.disk, k);
    AddressedExact(c, k, c'.slots[i], c');
    ViewKept(c, k);
    if View(c') == View(c) {
      assert Look(View(c'), k) == ViewAt(c', k);
    }
  }

  /** 128 dirty sectors of device 0 that the disk has never seen. */
  function FullOfDirty(): Cache
  {
    Cache(seq(BLOCK_ARRAY_SIZE, i requires 0 <= i < BLOCK_ARRAY_SIZE => Slot(0, i, 0, true, Ones())), 0, map[])
  }

  function Ones(): Block
  {
    seq(DEV_BLOCK_SIZE, _ => [true, true, true, true, true, true, true, true])
  }

  lemma AllDirtyEvicts(c: Cache, k: Key)
    requires Coherent(c) && !Cached(c, k)
    requires forall i | 0 <= i < |c.slots| :: !c.slots[i].Free() && c.slots[i].dirty && c.slots[i].lru < BLOCK_MAX_LRU
    ensures EvictsDirty(c, k) && Choose(c.slots).i < |c.slots|
  {
  }

  lemma FullOfDirtySlots(c: Cache)
    requires c == FullOfDirty()
    ensures |c.slots| == BLOCK_ARRAY_SIZE && c.disk == map[]
    ensures forall i | 0 <= i < |c.slots| :: c.slots[i] == Slot(0, i, 0, true, Ones())
  {
    hide Ones;
  }

  lemma FullOfDirtyReady(c: Cache, k: Key)
    requires |c.slots| == BLOCK_ARRAY_SIZE && k == Key(0, 200)
    requires forall i | 0 <= i < |c.slots| :: c.slots[i] == Slot(0, i, 0, true, Ones())
    ensures Coherent(c) && !Cached(c, k)
  {
    hide Ones;
  }

  /** Any dirty victim newer than the disk: the read is wrong and the write loses the victim. */
  lemma AddressedLoss(c: Cache, k: Key)
    requires Coherent(c) && k.block != BLOCK_FREE && EvictsDirty(c, k)
    requires var v := c.slots[Choose(c.slots).i];
             v.dev == k.dev && v.data != DiskAt(c.disk, v.Id()) && v.data != DiskAt(c.disk, k)
    ensures ViewAt(ReadDone(c, k, true), k) != ViewAt(c, k)
    ensures forall data :: View(WriteDone(c, k, data, true)) != View(c)[k := data]
  {
    AddressedReadExact(c, k);
    FindUnique(c, Choose(c.slots).i, c.slots[Choose(c.slots).i].Id());
    forall data
      ensures View(WriteDone(c, k, data, true)) != View(c)[k := data]
    {
      AddressedWriteExact(c, k, data);
    }
  }

  /** A concrete such state. */
  lemma AddressedEvictionWitness(c: Cache, k: Key)
    requires c == FullOfDirty() && k == Key(0, 200)
    ensures Coherent(c) && EvictsDirty(c, k) && Choose(c.slots).i < |c.slots| && var v := c.slots[Choose(c.slots).i];
            v.dev == k.dev && v.data != DiskAt(c.disk, v.Id()) && v.data != DiskAt(c.disk, k)
  {
    hide FullOfDirty, Choose, Coherent, Cached;
    OnesNotZeros();
    FullOfDirtySlots(c);
    FullOfDirtyReady(c, k);
    AllDirtyEvicts(c, k);
  }

  lemma OnesNotZeros()
    ensures Ones() != ZeroBlock()
  {
    assert Ones()[0][0] && !ZeroBlock()[0][0];
  }

  // ---------------------------------------------------------------- whole runs

  /**
   What one call did. Failed calls may still have written a victim back; a refused write-through
   has put its bytes in the slot if the block was cached (`kept`).
   */
  datatype Event =
    | Read(k: Key, data: Block)
    | Write(k: Key, data: Block)
    | Free(k: Key)
    | DiskWrite(k: Key, data: Block)
    | DiskWriteRefused(k: Key, data: Block, kept: bool)
    | SyncSlot(i: nat)
    | FailedAfterWriteBack(i: nat)
    | Failed

  /** block_sync on one dirty slot. */
  function SyncDone(c: Cache, i: nat): Cache
    requires i < |c.slots|
  {
    c.(slots := c.slots[i := c.slots[i].Touch().(dirty := false)],
       disk := c.disk[c.slots[i].Id() := c.slots[i].data])
  }

  /** A device without dirty slots is on disk what its callers see. */
  lemma CleanMeansOnDisk(c: Cache, dev: int)
    requires Coherent(c) && forall i | 0 <= i < |c.slots| && c.slots[i].dev == dev :: !c.slots[i].dirty
    ensures forall k: Key | k.dev == dev :: DiskAt(c.disk, k) == Look(View(c), k)
  {
  }

  ghost predicate Step(c: Cache, e: Event, c': Cache, addressed: bool)
  {
    match e
    case Read(k, data) =>
      && k.block != BLOCK_FREE && CanServe(c, k) && (addressed ==> !EvictsDirty(c, k))
      && c' == ReadDone(c, k, addressed) && data == ViewAt(c', k)
    case Write(k, data) =>
      && k.block != BLOCK_FREE && CanServe(c, k) && (addressed ==> !EvictsDirty(c, k))
      && c' == WriteDone(c, k, data, addressed)
    case Free(k) => c' == FreeDone(c, k)
    case DiskWrite(k, data) => c' == DiskWriteDone(c, k, data)
    case DiskWriteRefused(k, data, kept) => kept == Cached(c, k) && c' == DiskWriteFailed(c, k, data)
    case SyncSlot(i) => i < |c.slots| && c.slots[i].dirty && c' == SyncDone(c, i)
    case FailedAfterWriteBack(i) =>
      i < |c.slots| && c.slots[i].dirty && !addressed && c' == c.(disk := WriteBack(c.disk, c.slots[i], 0, false))
    case Failed => c'.slots == c.slots && c'.disk == c.disk
  }

  /** The same call on a plain store with no cache in front of it. */
  ghost function Apply(v: Store, e: Event): Store
  {
    match e
    case Write(k, data) => v[k := data]
    case DiskWrite(k, data) => v[k := data]
    case DiskWriteRefused(k, data, kept) => if kept then v[k := data] else v
    case _ => v
  }

  ghost function Replay(v: Store, es: seq<Event>): Store
  {
    if es == [] then v else Apply(Replay(v, es[..|es| - 1]), es[|es| - 1])
  }

  ghost predicate Trace(cs: seq<Cache>, es: seq<Event>, addressed: bool)
  {
    |cs| == |es| + 1 && forall i | 0 <= i < |es| :: Step(cs[i], es[i], cs[i + 1], addressed)
  }

  /** The refused write, if that is what the call was, did not change a clean slot. */
  predicate Harmless(c: Cache, e: Event)
  {
    e.DiskWriteRefused? ==> !Cached(c, e.k) || c.slots[Find(c.slots, e.k)].dirty || e.data == ViewAt(c, e.k)
  }

  ghost predicate AllHarmless(cs: seq<Cache>, es: seq<Event>)
    requires |cs| == |es| + 1
  {
    forall i | 0 <= i < |es| :: Harmless(cs[i], es[i])
  }

  lemma SyncTransparent(c: Cache, i: nat)
    requires Coherent(c) && i < |c.slots| && c.slots[i].dirty
    ensures Coherent(SyncDone(c, i)) && View(SyncDone(c, i)) == View(c)
  {
    var k := c.slots[i].Id();
    FindUnique(c, i, k);
    ViewKept(c, k);
    Overwrite(c, i, SyncDone(c, i).slots[i], true);
  }

  /** A refused write-through keeps coherence exactly when harmless, and then shows its bytes where they were kept. */
  lemma RefusedTransparent(c: Cache, k: Key, data: Block)
    requires Coherent(c)
    ensures var c' := DiskWriteFailed(c, k, data);
            && (Coherent(c') <==> Harmless(c, DiskWriteRefused(k, data, Cached(c, k))))
            && (Coherent(c') ==> View(c') == if Cached(c, k) then View(c)[k := data] else View(c))
  {
    DiskWriteFailedExact(c, k, data);
    ViewKept(c, k);
    if Cached(c, k) && c.slots[Find(c.slots, k)].dirty {
      var i := Find(c.slots, k);
      Overwrite(c, i, c.slots[i].(data := data), false);
    }
  }

  lemma StepTransparent(c: Cache, e: Event, c': Cache, addressed: bool)
    requires Coherent(c) && Step(c, e, c', addressed)
    ensures Coherent(c') <==> Harmless(c, e)
    ensures Harmless(c, e) ==> View(c') == Apply(View(c), e)
    ensures e.Read? ==> e.data == Look(View(c), e.k)
  {
    hide Coherent, View, Find, ReadDone, WriteDone, FreeDone, DiskWriteDone, DiskWriteFailed, SyncDone, Choose, CanServe, EvictsDirty, ViewAt;
    match e
    case Read(k, data) =>
      ReadTransparent(c, k, addressed);
      ViewKept(c, k);
    case Write(k, data) => WriteTransparent(c, k, data, addressed);
    case Free(k) => FreeTransparent(c, k);
    case DiskWrite(k, data) => DiskWriteTransparent(c, k, data);
    case DiskWriteRefused(k, data, kept) => RefusedTransparent(c, k, data);
    case SyncSlot(i) => SyncTransparent(c, i);
    case FailedAfterWriteBack(i) => WriteBackTransparent(c, i);
    case Failed => SameView(c, c');
  }

  /** Over every run, hits, fills, evictions and harmless faults included, the state is the plain store's. */
  lemma {:induction false} RunTransparent(cs: seq<Cache>, es: seq<Event>, addressed: bool)
    requires Trace(cs, es, addressed) && Coherent(cs[0]) && AllHarmless(cs, es)
    ensures Coherent(cs[|es|]) && View(cs[|es|]) == Replay(View(cs[0]), es)
    decreases |es|
  {
    hide Coherent, View, Step, Harmless;
    if es != [] {
      var n := |es| - 1;
      TracePrefix(cs, es, n, addressed);
      RunTransparent(cs[..n + 1], es[..n], addressed);
      StepTransparent(cs[n], es[n], cs[|es|], addressed);
    }
  }

  lemma TracePrefix(cs: seq<Cache>, es: seq<Event>, n: nat, addressed: bool)
    requires Trace(cs, es, addressed) && n <= |es|
    ensures Trace(cs[..n + 1], es[..n], addressed) && (AllHarmless(cs, es) ==> AllHarmless(cs[..n + 1], es[..n]))
  {
    hide Step, Harmless;
  }

  /** The cache stays coherent throughout a run exactly when every refused write-through in it is harmless. */
  lemma RunCoherentExact(cs: seq<Cache>, es: seq<Event>, addressed: bool)
    requires Trace(cs, es, addressed) && Coherent(cs[0])
    ensures AllHarmless(cs, es) <==> forall n | 0 <= n <= |es| :: Coherent(cs[n])
  {
    hide Coherent, View, Step, Harmless;
    if AllHarmless(cs, es) {
      forall n | 0 <= n <= |es|
        ensures Coherent(cs[n])
      {
        TracePrefix(cs, es, n, addressed);
        RunTransparent(cs[..n + 1], es[..n], addressed);
      }
    } else if forall n | 0 <= n <= |es| :: Coherent(cs[n]) {
      var i :| 0 <= i < |es| && !Harmless(cs[i], es[i]);
      StepTransparent(cs[i], es[i], cs[i + 1], addressed);
    }
  }

  /** Every read of every such run returns what the plain store holds at that point. */
  lemma ReadsSeePlainStore(cs: seq<Cache>, es: seq<Event>, addressed: bool, i: nat)
    requires Trace(cs, es, addressed) && Coherent(cs[0]) && i < |es| && es[i].Read?
    requires AllHarmless(cs[..i + 1], es[..i])
    ensures es[i].data == Look(Replay(View(cs[0]), es[..i]), es[i].k)
  {
    hide Coherent, View, Step, Harmless;
    TracePrefix(cs, es, i, addressed);
    RunTransparent(cs[..i + 1], es[..i], addressed);
    assert Step(cs[i], es[i], cs[i + 1], addressed);
    StepTransparent(cs[i], es[i], cs[i + 1], addressed);
  }
}
