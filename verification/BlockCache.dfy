/**
 fs/dev.c and fs/block.c: a device that may fail at any call and the 128-slot cache in
 front of it, each operation proved against CacheSpec.
 */
module BlockCache {
  import opened Bytes
  import opened CacheSpec

  datatype Status = Ok | Fail | Param

  /**
   fs/dev.c. The user-space build positions the device with dev_scan and then reads or
   writes at that position; the kernel build (`addressed`) ignores dev_scan and passes the
   block number to the drive. A call that fails changes nothing.
   */
  class Device {
    const addressed: bool
    var disk: Disk
    var head: map<int, Word>
    /** How many calls have not succeeded. */
    ghost var refused: nat

    constructor (addressed: bool)
      ensures this.addressed == addressed && disk == map[] && refused == 0
    {
      this.addressed, refused := addressed, 0;
      disk := map[];
      head := map[];
    }

    /** Sector that the next transfer of `dev` touches. */
    ghost function Target(dev: int, block: Word): Word
      reads this
    {
      if addressed then block else if dev in head then head[dev] else 0
    }

    /** A transfer leaves a seek-positioned device one sector further on. */
    function Advanced(dev: int, at: Word): map<int, Word>
      reads this
    {
      if !addressed && at < 0xFFFF_FFFF then head[dev := at + 1] else head
    }

    method Scan(dev: int, block: Word) returns (r: Status)
      modifies this`head, this`refused
      ensures refused == old(refused) + if r == Ok then 0 else 1
      ensures r == Ok ==> forall b: Word :: Target(dev, b) == if addressed then b else block
      ensures r == Ok && !addressed ==> dev >= 0
      ensures head == if r == Ok && !addressed then old(head)[dev := block] else old(head)
    {
      if addressed {
        return Ok;
      }
      if dev < 0 {
        refused := refused + 1;
        return Param;
      }
      var ok: bool := *;
      if !ok {
        refused := refused + 1;
        return Fail;
      }
      head := head[dev := block];
      return Ok;
    }

    method Read(dev: int, block: Word) returns (r: Status, data: Block)
      modifies this`head, this`refused
      ensures refused == old(refused) + if r == Ok then 0 else 1
      ensures r == Ok ==> data == DiskAt(disk, Key(dev, old(Target(dev, block))))
      ensures head == if r == Ok && !addressed && old(Target(dev, block)) < 0xFFFF_FFFF then old(head)[dev := old(Target(dev, block)) + 1] else old(head)
    {
      data := ZeroBlock();
      if !addressed && dev < 0 {
        refused := refused + 1;
        return Param, data;
      }
      var ok: bool := *;
      if !ok {
        refused := refused + 1;
        return Fail, data;
      }
      var at := if addressed then block else if dev in head then head[dev] else 0;
      data := DiskAt(disk, Key(dev, at));
      head := Advanced(dev, at);
      return Ok, data;
    }

    method Write(dev: int, block: Word, data: Block) returns (r: Status)
      modifies this`head, this`disk, this`refused
      ensures refused == old(refused) + if r == Ok then 0 else 1
      ensures disk == if r == Ok then old(disk)[Key(dev, old(Target(dev, block))) := data] else old(disk)
      ensures head == if r == Ok && !addressed && old(Target(dev, block)) < 0xFFFF_FFFF then old(head)[dev := old(Target(dev, block)) + 1] else old(head)
    {
      if !addressed && dev < 0 {
        refused := refused + 1;
        return Param;
      }
      var ok: bool := *;
      if !ok {
        refused := refused + 1;
        return Fail;
      }
      var at := if addressed then block else if dev in head then head[dev] else 0;
      disk := disk[Key(dev, at) := data];
      head := Advanced(dev, at);
      return Ok;
    }
  }

  class BlockCache {
    const device: Device
    const slots: array<Slot>
    var curr: nat
    var highest: Word
    /** How many requests found no slot to use, and how many allocations found no block. */
    ghost var noSlot: nat
    ghost var noSpace: nat

    /** Everything that may make a call fail: calls the device refused, requests without a slot, allocations without a block. */
    ghost function Troubles(): nat
      reads this`noSlot, this`noSpace, device`refused
    {
      device.refused + noSlot + noSpace
    }

    ghost predicate Valid()
      reads this, slots, device
    {
      slots.Length == BLOCK_ARRAY_SIZE && curr <= slots.Length && Coherent(State())
    }

    ghost function State(): Cache
      reads this, slots, device
    {
      Cache(slots[..], highest, device.disk)
    }

    /** The store a caller sees. */
    ghost function Store(): CacheSpec.Store
      reads this, slots, device
    {
      View(State())
    }

    /** block_open on a fresh table. */
    constructor (device: Device)
      ensures this.device == device && fresh(slots) && Valid()
      ensures forall k :: Look(Store(), k) == DiskAt(device.disk, k)
      ensures noSlot == noSpace == 0
    {
      this.device := device;
      noSlot, noSpace := 0, 0;
      slots := new Slot[BLOCK_ARRAY_SIZE](_ => Slot(-1, BLOCK_FREE, 0, false, ZeroBlock()));
      curr := 0;
      highest := 0;
    }

    /** The two-part search from `curr`, then from the start. */
    method Search(k: Key) returns (found: nat)
      requires Valid() && k.block != BLOCK_FREE
      ensures found == Find(slots[..], k)
    {
      var c := if curr >= BLOCK_ARRAY_SIZE then 0 else curr;
      var i := c;
      while i < BLOCK_ARRAY_SIZE
        invariant c <= i <= BLOCK_ARRAY_SIZE
        invariant forall j | c <= j < i :: !slots[j].Holds(k)
      {
        if slots[i].block == k.block && slots[i].dev == k.dev {
          FindUnique(State(), i, k);
          return i;
        }
        i := i + 1;
      }
      i := 0;
      while i < c
        invariant 0 <= i <= c
        invariant forall j | 0 <= j < i :: !slots[j].Holds(k)
      {
        if slots[i].block == k.block && slots[i].dev == k.dev {
          FindUnique(State(), i, k);
          return i;
        }
        i := i + 1;
      }
      return BLOCK_ARRAY_SIZE;
    }

    /** The replacement scan shared by block_read and block_write. */
    method Select() returns (choice: Choice)
      requires Valid()
      modifies this`highest
      ensures State() == Scanned(old(State())) && choice == Choose(slots[..])
    {
      hide Unique, FindFrom;
      ghost var ss := slots[..];
      var n := BLOCK_ARRAY_SIZE;
      var i, clean, dirty := 0, n, n;
      while i < n
        invariant 0 <= i <= n && slots[..] == ss
        invariant FirstFree(ss, 0) == FirstFree(ss, i)
        invariant clean == Lowest(ss, false, i) && dirty == Lowest(ss, true, i)
        invariant highest == ScanHighest(ss, i, old(highest))
      {
        var s := slots[i];
        if s.Free() {
          return FreeSlot(i);
        }
        if !s.dirty && s.lru < (if clean < n then slots[clean].lru else BLOCK_MAX_LRU) {
          clean := i;
        }
        if s.dirty && s.lru < (if dirty < n then slots[dirty].lru else BLOCK_MAX_LRU) {
          dirty := i;
        }
        if s.lru > highest {
          highest := s.lru;
        }
        i := i + 1;
      }
      if clean < n {
        return CleanSlot(clean);
      }
      if dirty < n {
        return DirtySlot(dirty);
      }
      return NoSlot;
    }

    /** Assigns slot i to k, giving it the next use count. */
    method Assign(i: nat, k: Key, data: Block, dirty: bool)
      requires i < slots.Length
      modifies this`highest, this`curr, slots
      ensures State() == Install(old(State()), i, k, data, dirty)
      ensures curr == i
    {
      var lru := slots[i].lru;
      if lru < BLOCK_MAX_LRU {
        highest := (highest + 1) % 0x1_0000_0000;
        lru := highest;
      }
      slots[i] := Slot(k.dev, k.block, lru, dirty, data);
      curr := i;
    }

    /** dev_scan to the victim's sector, then dev_write with the incoming block number. */
    method EvictVictim(i: nat, incoming: Word) returns (r: Status)
      requires i < slots.Length && slots[i].dirty
      modifies device
      ensures device.disk == if r == Ok then WriteBack(old(device.disk), slots[i], incoming, device.addressed)
                             else old(device.disk)
      ensures if r == Ok then device.refused == old(device.refused) else device.refused > old(device.refused)
    {
      r := device.Scan(slots[i].dev, slots[i].block);
      if r != Ok {
        return Fail;
      }
      r := device.Write(slots[i].dev, incoming, slots[i].data);
      if r != Ok {
        return Fail;
      }
    }

    /** The only effect a failed call can have: counters, and possibly a victim written back. */
    ghost predicate FailedFrom(c: Cache, k: Key)
      reads this, slots, device
    {
      slots[..] == c.slots && (device.disk == c.disk || device.disk == Evicted(c, k, device.addressed))
    }

    /** Seek-positioned devices are always safe; block-addressed ones while no dirty slot must go. */
    ghost predicate Safe(k: Key)
      reads this, slots, device
    {
      device.addressed ==> !EvictsDirty(State(), k)
    }

    lemma FailedIsInvisible(c: Cache, k: Key)
      requires slots.Length == BLOCK_ARRAY_SIZE && Coherent(c) && FailedFrom(c, k) && !Cached(c, k)
      requires device.addressed ==> !EvictsDirty(c, k)
      ensures Coherent(State()) && Store() == View(c)
    {
      SameView(c.(disk := device.disk), State());
      if EvictsDirty(c, k) {
        WriteBackTransparent(c, Choose(c.slots).i);
      }
      if device.disk == c.disk {
        SameView(c, State());
      }
    }

    /** How a request ends: it fails only if the device has refused a call or there was no slot to use, which is counted exactly then. */
    ghost predicate Served(c: Cache, k: Key, ok: bool, noSlot0: nat, noSpace0: nat, refused0: nat)
      reads this`noSlot, this`noSpace, device`refused
    {
      && noSlot == noSlot0 + (if CanServe(c, k) then 0 else 1) && noSpace == noSpace0 && device.refused >= refused0
      && (ok || noSlot > noSlot0 || device.refused > refused0)
    }

    /** A miss of block_read: choose a slot, evict if needed, read the sector into it. */
    method ReadMiss(k: Key) returns (r: Status, data: Block)
      requires Valid() && !Cached(State(), k)
      modifies this, slots, device
      ensures curr <= slots.Length
      ensures r == Ok ==> old(CanServe(State(), k)) && State() == old(ReadDone(State(), k, device.addressed))
      ensures r == Ok ==> data == DiskAt(device.disk, k)
      ensures r != Ok ==> r == Fail && FailedFrom(old(State()), k)
      ensures Served(old(State()), k, r == Ok, old(noSlot), old(noSpace), old(device.refused))
    {
      hide Coherent, FindFrom, Lowest, FirstFree, ScanHighest, ZeroBlock;
      ChoiceIsPolicy(slots[..]);
      data := ZeroBlock();
      var choice := Select();
      if choice.NoSlot? {
        noSlot := noSlot + 1;
        return Fail, data;
      }
      if choice.DirtySlot? {
        r := EvictVictim(choice.i, k.block);
        if r != Ok {
          return Fail, data;
        }
      }
      r := device.Scan(k.dev, k.block);
      if r == Ok {
        r, data := device.Read(k.dev, k.block);
      }
      if r != Ok {
        return Fail, data;
      }
      Assign(choice.i, k, data, false);
    }

    /** block_read of a device number that passes its check: the state and the bytes, on either kind of device. */
    method ReadSlot(k: Key) returns (r: Status, data: Block)
      requires Valid() && k.block != BLOCK_FREE
      modifies this, slots, device
      ensures curr <= slots.Length && (old(Cached(State(), k)) ==> r == Ok)
      ensures Served(old(State()), k, r == Ok, old(noSlot), old(noSpace), old(device.refused))
      ensures r == Ok ==> old(CanServe(State(), k)) && State() == old(ReadDone(State(), k, device.addressed))
      ensures r == Ok ==> data == if old(Cached(State(), k)) then old(ViewAt(State(), k)) else DiskAt(device.disk, k)
      ensures r != Ok ==> FailedFrom(old(State()), k)
    {
      hide Coherent, FindFrom, Choose, Install, Evicted, Scanned, FailedFrom;
      if curr >= BLOCK_ARRAY_SIZE {
        curr := 0;
      }
      var found := Search(k);
      if found < BLOCK_ARRAY_SIZE {
        r, data := Ok, slots[found].data;
        slots[found] := slots[found].Touch();
        curr := found;
      } else {
        r, data := ReadMiss(k);
      }
    }

    /** block_read. */
    method Read(dev: int, block: Word) returns (r: Status, data: Block)
      requires Valid() && block != BLOCK_FREE
      modifies this, slots, device
      ensures dev < 0 ==> r == Param && State() == old(State())
      ensures dev >= 0 && old(Cached(State(), Key(dev, block))) ==> r == Ok
      ensures dev >= 0 ==> Served(old(State()), Key(dev, block), r == Ok, old(noSlot), old(noSpace), old(device.refused))
      ensures Troubles() >= old(Troubles()) && (dev >= 0 && r != Ok ==> Troubles() > old(Troubles()))
      ensures r == Ok ==> old(CanServe(State(), Key(dev, block)))
      ensures r == Ok ==> State() == old(ReadDone(State(), Key(dev, block), device.addressed))
      ensures r != Ok ==> FailedFrom(old(State()), Key(dev, block))
      ensures old(Safe(Key(dev, block))) ==> Valid() && Store() == old(Store())
      ensures old(Safe(Key(dev, block))) && r == Ok ==> data == Look(old(Store()), Key(dev, block))
    {
      hide Coherent, View, Find, Choose, ReadDone, Evicted, CanServe, ViewAt;
      ghost var c := State();
      var k := Key(dev, block);
      if dev < 0 {
        return Param, ZeroBlock();
      }
      r, data := ReadSlot(k);
      if device.addressed ==> !EvictsDirty(c, k) {
        if r == Ok {
          ReadTransparent(c, k, device.addressed);
          ViewKept(c, k);
          if !Cached(c, k) {
            FillsFromView(c, k, device.addressed);
          }
        } else {
          FailedIsInvisible(c, k);
        }
      }
    }

    /** A miss of block_write. */
    method WriteMiss(k: Key, data: Block) returns (r: Status)
      requires Valid() && !Cached(State(), k)
      modifies this, slots, device
      ensures curr <= slots.Length
      ensures old(CanServe(State(), k)) && !old(EvictsDirty(State(), k)) ==> r == Ok
      ensures r == Ok ==> old(CanServe(State(), k)) && State() == old(WriteDone(State(), k, data, device.addressed))
      ensures r != Ok ==> r == Fail && FailedFrom(old(State()), k)
      ensures Served(old(State()), k, r == Ok, old(noSlot), old(noSpace), old(device.refused))
    {
      var choice := Select();
      if choice.NoSlot? {
        noSlot := noSlot + 1;
        return Fail;
      }
      if choice.DirtySlot? {
        r := EvictVictim(choice.i, k.block);
        if r != Ok {
          return Fail;
        }
      }
      Assign(choice.i, k, data, true);
      return Ok;
    }

    /** block_write. */
    method Write(dev: int, block: Word, data: Block) returns (r: Status)
      requires Valid() && block != BLOCK_FREE
      modifies this, slots, device
      ensures old(CanServe(State(), Key(dev, block))) && !old(EvictsDirty(State(), Key(dev, block))) ==> r == Ok
      ensures Served(old(State()), Key(dev, block), r == Ok, old(noSlot), old(noSpace), old(device.refused))
      ensures Troubles() >= old(Troubles()) && (r != Ok ==> Troubles() > old(Troubles()))
      ensures r == Ok ==> old(CanServe(State(), Key(dev, block)))
      ensures r == Ok ==> State() == old(WriteDone(State(), Key(dev, block), data, device.addressed))
      ensures r != Ok ==> FailedFrom(old(State()), Key(dev, block))
      ensures old(Safe(Key(dev, block))) ==> Valid()
      ensures old(Safe(Key(dev, block))) ==>
                Store() == if r == Ok then old(Store())[Key(dev, block) := data] else old(Store())
    {
      ghost var c := State();
      var k := Key(dev, block);
      if curr >= BLOCK_ARRAY_SIZE {
        curr := 0;
      }
      var found := Search(k);
      if found < BLOCK_ARRAY_SIZE {
        curr := found;
        slots[found] := slots[found].Touch().(dirty := true, data := data);
        r := Ok;
      } else {
        r := WriteMiss(k, data);
      }
      if device.addressed ==> !EvictsDirty(c, k) {
        if r == Ok {
          WriteTransparent(c, k, data, device.addressed);
        } else {
          FailedIsInvisible(c, k);
        }
      }
    }

    /** block_free. */
    method Free(dev: int, block: Word) returns (r: Status)
      requires Valid() && block != BLOCK_FREE
      modifies this, slots, device
      ensures Valid() && Store() == old(Store())
      ensures dev < 0 <==> r == Param
      ensures noSlot == old(noSlot) && noSpace == old(noSpace)
      ensures if r == Fail then device.refused > old(device.refused) else device.refused == old(device.refused)
      ensures r == Fail ==> exists i | 0 <= i < slots.Length :: slots[i].Holds(Key(dev, block)) && slots[i].dirty
      ensures r == Ok ==> State() == old(FreeDone(State(), Key(dev, block))) && !Cached(State(), Key(dev, block))
      ensures r != Ok ==> State() == old(State())
    {
      ghost var c := State();
      var k := Key(dev, block);
      if dev < 0 {
        return Param;
      }
      var i := 0;
      while i < BLOCK_ARRAY_SIZE
        invariant 0 <= i <= BLOCK_ARRAY_SIZE && State() == c && device.refused == old(device.refused)
        invariant forall j | 0 <= j < i :: !slots[j].Holds(k)
      {
        if slots[i].block == block && slots[i].dev == dev {
          FindUnique(c, i, k);
          if slots[i].dirty {
            r := device.Scan(dev, block);
            if r != Ok {
              return Fail;
            }
            r := device.Write(dev, block, slots[i].data);
            if r != Ok {
              return Fail;
            }
          }
          slots[i] := Slot(-1, BLOCK_FREE, 0, false, slots[i].data);
          curr := i;
          FreeTransparent(c, k);
          return Ok;
        }
        i := i + 1;
      }
      return Ok;
    }

    /** block_disk_write: straight to the device, refreshing a cached copy first. */
    method DiskWrite(dev: int, block: Word, data: Block) returns (r: Status)
      requires Valid() && block != BLOCK_FREE
      modifies this, slots, device
      ensures curr < slots.Length && highest == old(highest) && noSlot == old(noSlot) && noSpace == old(noSpace)
      ensures if r == Ok then device.refused == old(device.refused) else device.refused > old(device.refused)
      ensures r == Ok ==> State() == old(DiskWriteDone(State(), Key(dev, block), data))
      ensures r == Ok ==> Valid() && Store() == old(Store())[Key(dev, block) := data]
      ensures r != Ok ==> r == Fail && State() == old(DiskWriteFailed(State(), Key(dev, block), data))
    {
      var k := Key(dev, block);
      if curr >= BLOCK_ARRAY_SIZE {
        curr := 0;
      }
      var found := Search(k);
      DiskWriteTransparent(State(), k, data);
      var image := data;
      if found < BLOCK_ARRAY_SIZE {
        if slots[found].data != data {
          slots[found] := slots[found].(data := data);
        }
        image := slots[found].data;
      }
      r := device.Scan(dev, block);
      if r != Ok {
        return Fail;
      }
      r := device.Write(dev, block, image);
      if r != Ok {
        return Fail;
      }
    }

    /** block_disk_write_sync_cache: as above, and a missing block is brought into the cache. */
    method DiskWriteSyncCache(dev: int, block: Word, data: Block) returns (r: Status, back: Block)
      requires Valid() && block != BLOCK_FREE
      modifies this, slots, device
      ensures r == Ok ==> Written(old(State()), Key(dev, block), data)
      ensures r != Ok ==> State() == old(DiskWriteFailed(State(), Key(dev, block), data))
                          || FailedFrom(old(DiskWriteDone(State(), Key(dev, block), data)), Key(dev, block))
      ensures r == Ok && old(Safe(Key(dev, block))) ==> Valid() && Store() == old(Store())[Key(dev, block) := data]
      ensures r == Ok && old(Safe(Key(dev, block))) ==> back == data && Cached(State(), Key(dev, block))
      ensures Troubles() >= old(Troubles()) && (dev >= 0 && r != Ok ==> Troubles() > old(Troubles()))
    {
      ghost var c := State();
      var k := Key(dev, block);
      var found := Search(k);
      r := DiskWrite(dev, block, data);
      back := data;
      if r == Ok && found == BLOCK_ARRAY_SIZE {
        ghost var mid := State();
        r, back := Read(dev, block);
        if r == Ok && (device.addressed ==> !EvictsDirty(c, k)) {
          ReadTransparent(mid, k, device.addressed);
        }
      } else if r == Ok {
        assert slots[found].Holds(k);
      }
    }

    /** The state after it succeeds on c: written through and, if it was not cached, read back. */
    ghost predicate Written(c: Cache, k: Key, data: Block)
      reads this, slots, device
    {
      var mid := DiskWriteDone(c, k, data);
      if Cached(c, k) then State() == mid else CanServe(mid, k) && State() == ReadDone(mid, k, device.addressed)
    }

    /** block_sync: every dirty slot of one device goes to disk. */
    method Sync(dev: int) returns (r: Status)
      requires Valid()
      modifies this, slots, device
      ensures Valid() && Store() == old(Store())
      ensures r == Ok <==> forall i | 0 <= i < slots.Length && slots[i].dev == dev :: !slots[i].dirty
      ensures r == Ok ==> forall k: Key | k.dev == dev :: DiskAt(device.disk, k) == Look(Store(), k)
      ensures forall k: Key | k.dev != dev :: DiskAt(device.disk, k) == old(DiskAt(device.disk, k))
      ensures forall i | 0 <= i < slots.Length && slots[i].dev != dev :: slots[i] == old(slots[i])
      ensures noSlot == old(noSlot) && noSpace == old(noSpace)
      ensures if r == Ok then device.refused == old(device.refused) else device.refused > old(device.refused)
    {
      hide Coherent, View;
      r := Ok;
      var i := 0;
      while i < BLOCK_ARRAY_SIZE
        invariant 0 <= i <= BLOCK_ARRAY_SIZE && Valid() && Store() == old(Store()) && noSlot == old(noSlot) && noSpace == old(noSpace)
        invariant if r == Ok then device.refused == old(device.refused) else device.refused > old(device.refused)
        invariant r == Ok <==> forall j | 0 <= j < i && slots[j].dev == dev :: !slots[j].dirty
        invariant forall k: Key | k.dev != dev :: DiskAt(device.disk, k) == old(DiskAt(device.disk, k))
        invariant forall j | 0 <= j < slots.Length :: slots[j].dev == old(slots[j].dev)
        invariant forall j | 0 <= j < slots.Length && slots[j].dev != dev :: slots[j] == old(slots[j])
      {
        if slots[i].dirty && slots[i].dev == dev {
          var ok := SyncSlot(i);
          if !ok {
            r := Fail;
          }
        }
        i := i + 1;
      }
      if r == Ok {
        CleanMeansOnDisk(State(), dev);
      }
    }

    method SyncSlot(i: nat) returns (ok: bool)
      requires Valid() && i < slots.Length && slots[i].dirty
      modifies this, slots, device
      ensures Valid() && Store() == old(Store())
      ensures State() == if ok then old(SyncDone(State(), i)) else old(State())
      ensures noSlot == old(noSlot) && noSpace == old(noSpace)
      ensures if ok then device.refused == old(device.refused) else device.refused > old(device.refused)
      ensures slots[i].dirty == !ok && forall j | 0 <= j < slots.Length && j != i :: slots[j] == old(slots[j])
    {
      ghost var c := State();
      FindUnique(c, i, slots[i].Id());
      SyncTransparent(c, i);
      DiskWriteFailedExact(c, slots[i].Id(), slots[i].data);
      var r := DiskWrite(slots[i].dev, slots[i].block, slots[i].data);
      ok := r != Fail;
      if ok {
        slots[i] := slots[i].Touch().(dirty := false);
      }
    }
  }
}
