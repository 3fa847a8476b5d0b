/** A mounted volume: the inode and the data allocator of fs/inode.c working on one cache. */
module Volume {
  import opened Bytes
  import opened CacheSpec
  import opened BlockCache
  import opened BlockAllocator
  import S = BitmapSpec
  import L = Layout

  class Volume {
    const master: L.Master
    const inodes: Allocator
    const data: Allocator

    /** Both allocators work in the regions of the master record, on a volume large enough for them. */
    ghost predicate LaidOut()
    {
      && inodes != data && inodes.cache == data.cache && inodes.dev == data.dev
      && inodes.blockStart == data.blockStart == master.blockStart
      && inodes.mapStart == master.inodeMapStart && inodes.mapEnd == master.inodeMapEnd && inodes.first == master.inodeStart
      && data.mapStart == master.blockMapStart && data.mapEnd == master.blockMapEnd && data.first == master.dataStart
      && exists size: Word :: Formatted(size)
    }

    ghost predicate Formatted(size: Word)
    {
      && size % DEV_BLOCK_SIZE == 0 && size / DEV_BLOCK_SIZE >= 2560 && master.blockStart <= 0xFE00_0000
      && L.CreateFs(master.blockStart, size) == L.Ok(master)
    }

    ghost predicate Valid()
      reads this, inodes, data, inodes.cache, inodes.cache.slots, inodes.cache.device
      reads data.cache, data.cache.slots, data.cache.device
    {
      LaidOut() && inodes.Valid() && data.Valid()
    }

    /** What callers see on the volume's device. */
    ghost function V(): Store
      reads data.cache, data.cache.slots, data.cache.device
    {
      data.cache.Store()
    }

    ghost function Sector(b: Word): Block
      reads data.cache, data.cache.slots, data.cache.device
    {
      Look(V(), Key(data.dev, b))
    }

    /** Handed out by one of the allocators and not freed. */
    ghost predicate InUse(b: Word)
      reads inodes, data
    {
      inodes.IsLive(b) || data.IsLive(b)
    }

    /** Mounting: the layout gives both allocators the geometry they need. */
    constructor (master: L.Master, inodes: Allocator, data: Allocator, ghost size: Word)
      requires size % DEV_BLOCK_SIZE == 0 && size / DEV_BLOCK_SIZE >= 2560 && master.blockStart <= 0xFE00_0000
      requires L.CreateFs(master.blockStart, size) == L.Ok(master)
      requires inodes != data && inodes.cache == data.cache && inodes.dev == data.dev
      requires inodes.blockStart == data.blockStart == master.blockStart
      requires inodes.mapStart == master.inodeMapStart && inodes.mapEnd == master.inodeMapEnd && inodes.first == master.inodeStart
      requires data.mapStart == master.blockMapStart && data.mapEnd == master.blockMapEnd && data.first == master.dataStart
      requires inodes.Valid() && data.Valid()
      ensures Valid() && this.inodes == inodes && this.data == data && this.master == master
    {
      this.master, this.inodes, this.data := master, inodes, data;
      new;
      assert Formatted(size);
    }

    /** Neither allocator writes a sector of the other's map. */
    lemma MapsApart()
      requires LaidOut()
      ensures inodes.mapStart < inodes.mapEnd <= data.mapStart < data.mapEnd <= inodes.first <= data.first
      ensures inodes.blockStart < inodes.mapStart
    {
      var size: Word :| Formatted(size);
      L.Regions(master.blockStart, size);
    }

    /** A block is live in at most one of the two, and is never the master record or a map. */
    lemma LiveApart(b: Word)
      requires Valid()
      ensures !(inodes.IsLive(b) && data.IsLive(b))
      ensures InUse(b) ==> 0 < b < BLOCK_FREE && !inodes.Owns(Key(data.dev, b)) && !data.Owns(Key(data.dev, b))
    {
      MapsApart();
      var size: Word :| Formatted(size);
      L.InsideVolume(master.blockStart, size);
      L.Regions(master.blockStart, size);
      if inodes.IsLive(b) {
        inodes.LiveRange(b);
        InsideOf(inodes, b);
      }
      if data.IsLive(b) {
        data.LiveRange(b);
        InsideOf(data, b);
      }
    }

    /** Inode blocks come before the data region. */
    lemma InodesBelow(b: Word)
      requires Valid() && inodes.IsLive(b)
      ensures b < data.first
    {
      hide Coherent, View, S.Sound;
      MapsApart();
      var size: Word :| Formatted(size);
      L.InsideVolume(master.blockStart, size);
      L.Regions(master.blockStart, size);
      inodes.LiveRange(b);
      InsideOf(inodes, b);
    }

    /** The same of all blocks at once. */
    lemma KindsDiffer()
      requires Valid()
      ensures forall b: Word :: !(inodes.IsLive(b) && data.IsLive(b))
      ensures forall b: Word | InUse(b) :: 0 < b < BLOCK_FREE
    {
      hide Coherent, View, S.Sound, Formatted;
      forall b: Word
        ensures !(inodes.IsLive(b) && data.IsLive(b)) && (InUse(b) ==> 0 < b < BLOCK_FREE)
      {
        LiveApart(b);
      }
    }

    /** A number the allocator a can hand out, as a position of its map. */
    lemma InsideOf(a: Allocator, b: Word)
      requires a.mapStart <= a.mapEnd && a.first <= b < a.first + S.MAP_BITS * (a.mapEnd - a.mapStart)
      ensures L.InMap(L.PositionOf(a.first, b), a.mapEnd - a.mapStart) && L.BlockOf(a.first, L.PositionOf(a.first, b)) == b
    {
    }

    /** From state s the allocator has taken the block its scan chooses. */
    ghost predicate Takes(a: Allocator, s: S.Bitmap, b: Word)
      reads a, a.cache, a.cache.slots, a.cache.device
    {
      a.Mounted() && s.WellFormed() && S.Choose(s).Found? && a.State() == S.GetDone(s) && b == a.first + S.GetPosition(s)
    }

    /** From state s the allocator has cleared the bit of block b in its window. */
    ghost predicate Returns(a: Allocator, s: S.Bitmap, b: Word)
      reads a, a.cache, a.cache.slots, a.cache.device
    {
      && a.Mounted() && s.WellFormed() && a.first <= b < a.first + S.MAP_BITS * |s.maps|
      && a.State() == S.FreeDone(s, b - a.first)
    }

    /** inode_get_data_block on the volume: the inode side is untouched. */
    method GetData() returns (r: Outcome)
      requires Valid()
      modifies data, data.cache, data.cache.slots, data.cache.device
      ensures inodes.Valid() && inodes.State() == old(inodes.State()) && inodes.live == old(inodes.live)
      ensures Valid() <==> !r.ReadError? || data.Harmless()
      ensures r.NoSpace? ==> S.Choose(old(data.State())).Full?
      ensures data.cache.Troubles() >= old(data.cache.Troubles()) && (!r.Got? ==> data.cache.Troubles() > old(data.cache.Troubles()))
      ensures r.Got? ==> Takes(data, old(data.State()), r.block)
      ensures r.Got? ==> data.IsLive(r.block) && 0 < r.block < BLOCK_FREE && !old(InUse(r.block))
      ensures old(data.live) <= data.live
      ensures forall b :: InUse(b) <==> old(InUse(b)) || (r.Got? && b == r.block)
      ensures forall b | old(InUse(b)) :: Sector(b) == old(Sector(b))
    {
      hide Coherent, View, Look, MapsIn, S.Sound, S.Choose, S.GetUnread, Formatted;
      forall b | InUse(b)
        ensures !inodes.Owns(Key(data.dev, b)) && !data.Owns(Key(data.dev, b))
      {
        LiveApart(b);
      }
      MapsApart();
      r := data.Get();
      MapsKept(old(V()), V(), inodes.dev, inodes.mapStart, inodes.mapEnd - inodes.mapStart);
      assert inodes.State() == old(inodes.State());
      if r.Got? {
        LiveApart(r.block);
      }
    }

    /** inode_get_inode_block on the volume. */
    method GetInode() returns (r: Outcome)
      requires Valid()
      modifies inodes, inodes.cache, inodes.cache.slots, inodes.cache.device
      ensures data.Valid() && data.State() == old(data.State()) && data.live == old(data.live)
      ensures Valid() <==> !r.ReadError? || inodes.Harmless()
      ensures r.NoSpace? ==> S.Choose(old(inodes.State())).Full?
      ensures data.cache.Troubles() >= old(data.cache.Troubles()) && (!r.Got? ==> data.cache.Troubles() > old(data.cache.Troubles()))
      ensures r.Got? ==> Takes(inodes, old(inodes.State()), r.block)
      ensures r.Got? ==> inodes.IsLive(r.block) && 0 < r.block < BLOCK_FREE && !old(InUse(r.block))
      ensures old(inodes.live) <= inodes.live
      ensures forall b :: InUse(b) <==> old(InUse(b)) || (r.Got? && b == r.block)
      ensures forall b | old(InUse(b)) :: Sector(b) == old(Sector(b))
    {
      hide Coherent, View, Look, MapsIn, S.Sound, S.Choose, S.GetUnread, Formatted;
      forall b | InUse(b)
        ensures !inodes.Owns(Key(data.dev, b)) && !data.Owns(Key(data.dev, b))
      {
        LiveApart(b);
      }
      MapsApart();
      r := inodes.Get();
      MapsKept(old(V()), V(), data.dev, data.mapStart, data.mapEnd - data.mapStart);
      assert data.State() == old(data.State());
      if r.Got? {
        LiveApart(r.block);
      }
    }

    /** inode_free_data_block on the volume. */
    method FreeData(block: Word) returns (ok: bool)
      requires Valid() && data.first <= block < data.first + S.MAP_BITS * (data.mapEnd - data.mapStart)
      modifies data, data.cache, data.cache.slots, data.cache.device
      ensures inodes.Valid() && inodes.State() == old(inodes.State()) && inodes.live == old(inodes.live)
      ensures ok ==> data.live == old(data.live) - {block - data.first} && Returns(data, old(data.State()), block)
      ensures !ok ==> data.live == old(data.live)
      ensures Valid() <==> ok || data.Harmless()
      ensures V() == old(V())
      ensures data.cache.Troubles() >= old(data.cache.Troubles()) && (!ok ==> data.cache.Troubles() > old(data.cache.Troubles()))
    {
      hide Coherent, View, S.Sound;
      ok := data.Free(block);
      assert inodes.State() == old(inodes.State());
    }

    /** inode_free_inode_block on the volume. */
    method FreeInode(block: Word) returns (ok: bool)
      requires Valid() && inodes.first <= block < inodes.first + S.MAP_BITS * (inodes.mapEnd - inodes.mapStart)
      modifies inodes, inodes.cache, inodes.cache.slots, inodes.cache.device
      ensures data.Valid() && data.State() == old(data.State()) && data.live == old(data.live)
      ensures ok ==> inodes.live == old(inodes.live) - {block - inodes.first} && Returns(inodes, old(inodes.State()), block)
      ensures !ok ==> inodes.live == old(inodes.live)
      ensures Valid() <==> ok || inodes.Harmless()
      ensures V() == old(V())
      ensures data.cache.Troubles() >= old(data.cache.Troubles()) && (!ok ==> data.cache.Troubles() > old(data.cache.Troubles()))
    {
      hide Coherent, View, S.Sound;
      ok := inodes.Free(block);
      assert data.State() == old(data.State());
    }

    // ------------------------------------------------------------ block_read and block_write of blocks in use

    method ReadBlock(b: Word) returns (ok: bool, sector: Block)
      requires Valid() && b != BLOCK_FREE
      modifies data.cache, data.cache.slots, data.cache.device
      ensures Valid() && V() == old(V())
      ensures ok ==> sector == Sector(b)
      ensures data.cache.Troubles() >= old(data.cache.Troubles()) && (!ok ==> data.cache.Troubles() > old(data.cache.Troubles()))
    {
      hide Coherent, View, S.Sound;
      ok, sector := data.ReadBlock(b);
      assert inodes.State() == old(inodes.State());
    }

    method WriteBlock(b: Word, sector: Block) returns (ok: bool)
      requires Valid() && InUse(b)
      modifies data.cache, data.cache.slots, data.cache.device
      ensures Valid()
      ensures V() == if ok then old(V())[Key(data.dev, b) := sector] else old(V())
      ensures data.cache.Troubles() >= old(data.cache.Troubles()) && (!ok ==> data.cache.Troubles() > old(data.cache.Troubles()))
    {
      hide Coherent, View, Look, MapsIn, S.Sound, Formatted;
      LiveApart(b);
      MapsApart();
      ghost var a := inodes.State();
      MapsKeptByWrite(V(), inodes.dev, inodes.mapStart, inodes.mapEnd - inodes.mapStart, b, sector);
      ok := data.WriteBlock(b, sector);
      assert inodes.Mounted() && inodes.State() == a;
    }
  }
}
