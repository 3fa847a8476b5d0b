/**
 One directory of fs/inode.c on a mounted volume: the lookup scan of inode_get and the end of
 inode_create, which finds or makes room for an entry and writes its inode.
 */
module Directory {
  import opened Bytes
  import opened CacheSpec
  import opened BlockCache
  import opened BlockAllocator
  import opened InodeSpec
  import opened DirSpec
  import opened Volume

  /**
   Untouched: a call failed before the directory changed. Dangling: the chain has been linked to a
   block that was then not written as a map. Misnamed: the entry is listed but its inode sector could
   not be written and still holds what it held before.
   */
  datatype Outcome = Created(inode: Word) | Exists | Untouched | Dangling(block: Word) | Misnamed(inode: Word)

  /** A state to compare with: the store, what the two allocators have out, and the directory's maps. */
  datatype Snapshot = Snapshot(v: Store, inodes: set<nat>, data: set<nat>, chain: seq<Word>)

  class Directory {
    const vol: Volume
    /** The directory's own inode. */
    const self: Word
    ghost var chain: seq<Word>

    constructor (vol: Volume, self: Word)
      requires vol.Valid() && vol.inodes.IsLive(self) && NextOf(vol.Sector(self)) == 0
      ensures Valid() && this.vol == vol && this.self == self && chain == []
    {
      hide Coherent, View, Look, Volume.Valid;
      this.vol, this.self, chain := vol, self, [];
    }

    ghost function V(): Store
      reads vol.data.cache, vol.data.cache.slots, vol.data.cache.device
    {
      vol.V()
    }

    ghost function Troubles(): nat
      reads vol.data.cache, vol.data.cache.device
    {
      vol.data.cache.Troubles()
    }

    /** A call that has failed has met trouble: a refused device call, no slot, or no block. */
    ghost predicate Grew(troubles: nat, ok: bool)
      reads vol.data.cache, vol.data.cache.device
    {
      Troubles() >= troubles && (!ok ==> Troubles() > troubles)
    }

    ghost function Slots(): seq<Word>
      reads this, vol.data.cache, vol.data.cache.slots, vol.data.cache.device
    {
      SlotsAt(V(), vol.data.dev, chain)
    }

    /** Maps are data blocks in use; the directory and its entries are inode blocks in use. */
    ghost predicate OwnedIn(inodes: set<nat>, data: set<nat>, chain: seq<Word>, slots: seq<Word>)
    {
      && self >= vol.inodes.first && self - vol.inodes.first in inodes
      && (forall c | c in chain :: c >= vol.data.first && c - vol.data.first in data)
      && forall b | b in slots && b != 0 :: b >= vol.inodes.first && b - vol.inodes.first in inodes
    }

    ghost predicate Owned(chain: seq<Word>, slots: seq<Word>)
      reads vol.inodes, vol.data
    {
      OwnedIn(vol.inodes.live, vol.data.live, chain, slots)
    }

    lemma OwnedGrows(inodes: set<nat>, data: set<nat>, inodes': set<nat>, data': set<nat>, chain: seq<Word>, slots: seq<Word>)
      requires OwnedIn(inodes, data, chain, slots) && inodes <= inodes' && data <= data'
      ensures OwnedIn(inodes', data', chain, slots)
    {
    }

    ghost predicate Sound()
      reads this, vol.inodes, vol.data, vol.data.cache, vol.data.cache.slots, vol.data.cache.device
    {
      DirOk(V(), vol.data.dev, self, chain) && Owned(chain, Slots())
    }

    ghost predicate Valid()
      reads this, vol, vol.inodes, vol.data, vol.inodes.cache, vol.inodes.cache.slots, vol.inodes.cache.device
      reads vol.data.cache, vol.data.cache.slots, vol.data.cache.device
    {
      vol.Valid() && Sound()
    }

    ghost function Entry(name: Name): Word
      reads this, vol.data.cache, vol.data.cache.slots, vol.data.cache.device
    {
      EntryAt(V(), vol.data.dev, chain, name)
    }

    // ------------------------------------------------------------ lookup

    /** block_read: nothing a caller could see changes. */
    method Read(b: Word) returns (ok: bool, sector: Block)
      requires Valid() && vol.InUse(b)
      modifies vol.data.cache, vol.data.cache.slots, vol.data.cache.device
      ensures Valid() && V() == old(V())
      ensures ok ==> sector == vol.Sector(b)
      ensures Grew(old(Troubles()), ok)
    {
      hide Coherent, View, Look, DirOk, SlotsAt, Volume.Formatted;
      vol.KindsDiffer();
      ok, sector := vol.ReadBlock(b);
    }

    /** The inner loop over one map: each entry's inode is read and its name compared. */
    method FindIn(blocks: seq<Word>, name: Name) returns (ok: bool, found: Word)
      requires Valid() && |blocks| == BMAP_BLOCKS && forall b | b in blocks && b != 0 :: vol.InUse(b)
      modifies vol.data.cache, vol.data.cache.slots, vol.data.cache.device
      ensures Valid() && V() == old(V())
      ensures ok && found != 0 ==> found in blocks && NameOf(vol.Sector(found)) == name
      ensures ok && found == 0 ==> forall b | b in blocks && b != 0 :: NameOf(vol.Sector(b)) != name
      ensures Grew(old(Troubles()), ok)
    {
      hide NameOf, Look, View, Sound, Volume.Valid;
      ok, found := true, 0;
      ghost var v := V();
      var j := 0;
      while j < BMAP_BLOCKS
        invariant 0 <= j <= BMAP_BLOCKS && Valid() && V() == v && Grew(old(Troubles()), true)
        invariant forall b | b in blocks[..j] && b != 0 :: NameOf(Look(v, Key(vol.data.dev, b))) != name
      {
        assert blocks[j] in blocks && blocks[..j + 1] == blocks[..j] + [blocks[j]];
        if blocks[j] != 0 {
          var sector;
          ok, sector := Read(blocks[j]);
          if !ok {
            return;
          }
          if NameOf(sector) == name {
            return true, blocks[j];
          }
        }
        j := j + 1;
      }
      assert blocks[..BMAP_BLOCKS] == blocks;
    }

    /** What the chain says about map number k. */
    lemma MapFacts(k: nat)
      requires Valid() && k < |chain|
      ensures vol.InUse(chain[k]) && var m := DecodeMap(vol.Sector(chain[k]));
              && m.next == Following(chain, k + 1) && Slots()[BMAP_BLOCKS * k..BMAP_BLOCKS * (k + 1)] == m.blocks
              && forall b | b in m.blocks && b != 0 :: b in Slots() && vol.InUse(b)
    {
      hide Coherent, View, Look, SlotsOf, NamesUnique, DecodeMap, Volume.Valid;
      ghost var names := NamesAt(V(), vol.data.dev, Slots());
      Listed(MapsAt(V(), vol.data.dev, chain), chain, names, k);
      assert chain[k] in chain;
      Part127(Slots(), k, DecodeMap(vol.Sector(chain[k])).blocks);
    }

    /** What the inode says about the chain. */
    lemma StartFacts()
      requires Valid()
      ensures vol.InUse(self) && NextOf(vol.Sector(self)) == Following(chain, 0)
      ensures forall k | 0 <= k < |chain| :: chain[k] != 0
    {
      hide Coherent, View, Look, SlotsOf, NamesUnique, NextOf, Volume.Valid;
      assert forall k | 0 <= k < |chain| :: chain[k] in chain;
    }

    /** Map number k of the chain as it is read. */
    method ReadMap(b: Word, ghost k: nat) returns (ok: bool, bmap: BlockMap)
      requires Valid() && k < |chain| && b == chain[k]
      modifies vol.data.cache, vol.data.cache.slots, vol.data.cache.device
      ensures Valid() && V() == old(V())
      ensures ok ==> bmap == DecodeMap(vol.Sector(b)) && bmap.next == Following(chain, k + 1)
      ensures ok ==> Slots()[BMAP_BLOCKS * k..BMAP_BLOCKS * (k + 1)] == bmap.blocks
      ensures ok ==> forall e | e in bmap.blocks && e != 0 :: vol.InUse(e)
      ensures Grew(old(Troubles()), ok)
    {
      hide Look, View, SlotsAt, DecodeMap, Sound, Volume.Valid;
      MapFacts(k);
      var sector;
      ok, sector := Read(b);
      bmap := DecodeMap(sector);
    }

    /** One map of the scan: read, searched, and left for the next one. */
    method FindAt(b: Word, name: Name, ghost k: nat) returns (ok: bool, found: Word, next: Word)
      requires Valid() && k < |chain| && b == chain[k] && NotAmong(V(), vol.data.dev, Slots(), BMAP_BLOCKS * k, name)
      modifies vol.data.cache, vol.data.cache.slots, vol.data.cache.device
      ensures Valid() && V() == old(V())
      ensures ok ==> next == Following(chain, k + 1)
      ensures ok && found != 0 ==> found in Slots() && NameOf(At(V(), vol.data.dev, found)) == name
      ensures ok && found == 0 ==> NotAmong(V(), vol.data.dev, Slots(), BMAP_BLOCKS * (k + 1), name)
      ensures Grew(old(Troubles()), ok)
    {
      hide SlotsAt, NotAmong, NameOf, Look, View, Sound, Volume.Valid, DecodeMap;
      ghost var v, slots := V(), Slots();
      var bmap;
      ok, bmap := ReadMap(b, k);
      found, next := 0, 0;
      if !ok {
        return;
      }
      Part127(slots, k, bmap.blocks);
      ok, found := FindIn(bmap.blocks, name);
      next := bmap.next;
      if ok && found == 0 {
        NotInMap(v, vol.data.dev, slots, k, bmap.blocks, name);
      }
    }

    /** The lookup scan of inode_get and inode_create. */
    method Find(name: Name) returns (ok: bool, found: Word)
      requires Valid()
      modifies vol.data.cache, vol.data.cache.slots, vol.data.cache.device
      ensures Valid() && V() == old(V())
      ensures ok ==> found == Entry(name)
      ensures Grew(old(Troubles()), ok)
    {
      hide SlotsAt, EntryAt, NotAmong, NameOf, Look, View, Valid;
      ghost var v, slots := V(), Slots();
      NothingYet(v, slots, name);
      found := 0;
      var current;
      ok, current := First();
      ghost var k := 0;
      while ok && current != 0 && found == 0
        invariant Valid() && V() == v && 0 <= k <= |chain| && Grew(old(Troubles()), ok)
        invariant ok && found == 0 ==> current == Following(chain, k) && NotAmong(v, vol.data.dev, slots, BMAP_BLOCKS * k, name)
        invariant ok && found != 0 ==> found in slots && NameOf(At(v, vol.data.dev, found)) == name
        decreases |chain| - k
      {
        ok, found, current := FindAt(current, name, k);
        k := k + 1;
      }
      if ok {
        Conclude(name, found, k);
      }
    }

    /** The first map of the chain, from the inode. */
    method First() returns (ok: bool, current: Word)
      requires Valid()
      modifies vol.data.cache, vol.data.cache.slots, vol.data.cache.device
      ensures Valid() && V() == old(V()) && (ok ==> current == Following(chain, 0))
      ensures Grew(old(Troubles()), ok)
    {
      hide Valid, Look, View, NextOf;
      StartFacts();
      var inode;
      ok, inode := Read(self);
      current := NextOf(inode);
    }

    /** The scan has found the name, or has passed the end of the chain without it. */
    lemma Conclude(name: Name, found: Word, k: nat)
      requires Valid() && k <= |chain|
      requires if found != 0 then found in Slots() && NameOf(vol.Sector(found)) == name
               else Following(chain, k) == 0 && NotAmong(V(), vol.data.dev, Slots(), BMAP_BLOCKS * k, name)
      ensures found == Entry(name)
    {
      hide SlotsAt, NamesAt, NamesUnique, NameOf, NotAmong, Look, View, Valid;
      StartFacts();
      NamesFacts();
      assert found == 0 ==> k == |chain|;
      ScanResult(V(), vol.data.dev, chain, name, found);
    }

    lemma NothingYet(v: Store, slots: seq<Word>, name: Name)
      ensures NotAmong(v, vol.data.dev, slots, 0, name)
    {
    }

    lemma NamesFacts()
      requires Valid()
      ensures NamesUnique(Slots(), NamesAt(V(), vol.data.dev, Slots()))
    {
    }

    lemma Part127(slots: seq<Word>, k: nat, blocks: seq<Word>)
      requires BMAP_BLOCKS * (k + 1) <= |slots| && slots[BMAP_BLOCKS * k..BMAP_BLOCKS * (k + 1)] == blocks
      ensures forall b | b in blocks :: b in slots
    {
    }

    // ------------------------------------------------------------ creation

    /** The scan for a hole: its map and index; without one, current is the last map, or 0. */
    method FindHole() returns (ok: bool, hole: bool, inode: Block, current: Word, bmap: BlockMap, j: nat, ghost k: nat)
      requires Valid()
      modifies vol.data.cache, vol.data.cache.slots, vol.data.cache.device
      ensures Valid() && V() == old(V())
      ensures ok ==> inode == vol.Sector(self) && (chain == [] <==> current == 0) && (chain == [] ==> !hole)
      ensures ok && chain != [] ==> k < |chain| && current == chain[k] && bmap == DecodeMap(vol.Sector(current))
      ensures ok && hole ==> j < BMAP_BLOCKS && bmap.blocks[j] == 0 && 0 in Slots()
      ensures ok && !hole ==> 0 !in Slots() && (chain != [] ==> k == |chain| - 1)
      ensures Grew(old(Troubles()), ok)
    {
      hide SlotsAt, Look, View, NextOf, DecodeMap, Sound, Volume.Valid;
      StartFacts();
      ghost var v, slots := V(), Slots();
      bmap, j, k, hole, current := NullMap(), 0, 0, false, 0;
      ok, inode := Read(self);
      if !ok {
        return;
      }
      current := NextOf(inode);
      var more := current != 0;
      while more
        invariant Valid() && V() == v && Grew(old(Troubles()), true) && ok && !hole && (chain == [] ==> !more && current == 0)
        invariant chain != [] ==> k < |chain| && current == chain[k]
        invariant chain != [] && !more ==> k == |chain| - 1 && bmap == DecodeMap(vol.Sector(current))
        invariant (chain == [] ==> k == 0) && 0 !in slots[..BMAP_BLOCKS * (if more || chain == [] then k else k + 1)]
        decreases more, |chain| - k
      {
        ok, bmap := ReadMap(current, k);
        if !ok {
          return;
        }
        j := 0;
        while j < BMAP_BLOCKS && bmap.blocks[j] != 0
          invariant 0 <= j <= BMAP_BLOCKS && forall i | 0 <= i < j :: bmap.blocks[i] != 0
        {
          j := j + 1;
        }
        Part127(slots, k, bmap.blocks);
        PassedMap(slots, k, bmap.blocks);
        if j < BMAP_BLOCKS {
          hole := true;
          return;
        }
        more := bmap.next != 0;
        if more {
          current := bmap.next;
          k := k + 1;
        }
      }
    }

    lemma PassedMap(slots: seq<Word>, k: nat, blocks: seq<Word>)
      requires BMAP_BLOCKS * (k + 1) <= |slots| && slots[BMAP_BLOCKS * k..BMAP_BLOCKS * (k + 1)] == blocks
      ensures 0 !in slots[..BMAP_BLOCKS * k] && 0 !in blocks ==> 0 !in slots[..BMAP_BLOCKS * (k + 1)]
    {
      assert slots[..BMAP_BLOCKS * (k + 1)] == slots[..BMAP_BLOCKS * k] + blocks;
    }

    /** The entries are those of v, and the directory is sound as far as its own sectors go. */
    ghost predicate Kept(v: Store)
      reads this, vol.inodes, vol.data, vol.data.cache, vol.data.cache.slots, vol.data.cache.device
    {
      Sound() && forall name :: Entry(name) == EntryAt(v, vol.data.dev, chain, name)
    }

    /** A store that agrees with v on all blocks that were in use keeps the directory. */
    lemma StillKept(v: Store)
      requires DirOk(v, vol.data.dev, self, chain) && Owned(chain, SlotsAt(v, vol.data.dev, chain))
      requires forall b | Part(v, vol.data.dev, self, chain, b) :: At(V(), vol.data.dev, b) == At(v, vol.data.dev, b)
      ensures Kept(v) && Slots() == SlotsAt(v, vol.data.dev, chain)
      ensures NamesAt(V(), vol.data.dev, Slots()) == NamesAt(v, vol.data.dev, Slots())
    {
      hide SlotsOf, NamesUnique, Lookup, Chain, NameOf, NextOf, DecodeMap, At;
      assert forall b | b == self || b in chain || (b in SlotsAt(v, vol.data.dev, chain) && b != 0) :: Part(v, vol.data.dev, self, chain, b);
      KeepDir(v, V(), vol.data.dev, self, chain);
    }

    lemma SelfPart(v: Store)
      ensures Part(v, vol.data.dev, self, chain, self)
    {
      hide SlotsAt;
    }

    lemma SameParts(v: Store, v': Store)
      requires SlotsAt(v', vol.data.dev, chain) == SlotsAt(v, vol.data.dev, chain)
      ensures forall b :: Part(v', vol.data.dev, self, chain, b) <==> Part(v, vol.data.dev, self, chain, b)
    {
      hide SlotsAt;
    }

    /** Every sector of the directory is in use. */
    lemma PartsInUse()
      requires Sound()
      ensures forall b | Part(V(), vol.data.dev, self, chain, b) :: vol.InUse(b)
    {
      hide SlotsAt, DirOk;
    }

    // ------------------------------------------------------------ what a creation leaves alone

    ghost function Now(): Snapshot
      reads this, vol.inodes, vol.data, vol.data.cache, vol.data.cache.slots, vol.data.cache.device
    {
      Snapshot(V(), vol.inodes.live, vol.data.live, chain)
    }

    ghost predicate WasInUse(s: Snapshot, b: Word)
    {
      (b >= vol.inodes.first && b - vol.inodes.first in s.inodes) || (b >= vol.data.first && b - vol.data.first in s.data)
    }

    /** Since s nothing was freed, and of the sectors then in use only the directory's maps and its inode's `next` have changed. */
    ghost predicate SparedAt(s: Snapshot, v: Store, inodes: set<nat>, data: set<nat>)
    {
      && s.inodes <= inodes && s.data <= data
      && NameOf(At(v, vol.data.dev, self)) == NameOf(At(s.v, vol.data.dev, self))
      && forall b | WasInUse(s, b) && b != self && b !in s.chain :: At(v, vol.data.dev, b) == At(s.v, vol.data.dev, b)
    }

    ghost predicate Spared(s: Snapshot)
      reads vol.inodes, vol.data, vol.data.cache, vol.data.cache.slots, vol.data.cache.device
    {
      SparedAt(s, V(), vol.inodes.live, vol.data.live)
    }

    lemma UsedNow()
      ensures forall b :: WasInUse(Snapshot(V(), vol.inodes.live, vol.data.live, []), b) <==> vol.InUse(b)
    {
    }

    /** An allocation changes no sector in use. */
    lemma SparedByGet(s: Snapshot, v: Store, inodes: set<nat>, data: set<nat>, v': Store, inodes': set<nat>, data': set<nat>)
      requires SparedAt(s, v, inodes, data) && inodes <= inodes' && data <= data'
      requires forall b | WasInUse(Snapshot(v, inodes, data, []), b) :: At(v', vol.data.dev, b) == At(v, vol.data.dev, b)
      requires WasInUse(Snapshot(v, inodes, data, []), self)
      ensures SparedAt(s, v', inodes', data')
    {
      hide At, NameOf;
    }

    lemma StillNew(s: Snapshot, v: Store, inodes: set<nat>, data: set<nat>, b: Word)
      requires SparedAt(s, v, inodes, data) && !WasInUse(Snapshot(v, inodes, data, []), b)
      ensures !WasInUse(s, b)
    {
      hide At, NameOf;
    }

    /** A write to one of the maps, or to a block that was not in use. */
    lemma SparedByWrite(s: Snapshot, v: Store, inodes: set<nat>, data: set<nat>, b: Word, x: Block)
      requires SparedAt(s, v, inodes, data) && b != self && (b in s.chain || !WasInUse(s, b))
      ensures SparedAt(s, v[Key(vol.data.dev, b) := x], inodes, data)
    {
      hide At, NameOf;
      AtUpdated(v, vol.data.dev, b, x);
    }

    /** The link, in the last map or in the inode. */
    lemma SparedByLink(s: Snapshot, v: Store, inodes: set<nat>, data: set<nat>, block: Word)
      requires SparedAt(s, v, inodes, data) && s.chain == chain && self !in chain
      ensures SparedAt(s, LinkTo(v, vol.data.dev, self, chain, block), inodes, data)
    {
      hide At, NameOf, WithNext, EncodeMap, DecodeMap;
      if chain == [] {
        var x := WithNext(At(v, vol.data.dev, self), block);
        WithNextOf(At(v, vol.data.dev, self), block);
        AtUpdated(v, vol.data.dev, self, x);
      } else {
        var last := chain[|chain| - 1];
        assert last in chain;
        SparedByWrite(s, v, inodes, data, last, EncodeMap(DecodeMap(At(v, vol.data.dev, last)).(next := block)));
      }
    }

    /** A new inode block: nothing in use changes. */
    method NewInodeBlock(ghost s: Snapshot) returns (r: BlockAllocator.Outcome)
      requires Valid() && Spared(s)
      modifies vol.inodes, vol.inodes.cache, vol.inodes.cache.slots, vol.inodes.cache.device
      ensures Kept(old(V())) && Slots() == old(Slots())
      ensures NamesAt(V(), vol.data.dev, Slots()) == NamesAt(old(V()), vol.data.dev, Slots())
      ensures r.Got? ==> vol.Valid() && vol.inodes.IsLive(r.block) && !WasInUse(s, r.block) && r.block != 0
      ensures Spared(s)
      ensures r.Got? ==> !Part(V(), vol.data.dev, self, chain, r.block)
      ensures forall b | old(vol.InUse(b)) :: vol.InUse(b) && vol.Sector(b) == old(vol.Sector(b))
      ensures Grew(old(Troubles()), r.Got?)
    {
      hide SlotsAt, NamesAt, DirOk, OwnedIn, Part, EntryAt, NameOf, SparedAt, WasInUse, Look, View, Coherent, Volume.LaidOut;
      PartsInUse();
      UsedNow();
      ghost var v, inodes, data := V(), vol.inodes.live, vol.data.live;
      r := vol.GetInode();
      OwnedGrows(inodes, data, vol.inodes.live, vol.data.live, chain, SlotsAt(v, vol.data.dev, chain));
      StillKept(v);
      SameParts(v, V());
      SelfPart(v);
      SparedByGet(s, v, inodes, data, V(), vol.inodes.live, vol.data.live);
      if r.Got? {
        StillNew(s, v, inodes, data, r.block);
      }
    }

    /** A new data block: nothing in use changes. */
    method NewDataBlock(ghost s: Snapshot) returns (r: BlockAllocator.Outcome)
      requires Valid() && Spared(s)
      modifies vol.data, vol.data.cache, vol.data.cache.slots, vol.data.cache.device
      ensures Kept(old(V())) && Slots() == old(Slots())
      ensures NamesAt(V(), vol.data.dev, Slots()) == NamesAt(old(V()), vol.data.dev, Slots())
      ensures r.Got? ==> vol.Valid() && vol.data.IsLive(r.block) && !WasInUse(s, r.block) && r.block != 0
      ensures Spared(s)
      ensures r.Got? ==> !Part(V(), vol.data.dev, self, chain, r.block)
      ensures forall b | old(vol.InUse(b)) :: vol.InUse(b) && vol.Sector(b) == old(vol.Sector(b))
      ensures Grew(old(Troubles()), r.Got?)
    {
      hide SlotsAt, NamesAt, DirOk, OwnedIn, Part, EntryAt, NameOf, SparedAt, WasInUse, Look, View, Coherent, Volume.LaidOut;
      PartsInUse();
      UsedNow();
      ghost var v, inodes, data := V(), vol.inodes.live, vol.data.live;
      r := vol.GetData();
      OwnedGrows(inodes, data, vol.inodes.live, vol.data.live, chain, SlotsAt(v, vol.data.dev, chain));
      StillKept(v);
      SameParts(v, V());
      SelfPart(v);
      SparedByGet(s, v, inodes, data, V(), vol.inodes.live, vol.data.live);
      if r.Got? {
        StillNew(s, v, inodes, data, r.block);
      }
    }

    /** The directory is the old one with b under one more name. */
    ghost predicate Lists(v: Store, chain0: seq<Word>, name: Name, b: Word)
      reads this, vol.data.cache, vol.data.cache.slots, vol.data.cache.device
    {
      forall other :: Entry(other) == if other == name then b else EntryAt(v, vol.data.dev, chain0, other)
    }

    /** What a call of Create on the directory (v, chain0) leaves, outcome by outcome. */
    ghost predicate Leaves(r: Outcome, v: Store, chain0: seq<Word>, name: Name)
      reads this, vol, vol.inodes, vol.data, vol.inodes.cache, vol.inodes.cache.slots, vol.inodes.cache.device
      reads vol.data.cache, vol.data.cache.slots, vol.data.cache.device
    {
      var dev := vol.data.dev;
      match r
      case Exists => Valid() && V() == v && chain == chain0 && EntryAt(v, dev, chain0, name) != 0
      case Untouched => chain == chain0 && Kept(v)
      case Created(b) => b != 0 && vol.inodes.IsLive(b) && Valid() && Lists(v, chain0, name, b)
      case Misnamed(b) =>
        var stale := NameOf(vol.Sector(b));
        && b != 0 && vol.inodes.IsLive(b) && Linked(V(), dev, self, chain)
        && (forall e | e != 0 :: e in Slots() <==> e in SlotsAt(v, dev, chain0) || e == b)
        && (Valid() <==> EntryAt(v, dev, chain0, stale) == 0) && (Valid() ==> Lists(v, chain0, stale, b))
      case Dangling(block) =>
        && vol.data.IsLive(block) && EndOf(V(), dev, self, chain) == block
        && chain == chain0 && Slots() == SlotsAt(v, dev, chain0) && NamesAt(V(), dev, Slots()) == NamesAt(v, dev, Slots())
        && (Linked(V(), dev, self, chain + [block]) <==> DecodeMap(vol.Sector(block)).next == 0)
    }

    /** Whatever the call has brought in was not in use at s. */
    ghost predicate NewOnly(r: Outcome, s: Snapshot)
      reads this
    {
      && (r.Created? || r.Misnamed? ==> !WasInUse(s, r.inode)) && (r.Dangling? ==> !WasInUse(s, r.block))
      && forall c | c in chain :: c in s.chain || !WasInUse(s, c)
    }

    /** The created inode's sector is the one asked for. */
    ghost predicate Filed(r: Outcome, name: Name, fields: Block)
      requires IsName(name)
      reads vol.data.cache, vol.data.cache.slots, vol.data.cache.device
    {
      r.Created? ==> vol.Sector(r.inode) == NewInode(fields, name)
    }

    lemma NothingNew(s: Snapshot)
      requires chain == s.chain
      ensures NewOnly(Untouched, s)
    {
    }

    lemma NewBlock(s: Snapshot, block: Word)
      requires chain == s.chain && !WasInUse(s, block)
      ensures NewOnly(Dangling(block), s)
    {
    }

    /** The listed entry gets its inode sector, or keeps the one it has. */
    method NameInode(b: Word, name: Name, fields: Block, ghost v: Store, ghost chain0: seq<Word>, ghost n: nat, ghost s: Snapshot)
      returns (r: Outcome)
      requires vol.Valid() && IsName(name) && vol.inodes.IsLive(b) && b != 0 && b != self && Spared(s) && !WasInUse(s, b)
      requires Linked(V(), vol.data.dev, self, chain) && Owned(chain, Slots())
      requires NamesUnique(SlotsAt(v, vol.data.dev, chain0), NamesAt(v, vol.data.dev, SlotsAt(v, vol.data.dev, chain0)))
      requires EntryAt(v, vol.data.dev, chain0, name) == 0 && Added(v, V(), vol.data.dev, chain0, chain, n, b)
      modifies vol.data.cache, vol.data.cache.slots, vol.data.cache.device
      ensures (r == Created(b) || r == Misnamed(b)) && Leaves(r, v, chain0, name) && Spared(s) && Filed(r, name, fields)
      ensures Grew(old(Troubles()), r.Created?)
    {
      hide SparedAt, Leaves, SlotsAt, NamesAt, EntryAt, NamesUnique, NameOf, NewInode, Added, OwnedIn, Linked, Look, View, Volume.Valid;
      ghost var v1 := V();
      var sector := NewInode(fields, name);
      var ok := vol.WriteBlock(b, sector);
      if ok {
        r := Created(b);
        SparedByWrite(s, v1, vol.inodes.live, vol.data.live, b, sector);
        LookUpdated(v1, Key(vol.data.dev, b), sector, Key(vol.data.dev, b));
        Named(v, v1, chain0, n, b, name, fields);
      } else {
        r := Misnamed(b);
        Unnamed(v, chain0, n, b, name);
      }
    }

    lemma Named(v: Store, v1: Store, chain0: seq<Word>, n: nat, b: Word, name: Name, fields: Block)
      requires vol.Valid() && IsName(name) && vol.inodes.IsLive(b) && b != 0 && b != self && V() == v1[Key(vol.data.dev, b) := NewInode(fields, name)]
      requires Linked(v1, vol.data.dev, self, chain) && Owned(chain, SlotsAt(v1, vol.data.dev, chain))
      requires NamesUnique(SlotsAt(v, vol.data.dev, chain0), NamesAt(v, vol.data.dev, SlotsAt(v, vol.data.dev, chain0)))
      requires EntryAt(v, vol.data.dev, chain0, name) == 0 && Added(v, v1, vol.data.dev, chain0, chain, n, b)
      ensures Leaves(Created(b), v, chain0, name)
    {
      hide SlotsAt, NamesAt, EntryAt, NamesUnique, NameOf, NewInode, Added, OwnedIn, Linked, At, View, Volume.Valid;
      AddedApart(v, v1, vol.data.dev, chain0, chain, n, b);
      NewInodeNamed(fields, name);
      var v2 := v1[Key(vol.data.dev, b) := NewInode(fields, name)];
      AtUpdated(v1, vol.data.dev, b, NewInode(fields, name));
      StillLinked(v1, v2, b);
      Concluded(v, v1, v2, chain0, n, b, NewInode(fields, name));
    }

    lemma Unnamed(v: Store, chain0: seq<Word>, n: nat, b: Word, name: Name)
      requires vol.Valid() && vol.inodes.IsLive(b) && b != 0 && Linked(V(), vol.data.dev, self, chain) && Owned(chain, Slots())
      requires NamesUnique(SlotsAt(v, vol.data.dev, chain0), NamesAt(v, vol.data.dev, SlotsAt(v, vol.data.dev, chain0)))
      requires Added(v, V(), vol.data.dev, chain0, chain, n, b)
      ensures Leaves(Misnamed(b), v, chain0, name)
    {
      hide SlotsAt, NamesAt, EntryAt, NamesUnique, NameOf, Added, OwnedIn, Linked, Look, View, Volume.Valid;
      AddedExactly(v, V(), vol.data.dev, chain0, chain, n, b);
      if EntryAt(v, vol.data.dev, chain0, NameOf(vol.Sector(b))) == 0 {
        Concluded(v, V(), V(), chain0, n, b, vol.Sector(b));
      } else {
        NameClash(v, V(), vol.data.dev, chain0, chain, n, b);
      }
    }

    /** With `sector` in its inode the new entry carries that sector's name, and nothing else has changed. */
    lemma Concluded(v: Store, v1: Store, v2: Store, chain0: seq<Word>, n: nat, b: Word, sector: Block)
      requires V() == v2 && Linked(v2, vol.data.dev, self, chain) && Owned(chain, SlotsAt(v1, vol.data.dev, chain))
      requires NamesUnique(SlotsAt(v, vol.data.dev, chain0), NamesAt(v, vol.data.dev, SlotsAt(v, vol.data.dev, chain0)))
      requires EntryAt(v, vol.data.dev, chain0, NameOf(sector)) == 0 && Added(v, v1, vol.data.dev, chain0, chain, n, b)
      requires At(v2, vol.data.dev, b) == sector && forall e | e != b :: At(v2, vol.data.dev, e) == At(v1, vol.data.dev, e)
      ensures Sound() && Lists(v, chain0, NameOf(sector), b)
    {
      hide SlotsAt, NamesAt, EntryAt, NamesUnique, NameOf, Added, OwnedIn, Linked, At, View;
      NameEntry(v, v1, v2, vol.data.dev, chain0, chain, n, b, sector);
    }

    /** Writing a block that is neither the inode nor a map keeps the chain. */
    lemma StillLinked(v: Store, v': Store, b: Word)
      requires Linked(v, vol.data.dev, self, chain) && b != self && b !in chain
      requires forall e | e != b :: At(v', vol.data.dev, e) == At(v, vol.data.dev, e)
      ensures Linked(v', vol.data.dev, self, chain)
    {
      SameMaps(v, v', vol.data.dev, chain);
    }

    /** Maps are not inodes: what the kinds of the blocks say about a directory. */
    lemma KindsApart(v: Store)
      requires vol.Valid() && Owned(chain, SlotsAt(v, vol.data.dev, chain))
      ensures self !in chain && forall e | e in SlotsAt(v, vol.data.dev, chain) && e != 0 :: e !in chain
    {
      hide SlotsAt, Volume.Valid;
      vol.KindsDiffer();
      forall e: Word | e in chain
        ensures vol.data.IsLive(e) && !vol.inodes.IsLive(e)
      {
      }
      assert vol.inodes.IsLive(self);
      assert forall e | e in SlotsAt(v, vol.data.dev, chain) && e != 0 :: vol.inodes.IsLive(e);
    }

    /** The entry has been written into a hole. */
    lemma HoleListed(v: Store, k: nat, j: nat, b: Word)
      requires vol.Valid() && DirOk(v, vol.data.dev, self, chain) && Owned(chain, SlotsAt(v, vol.data.dev, chain))
      requires k < |chain| && j < BMAP_BLOCKS && vol.inodes.IsLive(b) && b != 0 && !Part(v, vol.data.dev, self, chain, b)
      requires DecodeMap(At(v, vol.data.dev, chain[k])).blocks[j] == 0 && V() == Filled(v, vol.data.dev, chain, k, j, b)
      ensures Linked(V(), vol.data.dev, self, chain) && Owned(chain, Slots())
      ensures Added(v, V(), vol.data.dev, chain, chain, BMAP_BLOCKS * k + j, b)
    {
      hide SlotsAt, NamesAt, NamesUnique, Added, Chain, DecodeMap, EncodeMap, Filled, Look, View, Volume.Valid;
      KindsApart(v);
      HoleAdded(v, V(), vol.data.dev, self, chain, k, j, b);
      AddedMembers(v, V(), vol.data.dev, chain, chain, BMAP_BLOCKS * k + j, b);
    }

    /** The outcome told of the store before the allocation, which showed the same entries. */
    lemma Rebase(r: Outcome, v: Store, v1: Store, chain0: seq<Word>, name: Name)
      requires (r.Created? || r.Misnamed?) && Leaves(r, v1, chain0, name)
      requires SlotsAt(v1, vol.data.dev, chain0) == SlotsAt(v, vol.data.dev, chain0)
      requires forall other :: EntryAt(v1, vol.data.dev, chain0, other) == EntryAt(v, vol.data.dev, chain0, other)
      ensures Leaves(r, v, chain0, name)
    {
      hide SlotsAt, EntryAt, Linked, Sound, Look, View, NameOf, Volume.Valid;
    }

    /** A hole takes the entry. */
    method AddInHole(current: Word, bmap: BlockMap, j: nat, name: Name, fields: Block, ghost k: nat, ghost s: Snapshot) returns (r: Outcome)
      requires Spared(s) && s.chain == chain
      requires Valid() && IsName(name) && Entry(name) == 0 && k < |chain| && current == chain[k]
      requires bmap == DecodeMap(vol.Sector(current)) && j < BMAP_BLOCKS && bmap.blocks[j] == 0
      modifies vol.inodes, vol.inodes.cache, vol.inodes.cache.slots, vol.inodes.cache.device
      modifies vol.data.cache, vol.data.cache.slots, vol.data.cache.device
      ensures Leaves(r, old(V()), chain, name) && Filed(r, name, fields)
      ensures Spared(s) && (r.Untouched? || ((r.Created? || r.Misnamed?) && !WasInUse(s, r.inode)))
      ensures Grew(old(Troubles()), r.Created?)
    {
      hide SparedAt, DirOk, SlotsAt, NamesAt, EntryAt, NamesUnique, NameOf, Added, OwnedIn, Part, DecodeMap, Look, View, Leaves, Kept, Valid, WasInUse, Volume.Valid;
      ghost var v0 := V();
      MapInUse(k);
      var grant := NewInodeBlock(s);
      if !grant.Got? {
        LeftAlone(v0, chain, name);
        return Untouched;
      }
      r := ListInHole(current, bmap, j, grant.block, name, fields, v0, k, s);
    }

    /** The map with the hole lists the new inode, which then gets its sector. */
    method ListInHole(current: Word, bmap: BlockMap, j: nat, b: Word, name: Name, fields: Block, ghost v0: Store, ghost k: nat, ghost s: Snapshot)
      returns (r: Outcome)
      requires vol.Valid() && Kept(v0) && Slots() == SlotsAt(v0, vol.data.dev, chain) && Spared(s) && s.chain == chain
      requires IsName(name) && EntryAt(v0, vol.data.dev, chain, name) == 0 && k < |chain| && current == chain[k] && vol.InUse(current)
      requires bmap == DecodeMap(vol.Sector(current)) && j < BMAP_BLOCKS && bmap.blocks[j] == 0
      requires vol.inodes.IsLive(b) && b != 0 && !WasInUse(s, b) && !Part(V(), vol.data.dev, self, chain, b)
      modifies vol.data.cache, vol.data.cache.slots, vol.data.cache.device
      ensures Leaves(r, v0, chain, name) && Filed(r, name, fields) && Spared(s)
      ensures r.Untouched? || ((r.Created? || r.Misnamed?) && !WasInUse(s, r.inode))
      ensures Grew(old(Troubles()), r.Created?)
    {
      hide SparedAt, DirOk, SlotsAt, NamesAt, EntryAt, NamesUnique, NameOf, Added, OwnedIn, Part, DecodeMap, EncodeMap, Look, View, Leaves, Kept, WasInUse, Volume.Valid, Volume.InUse;
      ghost var v := V();
      KeptFacts(v0);
      KindsApart(v);
      var image := EncodeMap(bmap.(blocks := bmap.blocks[j := b]));
      SparedByWrite(s, v, vol.inodes.live, vol.data.live, current, image);
      var ok := vol.WriteBlock(current, image);
      if !ok {
        KeptAgain(v0, v);
        LeftAlone(v0, chain, name);
        return Untouched;
      }
      HoleListed(v, k, j, b);
      NotSelf(v, b);
      r := NameInode(b, name, fields, v, chain, BMAP_BLOCKS * k + j, s);
      Rebase(r, v0, v, chain, name);
    }

    lemma MapInUse(k: nat)
      requires Valid() && k < |chain|
      ensures vol.InUse(chain[k])
    {
      hide DirOk, SlotsAt, Volume.Valid;
      assert chain[k] in chain;
    }

    lemma NotSelf(v: Store, b: Word)
      requires !Part(v, vol.data.dev, self, chain, b)
      ensures b != self
    {
      hide SlotsAt;
    }

    lemma LeftAlone(v: Store, chain0: seq<Word>, name: Name)
      requires Kept(v) && chain == chain0
      ensures Leaves(Untouched, v, chain0, name)
    {
      hide Kept;
    }

    lemma KeptFacts(v: Store)
      requires Kept(v)
      ensures DirOk(V(), vol.data.dev, self, chain) && Owned(chain, Slots())
      ensures NamesUnique(Slots(), NamesAt(V(), vol.data.dev, Slots()))
      ensures forall other :: EntryAt(V(), vol.data.dev, chain, other) == EntryAt(v, vol.data.dev, chain, other)
    {
      hide SlotsAt, EntryAt, OwnedIn, NamesUnique, NamesAt, Linked;
    }

    /** A write that failed leaves the store, so the directory, as it was. */
    lemma KeptAgain(v: Store, v1: Store)
      requires V() == v1 && DirOk(v1, vol.data.dev, self, chain) && Owned(chain, SlotsAt(v1, vol.data.dev, chain))
      requires forall other :: EntryAt(v1, vol.data.dev, chain, other) == EntryAt(v, vol.data.dev, chain, other)
      ensures Kept(v)
    {
      hide SlotsAt, EntryAt, OwnedIn, DirOk;
    }

    // ------------------------------------------------------------ a new map

    /** v1 is v with the chain linked to block, as far as the directory's own sectors go. */
    ghost predicate LinkedOn(v: Store, v1: Store, chain: seq<Word>, block: Word)
    {
      var dev := vol.data.dev;
      && (forall c | c == self || c in chain :: At(v1, dev, c) == At(LinkTo(v, dev, self, chain, block), dev, c))
      && forall e | e in SlotsAt(v, dev, chain) && e != 0 :: At(v1, dev, e) == At(v, dev, e)
    }

    lemma LinkStep(v: Store, block: Word)
      requires forall e | e in SlotsAt(v, vol.data.dev, chain) && e != 0 :: e !in chain
      ensures LinkedOn(v, LinkTo(v, vol.data.dev, self, chain, block), chain, block)
    {
      hide SlotsOf, DecodeMap, EncodeMap, At, WithNext;
      if chain != [] {
        var last := chain[|chain| - 1];
        AtUpdated(v, vol.data.dev, last, EncodeMap(DecodeMap(At(v, vol.data.dev, last)).(next := block)));
        assert last in chain;
      }
    }

    /** The link has been made and the rest of the call failed. */
    lemma LeftDangling(v0: Store, v: Store, block: Word, name: Name)
      requires Prepared(v, v0, block)
      ensures Leaves(Dangling(block), v0, chain, name)
    {
      hide SlotsAt, LinkTo, Linked, EndOf, NamesUnique, OwnedIn, NameOf, DecodeMap, Look, View;
      DanglingExact(v, V(), vol.data.dev, self, chain, block);
      LinkEnds(v, V(), vol.data.dev, self, chain, block);
      var slots := SlotsAt(v, vol.data.dev, chain);
      assert NamesAt(V(), vol.data.dev, slots) == NamesAt(v, vol.data.dev, slots);
    }

    /** The new map has been written with the entry in it. */
    lemma MapListed(v: Store, v0: Store, v1: Store, chain0: seq<Word>, block: Word, b: Word)
      requires PreparedAt(v, v0, v1, vol.inodes.live, vol.data.live, chain0, block) && chain == chain0 + [block]
      requires !Part(v, vol.data.dev, self, chain0, b) && b != 0 && b != block && vol.inodes.IsLive(b)
      requires V() == v1[Key(vol.data.dev, block) := ListOf(b)]
      ensures Linked(V(), vol.data.dev, self, chain) && Owned(chain, Slots())
      ensures Added(v, V(), vol.data.dev, chain0, chain, BMAP_BLOCKS * |chain0|, b)
    {
      hide SlotsAt, NamesAt, NamesUnique, LinkTo, Linked, Added, ListOf, At;
      var v2 := v1[Key(vol.data.dev, block) := ListOf(b)];
      AtUpdated(v1, vol.data.dev, block, ListOf(b));
      MapAdded(v, v2, vol.data.dev, self, chain0, block, b);
      AddedMembers(v, v2, vol.data.dev, chain0, chain, BMAP_BLOCKS * |chain0|, b);
    }

    /** Writes the link, in the last map or in the inode. */
    method Link(inode: Block, current: Word, bmap: BlockMap, block: Word) returns (ok: bool)
      requires vol.Valid() && vol.InUse(self) && inode == vol.Sector(self) && current == (if chain == [] then 0 else chain[|chain| - 1])
      requires chain != [] ==> current != 0 && vol.InUse(current) && bmap == DecodeMap(vol.Sector(current))
      modifies vol.data.cache, vol.data.cache.slots, vol.data.cache.device
      ensures vol.Valid() && V() == if ok then LinkTo(old(V()), vol.data.dev, self, chain, block) else old(V())
      ensures Grew(old(Troubles()), ok)
    {
      hide DecodeMap, EncodeMap, WithNext, Look, View, Volume.Valid;
      if current != 0 {
        ok := vol.WriteBlock(current, EncodeMap(bmap.(next := block)));
      } else {
        ok := vol.WriteBlock(self, WithNext(inode, block));
      }
    }

    /** v has the entries of v0, block is new to it, and v1 is v with the chain linked to block. */
    ghost predicate PreparedAt(v: Store, v0: Store, v1: Store, inodes: set<nat>, data: set<nat>, chain: seq<Word>, block: Word)
    {
      var dev := vol.data.dev;
      var slots := SlotsAt(v, dev, chain);
      && DirOk(v, dev, self, chain) && OwnedIn(inodes, data, chain, slots) && self !in chain
      && block >= vol.data.first && block - vol.data.first in data && block != 0
      && !Part(v, dev, self, chain, block) && LinkedOn(v, v1, chain, block)
      && slots == SlotsAt(v0, dev, chain) && NamesAt(v, dev, slots) == NamesAt(v0, dev, slots)
    }

    ghost predicate Prepared(v: Store, v0: Store, block: Word)
      reads this, vol.inodes, vol.data, vol.data.cache, vol.data.cache.slots, vol.data.cache.device
    {
      PreparedAt(v, v0, V(), vol.inodes.live, vol.data.live, chain, block)
    }

    lemma PreparedKept(v: Store, v0: Store, v1: Store, v2: Store, inodes: set<nat>, data: set<nat>, inodes': set<nat>, chain: seq<Word>, block: Word)
      requires PreparedAt(v, v0, v1, inodes, data, chain, block) && inodes <= inodes'
      requires forall b | Part(v, vol.data.dev, self, chain, b) :: At(v2, vol.data.dev, b) == At(v1, vol.data.dev, b)
      ensures PreparedAt(v, v0, v2, inodes', data, chain, block)
    {
      hide SlotsAt, NamesAt, DirOk, LinkTo, At;
      OwnedGrows(inodes, data, inodes', data, chain, SlotsAt(v, vol.data.dev, chain));
      assert forall b | b == self || b in chain || (b in SlotsAt(v, vol.data.dev, chain) && b != 0) :: Part(v, vol.data.dev, self, chain, b);
    }

    /** Every sector of the prepared directory, and the new map's, is in use. */
    lemma PreparedParts(v: Store, v0: Store, block: Word)
      requires Prepared(v, v0, block)
      ensures vol.InUse(block) && forall b | Part(v, vol.data.dev, self, chain, b) :: vol.InUse(b)
    {
      hide SlotsAt, NamesAt, DirOk, LinkedOn;
    }

    /** The chain gets a new map: linked first, and only then given an inode to list and written. */
    method AddMap(inode: Block, current: Word, bmap: BlockMap, name: Name, fields: Block, ghost s: Snapshot) returns (r: Outcome)
      requires Spared(s) && s.chain == chain
      requires Valid() && IsName(name) && Entry(name) == 0 && inode == vol.Sector(self)
      requires current == if chain == [] then 0 else chain[|chain| - 1]
      requires chain != [] ==> bmap == DecodeMap(vol.Sector(current))
      modifies this`chain, vol.inodes, vol.inodes.cache, vol.inodes.cache.slots, vol.inodes.cache.device
      modifies vol.data, vol.data.cache, vol.data.cache.slots, vol.data.cache.device
      ensures Leaves(r, old(V()), old(chain), name) && Spared(s) && NewOnly(r, s)
      ensures (r.Created? || r.Misnamed? <==> chain != old(chain)) && Filed(r, name, fields)
      ensures Grew(old(Troubles()), r.Created?)
    {
      hide SparedAt, NewOnly, SlotsAt, EntryAt, DecodeMap, Look, View, Leaves, Kept, PreparedAt, Valid, Volume.Valid;
      ghost var v0 := V();
      var ok, block;
      ghost var v;
      ok, block, v := LinkNew(inode, current, bmap, s);
      if !ok {
        LeftAlone(v0, chain, name);
        NothingNew(s);
        return Untouched;
      }
      r := ListInMap(block, name, fields, v, v0, s);
    }

    /** A data block, linked to the end of the chain. */
    method LinkNew(inode: Block, current: Word, bmap: BlockMap, ghost s: Snapshot) returns (ok: bool, block: Word, ghost v: Store)
      requires Valid() && inode == vol.Sector(self) && current == if chain == [] then 0 else chain[|chain| - 1]
      requires chain != [] ==> bmap == DecodeMap(vol.Sector(current))
      modifies vol.data, vol.data.cache, vol.data.cache.slots, vol.data.cache.device
      requires Spared(s) && s.chain == chain
      ensures if ok then vol.Valid() && Prepared(v, old(V()), block) else Kept(old(V()))
      ensures Spared(s) && (ok ==> !WasInUse(s, block))
      ensures Grew(old(Troubles()), ok)
    {
      hide SparedAt, DirOk, SlotsAt, NamesAt, EntryAt, OwnedIn, Part, LinkTo, PreparedAt, DecodeMap, Look, View, Kept, Volume.Valid, Volume.InUse;
      EndInUse();
      ghost var v0 := V();
      var grant := NewDataBlock(s);
      v, block := V(), 0;
      if !grant.Got? {
        return false, 0, v;
      }
      block := grant.block;
      KeptFacts(v0);
      KindsApart(v);
      SparedByLink(s, v, vol.inodes.live, vol.data.live, block);
      ok := Link(inode, current, bmap, block);
      if ok {
        Prepares(v, v0, block);
      } else {
        KeptAgain(v0, v);
      }
    }

    lemma Prepares(v: Store, v0: Store, block: Word)
      requires vol.Valid() && V() == LinkTo(v, vol.data.dev, self, chain, block)
      requires DirOk(v, vol.data.dev, self, chain) && Owned(chain, SlotsAt(v, vol.data.dev, chain))
      requires vol.data.IsLive(block) && block != 0 && !Part(v, vol.data.dev, self, chain, block)
      requires SlotsAt(v, vol.data.dev, chain) == SlotsAt(v0, vol.data.dev, chain)
      requires var slots := SlotsAt(v, vol.data.dev, chain); NamesAt(v, vol.data.dev, slots) == NamesAt(v0, vol.data.dev, slots)
      ensures Prepared(v, v0, block)
    {
      hide DirOk, SlotsAt, NamesAt, OwnedIn, Part, LinkTo, LinkedOn, Look, View, Volume.Valid;
      KindsApart(v);
      LinkStep(v, block);
    }

    lemma EndInUse()
      requires Valid()
      ensures vol.InUse(self) && (chain != [] ==> chain[|chain| - 1] != 0 && vol.InUse(chain[|chain| - 1]))
    {
      hide Valid, Look, View, NextOf, Volume.InUse;
      StartFacts();
      if chain != [] {
        MapInUse(|chain| - 1);
      }
    }

    /** The second half: an inode for the entry, the map that lists it, and its sector. */
    method ListInMap(block: Word, name: Name, fields: Block, ghost v: Store, ghost v0: Store, ghost s: Snapshot) returns (r: Outcome)
      requires Spared(s) && !WasInUse(s, block) && s.chain == chain
      requires vol.Valid() && IsName(name) && Prepared(v, v0, block) && EntryAt(v0, vol.data.dev, chain, name) == 0
      modifies this`chain, vol.inodes, vol.inodes.cache, vol.inodes.cache.slots, vol.inodes.cache.device
      modifies vol.data.cache, vol.data.cache.slots, vol.data.cache.device
      ensures Leaves(r, v0, old(chain), name) && Spared(s) && NewOnly(r, s)
      ensures (r.Created? || r.Misnamed? <==> chain != old(chain)) && Filed(r, name, fields)
      ensures Grew(old(Troubles()), r.Created?)
    {
      hide SparedAt, NewOnly, SlotsAt, EntryAt, PreparedAt, Part, ListOf, Look, View, Leaves, Volume.Valid;
      NewBlock(s, block);
      var grant := TakeInode(block, v, v0, s);
      if !grant.Got? {
        LeftDangling(v0, v, block, name);
        return Dangling(block);
      }
      ghost var v1 := V();
      var ok := WriteNewMap(block, grant.block, v, v0, s);
      if !ok {
        LeftDangling(v0, v, block, name);
        return Dangling(block);
      }
      r := FinishMap(block, grant.block, name, fields, v, v0, v1, s);
    }

    method Lengthen(block: Word)
      requires vol.Valid()
      modifies this`chain
      ensures vol.Valid() && chain == old(chain) + [block]
    {
      chain := chain + [block];
    }

    /** The map is written: the chain is longer, and the entry gets its inode. */
    method FinishMap(block: Word, b: Word, name: Name, fields: Block, ghost v: Store, ghost v0: Store, ghost v1: Store, ghost s: Snapshot)
      returns (r: Outcome)
      requires Spared(s) && !WasInUse(s, b) && !WasInUse(s, block) && s.chain == chain
      requires vol.Valid() && IsName(name) && EntryAt(v0, vol.data.dev, chain, name) == 0
      requires PreparedAt(v, v0, v1, vol.inodes.live, vol.data.live, chain, block) && V() == v1[Key(vol.data.dev, block) := ListOf(b)]
      requires vol.inodes.IsLive(b) && b != 0 && b != self && b != block && !Part(v, vol.data.dev, self, chain, b)
      modifies this`chain, vol.data.cache, vol.data.cache.slots, vol.data.cache.device
      ensures Leaves(r, v0, old(chain), name) && Spared(s) && NewOnly(r, s)
      ensures (r.Created? || r.Misnamed?) && chain == old(chain) + [block] && Filed(r, name, fields)
      ensures Grew(old(Troubles()), r.Created?)
    {
      hide SparedAt, SlotsAt, NamesAt, EntryAt, NamesUnique, NameOf, Added, PreparedAt, OwnedIn, Linked, Part, ListOf, Look, View, Leaves, Volume.Valid, Volume.InUse;
      EntriesOf(v, v0, v1, chain, block);
      ghost var chain0 := chain;
      Lengthen(block);
      MapListed(v, v0, v1, chain0, block, b);
      r := NameInode(b, name, fields, v, chain0, BMAP_BLOCKS * |chain0|, s);
      Rebase(r, v0, v, chain0, name);
    }

    /** An inode block while the chain dangles: nothing in use changes. */
    method TakeInode(block: Word, ghost v: Store, ghost v0: Store, ghost s: Snapshot) returns (r: BlockAllocator.Outcome)
      requires vol.Valid() && Prepared(v, v0, block) && Spared(s)
      modifies vol.inodes, vol.inodes.cache, vol.inodes.cache.slots, vol.inodes.cache.device
      modifies vol.data.cache, vol.data.cache.slots, vol.data.cache.device
      ensures Prepared(v, v0, block)
      ensures Spared(s) && (r.Got? ==> !WasInUse(s, r.block))
      ensures r.Got? ==> vol.Valid() && vol.inodes.IsLive(r.block) && r.block != 0
      ensures r.Got? ==> r.block != self && r.block != block && !Part(v, vol.data.dev, self, chain, r.block)
      ensures Grew(old(Troubles()), r.Got?)
    {
      hide PreparedAt, SparedAt, WasInUse, Part, NameOf, Look, View, Coherent, Volume.LaidOut;
      PreparedParts(v, v0, block);
      UsedNow();
      SelfPart(v);
      ghost var v1, inodes, data := V(), vol.inodes.live, vol.data.live;
      r := vol.GetInode();
      PreparedKept(v, v0, v1, V(), inodes, data, vol.inodes.live, chain, block);
      SparedByGet(s, v1, inodes, data, V(), vol.inodes.live, vol.data.live);
      if r.Got? {
        NotSelf(v, r.block);
        StillNew(s, v1, inodes, data, r.block);
      }
    }

    /** The map that lists the entry, on the block the chain is linked to. */
    method WriteNewMap(block: Word, b: Word, ghost v: Store, ghost v0: Store, ghost s: Snapshot) returns (ok: bool)
      requires Spared(s) && !WasInUse(s, block)
      requires vol.Valid() && Prepared(v, v0, block) && vol.inodes.IsLive(b) && b != 0 && b != block && !Part(v, vol.data.dev, self, chain, b)
      modifies vol.data.cache, vol.data.cache.slots, vol.data.cache.device
      ensures vol.Valid() && V() == if ok then old(V())[Key(vol.data.dev, block) := ListOf(b)] else old(V())
      ensures Spared(s)
      ensures Grew(old(Troubles()), ok)
    {
      hide SparedAt, PreparedAt, Part, ListOf, Look, View, Volume.Valid;
      PreparedParts(v, v0, block);
      PreparedSelf(v, v0, block);
      SparedByWrite(s, V(), vol.inodes.live, vol.data.live, block, ListOf(b));
      ok := vol.WriteBlock(block, ListOf(b));
    }

    lemma PreparedSelf(v: Store, v0: Store, block: Word)
      requires Prepared(v, v0, block)
      ensures block != self
    {
      hide SlotsAt, NamesAt, DirOk, LinkedOn;
    }

    lemma EntriesOf(v: Store, v0: Store, v1: Store, chain: seq<Word>, block: Word)
      requires PreparedAt(v, v0, v1, vol.inodes.live, vol.data.live, chain, block)
      ensures NamesUnique(SlotsAt(v, vol.data.dev, chain), NamesAt(v, vol.data.dev, SlotsAt(v, vol.data.dev, chain)))
      ensures SlotsAt(v, vol.data.dev, chain) == SlotsAt(v0, vol.data.dev, chain)
      ensures forall name :: EntryAt(v, vol.data.dev, chain, name) == EntryAt(v0, vol.data.dev, chain, name)
    {
      hide SlotsAt, NamesAt, Lookup, NamesUnique, Linked, OwnedIn, LinkedOn;
    }

    /** The end of inode_create in one directory, for a file or a directory. */
    method Create(name: Name, fields: Block) returns (r: Outcome)
      requires Valid() && IsName(name)
      modifies this`chain, vol.inodes, vol.inodes.cache, vol.inodes.cache.slots, vol.inodes.cache.device
      modifies vol.data, vol.data.cache, vol.data.cache.slots, vol.data.cache.device
      ensures Leaves(r, old(V()), old(chain), name)
      ensures old(Entry(name)) != 0 ==> (r.Exists? || r.Untouched?) && Valid() && Now() == old(Now())
      ensures r.Created? || r.Misnamed? ==> r.inode != 0 && vol.inodes.IsLive(r.inode) && !old(vol.InUse(r.inode))
      ensures r.Created? || r.Misnamed? ==> (chain == old(chain) <==> 0 in old(Slots()))
      ensures r.Created? ==> vol.Sector(r.inode) == NewInode(fields, name)
      ensures Spared(old(Now())) && NewOnly(r, old(Now()))
      ensures Grew(old(Troubles()), r.Created? || r.Exists?)
    {
      hide SlotsAt, EntryAt, NameOf, DecodeMap, Look, View, Valid, Leaves, SparedAt;
      ghost var s := Now();
      SparedThen(s);
      var ok, found := Find(name);
      if !ok {
        Unread(s.v, name);
        return Untouched;
      }
      if found != 0 {
        Found(s.v, name);
        return Exists;
      }
      var hole, inode, current, bmap, j;
      ghost var k;
      ok, hole, inode, current, bmap, j, k := FindHole();
      if !ok {
        Unread(s.v, name);
        return Untouched;
      }
      if hole {
        r := AddInHole(current, bmap, j, name, fields, k, s);
      } else {
        r := AddMap(inode, current, bmap, name, fields, s);
      }
      WasNew(r, s, name);
    }

    lemma WasNew(r: Outcome, s: Snapshot, name: Name)
      requires Leaves(r, s.v, s.chain, name)
      ensures r.Created? || r.Misnamed? ==> r.inode != 0 && vol.inodes.IsLive(r.inode)
    {
      hide SlotsAt, EntryAt, NameOf, DecodeMap, Look, View, Valid, Lists, Linked;
    }

    lemma SparedThen(s: Snapshot)
      ensures SparedAt(s, s.v, s.inodes, s.data)
    {
    }

    lemma Unread(v: Store, name: Name)
      requires Valid() && V() == v
      ensures Leaves(Untouched, v, chain, name)
    {
    }

    lemma Found(v: Store, name: Name)
      requires Valid() && V() == v && Entry(name) != 0
      ensures Leaves(Exists, v, chain, name)
    {
    }
  }

  /** Two directories of a volume are never confused: one may list the other, but their maps differ. */
  ghost predicate Distinct(d: Directory, e: Directory)
    reads d, e
  {
    d.vol == e.vol && d.self != e.self && forall c | c in e.chain :: c !in d.chain
  }

  /** Creating an entry in one directory, whatever comes of it, changes no lookup in another, be it the parent, a child or neither. */
  method CreateBeside(d: Directory, e: Directory, name: Name, fields: Block) returns (r: Outcome)
    requires d != e && Distinct(d, e) && d.Valid() && e.Valid() && IsName(name)
    modifies d`chain, d.vol.inodes, d.vol.inodes.cache, d.vol.inodes.cache.slots, d.vol.inodes.cache.device
    modifies d.vol.data, d.vol.data.cache, d.vol.data.cache.slots, d.vol.data.cache.device
    ensures d.Leaves(r, old(d.V()), old(d.chain), name) && Distinct(d, e) && e.chain == old(e.chain)
    ensures e.Kept(old(e.V())) && (d.vol.Valid() ==> e.Valid())
    ensures d.Grew(old(d.Troubles()), r.Created? || r.Exists?)
  {
    hide SlotsAt, EntryAt, NameOf, Look, View, Directory.Valid, Directory.Leaves, Directory.SparedAt, Directory.NewOnly, Directory.Kept;
    Before(d, e);
    ghost var s := d.Now();
    r := d.Create(name, fields);
    Beside(d, e, s, r);
  }

  /** e as it was at s, with blocks of the right kinds. */
  ghost predicate StoodAt(d: Directory, e: Directory, s: Snapshot)
    reads e
  {
    var slots := SlotsAt(s.v, e.vol.data.dev, e.chain);
    && d.vol == e.vol && d.self != e.self && DirOk(s.v, e.vol.data.dev, e.self, e.chain) && e.OwnedIn(s.inodes, s.data, e.chain, slots)
    && e.self !in s.chain && d.self !in e.chain && (forall c | c in e.chain :: c !in s.chain)
    && forall b | b in slots && b != 0 :: b !in s.chain
  }

  lemma Before(d: Directory, e: Directory)
    requires Distinct(d, e) && d.Valid() && e.Valid()
    ensures StoodAt(d, e, d.Now())
  {
    hide SlotsAt, DirOk, Volume.Valid;
    d.vol.KindsDiffer();
    assert forall c | c in d.chain :: d.vol.data.IsLive(c);
    assert forall c | c in e.chain :: e.vol.data.IsLive(c);
    assert forall b | b in e.Slots() && b != 0 :: e.vol.inodes.IsLive(b);
    assert d.vol.inodes.IsLive(d.self) && d.vol.inodes.IsLive(e.self);
  }

  lemma Beside(d: Directory, e: Directory, s: Snapshot, r: Outcome)
    requires StoodAt(d, e, s) && d.Spared(s) && d.NewOnly(r, s)
    ensures Distinct(d, e) && e.Kept(s.v) && (d.vol.Valid() ==> e.Valid())
  {
    hide SlotsAt, NamesUnique, NameOf, Lookup, Linked, At, View, Volume.Valid;
    var v, dev := d.V(), d.vol.data.dev;
    var slots := SlotsAt(s.v, dev, e.chain);
    forall b | b == e.self || b in e.chain || (b in slots && b != 0)
      ensures d.WasInUse(s, b) && b !in s.chain
    {
    }
    forall b | b in slots && b != 0
      ensures NameOf(At(v, dev, b)) == NameOf(At(s.v, dev, b))
    {
    }
    KeepDir(s.v, v, dev, e.self, e.chain);
    e.OwnedGrows(s.inodes, s.data, e.vol.inodes.live, e.vol.data.live, e.chain, slots);
  }
}
