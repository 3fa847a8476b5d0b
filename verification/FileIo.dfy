/**
 fs/file.c: reading and writing an open file, growing its block chain on demand, and the
 cursor kept in the inode between calls.
 */
module FileIo {
  import opened Bytes
  import opened CacheSpec
  import opened BlockAllocator
  import opened InodeSpec
  import opened FileSpec
  import opened BlockCache
  import S = BitmapSpec

  const INODE_NULL: Word := 0
  const INODE_NOPOS := -1

  /** Where a transfer stands: data block `start`, listed as entry `iblock` of map `bmap`, which is block `current`. */
  datatype Place = Place(start: Word, current: Word, iblock: nat, bmap: BlockMap)

  const SSIZE_MAX := 2147483647
  /** inode_ptr_t is an unsigned 64-bit number. */
  const TWO_64 := 0x1_0000_0000_0000_0000

  datatype Whence = Set | Cur | End

  function Min(a: nat, b: nat): nat
  {
    if a < b then a else b
  }

  function Max(a: nat, b: nat): nat
  {
    if a < b then b else a
  }

  /** inode_t as file_read_write uses it. */
  class OpenFile {
    const vol: Allocator
    const self: Word
    const name: Name
    var next: Word
    var size: nat
    var pos: nat
    var current: Word
    var parent: Word
    var iblock: int
    ghost var l: Layout
    /** Sectors of other owners that are being watched: no call on this file may change them. */
    ghost var outside: imap<Word, Block>
    /** How many bytes the sectors hold: `size`, until a scan has missed its position. */
    ghost var extent: nat
    /** How far behind `pos` the saved cursor stands: not at all, until a scan has missed its position. */
    ghost var shift: nat
    /** What the cache counted as troubles when the call began. */
    ghost var mark: nat

    /** As kopen leaves it: no cursor yet. */
    constructor (vol: Allocator, self: Word, name: Name, next: Word, size: nat, ghost l: Layout)
      ensures this.vol == vol && this.self == self && this.name == name && this.next == next && this.size == size && this.l == l
      ensures pos == 0 && current == INODE_NULL && iblock == 0 && outside == imap[] && extent == size && shift == mark == 0
    {
      outside, extent, shift, mark := imap[], size, 0, 0;
      this.vol, this.self, this.name, this.next, this.size, this.l := vol, self, name, next, size, l;
      pos, current, parent, iblock := 0, INODE_NULL, INODE_NULL, 0;
    }

    ghost function V(): Store
      reads vol.cache, vol.cache.slots, vol.cache.device
    {
      vol.cache.Store()
    }

    /** The inode's own sector is neither allocator metadata nor a data block. */
    ghost predicate Apart()
    {
      self < vol.first && self != vol.blockStart && !(vol.mapStart <= self < vol.mapEnd)
    }

    ghost predicate AllLive(l: Layout)
      reads vol
    {
      forall b | Mentions(l, b) :: vol.IsLive(b)
    }

    /** A sector that is none of this file's business: in use by others, or before the data region and not the allocator's. */
    ghost predicate Watchable(b: Word)
      reads vol
    {
      vol.IsLive(b) || (b < vol.first && b != self && !vol.Owns(Key(vol.dev, b)))
    }

    /** The device has refused a call, or there was no slot or no block, since the call began. */
    ghost predicate Troubled()
      reads this`mark, vol.cache, vol.cache.device
    {
      mark < vol.cache.Troubles()
    }

    /** What every call keeps, success or not: the mount, the name in the inode, and the watched sectors. */
    ghost predicate Framed()
      reads this`l, this`outside, this`mark, vol, vol.cache, vol.cache.slots, vol.cache.device
    {
      && vol.Mounted() && mark <= vol.cache.Troubles() && NameOf(At(V(), vol.dev, self)) == name
      && forall b | b in outside :: Watchable(b) && !Mentions(l, b) && At(V(), vol.dev, b) == outside[b]
    }

    ghost predicate Ready()
      reads this`l, this`outside, this`mark, vol, vol.cache, vol.cache.slots, vol.cache.device
    {
      vol.Valid() && Apart() && IsName(name) && Framed()
    }

    lemma FramedMark()
      requires Framed()
      ensures mark <= vol.cache.Troubles()
    {
    }

    lemma ReadyFramed()
      requires Ready()
      ensures Framed()
    {
    }

    lemma StoredFramed()
      requires Stored()
      ensures Framed()
    {
    }

    /** What the chain says about block numbers and counts. */
    lemma ChainFacts()
      requires Stored()
      ensures 0 < |l.chain| && 0 < |l.data| && BMAP_BLOCKS * (|l.chain| - 1) <= |l.data| <= BMAP_BLOCKS * |l.chain|
      ensures (forall k | 0 <= k < |l.chain| :: l.chain[k] != 0) && forall k | 0 <= k < |l.data| :: l.data[k] != 0
    {
      hide Coherent, View, S.Sound, Distinct, MapsStored, Ready, AllLive;
    }

    /** The chain on disk is the layout l, and all of it belongs to this file. */
    ghost predicate Stored()
      reads this`l, this`outside, this`mark, this`next, vol, vol.cache, vol.cache.slots, vol.cache.device
    {
      Ready() && Chained(V(), vol.dev, l) && next == l.chain[0] && AllLive(l)
    }

    /** The inode's sector leads to the file: its first map and its size, as far as 64 bits go, are written there. */
    ghost predicate OnDisk()
      reads this`next, this`size, vol.cache, vol.cache.slots, vol.cache.device
    {
      NextOf(At(V(), vol.dev, self)) == next && SizeOf(At(V(), vol.dev, self)) == size % TWO_64
    }

    ghost predicate Standing(p: Place, n: nat)
      reads this`l
    {
      && n < |l.data| && n / BMAP_BLOCKS < |l.chain|
      && p == Place(l.data[n], l.chain[n / BMAP_BLOCKS], n % BMAP_BLOCKS, MapOf(l, n / BMAP_BLOCKS))
    }

    ghost function Blocks(): seq<Block>
      reads this`l, vol.cache, vol.cache.slots, vol.cache.device
    {
      BlocksOf(V(), vol.dev, l.data)
    }

    /** What the allocator never writes: blocks in use, the inode and the watched sectors. */
    ghost predicate Safe(c: Word)
      reads this`outside, vol
    {
      vol.IsLive(c) || c == self || c in outside
    }

    lemma SafeFromAllocator()
      requires Ready()
      ensures forall c | Safe(c) :: !vol.Owns(Key(vol.dev, c))
    {
      hide Coherent, View, Look, NameOf, S.Sound;
      forall c | Safe(c)
        ensures !vol.Owns(Key(vol.dev, c))
      {
        if vol.IsLive(c) {
          vol.LiveRange(c);
        }
      }
    }

    /** The allocator's sectors and those in `but` aside, the stores agree. */
    ghost predicate Steady(v: Store, v': Store, but: set<Word>)
    {
      forall c: Word | c !in but && !vol.Owns(Key(vol.dev, c)) :: At(v', vol.dev, c) == At(v, vol.dev, c)
    }

    lemma SteadyPut(v: Store, v': Store, but: set<Word>, b: Word, x: Block)
      requires Steady(v, v', but)
      ensures Steady(v, v'[Key(vol.dev, b) := x], but + {b})
    {
    }

    /** A block from the allocator: no safe sector changes. */
    method Allocate() returns (ok: bool, b: Word)
      requires Ready()
      modifies vol, vol.cache, vol.cache.slots, vol.cache.device
      ensures vol.Mounted() && old(vol.live) <= vol.live && vol.cache.Troubles() >= old(vol.cache.Troubles())
      ensures Steady(old(V()), V(), {}) && forall c | old(Safe(c)) :: At(V(), vol.dev, c) == At(old(V()), vol.dev, c)
      ensures ok ==> vol.Valid() && vol.IsLive(b) && !old(vol.IsLive(b))
      ensures !ok ==> vol.cache.Troubles() > old(vol.cache.Troubles())
    {
      hide Coherent, View, Look, MapsIn, Framed, S.Sound, S.Choose, S.GetUnread, S.Harmless;
      SafeFromAllocator();
      var r := vol.Get();
      if !r.Got? {
        return false, 0;
      }
      return true, r.block;
    }

    /** A block from the allocator that the file does not use yet. */
    method Fresh() returns (ok: bool, b: Word)
      requires Ready() && AllLive(l) && (l.data != [] ==> Chained(V(), vol.dev, l))
      modifies vol, vol.cache, vol.cache.slots, vol.cache.device
      ensures Framed()
      ensures ok ==> Ready() && AllLive(l) && vol.IsLive(b) && !Mentions(l, b) && b !in outside
      ensures ok ==> b != 0 && b != BLOCK_FREE && b != self && !vol.Owns(Key(vol.dev, b))
      ensures ok ==> Steady(old(V()), V(), {}) && old(vol.live) <= vol.live && Spare(old(vol.live), b)
      ensures ok ==> forall c | Mentions(l, c) :: At(V(), vol.dev, c) == At(old(V()), vol.dev, c)
      ensures ok && l.data != [] ==> Chained(V(), vol.dev, l)
      ensures !ok ==> Troubled()
    {
      hide Coherent, View, Look, NameOf, S.Sound, Distinct, MapsStored, Steady;
      ok, b := Allocate();
      if !ok {
        return;
      }
      vol.LiveRange(b);
      assert forall c | Mentions(l, c) :: old(Safe(c));
      if l.data != [] {
        KeepChained(old(V()), V(), vol.dev, l);
      }
    }

    /** block_write of a sector of this file: its inode, or a block in use that is not watched. */
    method Put(b: Word, data: Block) returns (ok: bool)
      requires Ready() && (if b == self then NameOf(data) == name else vol.IsLive(b) && b !in outside)
      modifies vol.cache, vol.cache.slots, vol.cache.device
      ensures Ready() && V() == if ok then old(V())[Key(vol.dev, b) := data] else old(V())
      ensures !ok ==> Troubled()
    {
      hide Coherent, View, NameOf, S.Sound, MapsIn;
      if b != self {
        vol.LiveRange(b);
      }
      ok := vol.WriteBlock(b, data);
    }

    /** The inode as it is written back: its name, its map and its size, and whatever else it holds. */
    method Image() returns (inode: Block)
      requires IsName(name)
      ensures NameOf(inode) == name && NextOf(inode) == next && SizeOf(inode) == size % TWO_64
    {
      hide NameOf, NextOf, SizeOf, NewInode, WithNext, WithSize;
      var fields: Block := *;
      NewInodeNamed(fields, name);
      var linked := WithNext(NewInode(fields, name), next);
      WithNextOf(NewInode(fields, name), next);
      WithSizeOf(linked, size);
      return WithSize(linked, size);
    }

    /** block_read of a block in use. */
    method Fetch(b: Word) returns (ok: bool, data: Block)
      requires Ready() && vol.IsLive(b)
      modifies vol.cache, vol.cache.slots, vol.cache.device
      ensures Ready() && V() == old(V()) && (ok ==> data == At(V(), vol.dev, b))
      ensures !ok ==> Troubled()
    {
      hide Coherent, View, S.Sound, MapsIn;
      vol.LiveRange(b);
      ok, data := vol.ReadBlock(b);
    }

    /** The file's first block: the map. */
    method Take(m: Word)
      requires Ready() && l == Layout([], []) && m !in outside
      modifies this`next, this`l
      ensures Ready() && next == m && l == Layout([m], [])
    {
      hide Coherent, View, S.Sound;
      next, l := m, Layout([m], []);
    }

    /** A fresh block, zeroed. */
    method FreshZero() returns (ok: bool, b: Word)
      requires Stored()
      modifies vol, vol.cache, vol.cache.slots, vol.cache.device
      ensures Framed()
      ensures ok ==> Stored() && vol.IsLive(b) && !Mentions(l, b) && b != 0 && b !in outside
      ensures ok ==> At(V(), vol.dev, b) == ZeroBlock() && Blocks() == old(Blocks())
      ensures !ok ==> Troubled()
    {
      hide Coherent, View, S.Sound, S.Choose, Distinct, MapsStored, Troubled;
      ok, b := Fresh();
      if !ok {
        return;
      }
      ghost var v := V();
      ok := Put(b, ZeroBlock());
      KeepChained(v, V(), vol.dev, l);
      assert Blocks() == old(Blocks());
    }

    /** Writes map block m of the chain. */
    method WriteMap(b: Word, bmap: BlockMap, ghost m: nat) returns (ok: bool)
      requires Stored() && m < |l.chain| && b == l.chain[m]
      modifies vol.cache, vol.cache.slots, vol.cache.device
      ensures Framed()
      ensures ok ==> Ready() && V() == old(V())[Key(vol.dev, b) := EncodeMap(bmap)]
      ensures !ok ==> Troubled()
    {
      hide Coherent, View, NameOf, EncodeMap, S.Sound, Chained;
      assert Mentions(l, b);
      ok := Put(b, EncodeMap(bmap));
    }

    /** file_add_one_data_block: a zeroed data block in the first empty entry. */
    method AddData(p: Place) returns (ok: bool, p': Place)
      requires Stored() && |l.data| < BMAP_BLOCKS * |l.chain|
      requires p.current == l.chain[|l.data| / BMAP_BLOCKS] && p.iblock == |l.data| % BMAP_BLOCKS
      requires p.bmap == MapOf(l, |l.data| / BMAP_BLOCKS)
      modifies this`l, vol, vol.cache, vol.cache.slots, vol.cache.device
      ensures Framed()
      ensures ok ==> Stored() && Standing(p', |l.data| - 1)
      ensures ok ==> |l.data| == |old(l.data)| + 1 && old(l.data) <= l.data && l.chain == old(l.chain)
      ensures ok ==> Blocks() == old(Blocks()) + [ZeroBlock()]
      ensures !ok ==> Troubled()
    {
      hide Coherent, View, Look, S.Sound, Chained, BlocksOf, MapOf, EncodeMap, Framed, Troubled;
      var b;
      p' := p;
      ok, b := FreshZero();
      if !ok {
        return;
      }
      ChainFacts();
      StoredFramed();
      p' := p.(start := b, bmap := p.bmap.(blocks := p.bmap.blocks[p.iblock := b]));
      LinkData(V(), vol.dev, l, b, p'.bmap);
      ok := WriteMap(p.current, p'.bmap, |l.data| / BMAP_BLOCKS);
      if !ok {
        return;
      }
      ListLast(b);
    }

    /** The map that lists b as the file's last data block has been written. */
    method ListLast(b: Word)
      requires Ready() && AllLive(l) && vol.IsLive(b) && b !in outside && l.chain != [] && next == l.chain[0]
      requires Chained(V(), vol.dev, l.(data := l.data + [b]))
      modifies this`l
      ensures Stored() && Framed() && l == old(l).(data := old(l.data) + [b])
    {
      hide Coherent, View, Look, NameOf, S.Sound, Chained, Allocator.Valid;
      l := l.(data := l.data + [b]);
    }

    /** file_add_one_bmap_block: an empty map linked behind the last one. */
    method AddMap(p: Place) returns (ok: bool, p': Place)
      requires Stored() && |l.data| == BMAP_BLOCKS * |l.chain|
      requires p.current == l.chain[|l.chain| - 1] && p.bmap == MapOf(l, |l.chain| - 1)
      modifies this`l, vol, vol.cache, vol.cache.slots, vol.cache.device
      ensures Framed()
      ensures ok ==> Stored() && |l.chain| == |old(l.chain)| + 1 && l.data == old(l.data)
      ensures ok ==> p' == p.(bmap := MapOf(l, |l.chain| - 2)) && p'.bmap.next == l.chain[|l.chain| - 1]
      ensures ok ==> Blocks() == old(Blocks())
      ensures !ok ==> Troubled()
    {
      hide Coherent, View, S.Sound, Distinct, MapsStored, MapOf, Troubled;
      var b;
      p' := p;
      ok, b := FreshZero();
      if !ok {
        return;
      }
      p' := p.(bmap := p.bmap.(next := b));
      LinkMap(V(), vol.dev, l, b, p'.bmap);
      ok := WriteMap(p.current, p'.bmap, |l.chain| - 1);
      if !ok {
        return;
      }
      l := l.(chain := l.chain + [b]);
    }

    /** Reads the map block number k of the chain. */
    method ReadMap(b: Word, ghost k: nat) returns (ok: bool, bmap: BlockMap)
      requires Stored() && k < |l.chain| && b == l.chain[k]
      modifies vol.cache, vol.cache.slots, vol.cache.device
      ensures Stored() && V() == old(V())
      ensures ok ==> bmap == MapOf(l, k)
      ensures !ok ==> Troubled()
    {
      hide Coherent, View, S.Sound, Distinct, MapsStored;
      assert vol.IsLive(b);
      var data;
      ok, data := Fetch(b);
      bmap := DecodeMap(data);
      StoredMap(V(), vol.dev, l, k);
    }

    method ReadData(b: Word, ghost n: nat) returns (ok: bool, data: Block)
      requires Stored() && n < |l.data| && b == l.data[n]
      modifies vol.cache, vol.cache.slots, vol.cache.device
      ensures Stored() && V() == old(V())
      ensures ok ==> data == Blocks()[n]
      ensures !ok ==> Troubled()
    {
      hide Coherent, View, S.Sound, Distinct, MapsStored;
      assert vol.IsLive(b);
      ok, data := Fetch(b);
    }

    method WriteData(b: Word, data: Block, ghost n: nat) returns (ok: bool)
      requires Stored() && n < |l.data| && b == l.data[n]
      modifies vol.cache, vol.cache.slots, vol.cache.device
      ensures Stored()
      ensures Blocks() == if ok then old(Blocks())[n := data] else old(Blocks())
      ensures !ok ==> Troubled()
    {
      hide Coherent, View, S.Sound, MapsStored;
      assert Mentions(l, b);
      vol.LiveRange(b);
      ok := Put(b, data);
      KeepChained(old(V()), V(), vol.dev, l);
      assert Blocks() == if ok then old(Blocks())[n := data] else old(Blocks());
    }

    /** The step to the next data block once a sector is done, growing the file at its end. */
    method NextBlock(p: Place, ghost n: nat) returns (ok: bool, p': Place)
      requires Stored() && Standing(p, n)
      modifies this`l, vol, vol.cache, vol.cache.slots, vol.cache.device
      ensures Framed()
      ensures ok ==> Stored() && Standing(p', n + 1)
      ensures ok ==> old(l.data) <= l.data && |l.data| == (if |old(l.data)| == n + 1 then n + 2 else |old(l.data)|)
      ensures ok ==> Blocks() == old(Blocks()) + (if |old(l.data)| == n + 1 then [ZeroBlock()] else [])
      ensures !ok ==> Troubled()
    {
      hide Coherent, View, Stored, Framed, BlocksOf, MapOf, Troubled;
      ChainFacts();
      StoredFramed();
      NextEntry(n);
      ok, p' := true, p.(iblock := p.iblock + 1);
      if p'.iblock == BMAP_BLOCKS {
        ok, p' := NextMap(p, n);
        if !ok {
          return;
        }
      }
      ok, p' := Enter(p', n + 1);
    }

    /** Entry n, in a map that has been reached: its block, which is added first if there is none. */
    method Enter(p: Place, ghost n: nat) returns (ok: bool, p': Place)
      requires Stored() && 0 < n <= |l.data| && n / BMAP_BLOCKS < |l.chain|
      requires p.current == l.chain[n / BMAP_BLOCKS] && p.iblock == n % BMAP_BLOCKS && p.bmap == MapOf(l, n / BMAP_BLOCKS)
      modifies this`l, vol, vol.cache, vol.cache.slots, vol.cache.device
      ensures Framed()
      ensures ok ==> Stored() && Standing(p', n)
      ensures ok ==> old(l.data) <= l.data && |l.data| == (if |old(l.data)| == n then n + 1 else |old(l.data)|)
      ensures ok ==> Blocks() == old(Blocks()) + (if |old(l.data)| == n then [ZeroBlock()] else [])
      ensures !ok ==> Troubled()
    {
      hide Coherent, View, Stored, Framed, BlocksOf, MapOf, Troubled;
      ChainFacts();
      StoredFramed();
      ok, p' := true, p.(start := p.bmap.blocks[p.iblock]);
      MapEntry(l, n / BMAP_BLOCKS, n % BMAP_BLOCKS);
      if p'.start == INODE_NULL {
        ok, p' := AddData(p');
      }
    }

    lemma NextEntry(n: nat)
      ensures n % BMAP_BLOCKS + 1 < BMAP_BLOCKS ==> (n + 1) / BMAP_BLOCKS == n / BMAP_BLOCKS && (n + 1) % BMAP_BLOCKS == n % BMAP_BLOCKS + 1
      ensures n % BMAP_BLOCKS + 1 == BMAP_BLOCKS ==> (n + 1) / BMAP_BLOCKS == n / BMAP_BLOCKS + 1 && (n + 1) % BMAP_BLOCKS == 0
    {
    }

    lemma MapEntry(l: Layout, k: nat, j: nat)
      requires j < BMAP_BLOCKS
      ensures MapOf(l, k).blocks[j] == EntryOf(l, BMAP_BLOCKS * k + j)
    {
    }

    /** The first entry of the next map, which is linked first if there is none. */
    method NextMap(p: Place, ghost n: nat) returns (ok: bool, p': Place)
      requires Stored() && Standing(p, n) && p.iblock + 1 == BMAP_BLOCKS
      modifies this`l, vol, vol.cache, vol.cache.slots, vol.cache.device
      ensures Framed()
      ensures ok ==> Stored() && l.data == old(l.data) && Blocks() == old(Blocks()) && n / BMAP_BLOCKS + 1 < |l.chain|
      ensures ok ==> var k := n / BMAP_BLOCKS + 1; p' == Place(p.start, l.chain[k], 0, MapOf(l, k))
      ensures !ok ==> Troubled()
    {
      hide Coherent, View, Stored, Framed, BlocksOf, Troubled;
      ChainFacts();
      ok, p' := true, p.(iblock := 0);
      if p.bmap.next == INODE_NULL {
        ok, p' := AddMap(p');
        if !ok {
          return;
        }
      }
      var bmap;
      ok, bmap := ReadMap(p'.bmap.next, n / BMAP_BLOCKS + 1);
      StoredFramed();
      p' := p'.(current := p'.bmap.next, bmap := bmap);
    }

    // ------------------------------------------------------------ file_read_write

    ghost predicate CursorUsable()
      reads this`current, this`iblock
    {
      current != INODE_NULL && iblock != INODE_NOPOS
    }

    /** The saved cursor, when usable, is the place of byte `pos - shift`. */
    ghost predicate CursorOk()
      reads this`current, this`iblock, this`parent, this`pos, this`shift, this`extent, this`l
    {
      CursorUsable() ==>
        && shift <= pos && shift % DEV_BLOCK_SIZE == 0 && pos - shift <= extent
        && var n := (pos - shift) / DEV_BLOCK_SIZE;
           && n < |l.data| && n / BMAP_BLOCKS < |l.chain|
           && current == l.data[n] && parent == l.chain[n / BMAP_BLOCKS] && iblock == n % BMAP_BLOCKS
    }

    /** A file with no map yet, or a chain with a data block for every byte it holds and the one behind them. */
    ghost predicate Valid()
      reads this, vol, vol.cache, vol.cache.slots, vol.cache.device
    {
      && Ready() && CursorOk() && extent <= size && OnDisk()
      && (if next == INODE_NULL then l == Layout([], []) && size == extent == 0 && current == INODE_NULL
          else Stored() && extent < DEV_BLOCK_SIZE * |l.data|)
    }

    /** As long as no scan has missed its position: the file holds `size` bytes and the cursor stands at `pos`. */
    ghost predicate Healthy()
      reads this, vol, vol.cache, vol.cache.slots, vol.cache.device
    {
      Valid() && extent == size && shift == 0
    }

    /** The bytes of the file. */
    ghost function Bytes(): (s: seq<Byte>)
      reads this, vol, vol.cache, vol.cache.slots, vol.cache.device
      requires Valid()
      ensures |s| == extent
    {
      Content(Blocks(), extent)
    }

    /** The branch of file_read_write that walks the chain from its head. */
    ghost predicate Scans(p: nat)
      reads this`next, this`pos, this`current, this`iblock
    {
      next != INODE_NULL && !(pos == 0 && current == INODE_NULL) && !(pos == p && CursorUsable())
    }

    /** The byte at which a transfer to p really starts. */
    ghost function Start(p: nat): (q: nat)
      reads this`next, this`pos, this`current, this`iblock, this`shift
      ensures q <= p
    {
      if Scans(p) then Landing(p)
      else if next != INODE_NULL && pos == p && CursorUsable() && shift <= p then p - shift
      else p
    }

    /** A transfer to p starts at a byte that the file has or is about to have. */
    ghost predicate Reachable(p: nat)
      reads this`next, this`pos, this`current, this`iblock, this`shift, this`extent, this`l
    {
      Start(p) <= extent && (Scans(p) ==> p < DEV_BLOCK_SIZE * |l.data|)
    }

    /** In a healthy file every position up to the end is. */
    lemma HealthyReaches(p: nat)
      requires Healthy() && p <= size
      ensures Reachable(p)
    {
      hide Coherent, View, Stored, Ready, Landing;
    }

    /** The bytes after a write to p. */
    ghost function Written(p: nat, buf: seq<Byte>): (s: seq<Byte>)
      reads this, vol, vol.cache, vol.cache.slots, vol.cache.device
      requires Valid() && Start(p) <= extent
    {
      Splice(Bytes(), Start(p), buf)
    }

    /** First use, first half: an empty map block, recorded in the inode and read back. */
    method BeginMap() returns (ok: bool, bmap: BlockMap)
      requires Ready() && next == INODE_NULL && l == Layout([], [])
      modifies this`next, this`l, vol, vol.cache, vol.cache.slots, vol.cache.device
      ensures Framed()
      ensures ok ==> Ready() && next != INODE_NULL && l == Layout([next], []) && vol.IsLive(next)
      ensures ok ==> bmap == NullMap() && Steady(old(V()), V(), {self, next}) && old(vol.live) <= vol.live
      ensures !ok ==> Troubled()
    {
      hide Coherent, View, Look, Framed, NullMap, DecodeMap, ZeroBlock, Steady;
      bmap := NullMap();
      var m;
      ok, m := Fresh();
      if !ok {
        return;
      }
      Take(m);
      var inode := Image();
      SteadyPut(old(V()), V(), {}, self, inode);
      ok := Put(self, inode);
      if !ok {
        return;
      }
      ghost var v := V();
      SteadyPut(old(V()), v, {} + {self}, m, ZeroBlock());
      ok := Put(m, ZeroBlock());
      if !ok {
        return;
      }
      assert {} + {self} + {m} == {self, m};
      LookUpdated(v, Key(vol.dev, m), ZeroBlock(), Key(vol.dev, m));
      var image;
      ok, image := Fetch(m);
      if !ok {
        return;
      }
      DecodeZero();
      bmap := DecodeMap(image);
    }

    /** First use, second half: one data block, whose bytes are whatever the disk held. */
    method BeginData(bmap: BlockMap) returns (ok: bool, p: Place)
      requires Ready() && next != INODE_NULL && l == Layout([next], []) && vol.IsLive(next) && bmap == NullMap()
      modifies this`l, vol, vol.cache, vol.cache.slots, vol.cache.device
      ensures Framed()
      ensures ok ==> Stored() && |l.data| == 1 && Standing(p, 0) && NotCleared(old(V()), old(vol.live), V(), l.data[0])
      ensures !ok ==> Troubled()
    {
      hide Coherent, View, Look, Framed, MapOf, EncodeMap, DecodeMap, Chained, Steady, At, Troubled;
      var b;
      p := Place(0, 0, 0, bmap);
      ok, b := Fresh();
      if !ok {
        return;
      }
      var map0 := bmap.(blocks := bmap.blocks[0 := b]);
      NotWatched();
      ghost var v := V();
      ok := Put(next, EncodeMap(map0));
      if !ok {
        return;
      }
      Updated(old(V()), v, next, EncodeMap(map0), b);
      DecodeEncodeMap(map0);
      ListFirst(b);
      FirstBlock(V(), vol.dev, next, b);
      FirstMap(next, b);
      p := Place(b, next, 0, map0);
    }

    /** First use: a map block and one data block. */
    method Begin() returns (ok: bool, p: Place)
      requires Ready() && next == INODE_NULL && l == Layout([], [])
      modifies this`next, this`l, vol, vol.cache, vol.cache.slots, vol.cache.device
      ensures Framed()
      ensures ok ==> Stored() && next != INODE_NULL && |l.data| == 1 && Standing(p, 0) && Unused(old(V()), old(vol.live), Blocks())
      ensures !ok ==> Troubled()
    {
      hide Coherent, View, Look, Framed, Ready, Chained, Steady, NotCleared, Standing, NullMap, Unused, Troubled;
      var bmap;
      p := Place(0, 0, 0, NullMap());
      ok, bmap := BeginMap();
      if !ok {
        return;
      }
      ghost var middle, live := V(), vol.live;
      ok, p := BeginData(bmap);
      if ok {
        FirstUnused(old(V()), old(vol.live), middle, live, V(), l.data[0]);
        assert l.data == [l.data[0]];
      }
    }

    /** A data block that was not in use. */
    ghost predicate Spare(live: set<nat>, b: Word)
    {
      vol.first <= b < vol.first + S.MAP_BITS * (vol.mapEnd - vol.mapStart) && b - vol.first !in live
    }

    /** One sector as the disk held it in a block that was not in use. */
    ghost predicate Unused(v: Store, live: set<nat>, c: seq<Block>)
    {
      exists b: Word | Spare(live, b) :: c == [At(v, vol.dev, b)]
    }

    /** Block b, which was not in use, is in v' as it was in v. */
    ghost predicate NotCleared(v: Store, live: set<nat>, v': Store, b: Word)
      reads this`next
    {
      Spare(live, b) && b != self && b != next && !vol.Owns(Key(vol.dev, b)) && At(v', vol.dev, b) == At(v, vol.dev, b)
    }

    lemma FirstUnused(v: Store, live: set<nat>, v1: Store, live1: set<nat>, v2: Store, b: Word)
      requires Steady(v, v1, {self, next}) && live <= live1 && NotCleared(v1, live1, v2, b)
      ensures Unused(v, live, BlocksOf(v2, vol.dev, [b]))
    {
    }

    lemma Updated(v: Store, v1: Store, m: Word, x: Block, b: Word)
      requires Steady(v, v1, {}) && b != m && !vol.Owns(Key(vol.dev, b))
      ensures var v2 := v1[Key(vol.dev, m) := x]; At(v2, vol.dev, m) == x && At(v2, vol.dev, b) == At(v, vol.dev, b)
    {
    }

    lemma NotWatched()
      requires Ready() && l == Layout([next], [])
      ensures next !in outside
    {
      hide Coherent, View, S.Sound;
      assert Mentions(l, next);
    }

    lemma FirstMap(m: Word, b: Word)
      ensures MapOf(Layout([m], [b]), 0) == NullMap().(blocks := NullMap().blocks[0 := b])
    {
      assert MapOf(Layout([m], [b]), 0).blocks == NullMap().blocks[0 := b];
    }

    /** The file's first data block. */
    method ListFirst(b: Word)
      requires Ready() && l == Layout([next], []) && b !in outside
      modifies this`l
      ensures Ready() && l == Layout([next], [b])
    {
      hide Coherent, View, S.Sound;
      assert Mentions(l, next);
      l := Layout([next], [b]);
    }

    /** The four ways file_read_write finds the data block to start in. */
    method Locate(p: nat) returns (ok: bool, at: Place)
      requires Valid() && Reachable(p)
      requires pos == 0 && current == INODE_NULL ==> p == 0
      modifies this`next, this`l, vol, vol.cache, vol.cache.slots, vol.cache.device
      ensures Framed()
      ensures ok ==> Stored() && next != INODE_NULL && Standing(at, old(Start(p)) / DEV_BLOCK_SIZE) && 0 < |l.data|
      ensures old(next) != INODE_NULL ==> l == old(l) && next == old(next) && Blocks() == old(Blocks())
      ensures ok && old(next) == INODE_NULL ==> Unused(old(V()), old(vol.live), Blocks())
      ensures !ok ==> Troubled()
    {
      hide Coherent, View, S.Sound, S.Choose, Distinct, MapsStored, Unused, Troubled;
      if next == INODE_NULL {
        ok, at := Begin();
      } else if pos == 0 && current == INODE_NULL {
        var bmap;
        ok, bmap := ReadMap(next, 0);
        at := Place(bmap.blocks[0], next, 0, bmap);
        assert ok ==> at.start == EntryOf(l, 0);
      } else if pos == p && current != INODE_NULL && iblock != INODE_NOPOS {
        var bmap;
        ok, bmap := ReadMap(parent, (p - shift) / DEV_BLOCK_SIZE / BMAP_BLOCKS);
        at := Place(current, parent, iblock, bmap);
      } else {
        ok, at := Scan(p);
      }
    }

    /** The scan branch: follows `next` pointers for the precomputed number of maps. */
    method Scan(p: nat) returns (ok: bool, at: Place)
      requires Stored() && p < DEV_BLOCK_SIZE * |l.data|
      modifies vol.cache, vol.cache.slots, vol.cache.device
      ensures Stored() && V() == old(V())
      ensures ok ==> Standing(at, Landing(p) / DEV_BLOCK_SIZE)
      ensures !ok ==> Troubled()
    {
      hide Coherent, View, S.Sound, S.Choose, Distinct, MapsStored, Troubled;
      ScanLands(p);
      var iter, e := ScanMaps(p), ScanEntry(p);
      var i, cur, bmap := 0, INODE_NULL, NullMap().(next := next);
      while i < iter
        invariant 0 <= i <= iter <= |l.chain| && Stored() && V() == old(V())
        invariant i == 0 ==> bmap.next == l.chain[0]
        invariant i > 0 ==> cur == l.chain[i - 1] && bmap == MapOf(l, i - 1)
      {
        cur := bmap.next;
        ok, bmap := ReadMap(cur, i);
        if !ok {
          return false, Place(0, 0, 0, bmap);
        }
        i := i + 1;
      }
      ok, at := true, Place(bmap.blocks[e], cur, e, bmap);
      assert at.start == EntryOf(l, BMAP_BLOCKS * (iter - 1) + e);
    }

    /** The end of a sector: store it if it may have changed, move to the next block and read that. */
    method Cross(at: Place, dptr: Block, store: bool, ghost n: nat) returns (ok: bool, at': Place, dptr': Block)
      requires Stored() && Standing(at, n)
      modifies this`l, vol, vol.cache, vol.cache.slots, vol.cache.device
      ensures Framed()
      ensures ok ==> Stored() && Standing(at', n + 1) && old(l.data) <= l.data
      ensures ok ==> |l.data| == (if |old(l.data)| == n + 1 then n + 2 else |old(l.data)|)
      ensures ok ==> Blocks() == (if store then old(Blocks())[n := dptr] else old(Blocks()))
                                 + (if |old(l.data)| == n + 1 then [ZeroBlock()] else [])
      ensures ok ==> dptr' == Blocks()[n + 1]
      ensures !ok ==> Troubled()
    {
      hide Coherent, View, Stored, Framed, BlocksOf, Troubled;
      at', dptr' := at, dptr;
      if store {
        ok := WriteData(at.start, dptr, n);
        StoredFramed();
        if !ok {
          return;
        }
      }
      ok, at' := NextBlock(at, n);
      if !ok {
        return;
      }
      ok, dptr' := ReadData(at'.start, n + 1);
      StoredFramed();
    }

    /** One byte of the transfer loop: `count` bytes are done and `byte` is the offset in the sector. */
    method Step(x: Byte, at: Place, dptr: Block, reading: bool, dirty: bool, count: nat, byte: nat,
                ghost base: seq<Block>, ghost q: nat, ghost out: seq<Byte>)
      returns (ok: bool, at': Place, dptr': Block, dirty': bool, ghost base': seq<Block>)
      requires Stored() && Standing(at, (q + count) / DEV_BLOCK_SIZE)
      requires Flow(Blocks(), base, q, out, dptr, reading, dirty, size)
      requires count == |out| && byte == (q + count) % DEV_BLOCK_SIZE && Moves(x, dptr, byte, reading, count, size)
      modifies this`l, vol, vol.cache, vol.cache.slots, vol.cache.device
      ensures Framed()
      ensures ok ==> Stored() && Standing(at', (q + count + 1) / DEV_BLOCK_SIZE)
      ensures ok ==> Flow(Blocks(), base', q, out + [x], dptr', reading, dirty', size) && Extended(base, base')
      ensures ok ==> (q + count + 1) / DEV_BLOCK_SIZE < |l.data|
      ensures ok ==> |l.data| == |old(l.data)| || |l.data| == (q + count + 1) / DEV_BLOCK_SIZE + 1
      ensures !ok ==> Troubled()
    {
      hide Coherent, View, Stored, Framed, BlocksOf, MapOf, Flow, ZeroBlock, Troubled;
      StoredFramed();
      SectorStep(q + count);
      ghost var n, c := (q + count) / DEV_BLOCK_SIZE, Blocks();
      ok, at', dptr', base' := true, at, dptr[byte := x], base;
      dirty' := dirty || !reading;
      if byte + 1 < DEV_BLOCK_SIZE {
        FlowByte(c, base, q, out, dptr, reading, dirty, size, x);
      } else {
        ok, at', dptr' := Cross(at, dptr', !reading || count + 1 >= size, n);
        if !ok {
          return;
        }
        dirty' := false;
        ghost var grown := if n + 1 == |c| then [ZeroBlock()] else [];
        FlowCross(c, base, q, out, dptr, reading, dirty, size, x, grown, Blocks());
        base' := base + grown;
      }
    }

    lemma SectorStep(p: nat)
      ensures p / DEV_BLOCK_SIZE <= (p + 1) / DEV_BLOCK_SIZE
      ensures (p % DEV_BLOCK_SIZE + 1) % DEV_BLOCK_SIZE == (p + 1) % DEV_BLOCK_SIZE
      ensures p % DEV_BLOCK_SIZE + 1 < DEV_BLOCK_SIZE ==> (p + 1) / DEV_BLOCK_SIZE == p / DEV_BLOCK_SIZE && (p + 1) % DEV_BLOCK_SIZE != 0
      ensures p % DEV_BLOCK_SIZE + 1 == DEV_BLOCK_SIZE ==> (p + 1) / DEV_BLOCK_SIZE == p / DEV_BLOCK_SIZE + 1
    {
    }

    /** The byte loop of file_read_write. */
    method Loop(at0: Place, dptr0: Block, byte0: nat, length: nat, buf: seq<Byte>, reading: bool, ghost q: nat, ghost base0: seq<Block>)
      returns (ok: bool, out: seq<Byte>, at: Place, dptr: Block, dirty: bool, ghost base: seq<Block>)
      requires Stored() && Standing(at0, q / DEV_BLOCK_SIZE) && byte0 == q % DEV_BLOCK_SIZE
      requires Flow(Blocks(), base0, q, [], dptr0, reading, false, size)
      requires !reading ==> |buf| == length
      modifies this`l, vol, vol.cache, vol.cache.slots, vol.cache.device
      ensures Framed()
      ensures ok ==> Stored() && Standing(at, (q + length) / DEV_BLOCK_SIZE) && |out| == length
      ensures ok ==> Flow(Blocks(), base, q, out, dptr, reading, dirty, size) && Extended(base0, base)
      ensures ok ==> |l.data| == |old(l.data)| || |l.data| == (q + length) / DEV_BLOCK_SIZE + 1
      ensures ok && !reading ==> out == buf
      ensures !ok ==> Troubled()
    {
      hide Coherent, View, Stored, Framed, Blocks, Flow, Standing, Extended, Troubled;
      ExtendedMore(base0, base0, base0);
      ok, at, dptr, dirty, out, base := true, at0, dptr0, false, [], base0;
      var i, byte := 0, byte0;
      while i < length
        invariant 0 <= i <= length && |out| == i && byte == (q + i) % DEV_BLOCK_SIZE && ok
        invariant Stored() && Standing(at, (q + i) / DEV_BLOCK_SIZE)
        invariant Flow(Blocks(), base, q, out, dptr, reading, dirty, size)
        invariant Extended(base0, base)
        invariant |l.data| == |old(l.data)| || |l.data| == (q + i) / DEV_BLOCK_SIZE + 1
        invariant !reading ==> out == buf[..i]
      {
        var x := if !reading then buf[i] else if i >= size then ZERO_BYTE else dptr[byte];
        ghost var before := base;
        ok, at, dptr, dirty, base := Step(x, at, dptr, reading, dirty, i, byte, base, q, out);
        if !ok {
          return;
        }
        ExtendedMore(base0, before, base);
        SectorStep(q + i);
        assert !reading ==> buf[..i + 1] == buf[..i] + [x];
        out := out + [x];
        i := i + 1;
        byte := (byte + 1) % DEV_BLOCK_SIZE;
      }
      StoredFramed();
    }

    lemma StandingFacts(p: Place, n: nat)
      requires Standing(p, n)
      ensures n < |l.data| == |Blocks()| && p.start == l.data[n]
    {
      hide MapOf;
    }

    lemma ExtendedMore(a: seq<Block>, b: seq<Block>, c: seq<Block>)
      ensures Extended(a, a) && (Extended(a, b) && Extended(b, c) ==> Extended(a, c))
    {
    }

    /** Everything between locating the first sector and updating the inode. */
    method Transfer(at0: Place, byte0: nat, length: nat, buf: seq<Byte>, reading: bool, ghost q: nat)
      returns (ok: bool, out: seq<Byte>, at: Place, ghost base: seq<Block>)
      requires Stored() && Standing(at0, q / DEV_BLOCK_SIZE) && byte0 == q % DEV_BLOCK_SIZE
      requires !reading ==> |buf| == length
      modifies this`l, vol, vol.cache, vol.cache.slots, vol.cache.device
      ensures Framed()
      ensures ok ==> Stored() && Standing(at, (q + length) / DEV_BLOCK_SIZE) && |out| == length
      ensures ok ==> |base| == |l.data| && Extended(old(Blocks()), base) && (q + length) / DEV_BLOCK_SIZE < |l.data|
      ensures ok ==> |l.data| == |old(l.data)| || |l.data| == (q + length) / DEV_BLOCK_SIZE + 1
      ensures ok && !reading ==> Overlaid(Blocks(), base, q, buf)
      ensures ok && reading ==> Taken(base, q, out, size) && Cleared(Blocks(), base, q + size, DEV_BLOCK_SIZE * ((q + length) / DEV_BLOCK_SIZE))
      ensures !ok ==> Troubled()
    {
      hide Coherent, View, Stored, Framed, BlocksOf, Flow, Overlaid, Taken, Cleared, Extended, Standing, Troubled, Allocator.Valid, Allocator.Mounted, CursorUsable;
      at, out, base := at0, [], Blocks();
      var dptr, dirty;
      StandingFacts(at, q / DEV_BLOCK_SIZE);
      ok, dptr := ReadData(at.start, q / DEV_BLOCK_SIZE);
      StoredFramed();
      if !ok {
        return;
      }
      FlowStart(base, q, reading, size);
      ok, out, at, dptr, dirty, base := Loop(at, dptr, byte0, length, buf, reading, q, base);
      if !ok {
        return;
      }
      StandingFacts(at, (q + length) / DEV_BLOCK_SIZE);
      ok := Flush(at, dptr, reading, dirty, base, q, out);
      StoredFramed();
    }

    /** The final partial sector, stored only if a write left it in the buffer. */
    method Flush(at: Place, dptr: Block, reading: bool, dirty: bool, ghost base: seq<Block>, ghost q: nat, ghost out: seq<Byte>)
      returns (ok: bool)
      requires Stored() && Standing(at, (q + |out|) / DEV_BLOCK_SIZE)
      requires Flow(Blocks(), base, q, out, dptr, reading, dirty, size)
      modifies vol.cache, vol.cache.slots, vol.cache.device
      ensures Stored() && |base| == |l.data|
      ensures ok && !reading ==> Overlaid(Blocks(), base, q, out)
      ensures ok && reading ==> Taken(base, q, out, size) && Cleared(Blocks(), base, q + size, DEV_BLOCK_SIZE * ((q + |out|) / DEV_BLOCK_SIZE))
      ensures !ok ==> Troubled()
    {
      hide Coherent, View, S.Sound, Chained, AllLive, Flow, Overlaid, Taken, Cleared, MapOf, Troubled;
      FlowEnd(Blocks(), base, q, out, dptr, reading, dirty, size);
      ok := true;
      if dirty {
        ok := WriteData(at.start, dptr, (q + |out|) / DEV_BLOCK_SIZE);
      }
    }

    /** Writing the inode sector moves no byte of the file. */
    method SaveInode() returns (ok: bool)
      requires Ready() && AllLive(l) && (l.data == [] || Chained(V(), vol.dev, l))
      modifies vol.cache, vol.cache.slots, vol.cache.device
      ensures Ready() && (l.data == [] || Chained(V(), vol.dev, l)) && Blocks() == old(Blocks())
      ensures (ok || old(OnDisk()) ==> OnDisk()) && (!ok ==> Troubled())
    {
      hide Coherent, View, S.Sound, Distinct, MapsStored, NameOf, NextOf, SizeOf, Framed;
      var inode := Image();
      ghost var v := V();
      ok := Put(self, inode);
      LookUpdated(v, Key(vol.dev, self), inode, Key(vol.dev, self));
      forall b | Mentions(l, b)
        ensures At(V(), vol.dev, b) == At(old(V()), vol.dev, b)
      {
        vol.LiveRange(b);
      }
      if l.data != [] {
        KeepChained(old(V()), V(), vol.dev, l);
      }
      assert Blocks() == old(Blocks());
    }

    /** file_read_write up to the inode update: the bytes have moved and `at` stands behind them. */
    method Move(p: nat, length: nat, buf: seq<Byte>, reading: bool) returns (ok: bool, out: seq<Byte>, at: Place, ghost base: seq<Block>)
      requires Valid() && Reachable(p) && length > 0 && (!reading ==> |buf| == length)
      requires pos == 0 && current == INODE_NULL ==> p == 0
      modifies this`next, this`l, vol, vol.cache, vol.cache.slots, vol.cache.device
      ensures Framed()
      ensures ok ==> Stored() && Standing(at, (old(Start(p)) + length) / DEV_BLOCK_SIZE)
      ensures ok ==> extent < DEV_BLOCK_SIZE * |l.data|
      ensures ok && !reading ==> Shows(Blocks(), old(Written(p, buf)))
      ensures ok && reading ==> Shows(Blocks(), old(Bytes())) && |out| == length && Returns(out, old(Bytes()), old(Start(p)), old(size))
      ensures ok && reading ==> Fetched(Blocks(), old(Start(p)), out, old(size), base) && BaseOf(old(next), old(Blocks()), old(V()), old(vol.live), base)
      ensures !ok ==> Troubled()
    {
      hide Coherent, View, MapOf, Ready, Landing, Overlaid, Taken, Cleared, Extended, Content, Splice, Standing, CursorOk, Stored, BlocksOf, Framed, Unused, OnDisk, Troubled;
      ghost var q, sectors := Start(p), Blocks();
      StartBelow(p);
      out, base := [], [];
      ok, at := Locate(p);
      if !ok {
        return;
      }
      ghost var located := Blocks();
      ok, out, at, base := Transfer(at, p % DEV_BLOCK_SIZE, length, buf, reading, q);
      if !ok {
        return;
      }
      StartsWith(sectors, located, base);
      if !reading {
        OverlaySplices(Blocks(), base, sectors, extent, q, buf);
      } else {
        BytesRead(Blocks(), base, sectors, extent, size, q, DEV_BLOCK_SIZE * ((q + length) / DEV_BLOCK_SIZE), out);
      }
    }

    lemma StartsWith(a: seq<Block>, b: seq<Block>, c: seq<Block>)
      ensures (a == [] || a == b) && Extended(b, c) ==> a <= c
    {
    }

    /**
     A read at byte q has returned out: base is what the sectors held, grown to its end, and those it
     has passed are zero behind `size` bytes of the read.
     */
    ghost predicate Fetched(c: seq<Block>, q: nat, out: seq<Byte>, size: nat, base: seq<Block>)
    {
      Taken(base, q, out, size) && Cleared(c, base, q + size, DEV_BLOCK_SIZE * ((q + |out|) / DEV_BLOCK_SIZE))
    }

    /** The sectors c after a gap behind byte q has been read: they held base, and only the first of the reads may have cleared bytes. */
    ghost predicate Crossed(c: seq<Block>, base: seq<Block>, q: nat, size: nat, gap: nat)
    {
      Cleared(c, base, q + size, DEV_BLOCK_SIZE * ((q + Min(gap, DEV_BLOCK_SIZE)) / DEV_BLOCK_SIZE))
    }

    /** The sectors that the last read of a kread sees, after the gap if there is one. */
    ghost predicate SeenBy(next: Word, sectors: seq<Block>, v: Store, live: set<nat>, q: nat, size: nat, gap: nat, base: seq<Block>)
    {
      if gap == 0 then BaseOf(next, sectors, v, live, base)
      else exists held, c :: BaseOf(next, sectors, v, live, held) && Crossed(c, held, q, size, gap) && Extended(c, base)
    }

    /** A later read of the gap only appends sectors. */
    lemma CrossedOn(next: Word, sectors: seq<Block>, v: Store, live: set<nat>, c: seq<Block>, held: seq<Block>, c': seq<Block>, base: seq<Block>,
                    q: nat, size: nat, gap: nat, n: nat)
      requires BaseOf(next, sectors, v, live, held) && Crossed(c, held, q, size, gap) && gap >= DEV_BLOCK_SIZE
      requires Extended(c, base) && n <= DEV_BLOCK_SIZE
      requires Cleared(c', base, q + gap + (size + gap), DEV_BLOCK_SIZE * ((q + gap + n) / DEV_BLOCK_SIZE))
      ensures var held' := held + c'[|held|..]; |held| <= |c'| && BaseOf(next, sectors, v, live, held') && Crossed(c', held', q, size, gap + n)
    {
      hide Unused, Overlay;
      NothingCleared(c', base, q + gap + (size + gap), DEV_BLOCK_SIZE * ((q + gap + n) / DEV_BLOCK_SIZE));
      var held' := held + c'[|held|..];
      assert Extended(held, held');
      ClearedLonger(c, held, c', held', q + size, DEV_BLOCK_SIZE * ((q + DEV_BLOCK_SIZE) / DEV_BLOCK_SIZE));
      if next != INODE_NULL {
        ExtendedMore(sectors, held, held');
      } else {
        var first :| Unused(v, live, first) && Extended(first, held);
        ExtendedMore(first, held, held');
      }
    }

    /** Where the sectors that a read sees come from: the file's, or the first one from the disk as it was, then zeros. */
    ghost predicate BaseOf(next: Word, sectors: seq<Block>, v: Store, live: set<nat>, base: seq<Block>)
    {
      if next != INODE_NULL then Extended(sectors, base) else exists c :: Unused(v, live, c) && Extended(c, base)
    }

    /** A call begins. */
    method Note()
      requires Valid()
      modifies this`mark
      ensures Valid() && mark == vol.cache.Troubles() && Bytes() == old(Bytes())
    {
      hide Coherent, View, Chained, Content, Look, NameOf, NextOf, SizeOf, Allocator.Valid, Allocator.Mounted;
      mark := vol.cache.Troubles();
    }

    /** file_read_write. */
    method ReadWrite(p: nat, length: nat, buf: seq<Byte>, reading: bool) returns (ok: bool, out: seq<Byte>, ghost base: seq<Block>)
      requires Valid() && Reachable(p) && (!reading ==> |buf| == length)
      requires pos == 0 && current == INODE_NULL ==> p == 0
      modifies this, vol, vol.cache, vol.cache.slots, vol.cache.device
      ensures Framed() && outside == old(outside)
      ensures length == 0 ==> ok && out == [] && Valid() && Bytes() == old(Bytes())
      ensures length == 0 ==> Blocks() == old(Blocks()) && next == old(next) && pos == old(pos) && size == old(size) && extent == old(extent) && shift == old(shift)
      ensures ok && length > 0 ==> Valid() && next != INODE_NULL && CursorUsable()
      ensures ok && length > 0 ==> pos == p + length && size == Max(old(size), p + length)
      ensures ok && length > 0 ==> shift == p - old(Start(p)) && extent == Max(old(extent), old(Start(p)) + length)
      ensures ok && !reading ==> Bytes() == old(Written(p, buf))
      ensures ok && reading ==> old(Bytes()) <= Bytes() && |out| == length && Returns(out, old(Bytes()), old(Start(p)), old(size))
      ensures ok && reading && length > 0 ==> Fetched(Blocks(), old(Start(p)), out, old(size), base) && BaseOf(old(next), old(Blocks()), old(V()), old(vol.live), base)
      ensures vol.cache.Troubles() >= old(vol.cache.Troubles()) && (!ok ==> vol.cache.Troubles() > old(vol.cache.Troubles()))
    {
      hide Coherent, View, MapOf, Ready, Landing, Content, CursorOk, Stored, BlocksOf, Framed, Fetched, BaseOf, OnDisk;
      out, base := [], [];
      if length == 0 {
        ReadyFramed();
        return true, [], [];
      }
      Note();
      StartBelow(p);
      ghost var q, sectors := Start(p), Blocks();
      var at;
      ok, out, at, base := Move(p, length, buf, reading);
      FramedMark();
      if !ok {
        return;
      }
      ghost var was := old(Bytes());
      ok := Settle(p, length, at, q);
      FramedMark();
      ShownFirst(Blocks(), was, extent);
    }

    lemma ShownFirst(c: seq<Block>, s: seq<Byte>, n: nat)
      requires |s| <= n <= DEV_BLOCK_SIZE * |c|
      ensures Shows(c, s) ==> s <= Content(c, n)
    {
    }

    /** The inode after a transfer: position, size and cursor. */
    method Settle(p: nat, length: nat, at: Place, ghost q: nat) returns (ok: bool)
      requires Stored() && extent <= size && extent < DEV_BLOCK_SIZE * |l.data| && length > 0
      requires q <= p && (p - q) % DEV_BLOCK_SIZE == 0 && Standing(at, (q + length) / DEV_BLOCK_SIZE)
      modifies this`pos, this`size, this`current, this`parent, this`iblock, this`extent, this`shift, vol.cache, vol.cache.slots, vol.cache.device
      ensures Stored() && Blocks() == old(Blocks()) && pos == p + length && size == Max(old(size), p + length) && Framed()
      ensures (ok ==> Valid()) && next != INODE_NULL && CursorUsable() && shift == p - q && extent == Max(old(extent), q + length)
      ensures !ok ==> Troubled()
    {
      hide Coherent, View, Stored, Ready, Framed, BlocksOf, CursorOk, Standing, OnDisk, Troubled;
      pos := p + length;
      if size < p + length {
        size := p + length;
      }
      current, parent, iblock := at.start, at.current, at.iblock;
      extent, shift := Max(extent, q + length), p - q;
      NotNull();
      CursorAt(at);
      ok := SaveStored();
      ReadyFramed();
    }

    lemma CursorAt(at: Place)
      requires shift <= pos && shift % DEV_BLOCK_SIZE == 0 && pos - shift <= extent && Standing(at, (pos - shift) / DEV_BLOCK_SIZE)
      requires current == at.start && parent == at.current && iblock == at.iblock
      requires forall n | 0 <= n < |l.data| :: l.data[n] != INODE_NULL
      ensures CursorOk() && CursorUsable() && pos - shift < DEV_BLOCK_SIZE * |l.data|
    {
      hide MapOf;
    }

    /** The same where there is a chain. */
    method SaveStored() returns (ok: bool)
      requires Stored()
      modifies vol.cache, vol.cache.slots, vol.cache.device
      ensures Stored() && Ready() && Blocks() == old(Blocks())
      ensures (ok || old(OnDisk()) ==> OnDisk()) && (!ok ==> Troubled())
    {
      hide Coherent, View, Chained, Framed, BlocksOf, OnDisk, Troubled;
      ChainFacts();
      ok := SaveInode();
    }

    lemma StartBelow(p: nat)
      requires CursorOk()
      ensures Start(p) <= p && Start(p) % DEV_BLOCK_SIZE == p % DEV_BLOCK_SIZE && (p - Start(p)) % DEV_BLOCK_SIZE == 0
    {
      hide Landing, Standing, CursorUsable;
      ScanLands(p);
      SectorsApart(p, Start(p));
      SectorsApart(p, p - shift);
    }

    lemma SectorsApart(p: nat, q: int)
      requires q <= p
      ensures (p - q) % DEV_BLOCK_SIZE == 0 <==> q % DEV_BLOCK_SIZE == p % DEV_BLOCK_SIZE
    {
    }

    lemma NotNull()
      requires Stored()
      ensures next != INODE_NULL && forall n | 0 <= n < |l.data| :: l.data[n] != INODE_NULL
    {
    }

    // ------------------------------------------------------------ the calls on top

    /** kread: first reads its way to a position past the end, then reads. */
    method Read(count: nat) returns (ok: bool, out: seq<Byte>, ghost base: seq<Block>)
      requires Valid() && Reachable(Min(pos, size))
      modifies this, vol, vol.cache, vol.cache.slots, vol.cache.device
      ensures Framed() && outside == old(outside)
      ensures ok ==> Valid() && old(Bytes()) <= Bytes() && pos == old(pos) + count && size == Max(old(size), old(pos) + count)
      ensures ok ==> var p := old(Min(pos, size)); var q := old(Start(p)) + (old(pos) - p);
                && extent == Max(old(extent), q + count)
                && |out| == count && Returns(out, old(Bytes()), q, old(Max(pos, size)))
                && (old(Healthy()) && (old(pos) > old(size) || count > 0) ==> (Healthy() <==> old(Start(p)) == p))
                && (old(pos) > old(size) || count > 0 ==>
                      && Fetched(Blocks(), q, out, old(Max(pos, size)), base)
                      && SeenBy(old(next), old(Blocks()), old(V()), old(vol.live), old(Start(p)), old(size), old(pos) - p, base))
      ensures vol.cache.Troubles() >= old(vol.cache.Troubles()) && (!ok ==> vol.cache.Troubles() > old(vol.cache.Troubles()))
    {
      hide Coherent, View, MapOf, Ready, Landing, Content, Splice, Stored, CursorOk, BlocksOf, Framed, Fetched, BaseOf, SeenBy, Crossed, Extended, OnDisk, BlockCache.Troubles;
      ok, base := true, [];
      ghost var held, c, q, gap := [], [], Start(pos), if pos > size then pos - size else 0;
      if pos > size {
        ok, held := CrossGap();
        if !ok {
          return false, [], [];
        }
        c, q := Blocks(), Start(pos);
      }
      ghost var next1, v, live := next, V(), vol.live;
      ok, out, base := ReadWrite(pos, count, [], true);
      if ok && (gap > 0 || count > 0) {
        if count == 0 {
          base := Blocks();
          FetchedNothing(q, size);
        }
        Seen(old(next), old(Blocks()), old(V()), old(vol.live), old(Start(Min(pos, size))), old(size), gap, held, c, next1, v, live, count, base);
      }
    }

    lemma Seen(next0: Word, sectors: seq<Block>, v0: Store, live0: set<nat>, q: nat, size: nat, gap: nat, held: seq<Block>, c: seq<Block>,
               next1: Word, v: Store, live: set<nat>, count: nat, base: seq<Block>)
      requires gap > 0 ==> next1 != INODE_NULL && BaseOf(next0, sectors, v0, live0, held) && Crossed(c, held, q, size, gap)
      requires if count == 0 then base == c else BaseOf(next1, if gap == 0 then sectors else c, v, live, base)
      requires gap == 0 ==> count > 0 && next1 == next0 && v == v0 && live == live0
      ensures SeenBy(next0, sectors, v0, live0, q, size, gap, base)
    {
      hide Unused, Crossed;
    }

    lemma FetchedNothing(q: nat, size: nat)
      ensures Fetched(Blocks(), q, [], size, Blocks())
    {
      hide BlocksOf;
      var c, to := Blocks(), DEV_BLOCK_SIZE * (q / DEV_BLOCK_SIZE);
      assert forall k | 0 <= k < |c| :: c[k] == Overlay(c[k], k, q + size, Zeros(0));
    }

    /**
     kread of an empty file: zeros come back, but below one sector the file then holds what its first
     block, which is never cleared, held before.
     */
    method ReadEmpty(count: nat) returns (ok: bool, out: seq<Byte>)
      requires Valid() && next == INODE_NULL && pos == 0 && count > 0
      modifies this, vol, vol.cache, vol.cache.slots, vol.cache.device
      ensures Framed() && outside == old(outside)
      ensures ok ==> Valid() && size == extent == count && out == Zeros(count)
      ensures ok ==> if count < DEV_BLOCK_SIZE then Stale(Bytes(), old(V()), old(vol.live)) else Bytes() == Zeros(count)
      ensures vol.cache.Troubles() >= old(vol.cache.Troubles()) && (!ok ==> vol.cache.Troubles() > old(vol.cache.Troubles()))
    {
      hide Coherent, View, MapOf, Ready, Landing, Content, Splice, Stored, CursorOk, BlocksOf, Framed, Taken, Cleared, BaseOf, Zeros, OnDisk;
      ghost var base;
      ok, out, base := ReadWrite(pos, count, [], true);
      if ok {
        Leaked(old(V()), old(vol.live), base, count);
        EmptyRead(Blocks(), base, count, out);
      }
    }

    /** Bytes of a block that was not in use. */
    ghost predicate Stale(s: seq<Byte>, v: Store, live: set<nat>)
    {
      exists b: Word | Spare(live, b) :: s <= At(v, vol.dev, b)
    }

    lemma Leaked(v: Store, live: set<nat>, base: seq<Block>, n: nat)
      requires BaseOf(INODE_NULL, [], v, live, base)
      ensures base != [] && forall k | 1 <= k < |base| :: base[k] == ZeroBlock()
      ensures n <= DEV_BLOCK_SIZE ==> Stale(Content(base, n), v, live)
    {
      var c :| Unused(v, live, c) && Extended(c, base);
      var b: Word :| Spare(live, b) && c == [At(v, vol.dev, b)];
      assert base[0] == c[0];
      assert n <= DEV_BLOCK_SIZE ==> Content(base, n) <= base[0];
    }

    /** The reads by which kread gets from the end of the file to the position. */
    method CrossGap() returns (ok: bool, ghost held: seq<Block>)
      requires Valid() && pos > size && Reachable(size)
      modifies this, vol, vol.cache, vol.cache.slots, vol.cache.device
      ensures Framed() && outside == old(outside)
      ensures ok ==> Valid() && pos == size == old(pos) && CursorUsable() && next != INODE_NULL && Reachable(pos)
      ensures ok ==> var gap := old(pos) - old(size);
                && shift == old(size) - old(Start(size)) && extent == Max(old(extent), old(Start(size)) + gap)
                && Start(pos) == old(Start(size)) + gap && old(Bytes()) <= Bytes()
                && BaseOf(old(next), old(Blocks()), old(V()), old(vol.live), held)
                && Crossed(Blocks(), held, old(Start(size)), old(size), gap)
      ensures vol.cache.Troubles() >= old(vol.cache.Troubles()) && (!ok ==> vol.cache.Troubles() > old(vol.cache.Troubles()))
    {
      hide Coherent, View, MapOf, Ready, Landing, Content, Stored, CursorOk, BlocksOf, Framed, BaseOf, Crossed, OnDisk, BlockCache.Troubles;
      ghost var was, start := Bytes(), Start(size);
      var iter, mod := (pos - size) / DEV_BLOCK_SIZE, (pos - size) % DEV_BLOCK_SIZE;
      ReadyFramed();
      var j := 0;
      ok, held := true, [];
      while j < iter
        invariant 0 <= j <= iter && ok && outside == old(outside) && pos != 0 && vol.cache.Troubles() >= old(vol.cache.Troubles())
        invariant j == 0 ==> pos == old(pos) && shift == old(shift) && extent == old(extent)
        invariant j == 0 ==> next == old(next) && Blocks() == old(Blocks()) && V() == old(V()) && vol.live == old(vol.live)
        invariant j > 0 ==> pos == size && Appended()
        invariant j > 0 ==> shift == old(size) - start && extent == Max(old(extent), start + DEV_BLOCK_SIZE * j)
        invariant Valid() && Framed() && Reachable(size) && size == old(size) + DEV_BLOCK_SIZE * j && Start(size) == start + DEV_BLOCK_SIZE * j
        invariant was <= Bytes()
        invariant j > 0 ==> BaseOf(old(next), old(Blocks()), old(V()), old(vol.live), held)
        invariant j > 0 ==> Crossed(Blocks(), held, start, old(size), DEV_BLOCK_SIZE * j)
      {
        ok, held := ReadOn(DEV_BLOCK_SIZE, held, old(next), old(Blocks()), old(V()), old(vol.live), start, old(size), DEV_BLOCK_SIZE * j);
        if !ok {
          return;
        }
        j := j + 1;
      }
      if mod != 0 {
        ok, held := ReadOn(mod, held, old(next), old(Blocks()), old(V()), old(vol.live), start, old(size), DEV_BLOCK_SIZE * j);
      }
    }

    /** One of those reads, n bytes at the end of the file, after gap bytes have been read. */
    method ReadOn(n: nat, ghost held0: seq<Block>, ghost next0: Word, ghost sectors: seq<Block>, ghost v: Store, ghost live: set<nat>,
                  ghost start: nat, ghost size0: nat, ghost gap: nat)
      returns (ok: bool, ghost held: seq<Block>)
      requires Valid() && pos != 0 && Reachable(size) && 0 < n <= DEV_BLOCK_SIZE && Start(size) == start + gap && size == size0 + gap
      requires if gap == 0 then next == next0 && Blocks() == sectors && V() == v && vol.live == live
               else gap >= DEV_BLOCK_SIZE && next != INODE_NULL && BaseOf(next0, sectors, v, live, held0) && Crossed(Blocks(), held0, start, size0, gap)
      modifies this, vol, vol.cache, vol.cache.slots, vol.cache.device
      ensures Framed() && outside == old(outside)
      ensures ok ==> Valid() && pos == size == old(size) + n && Appended() && Reachable(size)
      ensures ok ==> shift == old(size) - old(Start(size)) && extent == Max(old(extent), old(Start(size)) + n)
      ensures ok ==> Start(size) == old(Start(size)) + n && old(Bytes()) <= Bytes()
      ensures ok ==> BaseOf(next0, sectors, v, live, held) && Crossed(Blocks(), held, start, size0, gap + n)
      ensures vol.cache.Troubles() >= old(vol.cache.Troubles()) && (!ok ==> vol.cache.Troubles() > old(vol.cache.Troubles()))
    {
      hide Coherent, View, MapOf, Ready, Landing, Content, Stored, CursorOk, BlocksOf, Framed, Taken, Cleared, Extended, OnDisk;
      var out;
      ghost var c := Blocks();
      ok, out, held := ReadWrite(size, n, [], true);
      if ok && gap > 0 {
        CrossedOn(next0, sectors, v, live, c, held0, Blocks(), held, start, size0, gap, n);
        held := held0 + Blocks()[|held0|..];
      }
    }

    /** kwrite: fills the gap between the end of the file and the position with zeros, then writes. */
    method Write(buf: seq<Byte>) returns (ok: bool)
      requires Valid() && Reachable(if pos <= size then pos else size)
      modifies this, vol, vol.cache, vol.cache.slots, vol.cache.device
      ensures Framed() && outside == old(outside)
      ensures ok ==> Valid() && pos == old(pos) + |buf| && size == Max(old(size), old(pos) + |buf|)
      ensures ok ==> Bytes() == if old(pos) <= old(size) then Splice(old(Bytes()), old(Start(pos)), buf)
                                else Splice(old(Bytes()), old(Start(size)), Zeros(old(pos) - old(size)) + buf)
      ensures ok && old(Healthy()) && (old(pos) > old(size) || buf != []) ==>
                var p := if old(pos) <= old(size) then old(pos) else old(size);
                Healthy() <==> old(Start(p)) == p
      ensures vol.cache.Troubles() >= old(vol.cache.Troubles()) && (!ok ==> vol.cache.Troubles() > old(vol.cache.Troubles()))
    {
      hide Coherent, View, MapOf, Ready, Landing, Content, Stored, CursorOk, BlocksOf, Framed, Fetched, BaseOf, OnDisk, BlockCache.Troubles;
      ghost var was, start, gap := Bytes(), Start(if pos <= size then pos else size), if pos <= size then 0 else pos - size;
      ok := true;
      if pos > size {
        ok := FillGap();
        if !ok {
          return;
        }
        SpliceChain(was, start, Zeros(gap), buf);
      }
      var out;
      ghost var base;
      ok, out, base := ReadWrite(pos, |buf|, buf, false);
    }

    /** The two zero-writing steps of kwrite. */
    method FillGap() returns (ok: bool)
      requires Valid() && pos > size && Reachable(size)
      modifies this, vol, vol.cache, vol.cache.slots, vol.cache.device
      ensures Framed() && outside == old(outside)
      ensures ok ==> Valid() && pos == size == old(pos) && CursorUsable() && next != INODE_NULL && Reachable(pos)
      ensures ok ==> var gap := old(pos) - old(size);
                && shift == old(size) - old(Start(size)) && extent == Max(old(extent), old(Start(size)) + gap)
                && Start(pos) == old(Start(size)) + gap && Bytes() == Splice(old(Bytes()), old(Start(size)), Zeros(gap))
      ensures vol.cache.Troubles() >= old(vol.cache.Troubles()) && (!ok ==> vol.cache.Troubles() > old(vol.cache.Troubles()))
    {
      hide Coherent, View, MapOf, Ready, Landing, Content, Stored, CursorOk, BlocksOf, Framed, Splice, Zeros, OnDisk, BlockCache.Troubles;
      ghost var was, start := Bytes(), Start(size);
      var iter, mod := (pos - size) / DEV_BLOCK_SIZE, (pos - size) % DEV_BLOCK_SIZE;
      SpliceNothing(was, start);
      ReadyFramed();
      var j := 0;
      ok := true;
      while j < iter
        invariant 0 <= j <= iter && ok && outside == old(outside) && pos != 0 && vol.cache.Troubles() >= old(vol.cache.Troubles())
        invariant j == 0 ==> pos == old(pos) && shift == old(shift) && extent == old(extent)
        invariant j > 0 ==> pos == size && Appended()
        invariant j > 0 ==> shift == old(size) - start && extent == Max(old(extent), start + DEV_BLOCK_SIZE * j)
        invariant Valid() && Framed() && Reachable(size) && size == old(size) + DEV_BLOCK_SIZE * j && Start(size) == start + DEV_BLOCK_SIZE * j
        invariant Bytes() == Splice(was, start, Zeros(DEV_BLOCK_SIZE * j))
      {
        ok := AppendZeros(DEV_BLOCK_SIZE, was, start, DEV_BLOCK_SIZE * j);
        if !ok {
          return;
        }
        j := j + 1;
      }
      if mod != 0 {
        ok := AppendZeros(mod, was, start, DEV_BLOCK_SIZE * j);
      }
    }

    ghost predicate Appended()
      reads this
    {
      CursorUsable() && next != INODE_NULL && shift <= pos
    }

    method AppendZeros(n: nat, ghost was: seq<Byte>, ghost start: nat, ghost m: nat) returns (ok: bool)
      requires Valid() && pos != 0 && Reachable(size) && n > 0
      requires start <= |was| && Bytes() == Splice(was, start, Zeros(m)) && Start(size) == start + m
      modifies this, vol, vol.cache, vol.cache.slots, vol.cache.device
      ensures Framed() && outside == old(outside)
      ensures ok ==> Valid() && pos == size == old(size) + n && Appended() && Reachable(size)
      ensures ok ==> shift == old(size) - old(Start(size)) && extent == Max(old(extent), old(Start(size)) + n)
      ensures ok ==> Start(size) == old(Start(size)) + n && Bytes() == Splice(was, start, Zeros(m + n))
      ensures vol.cache.Troubles() >= old(vol.cache.Troubles()) && (!ok ==> vol.cache.Troubles() > old(vol.cache.Troubles()))
    {
      hide Coherent, View, MapOf, Ready, Landing, Content, Stored, CursorOk, BlocksOf, Framed, Fetched, BaseOf, OnDisk;
      var out;
      ghost var base;
      SpliceZeros(was, start, m, n);
      ok, out, base := ReadWrite(size, n, Zeros(n), false);
    }

    /** The inode's sector as it is on the disk. */
    method ReadInode() returns (ok: bool, inode: Block)
      requires Valid()
      modifies vol.cache, vol.cache.slots, vol.cache.device
      ensures Valid() && Bytes() == old(Bytes()) && (old(Healthy()) ==> Healthy()) && V() == old(V())
      ensures ok ==> inode == At(V(), vol.dev, self)
      ensures vol.cache.Troubles() >= old(vol.cache.Troubles()) && (!ok ==> vol.cache.Troubles() > old(vol.cache.Troubles()))
    {
      hide Coherent, View, Look, NameOf, NextOf, SizeOf, Chained, Content, S.Sound;
      ok, inode := vol.ReadBlock(self);
    }

    /** The new position is saved, and the cursor marked unusable. */
    method MoveTo(p: nat) returns (ok: bool)
      requires Valid()
      modifies this`pos, this`iblock, this`shift, vol.cache, vol.cache.slots, vol.cache.device
      ensures Framed() && pos == p && shift == 0 && iblock == INODE_NOPOS && Valid() && Bytes() == old(Bytes()) && (!ok ==> Troubled())
    {
      hide Coherent, View, Chained, MapOf, Content, BlocksOf, Framed, OnDisk, Look;
      pos, iblock, shift := p, INODE_NOPOS, 0;
      ok := SaveInode();
      ReadyFramed();
    }

    /** klseek: only the position moves, and the saved cursor is marked unusable. */
    method Seek(offset: int, whence: Whence) returns (ok: bool)
      requires Valid()
      modifies this, vol.cache, vol.cache.slots, vol.cache.device
      ensures outside == old(outside) && Framed() && (old(Healthy()) ==> Healthy())
      ensures Valid() && Bytes() == old(Bytes()) && iblock == INODE_NOPOS
      ensures pos == match whence
                     case Set => offset % TWO_64
                     case Cur => Min((old(pos) + offset) % TWO_64, SSIZE_MAX)
                     case End => (size + offset) % TWO_64
      ensures vol.cache.Troubles() >= old(vol.cache.Troubles()) && (!ok ==> vol.cache.Troubles() > old(vol.cache.Troubles()))
    {
      hide Coherent, View, Chained, MapOf, Content, BlocksOf, Framed, OnDisk, Ready, Stored, CursorOk;
      Note();
      var p: nat;
      match whence {
        case Set => p := offset % TWO_64;
        case Cur =>
          p := (pos + offset) % TWO_64;
          if p > SSIZE_MAX {
            p := SSIZE_MAX;
          }
        case End => p := (size + offset) % TWO_64;
      }
      ok := MoveTo(p);
      FramedMark();
    }

    /** The saved cursor and a scan from the start agree exactly where the scan is exact. */
    lemma CursorIsScan()
      requires Valid() && CursorUsable() && shift == 0
      ensures 0 < ScanMaps(pos) <= |l.chain| && iblock == ScanEntry(pos)
      ensures parent == l.chain[ScanMaps(pos) - 1] <==> pos == 0 || pos % MAP_BYTES != 0
      ensures current == MapOf(l, ScanMaps(pos) - 1).blocks[iblock] <==> pos == 0 || pos % MAP_BYTES != 0
    {
      hide Coherent, View, S.Sound, MapsStored, Ready, OnDisk, MapOf;
      ScanLands(pos);
      ScanExact(pos);
      MapEntry(l, ScanMaps(pos) - 1, iblock);
      var n, m := pos / DEV_BLOCK_SIZE, ScanMaps(pos) - 1;
      assert BMAP_BLOCKS * m + n % BMAP_BLOCKS == Landing(pos) / DEV_BLOCK_SIZE;
      assert m == n / BMAP_BLOCKS <==> pos == 0 || pos % MAP_BYTES != 0;
      assert MapOf(l, m).blocks[iblock] == l.data[BMAP_BLOCKS * m + iblock];
    }
  }
}
