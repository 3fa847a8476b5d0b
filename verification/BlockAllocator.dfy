/**
 The block allocators of fs/inode.c on top of the cache. The data-block and inode-block
 copies differ only in the region they manage, which is a parameter here.
 */
module BlockAllocator {
  import opened Bytes
  import opened CacheSpec
  import opened BlockCache
  import S = BitmapSpec

  /** NoSpace leaves INODE_NULL in *block, the errors leave INODE_NOPOS; all three return INODE_FAIL. */
  datatype Outcome = Got(block: Word) | NoSpace | ReadError | WriteError

  const INODE_NR_PASS := 2

  /** The map blocks of one device, as a caller of the cache sees them. */
  ghost function MapsIn(v: Store, dev: int, start: Word, n: nat): (r: seq<Block>)
    requires start + n <= BLOCK_FREE
    ensures |r| == n && forall i | 0 <= i < n :: r[i] == Look(v, Key(dev, start + i))
  {
    seq<Block>(n, i requires 0 <= i < n => Look(v, Key(dev, start + i)))
  }

  /** Sectors elsewhere do not matter to the maps. */
  lemma MapsKept(v: Store, v': Store, dev: int, start: Word, n: nat)
    requires start + n <= BLOCK_FREE
    requires forall b: Word | start <= b < start + n :: Look(v', Key(dev, b)) == Look(v, Key(dev, b))
    ensures MapsIn(v', dev, start, n) == MapsIn(v, dev, start, n)
  {
  }

  lemma MapsKeptByWrite(v: Store, dev: int, start: Word, n: nat, b: Word, data: Block)
    requires start + n <= BLOCK_FREE && (b < start || start + n <= b)
    ensures MapsIn(v[Key(dev, b) := data], dev, start, n) == MapsIn(v, dev, start, n)
  {
  }

  class Allocator {
    const cache: BlockCache
    const dev: int
    /** The master record, the map blocks [mapStart, mapEnd) and the first block they describe. */
    const blockStart: Word
    const mapStart: Word
    const mapEnd: Word
    const first: Word
    var ptr: Word
    var bit: nat
    var window: Block
    /** Positions handed out and not freed; position n is block first + n. */
    ghost var live: set<nat>

    /** The geometry that inode_create_fs lays out. */
    ghost predicate Geometry()
    {
      && blockStart < mapStart < mapEnd <= first
      && first + S.MAP_BITS * (mapEnd - mapStart) <= BLOCK_FREE
      && !cache.device.addressed && dev >= 0
    }

    ghost predicate Mounted()
      reads this, cache, cache.slots, cache.device
    {
      Geometry() && cache.Valid() && mapStart <= ptr < mapEnd && bit < S.MAP_BITS
    }

    ghost function State(): (a: S.Bitmap)
      requires Mounted()
      reads this, cache, cache.slots, cache.device
      ensures a.WellFormed() && |a.maps| == mapEnd - mapStart
    {
      S.Bitmap(MapsIn(cache.Store(), dev, mapStart, mapEnd - mapStart), ptr - mapStart, bit, window)
    }

    ghost predicate Valid()
      reads this, cache, cache.slots, cache.device
    {
      Mounted() && S.Sound(State(), live)
    }

    /** The window, stale or not, marks the live blocks of the map under the cursor. */
    ghost predicate Harmless()
      reads this, cache, cache.slots, cache.device
    {
      Mounted() && S.Harmless(State(), live)
    }

    ghost predicate IsLive(b: Word)
      reads this
    {
      b >= first && b - first in live
    }

    /** Sectors the allocator writes for itself. */
    ghost predicate Owns(k: Key)
    {
      k.dev == dev && (k.block == blockStart || mapStart <= k.block < mapEnd)
    }

    /** As inode_dev_open leaves it: the window loaded from the map block at the cursor. */
    constructor (cache: BlockCache, dev: int, blockStart: Word, mapStart: Word, mapEnd: Word, first: Word,
                 ptr: Word, bit: nat, window: Block, ghost live: set<nat>)
      requires blockStart < mapStart < mapEnd <= first && first + S.MAP_BITS * (mapEnd - mapStart) <= BLOCK_FREE
      requires !cache.device.addressed && cache.Valid() && dev >= 0
      requires mapStart <= ptr < mapEnd && bit < S.MAP_BITS && window == Look(cache.Store(), Key(dev, ptr))
      requires S.Sound(S.Bitmap(MapsIn(cache.Store(), dev, mapStart, mapEnd - mapStart), ptr - mapStart, bit, window), live)
      ensures Valid() && S.Synced(State()) && this.live == live && this.cache == cache && this.dev == dev
      ensures this.blockStart == blockStart && this.mapStart == mapStart && this.mapEnd == mapEnd && this.first == first
      ensures this.ptr == ptr && this.bit == bit && this.window == window
    {
      hide Coherent, View, Look, MapsIn, S.Sound;
      this.cache, this.dev, this.blockStart, this.mapStart, this.mapEnd, this.first :=
        cache, dev, blockStart, mapStart, mapEnd, first;
      this.ptr, this.bit, this.window, this.live := ptr, bit, window, live;
    }

    /** Loads map block p into the window. */
    method Load(p: Word) returns (ok: bool)
      requires Mounted() && mapStart <= p < mapEnd
      modifies this`ptr, this`window, cache, cache.slots, cache.device
      ensures Mounted() && cache.Store() == old(cache.Store()) && ptr == p
      ensures window == if ok then Look(cache.Store(), Key(dev, p)) else old(window)
      ensures cache.Troubles() >= old(cache.Troubles()) && (!ok ==> cache.Troubles() > old(cache.Troubles()))
      ensures cache.noSpace == old(cache.noSpace)
    {
      hide Coherent, View, Look, S.Sound;
      ptr := p;
      var r, data := cache.Read(dev, p);
      if r != Ok {
        return false;
      }
      window := data;
      return true;
    }

    /** Marks the bit at the cursor and writes the master record and the map block. */
    method Commit() returns (ok: bool)
      requires Mounted() && !BitGet(window, bit)
      modifies this`window, cache, cache.slots, cache.device
      ensures Mounted() && window == BitSet(old(window), bit, true)
      ensures forall k | k != Key(dev, blockStart) && k != Key(dev, ptr) :: Look(cache.Store(), k) == Look(old(cache.Store()), k)
      ensures Look(cache.Store(), Key(dev, ptr)) == if ok then window else Look(old(cache.Store()), Key(dev, ptr))
      ensures cache.Troubles() >= old(cache.Troubles()) && (!ok ==> cache.Troubles() > old(cache.Troubles()))
      ensures cache.noSpace == old(cache.noSpace)
    {
      hide Coherent, View, BitGet, BitSet, S.Sound;
      window := BitSet(window, bit, true);
      var master: Block := *;
      var r := cache.Write(dev, blockStart, master);
      if r != Ok {
        return false;
      }
      r := cache.Write(dev, ptr, window);
      return r == Ok;
    }

    /** inode_get_data_block / inode_get_inode_block. */
    method Get() returns (r: Outcome)
      requires Valid()
      modifies this, cache, cache.slots, cache.device
      ensures r.Got? ==> Valid() && S.Choose(old(State())).Found? && State() == S.GetDone(old(State()))
      ensures r.Got? ==> r.block == first + S.GetPosition(old(State())) && !old(IsLive(r.block))
      ensures r.Got? ==> live == old(live) + {r.block - first}
      ensures r.NoSpace? ==> Valid() && S.Choose(old(State())).Full? && State() == S.GetFull(old(State()))
      ensures r.WriteError? ==> Valid() && S.Choose(old(State())).Found? && State() == S.Mark(old(State()))
      ensures r.ReadError? ==> Mounted() && S.GetUnread(old(State()), State()) && (Valid() <==> Harmless())
      ensures !r.Got? ==> live == old(live)
      ensures Mounted() && forall k | !Owns(k) :: Look(cache.Store(), k) == Look(old(cache.Store()), k)
      ensures cache.noSpace == old(cache.noSpace) + if r.NoSpace? then 1 else 0
      ensures cache.Troubles() >= old(cache.Troubles()) && (!r.Got? ==> cache.Troubles() > old(cache.Troubles()))
    {
      hide Coherent, View, Look, BitGet, S.Scanning, S.Sound, S.Choose, S.NextClear, S.NextMap, BlockCache.Troubles;
      ghost var a := State();
      S.ScanStart(a);
      var pass := 0;
      while pass < INODE_NR_PASS
        invariant Mounted() && cache.Store() == old(cache.Store()) && live == old(live)
        invariant cache.Troubles() >= old(cache.Troubles()) && cache.noSpace == old(cache.noSpace)
        invariant pass <= INODE_NR_PASS && S.Scanning(a, State(), pass)
        decreases INODE_NR_PASS - pass, mapEnd - ptr, S.MAP_BITS - bit
      {
        ghost var s := State();
        if !BitGet(window, bit) {
          S.ScanFound(a, s, pass);
          r := Take(a);
          return;
        }
        if bit + 1 < S.MAP_BITS {
          S.ScanBit(a, s, pass);
          bit := bit + 1;
        } else {
          var ok;
          ok, pass := NextMap(a, pass);
          if !ok {
            S.GetUnreadExact(a, State(), live);
            return ReadError;
          }
        }
      }
      S.ScanDone(a, State());
      S.GetFullSound(a, live);
      CountNoSpace();
      return NoSpace;
    }

    /** The end of a map: the next one is loaded, or the first one on another pass. */
    method NextMap(ghost a: S.Bitmap, pass: nat) returns (ok: bool, pass': nat)
      requires Mounted() && S.Scanning(a, State(), pass) && pass < INODE_NR_PASS && BitGet(window, bit) && bit + 1 == S.MAP_BITS
      modifies this`bit, this`ptr, this`window, cache, cache.slots, cache.device
      ensures Mounted() && cache.Store() == old(cache.Store()) && cache.noSpace == old(cache.noSpace)
      ensures cache.Troubles() >= old(cache.Troubles()) && (!ok ==> cache.Troubles() > old(cache.Troubles()))
      ensures if ok then S.Scanning(a, State(), pass') else S.GetUnread(a, State())
      ensures pass' == pass + 1 || (pass' == pass && ptr > old(ptr))
    {
      hide Coherent, View, Look, BitGet, S.Scanning, S.NextClear, S.NextMap, BlockCache.Troubles;
      ghost var s := State();
      S.ScanMap(a, s, pass);
      ScanningMaps(a, s, pass);
      bit := 0;
      var wrap := ptr + 1 == mapEnd;
      ok := Load(if wrap then mapStart else ptr + 1);
      pass' := if wrap then pass + 1 else pass;
      if ok {
        assert State() == S.Bitmap(a.maps, ptr - mapStart, 0, a.maps[ptr - mapStart]);
      } else {
        assert S.GetUnreadAt(a, s, pass, State());
      }
    }

    lemma ScanningMaps(a: S.Bitmap, s: S.Bitmap, pass: nat)
      requires S.Scanning(a, s, pass)
      ensures s.maps == a.maps
    {
    }

    method CountNoSpace()
      requires Mounted()
      modifies cache`noSpace
      ensures Mounted() && cache.Store() == old(cache.Store()) && State() == old(State())
      ensures cache.noSpace == old(cache.noSpace) + 1 && cache.Troubles() == old(cache.Troubles()) + 1
    {
      hide Coherent, View, Look;
      cache.noSpace := cache.noSpace + 1;
    }

    /** The bit at the cursor is the one chosen from a: claim it. */
    method Take(ghost a: S.Bitmap) returns (r: Outcome)
      requires Mounted() && S.Sound(a, live) && State().maps == a.maps
      requires S.Choose(a) == S.Found(ptr - mapStart, bit, window)
      modifies this, cache, cache.slots, cache.device
      ensures Valid() && (r.Got? || r.WriteError?)
      ensures r.Got? ==> State() == S.GetDone(a) && r.block == first + S.GetPosition(a)
      ensures r.Got? ==> S.GetPosition(a) !in old(live) && live == old(live) + {S.GetPosition(a)}
      ensures r.WriteError? ==> State() == S.Mark(a) && live == old(live)
      ensures forall k | !Owns(k) :: Look(cache.Store(), k) == Look(old(cache.Store()), k)
      ensures cache.noSpace == old(cache.noSpace) && cache.Troubles() >= old(cache.Troubles())
      ensures r.WriteError? ==> cache.Troubles() > old(cache.Troubles())
    {
      hide Coherent, View, S.Sound, S.Choose, BlockCache.Troubles;
      S.GetSound(a, live);
      var ok := Commit();
      assert State().maps == if ok then a.maps[ptr - mapStart := window] else a.maps;
      if !ok {
        return WriteError;
      }
      live := live + {S.MAP_BITS * (ptr - mapStart) + bit};
      return Got(first + S.MAP_BITS * (ptr - mapStart) + bit);
    }

    /** inode_free_data_block / inode_free_inode_block. */
    method Free(block: Word) returns (ok: bool)
      requires Valid() && first <= block < first + S.MAP_BITS * (mapEnd - mapStart)
      modifies this, cache, cache.slots, cache.device
      ensures Mounted() && cache.Store() == old(cache.Store())
      ensures ok ==> Valid() && State() == S.FreeDone(old(State()), block - first) && live == old(live) - {block - first}
      ensures !ok ==> live == old(live) && S.FreeUnread(old(State()), block - first, State())
      ensures !ok ==> (Valid() <==> Harmless())
      ensures cache.Troubles() >= old(cache.Troubles()) && (!ok ==> cache.Troubles() > old(cache.Troubles()))
    {
      hide Coherent, View, Look, S.Sound;
      ghost var a := State();
      var n := block - first;
      var p := n / S.MAP_BITS + mapStart;
      var b := n % S.MAP_BITS;
      if p != ptr {
        bit := b;
        var loaded := Load(p);
        if !loaded {
          S.StaleExact(a, live, p - mapStart, b);
          assert State() == S.Stale(a, p - mapStart, b);
          return false;
        }
      } else if b != bit {
        bit := b;
      }
      S.FreeSound(a, live, n);
      live := live - {n};
      if BitGet(window, b) {
        window := BitSet(window, b, false);
      } else {
        BitSetSame(window, b);
      }
      assert State() == S.FreeDone(a, n);
      return true;
    }

    // ------------------------------------------------------------ block_read and block_write by file code

    /** A live block is a data block: never block 0, BLOCK_FREE, the master record or a map. */
    lemma LiveRange(b: Word)
      requires Valid() && IsLive(b)
      ensures 0 < first <= b < first + S.MAP_BITS * (mapEnd - mapStart) <= BLOCK_FREE && !Owns(Key(dev, b))
    {
    }

    method ReadBlock(b: Word) returns (ok: bool, data: Block)
      requires Valid() && b != BLOCK_FREE
      modifies cache, cache.slots, cache.device
      ensures Valid() && cache.Store() == old(cache.Store())
      ensures ok ==> data == Look(cache.Store(), Key(dev, b))
      ensures cache.Troubles() >= old(cache.Troubles()) && (!ok ==> cache.Troubles() > old(cache.Troubles()))
    {
      hide Coherent, View, S.Sound;
      var r;
      r, data := cache.Read(dev, b);
      assert State() == old(State());
      ok := r == Ok;
    }

    method WriteBlock(b: Word, data: Block) returns (ok: bool)
      requires Valid() && b != BLOCK_FREE && !Owns(Key(dev, b))
      modifies cache, cache.slots, cache.device
      ensures Valid()
      ensures cache.Store() == if ok then old(cache.Store())[Key(dev, b) := data] else old(cache.Store())
      ensures cache.Troubles() >= old(cache.Troubles()) && (!ok ==> cache.Troubles() > old(cache.Troubles()))
    {
      hide Coherent, View, S.Sound;
      var r := cache.Write(dev, b, data);
      assert State() == old(State());
      ok := r == Ok;
    }
  }
}
