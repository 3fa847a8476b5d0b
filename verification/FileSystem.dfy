/**
 Files and directories of one volume side by side: what a call on one of them can do to the
 others, whether it succeeds or fails.
 */
module FileSystem {
  import opened Bytes
  import opened CacheSpec
  import opened BlockCache
  import opened BlockAllocator
  import opened InodeSpec
  import opened FileSpec
  import opened FileIo
  import opened Volume
  import S = BitmapSpec
  import DS = DirSpec
  import D = Directory

  // ---------------------------------------------------------------- watching sectors

  ghost predicate Watched(f: OpenFile, v: Store, w: iset<Word>)
    reads f
  {
    f.outside == imap b | b in w :: At(v, f.vol.dev, b)
  }

  /** Makes w the watched sectors of f. */
  method Watch(f: OpenFile, ghost w: iset<Word>)
    requires f.Valid() && forall b | b in w :: f.Watchable(b) && !Mentions(f.l, b)
    modifies f`outside
    ensures f.Valid() && f.Bytes() == old(f.Bytes()) && Watched(f, f.V(), w) && (old(f.Healthy()) ==> f.Healthy())
    ensures forall p :: f.Start(p) == old(f.Start(p)) && (f.Reachable(p) <==> old(f.Reachable(p)))
  {
    hide Coherent, View, Chained, Content, Look, NameOf, NextOf, SizeOf, Allocator.Valid, Allocator.Mounted;
    f.outside := imap b | b in w :: At(f.V(), f.vol.dev, b);
  }

  /** Nothing is watched any more. */
  method Unwatch(f: OpenFile)
    modifies f`outside
    ensures f.outside == imap[] && (old(f.Valid()) ==> f.Valid() && f.Bytes() == old(f.Bytes())) && (old(f.Healthy()) ==> f.Healthy())
  {
    hide Coherent, View, Chained, Content, Look, NameOf, NextOf, SizeOf, Allocator.Valid, Allocator.Mounted;
    f.outside := imap[];
  }

  /** What kwrite leaves of the bytes. */
  ghost function AfterWrite(f: OpenFile, buf: seq<Byte>): seq<Byte>
    requires f.Valid() && f.Reachable(if f.pos <= f.size then f.pos else f.size)
    reads f, f.vol, f.vol.cache, f.vol.cache.slots, f.vol.cache.device
  {
    if f.pos <= f.size then Splice(f.Bytes(), f.Start(f.pos), buf)
    else Splice(f.Bytes(), f.Start(f.size), Zeros(f.pos - f.size) + buf)
  }

  /** A write during which the sectors w are watched. */
  method WriteWatching(f: OpenFile, buf: seq<Byte>, ghost w: iset<Word>) returns (ok: bool)
    requires f.Valid() && f.Reachable(if f.pos <= f.size then f.pos else f.size) && forall b | b in w :: f.Watchable(b) && !Mentions(f.l, b)
    modifies f, f.vol, f.vol.cache, f.vol.cache.slots, f.vol.cache.device
    ensures f.vol.Mounted() && NameOf(At(f.V(), f.vol.dev, f.self)) == f.name && f.outside == imap[]
    ensures forall b | b in w :: f.Watchable(b) && !Mentions(f.l, b) && At(f.V(), f.vol.dev, b) == At(old(f.V()), f.vol.dev, b)
    ensures ok ==> f.Valid() && f.Bytes() == old(AfterWrite(f, buf)) && f.pos == old(f.pos) + |buf|
    ensures f.vol.cache.Troubles() >= old(f.vol.cache.Troubles()) && (!ok ==> f.vol.cache.Troubles() > old(f.vol.cache.Troubles()))
  {
    hide Coherent, View, Look, NameOf, Content, Splice, OpenFile.OnDisk, OpenFile.Ready, OpenFile.Stored, OpenFile.CursorOk, OpenFile.Start, OpenFile.Reachable, Allocator.Mounted;
    ghost var v := f.V();
    Watch(f, w);
    ok := f.Write(buf);
    WatchedKept(f, v, w);
    Unwatch(f);
  }

  lemma WatchedKept(f: OpenFile, v: Store, w: iset<Word>)
    requires Watched(f, v, w) && f.Framed()
    ensures f.vol.Mounted() && NameOf(At(f.V(), f.vol.dev, f.self)) == f.name
    ensures forall b | b in w :: f.Watchable(b) && !Mentions(f.l, b) && At(f.V(), f.vol.dev, b) == At(v, f.vol.dev, b)
  {
    hide Coherent, View, Look, NameOf, Allocator.Mounted;
    assert forall b | b in w :: b in f.outside;
  }

  // ---------------------------------------------------------------- opening a file again

  /** kopen of the inode's sector: name, first map and size come from the disk, and the bytes are those the file had. */
  method Reopen(f: OpenFile) returns (ok: bool, g: OpenFile)
    requires f.Healthy() && f.size < TWO_64
    modifies f.vol.cache, f.vol.cache.slots, f.vol.cache.device
    ensures f.Healthy() && f.Bytes() == old(f.Bytes())
    ensures ok ==> fresh(g) && g.vol == f.vol && g.self == f.self && g.Healthy() && g.pos == 0 && g.Bytes() == f.Bytes()
    ensures f.vol.cache.Troubles() >= old(f.vol.cache.Troubles()) && (!ok ==> f.vol.cache.Troubles() > old(f.vol.cache.Troubles()))
  {
    hide Coherent, View, Look, NameOf, NextOf, SizeOf, Chained, OpenFile.Healthy, OpenFile.Valid, OpenFile.Bytes, BlockCache.Troubles;
    var inode;
    HealthyValid(f);
    ok, inode := f.ReadInode();
    g := new OpenFile(f.vol, f.self, NameOf(inode), NextOf(inode), SizeOf(inode), f.l);
    if ok {
      SameFile(f, g);
    }
  }

  lemma HealthyValid(f: OpenFile)
    requires f.Healthy()
    ensures f.Valid()
  {
  }

  lemma SameFile(f: OpenFile, g: OpenFile)
    requires f.Healthy() && f.size < TWO_64 && g.vol == f.vol && g.self == f.self && g.l == f.l
    requires var inode := At(f.V(), f.vol.dev, f.self); g.name == NameOf(inode) && g.next == NextOf(inode) && g.size == g.extent == SizeOf(inode)
    requires g.pos == 0 && g.current == INODE_NULL && g.shift == 0 && g.mark == 0 && g.outside == imap[]
    ensures g.Healthy() && g.Bytes() == f.Bytes()
  {
    hide Coherent, View, Look, NameOf, NextOf, SizeOf, Chained, Content, Allocator.Valid, Allocator.Mounted;
    ValidMounted(f.vol);
  }

  /** kopen of an inode that has just been created with size 0: an empty file. */
  method OpenNew(d: D.Directory, b: Word, name: Name, fields: Block) returns (f: OpenFile)
    requires d.vol.Valid() && d.vol.inodes.IsLive(b) && IsName(name) && SizeOf(fields) == 0
    requires d.vol.Sector(b) == NewInode(fields, name)
    ensures fresh(f) && f.vol == d.vol.data && f.self == b && f.name == name && f.Healthy() && f.Bytes() == [] && f.outside == imap[]
  {
    hide Coherent, View, Look, NameOf, NextOf, SizeOf, NewInode, S.Sound, Volume.Formatted;
    d.vol.LiveApart(b);
    d.vol.InodesBelow(b);
    NewInodeNamed(fields, name);
    NewInodeSize(fields, name);
    f := new OpenFile(d.vol.data, b, name, INODE_NULL, 0, Layout([], []));
  }

  // ---------------------------------------------------------------- what an empty file leaks

  const FULL_BYTE: Byte := [true, true, true, true, true, true, true, true]

  function FullBlock(): Block
  {
    seq<Byte>(DEV_BLOCK_SIZE, _ => FULL_BYTE)
  }

  /** A disk of one map whose data blocks, starting at 3, still hold something. */
  function UsedDisk(): Disk
  {
    map b: Word | 3 <= b < 3 + S.MAP_BITS :: Key(0, b) := FullBlock()
  }

  /** An empty file on that disk, none of whose blocks is in use. */
  method EmptyFile() returns (f: OpenFile)
    ensures fresh(f) && fresh(f.vol) && fresh(f.vol.cache) && fresh(f.vol.cache.slots) && fresh(f.vol.cache.device)
    ensures f.Valid() && f.next == INODE_NULL && f.pos == 0 && f.vol.live == {} && f.vol.dev == 0
    ensures forall b: Word | f.Spare({}, b) :: At(f.V(), 0, b) == FullBlock()
  {
    hide View, Coherent, NextOf, SizeOf, NameOf, FullBlock, ZeroBlock;
    var device := new Device(false);
    device.disk := UsedDisk();
    var cache := new BlockCache(device);
    assert Look(cache.Store(), Key(0, 2)) == ZeroBlock();
    var vol := new Allocator(cache, 0, 1, 2, 3, 3, 2, 0, ZeroBlock(), {});
    f := new OpenFile(vol, 0, [], INODE_NULL, 0, Layout([], []));
    assert At(f.V(), 0, 0) == ZeroBlock();
    ZeroInode();
  }

  lemma ZeroInode()
    ensures NextOf(ZeroBlock()) == 0 && SizeOf(ZeroBlock()) == 0 && NameOf(ZeroBlock()) == []
  {
    hide WordAt;
    DecodeZero();
    assert DecodeMap(ZeroBlock()).blocks[126] == WordAt(ZeroBlock(), 127);
    assert DecodeMap(ZeroBlock()).blocks[8] == WordAt(ZeroBlock(), 9) && DecodeMap(ZeroBlock()).blocks[9] == WordAt(ZeroBlock(), 10);
  }

  /** One byte is read from it as zero, and from then on the file holds another byte. */
  method ReadLeaks() returns (f: OpenFile, ok: bool, out: seq<Byte>)
    ensures ok ==> f.Valid() && f.size == 1 && out == [ZERO_BYTE] && f.Bytes() == [FULL_BYTE]
  {
    hide View, Coherent, OpenFile.Valid, UsedDisk;
    f := EmptyFile();
    ghost var v := f.V();
    ok, out := f.ReadEmpty(1);
  }

  // ---------------------------------------------------------------- two files

  /** Two files on one allocator that share neither their inode nor a block. */
  ghost predicate Separate(f: OpenFile, g: OpenFile)
    reads f, g
  {
    f.vol == g.vol && f.self != g.self && forall b | Mentions(g.l, b) :: !Mentions(f.l, b)
  }

  /** What g's validity says apart from the allocator: its chain and its name in v, and its fields. */
  ghost predicate Shape(g: OpenFile, v: Store)
    reads g
  {
    && g.Apart() && g.CursorOk() && g.extent <= g.size && g.outside == imap[] && IsName(g.name) && NameOf(At(v, g.vol.dev, g.self)) == g.name
    && NextOf(At(v, g.vol.dev, g.self)) == g.next && SizeOf(At(v, g.vol.dev, g.self)) == g.size % TWO_64
    && if g.next == INODE_NULL then g.l == Layout([], []) && g.size == g.extent == 0 && g.current == INODE_NULL
       else Chained(v, g.vol.dev, g.l) && g.next == g.l.chain[0] && g.extent < DEV_BLOCK_SIZE * |g.l.data|
  }

  ghost function PartsOf(g: OpenFile): iset<Word>
    reads g
  {
    iset b: Word | Mentions(g.l, b) || b == g.self
  }

  lemma ShapeOf(g: OpenFile)
    requires g.Valid() && g.outside == imap[]
    ensures Shape(g, g.V()) && g.mark <= g.vol.cache.Troubles() && forall b | Mentions(g.l, b) :: g.vol.IsLive(b)
  {
    hide Coherent, View, Look, NameOf, NextOf, SizeOf, Distinct, MapsStored, Allocator.Valid, Allocator.Mounted;
  }

  /** Stores that agree on g's sectors show the same file. */
  lemma KeepFile(g: OpenFile, v: Store)
    requires Shape(g, v) && g.mark <= g.vol.cache.Troubles() && forall b | Mentions(g.l, b) :: g.vol.IsLive(b)
    requires forall b | b in PartsOf(g) :: At(g.V(), g.vol.dev, b) == At(v, g.vol.dev, b)
    ensures g.Blocks() == BlocksOf(v, g.vol.dev, g.l.data) && (g.vol.Valid() ==> g.Valid())
  {
    hide Coherent, View, Look, NameOf, NextOf, SizeOf, Distinct, MapsStored, Allocator.Valid;
    assert g.self in PartsOf(g) && forall b | Mentions(g.l, b) :: b in PartsOf(g);
    if g.next != INODE_NULL {
      KeepChained(v, g.V(), g.vol.dev, g.l);
    }
    assert g.Blocks() == BlocksOf(v, g.vol.dev, g.l.data);
    ValidMounted(g.vol);
  }

  lemma ValidMounted(a: Allocator)
    ensures a.Valid() ==> a.Mounted()
  {
  }

  /** Of two separate files, a write to one leaves the bytes of the other alone. */
  method WriteBeside(f: OpenFile, g: OpenFile, buf: seq<Byte>) returns (ok: bool)
    requires f != g && Separate(f, g) && f.Valid() && g.Valid() && f.outside == g.outside == imap[]
    requires f.Reachable(if f.pos <= f.size then f.pos else f.size)
    modifies f, f.vol, f.vol.cache, f.vol.cache.slots, f.vol.cache.device
    ensures Separate(f, g) && g.Blocks() == old(g.Blocks()) && f.outside == imap[]
    ensures f.vol.Valid() ==> g.Valid() && g.Bytes() == old(g.Bytes())
    ensures ok ==> f.Valid() && g.Valid() && f.Bytes() == old(AfterWrite(f, buf)) && f.pos == old(f.pos) + |buf|
    ensures f.vol.cache.Troubles() >= old(f.vol.cache.Troubles()) && (!ok ==> f.vol.cache.Troubles() > old(f.vol.cache.Troubles()))
  {
    hide Coherent, View, Look, NameOf, NextOf, SizeOf, Content, Splice, Chained, OpenFile.OnDisk, OpenFile.Ready, OpenFile.Stored, OpenFile.CursorOk, OpenFile.Start, OpenFile.Reachable, Allocator.Mounted, Allocator.Valid;
    ghost var v := g.V();
    ShapeOf(g);
    CanWatch(f, g);
    ok := WriteWatching(f, buf, PartsOf(g));
    StillLive(f, g);
    KeepFile(g, v);
    if ok {
      ValidReady(f);
    }
  }

  lemma CanWatch(f: OpenFile, g: OpenFile)
    requires Separate(f, g) && f.Valid() && g.Valid()
    ensures forall b | b in PartsOf(g) :: f.Watchable(b) && !Mentions(f.l, b)
  {
    hide Coherent, View, Look, NameOf, Chained, Allocator.Valid, Allocator.Mounted;
    assert forall b | Mentions(f.l, b) :: f.vol.IsLive(b);
  }

  lemma StillLive(f: OpenFile, g: OpenFile)
    requires f.vol == g.vol && g.Apart() && forall b | b in PartsOf(g) :: f.Watchable(b) && !Mentions(f.l, b)
    requires forall b: Word | Mentions(g.l, b) :: b >= g.vol.first
    ensures forall b | Mentions(g.l, b) :: g.vol.IsLive(b) && !Mentions(f.l, b)
  {
    assert forall b | Mentions(g.l, b) :: b in PartsOf(g);
  }

  lemma ValidReady(f: OpenFile)
    requires f.Valid()
    ensures f.vol.Valid()
  {
    hide Coherent, View, Look, NameOf, Chained, Allocator.Valid, Allocator.Mounted;
  }

  // ---------------------------------------------------------------- a file and a directory

  /** A file and a directory of one volume: the directory may list the file, but they share no inode and no block. */
  ghost predicate Neighbours(f: OpenFile, d: D.Directory)
    reads f, d, d.vol.inodes
  {
    && f.vol == d.vol.data && f.self != d.self && d.vol.inodes.IsLive(f.self)
    && forall c | c in d.chain :: !Mentions(f.l, c)
  }

  /** The sectors of the inode allocator and of all inodes but the file's, and the directory's maps. */
  ghost function OthersOf(f: OpenFile, d: D.Directory): iset<Word>
    reads d, d.vol.inodes
  {
    iset b: Word | (d.vol.inodes.IsLive(b) && b != f.self) || d.vol.inodes.mapStart <= b < d.vol.inodes.mapEnd || b in d.chain
  }

  /** A write to a file, whatever comes of it, moves neither the inode allocator nor any lookup in a directory. */
  method WriteUnder(f: OpenFile, d: D.Directory, buf: seq<Byte>) returns (ok: bool)
    requires Neighbours(f, d) && f.Valid() && d.Valid() && f.outside == imap[]
    requires f.Reachable(if f.pos <= f.size then f.pos else f.size)
    modifies f, f.vol, f.vol.cache, f.vol.cache.slots, f.vol.cache.device
    ensures Neighbours(f, d) && d.Kept(old(d.V())) && f.outside == imap[]
    ensures d.vol.inodes.Valid() && d.vol.inodes.State() == old(d.vol.inodes.State())
    ensures f.vol.Valid() ==> d.Valid()
    ensures ok ==> f.Valid() && d.Valid() && f.Bytes() == old(AfterWrite(f, buf)) && f.pos == old(f.pos) + |buf|
    ensures f.vol.cache.Troubles() >= old(f.vol.cache.Troubles()) && (!ok ==> f.vol.cache.Troubles() > old(f.vol.cache.Troubles()))
  {
    hide Coherent, View, Look, NameOf, MapsIn, Content, Splice, OpenFile.OnDisk, S.Sound, DS.DirOk, DS.SlotsAt, DS.EntryAt, OpenFile.Ready, OpenFile.Stored, OpenFile.CursorOk, OpenFile.Start, OpenFile.Reachable, Volume.Formatted, D.Directory.Kept;
    ghost var v, a := d.V(), d.vol.inodes.State();
    CanWatchOthers(f, d);
    NameThen(f);
    ok := WriteWatching(f, buf, OthersOf(f, d));
    SameMaps(f, d, v, a);
    SameDirectory(f, d, v);
    StandsAgain(d, v);
    if ok {
      ValidReady(f);
    }
  }

  lemma StandsAgain(d: D.Directory, v: Store)
    requires d.Kept(v)
    ensures d.vol.Valid() ==> d.Valid()
  {
    hide Coherent, View, Look, DS.DirOk, DS.SlotsAt, DS.EntryAt, Volume.Valid;
  }

  lemma NameThen(f: OpenFile)
    requires f.Valid()
    ensures NameOf(At(f.V(), f.vol.dev, f.self)) == f.name
  {
    hide Coherent, View, Look, NameOf, Chained, Allocator.Valid, Allocator.Mounted;
  }

  lemma CanWatchOthers(f: OpenFile, d: D.Directory)
    requires Neighbours(f, d) && f.Valid() && d.Valid()
    ensures forall b | b in OthersOf(f, d) :: f.Watchable(b) && !Mentions(f.l, b)
  {
    hide Coherent, View, Look, NameOf, Chained, S.Sound, DS.DirOk, DS.SlotsAt, Volume.Formatted;
    d.vol.MapsApart();
    AllInData(f);
    forall b: Word | d.vol.inodes.IsLive(b)
      ensures b < d.vol.data.first && !d.vol.data.Owns(Key(d.vol.data.dev, b))
    {
      d.vol.LiveApart(b);
      d.vol.InodesBelow(b);
    }
    assert forall c | c in d.chain :: d.vol.data.IsLive(c);
  }

  lemma AllInData(f: OpenFile)
    requires f.Valid()
    ensures forall b | Mentions(f.l, b) :: f.vol.IsLive(b)
  {
    hide Coherent, View, Look, NameOf, Chained, Allocator.Valid, Allocator.Mounted;
  }

  /** The inode allocator finds its maps as they were. */
  lemma SameMaps(f: OpenFile, d: D.Directory, v: Store, a: S.Bitmap)
    requires f.vol == d.vol.data && d.vol.LaidOut() && d.vol.data.Mounted() && d.vol.inodes.Geometry()
    requires forall b | b in OthersOf(f, d) :: At(d.V(), d.vol.data.dev, b) == At(v, d.vol.data.dev, b)
    requires var i := d.vol.inodes;
             && i.mapStart <= i.ptr < i.mapEnd && i.bit < S.MAP_BITS && S.Sound(a, i.live)
             && a == S.Bitmap(MapsIn(v, i.dev, i.mapStart, i.mapEnd - i.mapStart), i.ptr - i.mapStart, i.bit, i.window)
    ensures d.vol.inodes.Valid() && d.vol.inodes.State() == a && (f.vol.Valid() ==> d.vol.Valid())
  {
    hide Coherent, View, Look, MapsIn, S.Sound, Volume.Formatted;
    var i := d.vol.inodes;
    forall b: Word | i.mapStart <= b < i.mapEnd
      ensures Look(d.V(), Key(i.dev, b)) == Look(v, Key(i.dev, b))
    {
      assert b in OthersOf(f, d);
      assert At(d.V(), d.vol.data.dev, b) == At(v, d.vol.data.dev, b);
    }
    MapsKept(v, d.V(), i.dev, i.mapStart, i.mapEnd - i.mapStart);
  }

  /** The directory shows what it showed. */
  lemma SameDirectory(f: OpenFile, d: D.Directory, v: Store)
    requires f.vol == d.vol.data && f.self != d.self && DS.DirOk(v, d.vol.data.dev, d.self, d.chain)
    requires forall b | b in OthersOf(f, d) :: f.Watchable(b) && At(d.V(), d.vol.data.dev, b) == At(v, d.vol.data.dev, b)
    requires NameOf(At(d.V(), d.vol.data.dev, f.self)) == NameOf(At(v, d.vol.data.dev, f.self))
    requires d.vol.inodes.IsLive(d.self) && forall c: Word | c in d.chain :: c >= d.vol.data.first
    requires forall b | b in DS.SlotsAt(v, d.vol.data.dev, d.chain) && b != 0 :: d.vol.inodes.IsLive(b)
    ensures d.Kept(v)
  {
    hide Coherent, View, Look, NameOf, NextOf, DS.SlotsAt, DS.NamesAt, DS.NamesUnique, DS.Lookup, DS.Linked;
    assert d.self in OthersOf(f, d) && forall c | c in d.chain :: c in OthersOf(f, d);
    forall e | e in DS.SlotsAt(v, d.vol.data.dev, d.chain) && e != 0
      ensures NameOf(At(d.V(), d.vol.data.dev, e)) == NameOf(At(v, d.vol.data.dev, e))
    {
      assert e != f.self ==> e in OthersOf(f, d);
    }
    DS.KeepDir(v, d.V(), d.vol.data.dev, d.self, d.chain);
  }

  /** Creating an entry, whatever comes of it, changes no byte of a file, listed in that directory or not. */
  method CreateOver(d: D.Directory, f: OpenFile, name: Name, fields: Block) returns (r: D.Outcome)
    requires Neighbours(f, d) && f.Valid() && d.Valid() && f.outside == imap[] && IsName(name)
    modifies d`chain, d.vol.inodes, d.vol.inodes.cache, d.vol.inodes.cache.slots, d.vol.inodes.cache.device
    modifies d.vol.data, d.vol.data.cache, d.vol.data.cache.slots, d.vol.data.cache.device
    ensures d.Leaves(r, old(d.V()), old(d.chain), name) && Neighbours(f, d) && f.Blocks() == old(f.Blocks())
    ensures f.vol.Valid() ==> f.Valid() && f.Bytes() == old(f.Bytes())
    ensures d.Grew(old(d.Troubles()), r.Created? || r.Exists?)
  {
    hide Coherent, View, Look, NameOf, NextOf, SizeOf, Content, Chained, DS.SlotsAt, DS.EntryAt, D.Directory.Valid, D.Directory.Leaves, OpenFile.Ready, OpenFile.Stored, OpenFile.CursorOk, Allocator.Valid, Allocator.Mounted, Volume.Valid;
    ghost var s := d.Now();
    ShapeOf(f);
    BeforeCreate(d, f);
    r := d.Create(name, fields);
    AfterCreate(d, f, s, r);
    KeepFile(f, s.v);
  }

  /** The sectors of f are in use and are none that the creation may change. */
  lemma BeforeCreate(d: D.Directory, f: OpenFile)
    requires Neighbours(f, d) && f.Valid() && d.Valid()
    ensures f.self >= d.vol.inodes.first && f.self - d.vol.inodes.first in d.vol.inodes.live && f.self !in d.chain
    ensures forall b: Word | Mentions(f.l, b) :: b >= f.vol.first && b - f.vol.first in f.vol.live && b !in d.chain && b != d.self
  {
    hide Coherent, View, Look, NameOf, Chained, DS.DirOk, DS.SlotsAt, Volume.Valid;
    d.vol.KindsDiffer();
    AllInData(f);
    assert forall c | c in d.chain :: d.vol.data.IsLive(c);
    assert d.vol.inodes.IsLive(d.self);
  }

  lemma AfterCreate(d: D.Directory, f: OpenFile, s: D.Snapshot, r: D.Outcome)
    requires d.Spared(s) && d.NewOnly(r, s) && f.vol == d.vol.data && f.self != d.self
    requires f.self >= d.vol.inodes.first && f.self - d.vol.inodes.first in s.inodes && f.self !in s.chain
    requires forall b: Word | Mentions(f.l, b) :: b >= f.vol.first && b - f.vol.first in s.data && b !in s.chain && b != d.self
    ensures Neighbours(f, d) && forall b | Mentions(f.l, b) :: f.vol.IsLive(b)
    ensures forall b | b in PartsOf(f) :: At(f.V(), f.vol.dev, b) == At(s.v, f.vol.dev, b)
  {
    hide Coherent, View, Look, NameOf;
    assert forall b: Word | Mentions(f.l, b) || b == f.self :: d.WasInUse(s, b);
  }
}
