/**
 kreaddir and krewinddir of fs/dir.c: a directory stream over the chain of one directory that
 does not change while it is read.
 */
module DirStream {
  import opened Bytes
  import C = CacheSpec
  import opened InodeSpec
  import opened DirSpec
  import D = Directory
  import opened Volume

  const SLASH: Byte := [true, true, true, true, false, true, false, false]
  const POINT: Byte := [false, true, true, true, false, true, false, false]
  const DOT: Name := [SLASH, POINT]
  const DOTDOT: Name := [SLASH, POINT, POINT]

  /** d_name, d_ino, d_off, d_reclen and d_type of a struct dirent. */
  datatype Dirent = Dirent(name: Name, ino: Word, off: nat, reclen: nat, kind: char)

  /** kreaddir's result: an entry, or NULL at the end or after an I/O error. */
  datatype Result = Entry(entry: Dirent) | End | Failed

  /** Offsets of the flags is_directory, is_file, is_symlink and is_hardlink in an inode_t. */
  const IS_DIRECTORY := 9
  const IS_FILE := 11
  const IS_SYMLINK := 12
  const IS_HARDLINK := 13

  /** d_type, the later flags overriding the earlier ones. */
  function KindOf(sector: Block): char
  {
    if sector[IS_HARDLINK] != ZERO_BYTE then 'H'
    else if sector[IS_SYMLINK] != ZERO_BYTE then 'S'
    else if sector[IS_FILE] != ZERO_BYTE then 'F'
    else if sector[IS_DIRECTORY] != ZERO_BYTE then 'D'
    else '\0'
  }

  /** d_reclen is 16 bits wide. */
  function RecLenOf(sector: Block): nat
  {
    SizeOf(sector) % 0x1_0000
  }

  /** Which flags give which type: a hard link counts as that alone, then a symbolic link, a file, a directory. */
  lemma KindExact(sector: Block)
    ensures KindOf(sector) == 'H' <==> sector[13] != ZERO_BYTE
    ensures KindOf(sector) == 'S' <==> sector[12] != ZERO_BYTE && sector[13] == ZERO_BYTE
    ensures KindOf(sector) == 'F' <==> sector[11] != ZERO_BYTE && sector[12] == sector[13] == ZERO_BYTE
    ensures KindOf(sector) == 'D' <==> sector[9] != ZERO_BYTE && sector[11] == sector[12] == sector[13] == ZERO_BYTE
    ensures KindOf(sector) == '\0' <==> sector[9] == sector[11] == sector[12] == sector[13] == ZERO_BYTE
  {
  }

  /** The entry of inode b, found at index `off` of its map in the directory `path`. */
  function DirentOf(path: Name, b: Word, off: nat, sector: Block): Dirent
  {
    Dirent(path + [SLASH] + NameOf(sector), b, off, RecLenOf(sector), KindOf(sector))
  }

  /** How an entry created with these fields is listed. */
  lemma CreatedShows(path: Name, b: Word, off: nat, fields: Block, name: Name)
    requires IsName(name)
    ensures var e := DirentOf(path, b, off, NewInode(fields, name));
            && e.name == path + [SLASH] + name && e.ino == b && e.off == off
            && e.reclen == SizeOf(fields) % 0x1_0000 && e.kind == KindOf(fields)
  {
    hide NewInode, NameOf, SizeOf;
    NewInodeNamed(fields, name);
    NewInodeSize(fields, name);
    forall k | 0 <= k < PATH_AT
      ensures NewInode(fields, name)[k] == fields[k]
    {
      NewInodeKeeps(fields, name, k);
    }
  }

  /** What one directory shows to a stream opened as `path`: its slots and the inode sectors of its entries. */
  datatype Folder = Folder(path: Name, slots: seq<Word>, inodes: map<Word, Block>)
  {
    ghost predicate Named()
    {
      forall n | 0 <= n < |slots| && slots[n] != 0 :: slots[n] in inodes
    }

    ghost function Names(): map<Word, Name>
    {
      map b | b in inodes :: NameOf(inodes[b])
    }

    ghost function At(n: nat): Dirent
      requires Named() && n < |slots| && slots[n] != 0
    {
      DirentOf(path, slots[n], n % BMAP_BLOCKS, inodes[slots[n]])
    }
  }

  // ---------------------------------------------------------------- one call

  /** First entry at or after slot n, or |slots|. */
  ghost function NextSlot(slots: seq<Word>, n: nat): (m: nat)
    requires n <= |slots|
    ensures n <= m <= |slots| && (m < |slots| ==> slots[m] != 0)
    ensures forall i | n <= i < m :: slots[i] == 0
    decreases |slots| - n
  {
    if n == |slots| || slots[n] != 0 then n else NextSlot(slots, n + 1)
  }

  /** The result of a call at an offset, and the offset it leaves. */
  ghost function Step(d: Folder, offset: nat): (r: (Result, nat))
    requires d.Named() && offset <= |d.slots| + 2
    ensures r.1 <= |d.slots| + 2
  {
    if offset == 0 then (Entry(Dirent(d.path + DOT, 0, 0, 0, '\0')), 1)
    else if offset == 1 then (Entry(Dirent(d.path + DOTDOT, 0, 0, 0, '\0')), 2)
    else
      var m := NextSlot(d.slots, offset - 2);
      if m < |d.slots| then (Entry(d.At(m)), m + 3) else (End, m + 2)
  }

  lemma HoleStep(d: Folder, offset: nat)
    requires d.Named() && 2 <= offset < |d.slots| + 2 && d.slots[offset - 2] == 0
    ensures Step(d, offset + 1) == Step(d, offset)
  {
  }

  lemma EntryStep(d: Folder, offset: nat)
    requires d.Named() && 2 <= offset < |d.slots| + 2 && d.slots[offset - 2] != 0
    ensures Step(d, offset) == (Entry(d.At(offset - 2)), offset + 1)
  {
  }

  // ---------------------------------------------------------------- whole runs

  /** The results of k calls in a row. */
  ghost function Run(d: Folder, offset: nat, k: nat): (r: seq<Result>)
    requires d.Named() && offset <= |d.slots| + 2
    ensures |r| == k
    decreases k
  {
    if k == 0 then [] else
      var s := Step(d, offset);
      [s.0] + Run(d, s.1, k - 1)
  }

  /** The entries from slot n on, holes left out, in chain order. */
  ghost function Items(d: Folder, n: nat): (r: seq<Dirent>)
    requires d.Named() && n <= |d.slots|
    decreases |d.slots| - n
  {
    if n == |d.slots| then []
    else (if d.slots[n] != 0 then [d.At(n)] else []) + Items(d, n + 1)
  }

  /** The whole directory as a stream shows it. */
  ghost function Listing(d: Folder): seq<Dirent>
    requires d.Named()
  {
    [Dirent(d.path + DOT, 0, 0, 0, '\0'), Dirent(d.path + DOTDOT, 0, 0, 0, '\0')] + Items(d, 0)
  }

  ghost predicate Yields(r: seq<Result>, entries: seq<Dirent>)
  {
    forall i | 0 <= i < |r| :: r[i] == if i < |entries| then Entry(entries[i]) else End
  }

  lemma {:induction false} SkipHoles(d: Folder, n: nat)
    requires d.Named() && n <= |d.slots|
    ensures Items(d, n) == Items(d, NextSlot(d.slots, n))
    decreases |d.slots| - n
  {
    if n < |d.slots| && d.slots[n] == 0 {
      SkipHoles(d, n + 1);
    }
  }

  lemma {:induction false} ItemsRun(d: Folder, n: nat, k: nat)
    requires d.Named() && n <= |d.slots|
    ensures Yields(Run(d, n + 2, k), Items(d, n))
    decreases k
  {
    if k > 0 {
      SkipHoles(d, n);
      var m := NextSlot(d.slots, n);
      if m < |d.slots| {
        ItemsRun(d, m + 1, k - 1);
      } else {
        ItemsRun(d, m, k - 1);
      }
    }
  }

  /** Any number of calls from the start give ".", "..", each entry once in order, then NULL for ever. */
  lemma RunLists(d: Folder, k: nat)
    requires d.Named()
    ensures Yields(Run(d, 0, k), Listing(d))
  {
    if k >= 2 {
      ItemsRun(d, 0, k - 2);
      assert Run(d, 0, k) == [Step(d, 0).0] + ([Step(d, 1).0] + Run(d, 2, k - 2));
    } else if k == 1 {
      assert Run(d, 0, 1) == [Step(d, 0).0];
    }
  }

  // ---------------------------------------------------------------- the listing is the directory

  ghost predicate IsItem(d: Folder, e: Dirent, m: nat)
    requires d.Named()
  {
    m < |d.slots| && d.slots[m] != 0 && e == d.At(m)
  }

  lemma {:induction false} ItemsAreSlots(d: Folder, n: nat)
    requires d.Named() && n <= |d.slots|
    ensures forall e | e in Items(d, n) :: exists m :: n <= m && IsItem(d, e, m)
    ensures forall e, m | n <= m && IsItem(d, e, m) :: e in Items(d, n)
    decreases |d.slots| - n
  {
    if n < |d.slots| {
      ItemsAreSlots(d, n + 1);
      var rest, all := Items(d, n + 1), Items(d, n);
      forall e | e in all
        ensures exists m :: n <= m && IsItem(d, e, m)
      {
        if e in rest {
          var m :| n + 1 <= m && IsItem(d, e, m);
        } else {
          assert IsItem(d, e, n);
        }
      }
      forall e, m | n <= m && IsItem(d, e, m)
        ensures e in all
      {
        assert m > n ==> e in rest;
      }
    }
  }

  lemma PathKept(path: Name, a: Name, b: Name)
    requires path + [SLASH] + a == path + [SLASH] + b
    ensures a == b
  {
    assert (path + [SLASH] + a)[|path| + 1..] == a;
    assert (path + [SLASH] + b)[|path| + 1..] == b;
  }

  lemma {:induction false} ItemsDistinct(d: Folder, n: nat)
    requires d.Named() && n <= |d.slots| && NamesUnique(d.slots, d.Names())
    ensures forall i, j | 0 <= i < j < |Items(d, n)| :: Items(d, n)[i].name != Items(d, n)[j].name
    decreases |d.slots| - n
  {
    if n < |d.slots| {
      ItemsDistinct(d, n + 1);
      ItemsAreSlots(d, n + 1);
      var rest := Items(d, n + 1);
      forall j | 0 <= j < |rest| && d.slots[n] != 0
        ensures d.At(n).name != rest[j].name
      {
        assert rest[j] in rest;
        var m :| n + 1 <= m && IsItem(d, rest[j], m);
        if d.At(n).name == d.At(m).name {
          PathKept(d.path, d.Names()[d.slots[n]], d.Names()[d.slots[m]]);
        }
      }
    }
  }

  /** A stream lists exactly the names the lookup scan finds, each once and with the inode it finds. */
  lemma ListsTheDirectory(d: Folder, name: Name)
    requires NamesUnique(d.slots, d.Names())
    ensures var found := Lookup(d.slots, d.Names(), name);
            && (found != 0 <==> exists e :: e in Items(d, 0) && e.name == d.path + [SLASH] + name)
            && (forall e | e in Items(d, 0) && e.name == d.path + [SLASH] + name :: e.ino == found)
            && forall i, j | 0 <= i < j < |Items(d, 0)| :: Items(d, 0)[i].name != Items(d, 0)[j].name
  {
    ItemsAreSlots(d, 0);
    ItemsDistinct(d, 0);
    var found := Lookup(d.slots, d.Names(), name);
    if found != 0 {
      var m :| 0 <= m < |d.slots| && d.slots[m] == found;
      assert IsItem(d, d.At(m), m) && d.At(m).name == d.path + [SLASH] + name;
    }
    forall e | e in Items(d, 0) && e.name == d.path + [SLASH] + name
      ensures e.ino == found != 0
    {
      var m :| 0 <= m && IsItem(d, e, m);
      PathKept(d.path, name, d.Names()[d.slots[m]]);
      LookupFinds(d.slots, d.Names(), m);
    }
  }

  // ---------------------------------------------------------------- the stream object

  /** A DIR: the offset, a remembered map block of the chain with its number, and the inode's `next`. */
  class Stream {
    const dir: D.Directory
    const path: Name
    const next: Word
    var offset: nat
    var blockPtr: nat
    var block: Word

    ghost function InodesAt(v: C.Store, slots: seq<Word>): map<Word, Block>
    {
      map b | b in slots && b != 0 :: C.Look(v, C.Key(dir.vol.data.dev, b))
    }

    ghost function Shown(): Folder
      reads dir, dir.vol.data.cache, dir.vol.data.cache.slots, dir.vol.data.cache.device
    {
      Folder(path, dir.Slots(), InodesAt(dir.V(), dir.Slots()))
    }

    /** The remembered block, when there is one, is the map of its number. */
    ghost predicate OnChain()
      reads this, dir
    {
      block != 0 ==> blockPtr < |dir.chain| && block == dir.chain[blockPtr]
    }

    ghost predicate Valid()
      reads this, dir, dir.vol, dir.vol.inodes, dir.vol.data
      reads dir.vol.inodes.cache, dir.vol.inodes.cache.slots, dir.vol.inodes.cache.device
      reads dir.vol.data.cache, dir.vol.data.cache.slots, dir.vol.data.cache.device
    {
      dir.Valid() && next == Following(dir.chain, 0) && offset <= |dir.Slots()| + 2 && OnChain()
    }

    /** As kopendir leaves a zeroed slot of dir_tab. */
    constructor (dir: D.Directory, path: Name, inode: Block)
      requires dir.Valid() && inode == dir.vol.Sector(dir.self)
      ensures Valid() && offset == 0 && this.dir == dir && this.path == path
    {
      hide D.Directory.Valid, DirSpec.SlotsAt;
      this.dir, this.path := dir, path;
      next := NextOf(inode);
      offset, blockPtr, block := 0, 0, 0;
      new;
      dir.StartFacts();
    }

    lemma AllNamed()
      ensures Shown().Named()
    {
    }

    /** krewinddir; the remembered block stays. */
    method Rewind()
      requires Valid()
      modifies this`offset
      ensures Valid() && offset == 0
    {
      hide D.Directory.Valid, DirSpec.SlotsAt;
      offset := 0;
    }

    /** What a stream at this offset gives next. */
    ghost function NextStep(): (Result, nat)
      requires offset <= |dir.Slots()| + 2
      reads this, dir, dir.vol.data.cache, dir.vol.data.cache.slots, dir.vol.data.cache.device
    {
      AllNamed();
      Step(Shown(), offset)
    }

    /** kreaddir; each pass of the loop is one jump to RETRY. An I/O error loses nothing. */
    method ReadDir() returns (e: Result)
      requires Valid()
      modifies this, dir.vol.data.cache, dir.vol.data.cache.slots, dir.vol.data.cache.device
      ensures Valid() && dir.V() == old(dir.V())
      ensures if e.Failed? then NextStep() == old(NextStep()) else (e, offset) == old(NextStep())
      ensures old(offset) < 2 ==> !e.Failed?
      ensures dir.Grew(old(dir.Troubles()), !e.Failed?)
    {
      hide D.Directory.Valid, SlotsAt, Step, C.Look, C.View;
      ghost var v := dir.V();
      if offset < 2 {
        e := Virtual();
        return;
      }
      var again := true;
      e := End;
      ghost var size := |dir.Slots()|;
      while again
        invariant Valid() && dir.V() == v && dir.Grew(old(dir.Troubles()), again || !e.Failed?)
        invariant again ==> offset >= 2 && NextStep() == old(NextStep())
        invariant !again ==> if e.Failed? then NextStep() == old(NextStep()) else (e, offset) == old(NextStep())
        decreases again, size + 2 - offset, if Reached() then 0 else 1
      {
        again, e := Pass();
      }
    }

    /** "." and "..". */
    method Virtual() returns (e: Result)
      requires Valid() && offset < 2
      modifies this`offset
      ensures Valid() && !e.Failed? && (e, offset) == old(NextStep())
    {
      hide D.Directory.Valid, SlotsAt, C.Look, C.View;
      e := Entry(Dirent(path + (if offset == 0 then DOT else DOTDOT), 0, 0, 0, '\0'));
      offset := offset + 1;
    }

    /** The map that holds the slot at the offset is the remembered one. */
    ghost predicate Reached()
      reads this
    {
      offset >= 2 && blockPtr == (offset - 2) / BMAP_BLOCKS && block != 0
    }

    /** From RETRY to a return or to the next jump, which comes closer to the end or to the right map. */
    method Pass() returns (again: bool, e: Result)
      requires Valid() && offset >= 2
      modifies this, dir.vol.data.cache, dir.vol.data.cache.slots, dir.vol.data.cache.device
      ensures Valid() && dir.V() == old(dir.V())
      ensures !again && !e.Failed? ==> (e, offset) == old(NextStep())
      ensures again || e.Failed? ==> offset >= 2 && NextStep() == old(NextStep())
      ensures again ==> offset == old(offset) + 1 || (offset == old(offset) && Reached() && !old(Reached()))
      ensures dir.Grew(old(dir.Troubles()), again || !e.Failed?)
    {
      hide D.Directory.Valid, SlotsAt, Step, C.Look, C.View;
      var number := (offset - 2) / BMAP_BLOCKS;
      if blockPtr == number && block != 0 {
        again, e := ReadEntry();
        return;
      }
      var ok := ScanTo(number);
      if !ok {
        return false, Failed;
      }
      if block == 0 {
        AtTheEnd(number);
        return false, End;
      }
      return true, End;
    }

    /** The entry at the offset, in the remembered map. */
    method ReadEntry() returns (again: bool, e: Result)
      requires Valid() && Reached()
      modifies this`offset, dir.vol.data.cache, dir.vol.data.cache.slots, dir.vol.data.cache.device
      ensures Valid() && dir.V() == old(dir.V())
      ensures !again && !e.Failed? ==> (e, offset) == old(NextStep())
      ensures again || e.Failed? ==> offset >= 2 && NextStep() == old(NextStep())
      ensures again ==> offset == old(offset) + 1
      ensures dir.Grew(old(dir.Troubles()), again || !e.Failed?)
    {
      hide D.Directory.Valid, SlotsAt, DecodeMap, DirentOf, Step, C.Look, C.View;
      var index := (offset - 2) % BMAP_BLOCKS;
      var ok, bmap := dir.ReadMap(block, blockPtr);
      if !ok {
        return false, Failed;
      }
      InMap(dir.Slots(), blockPtr, index, bmap.blocks);
      AllNamed();
      var b := bmap.blocks[index];
      if b == 0 {
        HoleStep(Shown(), offset);
        offset := offset + 1;
        return true, End;
      }
      EntryStep(Shown(), offset);
      var sector;
      ok, sector := dir.Read(b);
      if !ok {
        return false, Failed;
      }
      offset := offset + 1;
      return false, Entry(DirentOf(path, b, index, sector));
    }

    lemma InMap(slots: seq<Word>, number: nat, index: nat, blocks: seq<Word>)
      requires BMAP_BLOCKS * (number + 1) <= |slots| && index < BMAP_BLOCKS
      requires slots[BMAP_BLOCKS * number..BMAP_BLOCKS * (number + 1)] == blocks
      ensures slots[BMAP_BLOCKS * number + index] == blocks[index] && blocks[index] in blocks
    {
    }

    /** No map with that number: every slot has been passed. */
    lemma AtTheEnd(number: nat)
      requires Valid() && offset >= 2 && number == (offset - 2) / BMAP_BLOCKS && number >= |dir.chain|
      ensures NextStep() == (End, offset)
    {
      hide D.Directory.Valid, SlotsAt, C.Look, C.View;
    }

    /** The for loop that walks the chain from its first map; block 0 means the chain ended before. */
    method ScanTo(number: nat) returns (ok: bool)
      requires Valid()
      modifies this`block, this`blockPtr, dir.vol.data.cache, dir.vol.data.cache.slots, dir.vol.data.cache.device
      ensures Valid() && dir.V() == old(dir.V())
      ensures ok && block == 0 ==> number >= |dir.chain|
      ensures ok && block != 0 ==> blockPtr == number
      ensures dir.Grew(old(dir.Troubles()), ok)
    {
      hide D.Directory.Valid, SlotsAt, DecodeMap, C.Look, C.View;
      ghost var v := dir.V();
      dir.StartFacts();
      blockPtr, block := 0, next;
      while blockPtr < number
        invariant Valid() && dir.V() == v && dir.Grew(old(dir.Troubles()), true)
        invariant blockPtr <= number && blockPtr <= |dir.chain| && block == Following(dir.chain, blockPtr)
      {
        if block == 0 {
          return true;
        }
        var bmap;
        ok, bmap := dir.ReadMap(block, blockPtr);
        if !ok {
          return;
        }
        block := bmap.next;
        blockPtr := blockPtr + 1;
      }
      return true;
    }
  }
}
