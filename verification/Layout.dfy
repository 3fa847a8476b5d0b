/**
 The disk layout of inode_create_fs in fs/inode.c: one master record, then the inode map, the
 block map, the inodes and the data blocks, sized 20% inodes and 80% data.
 */
module Layout {
  import opened Bytes
  import S = BitmapSpec

  const BLOCK_START: Word := 4096
  const TWOMEG := 2097152

  /** The numbers of a master_inode_t; each region is [start, end). */
  datatype Master = Master(
    blockStart: Word, inodeMapStart: Word, inodeMapEnd: Word, blockMapStart: Word, blockMapEnd: Word,
    inodeStart: Word, inodeEnd: Word, dataStart: Word, dataEnd: Word)

  datatype Result = Ok(master: Master) | NotAligned

  /** block_t arithmetic. */
  function Wrap(x: int): Word
  {
    x % 0x1_0000_0000
  }

  lemma NoWrap(x: int)
    requires 0 <= x < 0x1_0000_0000
    ensures Wrap(x) == x
  {
  }

  /** Map blocks for a number of entries: one bit each, rounded down, but at least one block. */
  function MapBlocks(entries: nat): nat
  {
    var n := entries / 8 / DEV_BLOCK_SIZE;
    if n == 0 then 1 else n
  }

  /** As many map blocks as the entries fill with 4096 bits each, and one if they fill none. */
  predicate Covers(maps: int, entries: nat)
  {
    if entries < 4096 then maps == 1 else 4096 * maps <= entries < 4096 * (maps + 1)
  }

  lemma MapBlocksCover(entries: nat)
    ensures Covers(MapBlocks(entries), entries)
  {
  }

  function CreateFs(blockStart: Word, size: Word): Result
  {
    if size % DEV_BLOCK_SIZE != 0 then NotAligned else
      var n := size / DEV_BLOCK_SIZE;
      var inodes := Wrap(n * 20) / 100;
      var blocks := Wrap(n * 80) / 100;
      var inodeMapStart := Wrap(blockStart + 1);
      var inodeMapEnd := Wrap(inodeMapStart + MapBlocks(inodes));
      var blockMapEnd := Wrap(inodeMapEnd + MapBlocks(blocks));
      var inodeEnd := Wrap(blockMapEnd + inodes);
      Ok(Master(blockStart, inodeMapStart, inodeMapEnd, inodeMapEnd, blockMapEnd,
                blockMapEnd, inodeEnd, inodeEnd, Wrap(inodeEnd + blocks)))
  }

  /** inode_mkfs: the first two megabytes are kept for the boot and kernel images. */
  function MakeFs(size: Word): Result
  {
    CreateFs(BLOCK_START, Wrap(size - TWOMEG))
  }

  // ---------------------------------------------------------------- the numbers the allocators use

  /** A map block, counted from the first of its region, and a bit of it. */
  datatype Position = Position(map_: nat, bit: nat)

  predicate InMap(p: Position, maps: int)
  {
    p.map_ < maps && p.bit < S.MAP_BITS
  }

  /** The calculation in the get functions. */
  function BlockOf(first: Word, p: Position): nat
  {
    first + p.map_ * DEV_BLOCK_SIZE + p.bit
  }

  /** The calculation in the free functions. */
  function PositionOf(first: Word, block: nat): Position
    requires block >= first
  {
    Position((block - first) / DEV_BLOCK_SIZE, (block - first) % DEV_BLOCK_SIZE)
  }

  function InodeMaps(m: Master): int
  {
    m.inodeMapEnd - m.inodeMapStart
  }

  function BlockMaps(m: Master): int
  {
    m.blockMapEnd - m.blockMapStart
  }

  /** Get and free agree: each position has one block and each block one position. */
  lemma NumbersInvert(first: Word, maps: nat, p: Position, block: nat)
    requires InMap(p, maps) && first <= block < first + S.MAP_BITS * maps
    ensures PositionOf(first, BlockOf(first, p)) == p
    ensures InMap(PositionOf(first, block), maps) && BlockOf(first, PositionOf(first, block)) == block
    ensures first <= BlockOf(first, p) < first + S.MAP_BITS * maps
  {
  }

  /** No block can be handed out both as an inode and as data. */
  ghost predicate Separate(m: Master)
  {
    forall p, q | InMap(p, InodeMaps(m)) && InMap(q, BlockMaps(m)) :: BlockOf(m.inodeStart, p) != BlockOf(m.dataStart, q)
  }

  /** Everything either allocator can hand out lies in its own region, past the maps and on the volume. */
  ghost predicate Inside(m: Master, n: nat)
  {
    && (forall p | InMap(p, InodeMaps(m)) :: m.blockMapEnd <= BlockOf(m.inodeStart, p) < m.inodeEnd)
    && forall q | InMap(q, BlockMaps(m)) :: m.inodeEnd <= BlockOf(m.dataStart, q) < m.dataEnd && BlockOf(m.dataStart, q) < m.blockStart + n
  }

  /** The regions follow one another without a gap and, with this start, without wrapping. */
  lemma Regions(blockStart: Word, size: Word)
    requires size % DEV_BLOCK_SIZE == 0 && blockStart <= 0xFE00_0000
    ensures var n := size / DEV_BLOCK_SIZE;
            var m := CreateFs(blockStart, size).master;
            && m.blockStart + 1 == m.inodeMapStart < m.inodeMapEnd == m.blockMapStart < m.blockMapEnd == m.inodeStart
            && m.inodeStart <= m.inodeEnd == m.dataStart <= m.dataEnd <= 0xFF00_0000
            && InodeMaps(m) == MapBlocks(n / 5) && BlockMaps(m) == MapBlocks(n * 4 / 5)
            && Covers(InodeMaps(m), n / 5) && Covers(BlockMaps(m), n * 4 / 5)
            && m.inodeEnd - m.inodeStart == n / 5 && m.dataEnd - m.dataStart == n * 4 / 5
  {
    hide Wrap, MapBlocks, Covers;
    var n := size / DEV_BLOCK_SIZE;
    var inodes, blocks := n / 5, n * 4 / 5;
    NoWrap(n * 20);
    NoWrap(n * 80);
    assert n * 20 / 100 == inodes && n * 80 / 100 == blocks;
    MapsFit(inodes);
    MapsFit(blocks);
    MapBlocksCover(inodes);
    MapBlocksCover(blocks);
    var start := blockStart + 1;
    NoWrap(start);
    NoWrap(start + MapBlocks(inodes));
    NoWrap(start + MapBlocks(inodes) + MapBlocks(blocks));
    NoWrap(start + MapBlocks(inodes) + MapBlocks(blocks) + inodes);
    NoWrap(start + MapBlocks(inodes) + MapBlocks(blocks) + inodes + blocks);
  }

  /** 512 bits of every map block are used: they fit their region exactly from 512 entries on. */
  lemma MapsFit(entries: nat)
    ensures S.MAP_BITS * MapBlocks(entries) <= entries <==> entries >= S.MAP_BITS
    ensures entries >= S.MAP_BITS ==> S.MAP_BITS * MapBlocks(entries) <= S.MAP_BITS + entries / 8
    ensures 1 <= MapBlocks(entries) <= 1 + entries / 4096
  {
  }

  /** Inode blocks and data blocks are kept apart exactly on volumes of at least 2560 sectors. */
  lemma SeparateExact(blockStart: Word, size: Word)
    requires size % DEV_BLOCK_SIZE == 0 && blockStart <= 0xFE00_0000
    ensures Separate(CreateFs(blockStart, size).master) <==> size / DEV_BLOCK_SIZE >= 2560
  {
    var n := size / DEV_BLOCK_SIZE;
    var m := CreateFs(blockStart, size).master;
    Regions(blockStart, size);
    if n >= 2560 {
      InsideVolume(blockStart, size);
    } else {
      var p, q := Position(0, S.MAP_BITS - 1), Position(0, S.MAP_BITS - 1 - n / 5);
      assert InMap(p, InodeMaps(m)) && InMap(q, BlockMaps(m));
      assert BlockOf(m.inodeStart, p) == BlockOf(m.dataStart, q);
    }
  }

  /** On such a volume every number stays in its region and on the volume, for every start. */
  lemma InsideVolume(blockStart: Word, size: Word)
    requires size % DEV_BLOCK_SIZE == 0 && blockStart <= 0xFE00_0000 && size / DEV_BLOCK_SIZE >= 2560
    ensures Inside(CreateFs(blockStart, size).master, size / DEV_BLOCK_SIZE)
  {
    var n := size / DEV_BLOCK_SIZE;
    var m := CreateFs(blockStart, size).master;
    Regions(blockStart, size);
    MapsFit(n / 5);
    MapsFit(n * 4 / 5);
    forall p | InMap(p, InodeMaps(m))
      ensures m.inodeStart <= BlockOf(m.inodeStart, p) < m.inodeEnd
    {
      NumbersInvert(m.inodeStart, InodeMaps(m), p, m.inodeStart);
    }
    forall q | InMap(q, BlockMaps(m))
      ensures m.dataStart <= BlockOf(m.dataStart, q) < m.dataEnd && BlockOf(m.dataStart, q) < m.blockStart + n
    {
      NumbersInvert(m.dataStart, BlockMaps(m), q, m.dataStart);
    }
  }

  /**
   inode_mkfs keeps them apart exactly when the disk has 2560 sectors beyond the reserved two megabytes,
   or is smaller than these, in which case the subtraction wraps and it lays out almost four gigabytes.
   */
  lemma MakeFsExact(size: Word)
    ensures MakeFs(size).Ok? <==> size % DEV_BLOCK_SIZE == 0
    ensures MakeFs(size).Ok? ==>
              (Separate(MakeFs(size).master) <==> size < TWOMEG || size >= TWOMEG + 2560 * DEV_BLOCK_SIZE)
  {
    hide Separate, MapBlocks;
    var rest := Wrap(size - TWOMEG);
    if size % DEV_BLOCK_SIZE == 0 {
      SeparateExact(BLOCK_START, rest);
    }
  }

  /** The data region itself always runs past the end of the volume; only the unused bits save it. */
  lemma RegionOverruns(blockStart: Word, size: Word)
    requires size % DEV_BLOCK_SIZE == 0 && blockStart <= 0xFE00_0000
    ensures CreateFs(blockStart, size).master.dataEnd >= blockStart + size / DEV_BLOCK_SIZE + 2
  {
    Regions(blockStart, size);
  }
}
