/**
 Files of fs/file.c on values: a chain of block maps and the data blocks they list, the byte
 sequence these denote, and what appending a block or overwriting bytes does to it.
 */
module FileSpec {
  import opened Bytes
  import opened CacheSpec

  /** The map blocks of a file in order, and its data blocks in order. */
  datatype Layout = Layout(chain: seq<Word>, data: seq<Word>)

  function EntryOf(l: Layout, n: nat): Word
  {
    if n < |l.data| then l.data[n] else 0
  }

  function EntriesOf(l: Layout, k: nat): (s: seq<Word>)
    ensures |s| == BMAP_BLOCKS && forall j | 0 <= j < BMAP_BLOCKS :: s[j] == EntryOf(l, BMAP_BLOCKS * k + j)
  {
    seq<Word>(BMAP_BLOCKS, j requires 0 <= j < BMAP_BLOCKS => EntryOf(l, BMAP_BLOCKS * k + j))
  }

  /** The k-th map block that a layout calls for. */
  function MapOf(l: Layout, k: nat): BlockMap
  {
    BlockMap(if k + 1 < |l.chain| then l.chain[k + 1] else 0, EntriesOf(l, k))
  }

  ghost predicate Mentions(l: Layout, b: Word)
  {
    b in l.chain || b in l.data
  }

  ghost predicate Distinct(l: Layout)
  {
    && (forall i, j | 0 <= i < j < |l.chain| :: l.chain[i] != l.chain[j])
    && (forall i, j | 0 <= i < j < |l.data| :: l.data[i] != l.data[j])
    && (forall i, j | 0 <= i < |l.chain| && 0 <= j < |l.data| :: l.chain[i] != l.data[j])
  }

  /** The sectors of v hold exactly this layout. */
  ghost predicate Chained(v: Store, dev: int, l: Layout)
  {
    && 0 < |l.chain| && 0 < |l.data|
    && BMAP_BLOCKS * (|l.chain| - 1) <= |l.data| <= BMAP_BLOCKS * |l.chain|
    && Distinct(l) && !Mentions(l, 0)
    && MapsStored(v, dev, l)
  }

  ghost predicate MapsStored(v: Store, dev: int, l: Layout)
  {
    forall k | 0 <= k < |l.chain| :: DecodeMap(At(v, dev, l.chain[k])) == MapOf(l, k)
  }

  lemma StoredMap(v: Store, dev: int, l: Layout, k: nat)
    requires Chained(v, dev, l) && k < |l.chain|
    ensures DecodeMap(At(v, dev, l.chain[k])) == MapOf(l, k)
  {
  }

  // ---------------------------------------------------------------- how stores may change

  ghost predicate SameOn(v: Store, v': Store, dev: int, bs: seq<Word>)
  {
    forall b | b in bs :: At(v', dev, b) == At(v, dev, b)
  }

  lemma KeepChained(v: Store, v': Store, dev: int, l: Layout)
    requires Chained(v, dev, l) && SameOn(v, v', dev, l.chain)
    ensures Chained(v', dev, l)
  {
  }

  /** One more data block, listed in the first empty entry of the last map in use. */
  lemma AppendData(v: Store, v': Store, dev: int, l: Layout, b: Word)
    requires Chained(v, dev, l) && |l.data| < BMAP_BLOCKS * |l.chain|
    requires b != 0 && !Mentions(l, b)
    requires var m := |l.data| / BMAP_BLOCKS;
             && DecodeMap(At(v', dev, l.chain[m])) == MapOf(l, m).(blocks := MapOf(l, m).blocks[|l.data| % BMAP_BLOCKS := b])
             && forall k | 0 <= k < |l.chain| && k != m :: At(v', dev, l.chain[k]) == At(v, dev, l.chain[k])
    ensures Chained(v', dev, l.(data := l.data + [b]))
  {
    var l' := l.(data := l.data + [b]);
    forall k | 0 <= k < |l.chain|
      ensures DecodeMap(At(v', dev, l'.chain[k])) == MapOf(l', k)
    {
      AppendedEntry(l, b, k);
    }
    assert Distinct(l');
  }

  lemma AppendedEntry(l: Layout, b: Word, k: nat)
    ensures MapOf(l.(data := l.data + [b]), k) ==
            if k == |l.data| / BMAP_BLOCKS
            then MapOf(l, k).(blocks := MapOf(l, k).blocks[|l.data| % BMAP_BLOCKS := b])
            else MapOf(l, k)
  {
  }

  /** One more, empty, map at the end of a full chain. */
  lemma AppendMap(v: Store, v': Store, dev: int, l: Layout, b: Word)
    requires Chained(v, dev, l) && |l.data| == BMAP_BLOCKS * |l.chain|
    requires b != 0 && !Mentions(l, b)
    requires var m := |l.chain| - 1;
             && DecodeMap(At(v', dev, l.chain[m])) == MapOf(l, m).(next := b)
             && DecodeMap(At(v', dev, b)) == NullMap()
             && forall k | 0 <= k < m :: At(v', dev, l.chain[k]) == At(v, dev, l.chain[k])
    ensures Chained(v', dev, l.(chain := l.chain + [b]))
  {
    var l' := l.(chain := l.chain + [b]);
    assert MapOf(l', |l.chain|).blocks == NullMap().blocks;
    forall k | 0 <= k < |l'.chain|
      ensures DecodeMap(At(v', dev, l'.chain[k])) == MapOf(l', k)
    {
      if k + 1 < |l.chain| {
        assert MapOf(l', k) == MapOf(l, k);
      } else if k + 1 == |l.chain| {
        assert MapOf(l', k) == MapOf(l, k).(next := b);
      }
    }
    assert Distinct(l');
  }

  /** Rewriting map block m only: the other sectors of the file stay. */
  lemma RewroteMap(v: Store, dev: int, l: Layout, m: nat, x: Block, b: Word)
    requires Distinct(l) && m < |l.chain| && !Mentions(l, b)
    ensures var v' := v[Key(dev, l.chain[m]) := x];
            && At(v', dev, l.chain[m]) == x && At(v', dev, b) == At(v, dev, b)
            && (forall k | 0 <= k < |l.chain| && k != m :: At(v', dev, l.chain[k]) == At(v, dev, l.chain[k]))
            && (forall k | 0 <= k < |l.data| :: At(v', dev, l.data[k]) == At(v, dev, l.data[k]))
  {
  }

  /** Listing the zeroed block b in map m = |data| / 127 appends a sector of zeros to the file. */
  lemma LinkData(v: Store, dev: int, l: Layout, b: Word, bmap: BlockMap)
    requires Chained(v, dev, l) && |l.data| < BMAP_BLOCKS * |l.chain|
    requires b != 0 && !Mentions(l, b) && At(v, dev, b) == ZeroBlock()
    requires var m := |l.data| / BMAP_BLOCKS; bmap == MapOf(l, m).(blocks := MapOf(l, m).blocks[|l.data| % BMAP_BLOCKS := b])
    ensures var m := |l.data| / BMAP_BLOCKS;
            var v' := v[Key(dev, l.chain[m]) := EncodeMap(bmap)];
            var l' := l.(data := l.data + [b]);
            && Chained(v', dev, l') && bmap == MapOf(l', m)
            && BlocksOf(v', dev, l'.data) == BlocksOf(v, dev, l.data) + [ZeroBlock()]
  {
    var m := |l.data| / BMAP_BLOCKS;
    var v' := v[Key(dev, l.chain[m]) := EncodeMap(bmap)];
    DecodeEncodeMap(bmap);
    RewroteMap(v, dev, l, m, EncodeMap(bmap), b);
    AppendData(v, v', dev, l, b);
    AppendedEntry(l, b, m);
    assert BlocksOf(v', dev, l.data + [b]) == BlocksOf(v, dev, l.data) + [ZeroBlock()];
  }

  /** Linking the zeroed block b behind the last map extends the chain and no byte changes. */
  lemma LinkMap(v: Store, dev: int, l: Layout, b: Word, bmap: BlockMap)
    requires Chained(v, dev, l) && |l.data| == BMAP_BLOCKS * |l.chain|
    requires b != 0 && !Mentions(l, b) && At(v, dev, b) == ZeroBlock()
    requires bmap == MapOf(l, |l.chain| - 1).(next := b)
    ensures var m := |l.chain| - 1;
            var v' := v[Key(dev, l.chain[m]) := EncodeMap(bmap)];
            var l' := l.(chain := l.chain + [b]);
            && Chained(v', dev, l') && bmap == MapOf(l', m)
            && BlocksOf(v', dev, l'.data) == BlocksOf(v, dev, l.data)
  {
    var m := |l.chain| - 1;
    var v' := v[Key(dev, l.chain[m]) := EncodeMap(bmap)];
    DecodeEncodeMap(bmap);
    DecodeZero();
    RewroteMap(v, dev, l, m, EncodeMap(bmap), b);
    AppendMap(v, v', dev, l, b);
    assert EntriesOf(l.(chain := l.chain + [b]), m) == EntriesOf(l, m);
    assert BlocksOf(v', dev, l.data) == BlocksOf(v, dev, l.data);
  }

  lemma FirstBlock(v: Store, dev: int, m: Word, b: Word)
    requires m != 0 && b != 0 && m != b
    requires DecodeMap(At(v, dev, m)) == NullMap().(blocks := NullMap().blocks[0 := b])
    ensures Chained(v, dev, Layout([m], [b]))
  {
  }

  // ---------------------------------------------------------------- bytes

  ghost function BlocksOf(v: Store, dev: int, bs: seq<Word>): (c: seq<Block>)
    ensures |c| == |bs| && forall k | 0 <= k < |bs| :: c[k] == At(v, dev, bs[k])
  {
    seq<Block>(|bs|, k requires 0 <= k < |bs| => At(v, dev, bs[k]))
  }

  /** The first n bytes of consecutive sectors. */
  function Content(c: seq<Block>, n: nat): (s: seq<Byte>)
    requires n <= DEV_BLOCK_SIZE * |c|
    ensures |s| == n
  {
    seq<Byte>(n, p requires 0 <= p < n => c[p / DEV_BLOCK_SIZE][p % DEV_BLOCK_SIZE])
  }

  /** The sectors begin with exactly these bytes. */
  ghost predicate Shows(c: seq<Block>, s: seq<Byte>)
  {
    |s| <= DEV_BLOCK_SIZE * |c| && Content(c, |s|) == s
  }

  /** What a write at pos <= |s| should leave: [pos, pos + |w|) replaced, the file grown if needed. */
  function Splice(s: seq<Byte>, pos: nat, w: seq<Byte>): (r: seq<Byte>)
    requires pos <= |s|
    ensures |r| == if |s| < pos + |w| then pos + |w| else |s|
  {
    s[..pos] + w + (if pos + |w| <= |s| then s[pos + |w|..] else [])
  }

  /** Two writes in a row are one. */
  lemma SpliceChain(s: seq<Byte>, pos: nat, a: seq<Byte>, b: seq<Byte>)
    requires pos <= |s|
    ensures Splice(Splice(s, pos, a), pos + |a|, b) == Splice(s, pos, a + b)
  {
  }

  lemma SpliceNothing(s: seq<Byte>, pos: nat)
    requires pos <= |s|
    ensures Splice(s, pos, Zeros(0)) == s
  {
  }

  lemma SpliceZeros(s: seq<Byte>, pos: nat, n: nat, m: nat)
    requires pos <= |s|
    ensures Splice(Splice(s, pos, Zeros(n)), pos + n, Zeros(m)) == Splice(s, pos, Zeros(n + m))
  {
    SpliceChain(s, pos, Zeros(n), Zeros(m));
    assert Zeros(n) + Zeros(m) == Zeros(n + m);
  }

  /** Sector k of the file once w has been written at byte q. */
  function Overlay(b: Block, k: nat, q: nat, w: seq<Byte>): Block
  {
    seq<Byte>(DEV_BLOCK_SIZE, j requires 0 <= j < DEV_BLOCK_SIZE =>
      if q <= DEV_BLOCK_SIZE * k + j < q + |w| then w[DEV_BLOCK_SIZE * k + j - q] else b[j])
  }

  ghost predicate Overlaid(c: seq<Block>, base: seq<Block>, q: nat, w: seq<Byte>)
  {
    |c| == |base| && forall k | 0 <= k < |c| :: c[k] == Overlay(base[k], k, q, w)
  }

  /** As Overlaid, except that the sector under the cursor is still in a buffer. */
  ghost predicate Pending(c: seq<Block>, base: seq<Block>, q: nat, w: seq<Byte>, n: nat, buffer: Block)
  {
    && |c| == |base| && n < |c| && n == (q + |w|) / DEV_BLOCK_SIZE
    && buffer == Overlay(base[n], n, q, w)
    && forall k | 0 <= k < |c| && k != n :: c[k] == Overlay(base[k], k, q, w)
  }

  /** One more byte, still inside sector n. */
  lemma PendingByte(c: seq<Block>, base: seq<Block>, q: nat, w: seq<Byte>, n: nat, buffer: Block, x: Byte)
    requires Pending(c, base, q, w, n, buffer) && (q + |w| + 1) % DEV_BLOCK_SIZE != 0
    ensures Pending(c, base, q, w + [x], n, buffer[(q + |w|) % DEV_BLOCK_SIZE := x])
  {
  }

  /** The byte that completes sector n: once the buffer is stored, nothing is pending. */
  lemma PendingFull(c: seq<Block>, base: seq<Block>, q: nat, w: seq<Byte>, n: nat, buffer: Block, x: Byte)
    requires Pending(c, base, q, w, n, buffer)
    ensures var b := buffer[(q + |w|) % DEV_BLOCK_SIZE := x];
            Overlaid(c[n := b], base, q, w + [x])
  {
  }

  /** At a sector boundary the next sector, new or not, becomes the one under the cursor. */
  lemma PendingNext(c: seq<Block>, base: seq<Block>, q: nat, w: seq<Byte>, n: nat, grown: seq<Block>)
    requires Overlaid(c, base, q, w) && q + |w| == DEV_BLOCK_SIZE * n && n < |c + grown|
    requires forall b | b in grown :: b == ZeroBlock()
    requires |grown| > 0 ==> n == |c|
    ensures Pending(c + grown, base + grown, q, w, n, (c + grown)[n])
  {
  }

  /** The buffer still shows the original byte under the cursor. */
  lemma UntouchedByte(c: seq<Block>, base: seq<Block>, q: nat, w: seq<Byte>, n: nat, buffer: Block)
    requires Pending(c, base, q, w, n, buffer)
    ensures |c| == |base| && n < |base| && n == (q + |w|) / DEV_BLOCK_SIZE
    ensures buffer[(q + |w|) % DEV_BLOCK_SIZE] == base[n][(q + |w|) % DEV_BLOCK_SIZE]
  {
  }

  /**
   What the transfer loop keeps between bytes: out has passed through the sectors c, starting at
   byte q; the current sector is in buffer, which differs from the stored one only when dirty
   or when a read has run past `size` bytes.
   */
  ghost predicate Flow(c: seq<Block>, base: seq<Block>, q: nat, out: seq<Byte>, buffer: Block, reading: bool, dirty: bool, size: nat)
  {
    var n := (q + |out|) / DEV_BLOCK_SIZE;
    && Pending(c, base, q, out, n, buffer)
    && (!dirty && (!reading || |out| <= size) ==> c[n] == buffer)
    && (reading && |out| <= size ==> c == base)
    && (reading ==> !dirty && c[n] == base[n] && Taken(base, q, out, size))
  }

  /** What a read at byte q returns: the sectors' bytes, but zeros once it has passed `size` bytes. */
  ghost predicate Taken(base: seq<Block>, q: nat, out: seq<Byte>, size: nat)
  {
    forall t | 0 <= t < |out| :: if t < size then ByteAt(base, q + t, out[t]) else out[t] == ZERO_BYTE
  }

  /** The sectors with the bytes in [from, to) set to zero. */
  ghost predicate Cleared(c: seq<Block>, base: seq<Block>, from: nat, to: nat)
  {
    Overlaid(c, base, from, Zeros(if from < to then to - from else 0))
  }

  lemma NothingCleared(c: seq<Block>, base: seq<Block>, from: nat, to: nat)
    requires Cleared(c, base, from, to) && to <= from
    ensures c == base
  {
    hide Overlay;
    forall k | 0 <= k < |base|
      ensures c[k] == base[k]
    {
      OverlayNothing(base[k], k, from);
    }
  }

  lemma OverlayNothing(b: Block, k: nat, q: nat)
    ensures Overlay(b, k, q, Zeros(0)) == b
  {
  }

  /** Sectors of zeros behind cleared ones. */
  lemma ClearedLonger(c: seq<Block>, base: seq<Block>, c': seq<Block>, base': seq<Block>, from: nat, to: nat)
    requires Cleared(c, base, from, to) && |c| == |base| <= |c'| == |base'|
    requires c <= c' && base <= base' && (forall k | |c| <= k < |c'| :: c'[k] == base'[k] == ZeroBlock())
    ensures Cleared(c', base', from, to)
  {
    var w := Zeros(if from < to then to - from else 0);
    forall k | 0 <= k < |c'|
      ensures c'[k] == Overlay(base'[k], k, from, w)
    {
      if k < |c| {
        assert c[k] == Overlay(base[k], k, from, w);
      } else {
        ZerosOverZeros(k, from, |w|);
      }
    }
  }

  lemma ZerosOverZeros(k: nat, from: nat, n: nat)
    ensures Overlay(ZeroBlock(), k, from, Zeros(n)) == ZeroBlock()
  {
  }

  /** The sectors followed by sectors of zeros. */
  ghost predicate Extended(c: seq<Block>, base: seq<Block>)
  {
    c <= base && forall k | |c| <= k < |base| :: base[k] == ZeroBlock()
  }

  predicate ByteAt(c: seq<Block>, p: nat, x: Byte)
  {
    p / DEV_BLOCK_SIZE < |c| && c[p / DEV_BLOCK_SIZE][p % DEV_BLOCK_SIZE] == x
  }

  lemma FlowStart(c: seq<Block>, q: nat, reading: bool, size: nat)
    requires q / DEV_BLOCK_SIZE < |c|
    ensures Flow(c, c, q, [], c[q / DEV_BLOCK_SIZE], reading, false, size)
  {
  }

  /** The byte moved next: given by the caller when writing, read from the sector, or zero past `size` bytes. */
  predicate Moves(x: Byte, buffer: Block, byte: nat, reading: bool, count: nat, size: nat)
    requires byte < DEV_BLOCK_SIZE
  {
    reading ==> x == if count < size then buffer[byte] else ZERO_BYTE
  }

  lemma FlowByte(c: seq<Block>, base: seq<Block>, q: nat, out: seq<Byte>, buffer: Block, reading: bool, dirty: bool, size: nat, x: Byte)
    requires Flow(c, base, q, out, buffer, reading, dirty, size)
    requires Moves(x, buffer, (q + |out|) % DEV_BLOCK_SIZE, reading, |out|, size) && (q + |out| + 1) % DEV_BLOCK_SIZE != 0
    ensures Flow(c, base, q, out + [x], buffer[(q + |out|) % DEV_BLOCK_SIZE := x], reading, dirty || !reading, size)
  {
    var n, byte := (q + |out|) / DEV_BLOCK_SIZE, (q + |out|) % DEV_BLOCK_SIZE;
    UntouchedByte(c, base, q, out, n, buffer);
    PendingByte(c, base, q, out, n, buffer, x);
    assert buffer[byte := buffer[byte]] == buffer;
  }

  lemma FlowCross(c: seq<Block>, base: seq<Block>, q: nat, out: seq<Byte>, buffer: Block, reading: bool, dirty: bool, size: nat, x: Byte,
                  grown: seq<Block>, c': seq<Block>)
    requires Flow(c, base, q, out, buffer, reading, dirty, size)
    requires Moves(x, buffer, (q + |out|) % DEV_BLOCK_SIZE, reading, |out|, size) && (q + |out| + 1) % DEV_BLOCK_SIZE == 0
    requires var n := (q + |out|) / DEV_BLOCK_SIZE;
             && grown == (if n + 1 == |c| then [ZeroBlock()] else [])
             && c' == (if !reading || |out| + 1 >= size then c[n := buffer[(q + |out|) % DEV_BLOCK_SIZE := x]] else c) + grown
    ensures var n := (q + |out|) / DEV_BLOCK_SIZE;
            n + 1 < |c'| && Flow(c', base + grown, q, out + [x], c'[n + 1], reading, false, size)
  {
    var n, byte := (q + |out|) / DEV_BLOCK_SIZE, (q + |out|) % DEV_BLOCK_SIZE;
    UntouchedByte(c, base, q, out, n, buffer);
    PendingFull(c, base, q, out, n, buffer, x);
    assert buffer[byte := buffer[byte]] == buffer;
    var stored := c[n := buffer[byte := x]];
    assert reading && |out| < size ==> stored == c;
    PendingNext(stored, base, q, out + [x], n + 1, grown);
    assert c' == stored + grown;
    forall t | reading && 0 <= t < |out| + 1 && t < size
      ensures ByteAt(base + grown, q + t, (out + [x])[t])
    {
      if t < |out| {
        assert ByteAt(base, q + t, out[t]);
      }
    }
    assert c'[n + 1] == (base + grown)[n + 1];
  }

  lemma FlowEnd(c: seq<Block>, base: seq<Block>, q: nat, out: seq<Byte>, buffer: Block, reading: bool, dirty: bool, size: nat)
    requires Flow(c, base, q, out, buffer, reading, dirty, size)
    ensures var n := (q + |out|) / DEV_BLOCK_SIZE;
            && |c| == |base| && n < |c| && (reading ==> !dirty)
            && (!reading ==> Overlaid(if dirty then c[n := buffer] else c, base, q, out))
            && (reading ==> Taken(base, q, out, size) && Cleared(c, base, q + size, DEV_BLOCK_SIZE * n))
  {
    var n := (q + |out|) / DEV_BLOCK_SIZE;
    if reading {
      forall k | 0 <= k < |c|
        ensures c[k] == Overlay(base[k], k, q + size, Zeros(if q + size < DEV_BLOCK_SIZE * n then DEV_BLOCK_SIZE * n - (q + size) else 0))
      {
        ClearedSector(c[k], base, q, out, size, n, k);
      }
    }
  }

  lemma ClearedSector(b: Block, base: seq<Block>, q: nat, out: seq<Byte>, size: nat, n: nat, k: nat)
    requires n == (q + |out|) / DEV_BLOCK_SIZE && k < |base| && Taken(base, q, out, size)
    requires b == if k == n then base[k] else Overlay(base[k], k, q, out)
    ensures b == Overlay(base[k], k, q + size, Zeros(if q + size < DEV_BLOCK_SIZE * n then DEV_BLOCK_SIZE * n - (q + size) else 0))
  {
    hide Taken;
    assert DEV_BLOCK_SIZE * n <= q + |out| < DEV_BLOCK_SIZE * (n + 1);
    forall j | 0 <= j < DEV_BLOCK_SIZE && k < n && q <= DEV_BLOCK_SIZE * k + j
      ensures b[j] == if DEV_BLOCK_SIZE * k + j < q + size then base[k][j] else ZERO_BYTE
    {
      TakenAt(base, q, out, size, k, j);
    }
  }

  lemma TakenAt(base: seq<Block>, q: nat, out: seq<Byte>, size: nat, k: nat, j: nat)
    requires Taken(base, q, out, size) && k < |base| && j < DEV_BLOCK_SIZE && q <= DEV_BLOCK_SIZE * k + j < q + |out|
    ensures var p := DEV_BLOCK_SIZE * k + j; out[p - q] == if p < q + size then base[k][j] else ZERO_BYTE
  {
    var p := DEV_BLOCK_SIZE * k + j;
    assert p / DEV_BLOCK_SIZE == k && p % DEV_BLOCK_SIZE == j;
    assert p - q < size ==> ByteAt(base, q + (p - q), out[p - q]);
  }

  /** The overlaid sectors denote the spliced byte sequence. */
  lemma OverlaySplices(c: seq<Block>, base: seq<Block>, old_: seq<Block>, size: nat, q: nat, w: seq<Byte>)
    requires Overlaid(c, base, q, w) && old_ <= base
    requires q <= size <= DEV_BLOCK_SIZE * |old_| && q + |w| <= DEV_BLOCK_SIZE * |c|
    ensures Shows(c, Splice(Content(old_, size), q, w))
  {
  }

  /** A read leaves the bytes the file has and returns those it asks for. */
  lemma BytesRead(c: seq<Block>, base: seq<Block>, old_: seq<Block>, extent: nat, size: nat, q: nat, to: nat, out: seq<Byte>)
    requires old_ <= base && extent <= size && extent <= DEV_BLOCK_SIZE * |old_|
    requires Taken(base, q, out, size) && Cleared(c, base, q + size, to)
    ensures Shows(c, Content(old_, extent)) && Returns(out, Content(old_, extent), q, size)
  {
    forall t | 0 <= t < |out| && q + t < extent
      ensures out[t] == Content(old_, extent)[q + t]
    {
      assert ByteAt(base, q + t, out[t]);
    }
  }

  /** A read of n bytes from the start of an empty file. */
  lemma EmptyRead(c: seq<Block>, base: seq<Block>, n: nat, out: seq<Byte>)
    requires |out| == n && n <= DEV_BLOCK_SIZE * |c| && forall k | 1 <= k < |base| :: base[k] == ZeroBlock()
    requires Taken(base, 0, out, 0) && Cleared(c, base, 0, DEV_BLOCK_SIZE * (n / DEV_BLOCK_SIZE))
    ensures out == Zeros(n) && |c| == |base| && Content(c, n) == if n < DEV_BLOCK_SIZE then Content(base, n) else Zeros(n)
  {
    hide Overlay;
    var m := DEV_BLOCK_SIZE * (n / DEV_BLOCK_SIZE);
    forall p | 0 <= p < n
      ensures Content(c, n)[p] == if n < DEV_BLOCK_SIZE then Content(base, n)[p] else ZERO_BYTE
    {
      OverlayAt(base[p / DEV_BLOCK_SIZE], p / DEV_BLOCK_SIZE, Zeros(m), p % DEV_BLOCK_SIZE);
      assert p >= m && m > 0 ==> p / DEV_BLOCK_SIZE >= 1;
    }
  }

  lemma OverlayAt(b: Block, k: nat, w: seq<Byte>, j: nat)
    requires j < DEV_BLOCK_SIZE
    ensures var p := DEV_BLOCK_SIZE * k + j; Overlay(b, k, 0, w)[j] == if p < |w| then w[p] else b[j]
  {
  }

  /** The bytes out are those of s from q on, as far as s goes, and zero behind `size` of them. */
  ghost predicate Returns(out: seq<Byte>, s: seq<Byte>, q: nat, size: nat)
  {
    && (forall t | 0 <= t < |out| && q + t < |s| :: out[t] == s[q + t])
    && forall t | size <= t < |out| :: out[t] == ZERO_BYTE
  }

  function Zeros(n: nat): (s: seq<Byte>)
    ensures |s| == n
  {
    seq<Byte>(n, _ => ZERO_BYTE)
  }

  // ---------------------------------------------------------------- seeking

  /** The scan's precomputed numbers: how many maps it reads, and the entry in the last one. */
  function ScanMaps(pos: nat): nat
  {
    var block := pos / DEV_BLOCK_SIZE + (if pos % DEV_BLOCK_SIZE != 0 then 1 else 0) + (if pos == 0 then 1 else 0);
    block / BMAP_BLOCKS + (if block % BMAP_BLOCKS != 0 then 1 else 0)
  }

  function ScanEntry(pos: nat): nat
  {
    pos / DEV_BLOCK_SIZE % BMAP_BLOCKS
  }

  const MAP_BYTES := 65024 // BMAP_BLOCKS * DEV_BLOCK_SIZE

  /** The byte of the file that a scan to pos really stands on. */
  function Landing(pos: nat): (q: nat)
    ensures q <= pos
  {
    if pos != 0 && pos % MAP_BYTES == 0 then pos - MAP_BYTES else pos
  }

  lemma ScanLands(pos: nat)
    ensures ScanMaps(pos) >= 1
    ensures BMAP_BLOCKS * (ScanMaps(pos) - 1) + ScanEntry(pos) == Landing(pos) / DEV_BLOCK_SIZE
    ensures Landing(pos) % DEV_BLOCK_SIZE == pos % DEV_BLOCK_SIZE && Landing(pos) <= pos
  {
    var a, r := pos / MAP_BYTES, pos % MAP_BYTES;
    var e, f := r / DEV_BLOCK_SIZE, r % DEV_BLOCK_SIZE;
    SectorOf(BMAP_BLOCKS * a + e, f);
    assert pos == DEV_BLOCK_SIZE * (BMAP_BLOCKS * a + e) + f;
    MapNumber(a, e);
    MapNumber(a, (e + (if f != 0 then 1 else 0) + (if pos == 0 then 1 else 0)) % BMAP_BLOCKS);
    MapNumber(a + 1, 0);
    assert ScanMaps(pos) == if pos != 0 && r == 0 then a else a + 1;
    if pos != 0 && r == 0 {
      SectorOf(BMAP_BLOCKS * (a - 1), 0);
    }
  }

  lemma SectorOf(n: nat, f: nat)
    requires f < DEV_BLOCK_SIZE
    ensures (DEV_BLOCK_SIZE * n + f) / DEV_BLOCK_SIZE == n && (DEV_BLOCK_SIZE * n + f) % DEV_BLOCK_SIZE == f
  {
  }

  lemma MapNumber(a: nat, e: nat)
    requires e < BMAP_BLOCKS
    ensures (BMAP_BLOCKS * a + e) / BMAP_BLOCKS == a && (BMAP_BLOCKS * a + e) % BMAP_BLOCKS == e
  {
  }

  /** The scan reaches the block that contains pos exactly when pos is 0 or not a multiple of 127 * 512. */
  lemma ScanExact(pos: nat)
    ensures BMAP_BLOCKS * (ScanMaps(pos) - 1) + ScanEntry(pos) == pos / DEV_BLOCK_SIZE <==> pos == 0 || pos % MAP_BYTES != 0
  {
    hide ScanMaps, ScanEntry;
    ScanLands(pos);
  }

  /** A write that scans to such a position overwrites the bytes one whole map earlier. */
  lemma MisplacedWrite(s: seq<Byte>, pos: nat, w: seq<Byte>)
    requires 0 < pos <= |s| && pos % MAP_BYTES == 0 && w != []
    ensures Splice(s, Landing(pos), w)[pos - MAP_BYTES] == w[0] && Splice(s, pos, w)[..pos] == s[..pos]
    ensures w[0] != s[pos - MAP_BYTES] ==> Splice(s, Landing(pos), w) != Splice(s, pos, w)
  {
  }
}
