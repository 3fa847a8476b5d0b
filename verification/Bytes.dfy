/**
 Machine-level values shared by the storage modules: bytes, 32-bit words, 512-byte
 sectors, the bit operations of fs/bitmap.c and the little-endian image of a block map.
 */
module Bytes {

  /** A byte is its eight bits, least significant first: bit b is v & (1 << b). */
  type Byte = s: seq<bool> | |s| == 8 witness [false, false, false, false, false, false, false, false]

  const ZERO_BYTE: Byte := [false, false, false, false, false, false, false, false]

  /** block_t: an unsigned 32-bit number. */
  type Word = w: int | 0 <= w < 0x1_0000_0000

  const DEV_BLOCK_SIZE := 512

  /** One sector: exactly DEV_BLOCK_SIZE bytes. */
  type Block = s: seq<Byte> | |s| == DEV_BLOCK_SIZE witness seq(DEV_BLOCK_SIZE, _ => ZERO_BYTE)

  function ZeroBlock(): Block
  {
    seq(DEV_BLOCK_SIZE, _ => ZERO_BYTE)
  }

  // ---------------------------------------------------------------- fs/bitmap.c

  /** bit_get. */
  predicate BitGet(data: seq<Byte>, bit: nat)
    requires bit / 8 < |data|
  {
    data[bit / 8][bit % 8]
  }

  /** bit_set: rewrites one byte of the stream. */
  function BitSet(data: seq<Byte>, bit: nat, on: bool): (r: seq<Byte>)
    requires bit / 8 < |data|
    ensures |r| == |data|
  {
    data[bit / 8 := data[bit / 8][bit % 8 := on]]
  }

  /** bit_set changes exactly one bit: position / 8 and position % 8 determine the position. */
  lemma BitSetExact(data: seq<Byte>, bit: nat, on: bool, c: nat)
    requires bit / 8 < |data| && c / 8 < |data|
    ensures BitGet(BitSet(data, bit, on), c) == if c == bit then on else BitGet(data, c)
  {
  }

  lemma BitSetSame(data: seq<Byte>, bit: nat)
    requires bit / 8 < |data|
    ensures BitSet(data, bit, BitGet(data, bit)) == data
  {
    assert data[bit / 8][bit % 8 := data[bit / 8][bit % 8]] == data[bit / 8];
  }

  // ---------------------------------------------------------------- words in sectors

  function Pow2(n: nat): nat
  {
    if n == 0 then 1 else 2 * Pow2(n - 1)
  }

  /** The n low bits of w, least significant first. */
  function Bits(w: nat, n: nat): (s: seq<bool>)
    ensures |s| == n
  {
    if n == 0 then [] else [w % 2 == 1] + Bits(w / 2, n - 1)
  }

  function Value(s: seq<bool>): (w: nat)
    ensures w < Pow2(|s|)
  {
    if s == [] then 0 else (if s[0] then 1 else 0) + 2 * Value(s[1..])
  }

  lemma ValueOfBits(w: nat, n: nat)
    requires w < Pow2(n)
    ensures Value(Bits(w, n)) == w
  {
  }

  lemma Pow2Of32()
    ensures Pow2(32) == 0x1_0000_0000
  {
    assert Pow2(8) == 256;
    assert Pow2(16) == 65536;
    assert Pow2(24) == 16777216;
  }

  const BMAP_BLOCKS := 127

  type Entries = s: seq<Word> | |s| == BMAP_BLOCKS witness seq(BMAP_BLOCKS, _ => 0)

  /** block_map_t: the number of the next map and 127 block numbers; 0 is INODE_NULL. */
  datatype BlockMap = BlockMap(next: Word, blocks: Entries)

  function NullMap(): BlockMap
  {
    BlockMap(0, seq(BMAP_BLOCKS, _ => 0))
  }

  /** The map as the 128 words it occupies. */
  function MapWord(m: BlockMap, i: nat): Word
    requires i <= BMAP_BLOCKS
  {
    if i == 0 then m.next else m.blocks[i - 1]
  }

  function WordAt(b: Block, i: nat): Word
    requires i < 128
  {
    Pow2Of32();
    Value(Join(b[4 * i], b[4 * i + 1], b[4 * i + 2], b[4 * i + 3]))
  }

  function Join(b0: seq<bool>, b1: seq<bool>, b2: seq<bool>, b3: seq<bool>): seq<bool>
  {
    b0 + b1 + b2 + b3
  }

  /** Byte j of a word, least significant first. */
  function WordByte(w: Word, j: nat): Byte
    requires j < 4
  {
    Bits(w, 32)[8 * j..8 * j + 8]
  }

  /** The sector that (char *)&bmap denotes on a little-endian machine. */
  function EncodeMap(m: BlockMap): Block
  {
    seq(DEV_BLOCK_SIZE, k requires 0 <= k < DEV_BLOCK_SIZE => WordByte(MapWord(m, k / 4), k % 4))
  }

  /** The block map read back from a sector. */
  function DecodeMap(b: Block): BlockMap
  {
    BlockMap(WordAt(b, 0), seq(BMAP_BLOCKS, i requires 0 <= i < BMAP_BLOCKS => WordAt(b, i + 1)))
  }

  /** The four bytes of a word make the word again. */
  lemma WordFromBytes(w: Word)
    ensures Value(Join(WordByte(w, 0), WordByte(w, 1), WordByte(w, 2), WordByte(w, 3))) == w
  {
    assert Join(WordByte(w, 0), WordByte(w, 1), WordByte(w, 2), WordByte(w, 3)) == Bits(w, 32);
    Pow2Of32();
    ValueOfBits(w, 32);
  }

  lemma EncodedWord(m: BlockMap, i: nat)
    requires i < 128
    ensures WordAt(EncodeMap(m), i) == MapWord(m, i)
  {
    var w, e := MapWord(m, i), EncodeMap(m);
    assert e[4 * i] == WordByte(w, 0) && e[4 * i + 1] == WordByte(w, 1);
    assert e[4 * i + 2] == WordByte(w, 2) && e[4 * i + 3] == WordByte(w, 3);
    WordFromBytes(w);
  }

  lemma DecodeEncodeMap(m: BlockMap)
    ensures DecodeMap(EncodeMap(m)) == m
  {
    EncodedWord(m, 0);
    forall i | 0 <= i < BMAP_BLOCKS
      ensures DecodeMap(EncodeMap(m)).blocks[i] == m.blocks[i]
    {
      EncodedWord(m, i + 1);
    }
  }

  lemma ZeroBits(n: nat)
    ensures forall i | 0 <= i < n :: !Bits(0, n)[i]
  {
  }

  /** A zeroed sector reads as an empty map, which is how new maps are made. */
  lemma DecodeZero()
    ensures DecodeMap(ZeroBlock()) == NullMap()
  {
    ZeroBits(32);
    forall k | 0 <= k < DEV_BLOCK_SIZE
      ensures EncodeMap(NullMap())[k] == ZERO_BYTE
    {
      assert MapWord(NullMap(), k / 4) == 0;
    }
    assert EncodeMap(NullMap()) == ZeroBlock();
    DecodeEncodeMap(NullMap());
  }
}
