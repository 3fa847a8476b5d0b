/**
 The sector of an inode_t in include/ox/fs/inode.h, as far as directories and files care: the
 path it carries and the number of its first map.
 */
module InodeSpec {
  import opened Bytes
  import P = PathSpec

  /** Offsets of size, path and next in an inode_t of 512 bytes. */
  const SIZE_AT := 36
  const PATH_AT := 84
  const NEXT_AT := 508

  type Name = seq<Byte>

  /** A C string that fits the path field. */
  predicate IsName(name: Name)
  {
    |name| < P.MAX_PATH && ZERO_BYTE !in name
  }

  function UpToZero(s: seq<Byte>): Name
  {
    if s == [] || s[0] == ZERO_BYTE then [] else [s[0]] + UpToZero(s[1..])
  }

  function NameOf(sector: Block): Name
  {
    UpToZero(sector[PATH_AT..PATH_AT + P.MAX_PATH])
  }

  function NextOf(sector: Block): Word
  {
    WordAt(sector, NEXT_AT / 4)
  }

  /** The sector with another `next`. */
  function WithNext(sector: Block, next: Word): Block
  {
    sector[..NEXT_AT] + [WordByte(next, 0), WordByte(next, 1), WordByte(next, 2), WordByte(next, 3)]
  }

  /** The 64-bit size, low word first. */
  function SizeOf(sector: Block): nat
  {
    WordAt(sector, SIZE_AT / 4) + 0x1_0000_0000 * WordAt(sector, SIZE_AT / 4 + 1)
  }

  /** The sector with another word number i. */
  function WithWord(sector: Block, i: nat, w: Word): Block
    requires i < 128
  {
    sector[..4 * i] + [WordByte(w, 0), WordByte(w, 1), WordByte(w, 2), WordByte(w, 3)] + sector[4 * i + 4..]
  }

  lemma WithWordAt(sector: Block, i: nat, w: Word)
    requires i < 128
    ensures WordAt(WithWord(sector, i, w), i) == w
    ensures forall k | 0 <= k < DEV_BLOCK_SIZE && !(4 * i <= k < 4 * i + 4) :: WithWord(sector, i, w)[k] == sector[k]
  {
    hide WordByte, Value;
    var b := WithWord(sector, i, w);
    WordFromBytes(w);
    assert b[4 * i] == WordByte(w, 0) && b[4 * i + 1] == WordByte(w, 1);
    assert b[4 * i + 2] == WordByte(w, 2) && b[4 * i + 3] == WordByte(w, 3);
  }

  lemma SameWord(a: Block, b: Block, j: nat)
    requires j < 128 && forall k | 4 * j <= k < 4 * j + 4 :: a[k] == b[k]
    ensures WordAt(a, j) == WordAt(b, j)
  {
    hide Value;
  }

  /** The sector with another size, as far as 64 bits go. */
  function WithSize(sector: Block, size: nat): Block
  {
    WithWord(WithWord(sector, SIZE_AT / 4, size % 0x1_0000_0000), SIZE_AT / 4 + 1, size / 0x1_0000_0000 % 0x1_0000_0000)
  }

  lemma WithSizeOf(sector: Block, size: nat)
    ensures SizeOf(WithSize(sector, size)) == size % 0x1_0000_0000_0000_0000
    ensures NameOf(WithSize(sector, size)) == NameOf(sector) && NextOf(WithSize(sector, size)) == NextOf(sector)
  {
    hide UpToZero, WordAt, WithWord;
    var low, high := size % 0x1_0000_0000, size / 0x1_0000_0000 % 0x1_0000_0000;
    var a, b := WithWord(sector, SIZE_AT / 4, low), WithSize(sector, size);
    WithWordAt(sector, SIZE_AT / 4, low);
    WithWordAt(a, SIZE_AT / 4 + 1, high);
    SameWord(a, b, SIZE_AT / 4);
    SameWord(sector, b, NEXT_AT / 4);
    TwoWords(size);
    assert b[PATH_AT..PATH_AT + P.MAX_PATH] == sector[PATH_AT..PATH_AT + P.MAX_PATH];
  }

  lemma TwoWords(n: nat)
    ensures n % 0x1_0000_0000 + 0x1_0000_0000 * (n / 0x1_0000_0000 % 0x1_0000_0000) == n % 0x1_0000_0000_0000_0000
  {
    var q, r := n / 0x1_0000_0000, n % 0x1_0000_0000;
    var h, l := q / 0x1_0000_0000, q % 0x1_0000_0000;
    Remainder(n, h, 0x1_0000_0000 * l + r);
  }

  lemma Remainder(n: nat, h: nat, x: nat)
    requires x < 0x1_0000_0000_0000_0000 && n == 0x1_0000_0000_0000_0000 * h + x
    ensures n % 0x1_0000_0000_0000_0000 == x
  {
  }

  /** A new inode: cleared, named, and whatever its other fields are. */
  function NewInode(fields: Block, name: Name): Block
    requires IsName(name)
  {
    WithNext(fields[..PATH_AT] + name + ZeroBlock()[..P.MAX_PATH - |name|] + fields[PATH_AT + P.MAX_PATH..], 0)
  }

  lemma WithNextOf(sector: Block, next: Word)
    ensures NextOf(WithNext(sector, next)) == next && NameOf(WithNext(sector, next)) == NameOf(sector)
  {
    var b := WithNext(sector, next);
    WordFromBytes(next);
    assert b[PATH_AT..PATH_AT + P.MAX_PATH] == sector[PATH_AT..PATH_AT + P.MAX_PATH];
  }

  lemma {:induction false} TerminatedName(name: Name, rest: seq<Byte>)
    requires ZERO_BYTE !in name && rest != [] && rest[0] == ZERO_BYTE
    ensures UpToZero(name + rest) == name
  {
    if name != [] {
      assert name[0] in name && forall c | c in name[1..] :: c in name;
      TerminatedName(name[1..], rest);
      assert (name + rest)[1..] == name[1..] + rest;
    } else {
      assert name + rest == rest;
    }
  }

  lemma NewInodeNamed(fields: Block, name: Name)
    requires IsName(name)
    ensures NameOf(NewInode(fields, name)) == name && NextOf(NewInode(fields, name)) == 0
  {
    var zeros := ZeroBlock()[..P.MAX_PATH - |name|];
    var b: Block := fields[..PATH_AT] + name + zeros + fields[PATH_AT + P.MAX_PATH..];
    WithNextOf(b, 0);
    assert b[PATH_AT..PATH_AT + P.MAX_PATH] == name + zeros;
    TerminatedName(name, zeros);
  }

  lemma NewInodeSize(fields: Block, name: Name)
    requires IsName(name)
    ensures SizeOf(NewInode(fields, name)) == SizeOf(fields)
  {
    hide WordAt, NewInode;
    forall k | 0 <= k < PATH_AT
      ensures NewInode(fields, name)[k] == fields[k]
    {
      NewInodeKeeps(fields, name, k);
    }
    SameWord(NewInode(fields, name), fields, SIZE_AT / 4);
    SameWord(NewInode(fields, name), fields, SIZE_AT / 4 + 1);
  }

  /** Everything but the path and `next` is as given. */
  lemma NewInodeKeeps(fields: Block, name: Name, i: nat)
    requires IsName(name) && i < DEV_BLOCK_SIZE && !(PATH_AT <= i < PATH_AT + P.MAX_PATH) && i < NEXT_AT
    ensures NewInode(fields, name)[i] == fields[i]
  {
  }
}
