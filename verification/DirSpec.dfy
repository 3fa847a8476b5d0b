/**
 Directories of fs/inode.c on values: a chain of 127-entry maps whose non-null entries are inode
 blocks, the names those blocks hold, the scan that looks a name up, and what a new entry changes.
 */
module DirSpec {
  import opened Bytes
  import opened CacheSpec
  import opened InodeSpec

  // ---------------------------------------------------------------- chains of maps

  function Following(chain: seq<Word>, k: nat): Word
  {
    if k < |chain| then chain[k] else 0
  }

  /** The maps reached from `first` are exactly chain. */
  ghost predicate Chain(first: Word, maps: map<Word, BlockMap>, chain: seq<Word>)
  {
    && first == Following(chain, 0)
    && (forall c | c in chain :: c in maps && c != 0)
    && (forall j, k | 0 <= j < k < |chain| :: chain[j] != chain[k])
    && forall k | 0 <= k < |chain| :: maps[chain[k]].next == Following(chain, k + 1)
  }

  /** Changing entries of a map keeps the chain. */
  lemma Relisted(first: Word, maps: map<Word, BlockMap>, chain: seq<Word>, c: Word, m: BlockMap)
    requires Chain(first, maps, chain) && c in maps && m.next == maps[c].next
    ensures Chain(first, maps[c := m], chain)
  {
  }

  /** Linking a new last map, behind the old last one or as the first. */
  lemma Extended(first: Word, maps: map<Word, BlockMap>, chain: seq<Word>, b: Word, m: BlockMap)
    requires Chain(first, maps, chain) && b != 0 && b !in chain && m.next == 0
    ensures chain == [] ==> Chain(b, maps[b := m], chain + [b])
    ensures chain != [] ==>
              var last := chain[|chain| - 1];
              Chain(first, maps[last := maps[last].(next := b)][b := m], chain + [b])
  {
  }

  /** All entries of a chain, in scan order; 0 is a hole. */
  ghost function SlotsOf(maps: map<Word, BlockMap>, chain: seq<Word>): (s: seq<Word>)
    requires forall c | c in chain :: c in maps
    ensures |s| == BMAP_BLOCKS * |chain|
  {
    if chain == [] then [] else SlotsOf(maps, chain[..|chain| - 1]) + maps[chain[|chain| - 1]].blocks
  }

  lemma {:induction false} SlotIndex(maps: map<Word, BlockMap>, chain: seq<Word>, k: nat, j: nat)
    requires (forall c | c in chain :: c in maps) && k < |chain| && j < BMAP_BLOCKS
    ensures SlotsOf(maps, chain)[BMAP_BLOCKS * k + j] == maps[chain[k]].blocks[j]
    decreases |chain|
  {
    var n := |chain| - 1;
    if k < n {
      SlotIndex(maps, chain[..n], k, j);
    }
  }

  /** Setting one entry of one map sets one slot. */
  lemma RelistedSlots(maps: map<Word, BlockMap>, chain: seq<Word>, k: nat, j: nat, b: Word)
    requires (forall c | c in chain :: c in maps) && k < |chain| && j < BMAP_BLOCKS
    requires forall i, l | 0 <= i < l < |chain| :: chain[i] != chain[l]
    ensures var m := maps[chain[k]];
            SlotsOf(maps[chain[k] := m.(blocks := m.blocks[j := b])], chain) == SlotsOf(maps, chain)[BMAP_BLOCKS * k + j := b]
  {
    hide SlotsOf;
    var m := maps[chain[k]];
    var maps' := maps[chain[k] := m.(blocks := m.blocks[j := b])];
    forall n | 0 <= n < BMAP_BLOCKS * |chain|
      ensures SlotsOf(maps', chain)[n] == SlotsOf(maps, chain)[BMAP_BLOCKS * k + j := b][n]
    {
      SlotIndex(maps', chain, n / BMAP_BLOCKS, n % BMAP_BLOCKS);
      SlotIndex(maps, chain, n / BMAP_BLOCKS, n % BMAP_BLOCKS);
    }
  }

  /** Maps outside the chain do not matter. */
  lemma {:induction false} SlotsFrame(maps: map<Word, BlockMap>, maps': map<Word, BlockMap>, chain: seq<Word>)
    requires forall c | c in chain :: c in maps && c in maps' && maps'[c].blocks == maps[c].blocks
    ensures SlotsOf(maps', chain) == SlotsOf(maps, chain)
    decreases |chain|
  {
    if chain != [] {
      SlotsFrame(maps, maps', chain[..|chain| - 1]);
    }
  }

  ghost predicate NamesUnique(slots: seq<Word>, names: map<Word, Name>)
  {
    && (forall n | 0 <= n < |slots| && slots[n] != 0 :: slots[n] in names)
    && (forall m, n | 0 <= m < n < |slots| && slots[m] != 0 && slots[n] != 0 :: names[slots[m]] != names[slots[n]])
  }

  /** Map number k holds the slots from 127 * k on, all of them named. */
  lemma Listed(maps: map<Word, BlockMap>, chain: seq<Word>, names: map<Word, Name>, k: nat)
    requires (forall c | c in chain :: c in maps) && k < |chain| && NamesUnique(SlotsOf(maps, chain), names)
    ensures var blocks := maps[chain[k]].blocks;
            && SlotsOf(maps, chain)[BMAP_BLOCKS * k..BMAP_BLOCKS * (k + 1)] == blocks
            && forall j | 0 <= j < BMAP_BLOCKS && blocks[j] != 0 :: blocks[j] in names
  {
    hide SlotsOf;
    var blocks := maps[chain[k]].blocks;
    forall j | 0 <= j < BMAP_BLOCKS
      ensures SlotsOf(maps, chain)[BMAP_BLOCKS * k + j] == blocks[j]
    {
      SlotIndex(maps, chain, k, j);
    }
    assert SlotsOf(maps, chain)[BMAP_BLOCKS * k..BMAP_BLOCKS * (k + 1)] == blocks;
  }

  /** What the scan for a name returns: the first entry carrying it, or 0. */
  ghost function Lookup(slots: seq<Word>, names: map<Word, Name>, name: Name): (b: Word)
    ensures b != 0 ==> b in slots && b in names && names[b] == name
    ensures b == 0 ==> forall n | 0 <= n < |slots| && slots[n] != 0 && slots[n] in names :: names[slots[n]] != name
  {
    if slots == [] then 0
    else if slots[0] != 0 && slots[0] in names && names[slots[0]] == name then slots[0]
    else Lookup(slots[1..], names, name)
  }

  lemma {:induction false} LookupNone(slots: seq<Word>, names: map<Word, Name>, name: Name)
    requires forall n | 0 <= n < |slots| && slots[n] != 0 && slots[n] in names :: names[slots[n]] != name
    ensures Lookup(slots, names, name) == 0
  {
    if slots != [] {
      assert slots[0] != 0 && slots[0] in names ==> names[slots[0]] != name;
      LookupNone(slots[1..], names, name);
    }
  }

  /** With unique names the entry carrying a name is the one found. */
  lemma {:induction false} LookupFinds(slots: seq<Word>, names: map<Word, Name>, n: nat)
    requires NamesUnique(slots, names) && n < |slots| && slots[n] != 0
    ensures Lookup(slots, names, names[slots[n]]) == slots[n]
  {
    var b := Lookup(slots, names, names[slots[n]]);
    if b != 0 {
      var m :| 0 <= m < |slots| && slots[m] == b;
      assert m == n || b == slots[n];
    }
  }

  /** One more entry in a hole: exactly its own name changes, for every name. */
  lemma AddEntry(slots: seq<Word>, slots': seq<Word>, names: map<Word, Name>, n: nat, b: Word, name: Name)
    requires NamesUnique(slots, names) && Lookup(slots, names, name) == 0
    requires SlotAdded(slots, slots', n, b)
    ensures NamesUnique(slots', names[b := name])
    ensures forall other :: Lookup(slots', names[b := name], other) == if other == name then b else Lookup(slots, names, other)
  {
    var names' := names[b := name];
    assert NamesUnique(slots', names');
    hide NamesUnique;
    forall other
      ensures Lookup(slots', names', other) == if other == name then b else Lookup(slots, names, other)
    {
      if other == name {
        LookupFinds(slots', names', n);
      } else {
        var f := Lookup(slots, names, other);
        if f != 0 {
          var m :| 0 <= m < |slots| && slots[m] == f;
          assert slots'[m] == f && names'[f] == other;
          LookupFinds(slots', names', m);
        } else {
          var g := Lookup(slots', names', other);
          assert g != 0 ==> g != b && g in slots;
        }
      }
    }
  }

  // ---------------------------------------------------------------- directories in a store

  ghost function MapsAt(v: Store, dev: int, chain: seq<Word>): map<Word, BlockMap>
  {
    map c | c in chain :: DecodeMap(At(v, dev, c))
  }

  lemma AtUpdated(v: Store, dev: int, c: Word, x: Block)
    ensures At(v[Key(dev, c) := x], dev, c) == x
    ensures forall b | b != c :: At(v[Key(dev, c) := x], dev, b) == At(v, dev, b)
  {
  }

  /** Rewriting one sector rewrites one map, if it is one. */
  lemma MapsUpdated(v: Store, dev: int, chain: seq<Word>, c: Word, x: Block)
    ensures MapsAt(v[Key(dev, c) := x], dev, chain) == if c in chain then MapsAt(v, dev, chain)[c := DecodeMap(x)] else MapsAt(v, dev, chain)
  {
    hide At, DecodeMap;
    AtUpdated(v, dev, c, x);
  }

  /** The maps reached from the inode at self are exactly chain. */
  ghost predicate Linked(v: Store, dev: int, self: Word, chain: seq<Word>)
  {
    Chain(NextOf(At(v, dev, self)), MapsAt(v, dev, chain), chain)
  }

  ghost function SlotsAt(v: Store, dev: int, chain: seq<Word>): (s: seq<Word>)
    ensures |s| == BMAP_BLOCKS * |chain|
  {
    SlotsOf(MapsAt(v, dev, chain), chain)
  }

  ghost function NamesAt(v: Store, dev: int, slots: seq<Word>): map<Word, Name>
  {
    map b | b in slots && b != 0 :: NameOf(At(v, dev, b))
  }

  /** A directory: its chain is linked and no two entries carry the same name. */
  ghost predicate DirOk(v: Store, dev: int, self: Word, chain: seq<Word>)
  {
    Linked(v, dev, self, chain) && NamesUnique(SlotsAt(v, dev, chain), NamesAt(v, dev, SlotsAt(v, dev, chain)))
  }

  /** The directory as a map from names to inode blocks; 0 where there is no entry. */
  ghost function EntryAt(v: Store, dev: int, chain: seq<Word>, name: Name): Word
  {
    var slots := SlotsAt(v, dev, chain);
    Lookup(slots, NamesAt(v, dev, slots), name)
  }

  /** None of the first n entries carries the name. */
  ghost predicate NotAmong(v: Store, dev: int, slots: seq<Word>, n: nat, name: Name)
  {
    n <= |slots| && forall m | 0 <= m < n && slots[m] != 0 :: NameOf(At(v, dev, slots[m])) != name
  }

  lemma NotInMap(v: Store, dev: int, slots: seq<Word>, k: nat, blocks: seq<Word>, name: Name)
    requires NotAmong(v, dev, slots, BMAP_BLOCKS * k, name)
    requires BMAP_BLOCKS * (k + 1) <= |slots| && slots[BMAP_BLOCKS * k..BMAP_BLOCKS * (k + 1)] == blocks
    requires forall b | b in blocks && b != 0 :: NameOf(At(v, dev, b)) != name
    ensures NotAmong(v, dev, slots, BMAP_BLOCKS * (k + 1), name)
  {
    forall m | BMAP_BLOCKS * k <= m < BMAP_BLOCKS * (k + 1)
      ensures slots[m] in blocks
    {
      assert slots[m] == blocks[m - BMAP_BLOCKS * k];
    }
  }

  /** The scan's two results are the lookup's. */
  lemma ScanResult(v: Store, dev: int, chain: seq<Word>, name: Name, found: Word)
    requires NamesUnique(SlotsAt(v, dev, chain), NamesAt(v, dev, SlotsAt(v, dev, chain)))
    requires var slots := SlotsAt(v, dev, chain);
             if found == 0 then NotAmong(v, dev, slots, |slots|, name) else found in slots && NameOf(At(v, dev, found)) == name
    ensures EntryAt(v, dev, chain, name) == found
  {
    hide SlotsOf;
    var slots := SlotsAt(v, dev, chain);
    var names := NamesAt(v, dev, slots);
    if found != 0 {
      var n :| 0 <= n < |slots| && slots[n] == found;
      LookupFinds(slots, names, n);
    } else {
      LookupNone(slots, names, name);
    }
  }

  /** The sectors a directory consists of: its inode, its maps and the inodes of its entries. */
  ghost predicate Part(v: Store, dev: int, self: Word, chain: seq<Word>, b: Word)
  {
    b == self || b in chain || (b != 0 && b in SlotsAt(v, dev, chain))
  }

  /** Stores that agree on a directory's maps, on where they start and on the names of its entries show the same directory. */
  lemma KeepDir(v: Store, v': Store, dev: int, self: Word, chain: seq<Word>)
    requires NextOf(At(v', dev, self)) == NextOf(At(v, dev, self))
    requires forall c | c in chain :: At(v', dev, c) == At(v, dev, c)
    requires forall e | e in SlotsAt(v, dev, chain) && e != 0 :: NameOf(At(v', dev, e)) == NameOf(At(v, dev, e))
    ensures MapsAt(v', dev, chain) == MapsAt(v, dev, chain) && SlotsAt(v', dev, chain) == SlotsAt(v, dev, chain)
    ensures var slots := SlotsAt(v, dev, chain); NamesAt(v', dev, slots) == NamesAt(v, dev, slots)
    ensures Linked(v', dev, self, chain) <==> Linked(v, dev, self, chain)
  {
    hide SlotsOf, Chain, NameOf, NextOf, DecodeMap, Look;
    assert MapsAt(v', dev, chain) == MapsAt(v, dev, chain);
    var slots := SlotsAt(v, dev, chain);
    assert NamesAt(v', dev, slots) == NamesAt(v, dev, slots);
  }

  /** The store once map k holds b in entry j. */
  ghost function Filled(v: Store, dev: int, chain: seq<Word>, k: nat, j: nat, b: Word): Store
    requires k < |chain| && j < BMAP_BLOCKS
  {
    var m := DecodeMap(At(v, dev, chain[k]));
    v[Key(dev, chain[k]) := EncodeMap(m.(blocks := m.blocks[j := b]))]
  }

  /** Rewriting map k with b in entry j. */
  lemma FillSlot(v: Store, v': Store, dev: int, self: Word, chain: seq<Word>, k: nat, j: nat, b: Word)
    requires Linked(v, dev, self, chain) && self !in chain && k < |chain| && j < BMAP_BLOCKS
    requires v' == Filled(v, dev, chain, k, j, b)
    ensures Linked(v', dev, self, chain) && SlotsAt(v', dev, chain) == SlotsAt(v, dev, chain)[BMAP_BLOCKS * k + j := b]
  {
    var maps, c := MapsAt(v, dev, chain), chain[k];
    var m := maps[c].(blocks := maps[c].blocks[j := b]);
    hide SlotsOf, Chain, At, DecodeMap, EncodeMap, NextOf;
    DecodeEncodeMap(m);
    MapsUpdated(v, dev, chain, c, EncodeMap(m));
    AtUpdated(v, dev, c, EncodeMap(m));
    Relisted(NextOf(At(v, dev, self)), maps, chain, c, m);
    ChainDistinct(NextOf(At(v, dev, self)), maps, chain);
    RelistedSlots(maps, chain, k, j, b);
  }

  lemma ChainDistinct(first: Word, maps: map<Word, BlockMap>, chain: seq<Word>)
    requires Chain(first, maps, chain)
    ensures (forall c | c in chain :: c in maps && c != 0) && forall j, k | 0 <= j < k < |chain| :: chain[j] != chain[k]
  {
  }

  lemma MapsSnoc(v: Store, dev: int, chain: seq<Word>, c: Word)
    ensures MapsAt(v, dev, chain + [c]) == MapsAt(v, dev, chain)[c := DecodeMap(At(v, dev, c))]
  {
  }

  /** What the link changes. */
  lemma LinkedMaps(v: Store, dev: int, self: Word, chain: seq<Word>, block: Word)
    requires Linked(v, dev, self, chain) && self !in chain
    ensures var v1 := LinkTo(v, dev, self, chain, block);
            var maps := MapsAt(v, dev, chain);
            && NextOf(At(v1, dev, self)) == (if chain == [] then block else NextOf(At(v, dev, self)))
            && MapsAt(v1, dev, chain) == (if chain == [] then maps else maps[chain[|chain| - 1] := maps[chain[|chain| - 1]].(next := block)])
            && NameOf(At(v1, dev, self)) == NameOf(At(v, dev, self))
            && forall b | b != self && b !in chain :: At(v1, dev, b) == At(v, dev, b)
  {
    hide Chain, DecodeMap, EncodeMap, NextOf, NameOf, WithNext;
    if chain == [] {
      var x := WithNext(At(v, dev, self), block);
      WithNextOf(At(v, dev, self), block);
      MapsUpdated(v, dev, chain, self, x);
      AtUpdated(v, dev, self, x);
    } else {
      var last := chain[|chain| - 1];
      var m := DecodeMap(At(v, dev, last)).(next := block);
      DecodeEncodeMap(m);
      MapsUpdated(v, dev, chain, last, EncodeMap(m));
      AtUpdated(v, dev, last, EncodeMap(m));
    }
  }

  lemma AppendSlots(maps: map<Word, BlockMap>, chain: seq<Word>, block: Word)
    requires forall c | c in chain + [block] :: c in maps
    ensures SlotsOf(maps, chain + [block]) == SlotsOf(maps, chain) + maps[block].blocks
  {
    assert (chain + [block])[..|chain|] == chain;
  }

  /** The store once the chain has been linked to block: in its last map, or in the inode if it has none. */
  ghost function LinkTo(v: Store, dev: int, self: Word, chain: seq<Word>, block: Word): Store
  {
    if chain == [] then v[Key(dev, self) := WithNext(At(v, dev, self), block)]
    else
      var last := chain[|chain| - 1];
      v[Key(dev, last) := EncodeMap(DecodeMap(At(v, dev, last)).(next := block))]
  }

  /** The last `next` of a chain: in its last map, or in the inode. */
  ghost function EndOf(v: Store, dev: int, self: Word, chain: seq<Word>): Word
  {
    if chain == [] then NextOf(At(v, dev, self)) else DecodeMap(At(v, dev, chain[|chain| - 1])).next
  }

  lemma LinkEnds(v: Store, v1: Store, dev: int, self: Word, chain: seq<Word>, block: Word)
    requires forall b | b == self || b in chain :: At(v1, dev, b) == At(LinkTo(v, dev, self, chain, block), dev, b)
    ensures EndOf(v1, dev, self, chain) == block
  {
    hide DecodeMap, EncodeMap, NextOf, WithNext, NameOf;
    if chain == [] {
      WithNextOf(At(v, dev, self), block);
    } else {
      var last := chain[|chain| - 1];
      assert last in chain;
      DecodeEncodeMap(DecodeMap(At(v, dev, last)).(next := block));
    }
  }

  /** slots1 is slots with the entry b put where there was a hole or nothing, and holes behind it. */
  ghost predicate SlotAdded(slots: seq<Word>, slots1: seq<Word>, n: nat, b: Word)
  {
    && b != 0 && b !in slots && n < |slots1| && slots1[n] == b && |slots| <= |slots1|
    && (forall m | 0 <= m < |slots1| && m != n :: slots1[m] == if m < |slots| then slots[m] else 0)
    && (n < |slots| ==> slots[n] == 0)
  }

  lemma SlotFilled(slots: seq<Word>, n: nat, b: Word)
    requires n < |slots| && slots[n] == 0 && b != 0 && b !in slots
    ensures SlotAdded(slots, slots[n := b], n, b)
  {
  }

  lemma SlotAppended(slots: seq<Word>, b: Word)
    requires b != 0 && b !in slots
    ensures SlotAdded(slots, slots + NullMap().blocks[0 := b], |slots|, b)
  {
  }

  /** Between v and v1 the entry b has been listed at n, and the inodes of the other entries have not changed. */
  ghost predicate Added(v: Store, v1: Store, dev: int, chain: seq<Word>, chain1: seq<Word>, n: nat, b: Word)
  {
    && b !in chain1 && SlotAdded(SlotsAt(v, dev, chain), SlotsAt(v1, dev, chain1), n, b)
    && forall e | e in SlotsAt(v, dev, chain) && e != 0 :: At(v1, dev, e) == At(v, dev, e)
  }

  lemma HoleSlot(v: Store, dev: int, self: Word, chain: seq<Word>, k: nat, j: nat)
    requires k < |chain| && j < BMAP_BLOCKS
    ensures BMAP_BLOCKS * k + j < BMAP_BLOCKS * |chain| == |SlotsAt(v, dev, chain)|
    ensures SlotsAt(v, dev, chain)[BMAP_BLOCKS * k + j] == DecodeMap(At(v, dev, chain[k])).blocks[j]
  {
    hide SlotsOf, DecodeMap, Look;
    SlotIndex(MapsAt(v, dev, chain), chain, k, j);
    assert chain[k] in chain;
  }

  /** The entry b written into the hole j of map k. */
  lemma HoleAdded(v: Store, v': Store, dev: int, self: Word, chain: seq<Word>, k: nat, j: nat, b: Word)
    requires Linked(v, dev, self, chain) && self !in chain && k < |chain| && j < BMAP_BLOCKS
    requires b != 0 && b !in chain && b !in SlotsAt(v, dev, chain)
    requires forall e | e in SlotsAt(v, dev, chain) && e != 0 :: e !in chain
    requires DecodeMap(At(v, dev, chain[k])).blocks[j] == 0 && v' == Filled(v, dev, chain, k, j, b)
    ensures Linked(v', dev, self, chain) && Added(v, v', dev, chain, chain, BMAP_BLOCKS * k + j, b)
  {
    hide SlotAdded, SlotsAt, Chain, At, DecodeMap, EncodeMap, NextOf, Linked;
    HoleSlot(v, dev, self, chain, k, j);
    FillSlot(v, v', dev, self, chain, k, j, b);
    SlotFilled(SlotsAt(v, dev, chain), BMAP_BLOCKS * k + j, b);
    var m := DecodeMap(At(v, dev, chain[k]));
    AtUpdated(v, dev, chain[k], EncodeMap(m.(blocks := m.blocks[j := b])));
    assert chain[k] in chain;
  }

  /** A map with the one entry b, as a sector. */
  function ListOf(b: Word): Block
  {
    EncodeMap(NullMap().(blocks := NullMap().blocks[0 := b]))
  }

  /** The entry b alone in a new map that the chain has been linked to. */
  lemma MapAdded(v: Store, v': Store, dev: int, self: Word, chain: seq<Word>, block: Word, b: Word)
    requires Linked(v, dev, self, chain) && self !in chain && block != 0 && block !in chain && block != self
    requires b != 0 && b !in chain + [block] && b !in SlotsAt(v, dev, chain)
    requires forall c | c == self || c in chain :: At(v', dev, c) == At(LinkTo(v, dev, self, chain, block), dev, c)
    requires At(v', dev, block) == ListOf(b)
    requires forall e | e in SlotsAt(v, dev, chain) && e != 0 :: At(v', dev, e) == At(v, dev, e)
    ensures Linked(v', dev, self, chain + [block])
    ensures Added(v, v', dev, chain, chain + [block], BMAP_BLOCKS * |chain|, b)
  {
    var m := NullMap().(blocks := NullMap().blocks[0 := b]);
    SlotAppended(SlotsAt(v, dev, chain), b);
    hide SlotAdded, SlotsAt, Chain, At, DecodeMap, EncodeMap, NextOf, LinkTo, Linked, NullMap;
    DecodeEncodeMap(m);
    DanglingExact(v, v', dev, self, chain, block);
  }

  /** The new entry once its inode holds `sector`: exactly that sector's name changes. */
  lemma NameEntry(v: Store, v1: Store, v2: Store, dev: int, chain: seq<Word>, chain1: seq<Word>, n: nat, b: Word, sector: Block)
    requires NamesUnique(SlotsAt(v, dev, chain), NamesAt(v, dev, SlotsAt(v, dev, chain)))
    requires EntryAt(v, dev, chain, NameOf(sector)) == 0 && Added(v, v1, dev, chain, chain1, n, b)
    requires At(v2, dev, b) == sector && forall e | e != b :: At(v2, dev, e) == At(v1, dev, e)
    ensures SlotsAt(v2, dev, chain1) == SlotsAt(v1, dev, chain1)
    ensures NamesUnique(SlotsAt(v2, dev, chain1), NamesAt(v2, dev, SlotsAt(v2, dev, chain1)))
    ensures forall other :: EntryAt(v2, dev, chain1, other) == if other == NameOf(sector) then b else EntryAt(v, dev, chain, other)
  {
    hide SlotsOf, NamesUnique, Lookup, NameOf, DecodeMap, Look;
    SameMaps(v1, v2, dev, chain1);
    var slots, slots1 := SlotsAt(v, dev, chain), SlotsAt(v1, dev, chain1);
    var names := NamesAt(v, dev, slots);
    SameMembers(slots, slots1, n, b);
    assert NamesAt(v2, dev, slots1) == names[b := NameOf(sector)];
    AddEntry(slots, slots1, names, n, b, NameOf(sector));
  }

  /** If its inode carries a name that is already there, the names are no longer unique. */
  lemma NameClash(v: Store, v1: Store, dev: int, chain: seq<Word>, chain1: seq<Word>, n: nat, b: Word)
    requires Added(v, v1, dev, chain, chain1, n, b) && EntryAt(v, dev, chain, NameOf(At(v1, dev, b))) != 0
    ensures !NamesUnique(SlotsAt(v1, dev, chain1), NamesAt(v1, dev, SlotsAt(v1, dev, chain1)))
  {
    hide SlotsOf, NameOf, DecodeMap, Look;
    var slots, slots1 := SlotsAt(v, dev, chain), SlotsAt(v1, dev, chain1);
    SameMembers(slots, slots1, n, b);
    var e := EntryAt(v, dev, chain, NameOf(At(v1, dev, b)));
    Clash(slots1, NamesAt(v1, dev, slots1), b, e);
  }

  lemma AddedApart(v: Store, v1: Store, dev: int, chain: seq<Word>, chain1: seq<Word>, n: nat, b: Word)
    requires Added(v, v1, dev, chain, chain1, n, b)
    ensures b !in chain1
  {
  }

  /** Entries in use before and the new one: all the entries there are. */
  lemma AddedMembers(v: Store, v1: Store, dev: int, chain: seq<Word>, chain1: seq<Word>, n: nat, b: Word)
    requires Added(v, v1, dev, chain, chain1, n, b)
    ensures forall e | e != 0 && e in SlotsAt(v1, dev, chain1) :: e in SlotsAt(v, dev, chain) || e == b
  {
    hide SlotsAt;
    SameMembers(SlotsAt(v, dev, chain), SlotsAt(v1, dev, chain1), n, b);
  }

  lemma AddedExactly(v: Store, v1: Store, dev: int, chain: seq<Word>, chain1: seq<Word>, n: nat, b: Word)
    requires Added(v, v1, dev, chain, chain1, n, b)
    ensures forall e | e != 0 :: e in SlotsAt(v1, dev, chain1) <==> e in SlotsAt(v, dev, chain) || e == b
  {
    hide SlotsAt;
    SameMembers(SlotsAt(v, dev, chain), SlotsAt(v1, dev, chain1), n, b);
  }

  lemma SameMembers(slots: seq<Word>, slots1: seq<Word>, n: nat, b: Word)
    requires SlotAdded(slots, slots1, n, b)
    ensures forall e | e != 0 :: e in slots1 <==> e in slots || e == b
  {
    forall e | e in slots && e != 0
      ensures e in slots1
    {
      var m :| 0 <= m < |slots| && slots[m] == e;
      assert slots1[m] == e;
    }
  }

  /** An entry whose inode sector still carries another entry's name makes the names clash. */
  lemma Clash(slots: seq<Word>, names: map<Word, Name>, b: Word, e: Word)
    requires b in slots && e in slots && b != e && b != 0 && e != 0 && b in names && e in names && names[b] == names[e]
    ensures !NamesUnique(slots, names)
  {
    var m :| 0 <= m < |slots| && slots[m] == b;
    var n :| 0 <= n < |slots| && slots[n] == e;
    assert m < n || n < m;
  }

  /** A chain linked to a block that was never written as a map is a chain exactly if that block's `next` happens to be null. */
  lemma DanglingExact(v: Store, v1: Store, dev: int, self: Word, chain: seq<Word>, block: Word)
    requires Linked(v, dev, self, chain) && self !in chain && block != 0 && block !in chain && block != self
    requires forall b | b == self || b in chain :: At(v1, dev, b) == At(LinkTo(v, dev, self, chain, block), dev, b)
    ensures Linked(v1, dev, self, chain + [block]) <==> DecodeMap(At(v1, dev, block)).next == 0
    ensures SlotsAt(v1, dev, chain) == SlotsAt(v, dev, chain)
    ensures SlotsAt(v1, dev, chain + [block]) == SlotsAt(v, dev, chain) + DecodeMap(At(v1, dev, block)).blocks
  {
    hide SlotsOf, At, DecodeMap, NextOf, LinkTo, Chain, MapsAt;
    var l := LinkTo(v, dev, self, chain, block);
    var first, maps, m := NextOf(At(v, dev, self)), MapsAt(v, dev, chain), DecodeMap(At(v1, dev, block));
    LinkedMaps(v, dev, self, chain, block);
    ChainDistinct(first, maps, chain);
    SameMaps(l, v1, dev, chain);
    MapsSnoc(v1, dev, chain, block);
    SlotsFrame(maps, MapsAt(v1, dev, chain), chain);
    SlotsFrame(maps, MapsAt(v1, dev, chain + [block]), chain);
    AppendSlots(MapsAt(v1, dev, chain + [block]), chain, block);
    if m.next == 0 {
      Extended(first, maps, chain, block, m);
    } else if Linked(v1, dev, self, chain + [block]) {
      LastNext(NextOf(At(v1, dev, self)), MapsAt(v1, dev, chain + [block]), chain + [block]);
    }
  }

  lemma SameMaps(v: Store, v': Store, dev: int, chain: seq<Word>)
    requires forall c | c in chain :: At(v', dev, c) == At(v, dev, c)
    ensures MapsAt(v', dev, chain) == MapsAt(v, dev, chain) && forall c | c in chain :: c in MapsAt(v', dev, chain)
  {
  }

  lemma LastNext(first: Word, maps: map<Word, BlockMap>, chain: seq<Word>)
    requires Chain(first, maps, chain) && chain != []
    ensures maps[chain[|chain| - 1]].next == 0
  {
  }
}
