# A verified model of the OX kernel's core

OX is a small 32-bit kernel. This project models its storage stack, its two memory allocators, its
scheduler and its numeral routines in Dafny 4.11, and proves what these promise over every input,
every reachable state or every run. `dafny verify dfyconfig.toml` checks everything.

| files | what they model |
|---|---|
| `Bytes` | bytes as bits, 512-byte sectors, `bit_get`/`bit_set`, block maps as sectors |
| `CacheSpec`, `BlockCache` | the 128-slot write-back cache: a state machine on values, and the cache and device objects that implement it |
| `BitmapSpec`, `BlockAllocator` | the on-disk bitmaps with their one-block window, and the allocator working through the cache |
| `Layout`, `Volume` | the disk layout, and the inode and the data allocator side by side on it |
| `FileSpec`, `FileIo` | files as chains of block maps, and `file_read_write`, `kread`, `kwrite`, `klseek` on an open file |
| `InodeSpec`, `DirSpec`, `Directory`, `DirStream` | the inode sector, a directory as a chain of 127-entry maps on a volume, lookup, creation, `kreaddir` |
| `FileSystem` | files and directories of one volume side by side |
| `PathSpec`, `Paths` | path splitting in a buffer and `krealpath` |
| `PageSpec`, `PageAllocator` | the next-fit page allocator on its bitmap |
| `HeapSpec`, `KernelHeap` | the pools of `kmalloc` on pages of that allocator |
| `SchedulerSpec`, `ProcessQueue`, `Scheduler` | the linked process queues and `schedule` as a step on them |
| `Numerals` | `ultostr`, `ltostr`, `strtoul`, `strtol` |

The storage modules form one tower. A device holds sectors. The cache shows its callers a plain store
(`Store()`), whatever it keeps in memory. The allocator reads bitmaps from that store and hands out
blocks that are not in use. An open file turns blocks from the allocator into a byte sequence, and a
directory turns blocks from both allocators of a volume into a map from names to inodes, which a
directory stream lists. `FileSystem` proves that calls on one file or directory leave the others alone.
Every layer says when it may fail: the cache counts refused device calls, requests without a slot and
allocations without a block (`Troubles()`), and a call that fails has met one of these.
Each class is proved against the layer below as that layer is implemented, not against an idealised one;
in the same way `KernelHeap` stands on `PageAllocator` and `Scheduler` on `ProcessQueue`.

## Findings

Some promises do not hold of the code as written. The model keeps the code, shows where the promise
fails and proves when it holds.

- Block-addressed devices: evicting a dirty slot passes the incoming block number to `dev_write`, so
  the victim lands on the wrong sector (`CacheSpec.AddressedWriteExact`, `AddressedReadExact`,
  `AddressedLoss`, `AddressedEvictionWitness`). Seek-positioned devices are safe.
- `block_disk_write` copies into a cached slot before the device accepts the write; a refusal breaks the
  cache's invariant exactly when that slot was clean and the bytes differ (`CacheSpec.DiskWriteFailedExact`).
- Once a use count has saturated, the next one wraps: a new tenant then counts as never used and goes first
  (`CacheSpec.TenantIsNewest`).
- Freeing a block clears a bit of the window only; the next free in another map loses it
  (`BitmapSpec.FreeLostExact`), so freed space can leak.
- When a map block cannot be read, the cursor already points at it while the window still holds another
  map. The next get then hands out blocks by the wrong map, and one can be given out twice
  (`BitmapSpec.DoubleAllocationWitness`). The marks of live blocks survive exactly while failed reads are
  harmless, and then no block is given out twice (`BitmapSpec.RunSoundExact`, `NoDoubleAllocation`).
- A seek by scanning stops one map short at every non-zero multiple of 127 * 512
  (`FileSpec.ScanExact`, `FileSpec.MisplacedWrite`, `FileIo.OpenFile.CursorIsScan`), so a write there, or
  past the end of a file of such a size, lands one map early (`FileIo.OpenFile.Write`).
- Reading past the end lengthens the file, and its first data block is never cleared: a read of an empty
  file returns zeros, but below one sector it leaves a file holding what a free block of the disk held
  (`FileIo.OpenFile.Read`, `ReadEmpty`; `FileSystem.ReadLeaks` is a disk on which the two differ).
- On volumes below 2560 sectors the inode and data allocators hand out the same block
  (`Layout.SeparateExact`); the data region always ends past the volume (`Layout.RegionOverruns`), and a
  disk below two megabytes is laid out as one of almost four gigabytes (`Layout.MakeFsExact`).
- Creating an entry links a new map before it is written, and lists an inode before its sector is: a
  failure in between leaves the chain on whatever the block held, or the entry under whatever name the
  sector held (`DirSpec.DanglingExact`, `DirSpec.NameClash`, `Directory.Directory.Create`).
- A run of pages is bounded at its start only, and after a run at the end of the region not even there
  (`PageSpec.InsideExact`; `RunsOverTheEnd` and `StartsPastTheEnd` are runs from boot).
- `kfree` lowers `nr_slots` on every call, not only when a pool goes back; the field `lowered` counts how
  far it has drifted (`KernelHeap.KernelHeap.SlotsExact`, `Kfree`). A second table is asked for wrongly
  exactly when the drift makes a table with free slots look full, which takes almost 2^32 such frees
  (`TableExact`).
- A process with `p_tss_seg` zero is never switched away from, which starves the others exactly if there
  are any (`SchedulerSpec.StuckForever`, `NeverStarvesExact`). The comment
  above the selection speaks of RUNNING processes; the code does not look at `p_state`, nor does the model.
- `..` at the root removes the root's own empty component, so `/../b` becomes `b` (`PathSpec.NormalExact`,
  `PathSpec.ClimbingWitness`).
- `push_front` accepts 256 characters for a buffer of 256 and leaves no room for the terminator, `krealpath`
  appends a slash to a full `tmp`, and the splitting loop can look past `ptr_path` (`Paths.PushFront`,
  `Paths.GatherExact`, `Paths.SucceedsExact`).
- `conversions.h` lists base 2 as valid, but `tbuf` holds 13 digits: every word fits exactly from base 6
  on (`Numerals.BufferFits`).

## Model

| member | source | states |
|---|---|---|
| `Bytes.BitSetExact` | fs/bitmap.c:32-55 | setting a bit changes that bit and no other, for every pair of positions |
| `Bytes.DecodeEncodeMap` | include/ox/fs/inode.h:177-180 | every block map read back from the sector it was written to is the same map |
| `CacheSpec.ChoiceIsPolicy` | fs/block.c:149-215 | the slot taken on a miss is a free one if any, else the least used clean one, else the least used dirty one; none only when all counts are saturated |
| `CacheSpec.HitCounts` | fs/block.c:105-147 | a hit adds one to the count of its slot, up to the maximum, sets the dirty mark if it is a write, and touches no other slot, nor the disk |
| `CacheSpec.MissReplacesOne` | fs/block.c:216-258 | a miss gives one slot a new tenant, dirty after a write and clean after a read; the disk changes only at a dirty victim's own sector |
| `CacheSpec.TenantIsNewest` | fs/block.c:149-215 | the new tenant's count exceeds every count the selection looked at; once one is saturated it is zero instead |
| `CacheSpec.OthersKept` | fs/block.c:385-475 | a free, a write-through and a write-back leave every other slot and sector alone |
| `CacheSpec.WriteTransparent` | fs/block.c:260-383 | a successful write, by hit, fill, clean or dirty eviction, changes what callers see at its own key only and keeps the cache invariant |
| `CacheSpec.ReadTransparent` | fs/block.c:93-258 | a successful read returns what callers see at the key and changes it nowhere |
| `CacheSpec.FreeTransparent` | fs/block.c:385-414 | freeing writes a dirty slot back, empties it and shows nowhere |
| `CacheSpec.DiskWriteTransparent` | fs/block.c:442-490 | a write-through changes the view at its key only, and the disk agrees there |
| `CacheSpec.DiskWriteFailedExact` | fs/block.c:442-475 | a refused write-through keeps the invariant exactly when the block was not cached, was dirty, or already had those bytes |
| `CacheSpec.AddressedWriteExact` | fs/block.c:366-369 | with block-addressed transfers a write that evicts a dirty slot keeps the view exactly when the victim was on disk already and the sector hit is hidden or equal |
| `CacheSpec.AddressedReadExact` | fs/block.c:232-235 | there, a read that evicts a dirty slot of any device keeps what callers see exactly when the victim was on disk already and the sector hit is hidden or equal; on the read's own device it returns the victim's bytes |
| `CacheSpec.AddressedLoss` | fs/dev.c:106-124 | a victim newer than both sectors makes the read wrong and every write lose data |
| `CacheSpec.AddressedEvictionWitness` | fs/dev.c:106-124 | a concrete coherent cache in which that happens |
| `CacheSpec.CleanMeansOnDisk` | fs/block.c:416-440 | a device without dirty slots holds on disk exactly what callers see |
| `CacheSpec.RunTransparent` | fs/block.c:93-475 | over every run of reads, writes, frees, syncs, write-throughs and failures in which refused write-throughs are harmless, the view is the one a plain store without a cache would have |
| `CacheSpec.RunCoherentExact` | fs/block.c:442-475 | the cache invariant holds throughout a run exactly when every refused write-through in it is harmless |
| `CacheSpec.ReadsSeePlainStore` | fs/block.c:93-258 | every read in every such run returns what that plain store holds at that moment |
| `BlockCache.Device.Read` | fs/dev.c:86-104 | a transfer reads the sector the device is positioned at, or the addressed one, and moves one on; a failure moves nothing |
| `BlockCache.Device.Write` | fs/dev.c:106-124 | the same for writing: exactly that sector changes, or nothing |
| `BlockCache.Device.Scan` | fs/dev.c:126-140 | a seek moves the position of its device only, or nothing |
| `BlockCache.BlockCache.Search` | fs/block.c:105-147 | the two-part search from the cursor finds the slot holding the key, or there is none |
| `BlockCache.BlockCache.Select` | fs/block.c:149-215 | the replacement scan computes the policy's choice and the new highest count |
| `BlockCache.BlockCache.Read` | fs/block.c:93-258 | a success returns the store's bytes; the store and the invariant are unchanged either way; it fails only if the device refused a call or there was no slot to use |
| `BlockCache.BlockCache.Write` | fs/block.c:260-383 | a success updates the store at one key, a failure nowhere; it fails only then too, and never where no dirty slot must go |
| `BlockCache.BlockCache.Free` | fs/block.c:385-414 | the key leaves the cache and the store is unchanged; it fails only if the device refused to take a dirty slot, and then changes nothing |
| `BlockCache.BlockCache.DiskWrite` | fs/block.c:442-490 | a success updates store and disk at one key; a failure leaves exactly the state described above; it fails exactly if the device refused a call |
| `BlockCache.BlockCache.DiskWriteSyncCache` | fs/block.c:492-539 | the exact state after a success on either kind of device; unless a dirty slot had to go on a block-addressed one, the store is updated at the key, which ends up cached; a failure leaves the state of the refused write-through, or the one a failed read leaves after it; it fails only if the device refused a call or there was no slot |
| `BlockCache.BlockCache.Sync` | fs/block.c:416-440 | it succeeds exactly if the device refused nothing, which is exactly if no dirty slot of the device is left, and then its disk equals the store; the store and other devices are untouched |
| `BitmapSpec.GetSound` | fs/inode.c:485-505 | the block chosen is not live, and afterwards every live block is still marked on disk and in the window |
| `BitmapSpec.GetMarksOne` | fs/inode.c:485-505 | exactly the chosen block's bit is set, on disk and in the window; every other bit is as it was in the map that was scanned |
| `BitmapSpec.FreeClearsOne` | fs/inode.c:667-692 | a free clears exactly one bit, in the window, and none on disk |
| `BitmapSpec.ChoiceIsNext` | fs/inode.c:485-538 | with the window loaded, the block chosen is the first clear one from the cursor on, or else the first of all |
| `BitmapSpec.CursorFollows` | fs/inode.c:485-505 | the cursor stays on the block given out, and moves to a freed one, which the next get takes |
| `BitmapSpec.RunExact` | fs/inode.c:485-538 | over every run of gets without failures the marks stay exactly the live blocks, each success adds one, and one finds nothing only when every block is live |
| `BitmapSpec.FreeSound` | fs/inode.c:667-692 | any free, also of a free or never allocated block, keeps every other live block marked |
| `BitmapSpec.SyncedKept` | fs/inode.c:485-538 | get and free keep the fact that the window equals its disk block or the bit at the cursor is clear |
| `BitmapSpec.GetComplete` | fs/inode.c:485-538 | while the window equals its disk block or the bit at the cursor is clear, the allocator fails exactly when every addressable bit is set |
| `BitmapSpec.FullExact` | fs/inode.c:485-538 | in every state it fails exactly when the disk is full and so is the window from the cursor on |
| `BitmapSpec.RunComplete` | fs/inode.c:485-538 | in every run a get that finds nothing has seen every bit set, unless the call before it failed on the disk |
| `BitmapSpec.FullMeansDiskFull` | fs/inode.c:485-538 | in every state failure means every bit on disk is set |
| `BitmapSpec.FreeLostExact` | fs/inode.c:667-692 | after freeing n and then m, n can be allocated again exactly when m shares its map or n was clear on disk |
| `BitmapSpec.StaleExact` | fs/inode.c:672-681 | a free that cannot read map p leaves the live blocks marked exactly when the old window marks those of map p |
| `BitmapSpec.GetUnreadExact` | fs/inode.c:509-534 | the same of a get that cannot read the next map, wherever its scan had got to |
| `BitmapSpec.DoubleAllocationExact` | fs/inode.c:485-505 | while the disk marks the live blocks, a get hands one out exactly when the first clear bit of the window, taken as a bit of the map under the cursor, is live |
| `BitmapSpec.RunSound` | fs/inode.c:446-755 | over every run of gets and frees, failed writes and reads included, in which failed reads are harmless, the live blocks are marked |
| `BitmapSpec.RunSoundExact` | fs/inode.c:446-755 | the live blocks are marked throughout a run exactly when every failed read in it is harmless |
| `BitmapSpec.NoDoubleAllocation` | fs/inode.c:446-631 | no run whose failed reads are harmless hands out a block that is live |
| `BitmapSpec.DoubleAllocationWitness` | fs/inode.c:672-681 | a run of four calls, one of them a free that cannot read its map, hands the same block out twice |
| `BlockAllocator.Allocator.Get` | fs/inode.c:446-539 | on the cache: the block chosen, the new bitmap, live set and window for every outcome; after a failed map read the invariant holds exactly when that was harmless; ends within two passes; writes only the master record and map sectors; apart from a full disk it fails only if a device call was refused or there was no cache slot |
| `BlockAllocator.Allocator.Free` | fs/inode.c:633-693 | clears the bit in the window only and drops the block from the live set; after a failed map read the exact state, and when it is sound; writes nothing; it fails only if a device call was refused or there was no cache slot |
| `BlockAllocator.Allocator.LiveRange` | fs/inode.c:503-505 | a live block is never block 0, the free marker, the master record or a map |
| `Layout.Regions` | fs/inode.c:257-292 | the five regions follow one another with the sizes of the 20/80 rule, without wrapping, for every size, and each map has one block per 4096 entries, rounded down, but at least one |
| `Layout.NumbersInvert` | fs/inode.c:503-505 | block numbers of get and (map, bit) positions of free are inverse, both ways |
| `Layout.SeparateExact` | fs/inode.c:257-292 | no block can be handed out both as inode and as data, exactly from 2560 sectors on |
| `Layout.MakeFsExact` | fs/inode.c:236-240 | the same for `inode_mkfs`, in bytes of disk, for every size: below two megabytes the subtraction wraps |
| `Layout.InsideVolume` | fs/inode.c:257-292 | from there on every number either allocator can return lies in its region and on the volume |
| `Layout.RegionOverruns` | fs/inode.c:289-292 | the data region itself ends at least two sectors past the volume, always |
| `Volume.Volume.LiveApart` | fs/inode.c:446-631 | on a mounted volume a block is live in at most one allocator and is never metadata |
| `Volume.Volume.GetData` | fs/inode.c:446-539 | the block the allocator's scan chooses is marked, was new to both allocators, no sector in use changes and the inode allocator's state does not move; without space every bit the scan can meet is set |
| `Volume.Volume.GetInode` | fs/inode.c:541-631 | the same for inode blocks |
| `Volume.Volume.FreeData` | fs/inode.c:633-693 | for any block of the region, live or not, only the data allocator's live set shrinks, by that block, its bit is cleared in the window, and every sector keeps its contents |
| `Volume.Volume.FreeInode` | fs/inode.c:695-755 | the same for inode blocks |
| `FileSpec.LinkData` | fs/file.c:303-331 | listing a zeroed block in the next entry of the chain appends a sector of zeros and nothing else |
| `FileSpec.LinkMap` | fs/file.c:267-295 | linking a zeroed block behind a full chain extends it by an empty map and changes no byte |
| `FileSpec.OverlaySplices` | fs/file.c:455-558 | sectors overwritten byte by byte denote the old bytes with exactly the written range replaced |
| `FileSpec.ScanLands` | fs/file.c:340-347 | which block and offset a scan really reaches, for every position |
| `FileSpec.ScanExact` | fs/file.c:340-347 | that is the block containing the position exactly when the position is 0 or no multiple of 127 * 512 |
| `FileSpec.MisplacedWrite` | fs/file.c:340-347 | at such a position a write overwrites the bytes one whole map earlier |
| `FileIo.OpenFile.AddData` | fs/file.c:303-331 | one zeroed data block more, listed on disk; all earlier bytes kept |
| `FileIo.OpenFile.AddMap` | fs/file.c:267-295 | one empty map more, linked on disk; no byte changes |
| `FileIo.OpenFile.NextBlock` | fs/file.c:496-541 | after a sector the cursor stands on the next block of the chain, which is grown by a zeroed one at its end |
| `FileIo.OpenFile.Locate` | fs/file.c:349-453 | all four branches stand on the block of the starting byte |
| `FileIo.OpenFile.ReadWrite` | fs/file.c:333-580 | a write splices the bytes in at the starting byte; a read leaves the file's bytes alone, returns those it asks for, and past the end grows the file by what the sectors hold, with the zeros it writes back stated exactly; the size is the larger end and the saved cursor stands behind the last byte; success or not, the inode keeps its name and no sector in use by anybody else changes, nor any before the data region but the inode and the allocator's own; after a success the inode's sector holds the file's first map and size; it fails only if a device call was refused, or there was no cache slot or no block |
| `FileIo.OpenFile.Read` | fs/file.c:988-1022 | at any position: the bytes at the starting byte as far as the file has them, zeros behind `size` of them; the file's bytes stay, the file grows to the end of the read, across a gap too, by exactly what its sectors held, zero sectors behind them and the bytes the read clears; the position moves behind it; cursor and size stay exact exactly if the starting byte was the position; disk and failures as for `ReadWrite` |
| `FileIo.OpenFile.ReadEmpty` | fs/file.c:370-410 | a read of an empty file returns zeros; from one sector on the file is then zeros, below that it holds the old bytes of a block that was not in use |
| `FileSystem.ReadLeaks` | fs/file.c:370-410 | on a disk whose free blocks hold something, one byte of a new empty file is read as zero and is then another |
| `FileSystem.Reopen` | fs/file.c:599-725 | a file opened again from its inode's sector, with the name, the first map and the size found there, has the bytes it had |
| `FileSystem.OpenNew` | fs/inode.c:1804-1861 | an inode just created with size 0 opens as an empty file |
| `FileIo.OpenFile.Write` | fs/file.c:1024-1056 | the bytes are spliced in at the starting byte; past the end, zeros for the gap and then the data are, from the byte where the write to the end starts, be it the end or one map earlier; the size is the larger end; cursor and size stay exact exactly if that byte was the position; disk and failures as for `ReadWrite` |
| `FileIo.OpenFile.Seek` | fs/file.c:1060-1092 | only the position changes, with the 64-bit wrap and clamp of the code, the saved cursor is dropped, and an exact file stays exact; the inode's sector keeps leading to the file |
| `FileIo.OpenFile.HealthyReaches` | fs/file.c:411-453 | while no scan has missed its position, every position up to the end of the file can be read and written |
| `FileIo.OpenFile.CursorIsScan` | fs/file.c:411-453 | in every valid state whose cursor stands at the position, cursor and scan give the same map, index and block exactly where the scan is exact |
| `FileSystem.WriteBeside` | fs/file.c:1024-1056 | of two files that share no block, a write to one leaves the bytes of the other alone, whether it succeeds or fails; after a success both are valid |
| `FileSystem.WriteUnder` | fs/file.c:1024-1056 | a write to a file, success or not, moves neither the inode allocator nor any lookup in a directory, whether that lists the file or not |
| `FileSystem.CreateOver` | fs/inode.c:1653-1861 | creating an entry, whatever comes of it, changes no byte of a file of the volume |
| `DirSpec.LookupFinds` | fs/inode.c:955-979 | with unique names the scan finds precisely the entry carrying a name |
| `DirSpec.AddEntry` | fs/inode.c:1653-1799 | one more entry in a hole or a new map changes the lookup of its own name only, for every name, and keeps names unique |
| `InodeSpec.NewInodeNamed` | include/ox/fs/inode.h:114-175 | a new inode sector reads back with its name and without maps, whatever its other fields are |
| `InodeSpec.NewInodeKeeps` | include/ox/fs/inode.h:114-175 | its other bytes are those given |
| `InodeSpec.WithSizeOf` | include/ox/fs/inode.h:114-175 | a size written to the sector reads back as far as 64 bits go, and name and first map stay |
| `DirSpec.HoleAdded` | fs/inode.c:1704-1731 | rewriting one map on disk lists the entry in its hole and leaves the chain and the other entries alone |
| `DirSpec.MapAdded` | fs/inode.c:1736-1799 | linking and writing a new map lists the entry behind all others |
| `DirSpec.NameEntry` | fs/inode.c:1804-1861 | once its inode sector is written exactly that sector's name is new, for every name |
| `DirSpec.NameClash` | fs/inode.c:1804-1861 | if the sector still carries a name of the directory, names are no longer unique |
| `DirSpec.DanglingExact` | fs/inode.c:1736-1799 | a chain linked to a block that was not written as a map is a chain exactly if that block's next happens to be null; the old entries stay |
| `Directory.Directory.Find` | fs/inode.c:955-979 | the nested scan, through the cache, computes that lookup or reports a read error, which happens only if a device call was refused or there was no cache slot |
| `Directory.Directory.FindHole` | fs/inode.c:1704-1735 | a hole, or the last map of a chain that has none, or a read error |
| `Directory.Directory.AddInHole` | fs/inode.c:1704-1735 | an inode block that was not in use and now is, the entry and its sector, or the exact state any failure leaves |
| `Directory.Directory.AddMap` | fs/inode.c:1736-1799 | a data block, the link, an inode block, both not in use before, the map and the sector, or the exact state any failure leaves; the chain grows exactly when the entry is listed |
| `Directory.Directory.Create` | fs/inode.c:1653-1861 | a new name is added with a non-null inode that was not in use, is now, and whose sector is the one asked for, and no other lookup changes; a hole is used if there is one and otherwise the chain grows by a map; for an existing name nothing changes, neither store nor allocators; each failure leaves the directory as it was, or with its last link on a block that is no map, or with the entry under its sector's old name, whose exact consequences are stated; nothing is freed and of the sectors in use only the directory's maps and its inode's link change; it fails for a new name only if a device call was refused, or there was no cache slot or no block |
| `Directory.CreateBeside` | fs/inode.c:1653-1861 | it changes no lookup in any other directory, be it the parent, a child or neither, and leaves that one valid |
| `DirStream.RunLists` | fs/dir.c:161-270 | any number of calls yields ".", "..", each entry once in chain order, then NULL for ever |
| `DirStream.ListsTheDirectory` | fs/dir.c:161-270 | the entries are exactly the names the lookup finds, each once and with the inode it finds |
| `DirStream.CreatedShows` | fs/dir.c:216-241 | an entry created with given fields is listed with its name, its inode, the low 16 bits of its size and the type of its flags |
| `DirStream.KindExact` | fs/dir.c:216-233 | which flags give which type, for all combinations |
| `DirStream.Stream.ReadDir` | fs/dir.c:161-270 | one call is one step of that run, with name, inode, index, length and type of the entry, from any remembered block, and the RETRY jumps end; an I/O error, which "." and ".." cannot meet, loses nothing: the next call gives what this one would have; it fails only if a device call was refused or there was no cache slot |
| `DirStream.Stream.Rewind` | fs/dir.c:148-156 | the run starts again |
| `PathSpec.SplitJoin` | fs/paths.c:70-100 | joining the components restores the path up to one trailing slash |
| `PathSpec.RootMarker` | fs/krealpath.c:227-244 | the root's empty component stays at the bottom of the stack exactly until ".." is followed at the root |
| `PathSpec.NormalExact` | fs/krealpath.c:223-255 | without "//", the result is the path of the place the text leads to exactly when no ".." climbs past the root or the walk ends there |
| `PathSpec.NormalMeaning` | fs/krealpath.c:223-255 | an absolute result has no "." or "..", leads where the text leads, is no longer than it and is left alone a second time |
| `PathSpec.ClimbingWitness` | fs/krealpath.c:231-240 | "/../b" becomes "b" |
| `PathSpec.ClimbingExact` | fs/krealpath.c:231-240 | the same of every path of ordinary components behind "/.." |
| `PathSpec.ParentCancels` | fs/krealpath.c:231-240 | a component followed by ".." is as if neither were there, whatever stands before and behind |
| `PathSpec.DotIgnored` | fs/krealpath.c:230-231 | a "." is as if it were not there |
| `PathSpec.PathOfPlace` | fs/krealpath.c:241-255 | a path of ordinary components is returned as it is |
| `Paths.ExtentExact` | fs/paths.c:70-100 | how far the splitting loop looks: one, two or three characters past the text, by its last component |
| `Paths.GetNextPath` | fs/paths.c:70-100 | terminates the next component in place and leaves the rest for the next call; looks outside the buffer exactly when called at its end |
| `Paths.PushFront` | fs/paths.c:47-58 | on buffers: prepends and terminates exactly when the result is shorter than 256 characters, runs over at 256, refuses above |
| `Paths.Components` | fs/krealpath.c:223-226 | after the loop each pointer denotes its component in the rewritten buffer, exactly when the text's extent fits the buffer |
| `Paths.Resolve` | fs/krealpath.c:227-244 | the loop with its look-ahead over ".." is a left fold over a stack |
| `Paths.PathToRoot` | fs/krealpath.c:160-189 | the path from the root to the current directory, an overrun, a refusal or an unreadable parent, in the order the pushes meet them |
| `Paths.GatherExact` | fs/krealpath.c:160-189 | it succeeds exactly when that path is shorter than 256 characters |
| `Paths.Krealpath` | fs/krealpath.c:127-261 | the whole function for all names: the result, both error results, or an overrun; a parent that cannot be read fails relative paths only |
| `Paths.SucceedsExact` | fs/krealpath.c:127-261 | it succeeds exactly when splitting the whole text stays inside the buffer |
| `Paths.ResultFits` | fs/krealpath.c:245-255 | then the result with its terminator and the pointer tables fit their buffers |
| `Paths.RelativeExact` | fs/krealpath.c:160-261 | a relative path is resolved from the current directory exactly when it does not climb past the root or ends there |
| `Paths.ParentCancelled` | fs/krealpath.c:127-261 | `krealpath` itself treats a component followed by ".." as if neither were there, from every current directory |
| `Paths.RelativeWitness` | fs/krealpath.c:160-261 | from "/a/b", "c" becomes "/a/b/c" and "../c" becomes "/a/c" |
| `Paths.IdempotentExact` | fs/krealpath.c:127-261 | a result is left alone from every current directory exactly when no ".." climbed past the root or the walk ends there, and the result can itself be split inside the buffer |
| `PageSpec.AllocComplete` | mm/page.c:552-615 | a scan that fails means no run of n free pages starts anywhere in the region |
| `PageSpec.RunComplete` | mm/page.c:544-740 | in every run a call below its quota is refused only then |
| `PageSpec.QuotaExact` | mm/page.c:544-740 | in every run from boot a region with all its pages out is granted nothing more and stays as it is, and one that has not is refused only if no run of n free pages starts in it |
| `PageSpec.NextFit` | mm/page.c:552-615 | the run chosen starts at the least fitting page from the cursor up, or else at the least one below it |
| `PageSpec.GrantMovesOn` | mm/page.c:586-610 | after a grant the scan goes on one page behind the one that follows it |
| `PageSpec.FreedIsNext` | mm/page.c:618-641 | a run given back is where the next scan starts |
| `PageSpec.AllocFits` | mm/page.c:552-615 | success finds a run of free pages |
| `PageSpec.InsideExact` | mm/page.c:561-573 | wherever the cursor is, a run stays inside the region exactly when the scan that succeeds has a run wholly inside to meet |
| `PageSpec.StaysInside` | mm/page.c:561-573 | a used page behind the region is enough for that |
| `PageSpec.RunsOverTheEnd` | mm/page.c:561-573 | from boot, in a kernel region of any size, all pages but one and then two: the second run covers the last page and one of the user's |
| `PageSpec.StartsPastTheEnd` | mm/page.c:586-610 | from boot, one page, all but two, then two: the last run starts behind the region, below the quota |
| `PageSpec.RunsAccounted` | mm/page.c:544-740 | over every interleaving of user and kernel calls live runs are disjoint from each other and from the reserved pages, marked bits are exactly theirs, and the counters are their lengths |
| `PageAllocator.PageAllocator.constructor` | mm/page.c:402-409 | exactly the pages below the kernel's dynamic memory are marked |
| `PageAllocator.PageAllocator.Decompose` | mm/page.c:504-542 | block, byte and bit name one bit each |
| `PageAllocator.PageAllocator.SetBit` | mm/page.c:504-517 | exactly one page becomes used |
| `PageAllocator.PageAllocator.ClearBit` | mm/page.c:519-529 | exactly one page becomes free |
| `PageAllocator.PageAllocator.TestBit` | mm/page.c:531-542 | whether the page is used |
| `PageAllocator.PageAllocator.FindRun` | mm/page.c:561-584 | the scan with its skip finds the first fitting start, missing none |
| `PageAllocator.PageAllocator.Alloc` | mm/page.c:544-616 | null exactly over quota or without a run; else the next-fit choice is marked, counted and remembered; or the scan leaves the bitmap, only if the request reaches past it |
| `PageAllocator.PageAllocator.Free` | mm/page.c:618-641 | for every address and length: clears the run and adjusts the counter, with both panics, a page outside the region and a counter below zero, and exactly when the run reaches past the bitmap |
| `HeapSpec.ChunksDisjoint` | mm/kmalloc.c:185-354 | no two chunks of the heap overlap, within or across pools |
| `HeapSpec.ChunkInside` | mm/kmalloc.c:153-163 | every chunk lies inside its pool's pages |
| `HeapSpec.TakeOk` | mm/kmalloc.c:213-234 | handing out a free chunk keeps the heap invariant and adds exactly it to the live chunks |
| `HeapSpec.FreeOk` | mm/kmalloc.c:356-398 | freeing keeps the invariant, removes exactly that chunk, and drops the pool with its last chunk |
| `HeapSpec.NewPoolOk` | mm/kmalloc.c:234-322 | a pool opened on fresh pages keeps the invariant and adds exactly its first chunk |
| `HeapSpec.GrantApart` | mm/kmalloc.c:120-129 | pages that the page allocator grants overlap no pool, because pools stand on live runs |
| `HeapSpec.CloseBacked` | mm/kmalloc.c:131-138 | the pool that loses its last chunk gives its run back and every other pool keeps its own |
| `HeapSpec.OthersKeepBacked` | mm/page.c:544-740 | calls of anybody else leave the pools on their runs as long as they free only their own |
| `HeapSpec.SizesExact` | mm/kmalloc.c:147-172 | with 32-bit arithmetic a new pool can hold its first request exactly up to 4 GB less a page and a header; chunks are the least multiple of four that holds request and header, on the least number of pages |
| `KernelHeap.KernelHeap.Kmalloc` | mm/kmalloc.c:185-354 | a chunk that was not live, large enough, named by its header, all others keeping their place; from the last pool used or else the first that serves, if one does, without touching the pages; else in the first unoccupied slot, on exactly the pages the page allocator chooses; a second table is asked for exactly when no pool serves and no slot looks unoccupied; or the page allocator refuses, because the quota is used up or no run is free, or may look past its bitmap, because the request reaches that far; or the size has wrapped |
| `KernelHeap.KernelHeap.ServesExact` | mm/kmalloc.c:214-216 | a pool serves exactly if it has a free chunk that holds the request; the unsigned subtraction never shows |
| `KernelHeap.KernelHeap.Kfree` | mm/kmalloc.c:356-398 | the chunk leaves the live set and every other one keeps its address and size; the pool and its pages go back exactly when it was the last, unless kpage_free panics; nr_slots stays right exactly then |
| `KernelHeap.KernelHeap.SlotsExact` | mm/kmalloc.c:378-381 | nr_slots is the number of occupied pools exactly while the frees that kept their pool are a multiple of 2^32 |
| `KernelHeap.KernelHeap.TableExact` | mm/kmalloc.c:291-324 | in every state a second table is asked for exactly when no pool serves and all are occupied, or the drifted counter makes a table with room look full; below 2^32 - 16 frees that kept their pool it does not |
| `SchedulerSpec.LeadAfterOneCall` | kernel/scheduler.c:171-221 | from any state, after one call the running process is at most one count behind the best |
| `SchedulerSpec.FirstCall` | kernel/scheduler.c:214-221 | the first call puts the best process on, whatever the segments, and only that call is special |
| `SchedulerSpec.BoundedWait` | kernel/scheduler.c:171-221 | a process that is not running is selected within the sum over the others of max(0, their count - its count + 2) calls |
| `SchedulerSpec.NeverStarves` | kernel/scheduler.c:171-221 | from any state every process runs again after any number of calls |
| `SchedulerSpec.CountIsCharge` | kernel/scheduler.c:171-214 | a count is its start less one per call and one per call spent running |
| `SchedulerSpec.FairShares` | kernel/scheduler.c:171-221 | started with equal counts, as kernel/fork.c:318 gives them, no two processes ever differ by more than two, in count or in calls spent running |
| `SchedulerSpec.StuckForever` | kernel/scheduler.c:215-221 | a running process with p_tss_seg zero is never replaced after the first call |
| `SchedulerSpec.NeverStarvesExact` | kernel/scheduler.c:171-221 | from any state every process runs again and again exactly when no p_tss_seg is zero or there is one process |
| `Scheduler.Scheduler.Schedule` | kernel/scheduler.c:126-221 | the two walks over the linked queues and the charge are one step of that machine |
| `Scheduler.BestIsPick` | kernel/scheduler.c:187-200 | the walk over all queues selects what the machine selects |
| `ProcessQueue.ProcessTable.InsertP` | kernel/process_queue.c:127-161 | appends to the ring of the priority, creating it if empty; other rings are unchanged |
| `ProcessQueue.ProcessTable.Insert` | kernel/process_queue.c:106-125 | appends to the ring of the given process |
| `ProcessQueue.ProcessTable.Remove` | kernel/process_queue.c:163-211 | deletes that process from anywhere and keeps the order of the others |
| `ProcessQueue.ProcessTable.ReadFront` | kernel/process_queue.c:64-104 | first in, first out |
| `ProcessQueue.ProcessTable.Size` | kernel/process_queue.c:213-218 | the recorded size is the length of the ring |
| `ProcessQueue.ProcessTable.Apart` | kernel/process_queue.c:64-211 | rings of different priorities share no process |
| `Numerals.UnsignedRoundTrip` | libk/strtoul.c:39-88 | strtoul of what ultostr wrote gives the word back and stops at the terminator, for every word and base |
| `Numerals.DetectedRoundTrip` | libk/strtoul.c:48-60 | the same with base 0, from the prefix alone |
| `Numerals.SignedRoundTrip` | libk/strtoul.c:98-107 | strtol undoes ltostr for every long, the smallest included |
| `Numerals.DetectedSignedRoundTrip` | libk/strtoul.c:98-107 | the same with base 0 |
| `Numerals.DigitCount` | libk/ultostr.c:68-72 | a value has at most n digits exactly below base to the n |
| `Numerals.BufferFits` | libk/ultostr.c:41 | tbuf holds every word exactly from base 6 on |
| `Numerals.DigitChars` | libk/ultostr.c:67-72 | the digit written for each value |
| `Numerals.DigitsAre` | libk/strtoul.c:62-72 | which characters are digits |
| `Numerals.DigitValues` | libk/strtoul.c:62-72 | the value read for each digit, small letters and capitals |
| `Numerals.CaseIgnored` | libk/strtoul.c:39-88 | small and capital letters are the same digits, in every text and base |
| `Numerals.WriteUnsigned` | libk/ultostr.c:37-83 | the text and its length, or a write outside tbuf exactly when the word has more than 13 digits |
| `Numerals.ReadUnsigned` | libk/strtoul.c:39-88 | base detection, stopping place and the value modulo the word size |
| `Numerals.WriteSigned` | libk/ultostr.c:92-103 | the text of a long, with a sign in decimal only, and the same overrun, in bases below 6 only |
| `Numerals.ReadSigned` | libk/strtoul.c:98-107 | the long and the stopping place |

## Left out

- Drivers, inline assembly, paging, descriptor tables, interrupts, system call wrappers, exec, fork, exit and signals.
- BlockCache.BlockCache.Search: the block number 0xFFFFFFFF, which marks free slots, is outside the contract.
- BlockCache.BlockCache.Read: the same number.
- BlockCache.BlockCache.Write: the same number.
- BlockCache.BlockCache.Free: the same number.
- BlockCache.BlockCache.DiskWrite: the same number.
- BlockCache.BlockCache.DiskWriteSyncCache: the same number.
- `block_open` and `block_close`, device paths, end of device and seek overflow; a device call either works or changes nothing.
- The bytes of the master record, and of inode sectors all but name, first map and size: they are written as arbitrary contents; the allocator starts in the state `inode_dev_open` leaves, so the branch for a zero map pointer is not modelled.
- BlockAllocator.Allocator.Free: block numbers outside the region, which the code turns into other sectors taken for maps, are outside the contract.
- Volume.Volume.FreeData: the same numbers.
- Volume.Volume.FreeInode: the same numbers.
- FileIo.OpenFile.ReadWrite: promises nothing about this file's bytes after an I/O error or a full disk; the call with no cursor is taken at position 0, as its callers make it.
- FileIo.OpenFile.Locate: after an earlier inexact scan, a start behind the bytes the file holds, or a scan past its last data block, is outside the contract of this and all calls on top.
- FileIo.OpenFile.Read: gaps of 2^41 bytes and more, where `iter` is cut to 32 bits, are treated as whole, in `FileIo.OpenFile.Write` too.
- Two opens of one file, `O_TRUNC`, `kunlink`, `kstat` and the rest of fs/file.c.
- Directory.Directory.Create: permissions, timestamps, links and the walk over several components are not modelled.
- Directory compaction in `inode_free`, whose head-of-chain case compares instead of assigning (fs/inode.c:2283).
- DirStream.Stream.ReadDir: an unchanged directory; path and name together longer than `d_name` are not cut off.
- Paths.Krealpath: the names along the parent links are a parameter.
- PageAllocator.PageAllocator.Alloc: promises nothing once a scan has left the bitmap, nor does `PageAllocator.PageAllocator.Free` once a run has; multiplication by PAGE_SIZE does not wrap.
- KernelHeap.KernelHeap.Kmalloc: one table; promises nothing after a null result of `kpage_alloc`, which the code uses as an address, or after a size that wraps; `mm/malloc.c` is a copy.
- Scheduler.Scheduler.Schedule: the alarm and signal pass, process states, the check of eip and the context switch; counters do not wrap (they fall by at most two a call).
- ProcessQueue.ProcessTable.ReadFront: called with the head of a queue, as its callers do.
- ProcessQueue.ProcessTable.Remove: called with a process that is on its queue.
- `itoa` and `atoi`, which are the decimal case of `Numerals`.
- kernel/def_int.c and platform/i386/arch/io_req.c, whose tables keep no clean invariant over runs.
