# PintOS storage core: buffer cache and inode layer

This project models the two lower layers of the PintOS file system (the
version with a buffer cache and indexed inodes), and proves what they
promise.

- **Buffer cache** (`cache.dfy`, `frames.dfy`). The class `Cache.BufferCache`
  holds three things:
  - a fixed array of 64 frames, each `{buffer, sector_id, dirty, pin_bit, valid}`;
  - the clock hand `clockPtr`;
  - the block device, a map from sector numbers to 512-byte blocks. A sector
    that was never written reads as zeros.

  The operations are `cache_init`, `search_sector`, `clock_algorithm`,
  `clock_ptr_move`, `cache_read`, `cache_write` and `cache_out_all`. Each runs
  as one atomic step, as it does under `cache_lock`. Every operation is
  specified against `Content`: the device contents that the frames and the
  device present together. Only a write changes `Content`. The invariant
  `Valid` holds across all operations:
  - no sector is held by two valid frames;
  - every clean valid frame agrees with the device;
  - the hand stays inside the array.
- **Inode layer** (`layout.dfy`, `descriptor.dfy`, `growth.dfy`,
  `indirect.dfy`, `inode.dfy`).
  - `layout.dfy`: the size arithmetic (`bytes_to_sectors`,
    `compare_substitute`, `get_direct_i`) and the 128-entry index table codec.
  - `descriptor.dfy`: the on-disk inode and `byte_to_sector`.
  - `growth.dfy`: the order in which file growth and creation take sectors,
    and why the result is sound.
  - `inode.dfy`: the class `Inode.InodeLayer`. It holds the sector map, the
    descriptor sectors, the free map and the list of open inodes. It
    models:
    - `inode_create`, `inode_open`, `inode_reopen`, `inode_close` and
      `inode_remove`;
    - `inode_deny_write`, `inode_allow_write`, `inode_length` and
      `inode_is_dir`;
    - `byte_to_sector_write`, `inode_read_at` and `inode_write_at`.

The inode layer reads and writes sectors through a flat sector map. That
map is the `Content` abstraction that `Cache.BufferCache.Read` and
`Cache.BufferCache.Write` are proved to provide: a read returns the last
content written. The free map is a list of free sectors. Allocation takes
the first one and fails when the list is empty. This fixed order lets
creation and growth be specified sector by sector. Release adds a sector
back; releasing a sector that is already free changes nothing. That is a
choice of this model: `free_map_release` lives in `free-map.c`, which is
not part of this model, and there it requires the sectors to be in use.

A file is *sound* (`Descriptor.Sound`) when three things hold:
- its data blocks, its index tables and the free sectors are pairwise
  distinct;
- its length is addressable through its pointers;
- its last block reads zero past the end of the file.

The main results are these:
- growth keeps a sound file sound, keeps its old bytes and reads zero in the
  new part; whether it succeeds or not, it changes no sector but those it
  takes off the head of the free list and the old file's index tables;
- creation yields a sound file of zeros and changes no sector but those it
  takes off the free list;
- `inode_read_at` returns exactly the file's bytes;
- `inode_write_at` leaves exactly the written bytes in the file and changes
  no other byte; when its growth fits, no sector changes but the grown
  file's own and those the growth took off the free list;
- read after write holds in the cache, across eviction and flushing.

Where the code and its design description disagree, the model follows the
code:
- `cache_write` writes the block to the device as well, right after updating
  the frame (cache.c:91). The cache is therefore write-through, not a pure
  write-back cache.
- A read hit does not set the frame's pin bit (cache.c:54-55). Only a miss
  and writes set it.
- The statement `dirty == false` at cache.c:59 is a comparison, so a read
  miss keeps the claimed slot's old dirty bit. A slot claimed from a dirty
  victim (clock_algorithm writes the victim back but leaves its dirty bit)
  then holds the loaded sector valid and still dirty, and `cache_out_all`
  or a later eviction writes it back again. This is harmless: its buffer
  is the device content it was just loaded from, so that write-back stores
  what the device already holds. `Cache.BufferCache.Read` states the
  frame it loads, dirty bit included, and proves that `Content` does not
  change.
- `inode_open` does not check the magic number (inode.c:274). In the model
  the missing check has no effect. Descriptors are kept apart from data
  sectors, a sector that never held a descriptor reads as the zero
  descriptor, and the invariant `Inode.InodeLayer.Valid` keeps every
  stored descriptor well formed.
- A write of zero bytes at an offset past the end of the file still grows
  the file to end at that offset, because `byte_to_sector_write` runs for
  `offset + size - 1` (inode.c:430). `Inode.InodeLayer.WriteAt` states this.
- `inode_create` leaves the sectors it had already allocated in use when a
  later allocation fails (inode.c:195-199, 214-227).
  `Inode.InodeLayer.Create` states exactly which sectors stay taken.

## Model

| member | source | states |
|---|---|---|
| Layout.BytesToSectors | src/filesys/inode.c:22-26 | for a non-negative size, the result is the least number of 512-byte sectors that covers it |
| Layout.CompareSubstitute | src/filesys/inode.c:28-37 | the result is one of the two arguments and no larger than either: the minimum |
| Layout.GetDirectI | src/filesys/inode.c:39-45 | -1 exactly when the offset lies at or past byte 4096; otherwise the direct block whose 512 bytes contain the offset |
| Layout.CDiv | src/filesys/inode.c:61-62 | C's signed division truncates toward zero: Euclidean quotient for a non-negative dividend, rounded toward zero for a negative one |
| Layout.NumTables | src/filesys/inode.c:109-110 | the number of 128-entry index tables that `n` data blocks past the direct blocks need: none for at most 8 blocks, otherwise the least count that covers them |
| Layout.IndirectIndices | src/filesys/inode.c:60-62 | for an offset past the direct blocks and below the addressable limit, byte_to_sector's table index and entry index are in range, and they are the quotient and remainder of the offset's block number past the direct blocks by 128 |
| Layout.DecodeEncode | src/filesys/inode.c:66 | an index table written to a sector and read back is the same table (128 little-endian 32-bit entries) |
| Layout.EncodeDecode | src/filesys/inode.c:66 | every sector image is the encoding of the table read from it, so the codec is a bijection |
| Layout.DecodeZeros | src/filesys/inode.c:220 | a zero-filled sector reads back as a table of zero entries |
| Descriptor.ZeroInode | src/filesys/inode.c:187 | a descriptor never written (calloc'd) has length 0, is not a directory and has the full pointer arrays |
| Descriptor.ByteToSector | src/filesys/inode.c:52-74 | the -1 sentinel when the offset is at or past the length or past what the pointers address; otherwise the sector of the offset's data block |
| Descriptor.DirectIndirectBoundary | src/filesys/inode.c:57-62 | byte 4095 lives in the last direct block and byte 4096 in entry 0 of the first index table |
| Descriptor.Blocks | src/filesys/inode.c:320-339 | the sectors of the first `n` data blocks, in order: the direct pointers, then the table entries |
| Descriptor.SectorsInRange | src/filesys/inode.c:189-221 | a length within the addressable limit needs no more data blocks and index tables than the descriptor has pointers for |
| Descriptor.EmptySound | src/filesys/inode.c:189-207 | an empty file occupies no sector and is sound with any free list of distinct sectors |
| Descriptor.WriteBlock | src/filesys/inode.c:448-470 | overwriting data block `k` of a sound file changes exactly the bytes of block `k` to the new content; every other byte of the file keeps its value |
| Descriptor.WriteBlockKeeps | src/filesys/inode.c:448-470 | overwriting a data block of a sound file moves no block and changes no table: the file's sectors stay the same |
| Descriptor.WriteBlockSound | src/filesys/inode.c:448-470 | a sound file stays sound when the new block content is zero past the end of the file |
| Descriptor.FileBytesSplit | src/filesys/inode.c:384-408 | the bytes of a range of the file are those of its two halves |
| Growth.Needed | src/filesys/inode.c:89-149 | growth from `oldN` to `newN` data blocks takes one sector per new block plus one per new table, so at least `newN - oldN` |
| Growth.GrowSound | src/filesys/inode.c:84-157 | a file grown from a sound file as growth allocates (old blocks kept, new blocks and tables from the free list in order, new blocks zero-filled) is sound with the rest of the free list, keeps every old byte and reads zero at every new byte |
| Growth.GrowBytes | src/filesys/inode.c:90-147 | every byte the grown file gained reads zero, every old byte keeps its value, and the last block is zero past the new end |
| Growth.GrowDistinct | src/filesys/inode.c:90-147 | the sectors growth hands to the file are distinct from the file's own sectors and from what stays free |
| Growth.PlanInjective | src/filesys/inode.c:89-149 | different new blocks and tables take different positions in the free list |
| Growth.AllocBelowNeeded | src/filesys/inode.c:89-149 | every new block takes a free-list position below the number of sectors growth needs |
| Growth.TableBelowNeeded | src/filesys/inode.c:114-123 | every new table takes a free-list position below the number of sectors growth needs |
| Indirect.LoopStart | src/filesys/inode.c:109-116 | the table loop starts at the old file's last, partly used table or at the first new table, and the sectors taken before it are exactly the new direct blocks |
| Indirect.LoopStep | src/filesys/inode.c:116-149 | one pass over table `t`: a new table's sector is the next one taken, the table's entries from the old file's end up to the new end follow, and the count taken grows by exactly those, staying within what growth needs |
| Indirect.LoopEnd | src/filesys/inode.c:116-149 | when the table loop ends, it has taken exactly the sectors growth needs |
| Indirect.UncheckedDirectGrowth | src/filesys/inode.c:90-102 | as written, a one-byte write to an empty file with no free sector allocates nothing but zero-fills sector 0 and still makes sector 0 block 0 of a one-byte file: the result is not a growth of the old file |
| Indirect.UncheckedStep | src/filesys/inode.c:92-95 | one step of the unchecked direct loop: the pointer takes the next free sector if there is one and otherwise keeps its value, and the sector it then names is zero-filled |
| Cache.BufferCache.Init | src/filesys/cache.c:29-43 | with the hand at slot 0: every frame empty (invalid, clean, unpinned, zero buffer), the invariant holds, and the cache presents the device as it is |
| Cache.BufferCache.InitAsWritten | src/filesys/cache.c:36-43 | as written the hand starts at -1, outside the array that clock_algorithm indexes with it, so the invariant does not hold |
| Cache.BufferCache.SearchSector | src/filesys/cache.c:95-101 | the lowest slot holding a valid copy of the sector, or -1 when no slot does |
| Cache.BufferCache.ClockPtrMove | src/filesys/cache.c:148-153 | the hand advances one slot modulo 64 and stays in [0, 64) once it is non-negative |
| Cache.BufferCache.ClockAlgorithm | src/filesys/cache.c:103-124 | the returned slot is invalid; at most 64 frames are passed over, all of them valid and pinned, and each has its pin bit cleared; a claimed dirty frame is written to the device first; no other frame changes; the hand ends one past the slot; the presented contents do not change |
| Cache.BufferCache.Read | src/filesys/cache.c:49-67 | returns the sector's current contents; a hit (at the lowest slot holding the sector) changes nothing; a miss runs the clock scan (`Claim`: the frames passed over were valid and pinned, the hand ends one past the claimed slot), the frames become the scan's result (`Claimed`) with the claimed slot holding the sector as read from the device, valid, pinned and keeping its old dirty bit, and the device is the scan's (victim written back when dirty); contents and invariant are preserved |
| Cache.BufferCache.Write | src/filesys/cache.c:69-92 | afterwards the sector reads as the new block and every other sector as before; exactly one frame holds it, dirty, pinned and valid; the device holds it too; a hit overwrites the lowest slot holding the sector and leaves the hand, the device elsewhere and the other frames alone; a miss runs the clock scan (`Claim`), the frames become the scan's result (`Claimed`) with the new frame in the claimed slot, and the device is the scan's with the block written |
| Cache.BufferCache.OutAll | src/filesys/cache.c:156-167 | every valid dirty frame is written to the device and invalidated, other frames are untouched, no frame is left valid and dirty, and the device alone now holds what the cache presented |
| Cache.ReadAfterWrite | src/filesys/cache.c:49-124 | a block written to a sector is read back after a write to another sector, an eviction scan and a flush |
| Cache.ClaimKeeps | src/filesys/cache.c:114-119 | claiming a slot (writing back a dirty victim, then invalidating it) keeps both invariants and the presented contents |
| Cache.SweepStep | src/filesys/cache.c:122-123 | passing over a pinned frame clears its pin bit and lowers the number of pinned frames by one, which bounds the scan |
| Frames.FindSector | src/filesys/cache.c:95-101 | the lowest index of a valid frame holding the sector, or -1 exactly when no frame holds it |
| Frames.Evict | src/filesys/cache.c:114-116 | evicting a valid frame, with write-back when dirty, keeps both invariants and changes no sector's presented contents |
| Frames.InstallDirty | src/filesys/cache.c:74-91 | installing a dirty frame for a sector, with the device write, makes it the only frame holding it and changes the contents of that sector only |
| Frames.InstallLoaded | src/filesys/cache.c:57-63 | loading a sector into a free slot keeps both invariants and changes no sector's presented contents |
| Frames.Flush | src/filesys/cache.c:159-165 | flushing every frame keeps both invariants, leaves no frame valid and dirty, and leaves the device holding the presented contents |
| Inode.Find | src/filesys/inode.c:252-261 | the first handle in the list for the sector, or -1 exactly when no handle is for it |
| Inode.Transfer | src/filesys/inode.c:368-382 | bytes transferred: none when the size is not positive or the offset is at or past the end; otherwise the smaller of the size and the bytes left in the file |
| Inode.InodeLayer.Init | src/filesys/inode.c:164-168 | an empty list of open inodes over the given device and free map; the invariant holds |
| Inode.InodeLayer.Allocate | src/filesys/inode.c:93-94 | the first free sector, which leaves the free list, or failure with nothing changed when none is free |
| Inode.InodeLayer.Release | src/filesys/inode.c:315-342 | the sector is free afterwards, nothing else changes in the free set, and the free list stays duplicate-free |
| Inode.InodeLayer.Open | src/filesys/inode.c:245-277 | an inode already open gets one more opener; otherwise a new handle goes first in the list with one opener, no write denial, not removed, and the descriptor read from the sector; the list never holds two handles for one sector |
| Inode.InodeLayer.Reopen | src/filesys/inode.c:280-286 | a null handle stays null; otherwise only its open count goes up by one |
| Inode.InodeLayer.Remove | src/filesys/inode.c:351-356 | only the handle's removed flag changes, to true, so a second remove changes nothing |
| Inode.InodeLayer.DenyWrite | src/filesys/inode.c:485-490 | only the deny-write count goes up by one, and it stays at most the open count |
| Inode.InodeLayer.AllowWrite | src/filesys/inode.c:495-501 | only the deny-write count goes down by one, and it stays in [0, open count) |
| Inode.InodeLayer.Length | src/filesys/inode.c:504-508 | under the invariant the length is non-negative and addressable through the descriptor's pointers |
| Inode.InodeLayer.DescriptorAt | src/filesys/inode.c:274 | the descriptor a sector holds is well formed and has the layer's number of index pointers |
| Inode.InodeLayer.CloseAsWritten | src/filesys/inode.c:298-347 | as written: one opener fewer and the handle leaves the list at the last close; a removed file's last close frees the descriptor sector, plus the data blocks only when there are more than 8 of them, and never the index tables |
| Inode.CloseAsWrittenLeaks | src/filesys/inode.c:312-343 | for every sound, removed, non-empty file, the close as written leaves some sector of the file in use |
| Inode.InodeLayer.Close | src/filesys/inode.c:298-347 | as intended: the same list bookkeeping, and the last close of a removed file frees exactly its data blocks, its index tables and its descriptor sector; other closes free nothing |
| Inode.InodeLayer.ReleaseDirect | src/filesys/inode.c:320 | the free set gains exactly the first `count` direct blocks |
| Inode.InodeLayer.ReleaseIndirect | src/filesys/inode.c:322-342 | the free set gains exactly the data blocks past the direct ones and, when asked, the index tables in use |
| Inode.InodeLayer.ReleaseEntries | src/filesys/inode.c:331-337 | the free set gains exactly the first `count` entries of the table |
| Inode.InodeLayer.Create | src/filesys/inode.c:175-240 | succeeds exactly when the free list holds the sectors the length needs, and takes exactly those sectors (or all of them on failure); on success the descriptor has the length, the magic number and no directory flag, is sound, reads zero at every byte, and is the empty file grown sector by sector from the free list (`GrownFrom`); on failure no descriptor is written; either way no sector changes but those taken off the free list (`ChangedOnly`) |
| Inode.InodeLayer.NewDescriptor | src/filesys/inode.c:187-234 | the descriptor inode_create builds: the empty file with the magic number, grown to the length; the same outcome, free-list and device frame as Create, before the descriptor is stored |
| Inode.InodeLayer.ByteToSectorWrite | src/filesys/inode.c:80-158 | with the direct-block allocations checked: an offset inside the file changes nothing; otherwise growth succeeds exactly when the needed sectors are free, the length then becomes offset + 1, the descriptor is written back, and a sound file stays sound, keeps its bytes and reads zero in the new part, grown from the free list as `GrownFrom` describes (`GrewOn`); `GrowthFrame`: only this handle's descriptor copy changes, the free list loses the sectors taken off its head, and the descriptor sector is written only on success; `GrowthDisk`: on every outcome no sector changes but those taken off the free list and the old file's tables |
| Inode.InodeLayer.Grow | src/filesys/inode.c:84-157 | the growth itself, with the direct-block allocations checked: it succeeds exactly when the needed sectors are free, takes exactly those sectors (as many as there are on failure), and a sound file stays sound, keeps its bytes and reads zero in the new part, with old blocks and tables kept and new ones at their free-list positions (`GrownFrom`); on every outcome no sector changes but those taken off the free list and the old file's tables (`GrowthDisk`) |
| Inode.InodeLayer.GrowDirectBlocks | src/filesys/inode.c:88-96 | the direct loop with each allocation checked: the missing direct pointers take the next free sectors, zero-filled; it fails exactly when the free list runs out first |
| Inode.InodeLayer.GrowDirect | src/filesys/inode.c:90-96 | the direct loop as written: pointers take free sectors while any are left and keep their values after that, and every sector they name is zero-filled |
| Inode.InodeLayer.FillEntries | src/filesys/inode.c:138-147 | entries take the next free sectors, each zero-filled, and it fails exactly when the free list holds fewer than needed |
| Inode.InodeLayer.GrowTables | src/filesys/inode.c:109-149 | the table loop succeeds exactly when the needed sectors are free, takes exactly those, and then every table holds its new entries |
| Inode.InodeLayer.OpenTable | src/filesys/inode.c:116-136 | a new table takes the next free sector and starts empty; an old one is read back from its sector |
| Inode.InodeLayer.TablePass | src/filesys/inode.c:113-148 | one pass over a table takes exactly the sectors planned for it, or fails with the free list exhausted |
| Inode.InodeLayer.ReadAt | src/filesys/inode.c:361-413 | the number of bytes read is Transfer(length, offset, size), and the buffer holds exactly the file's bytes from the offset |
| Inode.InodeLayer.WriteAt | src/filesys/inode.c:420-481 | with writes denied: returns 0 and changes nothing; otherwise the file first grows to end at offset + size, with the direct-block allocations checked (`GrowthFrame`: only this handle's descriptor copy changes, the free list loses the sectors taken off its head, the descriptor sector is written only on success), and (`WriteResult`) the byte count is what fits in the file as it now is; when the growth fits, the whole size is written, the file reads the buffer at the written range, every other byte keeps its old value or reads zero in the grown part, and no sector changes but the file's own and those taken off the free list |
| Inode.InodeLayer.GrowAndWrite | src/filesys/inode.c:430-481 | growth to offset + size (checked direct-block allocations) followed by the write loop: the same `GrowthFrame` and `WriteResult` as WriteAt once writes are allowed |
| Inode.InodeLayer.Patch | src/filesys/inode.c:448-470 | whichever branch is taken (full sector, read-modify-write, or zeros), the sector's content with the chunk patched in at its offset |
| Inode.InodeLayer.WriteLoop | src/filesys/inode.c:431-477 | writes Transfer(length, offset, size) bytes; a sound file stays sound and reads the buffer where it was written, every other byte keeps its value, its blocks stay where they are, and no sector outside them changes (`InBlocks`) |
| Inode.ChunkFrame | src/filesys/inode.c:462-470 | writing a chunk's sector, a data block of the file, keeps every block in its sector and changes no sector outside the blocks |
| Inode.WriteFrame | src/filesys/inode.c:430-477 | growth then the chunk loop change no sector but those taken off the free list and the grown file's blocks and tables |
| Indirect.PassConfined | src/filesys/inode.c:116-147 | a pass over one table that fills its entries changes no sector but those taken off the free list so far and the old file's tables: its entries are zero-filled free-list sectors, and the table goes to a new sector taken before them or to an old table |
| Inode.ProgressStep | src/filesys/inode.c:439-446 | each chunk stays within one sector, the file and the remaining size, and the loop stops only when the transfer is complete |
| Inode.ChunkSize | src/filesys/inode.c:375-380 | the chunk is at most the bytes left in the sector, in the file and in the request |
| Inode.BounceAll | src/filesys/inode.c:448-469 | a chunk that covers the whole sector patched into any content gives the chunk itself, so the full-sector branch agrees with the bounce branch |
| Inode.ChunkBytes | src/filesys/inode.c:462-470 | after the patched sector is written, the file reads the chunk's bytes from the buffer and every other byte, including the rest of that sector, as before |
| Inode.ChunkWritten | src/filesys/inode.c:435-476 | one chunk of the write loop keeps a sound file sound and extends the range that reads the buffer by the chunk |

## Left out

- The `write_behind` and `read_ahead` threads (cache.c:10-27) and the read-ahead list are left out. Their point is concurrency. `Cache.BufferCache.OutAll` is an operation that may be called between any two others.
- Locks (`cache_lock`, and the unlocked `block_write` at cache.c:91) are left out. Each operation is one atomic step.
- `block_read`/`block_write` are reads and updates of the device map. `free_map_allocate`/`free_map_release` are an ordered free list. Their implementations are not part of this model.
- `malloc`/`calloc` failures are left out: the bounce-buffer `break` in `inode_read_at`/`inode_write_at`, the `NULL` results in `inode_create` and `inode_open`, and the table buffers.
- The byte layout of `struct inode_disk` lives in `inode.h`, which is not part of this model. Descriptors are kept in a map from sector to descriptor, apart from the data sectors. A sector with no descriptor reads as the all-zero descriptor.
- The inode layer runs over the sector map that the cache presents (`Content`), not over the `Cache.BufferCache` object. Which frames hold which sectors is invisible to the inode layer.
- `INDIRECT_PTR_NUM` (defined in `inode.h`) is a parameter of `Inode.InodeLayer`.
- Offsets past `8 * 512 + INDIRECT_PTR_NUM * 128 * 512` would index `indirect_blocks` out of bounds in growth and creation, which is undefined behaviour. Callers must stay below that limit: the `MaxBytes` preconditions of `Create`, `ByteToSectorWrite` and `WriteAt`. `WriteAt` asks for it, and for a non-negative offset, only when writes are allowed, because with writes denied it returns 0 before touching the offset (inode.c:428-429).
- `off_t`/`size_t` overflow is not modelled; offsets and sizes are unbounded integers.
- Inode.InodeLayer.ByteToSectorWrite: the sector that `byte_to_sector_write` returns is not modelled. The function is declared `void`, and its only caller discards the result (inode.c:430).
- Inode.InodeLayer.WriteAt: after a growth that fails part-way, the length, byte count, handle list, descriptor sectors and free list are stated, but not the file's bytes or which sectors changed (`ByteToSectorWrite` states the latter for the growth itself).
- Inode.InodeLayer.ByteToSectorWrite: it grows through the checked direct loop (`GrowDirectBlocks`). As written (inode.c:90-102), a growth that stays within the direct blocks never fails: the length becomes pos + 1 even when an allocation fails (Findings, third row: `GrowDirect`, `Indirect.UncheckedDirectGrowth`).
- Inode.InodeLayer.Grow: it uses the checked direct loop (`GrowDirectBlocks`). As written (inode.c:90-102), a growth within the direct blocks never fails, even when an allocation fails (Findings, third row).
- Inode.InodeLayer.WriteAt: its growth uses the checked direct loop (`GrowDirectBlocks`). As written (inode.c:90-102), a growth within the direct blocks never fails, so the full size would be reported even with no free sector (Findings, third row).
- Inode.InodeLayer.GrowAndWrite: its growth uses the checked direct loop (`GrowDirectBlocks`). As written (inode.c:90-102), a growth within the direct blocks never fails (Findings, third row).
- Inode.InodeLayer.IsDir: it returns the descriptor's flag and has no contract beyond that.
- `inode_get_inumber` and the rest of the file (`filesys.c`, `syscall.c`) are plumbing outside this core and are left out.
- The commented-out LRU eviction (cache.c:127-145) and read-ahead hand-off (inode.c:131-135) are left out.
- Aliasing of `struct inode *` handles is not modelled. A handle is named by its sector, which is unique in the list of open inodes.

## Findings

| source | as written | input that shows it | evidently intended | confidence | as-written member | corrected member |
|---|---|---|---|---|---|---|
| src/filesys/cache.c:36, 108 | `clock_ptr` starts at -1, and the first miss runs `cache[clock_ptr]` on slot -1 | the first `cache_read` or `cache_write` after `cache_init` | the hand starts at slot 0 | high (not executed) | Cache.BufferCache.InitAsWritten | Cache.BufferCache.Init |
| src/filesys/inode.c:312-343 | the last close of a removed file frees only the descriptor sector when the file has at most 8 blocks, and never frees index tables | `inode_remove` then `inode_close` on a 1-byte file: its data block stays in use | every data block and table of the file is freed | high (not executed) | Inode.InodeLayer.CloseAsWritten, Inode.CloseAsWrittenLeaks | Inode.InodeLayer.Close |
| src/filesys/inode.c:90-96 | a failed direct-block allocation is ignored; the pointer keeps its old value (0 for a created file), that sector is zeroed, and the length grows anyway | a 1-byte write to an empty file when no sector is free: sector 0 is zeroed and becomes block 0 | growth stops, and the length stays, when an allocation fails, as in the table loop | high (not executed) | Inode.InodeLayer.GrowDirect, Indirect.UncheckedDirectGrowth | Inode.InodeLayer.GrowDirectBlocks |
