# An inode filesystem over an emulated block device

This project models the core of a small teaching filesystem in Dafny and
proves properties of the model. The filesystem has five parts:

- **The block device.** A 64 MiB byte array of 16384 blocks of 4096 bytes
  each. It is read and written one whole block at a time, and a block number
  past the device is refused with -1.
- **The block bitmap.** It follows the inode blocks on the device and holds
  one bit per device block. Allocation scans it for the first clear bit at or
  above `first_allocatable`. Deallocation clears a block's bit.
- **The inode table.** 1024 inodes of 32 bytes each, 128 to a block, in
  blocks 0 to 7. The model uses three of each inode's fields: the used flag,
  the size and the number of the file's single pointer block.
- **The pointer block.** Each file has one. It holds 512 unsigned 64-bit
  entries, and entry `t` names the device block that holds file bytes
  `[t * 4096, (t + 1) * 4096)`.
- **The file operations.** `format`, `ifile_create`, `ifile_grow`,
  `ifile_read` and `ifile_write`, plus the byte-range helpers
  `pointers_read` and `pointers_write`. A range is split into a partial
  first block, whole middle blocks and a partial last block.

Modules:

- `Storage` (storage.dfy): the device is a class whose block array is
  changed in place, with `ReadBlock` and `WriteBlock`.
- `Bitmap` (bitmap.dfy): the allocator's four globals are the fields of a
  class. `ghost` functions give the scan's result (`FirstFree`), one
  allocation (`AllocateSpec`) and one deallocation (`DeallocateSpec`). The
  scan loops are methods proved against these functions.
- `Records` (records.dfy): the on-disk byte layout of inodes and pointer
  blocks, with little-endian 64-bit fields, and their round trips.
- `Pointers` (pointers.dfy): file bytes through a pointer block. It holds
  the loops of `pointers_read` and `pointers_write`, specified by
  `ReadSpan` and `WriteSpan`.
- `Files` (files.dfy): `format`, `ifile_grow` as written and corrected,
  and the operations that are specified only by their comments (create, read
  and write). They are methods of a `FileSystem` class, each proved equal to
  a ghost function of the device image and the allocator's globals.
- `Scenario` (scenario.dfy): one session on a freshly formatted device.

Where the filesystem's specification and its code disagree, the model
follows the code:

- The code sizes the bitmap as one block per byte of bitmap.
- It numbers bits with the wrong stride.
- It never checks `last_allocatable`.
- Its rollback in `ifile_grow` releases entry indices.
- It sets the size and returns 0 after a failed growth.

Each of these is modelled as written, exhibited by a lemma, and paired with
a corrected definition (see "## Findings"). The file operations are built
on the corrected allocator and the corrected growth.

## Model

| member | source | states |
|---|---|---|
| Storage.Store | storage.c:29-37 | an in-range block write replaces exactly that block and keeps every other block; an out-of-range write changes nothing |
| Storage.Device.ReadBlock | storage.c:19-27 | block number below NUM_BLOCKS: result 0 and the buffer receives that block; otherwise -1 and the buffer is left as it was |
| Storage.Device.WriteBlock | storage.c:29-37 | block number below NUM_BLOCKS: result 0 and only that block is replaced; otherwise -1 and the device is unchanged |
| Storage.WriteThenRead | storage.c:19-37 | reading block m after writing data to block n yields data when m = n and the old block otherwise |
| Storage.WriteFlatBytes | storage.c:34 | in the flat 64 MiB view, writing block n replaces exactly bytes [n*4096, (n+1)*4096) |
| Bitmap.Allocator.constructor | bitmap.c:6-14 | the allocator's globals start at zero, as static storage does |
| Bitmap.Allocator.Init | bitmap.c:16-25 | the bitmap starts right after the inode blocks; allocatable blocks run from the end of the bitmap to the last block of the disk |
| Bitmap.ScanByte | bitmap.c:34-44 | the bit loop finds the first candidate bit of byte j, or reports that the scan continues unchanged at byte j + 1 |
| Bitmap.ScanBlock | bitmap.c:33-45 | the byte loop finds the first candidate of bitmap block i, or reports that the scan continues at block i + 1 |
| Bitmap.Allocator.AllocateWith | bitmap.c:27-49 | the block loop leaves exactly the device and result of AllocateSpec: the first candidate in scan order has its bit set, its bitmap block is written back and its number is returned, or -1 |
| Bitmap.Allocator.Allocate | bitmap.c:27-49 | bitmap_allocate_block as written: numbers bits with stride BLOCK_SIZE per bitmap block and checks only first_allocatable |
| Bitmap.Allocator.AllocateIntended | bitmap.c:27-49 | the allocator with the stride 8*BLOCK_SIZE that deallocation uses and the last_allocatable bound |
| Bitmap.Allocator.Deallocate | bitmap.c:51-64 | bitmap_deallocate_block as written: the bitmap block holding the bit is read, the bit cleared, and the result written to block number block_number / (8*BLOCK_SIZE) |
| Bitmap.Allocator.DeallocateIntended | bitmap.c:51-64 | the same with the result written back to the bitmap block it was read from |
| Bitmap.FirstFreeIsFirst | bitmap.c:30-46 | no position between the scan's start and the candidate it finds is itself a candidate |
| Bitmap.FirstFreeUnique | bitmap.c:30-46 | a candidate with no earlier candidate is exactly what the scan returns |
| Bitmap.SetBitEffect | bitmap.c:39 | setting the bit at p makes p used and leaves every other bit as it was |
| Bitmap.AllocateFails | bitmap.c:48 | allocation returns -1 exactly when no bitmap position is a candidate, and then the device is unchanged |
| Bitmap.AllocateSetsOneBit | bitmap.c:38-42 | a successful allocation returns a number at or above first_allocatable whose bit was clear; that bit is now set, every other bit is unchanged, and only its bitmap block changed |
| Bitmap.AllocateTakesFirst | bitmap.h:17 | no position before the allocated one in scan order was a candidate |
| Bitmap.LocateBitNumber | bitmap.c:52-55 | deallocation's decomposition of a block number inverts the corrected numbering |
| Bitmap.BitNumberLocate | bitmap.c:52-55 | the corrected numbering inverts deallocation's decomposition |
| Bitmap.BitNumberOrder | bitmap.c:30-35 | under the corrected numbering, scan order is block-number order |
| Bitmap.ScanNumberCollision | bitmap.c:35 | the numbering as written gives two bitmap bits the same block number 4096, and deallocation places 4096 at the first of them |
| Bitmap.AsWrittenReissues | bitmap.c:30-42 | as written, once every bit of bitmap block 0 numbered at or above first_allocatable is set (blocks first_allocatable..32767 allocated), allocation returns 4096 although the bit that deallocation uses for 4096 is set |
| Bitmap.AsWrittenPastDevice | bitmap.c:38 | as written, allocation can return NUM_BLOCKS, past last_allocatable and off the device |
| Bitmap.IntendedWithinDevice | bitmap.c:37-38 | a corrected allocation lies in [first_allocatable, last_allocatable] |
| Bitmap.IntendedTakesLowest | bitmap.h:17 | the corrected allocator returns the lowest free block at or above first_allocatable: every block in between is marked used |
| Bitmap.DeallocateFrees | bitmap.h:24 | corrected deallocation clears exactly the bit of the given block and keeps all others |
| Bitmap.ClearedAfterSet | bitmap.c:61 | clearing a bit that was just set gives back its bitmap block unchanged |
| Bitmap.DeallocateUndoesAllocate | bitmap.c:51-64 | corrected deallocation of the block just allocated restores the device exactly |
| Bitmap.AsWrittenDeallocateKeepsBitmap | bitmap.c:63 | as written, deallocating a block whose bitmap block index lies below the bitmap changes no bitmap bit and overwrites device block block_number / (8*BLOCK_SIZE) with the bitmap block, bit cleared |
| Records.LittleEndianRoundTrip | files.h:26-30 | decoding the n-byte little-endian encoding of x < 256^n gives x |
| Records.FromLittleEndianRoundTrip | files.h:26-30 | re-encoding the value of any byte string gives the same bytes |
| Records.PointersRoundTrip | files.h:44-46 | reading a pointer block of 64-bit entries back from its bytes gives the same entries |
| Records.DecodePointersRoundTrip | files.c:91-93 | any block viewed as a pointer block has 64-bit entries and encodes back to the same bytes |
| Records.InodeRoundTrip | files.h:14-31 | an inode stored in a record slot reads back unchanged |
| Records.InodeAtStorable | files.h:26-30 | every inode read from a block has a 64-bit pointer-block field, so it can be stored with any 64-bit size |
| Records.PutInodeKeeps | files.h:14-31 | storing an inode changes only its used flag, size and pointer-block bytes |
| Records.PutInodeOthers | files.h:14-31 | storing an inode leaves the other records of its block unchanged |
| Records.ZeroInode | files.c:29-30 | a zeroed block holds unused inodes of size 0 |
| Pointers.SplitCovers | files.c:134-140 | a range within one block stays inside it; otherwise the first, middle and last parts add up to the range length |
| Pointers.Copy | files.c:149 | memcpy: the source lands at the offset and the rest of the buffer is unchanged |
| Pointers.CopyMiddle | files.c:166-171 | the middle loop appends whole blocks, keeping buffer[..position] equal to the file bytes read so far |
| Pointers.PointersRead | files.c:133-178 | returns 0; when every block of the range is on the device, buffer[..n] holds the n file bytes from `from`; bytes past n are untouched |
| Pointers.Overlay | files.c:203 | the patched block holds the piece at its offset and the old bytes elsewhere |
| Pointers.Patch | files.c:202-204 | read-modify-write of one block: the block gets the piece at the offset and nothing else changes |
| Pointers.PointersWrite | files.c:197-215 | the device after the first, middle and last blocks are patched equals WriteSpan of buffer[..n] at `to` |
| Pointers.WriteSpanOutside | files.c:197-215 | a device block named by no entry of the range keeps its contents |
| Pointers.WriteSpanAt | files.c:210-214 | with distinct entries, each touched block holds its old bytes with its piece of the buffer in place |
| Pointers.WrittenByte | files.c:197-215 | with distinct entries, each written byte holds the matching byte of the buffer |
| Pointers.ReadAfterWrite | files.c:197-215 | reading a range back after writing it gives the written bytes at any alignment, when its entries are distinct device blocks |
| Pointers.WriteKeepsOtherBytes | files.c:197-215 | writing a range keeps every file byte outside it, unless its block is also named by another entry of the range |
| Files.DivUpIsCeiling | files.c:14 | DIV_UP(a, b) is the least q with a <= q*b |
| Files.ZeroedStep | files.c:36-38 | one more zeroed block extends the zeroed region by one |
| Files.ZeroedTwice | files.c:36-47 | zeroing [a, b) and then [b, c) zeroes [a, c) |
| Files.FileSystem.constructor | files.c:10-12 | the region sizes start at the all-ones value of -1 |
| Files.FileSystem.ZeroRegion | files.c:36-38 | a zero-writing loop leaves exactly the region [lo, hi) zeroed |
| Files.FileSystem.Format | files.c:23-55 | format as written: 8 inode blocks and 2048 bitmap blocks are zeroed, and the allocator is set to bitmap 8..2055 and allocatable 2056..16383 |
| Files.FileSystem.FormatIntended | files.c:40-43 | format with the bitmap sized in blocks: 1 bitmap block, allocatable from block 9 |
| Files.ZeroedInodes | files.c:29-30 | after format every inode is unused, of size 0 |
| Files.FormatFirstAllocation | files.c:43 | after format as written the first block handed out is 2056, so 2047 blocks sit unused behind a bitmap sized in bytes |
| Files.FormatIntendedFirstAllocation | files.c:43 | after the corrected format the first block handed out is 9 |
| Files.FileSystem.FillEntries | files.c:95-97 | the allocation loop of ifile_grow equals Fill: each entry gets a fresh block, and the first failure stores the sentinel and stops |
| Files.FileSystem.RollbackEntries | files.c:101-104 | the rollback loop as written leaves the device and entries of Rollback, whose entries are stated by Files.RollbackResets and whose device by Files.RollbackEffect |
| Files.FileSystem.RollbackIfStopped | files.c:98-107 | the rollback runs exactly when the allocation loop stopped early |
| Files.FileSystem.FillFromHead | files.c:89-97 | the pointer block is read into a zeroed buffer and entries size/4096 + 1 .. new_size/4096 are filled |
| Files.FileSystem.GrowEntries | files.c:86-108 | the two loops of ifile_grow as written equal GrowEntriesSpec |
| Files.FileSystem.Grow | files.c:85-115 | ifile_grow as written: result 0, the pointer block written back and the size set to new_size, whatever happened |
| Files.FillKeeps | files.c:95-96 | the allocation loop changes only entries size/4096 + 1 .. new_size/4096 |
| Files.FillKeepsPast | files.c:95-99 | the allocation loop leaves the entries past the one where it stopped unchanged |
| Files.FillKeepsUsed | files.c:95-96 | a used bit stays used through the allocation loop |
| Files.SmallBlockNumber | files.c:102 | every entry index is below 8*BLOCK_SIZE, so its bit lies in bitmap block 0 |
| Files.RollbackEffect | files.c:101-104 | the rollback as written writes only device block 0, which ends up as bitmap block 0 with the bit of index size/4096 + 1 cleared |
| Files.RollbackWrittenBack | files.c:101-110 | after the rollback and write-back, block 0 is that copy, and every block other than 0 and the pointer block is as the allocation loop left it |
| Files.RollbackResets | files.c:101-104 | the rollback as written resets exactly entries current+1 .. j to the -1 sentinel and keeps every other entry |
| Files.AsWrittenGrowSetsSize | files.c:112-114 | ifile_grow as written sets the size to new_size even when an allocation failed |
| Files.AsWrittenGrowBlockZero | files.c:102 | a failed ifile_grow as written overwrites inode block 0 with a copy of bitmap block 0 |
| Files.AsWrittenGrowKeepsBit | files.c:101-104 | a failed ifile_grow as written leaves every bit the allocation loop set still set |
| Files.AsWrittenGrowFailure | files.c:98-114 | a failed ifile_grow as written sets the size, clobbers inode block 0 and frees none of the blocks it allocated |
| Files.FileSystem.ReleaseEntries | files.c:101-104 | the corrected rollback loop gives back the blocks entries current+1 .. from name |
| Files.FileSystem.GrowIntended | files.c:85-115 | the all-or-nothing growth equals GrowIntendedSpec |
| Files.FillUndone | files.c:98-104 | releasing, last first, the blocks a stopped allocation loop took restores the device it started from |
| Files.FillAllocates | files.c:95-96 | every block the corrected loop hands out is allocatable, was free and is now used, and no block is handed out twice |
| Files.GrowIntendedFails | files.c:98-107 | a failed corrected growth leaves the device and the inode exactly as before and returns -1 |
| Files.FillSettleFails | files.c:98-107 | after a stopped corrected allocation loop, giving back the blocks it took restores the device the loop started from |
| Files.FillPointerBlock | files.h:45 | with the corrected allocator every entry stays a 64-bit value |
| Files.AsWrittenGrowResets | files.c:86-114 | after a failed ifile_grow as written with the pointer block on the device, entries size/4096 + 1 up to the failed one read back as the -1 sentinel, all other entries as before, while the size is new_size |
| Files.StoredEntry | files.c:110 | one entry of a written pointer block reads back unchanged |
| Files.StoredPointers | files.c:110 | a pointer block written to a device block reads back unchanged |
| Files.GrowIntendedCompletes | files.c:112 | a corrected growth succeeds only when every allocation succeeded, and only then sets the size to new_size |
| Files.GrowIntendedWrites | files.c:110 | after a successful corrected growth the pointer block reads back as the filled entries |
| Files.FillComplete | files.c:95-96 | a completed loop fills exactly its entries with distinct, allocatable, previously free blocks and keeps the rest |
| Files.GrowIntendedSucceeds | files.c:85-115 | a successful corrected growth fills exactly entries size/4096 + 1 .. new_size/4096 with distinct, allocatable, previously free blocks and keeps the other entries |
| Files.StoreInodeEffect | files.c:62-75 | after inode id is stored, inode id reads back as stored and every other inode as before |
| Files.FirstEntries | files.c:79-80 | a new pointer block has entry 0 naming the data block and every other entry zero |
| Files.FileSystem.Create | files.c:58-83 | ifile_create equals CreateSpec: -1 for an id past the table or when either allocation fails; otherwise the inode and the new pointer block are written and the result is 0 |
| Files.FileSystem.CreateWithPointerBlock | files.c:72-83 | once the pointer block is allocated, ifile_create equals CreateWithData: a failed second allocation gives the pointer block back and returns -1, otherwise the inode and pointer block are written and the result is 0 |
| Files.FileSystem.WriteNewFile | files.c:69-82 | the new inode (used, size 0, naming the pointer block) is stored in its inode block and the pointer block holds FirstEntries of the data block; nothing else changes |
| Files.CreateFails | files.c:58-83 | a failed create leaves the device exactly as before |
| Files.CreateAllocates | files.c:72-80 | a successful create takes two different allocatable blocks that were both free |
| Files.WrittenInode | files.c:75-82 | writing the inode and then a pointer block outside the inode blocks leaves inode id as written and the others as before |
| Files.AllocateKeepsInodes | files.c:51-52 | allocation writes only the bitmap, so no inode changes |
| Files.CreateInode | files.c:69-75 | after a successful create inode id is used, of size 0, and names the first block allocated; every other inode is unchanged |
| Files.CreatePointers | files.c:77-82 | after a successful create the pointer block has entry 0 naming the second block allocated and all other entries zero |
| Files.WrittenKeepsBitmap | files.c:75-82 | writing the inode and the pointer block changes no bitmap bit |
| Files.CreateBitmap | files.c:72-80 | a successful create sets exactly the bits of its two blocks |
| Files.FileSystem.ReadInode | files.c:119-124 | the inode is read from record id % 128 of block id / 128 |
| Files.FileSystem.ReadPointers | files.c:129-130 | the pointer block's entries are read into a zeroed buffer |
| Files.FileSystem.Read | files.c:118-131 | result 0 exactly when ReadSpec has a value; then, when the range's blocks are on the device, buffer[..n] holds the file bytes; on -1 the buffer is untouched |
| Files.FileSystem.PrepareWrite | files.c:182-190 | the checks and growth of ifile_write for a range ending at byte `end` equal WritePrepare: -1 for an inode number past MAX_FILES; on failure the device is unchanged |
| Files.FileSystem.CheckAndGrow | files.c:187-190 | for the inode as read: -1 for an unused inode or a range ending at or past 512 * 4096, 0 with nothing changed when the file is long enough, and otherwise the growth, as WriteChecks states; on failure the device is unchanged and the bitmap layout is kept |
| Files.FileSystem.GrowAndPersist | files.c:189-190 | the growth branch of WriteChecks: the file grows all-or-nothing and its inode block, as read before the growth, is written back with the grown inode; on failure the device is unchanged |
| Files.AsWrittenEntriesPastBlock | files.c:95 | as written, growing to 512 * 4096 bytes or more runs the allocation loop over entry 512, past the pointer block's 512 entries (files.h:45) |
| Files.LongRangeRefused | files.c:118-131 | the corrected read and write refuse every range ending at or past 512 * 4096 and leave the device unchanged |
| Files.FileSystem.Write | files.c:181-194 | ifile_write equals WriteSpec: -1 with the device unchanged on any failure; otherwise the file grows if needed and buffer[..n] is written at `to` |
| Files.FileSystem.WriteEnding | files.c:181-194 | the checks and growth of WritePrepare for the range's end, then the data part WriteData; -1 with the device unchanged when the checks or the growth fail |
| Files.FileSystem.WriteThrough | files.c:192-193 | once the checks and growth succeeded, the pointer block is read and the bytes are written through it, as WriteData states |
| Files.WritePrepared | files.c:189-190 | after a successful prepare for a range ending at `end` the inode is stored, used, keeps its pointer block and has size max(size, end) |
| Files.WrittenDataReads | files.c:192-193 | after checks that left the inode stored, used and long enough, the data part succeeds and the range reads back as the written bytes, when its blocks are apart from the inode and pointer blocks |
| Files.ReadAfterFileWrite | files.c:181-194 | a successful write, read back over the same range, gives the written bytes, when its blocks are distinct device blocks apart from the inode and pointer blocks |
| Scenario.FirstTwoAllocations | files.c:49-54 | on a freshly formatted device the corrected allocator hands out blocks 9 and then 10 |
| Scenario.CreateFirstFile | files.c:58-83 | creating file 0 after format succeeds, with pointer block 9 whose entry 0 names block 10 |
| Scenario.PrepareFirstWrite | files.c:189-190 | a 24-byte write at offset 0 of that empty file grows it to 24 bytes and keeps its pointer block |
| Scenario.WrittenFirstFile | files.c:181-194 | after that write, reading 24 bytes at offset 0 gives the written bytes |
| Scenario.FirstFileData | files.c:192-193 | the data lands in block 10, away from the inode and pointer blocks |
| Scenario.OverwriteStart | files.c:181-194 | overwriting 4 bytes at offset 0 keeps the size; reading 24 bytes then gives the new 4 bytes followed by the old last 20 |
| Scenario.CreateWriteOverwriteRead | files.c:58-194 | format, create, write 24 bytes, read them back, overwrite 4 bytes, and read again: every step succeeds with the expected bytes |

## Left out

- storage_init (storage.c:9-17) is not modelled. Neither is the failure of its `malloc`, nor the uninitialised contents it leaves. Each statement holds for any device image, and the device constructor gives a zero-filled one.
- tester.c is not part of this model.
- Storage.Device.ReadBlock and WriteBlock copy whole blocks as values. Aliasing between the caller's buffer and the device is not modelled.
- Only three inode fields are modelled: the used flag, the size and the pointer-block number. The owner, group, permission and reserved fields are kept byte for byte but never interpreted.
- The used flag's bit-field packing is compiler-dependent. The model places it in the low bit of the 16-bit word at offset 6.
- The 64-bit wrap-around of `from + how_many` and of the size arithmetic is not modelled. Integers are unbounded, and every range the model accepts ends below 512 * 4096.
- The global `inodes_per_block` (files.c:10) is shadowed by a local in `format`, so the global keeps -1. Nothing reads it, so it is not modelled.
- Files.FileSystem.Grow requires new_size < 512 * 4096. At or beyond that size, ifile_grow writes entries past the end of the 512-entry pointer block on the stack (files.c:95, files.h:45), and that undefined behaviour is not modelled. The read and write operations never reach it, because they refuse such ranges.
- Files.FileSystem.GrowIntended requires new_size < 512 * 4096, for the same reason.
- Files.FileSystem.Read returns -1 for an id at or past MAX_FILES, for a range that ends at or past 512 * 4096, and for an unused inode. Its comments (files.c:118-131) mention none of these checks: without the first it would read inode block id / 128, a bitmap or data block, and without the second pointers_read would index past the pointer block.
- Files.FileSystem.Write returns -1 for the same three cases, which its comments (files.c:181-194) do not mention either.
- Files.PointersAt reads the pointer block of an inode whose head lies past the device as 512 zero entries, as if the failed block read left a zeroed buffer. In the C the buffer (files.c:89) is left uninitialised, so what Files.FileSystem.Read returns for such an inode is the model's choice, not a promise of the code.
- Files.FileSystem.Read states the buffer's contents only when every block of the range is on the device. A read of a block past the device fails, and the stale stack buffer is then copied. The model keeps the previous block there and states nothing about it.
- Files.FileSystem.Create allocates the pointer block and the data block before writing anything. The comments write the inode between the two allocations. The reordering lets a failed second allocation release the first block and leave the device as it was.
- Files.FileSystem.Create, Read and Write are modelled from the comments of their unimplemented bodies, over the corrected allocator and the all-or-nothing growth.
- Files.FileSystem.Write continues with pointers_write after a growth, reading the comment's "Otherwise" as "then". After the growth it writes the inode block back, as read before the growth, with the grown inode in place.
- Files.ReadAfterFileWrite assumes that the blocks the write touches are distinct device blocks other than the inode block and the pointer block. The model does not derive this from a filesystem-wide invariant.
- Bitmap.Allocator.Deallocate and DeallocateIntended require the bitmap block that holds the bit to be on the device. Otherwise the C writes an uninitialised buffer.
- The allocator assumes that the bitmap lies on the device (LayoutOk). A failed read of a bitmap block would rescan the previous block's buffer, and that case is not modelled.
- The return values of the storage calls are ignored, as in the C.
- Concurrency is not modelled. The code is single-threaded.

## Findings

| source | as written | input that shows it | evidently intended | confidence | as-written member | corrected member |
|---|---|---|---|---|---|---|
| bitmap.c:35 | bit k of byte j of bitmap block i is numbered i*4096 + j*8 + k, a stride of BLOCK_SIZE per bitmap block | blocks first_allocatable..32767 allocated, so every bit of bitmap block 0 from first_allocatable on is set, and bit 0 of bitmap block 1 clear: allocation returns 4096 although the bit that deallocation uses for block 4096 is set, so block 4096 is handed out twice | stride 8*BLOCK_SIZE per bitmap block, the inverse of the decomposition in bitmap_deallocate_block | not executed | Bitmap.AsWrittenReissues | Bitmap.IntendedTakesLowest |
| bitmap.c:38 | only `referenced_block >= first_allocatable` is checked; last_allocatable is never used | the bits of blocks first_allocatable..16383 in bitmap block 0 set and the next bit clear: allocation returns 16384, which is not on the device | also require referenced_block <= last_allocatable | not executed | Bitmap.AsWrittenPastDevice | Bitmap.IntendedWithinDevice |
| bitmap.c:63 | the updated bitmap block is written to block disk_block_number, without the bitmap's offset | deallocating any block below 32768 after format: device block 0, the first inode block, receives the bitmap block, and the bit stays set | write back to bitmap_first_block + disk_block_number | not executed | Bitmap.AsWrittenDeallocateKeepsBitmap | Bitmap.DeallocateUndoesAllocate |
| files.c:43 | the bitmap is given DIV_UP(NUM_BLOCKS, 8) = 2048 blocks, the number of bytes it needs | format, then allocate: the first block handed out is 2056, and blocks 9..2055 are never used | DIV_UP(DIV_UP(NUM_BLOCKS, 8), BLOCK_SIZE) = 1 block, so the first block handed out is 9 | not executed | Files.FormatFirstAllocation | Files.FormatIntendedFirstAllocation |
| files.c:102 | the rollback passes the entry index j to bitmap_deallocate_block instead of the block the entry names | growing a file of size 0 to 8192 when the second allocation fails: block 0 is overwritten with a copy of bitmap block 0, and the block allocated for entry 1 stays marked used | deallocate pointers->entry[j] for the entries this call filled | not executed | Files.AsWrittenGrowFailure | Files.GrowIntendedFails |
| files.c:112-114 | the size is set to new_size and 0 is returned even when an allocation failed | the same input: ifile_grow returns 0 with size 8192 while entries 1 and 2 hold the -1 sentinel | leave the size unchanged and return -1 on failure | not executed | Files.AsWrittenGrowResets | Files.GrowIntendedCompletes |
| files.c:95 | the allocation loop runs up to new_size / BLOCK_SIZE with no bound against the 512 entries of the pointer block (files.h:45) | growing a file to 512 * 4096 bytes: entry 512 is written, past the pointer block on the stack | refuse reads and writes whose range ends at or past 512 * 4096, so growth stays below it | not executed | Files.AsWrittenEntriesPastBlock | Files.LongRangeRefused |
