# Verified models of littlefs, memheap and the RT-Thread memory pool

Dafny models of the storage and allocation code of the boot firmware, with proofs of what that
code is for:

* **littlefs** (`boot1/lfs`): the caching block device, skip-list files that are written by copy
  on write, the block allocator, the metadata log with its compaction and its power-loss
  atomicity, the global state, the walk over the list of directories, and path lookup;
* **memheap** (`boot1/memheap`): a first-fit heap with splitting, two-sided coalescing and
  reallocation in place;
* **mempool** (`application/rt-thread/src/mempool.c`): a pool of equal blocks that threads wait for.

Code that updates fields in place is modelled by classes and loops (`Device`, `Cache`, `File`,
`Lookahead`, `Writer`, `Filesystem`, `Heap`, `Pool`) whose contracts say what the new state is;
pure computations are functions, and what they mean is said by lemmas. `dafny verify
dfyconfig.toml` checks everything.

## How the parts fit together

| part | modules, lowest first |
|---|---|
| words and arithmetic | `Words`, `Arith`, `TagWord`, `Bitmap`, `Crc` |
| caches and devices | `BlockDevice` (reading), `ReadEnds` (when reading ends), `BlockProg` (programming, flushing, comparing) |
| skip-list files | `Ctz` (layout), `CtzList` (finding, visiting), `CtzExtend` (a new last block), `CtzTail`, `CtzFile` (files as byte arrays), `CtzTangle` (copying with small caches) |
| block allocation | `Allocator`, `Spares` |
| metadata log | `MetaLog` (lookup), `Compaction`, `MetaBlock` (bytes, fetch), `Directory` (what a log says), `MetaCommit`, `MetaTorn` (a commit cut short), `MetaPair` (crashes), `MetaWriter` (writing), `MetaCrash` (crashes of the writer), `MetaErased` (forward checksums) |
| whole file system | `GlobalState`, `TailCycles`, `PathWalk` |
| heaps | `CircularList`, `HeapTiling`, `HeapMarks`, `MemHeap`; `MemPool` |

## Assumptions

* The disk of `BlockDevice.Device` may store something else than it is told to: a function that
  nothing is known about says what it stores. Validated programming is proved against that disk,
  and so are files, whose blocks move away from bad ones. Reads return what is stored.
* The checksum of the metadata log is a parameter in the crash proofs, with one explicit
  hypothesis about it and the bytes a crash leaves (`MetaTorn.Unforged`, in `MetaPair.Honest` and
  `MetaCrash.HonestRow`): where valid tags lead to a checksum tag that was not written completely,
  the four bytes that were there before are not, by chance, the checksum of the bytes in front of
  them. That a fetch then takes whole commits only is proved (`MetaTorn.TornCommit`). A crash leaves
  a prefix of the programmed bytes. Without a crash the CRC-32 itself is used, and there is no
  hypothesis (`MetaWriter`, `MetaCrash.AppendWhole`, `MetaCrash.RewriteWhole`).
* A directory is what its entries answer to lookups by key, their number, the next pair with its
  hard bit, and the share of the global state (`Directory.SameDir`). Every entry has a name
  (`Directory.Named`), which is what makes the number of entries of a compacted log right.
* Files take their blocks from a supply of distinct blocks that belong to no list
  (`CtzFile.Spare`). `Spares.HandedIsSpare` says that an allocator with safe books is such a supply
  as long as nothing is settled, and `Allocator` keeps its books safe as long as traversals report
  every live block. That they do is `CtzTail.TraverseReportsIff` for a file being written, with one
  exception (below).
* `LFS_ASSERT` is compiled out; the geometry checks of `boot1/lfs/lfs.c:4225-4268` are
  preconditions (`BlockDevice.Geometry`), other assertions are proved.

## What the code does not do

Where the code misses what it is for, the model keeps the code as it is, and a lemma says exactly
when it holds.

* A read never ends if it comes to a turn that makes no progress, and only then (`EndsIff`): a read
  past the caches in front of unflushed bytes that start within the same read unit (`EndlessRead`),
  or an aligned load with no hint (`StallsIff`). With a hint and a program cache that starts on a
  read unit it always ends (`AlignedEnds`).
* Programming without validation leaves a stale read cache, except where the disk held the bytes
  already (`StaleIff`).
* Flushing a file reads the old list through a cache that shares its buffer with the read cache,
  and notices reuse of the buffer by the read cache not being empty afterwards. With caches of
  eight bytes or less, comparing a programmed window drops the read cache and bypasses it
  (`CompareBypassesIff`), so that a pointer that was loaded before leaves the buffer changed and the
  read cache empty. On a device that stores what it is told to, such caches are right exactly if
  their read units divide four: then pointers bypass the read cache, too (`SmallCachesIff`, and
  `ReadsCulprit` for the byte that is read otherwise; `CopiesWrongly` is a file and a configuration).
  Files are proved right under that condition (`Untangled`), and with any cache as long as nothing
  is copied.
* Between beginning a block and putting the first byte there, the position of a file does not
  belong to its block yet. If the block turns out bad then, a block is looked for, and the traversal
  of the file misses a block that holds its data, unless there is no other (`TraverseReportsIff`).
  At rest a file is never in that state (`CtzFile.File.Writing`).
* Compaction drops a value that lookups by class do not see any more, also if a lookup by exact
  type would (`FineLookupPreserved`, `StaleStructIsLost`).
* While an entry is being moved away, the entries behind it are found by the ids they will have, but
  for the first of them, whose new id is that of the entry that moves (`MovingIsDeletedIff`).
* If the commit that unlinks a directory fails, the delta taken over from it stays in memory, and
  the next commit writes it down (`StolenConservesIff`, `FailedDropSpreadsIff`).
* Block offsets wrap around with more than 2^31 blocks (`OffsetWraps`).
* The heap rounds requests within three bytes of 2^32 to the smallest size (`NeedCoversIff`); the
  test for growing in place wraps around within twelve bytes of 2^32 and lets any room pass
  (`RoomToGrowIff`, `RoomToGrowWrong`); a request for all that is available is refused (`Alloc`).
* The comment at `boot1/lfs/lfs.c:1230` says that the note of a forward checksum is reset with
  every commit; the code does not reset it, and `MetaErased.LastForward` follows the code.
* A memory pool with no room for a block writes a word in front of the pool (`Pool.constructor`);
  block sizes within eight bytes of 2^32 wrap around (`StrideCoversIff`).

## Model

| member | source | states |
|---|---|---|
| BlockDevice.BdRead | boot1/lfs/lfs.c:44-125 | for every state of both caches the read loop ends and returns the disk bytes with the unflushed bytes laid over them, refuses what is outside of a block, and leaves the read cache alone or coherent |
| BlockDevice.FreshTurn | boot1/lfs/lfs.c:55-121 | one turn copies bytes that are right or brings the wanted byte into the read cache |
| BlockDevice.FreshFinish | boot1/lfs/lfs.c:44-125 | so the loop returns what should be seen and keeps the read cache coherent |
| BlockDevice.ReadLoop | boot1/lfs/lfs.c:55-125 | whatever the caches hold, also stale bytes, the loop does turn after turn and ends |
| BlockDevice.TurnReads | boot1/lfs/lfs.c:55-121 | each of the four kinds of turn (program cache, read cache, bypass, load) reads what should be seen |
| BlockDevice.StallsIff | boot1/lfs/lfs.c:71-118 | exactly when a turn makes no progress |
| ReadEnds.StallRepeats | boot1/lfs/lfs.c:55-121 | the turn after it makes none either |
| ReadEnds.EndsIff | boot1/lfs/lfs.c:55-125 | for every state of the caches, hint and range, a read ends exactly if no turn it comes to is such a turn |
| ReadEnds.EndlessRead | boot1/lfs/lfs.c:89-107 | a configuration and a read that never ends |
| ReadEnds.AlignedEnds | boot1/lfs/lfs.c:55-125 | with an aligned program cache and a hint every read ends |
| BlockDevice.NoStall | boot1/lfs/lfs.c:71-118 | with an aligned program cache and a hint there is always progress |
| BlockDevice.FreshTurnReads | boot1/lfs/lfs.c:76-90 | a read cache that is stale on another block, or in front of what is read, does no harm |
| BlockDevice.Bypass | boot1/lfs/lfs.c:92-107 | an aligned read as long as its hint leaves no trace in an empty read cache |
| BlockProg.BdCmp | boot1/lfs/lfs.c:127-152 | comparing eight bytes at a time gives the order of the whole ranges; longer ranges leave the read cache in use |
| BlockProg.OrderSplit | boot1/lfs/lfs.c:142-148 | the order of two ranges is that of the first parts that differ |
| BlockProg.OrderIs | boot1/lfs/lfs.c:142-148 | the first byte that differs decides, and the smaller one comes first |
| BlockProg.CompareBypassesIff | boot1/lfs/lfs.c:134-140 | comparing a window with a dropped read cache bypasses the read cache exactly if the window is at most eight bytes |
| BlockProg.BdFlush | boot1/lfs/lfs.c:176-207 | validated, success means the padded window is on the disk, whatever the disk does; failure changes that window only and keeps the cache |
| BlockProg.PaddedFits | boot1/lfs/lfs.c:180-183 | the padded window stays within the cache and the block |
| BlockProg.BdSync | boot1/lfs/lfs.c:211-224 | after a sync the read cache is coherent, and success means the same as for a flush |
| BlockProg.StaleIff | boot1/lfs/lfs.c:183-204 | without validation the read cache stays coherent in exactly one case |
| BlockProg.BdProg | boot1/lfs/lfs.c:227-271 | contiguous programming appends to the block as seen through the cache, changes no other block, and at the end of a block whose windows are whole caches leaves the cache empty; on failure what was there before can still be read through the cache; what a validated program leaves in a small read cache |
| BlockProg.Fill | boot1/lfs/lfs.c:238-258 | one piece into the open window, flushed when it is full |
| BlockProg.ProgThenSync | boot1/lfs/lfs.c:211-271 | any contiguous pieces programmed and ended by a sync, whatever was waiting before and whether or not the last piece fills the cache, are on the disk byte for byte, behind what was there |
| Ctz.PopcStep | boot1/lfs/lfs_util.h:152-188 | the number of ones goes up by one and down by the trailing zeros when counting up |
| Ctz.StartClosed | boot1/lfs/lfs.c:2872-2882 | summing the capacities of the blocks in front needs only a population count |
| Ctz.IndexCorrect | boot1/lfs/lfs.c:2872-2882 | the index computation gives block and offset of every 32-bit position, for blocks of 128 bytes and more, without wrapping around |
| Ctz.AtUnique | boot1/lfs/lfs.c:2872-2882 | no other block and offset hold the position |
| CtzList.CtzAfter | boot1/lfs/lfs.c:2900-2913 | going back by a power of two that divides the index leads to an index that it divides, by the largest one to a higher power |
| CtzList.HopsLogarithmic | boot1/lfs/lfs.c:2899-2913 | finding a block takes at most 2*log2(distance)+1 hops |
| CtzList.HopsAtMostRise | boot1/lfs/lfs.c:2899-2913 | hops rise over higher powers first, then descend |
| CtzList.Find | boot1/lfs/lfs.c:2885-2917 | following pointers reaches exactly the block that holds the position, never overshoots, in the number of hops bounded above |
| CtzList.Hop | boot1/lfs/lfs.c:2905-2911 | the pointer read is that of the block 2^skip back |
| CtzList.Traverse | boot1/lfs/lfs.c:3019-3060 | of a list, stepping by one or two by parity visits every block exactly once, from the last to the first, for every file size; of any head and size, the visits start with the head and are as many as a file of that size has blocks |
| CtzList.Heads | boot1/lfs/lfs.c:3040-3059 | one pointer or two, as the block holds them |
| CtzList.HeadsOfList | boot1/lfs/lfs.c:3040-3059 | in a list they lead one block back, from blocks of even index also two |
| CtzExtend.Extend | boot1/lfs/lfs.c:2920-3016 | the new list is a list, reads as the old one up to its size, continues at the place of the next position, and no block but the supplied ones changes; bad blocks are passed over, no space means that none is left, and a device that stores what it is told to takes exactly one block |
| CtzExtend.EndOf | boot1/lfs/lfs.c:2948-2957 | where the next byte of a file of a given size goes |
| CtzExtend.CopyOut | boot1/lfs/lfs.c:2954-2981 | a byte-wise copy of the front of a block as it is seen through a cache |
| CtzExtend.WritePointers | boot1/lfs/lfs.c:2983-3008 | the new block gets pointers to the blocks 2^k back for all k up to ctz, read from the blocks on the way; what that leaves in a small read cache |
| CtzExtend.NextTarget | boot1/lfs/lfs.c:2986-3005 | slot i of the block 2^i back leads another 2^i back |
| CtzExtend.RenewedIsListed | boot1/lfs/lfs.c:2920-3016 | a copy of an incomplete block, or pointers behind a full one, make a list |
| CtzExtend.RenewedReads | boot1/lfs/lfs.c:2920-3016 | and the file reads the same |
| CtzExtend.Relocate | boot1/lfs/lfs.c:3265-3326 | moves what a file has of its last block, on the disk or in its cache, to another block, and makes the file's cache the cache of that block |
| CtzTail.DataMoved | boot1/lfs/lfs.c:3571-3653 | bytes appended to the last block, wherever it moves, are appended to the contents |
| CtzTail.TailMoved | boot1/lfs/lfs.c:3571-3653 | and the list stays a list |
| CtzTail.DataRange | boot1/lfs/lfs.c:3526-3540 | a range within a block is that range of the contents |
| CtzTail.FrontIsFile | boot1/lfs/lfs.c:3588-3602 | the blocks up to a position are a file that reads as the front of the whole |
| CtzTail.LengthNext | boot1/lfs/lfs.c:3588-3591 | one more byte needs another block exactly if the last one is full |
| CtzTail.TraverseReportsIff | boot1/lfs/lfs.c:4781-4790 | exactly when traversing a file being written by its block and position reports every block that holds its data |
| CtzFile.File.Open | boot1/lfs/lfs.c:3078-3135 | an opened file is valid and holds what the list holds |
| CtzFile.File.Write | boot1/lfs/lfs.c:3655-3696 | writing is splicing into an array of bytes that is zero-filled behind its end, or refused exactly if it gets too large; what the directory names reads as before, also on failure; no space means that no supplied block is left, and on a device that stores what it is told to it succeeds exactly if there are as many as the new size has behind the blocks that stay, and takes that many |
| CtzFile.File.Read | boot1/lfs/lfs.c:3552-3567 | reads the bytes at the position as far as the file goes, written or not, and changes no contents; it fails only if what is written cannot be flushed, for which the blocks that the rest of the old list needs are enough |
| CtzFile.File.Seek | boot1/lfs/lfs.c:3699-3743 | moves the position in 32-bit arithmetic, refused exactly outside of 0 and the largest file; the contents stay; it fails only if what is written has to be flushed and cannot be |
| CtzFile.File.Flush | boot1/lfs/lfs.c:3349-3423 | the directory may name a list that holds what the file held; without space it still names the old one; the old list is intact in any case; blocks are needed, and taken, exactly for the copied rest |
| CtzFile.File.FlushedWrite | boot1/lfs/lfs.c:3571-3653 | block by block, appends to what is written so far and leaves the old list alone; takes exactly the blocks the new end needs, and fails only without them |
| CtzFile.File.FlushedRead | boot1/lfs/lfs.c:3491-3550 | block by block, reads the contents of the list |
| CtzFile.File.FindLast | boot1/lfs/lfs.c:3592-3606 | the list to extend from, whether nothing or a whole block was written |
| CtzFile.File.NewBlock | boot1/lfs/lfs.c:3588-3620 | a block to go on writing in, behind the same bytes |
| CtzFile.File.Put | boot1/lfs/lfs.c:3622-3646 | bytes into the current block, which moves as often as it turns out bad; if none does no block is taken |
| CtzFile.File.MoveBlock | boot1/lfs/lfs.c:3636-3646 | after a failure the file goes on in another block with the same bytes |
| CtzFile.File.CopyRest | boot1/lfs/lfs.c:3361-3390 | everything behind the position is copied over from the old list, through a cache on the buffer of the read cache, with the blocks that takes |
| CtzFile.File.CopyByte | boot1/lfs/lfs.c:3372-3389 | one byte of the old list is appended, the one at the position if the shared cache is not stale; what the shared cache holds afterwards |
| CtzFile.File.WriteByte | boot1/lfs/lfs.c:3378-3389 | what one byte written does to two caches on one buffer |
| CtzFile.Unharmed | boot1/lfs/lfs.c:3386-3389 | with a larger cache, or on a sound device with read units that divide four, the check of the read cache keeps the two caches in step |
| CtzTangle.SmallCachesIff | boot1/lfs/lfs.c:3361-3390 | with caches of at most eight bytes on a sound device, the byte behind the first one copied into a new block is always read right exactly if the read units divide four |
| CtzTangle.ReadsCulprit | boot1/lfs/lfs.c:2983-3008 | otherwise, for every disk and list, it is a byte of a block whose pointer was read |
| CtzTangle.CalmReads | boot1/lfs/lfs.c:2998-3004 | if they do, pointers are read past the shared buffer |
| CtzTangle.Tangling | boot1/lfs/lfs.c:4225-4236 | the six pairs of read unit and cache size for which they do not |
| CtzTangle.CopyTwo | boot1/lfs/lfs.c:3372-3389 | two turns of the copying loop at the start of a block: the first byte is right, the second is what the shared cache makes of it |
| CtzTangle.CopiesWrongly | boot1/lfs/lfs.c:3361-3390 | a file, read units and caches of eight bytes: one of two bytes copied is wrong |
| CtzFile.File.FlushCache | boot1/lfs/lfs.c:3392-3409 | what is in the cache goes to the disk, on another block if necessary |
| CtzFile.File.FillZeros | boot1/lfs/lfs.c:3678-3689 | a position behind the end is reached over zeros, with the blocks that takes |
| CtzFile.EmptyAtEnd | boot1/lfs/lfs.c:259-262 | when a block of a file fills up, its cache is empty: the check in the programming loop cannot fail |
| CtzFile.WriterIsFile | boot1/lfs/lfs.c:3588-3606 | and what is written is a list on the disk |
| CtzFile.SpliceByte | boot1/lfs/lfs.c:3655-3696 | every byte of a splice: the data, the old bytes, zeros in the gap |
| CtzFile.SpliceThenRange | boot1/lfs/lfs.c:3552-3696 | reading back gives what was written there, and elsewhere what was there before |
| Bitmap.SetBitAt | boot1/lfs/lfs.c:632-633 | setting a bit sets that bit and no other |
| Allocator.OffsetIs | boot1/lfs/lfs.c:628-630 | a block is at its offset around the ring and at no other, for up to 2^31 blocks |
| Allocator.OffsetWraps | boot1/lfs/lfs.c:628-630 | with more blocks there is one with a wrong offset |
| Allocator.BlockAtIs | boot1/lfs/lfs.c:673-674 | the block at a place of the window |
| Allocator.Lookahead.Alloc | boot1/lfs/lfs.c:665-714 | a block handed out is neither live nor in flight; without one, every block is in flight or was reported in use by a traversal; the search ends; each scan has its own traversal, which may fail |
| Allocator.Lookahead.Scan | boot1/lfs/lfs.c:640-661 | the window moves on, no further than the checkpoint allows, with exactly the reported blocks marked; a failed traversal drops it |
| Allocator.Lookahead.Mark | boot1/lfs/lfs.c:626-636 | marks the reported block in the window, if it is there |
| Allocator.Lookahead.Hand | boot1/lfs/lfs.c:671-675 | hands a free block out and enters it in the books |
| Allocator.Lookahead.Skip | boot1/lfs/lfs.c:677-690 | passes a block in use; the counter does not run below zero |
| Allocator.Lookahead.Ckpoint | boot1/lfs/lfs.c:613-615 | nothing is in flight any more |
| Allocator.Lookahead.Drop | boot1/lfs/lfs.c:619-623 | forgets the window |
| Allocator.Lookahead.Commit | boot1/lfs/lfs.c:608-612 | committing what is in flight keeps the window right |
| Allocator.Lookahead.Free | boot1/lfs/lfs.c:608-612 | freeing blocks keeps the window right |
| Allocator.HandedOnce | boot1/lfs/lfs.c:608-615 | over every interleaving, no block is handed out twice without a checkpoint in between, or while it is live |
| Spares.HandedIsSpare | boot1/lfs/lfs.c:608-615 | over every run with safe books, the blocks handed out while nothing is settled are distinct and in none of the lists that were live or in flight |
| MetaLog.BackwardRefinesReplay | boot1/lfs/lfs.c:718-781 | the backward walk with its running id adjustment finds what replaying all creates, deletes and attributes gives |
| MetaLog.OneStepBack | boot1/lfs/lfs.c:738-765 | one step of the backward walk undoes one step of the replay, whatever was written before |
| MetaLog.ApplyHistory | boot1/lfs/lfs.c:740-748 | how one tag changes the history of every entry |
| Compaction.Traverse | boot1/lfs/lfs.c:912-1104 | the loop with its explicit stack writes exactly the compacted log |
| Compaction.CompactPreservesLookup | boot1/lfs/lfs.c:2014-2021 | for every log and every id range, lookups by key give the same on the compacted log |
| Compaction.CompactPreservesAttributes | boot1/lfs/lfs.c:852-879 | names and structs looked up by class and user attributes looked up by type are found as before |
| Compaction.CompactIsAlive | boot1/lfs/lfs.c:2014-2021 | every tag written is what a lookup for its key finds in the original |
| Compaction.CompactIsUnique | boot1/lfs/lfs.c:2014-2021 | no two of them are about the same key of an entry |
| Compaction.CompactDropsDeleted | boot1/lfs/lfs.c:852-879 | deleted attributes are gone, but for a delete that is the very last tag of the log, which nothing filters |
| Compaction.KeptIsReached | boot1/lfs/lfs.c:852-879 | a tag that the filter keeps is the one a lookup from its new id finds |
| Compaction.ReachedIsKept | boot1/lfs/lfs.c:852-879 | and a tag that a lookup finds is kept |
| Compaction.FineLookupPreserved | boot1/lfs/lfs.c:852-879 | exactly when a lookup by finer type is preserved |
| Compaction.StaleStructIsLost | boot1/lfs/lfs.c:852-879 | a log and a lookup for which it is not |
| Compaction.CompactCount | boot1/lfs/lfs.c:2081-2084 | a fetch of the compacted log counts the entries of the range |
| Compaction.CompactShape | boot1/lfs/lfs.c:2014-2021 | a compacted log has attributes of the range only |
| Crc.ComputeCrc | boot1/lfs/lfs_util.c:17-33 | two table lookups per byte compute the bit-wise reflected CRC-32 of section 8 of RFC 1952, without inversion, of every byte sequence |
| Crc.NibbleIsFourSteps | boot1/lfs/lfs_util.c:18-30 | a table lookup is four bit steps |
| Crc.ByteIsEightSteps | boot1/lfs/lfs_util.c:26-30 | two lookups absorb one byte |
| Crc.CrcConcat | boot1/lfs/lfs.c:154-171 | the checksum of a concatenation goes on from that of its first part |
| Crc.CrcOfStoredCrc | boot1/lfs/lfs.c:1796-1807 | four more bytes give zero exactly if they are the current checksum, least significant byte first |
| TagWord.ChainTwice | boot1/lfs/lfs.c:1628-1630 | chaining tags by exclusive-or can be undone from either side |
| TagWord.WriteRead | boot1/lfs/lfs.c:1628-1630 | tag words are stored most significant byte first and read back |
| TagWord.MakeHead | boot1/lfs/lfs.c:2014-2021 | type, id and size fill a tag without overlap |
| TagWord.HeadIs | boot1/lfs/lfs.c:341-384 | a word has eleven bits of type, ten of id and ten of size, in this order |
| MetaBlock.Fetch | boot1/lfs/lfs.c:1164-1329 | for every block and checksum, what is found ends at the end of a row of complete commits from the front, behind whose checksum tags is the checksum of the bytes since the commit before, the revision included for the first; no such row ends later; all their tags, and only those, are found; the note about erased space is set exactly if the next word is no valid tag |
| MetaBlock.FetchIs | boot1/lfs/lfs.c:1164-1329 | the scan finds that |
| MetaBlock.ScanMatchesWalk | boot1/lfs/lfs.c:1164-1262 | for every block whatsoever |
| MetaBlock.StepBack | boot1/lfs/lfs.c:734-740 | un-chaining a tag leads to the tag before it |
| MetaBlock.GetSlice | boot1/lfs/lfs.c:718-781 | the lookup loop over the bytes of a block is the backward walk over its tags, with the ids adjusted for a pending move; the buffer gets the payload byte by byte, as far as it goes, and zeros behind it |
| MetaBlock.MovingIsDeletedIff | boot1/lfs/lfs.c:725-733 | a lookup with a pending move is one with the delete at the end of the log, exactly but for the entry right behind the one that moves |
| MetaBlock.Visit | boot1/lfs/lfs.c:738-765 | whatever was written before, the body of that loop tells what the entry says after the tag: the tag's own value, nothing, or what an entry with the adjusted id said before |
| MetaBlock.FetchAndGet | boot1/lfs/lfs.c:718-781 | fetching a block and looking up gives what replaying the accepted tags gives, and the delete a pending move stands for: byte by byte, zeros behind the payload |
| MetaCommit.ScanCommit | boot1/lfs/lfs.c:1164-1324 | a fetch that arrives at a complete commit accepts it and goes on behind its padding |
| MetaCommit.ScanGrows | boot1/lfs/lfs.c:1164-1324 | a fetch adds nothing or finds a commit that ends later |
| MetaCommit.FrontierStops | boot1/lfs/lfs.c:1168-1176 | unprogrammed space stops the fetch, whatever erased bytes look like |
| MetaCommit.NextWriteChangesErased | boot1/lfs/lfs.c:1750-1770 | the first byte written next differs from the erased byte |
| MetaCommit.ScanSamePrefix | boot1/lfs/lfs.c:1164-1324 | bytes behind the last good commit do not disturb the fetch up to it |
| MetaTorn.WrittenPath | boot1/lfs/lfs.c:1168-1216 | as far as a commit was written, its own tags are the only valid ones: a checksum tag that is completely there is the one at its end |
| MetaTorn.TornCommit | boot1/lfs/lfs.c:1164-1324 | unless a checksum that was not written completely is right by chance, a fetch that takes anything of a commit cut short finds all of it |
| MetaTorn.NothingWritten | boot1/lfs/lfs.c:1164-1324 | nor does it take anything where nothing was written |
| MetaTorn.QuietIsUnforged | boot1/lfs/lfs.c:1164-1324 | conversely, where a fetch takes nothing there is no such chance |
| MetaWriter.Writer.Attr | boot1/lfs/lfs.c:1620-1663 | writes a chained tag with its payload under the checksum exactly if both fit |
| MetaWriter.Writer.Attrs | boot1/lfs/lfs.c:1931-1936 | all tags of an update, exactly if all of them together fit, or as many as fit |
| MetaWriter.Writer.CommitCrc | boot1/lfs/lfs.c:1668-1810 | the bytes are complete commits in a row up to the end of a program unit: the first carries the update, the last describes the unit behind it, and reading back succeeds; it fails exactly if a unit follows and its checksum does not fit in front of the end of the metadata |
| MetaWriter.Writer.Turn | boot1/lfs/lfs.c:1684-1779 | one checksum tag, as far as a tag can describe |
| MetaWriter.Writer.ForwardTag | boot1/lfs/lfs.c:1697-1746 | a forward checksum exactly if the commit ends here and a unit follows, and no space exactly if it does not fit then |
| MetaWriter.WholeBlockFits | boot1/lfs/lfs.c:2298-2337 | with eight bytes kept at the end of the block, whatever completes a commit fits: an update fails exactly if its tags do not fit |
| MetaWriter.SizeIs | boot1/lfs/lfs.c:1620-1663 | the bytes that tags take on the disk |
| MetaWriter.Writer.CrcTag | boot1/lfs/lfs.c:1748-1771 | the checksum over everything since the last one, and the bit that makes the next write visible |
| MetaWriter.Verify | boot1/lfs/lfs.c:1782-1807 | reading back succeeds exactly if the known checksum is that of the bytes and is stored behind them |
| MetaWriter.CommitIsFetched | boot1/lfs/lfs.c:1164-1329 | with the CRC itself: a fetch of what was written finds all tags of the update behind the old ones |
| MetaWriter.WrittenIsScanned | boot1/lfs/lfs.c:1164-1329 | commits in a row are all accepted |
| MetaPair.NextIsNewer | boot1/lfs/lfs_util.h:190-192 | the next revision is newer, also when it wraps around |
| MetaPair.FetchFinds | boot1/lfs/lfs.c:1122-1157 | of the two blocks, fetch takes the one that holds the directory |
| MetaPair.HonestAtTheEnds | boot1/lfs/lfs.c:1164-1324 | the checksum hypothesis is a theorem before a commit, and after one that has a forward checksum or reaches the end of the block: it is one about commits cut short |
| MetaPair.AppendCrash | boot1/lfs/lfs.c:2270-2343 | an append cut short anywhere leaves the old or the new tags to be found |
| MetaPair.CompactCrash | boot1/lfs/lfs.c:1979-2092 | a compaction cut short anywhere leaves the other block useless or complete |
| Directory.CompactedIsSame | boot1/lfs/lfs.c:2014-2069 | the compacted log, with the tail and the state delta behind the live tags, is the same directory: entries, their number, tail with its hard bit, state delta |
| Directory.CountedExtends | boot1/lfs/lfs.c:2239-2247 | the number a mounted directory keeps by creates and deletes is the number a fetch counts, and that of the entries a replay gives |
| Directory.SameDirExtended | boot1/lfs/lfs.c:2270-2343 | the same tags appended to logs of the same directory give the same directory |
| Directory.CarriedReads | boot1/lfs/lfs.c:2029-2069 | a fetch finds the tail and the delta that were carried over |
| Directory.TailIs | boot1/lfs/lfs.c:1263-1272 | the last tail in the log counts: its type says whether it is hard, and all ones in either half lead nowhere |
| Directory.DeltaIs | boot1/lfs/lfs.c:1394-1410 | the last state delta in the log counts |
| Directory.NeitherTailNorDelta | boot1/lfs/lfs.c:1394-1410 | without such tags there is no tail, and a delta of zero |
| MetaPair.ActionAtomic | boot1/lfs/lfs.c:2270-2346 | whatever its crash point, after one commit or compaction a fetch finds the old or the updated directory, and the updated one if everything was written |
| MetaPair.RunAtomic | boot1/lfs/lfs.c:1122-1233 | over every run of commits, compactions and crashes, across revisions that wrap around, the directory, with its tail, number of entries and state delta, is the result of whole updates |
| MetaCrash.TornRow | boot1/lfs/lfs.c:1164-1324 | a fetch of commits in a row that were cut short finds some of them, the first one if it is there |
| MetaCrash.AppendTorn | boot1/lfs/lfs.c:1668-1780 | the commit writer cut short after any number of bytes, checksum tags for the padding included, leaves the old or the updated directory |
| MetaCrash.RewriteTorn | boot1/lfs/lfs.c:1979-2092 | and so does the compaction it writes into the other block |
| MetaCrash.AppendWhole | boot1/lfs/lfs.c:2270-2343 | done, the updated directory is found, with the CRC itself |
| MetaCrash.RewriteWhole | boot1/lfs/lfs.c:1979-2092 | also after a compaction |
| MetaCrash.Append | boot1/lfs/lfs.c:2270-2343 | an update of a mounted pair from the fetch to the last checksum tag is atomic at every byte, and refused exactly if it does not fit |
| MetaCrash.Rewrite | boot1/lfs/lfs.c:1979-2092 | a compaction from the fetch over the traversal to the last checksum tag is atomic at every byte, and refused exactly if it does not fit |
| MetaErased.TornCommitIsNoticed | boot1/lfs/lfs.c:1327-1357 | a commit cut short is noticed exactly if any of its bytes arrived |
| MetaErased.CommitLeavesErased | boot1/lfs/lfs.c:1327-1357 | a complete commit offers the next unit for appending |
| MetaErased.FirstByteArrives | boot1/lfs/lfs.c:1748-1771 | the first programmed byte of a commit differs from the erased byte |
| GlobalState.RunConserves | boot1/lfs/lfs.c:406-410 | over every run of commits, moves, drops, losses of power and mounts, the state in memory and what a mount finds are what a ledger of the actions alone says, and the deltas on the disk give the state last committed in place, but for the size bits |
| GlobalState.StepMeets | boot1/lfs/lfs.c:4617-4632 | one step, interrupted or not, does what the ledger says |
| GlobalState.LastSetIsFound | boot1/lfs/lfs.c:2298-2337 | after any run a mount finds what was set last before the last commit in place that reached the disk |
| GlobalState.NothingWrittenIsFound | boot1/lfs/lfs.c:4617-4632 | without such a commit it finds what it would have found before |
| GlobalState.CleanIff | boot1/lfs/lfs.c:2299-2304 | the ten size bits of the tag are those that do not get to the disk |
| GlobalState.CommitConserves | boot1/lfs/lfs.c:2298-2337 | an append or a compaction in place keeps the sum right |
| GlobalState.MoveConserves | boot1/lfs/lfs.c:2044-2090 | so does a compaction that moves, which leaves the change for later |
| GlobalState.UnlinkConserves | boot1/lfs/lfs.c:1858-1875 | so does dropping a directory whose delta was taken over |
| GlobalState.StolenConservesIff | boot1/lfs/lfs.c:1858-1875 | a drop that fails breaks it exactly if there was a delta to take over |
| GlobalState.FailedDropSpreadsIff | boot1/lfs/lfs.c:1858-1875 | and then the next commit writes the wrong state down |
| GlobalState.MountRecovers | boot1/lfs/lfs.c:4617-4632 | mounting gives the state on the disk |
| GlobalState.Filesystem.AppendCommit | boot1/lfs/lfs.c:2298-2337 | writes the difference down and forgets what was taken over; the state in memory stays; skipping a delta of zero is no loss |
| GlobalState.Filesystem.Compact | boot1/lfs/lfs.c:2044-2090 | so does a compaction in place, one that moves writes down only what was taken over; leaving a delta of zero out of the new log is no loss |
| GlobalState.Filesystem.DropTail | boot1/lfs/lfs.c:1858-1875 | taking over, committing and unlinking are one drop |
| GlobalState.Filesystem.GetState | boot1/lfs/lfs.c:1394-1410 | adds the delta of a directory, if it has one |
| TailCycles.Walk | boot1/lfs/lfs.c:4463-4479 | for every list, a cycle is reported exactly if it never ends, within 3N+1 looks for N distinct pairs; a list that ends is looked at once per pair |
| TailCycles.EndsOrCycles | boot1/lfs/lfs.c:4711-4721 | every list ends or goes around |
| TailCycles.StaysBounded | boot1/lfs/lfs.c:4463-4479 | where the tortoise waits bounds how far the walk gets |
| TailCycles.NoFalseAlarm | boot1/lfs/lfs.c:4463-4479 | on a list that ends the tortoise is never met |
| TailCycles.SyncIsSameKey | boot1/lfs/lfs.c:318-323 | pairs are the same in either order |
| PathWalk.Find | boot1/lfs/lfs.c:1482-1591 | a path means the names a stack leaves of it; exactly those are looked up, and a path is refused, before any lookup, exactly if it is empty or goes above the root; if a name is missing, the caller gets the rest of the path from there, and all names before were found |
| PathWalk.LastIff | boot1/lfs/lfs.c:291-294 | the test for the last name holds exactly if nothing is behind the name, and then it is the only one missing |
| PathWalk.FindMatch | boot1/lfs/lfs.c:1521-1547 | looking ahead finds the '..' that takes the next name back |
| PathWalk.MatchCleans | boot1/lfs/lfs.c:1521-1547 | names that are taken back leave no trace, names that stay are never touched |
| PathWalk.FirstName | boot1/lfs/lfs.c:1521-1547 | what a name at the front leaves to look up |
| PathWalk.LookUp | boot1/lfs/lfs.c:1549-1591 | one name is looked up and the rest goes on from there; a file must end the path |
| PathWalk.ResolveIs | boot1/lfs/lfs.c:1549-1591 | all names lead to what is found; a name is missing if those before it lead to a directory that does not have it; behind a file there is no directory |
| MemHeap.Heap.constructor | boot1/memheap/memheap.c:91-157 | one free block fills the pool |
| MemHeap.Heap.Alloc | boot1/memheap/memheap.c:168-269 | takes the first free block that is large enough, splits it exactly if a smallest block is left, and fails exactly if there is none or no more is available than is needed; the rest goes to the front of the free list; all other users and their bytes stay |
| MemHeap.Heap.FirstFit | boot1/memheap/memheap.c:187-202 | finds the first free block that is large enough |
| MemHeap.Heap.TakeFront | boot1/memheap/memheap.c:208-244 | splits a block and keeps every invariant |
| MemHeap.Heap.TakeWhole | boot1/memheap/memheap.c:247-258 | takes all of a block |
| MemHeap.Heap.Free | boot1/memheap/memheap.c:447-543 | the block and the free ones around it become one free block, in front of the free list unless the one before it was free; all other users stay, and freeing what is not in use does nothing |
| MemHeap.Heap.Realloc | boot1/memheap/memheap.c:283-439 | frees, allocates, or changes the size: the result is large enough, holds the first bytes of the old block, other users stay; it fails exactly if the block has to grow, the one behind has no room, and allocating would fail, and then nothing changes |
| MemHeap.Heap.Resize | boot1/memheap/memheap.c:310-439 | shrinks in place, unless the rest is too small for a block, and never fails to; grows in place or moves |
| MemHeap.Heap.Grow | boot1/memheap/memheap.c:344-377 | moves the border between a block in use and a free one |
| MemHeap.Heap.Larger | boot1/memheap/memheap.c:317-391 | grows in place exactly if the next block has room, moves otherwise, and fails exactly if neither goes |
| MemHeap.Heap.Shrink | boot1/memheap/memheap.c:393-438 | gives the end of a block back, joined with a free one behind it |
| MemHeap.Heap.MemCopy | boot1/memheap/memheap.c:39-56 | copies right for ranges that overlap in any way |
| MemHeap.Heap.Absorb | boot1/memheap/memheap.c:411-426 | a free block joins the one before it |
| MemHeap.AllFree | boot1/memheap/memheap.c:447-543 | with nothing in use, one free block fills the pool again |
| MemHeap.NeedCoversIff | boot1/memheap/memheap.c:179-181 | a request is rounded to the least multiple of four that covers it and a smallest block, exactly but for the largest requests |
| MemHeap.UsersAligned | boot1/memheap/memheap.c:179-181 | what is handed out lies at multiples of four bytes from the start of the pool and has multiples of four bytes |
| MemHeap.RoomToGrowIff | boot1/memheap/memheap.c:348 | exactly when the test for growing in place is one |
| MemHeap.RoomToGrowWrong | boot1/memheap/memheap.c:348 | otherwise it lets any room pass |
| CircularList.InsertLinked | boot1/memheap/memheap.c:219-235 | linking a node in keeps a ring a ring |
| CircularList.RemoveLinked | boot1/memheap/memheap.c:58-66 | unlinking a node keeps a ring a ring |
| HeapTiling.FreeBytesSplit | boot1/memheap/memheap.c:237-240 | what splitting a block does to the sum of the free sizes |
| HeapTiling.FreeBytesMerge | boot1/memheap/memheap.c:487-513 | what merging two blocks does to it |
| MemPool.RunKeeps | application/rt-thread/src/mempool.c:319-465 | in every interleaving, while a thread waits there are no more free blocks than threads woken that have yet to look: no wakeup is lost |
| MemPool.StepKeeps | application/rt-thread/src/mempool.c:319-465 | every step keeps that, and every block is free or handed out |
| MemPool.Pool.Look | application/rt-thread/src/mempool.c:336-400 | gives the first block of the list, or without one suspends the thread in front of the others exactly if it has time to wait; who waits stays the same otherwise; the counter is the length of the list |
| MemPool.Pool.Free | application/rt-thread/src/mempool.c:415-465 | puts the block in front of the list and wakes the thread in front of the others, if any waits |
| MemPool.Pool.Timeout | application/rt-thread/src/mempool.c:371-372 | a thread that waits no longer; the others wait in the same order |
| MemPool.Pool.Evict | application/rt-thread/src/mempool.c:159-175 | one turn of taking the pool down sends the thread in front away |
| MemPool.Pool.Detach | application/rt-thread/src/mempool.c:146-178 | nobody waits any more |
| MemPool.StrideCoversIff | application/rt-thread/src/mempool.c:111-116 | exactly when what is set aside for a block holds it, in 32-bit arithmetic |
| MemPool.Pool.constructor | application/rt-thread/src/mempool.c:89-136 | links all blocks; the words written are in the pool exactly if there is room for a block |

## Left out

- CtzFile.File.Write: requires that nothing has to be copied from behind the data, or that the caches are larger than eight bytes, or that their read units divide four and the device stores what it is told to (`CtzFile.Untangled`). Without that, copying is wrong on a sound device (`CtzTangle.SmallCachesIff`); copying with smaller caches on a device that stores something else is not covered. A buffer of 2^31 bytes or more cannot be returned as a signed size and is excluded. On a device that stores something else than it is told to, how many blocks turn out bad is not said: no space means that none is left.
- CtzFile.File.Flush: after the flush the directory is not committed; that the new list is named atomically is `MetaPair`.
- MemHeap.Heap.Resize: requires that the request does not make the test for growing in place wrap around, or that the block behind is in use; `MemHeap.RoomToGrowIff` and `MemHeap.RoomToGrowWrong` say what happens otherwise.
- MemHeap.Heap.constructor: requires room for the two headers; the code does not check and lets them overlap.
- Allocator.Lookahead.Alloc: requires at most 2^31 blocks (`Allocator.OffsetWraps`), and that a traversal reports every live block unless it fails. For a file being written `CtzTail.TraverseReportsIff` says exactly when it does; that files take their blocks from this allocator call by call is not modelled, `Spares.HandedIsSpare` speaks of its books.
- CtzList.Traverse: requires a coherent read cache, or a list and a read cache that is not stale on its blocks.
- MetaBlock.GetSlice: models offset zero within an entry.
- Compaction.Traverse: attributes that stand for another directory's tags (moves) or for a list of user attributes are not expanded; ids stay below 0x3ff.
- MetaWriter.Writer.Attr: payloads are given as bytes; copying them from the disk, and programming through the cache, is `BlockProg`.
- MetaPair.ActionAtomic: a directory that fits its pair; splitting, moving to another pair and device errors are not modelled. An update names every entry it leaves (`Directory.Named`).
- MetaCrash.Rewrite: requires that the tags written fit their fields; what is erased may hold anything.
- GlobalState.RunConserves: a word is the set of its one bits; committing to a directory that is not on the list yet is not modelled.
- PathWalk.Find: the tree is a value, and a directory that spans several pairs is one map of names.
- TailCycles.Walk: the pairs can be read or not; what is done at each pair is not modelled.
- MemPool.Pool.constructor: requires a block size for which the code does not divide by zero (`MemPool.StrideCoversIff`).
- Program caches for inline data, inline files and truncation are not modelled.
- Orphan repair, cross-directory rename, the superblock, attributes and the public wrappers with their locks are not modelled.
- Best-fit mode of the heap is not modelled; of its statistics, the available size and the largest use are, the latter not across a reallocation that moves.
- Creating and deleting pools, hooks and the scheduler are not modelled: a woken thread looks again at some time.
- Drivers, boot code, shell, image tools and configuration are not modelled.
