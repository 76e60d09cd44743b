# a1fs: an extent-based file system in one image

This project models the file system that `a1fs.c`, `fs_ctx.c` and `mkfs.c` implement in a
single memory image, and proves what its calls do to the files and directories the image
stands for. `dafny verify dfyconfig.toml` checks everything.

## How the model is built

* **The image.** `Images.Image` is the mounted image as a value: two bitmaps, two free
  counters, the inode table and the data region. The data region is kept in the three ways
  the code casts it (extent tables, 256-byte entry slots, bytes), all indexed by block
  number. Every access is total: a read outside the image gives a default, a write outside
  it is not performed and raises `fault`.
* **The code.** `FileSystem.FsCtx` holds the image in arrays and updates them in place, loop
  by loop as the C code does. Each method is proved to do to the arrays exactly what the
  function of the same name in `Operations` does to the image they hold.
* **What it stands for.** `Soundness.Abs` maps an image to a namespace: inode numbers to
  directories (entries and link count) and files (bytes). `Soundness.Invariant` is the
  global invariant: regions of the right size, no fault, exact counters, every inode with
  exactly the blocks its size needs in at most 512 non-empty extents, no block held twice,
  every marked block held, and the namespace a tree below inode 0.
* **What a call promises.** `Calls.Spec` says on the namespace alone what each of the six
  updating calls does. `Calls.Meets` adds that the invariant holds afterwards and that the
  call is refused for lack of space exactly when what it has to add does not fit
  (`Calls.HasSpace`): for a file, a condition on the data bitmap, the counter and the
  extents in use (`FileData.RoomFor`); for a directory, on what the new entry needs.

## Two readings of the code

The C code departs in several places from what its comments promise. Functions that
contain such a line take a parameter `code`: `AsWritten` follows the line as it stands,
`Repaired` does what the comments ask for; everything else is shared. The two main theorems:

* The repaired code meets its specification in every call and keeps the invariant in every
  run (`Calls.RepairedMeets`, `Runs.RunKeepsInvariant`).
* The code as written meets it **if and only if** the call does not deviate
  (`Deviations.AsWrittenMeetsIff`). `Deviations.Deviates` is read off the state before the
  call: the inode's record and last block, the bitmap and the counters.

A run of the code as written from a fresh image goes wrong as soon as a file is to hold a
byte: the first growth of any file with room deviates, so as long as no call has deviated
every file is empty (`Runs.ReachedFilesAreEmpty`; `Runs.FirstWriteBreaks` is a short run
that fails). The departures that need a file with data are one call as written away from
states of the repaired code: `Failures.CutAfterRepairedRunFails` is such a run.

Where the code as written deviates, with a state and a call that fail there:

| line | what it does | when it matters | fails in |
|---|---|---|---|
| `fs_ctx.c:290` | marks the extent table twice, the first data block never | first growth of an empty file | `Runs.FirstWriteBreaks` |
| `fs_ctx.c:316` | takes the block after the last one without asking whether the region has it | a growth after the file has filled the region to its end | `Failures.GrowthPastEndFails` |
| `a1fs.c:342`, `650` | the same, for a directory | the parent's last block is full and the last of the region | `Failures.EntryPastEndFails` |
| `a1fs.c:963` | frees blocks shifted by one | a cut inside an extent | `Failures.CutInsideExtentFails` |
| `a1fs.c:972` | clears bits in the data region | a cut that drops whole extents | `Failures.CutBetweenExtentsFails` |
| `a1fs.c:979` | keeps an extent and the table of an empty file | a cut to nothing | `Failures.CutToNothingFails` |
| `a1fs.c:1004-1015` | leaves old bytes between the old and the new end | extending inside the last block over non-zero bytes | `Failures.StaleTailFails` |
| `a1fs.c:999-1004` | cuts the new size to 32 bits before counting blocks | extending to 2^32 bytes or more, when the growths for the rest succeed or deviate | `Failures.HugeSizeFails` |
| `a1fs.c:1219-1220` | ignores the offset in the block | a write two blocks past the allocation, not at the start of its block, with a non-zero byte | `Failures.MisplacedWriteFails` |
| `a1fs.c:269`, `568` | asks for a free block that the entry may not need | no block is free, and the parent's last block has a free slot | `Failures.SpareSlotFails` |
| `a1fs.c:292`, `600` | refuses after the inode has been taken | the last inode, an empty parent | `Failures.LastInodeFails` |
| `a1fs.c:304`, `612` | refuses after an inode and a block have been taken | the last block (or inode), an empty parent | `Failures.LastBlockFails` |
| `a1fs.c:356`, `664` | refuses after the inode has been taken | the last inode, a full parent that cannot merge | `Failures.LastInodeBeforeExtentFails` |
| `a1fs.c:364`, `672` | opens a 513th extent | a full parent with 512 extents that cannot merge | `Failures.ManyExtentsFail` |

What the code as written does in these cases is proved too, for every state that satisfies
the block invariant: `Literal` says which blocks a growth takes and marks, what a write or an
extension leaves in the file, and what a cut frees and overwrites; `LiteralMake` gives the
whole state after mkdir and create.

Three further departures need no repaired reading; each has an exact condition of its own.
`path_lookup` answers -1 instead of the documented -2 when the path runs through an empty
file, and reads inode -1 when two or more components follow an empty root
(`Resolution.LookupMeetsDocumentationIff`, `Resolution.LookupDeparts`). `a1fs_read` compares
the offset cut to 32 bits (`FileSystem.FsCtx.Read`, `Failures.ReadFails`). `mkfs` multiplies
the reserved blocks by 4096 in 32 bits (`Mkfs.LayoutFitsIff`, `Mkfs.AcceptsTooManyInodes`). `rmdir` and `unlink` never deviate.

## Assumptions taken from the source

The kernel has resolved the path before each call (the "Assumptions" comments in `a1fs.c`);
a read or write stays inside one block (`a1fs.c:1033`, `a1fs.c:1105`); a hole spans at most
one block (`README.txt:9`), so a write reaches at most two blocks past the allocation; an
image is a whole number of blocks (`map.c:52-55`).

## Modules

`Bitmap`, `Images`: data. `Operations`: the calls as functions. `Namespace`, `Paths`,
`Resolution`: the tree and its paths. `Soundness`: the block-level invariant and its frame
lemmas. `Room`: how much a file can grow. `Growth`, `FileData`, `Truncation`, `Directories`:
refinement, operation by operation. `Calls`, `Deviations`, `RoundTrips`, `Runs`: the
theorems by path, on both readings, and over runs. `Literal`, `LiteralMake`: what the code
as written does. `Samples`, `Failures`: where it fails. `Mkfs`: layout and initial state. `FsCtx.dfy` (module `FileSystem`): the
arrays and loops.

## Model

| member | source | states |
|---|---|---|
| Bitmap.SetBitBits | fs_ctx.c:201-205 | setting bit i of the packed bytes adds exactly i to the set of set bits |
| Bitmap.ClearBitBits | fs_ctx.c:207-211 | clearing bit i removes exactly i from the set of set bits |
| Bitmap.FirstFree | fs_ctx.c:192-199 | the result is the least clear index below n, and none only if all are set |
| Bitmap.NonZeroCounterFinds | fs_ctx.c:182-211 | when the counter equals the number of clear bits and is not zero, first fit finds the least clear bit |
| Images.FlatBlocksAt | fs_ctx.c:245-264 | block j of extent m is at position (blocks before m) + j of the file's block list |
| Images.ReleaseAllEffect | a1fs.c:731-742 | freeing a list of blocks clears exactly their bits and raises the counter by its length |
| Soundness.ExchangeKeepsSound | fs_ctx.c:266-360 | replacing one inode's blocks by others, all accounted for, keeps the block invariant and changes only that inode's node |
| Soundness.ListingKeepsSound | a1fs.c:269-276 | an inode that holds no blocks can come or go without touching anything else |
| Growth.LastBlockIsLast | fs_ctx.c:231-235 | find_last_block computes the last block of the block list |
| Growth.MergeExtends | fs_ctx.c:316-330 | the merge gives the inode one block that was free and held by nobody, all other inodes keeping theirs |
| Growth.OpenExtends | fs_ctx.c:332-349 | the same for a new extent |
| Growth.StartExtends | fs_ctx.c:273-305 | the same for the first two blocks of an empty inode, which are different free blocks |
| FileData.FileShape | a1fs.c:1142-1209 | a file has ceil(size / 4096) blocks, so its content is a prefix of them and the last block is where the size says |
| FileData.CloseHoleZeroes | fs_ctx.c:310-312 | zeroing the hole stays in the last block, changes no content and leaves the allocation zero after the end |
| FileData.GrowRefines | fs_ctx.c:266-360 | growing succeeds exactly when there is room; then one zeroed block is appended, the one after the last if free (which lengthens the last extent) and else the least free one (in a new extent), the hole before it is zero, exactly the blocks taken are marked and the counter falls by one (two for an empty file); on failure bitmaps, counters and records are untouched |
| Room.EnterRun | fs_ctx.c:332-348 | going to the least free block enters one run of free blocks, which the following growths then fill |
| Room.NoOverrunAfterOpen | fs_ctx.c:316-348 | a file that has gone back to the least free block cannot run past the end of the region while a block is free |
| FileData.RoomStep | fs_ctx.c:266-360 | the condition on bitmap, counter, last block and extents is exact: there is room for n blocks if and only if the file can grow and then has room for n - 1 more |
| FileData.WriteRefines | a1fs.c:1122-1234 | all six cases: success leaves the old content zero-extended to the offset with the buffer over it and no other node changed; it runs out of space exactly when there is no room for the blocks it lacks, and then leaves the old content followed by zeros to the end of the blocks that there was room for |
| FileData.WriteInsideRefines | a1fs.c:1142-1154 | a write inside the file overlays its bytes |
| FileData.WriteTailRefines | a1fs.c:1157-1185 | a write ending in the last block's unused part, from before or after the old end, overlays a zero-extended content |
| FileData.WriteTwoBlocksMore | a1fs.c:1209-1229 | a write two blocks past the allocation overlays a zero-extended content when it honours its offset |
| FileData.OverlayReads | a1fs.c:1098-1105 | the overlaid content has the buffer at the offset, the old bytes elsewhere and zeros in between |
| Truncation.CutPointSplits | a1fs.c:942-957 | the search for the cut finds the extent and position where the kept blocks end |
| Truncation.CutBlocks | a1fs.c:961-976 | what is kept and what is freed at the cut are the first and the remaining blocks of the list |
| Truncation.ShrinkRefines | a1fs.c:930-988 | a cut keeps the first size bytes, the first ceil(size / 4096) blocks and the extents that hold them, and frees exactly the others (with the extent table when nothing is left) |
| Operations.GrowByOnce | a1fs.c:1006-1012 | n growths are one growth and then n - 1, or a stop |
| FileData.RoomMonotone | fs_ctx.c:266-360 | room for n blocks is room for fewer, so what fits of a growth is one number |
| Truncation.GrowByRefines | a1fs.c:1006-1012 | n growths succeed exactly when there is room for n blocks and pad the content with zeros to whole blocks; otherwise exactly as many blocks are gained as there is room for |
| Truncation.TruncateRefines | a1fs.c:916-1024 | the content is cut or zero-extended to exactly the new size, no other node changes, and it fails exactly when there is no room, leaving the content padded to the end of the blocks that there was room for |
| Truncation.EmptyRefines | a1fs.c:728-748 | unlink's first part gives back every block of the file and leaves an empty file |
| Directories.DirShape | a1fs.c:421-436 | a directory's size is 256 times its entries, its blocks are ceil(entries / 16), and it owns nothing exactly when it is empty |
| Directories.DirNumbers | a1fs.c:331-343 | the tests on size modulo 4096 and on the entries modulo 16 say whether the last block is full or holds one entry |
| Directories.AddEntryRefines | a1fs.c:288-383 | all four parents gain exactly the new last entry and its links; one with a full last block takes the block after it if free, else the least free one, an empty one two, any other none, with extents, bits and counter to match |
| Directories.MakeNodeRefines | a1fs.c:560-695 | creating attaches a new node under the least free inode and gives the parent exactly the blocks the entry needs; it is refused, without effect, exactly when there is no inode or not those blocks |
| Directories.LastEntryIsLast | a1fs.c:428-436 | the entry picked from the last block is the last live entry |
| Directories.ScanFindsLive | a1fs.c:445-460 | the scan over all slots meets the live target before any stale slot |
| Directories.OverwriteSwaps | a1fs.c:438-462 | the live entries without the last are the old ones with the last in the target's place |
| Directories.LastEntryGone | a1fs.c:464-535 | the one-entry, mid-block, shrink-extent and drop-extent cases all leave the entries without the last |
| Directories.ForgetShrinks | a1fs.c:464-535 | and free exactly the blocks that held only that entry, from the last extent, or everything with the only entry |
| Directories.RemoveRefines | a1fs.c:754-858 | removing detaches exactly the target's node and frees exactly the parent's blocks that are no longer needed, whatever its shape |
| Directories.RmdirRefines | a1fs.c:403-539 | rmdir refuses exactly the non-empty directories and detaches the others |
| Directories.UnlinkRefines | a1fs.c:710-861 | unlink always succeeds, frees the file's blocks and then the parent's that are no longer needed, and detaches the file |
| Namespace.SwapOutMultiset | a1fs.c:770-785 | as a multiset, the remaining entries are the old ones minus the target |
| Namespace.AttachKeepsTree | a1fs.c:251-387 | adding a new node under a new name keeps the namespace a tree with exact link counts |
| Namespace.DetachKeepsTree | a1fs.c:403-539 | removing a file or an empty directory keeps the namespace a tree with exact link counts |
| Paths.SplitRejoins | fs_ctx.c:214-229 | parent and child rejoin to the path, the child has no '/', and the path's components are the parent's and then the child |
| Resolution.LookupMeetsDocumentationIff | fs_ctx.h:72-81 | path_lookup returns what its interface documents if and only if the path crosses no empty file and does not go two components below an empty root |
| Resolution.LookupDeparts | fs_ctx.c:114-126 | two trees and paths on which the results differ: below an empty file, and below an empty root |
| Resolution.WalkConcat | fs_ctx.c:114-152 | the component loop composes: a path is resolved by resolving a prefix and going on from there |
| Resolution.OnePathEach | fs_ctx.c:74-156 | in a tree every live inode is found, by exactly one list of components |
| Calls.ResolvesThroughParentIff | fs_ctx.c:74-156 | resolving a path is looking its child up in the resolved parent, if and only if it is not a two-component path below an empty root |
| Calls.ChildOfParent | a1fs.c:409-418 | an existing path is an entry, with the child's name, of its parent, which exists |
| Calls.FreeNameIsFresh | a1fs.c:285-288 | under an existing parent, a path that does not exist names none of its entries |
| Calls.LookupMidCreation | a1fs.c:272-288 | looking the parent up after the new inode has been taken finds what a lookup before would have found |
| Calls.RepairedMeets | a1fs.c:251-1234 | every call of the repaired code keeps the invariant, does what it promises and is refused only for lack of space |
| Deviations.GrowDeviating | fs_ctx.c:290 | a deviating growth leaves more marked blocks than the counter says, or marks a block outside the region |
| Deviations.DeviatesStep | fs_ctx.c:316 | the condition on the bitmap under which some of n growths deviates is exact, growth by growth |
| Deviations.GrowByDeviating | a1fs.c:1006-1012 | once one of n growths deviates, bitmap and counter stay at odds to the end |
| Deviations.GrowAgrees | fs_ctx.c:316 | elsewhere the growth as written is the repaired one |
| Deviations.ShrinkDeviating | a1fs.c:961-979 | every cut as written that has a block to free breaks the block invariant |
| Deviations.ShrinkInBlock | a1fs.c:942-982 | a cut as written with no block to free is correct |
| Deviations.ExtendInBlockMeetsIff | a1fs.c:1004-1015 | extending inside the last block is correct if and only if the bytes it uncovers are zero |
| Deviations.WriteMeetsIff | a1fs.c:1122-1234 | the write as written is correct if and only if none of the blocks it lacks is the first of a file or past the end of the region, and, two blocks past the allocation, it starts its block, is all zeros or finds no room |
| Deviations.MakeMeetsIff | a1fs.c:269-369 | mkdir and create as written are correct if and only if the first test does not refuse an entry that needs no block, no late test refuses, the next block exists and no 513th extent is needed |
| Deviations.RefusalKeepsCounters | a1fs.c:291-306 | even a late refusal leaves both counters equal to the number of clear bits |
| Deviations.HugeMeetsIff | a1fs.c:993-1022 | a truncation to 2^32 bytes or more is correct as written if and only if its 32-bit growths run out of space without deviating |
| Deviations.TruncateMeetsIff | a1fs.c:916-1024 | for every size, truncate as written is correct if and only if it cuts inside the last block, uncovers only zeros, or grows without deviating |
| Deviations.AsWrittenMeetsIff | a1fs.c:251-1234 | from any state that satisfies the invariant, a call of the code as written meets its specification if and only if it does not deviate |
| RoundTrips.ForgetUndoesAdd | a1fs.c:464-535 | forgetting the entry just added restores the bitmap, the counter and the parent's record and extents, for every parent shape |
| RoundTrips.CreateThenUnlink | a1fs.c:560-861 | create then unlink of a fresh path succeeds and restores both bitmaps, both counters, the parent and the whole namespace |
| RoundTrips.MkdirThenRmdir | a1fs.c:251-539 | the same for mkdir then rmdir |
| RoundTrips.ReadAfterWrite | a1fs.c:1027-1033 | after a successful write the path still names the file, the bytes at the offset are those written, and no other node has changed |
| Runs.RunKeepsInvariant | a1fs.c:251-1234 | every run of the repaired code keeps the invariant and meets the specification call by call |
| Runs.CleanRunKeepsInvariant | a1fs.c:251-1234 | so does every run of the code as written without a deviating call |
| Runs.ReachedFilesAreEmpty | fs_ctx.c:273-305 | from a fresh image, as long as no call of the code as written has deviated, every file is empty |
| Runs.FirstDeviationBreaks | a1fs.c:251-1234 | the first deviating call after a clean run fails its specification |
| Runs.ReachableBlocks | fs_ctx.c:182-211 | in every reachable state the counters are the numbers of clear bits, and a block is marked exactly when one live inode holds it, once |
| Runs.ReachablePaths | fs_ctx.c:74-156 | in every reachable state each live inode has exactly one path |
| Runs.ReachableLinks | a1fs.h:110-118 | in every reachable state a directory has two links and one for each subdirectory, distinct names, and size 256 times its entries |
| Runs.FreshImageExists | mkfs.c:176-190 | a fresh image exists (so the theorems about runs are about something) |
| Runs.FirstWriteBreaks | fs_ctx.c:288-291 | on a fresh image the code as written fails when one byte is written to a new file |
| Failures.GrowthPastEndFails | fs_ctx.c:316-319 | a state and a write on which the growth as written takes a block past the region |
| Failures.EntryPastEndFails | a1fs.c:342-344 | a state in which mkdir and create take a block past the region |
| Failures.CutInsideExtentFails | a1fs.c:961-965 | a state and a cut on which the last kept block is freed |
| Failures.CutBetweenExtentsFails | a1fs.c:968-976 | a state and a cut on which the blocks of a dropped extent stay marked |
| Failures.CutToNothingFails | a1fs.c:978-982 | a state and a cut to nothing after which the empty file keeps an extent |
| Failures.CutAfterRepairedRunFails | a1fs.c:916-991 | the same after create and a one-byte write by the repaired code on any fresh image with room |
| Failures.StaleTailFails | a1fs.c:1004-1015 | a state and an extension by one byte that uncovers a byte 1 |
| Failures.HugeSizeFails | a1fs.c:997-1015 | a state and a size above 2^32 that the file gets without a block |
| Failures.MisplacedWriteFails | a1fs.c:1219-1220 | a state and a one-byte write that lands at the start of its block, though both growths are right |
| Failures.SpareSlotFails | a1fs.c:269-271 | a state in which mkdir and create are refused for want of a block that they do not need |
| Failures.LastInodeFails | a1fs.c:292-294 | a fresh image with two inodes on which mkdir and create leak the inode |
| Failures.LastBlockFails | a1fs.c:304-306 | a fresh image with one block on which they leak the inode and the block |
| Failures.LastInodeBeforeExtentFails | a1fs.c:355-358 | a state with a full parent in which they leak the inode |
| Failures.ManyExtentsFail | a1fs.c:360-372 | a state with 512 extents in which they open another |
| Failures.ReadFails | a1fs.c:1057-1067 | a state and an offset of 2^32 for which a read does not return the bytes of the content |
| Literal.GrowLiterally | fs_ctx.c:266-360 | from any sound state: a growth as written succeeds exactly when two blocks are free (empty file), or one is and the next is unmarked or an extent is left; then the block it takes, its extents, what it marks and counts, the file's bytes, and every other node unchanged |
| Literal.FirstGrowthLiterally | fs_ctx.c:273-305 | the least free block becomes the table and is marked, the least free one above it becomes the only block and is not, the counter falls by two, and the file reads as 4096 zeros |
| Literal.GrowthPastEnd | fs_ctx.c:316-330 | a file at the end of the region marks the block past it and reads as padded with zeros, though nothing can be stored there |
| Literal.GrowByLiterally | a1fs.c:1006-1012 | how many of n growths as written succeed (until one cannot), what they cost, and that the file holds its old content followed by zeros |
| Literal.WriteGrowsBy | a1fs.c:1187-1217 | on both readings a write takes its blocks by as many growths as it lacks blocks; blocks, extents, bitmap and counter are as those leave them |
| Literal.WriteOneBlockLiterally | a1fs.c:1188-1206 | a write one block past the allocation: success, the block, the size and the content, which is the overlay unless the block lies past the region |
| Literal.FirstWriteLiterally | a1fs.c:1188-1206 | the first write of a file succeeds and stores its data behind zeros, with exactly the table marked |
| Literal.WritePastEndLiterally | a1fs.c:1188-1206 | a write that grows past the end of the region succeeds and loses its data |
| Literal.WriteTwoBlocksLiterally | a1fs.c:1208-1229 | a write two blocks past the allocation: the growths that succeed, and every byte of the content, with the data at the start of the last block |
| Literal.ExtendGrowsBy | a1fs.c:993-1022 | on both readings an extension takes its blocks by growths and then only sets the size |
| Literal.ExtendLiterally | a1fs.c:993-1022 | for every size: the growths that succeed, the size and the content after an extension as written |
| Literal.CutLiterally | a1fs.c:942-988 | a cut frees the blocks one before those it gives up of the cut extent, clears in the data region exactly the bits numbered by the blocks of the later extents, raises the counter by all blocks past the cut, and keeps the extents up to it |
| Literal.CutToNothingLiterally | a1fs.c:942-988 | the same for a cut to nothing, which for an extent at block 0 starts outside the bitmap |
| Literal.SameBitsSameBytes | fs_ctx.c:207-211 | the set bits and the length determine the bytes |
| LiteralMake.MakeRefusedAtOnce | a1fs.c:269-271 | without a free inode or block the state is unchanged |
| LiteralMake.MakeRefusedAfterInode | a1fs.c:291-294 | when the inode was the last, the whole state: the least free inode taken for an empty node, and nothing else |
| LiteralMake.MakeRefusedAfterTable | a1fs.c:303-306 | when the table was the last block, the whole state: inode and table taken, and nothing else |
| LiteralMake.MakePastEnd | a1fs.c:341-353 | the whole state when the block taken is past the region: marked, counted, in the extents, and the entry lost |
| LiteralMake.MakeManyExtents | a1fs.c:354-373 | the whole state with a 513th extent: it is written over the first extent of the block behind the table, and the entry goes to the least free block |
| Mkfs.BlocksFor | mkfs.c:108-114 | the rounding of a quotient by 4096 is its ceiling |
| Mkfs.Superblock.Format | mkfs.c:127-174 | the fields are those of the layout and the regions' addresses follow each other in 32-bit arithmetic; when the layout fits they end at the image's end |
| Mkfs.LayoutNumbers | mkfs.c:134-174 | for any size and number of inodes: each length is the least number of blocks for what it has to hold, the free blocks are the rest modulo 2^32, and mkfs refuses exactly when none is left or the 32-bit product reaches the size |
| Mkfs.LayoutFitsIff | mkfs.c:127-174 | for every image of whole blocks and every number of inodes, the regions exactly fill the image and cover every index they serve if and only if mkfs accepts, the image is below 4 GiB, the number of inodes is not zero in 32 bits and the product in the check did not wrap |
| Mkfs.AcceptsTooManyInodes | mkfs.c:172 | an image size and inode count that mkfs accepts though the inode table alone is larger than the image |
| Mkfs.FreshIsInvariant | mkfs.c:176-190 | the freshly formatted state satisfies the global invariant and stands for an empty root directory |
| FileSystem.FsCtx.constructor | fs_ctx.c:28-54 | mounting a freshly formatted image gives separate arrays that hold the fresh state |
| FileSystem.FsCtx.SetBitmap | fs_ctx.c:201-205 | in place: exactly one bit becomes set |
| FileSystem.FsCtx.UnsetBitmap | fs_ctx.c:207-211 | in place: exactly one bit becomes clear |
| FileSystem.FsCtx.FirstAvailablePosition | fs_ctx.c:192-199 | the loop returns the least clear bit below n, or an index no bitmap has |
| FileSystem.FsCtx.NumBlocksOf | fs_ctx.c:158-166 | the sum of the extent counts is the length of the block list |
| FileSystem.FsCtx.StartingWritePoint | fs_ctx.c:245-264 | the block-by-block search returns the address of the offset in the block list, for every extent list and offset |
| FileSystem.FsCtx.BlockOf | a1fs.c:1069-1093 | the two-phase search returns the block list's entry at offset / 4096 for every offset inside the allocation, and for one past it a block counted from the first extent on |
| FileSystem.FsCtx.Grow | fs_ctx.c:266-360 | the arrays change exactly as Operations.Grow says, on both readings |
| FileSystem.FsCtx.Write | a1fs.c:1122-1234 | the arrays change exactly as Operations.Write says |
| FileSystem.FsCtx.CutPoint | a1fs.c:942-957 | the counting loop finds the cut |
| FileSystem.FsCtx.CutAt | a1fs.c:959-988 | the two freeing loops, with the shortened extent between them, change the arrays as Operations.CutAt says |
| FileSystem.FsCtx.Truncate | a1fs.c:916-1024 | the arrays change exactly as Operations.Truncate says |
| FileSystem.FsCtx.Empty | a1fs.c:728-748 | the nested loops free the file's block list and its extent table |
| FileSystem.FsCtx.AddEntry | a1fs.c:288-383 | the arrays change exactly as Operations.AddEntry says |
| FileSystem.FsCtx.MakeNode | a1fs.c:251-387 | taking the inode, then looking the parent up, then adding the entry changes the arrays exactly as Operations.MakeNode says |
| FileSystem.FsCtx.FindTarget | a1fs.c:445-460 | the triple loop stops at the first slot, in file order, that holds the target's inode number |
| FileSystem.FsCtx.ForgetLast | a1fs.c:464-535 | the four cases change the arrays as Operations.ForgetLast says |
| FileSystem.FsCtx.RemoveEntry | a1fs.c:428-536 | the arrays change exactly as Operations.RemoveEntry says |
| FileSystem.FsCtx.Scan | fs_ctx.c:128-149 | the scan of one directory finds a name exactly when it is among the live entries, and ignores stale slots |
| FileSystem.FsCtx.PathLookup | fs_ctx.c:74-156 | the loops compute resolution on the namespace, with its failures |
| FileSystem.FsCtx.WalkFrom | fs_ctx.c:115-155 | the loop over the components is the recursive descent |
| FileSystem.FsCtx.ReadDir | a1fs.c:195-230 | the listing is ".", ".." and the live entries in order |
| FileSystem.FsCtx.Read | a1fs.c:1048-1096 | the bytes returned are those of the content at the offset, cut at its end, if and only if the offset fits in 32 bits, or its low 32 bits are past the end too, or nothing is asked for; otherwise which stray bytes they are |
| FileSystem.FsCtx.Mkdir | a1fs.c:251-387 | mkdir by path meets its specification, if and only if it does not deviate when the code is as written |
| FileSystem.FsCtx.Create | a1fs.c:560-695 | create by path, likewise |
| FileSystem.FsCtx.Rmdir | a1fs.c:403-539 | rmdir by path meets its specification on both readings |
| FileSystem.FsCtx.Unlink | a1fs.c:710-861 | unlink by path meets its specification on both readings |
| FileSystem.FsCtx.TruncatePath | a1fs.c:916-1024 | truncate by path, to any size, meets its specification, if and only if it does not deviate when the code is as written |
| FileSystem.FsCtx.WritePath | a1fs.c:1122-1234 | write by path, likewise |
| FileSystem.FsCtx.ReadPath | a1fs.c:1048-1096 | read by path returns the bytes of the file the path resolves to, under the same if-and-only-if condition |
| FileSystem.FsCtx.ReadDirPath | a1fs.c:195-230 | readdir by path lists the directory the path resolves to |

## Left out

- Runs.ReachableBlocks: says nothing of runs of the code as written after a deviating call, because the specification fails there (Runs.FirstDeviationBreaks) and nothing is promised from then on.
- FileSystem.FsCtx.constructor: models fs_ctx_init on an image that mkfs has just formatted; mounting an image again is not modelled, because indirect pointers are addresses of the old mapping (README.txt:15) and fs_ctx.c:52 takes the block total from the current free count.
- FileSystem.FsCtx.Write: writes that leave a hole of more than one whole block are outside the precondition of the calls by path (README.txt:9).
- FileSystem.FsCtx.Create: does not model that a1fs.c:586 gives the parent's path a buffer of A1FS_NAME_MAX bytes where mkdir has A1FS_PATH_MAX; a longer parent path overflows it.
- FileSystem.FsCtx.MakeNode: the new inode's unused indirect pointer is 0, in the source uninitialised.
- FileSystem.FsCtx.FirstAvailablePosition: the failure value is 2^32 - 1; the source converts a floating-point number that does not fit (fs_ctx.c:198).
- FileSystem.FsCtx.ReadDir: a filler callback that reports lack of memory is not modelled.
- The data region is kept as three arrays, one for each way the code casts it. A write through one view does not show in the others. When a block changes hands the code zeroes it (files), writes the extents and entries it will read (tables, directories) or must not depend on what is there (stale slots, which hold anything here).
- A write outside the image is not performed but recorded; the invariant says that none has happened.
- Block numbers stand for addresses, including indirect pointers, so get_addr_of_block and get_num_of_block disappear.
- Paths are strings and lists of components; the C buffers, their lengths and the writes of strtok into the path are not modelled.
- FUSE dispatch, option parsing, the memory mapping, statfs, getattr, utimens, timestamps, permission bits and get_exact_num_blks_of_file: input and output, or copies of fields.
