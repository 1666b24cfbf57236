# Virtual file system image: a Dafny model of its block allocator

The system keeps a flat file system inside one host file, the *image*. The image has three parts:

- a header (`Superblock`) recording the image size;
- a table of `num_nodes` descriptors (`Inode`: flags, a 32-character name, a byte count and the index of the next block);
- `num_nodes` data blocks of 4096 bytes each.

A file is a chain of descriptors. The first one carries the `IS_START` flag and the file's name. Every block of the file carries `IN_USE`, and each `next_node` points to the next block, or is -1 on the last one.

The model covers the core of `VirtualFS.c`:

- the layout arithmetic of `openVFS` and `createVFS`;
- table initialisation in `createVFS`;
- `copyTo`, which selects the lowest free blocks and links them into a chain;
- `deleteFromVFS`, which walks the chain and frees it;
- `copyFrom`, which walks the chain and emits its blocks;
- `listVFS`, and the memory map and free count of `dumpVFS`.

The image is modelled as in-memory state, `Vfs(numNodes, inodes, blocks)`. Each operation is a function, or a method with a loop, that returns a status and the new state. Host files are modelled as byte sequences, with an `Option` or `bool` standing for "could not be opened".

Well-formedness of the table (`Chains.WellFormed`) has four parts:

- every file is a proper chain: in use, linked in order, ending in -1, with no block repeated;
- files share no block;
- every block in use belongs to some file;
- no two files have names that match under `strncmp(_, _, 32)`.

Both `copyTo` and `deleteFromVFS` are proved to keep well-formedness, and so is the property that free blocks are zero. The operations are also proved against each other:

- on any well-formed image, reading back a stored file gives the source followed by less than one block;
- on an image whose free blocks are zero, that tail is zero padding;
- a stored name cannot be stored again;
- storing and then deleting a file restores the free pool;
- the listing gains or loses exactly the one line.

Files: `types.dfy` (records, constants, C-string names), `layout.dfy` (offsets and counts), `chains.dfy` (chains and the invariant), `store.dfy` (`copyTo` and its invariants), `store_as_written.dfy` (the copy loop as written, see Findings), `remove.dfy` (`deleteFromVFS` and its invariants), `retrieve.dfy` (`copyFrom`), `lifecycle.dfy` (cross-operation properties), `image.dfy` (`createVFS`/`openVFS`), `listing.dfy` (`listVFS`/`dumpVFS`).

## Model

| member | source | states |
|---|---|---|
| Types.FlagBitsIndependent | VirtualFS.h:7-8 | IN_USE and IS_START are distinct single bits: clearing either leaves the other bit as it was, and setting both makes both tests true |
| Types.CName | VirtualFS.c:218 | the name `strncpy(_, dest, 32)` stores is a NUL-free prefix of `dest` of at most 32 characters, cut only at a NUL or at 32 |
| Types.StoredNameMatches | VirtualFS.c:177 | a stored name matches the name it was stored from under `strncmp(_, _, 32)`, and storing it again changes nothing |
| Types.EmptyNameIsEmptyCName | VirtualFS.c:172 | `strlen(dest) == 0` exactly when the stored name would be empty |
| Types.UpToNulOfNulFree | VirtualFS.c:127 | a NUL-free name prints as itself under `%s` |
| Layout.NodesAtOpen | VirtualFS.c:38 | the open-time block count is the largest N with 4 + N·4140 ≤ size |
| Layout.NodesAtCreate | VirtualFS.c:98 | the create-time block count is the smallest N with 4 + N·4140 ≥ size |
| Layout.DataOffset | VirtualFS.c:213 | data block i of an N-block layout starts past the header and the whole N-record table, and when i < N it ends within the N descriptor/block pairs that follow the header |
| Layout.IntDataOffset | VirtualFS.c:213 | the offset as the source computes it exists exactly for block indices below 524288, where the `int` product `BLOCK_SIZE * i` fits, and is then the data offset |
| Layout.LastCreateRecordIsFirstOpenBlock | VirtualFS.c:38 | when the counts disagree, open-time data block 0 starts exactly at the last descriptor record of the create-time layout |
| Layout.OpenLayoutFits | VirtualFS.c:213 | under the open-time count, each data block at 4 + 44·N + 4096·i starts after the table and ends inside the image |
| Layout.BlocksDisjoint | VirtualFS.c:250 | distinct data blocks occupy disjoint byte ranges |
| Layout.CreateCountVersusOpenCount | VirtualFS.c:98 | the create-time count equals the open-time count when size − 4 is a multiple of 4140, and exceeds it by exactly one otherwise |
| Layout.CreateLayoutOverruns | VirtualFS.c:98 | when the counts differ, the last create-time data block runs past the end of the image, and every block sits 44 bytes later than at open time |
| Chains.Walk | VirtualFS.c:285-296 | following `next_node` from a block visits in-range indices only, starts at that block, and each visited block links to the next one visited |
| Chains.WalkStops | VirtualFS.c:247-255 | a walk that ends before its fuel runs out ends at a block whose link leaves the table, as the loops stop only at a link of -1 |
| Chains.FindHead | VirtualFS.c:235-241 | the lookup returns the lowest index whose block starts a file with a matching name, and None exactly when there is none |
| Chains.LaidOutChain | VirtualFS.c:210-219 | in-use distinct blocks each linked to the next in order, the last to -1, form a proper chain that the walk from the first visits in that order |
| Chains.HeadOnlyAtFront | VirtualFS.c:217 | in a well-formed table only the first block of a file has the start flag |
| Chains.AllFreeWellFormed | VirtualFS.c:100-102 | a table with no block in use is well formed |
| Store.NodesRequired | VirtualFS.c:191 | a source of `len` bytes needs the fewest whole blocks that hold it |
| Store.Chunk | VirtualFS.c:212 | the k-th read returns the k-th 4096 bytes of the source, a full block for every read but the last, which holds the remainder |
| Store.Scan | VirtualFS.c:194-202 | the scan returns at most R free indices in ascending order, skipping no free index below one it took, and when it returns fewer than R it has taken every free index |
| Store.ScanCount | VirtualFS.c:204-208 | the scan comes up short exactly when fewer than R blocks are free, and otherwise returns exactly R |
| Store.BuildSpec | VirtualFS.c:210-216 | after k iterations of the copy loop the first k selected descriptors are in use, hold their chunk's length, link to the next selected index, and their blocks start with their chunk; every other descriptor and block is unchanged |
| Store.CommitStores | VirtualFS.c:210-219 | the loop plus the head marking leave exactly the stored-file state: the first selected block starts the file and has the name, the others are plain in-use blocks, links follow the selection, the last link is -1, nothing else changes |
| Store.CopyTo | VirtualFS.c:163-225 | WRONG_NAME exactly when the name is empty or taken; FILE_OPENING exactly when the source cannot be opened; NOT_ENOUGH_SPACE exactly when fewer blocks are free than needed; otherwise SUCCESS, that is exactly when the name is free, the source opens and enough blocks are free; any error leaves the image unchanged; success stores the file in the lowest free blocks |
| StoreInvariants.StoredIsNewChain | VirtualFS.c:210-219 | a successful store turns free blocks into one new file carrying the stored name and leaves every other descriptor unchanged |
| StoreInvariants.NewChainIsSelection | VirtualFS.c:215-219 | the walk from the new file's first block visits exactly the selected blocks in ascending order, and they form a proper chain |
| StoreInvariants.OldChainKept | VirtualFS.c:196-197 | an existing file shares no block with the new one and keeps its chain block for block |
| StoreInvariants.HeadsAfterStore | VirtualFS.c:217 | after a store, the blocks that start files are the old ones plus the new file's first block |
| StoreInvariants.NewChainWellFormed | VirtualFS.c:210-219 | adding a new file to a well-formed table keeps it well formed |
| StoreInvariants.CopyToPreservesWellFormed | VirtualFS.c:163-225 | every outcome of `copyTo` on a well-formed table leaves a well-formed table |
| StoreInvariants.NewChainFreeSet | VirtualFS.c:211 | a store takes exactly the selected blocks out of the free pool |
| StoreInvariants.CopyToFreeCount | VirtualFS.c:204-211 | success shrinks the free count by exactly R; any other outcome leaves the free pool as it was |
| StoreInvariants.CopyToKeepsFreeBlocksZero | VirtualFS.c:213-214 | blocks of free descriptors stay all zero across `copyTo` |
| StoreAsWritten.StepAsWritten | VirtualFS.c:211-215 | one iteration of the loop as written updates the descriptor table exactly as the corrected iteration does, and keeps every in-use size within a block, given that the descriptor the loop counter names is the one just selected or one in use |
| StoreAsWritten.LoopSelected | VirtualFS.c:210-216 | after k iterations of the loop as written the descriptors selected so far are in use and every other descriptor is as it was |
| StoreAsWritten.CounterInUse | VirtualFS.c:196-214 | because the scan skips no free descriptor, the descriptor the loop counter names at line 214 is the one selected on that iteration or one already in use |
| StoreAsWritten.WellFormedSizes | VirtualFS.c:212 | every descriptor in use in a well-formed table records at most 4096 bytes |
| StoreAsWritten.LoopAsWrittenTable | VirtualFS.c:210-216 | the loop as written leaves the same descriptor table as the corrected loop; only the data blocks can differ |
| StoreAsWritten.CopyToAsWritten | VirtualFS.c:163-225 | `copyTo` as written returns the same status as the corrected one, changes nothing on error, and leaves the same descriptor table |
| StoreAsWritten.LoopAsWrittenAligned | VirtualFS.c:214 | when the selected blocks are exactly 0, 1, 2, … the loop as written writes what the corrected loop writes |
| StoreAsWritten.WitnessWellFormed | VirtualFS.c:100-102 | the counterexample table is a legitimate state: valid, well formed, free blocks zero |
| StoreAsWritten.WitnessSelection | VirtualFS.c:194-202 | storing a one-block source as "b" in the counterexample table succeeds the checks and selects block 1 alone |
| StoreAsWritten.AsWrittenLosesData | VirtualFS.c:214 | the loop as written records 4096 bytes for the new file but writes only 10 of them, leaving byte 10 of the block zero |
| StoreAsWritten.CorrectedKeepsData | VirtualFS.c:212-214 | the corrected store writes the whole 4096-byte source into block 1 |
| Remove.Reclaim | VirtualFS.c:245-254 | a reclaimed descriptor is free with size 0 and link 0; the first block also loses the start flag and its name, and other blocks keep theirs |
| Remove.ReleaseAt | VirtualFS.c:248-251 | one step of the deletion walk adds exactly its block to the free pool: IN_USE cleared with the start flag and name as they were, size and link 0, data zeroed; nothing else changes |
| Remove.ReleaseChain | VirtualFS.c:247-255 | the walk from the first block reclaims every block of the chain, zeroes its data and changes nothing outside it, reading each link before overwriting it |
| Remove.DeleteFromVFS | VirtualFS.c:227-258 | FILE_NOT_FOUND exactly when no file has a matching name, and then nothing changes; otherwise the first matching file's chain is reclaimed and nothing else changes |
| RemoveInvariants.DeletedBlocksFree | VirtualFS.c:245-248 | every block of the deleted file is free afterwards and none has the start flag |
| RemoveInvariants.HeadsAfterDelete | VirtualFS.c:245 | after a deletion, the blocks that start files are the old ones except the deleted file's, each unchanged |
| RemoveInvariants.OtherChainKept | VirtualFS.c:247-255 | every other file keeps its chain, block for block |
| RemoveInvariants.DeletePreservesWellFormed | VirtualFS.c:235-257 | deleting a file from a well-formed table keeps it well formed |
| RemoveInvariants.DeleteFreeCount | VirtualFS.c:247-255 | the free pool grows by exactly the deleted file's blocks, so the free count grows by its chain length |
| RemoveInvariants.DeleteKeepsFreeBlocksZero | VirtualFS.c:250-251 | blocks of free descriptors stay all zero across a deletion |
| RemoveInvariants.DeletedNameGone | VirtualFS.c:245-246 | after deletion the name no longer matches any file |
| Retrieve.Concat | VirtualFS.c:285-296 | what `copyFrom` writes for a chain is 4096 bytes per block of the chain |
| Retrieve.ConcatAt | VirtualFS.c:286-291 | the k-th 4096 bytes written are the k-th block of the chain |
| Retrieve.CopyFrom | VirtualFS.c:260-300 | WRONG_NAME exactly when the host name is empty; FILE_OPENING exactly when the host file cannot be created; otherwise success, writing nothing for an unknown name and the chain's blocks in order for a known one |
| Lifecycle.NewChainFound | VirtualFS.c:277-283 | after a store, looking the stored name up finds the new file's first block |
| Lifecycle.ReadBackPrefix | VirtualFS.c:285-296 | reading back the first k < R blocks of a stored file gives the source's first k blocks whatever those blocks held before; reading all R gives the source followed by zeros when the blocks taken were zero |
| Lifecycle.ReadBackStartsWithSource | VirtualFS.c:285-296 | whatever the taken blocks held, the blocks of a stored file read back start with the source, followed by less than one block |
| Lifecycle.ReadBackAll | VirtualFS.c:285-296 | when the blocks taken held zeros, all the blocks of a stored file read back as the source followed by zeros to a whole number of blocks |
| Lifecycle.StoredFacts | VirtualFS.c:210-219 | a successful store leaves a new file whose chain is the selection and which the lookup finds |
| Lifecycle.RoundTrip | VirtualFS.c:276-299 | on a well-formed image whose free blocks are zero, `copyFrom` of a just-stored file returns the source padded with zeros to whole blocks |
| Lifecycle.RoundTripPrefix | VirtualFS.c:276-299 | on any well-formed image, `copyFrom` of a just-stored file returns the source followed by less than one block |
| Lifecycle.StoredSizesSum | VirtualFS.c:212 | the sizes recorded on the first k blocks of a stored file add up to 4096·k, or to the source length once all blocks are counted |
| Lifecycle.ChainSizes | VirtualFS.c:212 | every block of a stored chain records 4096 bytes but the last, which records between 1 and 4096, and the sizes add up to the source length |
| Lifecycle.StoredSizes | VirtualFS.c:212 | the same size facts for the file a successful `copyTo` stores |
| Lifecycle.DuplicateRejected | VirtualFS.c:175-180 | storing under a name just stored fails with WRONG_NAME and changes nothing |
| Lifecycle.NewChainDeleted | VirtualFS.c:247-255 | deleting a newly stored file gives back exactly the free pool it was stored from |
| Lifecycle.CopyThenDeleteFrees | VirtualFS.c:247-255 | `copyTo` followed by `deleteFromVFS` of the same name restores the free pool |
| Image.CreateVFS | VirtualFS.c:63-109 | a new image records its size (cut to 32 bits) and has the rounded-up block count; every descriptor's flags are clear, so the table is well formed and entirely free, and the data region holds only zeros |
| Image.FreshTable | VirtualFS.c:100-102 | a table whose flags are all clear is well formed and all free |
| Image.AllFreeCount | VirtualFS.c:100-102 | when no descriptor is in use the free count is the block count |
| Image.OpenVFS | VirtualFS.c:13-51 | opening succeeds exactly when a header was read, it records the file's size, and the file holds at least one descriptor/block pair after the header; then the file is under 4 GiB, and the handle's count is the largest whose last block ends inside the file |
| Image.CreateThenOpen | VirtualFS.c:38 | reopening a created image gives the created count when the sizes divide evenly, and otherwise one block fewer, or failure when that leaves none |
| Image.OneKilobyteImageCannotReopen | VirtualFS.c:98 | a 1 KB image gets one block that runs 3120 bytes past its end, and `openVFS` refuses it |
| Image.CreateVFSFloor | VirtualFS.c:98 | creation with the open-time count gives a well-formed, all-free, all-zero table with that count |
| Image.FloorImageReopens | VirtualFS.c:38 | with that count every block lies inside the image, and an image with a block reopens with the count it was created with |
| Image.LargeImageOffsetOverflows | VirtualFS.c:213 | an image of 524289 blocks (2,170,557,464 bytes) records its size, opens with 524289 blocks, and the `int` offset of its last block overflows |
| Image.AcceptedOffsetsInsideImage | VirtualFS.c:38 | with the offset computed in the width of the file size, every block of an image `openVFS` accepts ends inside the file, which is under 4 GiB |
| Listing.ListVFS | VirtualFS.c:121-130 | every listed line names a block that starts a file, by its printed name and index |
| Listing.ListFromComplete | VirtualFS.c:123-127 | every block that starts a file is listed |
| Listing.ListFromAscending | VirtualFS.c:123 | lines come in increasing index order |
| Listing.ListVFSExact | VirtualFS.c:121-130 | an index is listed exactly when its block starts a file; the listing is in index order and carries each file's printed name |
| Listing.ListFromSame | VirtualFS.c:125 | tables that start the same files under the same names list identically |
| Listing.ListFromRemoved | VirtualFS.c:125 | a table with one file fewer lists the old lines minus that file's |
| Listing.ListFromAdded | VirtualFS.c:125 | a table with one file more lists the old lines with the new line inserted in index order |
| Listing.ListAfterDelete | VirtualFS.c:245 | after a deletion the listing is the old one without the deleted file's line |
| Listing.ListAfterStore | VirtualFS.c:217-218 | after a store the listing gains exactly the new file's line, at its first block and under its stored name |
| Listing.CopyToLists | VirtualFS.c:217-218 | a successful `copyTo` inserts exactly the new file's line into the listing |
| Listing.DumpVFS | VirtualFS.c:149-160 | the memory map has one character per descriptor: `.` exactly at the free ones, `$` exactly at file starts, `#` at a last block that is not a start, `>` elsewhere; the summary count equals the number of free descriptors |
| Listing.MapShowsChain | VirtualFS.c:156 | in a well-formed table each file shows as `$`, then `>` for each middle block, then `#` for its last block when it has more than one |

## Left out

- Host file I/O is not modelled: `fopen`, `fseek`, `fread`, `fwrite`, `fclose`, `unlink`. Neither is the on-disk byte layout of the records, whose padding and byte order depend on the host. The state is in memory, and host files are byte sequences or "cannot be opened" flags.
- `closeVFS` and `deleteVFS` are left out: they only write the table back or unlink the file.
- The printed text of `listVFS` and `dumpVFS` is left out, as is the per-descriptor dump in `dumpVFS` (VirtualFS.c:136-146). `main.c` (argument dispatch and messages) is also left out.
- Read and write failures inside `copyFrom` (VirtualFS.c:287-294) are left out. So are the failure of `fwrite` in `createVFS` (VirtualFS.c:93-96) and the failure of `fopen` there (VirtualFS.c:75-78). An `openVFS` whose file cannot be opened is the same as one whose header cannot be read.
- `malloc` failures are left out.
- Image.CreateVFS: the descriptor fields other than `flags` are not modelled. `malloc` leaves them uninitialised; the model takes them as an arbitrary function `uninit`.
- Image.CreateVFS: requires at least 1 KB. A size of 0 makes `size * 1024 - 4` wrap around in `size_t`.
- Image.CreateVFS: the `size_t` wrap of `size * 1024`, and the cast of the count to `unsigned int`, are not modelled. Only the 32-bit cut of the header's size is; the header's field is an `unsigned int` (`Types.uint32`), so `Image.OpenVFS` never accepts a file of 4 GiB or more.
- Image.CreateVFS: models every create-time block as present and zero. When size − 4 is not a multiple of 4140, the last create-time block runs past the end of the file (`Layout.CreateLayoutOverruns`), and those bytes do not exist. In the source a store into that block (VirtualFS.c:213-214) grows the file beyond the recorded size, after which `openVFS` refuses it (VirtualFS.c:33). A read from it (VirtualFS.c:287-291) returns a short count and writes stale `buff` bytes. `main.c` closes a created image at once, so no operation reaches that block through it.
- Layout.DataOffset: computes the offset without bound. The source's `BLOCK_SIZE * nodes_queue[i]` (VirtualFS.c:213) and `BLOCK_SIZE * first_node` (VirtualFS.c:250, VirtualFS.c:286) are `int` products, which overflow for block indices of 524288 or more, that is on images larger than 4 + 4140·524288 bytes (about 2.02 GiB). `Layout.IntDataOffset` gives that limit. `Layout.OpenLayoutFits`, `Layout.BlocksDisjoint` and the read-back lemmas hold for the source only below it (see Findings).
- Image.OpenVFS: returns only the block count, not the table. The table is read back from the image bytes, which are not modelled.
- Image.OpenVFS: does not promise that free blocks are zero after a create, close and reopen. When the counts disagree, open-time block 0 starts with the last descriptor record written at close (Layout.LastCreateRecordIsFirstOpenBlock), whose name, size and link are uninitialised, so the zero-padding round trip (`Lifecycle.RoundTrip`) is proved only for images whose free blocks are zero. The prefix round trip (`Lifecycle.RoundTripPrefix`) holds on every well-formed image.
- Types.Inode: each `char` of a name stands for one C byte; names are not restricted to characters below 256.
- Store.CopyTo: excludes a zero-length source by precondition. With R = 0 the source reads `nodes_queue[0]` from a zero-length allocation (VirtualFS.c:217), which is undefined.
- Store.CopyTo: the last link is -1 directly. The source first stores `nodes_queue[R]`, an uninitialised entry of the queue (VirtualFS.c:215; the queue is allocated with room for R descriptors at VirtualFS.c:192), and then overwrites it with -1 at VirtualFS.c:219.
- Store.CopyTo: `source_size` is taken to fit the `int` casts at VirtualFS.c:191.
- StoreAsWritten.CopyToAsWritten: requires every in-use descriptor's `size` to be at most 4096, which every well-formed table meets (`StoreAsWritten.WellFormedSizes`). Free descriptors' sizes are unconstrained. The count read at VirtualFS.c:214 always comes from an in-use or just-selected descriptor (`StoreAsWritten.CounterInUse`), so it never exceeds the buffer.
- Remove.DeleteFromVFS: requires every file to be a proper chain (`HeadsHaveChains`). On other tables the source's walk can loop forever or index out of bounds.
- Retrieve.CopyFrom: requires every file to be a proper chain (`HeadsHaveChains`), for the same reason as deletion.
- Remove.Reclaim: keeps the source's link value 0 on freed descriptors (VirtualFS.c:254), not -1. It is harmless, because `copyTo` rewrites the link on reuse.
- Listing.ListVFS: a name of exactly 32 characters has no NUL, so `%s` reads on into the next fields. The model prints only up to the first NUL.

## Findings

| source | as written | input that shows it | evidently intended | confidence | as-written member | corrected member |
|---|---|---|---|---|---|---|
| VirtualFS.c:214 | each block write takes its byte count from `vfs->inodes[i].size`, indexed by the loop counter | a table with file "a" of 10 bytes in block 0 and block 1 free; store a 4096-byte source as "b". Block 1 is selected, the count read is block 0's 10, so 4086 bytes are lost while the descriptor records 4096 | the count of the descriptor just filled, `vfs->inodes[nodes_queue[i]].size`; with it, `StoreAsWritten.CorrectedKeepsData` shows the witness block stored whole and `Lifecycle.RoundTrip` proves that every stored file reads back intact | high; not executed | StoreAsWritten.AsWrittenLosesData | Store.CopyTo |
| VirtualFS.c:213 | the block offset `BLOCK_SIZE * nodes_queue[i]`, like `BLOCK_SIZE * first_node` at VirtualFS.c:250 and VirtualFS.c:286, is an `int` product | an image of 4 + 4140·524289 = 2,170,557,464 bytes whose header records that size: `openVFS` accepts it with 524289 blocks, and for block 524288 the product is 2^31, past `INT_MAX`, so the offset passed to `fseek` is undefined | the product taken in the width of the file size, `(size_t)BLOCK_SIZE * i`, so every block of an accepted image lies at 4 + 44·N + 4096·i inside the file (`Image.AcceptedOffsetsInsideImage`) | medium; not executed | Image.LargeImageOffsetOverflows | Image.AcceptedOffsetsInsideImage |
| VirtualFS.c:98 | `createVFS` rounds the block count up, while `openVFS` rounds it down (VirtualFS.c:38) | `createVFS(_, 1)`: a 1024-byte image gets 1 block whose data would end at byte 4144; `openVFS` computes 0 blocks and refuses the image. For larger sizes that do not divide evenly, the image reopens with one block fewer, and its block 0 starts with the last descriptor record written at close (`Layout.LastCreateRecordIsFirstOpenBlock`), whose uninitialised fields then read as file data | the count rounded down, so every block lies inside the image and the image reopens with the count it was made with (`Image.FloorImageReopens`) | medium; not executed | Image.OneKilobyteImageCannotReopen | Image.CreateVFSFloor |
