# A verified model of the kernel's memory map, its file-system stack, and the disk image tools

The repository builds a small AArch64 kernel that boots an operating system image from an
HFS+ volume, and host tools that read, decrypt and write Apple disk images. This project
models the parts in which the most can go wrong, in the form in which the original has
them (mutable tables, buffers, cursors and caches are classes and arrays with the
original's fields; loops are loops), and proves what they are for:

* **Page tables** (`Descriptors`, `PageTables`, `AddressSpace`, `Mmap`, `MmapHeap`). `map_range` edits three
  levels of tables in place, takes tables from fixed pools and splits 2 MB blocks. The
  specification is a flat map from page number to frame and attributes. Every call updates
  exactly its pages in the flat map; every table descriptor points to a table of its own;
  the pools run out exactly when a count taken before the call says so; the boot map is
  the documented one; and over whole runs of mmap, refused requests and a wrapping counter included, it is settled
  exactly when regions are mapped, within reach of the hardware, and disjoint.
* **HFS+** (`Orderings`, `UnicodeCompare`, `Keys`, `BTrees`, `NodeFormat`, `NodeReads`,
  `Catalog`, `Extents`, `Forks`, `ForkLoad`). B-tree look-ups agree with linear search of the leaf chain, range
  scans with filtering it, the comparison loop with the folded lexicographic order of
  TN1150; fork extents are gap-free, cover the fork and address the blocks of its descriptors; node
  bytes load to what was serialised, also in look-ups that read them from the tree's fork;
  what a directory lists is what a path opens, but for the folder with the last identifier.
* **Block reads** (`Virtio`, `BlockFile`, `Forks`). A one-request virtqueue whose indices
  wrap, sector rounding, a read buffer and forks sharing one file cursor give the bytes
  that indexing the disk gives, under any interleaving of forks.
* **Disk images** (`Bytes`, `Koly`, `Blkx`, `DmgFormat`, `DmgImage`, `ChunkLookup`,
  `RecentUses`, `PartitionReader`, `ParallelImage`). Images read back as written, down to
  the bytes of trailer and block maps; the cached seeking reader is a cursor on the
  partition for every run of reads and seeks; the parallel writer gives the same image for
  every interleaving of its workers.
* **Smaller machines** (`ChunkCipher`, `CipherForms`, `ShortReads`, `VfDecrypt`,
  `Scheduler`, `Leb128`). Parallel and streaming decryption, with the exact conditions under
  which they agree, and under which short reads of the input do no harm;
  round-robin bounded waiting; LEB128 decoding of every 64-bit number.

`dafny verify dfyconfig.toml` checks the whole project. `Common` holds what several
modules share.

## Reading the model

* Page-table words are kept as the three fields at the boundaries of the original's masks
  (16 high bits, 36 frame bits, 12 low bits); lemmas on 64-bit vectors show that the
  original's masks and or-expressions compute exactly these fields.
  Tables are rows of arrays; a table's address is the row's index. `Walk` is what the tables
  say; the hardware consults them for the first 4 GiB only (T0SZ is 32,
  `src/kernel/src/mmu.rs:79`), which is `HardwareWalk`.
* Panics, `expect`, `unimplemented!` and index errors of the original are error results.
* zlib, CRC-32, property lists, HMAC and AES are functions given from outside. `Codecs`
  states that compression and property lists are inverse pairs; `Cipher` says only that
  groups have 16 bytes. The digest that is fed piece by piece is the digest of all pieces.
* Input streams give as many bytes per read as a function of the read's number says.
* The virtio device is a step of the model: it may take any number of polls, may fail with
  a medium error, and then leaves any bytes behind.
* Parallel workers are arbitrary choices of the next worker: byte by byte in
  `ParallelImage`, chunk by chunk in `VfDecrypt`, where workers touch
  disjoint slices.
* Lemmas switch off Dafny's automatic induction; where they need induction, they spell it out.
* Layouts and orders are stated twice: once as the functions that the code computes, and once
  by literal byte positions, numbers and indices, which lemmas tie to the former
  (`DescriptorFields`, `TrailerFields`, `TableFields`, `SectorDataIs`, `LiteralFlags`,
  `CompareSeqIsLexicographic` and others).
* Integers are unbounded except where the original's width shows: ring indices, block
  numbers, seek offsets, the mmap counter and the ends of mapped ranges, words of LEB128 and
  page-table fields. Sizes are otherwise assumed to stay below 2^64, physical addresses below
  2^48, chunk numbers below 2^32.

## What the proofs show about the code

* `EnoughTables`: the last of the 256 level-3 tables serves an empty slot only; splitting
  a block checks the index after taking a table, and fails there.
* `PermissionMeaning`: the kernel permissions leave PXN clear, so kernel memory is
  executable at EL1, although the comment at `src/kernel/src/mmu.rs:191` says otherwise.
* `MapRange` skips pages from 512 GiB on without an error, and mmap moves its counter before
  it asks the heap, so that refused requests count. A region handed out is mapped exactly if
  the counter behind it is at most 512 GiB, and usable exactly if it is at most 4 GiB
  (`Mmap`, and `Serve` for runs). `BeyondTheTables`: one refused request of 512 GiB, and the
  next request succeeds with an address that is not mapped. No run of requests with a given
  sum has overlapping regions exactly if the sum is at most 2^64 (`SumDecides`), although the
  counter, which starts at 0x7000_0000, may wrap before. `WrapsOntoFirst`: two refused requests
  later, the first region's address is handed out again.
* mmap maps the frames numbered by the heap's pointer, a virtual address. The heap
  (`src/kernel/src/heap.rs:4-18`) lies at 0x6000_0000..0x8000_0000, and mmap hands out addresses
  from 0x7000_0000, so that already the first region replaces the heap's own mapping there
  (`FirstRequest`); the heap keeps its mapping exactly if a region misses it (`HeapKept`).
  A region shows the memory that the heap has cleared exactly if that memory is still
  identity-mapped (`ShowsAllocation`); `SharedMemory` is a run, possible right after
  init, in which the heap clears the first region's page and the second region shows another one.
* `map_range` keeps no page offsets: an address of the range reaches the byte at its distance
  from the physical start exactly if virtual and physical start have the same offset in their
  pages (`KeepsDistance`).
* A range of size 0 maps a page if its start is not page-aligned (`EmptyRange`).
* `Init` never runs out of tables and uses exactly 138 of the 256 level-3 tables.
* `GetRecordRange` fails on a tree without records instead of returning none.
* `BufReader.Read`: the buffer asks the device for a whole buffer, so a short read near
  the end of the device fails although its bytes exist; the contract gives the exact
  condition, and `ShortDevice` is a case. A failed refill leaves old bytes on offer until the next seek from the start,
  which every fork read begins with.
* The seeking reader agrees with the decoded content at every position exactly if each chunk
  decodes to precisely its sectors (`FindsExactly`). Behind the data of a shorter chunk it
  skips to the next one; `ShortRawChunk` is such a case.
* `ReadInternal` asks for a whole read buffer at the start of each part of an extent that it
  takes; without medium errors it succeeds exactly if the device has that. `ReadToEnd`, which
  takes a failure for the end, is complete exactly if this holds of each of its chunks of
  4096 bytes.
* `list_dir` takes the root folder's identifier from the record behind its thread, and path
  look-up takes the constant 2. With another identifier, nothing that is listed for the root
  can be opened there (`RootElsewhere`; `MovedRootFails` is such a catalog).
* In the folder with identifier 0xFFFF_FFFF the end of the key range wraps to 0: everything in
  it can be opened and nothing is listed (`LastFolderUnlisted`).
* `FormsAgree`: for block sizes that are multiples of 16, streaming and parallel
  decryption give the same bytes for every cipher exactly when the kept data ends with a
  whole group of 16 bytes or the input ends within that group. For a given cipher they also
  agree, and in no other case, when the last group, kept in part only, happens to decrypt to
  bytes that begin with those of its ciphertext (`FormsAgreeFor`).
* `ReadsDecide`: the streaming form takes a short read for a whole chunk. That does no harm,
  whatever the cipher, exactly if the first short read holds all bytes to keep in its whole
  groups, or the input has no further whole group. `HalvesDoHarm`: a block of 32 bytes in two
  reads of 16.
* `ScheduleNext`: the context to save to is the preempted process's exactly when a
  process was current or nobody else waits. Otherwise it is the context of whichever
  process waits last: with two new processes, `FirstSwitch` saves to the context of one that
  has never run.
* `LastSignedDigit`: the signed decoder is right for ten-byte encodings too. Behind ten bytes
  both decoders go on setting bits, at the digit's place modulo 64 (`SetByDigits`).

## Model

| member | source | states |
|---|---|---|
| `Descriptors.SplitKeepsMapping` | src/kernel/src/mmu.rs:246-266 | any page of a split block translates to the frame and attributes that the block gave it |
| `Descriptors.PageDescriptorMapping` | src/kernel/src/mmu.rs:275-284 | the word that map_range writes translates to the requested frame with exactly the permission's attributes |
| `Descriptors.PermissionMeaning` | src/kernel/src/mmu.rs:163-193 | for each permission, who may read, write and execute, and that only the device permission is device memory |
| `Descriptors.TableMaskSelectsFrame` | src/kernel/src/mmu.rs:9-9 | the address mask selects the frame bits of a 64-bit word |
| `Descriptors.TableMaskComplementSelectsFlags` | src/kernel/src/mmu.rs:250-256 | its complement selects the other bits |
| `Descriptors.BlockMaskClearsPageBits` | src/kernel/src/mmu.rs:10-10 | the block mask clears the page number within the block |
| `Descriptors.OrActsOnFlags` | src/kernel/src/mmu.rs:275-284 | combining a frame address with flags changes the flag bits only |
| `Descriptors.NextPageIsNextFrame` | src/kernel/src/mmu.rs:246-266 | adding 4096 to an address is the next frame |
| `Descriptors.PageWordIs` | src/kernel/src/mmu.rs:275-284 | the original's or-expression for a page is the 64-bit word of the model's fields, UXN and PXN at bits 54 and 53 |
| `Descriptors.SplitWordIs` | src/kernel/src/mmu.rs:248-266 | so is its expression for a page of a split block |
| `Descriptors.TableWordIs` | src/kernel/src/mmu.rs:223-243 | so are its table descriptors |
| `Descriptors.BlockWordIs` | src/kernel/src/mmu.rs:72-72 | so are the blocks of init |
| `Descriptors.PageWordFlags` | src/kernel/src/mmu.rs:275-284 | a page word is its address or-ed with the flags of the permission |
| `Descriptors.LiteralFlags` | src/kernel/src/mmu.rs:174-193 | those flags as 64-bit numbers, permission by permission, and those of blocks and tables |
| `Descriptors.ValidAndTableBits` | src/kernel/src/mmu.rs:210-245 | bit 0 says whether a word is valid, bit 1 whether it is a table |
| `PageTables.Overlay` | src/kernel/src/mmu.rs:195-301 | the flat-map update: pages of the range get consecutive frames, all others stay |
| `PageTables.Mmu.TablesAreDistinct` | src/kernel/src/mmu.rs:237-272 | no two level-2 entries of sound tables point to the same level-3 table |
| `PageTables.Mmu.RegionTablesAreDistinct` | src/kernel/src/mmu.rs:210-236 | no two level-1 entries point to the same level-2 table, and all point below the allocation index |
| `PageTables.Mmu.EnsureL2` | src/kernel/src/mmu.rs:210-232 | gives a region a level-2 table exactly if it has one or one is free; no slot changes; tables stay sound |
| `PageTables.Mmu.SplitIntoL3` | src/kernel/src/mmu.rs:246-266 | fills one table with the 512 pages of a block, each translating as before, and touches no other table |
| `PageTables.Mmu.NewL3` | src/kernel/src/mmu.rs:230-243 | an empty slot gets a table exactly if one of the 256 is left; no page's translation changes |
| `PageTables.Mmu.SplitBlock` | src/kernel/src/mmu.rs:245-272 | a block becomes a table exactly if the pool is still not empty afterwards; no page's translation changes |
| `PageTables.Mmu.EnsureL3` | src/kernel/src/mmu.rs:237-272 | gives a slot a level-3 table without changing any page's translation; fails exactly when the slot does not fit the pool |
| `PageTables.Mmu.WritePage` | src/kernel/src/mmu.rs:273-288 | changes the walk of one page and of no other |
| `PageTables.Mmu.MapPage` | src/kernel/src/mmu.rs:203-288 | one iteration: exactly one page's walk changes, and exactly which tables are taken |
| `PageTables.Mmu.ServePage` | src/kernel/src/mmu.rs:203-288 | the iteration as an update of the flat map and of the pool use |
| `PageTables.Mmu.MapPages` | src/kernel/src/mmu.rs:203-289 | the loop updates the flat map by its range; if it stops, it stops at the first page that cannot be served |
| `PageTables.Mmu.MapRange` | src/kernel/src/mmu.rs:195-301 | succeeds if and only if the missing tables fit the pools; then every address of the range below 512 GiB is mapped with the permission, page by page from the frame of the physical address, whether aligned or not, pages in which no such address lies are as they were, and exactly the missing tables are taken |
| `PageTables.VisitedPages` | src/kernel/src/mmu.rs:195-209 | without a wrap, the pages visited are exactly those below 512 GiB in which some address of the range lies |
| `PageTables.EmptyRange` | src/kernel/src/mmu.rs:195-209 | a range of no bytes maps the page of its start exactly if the start is not page-aligned |
| `PageTables.WrappingRange` | src/kernel/src/mmu.rs:195-209 | a range whose rounded end wraps visits no page |
| `PageTables.OverlayMapsRange` | src/kernel/src/mmu.rs:195-301 | updating the flat map by the visited pages maps every address of the range and no page without one |
| `PageTables.KeepsDistance` | src/kernel/src/mmu.rs:195-209 | an address of the range reaches the byte at its distance from the physical start exactly if both starts have the same offset in their pages |
| `PageTables.Mmu.WalkIsTranslation` | src/kernel/src/mmu.rs:203-288 | the walk of a page is the walk by the address bits 38-30, 29-21 and 20-12 |
| `PageTables.PoolLimits` | src/kernel/src/mmu.rs:216-272 | a slot without tables is served while fewer than 256 level-3 tables are taken, a block only below 255 |
| `PageTables.RunAccount` | src/kernel/src/mmu.rs:210-272 | serving a range page by page takes one table for each touched slot and region that had none |
| `PageTables.RunStuck` | src/kernel/src/mmu.rs:216-244 | a page that cannot be served after those before it shows that the range does not fit |
| `PageTables.EnoughTables` | src/kernel/src/mmu.rs:210-272 | the range fits when the level-3 index plus the missing tables is at most 255 and the level-2 use at most 16 |
| `PageTables.FreshRange` | src/kernel/src/mmu.rs:210-272 | a range without tables in present regions takes exactly one table for each 2 MB slot |
| `PageTables.BootStageNext` | src/kernel/src/mmu.rs:116-144 | how one stage of the boot map moves the table count |
| `PageTables.BootOverlays` | src/kernel/src/mmu.rs:116-144 | the four boot ranges over the blocks are the boot map |
| `PageTables.BootAddresses` | src/kernel/src/mmu.rs:44-145 | the boot map by addresses: UART, PCI and ECAM devices, the comm page for user code, the PCI gap, and memory elsewhere below 4 GiB |
| `PageTables.Mmu.InitBlocks` | src/kernel/src/mmu.rs:52-74 | the initial level-1 and level-2 entries, one by one |
| `PageTables.Mmu.BlockSlot` | src/kernel/src/mmu.rs:52-74 | with these entries, every 2 MB slot is a block of its own frames or, for PCI and from 4 GB on, absent |
| `PageTables.Mmu.InitDevices` | src/kernel/src/mmu.rs:116-132 | the three device ranges take 137 tables, for exactly the slots they touch |
| `PageTables.Mmu.Init` | src/kernel/src/mmu.rs:44-145 | init cannot run out of tables, takes exactly 138 level-3 tables, and every page translates as the boot map says |
| `AddressSpace.LastWriterWins` | src/kernel/src/mmu.rs:195-301 | after any calls, a page translates as the last call covering it says, or as before all calls |
| `AddressSpace.MapAll` | src/kernel/src/mmu.rs:195-301 | any sequence of map_range calls that succeeds refines that |
| `Mmap.LaidOutKept` | src/kernel/src/process.rs:512-539 | a mapping disjoint from all regions keeps every region intact |
| `Mmap.LaidOutExtended` | src/kernel/src/process.rs:518-539 | backing a new region that overlaps none of the others keeps them disjoint and intact and adds it, its pages below 512 GiB mapped |
| `Mmap.AscendingExtended` | src/kernel/src/process.rs:518-525 | until the counter wraps, a new region lies behind all others and overlaps none |
| `Mmap.TranslatedExactly` | src/kernel/src/process.rs:518-539 | an intact region is translated page by page exactly if it ends where translation does or before |
| `Mmap.MmapArea.Mmap` | src/kernel/src/process.rs:512-558 | exactly when it panics and when it reports out of memory, which changes no mapping; otherwise the range is mapped to the frames numbered by the pointer; with address 0, all of the region is mapped if and only if the counter behind it is at most 512 GiB, and in reach if and only if at most 4 GiB; regions stay disjoint and intact whenever the call's pages overlap none of them |
| `Mmap.RoundUpIs` | src/kernel/src/process.rs:518-525 | lengths are rounded up to the next multiple of 4096 |
| `Mmap.Serve` | src/kernel/src/process.rs:512-558 | over any run of requests with address 0: page-aligned addresses from the wrapping counter; if no two backed requests overlap, as is so for sums up to 2^64, all regions are disjoint and intact, and each is mapped, or in reach, if and only if it ends within 512 GiB, or 4 GiB; they ascend until the counter wraps |
| `Mmap.SumSuffices` | src/kernel/src/process.rs:518-525 | up to a sum of 2^64, refused requests included, no two requests overlap, even if the counter wraps |
| `Mmap.SumDecides` | src/kernel/src/process.rs:518-525 | no run with a given sum has overlapping requests if and only if the sum is at most 2^64 |
| `Mmap.PastTheTables` | src/kernel/src/process.rs:512-558 | with the counter at 512 GiB or more, every request that the heap backs succeeds and maps nothing |
| `Mmap.OverlappingRun` | src/kernel/src/process.rs:518-525 | for every larger sum there is a run in which two backed requests get the same address |
| `Mmap.BeyondTheTables` | src/kernel/src/process.rs:518-545 | one refused request takes the counter there |
| `Mmap.WrapsOntoFirst` | src/kernel/src/process.rs:518-525 | two refused requests wrap the counter, and a fourth request takes the first one's page |
| `MmapHeap.InitLeavesHeap` | src/kernel/src/heap.rs:4-18 | init maps the heap's pages to the frames of their own numbers |
| `MmapHeap.HeapPageKept` | src/kernel/src/process.rs:530-539 | a heap page keeps its mapping exactly if it is outside the region, and its frame exactly if it is outside or the pointer is the region's own address |
| `MmapHeap.HeapKept` | src/kernel/src/process.rs:530-539 | the heap keeps its mapping exactly if the region misses it |
| `MmapHeap.ShowsAllocation` | src/kernel/src/process.rs:530-539 | the region shows the frames through which the heap has cleared its memory exactly if that memory is identity-mapped |
| `MmapHeap.FirstRequest` | src/kernel/src/process.rs:518-539 | the first successful request replaces heap pages, and leaves the first of them identity-mapped only for one pointer; requests of up to 2 MB succeed unless the pools are exhausted |
| `MmapHeap.SecondRequest` | src/kernel/src/process.rs:518-539 | with memory from the base of the area, the heap's own page leads to the first region's frame, and the second region shows the frame of the pointer's number |
| `MmapHeap.SharedMemory` | src/kernel/src/process.rs:518-539 | a run of two requests that leads there, and succeeds unless the pools are exhausted |
| `Orderings.CompareSeqIsPreorder` | src/lib/hfsplus/lib.rs:282-286 | the lexicographic order of code units is a total preorder |
| `Orderings.CompareSeqEqual` | src/lib/hfsplus/lib.rs:282-286 | it makes only equal strings equal |
| `Orderings.CompareSeqIsLexicographic` | src/lib/hfsplus/lib.rs:282-286 | Less exactly if the first string is a proper prefix of the second or has the lower unit where they first differ; Greater the other way round |
| `UnicodeCompare.NextFolded` | src/lib/hfsplus/hfs_strings.rs:17-45 | the inner loops find the next unit that does not fold to zero, or report that there is none |
| `UnicodeCompare.FastUnicodeCompare` | src/lib/hfsplus/hfs_strings.rs:17-62 | Less, Equal or Greater exactly as the folded strings without their ignorable units compare: at the first difference the lower unit comes first, and a proper prefix before the longer string |
| `UnicodeCompare.FoldIs` | src/lib/hfsplus/hfs_strings.rs:17-45 | which table entry each unit folds to, block by block, and which units are not folded |
| `UnicodeCompare.FoldedIs` | src/lib/hfsplus/hfs_strings.rs:17-45 | a string folds unit by unit, and units that fold to zero drop out |
| `Keys.FoldingOrderIsPreorder` | src/lib/hfsplus/lib.rs:216-226 | the folding order is a total preorder whose equality is equality of folded strings |
| `Keys.BinaryOrderIsPreorder` | src/lib/hfsplus/lib.rs:276-286 | the binary order of HFSX is a total preorder whose equality is equality |
| `Keys.NameOrdersAre` | src/lib/hfsplus/lib.rs:216-286 | a name comes first exactly if it does lexicographically, folded or as it is |
| `Keys.CatalogOrderIsPreorder` | src/lib/hfsplus/internal.rs:677-699 | catalog keys are totally preordered, and equal exactly for one parent and equal names |
| `Keys.CatalogOrderIs` | src/lib/hfsplus/internal.rs:677-699 | the lower parent comes first, then the lower name |
| `Keys.ExtentOrderIsPreorder` | src/lib/hfsplus/internal.rs:618-645 | extent keys are totally preordered, and equal exactly for one file, fork and block |
| `Keys.ExtentOrderIs` | src/lib/hfsplus/internal.rs:618-645 | the lower file comes first, then the lower fork type, then the lower start block |
| `BTrees.SelectedExact` | src/lib/hfsplus/lib.rs:517-564 | the filter that specifies a range scan holds exactly the records not below the first key and below the last, in order |
| `BTrees.BTree.PickEntry` | src/lib/hfsplus/lib.rs:530-536 | the entry followed is the last one not above the key, or the first |
| `BTrees.BTree.DescendKeeps` | src/lib/hfsplus/lib.rs:478-490 | following it never leaves behind a leaf that could hold the key |
| `BTrees.BTree.SearchLeaves` | src/lib/hfsplus/lib.rs:492-508 | the walk along the leaf chain agrees with linear search of all records |
| `BTrees.BTree.GetRecordNode` | src/lib/hfsplus/lib.rs:475-511 | the descent from any subtree that may hold the key does so too, and terminates |
| `BTrees.BTree.GetRecord` | src/lib/hfsplus/lib.rs:471-473 | on every well-formed tree: the unique record with an equal key, or an error exactly when there is none |
| `BTrees.BTree.FoundMeans` | src/lib/hfsplus/lib.rs:471-511 | a look-up that finds what linear search finds gives a record of the tree with an equal key, or an error exactly if there is none |
| `BTrees.BTree.CollectLeaves` | src/lib/hfsplus/lib.rs:538-561 | the walk collects exactly the records in the range, across any number of leaves |
| `BTrees.BTree.GetRecordRange` | src/lib/hfsplus/lib.rs:513-564 | the records with first <= key < last, in order; an error for the tree without records |
| `NodeFormat.WriteFields` | src/lib/hfsplus/internal.rs:252-260 | the export functions' fields in order, big-endian |
| `NodeFormat.ReadFields` | src/lib/hfsplus/internal.rs:241-250 | the import functions invert that and leave the stream behind the fields |
| `NodeFormat.KindOf` | src/lib/hfsplus/internal.rs:216-227 | a code is accepted exactly if it is some kind's code, and gives that kind |
| `NodeFormat.BodyOfValues` | src/lib/hfsplus/internal.rs:96-129 | pairing numbers to extent descriptors inverts taking them apart |
| `NodeFormat.TableAt` | src/lib/hfsplus/lib.rs:369-379 | entry i of the back-to-front table is 2 + 2i bytes before its end |
| `NodeFormat.NodeRecordAt` | src/lib/hfsplus/lib.rs:362-386 | in a serialised node the table locates each record, and the record is there |
| `NodeFormat.ReadOffsets` | src/lib/hfsplus/lib.rs:369-379 | accepted offsets lie between descriptor and table; those of a serialised node are its record offsets |
| `NodeFormat.CutRecords` | src/lib/hfsplus/lib.rs:381-386 | cutting a serialised node gives back the byte strings of its records |
| `NodeFormat.Load` | src/lib/hfsplus/lib.rs:362-426 | loading the serialised form of a header, index or leaf node recovers descriptor, keys and bodies in order; whatever loads has each number at its byte position: links, kind, height and count in the descriptor, records where the table says, and the fields of keys, extents and header record in them |
| `NodeFormat.DescriptorFields` | src/lib/hfsplus/internal.rs:241-250 | next link at byte 0, previous link at 4, kind at 8, height at 9, record count at 10 |
| `NodeFormat.KeyFields` | src/lib/hfsplus/internal.rs:572-590 | key length at byte 0, fork type at 2, file at 4, start block at 8 |
| `NodeFormat.BodyFields` | src/lib/hfsplus/internal.rs:96-129 | eight pairs of start block and block count, eight bytes each |
| `NodeFormat.HeaderFields` | src/lib/hfsplus/internal.rs:288-346 | the positions in the header record, with the root node at byte 2 and the node size at 18 |
| `NodeFormat.BuildNode` | src/lib/hfsplus/internal.rs:252-260 | building a node gives its serialised form |
| `NodeFormat.RoundTripLeaf` | src/lib/hfsplus/internal.rs:572-590 | every leaf node of extents that fits a node is loaded as it was built |
| `NodeFormat.RoundTripHeader` | src/lib/hfsplus/internal.rs:288-346 | every header node that fits is loaded as it was built |
| `Catalog.FolderSelected` | src/lib/hfsplus/lib.rs:1386-1421 | the key range from (id, "") to (id + 1, "") selects exactly the records with that parent |
| `Catalog.ChildrenOfExact` | src/lib/hfsplus/lib.rs:1386-1421 | the listing holds a record if and only if its parent is the folder |
| `Catalog.ListingIs` | src/lib/hfsplus/lib.rs:1386-1421 | a record is listed exactly if it is in the catalog, its parent is the folder, and that is not 0xFFFFFFFF; in catalog order |
| `Catalog.NameOrdersAreSuitable` | src/lib/hfsplus/lib.rs:216-286 | both name orders are total preorders with the empty name first, as the folder's key range needs |
| `Catalog.Volume.ListFolder` | src/lib/hfsplus/lib.rs:1386-1421 | lists exactly the folder's records in catalog order, thread record included; none for the last identifier, whose successor wraps |
| `Catalog.Volume.ListDir` | src/lib/hfsplus/lib.rs:1361-1384 | lists the folder that the path denotes, or fails when it denotes none; for the root the one that its record names |
| `Catalog.Volume.GetPathRecord` | src/lib/hfsplus/lib.rs:1287-1359 | the walk through the folders finds what linear search in each folder finds, or fails when that fails |
| `Catalog.PathLeads` | src/lib/hfsplus/lib.rs:1287-1359 | a path of at least one part denotes a record exactly if a chain of records with equal names leads from folder 2 through folders to that record |
| `Catalog.ResolvedChain` | src/lib/hfsplus/lib.rs:1328-1359 | what a path denotes in a folder is the end of such a chain |
| `Catalog.ChainResolves` | src/lib/hfsplus/lib.rs:1328-1359 | in a sorted catalog the end of every such chain is what its path denotes |
| `Catalog.RootThread` | src/lib/hfsplus/lib.rs:1296-1326 | the empty path denotes the record that the thread of folder 2 points to |
| `Catalog.ResolveSplit` | src/lib/hfsplus/lib.rs:1287-1359 | a path is resolved by resolving its front and then its last name |
| `Catalog.ListedIsOpened` | src/lib/hfsplus/lib.rs:1287-1421 | an entry is in a folder's listing exactly if its parent is the folder, the folder's path extended by its name opens it, and the identifier is not the last; for the root, when its record names folder 2 |
| `Catalog.LastFolderUnlisted` | src/lib/hfsplus/lib.rs:1386-1421 | folders and files in the folder with the last identifier are opened by their paths and not listed |
| `Catalog.OpenedIsListed` | src/lib/hfsplus/lib.rs:1287-1421 | whatever a path opens has an equal name, and is listed in its folder exactly if that does not have the last identifier |
| `Catalog.RootElsewhere` | src/lib/hfsplus/lib.rs:1296-1384 | when the root's record names another folder, nothing listed for the root is opened there |
| `Catalog.MovedRootFails` | src/lib/hfsplus/lib.rs:1296-1384 | a catalog of three records in which the root lists a file that cannot be opened |
| `Extents.RangesGapFree` | src/lib/hfsplus/lib.rs:646-727 | the byte ranges of any descriptors are ordered, gap-free and cover the fork as far as the blocks go |
| `Extents.RangesAre` | src/lib/hfsplus/lib.rs:668-691 | the range of each descriptor: its blocks, and the bytes behind the blocks before it, cut off at the logical size |
| `Extents.BlocksAre` | src/lib/hfsplus/lib.rs:668-691 | block counts add up, and the bytes are those of the blocks |
| `Extents.InUseIs` | src/lib/hfsplus/lib.rs:668-691 | the descriptors with blocks count, in their order |
| `Extents.AddRecord` | src/lib/hfsplus/lib.rs:668-691 | one record's descriptors extend the ranges; empty ones are skipped; the block number wraps at 2^32 |
| `Extents.NextRecord` | src/lib/hfsplus/lib.rs:695-705 | finds the overflow record stored for the blocks so far, which adds blocks, or fails when there is none |
| `Extents.Fill` | src/lib/hfsplus/lib.rs:667-706 | the lists of a fork, extended record by record, either reach the logical size or end where a record is missing |
| `Extents.StoredIsFound` | src/lib/hfsplus/lib.rs:695-705 | a record stored for the file, the fork type and the start block is found under the key that load builds |
| `Extents.FillFinds` | src/lib/hfsplus/lib.rs:667-706 | if each list after the inline one is stored under the number of the blocks before it, as far as the logical size goes, then all are found |
| `Extents.LoadRecords` | src/lib/hfsplus/lib.rs:667-706 | the loop over the records gathers the ranges of exactly the lists found |
| `Extents.Load` | src/lib/hfsplus/lib.rs:646-727 | terminates; the ranges are exactly those of the inline and overflow records, gap-free and covering the logical size; fails exactly when an overflow record is missing |
| `Extents.LoadStored` | src/lib/hfsplus/lib.rs:646-727 | a fork whose lists are stored like that loads, with the ranges of all of them |
| `ForkLoad.RangesAddressBlocks` | src/lib/hfsplus/lib.rs:646-727 | each byte before the logical size has its place in the descriptors' blocks laid end to end |
| `ForkLoad.BlockOffsetIs` | src/lib/hfsplus/lib.rs:646-727 | byte k of the blocks of a descriptor lies k bytes behind the start of its first block |
| `ForkLoad.OpenFork` | src/lib/hfsplus/lib.rs:646-727 | a loaded fork has all bytes of the file, each being the volume's byte at that place, or loading fails exactly when an overflow record is missing |
| `Virtio.VirtioBlk.Submit` | src/kernel/src/virtio.rs:366-408 | a request of type 0 for the sector, and three distinct descriptors, 16 bytes of header, the buffer and one status byte, chained with the flags 1, 3 and 2, are made available; the indices say one request is pending |
| `Virtio.VirtioBlk.WriteChain` | src/kernel/src/virtio.rs:381-398 | the three descriptors, field by field |
| `Virtio.VirtioBlk.DeviceStep` | src/kernel/src/virtio.rs:403-421 | the device completes what the ring offers; status 0 means the buffer holds the sectors |
| `Virtio.VirtioBlk.ReadSectors` | src/kernel/src/virtio.rs:366-423 | true exactly if the device had the sectors, and then the buffer holds its bytes from 512 times the sector on; the indices agree again modulo 2^16; a timeout leaves the request pending |
| `Virtio.VirtioBlk.Poll` | src/kernel/src/virtio.rs:409-421 | ends with the completed request exactly if the device answers within a million polls, else with the request pending |
| `Virtio.VirtioBlk.ReadBounced` | src/kernel/src/virtio.rs:431-441 | unaligned requests get exactly their bytes out of the covering sectors; after a timeout the request stays pending and the buffer unchanged |
| `Virtio.VirtioBlk.ReadAt` | src/kernel/src/virtio.rs:426-443 | reads by byte offset are indexing into the disk, and succeed exactly within it when the device answers in time and without error |
| `BlockFile.DeviceWrapper.Read` | src/kernel/src/hfsfs.rs:29-40 | all bytes asked for, the disk's from the base offset plus the cursor on, exactly when the device has them, answers in time and without error; otherwise a failure that leaves the cursor, and after a timeout a pending request |
| `BlockFile.DeviceWrapper.ReadInTime` | src/kernel/src/hfsfs.rs:29-40 | the same on a device that answers in time |
| `BlockFile.BufReader.Fill` | src/kernel/src/hfsfs.rs:72-82 | a refill keeps the stream position; a failed one rewinds the buffer |
| `BlockFile.BufReader.Read` | src/kernel/src/hfsfs.rs:72-89 | Ok reads are the next bytes of the stream and keep the buffer equal to the disk before the inner cursor; exactly when reads fail |
| `BlockFile.ShortDevice` | src/kernel/src/hfsfs.rs:72-89 | on a device of one sector behind a buffer of two, the first byte cannot be read |
| `BlockFile.BufReader.SeekStart` | src/kernel/src/hfsfs.rs:91-107 | repairs whatever a failed read left behind |
| `BlockFile.BufReader.ReadExact` | src/lib/hfsplus/lib.rs:46-65 | all bytes or an error, over any number of reads |
| `Forks.Fork.ReadPiece` | src/lib/hfsplus/lib.rs:1084-1093 | one extent's part of a read continues the buffer with the fork's bytes |
| `Forks.Fork.ByteOnDisk` | src/lib/hfsplus/lib.rs:1084-1093 | a byte of the fork is the disk's byte at the start of the volume, plus its extent's first block, plus its distance into the extent |
| `Forks.Fork.ReadInternal` | src/lib/hfsplus/lib.rs:1069-1102 | Ok reads deliver min(length, bytes left) and exactly the fork's bytes on disk, whatever other forks did before; without medium errors, Ok exactly if the device has, from the start of each part taken, that part and a whole read buffer |
| `Forks.Fork.ReadExactInternal` | src/lib/hfsplus/lib.rs:1104-1120 | fills the whole buffer with the fork's next bytes; without medium errors exactly when the fork has that many and all parts can be read |
| `Forks.HfsFileHandle.ReadAt` | src/kernel/src/hfsfs.rs:222-229 | positioned reads leave the handle's own position, and give nothing exactly when a part cannot be read or the fork has no more |
| `Forks.HfsFileHandle.ReadToEnd` | src/kernel/src/vfs.rs:17-30 | the fork's bytes from the position on; without medium errors, all up to its end if and only if each chunk of 4096 bytes can be read |
| `Forks.ReadOne` | src/lib/hfsplus/lib.rs:1069-1102 | a read of one fork moves no other fork |
| `Forks.Interleave` | src/lib/hfsplus/lib.rs:1069-1156 | in any interleaving of forks on one file, each Ok read gives its fork's bytes at the position its own reads reached |
| `NodeReads.GetNode` | src/lib/hfsplus/lib.rs:463-469 | reading and parsing a node that the fork holds gives that node or an error, and without medium errors an error exactly when its bytes cannot be read; kind, next leaf and records are those at their byte positions |
| `NodeReads.NodeBytes` | src/lib/hfsplus/lib.rs:463-469 | node number n is the node-size bytes of the fork from n times the node size on |
| `NodeReads.ExtentsTree.ReadNode` | src/lib/hfsplus/lib.rs:463-476 | on a fork that holds the nodes of a tree, what is read is the tree's node, or an error |
| `NodeReads.ExtentsTree.SearchLeaves` | src/lib/hfsplus/lib.rs:492-508 | the walk along the leaves read from the fork agrees with linear search when they can be read, and never finds a wrong record |
| `NodeReads.ExtentsTree.GetRecordNode` | src/lib/hfsplus/lib.rs:475-511 | so does the descent through the nodes read from the fork |
| `NodeReads.ExtentsTree.GetRecord` | src/lib/hfsplus/lib.rs:463-511 | so does the whole look-up, from the bytes of the fork to the record |
| `Bytes.FromBEInverts` | src/lib/hfsplus/lib.rs:89-125 | big-endian decoding inverts encoding |
| `Bytes.FromBE4` | src/lib/hfsplus/lib.rs:89-125 | four bytes stand for a number with the first as the most significant |
| `Bytes.WrittenBytes` | src/lib/hfsplus/lib.rs:89-125 | the bytes that are written for a number, one by one |
| `Bytes.LiteralBytes` | src/lib/hfsplus/lib.rs:89-125 | 12 34 56 78 is 0x12345678, both ways |
| `Koly.CrcRoundTrip` | src/lib/apple-dmg/koly.rs:29-65 | the checksum record gives back the CRC it was made from |
| `Koly.WriteTrailer` | src/lib/apple-dmg/koly.rs:211-236 | writes the trailer's layout |
| `Koly.ReadTrailer` | src/lib/apple-dmg/koly.rs:153-209 | from a file that ends with the layout of a trailer, reads that trailer; without the signature or with another header size it fails |
| `Koly.LayoutSize` | src/lib/apple-dmg/koly.rs:67-67 | the layout has 512 bytes |
| `Koly.TrailerFields` | src/lib/apple-dmg/koly.rs:153-236 | the byte position of every field of the trailer, in what is written and so in what is read |
| `Koly.NewTrailerFields` | src/lib/apple-dmg/koly.rs:127-148 | a new trailer, number by number: version 4, flag 1, one segment, and the sizes, offsets and digests given |
| `Koly.CrcRecord` | src/lib/apple-dmg/koly.rs:29-57 | a checksum record has kind 2, 32 bits, and the CRC in its first four bytes |
| `Blkx.FromU32` | src/lib/apple-dmg/blkx.rs:209-224 | a code is accepted exactly if it is some chunk type's code |
| `Blkx.WriteTable` | src/lib/apple-dmg/blkx.rs:98-113 | writes the table's layout with all its chunks |
| `Blkx.ReadTable` | src/lib/apple-dmg/blkx.rs:67-97 | from the layout of a table, reads that table; without the signature it fails |
| `Blkx.TableFields` | src/lib/apple-dmg/blkx.rs:67-113 | the byte position of every field of a table, its chunk count at byte 200 and its chunks from byte 204 on |
| `Blkx.ChunkFields` | src/lib/apple-dmg/blkx.rs:162-187 | the byte position of every field of a chunk, 40 bytes long |
| `DmgFormat.MapsStable` | src/lib/apple-dmg/lib.rs:60-79 | appending to a file does not change what block maps in it describe |
| `DmgFormat.MapsSnoc` | src/lib/apple-dmg/blkx.rs:61-66 | a chunk that decodes to its sectors extends the content by them |
| `DmgFormat.SectorDataIs` | src/lib/apple-dmg/lib.rs:60-79 | by the type number in the file: 0 and 2 stand for zeros, 1 for the bytes at the chunk's offset, 0x80000005 for what these inflate to, the two markers for nothing; all others fail |
| `DmgFormat.RawAtEnd` | src/lib/apple-dmg/lib.rs:67-70 | a raw chunk that reaches beyond the file stands for the bytes that are there |
| `DmgFormat.DecodedParts` | src/lib/apple-dmg/lib.rs:98-105 | in what the chunks decode to, the data of each chunk lies right behind that of the chunks before it |
| `DmgImage.PieceMaps` | src/lib/apple-dmg/lib.rs:350-365 | a piece compressed onto the data fork extends its partition's block map by the piece |
| `DmgImage.DmgWriter.AddChunks` | src/lib/apple-dmg/lib.rs:350-367 | the table covers the partition with full-size chunks and a terminator, and decodes to it; chunk i has type 0x80000005 and holds, compressed, the bytes from 1 MiB times i on, at most 1 MiB of them |
| `DmgImage.DmgWriter.AddPartition` | src/lib/apple-dmg/lib.rs:345-374 | refuses partial sectors without a change; otherwise all partitions so far decode from the stream and their tables tile the disk, the new one's chunks are as above, and the list entry has the attributes, name and number given |
| `DmgImage.DmgWriter.Finish` | src/lib/apple-dmg/lib.rs:375-393 | the file is data fork, property list and a trailer that describes them |
| `DmgImage.WrittenTrailer` | src/lib/apple-dmg/lib.rs:375-393 | the last 512 bytes of an image, number by number |
| `DmgImage.WrittenTable` | src/lib/apple-dmg/lib.rs:345-374 | the table of each partition, number by number: version 1, first sector, sector count, 2056, its index and its CRC |
| `DmgImage.MainDigestInputAt` | src/lib/apple-dmg/lib.rs:369-369 | the main digest is computed from four bytes for each partition, its CRC |
| `DmgImage.DmgReader.PartitionData` | src/lib/apple-dmg/lib.rs:98-105 | what the chunks of the partition's table decode to |
| `DmgImage.DmgReader.CopyPartitionTo` | src/lib/apple-dmg/lib.rs:107-123 | the writer gets the bytes that PartitionData returns, and the count is theirs |
| `DmgImage.Open` | src/lib/apple-dmg/lib.rs:43-50 | finds the trailer and the property list it points to |
| `DmgImage.StoredDecodes` | src/lib/apple-dmg/lib.rs:98-105 | a stored partition decodes to its input in the finished file |
| `DmgImage.FinishAndOpen` | src/lib/apple-dmg/lib.rs:43-50 | a finished image opens to the trailer and property list that were written |
| `DmgImage.RoundTrip` | src/lib/apple-dmg/lib.rs:81-105 | after any partitions were added, every partition reads back as it was, and the data checksum is the trailer's digest |
| `ChunkLookup.BinarySearch` | src/lib/apple-dmg/lib.rs:175-188 | the search finds the chunk that holds the sector, or none exactly if none does |
| `ChunkLookup.LoadDataIs` | src/lib/apple-dmg/lib.rs:191-232 | what the seeking reader loads, by the type number in the file; terminators and raw chunks that the file does not have fail |
| `PartitionReader.DmgPartitionReader.GetChunkAtPos` | src/lib/apple-dmg/lib.rs:156-189 | the fast path and the search pick the same chunk |
| `RecentUses.MostRecentNext` | src/lib/apple-dmg/lib.rs:191-232 | the order list after a use is again the at most 256 chunks used last, each once, in order of last use |
| `RecentUses.LastUsesInOrder` | src/lib/apple-dmg/lib.rs:191-232 | the list orders chunks by where in the history each was used last |
| `RecentUses.LastUsesEntries` | src/lib/apple-dmg/lib.rs:191-232 | it has exactly the chunks of the history |
| `PartitionReader.DmgPartitionReader.LoadChunk` | src/lib/apple-dmg/lib.rs:191-232 | afterwards the chunk is cached with its decoding, the order list names exactly the cached chunks, and the one evicted was unused for longest |
| `PartitionReader.DmgPartitionReader.Read` | src/lib/apple-dmg/lib.rs:235-264 | result, buffer and position depend on the position alone, not on the cache; terminates |
| `PartitionReader.DmgPartitionReader.Seek` | src/lib/apple-dmg/lib.rs:266-284 | goes to the offset, or so far from the position or the end; negative targets are refused and leave the position |
| `PartitionReader.TargetIs` | src/lib/apple-dmg/lib.rs:266-284 | the target of each kind of seek; a start offset from 2^63 on counts as negative |
| `ChunkLookup.FetchFindsContent` | src/lib/apple-dmg/lib.rs:235-264 | on a complete block map a reader finds at least one byte of the content before its end, and nothing from there on |
| `ChunkLookup.ShortChunkMissed` | src/lib/apple-dmg/lib.rs:235-264 | right behind the data of a short chunk the reader does not find the content, whatever it is |
| `ChunkLookup.FindsExactly` | src/lib/apple-dmg/lib.rs:235-264 | for chunks in sequence with their data in the file, the reader finds the decoded content at every position if and only if each chunk decodes to exactly its sectors |
| `ChunkLookup.ShortRawChunk` | src/lib/apple-dmg/lib.rs:235-264 | a sector stored as 100 bytes for which it does not |
| `PartitionReader.MappedSize` | src/lib/apple-dmg/lib.rs:125-134 | the announced size is the size of the content |
| `PartitionReader.TotalSizeIs` | src/lib/apple-dmg/lib.rs:125-134 | each chunk adds 512 bytes per sector to the announced size, terminators nothing |
| `PartitionReader.Replay` | src/lib/apple-dmg/lib.rs:155-284 | over any run of reads and seeks the cached reader answers as a cursor on the content |
| `PartitionReader.WriteThenSeek` | src/lib/apple-dmg/lib.rs:125-284 | the seeking reader on any partition of a written image is a cursor on what was added |
| `ParallelImage.OutputOnZeros` | src/tools/gravity-setup/src/main.rs:403-433 | on zeroed sectors, what a worker copies leaves what its chunk decodes to |
| `ParallelImage.ImageWriter.Step` | src/tools/gravity-setup/src/main.rs:410-430 | one byte of one worker changes no other worker's sectors |
| `ParallelImage.ImageWriter.Run` | src/tools/gravity-setup/src/main.rs:395-439 | under any interleaving every worker finishes with its bytes in place |
| `ParallelImage.WriteImage` | src/tools/gravity-setup/src/main.rs:365-439 | for every interleaving the image is the content at the offset and zeros elsewhere |
| `ParallelImage.ImageAndReader` | src/tools/gravity-setup/src/main.rs:365-439 | byte for byte it is what the seeking reader finds |
| `ChunkCipher.OpenPrefix` | src/lib/vfdecrypt/lib.rs:237-258 | whole groups of a chunk do not depend on what follows them |
| `ChunkCipher.DecryptChunk` | src/lib/vfdecrypt/lib.rs:237-258 | the in-place loop decrypts the slice as chunk k, leaves the partial group, and touches nothing else |
| `VfDecrypt.DecryptBatch` | src/lib/vfdecrypt/lib.rs:420-423 | for any order of the workers, chunk i of the batch is decrypted as number start + i |
| `CipherForms.ChunkedSplit` | src/lib/vfdecrypt/lib.rs:375-432 | whole chunks in front can be decrypted as a batch of their own |
| `CipherForms.ChunkedGroup` | src/lib/vfdecrypt/lib.rs:237-258 | group by group: the first group of chunk i is opened after the vector of number start + i, each other whole group after the ciphertext before it, and the rest of the chunk stays as it is |
| `VfDecrypt.VfDecryptor.DecryptParallel` | src/lib/vfdecrypt/lib.rs:375-432 | the output is that of decrypting all remaining data chunk by chunk, whatever the batch size and however short the input's reads; for version 2 as many bytes as the data size leaves, else all |
| `VfDecrypt.VfDecryptor.NextChunk` | src/lib/vfdecrypt/lib.rs:440-457 | refilling the buffer changes nothing that is still to be delivered, however much the input gives |
| `VfDecrypt.VfDecryptor.Read` | src/lib/vfdecrypt/lib.rs:434-467 | a read delivers a prefix of what is undelivered, and nothing only for an empty buffer or at the end |
| `VfDecrypt.StreamAll` | src/lib/vfdecrypt/lib.rs:434-467 | reads with buffers of any sizes deliver all of it, on inputs with reads of any sizes |
| `ShortReads.SufficientReads` | src/lib/vfdecrypt/lib.rs:440-457 | reads that suffice give what full reads give |
| `ShortReads.HarmfulReads` | src/lib/vfdecrypt/lib.rs:440-457 | for all others there is a cipher for which the bytes differ |
| `ShortReads.ReadsDecide` | src/lib/vfdecrypt/lib.rs:440-457 | the streaming form gives the bytes of full reads for every cipher if and only if the reads suffice |
| `ShortReads.HalvesDoHarm` | src/lib/vfdecrypt/lib.rs:440-457 | a block of 32 bytes that comes in two reads does not suffice |
| `CipherForms.FormsAgreeFor` | src/lib/vfdecrypt/lib.rs:375-467 | for each cipher, the two forms agree if and only if the last group, if kept in part and decrypted at all, decrypts to bytes that begin with those of its ciphertext |
| `CipherForms.StreamedIsChunked` | src/lib/vfdecrypt/lib.rs:375-467 | truncating decrypted chunks and decrypting truncated chunks agree when the data ends with a whole group |
| `CipherForms.FormsDiffer` | src/lib/vfdecrypt/lib.rs:375-467 | otherwise a cipher that changes every byte changes that group |
| `CipherForms.FormsAgree` | src/lib/vfdecrypt/lib.rs:375-467 | the two forms agree for every cipher if and only if the data ends with a whole group or the input ends within it |
| `VfDecrypt.BothForms` | src/lib/vfdecrypt/lib.rs:375-467 | both forms of a version 2 image: equally many bytes always, for reads of any sizes; the same bytes under that condition when the reads suffice |
| `Scheduler.Conserved` | src/kernel/src/scheduler.rs:120-154 | over any run of the two operations no process is lost or duplicated |
| `Scheduler.MovesUp` | src/kernel/src/scheduler.rs:120-154 | a waiting process moves up by one place with every switch |
| `Scheduler.BoundedWait` | src/kernel/src/scheduler.rs:120-154 | the process at place k runs after exactly k + 1 switches and not before, whatever is added meanwhile |
| `Scheduler.SwitchIs` | src/kernel/src/scheduler.rs:124-154 | one switch place by place: the first waiting process runs, the others move up, and the one that ran waits last |
| `Scheduler.KeepsRunning` | src/kernel/src/scheduler.rs:124-154 | while nobody else waits, the running process stays current |
| `Scheduler.Scheduler.AddProcess` | src/kernel/src/scheduler.rs:120-122 | the new process waits behind all others |
| `Scheduler.Scheduler.ScheduleNext` | src/kernel/src/scheduler.rs:124-154 | nothing changes when nobody waits; otherwise the first waiting process becomes current and the one that ran, if any, waits behind the others; the returned previous context differs from the next one and is the preempted one exactly when a process was current or nobody else waits |
| `Scheduler.FirstSwitch` | src/kernel/src/scheduler.rs:124-154 | with two new processes, the first switch saves to the context of the one that has not run |
| `Leb128.UnsignedOfUleb` | src/lib/dyld/src/macho.rs:242-255 | the byte string of an unsigned encoding stands for its number, whatever follows |
| `Leb128.SignedOfSleb` | src/lib/dyld/src/macho.rs:257-274 | the same for signed encodings |
| `Leb128.Examples` | src/lib/dyld/src/macho.rs:242-274 | the examples of DWARF 5, section 7.6 |
| `Leb128.OrBits` | src/lib/dyld/src/macho.rs:248-248 | a bit of the or is set exactly if it is set in an operand |
| `Leb128.OrAdds` | src/lib/dyld/src/macho.rs:248-248 | or with a word whose low bits are clear is addition |
| `Leb128.LastSignedDigit` | src/lib/dyld/src/macho.rs:270-272 | the sign fill completes the number at every length up to ten bytes |
| `Leb128.DigitBit` | src/lib/dyld/src/macho.rs:248-248 | a shifted digit sets exactly the bits at its place modulo 64 |
| `Leb128.DecodeUleb128` | src/lib/dyld/src/macho.rs:242-255 | the cursor stops exactly behind the number and inside the buffer; the word is the number modulo 2^64 for up to ten bytes, and at every length its set bits are those of the digits at their places modulo 64 |
| `Leb128.DecodeSleb128` | src/lib/dyld/src/macho.rs:257-274 | the same for signed numbers in two's complement; from ten bytes on its set bits are those of the digits |
| `Leb128.RoundTripUnsigned` | src/lib/dyld/src/macho.rs:242-255 | every 64-bit number encoded anywhere in a buffer is decoded, and the cursor advances just past it |
| `Leb128.RoundTripSigned` | src/lib/dyld/src/macho.rs:257-274 | the same for every signed 64-bit number |

## Left out

- Cache and TLB maintenance, system registers, the commpage contents, assembly and memory ordering: page tables are plain arrays.
- `PageTables.Mmu.MapRange`: when it runs out of tables the original panics in the middle of the loop; the model returns false and says nothing about the tables then.
- The part of mmap that reads a file into the new mapping, and the other system calls.
- Compression detection and decompression of forks (`src/lib/hfsplus/lib.rs:729-1067`): forks are those for which it finds nothing.
- `BufReader` with `SeekFrom::Current` (`src/kernel/src/hfsfs.rs:94-100`): the HFS+ code seeks from the start only.
- mmap with length 0, for which the allocator promises nothing. What the heap's allocator does beyond returning aligned memory inside the heap, or none, is not modelled.
- `Mmap.LaidOutExtended`: intactness speaks of pages below 512 GiB, where there are tables; `Mmap.MmapArea.Mmap` says that the others are not mapped.
- `NodeFormat.Load`: models the nodes of the extents tree; catalog and attribute keys and records have formats of their own.
- Virtio after a timed-out request: `Virtio.VirtioBlk.ReadAt` says only that it stays pending; `BlockFile.BufReader` and the layers above are modelled on a device that answers in time.
- PCI discovery, feature negotiation and queue set-up of the block device.
- B-trees that are not well-formed (cyclic leaf links, empty nodes) and overflow records without blocks: these are preconditions.
- Bodies of catalog records beyond kind and folder id, catalog key import, volume header, path splitting and Unicode normalisation.
- The folding table itself: it is a function with the original's high-byte offsets, and folding twice is not claimed to be folding once.
- zlib, CRC-32, property list XML, AES, HMAC, 3DES and PBKDF2 bodies; header parsing and key derivation of encrypted images.
- The symbolic-link and FAT32 helpers of the image writer.
- Overflow panics of debug builds: seek arithmetic wraps as in release builds, and LEB128 shift amounts are masked to six bits.
- Images whose chunks decode to less than their sectors are covered by `PartitionReader.DmgPartitionReader.Read` but not by `PartitionReader.Replay`.
- Failing workers of the parallel image writer: the image is then incomplete and nothing is said about it.
- Mach IPC, dyld's opcode interpreters, process set-up, `vfs` devices, UART, downloads and the command line.
