# Verified model of the forensic readers

A Dafny model of the hard parts of a read-only forensic workbench: chunked, windowed or indexed readers
that must behave like a simple flat definition, whatever the chunking, the short reads, the cache or the
shape of the on-disk structures. Each reader is written the way the program writes it (classes whose
methods update their fields, loops over buffers) and proved against a definition that knows nothing of
buffers: a flat image, a list of sectors, a sparse file, one left-to-right pass, a tree recursion.

| files | what they model |
|---|---|
| `Sources.dfy` | byte sources with an arbitrary schedule of short reads, interruptions and failures |
| `LostScanPlan.dfy`, `LostScan.dfy`, `LostVolumes.dfy` | the lost-partition scanner: overlapping windows, a high-water mark, and which volumes are reported |
| `ExtentFile.dfy`, `TreeReader.dfy`, `ExtentTree.dfy`, `ExtentPrint.dfy` | ext4 extents: the sparse file, its reader, loading the extent tree, trees as they are stored |
| `SequentialRead.dfy`, `BufferSize.dfy` | reading an ext4 file from its start with buffers of any size |
| `Directory.dfy`, `DirectoryBlocks.dfy` | linear ext4 directories, printed and parsed; directories of several blocks |
| `Signatures.dfy`, `CarveSpec.dfy`, `FooterSearch.dfy`, `Carve.dfy`, `CarveFiles.dfy` | signature carving, and which files get which lengths |
| `Adler.dfy`, `EwfImage.dfy`, `EwfCache.dfy`, `EwfRecent.dfy`, `EwfReader.dfy`, `EwfMedia.dfy` | EWF chunks, the chunk cache, positioned reads and verification, and the media that chunks store |
| `EwfTables.dfy`, `EwfSections.dfy`, `EwfPrint.dfy` | EWF chunk tables and section chains, and chains as they are written |
| `ExtPath.dfy`, `ExtListing.dfy`, `ExtNames.dfy`, `ExtEntries.dfy` | EXT paths, directory listings by path, when they read what is stored, and which files that is |
| `ExportTree.dfy`, `Export.dfy` | exporting a directory tree from EXT, FAT and NTFS volumes |
| `Texts.dfy`, `TaskSteps.dfy`, `TaskTree.dfy`, `TaskNesting.dfy`, `TaskFields.dfy`, `TaskAccept.dfy`, `TaskRecord.dfy`, `ScheduledTask.dfy` | Task Scheduler XML: the parser, what it accepts, and the record it gives |
| `BookmarkTable.dfy`, `Bookmarks.dfy`, `BookmarkPrint.dfy` | Chromium bookmarks through a node table, and documents as they are written |
| `Zip.dfy` | ZIP members streamed as text segments |
| `Decimals.dfy`, `RecoveryKey.dfy` | BitLocker recovery keys |

Seven promises turned out not to hold as they are documented or expected. In each case the model keeps the
code's behaviour, gives a concrete input, and states exactly when the promise holds:

- The scanner documents a minimum chunk size of 2048 bytes. A chunk size that is not a multiple of 512 loses
  a sector of every gap that one chunk does not hold (`PlanExact`, `ScanExact`, `MisalignedChunkLosesASector`).
- A read that starts in the middle of a block of a hole may zero bytes of the extent behind the hole
  (`HoleArmExact`, `MidBlockHoleRead`). Directories and long symlinks are read into one buffer up to their end and
  are not affected (`TreeReader.LoadAll`). Regular files are read on into buffers that the library chooses
  (crates/kdft-case/src/lib.rs:16704-16709, `ReadToEnd`). Such reads put the file together on every disk exactly if
  the guard of each of them holds (`ReadsExact`). Buffers of whole blocks are enough, so with 8 KiB buffers that
  double, files on blocks of up to 4 KiB come out right (`DoublingSuits`); on blocks of 64 KiB, which are accepted,
  57,344 bytes of real data can turn into zeros (`LargeBlockRead`). Buffers of one size are right for every file
  exactly if the buffer is whole blocks, the block is whole buffers, or the buffer holds every hole that can have
  data behind it (`SizesExact`). With the bytes already passed taken off the arm is right everywhere
  (`CorrectedHoleServes`).
- A regular file whose data reaches past the end of the image is read shorter than its size, without an error
  (`ShortImageRead`). Under the guards a file comes out whole exactly if all of it is on disk (`ReadToEnd`).
- A linear directory of several blocks with checksums has a tail in each block, and the reader stops at the first
  one: entries of later blocks are dropped without an error (`SecondBlockIsDropped`). All live entries are returned
  exactly if no later block has a live record (`OnlyFirstBlock`).
- A scheduled-task component inside another one of the same kind makes the parser lose a component
  (`ParserIsRecursion`, `NestedTriggerIsLost`).
- Fields of a scheduled task are limited to 65,536 bytes, but its version is the attribute as it stands, of any
  length (`ParsedIsBounded`, `VersionIsUnbounded`).
- An EXT export that does not say it is truncated need not be complete, for two reasons. Its directory listing leaves
  out every entry whose inode does not load, and tells the progress display but not the export
  (crates/kdft-case/src/lib.rs:16623-16635), so a root with one such entry exports nothing and says nothing
  (`EntryIsOmitted`, `OmissionIsNotReported`). And directories and files are read by their paths, which lead to the
  first entry of each name (crates/ext4-vendored/src/lib.rs:462-466), so of two files of one name the first is exported
  twice and the second not at all (`SecondIsNotRead`, `SecondOfOneNameIsLost`).
  - Whatever the files hold, each directory and file is read from its own inode if and only if the path of every
    entry met leads to that entry's inode (`PathsExact`). Names that are not empty, have no slash and stand for one
    inode each are enough (`PlainIsOwned`), and among loading entries with such names nothing less is (`NamesExact`).
  - Given that, the export has exactly the stored files if it is not truncated, and it is complete for what is stored
    if and only if every entry of every directory met has an inode that loads (`WalkExt`, `StoredIsClean`).

Of what is listed, an export that does not say it is truncated has every file. The converse is exact too: without
a file limit, an export over EXT or NTFS says truncated exactly if something was skipped or a directory can be
reached in two ways (`WalkExt`, `WalkNtfs`), one over FAT exactly if something was skipped (`WalkFat`). With a
limit and nothing else in the way the export is exactly the first so many files.

What the readers share with their definitions is tied to bytes, names and files in turn: media that chunks store
(`StoredIsFlat`, `FlatIsStored`), volumes whose bytes say what they are (`ProbeExact`), complete files in a scan scope
(`FileIsRecorded`), trails of directory entries (`RowsAreFiles`, `CleanMeansFits`), task elements and their texts
(`RecordIs`, `AcceptedExactly`), and trees, chains and documents as they are written (`StoredTreeIsRead`,
`WrittenIsWalked`, `ReadPrinted`).

A source is a byte sequence with a finite plan of answers to the coming reads, after which every read delivers
all it can. A loop that ends makes finitely many reads, so a statement about all plans is a statement about
all short-read schedules. Checksums, hashes, decompressors, UTF-8 decoding, callbacks and the directory listings
of FAT and NTFS are function parameters, so statements hold for all of them. `usize` is taken to have 64 bits.

## Model

| member | source | states |
|---|---|---|
| `LostScanPlan.PlanAscending` | crates/kdft-case/src/lost_scan.rs:216-373 | for every chunk size the classified sectors ascend, so none is classified twice, and all are aligned sectors of the gap |
| `LostScanPlan.PlanCovers` | crates/kdft-case/src/lost_scan.rs:216-407 | with chunks that are multiples of 512 bytes, or one chunk for the gap, every sector of the gap is classified |
| `LostScanPlan.PlanLoses` | crates/kdft-case/src/lost_scan.rs:332-359 | with any other chunk size a definite sector is deferred by the first chunk and not re-read by the next |
| `LostScanPlan.PlanExact` | crates/kdft-case/src/lost_scan.rs:181-407 | coverage of a gap holds if and only if the chunk size suits it |
| `LostScan.ScanExact` | crates/kdft-case/src/lost_scan.rs:181-407 | on all images that cover a gap the chunked scan finds what one pass over its sectors finds, if and only if the chunk size suits the gap |
| `LostScan.MisalignedChunkLosesASector` | crates/kdft-case/src/lost_scan.rs:181-189 | 2049 bytes are accepted as a chunk size, and sector 512 of a longer gap at 0 is never classified |
| `LostScan.PlannedIsExpected` | crates/kdft-case/src/lost_scan.rs:216-408 | over a list of gaps with suitable chunks the planned candidates are those of all sectors, gap by gap |
| `LostScan.LostScanner.ReadFull` | crates/kdft-case/src/lost_scan.rs:477-488 | the buffer holds the source's bytes up to the wanted length or its end, over short and interrupted reads |
| `LostScan.LostScanner.TrySector` | crates/kdft-case/src/lost_scan.rs:342-354 | a window's candidate is offered once; the callback may move the reader, stop or fail |
| `LostScan.LostScanner.ScanSector` | crates/kdft-case/src/lost_scan.rs:301-365 | a sector is classified exactly if it is open and its window is full or final |
| `LostScan.LostScanner.ScanBuffer` | crates/kdft-case/src/lost_scan.rs:284-365 | one filled buffer yields exactly the candidates of its open, not deferred sectors, and the highest sector with a full window |
| `LostScan.LostScanner.FillChunk` | crates/kdft-case/src/lost_scan.rs:236-268 | a chunk is read with the overlap before it, over any schedule |
| `LostScan.LostScanner.Report` | crates/kdft-case/src/lost_scan.rs:375-394 | the running total grows by at most the chunk's new bytes of the gap, by all of them exactly if the chunk was filled, and never falls |
| `LostScan.LostScanner.ScanChunk` | crates/kdft-case/src/lost_scan.rs:236-406 | one chunk delivers its part of the plan and moves the high-water mark to the next open sector |
| `LostScan.LostScanner.ScanGap` | crates/kdft-case/src/lost_scan.rs:216-407 | a gap delivers its plan; on a premature end a prefix of it and fewer bytes |
| `LostScan.LostScanner.SumGaps` | crates/kdft-case/src/lost_scan.rs:193-197 | the exact total of all gaps, or none if it leaves 64 bits |
| `LostScan.LostScanner.ScanGaps` | crates/kdft-case/src/lost_scan.rs:164-411 | for every source, schedule, callback and chunk size the callback sees a prefix of the plan, all of it on completion; with suitable chunks the plan is every sector's candidate; progress is monotone, ends at the total, and stays below it on a premature end |
| `LostVolumes.ProbeExact` | crates/kdft-case/src/lost_scan.rs:420-472 | a sector is reported as ext, BitLocker, NTFS or FAT exactly if its bytes say so, in this order of precedence, and not at all exactly if they say nothing |
| `LostVolumes.ExpectedIsThere` | crates/kdft-case/src/lost_scan.rs:164-411 | one pass over all sectors finds exactly the volumes that start at a sector of a gap |
| `LostVolumes.FindVolumes` | crates/kdft-case/src/lost_scan.rs:164-411 | with suitable chunks every candidate that a scan reports is a volume that is there, and a completed scan has reported all of them |
| `ExtentFile.FindPartMeans` | crates/ext4-vendored/src/extents.rs:94-113 | the found extent is the one that holds the block; a sparse answer covers a run of blocks without initialized extent |
| `ExtentFile.ActualServes` | crates/ext4-vendored/src/extents.rs:147-171 | a read inside an extent returns the file's bytes |
| `ExtentFile.HoleSafeServes` | crates/ext4-vendored/src/extents.rs:172-182 | under the guard the hole arm returns the file's bytes |
| `ExtentFile.HoleArmExact` | crates/ext4-vendored/src/extents.rs:172-182 | on all disks the hole arm is right if and only if it does not run past the hole or no initialized extent follows |
| `TreeReaders.MidBlockHoleRead` | crates/ext4-vendored/src/extents.rs:172-182 | with 4-byte blocks, a read of 6 bytes at offset 2 of a one-block hole delivers four zeros, two of them for bytes that are data |
| `ExtentFile.CorrectedHoleServes` | crates/ext4-vendored/src/extents.rs:145-182 | with the bytes already passed taken off the hole arm is right at every position |
| `TreeReaders.TreeReader.Read` | crates/ext4-vendored/src/extents.rs:119-184 | a read delivers the sparse file's bytes whenever the guard holds, and in a hole zeros in any case; it makes progress in a hole, and in an extent unless the next byte is not on disk, and touches nothing outside the delivered range |
| `TreeReaders.TreeReader.ReadExtent` | crates/ext4-vendored/src/extents.rs:148-171 | the arm inside an extent, for every device schedule |
| `TreeReaders.TreeReader.Locate` | crates/ext4-vendored/src/extents.rs:145-166 | how much of the extent is left from the position on, and the disk offset of the file's next byte |
| `TreeReaders.TreeReader.ReadHole` | crates/ext4-vendored/src/extents.rs:172-182 | the arm in a hole always delivers zeros, as many whole blocks as the run has counted from the start of the block; under the guard they are the file's bytes |
| `TreeReaders.TreeReader.Seek` | crates/ext4-vendored/src/extents.rs:191-205 | the position moves within the file and nowhere else |
| `TreeReaders.TreeReader.LoadAll` | crates/ext4-vendored/src/lib.rs:558-568 | loading into one buffer up to the end of the file, as for directories and long symlinks, yields the whole sparse file on every device schedule |
| `TreeReaders.TreeReader.ReadToEnd` | crates/kdft-case/src/lib.rs:16704-16709 | for every device schedule and all buffers the result is what the reads put together; if their guards hold, and so with buffers of whole blocks or up to the end, it is the file, whole exactly if all of it is on disk |
| `SequentialReads.ReadsExact` | crates/ext4-vendored/src/extents.rs:119-184 | any sequence of reads from the start of a file puts the file together on every disk if and only if the guard of each read holds |
| `SequentialReads.DoublingSuits` | crates/ext4-vendored/src/parse.rs:294-298 | buffers that start with 8 KiB and double are whole blocks of 1, 2 and 4 KiB |
| `BufferSizes.SizesExact` | crates/ext4-vendored/src/extents.rs:119-184 | buffers of one size are right for every file and every run if and only if the buffer is whole blocks, the block is whole buffers, or the buffer holds every hole that can have data behind it |
| `TreeReaders.LargeBlockRead` | crates/ext4-vendored/src/extents.rs:172-182 | with 64 KiB blocks and doubling buffers a 128 KiB file with a hole in front comes out with zeros in place of the first 57,344 bytes of its data, without an error |
| `TreeReaders.ShortImageRead` | crates/kdft-case/src/lib.rs:16704-16709 | a file whose only block lies behind the end of the image comes out empty, without an error |
| `TreeReaders.TreeReader.FirstExtentLocation` | crates/ext4-vendored/src/extents.rs:62-86 | the first data extent inside the file with its place on disk; the file is zero before it, and its bytes are those on disk |
| `TreeReaders.TreeReader.FirstDataExtent` | crates/ext4-vendored/src/extents.rs:64-74 | the first initialized extent that starts inside the file, if any |
| `ExtentTrees.ExtentLoader.AddFoundExtents` | crates/ext4-vendored/src/extents.rs:208-327 | the leaf entries of the subtree are appended in order, or the first error is reported; the depth bounds the recursion |
| `ExtentTrees.CheckNode` | crates/ext4-vendored/src/extents.rs:219-277 | an accepted node has room for its header and all its entries |
| `ExtentTrees.ExtentLoader.AddLeafEntries` | crates/ext4-vendored/src/extents.rs:279-307 | the entries of a leaf are appended in order, or an entry without blocks is reported |
| `ExtentTrees.ExtentLoader.SortByPart` | crates/ext4-vendored/src/extents.rs:362-362 | the entries are sorted by logical block and none is lost or added |
| `ExtentTrees.ExtentLoader.Check` | crates/ext4-vendored/src/extents.rs:364-379 | accepts a sorted list exactly if its ranges fit 32 bits and are disjoint |
| `ExtentTrees.ExtentLoader.Load` | crates/ext4-vendored/src/extents.rs:329-382 | loading succeeds exactly if the tree is readable and its leaves are disjoint and in range, and gives the one well-formed order of them |
| `ExtentTrees.WellFormedUnique` | crates/ext4-vendored/src/extents.rs:362-379 | a bag of extents has at most one sorted disjoint order |
| `ExtentTrees.ShapeIrrelevant` | crates/ext4-vendored/src/extents.rs:94-113 | trees with the same leaves answer every block lookup alike |
| `ExtentPrinting.ExtentReadBack` | crates/ext4-vendored/src/extents.rs:281-303 | a printed extent entry, initialized or not, is read back |
| `ExtentPrinting.StoredTreeIsRead` | crates/ext4-vendored/src/extents.rs:208-327 | a tree that is stored in blocks, of any shape and depth, is read as its leaf entries from left to right |
| `ExtentPrinting.StoredTreeLoads` | crates/ext4-vendored/src/extents.rs:329-382 | what a stored tree loads to is the one well-formed order of its leaf entries |
| `ExtentPrinting.NodeAccepted` | crates/ext4-vendored/src/extents.rs:219-277 | a node is accepted exactly if it has a right header for its depth |
| `ExtentPrinting.NodeRefused` | crates/ext4-vendored/src/extents.rs:219-277 | otherwise the first thing that is wrong is reported: too short, magic, depth, number of entries, their room, checksum |
| `Directory.RecordReadBack` | crates/ext4-vendored/src/lib.rs:598-640 | a printed directory record is read back |
| `Directory.RecordPrints` | crates/ext4-vendored/src/lib.rs:598-640 | an accepted record is valid and prints to the bytes it was read from |
| `Directory.FileRecordGives` | crates/ext4-vendored/src/lib.rs:631-644 | the record of a file gives its inode, its decoded name and the type of its hint |
| `Directory.HintsMean` | crates/ext4-vendored/src/lib.rs:160-172 | each file type has one hint byte, and other bytes have no type |
| `Directory.TailBytes` | crates/ext4-vendored/src/lib.rs:646-646 | a record is the tail exactly if it starts with four zeros, length 12, no name and 0xDE |
| `Directory.PrintThenParse` | crates/ext4-vendored/src/lib.rs:570-687 | a printed directory parses to its live entries in order |
| `Directory.ParseThenPrint` | crates/ext4-vendored/src/lib.rs:570-687 | every accepted directory is the print of records that tile it to its end or to a tail with a right checksum |
| `Directory.ReadRecord` | crates/ext4-vendored/src/lib.rs:594-640 | the record at an offset or the first failing check, with the cursor after the name |
| `DirectoryBlocks.OnlyFirstBlock` | crates/ext4-vendored/src/lib.rs:645-666 | of a directory of several blocks, each with its tail, the live entries of the first are returned; they are all live entries if and only if no later block has a live record |
| `DirectoryBlocks.SecondBlockIsDropped` | crates/ext4-vendored/src/lib.rs:645-666 | an empty block before a block with one file, both with right checksums, gives an empty directory |
| `Directory.ReadDirectory` | crates/ext4-vendored/src/lib.rs:592-686 | the reader accepts exactly such directories and returns exactly their live entries; its cursor is at a record start in every round |
| `Signatures.NoContainment` | crates/kdft-case/src/carve.rs:30-71 | no signature's header occurs inside another's |
| `Signatures.FindOverlappingMeans` | crates/kdft-case/src/carve.rs:135-138 | the matcher's list is every occurrence of every header, once |
| `Signatures.FindOverlappingAscending` | crates/kdft-case/src/carve.rs:210-214 | in end order the matches are also in start order, so stopping at the first late one is right |
| `Signatures.WindowHits` | crates/kdft-case/src/carve.rs:199-214 | the searched part of a carried window yields exactly the header hits of that part of the image |
| `CarveSpec.NothingNested` | crates/kdft-case/src/carve.rs:234-241 | no entry starts inside an earlier measured file |
| `CarveSpec.EveryHeaderAccounted` | crates/kdft-case/src/carve.rs:210-241 | every header of the scope is carved or lies inside a carved file or header |
| `CarveSpec.FileLimitIsPrefix` | crates/kdft-case/src/carve.rs:305-313 | a file limit yields exactly that many first entries of the unlimited list |
| `CarveSpec.LengthCoversHeader` | crates/kdft-case/src/carve.rs:228-232 | a real header always gets a length that reaches past it, so the discarding branch is never taken |
| `CarveSpec.GreedyConcat` | crates/kdft-case/src/carve.rs:185-321 | the pass over a scope is the pass over its parts one after the other |
| `FooterSearch.StreamFooterSearch` | crates/kdft-case/src/carve.rs:542-598 | for every schedule the end of the least position where footer and trailing bytes fit, and none exactly if there is none |
| `FooterSearch.SearchWindow` | crates/kdft-case/src/carve.rs:573-588 | the least position of a window where footer and trailing bytes fit |
| `FooterSearch.ReadMore` | crates/kdft-case/src/carve.rs:562-571 | one short read continues the delivered bytes |
| `FooterSearch.SearchRead` | crates/kdft-case/src/carve.rs:568-591 | the kept tail is the last bytes of everything delivered, enough for a footer across reads |
| `FooterSearch.WindowDecides` | crates/kdft-case/src/carve.rs:573-591 | searching one window decides the search in all delivered bytes |
| `Carve.CarveLength` | crates/kdft-case/src/carve.rs:428-540 | a carved length depends on the bytes of the scope only, not on short reads |
| `Carve.ReadUpTo` | crates/kdft-case/src/carve.rs:519-528 | over short reads all bytes up to the wanted number or the source's end are read |
| `Carve.Carver.TryCarve` | crates/kdft-case/src/carve.rs:215-304 | one header match is one step of the pass |
| `Carve.Carver.ScanWindow` | crates/kdft-case/src/carve.rs:210-314 | one window is the pass over the hits of its searched part, or its beginning up to the file limit |
| `Carve.Carver.ReadChunk` | crates/kdft-case/src/carve.rs:186-197 | a chunk is the scope's next bytes, and empty only at the end of a short source |
| `Carve.Carver.NextChunk` | crates/kdft-case/src/carve.rs:186-320 | a round leaves everything before the carried overlap considered exactly once |
| `Carve.Carver.ScanAll` | crates/kdft-case/src/carve.rs:185-321 | the loop yields the list, or a beginning of it if the source is short |
| `Carve.Carver.Run` | crates/kdft-case/src/carve.rs:174-330 | for every chunking and schedule that delivers the scope the entries are one greedy pass; the job is marked truncated exactly if the source was short, a limit was met or the scope left out part of the image; otherwise it is the unlimited list |
| `CarveFiles.MeasuredExact` | crates/kdft-case/src/carve.rs:443-479 | a JPEG, PNG, GIF or PDF is measured exactly if it is complete, and then up to its first end mark and, for PNG, four bytes more |
| `CarveFiles.FoundExact` | crates/kdft-case/src/carve.rs:542-598 | the search gives the end of the first end mark that has its bytes behind it, and nothing else |
| `CarveFiles.BitmapLength` | crates/kdft-case/src/carve.rs:481-519 | a bitmap is carved at the size it declares, if that lies in the scope, and else up to the end of the scope, not verified |
| `CarveFiles.LimitedLength` | crates/kdft-case/src/carve.rs:521-539 | ZIP, GZIP and RAR files get the protective limit or what the scope still has |
| `CarveFiles.FileIsRecorded` | crates/kdft-case/src/carve.rs:185-321 | without a file limit every complete file anywhere in the scope is recorded at exactly its length, or lies inside an earlier entry |
| `CarveFiles.RunRecords` | crates/kdft-case/src/carve.rs:174-330 | every run of such a job records all of them so |
| `Adler.Adler32` | crates/ewf-vendored/src/reader.rs:632-645 | the words stay within 32 bits and the result is the bytewise sum of sections 2.2 and 9 of RFC 1950 |
| `Adler.ClosedForm` | crates/ewf-vendored/src/reader.rs:632-650 | the checksum is one more than the sum of the bytes, and the length with the weighted sum, each modulo 65521 |
| `Adler.BlockIsLargest` | crates/ewf-vendored/src/reader.rs:636-636 | 5552 bytes always fit, and one more could overflow |
| `Adler.WorstCaseIsReached` | crates/ewf-vendored/src/reader.rs:636-640 | the bound is met by a block of 255s |
| `EwfReaders.ValidateChunkLayout` | crates/ewf-vendored/src/reader.rs:681-766 | accepts exactly the valid layouts |
| `EwfImage.FlatIsPages` | crates/ewf-vendored/src/reader.rs:1769-1863 | the flat image is all decoded pages one after the other, cut at the media size |
| `EwfImage.OffsetHasChunk` | crates/ewf-vendored/src/reader.rs:1778-1779 | an offset inside the media has a chunk |
| `EwfImage.ChunkInside` | crates/ewf-vendored/src/reader.rs:1801-1812 | chunk bounds stay within 64 bits and the media, so the overflow errors of a read cannot occur |
| `EwfImage.OnlyContentFails` | crates/ewf-vendored/src/reader.rs:1651-1757 | in a valid layout decoding a chunk fails only for its content |
| `EwfMedia.HeldIsDecoded` | crates/ewf-vendored/src/reader.rs:1651-1757 | a chunk decodes to the data it holds with zeros behind: raw bytes, the pattern over and over, or what the codec gives |
| `EwfMedia.DecodedIsHeld` | crates/ewf-vendored/src/reader.rs:1651-1757 | a chunk that decodes holds data of the needed length, and the right checksum if it carries one |
| `EwfMedia.WrongChecksumIsRefused` | crates/ewf-vendored/src/reader.rs:1724-1745 | a raw chunk with another checksum than that of its data is refused |
| `EwfMedia.StoredIsFlat` | crates/ewf-vendored/src/reader.rs:1651-1757 | an image that stores given media in chunks of any size and kind reads as that media |
| `EwfMedia.FlatIsStored` | crates/ewf-vendored/src/reader.rs:1651-1757 | a valid image whose chunks all decode stores exactly what it reads as |
| `EwfMedia.RawImageIsValid` | crates/ewf-vendored/src/reader.rs:681-766 | an image that stores its media in just enough raw chunks passes the validation |
| `EwfMedia.BadChunkIsRefused` | crates/ewf-vendored/src/reader.rs:681-766 | a chunk that stores nothing, too much, or bytes that its segment does not have makes the image invalid |
| `EwfMedia.ReadStored` | crates/ewf-vendored/src/reader.rs:1769-1863 | a positioned read delivers the stored media from its offset on, whatever the cache holds |
| `EwfMedia.VerifyStored` | crates/ewf-vendored/src/reader.rs:1557-1615 | verification hashes the stored media |
| `EwfReaders.DecodeCompressedChunk` | crates/ewf-vendored/src/reader.rs:647-679 | over short reads of the decompressor the page is its output, padded, and too long or too short output is refused |
| `EwfReaders.EwfReader.DecompressChunk` | crates/ewf-vendored/src/reader.rs:1651-1757 | the decoded page depends on the chunk's id alone |
| `EwfReaders.EwfReader.ReadChunk` | crates/ewf-vendored/src/reader.rs:1621-1643 | with or without a cache hit the answer is the decoded page, and the cache stays coherent and bounded |
| `EwfReaders.EwfReader.ReadSerial` | crates/ewf-vendored/src/reader.rs:1831-1862 | the serial path fills the buffer from the flat image |
| `EwfReaders.EwfReader.ReadParallel` | crates/ewf-vendored/src/reader.rs:1795-1828 | the parallel path, decoding in any order, fills the same bytes |
| `EwfReaders.EwfReader.CopyPages` | crates/ewf-vendored/src/reader.rs:1802-1827 | the pages of a read's chunks, copied piece by piece, are the flat image |
| `EwfReaders.EwfReader.ReadFromRun` | crates/ewf-vendored/src/reader.rs:1795-1828 | the same for pages that threads got in any interleaving of their probes, decodes and inserts on one cache |
| `EwfReaders.EwfReader.DecodeAll` | crates/ewf-vendored/src/reader.rs:1798-1801 | in whatever order, all pages of a range of chunks, or the error of one of them |
| `EwfReaders.EwfReader.ReadAt` | crates/ewf-vendored/src/reader.rs:1769-1863 | a read returns as many bytes as the media still has, they are the flat image's, and it fails exactly if a chunk it touches cannot be decoded |
| `EwfReaders.EwfReader.Read` | crates/ewf-vendored/src/reader.rs:1867-1874 | the position moves by what was delivered from it |
| `EwfReaders.EwfReader.Seek` | crates/ewf-vendored/src/reader.rs:1878-1894 | the position moves anywhere in the 64-bit range and nowhere else |
| `EwfReaders.EwfReader.Verify` | crates/ewf-vendored/src/reader.rs:1557-1615 | for every batch size the hashes are those of the flat image, and it fails exactly if some chunk cannot be decoded |
| `EwfReaders.EwfReader.DecodeBatch` | crates/ewf-vendored/src/reader.rs:1576-1580 | the pages of a batch in chunk order, or the error of one of them |
| `EwfCache.EveryInterleaving` | crates/ewf-vendored/src/reader.rs:1621-1643 | under every interleaving of probes, decodes and inserts every cached page and every result is the chunk's page, and the cache stays within its capacity |
| `EwfCache.ResultIndependent` | crates/ewf-vendored/src/reader.rs:1621-1643 | a result depends neither on the schedule nor on the cache size |
| `EwfRecency.KeepsTheLatest` | crates/ewf-vendored/src/reader.rs:1617-1643 | after any requests the cache holds exactly the chunks that were used last, as many as fit, the latest first |
| `EwfTables.SelectedRangeIsUnique` | crates/ewf-vendored/src/reader.rs:248-273 | a range is selected if and only if it stands at the only position whose range holds the whole table; none holding it is an error |
| `EwfTables.ChunkTable.AbsoluteOffsets` | crates/ewf-vendored/src/reader.rs:1037-1059 | succeeds exactly for offsets that fit and strictly increase, and gives them |
| `EwfTables.ChunkTable.AppendV1Table` | crates/ewf-vendored/src/reader.rs:1036-1110 | a table's entries are appended with their stored ranges, for exactly the acceptable tables; chunks of earlier tables never change |
| `EwfTables.ChunkTable.PushEntries` | crates/ewf-vendored/src/reader.rs:1063-1089 | each push fixes the stored size of the compressed entry before it |
| `EwfTables.ChunkTable.BackFill` | crates/ewf-vendored/src/reader.rs:1091-1110 | the last compressed entry ends with its sectors range |
| `EwfTables.V1RangesDisjoint` | crates/ewf-vendored/src/reader.rs:1065-1110 | stored ranges of compressed entries are not empty, lie in the sectors range, end at the next entry or the range's end, and are disjoint |
| `EwfTables.ChunkTable.AppendEwf2Chunks` | crates/ewf-vendored/src/reader.rs:561-630 | succeeds exactly for a table that continues the numbering with well-formed entries, and appends them |
| `EwfTables.SectorChunk` | crates/ewf-vendored/src/reader.rs:586-627 | an accepted entry keeps its place and size, a pattern has eight bytes and no data, a compressed one has data and no checksum |
| `EwfTables.SectorChunkMeans` | crates/ewf-vendored/src/reader.rs:586-627 | which entries are accepted and how each is encoded; the pattern of a fill is the eight bytes of the offset field |
| `EwfSections.V1SectionDataRange` | crates/ewf-vendored/src/reader.rs:174-208 | an accepted range starts after the descriptor and ends within the segment |
| `EwfSections.V1NextDescriptorOffset` | crates/ewf-vendored/src/reader.rs:219-243 | a next descriptor always lies further on |
| `EwfSections.WalkV1` | crates/ewf-vendored/src/reader.rs:882-919 | the walk succeeds exactly if the segment has a whole chain that is short enough, and returns it; the cycle branch is never reached |
| `EwfSections.V1WholeIsWalked` | crates/ewf-vendored/src/reader.rs:887-919 | a whole chain is what the walk finds, so there is at most one |
| `EwfSections.V1ChainAscends` | crates/ewf-vendored/src/reader.rs:235-242 | the offsets of a chain strictly ascend |
| `EwfSections.CollectEwf2Descriptors` | crates/ewf-vendored/src/reader.rs:453-526 | the backward walk, whose measure is the offset and whose cycle branch is never reached |
| `EwfSections.WalkExact` | crates/ewf-vendored/src/reader.rs:453-526 | the walk succeeds exactly if the segment holds a well-formed chain, and returns that chain in file order |
| `EwfSections.SectionsDisjoint` | crates/ewf-vendored/src/reader.rs:489-520 | the [data][descriptor] ranges follow each other without overlap, start past the header and end within the file |
| `EwfPrinting.DescriptorReadBack` | crates/ewf-vendored/src/sections.rs:78-100 | a written descriptor gives its type, next offset and size |
| `EwfPrinting.WrittenIsWalked` | crates/ewf-vendored/src/reader.rs:882-919 | sections written one after the other, with a done or next section at the end, are what the walk finds, each with its data |
| `EwfPrinting.V2WrittenIsWalked` | crates/ewf-vendored/src/reader.rs:453-526 | version 2 sections written one after the other are what the backward walk finds |
| `ExportTree.EveryReachableFile` | crates/kdft-case/src/export.rs:551-766 | in a clean tree every file that any trail of entries reaches is among the exported rows |
| `ExportTree.PendingStep` | crates/kdft-case/src/export.rs:575-611 | listing one directory keeps what is exported and what is pending equal to the whole tree |
| `ExportTree.AllDirsStep` | crates/kdft-case/src/export.rs:563-608 | listing one directory keeps the listed and pending directories equal to all of them |
| `ExportTree.CostDrops` | crates/kdft-case/src/export.rs:623-683 | replacing a directory by its subdirectories lowers a cost that the depth guard bounds, on any graph |
| `ExportTree.FoundStep` | crates/kdft-case/src/export.rs:575-611 | every exported file and pending directory was reached from the start by a trail of entries |
| `ExtPaths.ResolvePath` | crates/ext4-vendored/src/lib.rs:429-475 | the search loads one directory after the other and finds what the path's components lead to, whatever the slashes around and between them |
| `ExtPaths.DirEntryNamed` | crates/ext4-vendored/src/lib.rs:462-475 | the first entry of that name in a directory that can be listed |
| `ExtPaths.ResolveChild` | crates/kdft-case/src/export.rs:582-586 | the path made for an entry leads on from its directory through the pieces of its name; a plain name is looked up in that directory |
| `ExtListings.ListDir` | crates/kdft-case/src/lib.rs:16607-16680 | the listing of the directory that a path leads to: its entries in order without self references and those whose inode does not load, each file with what reading it by its own path gives |
| `ExtListings.ReadFile` | crates/kdft-case/src/lib.rs:16683-16710 | the data of the inode that the path leads to, whatever entry the path was made from |
| `ExtNames.PathsExact` | crates/kdft-case/src/export.rs:563-609 | on a cleanly listed volume, every directory is the one its path leads to and every file is read from its own inode whatever the files hold, if and only if the path of every entry met leads to that entry's inode |
| `ExtNames.OwnedIsSame` | crates/kdft-case/src/export.rs:563-609 | then the listing by paths and the listing by inodes have the same files and directories, and are clean alike |
| `ExtNames.PlainIsOwned` | crates/ext4-vendored/src/lib.rs:462-466 | that is so if the names in all directories met are not empty, have no slash and stand for one inode each |
| `ExtNames.NamesExact` | crates/ext4-vendored/src/lib.rs:462-466 | in one directory with names that are not empty and have no slash, and whose inodes load, every path leads to its own inode if and only if each name stands for one inode |
| `ExtEntries.RowsAreFiles` | crates/kdft-case/src/lib.rs:16607-16657 | the rows of a cleanly listed volume are exactly the files that trails of entries reach, none of them named `.` or `..` |
| `ExtEntries.CleanMeansFits` | crates/kdft-case/src/export.rs:587-610 | a volume is listed cleanly exactly if all directories that trails reach can be listed, lie at most 1024 names deep, and have only files that can be read and are at most 1 GiB |
| `ExtNames.SecondIsNotRead` | crates/ext4-vendored/src/lib.rs:462-466 | a root with two files of one name is listed cleanly with the first one's data twice |
| `Export.SecondOfOneNameIsLost` | crates/kdft-case/src/export.rs:563-609 | exporting that root has the first file twice and the second not at all, without an error or a mark, although all is stored cleanly |
| `ExtListings.StoredIsClean` | crates/kdft-case/src/lib.rs:16619-16635 | of a tree that is listed cleanly, what is stored is clean if and only if all entries of all its directories load |
| `ExtListings.StoredHasSameRows` | crates/kdft-case/src/lib.rs:16619-16655 | entries that do not load are all that a listing leaves out: the files are the same |
| `ExtNames.EntryIsOmitted` | crates/kdft-case/src/lib.rs:16623-16635 | a root with one entry that does not load is listed as an empty directory |
| `Export.OmissionIsNotReported` | crates/kdft-case/src/export.rs:563-614 | exporting that root ends without a file, an error or a mark, although it is not clean |
| `Export.TreeExportSink.CreateFolders` | crates/kdft-case/src/export.rs:344-378 | the folders above a path exist afterwards |
| `Export.TreeExportSink.UniqueOutputPath` | crates/kdft-case/src/export.rs:339-405 | the first one of a path and its numbered forms that is no file and no folder yet, those made for this export included |
| `Export.TreeExportSink.WriteFile` | crates/kdft-case/src/export.rs:421-436 | a file is published under a new path, with its row and counters, or skipped as too large |
| `Export.TreeExportSink.MarkFileLimitReached` | crates/kdft-case/src/export.rs:319-322 | reaching the limit makes the export partial |
| `Export.TreeExportSink.Skip` | crates/kdft-case/src/export.rs:324-330 | a skip is counted, makes the export partial and keeps at most 100 notes |
| `Export.TreeExportSink.SkipOversized` | crates/kdft-case/src/export.rs:332-337 | an oversized file is counted as such and as a skip |
| `Export.TreeExportSink.ExportFile` | crates/kdft-case/src/export.rs:603-610 | a file is written exactly if it is small enough, readable and the write succeeds |
| `Export.TreeExportSink.ExportChild` | crates/kdft-case/src/export.rs:577-610 | an entry is written, pending or a reason to be partial |
| `Export.TreeExportSink.ExportChildren` | crates/kdft-case/src/export.rs:577-611 | unless it becomes partial, one listing's files are all written and its subdirectories all pending; it becomes partial only for a reason or at the file limit; nothing else is ever written |
| `Export.TreeExportSink.SkipDiagnostics` | crates/kdft-case/src/export.rs:721-723 | at most eight diagnostics are counted, and any makes the export partial |
| `Export.TreeExportSink.ListDirectory` | crates/kdft-case/src/export.rs:567-611 | one listed directory keeps exported and pending equal to the tree, or stops at the file limit with its first rows |
| `Export.TreeExportSink.SkipDirectory` | crates/kdft-case/src/export.rs:570-573 | a directory that cannot be listed makes the export partial |
| `Export.TreeExportSink.StopAtLimit` | crates/kdft-case/src/export.rs:563-566 | a limit that is used up ends the walk with the first rows of the tree |
| `Export.TreeExportSink.SkipRepeated` | crates/kdft-case/src/export.rs:712-717 | a record seen before makes the export partial, and in a tree there is none |
| `Export.TreeExportSink.ListExt` | crates/kdft-case/src/export.rs:563-611 | one round of the EXT walk on the listing that the directory's path gives, marking what it pushes |
| `Export.TreeExportSink.ListNtfs` | crates/kdft-case/src/export.rs:718-760 | one round of the NTFS walk does so for a record not seen before |
| `Export.TreeExportSink.WalkExt` | crates/kdft-case/src/export.rs:552-614 | ends on every volume and marks no inode twice; fails at once if the start does not resolve; if not truncated it has every file listed by path; if the names in the marked directories are plain, or all paths lead to their own inodes, that is every file that any trail of entries reaches and no other, complete if and only if all entries of those directories load; without a limit truncated exactly if something listed is not clean or a directory repeats; with one, in a tree, exactly the first so many files; every exported file was reached from the start |
| `Export.TreeExportSink.WalkNtfs` | crates/kdft-case/src/export.rs:688-762 | the same for what NTFS lists, where repetitions are met when a directory comes off the stack |
| `Export.TreeExportSink.WalkFat` | crates/kdft-case/src/export.rs:615-687 | ends by the depth guard alone; without a limit truncated exactly if the tree is not clean; with one, in a clean tree, exactly the first so many files; every exported file was reached from the start |
| `TaskSteps.SameHeight` | crates/kdft-case/src/scheduled_task.rs:47-173 | element stack and text stack have the same height after any events |
| `TaskTree.RunNode` | crates/kdft-case/src/scheduled_task.rs:42-184 | over one element the parser does what the recursion does, if no component meets its own kind |
| `TaskTree.CloseIsLeave` | crates/kdft-case/src/scheduled_task.rs:148-171 | emitting the slot opened at this depth is emitting this element's component |
| `TaskNesting.Complete` | crates/kdft-case/src/scheduled_task.rs:116-180 | a run that ends with nothing open has read a tree |
| `TaskNesting.BehindNode` | crates/kdft-case/src/scheduled_task.rs:42-184 | whatever is nested, the parser fails exactly as the recursion does and never emits more components |
| `TaskNesting.MeaningTotal` | crates/kdft-case/src/scheduled_task.rs:148-171 | of any kinds, the recursion adds as many components as an element and all within it start |
| `TaskNesting.EachEmittedOnce` | crates/kdft-case/src/scheduled_task.rs:148-171 | the recursion's record has, of each kind, one component for each that starts in the definition |
| `TaskNesting.LosesNode` | crates/kdft-case/src/scheduled_task.rs:55-72 | a component in another of its kind makes the parser emit fewer components |
| `TaskNesting.ParserIsRecursion` | crates/kdft-case/src/scheduled_task.rs:42-190 | on a tree the parser gives the recursion's record if and only if no component is nested in another of its kind (or both fail alike) |
| `TaskNesting.AcceptedStreams` | crates/kdft-case/src/scheduled_task.rs:42-190 | every accepted event stream is a tree, and its record is the tree's meaning exactly if nothing is nested |
| `TaskAcceptance.AcceptedExactly` | crates/kdft-case/src/scheduled_task.rs:42-210 | accepted are exactly the trees with a task at the top, without document types, broken markup, text outside the root, or attributes that cannot be read |
| `TaskAcceptance.LookupExact` | crates/kdft-case/src/scheduled_task.rs:220-237 | of the attributes the first one counts that has the name or cannot be read |
| `TaskRecords.RecordIs` | crates/kdft-case/src/scheduled_task.rs:42-210 | the record, element by element: the components in the order in which they end, each with the texts below it; settings and registration with the texts outside of components |
| `TaskRecords.NodeFollows` | crates/kdft-case/src/scheduled_task.rs:42-210 | for a node at any place, what it adds to the record and to the component that collects around it |
| `TaskRecords.ComponentHasText` | crates/kdft-case/src/scheduled_task.rs:115-143 | a component is emitted with every text below it, under the names below it |
| `TaskRecords.SettingIsFound` | crates/kdft-case/src/scheduled_task.rs:144-145 | a text below the settings is in the settings of the record, under the names below the settings |
| `TaskRecords.FoundUnderNames` | crates/kdft-case/src/scheduled_task.rs:260-283 | a text whose names no other text has is found under them with its trimmed value |
| `TaskRecords.KeySplits` | crates/kdft-case/src/scheduled_task.rs:260-267 | for names without dots a key splits at its dots into exactly the names below the component |
| `TaskRecords.KindMeans` | crates/kdft-case/src/scheduled_task.rs:58-79 | which elements are principals, triggers and actions |
| `TaskRecords.OwnTextParts` | crates/kdft-case/src/scheduled_task.rs:89-111 | an element's own text is all text directly in it, of every kind and in order |
| `TaskNesting.NestedTriggerIsLost` | crates/kdft-case/src/scheduled_task.rs:59-62 | a concrete definition with a trigger in a trigger whose record is not its meaning |
| `TaskFields.InsertKeeps` | crates/kdft-case/src/scheduled_task.rs:269-283 | a value a key already has changes nothing; no other key is touched |
| `TaskFields.ParsedIsBounded` | crates/kdft-case/src/scheduled_task.rs:57-287 | every field of every parsed record, apart from component types and the version, fits 65,536 bytes; the version is the attribute of the last outermost task element, so it fits exactly if that does |
| `TaskFields.VersionIsUnbounded` | crates/kdft-case/src/scheduled_task.rs:55-57 | a task with a version of any length is accepted and keeps it |
| `Texts.TruncatedIsLongest` | crates/kdft-case/src/scheduled_task.rs:285-287 | truncation keeps the longest prefix of whole characters that fits |
| `Texts.TrimExact` | crates/kdft-case/src/scheduled_task.rs:112-114 | the spaces around a text are taken off and nothing else |
| `Texts.Prefixed` | crates/kdft-case/src/scheduled_task.rs:212-218 | a name loses its prefix and its capital letters |
| `Texts.ByteLengthMeans` | crates/kdft-case/src/scheduled_task.rs:285-287 | lengths are those of the UTF-8 form |
| `ScheduledTask.TaskParser.OnStart` | crates/kdft-case/src/scheduled_task.rs:47-73 | the new parser state, for every element and attribute list |
| `ScheduledTask.TaskParser.OnEmpty` | crates/kdft-case/src/scheduled_task.rs:74-91 | empty triggers and actions are emitted at once, empty principals are not |
| `ScheduledTask.TaskParser.OnText` | crates/kdft-case/src/scheduled_task.rs:92-115 | text is gathered per element; outside the root only white space is allowed |
| `ScheduledTask.TaskParser.StoreText` | crates/kdft-case/src/scheduled_task.rs:120-147 | an element's text goes to the open action, else trigger, else principal, else registration or settings |
| `ScheduledTask.TaskParser.CloseComponents` | crates/kdft-case/src/scheduled_task.rs:148-171 | the component that started at this depth is emitted |
| `ScheduledTask.TaskParser.OnEnd` | crates/kdft-case/src/scheduled_task.rs:116-173 | the new parser state after a closing tag |
| `ScheduledTask.TaskParser.OnEvent` | crates/kdft-case/src/scheduled_task.rs:43-182 | the new parser state, or the error, for every event |
| `ScheduledTask.TaskParser.AtEnd` | crates/kdft-case/src/scheduled_task.rs:175-188 | a record only if nothing is open and a task element was seen |
| `ScheduledTask.ParseScheduledTask` | crates/kdft-case/src/scheduled_task.rs:30-189 | for every event stream the result of all steps, which on a tree is its meaning exactly without nesting |
| `BookmarkTable.FolderPathCollapses` | crates/kdft-case/src/browser_artifacts.rs:3006-3016 | a folder path is the trimmed non-empty names without adjacent repeats |
| `BookmarkTable.ReadsBack` | crates/kdft-case/src/browser_artifacts.rs:2961-2982 | a tree that the table holds is read back as its url nodes in document order with their folder paths |
| `Bookmarks.NodeSpool.InsertRoot` | crates/kdft-case/src/browser_artifacts.rs:2934-2947 | a root is a folder row without parent under the next id |
| `Bookmarks.NodeSpool.AllocateNodeId` | crates/kdft-case/src/browser_artifacts.rs:2896-2900 | every id is new to the table |
| `Bookmarks.NodeSpool.InsertNode` | crates/kdft-case/src/browser_artifacts.rs:2903-2932 | a row is added under a new id, after its parent's id |
| `Bookmarks.NodeSpool.VisitNode` | crates/kdft-case/src/browser_artifacts.rs:3189-3236 | a node and all below it take consecutive ids from its own on, though its row comes last, and no other row changes |
| `Bookmarks.NodeSpool.VisitChildren` | crates/kdft-case/src/browser_artifacts.rs:3269-3281 | the same for a children array |
| `Bookmarks.NodeSpool.VisitRoots` | crates/kdft-case/src/browser_artifacts.rs:3099-3114 | a roots object adds exactly its bookmarks, in document order |
| `Bookmarks.NodeSpool.VisitDocument` | crates/kdft-case/src/browser_artifacts.rs:3056-3070 | a document's roots members, even repeated, are all spooled in order |
| `Bookmarks.NodeSpool.ForEachBookmark` | crates/kdft-case/src/browser_artifacts.rs:2957-3027 | grouping the query's rows gives one bookmark for each url row with its ancestors' folder path |
| `Bookmarks.QueryGroups` | crates/kdft-case/src/browser_artifacts.rs:2983-3026 | the grouping loop undoes the join with the ancestors |
| `Bookmarks.SpoolAndRead` | crates/kdft-case/src/browser_artifacts.rs:2956-3114 | flattening any document and reading it back gives its url nodes in document order with their folder paths |
| `BookmarkPrinting.ItemIsRead` | crates/kdft-case/src/browser_artifacts.rs:2956-3114 | a bookmark or folder tree as the browser writes it is read back, each bookmark with its own fields and folders |
| `BookmarkPrinting.DocumentIsRead` | crates/kdft-case/src/browser_artifacts.rs:6284-6291 | the three roots are read below their labels |
| `BookmarkPrinting.ReadPrinted` | crates/kdft-case/src/browser_artifacts.rs:2956-3114 | spooling such a document and reading it back gives its bookmarks in order |
| `BookmarkPrinting.OneMember` | crates/kdft-case/src/browser_artifacts.rs:2956-3114 | a repeated member replaces the earlier value and no other |
| `Zip.StreamingStep` | crates/kdft-case/src/archive.rs:362-396 | a segment is final exactly if nothing was read after it, and index and offset continue |
| `Zip.ReadMemberChunk` | crates/kdft-case/src/archive.rs:418-439 | one read continues the member and is empty only at its end; a failure is told by its kind as corrupt, unsupported or plain |
| `Zip.HandOut` | crates/kdft-case/src/archive.rs:369-388 | a segment is published and counted, or the callback's refusal ends the member |
| `Zip.StreamStep` | crates/kdft-case/src/archive.rs:362-397 | one round hands out what was read ahead and reads on |
| `Zip.StreamTextMember` | crates/kdft-case/src/archive.rs:343-399 | for every schedule segments are consecutive, at most 64 KiB, and a beginning of the member; on success all of it with exactly the last one final; after a failed read none is final; a final one means that the end was reported |
| `Zip.StreamValidationOnly` | crates/kdft-case/src/archive.rs:401-416 | a member is read to its end and its length returned |
| `Zip.ParseMember` | crates/kdft-case/src/archive.rs:245-337 | a member is accepted only as declared, announced once and handed out completely |
| `Zip.TryParseZip` | crates/kdft-case/src/archive.rs:230-341 | on success the events are each member with all its segments, in order; readable members and a willing callback suffice for success |
| `Zip.SummaryIsConserved` | crates/kdft-case/src/archive.rs:288-338 | the counters agree with the events: members, segments and bytes of text |
| `RecoveryKey.ReadPrinted` | crates/bitlocker-decrypt/src/lib.rs:477-483 | the words of a printed key are read back |
| `RecoveryKey.PrintRead` | crates/bitlocker-decrypt/src/lib.rs:197-223 | printing the words of a key with right groups gives the key |
| `RecoveryKey.KeyErrorMeans` | crates/bitlocker-decrypt/src/lib.rs:201-221 | no error exactly if there are eight groups and each is right |
| `RecoveryKey.ValidateGroup` | crates/bitlocker-decrypt/src/lib.rs:205-217 | the first failing check of one group |
| `RecoveryKey.ValidateRecoveryKeyFormat` | crates/bitlocker-decrypt/src/lib.rs:197-223 | accepts exactly the prints of eight 16-bit words, and reports the first wrong group otherwise |

## Left out

- EwfTables.ChunkTable.AppendV1Table: does not model reading the entries and their checksum from the segment file; it starts from parsed entries.
- EwfSections.WalkV1: the descriptor's own checksum and the reserved bytes are not part of the model.
- Directory.ReadDirectory: starts from the loaded directory data; the inode flag check before it is left out.
- Export.TreeExportSink.WalkExt: loading an inode and reading its data are functions of its number; that a file's data can come out short or with zeros, as `TreeReader.ReadToEnd` states, is not carried into the walk.
- Export.TreeExportSink.WriteFile: link checks, creating folders and the atomic write rest on the operating system; for each output path they fail, as when a file stands where a folder is needed, or the file is published.
- Export.TreeExportSink.WalkNtfs: listing an NTFS directory is a parameter; what its listing leaves out without a diagnostic, such as short names of listed files, is not part of the model. The same holds for the entries that the FAT reader passes over.
- Carve.Carver.TryCarve: the head of a carved file that is stored for the content index, the case database and the metadata are left out.
- Bookmarks.NodeSpool.AllocateNodeId: ids are unbounded; the saturation of 64-bit ids and JSON that is not of the expected shape are left out.
- ScheduledTask.TaskParser.OnStart: names are character strings; invalid UTF-8 in names is left out.
- Zip.ParseMember: the choice of text members by file extension is an input.
- Segment discovery and reordering, opening files, the retry loop around positioned reads, and version 2 section parsing: file plumbing around the modelled parts.
- zlib, bzip2, MD5, SHA, CRC32C and the Aho-Corasick automaton are abstract: functions, or all occurrences in end order.
- Allocation failures, progress display, error texts and JSON output.
- `walk_inner` of the ext4 crate, the export of local folders and the closing of an export with its manifest file: they would repeat the export walks in an easier form.
