# GQ_DOS: verified models of the FAT32 driver, the console, the keyboard ring and printf

The project models four parts of the GQ_DOS kernel in Dafny and proves what they are for.

**FAT32 driver** (`src/fs/fat32.c`). The class `Fat32Driver.Fat32` keeps the driver's fields and the
block device behind it, a sequence of 512-byte sectors that every update rewrites one at a time. Its
methods follow the program's loops and buffers and are proved against functions on disks as values
(`FatTable`, `DiskImage`, `DiskOps`, `FileContents`; the loops' rounds are in `DriverSteps`). Over
these functions the project proves that the sectors refine an abstract volume, a table of masked
entries and one list of directory slots (`Volumes`, `Directory`, `Chains`), and on it the main results:

* well-formedness is kept by every run of creates and deletes: root chain and file chains are in
  range, acyclic, terminated by an end-of-chain mark and disjoint, no slot hides behind the end
  marker, and what else is allocated is accounted for cluster by cluster: contents of the remaining
  subdirectories, clusters that were dead before, and clusters that the run lost;
* a name that a run does not mention is found in the same slot and reads the same bytes afterwards,
  and no cluster inside a subdirectory changes;
* a delete cut off after any sector write leaves nothing worse than unowned clusters, precisely the
  rest of the removed chain;
* the release loop ends on every table whose links it can follow inside the table, cyclic or not, and
  clears precisely what is reachable;
* a directory walk ends exactly if no cluster comes back before a match, a free slot or the end marker
  stops it, and the driver's methods require no more than that of the root directory.

What the driver decodes and encodes is stated byte by byte, apart from the functions that the proofs
work with: where the table's entries, the clusters, the fields of the boot sector and those of a
directory slot lie (`FatTable`, `Mounting`, `SlotBytes`), how names are stored and displayed (`Names`),
and which bytes of the directory and of the first FAT create and delete change (`MediumBytes`).

Two properties fail for some inputs, and the project states exactly which. A run loses clusters, that
is, leaves clusters allocated that nothing refers to any more, if and only if one of its creates
succeeds under a name whose first byte is 0xE5 (the new slot counts as deleted, and no entry owns the
cluster) or one of its deletes hits a subdirectory whose contents occupy clusters (delete tests no
attribute but 0x0F, and frees the directory's own chain only). A create cut off between its two writes
leaves a live entry whose cluster is not marked, except under a name beginning with 0xE5.

What lies inside subdirectories enters these statements as `Contents`, a set of clusters for every
slot: the driver neither lists nor follows it, and the theorems hold for every such assignment.

**Console** (`src/kernel/console.c`). `TextConsole.Console` updates a pixel array in place. After any
stream of characters the pixels are the rendering of a screen of text (`Screens`, `Rendering`), every
cell of which reads back as its glyph, and that screen is the end of an endless transcript.

**Keyboard** (`src/kernel/kbd.c`). `KeyboardDriver.Kbd` is the driver's code; a state machine beside it
lets the interrupt handler strike between any two memory accesses of the reader.

**printf** (`src/kernel/printf.c`). `Printing.Printf` prints on the modelled console; its text equals a
recursive reading of the format string, and numbers read back as what they were.

Where the program works on bits, the model uses the arithmetic that the bits stand for (`v / 0x100 %
0x100` for `(v >> 8) & 0xFF`). Buffers on the C stack are arrays that a method allocates.

Two remarks on the program's own documentation. The README says of the keyboard that Shift is
supported; the code's table for Shift lacks backspace, tab, Enter and the letters Q to P
(`ShiftSwallowsIff`), and the model follows the code. The README's overview calls the FAT32 write path
unimplemented; the code creates and deletes files, and the model follows the code.

The FAT32 layout is that of the Microsoft FAT Specification of August 2005: section 3 (boot sector),
section 4 (table) and section 6 (directory structure and names).

## Model

| member | source | states |
|---|---|---|
| FatTable.LbaInRange | src/fs/fat32.c:37-39 | a cluster of the volume lies behind the FAT and on the medium, and the 32-bit address arithmetic does not wrap for it |
| FatTable.ClustersDisjoint | src/fs/fat32.c:37-39 | sectors of two clusters coincide exactly if cluster and sector coincide |
| FatTable.FatEntryPlace | src/fs/fat32.c:43-45 | the entry of an in-range cluster lies inside the first FAT, below the data, and within one sector |
| FatTable.FatEntriesApart | src/fs/fat32.c:43-45 | entries of different clusters do not overlap |
| FatTable.FatGetBytes | src/fs/fat32.c:41-52 | the entry of cluster c is the four bytes from 4c on of the first FAT read as one run of bytes, lowest first, without the top four bits |
| FatTable.FatSetBytes | src/fs/fat32.c:54-67 | writing an entry replaces exactly these four bytes by those of the value, lowest first |
| FatTable.LbaByProduct | src/fs/fat32.c:37-39 | cluster c begins (c - 2) clusters behind dataStart |
| FatTable.ClusterBytesAt | src/fs/fat32.c:37-39 | the bytes of a cluster are those of its consecutive sectors |
| Bytes.Le32OfBytes | src/fs/fat32.c:47-50 | a field holds n exactly as its bytes, lowest first, are those of n |
| Bytes.BytesRoundTrip | src/fs/fat32.c:47-64 | storing a 32-bit value as four bytes and assembling it again gives it back |
| FatTable.FatGetSet | src/fs/fat32.c:41-67 | array law of the FAT on raw sectors: a write is read back masked to 28 bits at its own index, and every other entry is as before |
| FatTable.FatSetFrame | src/fs/fat32.c:54-67 | a FAT write changes no byte outside its four-byte window |
| FatTable.FatViewSet | src/fs/fat32.c:54-67 | on the table as a sequence, a FAT write is one update |
| FatTable.FatViewFrame | src/fs/fat32.c:41-52 | the table depends on no sector from the data area |
| FatTable.FatSetKeepsData | src/fs/fat32.c:54-67 | a FAT write changes no data sector |
| Chains.ChainAcyclic | src/fs/fat32.c:97-115 | no cluster occurs twice in a finite chain |
| Chains.ChainUnique | src/fs/fat32.c:239-244 | a starting cluster has at most one chain |
| Chains.ChainByValues | src/fs/fat32.c:97-115 | a chain by its values: each entry holds the next cluster number, the last one a value below 2 or from 0x0FFFFFF8 on |
| Chains.ReleaseClearsReachable | src/fs/fat32.c:239-244 | the release loop ends, on cyclic tables too, and zeroes exactly the clusters reachable from its start by links inside the table |
| Chains.ReleaseChain | src/fs/fat32.c:239-244 | on a proper chain it zeroes exactly the chain, and the number of allocated entries drops by its length |
| Chains.HaltsOrRepeats | src/fs/fat32.c:96-115 | within as many steps as there are clusters a walk halts (at a given set of stops, or where the links of the table end) or comes back to a cluster |
| Chains.WalkEndsIff | src/fs/fat32.c:96-115 | such a walk halts exactly if no cluster repeats before, and then within as many steps as there are clusters |
| DirectoryWalks.FindMissIff | src/fs/fat32.c:100-112 | the scan for a name runs through exactly if no slot is an end marker or a match |
| DirectoryWalks.FreeMissIff | src/fs/fat32.c:173-181 | the scan for a slot runs through exactly if no slot is free |
| DirectoryWalks.HasEndIff | src/fs/fat32.c:143-145 | the listing of a cluster stops exactly if it holds an end marker |
| DirectoryWalks.CompletesIffHalts | src/fs/fat32.c:96-115 | there are clusters along which a lookup, a search for a slot or a listing completes exactly if the walk halts without a link out of the table |
| DirectoryWalks.WalkCompletesIff | src/fs/fat32.c:96-183 | on a table whose links stay inside, this is so exactly if no cluster comes back before a match, a free slot or the end marker stops the walk |
| DirectoryWalks.MountedCompletes | src/fs/fat32.c:96-183 | along a terminated root chain every walk completes |
| Directory.NewSlotFields | src/fs/fat32.c:193-197 | the slot written by create carries the name and is seen by scans exactly if the name does not begin with 0x00 or 0xE5 |
| Directory.NewSlotEmpty | src/fs/fat32.c:193-201 | the slot written by create describes a file of size 0 |
| Directory.NewSlotCluster | src/fs/fat32.c:198-201 | the cluster number survives its way through bytes 20, 21, 26 and 27 as lookup and delete decode it |
| SlotBytes.SizeFromBytes | src/fs/fat32.c:108 | the size of any slot is bytes 28 to 31, lowest first |
| SlotBytes.ClusterFromBytes | src/fs/fat32.c:106-107 | the cluster number of any slot is bytes 26 and 27 and, as its high half, bytes 20 and 21 |
| SlotBytes.NewSlotBytes | src/fs/fat32.c:193-201 | every byte of the slot that create writes |
| SlotBytes.ErasedBytes | src/fs/fat32.c:235-237 | delete changes byte 0 of the slot to 0xE5 and no other |
| SlotBytes.DirectoryAttribute | src/fs/fat32.c:224-237 | a subdirectory, which delete does not tell from a file, is a slot with bit 4 of its attribute byte set |
| SlotBytes.FindIsFirstMatch | src/fs/fat32.c:100-112 | the scan hits slot i exactly if it is the first one, no slot before it beginning with 0x00, whose byte 0 is neither 0x00 nor 0xE5, whose byte 11 is not 0x0F and whose first eleven bytes are the name |
| SlotBytes.FreeIsFirstReusable | src/fs/fat32.c:173-181 | the search for a slot hits the first whose byte 0 is 0x00 or 0xE5 |
| SlotBytes.ListingPositions | src/fs/fat32.c:143-152 | the listing takes the visible slots, by bytes, at increasing positions, each once |
| Directory.FindIsFirstLive | src/fs/fat32.c:100-112 | the scan hits slot i exactly if i is the first live entry of that name, live meaning in use with no end marker before it |
| Directory.FreeIsFirstFree | src/fs/fat32.c:173-181 | the search for a slot hits slot i exactly if i is the first free one |
| Directory.EntriesAreLive | src/fs/fat32.c:143-152 | the listing is the live slots, each once, in directory order |
| Directory.InsertKeepsLive | src/fs/fat32.c:166-206 | writing the first free slot keeps every slot behind an end marker an end marker and makes exactly that slot live, also when it was the end marker |
| Directory.EraseKeepsLive | src/fs/fat32.c:235-237 | erasing a live slot keeps the end-marker rule and removes exactly that slot from the live ones |
| Directory.ListingAfterInsert | src/fs/fat32.c:203-206 | create puts exactly the new entry into the listing, at the slot it took |
| Directory.ListingAfterErase | src/fs/fat32.c:235-237 | delete takes exactly the one entry out of the listing |
| Volumes.FirstFree | src/fs/fat32.c:187-191 | the allocator's choice is free and no smaller cluster from its start on is |
| Volumes.CreateKeepsInv | src/fs/fat32.c:158-211 | create keeps the volume well-formed (chains in range, finite, terminated, disjoint; nothing else allocated but the foreign set; end-marker rule), the new entry owning the one cluster |
| Volumes.CreateLeaks | src/fs/fat32.c:193-209 | under a name beginning with 0xE5 the cluster is allocated without an owner and all else is kept |
| Volumes.CreateKeepsWellFormedIff | src/fs/fat32.c:158-211 | create leaves no cluster behind if and only if the stored name does not begin with 0xE5 |
| Volumes.HalfCreatedWellFormedIff | src/fs/fat32.c:203-209 | cut off between its two writes, create leaves a well-formed volume if and only if the name begins with 0xE5 |
| Volumes.RemoveKeepsInv | src/fs/fat32.c:229-245 | after clearing the slot and releasing the first j clusters the volume is well-formed but for the rest of the chain, which is allocated and unowned |
| Volumes.RemovedIsComplete | src/fs/fat32.c:229-245 | a completed delete is the last of the partial ones and gives back as many clusters as the chain has |
| Volumes.ChainsUnique | src/fs/fat32.c:213-251 | the chains of a well-formed volume are determined by it |
| Volumes.CreateKeepsOtherNames | src/fs/fat32.c:158-211 | create changes the search result for no name but its own |
| Volumes.RemoveKeepsOtherNames | src/fs/fat32.c:213-251 | delete changes the search result for no name but the deleted one |
| Volumes.FindCreated | src/fs/fat32.c:90-211 | a file created under a fresh name is found in the slot that create took |
| Volumes.CreateThenRemove | src/fs/fat32.c:158-251 | create then delete of a fresh name restores table and listing, and the next create takes the same slot and cluster |
| DiskImage.SlotInPatched | src/fs/fat32.c:203-206 | rewriting one 32-byte window of a sector changes that slot and no other |
| DiskImage.ClusterSlotBytes | src/fs/fat32.c:98-101 | the slots of a directory cluster are the 32-byte pieces of its bytes as read in one go |
| DiskImage.WriteSlotFrame | src/fs/fat32.c:203-206 | a slot write leaves the bytes of all other clusters alone |
| DiskImage.WriteSlotKeepsFat | src/fs/fat32.c:203-206 | a slot write leaves the table alone |
| DiskImage.WriteRootSlots | src/fs/fat32.c:166-206 | over the raw sectors of a directory chain, writing slot i is updating element i of one list of slots |
| DiskImage.ReleaseRefines | src/fs/fat32.c:239-244 | on the disk as on the table: release changes no data sector and the table as Chains.Release says |
| DiskImage.ReleaseStatesOfChain | src/fs/fat32.c:239-244 | the j-th write of the release loop leaves exactly the first j clusters of the chain cleared |
| DiskOps.CreateRefines | src/fs/fat32.c:158-211 | the two sector writes of create amount to one insertion into the slot list and one allocation |
| DiskOps.RemoveRefines | src/fs/fat32.c:229-245 | the sector writes of delete amount to one erased slot and one released chain |
| DiskOps.CreateThenDelete | src/fs/fat32.c:158-251 | the same round trip on the disk |
| DiskOps.FormattedIsGood | src/fs/fat32.c:136-156 | a volume with a blank one-cluster root directory and nothing else allocated is well-formed and lists nothing: where every run may begin |
| DiskOps.CreateDiskKeeps | src/fs/fat32.c:158-211 | create keeps a disk well-formed, with the leaked cluster, if any, accounted for |
| DiskOps.InterruptedCreateIff | src/fs/fat32.c:203-209 | the disk between create's two writes is well-formed if and only if the name begins with 0xE5 |
| DiskOps.InterruptedDeleteIsSafe | src/fs/fat32.c:229-245 | after every prefix of delete's sector writes the disk is well-formed and the only unowned clusters are the not yet released rest of the removed chain |
| DiskOps.StepBalances | src/fs/fat32.c:158-251 | what an operation takes from the contents of subdirectories, or allocates without an owner, is exactly what it loses |
| DiskOps.LostIff | src/fs/fat32.c:193-245 | an operation loses clusters exactly if it is a create that succeeds under a name beginning with 0xE5 or a delete that hits a subdirectory whose contents occupy clusters |
| DiskOps.GoodIsAccounted | src/fs/fat32.c:158-251 | every well-formed disk can be accounted for without subdirectory contents, all other allocated clusters taken as dead |
| DiskOps.RunKeepsGood | src/fs/fat32.c:158-251 | after any run of creates and deletes the disk is well-formed, and allocated besides the chains are exactly the contents of the remaining subdirectories, the clusters dead before and the lost ones |
| DiskOps.RunLostIff | src/fs/fat32.c:158-251 | a run loses clusters exactly if one of its operations does |
| DiskOps.RunIsCleanIff | src/fs/fat32.c:158-251 | a run leaves no further cluster dead if and only if no create in it succeeded under a name that begins with 0xE5 and no delete in it hit a subdirectory whose contents occupy clusters |
| FileContents.ReadIsPrefix | src/fs/fat32.c:119-133 | a read delivers the bytes of the chain's clusters, concatenated and truncated to the size |
| FileContents.ReadFollowsLinks | src/fs/fat32.c:119-133 | the same along any run of links that is long enough, cyclic ones included |
| FileContents.ReadFrame | src/fs/fat32.c:119-133 | a read depends on nothing but the chain's own entries and clusters |
| FileContents.CreateKeepsContents | src/fs/fat32.c:203-209 | every live file reads the same before and after a create |
| FileContents.DeleteKeepsContents | src/fs/fat32.c:229-245 | every other live file reads the same before, during and after a delete |
| FileContents.RunKeepsView | src/fs/fat32.c:90-251 | a name that no operation of a run mentions is found in the same slot with the same bytes after the run, or again not at all |
| FileContents.RunSparesForeign | src/fs/fat32.c:158-251 | a run changes neither the entry nor the bytes of a cluster outside the root directory and its entries' chains, so what lies inside subdirectories stays as it is |
| MediumBytes.ChainByteAt | src/fs/fat32.c:119-133 | the bytes of a chain are those of its clusters, one behind the other |
| MediumBytes.RootSlotBytes | src/fs/fat32.c:96-101 | slot i of the root directory is the 32 bytes from 32i on of its chain |
| MediumBytes.CreateInBytes | src/fs/fat32.c:158-211 | after the first write of create the 32 bytes of the first free slot hold the new entry and the FAT is the same; after the second the four bytes of the least free cluster are FF FF FF 0F and the directory is the same |
| MediumBytes.DeleteInBytes | src/fs/fat32.c:229-245 | after every write of delete byte 0 of the slot is 0xE5 and no other byte of the directory changed, and exactly the clusters released so far have entry 0 |
| MediumBytes.FoundUnderEverySpelling | src/fs/fat32.c:69-78 | a file created under one spelling of a fresh name is found under every other in upper or lower case |
| DriverSteps.LookupMeans | src/fs/fat32.c:100-112 | a lookup answers with the fields of the first matching slot, by bytes, or -1 without one |
| DriverSteps.ListingInBytes | src/fs/fat32.c:143-152 | the reports of a listing are name and size, by bytes, of the visible slots in order, each once |
| DriverSteps.CutCreateIff | src/fs/fat32.c:203-209 | the device after the first of the two writes of a successful create holds a well-formed volume if and only if the name begins with 0xE5 |
| DriverSteps.OutcomesAreSteps | src/fs/fat32.c:158-251 | what the methods Create and Delete leave on the device is one step of a run |
| DriverSteps.InsideIsReadable | src/fs/fat32.c:119-133 | a chain whose links stay inside the table can be read to any size |
| DriverSteps.GoodIsDeletable | src/fs/fat32.c:239-244 | on a well-formed disk a delete meets only cluster numbers inside the table |
| CStrings.Memset | src/libc/string.c:3-7 | fills exactly the window |
| CStrings.Memcpy | src/libc/string.c:9-14 | copies exactly the window, also within one array if the windows do not overlap |
| CStrings.Memcmp | src/libc/string.c:16-24 | 0 exactly if the two windows are equal, otherwise the difference of the first two bytes that differ |
| CStrings.Strlen | src/libc/string.c:26-30 | the number of bytes before the terminator |
| CStrings.Strchr | src/libc/string.c:32-37 | the first occurrence, the terminator included, or NULL |
| Names.ShortNameInBytes | src/fs/fat32.c:69-78 | the stored form byte by byte: what precedes the first dot up to eight bytes, what follows it up to three, letters from a to z as capitals, everything else as it is, spaces behind |
| Names.CaseInsensitive | src/fs/fat32.c:6-8 | spellings that differ in the case of letters only have the same stored form |
| Names.DisplayInBytes | src/fs/fat32.c:80-88 | the displayed form byte by byte: each field up to its first space, a dot between them if the extension is not empty |
| Names.MakeShortName | src/fs/fat32.c:69-78 | fills the buffer with the stored form, also by bytes |
| Names.MakeDisplayName | src/fs/fat32.c:80-88 | fills the buffer with base, dot and extension without padding, and terminates it |
| Names.NameRoundTripIff | src/fs/fat32.c:69-88 | storing the displayed form of a stored name gives it back if and only if it is canonical |
| Names.TypedNameRoundTrip | src/fs/fat32.c:69-88 | every name without spaces survives storing, displaying and storing again |
| Names.ShortNameFirstByte | src/fs/fat32.c:69-78 | a stored name never begins with 0x00, and with 0xE5 only if the typed one does |
| Names.ListedNameFindsEntryIff | src/fs/fat32.c:90-156 | looking up the name an entry is listed under finds this entry if and only if its stored name is canonical and no live entry before it has the same |
| Mounting.ProperBootFits | src/fs/fat32.c:27-34 | the geometry computed from a proper boot sector is valid: nothing wraps, and the clusters end where the volume ends |
| Mounting.FormattedHoldsVolume | src/fs/fat32.c:19-35 | a freshly formatted medium is one that can be mounted |
| Fat32Driver.Fat32.Init | src/fs/fat32.c:19-35 | every field by its bytes of the boot sector, -1 if it cannot be read, -2 without its signature, nothing changed in either case; on a medium with a well-formed volume the driver is ready |
| Fat32Driver.Fat32.ClusterToLba | src/fs/fat32.c:37-39 | first sector of a cluster, as sum and product |
| Fat32Driver.Fat32.ReadFatEntry | src/fs/fat32.c:41-52 | the masked entry, as the four bytes from 4c on of the first FAT |
| Fat32Driver.Fat32.WriteFatEntry | src/fs/fat32.c:54-67 | one sector rewrite that replaces exactly the four bytes from 4c on of the first FAT |
| Fat32Driver.Fat32.FindEntry | src/fs/fat32.c:96-115 | the directory walk finds the first live entry of a name and its place on the disk |
| Fat32Driver.Fat32.Lookup | src/fs/fat32.c:90-117 | cluster and size of the first live entry, by the bytes of its slot, -1 without one, -3 for clusters above 16384 bytes, on every root directory where the walk completes |
| Fat32Driver.Fat32.AllocateCluster | src/fs/fat32.c:187-191 | the least free cluster |
| Fat32Driver.Fat32.BuildEntry | src/fs/fat32.c:193-201 | the 32 bytes of the new entry |
| Fat32Driver.Fat32.Create | src/fs/fat32.c:158-211 | device afterwards, every device state in between, return code, and a well-formed volume stays well-formed with the leaked cluster accounted for |
| Fat32Driver.Fat32.ReleaseChain | src/fs/fat32.c:239-244 | device afterwards and every device state in between, on every table whose walk stays inside it |
| Fat32Driver.Fat32.Delete | src/fs/fat32.c:213-251 | device afterwards, every device state in between, return code, and a well-formed volume stays well-formed |
| Fat32Driver.Fat32.DirList | src/fs/fat32.c:135-156 | the callbacks are name and size, by the bytes of the slots, of the live entries in order, each once |
| Fat32Driver.Fat32.ReadFile | src/fs/fat32.c:119-133 | the buffer's front holds the bytes read, nothing behind the last whole sector changes, and the loop ends on cyclic chains too |
| Screens.PutStaysWindow | src/kernel/console.c:76-103 | one character keeps the scrolling screen a window of an endless transcript |
| Screens.ScreenIsEndOfTranscript | src/kernel/console.c:76-109 | after any stream the screen shows exactly the last lines of its transcript, and the cursor is on the screen |
| Screens.PutAllConcat | src/kernel/console.c:105-109 | printing two texts is printing their concatenation |
| Rendering.BlankShows | src/kernel/console.c:42-49 | a framebuffer filled with the background shows a blank screen |
| Screens.PutByCode | src/kernel/console.c:76-103 | what each character does to text and cursor, by its code |
| Rendering.CellReadsBack | src/kernel/console.c:63-74 | the pixels of every cell, each in one of the two colours, read as bits, lowest leftmost, are the rows of the glyph of its character |
| Rendering.MarginIsBlank | src/kernel/console.c:42-74 | pixels right of the last column or below the last line have the background colour |
| Rendering.DrawnShows | src/kernel/console.c:63-74 | drawing a glyph changes exactly one character of the text shown |
| Rendering.MovedShows | src/kernel/console.c:51-61 | moving the pixels up drops the first line of text, for heights that are no multiple of 8 too |
| TextConsole.Console.constructor | src/kernel/console.c:26-38 | the initial screen is blank and the cursor at its corner |
| TextConsole.Console.Clear | src/kernel/console.c:42-49 | every pixel gets the colour; with the background the screen is blank |
| TextConsole.Console.CopyUp | src/kernel/console.c:54-56 | the overlapping in-place copy moves every pixel up by the shift |
| TextConsole.Console.ScrollUp | src/kernel/console.c:51-61 | the pixels show the text without its first line, and the cursor moves up |
| TextConsole.Console.DrawGlyph | src/kernel/console.c:63-74 | the pixels show the text with the character at the cursor, and the cell reads back as its glyph |
| TextConsole.Console.Putc | src/kernel/console.c:76-103 | the pixels show the screen after the character, the cell of a printable one reads back as its glyph, and the cursor stays within width/8 by height/8 |
| TextConsole.Console.Puts | src/kernel/console.c:105-109 | the same for a string: every cell reads back as its glyph |
| KeyboardDriver.ShiftSwallowsIff | src/kernel/kbd.c:12-44 | with Shift held exactly backspace, tab, the letters of the top row and Enter type nothing |
| KeyboardDriver.TypedPlain | src/kernel/kbd.c:12-28 | the rows of keys by the text they type without Shift |
| KeyboardDriver.TypedWithShift | src/kernel/kbd.c:31-44 | and with it |
| KeyboardDriver.ShiftTypesCapitals | src/kernel/kbd.c:12-44 | with Shift a letter key types its capital, or nothing in the top row, and no other key types a letter |
| KeyboardDriver.LastShiftKeyDecides | src/kernel/kbd.c:52-60 | whether Shift counts as held is decided by the last press or release of a Shift key |
| KeyboardDriver.TypedBehindShiftKey | src/kernel/kbd.c:52-71 | behind a Shift press a key types what it types with Shift, behind a release what it types without |
| KeyboardDriver.HandledQueue | src/kernel/kbd.c:52-71 | an arriving character joins the queue unless 255 are waiting |
| KeyboardDriver.PoppedQueue | src/kernel/kbd.c:82-84 | advancing the head takes the oldest character |
| KeyboardDriver.StepRefines | src/kernel/kbd.c:52-85 | with the handler running between any two memory accesses of the reader, every step is a step of a bounded queue or none |
| KeyboardDriver.FifoUnderInterleaving | src/kernel/kbd.c:52-85 | under every interleaving, delivered followed by waiting characters are exactly the accepted ones in order, and at most 255 wait |
| KeyboardDriver.Kbd.constructor | src/kernel/kbd.c:46-50 | the ring is empty |
| KeyboardDriver.Kbd.HandleScancode | src/kernel/kbd.c:52-71 | state after a scan code |
| KeyboardDriver.Kbd.HasChar | src/kernel/kbd.c:73-75 | whether a character waits |
| KeyboardDriver.Kbd.Getc | src/kernel/kbd.c:77-85 | waits while the ring is empty, then delivers the oldest character |
| Numbers.UnsignedRoundTrip | src/kernel/printf.c:8-23 | for every 64-bit value in base 10 or 16 the digits read back to it, without a leading zero, and are at most 20 |
| Numbers.DigitByText | src/kernel/printf.c:17 | the sixteen digits in either case |
| Numbers.DigitCase | src/kernel/printf.c:15-19 | all digits of a number are decimal digits or letters of the one case asked for |
| Numbers.SignByText | src/kernel/printf.c:25-34 | a minus sign in front of negative numbers and no others |
| Numbers.SignedRoundTrip | src/kernel/printf.c:25-34 | for every signed 64-bit value the text reads back to it, the least value included |
| Printing.CollectDigits | src/kernel/printf.c:15-19 | the buffer holds the digits, last one first, and at most 20 of its 32 bytes are used |
| Printing.DrainDigits | src/kernel/printf.c:20-22 | the buffer is printed backwards |
| Printing.PrintUnsigned | src/kernel/printf.c:8-23 | exactly the digits reach the console |
| Printing.PrintSigned | src/kernel/printf.c:25-34 | exactly the signed text reaches the console, without signed overflow |
| Printing.FormatOfPlain | src/kernel/printf.c:40-44 | text without percent signs stands for itself |
| Printing.SignedReadsBack | src/kernel/printf.c:63-67 | what %ld and %d print reads back as the argument |
| Printing.SignedArgument | src/kernel/printf.c:63-67 | the arguments of %d and %ld are the two's complement numbers in the low 32 and in all 64 bits of the word |
| Printing.UnsignedReadsBack | src/kernel/printf.c:68-78 | what %u, %x and %X print, with or without l, reads back as the low 32 or all 64 bits |
| Printing.CaseOfConversions | src/kernel/printf.c:68-78 | %x prints small letters, %X capitals, %u digits alone |
| Printing.PointerAndChar | src/kernel/printf.c:52-82 | %p is 0x and the 64-bit hexadecimal number, %i is %d, %c is its byte |
| Printing.TextAndPlain | src/kernel/printf.c:49-88 | %s is its string or (null), %% a percent sign, an unknown directive itself |
| Printing.FormatOfDirective | src/kernel/printf.c:45-88 | a directive is a percent sign, length modifiers l and a conversion; exactly c, d, i, u, x, X, p and s take the next argument |
| Printing.FormatOfCutDirective | src/kernel/printf.c:45-48 | a format that ends within a directive prints nothing for it |
| Printing.Printf | src/kernel/printf.c:36-92 | exactly the text that the recursive reading of the format denotes reaches the console, and the format string is read up to its terminator only |

## Left out

- Fat32Driver.Fat32.Create: requires a free cluster inside the table when a slot is free; the allocator's loop is bounded by 0x0FFFFFF0 instead of the table, so that without one it would search sectors behind the table, and its return code -4 cannot occur in the model.
- Fat32Driver.Fat32.Lookup: requires that its walk along the root directory completes, like Create, Delete and DirList; when that is so is the subject of DirectoryWalks.WalkCompletesIff.
- Chains.ReleaseClearsReachable: a link to a cluster number behind the end of the table ends the loop of the model; the driver would follow it to sectors behind the table.
- Chains.WalkEndsIff: counts such a link as a halt; DirectoryWalks.CompletesIffHalts excludes it.
- Fat32Driver.Fat32.Delete: requires that the released chain meets only cluster numbers inside the table, and so does ReadFile for the part of the chain that it reads; a wild link would address sectors outside the volume.
- Fat32Driver.Fat32.Init: does not decide whether the geometry it reads fits the medium, as the driver does not; the number of clusters and the chain of the root directory are ghost arguments, and the other methods require 512-byte sectors and a volume that fits.
- Fat32Driver.Fat32.ReadFile: that no foreign sector is read is stated as independence of the result from all other sectors, not as a log of reads.
- TextConsole.Console.constructor: models console_init for 32 bits per pixel and a framebuffer of at least 8 by 8 pixels; the rejection of other depths and the composition of colours from shifts are not modelled.
- KeyboardDriver.Kbd.Getc: takes the scan codes that arrive while it waits as an argument; interrupts during the rest of the call are covered by the steps of KeyboardDriver.StepRefines.
- Printing.Printf: requires enough arguments of the right kinds, which C leaves undefined otherwise; an argument is a 64-bit word, a string or NULL.
- Device errors, timing and the ATA protocol: apart from the first read of the boot sector, a read or write of a sector always succeeds, and a sector write is atomic.
- The second copy of the FAT and the FSInfo sector, which the driver does not update.
- The structure of subdirectory contents, and long names: directories in the root are entries like others, and which clusters their contents occupy is given as a set for each slot, not derived from the bytes of the directory.
- A poll that is itself interrupted inside the scan code handler.
- The font: any table of 128 glyphs of 8 rows whose space is blank.
- The shell, interrupt and timer set-up, serial port and boot code.
