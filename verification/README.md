# Verified models of a RISC-V teaching operating system

Nine parts of the kernel and of its machine-mode monitor, each as a Dafny model of the C code together with
proofs of what the part is for. Code that changes things step by step is a method over arrays, fields or linked
nodes, and is proved equal to a function of the old state; the laws are proved about those functions, over all
inputs or all runs.

| part | files |
|---|---|
| Kernel heap, `src/kmalloc.c` | `HeapModel`, `HeapLaws` (values and laws), `BlockList`, `KernelHeap` (linked lists) |
| Byte layer, `src/block.c` | `Block` |
| Minix 3 files, `src/minix3.c` | `MinixLayout` (the zone tree), `MinixMap` (the block map), `MinixZone`, `MinixInode`, `MinixRead`, `MinixWrite`, `MinixFile` (laws) |
| Split virtqueue, `src/virtio.c` | `Virtqueue`, `VirtqueueLaws` (protocol), `Virtio` (the driver) |
| Sv39 page tables, `src/mmu.c` | `PageTables` (fields and meaning), `TableTrees` (one write), `PageRanges`, `MissingTables` (pages a mapping uses), `Sv39` (the machine's own walk), `Mmu` (the methods) |
| Hart start and stop, `sbi/src/hart.c`, `sbi/src/lock.c` | `Harts` (micro-steps and invariant), `HartLaws` |
| Page allocator, `src/page.c` | `PageRuns` (runs), `PageAlloc` (packed bits) |
| Circle, `src/gpu.c` | `Circle` |
| Formatted output, `src/printf.c` | `Format` (the text), `FormatLaws` (reading back), `FormatSpecs` (specifiers), `FormatShapes` (what each conversion prints), `Printf` (the code) |

`Arith` holds a few facts about division, `Sequences` lengths and concatenation, `Words` the sizes of machine words,
`Options` the optional values. `dafny verify dfyconfig.toml` checks everything.

## What the results say

**Files.** A file is ten zone numbers: seven direct zones and three trees. `MinixRead.GetData` fills the buffer with
exactly the bytes of the flat file in the range, whichever levels the range starts and ends in; `MinixWrite.PutData`
changes exactly the range and no byte of the disk outside the data zones of the file. Both are also told without the
trees, by the block map of `MinixMap`: byte o of a file is byte o mod s of the block whose number is found from
`o/s` by quotients and remainders and the little-endian words at literal places of the disk. The two number the
zones differently: a read counts the holes of the single indirect block (`src/minix3.c:737-741`), a write skips them
(`src/minix3.c:976`). `MinixFile.ReadBackIffDense` gives the exact condition: every one-byte write inside the file
is read back if and only if no hole of the zone list comes before a zone; `MinixFile.HoleIsNotReadBack` gives, for
every file that is not dense, a write that is lost to the reader, and `MinixFile.FileWithHole` such a file.
`MinixFile.PutThenGetData` makes the two calls one after the other: in a dense file any range read after a write is
that of the file with the data laid over it. The inode read last is kept in memory and a write of an inode does not
refresh it: `MinixInode.SeenAfterPutIff` says that what was written is seen exactly when another inode is kept or
what is kept is what was written; `MinixInode.PutTwiceThenGet` writes a record twice and still sees the old one.
Below, `BlockIo.AddrExactIff` says exactly which byte requests touch the addresses they name, and `BlockIo.ReadBack`
that even the others return what was written.

**Heap.** Used and free blocks tile the arena up to `top` after every sequence of calls; a request fails exactly
when no unused run of the rounded size is left (below the top, when descriptors have run out); `kfree` of what
`kmalloc` returned gives back the live blocks and the maximal unused runs. What is handed out is the lowest place
there is, and no larger than the rounded size unless it is a whole free block that could not be split or was not
worth it.

**Virtqueue.** In every run of sends, completions in order and receives, what has been received is a prefix of what
has been sent, across the wrap of the ring and of the 16-bit indices, flags included but for NEXT, which the driver
sets itself. `VirtqueueLaws.SendOverwritesIff` shows that the caller's condition, outstanding descriptors plus the
new chain within the queue size, is exact for every chain.

**Page tables.** Mapping a page changes the translation of that page's addresses and of no other, even when tables
are created on the way or run out; it succeeds exactly when the missing tables can be had, and the entry of every
address of the page is then the page number, the bits asked for and bit 0. A range is mapped byte for byte, and to
its end exactly when there are pages for all the tables the whole range is short of; it uses up just that many; it
ends at the least multiple of the page size that reaches the end asked for. The machine's own walk comes to the same
addresses except for leaves it does not accept: `Mmu.Map` makes one exactly when the page is to be writable but not
readable, or the physical address lies beyond the first 4 KiB of its page of the level (`Sv39.LeafAlignedIff`);
`Mmu.MapRange`, which aligns its start, makes none of the second kind. Level 0 never holds a branch, which is why
the translation loop, whose unsigned counter never fails its test, ends.

**Harts.** For any number of harts and any interleaving: one hart at a time behind each lock, no lost wake-up, the
status only goes round STOPPED, STARTING, STARTED, one `true` for each start, and every boot with the three
parameters of one call. A call that nobody disturbs is served: `HartLaws.StartIsServed`, `HartLaws.StartIsRefused`,
`HartLaws.StopIsServedIff` and `HartLaws.WakeUpIsAnswered` give the whole state after it, for every state before.

**Pages.** The packed bits encode one set of runs. `page_nalloc` takes the lowest run or there is none; `page_free`
leaves bits that encode runs exactly when the page was free or the first of its run.

**Output.** `snprintf` returns the length of the whole text and leaves what fits, closed by a NUL. The laws go from
the format string to what a reader like `strtol` makes of the text. `FormatSpecs.PrintedReadsBackIff` and
`FormatSpecs.ArgumentReadsBackIff` say exactly when an integer field reads back, for all bases, flags, widths and
precisions. It need not: zeros that fill the 32 characters of the conversion buffer push the sign out, base 2 has
longer values than that, and the `#` flag writes its prefix over digits of a number just as wide as its field
(`FormatLaws.DigitsLostToPrefix`). `FormatSpecs.PrintedMeetsPrecisionIff` says exactly when a field has the digits
its precision asks for: a left-justified field ignores its precision (`FormatSpecs.PrintedLeftIgnoresPrecision`).
`FormatSpecs.PrintedWideIff` does the same for the width. Section 7.21.6.1 of ISO C11 knows no such conditions,
except that 0 with precision 0 has no digits; base 2 is an extension. `FormatShapes` says which characters stand
where in the text of every conversion: the side of the padding, the sign, the case of the digits, the characters of
a `%s` or `%c`.

**Circle.** Every plotted point misses the circle by at most its height, in difference of squares; all arithmetic
stays within 32 bits for radii up to 2^29; nothing is written off the screen.

## Model

| member | source | states |
|---|---|---|
| BlockIo.AddrExactIff | src/block.c:181-216 | a byte request touches exactly the addresses it names if and only if it starts on a sector boundary or stays inside one sector |
| BlockIo.AddrIs | src/block.c:181-216 | byte i of a request is sought i / 512 sectors behind the first, at place (start + i) mod 512 of that sector |
| BlockIo.RequestByte | src/block.c:181-216 | byte by byte, what any request reads and what it leaves on the disk |
| BlockIo.OtherByte | src/block.c:201-216 | a byte of the disk that no byte of the request goes to stays |
| BlockIo.BlockDevice.ReadBytes | src/block.c:181-198 | the buffer gets the bytes the request stands for, and keeps its rest |
| BlockIo.BlockDevice.WriteBytes | src/block.c:201-216 | the disk gets the data where the request stands, and every other byte of the touched sectors keeps its value |
| BlockIo.FillBuffer | src/block.c:209-212 | the copy loop overlays exactly the cells of the request and no other cell of the sector buffer |
| BlockIo.FetchedStraight | src/block.c:181-198 | a straight request reads the slice of the disk it names |
| BlockIo.StoredStraight | src/block.c:201-216 | a straight request overlays the slice of the disk it names and leaves the rest |
| BlockIo.ReadBack | src/block.c:181-216 | a write followed by a read of the same request gives back the data, wherever the request starts |
| MinixZone.ZoneSizeOkIff | src/minix3.c:419-426 | the 16-bit zone size is usable up to a shift of five, where it is 1024 to 32768, and zero beyond |
| MinixZone.GetBlocks | src/minix3.c:494-497 | whole blocks are read from their place on the disk |
| MinixZone.PutBlocks | src/minix3.c:498-501 | whole blocks are written to their place and nothing else changes |
| MinixZone.GetZone | src/minix3.c:162-178 | an accepted zone is read; the buffer is untouched for any other number |
| MinixZone.PutZone | src/minix3.c:179-192 | an accepted zone is written; the disk is untouched for any other number |
| MinixInode.DecodeEncode | src/include/minix3.h:77-87 | a record read back from its 64 bytes is the record |
| MinixInode.EncodeDecode | src/include/minix3.h:77-87 | 64 bytes are those of the record they decode to |
| MinixInode.RecordStraight | src/minix3.c:94-100 | every inode record lies inside one sector, so the byte layer serves it exactly |
| MinixInode.RecordBytes | src/minix3.c:94-100 | record i lies 64 (i - 1) bytes behind the first 2 + imap_blocks + zmap_blocks blocks, and each field at its place in it, low byte first |
| MinixInode.GetInode | src/minix3.c:562-583 | the zero record for inode 0, the kept data for the inode read last, the record at its offset for any other, which is then kept |
| MinixInode.PutInode | src/minix3.c:585-596 | the record is overlaid at its offset; inode 0 changes nothing |
| MinixInode.PutGetInode | src/minix3.c:585-596 | after one inode is written, its record on the disk is the new one and that of every other inode as before |
| MinixInode.SeenIsStoredIff | src/minix3.c:562-583 | every inode is seen as it is on the disk exactly when the one kept in memory is |
| MinixInode.SeenAfterPutIff | src/minix3.c:562-596 | an inode just written is seen as written exactly when another one is kept or what is kept is what was written, whatever is kept; memory agrees with the disk afterwards on the same condition for the inode kept, and otherwise if it did before |
| MinixInode.PutTwiceThenGet | src/minix3.c:562-596 | a record read and then written twice with another is still seen as it was, although the disk holds the other |
| MinixLayout.KeepIsPrefixIff | src/minix3.c:737-741 | the zones without holes are a prefix of the zones with holes exactly when no hole comes before a zone |
| MinixLayout.Geo.FlatAppend | src/minix3.c:675-902 | the flat bytes of two zone lists, one after the other |
| MinixMap.NumberDigits | src/minix3.c:731-735 | the four bytes of an entry are the base-256 digits of its number, least significant first |
| MinixMap.WriteZonesAreMap | src/minix3.c:903-1152 | a write visits the blocks of the block map in order, without the holes |
| MinixMap.ReadZonesAreMap | src/minix3.c:664-902 | a read visits the blocks of the block map in order; a missing one counts in the single indirect block, and only there |
| MinixMap.ZonesAreMap | src/minix3.c:664-1152 | up to the first gap the k-th zone of a read and of a write is the k-th block of the map: direct for k < 7, then by quotients and remainders through one, two and three indirect blocks |
| MinixRead.CopyBytes | src/minix3.c:675-727 | a slice is copied and the rest of the buffer stays |
| MinixRead.ReadStep | src/minix3.c:689-723 | one zone of a read: both cursors and the buffer stand for the flat bytes of one more zone |
| MinixRead.ReadDirect | src/minix3.c:679-724 | the direct level: holes are skipped without moving the cursor |
| MinixRead.ReadIndirect | src/minix3.c:728-780 | one indirect block, with holes counted or not |
| MinixRead.ReadDouble | src/minix3.c:781-839 | the double indirect level |
| MinixRead.ReadTriple | src/minix3.c:840-901 | the triple indirect level |
| MinixRead.ReadLevels | src/minix3.c:664-902 | the walk over all four levels reads the slice of the flat file, as far as the file goes |
| MinixRead.ReadByte | src/minix3.c:664-902 | byte i of block k of the flat file, as far as no block is missing, is byte i of the disk block the map gives for k |
| MinixRead.GetData | src/minix3.c:664-902 | the buffer receives exactly the bytes of the flat file, of the inode as it is seen, in the range, and keeps its rest; told by the block map: in every file byte o is byte o mod s of block o / s of those a read visits, and, as far as no block is missing, of the one the map gives |
| MinixWrite.WriteZone | src/minix3.c:922-965 | one zone of a write: read, changed in the range, written back |
| MinixWrite.WriteDirect | src/minix3.c:916-966 | the direct level of a write |
| MinixWrite.WriteIndirect | src/minix3.c:970-1022 | one indirect block of a write: holes are skipped |
| MinixWrite.WriteDouble | src/minix3.c:1023-1083 | the double indirect level of a write |
| MinixWrite.WriteTriple | src/minix3.c:1084-1151 | the triple indirect level of a write |
| MinixWrite.WriteLevels | src/minix3.c:903-1152 | the range of the flat file is the data, as far as the file goes, and no byte outside its data zones changes |
| MinixWrite.WriteByMap | src/minix3.c:903-1152 | a write puts byte o of the range at its place in the blocks of the map without the holes, and changes no other byte of the disk |
| MinixWrite.PutData | src/minix3.c:903-1152 | the same for the file of an inode, told by the flat file and by the block map |
| MinixFile.WriteZonesKeepReadZones | src/minix3.c:664-1152 | a write visits the zones a read visits, without the holes |
| MinixFile.SameZonesIffDense | src/minix3.c:664-1152 | reads and writes number the zones alike exactly when the file is dense |
| MinixFile.TreeUnchanged | src/minix3.c:903-1152 | a write leaves every indirect block, and so the zone list, as it was |
| MinixFile.PutThenGet | src/minix3.c:664-1152 | a write that fits a dense file overlays the range in the flat file that reads go by |
| MinixFile.WritableIsReadable | src/minix3.c:664-1152 | a file that meets what a write asks meets what a read asks |
| MinixFile.WritableUnchanged | src/minix3.c:903-1152 | a file still meets it after a write |
| MinixFile.DenseStartReadable | src/minix3.c:664-902 | in a dense file a range that starts within the data, or at its end, starts in no hole |
| MinixFile.PutThenGetData | src/minix3.c:664-1152 | a call of put and then one of get, on the inode as it is seen: the buffer receives the range of the file with the data laid over it |
| MinixFile.PutThenGetInode | src/minix3.c:664-1152 | the record of the inode on the disk, if it is in no data zone of the file, is left alone by the write and leads to the overlay |
| MinixFile.HoleIsNotReadBack | src/minix3.c:737-741 | every file that is not dense, on any volume, has a one-byte write that a read does not give back |
| MinixFile.FileWithHole | src/minix3.c:737-741 | a file of one indirect block that can be written and is not dense |
| MinixFile.ReadBackIffDense | src/minix3.c:664-1152 | every one-byte write inside the file is read back if and only if the file is dense |
| HeapModel.RoundUpIsLeastMultiple | src/kmalloc.c:141-146 | the rounded size is the least multiple of the alignment that is large enough |
| HeapModel.ReleaseKeeps | src/kmalloc.c:35-92 | putting a block back and merging keeps the tiling, the order and the count of descriptors |
| HeapLaws.AllocKeepsInv | src/kmalloc.c:141-194 | every allocation of a non-zero size keeps the invariant: the blocks tile the arena up to the top, aligned, free ones in order and apart, descriptors accounted for |
| HeapLaws.AllocKeepsInvIff | src/kmalloc.c:141-194 | a request of any size, zero included, keeps the invariant exactly when it is not zero, is refused, or is handed a whole block |
| HeapLaws.FreeKeepsInv | src/kmalloc.c:119-139 | so does every free, of any address |
| HeapLaws.EveryRunKeepsInv | src/kmalloc.c:35-240 | the invariant holds after every sequence of non-zero allocations and frees |
| HeapLaws.AllocIsSound | src/kmalloc.c:141-194 | a block handed out is aligned, large enough, and was unused; a failed request changes nothing |
| HeapLaws.AllocIsTight | src/kmalloc.c:141-194 | it has the rounded size, unless it is a whole free block for whose rest there is no descriptor or that exceeds the size by less than the threshold |
| HeapLaws.AllocIsLowest | src/kmalloc.c:141-194 | no unused run of the rounded size starts below it |
| HeapLaws.AllocFailsIff | src/kmalloc.c:141-194 | a request fails if and only if no unused run of the rounded size is left (below the top, when descriptors have run out); one of zero bytes, if and only if there is neither a free block nor a blank descriptor |
| HeapLaws.RunsAreMaximal | src/kmalloc.c:69-92 | the free list and the untouched tail are the maximal unused runs |
| HeapLaws.CanonicalUnique | src/kmalloc.c:69-92 | the unused addresses determine that list of runs |
| HeapLaws.MallocThenFree | src/kmalloc.c:119-194 | freeing what was allocated, in a non-zero size, restores the live blocks and the maximal unused runs |
| HeapLaws.FreeExact | src/kmalloc.c:119-139 | a free removes exactly the block at the address, and nothing for any other address |
| KernelHeap.KHeap.constructor | src/kmalloc.c:95-117 | all descriptors are blank, nothing is free or used |
| KernelHeap.KHeap.InsertBlock | src/kmalloc.c:35-53 | the block is linked in at its place in address order |
| KernelHeap.KHeap.ReleaseBlocks | src/kmalloc.c:56-67 | the descriptors between two nodes go to the blank list, cleared |
| KernelHeap.KHeap.Compact | src/kmalloc.c:69-92 | every run of adjacent free blocks becomes one block |
| KernelHeap.KHeap.Free | src/kmalloc.c:119-139 | the relinking does what the value model says, and reports whether a block was found |
| KernelHeap.KHeap.AllocBlock | src/kmalloc.c:141-194 | the relinking does what the value model says, for every request that does not wrap |
| KernelHeap.KHeap.Kmalloc | src/kmalloc.c:141-194 | success gives an unused range that is large enough, of the rounded size unless it could not be split or was not worth it, at the lowest address there is; failure happens exactly when there is none |
| KernelHeap.KHeap.HeapCheck | src/kmalloc.c:216-240 | the source's own check always succeeds |
| Virtqueue.SlotOfWord | src/virtio.c:653-655 | the ring slot is the same whether the free-running index is kept in 16 bits or not |
| Virtqueue.LinkedFields | src/virtio.c:632-651 | a stored descriptor keeps address, length and every flag but NEXT; NEXT is bit 0, set on all but the last, and `next` is then the following slot |
| VirtqueueLaws.StoreChainKeeps | src/virtio.c:632-651 | a chain that fits writes no slot of a chain in flight |
| VirtqueueLaws.SendKeepsInv | src/virtio.c:607-664 | a send keeps the chains in flight in the table, linked and reported |
| VirtqueueLaws.ReceiveWalk | src/virtio.c:684-712 | something can be received exactly when a chain is completed and not read, and then the walk over NEXT ends after exactly that chain |
| VirtqueueLaws.InitInv | src/virtio.c:453-472 | a queue whose size divides the range of the indices starts with the invariant, whatever the memory holds |
| VirtqueueLaws.EveryRunKeepsInv | src/virtio.c:607-713 | the invariant holds after every run of sends, completions and receives |
| VirtqueueLaws.ReceivedIsPrefixOfSent | src/virtio.c:607-713 | what has been received is, in order, what has been sent: same addresses, lengths and flags, except that NEXT is set on all but the last |
| VirtqueueLaws.SendOverwritesIff | src/virtio.c:632-657 | a chain of any length takes a slot of a chain in flight or one of its own if and only if the outstanding descriptors and its own exceed the table |
| Virtio.ChainStored | src/virtio.c:632-651 | after the loop the slots from the head on hold the chain, linked, with its flags kept but for NEXT, as far as it has not overwritten itself, and all others what they held |
| Virtio.VirtioQueue.SendDescriptorChain | src/virtio.c:607-664 | the loop and the index updates do one send of the protocol: the chain is in the table with its flags, the head is in the ring slot of the old index, and the two indices have moved by one and by the length |
| Virtio.VirtioQueue.ReceiveDescriptorChain | src/virtio.c:671-713 | the walk copies the reported chain, moves the cursor by one and leaves the rest of the buffer; with nothing reported it gives 0 and moves nothing |
| Virtio.VirtioQueue.HasReceivedDescriptor | src/virtio.c:725-731 | true exactly when the device's index is not the driver's |
| PageTables.AddressFields | src/mmu.c:57-58 | the low 39 bits of an address are its three indices and the offset |
| PageTables.SamePageIff | src/mmu.c:57-86 | two addresses are in one page exactly if they take the same entries down to its level |
| PageTables.BranchTarget | src/mmu.c:80-85 | a branch entry leads back to the table it was made for, and is no leaf |
| PageTables.LeafTarget | src/mmu.c:88-96 | the packed leaf entry is valid, is a leaf, and holds the physical page number |
| PageTables.LeafIs | src/mmu.c:88-96 | the leaf entry is the 44 bits of the page number, ten places up, then the bits asked for with bit 0 set |
| PageTables.LeafResolves | src/mmu.c:168-179 | a leaf gives the aligned base plus the offset in its page |
| TableTrees.OnePath | src/mmu.c:66-86 | two walks that come to one table have taken the same entries |
| TableTrees.WriteLeaf | src/mmu.c:88-96 | writing a leaf maps its pages and leaves the walk of every other address as it was |
| TableTrees.HangTable | src/mmu.c:69-86 | creating a table below an invalid entry changes no walk |
| Mmu.Mmu.MapPath | src/mmu.c:55-102 | the walk that creates tables ends in the leaf, or changes no translation when pages run out |
| Mmu.Mmu.Map | src/mmu.c:46-102 | succeeds exactly when the arguments are good and the missing tables can be had; then every address of the page finds the page number, the bits asked for and bit 0, that page translates to the aligned base plus offset and every other address as before; otherwise every address as before; the machine translates the page as asked exactly when the leaf is aligned and readable if writable, and every other address as before |
| Mmu.Mmu.Translate | src/mmu.c:125-179 | ends, and gives the translation of the tree, or all ones when there is no tree or no leaf |
| PageRanges.PageOfRange | src/mmu.c:206-216 | the page at offset i of a range is the page of the addresses at distances i to i plus its size, around the 39-bit wrap |
| PageRanges.MappedStep | src/mmu.c:206-216 | mapping the next page extends the mapped part of the range by a page |
| PageRanges.RangeBytesReach | src/mmu.c:193-195 | the range, from its aligned start, ends at the least multiple of the page size that reaches its end |
| MissingTables.ReachAbove | src/mmu.c:88-96 | a write to a table changes no table of its level or above |
| MissingTables.HangReach | src/mmu.c:69-86 | a new table is reached by exactly the paths through its entry, and every other table where it was |
| MissingTables.MissingCount | src/mmu.c:66-86 | the tables missing on a path are as many as the walk creates |
| MissingTables.MissingStep | src/mmu.c:206-216 | mapping a page of a range takes the tables of its path, and no other, from what the rest of the range is short of |
| Sv39.WalkIsLookup | src/mmu.c:125-179 | where the tables are linked as `mmu_map` links them, the walk of the machine ends at the leaf this walk ends at, or faults because that leaf is reserved or misaligned |
| Sv39.MachineIs | src/mmu.c:125-179 | on canonical addresses the translation of the machine is that of `mmu_translate`, except for the leaves it does not accept |
| Sv39.BranchIsClean | src/mmu.c:80-85 | a branch that is written has no reserved bit |
| Sv39.LeafReservedIff | src/mmu.c:88-96 | a leaf that is written is reserved exactly when it is writable and not readable |
| Sv39.LeafAlignedIff | src/mmu.c:88-96 | a leaf that is written is aligned for its level exactly when the physical address lies in the first 4 KiB of its page of the level |
| Sv39.RangeForMachine | src/mmu.c:186-221 | the leaves of a range from an aligned start are all aligned: the machine translates it as `mmu_translate` does |
| Sv39.RangeFlags | src/mmu.c:186-221 | every leaf of a range has the flags asked for, and bit 0 |
| Mmu.Mmu.MapRange | src/mmu.c:186-221 | gives the number of pages of the aligned range, or 0; every address from start to end then translates to the aligned physical start plus its distance from the aligned start, with the flags asked for, and the pages end at the least multiple of their size that reaches the end; all other addresses translate as before; it comes to the end exactly when there are pages for all the tables the range is short of, and uses up just those; the machine translates the range the same way |
| Harts.LockMoves | sbi/src/lock.c:13-30 | the lock passes only between nobody and the hart that moves |
| Harts.StepKeepsInv | sbi/src/hart.c:28-96 | every micro-step of every hart keeps the invariant |
| HartLaws.EveryRunKeepsInv | sbi/src/hart.c:28-96 | the invariant holds after every schedule |
| HartLaws.MutualExclusion | sbi/src/lock.c:13-30 | at most one hart is in the code behind a lock, and the lock is then taken |
| HartLaws.NoLostWakeUp | sbi/src/hart.c:28-46 | a hart that is STARTING with its lock free has its interrupt pending and its parameters in place |
| HartLaws.StatusMoves | sbi/src/hart.c:28-96 | the status moves only STOPPED, STARTING, STARTED, STOPPED, and only by the calls meant to move it |
| HartLaws.OneTruePerStart | sbi/src/hart.c:28-46 | as many calls have returned true as starts have begun, but for one whose caller still holds the lock |
| HartLaws.BootsAreUntorn | sbi/src/hart.c:75-96 | the k-th boot is with the three parameters of the k-th successful call |
| HartLaws.StartIsServed | sbi/src/hart.c:28-46 | an undisturbed call for a stopped hart leaves it STARTING with the parameters of the call and its interrupt pending, the lock free, one more true returned and the caller idle; nothing else changes |
| HartLaws.StartIsRefused | sbi/src/hart.c:28-46 | an undisturbed call for a hart that is not stopped, is locked or does not exist changes nothing |
| HartLaws.StopIsServedIff | sbi/src/hart.c:48-73 | an undisturbed hart that stops itself is stopped exactly when it was STARTED and unlocked; otherwise nothing changes |
| HartLaws.OtherInterrupt | sbi/src/hart.c:75-96 | an interrupt of a hart that is not STARTING is cleared and changes nothing else |
| HartLaws.WakeUpIsAnswered | sbi/src/hart.c:75-96 | the handler, run without interference, boots the hart with what the latest call asked for; nothing else changes |
| PageRuns.EncodingUnique | src/page.c:26-54 | the marks encode at most one set of runs |
| PageRuns.TakenEncodes | src/page.c:157-163 | taking free pages adds one run to the set |
| PageRuns.ClearedEncodes | src/page.c:229-234 | clearing a run from its first page removes it from the set |
| PageRuns.PartIsNotWellFormed | src/page.c:229-234 | clearing a run from a later page leaves marks that encode no set of runs |
| PageRuns.CountsAddUp | src/page.c:240-282 | free and taken pages add up to all pages |
| PageRuns.TakenCounts | src/page.c:157-163 | taking n pages makes n more pages taken |
| PageRuns.ClearedCounts | src/page.c:229-234 | clearing a run gives back as many pages as it had |
| PageRuns.TakenCleared | src/page.c:136-238 | freeing what was taken restores the marks |
| PageRuns.MarksFitIff | src/include/page.h:91-94 | the bookkeeping area is the least number of whole pages with a byte for every full four pages; it holds the marks of all pages except when the quarter fills whole pages and drops a remainder |
| PageAlloc.SetTakenBits | src/page.c:26-29 | setting a taken bit changes that mark of that page and no other of the byte |
| PageAlloc.ClearTakenBits | src/page.c:31-34 | so does clearing it |
| PageAlloc.SetLastBits | src/page.c:41-44 | so does setting a last bit |
| PageAlloc.ClearLastBits | src/page.c:46-49 | so does clearing it |
| PageAlloc.MarkPlaces | src/page.c:26-54 | the marks of page i are bits 2 (i mod 4) and 2 (i mod 4) + 1 of byte i / 4 |
| PageAlloc.PageAllocator.constructor | src/page.c:56-75 | the bookkeeping pages are the only run |
| PageAlloc.PageAllocator.Nalloc | src/page.c:136-185 | takes the lowest run of n free pages as one new run and gives the address of its first page, 4096 bytes a page; NULL exactly when n is 0 or there is no such run |
| PageAlloc.PageAllocator.FindFree | src/page.c:144-184 | the scan finds the lowest run of n free pages or shows there is none |
| PageAlloc.PageAllocator.Free | src/page.c:209-238 | gives up the run from the page on; the marks encode runs afterwards exactly when the page was free or the first of its run |
| PageAlloc.PageAllocator.CountFree | src/page.c:240-260 | counts the pages not taken |
| PageAlloc.PageAllocator.CountTaken | src/page.c:262-282 | counts the pages taken |
| PageAlloc.PageIndexRoundTrip | src/page.c:201-207 | an index survives the way to an address and back, an address exactly if it is the first of a page |
| Circle.ErrorSteps | src/gpu.c:484-489 | the decision value is the sum of the errors of the two candidates, 2(x+1)^2 + y^2 + (y-1)^2 - 2r^2 |
| Circle.NextIsNear | src/gpu.c:484-490 | a next point before the diagonal misses the circle by at most its height if the point did |
| Circle.ArcIsNear | src/gpu.c:474-490 | every point of the arc does |
| Circle.DecisionFits | src/gpu.c:484-489 | the update keeps the decision value exact, and no step of it leaves 32 bits |
| Circle.DrawPixel | src/gpu.c:449-460 | one pixel on the screen is set; nothing is written for a place off it |
| Circle.DrawCircle | src/gpu.c:462-492 | the loop ends past the diagonal and draws the eight reflections of the whole arc, in order |
| Circle.ReflectionsAre | src/gpu.c:475-482 | the eight places drawn for a point are those of its reflections in the axes and diagonals, in 32 bits, and no other |
| Circle.ReflectionIsNear | src/gpu.c:475-482 | a reflection is as near to the circle as its point |
| Circle.CircleOnScreen | src/gpu.c:462-492 | a place on the screen has the colour exactly if it is a reflection of an arc point, and such places are near the circle; every other pixel stays |
| Printf.OutBuffer | src/printf.c:128-134 | one character is put at the index if it is below the limit |
| Printf.OutRev | src/printf.c:197-223 | the reversed buffer comes out in its field, spaces before or after |
| Printf.PutDigits | src/printf.c:301-309 | the loop leaves the digits of the value, last first, as many as the buffer has room for |
| Printf.PutPrefix | src/printf.c:246-271 | the prefix of the `#` flag, in the place of the characters that make way for it, within 32 characters |
| Printf.NtoaFormat | src/printf.c:226-284 | zeros, prefix, sign and padding as the flags, the base, the precision and the width say, within 32 characters |
| Printf.NtoaLong | src/printf.c:287-343 | the field of a number is put out |
| Printf.ScanSpec | src/printf.c:640-744 | flags, width, precision and length are read as the specification of the format says |
| Printf.PutInteger | src/printf.c:748-843 | an integer conversion puts out the field of its value in its type |
| Printf.PutPointer | src/printf.c:916-940 | sixteen hexadecimal digits, as the flags change them |
| Printf.PutCharacter | src/printf.c:868-886 | the character in its field |
| Printf.PutString | src/printf.c:888-914 | the string, clipped by the precision, in its field |
| Printf.PutFormat | src/printf.c:616-949 | the interpreter puts out exactly the text of the format and its arguments |
| Printf.Snprintf | src/printf.c:951-986 | the length of the whole text; the buffer holds what fits and a NUL, and is untouched behind it |
| FormatLaws.ValueOfDigits | src/printf.c:301-309 | the digits of a value have that value |
| FormatLaws.DigitsAtMost | src/printf.c:301-309 | a value has at most n digits exactly when it is less than the n-th power of the base |
| FormatLaws.ReadField | src/printf.c:226-284 | what any number field reads as, and how many of its digits can be read |
| FormatLaws.EndValue | src/printf.c:246-254 | of a number with its end kept the value is the same exactly when only zeros are cut off |
| FormatLaws.ReadsBackIff | src/printf.c:226-343 | a field reads back as its value exactly when it has digits, at most 32, a minus sign has room, and the prefix takes no digit and is whole |
| FormatLaws.SpecifierReadsBackIff | src/printf.c:748-843 | the same for every integer specifier, by a condition on its flags, width and precision |
| FormatLaws.PointerReadsBackIff | src/printf.c:916-940 | a pointer reads back as its address by a condition on the flags and the length of the address |
| FormatLaws.PrecisionMetIff | src/printf.c:231-271 | a field shows the digits its precision asks for exactly when the value has as many, or the field is not left-justified and at most 32 are asked for; a prefix of base 8 counts as one, one with a letter must be whole |
| FormatLaws.LeftIgnoresPrecision | src/printf.c:231-244 | a left-justified field is the same for every precision |
| FormatLaws.PrecisionNotMet | src/printf.c:231-244 | `%-.3d` prints 5 as "5" and 0 as nothing |
| FormatLaws.DigitsLostToPrefix | src/printf.c:246-254 | `%#4x` prints 0x1234 as "0x34" |
| FormatSpecs.FlagsParsed | src/printf.c:640-673 | flags are read in any order, however often, up to the first character that is none |
| FormatSpecs.NumberParsed | src/printf.c:187-194 | a decimal number below 2^32 is read back |
| FormatSpecs.SpecifierParsed | src/printf.c:640-744 | a specifier written out, flags, width, precision, length and conversion, is read as what it says, wherever it stands |
| FormatSpecs.PrintedReadsBackIff | src/printf.c:616-843 | a format of one integer specifier prints a text that reads back, in base 10, 16, 8 or 2 as its letter says, as the argument in its type, exactly when there are digits, at most 32, and sign and prefix have their room |
| FormatSpecs.ArgumentReadsBackIff | src/printf.c:616-843 | without `h` and `hh` every argument of the named type is itself read back, on the same condition |
| FormatSpecs.PrintedMeetsPrecisionIff | src/printf.c:616-843 | what a format of one integer specifier prints has the digits its precision asks for, exactly on the condition above |
| FormatSpecs.PrintedLeftIgnoresPrecision | src/printf.c:231-244 | what a left-justified integer specifier prints is the same whatever precision is written |
| FormatSpecs.FieldWideIff | src/printf.c:197-284 | a number field is as wide as asked, except when zeros beyond 32 characters are asked for |
| FormatSpecs.PrintedWideIff | src/printf.c:616-843 | the same from the format string: the width is met exactly when the field is left-justified, or zeros are not asked for, or a precision is given, or at most 32 characters are asked for |
| FormatShapes.PlainText | src/printf.c:627-638 | characters before the next `%` come out as they are |
| FormatShapes.PrintsNext | src/printf.c:616-949 | a specifier anywhere in a format prints its field of the next argument, and the rest follows with one argument fewer exactly behind `d i u x X o b c s p` |
| FormatShapes.SupportedNext | src/printf.c:616-949 | every specifier that can be written is covered, other than floating point, if its argument is there and a string has no NUL |
| FormatShapes.StarWidth | src/printf.c:675-690 | a star takes the width from the next argument as a 32-bit number; a negative one asks for a left-justified field of its magnitude |
| FormatShapes.StarPrecision | src/printf.c:692-705 | a star behind the dot takes the precision from the next argument; a negative one counts as 0 |
| FormatShapes.CharacterPrinted | src/printf.c:868-886 | `%c` prints the low byte of its argument, at the left end of its field with `-`, else at the right |
| FormatShapes.StringPrinted | src/printf.c:888-914 | `%s` prints the first characters of its argument, as many as the precision says, at the left end of its field with `-`, else at the right |
| FormatShapes.OtherPrinted | src/printf.c:939-947 | `%%` prints `%`, and a character that is no conversion itself |
| FormatShapes.ValueInType | src/printf.c:782-843 | the value printed is the argument modulo 2^64, 2^32, 2^16 or 2^8 as the length says, in the range of its type |
| FormatShapes.IntegerInCase | src/printf.c:301-309 | `%X` prints capitals, every other integer conversion small letters |
| FormatShapes.IntegerShape | src/printf.c:226-284 | a field is spaces, sign, number and spaces: the spaces on the right exactly with `-`, the sign the one of the value or the one `+` or the space asks for, if the number leaves it room |
| FormatShapes.NumberShape | src/printf.c:226-343 | a number without its prefix is the digits of the value in its base behind as many zeros as precision or zero flag ask for, up to 32 characters; it has a prefix exactly with `#`, for a value other than 0 and `x X o b` |
| FormatShapes.PrefixShapeIff | src/printf.c:246-271 | the prefix `0x`, `0X`, `0b` or `0` stands whole in front of all of the number exactly when both fit 32 characters and the number is not just as long as the field, or a precision is given |
| FormatShapes.PointerInCase | src/printf.c:916-940 | `%p` prints capitals |
| FormatShapes.PointerPrinted | src/printf.c:916-940 | `%p` without `#` prints the address in hexadecimal behind a sign and zeros, sixteen characters or the digits the precision asks for, or in front of spaces with `-` |

## Left out

- Arithmetic that wraps: the heap needs requests that do not wrap around in `size_t` (`NoWrap`), file reads and writes need a range that does not wrap in 32 bits, and a disk of at most 2^32 bytes.
- HeapLaws.MallocThenFree: asks for a non-zero size; what `kmalloc(0)` does to the heap is said by `HeapLaws.AllocKeepsInvIff`.
- `x & -a` is modelled as rounding to a multiple of `a`, which it is for the powers of two the source uses.
- Null returns of `kmalloc` inside the block layer, the packets and interrupts below it, and requests of more than 255 sectors.
- One device: the inode kept in memory (`src/minix3.c:562-563`) is not told apart by device in the source.
- MinixInode.RecordStraight: asks that the sector the record begins in lies on the disk, which it does on a disk of whole sectors.
- MinixRead.GetData: asks that in a file without direct zones the range does not start strictly inside a hole or a zone that is not accepted, since the zone buffer is then read before it is cleared.
- Bitmaps, allocation of zones and inodes, directories and paths.
- What a device does with the flags other than NEXT, the notification of the device, and the blocking wait of the virtqueue driver; the device completes chains in order and is not part of the driver's code.
- Virtio.VirtioQueue.ReceiveDescriptorChain: asks for a buffer that holds the chain, because the source compares with the bound only after copying.
- Virtio.VirtioQueue.SendDescriptorChain: covers one queue; the choice of queue and the ready check are not modelled.
- Mmu.Mmu.Map: asks that no superpage lies on the path above the level that is mapped, since the walk would take its page for a table, and bits below 2^10.
- Sv39.Walk: leaves out access rights, the accessed and dirty bits, and the extensions that give bits 54 to 63 a meaning.
- Mmu.Mmu.MapRange: asks for a range of at most 2^39 bytes, the reach of Sv39.
- Words of page tables are natural numbers: shifts and masks are quotients, products and remainders by powers of two, and `|` of disjoint fields is a sum.
- `mmu_free`, the fences and the walkers that print tables.
- Harts are a transition system on values, because what matters is the interleaving of their steps; memory is sequentially consistent. The CSRs, the timer and `hart_get_status`, a single read, are not modelled, nor is the boot code of `sbi/src/main.c`, which sets the status without the lock before the harts can be started.
- The page lock of `src/page.c` is one step; the pages themselves have no contents, so `page_znalloc` is not modelled.
- PageAlloc.PageAllocator.Free: asks for an address inside the heap; the source does not check it.
- Circle.DrawCircle: covers radii up to 2^29, for which all 32-bit sums are exact, and screens of at most 2^32 pixels.
- Printf.Snprintf: leaves out floating point, a format that ends inside a specifier, and a null buffer; `char` is unsigned, as on RISC-V, and negating the least value of a type, which C leaves undefined, is taken to wrap.
