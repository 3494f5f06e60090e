# SolixOS kernel: a verified model

SolixOS is a small i386 teaching kernel. This project models the parts of it that keep state and have
something to get wrong, and proves what they promise over every input and every run:

- the SolixFS data path (`SolixFs`, `SolixFsRuns`): bitmap allocation, twelve direct pointers, and the
  block-by-block read-modify-write loops, refined to one plain byte sequence per file;
- the kernel heap (`HeapBlocks`, `KernelHeap`), aligned allocation on top of it (`AlignedAlloc`), whole
  runs of both (`HeapRuns`) and two programs they fail (`HeapFaults`), the frame bitmap (`Frames`) and
  the page directory (`Paging`), with its tables taken from the heap (`PagingHeap`);
- the slab caches above the aligned allocator (`Slab`, `SlabCache`), and a cache running beside other users
  of the heap (`MixedRuns`);
- the buffered text screen (`Screen`), the process table with its round-robin scheduler (`Processes`)
  and the keyboard ring shared with the interrupt handler (`Keyboard`);
- the Internet checksum (`InternetChecksum`) and the module CRC, on bits (`Crc32`), on 32-bit words
  (`Crc32Words`) and as a remainder of polynomials (`Crc32Polynomial`);
- the number conversions, the bounded formatter and the dotted-quad text of an address (`Digits`,
  `Format`, `IpText`).

`Machine`, `Bits`, `Bitmap` and `Division` hold what several of these share.

Stateful code is a class whose fields are the source's statics; its methods are proved against
functions on values, and the laws are lemmas about those functions. Each component with runs has a
`Run` method or a trace lemma that carries the laws over any sequence of calls.

## Reading the model

- Addresses, sizes and counters are unbounded numbers; every place where the source's 32-bit
  arithmetic can wrap is written with an explicit remainder.
- Bitmap words are the sets of their one bits; the split of an index into word and bit number is kept. The
  CRC loop is on 32-bit words and its laws are on the sequences of their bits, least significant first.
- The disk is a sequence of 4096-byte blocks. `vnode->offset` is used by the file operations but not
  declared in the structure; the model has it.
- Headers and the words programs store lie in the same memory: a header write loses the words and the
  remains of old headers it overlaps, and a word stored over a header changes the header byte by byte.
- `panic` is a terminal outcome of a call, not a precondition against it.
- C strings are the characters before the terminator. `char` values on the screen are byte values.
- The heap region has the size of include/mm.h:9; a header takes 24 bytes.

## What the code does that its documentation does not say

- kmalloc is announced as first-fit and is best-fit (kernel/mm.c:114-138); `HeapFaults.NotFirstFit` gives a
  block list on which the two choices differ, `HeapFaults.FirstFitIsBest` says exactly when they agree.
- A correct program can panic: when a used block's `prev` changes, its checksum is not refreshed, so
  kfree of it fails (kernel/mm.c:163-164, 216-217, 229-230). `HeapFaults.CorrectProgramPanics` makes six
  legal calls that end so wherever the heap starts; `KernelHeap.Heap.Kfree` states exactly when kfree
  panics.
- kmalloc of more than 2^32 - 4 bytes wraps and returns a 16-byte block
  (`HeapBlocks.RoundedLeast`, `HeapBlocks.WrappedRequest`).
- kmalloc_aligned, announced with overflow protection, wraps too. Its payload fits the block exactly when
  size + alignment + 7 <= 2^32 - 4 (`AlignedAlloc.PayloadFits`). Its two hidden words lie inside the
  block exactly when the padding does (`AlignedAlloc.WordsFitWhen`), and do so wherever the block is
  exactly when alignment + 7 is at most the rounded request (`AlignedAlloc.WordsAlwaysFit`). Otherwise
  they may land on another block's header: `HeapFaults.WrappedRequestCorrupts` gives five calls from
  heap_init on after which following `next` goes round in a circle.
- file_read clips to the file exactly when offset + count does not wrap (`SolixFs.ClipIsExact`).
- Block 0, frame 0 and process slot 0 double as failure values: bit 0 of the block bitmap has to be
  reserved; alloc_frame returns NULL exactly when every frame is owned or frame 0 is the one it claims,
  which is so on its very first call (`Frames.FrameAllocator.AllocFrame`,
  `Frames.FirstFrameLooksLikeNull`); and process_create fails exactly once after the first process has
  exited (`Processes.CreateFailsOnce`, `Processes.CreateAfterExit`).
- process_schedule panics whenever no other slot is ready, even if the caller is running
  (`Processes.ProcessTable.ProcessSchedule`), as it is right after process_init
  (`Processes.LoneProcessPanics`).
- A failed bulk allocation returns -1 rather than a count, and it fails exactly when fewer objects are to
  be had than asked for (`SlabCache.KmemCache.AllocBulk`; `SlabCache.OneTooMany` asks for one too many).
- slab_init makes its caches with SLAB_HWCACHE_ALIGN, which counts a remainder of 4 bytes or more as one more
  object: every cache it makes but that for 8 bytes has an object that ends beyond its page
  (`Slab.FlaggedObjectsOverrun`).
- A character of 128 or more is drawn with every attribute bit set (`Screen.GlyphColor`), and
  screen_set_cursor moves the hardware cursor only if something marked it stale
  (`Screen.Driver.ScreenSetCursor`), which nothing has at the start (`Screen.StaleCursor`).
- vsnprintf_internal cuts to size - 1 characters exactly for sizes below 2^31, or when there is nothing to
  print (`Format.CutsToSize`): a size above that, such as 0xFFFFFFFF, becomes negative in the cast and
  gives the empty string, and a size of 0 still stores the terminator (`Format.ExtremeSizes`).
- net_checksum loses carries on long buffers; `InternetChecksum.WrapLosesCarries` says exactly when that
  shows, and `InternetChecksum.LongBufferMisjudged` gives 131076 bytes that verify and that it rejects.

## Model

| member | source | states |
|---|---|---|
| `Bits.PowerOfTwoTest` | kernel/mm.c:384-387 | `n & (n - 1)` is zero if and only if n is a power of two |
| `Bits.MaskRoundsDown` | kernel/mm.c:395-396 | masking off the low k bits rounds down to a multiple of 2^k |
| `Bits.OrAbove` | drivers/screen.c:107 | or leaves the low bits alone where one operand has none |
| `Bitmap.UpdateIsLocal` | fs/solixfs.c:73-77 | setting or clearing the bit an index splits into changes that bit and no other |
| `Bitmap.CountAfterUpdate` | fs/solixfs.c:86-94 | the number of set bits moves by one exactly when the bit was not already as wanted |
| `Bitmap.CountExtremes` | fs/solixfs.c:71-83 | the count equals the bound exactly when no bit is clear, and 0 exactly when none is set |
| `Bitmap.CountIsCardinality` | kernel/mm.c:303-332 | the count is the size of the set of owned indices |
| `Bitmap.OnesAfterUpdate` | kernel/mm.c:312-331 | claiming and releasing add to and take from that set |
| `SolixFs.EmptyVolumeOk` | fs/solixfs.c:25-68 | a volume whose inodes own nothing satisfies the invariant once bit 0 is reserved |
| `SolixFs.OverwriteByte` | fs/solixfs.c:313-328 | each byte of each file after one block write |
| `SolixFs.WriteSplices` | fs/solixfs.c:313-328 | one block write keeps the volume's invariant, splices the data into its own file and leaves every other file's bytes alone |
| `SolixFs.AttachBlock` | fs/solixfs.c:304-311 | attaching a newly claimed block keeps ownership disjoint and changes no file's bytes |
| `SolixFs.LongestWritableIsUnique` | fs/solixfs.c:289-331 | the blocks a file has, the free blocks and the request determine how many bytes a write accepts |
| `SolixFs.Advance` | fs/solixfs.c:289-311 | each chunk takes one more block exactly when its position has none |
| `SolixFs.ClipIsExact` | fs/solixfs.c:247-250 | a read is clipped to what remains of the file if and only if offset + count stays below 2^32 |
| `SolixFs.WrappedReadOverruns` | fs/solixfs.c:247-250 | a concrete wrapping request that is not clipped at all |
| `SolixFs.FileSystem.constructor` | fs/solixfs.c:25-68 | what is mounted satisfies the invariant if and only if the volume does and the counters on the disk are right |
| `SolixFs.FileSystem.AllocBlock` | fs/solixfs.c:71-83 | claims the lowest clear bit, or nothing exactly when the free count is 0; the counter stays the number of clear bits |
| `SolixFs.FileSystem.FreeBlock` | fs/solixfs.c:86-94 | clears the bit; the counter stays the number of clear bits, repeated frees included, if and only if the number is a block's or the bit was clear |
| `SolixFs.FileSystem.AllocInode` | fs/solixfs.c:97-109 | claims the lowest clear inode, 1-based; 0 exactly when none is free |
| `SolixFs.FileSystem.FreeInode` | fs/solixfs.c:112-123 | the same for inodes; inode 0 changes nothing |
| `SolixFs.FileSystem.ReadBlock` | fs/solixfs.c:126-128 | the shared buffer becomes the block |
| `SolixFs.FileSystem.WriteBlock` | fs/solixfs.c:131-133 | the block becomes the shared buffer and no other block changes |
| `SolixFs.FileSystem.GetChunk` | fs/solixfs.c:264-276 | one pass of the read loop delivers the bytes under the pointer and touches nothing else of the caller's buffer |
| `SolixFs.RawByteBelowSize` | fs/solixfs.c:264-273 | the byte under a position below the size is the file's |
| `SolixFs.FileSystem.FileRead` | fs/solixfs.c:239-280 | returns the slice of the file at the offset, at end of file nothing, and advances the offset by what it returned; for a count that wraps, the bytes past the size are those of the blocks under the pointers, block 0 for an empty one |
| `SolixFs.FileSystem.EnsureBlock` | fs/solixfs.c:304-311 | a missing block is claimed and attached, or the write stops exactly when no bit is clear |
| `SolixFs.FileSystem.WriteChunk` | fs/solixfs.c:313-328 | partial and whole blocks alike: the file becomes its splice with the data |
| `SolixFs.FileSystem.PutChunk` | fs/solixfs.c:289-328 | one pass of the write loop, with the blocks it takes accounted for |
| `SolixFs.FileSystem.FileWrite` | fs/solixfs.c:282-332 | the file becomes old[..o] + buf[..k] + old[o+k..], all other files keep their bytes, k is the longest prefix that 12 blocks and the free blocks admit, the offset moves to o + k, exactly the positions touched have got a block, and free blocks fall by exactly those that were missing |
| `SolixFs.FileSystem.FileSeek` | fs/solixfs.c:334-356 | SEEK_SET gives the offset, SEEK_CUR adds it to the old one in 32 bits, SEEK_END gives the size, each clamped to the size; an unknown origin changes nothing |
| `SolixFsRuns.StepKeepsWellFormed` | fs/solixfs.c:239-356 | no operation through any vnode can put any vnode's offset beyond its file |
| `SolixFsRuns.ReplyIsUnique` | fs/solixfs.c:239-356 | state and operation determine the reply, short writes included |
| `SolixFsRuns.RunKeepsWellFormed` | fs/solixfs.c:239-356 | the same over every run |
| `SolixFsRuns.OthersLeaveAlone` | fs/solixfs.c:239-356 | over every run, a file nobody writes keeps its bytes and an unused vnode its offset |
| `SolixFsRuns.ReadBack` | fs/solixfs.c:239-356 | write, seek back, let anything else happen elsewhere, read: exactly what was written |
| `SolixFsRuns.EndThenWriteAppends` | fs/solixfs.c:282-356 | SEEK_END and a write append what the write accepts, and the offset is the new end |
| `SolixFsRuns.SeekSkips` | fs/solixfs.c:334-356 | SEEK_CUR inside the file, forwards or with a negative distance backwards, makes the next read start that far away |
| `SolixFsRuns.DoRead` | fs/solixfs.c:239-280 | a read answers with the slice of the byte sequence and moves only its own offset |
| `SolixFsRuns.DoWrite` | fs/solixfs.c:282-332 | a write answers with the longest prefix there is room for and splices it in |
| `SolixFsRuns.DoSeek` | fs/solixfs.c:334-356 | a seek moves only its own offset |
| `SolixFsRuns.Execute` | fs/solixfs.c:239-356 | each kernel operation answers as plain byte sequences with a count of free blocks do and keeps the volume's invariant |
| `SolixFsRuns.Run` | fs/solixfs.c:239-356 | every interleaving of reads, writes and seeks on any number of files is the run of plain byte sequences with a count of free blocks, a write falling short only for lack of room, with blocks owned once, marked in the bitmap and present below every size |
| `HeapBlocks.InitialOk` | kernel/mm.c:95-104 | the block heap_init makes satisfies the invariant |
| `HeapBlocks.AllFreeIsInitial` | kernel/mm.c:83-104 | when no block is used, the list is that single block again |
| `HeapBlocks.PayloadsDisjoint` | kernel/mm.c:115-187 | blocks lie in the region and no payload overlaps another block or its header |
| `HeapBlocks.LiveDisjoint` | kernel/mm.c:115-187 | two live payloads do not overlap |
| `HeapBlocks.RoundedCovers` | kernel/mm.c:118-120 | the rounded size is a multiple of 4, at least 16, and covers the request if and only if that is at most 2^32 - 4 |
| `HeapBlocks.RoundedLeast` | kernel/mm.c:118-120 | the rounded size is the least multiple of 4 from 16 on that holds the request, so less than 4 bytes or what is missing to 16 are added; a request whose sum wraps gets 16 |
| `HeapBlocks.RoundingDecidesNothing` | kernel/mm.c:118-138 | in a valid heap the rounding changes neither whether a request is served nor from which block |
| `HeapBlocks.AllocateSnug` | kernel/mm.c:119-167 | the payload holds the request and is at most 40 bytes larger than its rounding asks; a rest is split off exactly when it keeps more than 16 bytes beside its header |
| `HeapBlocks.WrappedRequest` | kernel/mm.c:118-120 | a request of 2^32 - 1 bytes is served with 16 |
| `HeapBlocks.SearchStep` | kernel/mm.c:127-138 | one more header keeps the best fit seen so far, and an exact fit is the best of all |
| `HeapBlocks.BestFitDecides` | kernel/mm.c:122-138 | the best fit is unique, and excludes that nothing fits |
| `HeapBlocks.BestFitExists` | kernel/mm.c:122-138 | where something fits there is a best fit |
| `HeapBlocks.AllocateOk` | kernel/mm.c:152-177 | splitting or taking a block keeps tiling, sizes, sealed free headers and no two free neighbours |
| `HeapBlocks.AllocateLive` | kernel/mm.c:152-186 | exactly one payload becomes live, large enough, at an address where none was |
| `HeapBlocks.AllocateUses` | kernel/mm.c:152-186 | every allocation uses up free bytes, so allocations end |
| `HeapBlocks.ReleaseOk` | kernel/mm.c:206-235 | freeing with both merges keeps the same invariant |
| `HeapBlocks.ReleaseLive` | kernel/mm.c:206-235 | exactly the freed payload stops being live |
| `HeapBlocks.FreeUndoesMalloc` | kernel/mm.c:115-240 | freeing right after allocating verifies and restores the list, checksums included |
| `KernelHeap.VerifiesIff` | kernel/mm.c:53-73 | a header verifies if and only if the byte sums of its current and of its sealed `prev` agree |
| `KernelHeap.ByteSumAdds` | kernel/mm.c:53-60 | the byte sum of a word adds up its four bytes |
| `KernelHeap.OverwriteNoticed` | kernel/mm.c:53-73 | for each of the six header fields, exactly which overwritten values integrity verification notices |
| `KernelHeap.ByteSumResidue` | kernel/mm.c:53-60 | the byte sum of a word is the word modulo 255, so it tells most moved links apart |
| `KernelHeap.SplitRepresented` | kernel/mm.c:153-177 | the header writes of a split leave memory linked as the split list says |
| `KernelHeap.WholeRepresented` | kernel/mm.c:174-177 | the same when the block is taken whole |
| `KernelHeap.JoinRepresented` | kernel/mm.c:212-235 | the same for a merge |
| `KernelHeap.MarkFreeRepresented` | kernel/mm.c:206-209 | the same for marking a block free |
| `KernelHeap.ReleaseInSteps` | kernel/mm.c:206-235 | marking free, merging with the next and merging with the previous block is one release |
| `KernelHeap.CarvedPlaces` | kernel/mm.c:152-177 | the headers an allocation writes are headers of the list it makes |
| `KernelHeap.PurgedRepresents` | kernel/mm.c:154-161 | placing a new header spoils no header of the list |
| `KernelHeap.StoredField` | kernel/mm.c:399-404 | a word stored over a header field replaces that field |
| `KernelHeap.StoredInPayload` | kernel/mm.c:398-404 | a word stored inside a payload leaves the list linked as it was |
| `KernelHeap.Heap.StoreWord` | kernel/mm.c:398-404 | a 32-bit store changes exactly the headers it overlaps |
| `KernelHeap.Heap.HeapInit` | kernel/mm.c:83-112 | one free block over the whole region; refused exactly when the region would pass the end of the address space |
| `KernelHeap.Heap.FindBestFit` | kernel/mm.c:122-138 | following `next` finds the smallest sufficient free block, the first among equals, or none exactly when none suffices |
| `KernelHeap.Heap.Carve` | kernel/mm.c:152-177 | the header writes of an allocation leave the linked list the allocation calls for |
| `KernelHeap.Heap.Kmalloc` | kernel/mm.c:115-187 | never panics in a valid heap; for 0 < size <= 2^32 - 4, NULL exactly when every free block is smaller than size; otherwise the smallest free block that holds size, the lowest of them, is used, the payload is at most max(16, size + 3) + 40 bytes and less than the block only if more than 16 bytes and a header are left; the invariant holds, and only headers of the new list were written |
| `KernelHeap.Heap.Absorb` | kernel/mm.c:212-235 | one merge, with links, tail and checksum |
| `KernelHeap.Heap.MarkFree` | kernel/mm.c:206-209 | the block is free, sealed with its current `prev`, and no address moves |
| `KernelHeap.Heap.MergeNext` | kernel/mm.c:211-222 | merges with the next block exactly when it is free |
| `KernelHeap.Heap.MergePrev` | kernel/mm.c:224-235 | merges with the previous block exactly when it is free |
| `KernelHeap.Heap.Kfree` | kernel/mm.c:190-240 | panics if and only if the pointer is not just behind a listed header or its block is not intact: already free, or its `prev` moved to an address with another byte sum; otherwise releases the block, keeps the invariant, writes only headers of the old list, and leaves a header that says free |
| `KernelHeap.Heap.DoubleFree` | kernel/mm.c:190-240 | freeing the same pointer twice in a row panics, whether the block was merged or not |
| `HeapRuns.MallocAgrees` | kernel/mm.c:115-187 | after an allocation what is held is exactly what is live, every payload large enough and every aligned grant's hidden words in place |
| `HeapRuns.FreeAgrees` | kernel/mm.c:190-240 | the same after a free |
| `HeapRuns.NothingHeld` | kernel/mm.c:83-112 | with nothing held the heap is as heap_init made it |
| `HeapRuns.DoMalloc` | kernel/mm.c:115-187 | kmalloc as one step of a run |
| `HeapRuns.DoMallocAligned` | kernel/mm.c:381-407 | kmalloc_aligned as one step of a run |
| `HeapRuns.DoFree` | kernel/mm.c:190-428 | a held pointer leads back to its own block whatever happened in between: kfree and kfree_aligned release exactly that block, or panic exactly when its left neighbour has moved to an address with another byte sum |
| `HeapRuns.Run` | kernel/mm.c:115-428 | in every interleaving of kmalloc, kfree, kmalloc_aligned and kfree_aligned the heap stays valid, an allocation takes the best fit and answers NULL exactly when nothing fits or the request is void, pointers handed out are not held by anyone, live payloads are exactly those held and large enough, every aligned pointer's hidden words still name its block, a free panics exactly as kfree says, and with everything freed the list is heap_init's |
| `HeapRuns.StepDetermined` | kernel/mm.c:115-428 | state and call determine the reply and the next state |
| `HeapRuns.RunNested` | kernel/mm.c:115-428 | a program that frees in the reverse order of its allocations, aligned or not, never panics and leaves the block list as it found it, seals included |
| `HeapFaults.NotFirstFit` | kernel/mm.c:114-138 | a valid block list on which first fit and kmalloc choose different blocks |
| `HeapFaults.FirstFitIsBest` | kernel/mm.c:114-138 | first fit and best fit agree if and only if no later free block that fits is smaller |
| `HeapFaults.MovedPrevFails` | kernel/mm.c:63-73 | a used block whose `prev` moved by anything but a multiple of 255 fails verification |
| `HeapFaults.FillStep` | kernel/mm.c:115-187 | the first three 16-byte allocations of the panicking program are what kmalloc chooses |
| `HeapFaults.CorrectProgramPanics` | kernel/mm.c:115-240 | the calls themselves: allocate a, b, c of 16 bytes, free b, a, c; the first two frees succeed and the last panics, wherever the heap starts |
| `HeapFaults.WrappedRequest` | kernel/mm.c:389-404 | a request for 0xFF000000 bytes aligned to 16 MB takes a 16-byte block and its hidden words lie outside it |
| `HeapFaults.WrappedRequestCorrupts` | kernel/mm.c:381-407 | the calls themselves, from heap_init on: that request succeeds, the heap is no longer valid, and following `next` from the head never meets NULL |
| `AlignedAlloc.WordPower` | kernel/mm.c:384-387 | a 32-bit power of two is at most 2^31 |
| `AlignedAlloc.AlignUpRounds` | kernel/mm.c:395-396 | for a power of two the mask rounds the wrapped sum down to a multiple |
| `AlignedAlloc.WordsFitWhen` | kernel/mm.c:395-404 | both hidden words lie inside the raw block if and only if the padding does |
| `AlignedAlloc.WordsAlwaysFit` | kernel/mm.c:389-404 | they do for every block kmalloc may give if and only if alignment + 7 is at most the rounded request |
| `AlignedAlloc.PayloadFits` | kernel/mm.c:389-406 | the result is aligned, and hidden words and payload lie inside the raw block if and only if size + alignment + 7 <= 2^32 - 4 |
| `AlignedAlloc.AlignedAllocator.RefusedWhen` | kernel/mm.c:381-393 | where nothing wraps a proper request is refused exactly when every free block is smaller than size + alignment + 7 |
| `AlignedAlloc.HeadersSpareWords` | kernel/mm.c:115-240 | the headers kmalloc and kfree write never overlap a word inside a live payload |
| `AlignedAlloc.StoreSparesOthers` | kernel/mm.c:398-404 | a word stored in a new payload leaves the words of the others alone |
| `AlignedAlloc.AlignedAllocator.Kmalloc` | kernel/mm.c:115-187 | kmalloc keeps every word inside a live payload |
| `AlignedAlloc.AlignedAllocator.Kfree` | kernel/mm.c:190-240 | so does kfree |
| `AlignedAlloc.AlignedAllocator.StoreHidden` | kernel/mm.c:398-404 | where the two words lie inside the payload the heap stays valid and all other words are kept |
| `AlignedAlloc.AlignedAllocator.KmallocAligned` | kernel/mm.c:381-407 | which requests are refused; otherwise one best-fit block is taken and memory is what kmalloc left with the two words stored below the aligned result; the heap stays valid and the words name block and alignment where they lie inside the block, as they and the payload do without wrap-around |
| `AlignedAlloc.AlignedAllocator.KfreeAligned` | kernel/mm.c:410-428 | frees exactly the block the hidden word names; panics on a misaligned address or as kfree does |
| `AlignedAlloc.AlignedAllocator.RoundTrip` | kernel/mm.c:381-428 | for every size and alignment without wrap, allocating and freeing never panics and restores the heap |
| `Frames.FrameAllocator.constructor` | kernel/mm.c:248-263 | all frames clear, none used |
| `Frames.PagingInit` | kernel/mm.c:243-263 | panics if and only if there is less than 4 MB or no memory for the bitmap |
| `Frames.FrameAllocator.AllocFrame` | kernel/mm.c:303-321 | claims the nearest clear frame in cyclic order from the last one, and fails only when every frame is owned; the caller sees NULL if and only if every frame is owned, or frame 0 is clear and all frames met before it are owned |
| `Frames.FirstFrameLooksLikeNull` | kernel/mm.c:303-321 | the first call on a new allocator claims frame 0 and returns NULL |
| `Frames.FrameAllocator.FreeFrame` | kernel/mm.c:324-332 | the counter stays right if and only if the frame was owned |
| `Frames.FrameAllocator.UsedIsOwned` | kernel/mm.c:314-331 | used_frames is the number of owned frames |
| `Frames.Run` | kernel/mm.c:303-332 | over every run that frees what it owns: an owned frame is never handed out, an allocation gets nothing only when all are owned, and used_frames is the number owned |
| `Paging.LastOperationDecides` | kernel/mm.c:335-378 | after any run a page is as the last operation on it left it: mapped to the frame of its physical address with the rights of its flags, or not mapped; an unnamed page is as before |
| `Paging.PageDirectory.constructor` | kernel/mm.c:275-281 | the cleared directory maps nothing |
| `Paging.PageDirectory.CreateTable` | kernel/mm.c:340-354 | a new table maps nothing whatever its memory held, and its directory entry names its frame |
| `Paging.PageDirectory.WriteEntry` | kernel/mm.c:356-360 | one entry is written and every other page is looked up as before |
| `Paging.PageDirectory.StoreEntry` | kernel/mm.c:356-360 | storing one entry changes exactly one page of the flat map |
| `Paging.PageDirectory.MapPage` | kernel/mm.c:335-364 | looking the page up gives the frame of the physical address, writable by flag 2 and for users by flag 4, or nothing without flag 1; no other page of the flat map changes, and a table is created exactly when there was none |
| `Paging.PageDirectory.UnmapPage` | kernel/mm.c:367-378 | the page is not mapped afterwards, table or no table, and no other page of the flat map changes |
| `Paging.PageDirectory.IdentityMap` | kernel/mm.c:283-286 | the identity on the first 1024 pages, writable, kernel only, and nothing else |
| `Paging.Run` | kernel/mm.c:335-378 | every run of map and unmap calls is the same run on one flat map |
| `PagingHeap.MapPage` | kernel/mm.c:335-364 | the table comes from the aligned allocator and is no other table's memory; the call fails exactly when the table does not exist and the heap has no block for one |
| `PagingHeap.IdentityMap` | kernel/mm.c:283-286 | the identity mapping succeeds exactly when the heap has a block for its one table |
| `PagingHeap.Run` | kernel/mm.c:335-378 | every run is the same run on one flat map, up to the first call that needs a table when the heap has none |
| `Slab.ObjectsPerSlabFit` | kernel/slab.c:42-65 | the objects counted fit in the page behind the header and one more would not; there is one exactly for sizes up to 4056 |
| `Slab.FlaggedObjectsOverrun` | kernel/slab.c:53-64 | with SLAB_HWCACHE_ALIGN the objects counted fit in the page if and only if the remainder is under 4 bytes; of the sizes of slab_init up to 8192, only 8 does |
| `Slab.MaskRecoversSlab` | kernel/slab.c:355-361 | masking any object's address gives its slab, and the object lies inside the page |
| `Slab.InuseCountsLive` | kernel/slab.c:320-373 | inuse is the number of the slab's live objects |
| `Slab.TakenOk` | kernel/slab.c:312-334 | popping the freelist hands out an object that was not live and keeps the whole invariant: acyclic chains of num - inuse objects, disjoint from the live ones, every slab on the list its fill calls for |
| `Slab.ReturnedOk` | kernel/slab.c:368-386 | pushing a live object back keeps the same invariant |
| `Slab.TakenUndoesReturned` | kernel/slab.c:308-386 | the freelist is last in, first out: taking after returning gives the same object and restores slab, counters and live set |
| `Slab.ThreadIsChain` | kernel/slab.c:110-119 | the links alloc_slab writes form a chain through all objects |
| `Slab.GrownOk` | kernel/slab.c:87-142 | a new slab keeps the invariant and the live objects |
| `Slab.ActiveIsSum` | kernel/slab.c:342-390 | stats.active is the sum of inuse over all slabs |
| `Slab.SpareIsSum` | kernel/slab.c:289-415 | the free objects are the sum of num - inuse, and none exactly when no slab is partial or free |
| `SlabCache.FreshPage` | kernel/slab.c:92-96 | a newly allocated page is none of the pages in use, its block backs none of them, and all stay backed, hidden words included |
| `SlabCache.SlabWordInPage` | kernel/slab.c:99-119 | the fields of the slab structure and the first word of every object lie in the slab's page |
| `SlabCache.PageStoreIsSafe` | kernel/slab.c:99-119 | storing any word of a slab's page leaves the heap linked, every slab's hidden words in place and the words of others alone |
| `SlabCache.TakenInMemory` | kernel/slab.c:316-324 | popping an object, the slab's fields and the links of all free objects in memory are what the cache says |
| `SlabCache.ReturnedInMemory` | kernel/slab.c:376-379 | the same for pushing one back |
| `SlabCache.GrownInMemory` | kernel/slab.c:99-119 | the same for a new slab |
| `SlabCache.InMemoryOn` | kernel/slab.c:87-415 | slabs depend only on the words inside their pages |
| `SlabCache.PageWordsKept` | kernel/mm.c:115-428 | words inside slab pages are kept by whatever keeps the words of live payloads |
| `SlabCache.TakePage` | kernel/slab.c:92-96 | a page in a block of its own, at the place the best fit dictates, or NULL exactly when the heap has no block for it |
| `SlabCache.UsedIsLeast` | kernel/slab.c:289-415 | a request takes the least number of pages that serves it, or all there are when it is refused |
| `SlabCache.LeavesInTurn` | kernel/slab.c:87-415 | freeing nothing, taking only fresh blocks and storing nothing in the payloads of others is kept by one operation after another |
| `SlabCache.KmemCache.constructor` | kernel/slab.c:196-250 | an empty cache whose slabs hold as many objects as fit in a page after the structure, and not one less |
| `SlabCache.KmemCache.SlabStore` | kernel/slab.c:99-119 | one word stored by the slab layer in the memory it shares with the heap: the word is there, the heap and all pages stay sound, others are left alone |
| `SlabCache.KmemCache.StoreFields` | kernel/slab.c:99-109 | so for the fields of a slab structure, each holding its value |
| `SlabCache.KmemCache.ThreadFreelist` | kernel/slab.c:110-119 | the loop writes those links, each of them in memory, and nothing outside the page's objects |
| `SlabCache.KmemCache.NewSlabPage` | kernel/slab.c:92-96 | a page of its own, or NULL exactly when the heap has no block for it |
| `SlabCache.KmemCache.AllocSlab` | kernel/slab.c:87-142 | the page with its structure and freelist in memory, the words of all other slabs kept |
| `SlabCache.KmemCache.CacheGrow` | kernel/slab.c:166-189 | adds one all-free slab, num free objects and exactly the page the best fit dictates, or nothing exactly when the heap has no block for a page; the payloads of others keep their words |
| `SlabCache.KmemCache.SupplyFacts` | kernel/slab.c:289-350 | nothing is to be had exactly when no slab has a free object and the heap gives no page |
| `SlabCache.KmemCache.FindSlab` | kernel/slab.c:297-313 | a partial slab, else a free one, else a new one; none exactly when nothing is to be had |
| `SlabCache.KmemCache.KmemCacheAlloc` | kernel/slab.c:289-350 | fails exactly when no object is to be had; otherwise one object that was not live becomes live and one fewer is to be had; the failure on an empty freelist is unreachable |
| `SlabCache.KmemCache.Take` | kernel/slab.c:313-334 | the pop and the list move |
| `SlabCache.KmemCache.KmemCacheFree` | kernel/slab.c:355-393 | a live object is returned and one more is to be had; NULL changes nothing; an address in no slab's page panics, given that the memory there does not look like a slab of this cache |
| `SlabCache.KmemCache.PutBack` | kernel/slab.c:370-390 | the push and the list move |
| `SlabCache.KmemCache.AllocBulk` | kernel/slab.c:398-415 | -1 if and only if fewer objects are to be had than asked for, counting the free ones and those in the pages the heap can still give; then the live set and the supply are as before; otherwise all the objects, distinct and not live before |
| `SlabCache.OneTooMany` | kernel/slab.c:398-415 | asking for one object more than there are gets none and -1 |
| `SlabCache.KmemCache.FreeAll` | kernel/slab.c:406-408 | the roll-back frees exactly what was taken |
| `SlabCache.KmemCache.FreeBulk` | kernel/slab.c:420-424 | frees exactly the objects given, NULL entries skipped |
| `SlabCache.Execute` | kernel/slab.c:289-415 | each operation grants all that was asked, or nothing exactly when the supply is too small, and takes exactly the pages it needs from the heap |
| `SlabCache.ServedConserves` | kernel/slab.c:289-415 | over every run the objects held and those to be had together stay the same number |
| `SlabCache.Run` | kernel/slab.c:289-415 | every run keeps the invariant, grants distinct objects nobody holds, refuses exactly when too few are to be had, and stats.active is the number held and the sum of inuse |
| `MixedRuns.EmptyCacheShares` | kernel/slab.c:196-250 | a cache without slabs shares the heap with whatever others hold |
| `MixedRuns.CacheShares` | kernel/slab.c:289-415 | whatever the cache does leaves every grant of others live and served, hidden words included |
| `MixedRuns.CallShares` | kernel/mm.c:115-428 | a call of another user leaves every slab page backed by the block it had |
| `MixedRuns.StepDetermined` | kernel/slab.c:289-415 | state and operation determine the reply of every heap call and the next state, and for cache operations the number of objects and, with them, the next state |
| `MixedRuns.DoCache` | kernel/slab.c:289-415 | a cache operation as one step beside other users |
| `MixedRuns.DoAllocate` | kernel/mm.c:115-407 | an allocation by another user as one step; the freelists in memory survive it |
| `MixedRuns.DoFree` | kernel/mm.c:190-428 | a free by another user as one step; the freelists in memory survive it |
| `MixedRuns.Run` | kernel/slab.c:289-415 | through every interleaving of cache operations with kmalloc, kfree, kmalloc_aligned and kfree_aligned calls of others the cache and the heap stay valid, slabs in memory included; block list, pages, free objects and grants are passed from step to step, so a refusal or NULL comes exactly when that state has nothing to give; no block is both a slab's and somebody else's |
| `Screen.GlyphColor` | drivers/screen.c:107 | from the 32-bit or of colour and sign-extended character: below 128 the current colour is drawn, from 128 on every attribute bit |
| `Screen.ColorParts` | drivers/screen.c:212-214 | 4-bit colours do not mix in the attribute |
| `Screen.ScrollIsRowShift` | drivers/screen.c:234-257 | scrolling moves each row up by one and blanks the last, cell by cell |
| `Screen.CopyStep` | drivers/screen.c:243-245 | the forward overlapping 32-bit copy never reads a cell it has already written |
| `Screen.PutAllAppend` | drivers/screen.c:159-166 | printing a string is printing its parts |
| `Screen.PutIsTyped` | drivers/screen.c:105-154 | by row and column: a newline goes to the start of the next row or moves all rows up, a carriage return to column 0, a tab to the next multiple of 8, none of them changing a cell otherwise; a backspace blanks exactly the cell to its left and moves there; any other byte is drawn in exactly the cell under the cursor, which advances |
| `Screen.TextIsShown` | drivers/screen.c:159-166 | text that ends before the row does is shown from the cursor on, and no other cell changes |
| `Screen.TextRunsOn` | drivers/screen.c:159-166 | text that ends before the screen does fills the cells from the cursor on across rows, with the cursor right behind it |
| `Screen.LineIsShown` | drivers/screen.c:159-166 | a newline and a text shorter than a row show the text from column 0 of the next row on, earlier rows as before; below the last row all rows move up by one and row 24 shows it |
| `Screen.Driver.constructor` | drivers/screen.c:11-33 | nothing is pending at the start |
| `Screen.Driver.FewPending` | drivers/screen.c:53-64 | pending cells stay within a row, so fewer than 80 and never the 256 of the limit |
| `Screen.Driver.FlushWriteBuffer` | drivers/screen.c:37-48 | video memory becomes what was shown |
| `Screen.Driver.BufferWriteChar` | drivers/screen.c:53-64 | exactly one shown cell changes, whether or not a flush was needed |
| `Screen.Driver.Fill` | drivers/screen.c:87-95 | 32-bit stores blank exactly the cells meant |
| `Screen.Driver.ScreenClear` | drivers/screen.c:84-100 | every cell is a blank in the current colour and the cursor is at row 0, column 0 |
| `Screen.Driver.ScreenScrollUp` | drivers/screen.c:234-257 | what is shown is the scrolled terminal |
| `Screen.Driver.ScreenUpdateCursor` | drivers/screen.c:262-276 | shows the same, flushes, and sends the cursor position if it was stale |
| `Screen.Driver.ScreenSetCursor` | drivers/screen.c:217-223 | moves the cursor within bounds and ignores positions outside; no cell changes |
| `Screen.Driver.ScreenSetColor` | drivers/screen.c:212-214 | colours later cells only, any two values given; 4-bit colours are kept apart |
| `Screen.Driver.HandleOverflow` | drivers/screen.c:139-151 | end of line and end of screen, as the terminal wraps |
| `Screen.Driver.Obey` | drivers/screen.c:109-130 | the control characters, as Screen.PutIsTyped has them by row and column |
| `Screen.Driver.PutOne` | drivers/screen.c:105-137 | each case of the switch, as Screen.PutIsTyped has it, before line and screen overflow are handled |
| `Screen.Driver.ScreenPutc` | drivers/screen.c:105-154 | every byte changes what is shown, by row and column, as its kind says, and as on the unbuffered terminal |
| `Screen.Driver.ScreenPrint` | drivers/screen.c:159-166 | a string acts as its characters one by one; a new line of text is shown as Screen.LineIsShown says |
| `Screen.Driver.ScreenScroll` | drivers/screen.c:234-257 | every row is one higher, the last is blank, the cursor stays |
| `Screen.Driver.Run` | drivers/screen.c:37-276 | for every sequence of operations, video memory overlaid with the pending cells is the memory of an unbuffered 80x25 terminal, and the cursor stays in bounds |
| `Screen.StaleCursor` | drivers/screen.c:217-276 | from the start, screen_set_cursor(1, 1) leaves the hardware cursor at 0 |
| `Processes.StepKeepsInv` | kernel/kernel.c:212-283 | every call keeps exactly one running slot, the current one, and clear bits on terminated slots only; pids stay distinct before the counter wraps |
| `Processes.TraceKeepsInv` | kernel/kernel.c:174-283 | the same for every reachable table |
| `Processes.PassedOverIsNearer` | kernel/kernel.c:264-279 | a ready slot that is not picked is strictly nearer the cursor afterwards and still ready |
| `Processes.CursorMoves` | kernel/kernel.c:264-265 | after i + 1 moves the cursor is at the one slot i slots ahead |
| `Processes.BoundedWaiting` | kernel/kernel.c:212-283 | across any interleaving of create, exit and schedule a ready slot is passed over at most as often as it is far from the cursor |
| `Processes.EveryReadySlotRuns` | kernel/kernel.c:260-283 | so within MAX_PROCESSES scheduling calls it has run |
| `Processes.SwitchToSwitches` | kernel/kernel.c:267-279 | a switch makes a ready slot run, the one that ran ready, and changes nothing else |
| `Processes.RunsAgain` | kernel/kernel.c:212-283 | whoever runs or is ready and does not exit runs again within 257 scheduling calls, across any interleaving |
| `Processes.ExitCodeStays` | kernel/kernel.c:240-257 | over any run a terminated slot keeps its exit code and all else until a process is put there |
| `Processes.CreateFailsOnce` | kernel/kernel.c:198-237 | while bit 0 is clear one call fails, its only effect is to set the bit, and the next call gets a pid if and only if some slot is free |
| `Processes.ProcessTable.constructor` | kernel/kernel.c:174-195 | slot 0 runs pid 1, all others are terminated, and the invariant holds |
| `Processes.ProcessTable.FindFreePid` | kernel/kernel.c:198-209 | claims the lowest clear slot; 0 also when there is none |
| `Processes.ProcessTable.ProcessCreate` | kernel/kernel.c:212-237 | 0 exactly when no bit or bit 0 is clear, and then no slot changes; otherwise the lowest clear slot gets a ready process with the next pid and the running process as its parent |
| `Processes.ProcessTable.ProcessSchedule` | kernel/kernel.c:260-283 | switches to the ready slot nearest ahead of the cursor, the one that ran is ready, nothing else changes; panics if and only if no slot is ready |
| `Processes.ProcessTable.ProcessExit` | kernel/kernel.c:240-257 | the current slot is terminated with the exit code, its bit is cleared and another process runs; panics if and only if no slot is ready |
| `Processes.CreateAfterExit` | kernel/kernel.c:174-257 | the calls themselves: after process_init, create returns 2, then exit, then create returns 0, then 3 |
| `Processes.LoneProcessPanics` | kernel/kernel.c:174-283 | right after process_init the running process panics in process_schedule |
| `Keyboard.PushAppends` | drivers/keyboard.c:98-105 | a nonzero character is appended if and only if fewer than 255 are held; nothing held is overwritten |
| `Keyboard.FullWhen` | drivers/keyboard.c:100-101 | the handler finds no room exactly when 255 characters are held |
| `Keyboard.PopRemovesFirst` | drivers/keyboard.c:116-117 | advancing removes exactly the oldest character |
| `Keyboard.StepKeepsInv` | drivers/keyboard.c:99-119 | with the handler between any two steps of the reader, delivered plus queued are the accepted characters in order |
| `Keyboard.NothingLost` | drivers/keyboard.c:99-119 | the same over every interleaving: none lost, duplicated or overwritten, at most 255 held |
| `Keyboard.Driver.constructor` | drivers/keyboard.c:35-44 | an empty ring |
| `Keyboard.Driver.Enqueue` | drivers/keyboard.c:98-105 | the handler's part is one push |
| `Keyboard.Driver.Getchar` | drivers/keyboard.c:110-120 | returns and removes the oldest character |
| `Keyboard.Driver.Available` | drivers/keyboard.c:123-125 | true exactly when something is queued |
| `InternetChecksum.SumFits` | net/net.c:450-461 | the sum of n bytes is at most 0xFFFF * (n + 1) / 2, so it fits 32 bits up to 131072 bytes |
| `InternetChecksum.OddLengthPads` | net/net.c:450-461 | a last odd byte counts as if a zero byte followed it |
| `InternetChecksum.FoldIsResidue` | net/net.c:463-465 | folding computes the residue modulo 65535, with 0 only for 0 |
| `InternetChecksum.NetChecksum` | net/net.c:450-468 | the loop computes the checksum of the sum modulo 2^32, which up to 131072 bytes is the checksum |
| `InternetChecksum.FoldSum` | net/net.c:463-465 | the folding loop ends and folds |
| `InternetChecksum.WrapLosesCarries` | net/net.c:452-461 | a wrapped accumulator gives the right result if and only if the number of wraps is a multiple of 65535 and no nonzero sum wraps to 0 |
| `InternetChecksum.LongBufferMisjudged` | net/net.c:450-468 | 131076 bytes of 0xFF verify, and net_checksum returns 1 for them |
| `InternetChecksum.ByteOrderIndependence` | net/net.c:450-468 | for every buffer, odd lengths included, little-endian summing gives the byte swap of the big-endian checksum, so storing it in host order puts the right bytes on the wire (section 2(B) of RFC 1071) |
| `InternetChecksum.VerifiesWhen` | net/net.c:185-188 | a buffer passes the receiver's test if and only if its sum is a positive multiple of 65535 |
| `InternetChecksum.ChecksumIs` | net/net.c:450-468 | the checksum is the one number that makes the sum a multiple of 65535, 0xFFFF exactly for a buffer of zeros |
| `InternetChecksum.SelfVerifies` | net/net.c:352-355 | zero the check field, insert the checksum, and the second checksum is 0, for every message and every aligned field |
| `InternetChecksum.WordErrorDetected` | net/net.c:185-188 | a change of one aligned word goes unnoticed if and only if it exchanges 0x0000 and 0xFFFF and the buffer is not left all zero |
| `InternetChecksum.NetworkOrder` | net/net.c:544-553 | ntohl undoes htonl, and htonl leaves the bytes in network order |
| `InternetChecksum.ShortOrder` | net/net.c:536-542 | ntohs undoes htons, and htons leaves the bytes in network order |
| `InternetChecksum.ReceiverAccepts` | net/net.c:155-191 | every header ip_transmit builds passes ip_receive's test, and version, header length, total length, identification, time to live, protocol and both addresses are read back |
| `Crc32Words.ModuleCalculateCrc` | kernel/module.c:140-152 | the nested loops on 32-bit words compute the CRC |
| `Crc32Words.PolynomialIs` | kernel/module.c:147 | the polynomial of the CRC on bits is 0xEDB88320 |
| `Crc32Words.StepIs` | kernel/module.c:147 | shift, mask and xor on a 32-bit word are one division step on its bits |
| `Crc32Words.Residue` | kernel/module.c:140-152 | a message followed by four bytes has the CRC 0x2144DF1C if and only if they are its CRC, low byte first |
| `Crc32Words.KnownValues` | kernel/module.c:140-152 | the CRCs of no byte, of one zero byte and of the digits 1 to 9: 0, 0xD202EF8D and 0xCBF43926 |
| `Crc32Polynomial.RemainderUnique` | kernel/module.c:140-152 | division by the generator leaves one remainder only |
| `Crc32Polynomial.StepDivides` | kernel/module.c:147 | one step multiplies by x and takes the generator of ITU-T V.42 off when there is an x^32 |
| `Crc32Polynomial.CrcIsRemainder` | kernel/module.c:140-152 | for every message, the complement of the CRC is the remainder, and the only one, of the message times x^32 with 32 ones added in front, divided by the generator |
| `Crc32.CrcOfXor` | kernel/module.c:140-152 | crc(a ^ b) = crc(a) ^ crc(b) ^ crc(0) for messages of equal length |
| `Crc32.BitStepInjective` | kernel/module.c:147 | one division step loses nothing |
| `Crc32.RegisterIsBitwise` | kernel/module.c:144-149 | feeding bytes eight steps at a time is feeding the message bit by bit |
| `Crc32.BurstDetected` | kernel/module.c:140-152 | two messages of any length that differ only within 32 consecutive bits have different CRCs |
| `Crc32.FourByteErrorDetected` | kernel/module.c:140-152 | in particular when they differ only within 4 consecutive bytes |
| `Crc32.TableStep` | kernel/module.c:145-148 | eight steps are one lookup in the table of section 8 of RFC 1952 |
| `Crc32.TableFormAgrees` | kernel/module.c:140-152 | the bitwise form equals the table-driven form on every message |
| `Digits.ReadBack` | kernel/printk.c:123-155 | reading the digits back in their base gives the value, for every base from 2 to 36 |
| `Digits.HexReadBack` | kernel/printk.c:160-172 | and so for fixed-width hexadecimal |
| `Digits.TextPlain` | kernel/printk.c:132-141 | digits contain no terminator, and decimal text only decimal digits |
| `Digits.TextIsDecimal` | kernel/printk.c:123-155 | base 10 gives decimal digits without a leading zero unless the number is 0, which read back |
| `Digits.DecimalUnique` | kernel/printk.c:123-155 | and a number has only one such text |
| `Digits.HexIsWord` | kernel/printk.c:160-172 | width 8 gives eight hexadecimal digits that read back as the 32-bit value |
| `Digits.HexUnique` | kernel/printk.c:160-172 | and no other digits do |
| `Digits.WordTextShort` | kernel/printk.c:178-178 | a 32-bit number has at most ten decimal digits, so the scratch buffer suffices |
| `Digits.PutDigits` | kernel/printk.c:98-107 | the digit loop writes the digits low first and nothing else |
| `Digits.ReverseRange` | kernel/printk.c:111-116 | swapping from both ends reverses exactly the range |
| `Digits.PutNumber` | kernel/printk.c:98-116 | digits, terminator and reversal together leave the number's text |
| `Digits.Utoa` | kernel/printk.c:123-155 | the terminated text in the base, or the empty string for an unusable base; nothing beyond it is written |
| `Digits.Itoa` | kernel/printk.c:80-118 | the same for signed numbers, with a sign in base 10 |
| `Digits.Itohex` | kernel/printk.c:160-172 | the low digits, right to left, and a terminator |
| `Format.EmitTwice` | kernel/printk.c:177-267 | cutting two texts one after the other is cutting their concatenation |
| `Format.Emit` | kernel/printk.c:217-226 | as much of a text as the limit allows |
| `Format.EmitTemp` | kernel/printk.c:187-193 | the same from the terminated scratch buffer |
| `Format.EmitConverted` | kernel/printk.c:185-245 | every conversion emits a text that spells its argument, cut to the limit |
| `Format.ConvertedSpells` | kernel/printk.c:185-245 | "%u" is the decimal text of its argument, "%d" and "%i" a sign and a decimal text, "%x" and "%X" eight hexadecimal digits, "%p" those after "0x", "%c" and "%s" the argument itself, "(null)" for none |
| `Format.RenderPrints` | kernel/printk.c:177-267 | the rendering of every format is the format with each conversion so replaced, "%%" by one percent sign, an unknown conversion by its character |
| `Format.OnlyRenderPrints` | kernel/printk.c:177-267 | and no other text is |
| `Format.FormatOne` | kernel/printk.c:181-262 | one character or conversion of the format emits the start of what is left to render |
| `Format.CutsToSize` | kernel/printk.c:182 | the cut is to size - 1 characters if and only if the size is below 2^31 or there is nothing to cut |
| `Format.FormatLoop` | kernel/printk.c:182-263 | the loop ends with the format or at its limit, negative limits included |
| `Format.VsnprintfInternal` | kernel/printk.c:177-267 | for every size but 2^31: exactly the first (int)size - 1 characters of the text that prints the arguments, none if that is negative, and a terminator, nothing written beyond them, and the length kept is returned; if nothing is cut the buffer prints them |
| `Format.ExtremeSizes` | kernel/printk.c:177-267 | size 0xFFFFFFFF gives the empty string whatever is printed, and size 0 still stores the terminator |
| `Format.Sprintf` | kernel/printk.c:660-669 | the rendering, cut to INT_MAX - 1 characters |
| `IpText.ShiftedIsSum` | net/net.c:476 | shifting in an octet below 256 is adding it, without carry |
| `IpText.IpAton` | net/net.c:470-486 | dots push the octet, digits extend it, other characters are skipped |
| `IpText.AtonDigits` | net/net.c:474-483 | a run of digits contributes the number it denotes |
| `IpText.AtonIgnoresTheRest` | net/net.c:474-483 | characters that are neither digits nor dots change nothing |
| `IpText.QuadRenders` | net/net.c:488-495 | the text is the four octets in decimal, separated by dots |
| `IpText.AtonUndoesNtoa` | net/net.c:470-495 | ip_aton(ip_ntoa(ip)) = ip for every 32-bit address |
| `IpText.IpNtoa` | net/net.c:488-495 | writes a terminated text of at most 15 characters that ip_aton reads back as the address |

## Left out

- SolixFS directories, the VFS layer, path lookup, O_TRUNC and close: only regular file data is modelled.
- SolixFs.FileSystem.constructor: reading superblock, bitmaps and inode table from the disk; a wrong magic number leaves nothing mounted.
- Volumes whose counters are wrong or whose block 0 is not reserved: mounting one is modelled, running on it is not.
- SolixFs.FileSystem.FreeBlock: a block number beyond the bitmap's memory is not modelled.
- SolixFs.FileSystem.FreeInode: an inode number beyond the bitmap's memory is not modelled.
- SolixFs.FileSystem.FileWrite: the offset has to be at or below the size, which file_seek keeps; writing past the end through a truncated file is not modelled.
- SolixFsRuns.Run: read counts as for Execute.
- SolixFsRuns.DoRead: read counts as for Execute.
- SolixFsRuns.Execute: a read's count has to keep offset + count below 2^32; what happens otherwise is stated by FileRead and ClipIsExact.
- Heap statistics (allocation counts, current_usage, peak_usage) and verify_heap_integrity, which does not hold after a neighbour's `prev` moved.
- KernelHeap.Heap.Kfree: a pointer behind memory that is no header of the list and yet looks like one in use is not modelled, since what it holds is arbitrary.
- AlignedAlloc.AlignedAllocator.Kfree: the same.
- Payload contents: callers are taken to write only inside their payloads, so headers change only through the allocator.
- AlignedAlloc.AlignedAllocator.KfreeAligned: the words below the pointer have to name a block of the list, as HeapRuns.Run shows they do for every pointer held.
- HeapRuns.DoMallocAligned: aligned requests do not wrap.
- HeapRuns.RunNested: the same.
- MixedRuns.DoAllocate: the same.
- MixedRuns.Run: the same.
- HeapRuns.Run: programs free only what they hold, and aligned requests do not wrap; a wrapped one is HeapFaults.WrappedRequestCorrupts.
- Page-table hardware, TLB invalidation and control registers; several directories sharing tables.
- Paging.PageDirectory.MapPage: the table allocation has to succeed, since the source writes through its result without a test; PagingHeap has the allocation and its failure.
- Paging.PageDirectory.CreateTable: the same.
- Paging.PageDirectory.IdentityMap: the same.
- Paging.Run: the same.
- PagingHeap.Run: table entries are kept beside the heap's memory; that stores in a table's page are safe is SlabCache.PageStoreIsSafe.
- Frames.FrameAllocator.constructor: memory sizes paging_init refuses are in PagingInit; the later panics of paging_init concern paging.
- Frames.FrameAllocator.FreeFrame: a frame number beyond the bitmap's memory is not modelled.
- SlabCache.KmemCache.constructor: object sizes under 4 or over 4056 bytes.
- Slab caches with SLAB_HWCACHE_ALIGN beyond the number of their objects, with SLAB_POISON, or with constructors; the heap memory of the cache structures; cache destruction, the registry of caches, the locks, and slab statistics other than active and errors.
- SlabCache.KmemCache.KmemCacheFree: freeing an address inside a slab that is not a live object is not modelled, nor is memory outside the slabs that happens to hold their magic number.
- SlabCache.KmemCache.FreeBulk: the same object given twice is not modelled.
- Slab list links: the three lists are sequences; that their words lie in slab pages is SlabCache.SlabWordInPage, the list heads are in the cache structure.
- Concurrent slab callers: the lock dropped while a cache grows is not exercised, calls run one after another.
- Screen statistics, and screen_print_n, screen_print_hex and screen_print_dec, which only call the operations modelled.
- Keyboard.Driver.Getchar: waiting on an empty ring is not modelled; the step system has it.
- Keyboard scancode decoding, the PIC and the halt instruction.
- Processes.ProcessTable.ProcessExit: the release of the kernel stack, whose kfree can panic as HeapRuns.Run says, is not modelled.
- Processes' kernel stacks (the allocation is a parameter), file descriptor tables and the context switch.
- Digits.Itoa: INT_MIN, whose negation overflows, and negative numbers in bases other than 10, whose digits the source takes from negative remainders.
- Format.VsnprintfInternal: size 2^31, where the source's subtraction overflows, and a format that ends in a lone '%', whose terminator the source reads past.
- IpText.IpAton: the octet wraps at 32 bits, where the source's int overflow is undefined.
- Ethernet, ARP, TCP, UDP, sockets and the ICMP handlers apart from their checksums; device drivers.
- Module loading and signatures, the log buffer and console levels, kernel/scheduler.c, kernel/irq.c, kernel/linux_vfs.c, boot code, the shell, the package manager and the GUI.
