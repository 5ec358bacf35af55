# LuhOS32 kernel core in Dafny

A model of the core of LuhOS32, a small 32-bit i686 kernel written in C, with
proofs about it. It covers:

- the physical page allocator, a bitmap of 4 KiB frames;
- the two-level i686 paging structures;
- the first-fit kernel heap, whose chunk headers sit inside the heap;
- the block-device registry, and the MBR scan that registers partitions as
  logical devices;
- the read-only initial ramdisk, and the host tool `initrd_gen` that builds
  its image;
- the freestanding string and conversion library;
- the shell's command parser and line editor;
- the task list and the process loader;
- the keyboard drivers' scancode cache;
- the text terminal;
- the GDT and IDT setup;
- PCI configuration-space enumeration.

The model has one module per C file, in one `.dfy` file each, with one
exception: `KeyCache` (`key_cache.dfy`) has no C file of its own. It holds the
scancode cache that the two `keyboard.c` files (the generic keyboard and the
PS/2 keyboard) each define in identical copies, and both keyboard modules use it.
A shared module
`Kernel` (`kernel.dfy`) holds what they have in common:

- the fixed-width integer types `u8`, `u16`, `u32` and `u64`;
- the status codes (`EOK`, `EIO`, `EINVARG`, `ENOMEM`, …);
- explicit 32-, 16- and 8-bit wrap-around (`Wrap32`, `Wrap16`, `Wrap8`);
- little-endian byte layouts;
- `Outcome<T>`, which is `Halt` for a kernel panic or `Done(value)`.

Each file follows the form of its C source:

- State the C code updates in place is a `class`: the heap allocator, the page
  allocator, the block-device registry, the task list, the process table, the
  key cache, the terminal, the line editor and the descriptor tables.
  - Each has `modifies` frames, and methods proved against specification
    functions.
- Memory the C code writes through pointers is an `array`, and pointers are
  indices into it:
  - `array<u8>` for the string library, the heap bytes and the ramdisk;
  - `array<u32>` for page directories and tables.
- Pure computations are functions, and lemmas relate them:
  - decoding MBR entries and ramdisk headers;
  - formatting numbers;
  - configuration addresses;
  - descriptor encodings.

Hardware and code outside the core become parameters:

- the frames `page_alloc` returns;
- a driver's read status and the sector it stores;
- the PCI configuration space, as a function;
- the status of each terminal write;
- host files, for `initrd_gen`.

### Behaviour of the C code worth noting

On these points the C code does something a reader might not expect; the
model follows the code each time:

- `krealloc` copies the new size from the old pointer, whatever the old
  chunk's size, so it can read past the old chunk.
- `register_logical_block_device` gives every partition the number of physical
  devices as its id, not a sequential local id.
- The MBR scan sets a partition's flags only for a non-zero boot indicator. For
  any other entry the field is never written; the model has `None` there.
- The MBR scan never checks the 0x55AA magic number.
- `task_new` returns its status code, not the task. So `process_load_for_slot`
  stores `EOK` (0) as a NULL task pointer and then fails with ENOMEM. It
  stores a process only when `task_new` failed.
- `task_list_remove` never updates the successor's `prev` link, which corrupts
  the list after two removals (`Task.RemoveMiddleThenLast`).
- The shell's backspace writes NUL at the length, not at the last character.
  The erased character therefore stays in the buffer, and the next Enter
  submits it.
- `keyboard_get_key` and `keyboard_ps2_get_event` shift 256 bytes down. The
  last byte is taken from just past the 256-byte cache.
- `populate_base_address_register` computes `6 - 4 * headertype`, which wraps
  for header types 2 and above, so all six BARs are read.
- `initrd_read` skips its clamp when `offset + size` wraps at 2^32.
- `initrd_readdir` at index 0 of a node other than the root computes
  `index - 1` as 0xFFFFFFFF and returns NULL.
- `parse_command` with `len < 2` stores one word into an array of zero slots.
- `initialise_initrd` panics before it builds `root_nodes`.

## Model

| member | source | states |
|---|---|---|
| PageAllocator.WordBitAddressing | kernel/src/mem/page_allocator.c:13-32 | the word index i / 32 and bit index i % 32 of bit_set, bit_clear and bit_get determine the frame, so distinct frames have distinct bits |
| PageAllocator.SetBit | kernel/src/mem/page_allocator.c:13-18 | after bit_set bit_get reports frame i used, and every other frame as before |
| PageAllocator.ClearBit | kernel/src/mem/page_allocator.c:20-25 | after bit_clear bit_get reports frame i free, and every other frame as before |
| PageAllocator.FirstFree | kernel/src/mem/page_allocator.c:127-140 | the frame page_alloc's scan finds lies at or after last_index and below num_pages |
| PageAllocator.FirstFreeSpec | kernel/src/mem/page_allocator.c:127-140 | the scan finds exactly the least clear bit at or after last_index and below num_pages, and finds none only when every such bit is set; it never wraps below the cursor |
| PageAllocator.AllocTwiceDistinct | kernel/src/mem/page_allocator.c:127-138 | two page_alloc calls with no free in between return different frames |
| PageAllocator.FreeThenAlloc | kernel/src/mem/page_allocator.c:144-149 | after page_free(a) the next page_alloc returns a again |
| PageAllocator.ReservedNeverAllocated | kernel/src/mem/page_allocator.c:156-161 | a frame given to page_reserve stays set under later allocations and is never returned by page_alloc |
| PageAllocator.SetAll | kernel/src/mem/page_allocator.c:134-134 | after bit_set on each index of a list, an index's bit is set iff it was set before or is in the list |
| PageAllocator.Allocs | kernel/src/mem/page_allocator.c:127-142 | page_alloc called count times in a row: count frames below num_pages, or None when one call panics |
| PageAllocator.AllocsSpec | kernel/src/mem/page_allocator.c:127-142 | frames allocated in a row lie at or after the starting cursor, were free before the first call, and come in strictly increasing order, so no frame is returned twice |
| PageAllocator.AllocsPrefix | kernel/src/mem/page_allocator.c:127-142 | the first k of a run of allocations are the run of k allocations |
| PageAllocator.AllocsNext | kernel/src/mem/page_allocator.c:127-142 | the next allocation of a run searches from the frame the previous one returned, in the bitmap with all earlier frames set |
| PageAllocator.AllocsStop | kernel/src/mem/page_allocator.c:140-141 | once a call in a run panics, every longer run panics |
| PageAllocator.PageAllocator.AllocNext | kernel/src/mem/page_allocator.c:127-142 | page_alloc as the next call of a run: it panics exactly when that allocation does; otherwise the bitmap is SetAll of the run so far, and the cursor and the returned address are those of the new frame |
| PageAllocator.MaxAvailableEndSpec | kernel/src/mem/page_allocator.c:70-73 | the highest available end is at least the end of every available region, and is 0 or the end of one of them |
| PageAllocator.FirstFit | kernel/src/mem/page_allocator.c:81-95 | the region chosen for the bitmap is available and at least the bitmap's size |
| PageAllocator.FirstFitSpec | kernel/src/mem/page_allocator.c:81-95 | no earlier available region is large enough, and there is no choice only when no region is |
| PageAllocator.LargestHoleSpec | kernel/src/mem/page_allocator.c:163-180 | when lengths fit in 32 bits, the size is the longest RESERVED region's length and the address that of the first region of that length; with no non-empty RESERVED region the result is (NULL, 0) |
| PageAllocator.PageAllocator.constructor | kernel/src/mem/page_allocator.c:6-11 | the zeroed global: no pages, no bitmap, cursor 0 |
| PageAllocator.PageAllocator.GetNumPages | kernel/src/mem/page_allocator.c:151-154 | every page get_num_pages counts has a bit in the bitmap |
| PageAllocator.PageAllocator.Alloc | kernel/src/mem/page_allocator.c:127-142 | halts exactly when FirstFree finds no clear bit from last_index; otherwise returns that frame's address, sets its bit and nothing else, and moves the cursor to it |
| PageAllocator.PageAllocator.Free | kernel/src/mem/page_allocator.c:144-149 | the bitmap becomes ClearBit of ptr / 4096 and the cursor moves to it |
| PageAllocator.PageAllocator.Reserve | kernel/src/mem/page_allocator.c:156-161 | the bitmap becomes SetBit of ptr / 4096 and the cursor moves to it |
| PageAllocator.PageAllocator.Init | kernel/src/mem/page_allocator.c:34-125 | halts on an unknown region type; otherwise num_pages is the highest available end / 4096, the map becomes InitMap, the status is InitStatus (ENOMEM when no region can host the bitmap); on EOK it halts when the third loop would spin, and otherwise a page's bit is set exactly when no available region frees it |
| Paging.GetIndicesSpec | kernel/src/arch/i686/paging.c:48-67 | for an aligned address both indices are below 1024 and compose back to the address; an unaligned one gives -EINVARG with the outputs untouched |
| Paging.GetIndicesOfCompose | kernel/src/arch/i686/paging.c:53-67 | every (directory, table) index pair is the image of exactly one aligned address |
| Paging.FrameOf | kernel/src/arch/i686/paging.c:34-34 | masking an entry with 0xFFFFF000 gives a page-aligned frame address and recovers an aligned address from an entry built with flags |
| Paging.WithFlags | kernel/src/arch/i686/paging.c:20-23 | or-ing flags below 4096 into an aligned address is a sum, and the frame part stays the address |
| Paging.Writeable | kernel/src/arch/i686/paging.c:23-23 | the flags gain the writeable bit and keep the others |
| Paging.CreatedIsIdentity | kernel/src/arch/i686/paging.c:9-27 | a directory built by page_directory_create maps every aligned virtual address to itself, with the caller's flags |
| Paging.FrameAddress | kernel/src/mem/page_allocator.c:137-137 | the address page_alloc returns for a frame below num_pages is page-aligned and below 4 GiB |
| Paging.Frames | kernel/src/mem/page_allocator.c:137-137 | each frame index becomes its page-aligned address, index × 4096 |
| Paging.AllocatedFramesGood | kernel/src/arch/i686/paging.c:9-27 | the 1025 frames that page_alloc returns in a row are aligned and pairwise distinct (GoodFrames) |
| Paging.DirectoryCreate | kernel/src/arch/i686/paging.c:9-27 | calls page_alloc 1025 times against the real allocator and halts exactly when one of those calls panics (Allocs is None). Otherwise the directory is the first frame returned and table i the (i+1)-th, and memory satisfies Created (identity entries, directory entries writeable) with no other word changed. The allocator's bitmap gains exactly those 1025 bits (SetAll) and its cursor rests on the last frame |
| Paging.CreateDirectory | kernel/src/arch/i686/paging.c:12-12 | the first page_alloc call: it halts only when the 1025 allocations cannot all succeed; otherwise the directory is the first frame of the run, and the allocator and memory are at the start of the outer loop (AllocProgress, MemProgress at 0) |
| Paging.CreateTables | kernel/src/arch/i686/paging.c:15-24 | the outer loop halts exactly when the run of 1025 allocations fails; otherwise all 1024 tables are taken in order and written (AllocProgress, MemProgress at 1024) and the directory is returned |
| Paging.CreateTable | kernel/src/arch/i686/paging.c:17-23 | one iteration: a failed page_alloc means the run of 1025 fails; otherwise one more frame is taken and table i and directory entry i are written (AllocProgress, MemProgress at i + 1) |
| Paging.CreateStart | kernel/src/arch/i686/paging.c:12-14 | before the outer loop no table is written and the directory is the run's first frame |
| Paging.CreateFinish | kernel/src/arch/i686/paging.c:15-26 | after 1024 iterations the run succeeded, memory satisfies Created for its frames and no word outside the directory and the tables changed |
| Paging.MemAdvance | kernel/src/arch/i686/paging.c:17-23 | the stores of one iteration, with the frame page_alloc returned, keep MemProgress from i to i + 1 |
| Paging.WriteTable | kernel/src/arch/i686/paging.c:17-23 | table i gets its 1024 identity entries and nothing outside it changes; then directory entry i is written with the table's address, writeable |
| Paging.CreateStep | kernel/src/arch/i686/paging.c:14-24 | one iteration of the outer loop extends CreatedUpTo from i to i + 1 tables |
| Paging.FreedFrames | kernel/src/arch/i686/paging.c:29-40 | page_directory_free hands 1025 frames to page_free: each entry's table in order, then the directory |
| Paging.FreeAfterCreate | kernel/src/arch/i686/paging.c:9-40 | freeing a directory page_directory_create built frees exactly the frames it took |
| Paging.CreateThenFree | kernel/src/arch/i686/paging.c:9-40 | page_directory_free of a directory page_directory_create built hands page_free each table then the directory, every one a frame below num_pages, and leaves the bitmap exactly as it was before the create |
| Paging.ClearAllocated | kernel/src/arch/i686/paging.c:36-39 | clearing the frames of a run, in page_directory_free's order, undoes setting them: the bitmap returns to its state before the run |
| Paging.ClearFramesSpec | kernel/src/arch/i686/paging.c:36-39 | after freeing a list of frames each of them is free and every other flag is as before |
| Paging.DirectoryFree | kernel/src/arch/i686/paging.c:29-40 | the page allocator's bitmap becomes ClearFrames of FreedFrames and its cursor the directory's frame |
| Paging.PagingState.constructor | kernel/src/arch/i686/paging.c:7-7 | no directory is current at first |
| Paging.PagingState.SwitchDirectory | kernel/src/arch/i686/paging.c:42-46 | the directory becomes the current one |
| Paging.Set | kernel/src/arch/i686/paging.c:69-91 | for an aligned address the page-table entry the directory selects becomes val and no other word changes; an unaligned one returns -EINVARG and changes nothing |
| Paging.Map | kernel/src/arch/i686/paging.c:93-103 | -EINVARG and no change unless both addresses are aligned; otherwise EOK and only the table entry for virt changes, to phys with the flags (MapEffect) |
| Paging.MapSpec | kernel/src/arch/i686/paging.c:93-103 | paging_map of aligned addresses writes one word, the table entry for virt, as phys with the flags |
| Paging.MapEffect | kernel/src/arch/i686/paging.c:93-103 | paging_map's effect: MapSpec for two aligned addresses, otherwise memory unchanged |
| Paging.MapThenTranslate | kernel/src/arch/i686/paging.c:85-103 | after paging_map virt translates to phys |
| Paging.MapKeepsOthers | kernel/src/arch/i686/paging.c:85-103 | after paging_map every other address whose directory entry and table entry are not the word written translates as before |
| Heap.FirstFit | kernel/src/sys/heap.c:51-57 | the chunk allocate's search stops at is free and strictly larger than the request |
| Heap.FirstFitSpec | kernel/src/sys/heap.c:51-63 | no earlier chunk is free and larger than the request, and there is no fit (the panic) only when no chunk fits |
| Heap.SplitShape | kernel/src/sys/heap.c:65-79 | a chunk of at least req + 17 bytes splits into a used chunk of exactly req bytes and a free chunk of the rest; a smaller one is used whole |
| Heap.SplitTotal | kernel/src/sys/heap.c:65-79 | splitting keeps the heap's total size and every chunk before the split |
| Heap.SplitNoAdjacentFree | kernel/src/sys/heap.c:65-79 | splitting a free chunk keeps the invariant that no two neighbours are free |
| Heap.AllocatePreserves | kernel/src/sys/heap.c:47-83 | allocate keeps the total size and the no-adjacent-free invariant; the chunk taken was free and larger than req, keeps its address, is now used and holds req bytes inside the heap |
| Heap.SplitSlices | kernel/src/sys/heap.c:65-79 | allocation changes only the chunk taken: it becomes a used req-byte chunk followed by a free chunk of the rest, or is used whole |
| Heap.AllocateShape | kernel/src/sys/heap.c:51-79 | the first fit is split as SplitSlices describes |
| Heap.SplitKeepsChunk | kernel/src/sys/heap.c:65-79 | every chunk address before an allocation is still a chunk address after it |
| Heap.SurvivesAllocate | kernel/src/sys/heap.c:47-83 | every payload address handed out before an allocation is still a payload address after it |
| Heap.MergeTotal | kernel/src/sys/heap.c:146-161 | absorbing a neighbour keeps the total size and the merged chunk's address |
| Heap.MergeCovers | kernel/src/sys/heap.c:146-161 | after a merge the bytes either chunk covered are still covered by the merged chunk |
| Heap.MarkFree | kernel/src/sys/heap.c:142-142 | marking a chunk free changes no address or total and spoils the invariant only around it |
| Heap.PrevPhase | kernel/src/sys/heap.c:146-153 | merging into a free predecessor keeps the total and the freed bytes covered, and leaves a free chunk with a used predecessor |
| Heap.NextPhase | kernel/src/sys/heap.c:155-161 | merging a free successor keeps the total and the freed bytes covered, and restores the invariant |
| Heap.FreePreserves | kernel/src/sys/heap.c:138-164 | kfree keeps the total size and the no-adjacent-free invariant, and the freed chunk's header and payload lie inside one free chunk |
| Heap.FreeKeepsTotal | kernel/src/sys/heap.c:138-164 | kfree keeps the total size and leaves the chunk holding the freed bytes free |
| Heap.FreeLastRestoresInit | kernel/src/sys/heap.c:38-42 | freeing the only used chunk coalesces the heap into one free chunk of the whole heap, the state heap_init leaves |
| Heap.MapHeapPages | kernel/src/sys/heap.c:31-36 | heap_init's loop maps page i of the heap onto frames[i], present and writeable, as MapPages states |
| Heap.AllocateIn | kernel/src/sys/heap.c:47-83 | allocate on the heap bytes: halts exactly when AllocateSpec finds no fit; otherwise the chunks become AllocateSpec's and the result is the taken chunk's payload address; the bytes change as AllocWritten says |
| Heap.TakeChunk | kernel/src/sys/heap.c:65-82 | once the first fit `k` is found: the chunks become Split(cs, k, req), the result is chunk k's payload address, and the bytes change as AllocWritten says |
| Heap.Take | kernel/src/sys/heap.c:65-81 | with the size the header holds at least req + 17 (in uint32_t arithmetic) the split's stores (Taken); otherwise only the flag byte becomes 1 |
| Heap.TakeSplit | kernel/src/sys/heap.c:65-79 | the split's stores for chunk k are those Taken describes |
| Heap.SplitChunk | kernel/src/sys/heap.c:67-81 | a whole free header after the req bytes, the next chunk's prev when there is one, then the taken chunk's size, next and flag, every other byte kept (TakeWritten) |
| Heap.Claim | kernel/src/sys/heap.c:77-81 | the taken chunk's size, next and flag are stored and every other byte is kept |
| Heap.NewHeader | kernel/src/sys/heap.c:67-71 | the new chunk's whole header is stored and every other byte is kept |
| Heap.Write32 | kernel/src/sys/heap.c:40-42 | a uint32_t store: the four bytes read back as the value and every other byte is kept |
| Heap.FreeIn | kernel/src/sys/heap.c:138-164 | kfree on the heap bytes: the chunks become FreeSpec and every header is stored for them; the bytes change as FreeWritten says |
| Heap.FreePrev | kernel/src/sys/heap.c:143-153 | kfree's first merge: into a free predecessor (PrevStores), the chunks becoming CoalescePrev's and the cursor the predecessor's header; otherwise nothing changes |
| Heap.PrevFree | kernel/src/sys/heap.c:143-143 | kfree's test of the prev header is true exactly when the chunk has a predecessor and that one is free; the link read is the predecessor's address |
| Heap.MergePrev | kernel/src/sys/heap.c:145-150 | the merge into the predecessor stores the merged chunk's header and the successor's prev (Merged) |
| Heap.JoinPrev | kernel/src/sys/heap.c:145-150 | the predecessor's next, then its size grown by the chunk and its header, then the successor's prev, every other byte kept (MergeWritten) |
| Heap.FreeNext | kernel/src/sys/heap.c:155-163 | kfree's second merge: a free successor is absorbed (NextStores) and the chunks become CoalesceNext's; otherwise nothing changes |
| Heap.MergeNext | kernel/src/sys/heap.c:157-162 | absorbing the successor stores the merged chunk's header and the new successor's prev (Merged) |
| Heap.AbsorbNext | kernel/src/sys/heap.c:157-162 | the chunk's size grown by the successor and its header, then its next, then the new successor's prev, every other byte kept (MergeWritten) |
| Heap.FindFit | kernel/src/sys/heap.c:51-57 | the walk along the chunk links finds FirstFit, with the address of its header |
| Heap.AlignUpSpec | kernel/src/sys/heap.c:105-105 | the adjusted pointer is a multiple of the alignment, at least 1 and at most the alignment above the raw one |
| Heap.Heap.constructor | kernel/src/sys/heap.c:14-18 | the zeroed global before heap_init |
| Heap.Heap.Init | kernel/src/sys/heap.c:20-45 | numPages below 1 gives -EINVARG and no change; otherwise EOK, the pages mapped as MapPages, and one free chunk of Wrap32(numPages * 4096) - 16 bytes, which is Valid when the size does not wrap |
| Heap.Heap.Allocate | kernel/src/sys/heap.c:47-83 | halts exactly when no chunk fits; otherwise the chunks become the split of the first fit, the result is that chunk's payload address, and Valid is kept |
| Heap.Heap.Kmalloc | kernel/src/sys/heap.c:85-95 | halts exactly when no chunk fits, with the heap bytes unchanged; otherwise the chunks become the split of the first fit and Valid is kept, allocate's header stores are those AllocWritten describes (the ghost `mA` is the heap bytes after them), and then the req bytes handed out are zero while every other byte is as in `mA` |
| Heap.Heap.KmallocAligned | kernel/src/sys/heap.c:97-109 | the result is AlignUp of the payload address of an allocation of req + alignment bytes, and the req bytes there are zero |
| Heap.Heap.Kcalloc | kernel/src/sys/heap.c:124-136 | as Kmalloc for Wrap32(num * elementSize) bytes: allocate's header stores (AllocWritten, giving `mA`), then that many bytes zeroed and every other byte as in `mA` |
| Heap.FirstHeader | kernel/src/sys/heap.c:38-42 | in a heap of at least 16 bytes, the first header holds NULL links, the size and the free flag |
| Heap.Heap.Kfree | kernel/src/sys/heap.c:138-164 | the chunks become FreeSpec of the chunk whose payload is ptr, and Valid is kept |
| Heap.Heap.CopyThenFree | kernel/src/sys/heap.c:113-120 | after krealloc's allocation: when it halted nothing changes; otherwise req bytes from ptr are copied forward to the new payload, then ptr's chunk `j` is freed, the chunks becoming FreeSpec and the bytes FreeWritten of the copied ones |
| Heap.Heap.Krealloc | kernel/src/sys/heap.c:111-122 | halts exactly when no chunk fits, changing nothing; otherwise allocate splits the first fit (chunks `cs`, chunk `k` taken, header stores AllocWritten giving `mA`), req bytes read from ptr, whatever ptr's chunk size, are copied forward into chunk `k`'s payload, and ptr's chunk `j` is freed with the header stores FreeWritten describes |
| BlockDevice.DiskName | kernel/src/dev/block_device.c:12-15 | physical device n is named "sd", the letter 'a' + n and a NUL |
| BlockDevice.DiskNamesDistinct | kernel/src/dev/block_device.c:12-15 | distinct physical devices get distinct names |
| BlockDevice.PartitionName | kernel/src/dev/block_device.c:61-65 | a partition is named "sd", the parent's letter, '1' + local_id and a NUL |
| BlockDevice.PartitionNamesDistinct | kernel/src/dev/block_device.c:61-65 | the partitions of one disk with distinct local ids get distinct names |
| BlockDevice.Calls | kernel/src/dev/block_device.c:25-27 | call i of a request is block lba + i at buffer + i * block_size, in 32-bit arithmetic |
| BlockDevice.FirstFailure | kernel/src/dev/block_device.c:25-31 | the first call whose result is not EOK; all earlier ones returned EOK |
| BlockDevice.RunRequest | kernel/src/dev/block_device.c:25-44 | one call per block in increasing order up to the first failure; halts exactly when some call fails |
| BlockDevice.SubmitReadRequest | kernel/src/dev/block_device.c:19-33 | RunRequest with read calls |
| BlockDevice.SubmitWriteRequest | kernel/src/dev/block_device.c:35-46 | RunRequest with write calls |
| BlockDevice.Registry.constructor | kernel/src/dev/block_device.c:3-7 | both registries start empty |
| BlockDevice.Registry.RegisterBlockDevice | kernel/src/dev/block_device.c:9-17 | the device is appended with the current count as id and DiskName(count) as name |
| BlockDevice.Registry.RegisterLogicalBlockDevice | kernel/src/dev/block_device.c:58-67 | the partition is appended with the number of physical devices as id and the parent's partition name |
| BlockDevice.Registry.NumBlockDevices | kernel/src/dev/block_device.c:53-56 | the number of devices registered, device i having id i |
| BlockDevice.Registry.NumLogicalBlockDevices | kernel/src/dev/block_device.c:74-77 | the number of logical devices registered |
| BlockDevice.Registry.BlockDevices | kernel/src/dev/block_device.c:48-51 | the devices registered, at most 10, with pairwise distinct names |
| BlockDevice.Registry.LogicalBlockDevices | kernel/src/dev/block_device.c:69-72 | the logical devices registered, at most 50, each with a registered parent, an id no larger than the number of physical devices, and its parent's partition name |
| Mbr.EntryAt | kernel/src/fs/mbr.c:23-30 | entry k starts at byte 446 + 16k |
| Mbr.RecordLayout | kernel/src/fs/mbr.c:23-30 | the four entries fill bytes 446 to 509 and the magic number takes 510 and 511 |
| Mbr.EncodeEntry | kernel/src/fs/mbr.c:5-21 | an entry packs into 16 bytes |
| Mbr.DecodeOfEncode | kernel/src/fs/mbr.c:5-30 | a record holding an encoded entry at slot k decodes back to that entry, whatever the other bytes |
| Mbr.DecodeSlotSpec | kernel/src/fs/mbr.c:45-64 | a slot is empty exactly when its type byte (+4) is zero; otherwise it carries the boot flag (+0) as BOOTABLE or unset, the type, and the LBA (+8) and length (+12) |
| Mbr.MagicIgnored | kernel/src/fs/mbr.c:45-65 | records that agree on bytes 446 to 509 give the same slots, whatever their magic number |
| Mbr.Slots | kernel/src/fs/mbr.c:45-65 | the four slots filled from sector 0 |
| Mbr.ParseBlockDevice | kernel/src/fs/mbr.c:32-66 | one read of LBA 0 into the buffer; halts exactly when its status is not EOK, otherwise the four slots become Slots of the sector |
| Mbr.Registered | kernel/src/fs/mbr.c:78-88 | a registered slot keeps its partition, with the disk count as id and the parent's partition name |
| Mbr.SlotDevices | kernel/src/fs/mbr.c:78-88 | at most one device per slot of a disk, in slot order |
| Mbr.Tables | kernel/src/fs/mbr.c:75-77 | the slots of each disk from its sector 0 |
| Mbr.ScanDevices | kernel/src/fs/mbr.c:68-91 | at most four devices per disk scanned |
| Mbr.ScanDevicesSpec | kernel/src/fs/mbr.c:68-91 | every logical device found has the disk count as id, a scanned disk as parent, that disk's entry unchanged and a name after that disk |
| Mbr.SlotDevicesSpec | kernel/src/fs/mbr.c:78-88 | every device registered for a disk comes from one of its filled slots, with its entry unchanged |
| Mbr.EmptyTableNoDevices | kernel/src/fs/mbr.c:47-52 | a disk whose four type bytes are zero contributes no device |
| Mbr.RegisterSlots | kernel/src/fs/mbr.c:78-88 | the logical registry gains SlotDevices of the disk's slots |
| Mbr.ScanDisk | kernel/src/fs/mbr.c:75-88 | one disk: halts on a failed read, otherwise its devices are appended |
| Mbr.ScanNext | kernel/src/fs/mbr.c:75-88 | one iteration of the disk loop: halts exactly when the disk's read fails; otherwise the logical registry grows to ScanDevices of one more disk |
| Mbr.ScanLogicalBlockDevicesMbr | kernel/src/fs/mbr.c:68-92 | halts exactly when a disk's read fails; otherwise EOK and the logical registry becomes the old one followed by ScanDevices of all disks |
| Initrd.ReadCountClamps | kernel/src/fs/initrd.c:33-38 | without wrap-around the count is min(size, length - offset), 0 past the end, and the bytes read stay inside the file |
| Initrd.ReadCountWraps | kernel/src/fs/initrd.c:35-36 | when offset + size wraps at 2^32 the clamp is skipped and the full size is copied |
| Initrd.ReaddirCases | kernel/src/fs/initrd.c:41-58 | "dev" at index 0 of the root, root node index - 1 for 1 to nroot_nodes, NULL otherwise, including index 0 of any other node |
| Initrd.FindPath | kernel/src/fs/initrd.c:67-69 | the result is the first root node whose path equals the name, and none has it when the result is None |
| Initrd.FinddirFinds | kernel/src/fs/initrd.c:60-71 | finddir's answer is /dev for "dev" under the root, else the first node whose path is the name |
| Initrd.Initrd.constructor | kernel/src/fs/initrd.c:20-28 | the globals start out zero |
| Initrd.Initrd.Read | kernel/src/fs/initrd.c:30-39 | returns ReadCount and copies that many bytes from the file at offset to the buffer, as a forward copy |
| Initrd.Initrd.Readdir | kernel/src/fs/initrd.c:41-58 | found exactly when ReaddirEntry has an entry, which then is the static dirent; otherwise the dirent is kept |
| Initrd.Initrd.Finddir | kernel/src/fs/initrd.c:60-71 | the result is FinddirResult |
| Initrd.Initrd.InitialiseInitrd | kernel/src/fs/initrd.c:73-105 | records the header locations, builds the root and /dev nodes and always halts |
| InitrdGen.Zeros | tools/initrd_gen/initrd_gen.c:69-69 | n zero bytes |
| InitrdGen.EncodeEntry | tools/initrd_gen/initrd_gen.c:9-15 | an entry packs into 18 bytes |
| InitrdGen.DecodeOfEncodeEntry | tools/initrd_gen/initrd_gen.c:9-15 | an entry read back from its 18 bytes is the entry written |
| InitrdGen.EncodeTable | tools/initrd_gen/initrd_gen.c:17-22 | a table of k entries packs into 18k bytes |
| InitrdGen.EncodeTableAt | tools/initrd_gen/initrd_gen.c:17-22 | entry k occupies bytes 18k to 18k + 18 of the table |
| InitrdGen.EncodeHeader | tools/initrd_gen/initrd_gen.c:17-26 | the header is exactly 512 bytes |
| InitrdGen.DecodeOfEncodeHeader | tools/initrd_gen/initrd_gen.c:17-46 | the header read back from its 512 bytes is the header written |
| InitrdGen.NumBlocksCeil | tools/initrd_gen/initrd_gen.c:74-74 | the block count is the ceiling of size / 128 |
| InitrdGen.Filename | tools/initrd_gen/initrd_gen.c:71-71 | the guest name cut to 10 bytes and padded with NULs |
| InitrdGen.Padded | tools/initrd_gen/initrd_gen.c:80-84 | a file's contents followed by zeros up to whole 128-byte blocks |
| InitrdGen.Data | tools/initrd_gen/initrd_gen.c:80-84 | the data is 128 bytes per block of all files |
| InitrdGen.DataPrefix | tools/initrd_gen/initrd_gen.c:80-84 | the data of the first n files begins the data of all of them |
| InitrdGen.DataLayout | tools/initrd_gen/initrd_gen.c:43-84 | file k's padded bytes start 128 times the blocks before it into the data |
| InitrdGen.FirstMissing | tools/initrd_gen/initrd_gen.c:58-63 | the first pair whose host file is missing; all before it exist |
| InitrdGen.TableAfter | tools/initrd_gen/initrd_gen.c:78-78 | the table after n files has 28 entries, theirs first and zeroed ones after |
| InitrdGen.ImageSize | tools/initrd_gen/initrd_gen.c:87-87 | header.size is the image's length: 512 + 128 times the total blocks |
| InitrdGen.FinalEntry | tools/initrd_gen/initrd_gen.c:49-76 | entry k of the final header describes file k, and its start block is where file k's bytes lie in the data |
| InitrdGen.LoopStep | tools/initrd_gen/initrd_gen.c:51-85 | one more file keeps the loop state: table, block counter and data |
| InitrdGen.AddFile | tools/initrd_gen/initrd_gen.c:51-85 | one iteration: the file's entry, the counter past its blocks and its padded blocks appended |
| InitrdGen.Generate | tools/initrd_gen/initrd_gen.c:24-93 | an even argc or a failed image open returns 1 with nothing written; a missing host file returns 1 with EarlyImage of the data so far (an empty file when nothing was written, else 512 zero bytes and the data, since the seek to byte 512 does not extend the file); otherwise 0 and the image is EncodeHeader(FinalHeader) followed by Data |
| Cast.Pow16 | kernel/src/lib/cast.c:9-9 | the place value 16^i of nibble i is positive and above i |
| Cast.ShiftDivides | kernel/src/lib/cast.c:9-9 | shifting out i nibbles divides by 16^i |
| Cast.HexStringShape | kernel/src/lib/cast.c:7-13 | nine characters: eight uppercase hex digits and a NUL |
| Cast.DigitValueOfNibble | kernel/src/lib/cast.c:5-10 | each digit character stands for its nibble |
| Cast.PrefixValue | kernel/src/lib/cast.c:7-11 | the first m digits read in base 16 give the value without its last 8 - m nibbles |
| Cast.HexRoundTrip | kernel/src/lib/cast.c:7-11 | the eight digits read in base 16 give back the value |
| Cast.Uint32ToHexString | kernel/src/lib/cast.c:3-14 | writes HexString(value) at the pointer and nothing else |
| Ascii.Pow10 | kernel/src/lib/ascii.c:9-12 | the place value 10^i of the do-while loop's digit i is positive and above i |
| Ascii.Digits | kernel/src/lib/ascii.c:9-12 | at least one digit character |
| Ascii.DigitsAt | kernel/src/lib/ascii.c:9-12 | character i is '0' + (m / 10^i) % 10 |
| Ascii.DigitsLength | kernel/src/lib/ascii.c:9-12 | the number of digits is the least d of at least 1 with m below 10^d |
| Ascii.DigitsBound | kernel/src/lib/ascii.c:9-12 | a number below 10^d, d at least 1, gets at most d digits |
| Ascii.DigitsLengthUnique | kernel/src/lib/ascii.c:9-12 | the digit count is the d of at least 1 with 10^(d-1) <= m < 10^d, and no other |
| Ascii.AsciiOfInt32 | kernel/src/lib/ascii.c:3-17 | for any 32-bit int the string written, NUL included, takes at most 12 bytes |
| Ascii.DigitsRoundTrip | kernel/src/lib/ascii.c:9-12 | the digits read least significant first give back the number |
| Ascii.AsciiOfShape | kernel/src/lib/ascii.c:3-17 | 0 becomes "0"; otherwise the digits of abs(n), then '-' when n is negative, then the NUL |
| Ascii.DigitsAreDigits | kernel/src/lib/ascii.c:9-12 | every character written is a decimal digit |
| Ascii.WriteDigits | kernel/src/lib/ascii.c:9-12 | the do-while loop writes Digits(m) and nothing else |
| Ascii.IntToAscii | kernel/src/lib/ascii.c:3-17 | writes AsciiOf(n) at str and nothing else |
| Ascii.StringError | kernel/src/lib/ascii.c:31-34 | the name of code e, a string of at least three characters starting with E |
| Ascii.StringErrorNames | kernel/src/lib/ascii.c:19-34 | distinct codes have distinct names, and EHRDWRE (10) is the first code without one |
| Strings.NulFrom | kernel/src/lib/string.c:174-183 | the first NUL at or after p |
| Strings.CStr | kernel/src/lib/string.c:174-183 | the NUL-free characters before the terminator |
| Strings.AsCharInjective | kernel/src/lib/string.c:115-125 | distinct bytes are distinct signed chars |
| Strings.Strlen | kernel/src/lib/string.c:174-183 | the length of CStr |
| Strings.CopyForwardCopies | kernel/src/lib/string.c:4-15 | when the destination does not start inside the source, the forward copy moves the source bytes verbatim and nothing else |
| Strings.CopyForwardMoves | kernel/src/lib/string.c:4-15 | the same stated on the two ranges |
| Strings.Memcpy | kernel/src/lib/string.c:4-15 | memory becomes CopyForward of the ranges, and dest is returned |
| Strings.Memset | kernel/src/lib/string.c:17-27 | the n bytes become (uint8_t)c, no other byte changes, and s is returned |
| Strings.Memmove | kernel/src/lib/string.c:29-50 | dest's n bytes hold what src's held before, even when they overlap; no other byte changes |
| Strings.Compare | kernel/src/lib/string.c:52-66 | memcmp's result is -1, 0 or 1 |
| Strings.CompareSpec | kernel/src/lib/string.c:52-66 | 0 exactly when the ranges are equal; otherwise the sign of the first difference, read unsigned |
| Strings.Memcmp | kernel/src/lib/string.c:52-66 | the result is Compare of the two ranges |
| Strings.Memchr | kernel/src/lib/string.c:68-81 | the first of the n bytes equal to c, or None when none is |
| Strings.StrDiffZero | kernel/src/lib/string.c:91-99 | strcmp is 0 exactly when the strings are equal |
| Strings.Strcmp | kernel/src/lib/string.c:91-99 | the unsigned difference at the first mismatch or terminator, StrDiff |
| Strings.StrnDiffZero | kernel/src/lib/string.c:101-113 | strncmp is 0 exactly when the strings agree on their first n characters |
| Strings.Strncmp | kernel/src/lib/string.c:101-113 | the result is StrnDiff |
| Strings.Strchr | kernel/src/lib/string.c:115-125 | the first position up to the terminator whose char equals c, or None |
| Strings.StrchrFinds | kernel/src/lib/string.c:115-125 | for a non-NUL byte strchr finds it exactly when it occurs in the string |
| Strings.SpanEnd | kernel/src/lib/string.c:127-150 | the run from p up to the result consists of accepted characters and the next one is not accepted |
| Strings.BreakEnd | kernel/src/lib/string.c:152-172 | the run from p up to the result has no rejected character and the next one is rejected or the end |
| Strings.Strspn | kernel/src/lib/string.c:127-150 | the length of the longest prefix made of characters of s2 |
| Strings.Strcspn | kernel/src/lib/string.c:152-172 | 0 for a NULL pointer, else the length of the longest prefix free of s2's characters |
| Strings.Strpbrk | kernel/src/lib/string.c:250-266 | the first character of s1 that occurs in s2, or None |
| Strings.PlacedString | kernel/src/lib/string.c:296-302 | once a NUL-free string and its terminator are placed, the position holds that string |
| Strings.CopyString | kernel/src/lib/string.c:296-302 | the string at src and its terminator are copied to dest; nothing else changes |
| Strings.Strcpy | kernel/src/lib/string.c:296-302 | dest holds the string that was at src, and dest is returned |
| Strings.AppendedString | kernel/src/lib/string.c:236-248 | placing a string and a NUL over a terminator extends the string there |
| Strings.Strcat | kernel/src/lib/string.c:236-248 | the string at dest becomes the old one followed by the one at src |
| Strings.Strdup | kernel/src/lib/string.c:185-208 | the buffer holds a copy of the string at src |
| Strings.Strndup | kernel/src/lib/string.c:210-234 | the buffer holds the first size characters of the string, or all of them if it is shorter |
| Strings.CopyPrefix | kernel/src/lib/string.c:227-231 | the first n characters and a NUL are copied to dest |
| Strings.ToUpper | kernel/src/lib/string.c:304-312 | lower-case letters lose 32, other bytes are kept |
| Strings.UpperSpec | kernel/src/lib/string.c:304-312 | upper-casing leaves no lower-case letter and keeps the length and the terminator |
| Strings.Strtoupper | kernel/src/lib/string.c:304-312 | the string is replaced by Upper of it in place; nothing else changes |
| Strings.StrtokSpecToken | kernel/src/lib/string.c:270-294 | no token exactly when only delimiters remain; a token is a non-empty delimiter-free string following the skipped delimiters and ended by a delimiter or the end |
| Strings.TokenFrom | kernel/src/lib/string.c:277-293 | the memory, token and saved position are StrtokSpec's |
| Strings.Tokenizer.constructor | kernel/src/lib/string.c:268-268 | the saved position starts NULL |
| Strings.Tokenizer.Strtok | kernel/src/lib/string.c:270-294 | from s, or from the saved position when s is NULL, the step StrtokSpec describes |
| Shell.WordsShape | kernel/src/sys/shell.c:38-51 | each word the line yields is non-empty and free of delimiters |
| Shell.WordsKept | kernel/src/sys/shell.c:38-51 | the words together hold exactly the non-delimiter characters, in order |
| Shell.WordsSpec | kernel/src/sys/shell.c:38-51 | the words are non-empty, contain no delimiter, and together hold exactly the other characters in order |
| Shell.StrtokWords | kernel/src/sys/shell.c:38-51 | one strtok call with " \t\n" yields the next word of the line, or none when no words are left |
| Shell.BreakIsRunEnd | kernel/src/sys/shell.c:26-27 | strcspn of the line ends the command word where the first run of non-delimiters does |
| Shell.ParseCommand | kernel/src/sys/shell.c:17-57 | a zero length or NULL line gives no command, no arguments and 0; otherwise Parsed, the command word and the first words of the line |
| Shell.Tokenize | kernel/src/sys/shell.c:38-53 | the arguments are the line's words, up to the slot bound |
| Shell.ParsedArguments | kernel/src/sys/shell.c:29-53 | the arguments are the first words of the line; at most max(1, len / 2) are stored, so with len below 2 one word goes into zero slots |
| Shell.FreeCommandInfo | kernel/src/sys/shell.c:59-67 | the command, each stored argument in order, then the array are released |
| Shell.FreeReleasesOwnedOnce | kernel/src/sys/shell.c:59-67 | free_command_info on what parse_command returns releases each block it holds (the command, each stored argument, the array) exactly once, and nothing else |
| Shell.CommandAction | kernel/src/sys/shell.c:69-198 | a zero length does nothing; "ls" and "print" need a second argument; the other commands act on the first word |
| Shell.LineEditor.constructor | kernel/src/sys/shell.c:205-207 | a zeroed 256-byte buffer and length 0 |
| Shell.LineEditor.Key | kernel/src/sys/shell.c:224-254 | NUL or a full buffer ignores the key; Enter submits the buffer's string and its length and clears it; backspace puts NUL at the length and decrements it; another key is stored at the length |
| Shell.BackspaceKeepsCharacter | kernel/src/sys/shell.c:241-250 | backspace right after typing erases nothing: the buffer keeps all characters while the length drops |
| Task.InitialRegisters | kernel/src/sys/task.c:97-99 | zero but for ip, esp and ss |
| Task.Task.constructor | kernel/src/sys/task.c:90-90 | a zeroed task |
| Task.TaskInit | kernel/src/sys/task.c:88-102 | ENOMEM exactly when there is no directory; otherwise EOK with the directory and InitialRegisters |
| Task.Scheduler.constructor | kernel/src/sys/task.c:6-8 | head, tail and current are NULL |
| Task.Scheduler.TaskNew | kernel/src/sys/task.c:15-46 | EOK exactly when the allocation succeeds and a directory is created, the task then appended after the tail with the directory and InitialRegisters; otherwise ENOMEM and the list unchanged |
| Task.Scheduler.GetNext | kernel/src/sys/task.c:48-56 | the task after current, or the head after the last |
| Task.Scheduler.ListRemove | kernel/src/sys/task.c:58-79 | the predecessor skips the task, head and tail move off it, current moves on; the successor's prev is not changed |
| Task.Scheduler.RemovedLinked | kernel/src/sys/task.c:58-79 | taking a task out with its neighbours' links mended keeps the forward chain |
| Task.Scheduler.TaskFree | kernel/src/sys/task.c:58-86 | frees the directory, unlinks the task, then frees it. As task_list_remove does, the predecessor's next skips the task, the head and the tail move off it, and a current task that is freed becomes its successor or the new head. On a doubly linked list containing the task, the list loses exactly that task |
| Task.GetNextRoundRobin | kernel/src/sys/task.c:48-56 | after the current task comes the next in list order, the head after the last |
| Task.RemoveMiddleThenLast | kernel/src/sys/task.c:58-79 | removing the middle of three tasks and then the last leaves the first removed as tail, still linked from the head |
| Process.Process.constructor | kernel/src/sys/process.c:9-12 | a zeroed process |
| Process.LoadBinary | kernel/src/sys/process.c:29-58 | EIO without a file, ENOMEM without a buffer, read_fs's failure as is, otherwise EOK with the buffer and size stored |
| Process.FirstFree | kernel/src/sys/process.c:161-172 | the smallest free slot, or -1 when all are taken |
| Process.FirstFreeIs | kernel/src/sys/process.c:161-172 | FirstFree is the slot the loop stops at |
| Process.ProcessTable.constructor | kernel/src/sys/process.c:7-7 | 128 empty slots |
| Process.ProcessTable.Get | kernel/src/sys/process.c:19-27 | the slot's contents; an index of 128 or more halts |
| Process.ProcessTable.GetFreeSlot | kernel/src/sys/process.c:161-172 | the result is FirstFree of the slots |
| Process.NewProcess | kernel/src/sys/process.c:105-131 | the process is allocated, loaded and given its stack exactly when ProcessReady holds; otherwise the status is LoadStatus's and there is no process; on success it holds the slot as id, the data, size and stack, and a NULL task |
| Process.ProcessTable.LoadForSlot | kernel/src/sys/process.c:92-159 | halts for a slot of 128 or more; otherwise the status is LoadStatus (EINVARG, ENOMEM, the loader's status or -ENOMEM by the first step that fails). Only on EOK is a process stored in the slot, its task pointer holding ENOMEM, and no other slot changes; otherwise no slot changes. When the slot is free and task_new succeeds (CreatesTask), a fresh task with the new directory and initial registers is appended at the tail and stays there although the load fails; otherwise the task list is unchanged. The current task never changes |
| Process.ProcessTable.LoadIntoFree | kernel/src/sys/process.c:105-159 | the same for a slot known to be free: status LoadStatus(false, env), the table and the task list as for LoadForSlot |
| Process.ProcessTable.Load | kernel/src/sys/process.c:174-188 | ENOMEM with nothing changed when no slot is free. Otherwise LoadForSlot's table and task-list effects at FirstFree of the old slots: on EOK the new process is in that slot with id, data, size, stack and task pointer set and no other slot changes; on failure no slot changes |
| Process.LoadSucceedsOnlyWithoutTask | kernel/src/sys/process.c:134-144 | a load that creates its task always ends in ENOMEM, and a success needs the file, both buffers and a successful read |
| KeyCache.KeyCache.constructor | kernel/src/dev/input/keyboard/keyboard.c:23-24 | a zeroed 256-byte cache |
| KeyCache.KeyCache.Irq | kernel/src/dev/input/keyboard/keyboard.c:10-17 | with 255 waiting the scancode is dropped; otherwise it is appended to the waiting ones |
| KeyCache.KeyCache.TakeFront | kernel/src/dev/input/keyboard/keyboard.c:39-44 | the oldest scancode is returned and removed, every byte moves down and the last takes the byte past the cache |
| KeyCache.ShiftedDown | kernel/src/dev/input/keyboard/keyboard.c:39-44 | moving every byte down one place, the last taking the byte past the cache, drops the oldest waiting scancode and keeps the others in order |
| KeyCache.Widen | kernel/src/dev/input/keyboard/keyboard.c:47-47 | the low byte is the character and, read as signed, the value is the char's |
| Keyboard.GetKey | kernel/src/dev/input/keyboard/keyboard.c:30-48 | 0 and no change with nothing waiting; otherwise the oldest scancode, sign-extended to 32 bits, is returned and removed from the waiting ones |
| Keyboard.Init | kernel/src/dev/input/keyboard/keyboard.c:19-28 | an input driver, a zeroed cache, the handler on vector 33, EOK |
| KeyboardPs2.GetEvent | kernel/src/dev/input/keyboard_ps2/keyboard.c:30-51 | with nothing waiting an INPUT_EVENT_NONE event with its data kept; otherwise INPUT_EVENT_KEY with the oldest scancode sign-extended to 64 bits; EOK either way |
| KeyboardPs2.Init | kernel/src/dev/input/keyboard_ps2/keyboard.c:19-28 | a zeroed cache, the handler on vector 33, get_event installed, EOK |
| Tty.PrintWritesMessage | kernel/src/sys/tty.c:29-53 | a print that does not halt writes exactly the message's characters but newlines, in order and in the colour, every cell and the final cursor inside the width |
| Tty.NewlinesOnly | kernel/src/sys/tty.c:31-36 | newlines write nothing and move the cursor down one row each, past any screen height |
| Tty.ClearCells | kernel/src/sys/tty.c:8-18 | h rows of width cells |
| Tty.ClearCellsRowMajor | kernel/src/sys/tty.c:8-18 | cell k of clear_tty is at column k % width of row k / width |
| Tty.Tty.constructor | kernel/src/sys/tty.c:3-4 | the cursor starts at (0, 0) |
| Tty.Tty.Clear | kernel/src/sys/tty.c:6-22 | halts unless every cell accepts a space; otherwise writes ClearCells and leaves the cursor at (0, 0) |
| Tty.Tty.KprintAtColor | kernel/src/sys/tty.c:24-53 | the cells and final cursor are PrintFrom's for the message's C string from the given cursor; a failed write halts |
| Tty.Tty.KprintColor | kernel/src/sys/tty.c:55-58 | the same from the current cursor |
| Tty.Tty.KprintAt | kernel/src/sys/tty.c:60-63 | the same from the given cursor in white on black |
| Tty.Tty.Kprint | kernel/src/sys/tty.c:65-68 | the same from the current cursor in white on black |
| Gdt.Gate | kernel/src/arch/i686/gdt.c:24-35 | the descriptor reads back the base, the limit cut to 20 bits, the high nibble of gran as flags, and the access byte |
| Gdt.GateDecodes | kernel/src/arch/i686/gdt.c:24-35 | a descriptor is the gate of its own base, limit, access and granularity |
| Gdt.Bytes | kernel/src/arch/i686/gdt.c:5-13 | a descriptor packs into eight bytes |
| Gdt.BytesRoundTrip | kernel/src/arch/i686/gdt.c:5-13 | a descriptor's bytes read back give the descriptor |
| Gdt.FromBytesRoundTrip | kernel/src/arch/i686/gdt.c:5-13 | eight bytes read as a descriptor and written back are the same bytes |
| Gdt.Table.constructor | kernel/src/arch/i686/gdt.c:21-22 | five zeroed descriptors and a zero pointer |
| Gdt.Table.SetGate | kernel/src/arch/i686/gdt.c:24-35 | descriptor num becomes Gate of the arguments; no other changes |
| Gdt.Table.SegmentationInit | kernel/src/arch/i686/gdt.c:37-50 | GDTR gets the table and limit 39, the table becomes InitialTable, EOK |
| Gdt.FlatSegments | kernel/src/arch/i686/gdt.c:37-50 | a null descriptor, then four segments of base 0 and limit 0xFFFFF in 4 KiB units that differ only in access |
| Idt.HandlerGate | kernel/src/arch/i686/idt.c:29-36 | the gate points at the handler through the kernel code selector as a present ring 0 interrupt gate |
| Idt.HandlerGateDecodes | kernel/src/arch/i686/idt.c:6-36 | every present kernel interrupt gate is the gate of the handler it points to |
| Idt.Table.constructor | kernel/src/arch/i686/idt.c:24-25 | 256 zeroed gates and a zero register |
| Idt.Table.SetIdtGate | kernel/src/arch/i686/idt.c:29-36 | gate n becomes HandlerGate(handler); no other gate changes |
| Idt.Table.InterruptsInit | kernel/src/arch/i686/idt.c:38-48 | IDTR gets the table's address and TableLimit; EOK |
| Idt.TableLimit | kernel/src/arch/i686/idt.c:43-43 | the limit covers exactly the 256 gates of eight bytes |
| Pci.ConfigAddress | kernel/src/dev/pci.c:44-44 | the enable bit, the fields cut to width, and the offset's two low bits cleared |
| Pci.ConfigAddressInjective | kernel/src/dev/pci.c:44-54 | two configuration addresses are equal exactly when their fields cut to width are |
| Pci.SameAddressSameFields | kernel/src/dev/pci.c:44-54 | equal addresses have equal fields |
| Pci.SameFieldsSameAddress | kernel/src/dev/pci.c:44-54 | equal fields give equal addresses |
| Pci.PciReadByte | kernel/src/dev/pci.c:42-50 | the low byte of pci_read is the register's own byte of the dword |
| Pci.PciWrite | kernel/src/dev/pci.c:52-58 | the address to 0xCF8, then the value to 0xCFC |
| Pci.HasFunctions | kernel/src/dev/pci.c:60-63 | bit 7 of the header type byte |
| Pci.Describe | kernel/src/dev/pci.c:65-80 | the identity fields reassemble the header's first and third dwords |
| Pci.IdentityDwords | kernel/src/dev/pci.c:71-78 | the registers read share the dwords at 0x00 and 0x08 |
| Pci.MaxBarsByHeader | kernel/src/dev/pci.c:86-92 | six BARs for header type 0, two for type 1, and for higher types the bound wraps above 65000 |
| Pci.PopulateBar | kernel/src/dev/pci.c:82-113 | all zero past max_bars; an I/O BAR has the register with its two low bits cleared and is not prefetchable; a memory BAR has prefetchable from bit 3 |
| Pci.InstantiateDrivers | kernel/src/dev/pci.c:115-144 | the descriptors are Scan of the configuration space |
| Pci.ScanDevice | kernel/src/dev/pci.c:121-141 | the present functions of one device, BARs read |
| Pci.ReadBars | kernel/src/dev/pci.c:132-140 | the port base becomes the last non-NULL I/O BAR's address |
| Pci.ScanFindsPresentFunctions | kernel/src/dev/pci.c:115-144 | the enumeration finds exactly the present functions of buses 0-7 and devices 0-31, each with the port base its BARs give |

## Left out

- Heap: `heap_allocator` and the chunk headers are modelled as a sequence of chunks in address order. The `prev` and `next` links are implicit in that order, so aliasing or corruption of the links is not modelled.
- Heap: the `page_alloc` results in `heap_init` are a `frames` parameter.
- Heap: `allocate` panics before `kmalloc` could return NULL, so the NULL branches of kmalloc, kcalloc, krealloc, strdup, strndup and parse_command are never reached and are not modelled.
- Heap.Heap.KmallocAligned: requires alignment > 0 and req + alignment below 2^32; the source divides by zero or wraps there.
- Heap.Heap.Krealloc: requires the req bytes from ptr to lie inside the heap. The read past the old chunk is modelled; a read past the end of the heap is not. The copy, allocate's header stores and kfree's header stores are all stated; no other byte of the heap changes beyond them.
- Heap.Heap.CopyThenFree: the same requirement as Krealloc.
- BlockDevice.Registry.RegisterBlockDevice: requires fewer than 10 devices; the source writes past its 10-slot array.
- BlockDevice.Registry.RegisterLogicalBlockDevice: requires fewer than 50 logical devices and a registered parent; the source does not check either.
- Mbr.RegisterSlots: the kmalloc for each partition (mbr.c:85) can panic; the model treats it as always returning a buffer, so that panic is not modelled.
- Mbr.ScanLogicalBlockDevicesMbr: requires the logical registry to have room for every partition found, for the same reason.
- PageAllocator.PageAllocator.Free: requires ptr / 4096 to lie inside the bitmap; the source writes out of bounds otherwise.
- PageAllocator.PageAllocator.Reserve: requires ptr / 4096 to lie inside the bitmap; the source writes out of bounds otherwise.
- BlockDevice: the drivers' read_block and write_block are results passed as parameters.
- BlockDevice: the registries hold devices by value. The source stores the caller's pointer and writes `device_id` and `device_name` through it (block_device.c:11-16, 60-66), so the caller's own structure changes and stays shared with the registry; that update of the caller's structure and the aliasing are not modelled.
- InitrdGen.Generate: requires at most 28 file pairs (MAX_FILES); the source writes past its table.
- InitrdGen.Generate: requires every host file to be at most MAX_FILE_SIZE bytes; for larger files the source truncates num_blocks to 16 bits and its malloc of the padded data is too small.
- InitrdGen: creating the image file and reading host files are parameters (`imgOpens`, `fs`). Seeking is modelled only by its effect on the bytes of the finished file; partial writes and calls to fclose are not modelled.
- Ascii.IntToAscii: requires n > INT_MIN, where `-n` overflows in C.
- Ascii.StringError: requires a code below 10; the source indexes past its table.
- Paging: memory is one flat array of 32-bit words indexed by physical address / 4, instead of separate frames.
- Paging: `paging_load_directory`, which loads CR3, is not part of this model.
- Paging.DirectoryCreate: the page allocator's bitmap is a separate array, not words of the modelled memory, so a table that page_directory_create writes over the bitmap's own frames does not change the bitmap in the model.
- PageAllocator: the bitmap is an array of flags, one per frame, not packed 32-bit words.
- PageAllocator: where the third loop of `page_alloc_init` clears bits past the end of the bitmap, those writes are dropped.
- PageAllocator: kprintf output is not modelled.
- Initrd: the `root_nodes` loop after the panic in `initialise_initrd` cannot be reached, and is not modelled; neither is `free_initrd`.
- Initrd.Initrd.InitialiseInitrd: the kmallocs at initrd.c:77 and 91 can panic before the unconditional panic at initrd.c:105, and the one at initrd.c:107 lies after it; the model halts in every case and does not tell those panics apart.
- Initrd.Initrd.Read: requires the copy to stay inside the modelled memory.
- Shell: the terminal output and the file-system calls of process_command (open_fs, readdir_fs, read_fs) are not modelled; CommandAction returns the action chosen.
- Shell: key_code_to_ascii and the input-device loop are outside the model; the key is a parameter.
- Task: task_current and the task's process pointer are not modelled.
- Task: USER_DATA_SELECTOR, not defined in the files modelled, is a parameter.
- Process: strncpy of the file name is not modelled.
- Process: process_current is not part of this model.
- Process: process_map_memory, paging_map_to and paging_get_phys_address are represented by their results in LoadEnv.
- Process.ProcessTable.LoadForSlot: when process_map_memory fails the source calls task_free on the status code it stored as the task pointer (process.c:145-149); that call on a bogus pointer is not modelled.
- Process: close_fs is not modelled, and neither are the buffers a failed load leaks.
- Keyboard: the static `c` is not modelled.
- Keyboard: keyboard_get_key_modifiers has an empty body and returns no value, so it is not modelled.
- Keyboard: interrupts arriving between steps are not modelled.
- Keyboard: port_byte_in(0x60) is the scancode parameter.
- Keyboard: the byte past the 256-byte cache is the `past` parameter.
- Tty: the status of each driver_manager_write_tty call is a function parameter, and so are the screen's width and height.
- Tty: TTY_WHITE_ON_BLACK is a constructor parameter.
- Tty: there is no scrolling, and string_error in the panic message is not modelled.
- Gdt: gdt_flush, which loads GDTR, is not modelled.
- Idt: lidt is not modelled.
- Idt: isr_install is not part of this model, because kernel/src/arch/i686/isr.c is not part of this model.
- Pci: port I/O is the `config` function.
- Pci: pci_instantiate_drivers drops each descriptor; the model returns them, and does not model driver instantiation.
- Strings: rawmemchr is modelled only as strtok uses it, as the NUL position that strlen finds.
- Strings: strncpy is not defined in the files modelled.
- Not part of this model: the FAT32 driver (its bodies are empty in the files modelled), the IDE driver, the VFS, the driver manager, kernel.c and kprintf.
