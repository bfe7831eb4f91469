# Boot path verification

L.I.F.E boots in two stages: `initium`, a UEFI application that loads a kernel file and builds its
address space, and `nukleus`, the kernel that takes over. This project models the four parts of that
path whose correctness depends on many steps working together, and proves what each is for.

* **The copy-on-write loader.** `KernelLoader.Loader` has the fields of the Rust loader: physical
  frames, one page table, one frame allocator. Load segments are mapped straight onto the frames of
  the kernel file, so several virtual pages may share a frame; every write first gives its page a
  private copy. `Paging.Inv` is the copy-on-write invariant and every loader method keeps it,
  whether it succeeds or fails. `Elf` is an independent specification: a flat memory filled with file
  bytes and zeros, then overwritten by relocated words, with no page sharing and no copying in it.
  `LoadSegments` refines it for every list of headers, and `LoaderTheorems` says what the specified image
  is, byte by byte and page by page. `LoadedImage` and `Relocations` say it once more in plain numbers, without
  the loader's own address, decoding and page functions. Virtual addresses are 48-bit numbers, sign-extended; `VirtualAddress`
  proves that the arithmetic of the address type is that of the numbers.
* **The frame handoff.** The bootloader's bump allocator runs for any number of steps, its cursor
  rewrites the firmware memory map, and the kernel's allocator enumerates what is left. `Handoff`
  spans the three, and `ImageSafety` adds the loaded image to it.
* **The virtual layout.** First-fit allocation of level-4 slots (`Entries`), the kernel's own placement
  (`Placement`), and the boot sequence that maps stack, identity pages, framebuffer, ramdisk, the window
  onto physical memory and the boot info (`BootSteps`, `BootLayout`).
* **The whole run.** `Startup.Start` composes the three: it places and loads the kernel, sets up its address
  space, writes the boot info, and says what the kernel finds and which frames its allocator may hand out.
* **Rasterisation.** Lines, rectangles, disks and circles over a byte buffer, each against the exact set
  of pixels it sets (`Framebuffer`, `Raster`).

Code that changes state in the repository is a class or method here, with the same loops and branches.
Its contract ties the new state to a specification function, and lemmas then say what that function
means. An assertion, `unwrap` or `expect` is an outcome of its own (`Panicked`, `None`, `NoSlots`, ...),
and so is a frame allocator that has run dry (`Exhausted`, which is only ever answered when no frame
is left). Ghost histories of the slots and of both allocators record what has been asked and given, so that
contracts can say why a step failed and how many frames it took.

Three results are about inputs for which the code does not do what one would expect. The contracts of the
code cover these inputs; each result has the exact condition and a concrete input.

* A kernel file whose length is not a multiple of 4096 has its last page handed out again by the kernel's
  own allocator: the region behind the file starts in the middle of a page and is rounded down
  (`Handoff.KernelSliceSafeIff`, `Handoff.KernelSliceUnsafeExample`, `ImageSafety.ImageFrameReusedIff`).
* A shared object whose lowest Load address is not page aligned is placed so that no segment agrees with its
  file offset any more. It can still load, and then shows file bytes displaced by the header's skew
  (`Placement.AllRegularIff`, `LoaderTheorems.LoadedFileByte`, `Placement.MisalignedExample`).
* Two Load segments that share a page make the load fail, also where they have no byte in common, and so does
  a RELRO range that leaves the pages of the Load segments (`LoaderTheorems.LoadAllIff`, with `LoadableIff` for
  the segments and `WordsIff` for the relocations; `LoaderTheorems.SharedPageExample`).

What is taken for granted, because the code relies on it without checking it or a library checks it:

* Load segments end before the end of the file (the `xmas-elf` sanity check). Only the theorems about regular
  headers, and `Startup`, also take the ELF format's word for `filesz <= memsz` and for addresses that agree
  with file offsets modulo 4096 (System V gABI, chapter 5).
* Memory descriptors are page aligned and not empty (UEFI Specification 2.10, section 7.2), sorted
  (`initium/src/main.rs:380`) and disjoint; the kernel file lies inside one descriptor that is not
  conventional memory but usable after exit.
* The two frames of the context switch code and the allocator's frames lie below 512 GiB.
* The framebuffer's offset within its first page leaves it inside the slots its length asks for.
* The framebuffer's width is at most its stride, a pixel has at least three bytes, and the buffer holds
  height * stride pixels.
* The bootloader's own page table maps pages of slot 0 only (`initium/src/main.rs:320`).

## Model

| member | source | states |
|---|---|---|
| KernelLoader.Loader.LoadSegments | initium/src/kernel.rs:571-611 | for every list of headers, the load succeeds only with the view and permissions of the flat specification and with no page of a Load segment marked COPIED; it returns an error only for a page mapped twice, a second TLS header, a broken dynamic section or a relocation target outside the Load segments, and panics only for an address, entry or range that is not valid or not mapped; otherwise the allocator is dry; however it ends, the file's own physical bytes are unchanged, only pages of Load segments are mapped, at most eight frames are taken for each of them and eight more, and the copy-on-write invariant holds |
| LoaderSteps.NoImageIff | initium/src/kernel.rs:571-611 | the specification has no image if and only if there is a reason to return an error or a reason to panic, as listed branch by branch |
| KernelLoader.Loader.HandleLoadSegment | initium/src/kernel.rs:106-142 | one segment maps its pages onto consecutive file frames and zeroes the rest, with its flags; an error means a page is mapped already, a panic that an address is invalid or the page to be zeroed is missing |
| KernelLoader.Loader.HandleBssSection | initium/src/kernel.rs:144-195 | everything from the end of the file part to the end of the last page reads zero, nothing before it changes, and only whole pages behind the file part are added |
| KernelLoader.Loader.ZeroRestOfPage | initium/src/kernel.rs:160-173 | the tail of the last file page is zeroed in a private copy; panics only if that page is not mapped |
| KernelLoader.Loader.MapFilePages | initium/src/kernel.rs:107-134 | page after page shows the frames from that of the first to that of the last file byte, whether or not address and offset agree |
| KernelLoader.Loader.MakeMut | initium/src/kernel.rs:272-311 | the page gets a frame of the allocator and the COPIED flag; no virtual byte and no permission changes; on a COPIED page nothing changes at all |
| KernelLoader.Loader.CopyTo | initium/src/kernel.rs:235-270 | a plain write of exactly [addr, addr + len) in the virtual view, also while other pages are mapped to the same file frames; panics only where an address is invalid or unmapped |
| KernelLoader.Loader.CopyFrom | initium/src/kernel.rs:197-233 | returns the virtual bytes of the range, and panics exactly where one of them is not mapped or the range leaves the address space |
| KernelLoader.Loader.Chunk | initium/src/kernel.rs:209-222 | the part of each page starts where the part of the page before ended, stays inside page and buffer, and the last one ends the buffer |
| KernelLoader.Loader.CheckIsInLoad | initium/src/kernel.rs:87-99 | true exactly if some Load segment contains the address |
| KernelLoader.Loader.ReadRelocation | initium/src/kernel.rs:428-439 | the entry at 24 * idx decoded from the virtual view, or a panic exactly where the specification refuses it |
| Relocations.EntryDecoded | initium/src/kernel.rs:433-438 | of the 24 bytes of an entry, the first eight are its offset, the next eight its info and the last eight its addend, each the sum of its bytes times powers of 256 |
| Relocations.EntryRoundTrip | initium/src/kernel.rs:433-438 | an entry written out in that order decodes to the three values written |
| KernelLoader.Loader.ApplyRelocation | initium/src/kernel.rs:441-469 | one word, base + addend, is written at base + offset and nothing else changes; an error means a target outside the Load segments, a panic an unsupported kind or an invalid or unmapped address |
| KernelLoader.Loader.ApplyTable | initium/src/kernel.rs:419-423 | the view becomes the fold of the words, each entry being read after the words before it were stored |
| KernelLoader.Loader.HandleDynamicSegment | initium/src/kernel.rs:358-426 | scan, consistency checks and table application give what the specification gives for the decoded entries |
| KernelLoader.Loader.HandleRelroSegment | initium/src/kernel.rs:471-501 | WRITABLE goes from exactly the pages the range touches, no virtual byte changes, and it panics exactly at an unmapped page or invalid address |
| KernelLoader.Loader.RemoveCopiedFlags | initium/src/kernel.rs:313-348 | afterwards no page of a Load segment is COPIED, neither bytes nor permissions changed, and it panics exactly where such a page is not mapped or an address is invalid |
| LoadedImage.SegmentByteLoaded | initium/src/kernel.rs:571-611 | with aligned headers, byte k < memsz of every Load segment, at its 48-bit address plus k, is the byte of the last relocation word covering it, else the byte of physical memory at file start + offset + k if k < filesz, else zero |
| LoaderTheorems.LoadedByte | initium/src/kernel.rs:571-611 | the same in terms of the file: the last word, else the file byte at offset + k if k < filesz, else zero |
| LoaderTheorems.LoadedFileByte | initium/src/kernel.rs:123-134 | with any headers, a byte of a file page is the byte of the last relocation word covering it, else zero if a segment from there on zeroes it, else the file byte displaced by the skew of its header |
| LoaderTheorems.Displaced | initium/src/kernel.rs:107-113 | the skew is 0 if and only if address and file offset agree modulo the page size |
| LoaderTheorems.LoadedWord | initium/src/kernel.rs:441-469 | a relocated word that no later word overlaps reads back as base + addend at base + offset (System V ABI AMD64 supplement, section 4.4.1, type 8) |
| LoaderTheorems.TableWord | initium/src/kernel.rs:419-469 | every entry of a table contributes one word, that of the entry as read when its turn came |
| Relocations.TableEntry | initium/src/kernel.rs:419-469 | if the 24 bytes at base + table + 24 * k, when entry k's turn comes, are the numbers o, 8 and a, then o lies in a Load segment and word k is base + a at base + o |
| Relocations.TableIs | initium/src/kernel.rs:401-423 | a table at t of size s with entries of 24 bytes has n entries with 24 * n <= s < 24 * (n + 1); no table tag means no entry; every other combination fails |
| Relocations.EveryEntryStored | initium/src/kernel.rs:595-600 | for every Dynamic header of a loaded kernel and every k with 24 * (k + 1) <= its table size, the word that entry k asks for is stored, in the order of headers and entries |
| Relocations.NoOtherWords | initium/src/kernel.rs:595-600 | and there are no more words than entries |
| Relocations.WordReadsBack | initium/src/kernel.rs:441-469 | a word that no later word overlaps is the number read at its address in the loaded image |
| Relocations.EntryIff | initium/src/kernel.rs:428-469 | an entry can be applied if and only if its bytes and target are readable at valid addresses, its info is 8, its offset is in a Load segment and base + addend fits 64 bits |
| LoaderTheorems.DecodeFirst | initium/src/kernel.rs:419-439 | if no word touches the table, applying while reading gives the words of decoding the whole table first |
| LoaderTheorems.TableTwice | initium/src/kernel.rs:419-469 | such a table read and applied a second time yields the same words and changes nothing |
| LoaderTheorems.ApplyTwice | initium/src/kernel.rs:461-463 | storing any list of words twice is storing it once |
| LoaderTheorems.ApplyAllAt | initium/src/kernel.rs:419-423 | after any list of writes each byte is that of the last write covering it, and uncovered bytes are as before |
| LoaderTheorems.ScanIs | initium/src/kernel.rs:370-411 | the scan succeeds if and only if every tag decodes and no table tag is repeated, over all entries including those behind DT_NULL, and finds each tag's only value |
| LoadedImage.FlagsLoaded | initium/src/kernel.rs:115-121 | after loading, a page that a Load segment meets is present, NO_EXECUTE iff the segment is not executable, WRITABLE iff it is and no RELRO range meets the page |
| LoaderTheorems.LoadedFlags | initium/src/kernel.rs:115-121 | the same for every page that a Load segment maps, with any headers |
| LoadedImage.PagesLoaded | initium/src/kernel.rs:123-192 | with aligned headers, the mapped pages are exactly those from that of the first to that of the last byte of a Load segment |
| LoaderTheorems.LoadedPages | initium/src/kernel.rs:123-192 | the mapped pages are exactly the file and zero pages of the Load segments |
| LoadedImage.TlsIs | initium/src/kernel.rs:350-356 | the template is the first Tls header's: base + address, size in memory, size in the file |
| LoadedImage.RangeOkIff | initium/src/kernel.rs:316-321 | a range passes if and only if its 64-bit start, its end and the address before its end are valid |
| LoadedImage.ZeroRangeIff | initium/src/kernel.rs:149-177 | the range to be zeroed passes if and only if its start, its end, its rounded-up start and the address before its end are valid |
| LoadedImage.FilePagesIff | initium/src/kernel.rs:107-126 | as many file pages as frames from that of the first to that of the last file byte, each at an address below 2^48 |
| LoadedImage.PlaceableIff | initium/src/kernel.rs:106-192 | a segment can be placed if and only if its address, its file pages and its range to be zeroed are valid |
| LoaderTheorems.NoPageCopied | initium/src/kernel.rs:313-348 | with regular headers no page anywhere keeps COPIED after the load |
| LoaderTheorems.LoadAllIff | initium/src/kernel.rs:571-611 | with regular headers, the whole load succeeds if and only if the segments can be mapped, the ends of their ranges are valid, the relocations can be applied and every RELRO range is valid and stays on pages of Load segments |
| LoaderTheorems.LoadableIff | initium/src/kernel.rs:573-593 | with regular headers, the first loop maps all segments if and only if the addresses of each are valid, no two share a page and there is at most one TLS header, with a valid address |
| LoaderTheorems.WordsIff | initium/src/kernel.rs:419-469 | if no word touches the table, it can be applied if and only if each of its entries could be read and applied on its own |
| LoaderTheorems.SharedPageExample | initium/src/kernel.rs:127-131 | a well-formed file with two segments of half a page each, one behind the other, does not load |
| LoaderTheorems.ApartIff | initium/src/kernel.rs:123-134 | comparing first and last pages decides whether two segments share a page |
| LoaderTheorems.SegmentBytes | initium/src/kernel.rs:106-195 | no later segment changes a byte of an earlier one |
| Placement.CongruentIff | initium/src/kernel.rs:529-549 | over what PlaceKernel answers, a segment keeps its congruence if and only if the file is an executable or its lowest Load address is page aligned |
| Placement.AllRegularIff | initium/src/kernel.rs:525-549 | over what PlaceKernel answers, the headers of an ELF file are regular under exactly that condition |
| Placement.MisalignedExample | initium/src/kernel.rs:548-549 | a well-formed file with one segment at 0x1234 that is placed and loads, and shows another byte than its own at its start |
| LoaderTheorems.ReadBack | initium/src/kernel.rs:197-270 | reading a range after writing it returns the written bytes |
| Elf.LeRoundTrip | initium/src/kernel.rs:459-463 | the eight stored bytes decode to the value they encode |
| Relocations.ToLeIsSum | initium/src/kernel.rs:459-463 | the eight stored bytes are the base-256 digits of the value, least significant first |
| Paging.PokeMapped | initium/src/kernel.rs:261-268 | writing a private frame changes the view on that page only and keeps the copy-on-write invariant |
| Paging.MapKeeps | initium/src/kernel.rs:127-131 | mapping a fresh or a file frame adds exactly that page to the view and keeps the invariant |
| Paging.PutBack | initium/src/kernel.rs:300-308 | unmapping a page and mapping an identical frame leaves every virtual byte and permission as it was |
| FrameAllocator.LegacyFrameAllocator.AllocateFrame | initium/src/memory.rs:208-230 | k calls return the first k elements of the list of usable frames; None comes only when the list is exhausted, and then for good |
| FrameAllocator.LegacyFrameAllocator.AllocateFrameFromDescriptor | initium/src/memory.rs:50-68 | the lowest frame of the descriptor not below the cursor, or none and an unchanged cursor |
| FrameAllocator.FrameListIncreasing | initium/src/memory.rs:50-68 | the list strictly increases and holds only frames of usable descriptors, for unsorted maps too |
| FrameAllocator.FrameListComplete | initium/src/memory.rs:208-230 | on a sorted map every usable frame from the start frame on is in the list |
| FrameAllocator.LegacyFrameAllocator.MaxPhysicalAddress | initium/src/memory.rs:82-88 | the end of the highest descriptor, none for an empty map |
| FrameAllocator.LegacyFrameAllocator.AddAroundKernel | initium/src/memory.rs:153-193 | a usable region meeting the kernel slice is written as three pieces; panics exactly when the slice sticks out of it or the buffer is full |
| FrameAllocator.LegacyFrameAllocator.ConstructMemoryMap | initium/src/memory.rs:108-200 | writes exactly the specified regions at the front of the buffer and panics exactly if an assertion fails or they do not fit |
| MemoryMap.MapConserves | initium/src/memory.rs:108-200 | the regions are nonempty, ordered and disjoint and cover exactly the bytes of the descriptors |
| MemoryMap.MapKinds | initium/src/memory.rs:121-145 | every byte's kind is a pointwise function of its descriptor's type, the cursor and the kernel slice |
| MemoryMap.KindsByType | initium/src/descriptor.rs:22-42 | conventional memory is usable from the cursor on, loader and boot services memory throughout, both but for the kernel slice; every other type keeps its number |
| MemoryMap.FailsIff | initium/src/memory.rs:160-172 | an assertion fails for a descriptor if and only if the kernel slice lies partly in its free bytes and partly out |
| MemoryMap.MapSize | initium/src/memory.rs:90-194 | n disjoint descriptors give at most n + 3 regions, as one can be cut by the cursor and one by the kernel |
| MemoryMap.MapSucceeds | initium/src/memory.rs:160-172 | no assertion fails when the kernel lies inside one loader-data descriptor |
| Nukleus.UsableFramesAre | nukleus/src/memory.rs:20-31 | over ordered regions the frames strictly increase, and a frame is listed if and only if its last byte lies in a usable region |
| Nukleus.RegionFramesAt | nukleus/src/memory.rs:25-30 | the i-th frame of any region is that of start + 4096 * i, as long as this is below the end |
| Nukleus.NukleusFrameAllocator.AllocateFrame | nukleus/src/memory.rs:35-39 | over any run the frames given are the first usable frames in order; none comes only when all have been given |
| Handoff.MapFits | initium/src/initium.rs:311 | wherever the cursor is, the buffer of n + 4 regions is never filled up and no assertion fails |
| Handoff.KernelFrames | nukleus/src/memory.rs:20-39 | the kernel's allocator gives each frame at most once, and exactly those whose last byte is specified as usable |
| Handoff.NoFrameTwice | initium/src/memory.rs:108-230 | at any point of any run of the bootloader's allocator and of the kernel's over the map made from it, all frames the two have given are pairwise different |
| Handoff.NoFrameLost | initium/src/memory.rs:108-230 | every conventional frame but frame 0 is given by exactly one of the two allocators |
| Handoff.KernelSliceSafeIff | nukleus/src/memory.rs:28-30 | no frame of the kernel file is given again if and only if its length is a multiple of 4096; only the last frame is ever concerned |
| Handoff.KernelSliceUnsafeExample | initium/src/initium.rs:139-140 | on a concrete machine with 16 MiB of conventional memory and a file of 5000 bytes, a frame of the file is given again, however much the bootloader allocates |
| ImageSafety.SupplyAvoidsFile | initium/src/memory.rs:208-230 | the bootloader's allocator never gives out a frame of the kernel file |
| ImageSafety.FileOutsidePool | initium/src/initium.rs:142-148 | the loader's assumption that file frames and allocator frames are apart follows from the memory map |
| ImageSafety.ImageFrameReusedIff | initium/src/kernel.rs:272-311 | the frame behind a page of the loaded kernel is given out again if and only if it is the last, partly filled page of the file; private copies and BSS frames never are |
| Entries.Entries.constructor | initium/src/entries.rs:17-24 | slot 0 is used and no other, and nothing has been asked yet |
| Entries.Entries.MarkRangeAsUsed | initium/src/entries.rs:39-52 | exactly the slots from that of the first to that of the last byte become used |
| Entries.Entries.MarkSegments | initium/src/entries.rs:26-37 | exactly the slots touched by a header with a memory size become used |
| Entries.Entries.GetFreeEntries | initium/src/entries.rs:58-76 | the lowest run of num free slots is taken and nothing else; panics exactly if there is none or num is 0 |
| Entries.Entries.GetFreeAddress | initium/src/entries.rs:78-89 | the start of the lowest run of slots large enough for the size |
| Entries.SlotsForIs | initium/src/entries.rs:81-83 | as few slots of 512 GiB as hold the size |
| Entries.TouchesIff | initium/src/entries.rs:31-34 | a header touches slot i if and only if one of its bytes lies in the i-th 512 GiB |
| Entries.MarkableIff | initium/src/entries.rs:43-46 | a range can be marked if and only if its start, its end and the address before its end are accepted as 64-bit values |
| Entries.IsOfPowers | initium/src/entries.rs:79 | only powers of two pass the alignment assertion |
| Entries.PowerOfTwoIs | initium/src/entries.rs:79 | every power of two passes it |
| Entries.SlotsOnlyFill | initium/src/entries.rs:26-76 | over any history of marks and requests, and every object has one, a used slot stays used |
| Entries.AllocationsFresh | initium/src/entries.rs:26-89 | over any history a request never gets slot 0 or a slot taken by an earlier mark or request |
| Entries.RequestIff | initium/src/entries.rs:58-76 | while marks stay inside what was taken, slots are taken from the front without gaps: the k-th request is granted if and only if it asks for something that fits behind the ones before, and gets exactly the slots there |
| Entries.GrantedIffFits | initium/src/entries.rs:58-76 | such a list of requests is granted in full if it fits the 511 slots beside slot 0, and one of them is refused if it does not |
| Placement.PlaceKernel | initium/src/kernel.rs:515-555 | a misaligned file is refused; a shared object gets the lowest run of free slots that holds it, an executable offset 0; then exactly those slots and those its headers touch are used; it panics only if there is no run, the alignment is no power of two or a header leaves the address space |
| Placement.MinAddrIs | initium/src/kernel.rs:536-541 | the least address of a Load header, none without one |
| Placement.MaxEndIs | initium/src/kernel.rs:530-535 | the greatest end of a Load header |
| Placement.MaxAlignIs | initium/src/kernel.rs:544-546 | the greatest alignment of a Load header |
| Placement.ImageSizeIs | initium/src/kernel.rs:543 | the size asked for goes from the start of one Load segment to the end of one, and no Load segment sticks out |
| Placement.ImageSlots | initium/src/kernel.rs:529-555 | after a load every page of the image lies in a marked slot, and for a shared object in one that was free before |
| Placement.ImageReady | initium/src/initium.rs:142-148 | the loaded page table lies in used slots, as the boot sequence asks; a shared object stays out of slot 0 |
| BootLayout.BootMapper.MappingAddr | initium/src/initium.rs:73-96 | the start of slots that were free and that nothing is mapped in, or the reason there are none |
| BootLayout.BootMapper.MapStack | initium/src/initium.rs:150-173 | twenty writable pages above an unmapped guard page, each with a fresh frame of its own, for one request of slots and at most eighty frames |
| BootLayout.BootMapper.MapIdentity | initium/src/initium.rs:175-200 | the context switch frames and a fresh GDT frame are mapped to themselves, not writable; fails only where one of these pages is mapped already or the GDT got one of the context switch frames |
| BootLayout.BootMapper.MapFramebuffer | initium/src/initium.rs:202-228 | every byte of the framebuffer shows at its place behind fresh, consecutive, writable pages, and no page behind that of its last byte is added |
| BootLayout.BootMapper.MapRamdisk | initium/src/initium.rs:230-260 | as many bytes as the ramdisk's length, from its page-rounded start, show behind fresh, consecutive, writable pages, and no page more is added |
| BootLayout.BootMapper.MapPhysical | initium/src/initium.rs:262-281 | every byte below the end of the highest descriptor shows at its distance from the window, through fresh writable 2 MiB pages |
| BootLayout.BootMapper.SetUpMappings | initium/src/initium.rs:150-296 | no alignment check fails, and it succeeds unless a request for slots is refused, frames have run out or an identity mapping meets the image; the mapped pages, with their flags, are the disjoint union of the regions, the guard page is unmapped and the stack top lies right above the stack |
| BootLayout.BootMapper.CreateBootInfo | initium/src/initium.rs:309-363 | every byte of the boot info lies on a fresh writable page mapped to the same fresh frame in both page tables, no page more is added, and the memory map is that of all allocations made |
| BootLayout.BootMapper.Boot | initium/src/initium.rs:150-363 | image, stack, identity pages, framebuffer, ramdisk and boot info share no page, what was mapped stays as it was with its flags, the memory window reaches the end of memory, all frames taken are pairwise different and no more than a bound computed from the sizes |
| Startup.LoadKernel | initium/src/kernel.rs:618-628 | the kernel of the given file, put where placing it in the given slots puts it, ends up as the specified image in used slots with its entry point; or there is no place, no image, no valid entry point or no frame left |
| Startup.Start | initium/src/initium.rs:417-445 | where the whole run succeeds, the kernel's page table shows the specified image with its permissions, all regions are disjoint, every byte of memory shows in the window, and the boot info is true: behind its framebuffer and ramdisk addresses lie the bytes of the devices up to their last page, behind its memory offset lies physical memory, its template is the first Tls header's; the frames of stack, GDT and boot info are no other such page's and no image page's and are never given out by the kernel's allocator, and of the image's frames exactly the partly filled last one of the file is. Where it fails, the cause is in the input: the file has no place, no image or no entry point; one of the requests for slots computed from it is refused; an identity page is in the image or the GDT got a context switch frame; or there were no more frames than a bound computed from it |
| Startup.InfoTold | initium/src/initium.rs:365-391 | the fields of the boot info, each against the final page tables and the input |
| Startup.SlotsIff | initium/src/entries.rs:58-89 | for a shared object whose headers stay in its span, the slots are enough if and only if image, stack, devices, memory window and boot info ask for something and for at most 511 slots together |
| Startup.LaidInOrder | initium/src/initium.rs:153-320 | for such a shared object the slots are, from 0 on: the identity pages', the image's, the stack's, the framebuffer's, the ramdisk's, the memory window's and the boot info's |
| VirtualAddress.Advance | initium/src/entries.rs:43-44 | adding to an address, sign-extended or not yet, is refused exactly at the end of the 48-bit space, and otherwise adds to its number |
| VirtualAddress.Back | initium/src/entries.rs:44 | subtracting 1 is refused exactly at 0 and at the start of the upper half |
| VirtualAddress.AcceptedIff | initium/src/entries.rs:43 | a 64-bit value is accepted if and only if bits 48 to 63 are zero or bits 47 to 63 are ones |
| VirtualAddress.SignExtendIs | initium/src/entries.rs:43 | extension keeps bits 0 to 47 and repeats bit 47 above |
| BootSteps.PhysicalTranslates | initium/src/initium.rs:266-281 | physical_memory_offset + q translates to q for every q below the end of memory |
| BootSteps.HugeCountIs | initium/src/initium.rs:263-271 | the last 2 MiB page of the window is the one that holds the last byte of memory |
| BootSteps.BootFramesSafe | initium/src/initium.rs:359-363 | no frame taken for stack, GDT or boot info is ever given out by the kernel's allocator |
| Framebuffer.IndexInverse | nukleus/src/text_based_interface/framebuffer_writer.rs:31-43 | the three bytes of an on-screen pixel are inside the buffer and belong to no other pixel |
| Framebuffer.IndexIs | nukleus/src/text_based_interface/framebuffer_writer.rs:34-40 | the top row comes first; a step to the right is one pixel, a step down one stride |
| Framebuffer.DrawPixel | nukleus/src/text_based_interface/framebuffer_writer.rs:31-43 | exactly the bytes of that pixel change, to the colour in the format's order, and none if it is off the screen |
| Framebuffer.PaintedHolds | nukleus/src/text_based_interface/framebuffer_writer.rs:31-43 | a painted pixel on the screen holds red, green, blue, or blue, green, red, from its first byte on |
| Framebuffer.PaintedKeeps | nukleus/src/text_based_interface/framebuffer_writer.rs:31-43 | the bytes of every other pixel are as before |
| Raster.DrawLine | nukleus/src/text_based_interface/framebuffer_writer.rs:45-72 | ends after exactly max(D, H) turns, for every direction, having set exactly the segment's rounded pixels |
| Raster.HalfPixel | nukleus/src/text_based_interface/framebuffer_writer.rs:60-71 | every plotted step (i, j) satisfies 2 * abs(j * D - i * H) <= max(D, H) |
| Raster.LinePixel | nukleus/src/text_based_interface/framebuffer_writer.rs:45-72 | the k-th pixel is k steps along the longer extent towards the second point, inside the box of the two, and within half a pixel of the segment |
| Raster.EndPoint | nukleus/src/text_based_interface/framebuffer_writer.rs:60-71 | the walk starts at the first point and ends at the second |
| Raster.EndNotDrawn | nukleus/src/text_based_interface/framebuffer_writer.rs:60-61 | the second point is never among the plotted pixels |
| Raster.DrawQuad | nukleus/src/text_based_interface/framebuffer_writer.rs:74-86 | exactly the on-screen pixels of the half-open rectangle are set; corners in the wrong order panic and change nothing |
| Raster.DrawDisk | nukleus/src/text_based_interface/framebuffer_writer.rs:88-105 | exactly the on-screen pixels with abs(dx) < r, abs(dy) < r and dx * dx + dy * dy <= r * r are set |
| Raster.InDiskIff | nukleus/src/text_based_interface/framebuffer_writer.rs:91-93 | that is the closed disk but for its four pixels on the axes at distance r |
| Raster.DrawCircle | nukleus/src/text_based_interface/framebuffer_writer.rs:107-133 | exactly the four quarter turns of the arc are set, where on screen, in as many turns of the loop as the arc has offsets |
| Raster.ArcStepNear | nukleus/src/text_based_interface/framebuffer_writer.rs:120-129 | each turn of the loop moves by at most one on each axis, by at least one on one, and stays off the circle by at most r |
| Raster.ArcIs | nukleus/src/text_based_interface/framebuffer_writer.rs:113-132 | the quarter arc is connected by such moves and ends at (0, r), where the next quarter begins |
| Raster.ArcLength | nukleus/src/text_based_interface/framebuffer_writer.rs:113-132 | the arc, and so the loop of DrawCircle, has at least one and at most max(1, 2 * r) offsets |
| Raster.CirclePixel | nukleus/src/text_based_interface/framebuffer_writer.rs:113-132 | every plotted offset satisfies abs(x * x + y * y - r * r) <= r |
| Raster.CircleAxes | nukleus/src/text_based_interface/framebuffer_writer.rs:113-132 | the four pixels at distance r on the axes are plotted |
| Raster.CircleClosed | nukleus/src/text_based_interface/framebuffer_writer.rs:114-118 | a quarter turn around the centre takes the plotted pixels to themselves |
| Raster.CircleGoesRound | nukleus/src/text_based_interface/framebuffer_writer.rs:113-132 | every plotted pixel has a plotted neighbour strictly further round the centre, so the curve closes |

## Left out

- KernelLoader.Loader.MapTo: the levels of the page table are one map from pages to frames and flags. A mapping uses up any number from 0 to 3 of extra frames for the lower levels; that those frames hold correct tables is not modelled.
- KernelLoader.Loader.CopyTo: when it stops early, only the invariant is promised, not which chunks were written.
- VirtualAddress.Advance: sizes of 2^63 bytes and more, whose sums could wrap to the upper half, count as leaving the address space.
- KernelLoader.Loader.ReadRelocation: a table offset beyond 64 bits is a panic, as in a build with overflow checks; wrap-around is not modelled.
- KernelLoader.Loader.ApplyRelocation: addends are the unsigned 64-bit values the code adds, so a negative addend panics as it does in the code unless the sum happens to be representable.
- KernelLoader.Loader.LoadSegments: ELF and program-header decoding and their sanity checks are library code; a header is a decoded record, undecodable tags are a value of their own, undecodable header types are not modelled. The conversion of the TLS template is left out.
- Placement.PlaceKernel: vaddr + memsz is not reduced modulo 2^64, and unimplemented ELF types are not modelled.
- LoaderTheorems.LoadedByte: for headers with filesz > memsz, or displaced by an unaligned placement, only the general form LoadedFileByte holds; such a kernel may also keep COPIED on a mapped page outside its segments.
- Startup.Start: Load headers with a memory size of 0 are excluded, as mark_segments skips them, and so are shared objects with an unaligned lowest address, whose image is not the file's (Placement.AllRegularIff). What the boot sequence writes into the frames it takes, the boot info included, is not modelled; the boot info is a value. For executables, whose marks may leave gaps, whether slots suffice is stated by the history of requests only.
- BootLayout.BootMapper.MapIdentity: identity mapped frames at or above 512 GiB would take slots that nobody marks; they are excluded.
- BootLayout.BootMapper.SetUpMappings: a window of slots across the middle of the address space is one range of numbers, though not of 64-bit addresses.
- BootLayout.BootMapper.MapFramebuffer: where a framebuffer does not start at a page boundary, the offset within the page is dropped, as in the code; one that then spills out of the slots its length asks for is excluded.
- BootLayout.BootMapper.MapRamdisk: where the ramdisk does not start at a page boundary its last bytes may be missing, as in the code. The ramdisk is not kept out of usable memory, so nothing is claimed about its frames.
- BootLayout.BootMapper.CreateBootInfo: the size of BootInfo with its region array is a parameter and its alignment is 8. That what it says is true is Startup.InfoTold.
- Raster.DrawLine: absolute values go through 32-bit floats, which is exact up to 2^24; longer lines are not modelled.
- Raster.DrawDisk: coordinates and r * r are not reduced modulo 2^64.
- Raster.DrawCircle: centre and radius are bounded so that no signed coordinate overflows.
- Physical addresses are unbounded; the 52-bit check of the address type is not modelled.
- Error values carry the code's messages; contracts say what an error and a panic mean, not the wording.
- UEFI calls, file reading, display-mode selection, the configuration table and the exit from boot services: firmware input and output.
- The context switch itself, GDT loading, control registers and TLB flushes: machine instructions.
- The kernel's heap: foreign allocator code over one mapping loop.
- draw_primitive, the empty ellipse and Bezier cases, text rendering: dispatch without content.
- The disk image builder and the launch scripts: input and output.
