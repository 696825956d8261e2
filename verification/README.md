# A verified model of a pintos-kaist virtual-memory layer and FAT table

This project models, in Dafny, the parts of a student pintos-kaist kernel
that have sequential, statable behaviour:

- **The FAT cluster table** (`filesys/fat.c`). It covers the boot-sector
  layout, table creation, the `fat_get`/`fat_put` primitives, and first-fit
  cluster allocation (`fat_create_chain`). It also covers the
  sector-by-sector `fat_close`/`fat_open` loops over a disk modelled as
  `map<sector, bytes>`. Their round trip is proved: closing a table and
  opening it again yields the same table.
- **The supplemental page table** (`vm/vm.c`, `include/vm/vm.h`). It is a
  map from page-aligned user address to `struct page`. The model covers
  find, unique insert, `insert_vme`/`delete_vme` and
  `vm_alloc_page_with_initializer`. It also covers the `vm_try_handle_fault`
  classification, the frame-linking step of `vm_do_claim_page`, the
  `VM_TYPE` mask, `page_get_type`, and dispatch through a page's
  `page_operations` table.
- **Memory-mapped files** (`vm/file.c`):
  - the page layout `do_mmap` builds, and its allocations;
  - `lazy_load_file` and `file_backed_initializer`;
  - the `do_munmap` write-back walk;
  - `file_backed_destroy`.
- **The anonymous-page swap table** (`vm/anon.c`). It is a first-fit bitmap
  of page-sized swap slots, with `anon_initializer` and `anon_destroy`.
- **17.14 fixed-point arithmetic** (`include/threads/fixed_point.h`). It
  works over 32-bit `int` with the 64-bit intermediate, and C's truncating
  division is written out.

Modules follow the source:

| module | file | models |
|---|---|---|
| `Common` | `common.dfy` | `Option`, bytes, `PGSIZE`, sector size, `pg_round_down` |
| `FixedPoint` | `fixed_point.dfy` | `fixed_point.h` |
| `Fat` | `fat.dfy` | `fat.c` table |
| `FatDisk` | `fat_disk.dfy` | `fat.c` open, close and init |
| `VmTypes` | `vm_types.dfy` | `vm.h` |
| `Vm` | `vm.dfy` | `vm.c` |
| `Anon` | `anon.dfy` | `anon.c` |
| `FileBacked` | `file_backed.dfy` | `file.c` |
| `Dispatch` | `dispatch.dfy` | `vm.h` macros and `vm_dealloc_page` |

Conventions:

- **Pages are values.** A page is identified by its `va`. C writes through
  the shared `struct page *`; here the operation returns the updated SPT.
- **Function pointers become names.** `Handler`, `Loader` and `Initializer`
  stand for function pointers, and a NULL pointer is `None`. A NULL
  dereference the C code would perform is a `None` result.
- **Effects outside this core become parameters.** This covers what
  `palloc` and `pml4_get_page`/`pml4_set_page` report in
  `vm_do_claim_page`. It also covers the page's `swap_in` there: the
  table and union it leaves in the page, and its result (`Vm.SwapInEffect`).
  `Dispatch.FirstFaultMakesFilePage` supplies the effect of
  `uninit_initialize` on an mmap page. It also covers user memory, a file's contents and
  the pml4 dirty bits in `do_munmap`.
- **Files are byte sequences.** A file's contents are `seq<byte>`.
  `file_read_at` returns what exists from the offset. `file_write_at`
  overwrites in place without growing the file (the base file system's
  behaviour).

Three files the core depends on are not part of this model:

- **`filesys/fat.h`.** Its constants are taken from the standard pintos-kaist
  header: `FAT_MAGIC = 0xEB3C9000`, `EOChain = 0x0FFFFFFF`,
  `ROOT_DIR_CLUSTER = 1`, `FAT_BOOT_SECTOR = 0`, `SECTORS_PER_CLUSTER = 1`.
- **`vm/uninit.c`.** Its pintos skeleton is assumed: `uninit_new` writes
  the whole struct with a compound literal, and `uninit_ops` has no
  `swap_out`. `uninit_initialize` runs the page initializer, then the
  loader. `uninit_destroy` does nothing.
- **`filesys/file.c`.** `file_read_at` and `file_write_at` are modelled by
  their effect only.

`fat_fs_init` sets `fat_length = fat_sectors / 4`. That divides a count of
sectors by the size of an entry, but it is modelled as written
(`Fat.FatFsInit`). As a consequence, the table always fits in its sectors
(`Fat.FatSectorsHoldTable`). In every `FatFs` the model builds,
`|fat| == fat_length`, so `FatDisk.FatClose` measures the table by `|fat|`
where C uses `fat_length * 4`.

## Model

| member | source | states |
|---|---|---|
| FixedPoint.TruncDiv | include/threads/fixed_point.h:30-32 | C integer division truncates toward zero: the remainder has the dividend's sign and is smaller in magnitude than the divisor |
| FixedPoint.TruncDivUnique | include/threads/fixed_point.h:30-32 | those remainder bounds determine the truncating quotient uniquely |
| FixedPoint.IntToFp | include/threads/fixed_point.h:18-20 | int_to_fp(n) is a multiple of F = 2^14 whose quotient by F is n |
| FixedPoint.FpToInt | include/threads/fixed_point.h:30-32 | fp_to_int truncates toward zero: n*F <= x < n*F + F for x >= 0, and n*F - F < x <= n*F for x < 0 |
| FixedPoint.FpToIntRound | include/threads/fixed_point.h:22-28 | fp_to_int_round rounds to nearest with halves away from zero: n*F lies within F/2 of x, and the tie goes away from zero |
| FixedPoint.AddFp | include/threads/fixed_point.h:34-36 | add_fp is exact addition when the int sum does not overflow |
| FixedPoint.AddMixed | include/threads/fixed_point.h:38-40 | add_mixed adds n*F |
| FixedPoint.SubFp | include/threads/fixed_point.h:42-44 | sub_fp is exact subtraction |
| FixedPoint.SubMixed | include/threads/fixed_point.h:46-48 | sub_mixed subtracts n*F |
| FixedPoint.MultFp | include/threads/fixed_point.h:50-52 | mult_fp is the 64-bit product divided by F, truncated toward zero |
| FixedPoint.MultMixed | include/threads/fixed_point.h:54-56 | mult_mixed(x, n) is the multiple of n whose quotient by n is x, so x*n; it is 0 when n is 0 |
| FixedPoint.DivFp | include/threads/fixed_point.h:58-60 | div_fp is x*F divided by y, truncated toward zero, with the 64-bit intermediate |
| FixedPoint.DivMixed | include/threads/fixed_point.h:62-64 | div_mixed is the truncating quotient x / n |
| FixedPoint.Int64Product | include/threads/fixed_point.h:50-60 | the product of two ints always fits the int64_t intermediate |
| FixedPoint.FpToIntOfIntToFp | include/threads/fixed_point.h:18-32 | fp_to_int(int_to_fp(n)) == n |
| FixedPoint.FpToIntRoundOfIntToFp | include/threads/fixed_point.h:18-28 | fp_to_int_round(int_to_fp(n)) == n |
| FixedPoint.FpToIntNegate | include/threads/fixed_point.h:30-32 | truncation is symmetric: fp_to_int(-x) == -fp_to_int(x) |
| FixedPoint.AddMixedIsAddFp | include/threads/fixed_point.h:34-40 | add_mixed(x, n) == add_fp(x, int_to_fp(n)) |
| FixedPoint.SubMixedIsSubFp | include/threads/fixed_point.h:42-48 | sub_mixed(x, n) == sub_fp(x, int_to_fp(n)) |
| FixedPoint.MultFpOne | include/threads/fixed_point.h:50-52 | one is the unit of mult_fp |
| FixedPoint.DivFpOne | include/threads/fixed_point.h:58-60 | dividing by one with div_fp changes nothing |
| FixedPoint.MultMixedOfIntToFp | include/threads/fixed_point.h:54-56 | mult_mixed(int_to_fp(a), b) == int_to_fp(a*b) absent overflow |
| Fat.FatBootCreate | filesys/fat.c:139-151 | fat_boot_create: magic, one sector per cluster, N total sectors, FAT from sector 1, root cluster; fat_sectors is the least k with k*129 >= N (the unsigned N-1 wraps for N = 0) |
| Fat.FatFsInit | filesys/fat.c:158-166 | fat_fs_init: fat_length = fat_sectors / 4; data_start and last_clst are fat_start |
| Fat.FatSectorsHoldTable | filesys/fat.c:161 | with that fat_length, fat_length*4 bytes always fit in fat_sectors sectors |
| Fat.FatPut | filesys/fat.c:243-247 | fat_put sets one entry and leaves every other entry unchanged |
| Fat.GetAfterPut | filesys/fat.c:243-256 | fat_get after fat_put(c, v) reads v at c and the old value elsewhere |
| Fat.ClusterToSector | filesys/fat.c:261-265 | cluster_to_sector is the identity |
| Fat.FatCreate | filesys/fat.c:117-136 | fat_create: a table of fat_length entries, all zero except fat[ROOT_DIR_CLUSTER] = EOChain; the root cluster's sector is zeroed and no other sector changes |
| Fat.FirstFree | filesys/fat.c:182-187 | the first-fit scan finds the lowest free index at or after the start, or reports that none is free |
| Fat.NoneFreeIffCountZero | filesys/fat.c:182-199 | no entry is free from the start exactly when the free count there is zero |
| Fat.AllocationConsumesOne | filesys/fat.c:184 | marking one free entry used lowers the free count by exactly one |
| Fat.CountFreeIgnoresBefore | filesys/fat.c:193 | writing an entry below the scan start leaves the free count unchanged |
| Fat.CreateChain | filesys/fat.c:177-200 | fat_create_chain: on exhaustion returns 0 with the table unchanged; otherwise returns the lowest free cluster i; with clst == 0 only fat[i] changes, to EOChain; otherwise fat[clst] := i and fat[i] := old fat[clst], and nothing else changes |
| Fat.SuccessIsNonzero | filesys/fat.c:182-185 | a scan from fat_start = 1 never returns cluster 0, so success is distinguishable from failure |
| Fat.ScanFindsIffFree | filesys/fat.c:182-199 | the scan succeeds exactly when some entry in range is free |
| Fat.NewChainUsesOneCluster | filesys/fat.c:180-187 | starting a chain uses exactly one free cluster |
| Fat.ScanFromAsWritten | filesys/fat.c:182-183 | the scan with the bound i <= fat_length finds the lowest free index at or after the start; it reads index fat_length exactly when no entry from the start on is free, and gives up only for a start past fat_length |
| Fat.AsWrittenReadsPastEnd | filesys/fat.c:182-183 | when no entry is free, the as-written scan always reads fat[fat_length], one past the calloc'd table |
| Fat.FullTableReadsPastEnd | filesys/fat.c:182-183 | concrete case: a full two-entry table makes the scan read fat[2] |
| FatDisk.DecodeEncodeWord | filesys/fat.c:94-102 | one cluster_t, written as its four little-endian bytes, reads back unchanged |
| FatDisk.EncodeTableLayout | filesys/fat.c:94 | the table's byte view puts entry i at bytes 4i..4i+3 |
| FatDisk.DecodeEncodeTable | filesys/fat.c:61 | reading the table's bytes as cluster_t entries gives back the table |
| FatDisk.BootSectorImage | filesys/fat.c:86-90 | the boot sector is the boot record padded with zeros to a sector, and reads back as the same record |
| FatDisk.SectorImageByte | filesys/fat.c:98-112 | sector k of the table holds bytes 512k.. of the table and zeros past its end (the bounce-buffer tail) |
| FatDisk.NextFatSector | filesys/fat.c:99-111 | one loop iteration writes a full sector or the zero-padded tail, and bytes_wrote advances to min((i+1)*512, size) |
| FatDisk.SectorImageIsChunk | filesys/fat.c:100-109 | a full iteration writes exactly the next 512 bytes; the last writes the remaining bytes_left followed by zeros |
| FatDisk.ChunkStep | filesys/fat.c:66-77 | bytes_read is min(i*512, size) before iteration i, so it never exceeds the table size |
| FatDisk.FatClose | filesys/fat.c:84-114 | fat_close writes the boot sector and, to sector fat_start+i, the i-th 512-byte chunk of the table, zero-padded; no other sector changes |
| FatDisk.LoadedBytes | filesys/fat.c:65-80 | the bytes fat_open's loop gathers: byte p comes from sector fat_start + p/512 |
| FatDisk.FatOpen | filesys/fat.c:55-81 | fat_open reads fat_length entries, the first fat_length*4 bytes of the FAT sectors |
| FatDisk.SectorImagesLoadBack | filesys/fat.c:65-113 | the bytes fat_open gathers from the sectors fat_close wrote are the table's bytes, provided the table fits in fat_sectors |
| FatDisk.CloseThenOpen | filesys/fat.c:55-114 | fat_close followed by fat_open reproduces the table |
| FatDisk.FatInit | filesys/fat.c:35-52 | fat_init keeps a boot record with the right magic and otherwise creates one, then runs fat_fs_init: an empty table, fat_length the largest count whose entries fit in fat_sectors, and data_start and last_clst both fat_start |
| FatDisk.InitAfterCloseKeepsBoot | filesys/fat.c:44-51 | after fat_close, fat_init finds the magic and keeps the boot record that was written |
| VmTypes.VmTypeOf | include/vm/vm.h:43 | VM_TYPE(t) = t & 7: a value below 8 that differs from t by a multiple of 8 |
| VmTypes.MarkersDoNotChangeType | include/vm/vm.h:26-43 | or-ing in VM_MARKER_0 and/or VM_MARKER_1 leaves VM_TYPE unchanged |
| VmTypes.BaseTypesAreFixedPoints | include/vm/vm.h:10-18 | VM_UNINIT..VM_PAGE_CACHE are 0..3 and each is its own VM_TYPE |
| VmTypes.ReleaseFrame | vm/anon.c:90-95 | a page's frame is handed back only if it has one, and its address loses its mapping; no other mapping changes |
| VmTypes.UninitNew | vm/vm.c:120-127 | uninit_new yields an uninit page with uninit_ops, the given loader, type, aux and initializer, no frame, and every other field (writable, is_loaded, vmfile, offset, read_bytes, zero_bytes) zero |
| VmTypes.PageGetType | vm/vm.c:85-94 | page_get_type: VM_TYPE of the table's type, except an uninit page reports VM_TYPE of the type it will become |
| VmTypes.UninitPageReportsFutureType | vm/vm.c:85-94 | a page fresh from uninit_new reports VM_TYPE of its requested type |
| VmTypes.InstalledTableDecidesType | vm/file.c:11-16 | once anon_ops or file_ops is installed, the page reports that table's type, which is not VM_UNINIT |
| Vm.VmLessKeyEquality | vm/vm.c:30-34 | vm_less_func orders pages strictly by va, so two entries are equal keys exactly when their va match |
| Vm.SptFind | vm/vm.c:155-166 | spt_find_page looks up pg_round_down(va), returning NULL when that page has no entry |
| Vm.FindSamePage | vm/vm.c:159-161 | two addresses in the same page find the same entry |
| Vm.SptInsert | vm/vm.c:170-177 | spt_insert_page fails and changes nothing when the va is taken, and otherwise adds exactly that page |
| Vm.InsertThenFind | vm/vm.c:155-177 | after a successful insert, every address in the page finds the inserted page |
| Vm.InsertKeepsWellKeyed | vm/vm.c:170-177 | insertion keeps every entry stored under its own page-aligned va |
| Vm.InsertVme | vm/vm.c:36-41 | insert_vme succeeds exactly when the va is free, and then adds the page |
| Vm.InsertVmeIsSptInsert | vm/vm.c:36-41 | insert_vme and spt_insert_page behave identically |
| Vm.DeleteVme | vm/vm.c:43-48 | delete_vme reports whether the va was present; afterwards it is absent and every other entry is unchanged |
| Vm.InsertThenDelete | vm/vm.c:36-48 | deleting a page just inserted succeeds and restores the table |
| Vm.DeleteTwice | vm/vm.c:43-48 | a second delete of the same page fails and changes nothing |
| Vm.NewPageAsWritten | vm/vm.c:116-142 | the page vm_alloc_page_with_initializer builds, comparing the raw type with 1 and 2: rounded va, requested writable, not loaded, aux bookkeeping copied; any other type gets no table |
| Vm.FinishNewPage | vm/vm.c:131-142 | the field writes after uninit_new: aux bookkeeping, is_loaded false, writable, rounded va |
| Vm.VmAllocPageWithInitializer | vm/vm.c:102-152 | as written: refuses and changes nothing when the page is taken; otherwise inserts the new page at pg_round_down(upage) |
| Vm.MarkedAnonGetsNoOperations | vm/vm.c:118-130 | an anonymous request carrying VM_MARKER_0 is accepted but gets no operations table |
| Vm.NewPage | vm/vm.c:116-142 | as NewPageAsWritten, but the branch is chosen by VM_TYPE(type), so markers are ignored |
| Vm.VmAllocPage | vm/vm.c:102-152 | refuses and changes nothing when the page is taken; otherwise inserts exactly the new page at pg_round_down(upage) |
| Vm.AllocatedPageReportsType | vm/vm.c:102-152 | every anon or file request, markers included, inserts an uninit page that reports the requested VM_TYPE |
| Vm.AsWrittenAgreesWithoutMarkers | vm/vm.c:118-130 | for plain VM_ANON and VM_FILE the as-written and corrected allocators agree |
| Vm.AllocKeepsOthers | vm/vm.c:145-148 | allocation keeps every existing entry and keeps the table well keyed |
| Vm.LinkFrame | vm/vm.c:289-298 | vm_do_claim_page's link step: page->frame and frame->page point at each other; other pages are unchanged |
| Vm.LinkFrameTouchesOnlyVa | vm/vm.c:289-298 | linking a frame adds and removes no SPT entry |
| Vm.DoClaimPageAsWritten | vm/vm.c:285-304 | as written: panics without a frame; otherwise links the frame, runs swap_in whatever the mapping did (the page takes on the table and union swap_in leaves) and returns swap_in's result |
| Vm.ClaimIgnoresMappingFailure | vm/vm.c:294-299 | a page whose address is already mapped is still claimed successfully |
| Vm.DoClaimPage | vm/vm.c:285-304 | corrected: the same effect on the page, but the claim succeeds exactly when the address was unmapped, pml4_set_page succeeded and swap_in succeeded |
| Vm.ClaimReportsMappingFailure | vm/vm.c:294 | an already-mapped address or a failed pml4_set_page makes the corrected claim fail |
| Vm.VmClaimPage | vm/vm.c:275-283 | vm_claim_page dereferences NULL when no page covers va, and otherwise claims that page at the rounded va: linked to its frame, carrying what swap_in left, and reporting swap_in's result whatever the mapping did |
| Vm.ClaimPageAgreesUnlessMappingFailed | vm/vm.c:282 | vm_claim_page reports what the corrected claim would exactly when the mapping succeeded or swap_in failed |
| Vm.VmTryHandleFault | vm/vm.c:229-265 | an uncovered address returns false and changes nothing; a present-page fault kills the process; otherwise the covering page is claimed: a panic without a frame, else the page is linked to the frame, carries the table and union swap_in left, and the result is swap_in's |
| Vm.FaultOverMappedAddressSucceeds | vm/vm.c:251 | a not-present fault over an already-mapped address is reported handled when swap_in succeeds, where the corrected claim fails |
| Vm.FaultClaimIsCorrectWhenMapped | vm/vm.c:251 | when the mapping succeeds, the fault path's claim is the corrected claim |
| Vm.FaultTouchesOnlyFaultingPage | vm/vm.c:239-251 | a handled fault on a well-keyed table changes no page but the faulting one, which gains its frame and swap_in's table and union |
| Anon.SwapTableInit | vm/anon.c:26-31 | vm_anon_init makes one free slot per whole run of 8 sectors |
| Anon.ScanFree | vm/anon.c:74 | bitmap_scan finds the lowest free slot from the start, or BITMAP_ERROR exactly when none is free |
| Anon.SetBitCountsOne | vm/anon.c:81 | setting a clear bit adds exactly one used slot |
| Anon.AnonSwapOut | vm/anon.c:67-84 | anon_swap_out panics exactly when every slot is used; otherwise records the lowest free slot in the page and marks only that slot used |
| Anon.AnonSwapIn | vm/anon.c:50-60 | anon_swap_in frees the page's recorded slot and changes no other slot |
| Anon.SwapOutThenInRestores | vm/anon.c:50-84 | swap-out followed by swap-in restores the bitmap |
| Anon.SwapOutUsesOneSlot | vm/anon.c:74-81 | a successful swap-out uses exactly one more slot |
| Anon.SuccessiveSwapOutsDiffer | vm/anon.c:74-81 | two pages swapped out in turn get different slots |
| Anon.AnonInitializer | vm/anon.c:37-43 | anon_initializer installs anon_ops, the union reads as an anon page with no slot recorded, and every other field is left alone |
| Anon.InitializedPageIsAnon | vm/anon.c:13-18 | after anon_initializer the page reports VM_ANON |
| Anon.AnonDestroy | vm/anon.c:87-97 | anon_destroy frees the frame's kernel page only if there is a frame, and clears the page's mapping |
| Anon.DestroyFramelessOnlyUnmaps | vm/anon.c:90-95 | a page that never got a frame only loses its mapping |
| FileBacked.FileReadAt | vm/file.c:87 | file_read_at returns the file's bytes from the offset, cut short at end of file |
| FileBacked.FullReadIffInFile | vm/file.c:87 | a read returns all n bytes exactly when n is 0 or the range lies inside the file |
| FileBacked.FileWriteAt | vm/file.c:159 | file_write_at overwrites from the offset, keeps the length, and changes nothing outside the written range |
| FileBacked.WriteBackOfReadIsIdentity | vm/file.c:159 | writing back what was just read leaves the file unchanged |
| FileBacked.LazyLoadFile | vm/file.c:80-96 | lazy_load_file fails exactly on a short read; on success the page holds the file's read_bytes from ofs, then zero_bytes zeros, and the rest is untouched |
| FileBacked.FileBackedInitializer | vm/file.c:28-48 | installs file_ops, copies file, offset, read_bytes and zero_bytes from aux, and fails exactly on a short read |
| FileBacked.UninitInitializeFile | vm/file.c:28-96 | a file page's first fault runs the initializer and then lazy_load_file; it loads exactly when the bytes exist, and leaves a file page with the file's bytes then zeros |
| FileBacked.LayoutShape | vm/file.c:118-136 | do_mmap makes ceil(n/PGSIZE) pages; page k is at addr + k*PGSIZE, reads min(PGSIZE, n - k*PGSIZE) bytes from offset + k*PGSIZE, read and zero bytes sum to PGSIZE, and the reads sum to n |
| FileBacked.LayoutReadsWithin | vm/file.c:121-135 | every page reads inside [offset, offset + n) |
| FileBacked.LayoutAddressesIncrease | vm/file.c:134 | pages lie at least a page apart, in increasing order |
| FileBacked.LayoutPagesDistinct | vm/file.c:134 | from an aligned addr, no two pages share a memory page |
| FileBacked.MmapEntry | vm/file.c:130 | each page is requested as a VM_FILE uninit page with lazy_load_file, its aux and file_backed_initializer |
| FileBacked.AllocPagesExtends | vm/file.c:130-131 | allocating pages never drops or changes an existing entry, even when a later page is refused |
| FileBacked.AllocPagesSucceedsIffFree | vm/file.c:130-131 | with distinct pages, the allocations all succeed exactly when none of the pages is taken |
| FileBacked.AllocPagesInstalls | vm/file.c:130 | after complete allocation each page holds its own uninit entry |
| FileBacked.AllocPagesKeys | vm/file.c:130 | complete allocation adds exactly the pages' addresses |
| FileBacked.MmapPages | vm/file.c:118-136 | the loop makes one allocation per layout page and stops at the first refusal, pages already made staying in the table |
| FileBacked.DoMmapAsWritten | vm/file.c:110-138 | as written: maps file_length bytes from offset, whatever length is; returns addr unless an allocation is refused |
| FileBacked.MmapAsWrittenMisuses | vm/file.c:114-118 | length 0 is accepted, and offset 4096 in a 4096-byte file yields a page whose first fault fails |
| FileBacked.MmapWindow | vm/file.c:98-108 | the mapped window never exceeds length and never passes the end of the file |
| FileBacked.DoMmap | vm/file.c:110-138 | corrected: NULL for addr 0 or length 0; otherwise maps the window selected by length and offset and returns addr unless refused |
| FileBacked.MmapPagesLoad | vm/file.c:87-92 | every page the corrected do_mmap describes reads only existing bytes, so its lazy load succeeds |
| FileBacked.MmapEntryFaultsIn | vm/file.c:28-96 | a page do_mmap requested, faulted in, holds exactly its file bytes followed by zeros |
| FileBacked.MmapMapsWindow | vm/file.c:110-138 | corrected do_mmap succeeds exactly when no window page is taken, and then adds exactly the window's uninit pages |
| FileBacked.MunmapFrom | vm/file.c:153-163 | the walk keeps the file's length, only clears dirty bits, and never touches pages before its start |
| FileBacked.Walked | vm/file.c:153-161 | the walk visits consecutive pages addr, addr+PGSIZE, … while each is present and maps the same file |
| FileBacked.MunmapClearsWalked | vm/file.c:153-163 | the walk clears exactly the dirty bits of the visited pages, and writes nothing when none of them is dirty |
| FileBacked.DoMunmap | vm/file.c:147-165 | do_munmap dereferences NULL when no page covers addr; a first page that is not a file page leaves the file and dirty bits alone; otherwise the result is the walk from the first page's file, which clears exactly the walked pages' dirty bits (the first page's among them) and leaves the file unchanged when none of them was dirty |
| FileBacked.MunmapStepDirty | vm/file.c:157-161 | a dirty page of the file gets read_byte bytes of memory written at its offset and its dirty bit cleared |
| FileBacked.MunmapWritesBack | vm/file.c:147-165 | unmapping a faulted-in, fully dirty mapping stores memory back into [offset, offset + n) and keeps every other byte |
| FileBacked.FileBackedDestroy | vm/file.c:66-78 | file_backed_destroy runs do_munmap from the page's address, then frees the frame and clears the mapping |
| FileBacked.DestroyClearsDirtyAndKeepsCleanFile | vm/file.c:66-78 | destroying a file page clears its dirty bit and mapping, and leaves the file unchanged when no walked page is dirty |
| Dispatch.SwapInHandler | include/vm/vm.h:114 | swap_in calls the installed table's swap_in: uninit_initialize, anon_swap_in or file_backed_swap_in |
| Dispatch.SwapOutHandler | include/vm/vm.h:115 | swap_out calls the installed swap_out; an uninit page has none |
| Dispatch.DestroyHandler | include/vm/vm.h:116-117 | destroy calls the installed destroy: uninit_destroy, anon_destroy or file_backed_destroy |
| Dispatch.HandlersFollowType | include/vm/vm.h:107-117 | the handler reached is the anon or file one exactly when the table's type is VM_ANON or VM_FILE; only VM_UNINIT lacks swap_out |
| Dispatch.VmDeallocPage | vm/vm.c:269-272 | vm_dealloc_page destroys through the table: nothing for a NULL or uninit destroy, a frame release for anon, and munmap plus frame release for a file page |
| Dispatch.DeallocByType | vm/vm.c:269-272 | deallocating an uninit page changes nothing; an anon page only releases its frame and mapping |
| Dispatch.DeallocFilePage | vm/vm.c:269-272 | deallocating a file page clears its dirty bit and mapping and frees its frame, and a clean mapping leaves the file unchanged |
| Dispatch.FirstFaultMakesFilePage | vm/vm.c:251-299 | the first fault on an mmap page, whose swap_in is uninit_initialize, makes it a VM_FILE page of the mapped file: do_munmap stops at the page before the fault, and after it walks the page and clears its dirty bit |

## Left out

- Trap and system-call plumbing (`userprog/syscall.c`) and the prototypes
  in `include/userprog/process.h`. They dispatch into code outside this
  core.
- `vm/page.c` and `include/vm/page.h`: an earlier, superseded `vm_entry`
  design whose constants contradict `include/vm/vm.h`.
- Eviction, stack growth, write-protect faults, and SPT copy and kill
  (`vm/vm.c`). Their bodies are empty or return NULL.
- `file_backed_swap_in`, `file_backed_swap_out`, `anon_swap_in`,
  `anon_swap_out` and `anon_initializer` end without a return statement.
  Their results are unspecified in C, so only their effects on state are
  modelled.
- `fat_remove_chain` (`filesys/fat.c:207-237`). It never writes the table,
  and it reads `fat[EOChain]` at line 235. It has no behaviour worth
  stating.
- The swap table's owner. `vm_anon_init` stores the bitmap in the
  initialising thread's `disk_table` (`vm/anon.c:31`), and `anon_swap_in`
  and `anon_swap_out` read `thread_current()->disk_table`
  (`vm/anon.c:56`, `vm/anon.c:72`). So every other thread, every user
  process included, sees an uninitialised table. The model passes one
  shared, initialised table explicitly to `Anon.AnonSwapIn` and
  `Anon.AnonSwapOut`, and does not represent the per-thread field.
- A page with no operations table reaching `vm_do_claim_page`, such as
  one allocated with a marked type as written. `swap_in` is then a call
  through NULL. The claim takes `swap_in`'s effect as a parameter and does
  not represent that crash.
- Swap-disk contents. The sector transfers of `anon_swap_in`/`anon_swap_out`
  (one sector at index `slot`, not 8 at `slot*8`, on a bitmap cast to
  `struct disk *`) are not modelled; only the bitmap logic is.
- Anon.AnonSwapOut: does not model `page->frame->kva` being read for the
  disk write, because the disk contents are left out.
- Hardware page tables, `palloc`, `malloc`/`free` lifetimes, `printf`, and
  the FAT write lock. Frees are not tracked, so the double free of the page
  struct (destroy frees it, then `vm_dealloc_page` frees it again) is not
  represented.
- `process_exit` after a fault on a present page. It is represented only as
  the `ProcessKilled` outcome of `Vm.VmTryHandleFault`.
- `spt_remove_page`, `vm_destroy` and the hash callbacks. They are
  unfinished or commented out.
- `off_t` width and negative offsets. File offsets and lengths are natural
  numbers.
- Struct fields C leaves uninitialised, such as those of a page created for
  a type other than anon or file. They are given fixed values (no table,
  `Unset` payload). `aux_struct.is_loaded` is dropped, because
  `vm_alloc_page_with_initializer` overwrites it with false at once.
- FileBacked.UninitInitializeFile: only the `lazy_load_file` loader is
  modelled. Loaders from `userprog/process.c` are not part of this model.
- FileBacked.DoMunmap: when the first page is not yet a file page, its
  union holds uninit data. The model ends the walk there, rather than
  reading that data as `read_byte`, `offset` and `file`. Also,
  `file_length(file)` at `vm/file.c:151` is computed and never used.
- FileBacked.LazyLoadFile: requires `read_bytes + zero_bytes <= PGSIZE`.
  A larger `memset` would write past the frame.
- Fat.FatCreate: requires the created table to have more than
  `ROOT_DIR_CLUSTER` entries. With `fat_length = fat_sectors / 4`, a disk
  with fewer than 8 FAT sectors makes `fat_put (ROOT_DIR_CLUSTER, …)` write
  past the table.

## Findings

| source | as written | input that shows it | evidently intended | confidence | as-written member | corrected member |
|---|---|---|---|---|---|---|
| filesys/fat.c:182 | the first-fit scan runs while `i <= fat_length`, over a table `calloc`'d with `fat_length` entries | a full table of two entries scanned from 1 reads `fat[2]` | `i < fat_length` | not executed | Fat.FullTableReadsPastEnd | Fat.CreateChain |
| vm/vm.c:294-299 | `vm_do_claim_page` computes `success` from the mapping and ignores it, returning `swap_in`'s result | claiming a page whose address is already mapped, with swap_in succeeding, returns true; through `vm_try_handle_fault` the fault is reported handled (Vm.FaultOverMappedAddressSucceeds) | return `success && swap_in (...)` | not executed | Vm.ClaimIgnoresMappingFailure | Vm.DoClaimPage |
| vm/vm.c:118-130 | the initializer is chosen by comparing the raw `type` with 1 and 2 | `VM_ANON` or-ed with `VM_MARKER_0` passes the `VM_TYPE` assertion but gets no operations table | compare `VM_TYPE (type)` | not executed | Vm.MarkedAnonGetsNoOperations | Vm.VmAllocPage |
| vm/file.c:114-118 | `do_mmap` ignores `length` and accepts `length == 0` | `length = 0` with a 100-byte file maps one page and returns addr | fail for `length == 0` (and `addr == 0`), and map at most `length` bytes | not executed | FileBacked.MmapAsWrittenMisuses | FileBacked.DoMmap |
| vm/file.c:114 | `read_size` is `file_length (file)`, whatever `offset` is | offset 4096 into a 4096-byte file yields a page whose lazy load reads past the end and fails | map `min (length, file_length - offset)` bytes | not executed | FileBacked.MmapAsWrittenMisuses | FileBacked.DoMmap |

The fault and claim paths, `Vm.VmTryHandleFault` and `Vm.VmClaimPage`,
call the claim as written, as `vm/vm.c:251` and `vm/vm.c:282` do.
`Vm.FaultClaimIsCorrectWhenMapped` and `Vm.ClaimPageAgreesUnlessMappingFailed`
show that they differ from the corrected claim only when the mapping
failed and swap_in succeeded.
