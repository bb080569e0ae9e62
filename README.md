# xv6 Sv39 user page tables with shared pages — a Dafny model

This project models the user-address-space core of an xv6 (RISC-V) kernel
extended with shared-memory pages, and proves properties of it:

- **Page-table walking and mapping** (`kernel/vm.c`): `walk`, `walkaddr`,
  `mappages` and `uvmunmap` over a three-level Sv39 tree of 512-entry
  tables.
- **Address-space lifecycle**: `uvmcreate`, `uvmfirst`, `uvmalloc`,
  `uvmdealloc`, `freewalk`, `uvmfree`, `uvmcopy` and `uvmclear`.
- **User copies**: `copyout`, `copyin` and `copyinstr`, page by page
  through `walkaddr`.
- **Shared pages**:
  - `find_free_va` and `map_shared_pages` alias another process's pages.
    Each alias is a leaf carrying the software bit `PTE_S`, and nothing
    counts references to the frame.
  - `unmap_shared_pages` revokes user access by clearing `PTE_U`.
- **System calls** (`kernel/sysproc.c`): `sys_map_shared_pages`, which maps
  a parent's pages at the end of the calling child, and
  `sys_unmap_shared_pages`.
- **The log page of `user/log_test.c`**: `write_log` appends records
  (a 4-byte header `(pid << 16) | len` at a 4-aligned offset, then the
  payload); `parent_read_logs` walks them back.

## Physical memory

Physical memory is a map from frame addresses to typed frames: a table of
512 words, or a page of 4096 bytes (`Phys.Frame`). `Phys.Machine` is the
mutable machine. Its fields are:

- `frames`;
- the free list that `kalloc` pops and `kfree` pushes;
- a ghost owner map that gives every frame in use exactly one owner: a
  table position in some tree, or the owning (non-`PTE_S`) leaf that maps
  it.

Every method keeps the memory invariant `Phys.Inv`. It says:

- tables are linked from exactly one parent slot;
- every owned leaf maps a data page;
- every valid `PTE_S` leaf maps a data page that is in use (not on the free
  list) and is not a table;
- owned frames are not on the free list;
- the free list has no duplicates.

Most contracts state the new state through functions of the old one:

- `Leaf`, `Mapped` and `WalkAddr` read the tree;
- `LeafSet`, `MappedRun`, `ClearedRun`, `SharedRun` and `UserCleared`
  describe which leaves changed;
- `Kept` and `Accounted` say that no frame was lost or double-owned.

A kernel `panic` is the outcome `Panic(msg)` of `Outcomes.Res`. The model
panics where the source does, except in the cases listed under "## Left out"
(`Shared.FindFreeVa`, `AddrSpace.UvmFirst`, `PageTable.MapPages`).

## Model

| member | source | states |
|---|---|---|
| Phys.Machine.Kalloc | kernel/vm.c:45 | kalloc takes the head of the free list, or returns 0 when the list is empty; the frame it returns was neither owned nor free, and is not aliased |
| Phys.Machine.Kfree | kernel/vm.c:88 | kfree pushes the frame on the head of the free list |
| Phys.Machine.WritePage | kernel/vm.c:175 | writing a data frame (the memmove of the copy routines) changes no leaf of any tree and no alias, and keeps the invariant |
| Phys.FreeNotShared | kernel/vm.c:88 | a frame on the free list is not the target of any `PTE_S` alias |
| PageTable.Walk | kernel/vm.c:38-51 | walk panics exactly when va >= MAXVA; otherwise it returns the level-0 slot of va, or none when a table is missing and alloc is 0 or kalloc fails; with alloc it only grows the tree with zeroed tables taken from the free list (TreeGrown), and with at least two free frames it always finds a slot |
| PageTable.AllocTable | kernel/vm.c:45-47 | walk's allocation step returns 0 and changes nothing when the free list is empty; otherwise the missing entry now points, with PTE_V, to a new table taken from the free list one level down, and the tree only grows |
| PageTable.WalkStep | kernel/vm.c:41-48 | one level of walk moves to the next table on va's path. A result of 0 means nothing changed, va has no leaf slot and, with alloc, the free list is empty. Without alloc nothing changes |
| PageTable.WalkAddr | kernel/vm.c:53-58 | a nonzero result is the page-aligned frame of a valid user leaf below MAXVA |
| PageTable.WalkAddrSpec | kernel/vm.c:53-58 | in well-formed memory, walkaddr fails exactly for va >= MAXVA or a leaf that is invalid or lacks PTE_U; otherwise it returns a full data frame that is not a table |
| PageTable.WalkAddrOfMapping | kernel/vm.c:53-58 | after a leaf is set to PA2PTE(pa) \| perm \| PTE_V, walkaddr returns pa exactly when perm has PTE_U, and 0 otherwise |
| PageTable.NPages | kernel/vm.c:65-66 | mappages maps the pages from PGROUNDDOWN(va) to PGROUNDDOWN(va + size - 1) inclusive |
| PageTable.MapOne | kernel/vm.c:68-74 | one round of mappages panics only at or above MAXVA or on a remap. It returns -1 only with fewer than two free frames, the page unmapped and no leaf changed. Otherwise it sets exactly this leaf to PA2PTE(pa) \| perm \| PTE_V, and an owning leaf adds pa to the accounted frames |
| PageTable.Store | kernel/vm.c:74 | storing a leaf entry (`*pte = ...`) changes exactly the leaves that reach that slot, keeps the roots and the invariant, and moves ownership from the old entry's frame to the new entry's |
| PageTable.MapRound | kernel/vm.c:68-77 | one round of mappages' loop, seen from the loop's start: it panics only on a page at or above MAXVA or already mapped on entry; null from walk means an empty free list, fewer than two frames per page at the start, and this page still unmapped; otherwise the run of mapped pages grows by this one page and every frame stays accounted for |
| PageTable.MapPages | kernel/vm.c:64-80 | mappages maps `done` consecutive pages of pa with perm \| PTE_V and changes no other leaf. It returns 0 when all pages are mapped. It returns -1 only with an exhausted free list, at an unmapped page below MAXVA, and never when there are two free frames per page. A panic means some page was at or above MAXVA or already mapped (remap). Frames stay accounted for, and an owning mapping adds its pages to the owned set |
| PageTable.ClearPte | kernel/vm.c:88-89 | with do_free, a leaf without PTE_S has its frame pushed on the free list, a PTE_S leaf's frame is left alone; the slot becomes 0 in every tree that reaches it and in nothing else, the frame the leaf owned loses its owner, the invariant is kept, and no frame becomes the target of an alias |
| PageTable.FreeAliasedDangles | kernel/vm.c:88-89 | when the owning leaf being freed maps a frame that some PTE_S leaf elsewhere still maps, the kfree at line 88 leaves that alias mapping a frame on the free list: the resulting state breaks the memory invariant |
| PageTable.UnmapOne | kernel/vm.c:85-89 | one round of uvmunmap panics exactly when the page is at or above MAXVA or unmapped. Otherwise it zeroes exactly this leaf, and frees its frame exactly when do_free is set and the leaf has no PTE_S; an owning leaf's owner is dropped |
| PageTable.Freed | kernel/vm.c:88 | the frames uvmunmap frees are exactly those of owning (non-PTE_S) valid leaves of the run |
| PageTable.UnmapRound | kernel/vm.c:84-89 | one round of uvmunmap's loop, seen from the loop's start: it panics exactly when this page is at or above MAXVA or was unmapped on entry; otherwise the cleared run grows by this page, the owners lose exactly the Freed frames of the run so far, and with do_free exactly those frames are on top of the free list |
| PageTable.UvmUnmap | kernel/vm.c:82-91 | uvmunmap panics exactly when va is unaligned or some page of the run is at or above MAXVA or unmapped. Otherwise it zeroes exactly those leaves and drops the owners of the Freed frames; with do_free it also pushes exactly those frames on the free list. PTE_S frames are never freed, and no table or data frame changes |
| AddrSpace.SharedIsLeaf | kernel/vm.c:241 | a frame is the target of a shared alias exactly when some valid PTE_S leaf of some tree maps it |
| AddrSpace.UvmCreate | kernel/vm.c:93-98 | uvmcreate returns 0 exactly when no frame is free; otherwise it returns the head of the free list as a new root with no mapping, and no existing tree changes |
| AddrSpace.FirstPage | kernel/vm.c:102-105 | the first user page holds src[0 .. sz) followed by zeroes |
| AddrSpace.MapFirst | kernel/vm.c:104-105 | uvmfirst's mappages and memmove: a panic means page 0 was already mapped; otherwise the frame holds FirstPage, with two free frames page 0 maps it with R\|W\|X\|U, and no other leaf below MAXVA changes |
| AddrSpace.UvmFirst | kernel/vm.c:100-106 | uvmfirst panics when sz >= PGSIZE, and otherwise only when va 0 is already mapped. It writes FirstPage into the frame at the head of the free list. With three free frames it maps that frame at va 0 with R\|W\|X\|U, and then every frame stays accounted for. No other leaf below MAXVA changes |
| AddrSpace.AllocPages | kernel/vm.c:110-111 | uvmalloc's loop covers exactly the pages from PGROUNDUP(oldsz) below newsz |
| AddrSpace.DeallocAfterAlloc | kernel/vm.c:113 | uvmdealloc(a, oldsz) after k rounds of uvmalloc removes exactly those k pages |
| AddrSpace.GrowOne | kernel/vm.c:112-117 | one round of uvmalloc panics only on a page at or above MAXVA or already mapped. It fails, with no leaf changed, only when fewer than three frames are free. Otherwise it maps exactly this page to a zeroed frame from the free list, owned by the leaf and not aliased. No frame is lost |
| AddrSpace.AllocRound | kernel/vm.c:111-117 | one round of uvmalloc's loop, seen from the loop's start: a panic means this page was at or above MAXVA or mapped on entry; a failure happens only with fewer than three free frames and leaves the pages mapped so far ready for uvmdealloc (Stalled); otherwise the run grows by one fresh zeroed frame and no frame is lost |
| AddrSpace.UvmAlloc | kernel/vm.c:108-120 | uvmalloc returns oldsz unchanged when newsz < oldsz. On success it returns newsz with every new page, each unmapped and below MAXVA before the call, mapped R\|U\|permflag to a fresh zeroed frame taken from the free list, and the roots are the same. On failure it returns 0 with the mappings as before, and it never fails with three free frames per page. No frame is lost either way. A panic means some page was at or above MAXVA or already mapped |
| AddrSpace.AllocUndone | kernel/vm.c:112-115 | uvmalloc's failure path (kfree, then uvmdealloc) restores the accounted frames and the mappings of the start state |
| AddrSpace.DeallocPages | kernel/vm.c:124-125 | uvmdealloc unmaps the pages from PGROUNDUP(newsz) up to PGROUNDUP(oldsz) |
| AddrSpace.UvmDealloc | kernel/vm.c:122-127 | uvmdealloc returns oldsz unchanged when newsz >= oldsz. It panics exactly when a page it must unmap is at or above MAXVA or unmapped. Otherwise it returns newsz with those pages unmapped and their owned frames freed |
| AddrSpace.AllocDeallocPages | kernel/vm.c:108-127 | for oldsz <= newsz, uvmdealloc(newsz, oldsz) removes exactly as many pages as uvmalloc(oldsz, newsz) adds |
| AddrSpace.GrowThenShrink | kernel/vm.c:108-127 | uvmalloc(oldsz, newsz) returning newsz followed by uvmdealloc(newsz, oldsz) restores every mapping, puts every frame uvmalloc took back on the free list unowned, and loses no frame; the page-table pages the growth allocated stay in the tree |
| AddrSpace.GrowShrink | kernel/vm.c:108-127 | running uvmalloc(oldsz, newsz) and then, when it returned newsz, uvmdealloc(newsz, oldsz): the shrink cannot panic and returns oldsz, every mapping is as before the growth, no frame is lost, and the frames the growth took are free again |
| AddrSpace.ClearUser | kernel/vm.c:166 | `*pte &= ~PTE_U` on walk's slot: exactly that page's leaf loses PTE_U, and no owner, free-list entry or data frame changes |
| AddrSpace.UvmClear | kernel/vm.c:163-167 | uvmclear panics exactly when va >= MAXVA or walk finds no slot; otherwise it clears PTE_U in that one leaf and changes nothing else |
| AddrSpace.ClearedUserMapping | kernel/vm.c:163-167 | after uvmclear the page is still mapped to the same frame with the same other flags, but walkaddr returns 0 for it |
| Teardown.FreeWalk | kernel/vm.c:129-138 | freewalk panics exactly when the subtree still holds a valid leaf; otherwise it frees every table of the subtree and changes nothing else (TornDown) |
| Teardown.FreeSlot | kernel/vm.c:131-135 | one slot of freewalk panics only when the subtree holds a leaf; otherwise it tears down the subtree below that slot and clears the slot |
| Teardown.FreedAll | kernel/vm.c:140-143 | uvmunmap of every page below sz followed by a freewalk that does not panic restores the memory invariant, returns every frame the tree owned to the free list, and changes no data frame and no other tree |
| Teardown.LeafIffMapped | kernel/vm.c:135 | a tree holds a leaf that freewalk would panic on exactly when some page below MAXVA is mapped |
| Teardown.UvmFree | kernel/vm.c:140-143 | uvmfree panics exactly when a page below PGROUNDUP(sz) is unmapped or at or above MAXVA, or a page from PGROUNDUP(sz) up to MAXVA is mapped. Otherwise every frame the tree owned goes back on the free list, no data frame changes, and no other tree changes |
| UserCopy.ChunkLen | kernel/vm.c:173-174 | each copy step takes the rest of the current page or of the request, whichever is shorter, and at least one byte when bytes remain |
| UserCopy.Splice | kernel/vm.c:175 | memmove into a page replaces exactly the chunk's bytes |
| UserCopy.ReachableSpec | kernel/vm.c:171-172 | a user byte is reachable exactly when its page is below MAXVA with a valid PTE_U leaf |
| UserCopy.StoredTranslation | kernel/vm.c:175 | writing user bytes changes no table entry, so the translation of every address is kept |
| UserCopy.CopyOut | kernel/vm.c:169-179 | copyout returns 0 or -1; memory afterwards is the old memory with the first `done` bytes stored through the page table; it returns 0 exactly when every byte was stored, and -1 at the first unreachable byte |
| UserCopy.CopyOutReadBack | kernel/vm.c:169-191 | on reachable, non-aliased pages, bytes stored by copyout are read back unchanged |
| UserCopy.CopyIn | kernel/vm.c:181-191 | copyin returns the user bytes from srcva, all of len on 0, and on -1 the bytes up to the first unreachable one |
| UserCopy.CopyInStr | kernel/vm.c:193-207 | copyinstr returns at most max user bytes read from srcva, none of them NUL except the last; it returns 0 exactly when it ended on the NUL, and -1 when max ran out or a page was unreachable |
| ForkCopy.Pages | kernel/vm.c:147 | uvmcopy's loop covers the pages below sz |
| ForkCopy.CopyFlags | kernel/vm.c:151 | the copy's flags keep RWX, U and V; they keep PTE_S as written, and drop it in the private variant |
| ForkCopy.CopyLeafFields | kernel/vm.c:151-155 | the copy's leaf is valid and maps the fresh frame; it owns the frame exactly when it has no PTE_S |
| ForkCopy.ValidLeaf | kernel/vm.c:148-149 | uvmcopy's walk and check panic exactly when the page is at or above MAXVA or not mapped in the parent, and otherwise return the parent's leaf; nothing changes |
| ForkCopy.CopyPage | kernel/vm.c:151-155 | kalloc, memmove and mappages for one page: a panic means the child's page was at or above MAXVA or mapped; otherwise either it failed with fewer than three free frames and no leaf changed, or the child's page maps a fresh frame from the free list holding the parent page's bytes; the copy is owned exactly when its flags lack PTE_S, and otherwise it leaves the accounted frames |
| ForkCopy.CopyOne | kernel/vm.c:148-155 | one round of uvmcopy panics only when the page is at or above MAXVA, the parent's page is missing or invalid, or the child's page is mapped. Otherwise the parent's page was mapped, and its copy is made in a frame from the free list with the copied flags |
| ForkCopy.CopyRound | kernel/vm.c:147-155 | one round of uvmcopy's loop, seen from the loop's start: a panic means a missing parent page or a mapped child page; a failure happens only with fewer than three free frames and leaves the copies so far ready to be unmapped; otherwise the run of copies grows by one fresh frame |
| ForkCopy.CopyErr | kernel/vm.c:158-160 | the err path unmaps the pages copied so far: the child's mappings are as before, and the accounted frames lose only the leaked copies |
| ForkCopy.CopyPages | kernel/vm.c:145-161 | uvmcopy's loop with either flag rule. It panics only on a missing or invalid parent page, or a child page that is already mapped. On 0, each page is copied into a fresh frame taken from the free list and mapped with the copied flags. On -1 the child's mappings are as before. It never fails with three free frames per page, and the accounted frames lose exactly the leaked ones |
| ForkCopy.UvmCopy | kernel/vm.c:145-161 | uvmcopy as written: the accounted frames lose exactly the leaked copies, and every copy of a PTE_S page is one of them. On 0 every page below sz is copied into a distinct fresh frame from the free list that holds the parent page's bytes, with the parent's flags; on -1 the child's mappings are as before |
| ForkCopy.SharedCopyLeaked | kernel/vm.c:151-155 | a copy of a PTE_S page is leaked |
| ForkCopy.PrivateCopiesKept | kernel/vm.c:151-155 | copies made with PTE_S dropped are never leaked |
| ForkCopy.UvmCopyPrivate | kernel/vm.c:145-161 | uvmcopy with the copies made private keeps every frame accounted for. On 0 every page below sz is copied into a distinct fresh frame from the free list that holds the parent page's bytes, mapped without PTE_S, owned by its leaf and not aliased; on -1 the child's mappings are as before |
| Shared.FindFreeVa | kernel/vm.c:209-221 | find_free_va returns the first candidate from PGROUNDUP(MAXVA/2), a page at a time with va + needed < MAXVA, whose pages are all unmapped; it returns 0 exactly when no candidate is free |
| Shared.SharePerm | kernel/vm.c:241 | the alias permission has PTE_S and the source leaf's RWX bits |
| Shared.ShareLeafFields | kernel/vm.c:240-241 | the alias leaf is valid, has PTE_S, maps the source frame and has the source's U and RWX bits |
| Shared.MapAlias | kernel/vm.c:249-250 | mapping one alias panics exactly when the page is at or above MAXVA or already mapped. On 0 exactly that leaf becomes the alias. On -1 the free list is empty and no leaf changed. No frame is lost or gained |
| Shared.ShareRound | kernel/vm.c:236-252 | one round of the sharing loop. It panics exactly when the source page is at or above MAXVA, or (a user source page with) the destination at or above MAXVA or, without the remap check, already mapped. It gives up on a non-user source page, a mapped destination (with the check) or an exhausted free list, and otherwise extends the run of aliases by one |
| Shared.SpanPages | kernel/vm.c:226-228 | map_shared_pages covers the pages from PGROUNDDOWN(src_va) to PGROUNDUP(src_va + size) |
| Shared.StillFree | kernel/vm.c:243-247 | inside a range find_free_va chose, the next destination page is still unmapped, so the remap message is never reached |
| Shared.MapSharedPages | kernel/vm.c:223-259 | map_shared_pages returns 0 for a null process or size 0, and 0 with nothing changed when no range is free. It panics only on a source page at or above MAXVA, never when PGROUNDUP(src_va + size) <= MAXVA. On success it returns the address that src_va maps to in the first free range, with every page aliased and dst->sz raised to the range's end if that is larger. On 0 after the search it stopped at a non-user source page or an exhausted free list, keeping the aliases made so far. No frame is lost |
| Shared.SharedTranslates | kernel/vm.c:240-250 | an aliased page translates through walkaddr to the same frame as its source page, with PTE_S and the same RWX bits |
| Shared.RevokeRound | kernel/vm.c:264-267 | one round of unmap_shared_pages panics exactly at or above MAXVA, gives up on a missing or invalid leaf, and otherwise clears PTE_U in that leaf only |
| Shared.UnmapSharedPages | kernel/vm.c:261-270 | unmap_shared_pages returns -1 for a null process or size 0, and -1 at the first unmapped page. It panics only at a page at or above MAXVA. It returns 0 exactly when every page was cleared. Cleared leaves lose PTE_U and nothing else; no frame, owner or free-list entry changes |
| Shared.Revoked | kernel/vm.c:267 | a cleared page keeps its mapping and frame but walkaddr returns 0 for it |
| SysProc.ShareAtEnd | kernel/sysproc.c:127-137 | sys_map_shared_pages' loop aliases the pages from parent_va + off at dst_va + off until one fails. A panic means the parent page, or the child page, was at or above MAXVA, or the child page was already mapped |
| SysProc.SysMapSharedPages | kernel/sysproc.c:119-140 | as written: -1 for no parent; -1 at a non-user parent page or an exhausted free list, keeping the aliases made so far and child->sz unchanged. On success it returns PGROUNDUP(child->sz) with every page aliased and child->sz raised by PGROUNDUP(size) |
| SysProc.StrandedAliases | kernel/sysproc.c:129-136 | aliases left by a failed call put a mapped page at or above PGROUNDUP(child->sz), so uvmfree on the child panics |
| SysProc.SysMapSharedPagesUndo | kernel/sysproc.c:119-140 | with the failure path undone, -1 leaves the child's mappings as before; success is as written |
| SysProc.CoverKept | kernel/vm.c:140-143 | mappings that are the same as before keep uvmfree's requirement on sz |
| SysProc.CoverGrows | kernel/sysproc.c:139 | a complete run at PGROUNDUP(sz), with sz raised to its end, keeps uvmfree's requirement |
| SysProc.Undo | kernel/sysproc.c:129-136 | unmapping, without freeing, the aliases a failed loop made restores the child's mappings and keeps every frame accounted for |
| SysProc.SysUnmapSharedPages | kernel/sysproc.c:146-151 | sys_unmap_shared_pages is unmap_shared_pages on the calling process |
| LogBuffer.Align4 | user/log_test.c:28 | (offset + 3) & ~3 rounds up by at most three |
| LogBuffer.ReadHeader | user/log_test.c:51-56 | the header reads 0 exactly at a free slot; pid is its high half and len its low half |
| LogBuffer.Header | user/log_test.c:32 | (child_pid << 16) \| len fits the uint32 the compare-and-swap stores, its low half is len's low 16 bits, and its high half is the pid's low 16 bits when len fits in 16 bits |
| LogBuffer.HeaderValue | user/log_test.c:32 | for a pid and a length below 2^16, (pid << 16) \| len is pid * 65536 + len |
| LogBuffer.HeaderRoundTrip | user/log_test.c:32 | a header written as (pid << 16) \| len reads back as pid and len, and reads as free only for pid 0 and len 0 |
| LogBuffer.Stored | user/log_test.c:32-33 | storing a record writes its header and payload at the slot and nothing else |
| LogBuffer.StoreRecord | user/log_test.c:32-33 | the compare-and-swap and memmove store exactly Stored |
| LogBuffer.Slot | user/log_test.c:27-38 | the writer's slot is at or after the start, below the page, and the payload ends at most PGSIZE + 3 |
| LogBuffer.SlotLaid | user/log_test.c:27-38 | over laid-out records the writer picks the aligned end of the last record when the record fits before the test, and no slot otherwise |
| LogBuffer.WriteLog | user/log_test.c:24-43 | write_log stores the record at Slot and changes nothing else; when there is no slot it stores nothing (exit(0)) |
| LogBuffer.DecodeFrom | user/log_test.c:49-66 | every record the reader reports from an offset fits, with its header, between that offset and the end of the page, has a 16-bit pid, and has a nonzero header |
| LogBuffer.ReadRecord | user/log_test.c:49-66 | one reader step stops at a free header or a record past the page, or returns the record and the next offset |
| LogBuffer.ParentReadLogs | user/log_test.c:45-70 | parent_read_logs reports exactly the records decoded from offset 0, and their count |
| LogBuffer.DecodeLaid | user/log_test.c:45-70 | the reader recovers exactly the records laid out |
| LogBuffer.OverrunExample | user/log_test.c:27-33 | on a zeroed page, records of 4085 and 3 bytes make the second payload end at PGSIZE + 3, and the reader reports only the first |
| LogBuffer.OverrunFirst | user/log_test.c:27-33 | on a zeroed page a record of 4085 bytes goes at offset 0 and ends at 4089 |
| LogBuffer.OverrunStopsAtSecond | user/log_test.c:49-59 | the reader, at offset 4089 with a 3-byte record's header at 4092, aligns, reads the header and stops because the payload would pass the page |
| LogBuffer.OverrunRead | user/log_test.c:49-59 | after the overrunning store the reader reports only the first record |
| LogBuffer.SlotChecked | user/log_test.c:27-28 | with the alignment moved before the bound test, a slot's payload ends within the page |
| LogBuffer.WriteLogChecked | user/log_test.c:24-43 | corrected write_log stores the record at SlotChecked and changes nothing else |
| LogBuffer.SlotCheckedLaid | user/log_test.c:27-38 | the corrected writer appends after the laid-out records exactly when the record fits in the page |
| LogBuffer.ReplayLaid | user/log_test.c:24-43 | any sequence of corrected writes on a zeroed page leaves the stored records laid out in write order |
| LogBuffer.ReplayDecodes | user/log_test.c:45-70 | after any sequence of corrected writes, the reader reports exactly the stored records in write order |

## Left out

- Console output is not modelled: `printf` in `mappages` and `map_shared_pages`, and the `printf`/`write` calls of `parent_read_logs` (its records are returned instead).
- `exit(0)` in `write_log` becomes the result `false`.
- Concurrency is not modelled. The compare-and-swap in `write_log` is modelled by its sequential effect (store when the header reads 0), so interleaved writers are not covered.
- `myproc()` and `find_proc_by_pid()` become `Proc` parameters. The argument decoding of the system calls (`argaddr`, `argint`) is not modelled: the decoded values are parameters.
- `struct proc` keeps only `pagetable` and `sz`. Other process state, including the process table, is not part of this model.
- `kalloc` and `kfree` are a list of free frames; `kernel/kalloc.c` (junk filling, locking) is not part of this model.
- Physical addresses are map keys, so pointer arithmetic across frames is not modelled.
- `PTE_S` is taken to be bit 8, because `kernel/riscv.h` is not part of this model.
- The kernel page table (`kvmmake`, `kvminit`, `kvminithart`, `kvmmap`) and the TLB are not modelled.
- Integers are unbounded. The 64-bit wrap-around of `src_va + size`, `addr + size`, `va + size - 1` and `dst_va + off` is not modelled.
- In `write_log`, the signed `int` arithmetic on `len`, and a pid shifted past bit 31, are not modelled.
- Phys.FreeNotShared: holds because `Phys.Inv` keeps every `PTE_S` target off the free list. The source does not keep that: `uvmunmap` with do_free (vm.c:88) frees an owning leaf's frame even while another tree's `PTE_S` leaf still maps it, as when a process whose page another process aliased with `map_shared_pages` exits. Such dangling aliases are outside the model; `PageTable.FreeAliasedDangles` shows the state that step would leave.
- Phys.Machine.Kalloc: the returned frame is unaliased only because of `Phys.Inv`; after a dangling free as above, `kalloc` can hand out a frame that an alias still maps.
- PageTable.ClearPte: requires, with do_free, that an owning leaf's frame is not the target of any `PTE_S` alias. Line 88 frees it regardless; that case is the dangling alias above and is not modelled.
- PageTable.UnmapOne: has the same requirement as ClearPte.
- PageTable.UvmUnmap: requires `FreeableRun` with do_free (no frame it frees is still aliased), for the same reason.
- PageTable.UnmapRound: carries UvmUnmap's do_free `FreeableRun` requirement through its loop state (`UnmapProgress`), for the same reason.
- AddrSpace.UvmDealloc: requires `FreeableRun` on the pages it removes, for the same reason.
- Teardown.UvmFree: requires `FreeableRun` on every page below PGROUNDUP(sz). Tearing down a process while another process still aliases its pages is not modelled.
- Shared.FindFreeVa: does not model `MAXVA - needed` wrapping around when `needed > MAXVA` (the C scan then walks past MAXVA and panics); the model finds no candidate and returns 0.
- AddrSpace.UvmFirst: requires a non-empty free list, because the source uses `kalloc`'s result without checking it.
- AddrSpace.UvmFirst: the mapping at va 0 is stated only when three frames are free. With fewer, the unchecked `mappages` can fail and the contract says nothing about that leaf.
- PageTable.MapPages: requires `size > 0`, as does `PageTable.NPages`. With size 0 the source sets `last = PGROUNDDOWN(va - 1)` (vm.c:66). For an unaligned va that is the page of va, which is then mapped. For an aligned va it lies below the first page, or wraps to the top of the address space when va = 0, so unless the loop first returns -1 or panics on a remap, it runs up to MAXVA and `walk` panics. Every caller in the core passes PGSIZE, so this case is not modelled.
- PageTable.MapPages: the panic case is stated one way only (a panic implies a page at or above MAXVA or already mapped). The converse depends on the round order.
- AddrSpace.UvmAlloc: the panic case is stated one way only, as for MapPages.
- ForkCopy.CopyPages: the panic case is stated one way only (a panic implies a missing parent page or a mapped child page).
- ForkCopy.UvmCopy: the panic case is stated one way only, as for CopyPages.
- ForkCopy.UvmCopyPrivate: the panic case is stated one way only, as for CopyPages.
- SysProc.ShareAtEnd: the panic case is stated one way only (a panic implies the parent page, or the child page, at or above MAXVA, or the child page already mapped).
- SysProc.SysMapSharedPages: the panic case is stated one way only, as for ShareAtEnd.
- SysProc.SysMapSharedPagesUndo: the panic case is stated one way only, as for ShareAtEnd.
- Shared.MapSharedPages: a source walk at or above MAXVA is stated as a panic at the first unvisited source page; when PGROUNDUP(src_va + size) <= MAXVA it never panics.
- LogBuffer.ReplayDecodes: requires every payload to be non-empty with a pid below 2^16. A record with pid 0 and length 0 has header 0, which reads as a free slot.
- LogBuffer.ReplayLaid: has the same requirement as ReplayDecodes.

## Findings

| source | as written | input that shows it | evidently intended | confidence | as-written member | corrected member |
|---|---|---|---|---|---|---|
| user/log_test.c:27-28 | the bound `offset + 4 + len <= PGSIZE` is tested before the offset is aligned up, so a record can end up to three bytes past the page | on a zeroed page, a record of 4085 bytes and then one of 3 bytes: the second header lands at 4092 and its payload at 4096..4098, past the page, and the reader reports only the first record | align the offset, then test the bound | high, not executed | LogBuffer.OverrunExample | LogBuffer.ReplayDecodes |
| kernel/vm.c:151-155 | uvmcopy copies a PTE_S page into a fresh frame and maps the copy with PTE_S still set; uvmunmap skips kfree for PTE_S leaves (vm.c:88), so the copy is never freed | a parent whose page 0 is a PTE_S alias, forked with sz = PGSIZE: the child's copy of page 0 leaves the accounted frames | the copy is private, so it is mapped without PTE_S and freed with the child | medium, not executed | ForkCopy.SharedCopyLeaked, ForkCopy.UvmCopy | ForkCopy.PrivateCopiesKept, ForkCopy.UvmCopyPrivate |
| kernel/sysproc.c:129-136 | a -1 in the middle of the loop leaves the pages aliased so far mapped at and above PGROUNDUP(child->sz), with child->sz unchanged, so uvmfree on the child later panics (freewalk: leaf) | a parent whose page at parent_va is a user page and whose next page is unmapped, size = 2 * PGSIZE: one alias is left above child->sz | undo the aliases (uvmunmap without freeing) before returning -1 | high, not executed | SysProc.StrandedAliases | SysProc.CoverKept |
