/** The radix page table of kernel/vm.c: walk, walkaddr, mappages,
    uvmunmap and freewalk, over the physical memory of module Phys. */
module PageTable {
  import opened Sv39
  import opened Outcomes
  import opened Phys

  /** The indices from the root down to the level-`level` table on va's path. */
  function PathTo(va: nat, level: nat): seq<nat>
    requires level <= 2
  {
    if level == 2 then [] else if level == 1 then [PX(2, va)] else [PX(2, va), PX(1, va)]
  }

  /** walk(pagetable, va, alloc): the level-0 slot for va, allocating the
      missing interior tables when alloc is set. Panics for va >= MAXVA;
      returns null when an interior entry is invalid and alloc is clear or
      kalloc fails. */
  method Walk(m: Machine, pagetable: nat, va: nat, alloc: bool) returns (r: Res<Option<Slot>>)
    requires m.Valid() && IsRoot(m.owner, pagetable)
    modifies m
    ensures r.Panic? <==> va >= MAXVA
    ensures r.Panic? || !alloc ==> unchanged(m)
    ensures r.Ret? ==> m.Valid() && r.value == LeafSlot(m.frames, pagetable, va)
    ensures r.Ret? ==> TreeGrown(old(m.frames), old(m.freeList), old(m.owner), m.frames, m.freeList, m.owner, pagetable)
    ensures r == Ret(None) && alloc ==> m.freeList == []
    ensures r.Ret? && alloc && 2 <= |old(m.freeList)| ==> r.value.Some?
    ensures r.Ret? ==> |m.freeList| + 2 >= |old(m.freeList)|
  {
    hide TreeGrown, Accounted;
    if va >= MAXVA {
      return Panic("walk: va >= MAXVA");
    }
    var t := pagetable;
    var lvl := 2;
    TreeGrownRefl(m.frames, m.freeList, m.owner, pagetable);
    while lvl > 0
      invariant 0 <= lvl <= 2
      invariant m.Valid() && IsRoot(m.owner, pagetable)
      invariant t in m.owner && m.owner[t] == TableOf(pagetable, lvl, PathTo(va, lvl))
      invariant TreeGrown(old(m.frames), old(m.freeList), old(m.owner), m.frames, m.freeList, m.owner, pagetable)
      invariant !alloc ==> unchanged(m)
      invariant |m.freeList| + 2 - lvl >= |old(m.freeList)|
    {
      var next := WalkStep(m, pagetable, va, t, lvl, alloc, old(m.frames), old(m.freeList), old(m.owner));
      if next == 0 {
        return Ret(None);
      }
      t := next;
      lvl := lvl - 1;
    }
    LinkedToSlot(m, pagetable, va, t, 0);
    return Ret(Some(Slot(t, PX(0, va))));
  }

  /** One iteration of walk's loop at table t of level lvl on va's path:
      follow a valid entry to the next table, or, with alloc, install a
      zeroed one; 0 when the walk stops with null. */
  method WalkStep(m: Machine, pagetable: nat, va: nat, t: nat, lvl: nat, alloc: bool,
                  ghost f0: Frames, ghost fl0: seq<nat>, ghost o0: Owners) returns (next: nat)
    requires m.Valid() && IsRoot(m.owner, pagetable) && 0 < lvl <= 2 && va < MAXVA
    requires t in m.owner && m.owner[t] == TableOf(pagetable, lvl, PathTo(va, lvl))
    requires TreeGrown(f0, fl0, o0, m.frames, m.freeList, m.owner, pagetable)
    modifies m
    ensures m.Valid() && IsRoot(m.owner, pagetable)
    ensures !alloc ==> unchanged(m)
    ensures TreeGrown(f0, fl0, o0, m.frames, m.freeList, m.owner, pagetable)
    ensures next == 0 ==> LeafSlot(m.frames, pagetable, va) == None && (alloc ==> m.freeList == [])
    ensures next == 0 ==> m.frames == old(m.frames) && m.freeList == old(m.freeList) && m.owner == old(m.owner)
    ensures next != 0 ==> next in m.owner && m.owner[next] == TableOf(pagetable, lvl - 1, PathTo(va, lvl - 1))
    ensures |m.freeList| + 1 >= |old(m.freeList)|
  {
    hide TreeGrown, Accounted;
    assert OwnerOk(m.frames, m.owner, t);
    var i := PX(lvl, va);
    RootIndexBelow(va);
    var e := m.frames[t].ptes[i];
    assert PathTo(va, lvl) + [i] == PathTo(va, lvl - 1);
    if IsValid(e) {
      assert SlotOk(m.frames, m.owner, t, i);
      next := Pte2Pa(e);
      assert OwnerOk(m.frames, m.owner, next);
    } else if !alloc {
      LinkedToSlot(m, pagetable, va, t, lvl);
      next := 0;
    } else {
      next := AllocTable(m, pagetable, Slot(t, i));
      TreeGrownRoots(old(m.frames), old(m.freeList), old(m.owner), m.frames, m.freeList, m.owner, pagetable);
      TreeGrownTrans(f0, fl0, o0, old(m.frames), old(m.freeList), old(m.owner), m.frames, m.freeList, m.owner, pagetable);
      if next == 0 {
        LinkedToSlot(m, pagetable, va, t, lvl);
      }
    }
  }

  /** The table at level lvl on va's path, linked from the root, decides
      walk's slot: with lvl = 0 it is the slot's table, with lvl > 0 an
      invalid entry in it means there is no slot. */
  lemma LinkedToSlot(m: Machine, pagetable: nat, va: nat, t: nat, lvl: nat)
    requires m.Valid() && IsRoot(m.owner, pagetable) && lvl <= 2
    requires t in m.owner && m.owner[t] == TableOf(pagetable, lvl, PathTo(va, lvl))
    ensures lvl == 0 ==> LeafSlot(m.frames, pagetable, va) == Some(Slot(t, PX(0, va)))
    ensures lvl > 0 && !IsValid(Entry(m.frames, t, PX(lvl, va))) ==> LeafSlot(m.frames, pagetable, va) == None
  {
    assert OwnerOk(m.frames, m.owner, t);
  }

  /** Lines 45-47 of walk: kalloc a frame, zero it, and link it from the
      invalid interior slot s as its child table; 0 when kalloc fails. */
  method AllocTable(m: Machine, pagetable: nat, s: Slot) returns (n: nat)
    requires m.Valid() && IsTable(m.owner, s.table) && m.owner[s.table].root == pagetable
    requires m.owner[s.table].level > 0 && s.index < ENTRIES
    requires m.owner[s.table].level == 2 ==> s.index < ROOTSLOTS
    requires !IsValid(Entry(m.frames, s.table, s.index))
    modifies m
    ensures m.Valid()
    ensures n == 0 ==> unchanged(m) && m.freeList == []
    ensures n != 0 ==> n in m.owner && m.owner[n] == ChildOwner(old(m.owner), s)
    ensures n != 0 ==> Entry(m.frames, s.table, s.index) == MakePte(n, PTE_V) && Pte2Pa(MakePte(n, PTE_V)) == n
    ensures n != 0 ==> |m.freeList| + 1 == |old(m.freeList)|
    ensures TreeGrown(old(m.frames), old(m.freeList), old(m.owner), m.frames, m.freeList, m.owner, pagetable)
  {
    ghost var f0, fl0, o0 := m.frames, m.freeList, m.owner;
    assert Inv(f0, fl0, o0);
    n := m.Kalloc();
    if n == 0 {
      TreeGrownRefl(f0, fl0, o0, pagetable);
      return;
    }
    assert CanInstall(f0, fl0, o0, s) && n == fl0[0] && m.freeList == fl0[1..];
    InstallGrows(f0, fl0, o0, s);
    ghost var o1 := o0[n := ChildOwner(o0, s)];
    var f1 := SetEntry(m.frames[n := ZeroTable()], s, MakePte(n, PTE_V));
    assert f1 == Installed(f0, s, n);
    m.frames := f1;
    m.owner := o1;
    MakePteFields(n, PTE_V);
    assert Entry(f1, s.table, s.index) == MakePte(n, PTE_V);
  }

  // ---------------------------------------------------------------------
  // walkaddr.

  /** walkaddr(pagetable, va): the physical address of va's page when walk
      without allocation finds a valid, user-accessible leaf, else 0. It
      never allocates: walk with alloc = 0 changes nothing and returns
      LeafSlot (Walk's contract). */
  function WalkAddr(frames: Frames, pagetable: nat, va: nat): (pa: nat)
    ensures pa != 0 ==> va < MAXVA && Mapped(frames, pagetable, va) && Has(Leaf(frames, pagetable, va), PTE_U)
    ensures pa != 0 ==> pa == Pte2Pa(Leaf(frames, pagetable, va)) && pa % PGSIZE == 0
  {
    if va >= MAXVA then 0
    else
      match LeafSlot(frames, pagetable, va)
      case None => 0
      case Some(s) =>
        var pte := Entry(frames, s.table, s.index);
        if !IsValid(pte) || !Has(pte, PTE_U) then 0 else Pte2Pa(pte)
  }

  /** In well-formed memory walkaddr fails exactly for an address at or
      above MAXVA or a page whose leaf is invalid or lacks PTE_U, and
      otherwise yields a full data page that is not a page table. */
  lemma WalkAddrSpec(frames: Frames, freeList: seq<nat>, owner: Owners, pt: nat, va: nat)
    requires Inv(frames, freeList, owner) && IsRoot(owner, pt)
    ensures var w := Leaf(frames, pt, va);
      WalkAddr(frames, pt, va) != 0 <==> va < MAXVA && IsValid(w) && Has(w, PTE_U)
    ensures var pa := WalkAddr(frames, pt, va);
      pa != 0 ==> pa in frames && frames[pa].DataFrame? && |frames[pa].bytes| == PGSIZE && !IsTable(owner, pa)
  {
    LeafSlotOwned(frames, freeList, owner, pt, va);
    match LeafSlot(frames, pt, va)
    case None =>
    case Some(s) =>
      assert OwnerOk(frames, owner, s.table) && SlotOk(frames, owner, s.table, s.index);
      assert AliasOk(frames, freeList, owner, s.table, s.index);
      var w := Entry(frames, s.table, s.index);
      if IsValid(w) && !Has(w, PTE_S) {
        assert OwnerOk(frames, owner, Pte2Pa(w));
      }
  }

  /** A page mapped with permissions perm translates to its frame exactly
      when perm holds PTE_U. */
  lemma WalkAddrOfMapping(frames: Frames, pt: nat, va: nat, pa: nat, perm: Flags)
    requires va < MAXVA && pa % PGSIZE == 0 && pa != 0
    requires Leaf(frames, pt, va) == MakePte(pa, perm | PTE_V)
    ensures WalkAddr(frames, pt, va) == if perm & PTE_U != 0 then pa else 0
  {
    MakePteFields(pa, perm | PTE_V);
    assert (perm | PTE_V) & PTE_V != 0;
    assert (perm | PTE_V) & PTE_U != 0 <==> perm & PTE_U != 0;
  }

  // ---------------------------------------------------------------------
  // Storing a leaf entry.

  /** `*pte = w` on a level-0 slot. The ghost owners follow the entry: the
      frame the old entry owned is released, the one w owns is claimed. */
  method Store(m: Machine, s: Slot, w: Word)
    requires CanSetLeaf(m.frames, m.freeList, m.owner, s, w)
    modifies m`frames, m`owner
    ensures m.Valid()
    ensures s.table in old(m.frames) && old(m.frames)[s.table].PtFrame? && s.index < |old(m.frames)[s.table].ptes|
    ensures m.frames == SetEntry(old(m.frames), s, w)
    ensures m.owner == LeafOwners(old(m.frames), old(m.owner), s, w)
    ensures forall r :: IsRoot(m.owner, r) <==> IsRoot(old(m.owner), r)
    ensures forall r, va :: IsRoot(old(m.owner), r) ==>
      Leaf(m.frames, r, va) == if LeafSlot(old(m.frames), r, va) == Some(s) then w else Leaf(old(m.frames), r, va)
  {
    SetLeaf(m.frames, m.freeList, m.owner, s, w);
    m.owner := LeafOwners(m.frames, m.owner, s, w);
    m.frames := SetEntry(m.frames, s, w);
  }

  // ---------------------------------------------------------------------
  // mappages.

  /** The number of pages mappages installs: PGROUNDDOWN(va) through
      PGROUNDDOWN(va + size - 1), inclusive. */
  function NPages(va: nat, size: nat): (n: nat)
    requires size > 0
    ensures n >= 1
    ensures PgRoundDown(va) + (n - 1) * PGSIZE == PgRoundDown(va + size - 1)
  {
    (PgRoundDown(va + size - 1) - PgRoundDown(va)) / PGSIZE + 1
  }

  /** The frames pa, pa + PGSIZE, ..., of a run of n pages. */
  function Run(pa: nat, n: nat): set<nat>
  {
    set k | 0 <= k < n :: pa + k * PGSIZE
  }

  /** Frame p can be handed to a leaf that will own it. */
  ghost predicate Ownable(frames: Frames, freeList: seq<nat>, owner: Owners, p: nat)
  {
    p in frames && frames[p].DataFrame? && |frames[p].bytes| == PGSIZE
    && p !in owner && p !in FreeSet(freeList)
  }

  /** Frame p can be mapped by a PTE_S leaf: a data page in use. */
  ghost predicate Aliasable(frames: Frames, freeList: seq<nat>, owner: Owners, p: nat)
  {
    p in frames && frames[p].DataFrame? && |frames[p].bytes| == PGSIZE
    && !IsTable(owner, p) && p !in FreeSet(freeList)
  }

  /** From state 0 to state 1 no frame changed owner or contents except
      page tables, the roots are the same, and frames only left the free
      list. */
  ghost predicate Kept(f0: Frames, fl0: seq<nat>, o0: Owners, f1: Frames, fl1: seq<nat>, o1: Owners)
  {
    && f1.Keys == f0.Keys
    && (forall f :: f in o0 ==> f in o1 && o1[f] == o0[f])
    && (forall r :: IsRoot(o1, r) <==> IsRoot(o0, r))
    && (forall f :: f in f0 && !IsTable(o1, f) ==> f1[f] == f0[f])
    && FreeSet(fl1) <= FreeSet(fl0)
    && (forall f :: IsTable(o1, f) ==> IsTable(o0, f) || f in FreeSet(fl0))
  }

  /** The leaves of every root below MAXVA are those of f0, except that
      page `page` of root pt holds w. */
  ghost predicate LeafSet(f0: Frames, o0: Owners, f1: Frames, pt: nat, page: nat, w: Word)
  {
    forall q: nat, v: nat :: IsRoot(o0, q) && v < MAXVA ==>
      Leaf(f1, q, v) == if q == pt && v / PGSIZE == page then w else Leaf(f0, q, v)
  }

  /** A tree that grew by walk keeps every frame's owner and contents. */
  lemma GrownKept(f1: Frames, fl1: seq<nat>, o1: Owners, f2: Frames, fl2: seq<nat>, o2: Owners, pt: nat)
    requires TreeGrown(f1, fl1, o1, f2, fl2, o2, pt)
    ensures Kept(f1, fl1, o1, f2, fl2, o2)
    ensures o2.Keys <= o1.Keys + FreeSet(fl1)
  {
    TreeGrownRoots(f1, fl1, o1, f2, fl2, o2, pt);
    TreeGrownFree(f1, fl1, o1, f2, fl2, o2, pt);
  }

  /** Lines 70-74 of mappages on the slot s that walk found for page a:
      panic on a valid entry, else store PA2PTE(p) | perm | PTE_V. */
  method SetPte(m: Machine, pagetable: nat, a: nat, s: Slot, p: nat, perm: Flags) returns (r: Res<bool>)
    requires m.Valid() && IsRoot(m.owner, pagetable)
    requires a < MAXVA && LeafSlot(m.frames, pagetable, a) == Some(s)
    requires p % PGSIZE == 0 && perm & PTE_RWX != 0
    requires perm & PTE_S == 0 ==> Ownable(m.frames, m.freeList, m.owner, p)
    requires perm & PTE_S != 0 ==> Aliasable(m.frames, m.freeList, m.owner, p)
    modifies m`frames, m`owner
    ensures r.Panic? <==> Mapped(old(m.frames), pagetable, a)
    ensures r.Ret? ==> r.value && m.Valid() && Kept(old(m.frames), m.freeList, old(m.owner), m.frames, m.freeList, m.owner)
    ensures r.Ret? ==> m.owner.Keys <= old(m.owner).Keys + {p}
    ensures r.Ret? ==> LeafSet(old(m.frames), old(m.owner), m.frames, pagetable, a / PGSIZE, MakePte(p, perm | PTE_V))
    ensures r.Ret? ==> (Accounted(m.freeList, m.owner) ==
      Accounted(m.freeList, old(m.owner)) + (if perm & PTE_S == 0 then {p} else {}))
  {
    LeafSlotOwned(m.frames, m.freeList, m.owner, pagetable, a);
    assert OwnerOk(m.frames, m.owner, s.table);
    if IsValid(Entry(m.frames, s.table, s.index)) {
      return Panic("mappages: remap");
    }
    ghost var f1, o1 := m.frames, m.owner;
    MakePteFields(p, perm | PTE_V);
    Store(m, s, MakePte(p, perm | PTE_V));
    forall q: nat, v: nat | IsRoot(o1, q) && v < MAXVA
      ensures Leaf(m.frames, q, v) == if q == pagetable && v / PGSIZE == a / PGSIZE then MakePte(p, perm | PTE_V) else Leaf(f1, q, v)
    {
      SlotForPage(f1, m.freeList, o1, pagetable, a, q, v);
    }
    return Ret(true);
  }

  /** Leaves unchanged, then one page set: one page set. */
  lemma LeafSetAfterSame(f1: Frames, o1: Owners, f2: Frames, o2: Owners, f3: Frames, pt: nat, page: nat, w: Word)
    requires forall q, v :: IsRoot(o1, q) ==> Leaf(f2, q, v) == Leaf(f1, q, v)
    requires forall q :: IsRoot(o2, q) <==> IsRoot(o1, q)
    requires LeafSet(f2, o2, f3, pt, page, w)
    ensures LeafSet(f1, o1, f3, pt, page, w)
  {
  }

  /** One round of mappages' loop: walk to a's slot allocating tables,
      panic on a remap, store PA2PTE(p) | perm | PTE_V. Ret(false) is the
      walk returning null. */
  method MapOne(m: Machine, pagetable: nat, a: nat, p: nat, perm: Flags) returns (r: Res<bool>)
    requires m.Valid() && IsRoot(m.owner, pagetable)
    requires a % PGSIZE == 0 && p % PGSIZE == 0 && perm & PTE_RWX != 0
    requires perm & PTE_S == 0 ==> Ownable(m.frames, m.freeList, m.owner, p)
    requires perm & PTE_S != 0 ==> Aliasable(m.frames, m.freeList, m.owner, p)
    modifies m
    ensures r.Panic? ==> a >= MAXVA || Mapped(old(m.frames), pagetable, a)
    ensures r.Ret? ==> m.Valid() && Kept(old(m.frames), old(m.freeList), old(m.owner), m.frames, m.freeList, m.owner)
    ensures r.Ret? ==> m.owner.Keys <= old(m.owner).Keys + FreeSet(old(m.freeList)) + {p}
    ensures r.Ret? ==> |m.freeList| + 2 >= |old(m.freeList)|
    ensures r.Ret? ==> a < MAXVA
    ensures r == Ret(true) ==> !Mapped(old(m.frames), pagetable, a)
    ensures r == Ret(false) ==> m.freeList == [] && |old(m.freeList)| < 2 && !Mapped(old(m.frames), pagetable, a)
    ensures r == Ret(false) ==> forall q, v :: IsRoot(old(m.owner), q) ==> Leaf(m.frames, q, v) == Leaf(old(m.frames), q, v)
    ensures r == Ret(false) ==> Accounted(m.freeList, m.owner) == Accounted(old(m.freeList), old(m.owner))
    ensures r == Ret(true) ==> LeafSet(old(m.frames), old(m.owner), m.frames, pagetable, a / PGSIZE, MakePte(p, perm | PTE_V))
    ensures r == Ret(true) ==> (Accounted(m.freeList, m.owner) ==
      Accounted(old(m.freeList), old(m.owner)) + (if perm & PTE_S == 0 then {p} else {}))
  {
    ghost var f1, fl1, o1 := m.frames, m.freeList, m.owner;
    var w := Walk(m, pagetable, a, true);
    if w.Panic? {
      return Panic(w.msg);
    }
    ghost var f2, fl2, o2 := m.frames, m.freeList, m.owner;
    GrownKept(f1, fl1, o1, f2, fl2, o2, pagetable);
    if w.value == None {
      return Ret(false);
    }
    assert Ownable(f1, fl1, o1, p) ==> Ownable(f2, fl2, o2, p);
    r := SetPte(m, pagetable, a, w.value.value, p, perm);
    if r.Ret? {
      KeptTrans(f1, fl1, o1, f2, fl2, o2, m.frames, m.freeList, m.owner);
      LeafSetAfterSame(f1, o1, f2, o2, m.frames, pagetable, a / PGSIZE, MakePte(p, perm | PTE_V));
    }
  }

  /** From memory f0 to f1, pages p0 .. p0 + done - 1 of root pt were mapped
      to the frames pa, pa + PGSIZE, ... with perm, and no other leaf of any
      root below MAXVA changed. */
  ghost predicate MappedRun(f0: Frames, o0: Owners, f1: Frames, pt: nat, p0: nat, done: nat, pa: nat, perm: Flags)
  {
    forall r: nat, v: nat :: IsRoot(o0, r) && v < MAXVA ==>
      Leaf(f1, r, v) ==
        if r == pt && p0 <= v / PGSIZE < p0 + done then MakePte(pa + (v / PGSIZE - p0) * PGSIZE, perm | PTE_V)
        else Leaf(f0, r, v)
  }

  /** A mapped run grows by one page with one more leaf. */
  lemma RunExtend(f0: Frames, o0: Owners, f1: Frames, o1: Owners, f2: Frames, pt: nat, p0: nat, done: nat, pa: nat, perm: Flags)
    requires MappedRun(f0, o0, f1, pt, p0, done, pa, perm)
    requires forall q :: IsRoot(o1, q) <==> IsRoot(o0, q)
    requires LeafSet(f1, o1, f2, pt, p0 + done, MakePte(pa + done * PGSIZE, perm | PTE_V))
    ensures MappedRun(f0, o0, f2, pt, p0, done + 1, pa, perm)
  {
  }

  /** Leaves unchanged keep a mapped run. */
  lemma RunSame(f0: Frames, o0: Owners, f1: Frames, o1: Owners, f2: Frames, pt: nat, p0: nat, done: nat, pa: nat, perm: Flags)
    requires MappedRun(f0, o0, f1, pt, p0, done, pa, perm)
    requires forall q :: IsRoot(o1, q) <==> IsRoot(o0, q)
    requires forall q, v :: IsRoot(o1, q) ==> Leaf(f2, q, v) == Leaf(f1, q, v)
    ensures MappedRun(f0, o0, f2, pt, p0, done, pa, perm)
  {
  }

  /** Kept is transitive. */
  lemma KeptTrans(f0: Frames, fl0: seq<nat>, o0: Owners, f1: Frames, fl1: seq<nat>, o1: Owners, f2: Frames, fl2: seq<nat>, o2: Owners)
    requires Kept(f0, fl0, o0, f1, fl1, o1) && Kept(f1, fl1, o1, f2, fl2, o2)
    ensures Kept(f0, fl0, o0, f2, fl2, o2)
  {
    forall f | f in f0 && !IsTable(o2, f) ensures f2[f] == f0[f] {
      assert !IsTable(o1, f);
    }
  }

  lemma KeptRefl(f0: Frames, fl0: seq<nat>, o0: Owners)
    ensures Kept(f0, fl0, o0, f0, fl0, o0)
  {
  }

  /** mappages(pagetable, va, size, pa, perm): map the pages PGROUNDDOWN(va)
      through PGROUNDDOWN(va + size - 1) to the frames pa, pa + PGSIZE, ...
      Page k gets PA2PTE(pa + k * PGSIZE) | perm | PTE_V. Panics on a page
      that is already mapped (or through walk, one at or above MAXVA);
      returns -1 when an allocating walk fails, with the pages before it
      mapped; the ghost `done` counts the pages mapped. */
  method MapPages(m: Machine, pagetable: nat, va: nat, size: nat, pa: nat, perm: Flags)
    returns (r: Res<int>, ghost done: nat)
    requires m.Valid() && IsRoot(m.owner, pagetable)
    requires size > 0 && pa % PGSIZE == 0 && perm & PTE_RWX != 0
    requires perm & PTE_S == 0 ==>
      forall k :: 0 <= k < NPages(va, size) ==> Ownable(m.frames, m.freeList, m.owner, PageAt(pa, k))
    requires perm & PTE_S != 0 ==>
      forall k :: 0 <= k < NPages(va, size) ==> Aliasable(m.frames, m.freeList, m.owner, PageAt(pa, k))
    modifies m
    ensures r.Panic? ==>
      (exists k :: 0 <= k < NPages(va, size) &&
         (PageAt(PgRoundDown(va), k) >= MAXVA || Mapped(old(m.frames), pagetable, PageAt(PgRoundDown(va), k))))
    ensures r.Ret? ==> (r.value == 0 && done == NPages(va, size)) || (r.value == -1 && done < NPages(va, size) && m.freeList == [])
    ensures r == Ret(-1) ==> var a := PageAt(PgRoundDown(va), done); a < MAXVA && !Mapped(old(m.frames), pagetable, a)
    ensures r.Ret? && 2 * NPages(va, size) <= |old(m.freeList)| ==> r.value == 0
    ensures r == Ret(0) ==> |m.freeList| + 2 * done >= |old(m.freeList)|
    ensures r.Ret? ==> m.Valid() && Kept(old(m.frames), old(m.freeList), old(m.owner), m.frames, m.freeList, m.owner)
    ensures r.Ret? ==> MappedRun(old(m.frames), old(m.owner), m.frames, pagetable, PgRoundDown(va) / PGSIZE, done, pa, perm)
    ensures r.Ret? ==> WereUnmapped(old(m.frames), pagetable, PgRoundDown(va), done)
    ensures r.Ret? ==> (Accounted(m.freeList, m.owner) ==
      Accounted(old(m.freeList), old(m.owner)) + (if perm & PTE_S == 0 then Run(pa, done) else {}))
  {
    hide Kept, MappedRun, Ownable, Aliasable, Accounted, Inv, Mapped, Run, FreeSet, WereUnmapped;
    var a := PgRoundDown(va);
    var last := PgRoundDown(va + size - 1);
    ghost var a0, n := a, NPages(va, size);
    var p := pa;
    done := 0;
    MapProgressStart(m.frames, m.freeList, m.owner, pagetable, a0, pa, perm, n);
    NoneUnmapped(m.frames, pagetable, a0);
    while true
      invariant done < n && a == PageAt(a0, done) && p == PageAt(pa, done)
      invariant m.Valid() && IsRoot(m.owner, pagetable)
      invariant MapProgress(old(m.frames), old(m.freeList), old(m.owner), m.frames, m.freeList, m.owner,
                            pagetable, a0, pa, perm, done, n)
      invariant |m.freeList| + 2 * done >= |old(m.freeList)|
      invariant WereUnmapped(old(m.frames), pagetable, a0, done)
      decreases n - done
    {
      var ok := MapRound(m, pagetable, a, p, perm, old(m.frames), old(m.freeList), old(m.owner), a0, pa, done, n);
      if ok.Panic? {
        return Panic(ok.msg), done;
      }
      if !ok.value {
        return Ret(-1), done;
      }
      WereUnmappedStep(old(m.frames), pagetable, a0, done);
      done := done + 1;
      if a == last {
        break;
      }
      a := a + PGSIZE;
      p := p + PGSIZE;
    }
    return Ret(0), done;
  }

  /** Pages a0 .. a0 + (n - 1) * PGSIZE lie below MAXVA and were not
      mapped in root pt of memory f0. */
  ghost predicate WereUnmapped(f0: Frames, pt: nat, a0: nat, n: nat)
  {
    forall k :: 0 <= k < n ==> PageAt(a0, k) < MAXVA && !Mapped(f0, pt, PageAt(a0, k))
  }

  lemma NoneUnmapped(f0: Frames, pt: nat, a0: nat)
    ensures WereUnmapped(f0, pt, a0, 0)
  {
  }

  lemma WereUnmappedStep(f0: Frames, pt: nat, a0: nat, n: nat)
    requires WereUnmapped(f0, pt, a0, n)
    requires PageAt(a0, n) < MAXVA && !Mapped(f0, pt, PageAt(a0, n))
    ensures WereUnmapped(f0, pt, a0, n + 1)
  {
  }

  /** What mappages' loop has done after `done` of its n pages, from state 0. */
  ghost predicate MapProgress(f0: Frames, fl0: seq<nat>, o0: Owners, f: Frames, fl: seq<nat>, o: Owners,
                              pt: nat, a0: nat, pa: nat, perm: Flags, done: nat, n: nat)
  {
    && Kept(f0, fl0, o0, f, fl, o)
    && MappedRun(f0, o0, f, pt, a0 / PGSIZE, done, pa, perm)
    && o.Keys <= o0.Keys + FreeSet(fl0) + Run(pa, done)
    && (perm & PTE_S == 0 ==> forall k :: done <= k < n ==> Ownable(f, fl, o, PageAt(pa, k)))
    && (perm & PTE_S != 0 ==> forall k :: done <= k < n ==> Aliasable(f, fl, o, PageAt(pa, k)))
    && Accounted(fl, o) == Accounted(fl0, o0) + (if perm & PTE_S == 0 then Run(pa, done) else {})
  }

  /** Before the first round nothing is mapped yet. */
  lemma MapProgressStart(f: Frames, fl: seq<nat>, o: Owners, pt: nat, a0: nat, pa: nat, perm: Flags, n: nat)
    requires perm & PTE_S == 0 ==> forall k :: 0 <= k < n ==> Ownable(f, fl, o, PageAt(pa, k))
    requires perm & PTE_S != 0 ==> forall k :: 0 <= k < n ==> Aliasable(f, fl, o, PageAt(pa, k))
    ensures MapProgress(f, fl, o, f, fl, o, pt, a0, pa, perm, 0, n)
  {
    KeptRefl(f, fl, o);
    assert Run(pa, 0) == {};
  }

  /** Round `done` of mappages' loop: map page a = a0 + done * PGSIZE to
      frame p = pa + done * PGSIZE. Ret(false) is the walk returning null. */
  method MapRound(m: Machine, pagetable: nat, a: nat, p: nat, perm: Flags, ghost f0: Frames, ghost fl0: seq<nat>,
                  ghost o0: Owners, ghost a0: nat, ghost pa: nat, ghost done: nat, ghost n: nat) returns (r: Res<bool>)
    requires m.Valid() && IsRoot(m.owner, pagetable) && perm & PTE_RWX != 0
    requires a0 % PGSIZE == 0 && pa % PGSIZE == 0 && done < n && a == PageAt(a0, done) && p == PageAt(pa, done)
    requires MapProgress(f0, fl0, o0, m.frames, m.freeList, m.owner, pagetable, a0, pa, perm, done, n)
    requires |m.freeList| + 2 * done >= |fl0|
    modifies m
    ensures r.Panic? ==> a >= MAXVA || Mapped(f0, pagetable, a)
    ensures r.Ret? ==> m.Valid() && IsRoot(m.owner, pagetable)
    ensures r == Ret(false) ==> m.freeList == [] && |fl0| < 2 * n && a < MAXVA && !Mapped(f0, pagetable, a)
    ensures r == Ret(true) ==> |m.freeList| + 2 * (done + 1) >= |fl0|
    ensures r == Ret(true) ==> a < MAXVA && !Mapped(f0, pagetable, a)
    ensures r == Ret(false) ==> MapProgress(f0, fl0, o0, m.frames, m.freeList, m.owner, pagetable, a0, pa, perm, done, n)
    ensures r == Ret(true) ==> MapProgress(f0, fl0, o0, m.frames, m.freeList, m.owner, pagetable, a0, pa, perm, done + 1, n)
  {
    ghost var f1, fl1, o1 := m.frames, m.freeList, m.owner;
    PageAtAligned(a0, done);
    PageAtAligned(pa, done);
    r := MapOne(m, pagetable, a, p, perm);
    if r.Panic? {
      return;
    }
    assert Leaf(f1, pagetable, a) == Leaf(f0, pagetable, a) by {
      assert a / PGSIZE == a0 / PGSIZE + done;
    }
    if !r.value {
      MapStall(f0, fl0, o0, f1, fl1, o1, m.frames, m.freeList, m.owner, pagetable, a0, pa, perm, done, n);
    } else {
      MapAdvance(f0, fl0, o0, f1, fl1, o1, m.frames, m.freeList, m.owner, pagetable, a0, pa, perm, done, n);
    }
  }

  /** A round whose walk found no memory keeps the loop's progress. */
  lemma MapStall(f0: Frames, fl0: seq<nat>, o0: Owners, f1: Frames, fl1: seq<nat>, o1: Owners,
                 f2: Frames, fl2: seq<nat>, o2: Owners, pt: nat, a0: nat, pa: nat, perm: Flags, done: nat, n: nat)
    requires MapProgress(f0, fl0, o0, f1, fl1, o1, pt, a0, pa, perm, done, n)
    requires Kept(f1, fl1, o1, f2, fl2, o2) && o2.Keys <= o1.Keys + FreeSet(fl1) + {PageAt(pa, done)}
    requires forall q, v :: IsRoot(o1, q) ==> Leaf(f2, q, v) == Leaf(f1, q, v)
    requires Accounted(fl2, o2) == Accounted(fl1, o1)
    ensures MapProgress(f0, fl0, o0, f2, fl2, o2, pt, a0, pa, perm, done, n)
  {
    KeptTrans(f0, fl0, o0, f1, fl1, o1, f2, fl2, o2);
    RunSame(f0, o0, f1, o1, f2, pt, a0 / PGSIZE, done, pa, perm);
    MapOneKeepsFree(f1, fl1, o1, f2, fl2, o2, pa, done, n, PageAt(pa, done), perm);
    RunStep(pa, done);
  }

  /** A round that installed its leaf advances the loop's progress by one page. */
  lemma MapAdvance(f0: Frames, fl0: seq<nat>, o0: Owners, f1: Frames, fl1: seq<nat>, o1: Owners,
                   f2: Frames, fl2: seq<nat>, o2: Owners, pt: nat, a0: nat, pa: nat, perm: Flags, done: nat, n: nat)
    requires MapProgress(f0, fl0, o0, f1, fl1, o1, pt, a0, pa, perm, done, n)
    requires Kept(f1, fl1, o1, f2, fl2, o2) && o2.Keys <= o1.Keys + FreeSet(fl1) + {PageAt(pa, done)}
    requires LeafSet(f1, o1, f2, pt, a0 / PGSIZE + done, MakePte(PageAt(pa, done), perm | PTE_V))
    requires Accounted(fl2, o2) == Accounted(fl1, o1) + (if perm & PTE_S == 0 then {PageAt(pa, done)} else {})
    ensures MapProgress(f0, fl0, o0, f2, fl2, o2, pt, a0, pa, perm, done + 1, n)
  {
    hide MappedRun, LeafSet, Ownable, Aliasable, Accounted, Run, Leaf, MakePte;
    KeptTrans(f0, fl0, o0, f1, fl1, o1, f2, fl2, o2);
    RunExtend(f0, o0, f1, o1, f2, pt, a0 / PGSIZE, done, pa, perm);
    RunStep(pa, done);
    MapOneKeepsFree(f1, fl1, o1, f2, fl2, o2, pa, done, n, PageAt(pa, done), perm);
  }

  lemma RunStep(pa: nat, done: nat)
    ensures Run(pa, done + 1) == Run(pa, done) + {PageAt(pa, done)}
  {
    assert PageAt(pa, done) in Run(pa, done + 1);
  }

  /** The frames later in a run stay available while earlier ones are mapped. */
  lemma MapOneKeepsFree(f1: Frames, fl1: seq<nat>, o1: Owners, f2: Frames, fl2: seq<nat>, o2: Owners,
                        pa: nat, done: nat, n: nat, p: nat, perm: Flags)
    requires Kept(f1, fl1, o1, f2, fl2, o2)
    requires o2.Keys <= o1.Keys + FreeSet(fl1) + {p}
    requires p == PageAt(pa, done)
    requires perm & PTE_S == 0 ==> forall k :: done <= k < n ==> Ownable(f1, fl1, o1, PageAt(pa, k))
    requires perm & PTE_S != 0 ==> forall k :: done <= k < n ==> Aliasable(f1, fl1, o1, PageAt(pa, k))
    ensures perm & PTE_S == 0 ==> forall k :: done + 1 <= k < n ==> Ownable(f2, fl2, o2, PageAt(pa, k))
    ensures perm & PTE_S != 0 ==> forall k :: done + 1 <= k < n ==> Aliasable(f2, fl2, o2, PageAt(pa, k))
  {
    forall k | done + 1 <= k < n ensures PageAt(pa, k) != p { }
  }

  // ---------------------------------------------------------------------
  // uvmunmap.

  /** Clearing a slot leaves no new shared alias behind. */
  lemma ClearedNotShared(frames: Frames, freeList: seq<nat>, owner: Owners, s: Slot, p: nat)
    requires CanSetLeaf(frames, freeList, owner, s, 0) && !SharedTarget(frames, owner, p)
    ensures s.table in frames && frames[s.table].PtFrame? && s.index < |frames[s.table].ptes|
    ensures !SharedTarget(SetEntry(frames, s, 0), LeafOwners(frames, owner, s, 0), p)
  {
    SetLeafBasics(frames, freeList, owner, s, 0);
    var f', o' := SetEntry(frames, s, 0), LeafOwners(frames, owner, s, 0);
    forall t: nat, i: nat | IsTable(o', t) && o'[t].level == 0 && i < ENTRIES
      ensures !(IsValid(Entry(f', t, i)) && Has(Entry(f', t, i), PTE_S) && Pte2Pa(Entry(f', t, i)) == p)
    {
      if (t, i) != (s.table, s.index) {
        assert Entry(f', t, i) == Entry(frames, t, i);
      }
    }
  }

  /** Lines 88-89 with do_free on a slot whose leaf owns a frame that a
      PTE_S leaf elsewhere still maps (another address space aliased it
      with map_shared_pages): kfree puts the frame on the free list while
      the alias goes on mapping it, so the alias dangles and the result
      breaks the machine invariant. This is why ClearPte, uvmunmap and
      their callers here require that no alias of a freed frame remains. */
  lemma FreeAliasedDangles(frames: Frames, freeList: seq<nat>, owner: Owners, s: Slot)
    requires CanSetLeaf(frames, freeList, owner, s, 0)
    requires var w := Entry(frames, s.table, s.index);
      Owning(w) && SharedTarget(frames, owner, Pte2Pa(w))
    ensures s.table in frames && frames[s.table].PtFrame? && s.index < |frames[s.table].ptes|
    ensures var p := Pte2Pa(Entry(frames, s.table, s.index));
      var f', fl', o' := SetEntry(frames, s, 0), [p] + freeList, LeafOwners(frames, owner, s, 0);
      && p in FreeSet(fl') && SharedTarget(f', o', p)
      && !Inv(f', fl', o')
  {
    SetLeafBasics(frames, freeList, owner, s, 0);
    var p := Pte2Pa(Entry(frames, s.table, s.index));
    var f', fl', o' := SetEntry(frames, s, 0), [p] + freeList, LeafOwners(frames, owner, s, 0);
    var t: nat, i: nat :| IsTable(owner, t) && owner[t].level == 0 && i < ENTRIES &&
      IsValid(Entry(frames, t, i)) && Has(Entry(frames, t, i), PTE_S) && Pte2Pa(Entry(frames, t, i)) == p;
    assert Entry(f', t, i) == Entry(frames, t, i);
    assert IsTable(o', t) && o'[t].level == 0;
    assert p in FreeSet(fl') by {
      assert fl'[0] == p;
    }
    assert !AliasOk(f', fl', o', t, i);
  }

  /** Lines 88-89 of uvmunmap on a valid leaf in slot s: with do_free, kfree
      the frame unless the leaf has PTE_S; then zero the slot. The owner of
      the frame lets go of it either way. */
  method ClearPte(m: Machine, s: Slot, doFree: bool)
    requires m.Valid() && IsTable(m.owner, s.table) && m.owner[s.table].level == 0 && s.index < ENTRIES
    requires var w := Entry(m.frames, s.table, s.index);
      IsValid(w) && (doFree && Owning(w) ==> !SharedTarget(m.frames, m.owner, Pte2Pa(w)))
    modifies m
    ensures m.Valid()
    ensures s.table in old(m.frames) && old(m.frames)[s.table].PtFrame? && s.index < |old(m.frames)[s.table].ptes|
    ensures m.frames == SetEntry(old(m.frames), s, 0)
    ensures m.owner == LeafOwners(old(m.frames), old(m.owner), s, 0)
    ensures var w := Entry(old(m.frames), s.table, s.index);
      m.freeList == (if doFree && Owning(w) then [Pte2Pa(w)] else []) + old(m.freeList)
    ensures forall r :: IsRoot(m.owner, r) <==> IsRoot(old(m.owner), r)
    ensures forall f :: IsTable(m.owner, f) <==> IsTable(old(m.owner), f)
    ensures forall r, va :: IsRoot(old(m.owner), r) ==>
      Leaf(m.frames, r, va) == if LeafSlot(old(m.frames), r, va) == Some(s) then 0 else Leaf(old(m.frames), r, va)
    ensures forall p :: !SharedTarget(old(m.frames), old(m.owner), p) ==> !SharedTarget(m.frames, m.owner, p)
  {
    ghost var f0, fl0, o0 := m.frames, m.freeList, m.owner;
    forall p | !SharedTarget(f0, o0, p) ensures !SharedTarget(SetEntry(f0, s, 0), LeafOwners(f0, o0, s, 0), p) {
      ClearedNotShared(f0, fl0, o0, s, p);
    }
    SetLeaf(f0, fl0, o0, s, 0);
    SetLeafBasics(f0, fl0, o0, s, 0);
    var pte := m.frames[s.table].ptes[s.index];
    if doFree && !Has(pte, PTE_S) {
      var pa := Pte2Pa(pte);
      assert OwnerOk(f0, o0, pa);
      ClearedNotShared(f0, fl0, o0, s, pa);
      FreeUnowned(SetEntry(f0, s, 0), fl0, LeafOwners(f0, o0, s, 0), pa);
      m.Kfree(pa);
    }
    m.frames := SetEntry(m.frames, s, 0);
    m.owner := LeafOwners(f0, m.owner, s, 0);
  }

  /** One round of uvmunmap's loop at page a: walk without allocation (a
      panic at or above MAXVA), panic when the leaf is missing or invalid,
      else clear it. */
  method UnmapOne(m: Machine, pagetable: nat, a: nat, doFree: bool) returns (r: Res<()>)
    requires m.Valid() && IsRoot(m.owner, pagetable) && a % PGSIZE == 0
    requires var w := Leaf(m.frames, pagetable, a);
      a < MAXVA && doFree && Owning(w) ==> !SharedTarget(m.frames, m.owner, Pte2Pa(w))
    modifies m
    ensures r.Panic? <==> a >= MAXVA || !Mapped(old(m.frames), pagetable, a)
    ensures r.Ret? ==> m.Valid() && LeafSet(old(m.frames), old(m.owner), m.frames, pagetable, a / PGSIZE, 0)
    ensures r.Ret? ==> var w := Leaf(old(m.frames), pagetable, a);
      && m.freeList == (if doFree && Owning(w) then [Pte2Pa(w)] else []) + old(m.freeList)
      && m.owner == if Owning(w) then old(m.owner) - {Pte2Pa(w)} else old(m.owner)
    ensures r.Ret? ==> forall f :: IsTable(m.owner, f) <==> IsTable(old(m.owner), f)
    ensures r.Ret? ==> (m.frames.Keys == old(m.frames).Keys &&
      forall f :: f in old(m.frames) && !IsTable(m.owner, f) ==> m.frames[f] == old(m.frames)[f])
    ensures r.Ret? ==> forall p :: !SharedTarget(old(m.frames), old(m.owner), p) ==> !SharedTarget(m.frames, m.owner, p)
    ensures r.Ret? ==> forall q :: IsRoot(m.owner, q) <==> IsRoot(old(m.owner), q)
  {
    r := Ret(());
    var w := Walk(m, pagetable, a, false);
    if w.Panic? {
      return Panic(w.msg);
    }
    if w.value == None {
      return Panic("uvmunmap: not mapped");
    }
    var s := w.value.value;
    LeafSlotOwned(m.frames, m.freeList, m.owner, pagetable, a);
    assert OwnerOk(m.frames, m.owner, s.table);
    var pte := m.frames[s.table].ptes[s.index];
    if !IsValid(pte) {
      return Panic("uvmunmap: not mapped");
    }
    // Line 87 tests PTE_FLAGS(*pte) & PTE_V, the bit line 86 has just
    // tested: its panic ("not a leaf") cannot happen.
    assert PteFlags(pte) & PTE_V != 0;
    ghost var f0, o0 := m.frames, m.owner;
    assert SlotOk(f0, o0, s.table, s.index);
    ClearPte(m, s, doFree);
    forall q: nat, v: nat | IsRoot(o0, q) && v < MAXVA
      ensures Leaf(m.frames, q, v) == if q == pagetable && v / PGSIZE == a / PGSIZE then 0 else Leaf(f0, q, v)
    {
      SlotForPage(f0, old(m.freeList), o0, pagetable, a, q, v);
    }
  }

  /** The frames uvmunmap frees over pages va .. va + (n - 1) * PGSIZE, last
      page first (kfree pushes on the free list): those of the leaves that
      own their frame, i.e. lack PTE_S. */
  function Freed(frames: Frames, pt: nat, va: nat, n: nat): (fs: seq<nat>)
    ensures forall p :: p in fs <==>
      exists k :: 0 <= k < n && Owning(Leaf(frames, pt, PageAt(va, k))) && Pte2Pa(Leaf(frames, pt, PageAt(va, k))) == p
  {
    if n == 0 then []
    else
      var w := Leaf(frames, pt, PageAt(va, n - 1));
      (if Owning(w) then [Pte2Pa(w)] else []) + Freed(frames, pt, va, n - 1)
  }

  /** Freed looks only at the leaves of its pages. */
  lemma {:induction false} FreedSameLeaves(f0: Frames, f1: Frames, pt: nat, va: nat, n: nat)
    requires forall k :: 0 <= k < n ==> Leaf(f1, pt, PageAt(va, k)) == Leaf(f0, pt, PageAt(va, k))
    ensures Freed(f1, pt, va, n) == Freed(f0, pt, va, n)
  {
    if n > 0 {
      FreedSameLeaves(f0, f1, pt, va, n - 1);
    }
  }

  /** Pages p0 .. p0 + done - 1 of root pt have been cleared, every other
      leaf below MAXVA is as in f0. */
  ghost predicate ClearedRun(f0: Frames, o0: Owners, f1: Frames, pt: nat, p0: nat, done: nat)
  {
    forall q: nat, v: nat :: IsRoot(o0, q) && v < MAXVA ==>
      Leaf(f1, q, v) == if q == pt && p0 <= v / PGSIZE < p0 + done then 0 else Leaf(f0, q, v)
  }

  /** No leaf owning a frame of pages va .. va + (n - 1) * PGSIZE is the
      target of a shared alias: what freeing them needs. */
  ghost predicate FreeableRun(frames: Frames, owner: Owners, pt: nat, va: nat, n: nat)
  {
    forall k :: 0 <= k < n ==>
      var w := Leaf(frames, pt, PageAt(va, k));
      PageAt(va, k) < MAXVA && Owning(w) ==> !SharedTarget(frames, owner, Pte2Pa(w))
  }

  /** Before round `done` of uvmunmap's loop the page's leaf is the one it
      had on entry. */
  lemma UnmapStepPre(f0: Frames, o0: Owners, f1: Frames, pt: nat, va: nat, done: nat)
    requires IsRoot(o0, pt) && va % PGSIZE == 0
    requires ClearedRun(f0, o0, f1, pt, va / PGSIZE, done)
    ensures PageAt(va, done) / PGSIZE == va / PGSIZE + done
    ensures PageAt(va, done) < MAXVA ==> Leaf(f1, pt, PageAt(va, done)) == Leaf(f0, pt, PageAt(va, done))
  {
    PageAtAligned(va, done);
  }

  /** Round `done` of uvmunmap's loop keeps its invariant. */
  lemma UnmapStepPost(f0: Frames, fl0: seq<nat>, o0: Owners, f1: Frames, fl1: seq<nat>, o1: Owners,
                      f2: Frames, fl2: seq<nat>, o2: Owners, pt: nat, va: nat, done: nat, npages: nat, doFree: bool)
    requires IsRoot(o0, pt) && va % PGSIZE == 0 && done < npages
    requires forall q :: IsRoot(o1, q) <==> IsRoot(o0, q)
    requires PageAt(va, done) < MAXVA && Mapped(f1, pt, PageAt(va, done))
    requires ClearedRun(f0, o0, f1, pt, va / PGSIZE, done)
    requires fl1 == (if doFree then Freed(f0, pt, va, done) else []) + fl0
    requires o1 == o0 - FreeSet(Freed(f0, pt, va, done))
    requires LeafSet(f1, o1, f2, pt, PageAt(va, done) / PGSIZE, 0)
    requires var w := Leaf(f1, pt, PageAt(va, done));
      && fl2 == (if doFree && Owning(w) then [Pte2Pa(w)] else []) + fl1
      && o2 == if Owning(w) then o1 - {Pte2Pa(w)} else o1
    ensures Mapped(f0, pt, PageAt(va, done))
    ensures ClearedRun(f0, o0, f2, pt, va / PGSIZE, done + 1)
    ensures fl2 == (if doFree then Freed(f0, pt, va, done + 1) else []) + fl0
    ensures o2 == o0 - FreeSet(Freed(f0, pt, va, done + 1))
  {
    UnmapStepPre(f0, o0, f1, pt, va, done);
    UnmapListStep(f0, fl0, o0, fl1, o1, fl2, o2, pt, va, done, doFree, Leaf(f1, pt, PageAt(va, done)));
  }

  /** The freed list and the owner map after one more round of uvmunmap. */
  lemma UnmapListStep(f0: Frames, fl0: seq<nat>, o0: Owners, fl1: seq<nat>, o1: Owners,
                      fl2: seq<nat>, o2: Owners, pt: nat, va: nat, done: nat, doFree: bool, w: nat)
    requires w == Leaf(f0, pt, PageAt(va, done))
    requires fl1 == (if doFree then Freed(f0, pt, va, done) else []) + fl0
    requires o1 == o0 - FreeSet(Freed(f0, pt, va, done))
    requires fl2 == (if doFree && Owning(w) then [Pte2Pa(w)] else []) + fl1
    requires o2 == if Owning(w) then o1 - {Pte2Pa(w)} else o1
    ensures fl2 == (if doFree then Freed(f0, pt, va, done + 1) else []) + fl0
    ensures o2 == o0 - FreeSet(Freed(f0, pt, va, done + 1))
  {
    hide Freed;
    var head: seq<nat> := if Owning(w) then [Pte2Pa(w)] else [];
    FreedNext(f0, pt, va, done);
    FreeSetAppend(head, Freed(f0, pt, va, done));
    assert FreeSet(head) == if Owning(w) then {Pte2Pa(w)} else {} by {
      if Owning(w) { assert head[0] == Pte2Pa(w); }
    }
    var fs1, fs2 := FreeSet(Freed(f0, pt, va, done)), FreeSet(Freed(f0, pt, va, done + 1));
    assert fs2 == FreeSet(head) + fs1;
    if doFree {
      assert fl2 == head + (Freed(f0, pt, va, done) + fl0);
      assert fl2 == (head + Freed(f0, pt, va, done)) + fl0;
    }
  }

  /** Freed over one more page prepends that page's frame when its leaf owns it. */
  lemma FreedNext(f0: Frames, pt: nat, va: nat, done: nat)
    ensures var w := Leaf(f0, pt, PageAt(va, done));
      Freed(f0, pt, va, done + 1) == (if Owning(w) then [Pte2Pa(w)] else []) + Freed(f0, pt, va, done)
  {
  }

  lemma FreeSetAppend(a: seq<nat>, b: seq<nat>)
    ensures FreeSet(a + b) == FreeSet(a) + FreeSet(b)
  {
    var ab := a + b;
    forall x | x in FreeSet(ab) ensures x in FreeSet(a) + FreeSet(b) {
      var k :| 0 <= k < |ab| && ab[k] == x;
      if k >= |a| { assert b[k - |a|] == x; }
    }
    forall x | x in FreeSet(a) ensures x in FreeSet(ab) {
      var k :| 0 <= k < |a| && a[k] == x;
      assert ab[k] == x;
    }
    forall x | x in FreeSet(b) ensures x in FreeSet(ab) {
      var k :| 0 <= k < |b| && b[k] == x;
      assert ab[|a| + k] == x;
    }
  }

  /** Clearing a page's leaf keeps the run freeable. */
  lemma FreeableAfterClear(f1: Frames, o1: Owners, f2: Frames, o2: Owners, pt: nat, va: nat, done: nat, npages: nat)
    requires IsRoot(o1, pt) && va % PGSIZE == 0
    requires forall q :: IsRoot(o2, q) <==> IsRoot(o1, q)
    requires FreeableRun(f1, o1, pt, va, npages)
    requires LeafSet(f1, o1, f2, pt, va / PGSIZE + done, 0)
    requires forall p :: !SharedTarget(f1, o1, p) ==> !SharedTarget(f2, o2, p)
    ensures FreeableRun(f2, o2, pt, va, npages)
  {
    forall k | 0 <= k < npages && PageAt(va, k) < MAXVA && Owning(Leaf(f2, pt, PageAt(va, k)))
      ensures !SharedTarget(f2, o2, Pte2Pa(Leaf(f2, pt, PageAt(va, k))))
    {
      PageAtAligned(va, k);
    }
  }

  /** What uvmunmap's loop has done after `done` pages, from state 0. */
  ghost predicate UnmapProgress(f0: Frames, fl0: seq<nat>, o0: Owners, f: Frames, fl: seq<nat>, o: Owners,
                                pt: nat, va: nat, done: nat, npages: nat, doFree: bool)
  {
    && (forall q :: IsRoot(o, q) <==> IsRoot(o0, q))
    && (forall t :: IsTable(o, t) <==> IsTable(o0, t))
    && ClearedRun(f0, o0, f, pt, va / PGSIZE, done)
    && (forall k :: 0 <= k < done ==> PageAt(va, k) < MAXVA && Mapped(f0, pt, PageAt(va, k)))
    && fl == (if doFree then Freed(f0, pt, va, done) else []) + fl0
    && o == o0 - FreeSet(Freed(f0, pt, va, done))
    && f.Keys == f0.Keys
    && (forall t :: t in f0 && !IsTable(o, t) ==> f[t] == f0[t])
    && (doFree ==> FreeableRun(f, o, pt, va, npages))
  }

  /** One round of uvmunmap's loop that did not panic advances it. */
  lemma UnmapAdvance(f0: Frames, fl0: seq<nat>, o0: Owners, f1: Frames, fl1: seq<nat>, o1: Owners,
                     f2: Frames, fl2: seq<nat>, o2: Owners, pt: nat, va: nat, done: nat, npages: nat, doFree: bool)
    requires IsRoot(o0, pt) && va % PGSIZE == 0 && done < npages
    requires UnmapProgress(f0, fl0, o0, f1, fl1, o1, pt, va, done, npages, doFree)
    requires PageAt(va, done) < MAXVA && Mapped(f1, pt, PageAt(va, done))
    requires LeafSet(f1, o1, f2, pt, PageAt(va, done) / PGSIZE, 0)
    requires var w := Leaf(f1, pt, PageAt(va, done));
      && fl2 == (if doFree && Owning(w) then [Pte2Pa(w)] else []) + fl1
      && o2 == if Owning(w) then o1 - {Pte2Pa(w)} else o1
    requires forall t :: IsTable(o2, t) <==> IsTable(o1, t)
    requires f2.Keys == f1.Keys && forall t :: t in f1 && !IsTable(o2, t) ==> f2[t] == f1[t]
    requires forall p :: !SharedTarget(f1, o1, p) ==> !SharedTarget(f2, o2, p)
    requires forall q :: IsRoot(o2, q) <==> IsRoot(o1, q)
    ensures UnmapProgress(f0, fl0, o0, f2, fl2, o2, pt, va, done + 1, npages, doFree)
  {
    UnmapStepPost(f0, fl0, o0, f1, fl1, o1, f2, fl2, o2, pt, va, done, npages, doFree);
    UnmapStepPre(f0, o0, f1, pt, va, done);
    if doFree {
      FreeableAfterClear(f1, o1, f2, o2, pt, va, done, npages);
    }
  }

  /** Round `done` of uvmunmap's loop: unmap page a = va + done*PGSIZE. */
  method UnmapRound(m: Machine, pagetable: nat, a: nat, doFree: bool, ghost f0: Frames, ghost fl0: seq<nat>,
                    ghost o0: Owners, ghost va: nat, ghost done: nat, ghost npages: nat) returns (r: Res<()>)
    requires m.Valid() && IsRoot(o0, pagetable) && va % PGSIZE == 0 && done < npages && a == PageAt(va, done)
    requires UnmapProgress(f0, fl0, o0, m.frames, m.freeList, m.owner, pagetable, va, done, npages, doFree)
    modifies m
    ensures r.Panic? <==> a >= MAXVA || !Mapped(f0, pagetable, a)
    ensures r.Ret? ==> m.Valid() && UnmapProgress(f0, fl0, o0, m.frames, m.freeList, m.owner, pagetable, va, done + 1, npages, doFree)
  {
    UnmapStepPre(f0, o0, m.frames, pagetable, va, done);
    PageAtAligned(va, done);
    ghost var f1, fl1, o1 := m.frames, m.freeList, m.owner;
    r := UnmapOne(m, pagetable, a, doFree);
    if r.Ret? {
      UnmapAdvance(f0, fl0, o0, f1, fl1, o1, m.frames, m.freeList, m.owner, pagetable, va, done, npages, doFree);
    }
  }

  /** uvmunmap(pagetable, va, npages, do_free): clear the leaves of the
      npages pages from va. Panics when va is not page aligned or a page in
      range is unmapped (or, through walk, at or above MAXVA). With do_free
      it kfrees exactly the frames of the leaves without PTE_S; every frame
      a cleared leaf owned loses its owner. */
  method UvmUnmap(m: Machine, pagetable: nat, va: nat, npages: nat, doFree: bool) returns (r: Res<()>)
    requires m.Valid() && IsRoot(m.owner, pagetable)
    requires doFree ==> FreeableRun(m.frames, m.owner, pagetable, va, npages)
    modifies m
    ensures r.Panic? <==> (va % PGSIZE != 0 ||
      exists k :: 0 <= k < npages && (PageAt(va, k) >= MAXVA || !Mapped(old(m.frames), pagetable, PageAt(va, k))))
    ensures r.Ret? ==> m.Valid() && ClearedRun(old(m.frames), old(m.owner), m.frames, pagetable, va / PGSIZE, npages)
    ensures r.Ret? ==> m.freeList == (if doFree then Freed(old(m.frames), pagetable, va, npages) else []) + old(m.freeList)
    ensures r.Ret? ==> m.owner == old(m.owner) - FreeSet(Freed(old(m.frames), pagetable, va, npages))
    ensures r.Ret? ==> forall f :: IsTable(m.owner, f) <==> IsTable(old(m.owner), f)
    ensures r.Ret? ==> forall q :: IsRoot(m.owner, q) <==> IsRoot(old(m.owner), q)
    ensures r.Ret? ==> (m.frames.Keys == old(m.frames).Keys &&
      forall f :: f in old(m.frames) && !IsTable(m.owner, f) ==> m.frames[f] == old(m.frames)[f])
  {
    if va % PGSIZE != 0 {
      return Panic("uvmunmap: not aligned");
    }
    ghost var f0, fl0, o0 := m.frames, m.freeList, m.owner;
    var a := va;
    ghost var done := 0;
    while a < va + npages * PGSIZE
      invariant done <= npages && a == PageAt(va, done)
      invariant m.Valid() && UnmapProgress(f0, fl0, o0, m.frames, m.freeList, m.owner, pagetable, va, done, npages, doFree)
      decreases npages - done
    {
      PageAtBelow(va, done, npages);
      var res := UnmapRound(m, pagetable, a, doFree, f0, fl0, o0, va, done, npages);
      if res.Panic? {
        return res;
      }
      a := a + PGSIZE;
      done := done + 1;
    }
    PageAtBelow(va, done, npages);
    return Ret(());
  }
}
