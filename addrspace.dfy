/** The address-space lifecycle of kernel/vm.c: uvmcreate, uvmfirst,
    uvmalloc and uvmdealloc, uvmcopy and uvmclear, over the page-table
    operations of PageTable and Teardown. */
module AddrSpace {
  import opened Sv39
  import opened Outcomes
  import opened Phys
  import opened PageTable
  import opened Teardown

  // ---------------------------------------------------------------------
  // Shared aliases seen through the roots.

  /** Some page below MAXVA of some root is mapped to frame p by a valid
      PTE_S leaf. */
  ghost predicate AliasedByLeaf(f: Frames, o: Owners, p: nat)
  {
    exists q: nat, va: nat :: IsRoot(o, q) && va < MAXVA &&
      IsValid(Leaf(f, q, va)) && Has(Leaf(f, q, va), PTE_S) && Pte2Pa(Leaf(f, q, va)) == p
  }

  /** Under the invariant every level-0 table hangs below a root, so a frame
      is the target of a shared alias exactly when some root maps a page to
      it with PTE_S. */
  lemma SharedIsLeaf(f: Frames, fl: seq<nat>, o: Owners, p: nat)
    requires Inv(f, fl, o)
    ensures SharedTarget(f, o, p) <==> AliasedByLeaf(f, o, p)
  {
    if SharedTarget(f, o, p) {
      var t: nat, i: nat :| IsTable(o, t) && o[t].level == 0 && i < ENTRIES &&
        IsValid(Entry(f, t, i)) && Has(Entry(f, t, i), PTE_S) && Pte2Pa(Entry(f, t, i)) == p;
      assert OwnerOk(f, o, t);
      var r := o[t].root;
      SlotOfTable(f, fl, o, r, t, i);
      var va := PageVa(o[t].path[0], o[t].path[1], i);
      assert Leaf(f, r, va) == Entry(f, t, i);
    }
    if AliasedByLeaf(f, o, p) {
      var q: nat, va: nat :| IsRoot(o, q) && va < MAXVA &&
        IsValid(Leaf(f, q, va)) && Has(Leaf(f, q, va), PTE_S) && Pte2Pa(Leaf(f, q, va)) == p;
      LeafSlotOwned(f, fl, o, q, va);
      var s := LeafSlot(f, q, va).value;
      assert IsTable(o, s.table) && o[s.table].level == 0 && s.index < ENTRIES;
    }
  }

  /** A step that adds no PTE_S leaf to any root, and keeps the roots,
      creates no new alias: a frame no shared leaf mapped before is mapped
      by none after. */
  lemma NoNewAlias(f0: Frames, fl0: seq<nat>, o0: Owners, f1: Frames, fl1: seq<nat>, o1: Owners, p: nat)
    requires Inv(f0, fl0, o0) && Inv(f1, fl1, o1)
    requires forall q :: IsRoot(o1, q) <==> IsRoot(o0, q)
    requires forall q: nat, va: nat :: IsRoot(o1, q) && va < MAXVA && IsValid(Leaf(f1, q, va)) && Has(Leaf(f1, q, va), PTE_S) ==>
      Leaf(f1, q, va) == Leaf(f0, q, va)
    requires !SharedTarget(f0, o0, p)
    ensures !SharedTarget(f1, o1, p)
  {
    SharedIsLeaf(f0, fl0, o0, p);
    SharedIsLeaf(f1, fl1, o1, p);
  }

  // ---------------------------------------------------------------------
  // uvmcreate.

  lemma NewRootOwnerOk(frames: Frames, freeList: seq<nat>, owner: Owners, pt: nat, f: nat)
    requires Inv(frames, freeList, owner) && pt in frames && pt !in owner
    requires f in owner
    ensures OwnerOk(frames[pt := ZeroTable()], owner[pt := TableOf(pt, 2, [])], f)
  {
    var frames', owner' := frames[pt := ZeroTable()], owner[pt := TableOf(pt, 2, [])];
    assert OwnerOk(frames, owner, f);
    match owner[f]
    case TableOf(r, lvl, path) => {
      forall i | 0 <= i < ENTRIES ensures SlotOk(frames', owner', f, i) {
        assert SlotOk(frames, owner, f, i);
      }
      assert OwnerOk(frames, owner, r);
      if |path| == 2 {
        assert SlotOk(frames, owner, r, path[0]);
      }
    }
    case LeafOf(t, i) => {
      assert OwnerOk(frames, owner, t);
    }
  }

  /** A frame that is neither owned, free nor aliased, zeroed and made a
      root, keeps the invariant; it maps nothing, and no other root's leaf
      changes. */
  lemma NewRoot(frames: Frames, freeList: seq<nat>, owner: Owners, pt: nat, frames': Frames)
    requires Inv(frames, freeList, owner) && pt in frames && pt !in owner && pt !in FreeSet(freeList)
    requires !SharedTarget(frames, owner, pt)
    requires frames' == frames[pt := ZeroTable()]
    ensures Inv(frames', freeList, owner[pt := TableOf(pt, 2, [])])
    ensures forall r, va :: IsRoot(owner, r) ==> Leaf(frames', r, va) == Leaf(frames, r, va)
    ensures forall va :: Leaf(frames', pt, va) == 0
  {
    NewRootInv(frames, freeList, owner, pt, frames');
    forall r, va | IsRoot(owner, r) ensures Leaf(frames', r, va) == Leaf(frames, r, va) {
      WriteNonTableLeaf(frames, freeList, owner, pt, ZeroTable(), r, va);
    }
  }

  lemma NewRootInv(frames: Frames, freeList: seq<nat>, owner: Owners, pt: nat, frames': Frames)
    requires Inv(frames, freeList, owner) && pt in frames && pt !in owner && pt !in FreeSet(freeList)
    requires !SharedTarget(frames, owner, pt)
    requires frames' == frames[pt := ZeroTable()]
    ensures Inv(frames', freeList, owner[pt := TableOf(pt, 2, [])])
  {
    var owner' := owner[pt := TableOf(pt, 2, [])];
    forall f | f in owner' ensures OwnerOk(frames', owner', f) {
      if f != pt {
        NewRootOwnerOk(frames, freeList, owner, pt, f);
      } else {
        forall i | 0 <= i < ENTRIES ensures SlotOk(frames', owner', pt, i) { }
      }
    }
    forall k | 0 <= k < |freeList| ensures freeList[k] !in owner' {
      assert freeList[k] in FreeSet(freeList);
    }
    forall t: nat, i: nat | IsTable(owner', t) && owner'[t].level == 0 && i < ENTRIES
      ensures AliasOk(frames', freeList, owner', t, i)
    {
      assert AliasOk(frames, freeList, owner, t, i);
      var w := Entry(frames, t, i);
      if IsValid(w) && Has(w, PTE_S) {
        assert SharedTarget(frames, owner, Pte2Pa(w));
      }
    }
  }

  /** uvmcreate(): a fresh zeroed root table, or 0 when kalloc fails. */
  method UvmCreate(m: Machine) returns (pt: nat)
    requires m.Valid()
    modifies m
    ensures m.Valid()
    ensures pt == 0 <==> old(m.freeList) == []
    ensures pt == 0 ==> unchanged(m)
    ensures pt != 0 ==> pt == old(m.freeList)[0] && m.freeList == old(m.freeList)[1..] && pt !in old(m.owner)
    ensures pt != 0 ==> m.owner == old(m.owner)[pt := TableOf(pt, 2, [])] && IsRoot(m.owner, pt)
    ensures pt != 0 ==> forall va :: !Mapped(m.frames, pt, va)
    ensures forall q, va :: IsRoot(old(m.owner), q) ==> Leaf(m.frames, q, va) == Leaf(old(m.frames), q, va)
  {
    pt := m.Kalloc();
    if pt == 0 {
      return;
    }
    NewRoot(m.frames, m.freeList, m.owner, pt, m.frames[pt := ZeroTable()]);
    m.frames := m.frames[pt := ZeroTable()];
    m.owner := m.owner[pt := TableOf(pt, 2, [])];
  }

  // ---------------------------------------------------------------------
  // uvmfirst.

  /** The first process's page: the sz bytes of src at its start, zeros
      after. */
  function FirstPage(src: seq<bv8>, sz: nat): (c: Frame)
    requires sz <= |src| && sz < PGSIZE
    ensures c.DataFrame? && |c.bytes| == PGSIZE
    ensures forall i :: 0 <= i < PGSIZE ==> c.bytes[i] == if i < sz then src[i] else 0
  {
    DataFrame(src[..sz] + seq(PGSIZE - sz, _ => 0 as bv8))
  }

  /** uvmfirst(pagetable, src, sz): load the first process's code, sz bytes
      of src, at virtual address 0 of a fresh root. Panics when sz is not
      below a page, or (in mappages) when page 0 is already mapped. The
      source checks neither kalloc's nor mappages' result: a frame must be
      free, and when mappages cannot allocate a table the page is filled
      but left unmapped. The ghost mem is the frame kalloc returned. */
  method UvmFirst(m: Machine, pagetable: nat, src: seq<bv8>, sz: nat) returns (r: Res<()>, ghost mem: nat)
    requires m.Valid() && IsRoot(m.owner, pagetable)
    requires sz <= |src| && m.freeList != []
    modifies m
    ensures sz >= PGSIZE ==> r.Panic? && unchanged(m)
    ensures r.Panic? ==> sz >= PGSIZE || Mapped(old(m.frames), pagetable, 0)
    ensures r.Ret? ==> m.Valid() && mem == old(m.freeList)[0] && sz < PGSIZE
    ensures r.Ret? ==> mem in m.frames && m.frames[mem] == FirstPage(src, sz)
    ensures r.Ret? && |old(m.freeList)| >= 3 ==> Leaf(m.frames, pagetable, 0) == MakePte(mem, PTE_RWXU | PTE_V)
    ensures r.Ret? && Leaf(m.frames, pagetable, 0) == MakePte(mem, PTE_RWXU | PTE_V) ==>
      Accounted(m.freeList, m.owner) == Accounted(old(m.freeList), old(m.owner))
    ensures r.Ret? ==> forall q: nat, va: nat :: IsRoot(old(m.owner), q) && va < MAXVA && (q != pagetable || va >= PGSIZE) ==>
      Leaf(m.frames, q, va) == Leaf(old(m.frames), q, va)
  {
    if sz >= PGSIZE {
      return Panic("uvmfirst: more than a page"), 0;
    }
    ghost var f0, fl0, o0 := m.frames, m.freeList, m.owner;
    var p := m.Kalloc();
    mem := p;
    PopFree(f0, fl0, o0);
    m.WritePage(p, ZeroPage());
    ghost var f1 := m.frames;
    r := MapFirst(m, pagetable, p, src, sz);
    if r.Ret? {
      assert forall q: nat, va: nat :: IsRoot(o0, q) ==> Leaf(f1, q, va) == Leaf(f0, q, va);
    }
  }

  /** uvmfirst after kalloc and memset: map page 0 to the zeroed frame p
      and copy src's sz bytes into it. */
  method MapFirst(m: Machine, pagetable: nat, p: nat, src: seq<bv8>, sz: nat) returns (r: Res<()>)
    requires m.Valid() && IsRoot(m.owner, pagetable) && sz <= |src| && sz < PGSIZE
    requires Ownable(m.frames, m.freeList, m.owner, p) && m.frames[p] == ZeroPage()
    requires !SharedTarget(m.frames, m.owner, p)
    modifies m
    ensures r.Panic? ==> Mapped(old(m.frames), pagetable, 0)
    ensures r.Ret? ==> m.Valid() && p in m.frames && m.frames[p] == FirstPage(src, sz)
    ensures r.Ret? ==> FirstMapped(old(m.frames), old(m.freeList), old(m.owner), m.frames, m.freeList, m.owner, pagetable, p)
  {
    ghost var f1, fl1, o1 := m.frames, m.freeList, m.owner;
    var res, done := MapPage(m, pagetable, 0, p, PTE_RWXU);
    if res.Panic? {
      return Panic(res.msg);
    }
    ghost var f2, fl2, o2 := m.frames, m.freeList, m.owner;
    FirstMappedOk(f1, fl1, o1, f2, fl2, o2, pagetable, p, done);
    hide FirstMapped, Leaf, MappedOne, Inv;
    m.WritePage(p, FirstPage(src, sz));
    FirstMappedWrite(f1, fl1, o1, f2, fl2, o2, m.frames, pagetable, p);
    return Ret(());
  }

  /** mappages' outcome for page 0, whether or not it found memory for the
      tables. */
  lemma FirstMappedOk(f1: Frames, fl1: seq<nat>, o1: Owners, f2: Frames, fl2: seq<nat>, o2: Owners, pt: nat, p: nat, done: nat)
    requires MappedOne(f1, fl1, o1, f2, fl2, o2, pt, 0, p, PTE_RWXU, done) && f1[p] == ZeroPage()
    requires done == 1 || (done == 0 && fl2 == [] && |fl1| < 2)
    ensures FirstMapped(f1, fl1, o1, f2, fl2, o2, pt, p)
    ensures p in f2 && !IsTable(o2, p) && forall q :: IsRoot(o1, q) ==> IsRoot(o2, q)
  {
    assert forall q :: IsRoot(o1, q) ==> IsRoot(o2, q);
    assert OwningPerm(PTE_RWXU);
    hide Kept, MappedRun, Accounted, Ownable, WereUnmapped, Run, FreeSet, SharedTarget, Mapped, LeafSet, MappedOne;
    if done == 1 {
      OneMapped(f1, fl1, o1, f2, fl2, o2, pt, 0, p, PTE_RWXU, done);
    } else {
      MapOneFailed(f1, fl1, o1, f2, fl2, o2, pt, 0, p, PTE_RWXU, done);
      OwnableUnmapped(f1, fl1, o1, pt, 0, p);
      MakePteFields(p, PTE_RWXU | PTE_V);
    }
  }

  /** What mapping page 0 to p did, from state 0: with two free frames for
      the tables the page maps p, frame p is then accounted for, and no
      other leaf below MAXVA changed. */
  ghost predicate FirstMapped(f0: Frames, fl0: seq<nat>, o0: Owners, f: Frames, fl: seq<nat>, o: Owners, pt: nat, p: nat)
  {
    && (|fl0| >= 2 ==> Leaf(f, pt, 0) == MakePte(p, PTE_RWXU | PTE_V))
    && (Leaf(f, pt, 0) == MakePte(p, PTE_RWXU | PTE_V) ==> Accounted(fl, o) == Accounted(fl0, o0) + {p})
    && (forall q: nat, va: nat :: IsRoot(o0, q) && va < MAXVA && (q != pt || va >= PGSIZE) ==>
          Leaf(f, q, va) == Leaf(f0, q, va))
  }

  /** Writing a frame that no root's leaves depend on keeps FirstMapped. */
  lemma FirstMappedWrite(f0: Frames, fl0: seq<nat>, o0: Owners, f1: Frames, fl: seq<nat>, o: Owners, f2: Frames, pt: nat, p: nat)
    requires IsRoot(o0, pt) && FirstMapped(f0, fl0, o0, f1, fl, o, pt, p)
    requires forall q :: IsRoot(o0, q) ==> IsRoot(o, q)
    requires forall q, va :: IsRoot(o, q) ==> Leaf(f2, q, va) == Leaf(f1, q, va)
    ensures FirstMapped(f0, fl0, o0, f2, fl, o, pt, p)
  {
  }

  /** A frame no one owns is the target of no owning leaf. */
  lemma OwnableUnmapped(f: Frames, fl: seq<nat>, o: Owners, pt: nat, va: nat, p: nat)
    requires Inv(f, fl, o) && IsRoot(o, pt) && p !in o
    ensures !(Owning(Leaf(f, pt, va)) && Pte2Pa(Leaf(f, pt, va)) == p)
  {
    LeafSlotOwned(f, fl, o, pt, va);
    if LeafSlot(f, pt, va).Some? {
      var s := LeafSlot(f, pt, va).value;
      assert OwnerOk(f, o, s.table) && SlotOk(f, o, s.table, s.index);
    }
  }

  // ---------------------------------------------------------------------
  // uvmalloc.

  /** A permission that adds neither a shared alias nor an interior entry. */
  predicate OwningPerm(perm: Flags)
  {
    perm & PTE_RWX != 0 && perm & PTE_S == 0
  }

  /** A leaf that maps a frame with an owning permission is valid, owns the
      frame and carries no PTE_S. */
  lemma OwningLeaf(p: nat, perm: Flags)
    requires OwningPerm(perm) && p % PGSIZE == 0
    ensures IsValid(MakePte(p, perm | PTE_V)) && Owning(MakePte(p, perm | PTE_V))
    ensures Pte2Pa(MakePte(p, perm | PTE_V)) == p
  {
    MakePteFields(p, perm | PTE_V);
    assert (perm | PTE_V) & PTE_V != 0;
    assert (perm | PTE_V) & PTE_S == 0;
  }

  /** The frame a valid leaf of a root maps is a data page in use, neither
      a page table nor free, and the leaf has R, W or X. */
  lemma LeafTarget(f: Frames, fl: seq<nat>, o: Owners, r: nat, va: nat)
    requires Inv(f, fl, o) && IsRoot(o, r) && Mapped(f, r, va)
    ensures Aliasable(f, fl, o, Pte2Pa(Leaf(f, r, va)))
    ensures PteFlags(Leaf(f, r, va)) & PTE_RWX != 0
  {
    LeafSlotOwned(f, fl, o, r, va);
    var s := LeafSlot(f, r, va).value;
    assert OwnerOk(f, o, s.table) && SlotOk(f, o, s.table, s.index);
    assert AliasOk(f, fl, o, s.table, s.index);
    var w := Entry(f, s.table, s.index);
    if !Has(w, PTE_S) {
      var p := Pte2Pa(w);
      assert OwnerOk(f, o, p);
      forall k | 0 <= k < |fl| ensures fl[k] != p {
        assert fl[k] !in o;
      }
    }
  }

  /** A frame that page a of a root maps is not free. */
  lemma MappedInUse(f: Frames, fl: seq<nat>, o: Owners, pt: nat, a: nat, mem: nat, perm: Flags)
    requires Inv(f, fl, o) && IsRoot(o, pt) && a < MAXVA && mem % PGSIZE == 0
    requires Leaf(f, pt, a) == MakePte(mem, perm | PTE_V)
    ensures mem !in FreeSet(fl)
  {
    MakePteFields(mem, perm | PTE_V);
    assert (perm | PTE_V) & PTE_V != 0;
    LeafTarget(f, fl, o, pt, a);
  }

  /** mappages(pagetable, a, PGSIZE, mem, perm) on a frame fresh from
      kalloc, and kfree(mem) when it fails: the body of uvmalloc's and
      uvmcopy's loops after the frame is filled. Ret(false) is mappages
      failing, with the frame back on the free list and no leaf changed.
      Otherwise page a maps mem; the frame is owned by its leaf unless perm
      has PTE_S, and is then in nobody's custody. */
  method MapFresh(m: Machine, pagetable: nat, a: nat, mem: nat, perm: Flags) returns (r: Res<bool>)
    requires m.Valid() && IsRoot(m.owner, pagetable) && a % PGSIZE == 0 && perm & PTE_RWX != 0
    requires Ownable(m.frames, m.freeList, m.owner, mem)
    requires !SharedTarget(m.frames, m.owner, mem)
    modifies m
    ensures r.Panic? ==> a >= MAXVA || Mapped(old(m.frames), pagetable, a)
    ensures r.Ret? ==> m.Valid() && Kept(old(m.frames), old(m.freeList) + [mem], old(m.owner), m.frames, m.freeList, m.owner)
    ensures r.Ret? ==> (Accounted(m.freeList, m.owner) ==
      Accounted(old(m.freeList), old(m.owner)) + (if r == Ret(true) && perm & PTE_S != 0 then {} else {mem}))
    ensures r.Ret? ==> forall p :: (p != mem || r == Ret(false) || perm & PTE_S == 0) ==>
      !SharedTarget(old(m.frames), old(m.owner), p) ==> !SharedTarget(m.frames, m.owner, p)
    ensures r == Ret(false) ==> |old(m.freeList)| < 2
    ensures r == Ret(false) ==> forall q: nat, v: nat :: IsRoot(old(m.owner), q) && v < MAXVA ==>
      Leaf(m.frames, q, v) == Leaf(old(m.frames), q, v)
    ensures r == Ret(true) ==> a < MAXVA && !Mapped(old(m.frames), pagetable, a) && |m.freeList| + 2 >= |old(m.freeList)|
    ensures r == Ret(true) ==> !IsTable(m.owner, mem) && mem in m.frames && m.frames[mem] == old(m.frames)[mem]
    ensures r == Ret(true) ==> mem !in FreeSet(m.freeList) && (mem in m.owner <==> perm & PTE_S == 0)
    ensures r == Ret(true) ==> LeafSet(old(m.frames), old(m.owner), m.frames, pagetable, a / PGSIZE, MakePte(mem, perm | PTE_V))
  {
    ghost var f1, fl1, o1 := m.frames, m.freeList, m.owner;
    var res, done := MapPage(m, pagetable, a, mem, perm);
    if res.Panic? {
      return Panic(res.msg);
    }
    hide Kept, MappedRun, Accounted, Ownable, WereUnmapped, Run, FreeSet, SharedTarget, Leaf, Mapped, LeafSet;
    if res.value < 0 {
      MapOneFailed(f1, fl1, o1, m.frames, m.freeList, m.owner, pagetable, a, mem, perm, done);
      m.Kfree(mem);
      return Ret(false);
    }
    OneMapped(f1, fl1, o1, m.frames, m.freeList, m.owner, pagetable, a, mem, perm, done);
    MappedInUse(m.frames, m.freeList, m.owner, pagetable, a, mem, perm);
    return Ret(true);
  }

  /** mappages for the single page at a, onto frame mem: Ret(0) when it
      mapped the page, Ret(-1) when the free list ran dry first. */
  method MapPage(m: Machine, pagetable: nat, a: nat, mem: nat, perm: Flags) returns (r: Res<int>, ghost done: nat)
    requires m.Valid() && IsRoot(m.owner, pagetable) && a % PGSIZE == 0 && perm & PTE_RWX != 0
    requires Ownable(m.frames, m.freeList, m.owner, mem)
    requires !SharedTarget(m.frames, m.owner, mem)
    modifies m
    ensures r.Panic? ==> a >= MAXVA || Mapped(old(m.frames), pagetable, a)
    ensures r.Ret? ==> m.Valid() && ((r.value == 0 && done == 1) || (r.value == -1 && done == 0 && m.freeList == []))
    ensures r.Ret? && |old(m.freeList)| >= 2 ==> r.value == 0
    ensures r.Ret? ==> MappedOne(old(m.frames), old(m.freeList), old(m.owner), m.frames, m.freeList, m.owner,
                                 pagetable, a, mem, perm, done)
  {
    assert PageAt(mem, 0) == mem && PgRoundDown(a) == a && NPages(a, PGSIZE) == 1;
    r, done := MapPages(m, pagetable, a, PGSIZE, mem, perm);
  }

  /** mappages' promise for the one page of a round, to frame mem. */
  ghost predicate MappedOne(f1: Frames, fl1: seq<nat>, o1: Owners, f2: Frames, fl2: seq<nat>, o2: Owners,
                            pt: nat, a: nat, mem: nat, perm: Flags, done: nat)
  {
    && Inv(f1, fl1, o1) && Inv(f2, fl2, o2) && IsRoot(o1, pt) && a % PGSIZE == 0 && perm & PTE_RWX != 0
    && Ownable(f1, fl1, o1, mem) && !SharedTarget(f1, o1, mem)
    && done <= 1 && (done == 1 ==> |fl2| + 2 >= |fl1|)
    && Kept(f1, fl1, o1, f2, fl2, o2)
    && MappedRun(f1, o1, f2, pt, a / PGSIZE, done, mem, perm)
    && WereUnmapped(f1, pt, a, done)
    && Accounted(fl2, o2) == Accounted(fl1, o1) + (if perm & PTE_S == 0 then Run(mem, done) else {})
  }

  /** A round whose mappages found no memory, before its kfree(mem). */
  lemma MapOneFailed(f1: Frames, fl1: seq<nat>, o1: Owners, f2: Frames, fl2: seq<nat>, o2: Owners,
                       pt: nat, a: nat, mem: nat, perm: Flags, done: nat)
    requires MappedOne(f1, fl1, o1, f2, fl2, o2, pt, a, mem, perm, done) && done == 0 && fl2 == []
    ensures mem in f2 && mem !in o2 && Inv(f2, [mem] + fl2, o2)
    ensures Kept(f1, fl1 + [mem], o1, f2, [mem] + fl2, o2)
    ensures Accounted([mem] + fl2, o2) == Accounted(fl1, o1) + {mem}
    ensures forall p :: !SharedTarget(f1, o1, p) ==> !SharedTarget(f2, o2, p)
    ensures forall q: nat, v: nat :: IsRoot(o1, q) && v < MAXVA ==> Leaf(f2, q, v) == Leaf(f1, q, v)
  {
    assert Run(mem, 0) == {};
    forall p | !SharedTarget(f1, o1, p) ensures !SharedTarget(f2, o2, p) {
      NoNewAlias(f1, fl1, o1, f2, fl2, o2, p);
    }
    FreeUnowned(f2, fl2, o2, mem);
    FreeSetAppend(fl1, [mem]);
    assert FreeSet([mem]) == {mem} by { assert [mem][0] == mem; }
  }

  /** A mapped run of one page sets that page's leaf, and only it. */
  lemma RunOfOne(f1: Frames, o1: Owners, f2: Frames, pt: nat, p0: nat, pa: nat, perm: Flags)
    requires MappedRun(f1, o1, f2, pt, p0, 1, pa, perm)
    ensures LeafSet(f1, o1, f2, pt, p0, MakePte(pa, perm | PTE_V))
    ensures !Has(MakePte(pa, perm | PTE_V), PTE_S) ==>
      forall q: nat, v: nat :: IsRoot(o1, q) && v < MAXVA && Has(Leaf(f2, q, v), PTE_S) ==> Leaf(f2, q, v) == Leaf(f1, q, v)
  {
    forall q: nat, v: nat | IsRoot(o1, q) && v < MAXVA
      ensures Leaf(f2, q, v) == if q == pt && v / PGSIZE == p0 then MakePte(pa, perm | PTE_V) else Leaf(f1, q, v)
    {
      if q == pt && v / PGSIZE == p0 {
        assert pa + (v / PGSIZE - p0) * PGSIZE == pa;
      }
    }
  }

  /** A round whose mappages mapped page a to mem: the frame is owned by
      its leaf unless perm has PTE_S, and only a PTE_S leaf makes it the
      target of a new alias. */
  lemma OneMapped(f1: Frames, fl1: seq<nat>, o1: Owners, f2: Frames, fl2: seq<nat>, o2: Owners,
                  pt: nat, a: nat, mem: nat, perm: Flags, done: nat)
    requires MappedOne(f1, fl1, o1, f2, fl2, o2, pt, a, mem, perm, done) && done == 1
    ensures Kept(f1, fl1 + [mem], o1, f2, fl2, o2)
    ensures Accounted(fl2, o2) == Accounted(fl1, o1) + (if perm & PTE_S == 0 then {mem} else {})
    ensures forall p :: p != mem && !SharedTarget(f1, o1, p) ==> !SharedTarget(f2, o2, p)
    ensures a < MAXVA && !Mapped(f1, pt, a)
    ensures !IsTable(o2, mem) && mem in f2 && f2[mem] == f1[mem]
    ensures mem in o2 <==> perm & PTE_S == 0
    ensures perm & PTE_S == 0 ==> !SharedTarget(f2, o2, mem)
    ensures LeafSet(f1, o1, f2, pt, a / PGSIZE, MakePte(mem, perm | PTE_V))
  {
    assert Run(mem, 1) == {mem} by { assert PageAt(mem, 0) == mem; }
    assert PageAt(a, 0) == a;
    var w := MakePte(mem, perm | PTE_V);
    MakePteFields(mem, perm | PTE_V);
    assert Has(w, PTE_S) <==> perm & PTE_S != 0;
    RunOfOne(f1, o1, f2, pt, a / PGSIZE, mem, perm);
    OneMappedAliases(f1, fl1, o1, f2, fl2, o2, pt, a / PGSIZE, mem, perm);
    FreeSetAppend(fl1, [mem]);
    assert FreeSet([mem]) == {mem} by { assert [mem][0] == mem; }
    if perm & PTE_S == 0 {
      assert mem in Accounted(fl2, o2);
    } else {
      assert mem !in Accounted(fl1, o1);
    }
  }

  /** The aliases after mapping one page to mem with perm | PTE_V. */
  lemma OneMappedAliases(f1: Frames, fl1: seq<nat>, o1: Owners, f2: Frames, fl2: seq<nat>, o2: Owners,
                         pt: nat, page: nat, mem: nat, perm: Flags)
    requires Inv(f1, fl1, o1) && Inv(f2, fl2, o2) && !SharedTarget(f1, o1, mem) && mem % PGSIZE == 0
    requires forall q :: IsRoot(o2, q) <==> IsRoot(o1, q)
    requires LeafSet(f1, o1, f2, pt, page, MakePte(mem, perm | PTE_V))
    ensures forall p :: p != mem && !SharedTarget(f1, o1, p) ==> !SharedTarget(f2, o2, p)
    ensures perm & PTE_S == 0 ==> !SharedTarget(f2, o2, mem)
  {
    var w := MakePte(mem, perm | PTE_V);
    MakePteFields(mem, perm | PTE_V);
    assert Has(w, PTE_S) <==> perm & PTE_S != 0;
    forall p | !SharedTarget(f1, o1, p) && (p != mem || perm & PTE_S == 0) ensures !SharedTarget(f2, o2, p) {
      if perm & PTE_S == 0 {
        forall q: nat, v: nat | IsRoot(o2, q) && v < MAXVA && IsValid(Leaf(f2, q, v)) && Has(Leaf(f2, q, v), PTE_S)
          ensures Leaf(f2, q, v) == Leaf(f1, q, v)
        {
          assert IsRoot(o1, q);
        }
        NoNewAlias(f1, fl1, o1, f2, fl2, o2, p);
      } else {
        AliasOnlyTo(f1, fl1, o1, f2, fl2, o2, pt, page, w, p);
      }
    }
  }

  /** A step that changes one leaf of one root to w, and keeps the roots,
      makes no frame but w's the target of a new alias. */
  lemma AliasOnlyTo(f1: Frames, fl1: seq<nat>, o1: Owners, f2: Frames, fl2: seq<nat>, o2: Owners,
                    pt: nat, page: nat, w: Word, p: nat)
    requires Inv(f1, fl1, o1) && Inv(f2, fl2, o2)
    requires forall q :: IsRoot(o2, q) <==> IsRoot(o1, q)
    requires LeafSet(f1, o1, f2, pt, page, w)
    requires !SharedTarget(f1, o1, p) && p != Pte2Pa(w)
    ensures !SharedTarget(f2, o2, p)
  {
    SharedIsLeaf(f1, fl1, o1, p);
    SharedIsLeaf(f2, fl2, o2, p);
    forall q: nat, va: nat | IsRoot(o2, q) && va < MAXVA
      ensures !(IsValid(Leaf(f2, q, va)) && Has(Leaf(f2, q, va), PTE_S) && Pte2Pa(Leaf(f2, q, va)) == p)
    {
      assert IsRoot(o1, q);
    }
  }


  /** From state 0 to state 1 every owned frame kept its owner, the roots
      are the same, frames only left the free list, and no frame changed
      except page tables and those in ex. */
  ghost predicate Grew(f0: Frames, fl0: seq<nat>, o0: Owners, f1: Frames, fl1: seq<nat>, o1: Owners, ex: set<nat>)
  {
    && f1.Keys == f0.Keys
    && (forall f :: f in o0 ==> f in o1 && o1[f] == o0[f])
    && (forall q :: IsRoot(o1, q) <==> IsRoot(o0, q))
    && (forall f :: f in f0 && !IsTable(o1, f) && f !in ex ==> f1[f] == f0[f])
    && FreeSet(fl1) <= FreeSet(fl0)
  }

  /** One round of uvmalloc's loop: kalloc a frame, zero it and map page a
      to it with perm | PTE_V. Ret(false) is kalloc or mappages failing, with
      the frame (if any) freed again and no leaf changed. */
  method GrowOne(m: Machine, pagetable: nat, a: nat, perm: Flags) returns (r: Res<bool>, ghost mem: nat)
    requires m.Valid() && IsRoot(m.owner, pagetable) && a % PGSIZE == 0 && OwningPerm(perm)
    modifies m
    ensures r.Panic? ==> a >= MAXVA || Mapped(old(m.frames), pagetable, a)
    ensures r.Ret? ==> m.Valid() && Grew(old(m.frames), old(m.freeList), old(m.owner), m.frames, m.freeList, m.owner, {mem})
    ensures r.Ret? ==> Accounted(m.freeList, m.owner) == Accounted(old(m.freeList), old(m.owner))
    ensures r.Ret? ==> forall p :: !SharedTarget(old(m.frames), old(m.owner), p) ==> !SharedTarget(m.frames, m.owner, p)
    ensures r == Ret(false) ==> |old(m.freeList)| < 3
    ensures r == Ret(false) ==> forall q: nat, v: nat :: IsRoot(old(m.owner), q) && v < MAXVA ==>
      Leaf(m.frames, q, v) == Leaf(old(m.frames), q, v)
    ensures r == Ret(true) ==> a < MAXVA && !Mapped(old(m.frames), pagetable, a) && |m.freeList| + 3 >= |old(m.freeList)|
    ensures r == Ret(true) ==> mem in FreeSet(old(m.freeList)) && mem !in FreeSet(m.freeList)
    ensures r == Ret(true) ==> mem in m.owner && !IsTable(m.owner, mem) && m.frames[mem] == ZeroPage()
    ensures r == Ret(true) ==> !SharedTarget(m.frames, m.owner, mem)
    ensures r == Ret(true) ==> LeafSet(old(m.frames), old(m.owner), m.frames, pagetable, a / PGSIZE, MakePte(mem, perm | PTE_V))
  {
    ghost var f0, fl0, o0 := m.frames, m.freeList, m.owner;
    var p := m.Kalloc();
    mem := p;
    if p == 0 {
      return Ret(false), mem;
    }
    PopFree(f0, fl0, o0);
    m.WritePage(p, ZeroPage());
    r := MapFresh(m, pagetable, a, p, perm);
    if r.Ret? {
      assert FreeSet(m.freeList) <= FreeSet(fl0);
    }
  }

  /** The pages uvmalloc(pagetable, oldsz, newsz, permflag) adds: its loop
      runs from PGROUNDUP(oldsz) while below newsz. */
  function AllocPages(oldsz: nat, newsz: nat): (n: nat)
    ensures forall k: nat :: PageAt(PgRoundUp(oldsz), k) < newsz <==> k < n
  {
    var a0 := PgRoundUp(oldsz);
    var n := if a0 < newsz then (PgRoundUp(newsz) - a0) / PGSIZE else 0;
    AllocPagesBelow(oldsz, newsz, n);
    n
  }

  lemma AllocPagesBelow(oldsz: nat, newsz: nat, n: nat)
    requires n == if PgRoundUp(oldsz) < newsz then (PgRoundUp(newsz) - PgRoundUp(oldsz)) / PGSIZE else 0
    ensures forall k: nat :: PageAt(PgRoundUp(oldsz), k) < newsz <==> k < n
  {
    var a0, a1 := PgRoundUp(oldsz), PgRoundUp(newsz);
    forall k: nat ensures PageAt(a0, k) < newsz <==> k < n {
      PageAtAligned(a0, k);
      if a0 < newsz {
        assert a1 - a0 == (a1 / PGSIZE - a0 / PGSIZE) * PGSIZE;
        assert a0 + n * PGSIZE == a1;
        PageAtBelow(a0, k, n);
        assert PageAt(a0, k) < newsz <==> PageAt(a0, k) < a1 by {
          assert PageAt(a0, k) == (a0 / PGSIZE + k) * PGSIZE;
          assert a1 == (a1 / PGSIZE) * PGSIZE;
        }
      }
    }
  }

  /** uvmdealloc(pagetable, a, oldsz) after uvmalloc's loop mapped k pages
      from PGROUNDUP(oldsz) removes exactly those k pages. */
  lemma DeallocAfterAlloc(oldsz: nat, k: nat)
    ensures DeallocPages(PageAt(PgRoundUp(oldsz), k), oldsz) == k
  {
    var a0 := PgRoundUp(oldsz);
    var a := PageAt(a0, k);
    PageAtAligned(a0, k);
    assert PgRoundUp(a) == a by {
      assert a == (a / PGSIZE) * PGSIZE;
    }
  }

  /** From memory f0 to f1 pages p0 .. p0 + |mems| - 1 of root pt were
      mapped, page p0 + k to frame mems[k] with perm | PTE_V, and no other
      leaf of any root below MAXVA changed. */
  ghost predicate GrownRun(f0: Frames, o0: Owners, f1: Frames, pt: nat, p0: nat, mems: seq<nat>, perm: Flags)
  {
    forall q: nat, v: nat :: IsRoot(o0, q) && v < MAXVA ==>
      Leaf(f1, q, v) ==
        if q == pt && p0 <= v / PGSIZE < p0 + |mems| then MakePte(mems[v / PGSIZE - p0], perm | PTE_V)
        else Leaf(f0, q, v)
  }

  /** The frames uvmalloc mapped are distinct, came off the free list of
      state 0, are zeroed, owned by their leaves and aliased by no PTE_S
      leaf. */
  ghost predicate FreshFrames(fl0: seq<nat>, f: Frames, fl: seq<nat>, o: Owners, mems: seq<nat>)
  {
    && (forall j, k :: 0 <= j < k < |mems| ==> mems[j] != mems[k])
    && (forall k :: 0 <= k < |mems| ==>
          && mems[k] in FreeSet(fl0) && mems[k] !in FreeSet(fl)
          && mems[k] in o && !IsTable(o, mems[k])
          && mems[k] in f && f[mems[k]] == ZeroPage()
          && !SharedTarget(f, o, mems[k]))
  }

  /** What uvmalloc's loop has done, from state 0, once it mapped the pages
      from a0 to the frames mems. */
  ghost predicate AllocProgress(f0: Frames, fl0: seq<nat>, o0: Owners, f: Frames, fl: seq<nat>, o: Owners,
                                pt: nat, a0: nat, mems: seq<nat>, perm: Flags)
  {
    && Grew(f0, fl0, o0, f, fl, o, set p | p in mems)
    && Accounted(fl, o) == Accounted(fl0, o0)
    && (forall p :: !SharedTarget(f0, o0, p) ==> !SharedTarget(f, o, p))
    && GrownRun(f0, o0, f, pt, a0 / PGSIZE, mems, perm)
    && WereUnmapped(f0, pt, a0, |mems|)
    && FreshFrames(fl0, f, fl, o, mems)
  }

  lemma AllocStart(f: Frames, fl: seq<nat>, o: Owners, pt: nat, a0: nat, perm: Flags)
    ensures AllocProgress(f, fl, o, f, fl, o, pt, a0, [], perm)
  {
  }

  /** A round that mapped page a0 + |mems| to mem extends the progress. */
  lemma AllocAdvance(f0: Frames, fl0: seq<nat>, o0: Owners, f1: Frames, fl1: seq<nat>, o1: Owners,
                     f2: Frames, fl2: seq<nat>, o2: Owners, pt: nat, a0: nat, mems: seq<nat>, perm: Flags, mem: nat)
    requires a0 % PGSIZE == 0 && IsRoot(o0, pt)
    requires AllocProgress(f0, fl0, o0, f1, fl1, o1, pt, a0, mems, perm)
    requires Grew(f1, fl1, o1, f2, fl2, o2, {mem})
    requires Accounted(fl2, o2) == Accounted(fl1, o1)
    requires forall p :: !SharedTarget(f1, o1, p) ==> !SharedTarget(f2, o2, p)
    requires PageAt(a0, |mems|) < MAXVA && !Mapped(f1, pt, PageAt(a0, |mems|))
    requires mem in FreeSet(fl1) && mem !in FreeSet(fl2)
    requires mem in o2 && !IsTable(o2, mem) && mem in f2 && f2[mem] == ZeroPage()
    requires !SharedTarget(f2, o2, mem)
    requires LeafSet(f1, o1, f2, pt, PageAt(a0, |mems|) / PGSIZE, MakePte(mem, perm | PTE_V))
    ensures AllocProgress(f0, fl0, o0, f2, fl2, o2, pt, a0, mems + [mem], perm)
  {
    var a, mems' := PageAt(a0, |mems|), mems + [mem];
    PageAtAligned(a0, |mems|);
    AllocGrew(f0, fl0, o0, f1, fl1, o1, f2, fl2, o2, mems, mem);
    AllocRunExtend(f0, o0, f1, o1, f2, o2, pt, a0 / PGSIZE, mems, perm, mem);
    assert Leaf(f1, pt, a) == Leaf(f0, pt, a);
    assert WereUnmapped(f0, pt, a0, |mems'|) by {
      WereUnmappedStep(f0, pt, a0, |mems|);
    }
    AllocFreshExtend(fl0, f1, fl1, o1, f2, fl2, o2, mems, mem);
  }

  lemma AllocGrew(f0: Frames, fl0: seq<nat>, o0: Owners, f1: Frames, fl1: seq<nat>, o1: Owners,
                  f2: Frames, fl2: seq<nat>, o2: Owners, mems: seq<nat>, mem: nat)
    requires Grew(f0, fl0, o0, f1, fl1, o1, set p | p in mems)
    requires Grew(f1, fl1, o1, f2, fl2, o2, {mem})
    ensures Grew(f0, fl0, o0, f2, fl2, o2, set p | p in mems + [mem])
  {
    forall f | f in f0 && !IsTable(o2, f) && f !in (set p | p in mems + [mem]) ensures f2[f] == f0[f] {
      assert f !in (set p | p in mems) && f != mem;
      assert !IsTable(o1, f);
    }
  }

  lemma AllocRunExtend(f0: Frames, o0: Owners, f1: Frames, o1: Owners, f2: Frames, o2: Owners,
                       pt: nat, p0: nat, mems: seq<nat>, perm: Flags, mem: nat)
    requires GrownRun(f0, o0, f1, pt, p0, mems, perm)
    requires forall q :: IsRoot(o1, q) <==> IsRoot(o0, q)
    requires LeafSet(f1, o1, f2, pt, p0 + |mems|, MakePte(mem, perm | PTE_V))
    ensures GrownRun(f0, o0, f2, pt, p0, mems + [mem], perm)
  {
  }

  lemma AllocFreshExtend(fl0: seq<nat>, f1: Frames, fl1: seq<nat>, o1: Owners,
                         f2: Frames, fl2: seq<nat>, o2: Owners, mems: seq<nat>, mem: nat)
    requires FreshFrames(fl0, f1, fl1, o1, mems)
    requires FreeSet(fl1) <= FreeSet(fl0) && FreeSet(fl2) <= FreeSet(fl1)
    requires f2.Keys == f1.Keys && forall f :: f in o1 ==> f in o2 && o2[f] == o1[f]
    requires forall f :: f in f1 && !IsTable(o2, f) && f != mem ==> f2[f] == f1[f]
    requires forall p :: !SharedTarget(f1, o1, p) ==> !SharedTarget(f2, o2, p)
    requires mem in FreeSet(fl1) && mem !in FreeSet(fl2)
    requires mem in o2 && !IsTable(o2, mem) && mem in f2 && f2[mem] == ZeroPage()
    requires !SharedTarget(f2, o2, mem)
    ensures FreshFrames(fl0, f2, fl2, o2, mems + [mem])
  {
    var mems' := mems + [mem];
    forall k | 0 <= k < |mems| ensures mems[k] != mem && f2[mems[k]] == f1[mems[k]] && !IsTable(o2, mems[k]) {
      assert mems[k] !in FreeSet(fl1);
      assert o2[mems[k]] == o1[mems[k]];
    }
    forall j, k | 0 <= j < k < |mems'| ensures mems'[j] != mems'[k] {
      if k == |mems| {
        assert mems'[j] == mems[j];
      } else {
        assert mems'[j] == mems[j] && mems'[k] == mems[k];
      }
    }
    forall k | 0 <= k < |mems'|
      ensures && mems'[k] in FreeSet(fl0) && mems'[k] !in FreeSet(fl2)
              && mems'[k] in o2 && !IsTable(o2, mems'[k])
              && mems'[k] in f2 && f2[mems'[k]] == ZeroPage()
              && !SharedTarget(f2, o2, mems'[k])
    {
      if k < |mems| {
        assert mems'[k] == mems[k];
      }
    }
  }

  /** uvmalloc(pagetable, oldsz, newsz, permflag): grow the address space
      from oldsz to newsz bytes, mapping each new page from PGROUNDUP(oldsz)
      to a fresh zeroed frame with PTE_R | PTE_U | permflag. Returns newsz,
      or oldsz when newsz is smaller. When memory runs out it undoes the
      pages it mapped with uvmdealloc and returns 0. It panics (in
      mappages) on a page already mapped or at or above MAXVA. The ghost
      mems are the frames it mapped. */
  method UvmAlloc(m: Machine, pagetable: nat, oldsz: nat, newsz: nat, permflag: Flags)
    returns (r: Res<nat>, ghost mems: seq<nat>)
    requires m.Valid() && IsRoot(m.owner, pagetable) && permflag & PTE_S == 0
    modifies m
    ensures newsz < oldsz ==> r == Ret(oldsz) && unchanged(m)
    ensures r.Panic? ==> exists k :: 0 <= k < AllocPages(oldsz, newsz) &&
                          (PageAt(PgRoundUp(oldsz), k) >= MAXVA || Mapped(old(m.frames), pagetable, PageAt(PgRoundUp(oldsz), k)))
    ensures r.Ret? ==> m.Valid() && Accounted(m.freeList, m.owner) == Accounted(old(m.freeList), old(m.owner))
    ensures r.Ret? && newsz >= oldsz ==> r.value == newsz || (r.value == 0 && newsz > 0)
    ensures r.Ret? && newsz >= oldsz && 3 * AllocPages(oldsz, newsz) <= |old(m.freeList)| ==> r.value == newsz
    ensures r.Ret? && newsz >= oldsz && r.value == newsz ==>
      && |mems| == AllocPages(oldsz, newsz)
      && GrownRun(old(m.frames), old(m.owner), m.frames, pagetable, PgRoundUp(oldsz) / PGSIZE, mems, PTE_R | PTE_U | permflag)
      && WereUnmapped(old(m.frames), pagetable, PgRoundUp(oldsz), |mems|)
      && FreshFrames(old(m.freeList), m.frames, m.freeList, m.owner, mems)
      && (forall q :: IsRoot(m.owner, q) <==> IsRoot(old(m.owner), q))
    ensures r.Ret? && r.value != newsz && newsz >= oldsz ==> SameMappings(old(m.frames), old(m.owner), m.frames)
  {
    if newsz < oldsz {
      return Ret(oldsz), [];
    }
    var perm := PTE_R | PTE_U | permflag;
    assert OwningPerm(perm) by {
      assert perm & PTE_RWX != 0 && perm & PTE_S == 0;
    }
    var a := PgRoundUp(oldsz);
    ghost var a0, n := a, AllocPages(oldsz, newsz);
    mems := [];
    AllocStart(m.frames, m.freeList, m.owner, pagetable, a0, perm);
    while a < newsz
      invariant a == PageAt(a0, |mems|) && |mems| <= n
      invariant m.Valid() && IsRoot(m.owner, pagetable)
      invariant AllocProgress(old(m.frames), old(m.freeList), old(m.owner), m.frames, m.freeList, m.owner,
                              pagetable, a0, mems, perm)
      invariant |m.freeList| + 3 * |mems| >= |old(m.freeList)|
      decreases newsz - a
    {
      var g, mem := AllocRound(m, pagetable, a, perm, a0, mems, old(m.frames), old(m.freeList), old(m.owner));
      if g.Panic? {
        return Panic(g.msg), mems;
      }
      if !g.value {
        DeallocAfterAlloc(oldsz, |mems|);
        ghost var f2, fl2, o2 := m.frames, m.freeList, m.owner;
        var d := UvmDealloc(m, pagetable, a, oldsz);
        assert d.Ret?;
        AllocUndone(old(m.frames), old(m.freeList), old(m.owner), f2, fl2, o2,
                    m.frames, m.freeList, m.owner, pagetable, a0, mems, perm);
        return Ret(0), mems;
      }
      mems := mems + [mem];
      a := a + PGSIZE;
    }
    return Ret(newsz), mems;
  }

  /** One round of uvmalloc's loop, on page a0 + |mems| * PGSIZE, seen
      from the state 0 the loop started in. */
  method AllocRound(m: Machine, pagetable: nat, a: nat, perm: Flags, ghost a0: nat, ghost mems: seq<nat>,
                    ghost f0: Frames, ghost fl0: seq<nat>, ghost o0: Owners) returns (r: Res<bool>, ghost mem: nat)
    requires m.Valid() && IsRoot(o0, pagetable) && a0 % PGSIZE == 0 && a == PageAt(a0, |mems|) && OwningPerm(perm)
    requires AllocProgress(f0, fl0, o0, m.frames, m.freeList, m.owner, pagetable, a0, mems, perm)
    modifies m
    ensures r.Panic? ==> PageAt(a0, |mems|) >= MAXVA || Mapped(f0, pagetable, PageAt(a0, |mems|))
    ensures r.Ret? ==> m.Valid() && IsRoot(m.owner, pagetable)
    ensures r == Ret(false) ==> |old(m.freeList)| < 3 && Stalled(f0, fl0, o0, m.frames, m.freeList, m.owner, pagetable, a0, mems, perm)
    ensures r == Ret(true) ==> |m.freeList| + 3 >= |old(m.freeList)|
    ensures r == Ret(true) ==> AllocProgress(f0, fl0, o0, m.frames, m.freeList, m.owner, pagetable, a0, mems + [mem], perm)
  {
    ghost var f1, fl1, o1 := m.frames, m.freeList, m.owner;
    PageAtAligned(a0, |mems|);
    assert IsRoot(m.owner, pagetable);
    r, mem := GrowOne(m, pagetable, a, perm);
    if r.Panic? {
      AllocPanic(f0, o0, f1, pagetable, a0, mems, perm);
      return;
    }
    if !r.value {
      AllocStalled(f0, fl0, o0, f1, fl1, o1, m.frames, m.freeList, m.owner, pagetable, a0, mems, perm, mem);
      return;
    }
    AllocAdvance(f0, fl0, o0, f1, fl1, o1, m.frames, m.freeList, m.owner, pagetable, a0, mems, perm, mem);
  }

  /** After a round that ran out of memory, from state 0: the roots and the
      accounted frames are those of state 0, and pages a0 .. of root pt are
      still mapped to mems, ready to be unmapped and freed. */
  ghost predicate Stalled(f0: Frames, fl0: seq<nat>, o0: Owners, f: Frames, fl: seq<nat>, o: Owners,
                          pt: nat, a0: nat, mems: seq<nat>, perm: Flags)
  {
    && Accounted(fl, o) == Accounted(fl0, o0)
    && (forall q :: IsRoot(o, q) <==> IsRoot(o0, q))
    && GrownRun(f0, o0, f, pt, a0 / PGSIZE, mems, perm)
    && WereUnmapped(f0, pt, a0, |mems|)
    && (forall k :: 0 <= k < |mems| ==> mems[k] in o && Pte2Pa(Leaf(f, pt, PageAt(a0, k))) == mems[k])
    && FreeableRun(f, o, pt, a0, |mems|)
    && (forall k :: 0 <= k < |mems| ==> PageAt(a0, k) < MAXVA && Mapped(f, pt, PageAt(a0, k)))
  }

  /** Each page's mapping is as in f0, except that a page unmapped in f0
      may now hold a zero leaf. */
  ghost predicate SameMappings(f0: Frames, o0: Owners, f1: Frames)
  {
    forall q: nat, v: nat :: IsRoot(o0, q) && v < MAXVA ==>
      Leaf(f1, q, v) == Leaf(f0, q, v) || (!Mapped(f0, q, v) && Leaf(f1, q, v) == 0)
  }

  /** Two addresses on the same page have the same leaf. */
  lemma SamePageLeaf(f: Frames, pt: nat, va: nat, vb: nat)
    requires va / PGSIZE == vb / PGSIZE
    ensures Leaf(f, pt, va) == Leaf(f, pt, vb)
  {
    SamePageSamePath(va, vb);
  }

  /** A panicking round was on a page at or above MAXVA or mapped on entry. */
  lemma AllocPanic(f0: Frames, o0: Owners, f1: Frames, pt: nat, a0: nat, mems: seq<nat>, perm: Flags)
    requires a0 % PGSIZE == 0 && IsRoot(o0, pt)
    requires GrownRun(f0, o0, f1, pt, a0 / PGSIZE, mems, perm)
    ensures PageAt(a0, |mems|) < MAXVA ==> Leaf(f1, pt, PageAt(a0, |mems|)) == Leaf(f0, pt, PageAt(a0, |mems|))
  {
    PageAtAligned(a0, |mems|);
  }

  /** After a round that ran out of memory, the pages mapped so far are
      still mapped to mems, and may be unmapped and freed. */
  lemma AllocStalled(f0: Frames, fl0: seq<nat>, o0: Owners, f1: Frames, fl1: seq<nat>, o1: Owners,
                     f2: Frames, fl2: seq<nat>, o2: Owners, pt: nat, a0: nat, mems: seq<nat>, perm: Flags, mem: nat)
    requires a0 % PGSIZE == 0 && IsRoot(o0, pt) && OwningPerm(perm) && Inv(f2, fl2, o2)
    requires AllocProgress(f0, fl0, o0, f1, fl1, o1, pt, a0, mems, perm)
    requires Grew(f1, fl1, o1, f2, fl2, o2, {mem})
    requires Accounted(fl2, o2) == Accounted(fl1, o1)
    requires forall p :: !SharedTarget(f1, o1, p) ==> !SharedTarget(f2, o2, p)
    requires forall q: nat, v: nat :: IsRoot(o1, q) && v < MAXVA ==> Leaf(f2, q, v) == Leaf(f1, q, v)
    ensures Stalled(f0, fl0, o0, f2, fl2, o2, pt, a0, mems, perm)
  {
    assert GrownRun(f0, o0, f2, pt, a0 / PGSIZE, mems, perm) by {
      assert forall q :: IsRoot(o0, q) ==> IsRoot(o1, q);
    }
    assert forall k :: 0 <= k < |mems| ==> mems[k] in o2 && mems[k] % PGSIZE == 0 && !SharedTarget(f2, o2, mems[k]);
    hide AllocProgress, Grew, Accounted, FreshFrames, SharedTarget, Inv;
    StalledLeaves(f0, o0, f2, o2, pt, a0, mems, perm);
  }

  /** The leaves of a grown run map its frames: each is mapped, below
      MAXVA and owns its frame. */
  lemma StalledLeaves(f0: Frames, o0: Owners, f2: Frames, o2: Owners, pt: nat, a0: nat, mems: seq<nat>, perm: Flags)
    requires a0 % PGSIZE == 0 && IsRoot(o0, pt) && OwningPerm(perm)
    requires GrownRun(f0, o0, f2, pt, a0 / PGSIZE, mems, perm) && WereUnmapped(f0, pt, a0, |mems|)
    requires forall k :: 0 <= k < |mems| ==> mems[k] in o2 && mems[k] % PGSIZE == 0 && !SharedTarget(f2, o2, mems[k])
    ensures forall k :: 0 <= k < |mems| ==> mems[k] in o2 && Pte2Pa(Leaf(f2, pt, PageAt(a0, k))) == mems[k]
    ensures FreeableRun(f2, o2, pt, a0, |mems|)
    ensures forall k :: 0 <= k < |mems| ==> PageAt(a0, k) < MAXVA && Mapped(f2, pt, PageAt(a0, k))
  {
    forall k | 0 <= k < |mems|
      ensures PageAt(a0, k) < MAXVA && Leaf(f2, pt, PageAt(a0, k)) == MakePte(mems[k], perm | PTE_V)
    {
      PageAtAligned(a0, k);
      assert PageAt(a0, k) / PGSIZE - a0 / PGSIZE == k;
    }
    forall k | 0 <= k < |mems|
      ensures Mapped(f2, pt, PageAt(a0, k)) && Owning(Leaf(f2, pt, PageAt(a0, k)))
      ensures Pte2Pa(Leaf(f2, pt, PageAt(a0, k))) == mems[k]
    {
      OwningLeaf(mems[k], perm);
    }
  }


  /** The pages a failed uvmalloc mapped, unmapped and freed again by
      uvmdealloc: every mapping is back and no frame is lost. */
  lemma AllocUndone(f0: Frames, fl0: seq<nat>, o0: Owners, f2: Frames, fl2: seq<nat>, o2: Owners,
                    f3: Frames, fl3: seq<nat>, o3: Owners, pt: nat, a0: nat, mems: seq<nat>, perm: Flags)
    requires a0 % PGSIZE == 0 && IsRoot(o0, pt)
    requires Stalled(f0, fl0, o0, f2, fl2, o2, pt, a0, mems, perm)
    requires Unmapped(f2, fl2, o2, f3, fl3, o3, pt, a0, |mems|)
    ensures Accounted(fl3, o3) == Accounted(fl0, o0)
    ensures SameMappings(f0, o0, f3)
  {
    var fs := Freed(f2, pt, a0, |mems|);
    forall p | p in FreeSet(fs) ensures p in o2 {
      var i :| 0 <= i < |fs| && fs[i] == p;
      assert p in fs;
    }
    UndoneAccounted(fs, fl2, o2, fl3, o3);
    UndoneMappings(f0, o0, f2, o2, f3, pt, a0, mems, perm);
  }

  /** Freeing owned frames keeps the accounted set. */
  lemma UndoneAccounted(fs: seq<nat>, fl2: seq<nat>, o2: Owners, fl3: seq<nat>, o3: Owners)
    requires FreeSet(fs) <= o2.Keys
    requires fl3 == fs + fl2 && o3 == o2 - FreeSet(fs)
    ensures Accounted(fl3, o3) == Accounted(fl2, o2)
  {
    FreeSetAppend(fs, fl2);
  }

  /** Clearing the run that was grown leaves each mapping as it was, or
      zero where there was none. */
  lemma UndoneMappings(f0: Frames, o0: Owners, f2: Frames, o2: Owners, f3: Frames, pt: nat, a0: nat, mems: seq<nat>, perm: Flags)
    requires a0 % PGSIZE == 0 && IsRoot(o0, pt)
    requires forall q :: IsRoot(o2, q) <==> IsRoot(o0, q)
    requires GrownRun(f0, o0, f2, pt, a0 / PGSIZE, mems, perm)
    requires WereUnmapped(f0, pt, a0, |mems|)
    requires ClearedRun(f2, o2, f3, pt, a0 / PGSIZE, |mems|)
    ensures SameMappings(f0, o0, f3)
  {
    forall q: nat, v: nat | IsRoot(o0, q) && v < MAXVA
      ensures Leaf(f3, q, v) == Leaf(f0, q, v) || (!Mapped(f0, q, v) && Leaf(f3, q, v) == 0)
    {
      assert IsRoot(o2, q);
      if q == pt && a0 / PGSIZE <= v / PGSIZE < a0 / PGSIZE + |mems| {
        var k := v / PGSIZE - a0 / PGSIZE;
        PageAtAligned(a0, k);
        SamePageLeaf(f0, pt, v, PageAt(a0, k));
      }
    }
  }


  // ---------------------------------------------------------------------
  // Clearing PTE_U: uvmclear (and unmap_shared_pages in Shared).

  /** Clearing PTE_U keeps the validity, PTE_S, R/W/X and the frame of an
      entry. */
  lemma ClearUserFields(w: Word)
    ensures Pte2Pa(ClearBits(w, PTE_U)) == Pte2Pa(w)
    ensures IsValid(ClearBits(w, PTE_U)) == IsValid(w)
    ensures Has(ClearBits(w, PTE_S), PTE_S) == false
    ensures Has(ClearBits(w, PTE_U), PTE_S) == Has(w, PTE_S)
    ensures Has(ClearBits(w, PTE_U), PTE_RWX) == Has(w, PTE_RWX)
    ensures !Has(ClearBits(w, PTE_U), PTE_U)
    ensures Owning(ClearBits(w, PTE_U)) == Owning(w)
  {
    ClearBitsFields(w, PTE_U);
    ClearBitsFields(w, PTE_S);
    var x := PteFlags(w);
    assert (x & !PTE_U) & PTE_V == x & PTE_V;
    assert (x & !PTE_U) & PTE_S == x & PTE_S;
    assert (x & !PTE_U) & PTE_RWX == x & PTE_RWX;
    assert (x & !PTE_U) & PTE_U == 0;
    assert (x & !PTE_S) & PTE_S == 0;
  }

  /** `*pte &= ~PTE_U` on the slot s that walk found for page va of root
      pagetable: the page's leaf loses PTE_U, nothing else changes. */
  method ClearUser(m: Machine, pagetable: nat, va: nat, s: Slot)
    requires m.Valid() && IsRoot(m.owner, pagetable) && va < MAXVA
    requires LeafSlot(m.frames, pagetable, va) == Some(s)
    modifies m`frames, m`owner
    ensures m.Valid() && m.owner == old(m.owner) && m.freeList == old(m.freeList)
    ensures m.frames.Keys == old(m.frames).Keys
    ensures forall f :: f in old(m.frames) && !IsTable(m.owner, f) ==> m.frames[f] == old(m.frames)[f]
    ensures LeafSet(old(m.frames), old(m.owner), m.frames, pagetable, va / PGSIZE,
                    ClearBits(Leaf(old(m.frames), pagetable, va), PTE_U))
  {
    ghost var f0, o0 := m.frames, m.owner;
    LeafSlotOwned(f0, m.freeList, o0, pagetable, va);
    assert OwnerOk(f0, o0, s.table);
    var pte := m.frames[s.table].ptes[s.index];
    var w := ClearBits(pte, PTE_U);
    ClearUserFields(pte);
    assert SlotOk(f0, o0, s.table, s.index);
    assert AliasOk(f0, m.freeList, o0, s.table, s.index);
    if Owning(pte) {
      assert OwnerOk(f0, o0, Pte2Pa(pte));
    }
    Store(m, s, w);
    assert m.owner == o0 by {
      if Owning(pte) {
        assert o0[Pte2Pa(pte)] == LeafOf(s.table, s.index);
      }
    }
    forall q: nat, v: nat | IsRoot(o0, q) && v < MAXVA
      ensures Leaf(m.frames, q, v) == if q == pagetable && v / PGSIZE == va / PGSIZE then w else Leaf(f0, q, v)
    {
      SlotForPage(f0, m.freeList, o0, pagetable, va, q, v);
    }
  }

  /** uvmclear(pagetable, va): clear PTE_U in va's leaf so user code cannot
      reach the page. Panics when walk finds no leaf slot (or, through walk,
      at or above MAXVA); the leaf need not be valid. */
  method UvmClear(m: Machine, pagetable: nat, va: nat) returns (r: Res<()>)
    requires m.Valid() && IsRoot(m.owner, pagetable)
    modifies m
    ensures r.Panic? <==> va >= MAXVA || LeafSlot(old(m.frames), pagetable, va).None?
    ensures r.Panic? ==> unchanged(m)
    ensures r.Ret? ==> m.Valid() && m.owner == old(m.owner) && m.freeList == old(m.freeList)
    ensures r.Ret? ==> LeafSet(old(m.frames), old(m.owner), m.frames, pagetable, va / PGSIZE,
                               ClearBits(Leaf(old(m.frames), pagetable, va), PTE_U))
  {
    var w := Walk(m, pagetable, va, false);
    if w.Panic? {
      return Panic(w.msg);
    }
    if w.value.None? {
      return Panic("uvmclear");
    }
    ClearUser(m, pagetable, va, w.value.value);
    return Ret(());
  }

  /** Clearing PTE_U is the whole of uvmclear's effect on a mapping: the
      page stays mapped to the same frame with the same other flags, and
      walkaddr no longer translates it. */
  lemma ClearedUserMapping(f0: Frames, o0: Owners, f1: Frames, pt: nat, va: nat)
    requires IsRoot(o0, pt) && va < MAXVA
    requires LeafSet(f0, o0, f1, pt, va / PGSIZE, ClearBits(Leaf(f0, pt, va), PTE_U))
    ensures Mapped(f1, pt, va) == Mapped(f0, pt, va)
    ensures Pte2Pa(Leaf(f1, pt, va)) == Pte2Pa(Leaf(f0, pt, va))
    ensures PteFlags(Leaf(f1, pt, va)) == PteFlags(Leaf(f0, pt, va)) & !PTE_U
    ensures WalkAddr(f1, pt, va) == 0
  {
    ClearUserFields(Leaf(f0, pt, va));
    ClearBitsFields(Leaf(f0, pt, va), PTE_U);
  }

  // ---------------------------------------------------------------------
  // uvmdealloc.

  /** The pages uvmdealloc(pagetable, oldsz, newsz) removes: those from
      PGROUNDUP(newsz) up to PGROUNDUP(oldsz). */
  function DeallocPages(oldsz: nat, newsz: nat): (n: nat)
    ensures n > 0 ==> newsz < oldsz && PgRoundUp(newsz) + n * PGSIZE == PgRoundUp(oldsz)
  {
    if newsz < oldsz && PgRoundUp(newsz) < PgRoundUp(oldsz) then (PgRoundUp(oldsz) - PgRoundUp(newsz)) / PGSIZE else 0
  }

  /** From state 0, uvmunmap with do_free cleared the n pages from p0 of
      root pt: their leaves are 0, the frames those leaves owned went on
      the free list (last page first) and lost their owners, the roots and
      tables are the same and no frame but a table changed. */
  ghost predicate Unmapped(f0: Frames, fl0: seq<nat>, o0: Owners, f: Frames, fl: seq<nat>, o: Owners,
                           pt: nat, p0: nat, n: nat)
  {
    && ClearedRun(f0, o0, f, pt, p0 / PGSIZE, n)
    && fl == Freed(f0, pt, p0, n) + fl0
    && o == o0 - FreeSet(Freed(f0, pt, p0, n))
    && (forall q :: IsRoot(o, q) <==> IsRoot(o0, q))
    && (forall t :: IsTable(o, t) <==> IsTable(o0, t))
    && f.Keys == f0.Keys
    && (forall t :: t in f0 && !IsTable(o, t) ==> f[t] == f0[t])
  }

  lemma UnmappedNone(f: Frames, fl: seq<nat>, o: Owners, pt: nat, p0: nat)
    ensures Unmapped(f, fl, o, f, fl, o, pt, p0, 0)
  {
    assert Freed(f, pt, p0, 0) == [];
    assert FreeSet([]) == {};
    assert o - {} == o;
  }

  /** uvmdealloc(pagetable, oldsz, newsz): shrink the address space from
      oldsz to newsz bytes, unmapping and freeing the pages no longer
      covered, and return the new size; oldsz when newsz is not smaller.
      Panics (in uvmunmap) when one of those pages is not mapped. */
  method UvmDealloc(m: Machine, pagetable: nat, oldsz: nat, newsz: nat) returns (r: Res<nat>)
    requires m.Valid() && IsRoot(m.owner, pagetable)
    requires FreeableRun(m.frames, m.owner, pagetable, PgRoundUp(newsz), DeallocPages(oldsz, newsz))
    modifies m
    ensures newsz >= oldsz ==> r == Ret(oldsz) && unchanged(m)
    ensures r.Panic? <==>
      exists k :: 0 <= k < DeallocPages(oldsz, newsz) &&
        (PageAt(PgRoundUp(newsz), k) >= MAXVA || !Mapped(old(m.frames), pagetable, PageAt(PgRoundUp(newsz), k)))
    ensures r.Ret? && newsz < oldsz ==> r.value == newsz
    ensures r.Ret? ==> m.Valid() && Unmapped(old(m.frames), old(m.freeList), old(m.owner), m.frames, m.freeList, m.owner,
                                             pagetable, PgRoundUp(newsz), DeallocPages(oldsz, newsz))
  {
    if newsz >= oldsz {
      UnmappedNone(m.frames, m.freeList, m.owner, pagetable, PgRoundUp(newsz));
      return Ret(oldsz);
    }
    var oldpg, newpg := PgRoundUp(oldsz), PgRoundUp(newsz);
    if newpg < oldpg {
      ghost var f0, fl0, o0 := m.frames, m.freeList, m.owner;
      var n := (oldpg - newpg) / PGSIZE;
      assert n == DeallocPages(oldsz, newsz);
      var u := UvmUnmap(m, pagetable, newpg, n, true);
      if u.Panic? {
        return Panic(u.msg);
      }
      assert Unmapped(f0, fl0, o0, m.frames, m.freeList, m.owner, pagetable, newpg, n);
    } else {
      UnmappedNone(m.frames, m.freeList, m.owner, pagetable, newpg);
    }
    return Ret(newsz);
  }

  // ---------------------------------------------------------------------
  // Growing and shrinking back.

  /** uvmdealloc(pagetable, newsz, oldsz) removes as many pages as
      uvmalloc(pagetable, oldsz, newsz, ...) adds. */
  lemma AllocDeallocPages(oldsz: nat, newsz: nat)
    requires oldsz <= newsz
    ensures DeallocPages(newsz, oldsz) == AllocPages(oldsz, newsz)
  {
    var a0, a1 := PgRoundUp(oldsz), PgRoundUp(newsz);
    if a0 < a1 && newsz <= a0 {
      assert false;
    }
  }

  /** uvmalloc(pagetable, oldsz, newsz, ...) returning newsz (states 0 to
      1), then uvmdealloc(pagetable, newsz, oldsz) (states 1 to 2): the
      shrink removes the very pages the growth added, every mapping is back
      as in state 0, each frame uvmalloc took is on the free list again and
      unowned, and no frame is lost. The page-table pages the growth
      allocated stay in the tree. */
  lemma GrowThenShrink(f0: Frames, fl0: seq<nat>, o0: Owners, f1: Frames, fl1: seq<nat>, o1: Owners,
                       f2: Frames, fl2: seq<nat>, o2: Owners, pt: nat, oldsz: nat, newsz: nat,
                       mems: seq<nat>, permflag: Flags)
    requires IsRoot(o0, pt) && permflag & PTE_S == 0 && oldsz <= newsz
    requires Inv(f1, fl1, o1) && Accounted(fl1, o1) == Accounted(fl0, o0)
    requires forall q :: IsRoot(o1, q) <==> IsRoot(o0, q)
    requires |mems| == AllocPages(oldsz, newsz)
    requires GrownRun(f0, o0, f1, pt, PgRoundUp(oldsz) / PGSIZE, mems, PTE_R | PTE_U | permflag)
    requires WereUnmapped(f0, pt, PgRoundUp(oldsz), |mems|)
    requires FreshFrames(fl0, f1, fl1, o1, mems)
    requires Unmapped(f1, fl1, o1, f2, fl2, o2, pt, PgRoundUp(oldsz), DeallocPages(newsz, oldsz))
    ensures DeallocPages(newsz, oldsz) == |mems|
    ensures SameMappings(f0, o0, f2)
    ensures Accounted(fl2, o2) == Accounted(fl0, o0)
    ensures forall k :: 0 <= k < |mems| ==> mems[k] in FreeSet(fl2) && mems[k] !in o2
  {
    var a0, perm := PgRoundUp(oldsz), PTE_R | PTE_U | permflag;
    AllocDeallocPages(oldsz, newsz);
    assert OwningPerm(perm) by {
      assert perm & PTE_RWX != 0 && perm & PTE_S == 0;
    }
    assert forall k :: 0 <= k < |mems| ==> mems[k] in o1 && mems[k] % PGSIZE == 0 && !SharedTarget(f1, o1, mems[k]);
    StalledLeaves(f0, o0, f1, o1, pt, a0, mems, perm);
    FreedFresh(f0, o0, f1, pt, a0, mems, perm);
    assert Stalled(f0, fl0, o0, f1, fl1, o1, pt, a0, mems, perm);
    AllocUndone(f0, fl0, o0, f1, fl1, o1, f2, fl2, o2, pt, a0, mems, perm);
    var fs := Freed(f1, pt, a0, |mems|);
    forall k | 0 <= k < |mems| ensures mems[k] in FreeSet(fl2) && mems[k] !in o2 {
      assert mems[k] in fs;
      FreeSetAppend(fs, fl1);
    }
  }

  /** uvmalloc(pagetable, oldsz, newsz, permflag) and, when it returned
      newsz, uvmdealloc(pagetable, newsz, oldsz): the shrink cannot panic,
      returns oldsz, and leaves every mapping and every accounted frame as
      before the growth, with the frames the growth took (mems) back on the
      free list. */
  method GrowShrink(m: Machine, pagetable: nat, oldsz: nat, newsz: nat, permflag: Flags)
    returns (grown: Res<nat>, r: Res<nat>, ghost mems: seq<nat>)
    requires m.Valid() && IsRoot(m.owner, pagetable) && permflag & PTE_S == 0 && oldsz <= newsz
    modifies m
    ensures grown == Ret(newsz) ==>
      && r == Ret(oldsz) && m.Valid()
      && SameMappings(old(m.frames), old(m.owner), m.frames)
      && Accounted(m.freeList, m.owner) == Accounted(old(m.freeList), old(m.owner))
      && (forall k :: 0 <= k < |mems| ==>
            mems[k] in FreeSet(old(m.freeList)) && mems[k] in FreeSet(m.freeList) && mems[k] !in m.owner)
  {
    ghost var f0, fl0, o0 := m.frames, m.freeList, m.owner;
    grown, mems := UvmAlloc(m, pagetable, oldsz, newsz, permflag);
    r := grown;
    if grown != Ret(newsz) {
      return;
    }
    ghost var f1, fl1, o1 := m.frames, m.freeList, m.owner;
    var a0, perm := PgRoundUp(oldsz), PTE_R | PTE_U | permflag;
    AllocDeallocPages(oldsz, newsz);
    assert OwningPerm(perm) by {
      assert perm & PTE_RWX != 0 && perm & PTE_S == 0;
    }
    assert forall k :: 0 <= k < |mems| ==> mems[k] in o1 && mems[k] % PGSIZE == 0 && !SharedTarget(f1, o1, mems[k]);
    StalledLeaves(f0, o0, f1, o1, pagetable, a0, mems, perm);
    r := UvmDealloc(m, pagetable, newsz, oldsz);
    GrowThenShrink(f0, fl0, o0, f1, fl1, o1, m.frames, m.freeList, m.owner, pagetable, oldsz, newsz, mems, permflag);
  }

  /** Unmapping with do_free the run a successful uvmalloc mapped frees
      each of its frames. */
  lemma FreedFresh(f0: Frames, o0: Owners, f1: Frames, pt: nat, a0: nat, mems: seq<nat>, perm: Flags)
    requires a0 % PGSIZE == 0 && IsRoot(o0, pt) && OwningPerm(perm)
    requires GrownRun(f0, o0, f1, pt, a0 / PGSIZE, mems, perm) && WereUnmapped(f0, pt, a0, |mems|)
    requires forall k :: 0 <= k < |mems| ==> mems[k] % PGSIZE == 0
    ensures forall k :: 0 <= k < |mems| ==> mems[k] in Freed(f1, pt, a0, |mems|)
  {
    forall k | 0 <= k < |mems| ensures mems[k] in Freed(f1, pt, a0, |mems|) {
      PageAtAligned(a0, k);
      assert PageAt(a0, k) / PGSIZE - a0 / PGSIZE == k;
      OwningLeaf(mems[k], perm);
      assert Owning(Leaf(f1, pt, PageAt(a0, k)));
    }
  }
}
