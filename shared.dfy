/** Shared mappings of kernel/vm.c: find_free_va, map_shared_pages and
    unmap_shared_pages. A shared page is a leaf with PTE_S that aliases a
    frame owned by another address space; nothing counts references to it. */
module Shared {
  import opened Sv39
  import opened Outcomes
  import opened Phys
  import opened PageTable
  import opened AddrSpace

  /** The parts of a struct proc the sharing code reads and writes. */
  class Proc {
    var pagetable: nat
    var sz: nat
  }

  // ---------------------------------------------------------------------
  // find_free_va.

  /** Page k of a page-stepped run from base lies before page j of it
      exactly when k < j. */
  lemma PageAtOrder(base: nat, k: nat, j: nat)
    ensures PageAt(base, k) < PageAt(base, j) <==> k < j
  {
  }

  /** No page visited by a page-stepped scan of `needed` bytes from va has a
      valid leaf. */
  ghost predicate FreeRange(f: Frames, pt: nat, va: nat, needed: nat)
  {
    forall k: nat :: PageAt(va, k) < va + needed ==> !Mapped(f, pt, PageAt(va, k))
  }

  /** va is the first candidate of find_free_va's scan, from
      PGROUNDUP(MAXVA/2) a page at a time below MAXVA - needed, whose range
      is free. */
  ghost predicate FirstFit(f: Frames, pt: nat, needed: nat, va: nat)
  {
    var base := PgRoundUp(MAXVA / 2);
    && (exists j: nat :: va == PageAt(base, j))
    && va + needed < MAXVA
    && FreeRange(f, pt, va, needed)
    && forall j: nat :: PageAt(base, j) < va ==> !FreeRange(f, pt, PageAt(base, j), needed)
  }

  /** No candidate of find_free_va's scan has a free range. */
  ghost predicate NoFit(f: Frames, pt: nat, needed: nat)
  {
    var base := PgRoundUp(MAXVA / 2);
    forall j: nat :: PageAt(base, j) + needed < MAXVA ==> !FreeRange(f, pt, PageAt(base, j), needed)
  }

  /** find_free_va(pagetable, needed): first fit from PGROUNDUP(MAXVA/2);
      0 when no candidate fits. Every address it walks lies below MAXVA, so
      walk(pagetable, ck, 0) is the lookup LeafSlot and cannot panic. */
  method FindFreeVa(m: Machine, pagetable: nat, needed: nat) returns (va: nat)
    ensures va == 0 ==> NoFit(m.frames, pagetable, needed)
    ensures va != 0 ==> FirstFit(m.frames, pagetable, needed, va)
  {
    hide Mapped;
    var base := PgRoundUp(MAXVA / 2);
    var limit: int := MAXVA - needed;
    var cand := base;
    ghost var j: nat := 0;
    while cand < limit
      invariant cand == PageAt(base, j)
      invariant forall i: nat :: i < j ==> !FreeRange(m.frames, pagetable, PageAt(base, i), needed)
      decreases limit - cand
    {
      var conflict := false;
      var ck := cand;
      ghost var k: nat := 0;
      while ck < cand + needed
        invariant ck == PageAt(cand, k)
        invariant forall i: nat :: i < k ==> !Mapped(m.frames, pagetable, PageAt(cand, i))
        decreases cand + needed - ck
      {
        if Mapped(m.frames, pagetable, ck) {
          conflict := true;
          break;
        }
        ck := ck + PGSIZE;
        k := k + 1;
      }
      if !conflict {
        forall i: nat | PageAt(cand, i) < cand + needed ensures !Mapped(m.frames, pagetable, PageAt(cand, i)) {
          PageAtOrder(cand, i, k);
        }
        forall i: nat | PageAt(base, i) < cand ensures !FreeRange(m.frames, pagetable, PageAt(base, i), needed) {
          PageAtOrder(base, i, j);
        }
        return cand;
      }
      cand := cand + PGSIZE;
      j := j + 1;
    }
    forall i: nat | PageAt(base, i) + needed < MAXVA ensures !FreeRange(m.frames, pagetable, PageAt(base, i), needed) {
      PageAtOrder(base, i, j);
    }
    return 0;
  }

  // ---------------------------------------------------------------------
  // Aliasing one page.

  /** Page a of root pt is valid and user accessible: what the sharing
      loops demand of a source page. */
  predicate UserLeaf(f: Frames, pt: nat, a: nat)
  {
    IsValid(Leaf(f, pt, a)) && Has(Leaf(f, pt, a), PTE_U)
  }

  /** The permissions of an alias of leaf w: (PTE_FLAGS(w) & (R|W|X|U)) | PTE_S. */
  function SharePerm(w: Word): (perm: Flags)
    ensures perm & PTE_S != 0 && perm & PTE_RWX == PteFlags(w) & PTE_RWX
  {
    (PteFlags(w) & PTE_RWXU) | PTE_S
  }

  /** The leaf an alias of w holds: w's frame with SharePerm(w) and PTE_V. */
  function ShareLeaf(w: Word): Word
  {
    MakePte(Pte2Pa(w), SharePerm(w) | PTE_V)
  }

  /** An alias is a valid PTE_S leaf on w's frame, user accessible exactly
      when w is, with w's R, W and X. */
  lemma ShareLeafFields(w: Word)
    ensures IsValid(ShareLeaf(w)) && Has(ShareLeaf(w), PTE_S)
    ensures Pte2Pa(ShareLeaf(w)) == Pte2Pa(w)
    ensures Has(ShareLeaf(w), PTE_U) == Has(w, PTE_U)
    ensures PteFlags(ShareLeaf(w)) & PTE_RWX == PteFlags(w) & PTE_RWX
  {
    var pa := Pte2Pa(w);
    MakePteFields(pa, SharePerm(w) | PTE_V);
    assert pa == w / 1024 * PGSIZE;
    assert PgRoundDown(pa) == pa;
    var x := PteFlags(w);
    assert ((x & PTE_RWXU) | PTE_S | PTE_V) & PTE_U != 0 <==> x & PTE_U != 0;
  }

  /** The leaves of every root below MAXVA are those of f0. */
  ghost predicate LeavesKept(f0: Frames, o0: Owners, f1: Frames)
  {
    forall q: nat, v: nat :: IsRoot(o0, q) && v < MAXVA ==> Leaf(f1, q, v) == Leaf(f0, q, v)
  }

  /** perm = SharePerm(w) and mappages(dst, d, PGSIZE, PTE2PA(w), perm), for
      w the valid leaf of page a of root srcPt. Panics exactly when d is at
      or above MAXVA or already mapped; -1 when walk runs out of memory,
      with no leaf changed; otherwise page d holds ShareLeaf(w). No frame
      changes hands either way. */
  method MapAlias(m: Machine, dstPt: nat, d: nat, w: Word, ghost srcPt: nat, ghost a: nat) returns (r: Res<int>)
    requires m.Valid() && IsRoot(m.owner, dstPt) && IsRoot(m.owner, srcPt) && d % PGSIZE == 0
    requires Mapped(m.frames, srcPt, a) && w == Leaf(m.frames, srcPt, a)
    modifies m
    ensures r.Panic? <==> d >= MAXVA || Mapped(old(m.frames), dstPt, d)
    ensures r.Ret? ==> (r.value == 0 || r.value == -1) && m.Valid()
    ensures r.Ret? ==> Kept(old(m.frames), old(m.freeList), old(m.owner), m.frames, m.freeList, m.owner)
    ensures r.Ret? ==> Accounted(m.freeList, m.owner) == Accounted(old(m.freeList), old(m.owner))
    ensures r == Ret(0) ==> LeafSet(old(m.frames), old(m.owner), m.frames, dstPt, d / PGSIZE, ShareLeaf(w))
    ensures r == Ret(-1) ==> m.freeList == [] && LeavesKept(old(m.frames), old(m.owner), m.frames)
  {
    hide Leaf, Kept, Accounted;
    ghost var f0, o0 := m.frames, m.owner;
    LeafTarget(m.frames, m.freeList, m.owner, srcPt, a);
    var pa := Pte2Pa(w);
    var perm := SharePerm(w);
    assert pa % PGSIZE == 0 by {
      assert pa == w / 1024 * PGSIZE;
    }
    assert PgRoundDown(d) == d && NPages(d, PGSIZE) == 1 by {
      assert PgRoundDown(d + PGSIZE - 1) == d;
    }
    assert PageAt(pa, 0) == pa && PageAt(d, 0) == d;
    ghost var done;
    r, done := MapPages(m, dstPt, d, PGSIZE, pa, perm);
    if r.Ret? {
      if r.value == 0 {
        assert WereUnmapped(f0, dstPt, d, 1);
        assert PageAt(d, 0) < MAXVA && !Mapped(f0, dstPt, PageAt(d, 0));
      }
      forall q: nat, v: nat | IsRoot(o0, q) && v < MAXVA
        ensures Leaf(m.frames, q, v) == if q == dstPt && v / PGSIZE == d / PGSIZE && done == 1 then ShareLeaf(w) else Leaf(f0, q, v)
      {
      }
    }
  }

  // ---------------------------------------------------------------------
  // The sharing loop.

  /** After `done` rounds of a sharing loop from memory f0: page k of root
      dst from d0 holds the alias of page k of root src from s0, a user
      page, for each k < done (read in f, the memory now); those pages of
      dst were unmapped in f0; every other leaf below MAXVA is as in f0. */
  ghost predicate SharedRun(f0: Frames, o0: Owners, f: Frames, src: nat, s0: nat, dst: nat, d0: nat, done: nat)
  {
    && (forall k: nat :: k < done ==>
          && PageAt(s0, k) < MAXVA && UserLeaf(f, src, PageAt(s0, k))
          && Leaf(f, dst, PageAt(d0, k)) == ShareLeaf(Leaf(f, src, PageAt(s0, k))))
    && WereUnmapped(f0, dst, d0, done)
    && (forall q: nat, v: nat :: IsRoot(o0, q) && v < MAXVA && !(q == dst && d0 / PGSIZE <= v / PGSIZE < d0 / PGSIZE + done) ==>
          Leaf(f, q, v) == Leaf(f0, q, v))
  }

  /** What a sharing loop keeps from state 0: the memory invariant's frame
      and accounting facts, and the run of aliases so far. */
  ghost predicate ShareProgress(f0: Frames, fl0: seq<nat>, o0: Owners, f: Frames, fl: seq<nat>, o: Owners,
                                src: nat, s0: nat, dst: nat, d0: nat, done: nat)
  {
    && Kept(f0, fl0, o0, f, fl, o)
    && Accounted(fl, o) == Accounted(fl0, o0)
    && SharedRun(f0, o0, f, src, s0, dst, d0, done)
  }

  lemma ShareStart(f: Frames, fl: seq<nat>, o: Owners, src: nat, s0: nat, dst: nat, d0: nat)
    ensures ShareProgress(f, fl, o, f, fl, o, src, s0, dst, d0, 0)
  {
    KeptRefl(f, fl, o);
  }

  lemma ShareProgressFacts(f0: Frames, fl0: seq<nat>, o0: Owners, f: Frames, fl: seq<nat>, o: Owners,
                           src: nat, s0: nat, dst: nat, d0: nat, done: nat)
    requires ShareProgress(f0, fl0, o0, f, fl, o, src, s0, dst, d0, done)
    ensures Kept(f0, fl0, o0, f, fl, o) && Accounted(fl, o) == Accounted(fl0, o0)
    ensures SharedRun(f0, o0, f, src, s0, dst, d0, done)
  {
  }

  /** Leaves that did not change keep a run of aliases. */
  lemma SharedRunSame(f0: Frames, o0: Owners, f1: Frames, o1: Owners, f2: Frames,
                      src: nat, s0: nat, dst: nat, d0: nat, done: nat)
    requires SharedRun(f0, o0, f1, src, s0, dst, d0, done)
    requires IsRoot(o0, src) && IsRoot(o0, dst) && forall q :: IsRoot(o1, q) <==> IsRoot(o0, q)
    requires LeavesKept(f1, o1, f2)
    ensures SharedRun(f0, o0, f2, src, s0, dst, d0, done)
  {
    hide ShareLeaf, Leaf;
    forall k: nat | k < done
      ensures PageAt(s0, k) < MAXVA && UserLeaf(f2, src, PageAt(s0, k))
      ensures Leaf(f2, dst, PageAt(d0, k)) == ShareLeaf(Leaf(f2, src, PageAt(s0, k)))
    {
      assert Leaf(f2, src, PageAt(s0, k)) == Leaf(f1, src, PageAt(s0, k));
      assert Leaf(f2, dst, PageAt(d0, k)) == Leaf(f1, dst, PageAt(d0, k));
    }
  }

  lemma ShareProgressIntro(f0: Frames, fl0: seq<nat>, o0: Owners, f: Frames, fl: seq<nat>, o: Owners,
                           src: nat, s0: nat, dst: nat, d0: nat, done: nat)
    requires Kept(f0, fl0, o0, f, fl, o) && Accounted(fl, o) == Accounted(fl0, o0)
    requires SharedRun(f0, o0, f, src, s0, dst, d0, done)
    ensures ShareProgress(f0, fl0, o0, f, fl, o, src, s0, dst, d0, done)
  {
  }

  /** A round that mapped nothing keeps the progress. */
  lemma ShareStall(f0: Frames, fl0: seq<nat>, o0: Owners, f1: Frames, fl1: seq<nat>, o1: Owners,
                   f2: Frames, fl2: seq<nat>, o2: Owners, src: nat, s0: nat, dst: nat, d0: nat, done: nat)
    requires IsRoot(o0, src) && IsRoot(o0, dst)
    requires ShareProgress(f0, fl0, o0, f1, fl1, o1, src, s0, dst, d0, done)
    requires Kept(f1, fl1, o1, f2, fl2, o2) && Accounted(fl2, o2) == Accounted(fl1, o1)
    requires LeavesKept(f1, o1, f2)
    ensures ShareProgress(f0, fl0, o0, f2, fl2, o2, src, s0, dst, d0, done)
  {
    hide SharedRun, ShareProgress, LeavesKept, Accounted;
    ShareProgressFacts(f0, fl0, o0, f1, fl1, o1, src, s0, dst, d0, done);
    KeptTrans(f0, fl0, o0, f1, fl1, o1, f2, fl2, o2);
    SharedRunSame(f0, o0, f1, o1, f2, src, s0, dst, d0, done);
    ShareProgressIntro(f0, fl0, o0, f2, fl2, o2, src, s0, dst, d0, done);
  }

  /** A round that aliased page done of the source at page done of dst
      extends the run by one page. */
  lemma SharedRunAdvance(f0: Frames, o0: Owners, f1: Frames, o1: Owners, f2: Frames,
                         src: nat, s0: nat, dst: nat, d0: nat, done: nat)
    requires d0 % PGSIZE == 0 && PageAt(s0, done) < MAXVA && PageAt(d0, done) < MAXVA
    requires IsRoot(o0, src) && IsRoot(o0, dst) && forall q :: IsRoot(o1, q) <==> IsRoot(o0, q)
    requires SharedRun(f0, o0, f1, src, s0, dst, d0, done)
    requires UserLeaf(f1, src, PageAt(s0, done)) && !Mapped(f1, dst, PageAt(d0, done))
    requires LeafSet(f1, o1, f2, dst, PageAt(d0, done) / PGSIZE, ShareLeaf(Leaf(f1, src, PageAt(s0, done))))
    ensures SharedRun(f0, o0, f2, src, s0, dst, d0, done + 1)
  {
    hide ShareLeaf, Leaf, PageAt;
    var p := d0 / PGSIZE + done;
    PageAtAligned(d0, done);
    forall k: nat | k < done + 1
      ensures PageAt(s0, k) < MAXVA && UserLeaf(f2, src, PageAt(s0, k))
      ensures Leaf(f2, dst, PageAt(d0, k)) == ShareLeaf(Leaf(f2, src, PageAt(s0, k)))
    {
      PageAtAligned(d0, k);
      var a := PageAt(s0, k);
      UserLeafNotFree(f1, src, a, dst, PageAt(d0, done));
      assert Leaf(f2, src, a) == Leaf(f1, src, a);
    }
    assert Leaf(f1, dst, PageAt(d0, done)) == Leaf(f0, dst, PageAt(d0, done));
    WereUnmappedStep(f0, dst, d0, done);
    forall q: nat, v: nat | IsRoot(o0, q) && v < MAXVA && !(q == dst && d0 / PGSIZE <= v / PGSIZE < d0 / PGSIZE + done + 1)
      ensures Leaf(f2, q, v) == Leaf(f0, q, v)
    {
    }
  }

  /** A user page is not an unmapped page. */
  lemma UserLeafNotFree(f: Frames, src: nat, a: nat, dst: nat, d: nat)
    requires UserLeaf(f, src, a) && !Mapped(f, dst, d)
    ensures src == dst ==> a / PGSIZE != d / PGSIZE
  {
    if src == dst && a / PGSIZE == d / PGSIZE {
      SamePageSamePath(a, d);
    }
  }

  /** A round that aliased page done of the source at page done of dst
      extends the progress by one page. */
  lemma ShareAdvance(f0: Frames, fl0: seq<nat>, o0: Owners, f1: Frames, fl1: seq<nat>, o1: Owners,
                     f2: Frames, fl2: seq<nat>, o2: Owners, src: nat, s0: nat, dst: nat, d0: nat, done: nat)
    requires d0 % PGSIZE == 0 && PageAt(s0, done) < MAXVA && PageAt(d0, done) < MAXVA
    requires IsRoot(o0, src) && IsRoot(o0, dst)
    requires ShareProgress(f0, fl0, o0, f1, fl1, o1, src, s0, dst, d0, done)
    requires UserLeaf(f1, src, PageAt(s0, done)) && !Mapped(f1, dst, PageAt(d0, done))
    requires Kept(f1, fl1, o1, f2, fl2, o2) && Accounted(fl2, o2) == Accounted(fl1, o1)
    requires LeafSet(f1, o1, f2, dst, PageAt(d0, done) / PGSIZE, ShareLeaf(Leaf(f1, src, PageAt(s0, done))))
    ensures ShareProgress(f0, fl0, o0, f2, fl2, o2, src, s0, dst, d0, done + 1)
  {
    hide SharedRun, ShareProgress, LeafSet, Accounted, UserLeaf, Mapped;
    ShareProgressFacts(f0, fl0, o0, f1, fl1, o1, src, s0, dst, d0, done);
    KeptTrans(f0, fl0, o0, f1, fl1, o1, f2, fl2, o2);
    SharedRunAdvance(f0, o0, f1, o1, f2, src, s0, dst, d0, done);
    ShareProgressIntro(f0, fl0, o0, f2, fl2, o2, src, s0, dst, d0, done + 1);
  }

  /** Round `done` of a sharing loop, source page a and destination page d:
      walk(src, a, 0), give up on a missing, invalid or non-user leaf, then
      alias a's frame at d with mappages. With checkRemap (map_shared_pages)
      the round first walks dst at d, which panics at or above MAXVA, and
      gives up (the remap message) when d is mapped; without it
      (sys_map_shared_pages) mappages panics on d at or above MAXVA or
      mapped. false when the round gave up or mappages returned -1. */
  method ShareRound(m: Machine, srcPt: nat, a: nat, dstPt: nat, d: nat, checkRemap: bool, ghost f0: Frames,
                    ghost fl0: seq<nat>, ghost o0: Owners, ghost s0: nat, ghost d0: nat, ghost done: nat)
    returns (r: Res<bool>)
    requires m.Valid() && IsRoot(m.owner, srcPt) && IsRoot(m.owner, dstPt) && IsRoot(o0, srcPt) && IsRoot(o0, dstPt)
    requires d0 % PGSIZE == 0 && a == PageAt(s0, done) && d == PageAt(d0, done)
    requires ShareProgress(f0, fl0, o0, m.frames, m.freeList, m.owner, srcPt, s0, dstPt, d0, done)
    modifies m
    ensures r.Panic? <==>
      a >= MAXVA || (UserLeaf(old(m.frames), srcPt, a) && (d >= MAXVA || (!checkRemap && Mapped(old(m.frames), dstPt, d))))
    ensures r.Ret? ==> m.Valid() && IsRoot(m.owner, srcPt) && IsRoot(m.owner, dstPt)
    ensures r == Ret(true) ==> d < MAXVA
    ensures r == Ret(true) ==> ShareProgress(f0, fl0, o0, m.frames, m.freeList, m.owner, srcPt, s0, dstPt, d0, done + 1)
    ensures r == Ret(false) ==> ShareProgress(f0, fl0, o0, m.frames, m.freeList, m.owner, srcPt, s0, dstPt, d0, done)
    ensures r == Ret(false) ==>
      !UserLeaf(m.frames, srcPt, a) || (checkRemap && Mapped(m.frames, dstPt, d)) || m.freeList == []
  {
    hide ShareProgress, SharedRun, Accounted;
    if a >= MAXVA {
      return Panic("walk");
    }
    ghost var f1, fl1, o1 := m.frames, m.freeList, m.owner;
    var spte := LeafSlot(m.frames, srcPt, a);
    if spte.None? || !IsValid(Entry(m.frames, spte.value.table, spte.value.index))
       || !Has(Entry(m.frames, spte.value.table, spte.value.index), PTE_U) {
      KeptRefl(m.frames, m.freeList, m.owner);
      ShareStall(f0, fl0, o0, f1, fl1, o1, m.frames, m.freeList, m.owner, srcPt, s0, dstPt, d0, done);
      return Ret(false);
    }
    var w := Entry(m.frames, spte.value.table, spte.value.index);
    if checkRemap {
      if d >= MAXVA {
        return Panic("walk");
      }
      if Mapped(m.frames, dstPt, d) {
        KeptRefl(m.frames, m.freeList, m.owner);
        ShareStall(f0, fl0, o0, f1, fl1, o1, m.frames, m.freeList, m.owner, srcPt, s0, dstPt, d0, done);
        return Ret(false);
      }
    }
    var res := MapAlias(m, dstPt, d, w, srcPt, a);
    if res.Panic? {
      return Panic(res.msg);
    }
    if res != Ret(0) {
      ShareStall(f0, fl0, o0, f1, fl1, o1, m.frames, m.freeList, m.owner, srcPt, s0, dstPt, d0, done);
      return Ret(false);
    }
    ShareAdvance(f0, fl0, o0, f1, fl1, o1, m.frames, m.freeList, m.owner, srcPt, s0, dstPt, d0, done);
    return Ret(true);
  }

  // ---------------------------------------------------------------------
  // map_shared_pages.

  /** The pages map_shared_pages covers: PGROUNDDOWN(src_va) up to
      PGROUNDUP(src_va + size). */
  function SpanPages(srcVa: nat, size: nat): (n: nat)
    ensures PgRoundDown(srcVa) + n * PGSIZE == PgRoundUp(srcVa + size)
    ensures size > 0 ==> n > 0
  {
    var start, end := PgRoundDown(srcVa), PgRoundUp(srcVa + size);
    assert start / PGSIZE * PGSIZE == start && end / PGSIZE * PGSIZE == end;
    end / PGSIZE - start / PGSIZE
  }

  /** A page of a free range that no round has aliased yet is still
      unmapped. */
  lemma StillFree(f0: Frames, o0: Owners, f: Frames, src: nat, s0: nat, dst: nat, d0: nat, done: nat, n: nat)
    requires IsRoot(o0, dst) && d0 % PGSIZE == 0 && done < n && d0 + n * PGSIZE < MAXVA
    requires FreeRange(f0, dst, d0, n * PGSIZE)
    requires SharedRun(f0, o0, f, src, s0, dst, d0, done)
    ensures PageAt(d0, done) < MAXVA && !Mapped(f, dst, PageAt(d0, done))
  {
    PageAtAligned(d0, done);
    assert PageAt(d0, done) < d0 + n * PGSIZE;
  }

  /** The destination page of the next round still holds its state 0
      leaf. */
  lemma NextUntouched(f0: Frames, o0: Owners, f: Frames, src: nat, s0: nat, dst: nat, d0: nat, done: nat)
    requires IsRoot(o0, dst) && d0 % PGSIZE == 0 && PageAt(d0, done) < MAXVA
    requires SharedRun(f0, o0, f, src, s0, dst, d0, done)
    ensures Leaf(f, dst, PageAt(d0, done)) == Leaf(f0, dst, PageAt(d0, done))
  {
    PageAtAligned(d0, done);
  }

  /** The range find_free_va chose is page aligned, below MAXVA and free. */
  lemma FitFacts(f: Frames, pt: nat, needed: nat, va: nat)
    requires FirstFit(f, pt, needed, va)
    ensures va % PGSIZE == 0 && va + needed < MAXVA && FreeRange(f, pt, va, needed)
  {
    var j: nat :| va == PageAt(PgRoundUp(MAXVA / 2), j);
    PageAtAligned(PgRoundUp(MAXVA / 2), j);
  }

  /** map_shared_pages(src, dst, src_va, size): alias the pages of src that
      cover [src_va, src_va + size) at the first free range of dst from
      PGROUNDUP(MAXVA/2) (find_free_va), each with SharePerm of its source
      leaf. Returns the address in dst that src_va maps to, or 0: for a
      null process or size 0, when no range is free, at the first source
      page that is missing, invalid or not a user page, and when mappages
      runs out of memory; pages aliased before a failure stay mapped and
      dst->sz is left alone. Panics when a source page is at or above
      MAXVA. On success dst->sz is raised to the end of the range if that
      is larger. `dstVa` is find_free_va's answer, `done` the pages
      aliased. */
  method MapSharedPages(m: Machine, src: Proc?, dst: Proc?, srcVa: nat, size: nat)
    returns (r: Res<nat>, ghost dstVa: nat, ghost done: nat)
    requires m.Valid()
    requires src != null ==> IsRoot(m.owner, src.pagetable)
    requires dst != null ==> IsRoot(m.owner, dst.pagetable)
    modifies m, dst
    ensures dst != null ==> dst.pagetable == old(dst.pagetable)
    ensures src == null || dst == null || size == 0 ==> r == Ret(0) && unchanged(m) && done == 0
    ensures dst != null && (r == Ret(0) || r.Panic?) ==> dst.sz == old(dst.sz)
    ensures r.Panic? ==>
      src != null && dst != null && done < SpanPages(srcVa, size) && PageAt(PgRoundDown(srcVa), done) >= MAXVA
    ensures PgRoundUp(srcVa + size) <= MAXVA ==> r.Ret?
    ensures r.Ret? ==> m.Valid() && Kept(old(m.frames), old(m.freeList), old(m.owner), m.frames, m.freeList, m.owner)
    ensures r.Ret? ==> Accounted(m.freeList, m.owner) == Accounted(old(m.freeList), old(m.owner))
    ensures src != null && dst != null && size > 0 && dstVa == 0 ==>
      r == Ret(0) && unchanged(m) && done == 0 && NoFit(old(m.frames), dst.pagetable, SpanPages(srcVa, size) * PGSIZE)
    ensures src != null && dst != null && size > 0 && dstVa != 0 ==>
      && FirstFit(old(m.frames), dst.pagetable, SpanPages(srcVa, size) * PGSIZE, dstVa)
      && done <= SpanPages(srcVa, size)
      && (r.Ret? ==> SharedRun(old(m.frames), old(m.owner), m.frames, src.pagetable, PgRoundDown(srcVa), dst.pagetable, dstVa, done))
    ensures r == Ret(0) && src != null && dst != null && size > 0 && dstVa != 0 ==>
      done < SpanPages(srcVa, size) && (!UserLeaf(m.frames, src.pagetable, PageAt(PgRoundDown(srcVa), done)) || m.freeList == [])
    ensures r.Ret? && r.value != 0 ==>
      && src != null && dst != null && size > 0 && done == SpanPages(srcVa, size)
      && r.value == dstVa + (srcVa - PgRoundDown(srcVa))
      && dst.sz == if old(dst.sz) < dstVa + done * PGSIZE then dstVa + done * PGSIZE else old(dst.sz)
  {
    hide ShareProgress, Kept, Accounted, SharedRun, FirstFit, NoFit, FreeRange, UserLeaf;
    done := 0;
    dstVa := 0;
    if src == null || dst == null || size == 0 {
      KeptRefl(m.frames, m.freeList, m.owner);
      return Ret(0), dstVa, done;
    }
    var start := PgRoundDown(srcVa);
    var end := PgRoundUp(srcVa + size);
    ghost var n := SpanPages(srcVa, size);
    var length := end - start;
    var dva := FindFreeVa(m, dst.pagetable, length);
    dstVa := dva;
    if dva == 0 {
      KeptRefl(m.frames, m.freeList, m.owner);
      return Ret(0), dstVa, done;
    }
    assert length == n * PGSIZE;
    FitFacts(m.frames, dst.pagetable, length, dva);
    var retVa := dva + (srcVa - start);
    ghost var f0, fl0, o0 := m.frames, m.freeList, m.owner;
    ShareStart(f0, fl0, o0, src.pagetable, start, dst.pagetable, dstVa);
    var a := start;
    while a < end
      invariant done <= n && a == PageAt(start, done) && dva == PageAt(dstVa, done)
      invariant dst.pagetable == old(dst.pagetable) && dst.sz == old(dst.sz) && src.pagetable == old(src.pagetable)
      invariant m.Valid() && IsRoot(m.owner, src.pagetable) && IsRoot(m.owner, dst.pagetable)
      invariant ShareProgress(f0, fl0, o0, m.frames, m.freeList, m.owner, src.pagetable, start, dst.pagetable, dstVa, done)
      decreases n - done
    {
      PageAtOrder(start, done, n);
      ShareProgressFacts(f0, fl0, o0, m.frames, m.freeList, m.owner, src.pagetable, start, dst.pagetable, dstVa, done);
      StillFree(f0, o0, m.frames, src.pagetable, start, dst.pagetable, dstVa, done, n);
      var ok := ShareRound(m, src.pagetable, a, dst.pagetable, dva, true, f0, fl0, o0, start, dstVa, done);
      if ok.Panic? {
        return Panic(ok.msg), dstVa, done;
      }
      if !ok.value {
        ShareProgressFacts(f0, fl0, o0, m.frames, m.freeList, m.owner, src.pagetable, start, dst.pagetable, dstVa, done);
        return Ret(0), dstVa, done;
      }
      done := done + 1;
      a := a + PGSIZE;
      dva := dva + PGSIZE;
    }
    PageAtOrder(start, done, n);
    ShareProgressFacts(f0, fl0, o0, m.frames, m.freeList, m.owner, src.pagetable, start, dst.pagetable, dstVa, done);
    if dst.sz < dva {
      dst.sz := dva;
    }
    return Ret(retVa), dstVa, done;
  }

  /** Each aliased page of dst translates, through walkaddr, to the same
      physical frame as the source page it shares: the two processes see
      one page. */
  lemma SharedTranslates(f0: Frames, o0: Owners, f: Frames, src: nat, s0: nat, dst: nat, d0: nat, done: nat, k: nat)
    requires SharedRun(f0, o0, f, src, s0, dst, d0, done)
    requires k < done && PageAt(d0, k) < MAXVA
    ensures WalkAddr(f, dst, PageAt(d0, k)) == WalkAddr(f, src, PageAt(s0, k)) == Pte2Pa(Leaf(f, src, PageAt(s0, k)))
    ensures Has(Leaf(f, dst, PageAt(d0, k)), PTE_S)
    ensures PteFlags(Leaf(f, dst, PageAt(d0, k))) & PTE_RWX == PteFlags(Leaf(f, src, PageAt(s0, k))) & PTE_RWX
  {
    var a, d := PageAt(s0, k), PageAt(d0, k);
    assert UserLeaf(f, src, a) && Leaf(f, dst, d) == ShareLeaf(Leaf(f, src, a));
    ShareLeafFields(Leaf(f, src, a));
  }

  // ---------------------------------------------------------------------
  // unmap_shared_pages.

  /** After clearing PTE_U on `done` pages from a0 in pt: those leaves are
      state 0's without PTE_U, every other leaf of every tree is as it
      was. */
  ghost predicate UserCleared(f0: Frames, o0: Owners, f: Frames, pt: nat, a0: nat, done: nat)
  {
    forall q: nat, v: nat :: IsRoot(o0, q) && v < MAXVA ==>
      Leaf(f, q, v) ==
        if q == pt && a0 / PGSIZE <= v / PGSIZE < a0 / PGSIZE + done then ClearBits(Leaf(f0, q, v), PTE_U)
        else Leaf(f0, q, v)
  }

  lemma NoneCleared(f: Frames, o: Owners, pt: nat, a0: nat)
    ensures UserCleared(f, o, f, pt, a0, 0)
  {
  }

  /** A cleared page keeps its mapping and frame but walkaddr no longer
      reaches it, so copyin and copyout fail there. */
  lemma Revoked(f0: Frames, o0: Owners, f: Frames, pt: nat, a0: nat, done: nat, k: nat)
    requires IsRoot(o0, pt) && a0 % PGSIZE == 0 && k < done && PageAt(a0, k) < MAXVA
    requires UserCleared(f0, o0, f, pt, a0, done)
    ensures Mapped(f, pt, PageAt(a0, k)) == Mapped(f0, pt, PageAt(a0, k))
    ensures Pte2Pa(Leaf(f, pt, PageAt(a0, k))) == Pte2Pa(Leaf(f0, pt, PageAt(a0, k)))
    ensures WalkAddr(f, pt, PageAt(a0, k)) == 0
  {
    var v := PageAt(a0, k);
    PageAtAligned(a0, k);
    assert Leaf(f, pt, v) == ClearBits(Leaf(f0, pt, v), PTE_U);
    ClearUserFields(Leaf(f0, pt, v));
  }

  /** One round of unmap_shared_pages: walk(pagetable, a, 0), which panics
      at or above MAXVA; false when the leaf is missing or invalid;
      otherwise clear its PTE_U. */
  method RevokeRound(m: Machine, pagetable: nat, a: nat, ghost f0: Frames, ghost o0: Owners, ghost a0: nat, ghost done: nat)
    returns (r: Res<bool>)
    requires m.Valid() && IsRoot(m.owner, pagetable) && m.owner == o0
    requires a0 % PGSIZE == 0 && a == PageAt(a0, done)
    requires UserCleared(f0, o0, m.frames, pagetable, a0, done)
    modifies m`frames, m`owner
    ensures r.Panic? <==> a >= MAXVA
    ensures r == Ret(false) || r.Panic? ==> unchanged(m)
    ensures r == Ret(false) ==> !Mapped(f0, pagetable, a)
    ensures r.Ret? ==> m.Valid() && m.owner == old(m.owner) && m.freeList == old(m.freeList)
    ensures r.Ret? ==> m.frames.Keys == old(m.frames).Keys
    ensures r.Ret? ==> forall f :: f in old(m.frames) && !IsTable(m.owner, f) ==> m.frames[f] == old(m.frames)[f]
    ensures r == Ret(true) ==> UserCleared(f0, o0, m.frames, pagetable, a0, done + 1)
  {
    if a >= MAXVA {
      return Panic("walk");
    }
    PageAtAligned(a0, done);
    assert Leaf(m.frames, pagetable, a) == Leaf(f0, pagetable, a);
    var slot := LeafSlot(m.frames, pagetable, a);
    if slot.None? || !IsValid(Entry(m.frames, slot.value.table, slot.value.index)) {
      return Ret(false);
    }
    ghost var f1 := m.frames;
    ClearUser(m, pagetable, a, slot.value);
    forall q: nat, v: nat | IsRoot(o0, q) && v < MAXVA
      ensures Leaf(m.frames, q, v) ==
        if q == pagetable && a0 / PGSIZE <= v / PGSIZE < a0 / PGSIZE + done + 1 then ClearBits(Leaf(f0, q, v), PTE_U)
        else Leaf(f0, q, v)
    {
      if q == pagetable && v / PGSIZE == a / PGSIZE {
        assert Leaf(f1, q, v) == Leaf(f1, q, a) by { SamePageSamePath(v, a); }
        assert Leaf(f0, q, v) == Leaf(f0, q, a) by { SamePageSamePath(v, a); }
      }
    }
    return Ret(true);
  }

  /** unmap_shared_pages(p, addr, size): clear PTE_U in the leaves of the
      pages covering [addr, addr + size), so that walkaddr, and with it
      copyin and copyout, no longer reaches them; the leaves stay valid and
      nothing is freed. Returns -1 for a null process or size 0 and at the
      first page whose leaf is missing or invalid, with the pages before it
      already cleared; panics at a page at or above MAXVA (walk); returns 0
      when every page was cleared. `done` counts the pages cleared. */
  method UnmapSharedPages(m: Machine, p: Proc?, addr: nat, size: nat) returns (r: Res<int>, ghost done: nat)
    requires m.Valid() && (p != null ==> IsRoot(m.owner, p.pagetable))
    modifies m`frames, m`owner
    ensures p == null || size == 0 ==> r == Ret(-1) && unchanged(m) && done == 0
    ensures r.Ret? ==> r.value == 0 || r.value == -1
    ensures r.Ret? ==> m.Valid() && m.owner == old(m.owner) && m.freeList == old(m.freeList)
    ensures r.Ret? ==> m.frames.Keys == old(m.frames).Keys
    ensures r.Ret? ==> forall f :: f in old(m.frames) && !IsTable(m.owner, f) ==> m.frames[f] == old(m.frames)[f]
    ensures p != null && size > 0 ==> done <= SpanPages(addr, size)
    ensures p != null && size > 0 && r.Ret? ==> UserCleared(old(m.frames), old(m.owner), m.frames, p.pagetable, PgRoundDown(addr), done)
    ensures r == Ret(0) <==> p != null && size > 0 && done == SpanPages(addr, size)
    ensures r == Ret(-1) && p != null && size > 0 ==> !Mapped(old(m.frames), p.pagetable, PageAt(PgRoundDown(addr), done))
    ensures r.Panic? ==> p != null && size > 0 && done < SpanPages(addr, size) && PageAt(PgRoundDown(addr), done) >= MAXVA
    ensures PgRoundUp(addr + size) <= MAXVA ==> r.Ret?
  {
    hide UserCleared;
    done := 0;
    if p == null || size == 0 {
      return Ret(-1), done;
    }
    var start := PgRoundDown(addr);
    var end := PgRoundUp(addr + size);
    ghost var n := SpanPages(addr, size);
    ghost var f0, o0 := m.frames, m.owner;
    NoneCleared(f0, o0, p.pagetable, start);
    var a := start;
    while a < end
      invariant done <= n && a == PageAt(start, done)
      invariant m.Valid() && m.owner == o0 && m.freeList == old(m.freeList)
      invariant m.frames.Keys == f0.Keys
      invariant forall f :: f in f0 && !IsTable(o0, f) ==> m.frames[f] == f0[f]
      invariant UserCleared(f0, o0, m.frames, p.pagetable, start, done)
      decreases n - done
    {
      PageAtOrder(start, done, n);
      var ok := RevokeRound(m, p.pagetable, a, f0, o0, start, done);
      if ok.Panic? {
        return Panic(ok.msg), done;
      }
      if !ok.value {
        return Ret(-1), done;
      }
      done := done + 1;
      a := a + PGSIZE;
    }
    PageAtOrder(start, done, n);
    return Ret(0), done;
  }
}
