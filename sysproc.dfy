/** The shared-memory system calls of kernel/sysproc.c, after argument
    decoding: sys_map_shared_pages maps the parent's pages at the end of the
    calling (child) process, sys_unmap_shared_pages hands over to
    unmap_shared_pages. */
module SysProc {
  import opened Sv39
  import opened Outcomes
  import opened Phys
  import opened PageTable
  import opened AddrSpace
  import opened Shared

  /** What uvmfree(pagetable, sz) needs in order to return instead of
      panicking (the panic condition of Teardown.UvmFree, negated): every
      page below PGROUNDUP(sz) is mapped below MAXVA and nothing is mapped
      from PGROUNDUP(sz) up to MAXVA. */
  ghost predicate SzCovers(f: Frames, pt: nat, sz: nat)
  {
    && (forall k :: 0 <= k < PgRoundUp(sz) / PGSIZE ==> PageAt(0, k) < MAXVA && Mapped(f, pt, PageAt(0, k)))
    && (forall va: nat :: PgRoundUp(sz) <= va < MAXVA ==> !Mapped(f, pt, va))
  }

  /** An aligned address below MAXVA leaves room for its whole page. */
  lemma PageFits(d: nat)
    requires d % PGSIZE == 0 && d < MAXVA
    ensures d + PGSIZE <= MAXVA
  {
    var q := d / PGSIZE;
    assert d == q * PGSIZE;
    assert MAXVA == (MAXVA / PGSIZE) * PGSIZE;
  }

  /** The loop of sys_map_shared_pages: for off from 0 below rounded, a
      page at a time, walk the parent at parentVa + off, give up on a
      missing, invalid or non-user leaf, and alias its frame at d0 + off
      with mappages, which panics when that page is at or above MAXVA or
      already mapped. true when all rounded / PGSIZE pages were aliased;
      `done` counts the pages aliased. */
  method ShareAtEnd(m: Machine, parentPt: nat, parentVa: nat, childPt: nat, d0: nat, rounded: nat)
    returns (r: Res<bool>, done: nat)
    requires m.Valid() && IsRoot(m.owner, parentPt) && IsRoot(m.owner, childPt)
    requires d0 % PGSIZE == 0 && rounded % PGSIZE == 0
    modifies m
    ensures done <= rounded / PGSIZE
    ensures r.Ret? ==> m.Valid() && IsRoot(m.owner, parentPt) && IsRoot(m.owner, childPt)
    ensures r.Ret? ==>
      ShareProgress(old(m.frames), old(m.freeList), old(m.owner), m.frames, m.freeList, m.owner,
                    parentPt, parentVa, childPt, d0, done)
    ensures r.Ret? && done > 0 ==> PageAt(d0, done) <= MAXVA
    ensures r == Ret(true) ==> done == rounded / PGSIZE
    ensures r == Ret(false) ==>
      done < rounded / PGSIZE && (!UserLeaf(m.frames, parentPt, PageAt(parentVa, done)) || m.freeList == [])
    ensures r.Panic? ==>
      && done < rounded / PGSIZE
      && (PageAt(parentVa, done) >= MAXVA || PageAt(d0, done) >= MAXVA || Mapped(old(m.frames), childPt, PageAt(d0, done)))
  {
    hide ShareProgress, SharedRun, UserLeaf;
    ghost var n := rounded / PGSIZE;
    assert rounded == n * PGSIZE;
    ghost var f0, fl0, o0 := m.frames, m.freeList, m.owner;
    ShareStart(f0, fl0, o0, parentPt, parentVa, childPt, d0);
    done := 0;
    var off: nat := 0;
    while off < rounded
      invariant done <= n && off == done * PGSIZE
      invariant m.Valid() && IsRoot(m.owner, parentPt) && IsRoot(m.owner, childPt)
      invariant ShareProgress(f0, fl0, o0, m.frames, m.freeList, m.owner, parentPt, parentVa, childPt, d0, done)
      invariant done > 0 ==> PageAt(d0, done) <= MAXVA
    {
      ShareProgressFacts(f0, fl0, o0, m.frames, m.freeList, m.owner, parentPt, parentVa, childPt, d0, done);
      if PageAt(d0, done) < MAXVA {
        NextUntouched(f0, o0, m.frames, parentPt, parentVa, childPt, d0, done);
      }
      var ok := ShareRound(m, parentPt, parentVa + off, childPt, d0 + off, false, f0, fl0, o0, parentVa, d0, done);
      if ok.Panic? {
        return Panic(ok.msg), done;
      }
      if !ok.value {
        return Ret(false), done;
      }
      PageAtAligned(d0, done);
      PageFits(PageAt(d0, done));
      done := done + 1;
      off := off + PGSIZE;
    }
    return Ret(true), done;
  }

  /** sys_map_shared_pages(parent_va, parent_pid, size) as written, after
      argument decoding; `parent` is find_proc_by_pid's answer and `child`
      myproc(). -1 for no parent. Otherwise maps PGROUNDUP(size) bytes of
      the parent from parent_va at PGROUNDUP(child->sz), each page with
      SharePerm of its source leaf; returns -1 at the first parent page
      that is not a user page and when mappages runs out of memory, leaving
      the pages aliased so far mapped above child->sz; panics (mappages or
      walk) on a page at or above MAXVA or a child page already mapped. On
      success child->sz grows to the end of the run and the start of the
      run is returned. `done` counts the pages aliased. */
  method SysMapSharedPages(m: Machine, child: Proc, parent: Proc?, parentVa: nat, size: nat)
    returns (r: Res<int>, ghost done: nat)
    requires m.Valid() && IsRoot(m.owner, child.pagetable)
    requires parent != null ==> IsRoot(m.owner, parent.pagetable)
    modifies m, child`sz
    ensures parent == null ==> r == Ret(-1) && unchanged(m) && done == 0
    ensures r == Ret(-1) || r.Panic? ==> child.sz == old(child.sz)
    ensures r.Ret? ==> m.Valid() && Kept(old(m.frames), old(m.freeList), old(m.owner), m.frames, m.freeList, m.owner)
    ensures r.Ret? ==> Accounted(m.freeList, m.owner) == Accounted(old(m.freeList), old(m.owner))
    ensures parent != null ==> done <= PgRoundUp(size) / PGSIZE
    ensures parent != null && r.Ret? ==>
      SharedRun(old(m.frames), old(m.owner), m.frames, parent.pagetable, parentVa, child.pagetable, PgRoundUp(old(child.sz)), done)
    ensures parent != null && r.Ret? && done > 0 ==> PageAt(PgRoundUp(old(child.sz)), done) <= MAXVA
    ensures r == Ret(-1) && parent != null ==>
      done < PgRoundUp(size) / PGSIZE && (!UserLeaf(m.frames, parent.pagetable, PageAt(parentVa, done)) || m.freeList == [])
    ensures r.Panic? ==>
      && parent != null && done < PgRoundUp(size) / PGSIZE
      && (|| PageAt(parentVa, done) >= MAXVA || PageAt(PgRoundUp(old(child.sz)), done) >= MAXVA
          || Mapped(old(m.frames), child.pagetable, PageAt(PgRoundUp(old(child.sz)), done)))
    ensures r.Ret? && r.value != -1 ==>
      && parent != null && done == PgRoundUp(size) / PGSIZE
      && r.value == PgRoundUp(old(child.sz)) && child.sz == r.value + PgRoundUp(size)
  {
    done := 0;
    if parent == null {
      KeptRefl(m.frames, m.freeList, m.owner);
      return Ret(-1), done;
    }
    var rounded := PgRoundUp(size);
    var dstVa := PgRoundUp(child.sz);
    var ok;
    ok, done := ShareAtEnd(m, parent.pagetable, parentVa, child.pagetable, dstVa, rounded);
    if ok.Panic? {
      return Panic(ok.msg), done;
    }
    ShareProgressFacts(old(m.frames), old(m.freeList), old(m.owner), m.frames, m.freeList, m.owner,
                       parent.pagetable, parentVa, child.pagetable, dstVa, done);
    if !ok.value {
      return Ret(-1), done;
    }
    child.sz := dstVa + rounded;
    return Ret(dstVa), done;
  }

  /** A run left behind by a failed sys_map_shared_pages, starting at
      PGROUNDUP(sz) with at least one page, puts a mapped page above sz, so
      uvmfree(pagetable, sz) on the child panics (freewalk: leaf). */
  lemma StrandedAliases(f0: Frames, o0: Owners, f: Frames, parentPt: nat, parentVa: nat, childPt: nat, sz: nat, done: nat)
    requires IsRoot(o0, childPt) && 0 < done && PageAt(PgRoundUp(sz), done) <= MAXVA
    requires SharedRun(f0, o0, f, parentPt, parentVa, childPt, PgRoundUp(sz), done)
    ensures !SzCovers(f, childPt, sz)
  {
    var d := PageAt(PgRoundUp(sz), 0);
    assert Leaf(f, childPt, d) == ShareLeaf(Leaf(f, parentPt, PageAt(parentVa, 0)));
    ShareLeafFields(Leaf(f, parentPt, PageAt(parentVa, 0)));
    assert PgRoundUp(sz) <= d < MAXVA && Mapped(f, childPt, d);
  }

  /** Mappings that are the same as before keep uvmfree's requirement. */
  lemma CoverKept(f0: Frames, o0: Owners, f: Frames, pt: nat, sz: nat)
    requires IsRoot(o0, pt) && SameMappings(f0, o0, f) && SzCovers(f0, pt, sz)
    ensures SzCovers(f, pt, sz)
  {
    forall va: nat | va < MAXVA ensures Mapped(f, pt, va) == Mapped(f0, pt, va) {
      assert Leaf(f, pt, va) == Leaf(f0, pt, va) || (!Mapped(f0, pt, va) && Leaf(f, pt, va) == 0);
    }
  }

  /** A complete run at PGROUNDUP(sz), with sz raised to its end, keeps
      uvmfree's requirement. */
  lemma CoverGrows(f0: Frames, o0: Owners, f: Frames, parentPt: nat, parentVa: nat, childPt: nat, sz: nat, n: nat)
    requires IsRoot(o0, childPt) && SzCovers(f0, childPt, sz)
    requires n > 0 ==> PageAt(PgRoundUp(sz), n) <= MAXVA
    requires SharedRun(f0, o0, f, parentPt, parentVa, childPt, PgRoundUp(sz), n)
    ensures SzCovers(f, childPt, PgRoundUp(sz) + n * PGSIZE)
  {
    hide SharedRun;
    var d0 := PgRoundUp(sz);
    PageAtAligned(d0, n);
    assert PgRoundUp(PageAt(d0, n)) == PageAt(d0, n);
    CoveredBelow(f0, o0, f, parentPt, parentVa, childPt, sz, n);
    EmptyAbove(f0, o0, f, parentPt, parentVa, childPt, sz, n);
  }

  lemma CoveredBelow(f0: Frames, o0: Owners, f: Frames, parentPt: nat, parentVa: nat, childPt: nat, sz: nat, n: nat)
    requires IsRoot(o0, childPt) && SzCovers(f0, childPt, sz)
    requires n > 0 ==> PageAt(PgRoundUp(sz), n) <= MAXVA
    requires SharedRun(f0, o0, f, parentPt, parentVa, childPt, PgRoundUp(sz), n)
    ensures forall k :: 0 <= k < PageAt(PgRoundUp(sz), n) / PGSIZE ==> PageAt(0, k) < MAXVA && Mapped(f, childPt, PageAt(0, k))
  {
    var d0 := PgRoundUp(sz);
    PageAtAligned(d0, n);
    forall k | 0 <= k < PageAt(d0, n) / PGSIZE ensures PageAt(0, k) < MAXVA && Mapped(f, childPt, PageAt(0, k)) {
      PageAtAligned(0, k);
      var v := PageAt(0, k);
      if k < d0 / PGSIZE {
        assert Mapped(f0, childPt, v);
        assert Leaf(f, childPt, v) == Leaf(f0, childPt, v);
      } else {
        var j: nat := k - d0 / PGSIZE;
        assert v == PageAt(d0, j);
        ShareLeafFields(Leaf(f, parentPt, PageAt(parentVa, j)));
      }
    }
  }

  lemma EmptyAbove(f0: Frames, o0: Owners, f: Frames, parentPt: nat, parentVa: nat, childPt: nat, sz: nat, n: nat)
    requires IsRoot(o0, childPt) && SzCovers(f0, childPt, sz)
    requires SharedRun(f0, o0, f, parentPt, parentVa, childPt, PgRoundUp(sz), n)
    ensures forall va: nat :: PageAt(PgRoundUp(sz), n) <= va < MAXVA ==> !Mapped(f, childPt, va)
  {
    var d0 := PgRoundUp(sz);
    var e := PageAt(d0, n);
    PageAtAligned(d0, n);
    forall va: nat | e <= va < MAXVA ensures !Mapped(f, childPt, va) {
      PageIndexMono(e, va);
      assert !(d0 / PGSIZE <= va / PGSIZE < d0 / PGSIZE + n);
      assert Leaf(f, childPt, va) == Leaf(f0, childPt, va);
      assert d0 <= va;
      assert !Mapped(f0, childPt, va);
    }
  }

  /** sys_map_shared_pages with the failure path undone: on -1 the pages
      aliased so far are unmapped again (uvmunmap without freeing, since
      the frames belong to the parent), so the child's mappings are those
      it had and uvmfree's requirement on child->sz is kept on every
      outcome (CoverKept, CoverGrows). */
  method SysMapSharedPagesUndo(m: Machine, child: Proc, parent: Proc?, parentVa: nat, size: nat)
    returns (r: Res<int>, ghost done: nat)
    requires m.Valid() && IsRoot(m.owner, child.pagetable)
    requires parent != null ==> IsRoot(m.owner, parent.pagetable)
    modifies m, child`sz
    ensures parent == null ==> r == Ret(-1) && unchanged(m) && done == 0
    ensures r == Ret(-1) || r.Panic? ==> child.sz == old(child.sz)
    ensures r.Ret? ==> m.Valid() && Kept(old(m.frames), old(m.freeList), old(m.owner), m.frames, m.freeList, m.owner)
    ensures r.Ret? ==> Accounted(m.freeList, m.owner) == Accounted(old(m.freeList), old(m.owner))
    ensures parent != null ==> done <= PgRoundUp(size) / PGSIZE
    ensures r == Ret(-1) ==> SameMappings(old(m.frames), old(m.owner), m.frames)
    ensures r.Panic? ==>
      && parent != null && done < PgRoundUp(size) / PGSIZE
      && (|| PageAt(parentVa, done) >= MAXVA || PageAt(PgRoundUp(old(child.sz)), done) >= MAXVA
          || Mapped(old(m.frames), child.pagetable, PageAt(PgRoundUp(old(child.sz)), done)))
    ensures r.Ret? && r.value != -1 ==>
      && parent != null && done == PgRoundUp(size) / PGSIZE
      && r.value == PgRoundUp(old(child.sz)) && child.sz == r.value + PgRoundUp(size)
      && (done > 0 ==> PageAt(r.value, done) <= MAXVA)
      && SharedRun(old(m.frames), old(m.owner), m.frames, parent.pagetable, parentVa, child.pagetable, r.value, done)
  {
    done := 0;
    if parent == null {
      KeptRefl(m.frames, m.freeList, m.owner);
      return Ret(-1), done;
    }
    var rounded := PgRoundUp(size);
    var dstVa := PgRoundUp(child.sz);
    var ok, count := ShareAtEnd(m, parent.pagetable, parentVa, child.pagetable, dstVa, rounded);
    done := count;
    if ok.Panic? {
      return Panic(ok.msg), done;
    }
    ShareProgressFacts(old(m.frames), old(m.freeList), old(m.owner), m.frames, m.freeList, m.owner,
                       parent.pagetable, parentVa, child.pagetable, dstVa, done);
    if !ok.value {
      Undo(m, parent.pagetable, parentVa, child.pagetable, dstVa, count, old(m.frames), old(m.freeList), old(m.owner));
      return Ret(-1), done;
    }
    child.sz := dstVa + rounded;
    return Ret(dstVa), done;
  }

  /** The pages of a run of aliases are mapped below MAXVA and own no
      frame, so uvmunmap can clear them and frees nothing. */
  lemma AliasesUnmappable(f0: Frames, o0: Owners, f: Frames, parentPt: nat, parentVa: nat, childPt: nat, d0: nat, done: nat)
    requires SharedRun(f0, o0, f, parentPt, parentVa, childPt, d0, done)
    ensures forall k :: 0 <= k < done ==> PageAt(d0, k) < MAXVA && Mapped(f, childPt, PageAt(d0, k))
    ensures Freed(f, childPt, d0, done) == []
  {
    hide Freed;
    forall k | 0 <= k < done
      ensures PageAt(d0, k) < MAXVA && Mapped(f, childPt, PageAt(d0, k)) && !Owning(Leaf(f, childPt, PageAt(d0, k)))
    {
      ShareLeafFields(Leaf(f, parentPt, PageAt(parentVa, k)));
    }
    NothingFreed(f, childPt, d0, done);
  }

  /** uvmunmap frees nothing on pages none of whose leaves owns a frame. */
  lemma {:induction false} NothingFreed(f: Frames, pt: nat, va: nat, n: nat)
    requires forall k :: 0 <= k < n ==> !Owning(Leaf(f, pt, PageAt(va, k)))
    ensures Freed(f, pt, va, n) == []
  {
    if n > 0 {
      NothingFreed(f, pt, va, n - 1);
    }
  }

  /** Page indices grow with the address. */
  lemma PageIndexMono(a: nat, b: nat)
    requires a <= b
    ensures a / PGSIZE <= b / PGSIZE
  {
  }

  /** Clearing a run of aliases that state 0 did not map gives back state
      0's mappings. */
  lemma UndoneSame(f0: Frames, o0: Owners, f1: Frames, o1: Owners, f2: Frames,
                   parentPt: nat, parentVa: nat, childPt: nat, d0: nat, done: nat)
    requires IsRoot(o0, childPt) && d0 % PGSIZE == 0 && (forall q :: IsRoot(o1, q) <==> IsRoot(o0, q))
    requires SharedRun(f0, o0, f1, parentPt, parentVa, childPt, d0, done)
    requires ClearedRun(f1, o1, f2, childPt, d0 / PGSIZE, done)
    ensures SameMappings(f0, o0, f2)
  {
    forall q: nat, v: nat | IsRoot(o0, q) && v < MAXVA
      ensures Leaf(f2, q, v) == Leaf(f0, q, v) || (!Mapped(f0, q, v) && Leaf(f2, q, v) == 0)
    {
      assert IsRoot(o1, q);
      if q == childPt && d0 / PGSIZE <= v / PGSIZE < d0 / PGSIZE + done {
        var k: nat := v / PGSIZE - d0 / PGSIZE;
        PageAtAligned(d0, k);
        SamePageLeaf(f0, q, v, PageAt(d0, k));
        assert !Mapped(f0, q, PageAt(d0, k));
      }
    }
  }

  /** Roots are the same in both states of a Kept step. */
  lemma RootsKept(f0: Frames, fl0: seq<nat>, o0: Owners, f1: Frames, fl1: seq<nat>, o1: Owners)
    requires Kept(f0, fl0, o0, f1, fl1, o1)
    ensures forall q :: IsRoot(o1, q) <==> IsRoot(o0, q)
  {
  }

  /** uvmunmap without freeing, over table frames only, is a Kept step. */
  lemma UnmapKept(f1: Frames, fl1: seq<nat>, o1: Owners, f2: Frames, o2: Owners)
    requires o2 == o1 && f2.Keys == f1.Keys
    requires forall f :: f in f1 && !IsTable(o2, f) ==> f2[f] == f1[f]
    ensures Kept(f1, fl1, o1, f2, fl1, o2)
  {
  }

  /** uvmunmap(child, d0, done, 0) over a run of aliases: nothing is freed
      and the child's mappings are back to those of state 0. */
  method Undo(m: Machine, parentPt: nat, parentVa: nat, childPt: nat, d0: nat, done: nat,
              ghost f0: Frames, ghost fl0: seq<nat>, ghost o0: Owners)
    requires m.Valid() && IsRoot(o0, childPt) && IsRoot(o0, parentPt) && d0 % PGSIZE == 0
    requires ShareProgress(f0, fl0, o0, m.frames, m.freeList, m.owner, parentPt, parentVa, childPt, d0, done)
    modifies m
    ensures m.Valid() && Kept(f0, fl0, o0, m.frames, m.freeList, m.owner)
    ensures Accounted(m.freeList, m.owner) == Accounted(fl0, o0)
    ensures SameMappings(f0, o0, m.frames)
  {
    hide ShareProgress, SharedRun, Kept, SameMappings, ClearedRun;
    ShareProgressFacts(f0, fl0, o0, m.frames, m.freeList, m.owner, parentPt, parentVa, childPt, d0, done);
    ghost var f1, fl1, o1 := m.frames, m.freeList, m.owner;
    AliasesUnmappable(f0, o0, f1, parentPt, parentVa, childPt, d0, done);
    RootsKept(f0, fl0, o0, f1, fl1, o1);
    var u := UvmUnmap(m, childPt, d0, done, false);
    assert u.Ret?;
    assert m.freeList == fl1 && m.owner == o1;
    UnmapKept(f1, fl1, o1, m.frames, m.owner);
    KeptTrans(f0, fl0, o0, f1, fl1, o1, m.frames, m.freeList, m.owner);
    UndoneSame(f0, o0, f1, o1, m.frames, parentPt, parentVa, childPt, d0, done);
  }

  /** sys_unmap_shared_pages(addr, size): unmap_shared_pages on the calling
      process. */
  method SysUnmapSharedPages(m: Machine, p: Proc, addr: nat, size: nat) returns (r: Res<int>, ghost done: nat)
    requires m.Valid() && IsRoot(m.owner, p.pagetable)
    modifies m`frames, m`owner
    ensures r.Ret? ==> m.Valid() && m.owner == old(m.owner) && m.freeList == old(m.freeList)
    ensures size > 0 && r.Ret? ==> UserCleared(old(m.frames), old(m.owner), m.frames, p.pagetable, PgRoundDown(addr), done)
    ensures r == Ret(0) <==> size > 0 && done == SpanPages(addr, size)
    ensures PgRoundUp(addr + size) <= MAXVA ==> r.Ret?
  {
    r, done := UnmapSharedPages(m, p, addr, size);
  }
}
