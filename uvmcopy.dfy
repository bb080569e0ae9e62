/** uvmcopy of kernel/vm.c: fork's copy of a user address space, page by
    page, into a second root. */
module ForkCopy {
  import opened Sv39
  import opened Outcomes
  import opened Phys
  import opened PageTable
  import opened Teardown
  import opened AddrSpace

  /** The flags uvmcopy gives the copy of a page whose old leaf is w:
      PTE_FLAGS(w), PTE_S included. With clearShared the copy drops PTE_S,
      which makes it a private page owned by its leaf. */
  function CopyFlags(w: Word, clearShared: bool): (fl: Flags)
    ensures fl & PTE_S != 0 <==> !clearShared && Has(w, PTE_S)
    ensures fl & PTE_RWX == PteFlags(w) & PTE_RWX
    ensures fl & PTE_U == PteFlags(w) & PTE_U
    ensures fl & PTE_V == PteFlags(w) & PTE_V
  {
    if clearShared then PteFlags(w) & !PTE_S else PteFlags(w)
  }

  /** The pages below sz that uvmcopy's loop visits: i = 0, PGSIZE, ...
      while i < sz. */
  function Pages(sz: nat): (n: nat)
    ensures forall k: nat :: PageAt(0, k) < sz <==> k < n
  {
    assert PgRoundUp(0) == 0;
    AllocPages(0, sz)
  }

  // ---------------------------------------------------------------------
  // One round.

  /** What one round of uvmcopy's loop did to page a of root pt, from state
      0, copying frame pa with flags perm. ok is false when kalloc or
      mappages failed: no leaf changed and the frame, if any, is back on
      the free list. Otherwise page a now maps mem, a frame fresh off the
      free list that holds pa's bytes; it is owned by its leaf unless perm
      has PTE_S, and then it is in nobody's custody. */
  ghost predicate PageCopied(f0: Frames, fl0: seq<nat>, o0: Owners, f: Frames, fl: seq<nat>, o: Owners,
                             pt: nat, a: nat, pa: nat, perm: Flags, ok: bool, mem: nat)
  {
    && Grew(f0, fl0, o0, f, fl, o, {mem})
    && (forall t :: IsTable(o, t) ==> IsTable(o0, t) || t in FreeSet(fl0))
    && Accounted(fl, o) == Accounted(fl0, o0) - (if ok && perm & PTE_S != 0 then {mem} else {})
    && (forall p :: (p != mem || !ok || perm & PTE_S == 0) ==> !SharedTarget(f0, o0, p) ==> !SharedTarget(f, o, p))
    && (!ok ==> |fl0| < 3)
    && (!ok ==> forall q: nat, v: nat :: IsRoot(o0, q) && v < MAXVA ==> Leaf(f, q, v) == Leaf(f0, q, v))
    && (ok ==> a < MAXVA && !Mapped(f0, pt, a) && |fl| + 3 >= |fl0|)
    && (ok ==> mem in FreeSet(fl0) && mem !in FreeSet(fl) && mem != pa)
    && (ok ==> !IsTable(o, mem) && mem in f && pa in f0 && f[mem] == f0[pa])
    && (ok ==> (mem in o <==> perm & PTE_S == 0))
    && (ok && perm & PTE_S == 0 ==> !SharedTarget(f, o, mem))
    && (ok ==> LeafSet(f0, o0, f, pt, a / PGSIZE, MakePte(mem, perm | PTE_V)))
  }

  /** Lines 151-155 of uvmcopy: kalloc a frame, memmove page pa into it
      and map page a of pagetable to it with perm; kfree it when mappages
      fails. Panics (in mappages) when page a is mapped or at or above
      MAXVA. */
  method CopyPage(m: Machine, pagetable: nat, a: nat, pa: nat, perm: Flags) returns (r: Res<bool>, ghost mem: nat)
    requires m.Valid() && IsRoot(m.owner, pagetable) && a % PGSIZE == 0 && perm & PTE_RWX != 0
    requires Aliasable(m.frames, m.freeList, m.owner, pa)
    modifies m
    ensures r.Panic? ==> a >= MAXVA || Mapped(old(m.frames), pagetable, a)
    ensures r.Ret? ==> m.Valid() && PageCopied(old(m.frames), old(m.freeList), old(m.owner), m.frames, m.freeList, m.owner,
                                               pagetable, a, pa, perm, r.value, mem)
  {
    ghost var f0, fl0, o0 := m.frames, m.freeList, m.owner;
    var p := m.Kalloc();
    mem := p;
    if p == 0 {
      return Ret(false), mem;
    }
    PopFree(f0, fl0, o0);
    m.WritePage(p, m.frames[pa]);
    ghost var f1, fl1, o1 := m.frames, m.freeList, m.owner;
    r := MapFresh(m, pagetable, a, p, perm);
    if r.Ret? {
      CopiedStep(f0, fl0, o0, f1, fl1, o1, m.frames, m.freeList, m.owner, pagetable, a, pa, perm, r.value, p);
    }
  }

  /** kalloc's pop (state 0 to 1) seen from the free list: mem left it,
      and pa, a frame in use, was never on it. */
  lemma PopAccounts(f0: Frames, fl0: seq<nat>, o0: Owners, fl1: seq<nat>, pa: nat, mem: nat)
    requires Inv(f0, fl0, o0) && fl0 != [] && mem == fl0[0] && fl1 == fl0[1..]
    requires Aliasable(f0, fl0, o0, pa)
    requires FreeSet(fl0) == FreeSet(fl1) + {mem} && mem !in FreeSet(fl1) && mem !in o0
    ensures FreeSet(fl1 + [mem]) == FreeSet(fl1) + {mem}
    ensures Accounted(fl0, o0) == Accounted(fl1, o0) + {mem} && mem !in Accounted(fl1, o0)
    ensures mem in FreeSet(fl0) && pa !in FreeSet(fl0) && mem != pa
  {
    FreeSetAppend(fl1, [mem]);
    assert FreeSet([mem]) == {mem} by { assert [mem][0] == mem; }
  }

  /** The frames, owners and free list of one round: state 0 to 1 is
      kalloc's pop and the page write, state 1 to 2 is MapFresh. */
  lemma CopiedFrames(f0: Frames, fl0: seq<nat>, o0: Owners, f1: Frames, fl1: seq<nat>, o1: Owners,
                     f2: Frames, fl2: seq<nat>, o2: Owners, pa: nat, perm: Flags, ok: bool, mem: nat)
    requires mem in f0 && pa in f0 && f1 == f0[mem := f0[pa]] && o1 == o0
    requires FreeSet(fl0) == FreeSet(fl1) + {mem}
    requires FreeSet(fl1 + [mem]) == FreeSet(fl1) + {mem}
    requires Accounted(fl0, o0) == Accounted(fl1, o0) + {mem} && mem !in Accounted(fl1, o0)
    requires forall q :: IsRoot(o1, q) <==> IsRoot(o0, q)
    requires Kept(f1, fl1 + [mem], o1, f2, fl2, o2)
    requires Accounted(fl2, o2) == Accounted(fl1, o1) + (if ok && perm & PTE_S != 0 then {} else {mem})
    ensures Grew(f0, fl0, o0, f2, fl2, o2, {mem})
    ensures forall t :: IsTable(o2, t) ==> IsTable(o0, t) || t in FreeSet(fl0)
    ensures Accounted(fl2, o2) == Accounted(fl0, o0) - (if ok && perm & PTE_S != 0 then {mem} else {})
  {
  }

  /** The round's outcome from its two steps. */
  lemma CopiedStep(f0: Frames, fl0: seq<nat>, o0: Owners, f1: Frames, fl1: seq<nat>, o1: Owners,
                   f2: Frames, fl2: seq<nat>, o2: Owners, pt: nat, a: nat, pa: nat, perm: Flags, ok: bool, mem: nat)
    requires Inv(f0, fl0, o0) && IsRoot(o0, pt) && fl0 != [] && mem == fl0[0] && fl1 == fl0[1..] && o1 == o0
    requires Aliasable(f0, fl0, o0, pa)
    requires FreeSet(fl0) == FreeSet(fl1) + {mem} && mem !in FreeSet(fl1) && mem !in o0 && !SharedTarget(f0, o0, mem)
    requires f1 == f0[mem := f0[pa]]
    requires forall q, va :: IsRoot(o0, q) ==> Leaf(f1, q, va) == Leaf(f0, q, va)
    requires forall p :: SharedTarget(f1, o1, p) <==> SharedTarget(f0, o0, p)
    requires Kept(f1, fl1 + [mem], o1, f2, fl2, o2)
    requires Accounted(fl2, o2) == Accounted(fl1, o1) + (if ok && perm & PTE_S != 0 then {} else {mem})
    requires forall p :: (p != mem || !ok || perm & PTE_S == 0) ==> !SharedTarget(f1, o1, p) ==> !SharedTarget(f2, o2, p)
    requires !ok ==> |fl1| < 2
    requires !ok ==> forall q: nat, v: nat :: IsRoot(o1, q) && v < MAXVA ==> Leaf(f2, q, v) == Leaf(f1, q, v)
    requires ok ==> a < MAXVA && !Mapped(f1, pt, a) && |fl2| + 2 >= |fl1|
    requires ok ==> !IsTable(o2, mem) && mem in f2 && f2[mem] == f1[mem] && mem !in FreeSet(fl2)
    requires ok ==> (mem in o2 <==> perm & PTE_S == 0)
    requires ok ==> LeafSet(f1, o1, f2, pt, a / PGSIZE, MakePte(mem, perm | PTE_V))
    ensures PageCopied(f0, fl0, o0, f2, fl2, o2, pt, a, pa, perm, ok, mem)
  {
    PopAccounts(f0, fl0, o0, fl1, pa, mem);
    assert mem in f0 && pa in f0;
    hide Inv, Aliasable;
    CopiedFrames(f0, fl0, o0, f1, fl1, o1, f2, fl2, o2, pa, perm, ok, mem);
    hide Accounted, FreeSet, SharedTarget, Grew, Kept;
    if ok {
      assert Leaf(f1, pt, a) == Leaf(f0, pt, a);
      LeafSetAfterSame(f0, o0, f1, o1, f2, pt, a / PGSIZE, MakePte(mem, perm | PTE_V));
    }
  }

  /** Lines 148-149 of uvmcopy: walk without allocating (a panic at or
      above MAXVA) and panic unless the leaf is valid. */
  method ValidLeaf(m: Machine, pagetable: nat, va: nat) returns (r: Res<Word>)
    requires m.Valid() && IsRoot(m.owner, pagetable)
    modifies m
    ensures unchanged(m)
    ensures r.Panic? <==> va >= MAXVA || !Mapped(m.frames, pagetable, va)
    ensures r.Ret? ==> r.value == Leaf(m.frames, pagetable, va)
  {
    var w := Walk(m, pagetable, va, false);
    if w.Panic? {
      return Panic(w.msg);
    }
    if w.value.None? {
      return Panic("uvmcopy: pte should exist");
    }
    var s := w.value.value;
    var pte := Entry(m.frames, s.table, s.index);
    if !IsValid(pte) {
      return Panic("uvmcopy: pte should exist");
    }
    return Ret(pte);
  }

  /** Lines 148-155 of uvmcopy for page i: read the old table's valid leaf,
      then copy the page into the new table with that leaf's flags. */
  method CopyOne(m: Machine, oldpt: nat, newpt: nat, i: nat, clearShared: bool) returns (r: Res<bool>, ghost mem: nat)
    requires m.Valid() && IsRoot(m.owner, oldpt) && IsRoot(m.owner, newpt) && i % PGSIZE == 0
    modifies m
    ensures r.Panic? ==> i >= MAXVA || !Mapped(old(m.frames), oldpt, i) || Mapped(old(m.frames), newpt, i)
    ensures r.Ret? ==> m.Valid() && i < MAXVA && Mapped(old(m.frames), oldpt, i)
    ensures r.Ret? ==> PageCopied(old(m.frames), old(m.freeList), old(m.owner), m.frames, m.freeList, m.owner,
                                  newpt, i, Pte2Pa(Leaf(old(m.frames), oldpt, i)),
                                  CopyFlags(Leaf(old(m.frames), oldpt, i), clearShared), r.value, mem)
  {
    hide PageCopied;
    var pte := ValidLeaf(m, oldpt, i);
    if pte.Panic? {
      return Panic(pte.msg), 0;
    }
    var pa := Pte2Pa(pte.value);
    var flags := CopyFlags(pte.value, clearShared);
    LeafTarget(m.frames, m.freeList, m.owner, oldpt, i);
    r, mem := CopyPage(m, newpt, i, pa, flags);
  }

  // ---------------------------------------------------------------------
  // The loop.

  /** The leaf of the copy, in frame mem, of a page whose old leaf is w. */
  function CopyLeaf(w: Word, mem: nat, clearShared: bool): Word
  {
    MakePte(mem, CopyFlags(w, clearShared) | PTE_V)
  }

  /** From f0 to f, pages 0 .. |mems| - 1 of root newpt were mapped, page k
      to the copy mems[k] with the flags of page k of root oldpt in f0; no
      other leaf of any root below MAXVA changed. */
  ghost predicate CopiedRun(f0: Frames, o0: Owners, f: Frames, oldpt: nat, newpt: nat, mems: seq<nat>, clearShared: bool)
  {
    forall q: nat, v: nat :: IsRoot(o0, q) && v < MAXVA ==>
      Leaf(f, q, v) ==
        if q == newpt && v / PGSIZE < |mems| then CopyLeaf(Leaf(f0, oldpt, v), mems[v / PGSIZE], clearShared)
        else Leaf(f0, q, v)
  }

  /** mem is the copy of the page whose old leaf in f0 is w: it came off
      the free list of state 0, holds the bytes of w's frame, is no page
      table, and is owned by its leaf exactly when the copy lacks PTE_S. */
  ghost predicate CopiedFrame(f0: Frames, fl0: seq<nat>, f: Frames, fl: seq<nat>, o: Owners, w: Word, mem: nat, clearShared: bool)
  {
    && mem in FreeSet(fl0) && mem !in FreeSet(fl)
    && Pte2Pa(w) in f0 && mem in f && f[mem] == f0[Pte2Pa(w)]
    && !IsTable(o, mem)
    && (mem in o <==> CopyFlags(w, clearShared) & PTE_S == 0)
    && (CopyFlags(w, clearShared) & PTE_S == 0 ==> !SharedTarget(f, o, mem))
  }

  /** The copies are distinct and each is the copy of its page. */
  ghost predicate FreshCopies(f0: Frames, fl0: seq<nat>, f: Frames, fl: seq<nat>, o: Owners,
                              oldpt: nat, mems: seq<nat>, clearShared: bool)
  {
    && (forall j, k :: 0 <= j < k < |mems| ==> mems[j] != mems[k])
    && (forall k :: 0 <= k < |mems| ==> CopiedFrame(f0, fl0, f, fl, o, Leaf(f0, oldpt, PageAt(0, k)), mems[k], clearShared))
  }

  /** The copies that carry PTE_S: no leaf owns them and they are not on
      the free list, so nothing will ever free them. */
  ghost function Leaked(f0: Frames, oldpt: nat, mems: seq<nat>, clearShared: bool): set<nat>
  {
    set k | 0 <= k < |mems| && CopyFlags(Leaf(f0, oldpt, PageAt(0, k)), clearShared) & PTE_S != 0 :: mems[k]
  }

  /** What uvmcopy's loop has done, from state 0, once it copied pages
      0 .. |mems| - 1 into the frames mems. */
  ghost predicate CopyProgress(f0: Frames, fl0: seq<nat>, o0: Owners, f: Frames, fl: seq<nat>, o: Owners,
                               oldpt: nat, newpt: nat, mems: seq<nat>, clearShared: bool)
  {
    && Grew(f0, fl0, o0, f, fl, o, set p | p in mems)
    && (forall t :: IsTable(o, t) ==> IsTable(o0, t) || t in FreeSet(fl0))
    && Accounted(fl, o) == Accounted(fl0, o0) - Leaked(f0, oldpt, mems, clearShared)
    && (forall p :: p !in mems ==> !SharedTarget(f0, o0, p) ==> !SharedTarget(f, o, p))
    && CopiedRun(f0, o0, f, oldpt, newpt, mems, clearShared)
    && WereUnmapped(f0, newpt, 0, |mems|)
    && FreshCopies(f0, fl0, f, fl, o, oldpt, mems, clearShared)
  }

  /** After a round that ran out of memory, from state 0: the roots are the
      same, pages 0 .. |mems| - 1 of newpt still map the copies, and those
      that own their frame may be unmapped and freed. */
  ghost predicate CopyStalled(f0: Frames, fl0: seq<nat>, o0: Owners, f: Frames, fl: seq<nat>, o: Owners,
                              oldpt: nat, newpt: nat, mems: seq<nat>, clearShared: bool)
  {
    && Accounted(fl, o) == Accounted(fl0, o0) - Leaked(f0, oldpt, mems, clearShared)
    && (forall q :: IsRoot(o, q) <==> IsRoot(o0, q))
    && CopiedRun(f0, o0, f, oldpt, newpt, mems, clearShared)
    && WereUnmapped(f0, newpt, 0, |mems|)
    && (forall k :: 0 <= k < |mems| ==> mems[k] in FreeSet(fl0))
    && (forall k :: 0 <= k < |mems| ==> Owning(Leaf(f, newpt, PageAt(0, k))) ==> Pte2Pa(Leaf(f, newpt, PageAt(0, k))) in o)
    && FreeableRun(f, o, newpt, 0, |mems|)
    && (forall k :: 0 <= k < |mems| ==> PageAt(0, k) < MAXVA && Mapped(f, newpt, PageAt(0, k)))
  }

  lemma CopyStart(f: Frames, fl: seq<nat>, o: Owners, oldpt: nat, newpt: nat, clearShared: bool)
    ensures CopyProgress(f, fl, o, f, fl, o, oldpt, newpt, [], clearShared)
  {
    assert Leaked(f, oldpt, [], clearShared) == {};
  }

  /** Before round |mems|, page |mems| of both roots has its leaf of
      state 0. */
  lemma CopyPre(f0: Frames, o0: Owners, f1: Frames, oldpt: nat, newpt: nat, mems: seq<nat>, clearShared: bool)
    requires IsRoot(o0, oldpt) && IsRoot(o0, newpt)
    requires CopiedRun(f0, o0, f1, oldpt, newpt, mems, clearShared)
    ensures PageAt(0, |mems|) % PGSIZE == 0 && PageAt(0, |mems|) / PGSIZE == |mems|
    ensures PageAt(0, |mems|) < MAXVA ==>
      Leaf(f1, oldpt, PageAt(0, |mems|)) == Leaf(f0, oldpt, PageAt(0, |mems|)) &&
      Leaf(f1, newpt, PageAt(0, |mems|)) == Leaf(f0, newpt, PageAt(0, |mems|))
  {
    PageAtAligned(0, |mems|);
  }

  /** One round of uvmcopy's loop, on page |mems|, seen from the state 0
      the loop started in. */
  method CopyRound(m: Machine, oldpt: nat, newpt: nat, i: nat, clearShared: bool, ghost mems: seq<nat>,
                   ghost f0: Frames, ghost fl0: seq<nat>, ghost o0: Owners) returns (r: Res<bool>, ghost mem: nat)
    requires m.Valid() && Inv(f0, fl0, o0) && IsRoot(o0, oldpt) && IsRoot(o0, newpt) && i == PageAt(0, |mems|)
    requires CopyProgress(f0, fl0, o0, m.frames, m.freeList, m.owner, oldpt, newpt, mems, clearShared)
    modifies m
    ensures r.Panic? ==> i >= MAXVA || !Mapped(f0, oldpt, i) || Mapped(f0, newpt, i)
    ensures r.Ret? ==> m.Valid() && IsRoot(m.owner, oldpt) && IsRoot(m.owner, newpt)
    ensures r == Ret(false) ==>
              |old(m.freeList)| < 3 && CopyStalled(f0, fl0, o0, m.frames, m.freeList, m.owner, oldpt, newpt, mems, clearShared)
    ensures r == Ret(true) ==> |m.freeList| + 3 >= |old(m.freeList)|
    ensures r == Ret(true) ==> CopyProgress(f0, fl0, o0, m.frames, m.freeList, m.owner, oldpt, newpt, mems + [mem], clearShared)
  {
    ghost var f1, fl1, o1 := m.frames, m.freeList, m.owner;
    CopyPre(f0, o0, f1, oldpt, newpt, mems, clearShared);
    assert IsRoot(o1, oldpt) && IsRoot(o1, newpt);
    r, mem := CopyOne(m, oldpt, newpt, i, clearShared);
    if r.Panic? {
      return;
    }
    ghost var w := Leaf(f1, oldpt, i);
    if !r.value {
      CopyStalledStep(f0, fl0, o0, f1, fl1, o1, m.frames, m.freeList, m.owner, oldpt, newpt, mems, clearShared,
                      Pte2Pa(w), CopyFlags(w, clearShared), mem);
      return;
    }
    assert RoundCopied(f0, fl0, o0, f1, fl1, o1, m.frames, m.freeList, m.owner, oldpt, newpt, mems, clearShared, mem);
    CopyAdvance(f0, fl0, o0, f1, fl1, o1, m.frames, m.freeList, m.owner, oldpt, newpt, mems, clearShared, mem);
  }

  /** A round that ran out of memory leaves the loop stalled. */
  lemma CopyStalledStep(f0: Frames, fl0: seq<nat>, o0: Owners, f1: Frames, fl1: seq<nat>, o1: Owners,
                        f2: Frames, fl2: seq<nat>, o2: Owners, oldpt: nat, newpt: nat, mems: seq<nat>, clearShared: bool,
                        pa: nat, perm: Flags, mem: nat)
    requires Inv(f2, fl2, o2) && IsRoot(o0, newpt)
    requires CopyProgress(f0, fl0, o0, f1, fl1, o1, oldpt, newpt, mems, clearShared)
    requires PageCopied(f1, fl1, o1, f2, fl2, o2, newpt, PageAt(0, |mems|), pa, perm, false, mem)
    ensures CopyStalled(f0, fl0, o0, f2, fl2, o2, oldpt, newpt, mems, clearShared)
  {
    assert CopiedRun(f0, o0, f2, oldpt, newpt, mems, clearShared) by {
      assert forall q :: IsRoot(o0, q) ==> IsRoot(o1, q);
    }
    forall k | 0 <= k < |mems|
      ensures var w := Leaf(f0, oldpt, PageAt(0, k));
              && mems[k] in FreeSet(fl0) && mems[k] in f2 && mems[k] % PGSIZE == 0
              && (CopyFlags(w, clearShared) & PTE_S == 0 ==> mems[k] in o2 && !SharedTarget(f2, o2, mems[k]))
    {
      var w := Leaf(f0, oldpt, PageAt(0, k));
      assert CopiedFrame(f0, fl0, f1, fl1, o1, w, mems[k], clearShared);
      assert mems[k] != mem || true;
    }
    hide CopyProgress, PageCopied, Inv, SharedTarget, Accounted;
    StalledCopies(f0, o0, f2, o2, oldpt, newpt, mems, clearShared);
  }

  /** The leaves of a copied run map the copies: each is mapped, below
      MAXVA, and owns its frame unless it carries PTE_S. */
  lemma StalledCopies(f0: Frames, o0: Owners, f2: Frames, o2: Owners, oldpt: nat, newpt: nat, mems: seq<nat>, clearShared: bool)
    requires IsRoot(o0, newpt)
    requires CopiedRun(f0, o0, f2, oldpt, newpt, mems, clearShared) && WereUnmapped(f0, newpt, 0, |mems|)
    requires forall k :: 0 <= k < |mems| ==> mems[k] % PGSIZE == 0
    requires forall k :: 0 <= k < |mems| && CopyFlags(Leaf(f0, oldpt, PageAt(0, k)), clearShared) & PTE_S == 0 ==>
               mems[k] in o2 && !SharedTarget(f2, o2, mems[k])
    ensures forall k :: 0 <= k < |mems| ==> Owning(Leaf(f2, newpt, PageAt(0, k))) ==> Pte2Pa(Leaf(f2, newpt, PageAt(0, k))) in o2
    ensures FreeableRun(f2, o2, newpt, 0, |mems|)
    ensures forall k :: 0 <= k < |mems| ==> PageAt(0, k) < MAXVA && Mapped(f2, newpt, PageAt(0, k))
  {
    forall k | 0 <= k < |mems|
      ensures PageAt(0, k) < MAXVA && Mapped(f2, newpt, PageAt(0, k))
      ensures Pte2Pa(Leaf(f2, newpt, PageAt(0, k))) == mems[k]
      ensures Owning(Leaf(f2, newpt, PageAt(0, k))) <==> CopyFlags(Leaf(f0, oldpt, PageAt(0, k)), clearShared) & PTE_S == 0
    {
      PageAtAligned(0, k);
      CopyLeafFields(Leaf(f0, oldpt, PageAt(0, k)), mems[k], clearShared);
    }
  }

  /** The copy's leaf is valid, maps mem, and owns it exactly when it
      lacks PTE_S. */
  lemma CopyLeafFields(w: Word, mem: nat, clearShared: bool)
    requires mem % PGSIZE == 0
    ensures IsValid(CopyLeaf(w, mem, clearShared)) && Pte2Pa(CopyLeaf(w, mem, clearShared)) == mem
    ensures Owning(CopyLeaf(w, mem, clearShared)) <==> CopyFlags(w, clearShared) & PTE_S == 0
  {
    var fl := CopyFlags(w, clearShared);
    var c := CopyLeaf(w, mem, clearShared);
    MakePteFields(mem, fl | PTE_V);
    assert PteFlags(c) == fl | PTE_V;
    hide CopyFlags, CopyLeaf;
    assert (fl | PTE_V) & PTE_V != 0;
    assert Has(c, PTE_S) <==> fl & PTE_S != 0 by {
      assert (fl | PTE_V) & PTE_S != 0 <==> fl & PTE_S != 0;
    }
  }

  /** Round |mems| copied page |mems| of oldpt into mem, from state 1 to
      state 2, after the loop's progress from state 0 to state 1. */
  ghost predicate RoundCopied(f0: Frames, fl0: seq<nat>, o0: Owners, f1: Frames, fl1: seq<nat>, o1: Owners,
                              f2: Frames, fl2: seq<nat>, o2: Owners, oldpt: nat, newpt: nat, mems: seq<nat>,
                              clearShared: bool, mem: nat)
  {
    var i := PageAt(0, |mems|);
    && IsRoot(o0, oldpt) && IsRoot(o0, newpt)
    && CopyProgress(f0, fl0, o0, f1, fl1, o1, oldpt, newpt, mems, clearShared)
    && i < MAXVA && Mapped(f1, oldpt, i)
    && Leaf(f1, oldpt, i) == Leaf(f0, oldpt, i) && Leaf(f1, newpt, i) == Leaf(f0, newpt, i)
    && PageCopied(f1, fl1, o1, f2, fl2, o2, newpt, i, Pte2Pa(Leaf(f0, oldpt, i)),
                  CopyFlags(Leaf(f0, oldpt, i), clearShared), true, mem)
  }

  /** A round that copied page |mems| into mem extends the progress. */
  lemma CopyAdvance(f0: Frames, fl0: seq<nat>, o0: Owners, f1: Frames, fl1: seq<nat>, o1: Owners,
                    f2: Frames, fl2: seq<nat>, o2: Owners, oldpt: nat, newpt: nat, mems: seq<nat>, clearShared: bool, mem: nat)
    requires Inv(f0, fl0, o0)
    requires RoundCopied(f0, fl0, o0, f1, fl1, o1, f2, fl2, o2, oldpt, newpt, mems, clearShared, mem)
    ensures CopyProgress(f0, fl0, o0, f2, fl2, o2, oldpt, newpt, mems + [mem], clearShared)
  {
    AdvanceGrew(f0, fl0, o0, f1, fl1, o1, f2, fl2, o2, oldpt, newpt, mems, clearShared, mem);
    AdvanceAccounts(f0, fl0, o0, f1, fl1, o1, f2, fl2, o2, oldpt, newpt, mems, clearShared, mem);
    AdvanceRun(f0, fl0, o0, f1, fl1, o1, f2, fl2, o2, oldpt, newpt, mems, clearShared, mem);
    AdvanceFresh(f0, fl0, o0, f1, fl1, o1, f2, fl2, o2, oldpt, newpt, mems, clearShared, mem);
  }

  lemma AdvanceGrew(f0: Frames, fl0: seq<nat>, o0: Owners, f1: Frames, fl1: seq<nat>, o1: Owners,
                    f2: Frames, fl2: seq<nat>, o2: Owners, oldpt: nat, newpt: nat, mems: seq<nat>, clearShared: bool, mem: nat)
    requires RoundCopied(f0, fl0, o0, f1, fl1, o1, f2, fl2, o2, oldpt, newpt, mems, clearShared, mem)
    ensures Grew(f0, fl0, o0, f2, fl2, o2, set p | p in mems + [mem])
    ensures forall t :: IsTable(o2, t) ==> IsTable(o0, t) || t in FreeSet(fl0)
  {
    AllocGrew(f0, fl0, o0, f1, fl1, o1, f2, fl2, o2, mems, mem);
  }

  lemma AdvanceAccounts(f0: Frames, fl0: seq<nat>, o0: Owners, f1: Frames, fl1: seq<nat>, o1: Owners,
                        f2: Frames, fl2: seq<nat>, o2: Owners, oldpt: nat, newpt: nat, mems: seq<nat>, clearShared: bool, mem: nat)
    requires RoundCopied(f0, fl0, o0, f1, fl1, o1, f2, fl2, o2, oldpt, newpt, mems, clearShared, mem)
    ensures Accounted(fl2, o2) == Accounted(fl0, o0) - Leaked(f0, oldpt, mems + [mem], clearShared)
    ensures forall p :: p !in mems + [mem] ==> !SharedTarget(f0, o0, p) ==> !SharedTarget(f2, o2, p)
  {
    LeakedStep(f0, oldpt, mems, mem, clearShared);
    var x := if CopyFlags(Leaf(f0, oldpt, PageAt(0, |mems|)), clearShared) & PTE_S != 0 then {mem} else {};
    assert Accounted(fl2, o2) == Accounted(fl1, o1) - x;
    assert Accounted(fl1, o1) == Accounted(fl0, o0) - Leaked(f0, oldpt, mems, clearShared);
    hide RoundCopied, PageCopied, CopyProgress;
    SetMinusTwice(Accounted(fl0, o0), Accounted(fl1, o1), Accounted(fl2, o2), Leaked(f0, oldpt, mems, clearShared), x);
  }

  /** Taking away a and then b takes away a + b. */
  lemma SetMinusTwice(s0: set<nat>, s1: set<nat>, s2: set<nat>, a: set<nat>, b: set<nat>)
    requires s1 == s0 - a && s2 == s1 - b
    ensures s2 == s0 - (a + b)
  {
  }

  lemma AdvanceRun(f0: Frames, fl0: seq<nat>, o0: Owners, f1: Frames, fl1: seq<nat>, o1: Owners,
                   f2: Frames, fl2: seq<nat>, o2: Owners, oldpt: nat, newpt: nat, mems: seq<nat>, clearShared: bool, mem: nat)
    requires RoundCopied(f0, fl0, o0, f1, fl1, o1, f2, fl2, o2, oldpt, newpt, mems, clearShared, mem)
    ensures CopiedRun(f0, o0, f2, oldpt, newpt, mems + [mem], clearShared)
    ensures WereUnmapped(f0, newpt, 0, |mems| + 1)
  {
    var i := PageAt(0, |mems|);
    PageAtAligned(0, |mems|);
    assert LeafSet(f1, o1, f2, newpt, |mems|, CopyLeaf(Leaf(f0, oldpt, i), mem, clearShared));
    assert !Mapped(f0, newpt, i);
    assert CopiedRun(f0, o0, f1, oldpt, newpt, mems, clearShared) && WereUnmapped(f0, newpt, 0, |mems|);
    assert forall q :: IsRoot(o1, q) <==> IsRoot(o0, q);
    hide RoundCopied, PageCopied, CopyProgress;
    CopyRunExtend(f0, o0, f1, o1, f2, oldpt, newpt, mems, clearShared, mem);
    WereUnmappedStep(f0, newpt, 0, |mems|);
  }

  lemma AdvanceFresh(f0: Frames, fl0: seq<nat>, o0: Owners, f1: Frames, fl1: seq<nat>, o1: Owners,
                     f2: Frames, fl2: seq<nat>, o2: Owners, oldpt: nat, newpt: nat, mems: seq<nat>, clearShared: bool, mem: nat)
    requires Inv(f0, fl0, o0)
    requires RoundCopied(f0, fl0, o0, f1, fl1, o1, f2, fl2, o2, oldpt, newpt, mems, clearShared, mem)
    ensures FreshCopies(f0, fl0, f2, fl2, o2, oldpt, mems + [mem], clearShared)
  {
    hide Inv, CopiedRun, WereUnmapped, LeafSet, Leaked, Mapped, CopiedFrame, SharedTarget;
    NewCopy(f0, fl0, o0, f1, fl1, o1, f2, fl2, o2, oldpt, newpt, mems, clearShared, mem);
    CopyFreshExtend(f0, fl0, f1, fl1, o1, f2, fl2, o2, oldpt, mems, clearShared, mem);
  }

  /** The round's copy is a fresh frame holding the page's bytes. */
  lemma NewCopy(f0: Frames, fl0: seq<nat>, o0: Owners, f1: Frames, fl1: seq<nat>, o1: Owners,
                f2: Frames, fl2: seq<nat>, o2: Owners, oldpt: nat, newpt: nat, mems: seq<nat>, clearShared: bool, mem: nat)
    requires Inv(f0, fl0, o0)
    requires RoundCopied(f0, fl0, o0, f1, fl1, o1, f2, fl2, o2, oldpt, newpt, mems, clearShared, mem)
    ensures CopiedFrame(f0, fl0, f2, fl2, o2, Leaf(f0, oldpt, PageAt(0, |mems|)), mem, clearShared)
    ensures o2.Keys <= o1.Keys + FreeSet(fl1)
  {
    hide CopiedRun, WereUnmapped, LeafSet, Leaked, FreshCopies;
    SourceUntouched(f0, fl0, o0, f1, fl1, o1, oldpt, newpt, mems, clearShared);
    assert Accounted(fl2, o2) <= Accounted(fl1, o1);
  }

  /** The frame that page |mems| of oldpt maps in state 0 is still as it
      was: it is in use, so none of the copies, and no page table. */
  lemma SourceUntouched(f0: Frames, fl0: seq<nat>, o0: Owners, f1: Frames, fl1: seq<nat>, o1: Owners,
                        oldpt: nat, newpt: nat, mems: seq<nat>, clearShared: bool)
    requires Inv(f0, fl0, o0) && IsRoot(o0, oldpt)
    requires CopyProgress(f0, fl0, o0, f1, fl1, o1, oldpt, newpt, mems, clearShared)
    requires PageAt(0, |mems|) < MAXVA && Mapped(f0, oldpt, PageAt(0, |mems|))
    ensures var pa := Pte2Pa(Leaf(f0, oldpt, PageAt(0, |mems|)));
            pa in f0 && pa in f1 && f1[pa] == f0[pa]
  {
    var pa := Pte2Pa(Leaf(f0, oldpt, PageAt(0, |mems|)));
    LeafTarget(f0, fl0, o0, oldpt, PageAt(0, |mems|));
    forall k | 0 <= k < |mems| ensures mems[k] != pa {
      assert CopiedFrame(f0, fl0, f1, fl1, o1, Leaf(f0, oldpt, PageAt(0, k)), mems[k], clearShared);
    }
    assert !IsTable(o1, pa);
  }

  /** The leaked set grows by the new copy exactly when it carries PTE_S. */
  lemma LeakedStep(f0: Frames, oldpt: nat, mems: seq<nat>, mem: nat, clearShared: bool)
    ensures Leaked(f0, oldpt, mems + [mem], clearShared) ==
      Leaked(f0, oldpt, mems, clearShared) +
      (if CopyFlags(Leaf(f0, oldpt, PageAt(0, |mems|)), clearShared) & PTE_S != 0 then {mem} else {})
  {
    var mems' := mems + [mem];
    forall k | 0 <= k < |mems| ensures mems'[k] == mems[k] { }
  }

  lemma CopyRunExtend(f0: Frames, o0: Owners, f1: Frames, o1: Owners, f2: Frames,
                      oldpt: nat, newpt: nat, mems: seq<nat>, clearShared: bool, mem: nat)
    requires CopiedRun(f0, o0, f1, oldpt, newpt, mems, clearShared)
    requires forall q :: IsRoot(o1, q) <==> IsRoot(o0, q)
    requires PageAt(0, |mems|) / PGSIZE == |mems|
    requires LeafSet(f1, o1, f2, newpt, |mems|, CopyLeaf(Leaf(f0, oldpt, PageAt(0, |mems|)), mem, clearShared))
    ensures CopiedRun(f0, o0, f2, oldpt, newpt, mems + [mem], clearShared)
  {
    forall v: nat | v < MAXVA && v / PGSIZE == |mems|
      ensures Leaf(f0, oldpt, v) == Leaf(f0, oldpt, PageAt(0, |mems|))
    {
      SamePageLeaf(f0, oldpt, v, PageAt(0, |mems|));
    }
  }

  lemma CopyFreshExtend(f0: Frames, fl0: seq<nat>, f1: Frames, fl1: seq<nat>, o1: Owners,
                        f2: Frames, fl2: seq<nat>, o2: Owners, oldpt: nat, mems: seq<nat>, clearShared: bool, mem: nat)
    requires FreshCopies(f0, fl0, f1, fl1, o1, oldpt, mems, clearShared)
    requires FreeSet(fl1) <= FreeSet(fl0) && FreeSet(fl2) <= FreeSet(fl1)
    requires f2.Keys == f1.Keys && forall f :: f in o1 ==> f in o2 && o2[f] == o1[f]
    requires forall t :: IsTable(o2, t) ==> IsTable(o1, t) || t in FreeSet(fl1)
    requires o2.Keys <= o1.Keys + FreeSet(fl1)
    requires forall f :: f in f1 && !IsTable(o2, f) && f != mem ==> f2[f] == f1[f]
    requires forall p :: p != mem ==> !SharedTarget(f1, o1, p) ==> !SharedTarget(f2, o2, p)
    requires mem in FreeSet(fl1)
    requires CopiedFrame(f0, fl0, f2, fl2, o2, Leaf(f0, oldpt, PageAt(0, |mems|)), mem, clearShared)
    ensures FreshCopies(f0, fl0, f2, fl2, o2, oldpt, mems + [mem], clearShared)
  {
    var mems' := mems + [mem];
    forall k | 0 <= k < |mems|
      ensures mems[k] != mem
      ensures CopiedFrame(f0, fl0, f2, fl2, o2, Leaf(f0, oldpt, PageAt(0, k)), mems[k], clearShared)
    {
      var w := Leaf(f0, oldpt, PageAt(0, k));
      assert CopiedFrame(f0, fl0, f1, fl1, o1, w, mems[k], clearShared);
      assert !IsTable(o2, mems[k]);
      assert mems[k] in o2 <==> mems[k] in o1;
    }
    forall j, k | 0 <= j < k < |mems'| ensures mems'[j] != mems'[k] {
      if k == |mems| {
        assert mems'[j] == mems[j];
      } else {
        assert mems'[j] == mems[j] && mems'[k] == mems[k];
      }
    }
    forall k | 0 <= k < |mems'|
      ensures CopiedFrame(f0, fl0, f2, fl2, o2, Leaf(f0, oldpt, PageAt(0, k)), mems'[k], clearShared)
    {
      if k < |mems| {
        assert mems'[k] == mems[k];
      }
    }
  }

  /** The copies a failed uvmcopy made, unmapped by uvmunmap with do_free:
      every mapping is back, and only the copies with PTE_S stay lost. */
  lemma CopyUndone(f0: Frames, fl0: seq<nat>, o0: Owners, f2: Frames, fl2: seq<nat>, o2: Owners,
                   f3: Frames, fl3: seq<nat>, o3: Owners, oldpt: nat, newpt: nat, mems: seq<nat>, clearShared: bool)
    requires IsRoot(o0, newpt)
    requires CopyStalled(f0, fl0, o0, f2, fl2, o2, oldpt, newpt, mems, clearShared)
    requires Unmapped(f2, fl2, o2, f3, fl3, o3, newpt, 0, |mems|)
    ensures Accounted(fl3, o3) == Accounted(fl0, o0) - Leaked(f0, oldpt, mems, clearShared)
    ensures SameMappings(f0, o0, f3)
  {
    var fs := Freed(f2, newpt, 0, |mems|);
    forall p | p in FreeSet(fs) ensures p in o2 {
      var j :| 0 <= j < |fs| && fs[j] == p;
      assert p in fs;
      var k :| 0 <= k < |mems| && Owning(Leaf(f2, newpt, PageAt(0, k))) && Pte2Pa(Leaf(f2, newpt, PageAt(0, k))) == p;
    }
    UndoneAccounted(fs, fl2, o2, fl3, o3);
    CopyUndoneMappings(f0, o0, f2, o2, f3, oldpt, newpt, mems, clearShared);
  }

  /** Clearing the copied run leaves each mapping as it was, or zero where
      there was none. */
  lemma CopyUndoneMappings(f0: Frames, o0: Owners, f2: Frames, o2: Owners, f3: Frames,
                           oldpt: nat, newpt: nat, mems: seq<nat>, clearShared: bool)
    requires IsRoot(o0, newpt)
    requires forall q :: IsRoot(o2, q) <==> IsRoot(o0, q)
    requires CopiedRun(f0, o0, f2, oldpt, newpt, mems, clearShared)
    requires WereUnmapped(f0, newpt, 0, |mems|)
    requires ClearedRun(f2, o2, f3, newpt, 0, |mems|)
    ensures SameMappings(f0, o0, f3)
  {
    forall q: nat, v: nat | IsRoot(o0, q) && v < MAXVA
      ensures Leaf(f3, q, v) == Leaf(f0, q, v) || (!Mapped(f0, q, v) && Leaf(f3, q, v) == 0)
    {
      assert IsRoot(o2, q);
      if q == newpt && v / PGSIZE < |mems| {
        var k := v / PGSIZE;
        PageAtAligned(0, k);
        SamePageLeaf(f0, newpt, v, PageAt(0, k));
      }
    }
  }

  /** uvmcopy panics on page va when it is at or above MAXVA, missing from
      oldpt, or already mapped in newpt. */
  predicate MissedPage(f: Frames, oldpt: nat, newpt: nat, va: nat)
  {
    va >= MAXVA || !Mapped(f, oldpt, va) || Mapped(f, newpt, va)
  }

  /** The loop of uvmcopy(old, new, sz), copying each page below sz of root
      oldpt into a fresh frame mapped at the same address in root newpt;
      with clearShared the copies drop PTE_S. Returns 0, or -1 when memory
      runs out, after unmapping (and freeing, unless they carry PTE_S) the
      copies made so far. Panics when a page of oldpt is missing or a page
      of newpt is already mapped. The ghost mems are the copies. */
  method CopyPages(m: Machine, oldpt: nat, newpt: nat, sz: nat, clearShared: bool) returns (r: Res<int>, ghost mems: seq<nat>)
    requires m.Valid() && IsRoot(m.owner, oldpt) && IsRoot(m.owner, newpt)
    modifies m
    ensures r.Panic? ==> exists k :: 0 <= k < Pages(sz) && MissedPage(old(m.frames), oldpt, newpt, PageAt(0, k))
    ensures r.Ret? ==> m.Valid() && (r.value == 0 || r.value == -1) && |mems| <= Pages(sz)
    ensures r.Ret? ==> forall k :: 0 <= k < |mems| ==> mems[k] in FreeSet(old(m.freeList))
    ensures r.Ret? ==>
      Accounted(m.freeList, m.owner) == Accounted(old(m.freeList), old(m.owner)) - Leaked(old(m.frames), oldpt, mems, clearShared)
    ensures r.Ret? && 3 * Pages(sz) <= |old(m.freeList)| ==> r.value == 0
    ensures r == Ret(0) ==>
      && |mems| == Pages(sz)
      && CopiedRun(old(m.frames), old(m.owner), m.frames, oldpt, newpt, mems, clearShared)
      && FreshCopies(old(m.frames), old(m.freeList), m.frames, m.freeList, m.owner, oldpt, mems, clearShared)
    ensures r == Ret(-1) ==> SameMappings(old(m.frames), old(m.owner), m.frames)
  {
    ghost var f0, fl0, o0, n := m.frames, m.freeList, m.owner, Pages(sz);
    var i := 0;
    mems := [];
    CopyStart(f0, fl0, o0, oldpt, newpt, clearShared);
    while i < sz
      invariant i == PageAt(0, |mems|) && |mems| <= n
      invariant m.Valid() && IsRoot(m.owner, oldpt) && IsRoot(m.owner, newpt)
      invariant CopyProgress(f0, fl0, o0, m.frames, m.freeList, m.owner, oldpt, newpt, mems, clearShared)
      invariant |m.freeList| + 3 * |mems| >= |fl0|
      decreases sz - i
    {
      var c, mem := CopyRound(m, oldpt, newpt, i, clearShared, mems, f0, fl0, o0);
      if c.Panic? {
        return Panic(c.msg), mems;
      }
      if !c.value {
        CopyErr(m, oldpt, newpt, i, clearShared, mems, f0, fl0, o0);
        return Ret(-1), mems;
      }
      mems := mems + [mem];
      i := i + PGSIZE;
    }
    return Ret(0), mems;
  }

  /** Lines 158-159 of uvmcopy, after running out of memory on page i:
      unmap, with do_free, the i / PGSIZE pages copied so far. */
  method CopyErr(m: Machine, oldpt: nat, newpt: nat, i: nat, clearShared: bool, ghost mems: seq<nat>,
                 ghost f0: Frames, ghost fl0: seq<nat>, ghost o0: Owners)
    requires m.Valid() && IsRoot(o0, newpt) && i == PageAt(0, |mems|)
    requires CopyStalled(f0, fl0, o0, m.frames, m.freeList, m.owner, oldpt, newpt, mems, clearShared)
    modifies m
    ensures m.Valid()
    ensures Accounted(m.freeList, m.owner) == Accounted(fl0, o0) - Leaked(f0, oldpt, mems, clearShared)
    ensures SameMappings(f0, o0, m.frames)
  {
    PageAtAligned(0, |mems|);
    ghost var f2, fl2, o2 := m.frames, m.freeList, m.owner;
    assert IsRoot(o2, newpt);
    var u := UvmUnmap(m, newpt, 0, i / PGSIZE, true);
    assert u.Ret?;
    assert Unmapped(f2, fl2, o2, m.frames, m.freeList, m.owner, newpt, 0, |mems|);
    CopyUndone(f0, fl0, o0, f2, fl2, o2, m.frames, m.freeList, m.owner, oldpt, newpt, mems, clearShared);
  }

  // ---------------------------------------------------------------------
  // uvmcopy as written, and with the copies made private.

  /** uvmcopy(old, new, sz) as written: each copy keeps the old leaf's
      flags, PTE_S included. A copy that carries PTE_S is owned by no leaf,
      so uvmunmap never frees it: it leaves the accounted frames for good. */
  method UvmCopy(m: Machine, oldpt: nat, newpt: nat, sz: nat) returns (r: Res<int>, ghost mems: seq<nat>)
    requires m.Valid() && IsRoot(m.owner, oldpt) && IsRoot(m.owner, newpt)
    modifies m
    ensures r.Panic? ==> exists k :: 0 <= k < Pages(sz) && MissedPage(old(m.frames), oldpt, newpt, PageAt(0, k))
    ensures r.Ret? ==> m.Valid() && (r.value == 0 || r.value == -1)
    ensures r.Ret? ==>
      Accounted(m.freeList, m.owner) == Accounted(old(m.freeList), old(m.owner)) - Leaked(old(m.frames), oldpt, mems, false)
    ensures r.Ret? ==> forall k :: 0 <= k < |mems| && Has(Leaf(old(m.frames), oldpt, PageAt(0, k)), PTE_S) ==>
      mems[k] in Accounted(old(m.freeList), old(m.owner)) && mems[k] !in Accounted(m.freeList, m.owner)
    ensures r.Ret? && 3 * Pages(sz) <= |old(m.freeList)| ==> r.value == 0
    ensures r == Ret(0) ==>
      && |mems| == Pages(sz)
      && CopiedRun(old(m.frames), old(m.owner), m.frames, oldpt, newpt, mems, false)
      && FreshCopies(old(m.frames), old(m.freeList), m.frames, m.freeList, m.owner, oldpt, mems, false)
    ensures r == Ret(-1) ==> SameMappings(old(m.frames), old(m.owner), m.frames)
  {
    r, mems := CopyPages(m, oldpt, newpt, sz, false);
    if r.Ret? {
      forall k | 0 <= k < |mems| && Has(Leaf(old(m.frames), oldpt, PageAt(0, k)), PTE_S)
        ensures mems[k] in Leaked(old(m.frames), oldpt, mems, false)
      {
        SharedCopyLeaked(old(m.frames), oldpt, mems, k);
      }
    }
  }

  /** A copy of a PTE_S page made by uvmcopy as written is leaked. */
  lemma SharedCopyLeaked(f0: Frames, oldpt: nat, mems: seq<nat>, k: nat)
    requires k < |mems| && Has(Leaf(f0, oldpt, PageAt(0, k)), PTE_S)
    ensures mems[k] in Leaked(f0, oldpt, mems, false)
  {
  }

  /** Copies that drop PTE_S are never leaked. */
  lemma PrivateCopiesKept(f0: Frames, oldpt: nat, mems: seq<nat>)
    ensures Leaked(f0, oldpt, mems, true) == {}
  {
  }

  /** uvmcopy with the copies made private: each copy drops PTE_S and is
      owned by its leaf, so no frame leaves the accounted set and the
      child's copies are freed with its address space. */
  method UvmCopyPrivate(m: Machine, oldpt: nat, newpt: nat, sz: nat) returns (r: Res<int>, ghost mems: seq<nat>)
    requires m.Valid() && IsRoot(m.owner, oldpt) && IsRoot(m.owner, newpt)
    modifies m
    ensures r.Panic? ==> exists k :: 0 <= k < Pages(sz) && MissedPage(old(m.frames), oldpt, newpt, PageAt(0, k))
    ensures r.Ret? ==> m.Valid() && (r.value == 0 || r.value == -1)
    ensures r.Ret? ==> Accounted(m.freeList, m.owner) == Accounted(old(m.freeList), old(m.owner))
    ensures r.Ret? && 3 * Pages(sz) <= |old(m.freeList)| ==> r.value == 0
    ensures r == Ret(0) ==>
      && |mems| == Pages(sz)
      && CopiedRun(old(m.frames), old(m.owner), m.frames, oldpt, newpt, mems, true)
      && FreshCopies(old(m.frames), old(m.freeList), m.frames, m.freeList, m.owner, oldpt, mems, true)
      && (forall k :: 0 <= k < |mems| ==> mems[k] in m.owner && !SharedTarget(m.frames, m.owner, mems[k]))
    ensures r == Ret(-1) ==> SameMappings(old(m.frames), old(m.owner), m.frames)
  {
    ghost var f0, fl0 := m.frames, m.freeList;
    r, mems := CopyPages(m, oldpt, newpt, sz, true);
    PrivateCopiesKept(f0, oldpt, mems);
    if r == Ret(0) {
      forall k | 0 <= k < |mems| ensures mems[k] in m.owner && !SharedTarget(m.frames, m.owner, mems[k]) {
        assert CopiedFrame(f0, fl0, m.frames, m.freeList, m.owner, Leaf(f0, oldpt, PageAt(0, k)), mems[k], true);
      }
    }
  }
}
