/** Tearing a page table down: freewalk and uvmfree of kernel/vm.c.

    freewalk breaks the machine invariant while it runs: a child subtree is
    already on the free list while its parent slot still points at it, until
    the slot is zeroed. Its contract is therefore stated over the subtree it
    is given (TreeOk), and uvmfree re-establishes the whole invariant once
    the entire tree below a root is gone. */
module Teardown {
  import opened Sv39
  import opened Outcomes
  import opened Phys
  import opened PageTable

  /** Path q runs through the node at path p. */
  predicate Extends(q: seq<nat>, p: seq<nat>)
  {
    |p| <= |q| && q[..|p|] == p
  }

  /** The tables of u's subtree: the tables under u's root whose path runs
      through u's (u among them). */
  ghost function Sub(o: Owners, u: nat): set<nat>
    requires IsTable(o, u)
  {
    set v | v in o && o[v].TableOf? && o[v].root == o[u].root && Extends(o[v].path, o[u].path)
  }

  /** The tables of u's subtree below u's slots 0 .. i-1. */
  ghost function Below(o: Owners, u: nat, i: nat): set<nat>
    requires IsTable(o, u)
  {
    set v | v in Sub(o, u) && |o[u].path| < |o[v].path| && o[v].path[|o[u].path|] < i
  }

  /** Some level-0 table of u's subtree holds a valid entry: freewalk's
      "leaf" panic. */
  ghost predicate HasLeaf(f: Frames, o: Owners, u: nat)
    requires IsTable(o, u)
  {
    exists v: nat, j: nat :: v in Sub(o, u) && o[v].level == 0 && j < ENTRIES && IsValid(Entry(f, v, j))
  }

  /** What freewalk needs of the subtree at u: every table in it is well
      formed, and the free list is duplicate free and holds none of them. */
  ghost predicate TreeOk(f: Frames, fl: seq<nat>, o: Owners, u: nat)
  {
    && IsTable(o, u)
    && (forall v {:trigger OwnerOk(f, o, v)} :: v in Sub(o, u) ==> OwnerOk(f, o, v))
    && (forall j, k :: 0 <= j < k < |fl| ==> fl[j] != fl[k])
    && (forall k :: 0 <= k < |fl| ==> fl[k] !in Sub(o, u))
  }

  /** From state 0 the subtree at t was torn down: its tables lost their
      owners and went on the free list, each once; they hold no valid entry;
      no other frame changed. */
  ghost predicate TornDown(f0: Frames, fl0: seq<nat>, o0: Owners, f: Frames, fl: seq<nat>, o: Owners, t: nat)
    requires IsTable(o0, t)
  {
    var s := Sub(o0, t);
    && f.Keys == f0.Keys
    && (forall v :: v in f0 && v !in s ==> f[v] == f0[v])
    && o == o0 - s
    && (forall j, k :: 0 <= j < k < |fl| ==> fl[j] != fl[k])
    && FreeSet(fl) == FreeSet(fl0) + s
    && (forall v, j: nat :: v in s && j < ENTRIES ==> !IsValid(Entry(f, v, j)))
  }

  /** freewalk's loop at table t after slots 0 .. i-1: those slots are
      invalid (the valid ones were zeroed after their subtrees were torn
      down), the subtrees below them are gone, and none of them held a leaf. */
  ghost predicate Walked(f0: Frames, fl0: seq<nat>, o0: Owners, f: Frames, fl: seq<nat>, o: Owners, t: nat, i: nat)
    requires IsTable(o0, t)
  {
    WalkedMem(f0, o0, f, t, i) && WalkedFree(fl0, o0, fl, o, t, i)
  }

  /** The memory half of Walked. */
  ghost predicate WalkedMem(f0: Frames, o0: Owners, f: Frames, t: nat, i: nat)
    requires IsTable(o0, t)
  {
    var b := Below(o0, t, i);
    && f.Keys == f0.Keys
    && (forall v :: v in f0 && v !in b && v != t ==> f[v] == f0[v])
    && t in f && f[t].PtFrame? && |f[t].ptes| == ENTRIES
    && (forall j :: 0 <= j < ENTRIES ==>
          Entry(f, t, j) == if j < i && IsValid(Entry(f0, t, j)) then 0 else Entry(f0, t, j))
    && (forall v, j: nat :: v in b && j < ENTRIES ==> !IsValid(Entry(f, v, j)))
    && (forall v, j: nat :: v in b && o0[v].level == 0 && j < ENTRIES ==> !IsValid(Entry(f0, v, j)))
    && (o0[t].level == 0 ==> forall j :: 0 <= j < i ==> !IsValid(Entry(f0, t, j)))
  }

  /** The owner and free-list half of Walked. */
  ghost predicate WalkedFree(fl0: seq<nat>, o0: Owners, fl: seq<nat>, o: Owners, t: nat, i: nat)
    requires IsTable(o0, t)
  {
    var b := Below(o0, t, i);
    && o == o0 - b
    && (forall j, k :: 0 <= j < k < |fl| ==> fl[j] != fl[k])
    && FreeSet(fl) == FreeSet(fl0) + b
  }

  /** freewalk(pagetable): post-order, tear down every child table, zeroing
      its slot, and free the table itself; a valid entry with R, W or X (a
      leaf) panics. It panics exactly when a level-0 table of the subtree
      holds a valid entry, and otherwise frees exactly the subtree's tables. */
  method FreeWalk(m: Machine, pagetable: nat, ghost lvl: nat) returns (r: Res<()>)
    requires TreeOk(m.frames, m.freeList, m.owner, pagetable) && m.owner[pagetable].level == lvl
    modifies m
    decreases lvl, 1
    ensures r.Panic? <==> HasLeaf(old(m.frames), old(m.owner), pagetable)
    ensures r.Ret? ==> TornDown(old(m.frames), old(m.freeList), old(m.owner), m.frames, m.freeList, m.owner, pagetable)
  {
    ghost var f0, fl0, o0 := m.frames, m.freeList, m.owner;
    WalkedInit(f0, fl0, o0, pagetable);
    var i := 0;
    while i < ENTRIES
      invariant i <= ENTRIES
      invariant Walked(f0, fl0, o0, m.frames, m.freeList, m.owner, pagetable, i)
    {
      var res := FreeSlot(m, pagetable, i, lvl, f0, fl0, o0);
      if res.Panic? {
        return res;
      }
      i := i + 1;
    }
    WalkedAll(f0, fl0, o0, m.frames, m.freeList, m.owner, pagetable);
    m.Kfree(pagetable);
    m.owner := m.owner - {pagetable};
    r := Ret(());
  }

  /** One round of freewalk's loop: slot i of table pagetable. */
  method FreeSlot(m: Machine, pagetable: nat, i: nat, ghost lvl: nat, ghost f0: Frames, ghost fl0: seq<nat>,
                  ghost o0: Owners) returns (r: Res<()>)
    requires TreeOk(f0, fl0, o0, pagetable) && o0[pagetable].level == lvl && i < ENTRIES
    requires Walked(f0, fl0, o0, m.frames, m.freeList, m.owner, pagetable, i)
    modifies m
    decreases lvl, 0
    ensures r.Panic? ==> HasLeaf(f0, o0, pagetable)
    ensures r.Ret? ==> Walked(f0, fl0, o0, m.frames, m.freeList, m.owner, pagetable, i + 1)
  {
    var pte := m.frames[pagetable].ptes[i];
    if IsValid(pte) && !Has(pte, PTE_RWX) {
      ChildReady(f0, fl0, o0, m.frames, m.freeList, m.owner, pagetable, i);
      ghost var f1, fl1, o1 := m.frames, m.freeList, m.owner;
      r := FreeWalk(m, Pte2Pa(pte), lvl - 1);
      if r.Panic? {
        ChildLeaf(f0, fl0, o0, f1, fl1, o1, pagetable, i);
        return;
      }
      ChildDone(f0, fl0, o0, f1, fl1, o1, m.frames, m.freeList, m.owner, pagetable, i);
      m.frames := SetEntry(m.frames, Slot(pagetable, i), 0);
    } else if IsValid(pte) {
      LeafAt(f0, fl0, o0, m.frames, m.freeList, m.owner, pagetable, i);
      return Panic("freewalk: leaf");
    } else {
      SkipSlot(f0, fl0, o0, m.frames, m.freeList, m.owner, pagetable, i);
      r := Ret(());
    }
  }

  // ---------------------------------------------------------------------
  // Paths.

  lemma ExtendsSelf(p: seq<nat>)
    ensures Extends(p, p)
  {
    assert p[..|p|] == p;
  }

  /** A path runs through p + [i] exactly when it runs through p and its
      next index is i. */
  lemma ExtendsChild(q: seq<nat>, p: seq<nat>, i: nat)
    ensures Extends(q, p + [i]) <==> Extends(q, p) && |p| < |q| && q[|p|] == i
  {
    if Extends(q, p + [i]) {
      assert q[..|p|] == q[..|p| + 1][..|p|];
      assert q[|p|] == q[..|p| + 1][|p|];
    }
    if Extends(q, p) && |p| < |q| && q[|p|] == i {
      assert q[..|p| + 1] == q[..|p|] + [q[|p|]];
    }
  }

  /** The subtree of u contains u. */
  lemma SubSelf(o: Owners, u: nat)
    requires IsTable(o, u)
    ensures u in Sub(o, u)
  {
    ExtendsSelf(o[u].path);
  }

  /** In a well-formed subtree, a table below t is reached through a valid
      slot of t: the one its path names next. */
  lemma SlotOfDescendant(f: Frames, fl: seq<nat>, o: Owners, u: nat, t: nat, v: nat)
    requires TreeOk(f, fl, o, u) && t in Sub(o, u) && v in Sub(o, t)
    requires |o[t].path| < |o[v].path|
    ensures IsValid(Entry(f, t, o[v].path[|o[t].path|]))
  {
    assert v in Sub(o, u);
    assert OwnerOk(f, o, t) && OwnerOk(f, o, v);
    var p, q := o[t].path, o[v].path;
    if |p| == 1 {
      assert q[0] == p[0];
    }
  }

  /** In a well-formed subtree one path names one table. */
  lemma SamePathSameTable(f: Frames, fl: seq<nat>, o: Owners, u: nat, t: nat, v: nat)
    requires TreeOk(f, fl, o, u) && t in Sub(o, u) && v in Sub(o, u)
    requires o[t].path == o[v].path
    ensures t == v
  {
    assert OwnerOk(f, o, t) && OwnerOk(f, o, v);
  }

  // ---------------------------------------------------------------------
  // The steps of freewalk's loop.

  lemma WalkedInit(f0: Frames, fl0: seq<nat>, o0: Owners, t: nat)
    requires TreeOk(f0, fl0, o0, t)
    ensures Walked(f0, fl0, o0, f0, fl0, o0, t, 0)
  {
    SubSelf(o0, t);
    assert OwnerOk(f0, o0, t);
    assert Below(o0, t, 0) == {};
    assert o0 - {} == o0;
  }

  /** The child table behind slot i of t, as freewalk's recursion sees it:
      one level down, its subtree untouched by the loop so far and well formed. */
  lemma ChildReady(f0: Frames, fl0: seq<nat>, o0: Owners, f: Frames, fl: seq<nat>, o: Owners, t: nat, i: nat)
    requires TreeOk(f0, fl0, o0, t) && Walked(f0, fl0, o0, f, fl, o, t, i) && i < ENTRIES
    requires IsValid(Entry(f, t, i)) && !Has(Entry(f, t, i), PTE_RWX)
    ensures var c := Pte2Pa(Entry(f, t, i));
      && o0[t].level > 0
      && IsTable(o0, c) && o0[c] == TableOf(o0[t].root, o0[t].level - 1, o0[t].path + [i])
      && t !in Sub(o0, c)
      && (forall v :: v in Sub(o0, c) <==> v in Sub(o0, t) && |o0[t].path| < |o0[v].path| && o0[v].path[|o0[t].path|] == i)
      && IsTable(o, c) && o[c] == o0[c] && Sub(o, c) == Sub(o0, c)
      && TreeOk(f, fl, o, c)
  {
    var c := Pte2Pa(Entry(f, t, i));
    SubSelf(o0, t);
    assert OwnerOk(f0, o0, t);
    assert SlotOk(f0, o0, t, i);
    var p := o0[t].path;
    var b := Below(o0, t, i);
    forall v ensures v in Sub(o0, c) <==> v in Sub(o0, t) && |p| < |o0[v].path| && o0[v].path[|p|] == i {
      if v in o0 && o0[v].TableOf? {
        ExtendsChild(o0[v].path, p, i);
      }
    }
    assert c !in b;
    forall v | v in Sub(o0, c) ensures v in o && o[v] == o0[v] {
      assert v !in b;
    }
    assert Sub(o, c) == Sub(o0, c);
    forall v | v in Sub(o, c) ensures OwnerOk(f, o, v) {
      KeptOwnerOk(f0, fl0, o0, f, fl, o, t, i, v);
    }
    forall k | 0 <= k < |fl| ensures fl[k] !in Sub(o, c) {
      assert fl[k] in FreeSet(fl);
      if fl[k] in FreeSet(fl0) {
        var k0 :| 0 <= k0 < |fl0| && fl0[k0] == fl[k];
      }
    }
  }

  /** A table of the child's subtree is as well formed as it was on entry. */
  lemma KeptOwnerOk(f0: Frames, fl0: seq<nat>, o0: Owners, f: Frames, fl: seq<nat>, o: Owners, t: nat, i: nat, v: nat)
    requires TreeOk(f0, fl0, o0, t) && Walked(f0, fl0, o0, f, fl, o, t, i) && i < ENTRIES
    requires IsValid(Entry(f, t, i)) && !Has(Entry(f, t, i), PTE_RWX)
    requires var c := Pte2Pa(Entry(f, t, i));
      && o0[t].level > 0
      && IsTable(o0, c) && o0[c] == TableOf(o0[t].root, o0[t].level - 1, o0[t].path + [i])
      && (forall w :: w in Sub(o0, c) <==> w in Sub(o0, t) && |o0[t].path| < |o0[w].path| && o0[w].path[|o0[t].path|] == i)
    requires v in Sub(o0, Pte2Pa(Entry(f, t, i)))
    ensures v in o && OwnerOk(f, o, v)
  {
    var c := Pte2Pa(Entry(f, t, i));
    var b := Below(o0, t, i);
    var p := o0[t].path;
    SubSelf(o0, t);
    assert OwnerOk(f0, o0, t);
    assert OwnerOk(f0, o0, v);
    assert v !in b && v != t;
    var rt, lv, q := o0[v].root, o0[v].level, o0[v].path;
    assert rt !in b;
    forall j | 0 <= j < ENTRIES ensures SlotOk(f, o, v, j) {
      KeptSlotOk(f0, fl0, o0, f, fl, o, t, i, v, j);
    }
    if |p| == 1 {
      assert rt != t;
    }
  }

  /** One slot of a table of the child's subtree is as well formed as it
      was on entry. */
  lemma KeptSlotOk(f0: Frames, fl0: seq<nat>, o0: Owners, f: Frames, fl: seq<nat>, o: Owners, t: nat, i: nat, v: nat, j: nat)
    requires TreeOk(f0, fl0, o0, t) && Walked(f0, fl0, o0, f, fl, o, t, i) && i < ENTRIES && j < ENTRIES
    requires IsValid(Entry(f, t, i)) && !Has(Entry(f, t, i), PTE_RWX)
    requires var c := Pte2Pa(Entry(f, t, i));
      && o0[t].level > 0
      && IsTable(o0, c) && o0[c] == TableOf(o0[t].root, o0[t].level - 1, o0[t].path + [i])
      && (forall w :: w in Sub(o0, c) <==> w in Sub(o0, t) && |o0[t].path| < |o0[w].path| && o0[w].path[|o0[t].path|] == i)
    requires v in Sub(o0, Pte2Pa(Entry(f, t, i)))
    ensures SlotOk(f, o, v, j)
  {
    var b := Below(o0, t, i);
    SubSelf(o0, t);
    assert OwnerOk(f0, o0, v);
    assert v !in b && v != t;
    var lv, q := o0[v].level, o0[v].path;
    assert SlotOk(f0, o0, v, j);
    var w := Entry(f0, v, j);
    if IsValid(w) && lv > 0 {
      var x := Pte2Pa(w);
      ExtendsChild(q + [j], q, j);
      assert q + [j] == o0[x].path;
      assert x !in b;
    } else if IsValid(w) && !Has(w, PTE_S) {
      assert Pte2Pa(w) !in b;
    }
  }

  /** The child's leaf is a leaf of t's subtree. */
  lemma ChildLeaf(f0: Frames, fl0: seq<nat>, o0: Owners, f: Frames, fl: seq<nat>, o: Owners, t: nat, i: nat)
    requires TreeOk(f0, fl0, o0, t) && Walked(f0, fl0, o0, f, fl, o, t, i) && i < ENTRIES
    requires IsValid(Entry(f, t, i)) && !Has(Entry(f, t, i), PTE_RWX)
    requires IsTable(o, Pte2Pa(Entry(f, t, i))) && HasLeaf(f, o, Pte2Pa(Entry(f, t, i)))
    ensures HasLeaf(f0, o0, t)
  {
    ChildReady(f0, fl0, o0, f, fl, o, t, i);
    var c := Pte2Pa(Entry(f, t, i));
    var v: nat, j: nat :| v in Sub(o, c) && o[v].level == 0 && j < ENTRIES && IsValid(Entry(f, v, j));
    assert v in Sub(o0, t) && v !in Below(o0, t, i) && v != t;
    assert o0[v].level == 0 && IsValid(Entry(f0, v, j));
  }

  /** After the child's subtree is torn down and slot i zeroed, the loop
      has done slots 0 .. i. */
  lemma ChildDone(f0: Frames, fl0: seq<nat>, o0: Owners, f: Frames, fl: seq<nat>, o: Owners,
                  f2: Frames, fl2: seq<nat>, o2: Owners, t: nat, i: nat)
    requires TreeOk(f0, fl0, o0, t) && Walked(f0, fl0, o0, f, fl, o, t, i) && i < ENTRIES
    requires IsValid(Entry(f, t, i)) && !Has(Entry(f, t, i), PTE_RWX)
    requires IsTable(o, Pte2Pa(Entry(f, t, i)))
    requires !HasLeaf(f, o, Pte2Pa(Entry(f, t, i)))
    requires TornDown(f, fl, o, f2, fl2, o2, Pte2Pa(Entry(f, t, i)))
    ensures t in f2 && f2[t].PtFrame? && |f2[t].ptes| == ENTRIES
    ensures Walked(f0, fl0, o0, SetEntry(f2, Slot(t, i), 0), fl2, o2, t, i + 1)
  {
    ChildReady(f0, fl0, o0, f, fl, o, t, i);
    var c := Pte2Pa(Entry(f, t, i));
    BelowStep(o0, t, i, c);
    ChildDoneMem(f0, fl0, o0, f, fl, o, f2, fl2, o2, t, i);
    var s, b, b' := Sub(o0, c), Below(o0, t, i), Below(o0, t, i + 1);
    assert o2 == o0 - b' by {
      assert o2 == (o0 - b) - s;
    }
  }

  /** Below slot i + 1 lies what lay below slot i and the subtree of child c in slot i. */
  lemma BelowStep(o0: Owners, t: nat, i: nat, c: nat)
    requires IsTable(o0, t) && IsTable(o0, c)
    requires forall v :: v in Sub(o0, c) <==> v in Sub(o0, t) && |o0[t].path| < |o0[v].path| && o0[v].path[|o0[t].path|] == i
    ensures Below(o0, t, i + 1) == Below(o0, t, i) + Sub(o0, c)
    ensures Below(o0, t, i) !! Sub(o0, c)
  {
  }

  lemma ChildDoneMem(f0: Frames, fl0: seq<nat>, o0: Owners, f: Frames, fl: seq<nat>, o: Owners,
                     f2: Frames, fl2: seq<nat>, o2: Owners, t: nat, i: nat)
    requires TreeOk(f0, fl0, o0, t) && Walked(f0, fl0, o0, f, fl, o, t, i) && i < ENTRIES
    requires IsValid(Entry(f, t, i)) && !Has(Entry(f, t, i), PTE_RWX)
    requires IsTable(o, Pte2Pa(Entry(f, t, i)))
    requires !HasLeaf(f, o, Pte2Pa(Entry(f, t, i)))
    requires TornDown(f, fl, o, f2, fl2, o2, Pte2Pa(Entry(f, t, i)))
    ensures t in f2 && f2[t].PtFrame? && |f2[t].ptes| == ENTRIES
    ensures WalkedMem(f0, o0, SetEntry(f2, Slot(t, i), 0), t, i + 1)
  {
    ChildReady(f0, fl0, o0, f, fl, o, t, i);
    var c := Pte2Pa(Entry(f, t, i));
    BelowStep(o0, t, i, c);
    var s, b, b' := Sub(o0, c), Below(o0, t, i), Below(o0, t, i + 1);
    assert f2[t] == f[t];
    var f3 := SetEntry(f2, Slot(t, i), 0);
    assert t !in b';
    ZeroedUnion(f, f2, b, s, t, i);
    forall v, j: nat | v in s && o0[v].level == 0 && j < ENTRIES ensures !IsValid(Entry(f0, v, j)) {
      assert v in Sub(o0, t) && v !in b && v != t;
      assert !IsValid(Entry(f, v, j));
    }
  }

  /** Tables with no valid entry before the child's teardown (b) and those
      the teardown cleared (s) have none once slot i of t is zeroed. */
  lemma ZeroedUnion(f: Frames, f2: Frames, b: set<nat>, s: set<nat>, t: nat, i: nat)
    requires f2.Keys == f.Keys && forall v :: v in f && v !in s ==> f2[v] == f[v]
    requires forall v, j: nat :: v in b && j < ENTRIES ==> !IsValid(Entry(f, v, j))
    requires forall v, j: nat :: v in s && j < ENTRIES ==> !IsValid(Entry(f2, v, j))
    requires t in f2 && f2[t].PtFrame? && i < |f2[t].ptes| && t !in b + s
    ensures forall v, j: nat :: v in b + s && j < ENTRIES ==> !IsValid(Entry(SetEntry(f2, Slot(t, i), 0), v, j))
  {
    var f3 := SetEntry(f2, Slot(t, i), 0);
    forall v, j: nat | v in b + s && j < ENTRIES ensures !IsValid(Entry(f3, v, j)) {
      assert v != t;
      assert Entry(f3, v, j) == Entry(f2, v, j);
      if v !in s {
        assert v in b;
        if v in f {
          assert f2[v] == f[v];
          assert Entry(f2, v, j) == Entry(f, v, j);
        } else {
          assert Entry(f2, v, j) == 0 == Entry(f, v, j);
        }
      }
    }
  }

  /** A valid entry with R, W or X is a leaf, so t's subtree has one. */
  lemma LeafAt(f0: Frames, fl0: seq<nat>, o0: Owners, f: Frames, fl: seq<nat>, o: Owners, t: nat, i: nat)
    requires TreeOk(f0, fl0, o0, t) && Walked(f0, fl0, o0, f, fl, o, t, i) && i < ENTRIES
    requires IsValid(Entry(f, t, i)) && Has(Entry(f, t, i), PTE_RWX)
    ensures HasLeaf(f0, o0, t)
  {
    SubSelf(o0, t);
    assert OwnerOk(f0, o0, t);
    assert SlotOk(f0, o0, t, i);
    assert o0[t].level == 0 && IsValid(Entry(f0, t, i));
  }

  /** An invalid slot has no subtree below it. */
  lemma SkipSlot(f0: Frames, fl0: seq<nat>, o0: Owners, f: Frames, fl: seq<nat>, o: Owners, t: nat, i: nat)
    requires TreeOk(f0, fl0, o0, t) && Walked(f0, fl0, o0, f, fl, o, t, i) && i < ENTRIES
    requires !IsValid(Entry(f, t, i))
    ensures Walked(f0, fl0, o0, f, fl, o, t, i + 1)
  {
    SubSelf(o0, t);
    var p := o0[t].path;
    forall v | v in Sub(o0, t) && |p| < |o0[v].path| ensures o0[v].path[|p|] != i {
      SlotOfDescendant(f0, fl0, o0, t, t, v);
    }
    assert Below(o0, t, i + 1) == Below(o0, t, i);
  }

  /** After all 512 slots, freeing t completes the teardown. */
  lemma WalkedAll(f0: Frames, fl0: seq<nat>, o0: Owners, f: Frames, fl: seq<nat>, o: Owners, t: nat)
    requires TreeOk(f0, fl0, o0, t) && Walked(f0, fl0, o0, f, fl, o, t, ENTRIES)
    ensures t in f && !HasLeaf(f0, o0, t)
    ensures TornDown(f0, fl0, o0, f, [t] + fl, o - {t}, t)
  {
    SubSelf(o0, t);
    assert OwnerOk(f0, o0, t);
    var p := o0[t].path;
    var s, b := Sub(o0, t), Below(o0, t, ENTRIES);
    forall v | v in s && v != t ensures v in b {
      assert OwnerOk(f0, o0, v);
      if |o0[v].path| == |p| {
        SamePathSameTable(f0, fl0, o0, t, t, v);
      }
    }
    assert b == s - {t};
    assert t !in FreeSet(fl) by {
      assert forall k :: 0 <= k < |fl0| ==> fl0[k] != t;
    }
    PushDistinct(t, fl);
    FreeSetCons(t, fl);
    assert o - {t} == o0 - s;
    forall v, j: nat | v in s && j < ENTRIES ensures !IsValid(Entry(f, v, j)) {
      if v == t {
        assert Entry(f, t, j) == 0 || !IsValid(Entry(f0, t, j));
      }
    }
  }

  /** Pushing a frame that is not free keeps the free list free of duplicates. */
  lemma PushDistinct(t: nat, fl: seq<nat>)
    requires t !in FreeSet(fl) && forall j, k :: 0 <= j < k < |fl| ==> fl[j] != fl[k]
    ensures forall j, k :: 0 <= j < k < |[t] + fl| ==> ([t] + fl)[j] != ([t] + fl)[k]
  {
    var fl' := [t] + fl;
    forall j, k | 0 <= j < k < |fl'| ensures fl'[j] != fl'[k] {
      if j == 0 {
        assert fl'[k] == fl[k - 1] && fl[k - 1] in FreeSet(fl);
      }
    }
  }

  // ---------------------------------------------------------------------
  // uvmfree.

  /** Frame f belongs to the address space of root pt: it is one of its
      tables, or a frame one of its leaves owns. */
  ghost predicate OwnedIn(o: Owners, pt: nat, f: nat)
    requires f in o
  {
    match o[f]
    case TableOf(r, _, _) => r == pt
    case LeafOf(t, _) => t in o && o[t].TableOf? && o[t].root == pt
  }

  /** The frames the address space of root pt owns. */
  ghost function OwnedBy(o: Owners, pt: nat): set<nat>
  {
    set f | f in o && OwnedIn(o, pt, f)
  }

  /** uvmfree(pagetable, sz): unmap and free the pages below sz, then tear
      down the tables. It panics exactly when a page below sz is not mapped
      (uvmunmap) or a page at or above sz is (freewalk's leaf), and
      otherwise frees exactly what the address space owned, leaving the
      rest of memory and every other address space as it was. */
  method UvmFree(m: Machine, pagetable: nat, sz: nat) returns (r: Res<()>)
    requires m.Valid() && IsRoot(m.owner, pagetable)
    requires FreeableRun(m.frames, m.owner, pagetable, 0, PgRoundUp(sz) / PGSIZE)
    modifies m
    ensures r.Panic? <==>
      || (exists k :: 0 <= k < PgRoundUp(sz) / PGSIZE &&
            (PageAt(0, k) >= MAXVA || !Mapped(old(m.frames), pagetable, PageAt(0, k))))
      || (exists va: nat :: PgRoundUp(sz) <= va < MAXVA && Mapped(old(m.frames), pagetable, va))
    ensures r.Ret? ==> m.Valid()
    ensures r.Ret? ==> m.owner == old(m.owner) - OwnedBy(old(m.owner), pagetable)
    ensures r.Ret? ==> FreeSet(m.freeList) == FreeSet(old(m.freeList)) + OwnedBy(old(m.owner), pagetable)
    ensures r.Ret? ==> forall f :: f in old(m.frames) && !IsTable(old(m.owner), f) ==>
      f in m.frames && m.frames[f] == old(m.frames)[f]
    ensures r.Ret? ==> forall q, va: nat :: IsRoot(m.owner, q) && va < MAXVA ==> Leaf(m.frames, q, va) == Leaf(old(m.frames), q, va)
  {
    ghost var f0, fl0, o0 := m.frames, m.freeList, m.owner;
    ghost var n := PgRoundUp(sz) / PGSIZE;
    if sz > 0 {
      var res := UvmUnmap(m, pagetable, 0, PgRoundUp(sz) / PGSIZE, true);
      if res.Panic? {
        return res;
      }
    } else {
      assert Freed(f0, pagetable, 0, n) == [];
      assert FreeSet([]) == {};
    }
    ghost var f1, fl1, o1 := m.frames, m.freeList, m.owner;
    assert PgRoundUp(sz) == n * PGSIZE;
    MappedAfterUnmap(f0, o0, f1, pagetable, n);
    assert IsRoot(o1, pagetable) by { assert IsRoot(o0, pagetable); }
    LeafIffMapped(f1, fl1, o1, pagetable);
    RootTree(f1, fl1, o1, pagetable);
    r := FreeWalk(m, pagetable, 2);
    if r.Ret? {
      FreedAll(f0, fl0, o0, f1, fl1, o1, m.frames, m.freeList, m.owner, pagetable, n);
    }
  }

  /** uvmunmap of the n pages from 0 followed by freewalk of the root
      releases exactly what the root owned and leaves other roots alone. */
  lemma FreedAll(f0: Frames, fl0: seq<nat>, o0: Owners, f1: Frames, fl1: seq<nat>, o1: Owners,
                 f2: Frames, fl2: seq<nat>, o2: Owners, pt: nat, n: nat)
    requires Inv(f0, fl0, o0) && Inv(f1, fl1, o1) && IsRoot(o0, pt) && IsRoot(o1, pt)
    requires ClearedRun(f0, o0, f1, pt, 0, n)
    requires forall k :: 0 <= k < n ==> PageAt(0, k) < MAXVA && Mapped(f0, pt, PageAt(0, k))
    requires fl1 == Freed(f0, pt, 0, n) + fl0
    requires o1 == o0 - FreeSet(Freed(f0, pt, 0, n))
    requires forall t :: IsTable(o1, t) <==> IsTable(o0, t)
    requires f1.Keys == f0.Keys && forall f :: f in f0 && !IsTable(o1, f) ==> f1[f] == f0[f]
    requires !HasLeaf(f1, o1, pt) && TornDown(f1, fl1, o1, f2, fl2, o2, pt)
    ensures Inv(f2, fl2, o2)
    ensures o2 == o0 - OwnedBy(o0, pt)
    ensures FreeSet(fl2) == FreeSet(fl0) + OwnedBy(o0, pt)
    ensures forall f :: f in f0 && !IsTable(o0, f) ==> f in f2 && f2[f] == f0[f]
    ensures forall q, va: nat :: IsRoot(o2, q) && va < MAXVA ==> Leaf(f2, q, va) == Leaf(f0, q, va)
  {
    OwnedAfterUnmap(f0, fl0, o0, f1, fl1, o1, pt, n);
    RootTree(f1, fl1, o1, pt);
    var fs, ts := FreeSet(Freed(f0, pt, 0, n)), TablesOf(o0, pt);
    assert o2 == o1 - ts;
    assert o2 == o0 - (fs + ts);
    DropTree(f1, fl1, o1, f2, fl2, o2, pt);
    FreeSetAppend(Freed(f0, pt, 0, n), fl0);
  }

  /** Under the invariant the subtree of a root holds all of its tables and
      is well formed. */
  lemma RootTree(f: Frames, fl: seq<nat>, o: Owners, pt: nat)
    requires Inv(f, fl, o) && IsRoot(o, pt)
    ensures TreeOk(f, fl, o, pt) && Sub(o, pt) == TablesOf(o, pt)
  {
    forall v | v in TablesOf(o, pt) ensures v in Sub(o, pt) {
      assert o[v].path[..0] == [];
    }
    forall k | 0 <= k < |fl| ensures fl[k] !in Sub(o, pt) {
    }
  }

  /** Slot j of a level-0 table below root pt is walk's slot for one page
      below MAXVA. */
  lemma SlotOfTable(f: Frames, fl: seq<nat>, o: Owners, pt: nat, t: nat, j: nat)
    requires Inv(f, fl, o) && IsRoot(o, pt) && t in TablesOf(o, pt) && o[t].level == 0 && j < ENTRIES
    ensures |o[t].path| == 2 &&
      var va := PageVa(o[t].path[0], o[t].path[1], j);
      va < MAXVA && LeafSlot(f, pt, va) == Some(Slot(t, j))
  {
    assert OwnerOk(f, o, t);
    var path := o[t].path;
    PageVaIndices(path[0], path[1], j);
  }

  /** Under the invariant some level-0 table below root pt holds a valid
      entry exactly when some page below MAXVA is mapped. */
  lemma LeafIffMapped(f: Frames, fl: seq<nat>, o: Owners, pt: nat)
    requires Inv(f, fl, o) && IsRoot(o, pt)
    ensures HasLeaf(f, o, pt) <==> exists va: nat :: va < MAXVA && Mapped(f, pt, va)
  {
    RootTree(f, fl, o, pt);
    if HasLeaf(f, o, pt) {
      var v: nat, j: nat :| v in Sub(o, pt) && o[v].level == 0 && j < ENTRIES && IsValid(Entry(f, v, j));
      SlotOfTable(f, fl, o, pt, v, j);
      var va := PageVa(o[v].path[0], o[v].path[1], j);
      assert Mapped(f, pt, va);
    }
    if exists va: nat :: va < MAXVA && Mapped(f, pt, va) {
      var va: nat :| va < MAXVA && Mapped(f, pt, va);
      LeafSlotOwned(f, fl, o, pt, va);
      var s := LeafSlot(f, pt, va).value;
      assert s.table in Sub(o, pt);
    }
  }

  /** Once uvmunmap has cleared pages 0 .. n-1, a page below MAXVA is
      mapped exactly when it was mapped before and lies at or above page n. */
  lemma MappedAfterUnmap(f0: Frames, o0: Owners, f1: Frames, pt: nat, n: nat)
    requires IsRoot(o0, pt) && ClearedRun(f0, o0, f1, pt, 0, n)
    ensures forall va: nat :: va < MAXVA ==> (Mapped(f1, pt, va) <==> Mapped(f0, pt, va) && n * PGSIZE <= va)
  {
    forall va: nat | va < MAXVA ensures Mapped(f1, pt, va) <==> Mapped(f0, pt, va) && n * PGSIZE <= va {
      PageBelow(va, n);
      assert Leaf(f1, pt, va) == if 0 <= va / PGSIZE < n then 0 else Leaf(f0, pt, va);
    }
  }

  /** What uvmunmap over pages 0 .. n-1 and a leaf-free teardown free
      together: the address space's tables and the frames its leaves owned. */
  lemma OwnedAfterUnmap(f0: Frames, fl0: seq<nat>, o0: Owners, f1: Frames, fl1: seq<nat>, o1: Owners, pt: nat, n: nat)
    requires Inv(f0, fl0, o0) && Inv(f1, fl1, o1) && IsRoot(o0, pt)
    requires ClearedRun(f0, o0, f1, pt, 0, n)
    requires forall k :: 0 <= k < n ==> PageAt(0, k) < MAXVA && Mapped(f0, pt, PageAt(0, k))
    requires o1 == o0 - FreeSet(Freed(f0, pt, 0, n))
    requires forall t :: IsTable(o1, t) <==> IsTable(o0, t)
    requires IsRoot(o1, pt) && !HasLeaf(f1, o1, pt)
    ensures TablesOf(o1, pt) == TablesOf(o0, pt)
    ensures OwnedBy(o0, pt) == TablesOf(o0, pt) + FreeSet(Freed(f0, pt, 0, n))
  {
    var fs := FreeSet(Freed(f0, pt, 0, n));
    var ts := TablesOf(o0, pt);
    assert TablesOf(o1, pt) == ts by {
      forall t | t in ts ensures t in TablesOf(o1, pt) {
        assert IsTable(o0, t);
      }
    }
    forall p | p in fs ensures p in OwnedBy(o0, pt) {
      FreedOwned(f0, fl0, o0, pt, n, p);
    }
    forall p | p in OwnedBy(o0, pt) && p !in ts ensures p in fs {
      assert OwnerOk(f0, o0, p);
      LeafOwnedFreed(f0, fl0, o0, f1, fl1, o1, pt, n, p);
    }
  }

  /** A frame uvmunmap frees over mapped pages of pt is one a leaf of pt owned. */
  lemma FreedOwned(f0: Frames, fl0: seq<nat>, o0: Owners, pt: nat, n: nat, p: nat)
    requires Inv(f0, fl0, o0) && IsRoot(o0, pt)
    requires forall k :: 0 <= k < n ==> PageAt(0, k) < MAXVA && Mapped(f0, pt, PageAt(0, k))
    requires p in FreeSet(Freed(f0, pt, 0, n))
    ensures p in o0 && o0[p].LeafOf? && OwnedIn(o0, pt, p)
  {
    var fs := Freed(f0, pt, 0, n);
    var j :| 0 <= j < |fs| && fs[j] == p;
    assert p in fs;
    var k :| 0 <= k < n && Owning(Leaf(f0, pt, PageAt(0, k))) && Pte2Pa(Leaf(f0, pt, PageAt(0, k))) == p;
    LeafSlotOwned(f0, fl0, o0, pt, PageAt(0, k));
    var s := LeafSlot(f0, pt, PageAt(0, k)).value;
    assert OwnerOk(f0, o0, s.table);
    assert SlotOk(f0, o0, s.table, s.index);
  }

  /** A frame a leaf of pt owned is freed by uvmunmap when no leaf is left
      for freewalk. */
  lemma LeafOwnedFreed(f0: Frames, fl0: seq<nat>, o0: Owners, f1: Frames, fl1: seq<nat>, o1: Owners, pt: nat, n: nat, p: nat)
    requires Inv(f0, fl0, o0) && Inv(f1, fl1, o1) && IsRoot(o0, pt)
    requires ClearedRun(f0, o0, f1, pt, 0, n)
    requires forall t :: IsTable(o1, t) <==> IsTable(o0, t)
    requires o1 == o0 - FreeSet(Freed(f0, pt, 0, n))
    requires IsRoot(o1, pt) && !HasLeaf(f1, o1, pt)
    requires p in o0 && o0[p].LeafOf? && OwnedIn(o0, pt, p)
    ensures p in FreeSet(Freed(f0, pt, 0, n))
  {
    assert OwnerOk(f0, o0, p);
    var t, i := o0[p].table, o0[p].index;
    assert IsTable(o1, t) && o1[t] == o0[t];
    SlotOfTable(f0, fl0, o0, pt, t, i);
    SlotOfTable(f1, fl1, o1, pt, t, i);
    var va := PageVa(o0[t].path[0], o0[t].path[1], i);
    RootTree(f1, fl1, o1, pt);
    assert !IsValid(Entry(f1, t, i));
    assert Leaf(f1, pt, va) == Entry(f1, t, i) && Leaf(f0, pt, va) == Entry(f0, t, i);
    assert Leaf(f1, pt, va) != Leaf(f0, pt, va);
    var k := va / PGSIZE;
    assert k < n;
    PageAtAligned(0, k);
    SamePageSamePath(va, PageAt(0, k));
    assert Leaf(f0, pt, PageAt(0, k)) == Entry(f0, t, i);
    var fs := Freed(f0, pt, 0, n);
    assert p in fs;
    var j :| 0 <= j < |fs| && fs[j] == p;
  }

  /** A torn-down tree without leaves leaves the machine invariant intact,
      and every other root's leaves as they were. */
  lemma DropTree(f1: Frames, fl1: seq<nat>, o1: Owners, f2: Frames, fl2: seq<nat>, o2: Owners, pt: nat)
    requires Inv(f1, fl1, o1) && IsRoot(o1, pt) && !HasLeaf(f1, o1, pt)
    requires TornDown(f1, fl1, o1, f2, fl2, o2, pt)
    ensures Inv(f2, fl2, o2)
    ensures forall q, va: nat :: IsRoot(o2, q) && va < MAXVA ==> Leaf(f2, q, va) == Leaf(f1, q, va)
  {
    RootTree(f1, fl1, o1, pt);
    var s := Sub(o1, pt);
    forall v, i | v !in s ensures Entry(f2, v, i) == Entry(f1, v, i) {
    }
    forall k | 0 <= k < |fl2| ensures fl2[k] in f2 && fl2[k] !in o2 {
      assert fl2[k] in FreeSet(fl2);
      if fl2[k] in s {
        assert OwnerOk(f1, o1, fl2[k]);
      } else {
        var j :| 0 <= j < |fl1| && fl1[j] == fl2[k];
      }
    }
    forall x | x in o2 ensures OwnerOk(f2, o2, x) {
      DropOwnerOk(f1, fl1, o1, f2, fl2, o2, pt, x);
    }
    forall t: nat, i: nat | IsTable(o2, t) && o2[t].level == 0 && i < ENTRIES ensures AliasOk(f2, fl2, o2, t, i) {
      assert AliasOk(f1, fl1, o1, t, i);
    }
    forall q, va: nat | IsRoot(o2, q) && va < MAXVA ensures Leaf(f2, q, va) == Leaf(f1, q, va) {
      assert OwnerOk(f1, o1, q);
      LeafSlotOwned(f1, fl1, o1, q, va);
      if IsValid(Entry(f1, q, PX(2, va))) {
        MidTableOwned(f1, fl1, o1, q, va);
      }
    }
  }

  /** An owner outside the torn-down tree is as well formed as before. */
  lemma DropOwnerOk(f1: Frames, fl1: seq<nat>, o1: Owners, f2: Frames, fl2: seq<nat>, o2: Owners, pt: nat, x: nat)
    requires Inv(f1, fl1, o1) && IsRoot(o1, pt) && !HasLeaf(f1, o1, pt)
    requires Sub(o1, pt) == TablesOf(o1, pt)
    requires TornDown(f1, fl1, o1, f2, fl2, o2, pt)
    requires x in o2
    ensures OwnerOk(f2, o2, x)
  {
    var s := Sub(o1, pt);
    assert OwnerOk(f1, o1, x);
    match o1[x]
    case TableOf(r, lvl, path) =>
      assert OwnerOk(f1, o1, r);
      if |path| == 2 {
        assert SlotOk(f1, o1, r, path[0]);
      }
      forall i | 0 <= i < ENTRIES ensures SlotOk(f2, o2, x, i) {
        assert SlotOk(f1, o1, x, i);
      }
    case LeafOf(t, i) =>
      assert t !in s;
  }
}
