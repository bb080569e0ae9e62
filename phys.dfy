/** Physical memory, the frame allocator, and the ownership invariant of
    page tables built in it.

    Memory is a map from frame address to frame contents. A frame holds
    either 512 page-table entries or 4096 data bytes; memset and memmove on a
    frame become whole-frame updates. The allocator (kalloc/kfree) is an
    external collaborator; it is stood in for by a free list: kalloc pops the
    head and returns 0 when the list is empty, kfree pushes on the head.

    The ghost map `owner` records who owns each frame in use by a page table:
    a table is owned by its position in the tree of some root, a data frame
    by the one leaf slot that maps it without PTE_S. A frame has at most one
    owner because `owner` is a map; that is where "no double mapping" and
    "freed exactly when owned" come from. */
module Phys {
  import opened Sv39
  import opened Outcomes

  datatype Frame = PtFrame(ptes: seq<Word>) | DataFrame(bytes: seq<bv8>)

  datatype Owner =
    | TableOf(root: nat, level: nat, path: seq<nat>)  // the level-`level` table below `root` reached by the indices `path`
    | LeafOf(table: nat, index: nat)                  // the frame mapped, without PTE_S, by slot `index` of level-0 table `table`

  /** A pte_t*: slot `index` of the table in frame `table`. */
  datatype Slot = Slot(table: nat, index: nat)

  type Frames = map<nat, Frame>
  type Owners = map<nat, Owner>

  function ZeroTable(): Frame { PtFrame(seq(ENTRIES, _ => 0)) }
  function ZeroPage(): Frame { DataFrame(seq(PGSIZE, _ => 0 as bv8)) }

  /** The entry in slot i of table frame t (0 for a slot that is not there). */
  function Entry(frames: Frames, t: nat, i: nat): Word
  {
    if t in frames && frames[t].PtFrame? && i < |frames[t].ptes| then frames[t].ptes[i] else 0
  }

  /** `*pte = w` for the slot s of a table frame. */
  function SetEntry(frames: Frames, s: Slot, w: Word): (r: Frames)
    requires s.table in frames && frames[s.table].PtFrame? && s.index < |frames[s.table].ptes|
    ensures r.Keys == frames.Keys
    ensures forall t, i :: Entry(r, t, i) == if t == s.table && i == s.index then w else Entry(frames, t, i)
  {
    frames[s.table := PtFrame(frames[s.table].ptes[s.index := w])]
  }

  /** The slot walk(pagetable, va, 0) returns: the level-0 slot for va when
      both interior entries on the way are valid, and null otherwise. */
  function LeafSlot(frames: Frames, pt: nat, va: nat): Option<Slot>
  {
    var e2 := Entry(frames, pt, PX(2, va));
    if !IsValid(e2) then None
    else
      var e1 := Entry(frames, Pte2Pa(e2), PX(1, va));
      if !IsValid(e1) then None
      else Some(Slot(Pte2Pa(e1), PX(0, va)))
  }

  /** The leaf entry for va: what walk's slot holds, or 0 without a slot. */
  function Leaf(frames: Frames, pt: nat, va: nat): Word
  {
    match LeafSlot(frames, pt, va)
    case None => 0
    case Some(s) => Entry(frames, s.table, s.index)
  }

  predicate Mapped(frames: Frames, pt: nat, va: nat)
  {
    IsValid(Leaf(frames, pt, va))
  }

  /** The frames on the free list. */
  function FreeSet(freeList: seq<nat>): set<nat>
  {
    set k | 0 <= k < |freeList| :: freeList[k]
  }

  predicate IsRoot(owner: Owners, r: nat)
  {
    r in owner && owner[r] == TableOf(r, 2, [])
  }

  predicate IsTable(owner: Owners, t: nat)
  {
    t in owner && owner[t].TableOf?
  }

  /** The frames that back the pages tables below root r. */
  function TablesOf(owner: Owners, r: nat): set<nat>
  {
    set t | t in owner && owner[t].TableOf? && owner[t].root == r
  }

  /** Slot i of owned table f is well formed: a valid interior entry points
      to the owned child table one level down, a valid leaf has R, W or X
      and, without PTE_S, owns its frame. */
  ghost predicate SlotOk(frames: Frames, owner: Owners, f: nat, i: nat)
    requires IsTable(owner, f)
  {
    var w := Entry(frames, f, i);
    var o := owner[f];
    IsValid(w) ==>
      if o.level > 0 then
        && !Has(w, PTE_RWX)
        && Pte2Pa(w) in owner
        && owner[Pte2Pa(w)] == TableOf(o.root, o.level - 1, o.path + [i])
      else
        && Has(w, PTE_RWX)
        && (!Has(w, PTE_S) ==> Pte2Pa(w) in owner && owner[Pte2Pa(w)] == LeafOf(f, i))
  }

  /** The parent slot of an owned table points back at it. */
  ghost predicate LinkedFromParent(frames: Frames, f: nat, r: nat, path: seq<nat>)
  {
    if |path| == 0 then f == r
    else if |path| == 1 then
      var e := Entry(frames, r, path[0]);
      IsValid(e) && Pte2Pa(e) == f
    else
      var e2 := Entry(frames, r, path[0]);
      var e1 := Entry(frames, Pte2Pa(e2), path[1]);
      IsValid(e2) && IsValid(e1) && Pte2Pa(e1) == f
  }

  ghost predicate OwnerOk(frames: Frames, owner: Owners, f: nat)
    requires f in owner
  {
    f in frames &&
    match owner[f]
    case TableOf(r, lvl, path) =>
      && frames[f].PtFrame? && |frames[f].ptes| == ENTRIES
      && lvl <= 2 && |path| + lvl == 2
      && (forall k :: 0 <= k < |path| ==> path[k] < ENTRIES)
      && (|path| > 0 ==> path[0] < ROOTSLOTS)
      && r in owner && owner[r] == TableOf(r, 2, [])
      && LinkedFromParent(frames, f, r, path)
      && (forall i :: 0 <= i < ENTRIES ==> SlotOk(frames, owner, f, i))
    case LeafOf(t, i) =>
      && frames[f].DataFrame? && |frames[f].bytes| == PGSIZE
      && t in owner && owner[t].TableOf? && owner[t].level == 0 && i < ENTRIES
      && IsValid(Entry(frames, t, i)) && !Has(Entry(frames, t, i), PTE_S)
      && Pte2Pa(Entry(frames, t, i)) == f
  }

  /** A valid PTE_S leaf in slot i of table t maps a full data page that is
      neither a page table nor free: a shared alias does not dangle. */
  ghost predicate AliasOk(frames: Frames, freeList: seq<nat>, owner: Owners, t: nat, i: nat)
  {
    var w := Entry(frames, t, i);
    IsValid(w) && Has(w, PTE_S) ==>
      var p := Pte2Pa(w);
      && p in frames && frames[p].DataFrame? && |frames[p].bytes| == PGSIZE
      && !IsTable(owner, p) && p !in FreeSet(freeList)
  }

  /** Some valid PTE_S leaf of some table maps frame p. */
  ghost predicate SharedTarget(frames: Frames, owner: Owners, p: nat)
  {
    exists t: nat, i: nat :: IsTable(owner, t) && owner[t].level == 0 && i < ENTRIES &&
      IsValid(Entry(frames, t, i)) && Has(Entry(frames, t, i), PTE_S) && Pte2Pa(Entry(frames, t, i)) == p
  }

  /** The machine invariant: frames are page aligned and nonzero (0 is
      kalloc's failure value), the free list holds distinct frames that
      nobody owns, every owned frame is well formed, and no shared alias
      dangles. */
  ghost predicate Inv(frames: Frames, freeList: seq<nat>, owner: Owners)
  {
    && (forall f :: f in frames ==> f > 0 && f % PGSIZE == 0)
    && (forall k :: 0 <= k < |freeList| ==> freeList[k] in frames && freeList[k] !in owner)
    && (forall j, k :: 0 <= j < k < |freeList| ==> freeList[j] != freeList[k])
    && (forall f {:trigger OwnerOk(frames, owner, f)} :: f in owner ==> OwnerOk(frames, owner, f))
    && (forall t: nat, i: nat {:trigger AliasOk(frames, freeList, owner, t, i)} ::
          IsTable(owner, t) && owner[t].level == 0 && i < ENTRIES ==> AliasOk(frames, freeList, owner, t, i))
  }

  /** Physical memory and the allocator, updated in place. */
  class Machine {
    var frames: Frames
    var freeList: seq<nat>
    ghost var owner: Owners

    ghost predicate Valid()
      reads this
    {
      Inv(frames, freeList, owner)
    }

    /** A machine whose every frame is free. */
    constructor (free: seq<nat>, contents: Frames)
      requires forall f :: f in contents ==> f > 0 && f % PGSIZE == 0
      requires forall k :: 0 <= k < |free| ==> free[k] in contents
      requires forall j, k :: 0 <= j < k < |free| ==> free[j] != free[k]
      ensures Valid() && frames == contents && freeList == free && owner == map[]
    {
      frames := contents;
      freeList := free;
      owner := map[];
    }

    /** kalloc(): a frame off the free list, or 0 when none is left. Its
        contents are whatever the frame held. */
    method Kalloc() returns (pa: nat)
      requires Valid()
      modifies this`freeList
      ensures Valid()
      ensures old(freeList) == [] ==> pa == 0 && freeList == []
      ensures old(freeList) != [] ==> pa == old(freeList[0]) && freeList == old(freeList[1..])
      ensures pa != 0 ==> pa in frames && pa !in owner && pa !in FreeSet(freeList)
      ensures pa != 0 ==> !SharedTarget(frames, owner, pa)
    {
      if freeList == [] {
        pa := 0;
      } else {
        PopFree(frames, freeList, owner);
        FreeNotShared(frames, freeList, owner, freeList[0]);
        pa := freeList[0];
        freeList := freeList[1..];
      }
    }

    /** memset/memmove on a whole frame that is not a page table: frame n
        now holds c, and no table entry, leaf or shared alias changes. */
    method WritePage(n: nat, c: Frame)
      requires Valid() && n in frames && !IsTable(owner, n)
      requires c.DataFrame? && |c.bytes| == PGSIZE
      modifies this`frames
      ensures Valid() && frames == old(frames)[n := c]
      ensures forall r, va :: IsRoot(owner, r) ==> Leaf(frames, r, va) == Leaf(old(frames), r, va)
      ensures forall p :: SharedTarget(frames, owner, p) <==> SharedTarget(old(frames), owner, p)
    {
      WriteNonTable(frames, freeList, owner, n, c);
      ghost var f0 := frames;
      frames := frames[n := c];
      forall p ensures SharedTarget(frames, owner, p) <==> SharedTarget(f0, owner, p) {
        if SharedTarget(f0, owner, p) {
          var t: nat, i: nat :| IsTable(owner, t) && owner[t].level == 0 && i < ENTRIES &&
            IsValid(Entry(f0, t, i)) && Has(Entry(f0, t, i), PTE_S) && Pte2Pa(Entry(f0, t, i)) == p;
          assert Entry(frames, t, i) == Entry(f0, t, i);
        }
        if SharedTarget(frames, owner, p) {
          var t: nat, i: nat :| IsTable(owner, t) && owner[t].level == 0 && i < ENTRIES &&
            IsValid(Entry(frames, t, i)) && Has(Entry(frames, t, i), PTE_S) && Pte2Pa(Entry(frames, t, i)) == p;
          assert Entry(frames, t, i) == Entry(f0, t, i);
        }
      }
    }

    /** kfree(pa): put a frame back on the free list. */
    method Kfree(pa: nat)
      requires pa in frames
      modifies this`freeList
      ensures freeList == [pa] + old(freeList)
    {
      freeList := [pa] + freeList;
    }
  }

  // ---------------------------------------------------------------------
  // Facts about well-formed memory.

  /** Below a root, walk's slot lies in the owned level-0 table at the path
      given by va's upper two indices. */
  lemma LeafSlotOwned(frames: Frames, freeList: seq<nat>, owner: Owners, r: nat, va: nat)
    requires Inv(frames, freeList, owner) && IsRoot(owner, r)
    ensures LeafSlot(frames, r, va).Some? ==>
      var s := LeafSlot(frames, r, va).value;
      && s.index == PX(0, va)
      && s.table in owner && owner[s.table] == TableOf(r, 0, [PX(2, va), PX(1, va)])
  {
    assert OwnerOk(frames, owner, r);
    assert SlotOk(frames, owner, r, PX(2, va));
    var e2 := Entry(frames, r, PX(2, va));
    if IsValid(e2) {
      var t1 := Pte2Pa(e2);
      assert OwnerOk(frames, owner, t1);
      assert SlotOk(frames, owner, t1, PX(1, va));
    }
  }

  /** The interior table on va's path below root r, when there is one. */
  lemma MidTableOwned(frames: Frames, freeList: seq<nat>, owner: Owners, r: nat, va: nat)
    requires Inv(frames, freeList, owner) && IsRoot(owner, r)
    requires IsValid(Entry(frames, r, PX(2, va)))
    ensures var t1 := Pte2Pa(Entry(frames, r, PX(2, va)));
      t1 in owner && owner[t1] == TableOf(r, 1, [PX(2, va)])
  {
    assert OwnerOk(frames, owner, r);
    assert SlotOk(frames, owner, r, PX(2, va));
  }

  /** A frame on the free list is not the target of a shared alias. */
  lemma FreeNotShared(frames: Frames, freeList: seq<nat>, owner: Owners, p: nat)
    requires Inv(frames, freeList, owner) && p in FreeSet(freeList)
    ensures !SharedTarget(frames, owner, p)
  {
    forall t: nat, i: nat | IsTable(owner, t) && owner[t].level == 0 && i < ENTRIES
      ensures !(IsValid(Entry(frames, t, i)) && Has(Entry(frames, t, i), PTE_S) && Pte2Pa(Entry(frames, t, i)) == p)
    {
      assert AliasOk(frames, freeList, owner, t, i);
    }
  }

  /** Writing a full data page into a frame that is not a page table (a
      data page, or a frame nobody owns) changes no entry of any table and
      keeps the invariant. */
  lemma WriteNonTable(frames: Frames, freeList: seq<nat>, owner: Owners, n: nat, c: Frame)
    requires Inv(frames, freeList, owner) && n in frames
    requires !IsTable(owner, n)
    requires c.DataFrame? && |c.bytes| == PGSIZE
    ensures Inv(frames[n := c], freeList, owner)
    ensures forall t, i :: IsTable(owner, t) ==> Entry(frames[n := c], t, i) == Entry(frames, t, i)
    ensures forall r, va :: IsRoot(owner, r) ==> Leaf(frames[n := c], r, va) == Leaf(frames, r, va)
  {
    forall f | f in owner ensures OwnerOk(frames[n := c], owner, f) {
      WriteNonTableOwnerOk(frames, freeList, owner, n, c, f);
    }
    var frames' := frames[n := c];
    forall t: nat, i: nat | IsTable(owner, t) && owner[t].level == 0 && i < ENTRIES
      ensures AliasOk(frames', freeList, owner, t, i)
    {
      assert AliasOk(frames, freeList, owner, t, i);
    }
    forall r, va | IsRoot(owner, r) ensures Leaf(frames[n := c], r, va) == Leaf(frames, r, va) {
      WriteNonTableLeaf(frames, freeList, owner, n, c, r, va);
    }
  }

  lemma WriteNonTableOwnerOk(frames: Frames, freeList: seq<nat>, owner: Owners, n: nat, c: Frame, f: nat)
    requires Inv(frames, freeList, owner) && n in frames
    requires !IsTable(owner, n)
    requires c.DataFrame? && |c.bytes| == PGSIZE
    requires f in owner
    ensures OwnerOk(frames[n := c], owner, f)
  {
    var frames' := frames[n := c];
    assert OwnerOk(frames, owner, f);
    match owner[f]
    case TableOf(r, lvl, path) => {
      forall i | 0 <= i < ENTRIES ensures SlotOk(frames', owner, f, i) {
        assert SlotOk(frames, owner, f, i);
      }
      if |path| == 2 {
        assert OwnerOk(frames, owner, r) && SlotOk(frames, owner, r, path[0]);
      }
    }
    case LeafOf(t, i) => {
      assert OwnerOk(frames, owner, t);
    }
  }

  lemma WriteNonTableLeaf(frames: Frames, freeList: seq<nat>, owner: Owners, n: nat, c: Frame, r: nat, va: nat)
    requires Inv(frames, freeList, owner) && n in frames
    requires !IsTable(owner, n) && IsRoot(owner, r)
    ensures Leaf(frames[n := c], r, va) == Leaf(frames, r, va)
  {
    LeafSlotOwned(frames, freeList, owner, r, va);
    assert OwnerOk(frames, owner, r);
    if IsValid(Entry(frames, r, PX(2, va))) {
      MidTableOwned(frames, freeList, owner, r, va);
    }
  }

  /** Putting an unowned frame back on the free list keeps the invariant. */
  lemma FreeUnowned(frames: Frames, freeList: seq<nat>, owner: Owners, p: nat)
    requires Inv(frames, freeList, owner)
    requires p in frames && p !in owner && p !in FreeSet(freeList)
    requires !SharedTarget(frames, owner, p)
    ensures Inv(frames, [p] + freeList, owner)
    ensures FreeSet([p] + freeList) == FreeSet(freeList) + {p}
  {
    var fl := [p] + freeList;
    forall j, k | 0 <= j < k < |fl| ensures fl[j] != fl[k] {
      if j == 0 {
        assert fl[k] == freeList[k - 1];
      }
    }
    FreeSetCons(p, freeList);
    forall t: nat, i: nat | IsTable(owner, t) && owner[t].level == 0 && i < ENTRIES
      ensures AliasOk(frames, fl, owner, t, i)
    {
      assert AliasOk(frames, freeList, owner, t, i);
    }
  }

  lemma FreeSetCons(p: nat, freeList: seq<nat>)
    ensures FreeSet([p] + freeList) == FreeSet(freeList) + {p}
  {
    var fl := [p] + freeList;
    forall x | x in FreeSet(fl) ensures x in FreeSet(freeList) + {p} {
      var k :| 0 <= k < |fl| && fl[k] == x;
      if k > 0 { assert freeList[k - 1] == x; }
    }
    forall x | x in FreeSet(freeList) ensures x in FreeSet(fl) {
      var k :| 0 <= k < |freeList| && freeList[k] == x;
      assert fl[k + 1] == x;
    }
    assert fl[0] == p;
  }

  /** Taking the head of the free list keeps the invariant. */
  lemma PopFree(frames: Frames, freeList: seq<nat>, owner: Owners)
    requires Inv(frames, freeList, owner) && freeList != []
    ensures Inv(frames, freeList[1..], owner)
    ensures freeList[0] !in FreeSet(freeList[1..])
    ensures FreeSet(freeList) == FreeSet(freeList[1..]) + {freeList[0]}
  {
    var fl := freeList[1..];
    forall j, k | 0 <= j < k < |fl| ensures fl[j] != fl[k] {
      assert fl[j] == freeList[j + 1] && fl[k] == freeList[k + 1];
    }
    assert freeList == [freeList[0]] + fl;
    FreeSetCons(freeList[0], fl);
    forall t: nat, i: nat | IsTable(owner, t) && owner[t].level == 0 && i < ENTRIES
      ensures AliasOk(frames, fl, owner, t, i)
    {
      assert AliasOk(frames, freeList, owner, t, i);
    }
  }

  /** The memory after walk's allocation step: frame n zeroed and linked
      from slot s. */
  function Installed(frames: Frames, s: Slot, n: nat): Frames
    requires s.table in frames && frames[s.table].PtFrame? && s.index < |frames[s.table].ptes|
    requires n != s.table
  {
    SetEntry(frames[n := ZeroTable()], s, MakePte(n, PTE_V))
  }

  /** The owner of the new child table of slot s. */
  function ChildOwner(owner: Owners, s: Slot): Owner
    requires IsTable(owner, s.table) && owner[s.table].level > 0
  {
    var o := owner[s.table];
    TableOf(o.root, o.level - 1, o.path + [s.index])
  }

  /** Preconditions of walk's allocation step. */
  ghost predicate CanInstall(frames: Frames, freeList: seq<nat>, owner: Owners, s: Slot)
  {
    && Inv(frames, freeList, owner) && freeList != []
    && IsTable(owner, s.table) && OwnerOk(frames, owner, s.table)
    && owner[s.table].level > 0 && s.index < ENTRIES
    && (owner[s.table].level == 2 ==> s.index < ROOTSLOTS)
    && !IsValid(Entry(frames, s.table, s.index))
  }

  lemma InstallEntries(frames: Frames, freeList: seq<nat>, owner: Owners, s: Slot)
    requires CanInstall(frames, freeList, owner, s)
    ensures freeList[0] !in owner && OwnerOk(frames, owner, s.table)
    ensures forall t, i :: IsTable(owner, t) ==>
      Entry(Installed(frames, s, freeList[0]), t, i) == if t == s.table && i == s.index then MakePte(freeList[0], PTE_V) else Entry(frames, t, i)
    ensures forall i :: Entry(Installed(frames, s, freeList[0]), freeList[0], i) == 0
  {
    assert freeList[0] !in owner;
    assert OwnerOk(frames, owner, s.table);
  }

  lemma InstallNewChildOk(frames: Frames, freeList: seq<nat>, owner: Owners, s: Slot)
    requires CanInstall(frames, freeList, owner, s)
    ensures freeList[0] !in owner
    ensures OwnerOk(Installed(frames, s, freeList[0]), owner[freeList[0] := ChildOwner(owner, s)], freeList[0])
  {
    var n := freeList[0];
    InstallEntries(frames, freeList, owner, s);
    var o := owner[s.table];
    var frames2 := Installed(frames, s, n);
    var owner2 := owner[n := ChildOwner(owner, s)];
    MakePteFields(n, PTE_V);
    if o.level == 1 {
      assert LinkedFromParent(frames, s.table, o.root, o.path);
      assert OwnerOk(frames, owner, o.root);
      assert o.root != s.table;
    }
    assert LinkedFromParent(frames2, n, o.root, o.path + [s.index]);
    forall i | 0 <= i < ENTRIES ensures SlotOk(frames2, owner2, n, i) { }
  }

  lemma InstallSlotOk(frames: Frames, freeList: seq<nat>, owner: Owners, s: Slot, f: nat, i: nat)
    requires CanInstall(frames, freeList, owner, s)
    requires IsTable(owner, f) && i < ENTRIES
    ensures freeList[0] !in owner
    ensures SlotOk(Installed(frames, s, freeList[0]), owner[freeList[0] := ChildOwner(owner, s)], f, i)
  {
    InstallEntries(frames, freeList, owner, s);
    MakePteFields(freeList[0], PTE_V);
    assert OwnerOk(frames, owner, f);
    assert SlotOk(frames, owner, f, i);
  }

  lemma InstallLinkOk(frames: Frames, freeList: seq<nat>, owner: Owners, s: Slot, f: nat)
    requires CanInstall(frames, freeList, owner, s)
    requires IsTable(owner, f)
    ensures freeList[0] !in owner
    ensures OwnerOk(frames, owner, f)
    ensures LinkedFromParent(Installed(frames, s, freeList[0]), f, owner[f].root, owner[f].path)
  {
    InstallEntries(frames, freeList, owner, s);
    assert OwnerOk(frames, owner, f);
    var r, path := owner[f].root, owner[f].path;
    assert OwnerOk(frames, owner, r);
    if |path| == 2 {
      assert SlotOk(frames, owner, r, path[0]);
    }
  }

  lemma InstallOwnerOk(frames: Frames, freeList: seq<nat>, owner: Owners, s: Slot, f: nat)
    requires CanInstall(frames, freeList, owner, s)
    requires f in owner || f == freeList[0]
    ensures freeList[0] !in owner && OwnerOk(frames, owner, s.table)
    ensures OwnerOk(Installed(frames, s, freeList[0]), owner[freeList[0] := ChildOwner(owner, s)], f)
  {
    var n := freeList[0];
    InstallEntries(frames, freeList, owner, s);
    var frames2 := Installed(frames, s, n);
    var owner2 := owner[n := ChildOwner(owner, s)];
    if f == n {
      InstallNewChildOk(frames, freeList, owner, s);
    } else {
      assert OwnerOk(frames, owner, f);
      if owner[f].TableOf? {
        forall i | 0 <= i < ENTRIES ensures SlotOk(frames2, owner2, f, i) {
          InstallSlotOk(frames, freeList, owner, s, f, i);
        }
        InstallLinkOk(frames, freeList, owner, s, f);
      }
    }
  }

  lemma InstallLeaves(frames: Frames, freeList: seq<nat>, owner: Owners, s: Slot, r: nat, va: nat)
    requires CanInstall(frames, freeList, owner, s) && IsRoot(owner, r)
    ensures freeList[0] !in owner && OwnerOk(frames, owner, s.table)
    ensures Leaf(Installed(frames, s, freeList[0]), r, va) == Leaf(frames, r, va)
  {
    InstallEntries(frames, freeList, owner, s);
    MakePteFields(freeList[0], PTE_V);
    LeafSlotOwned(frames, freeList, owner, r, va);
    var e2 := Entry(frames, r, PX(2, va));
    assert OwnerOk(frames, owner, r);
    if IsValid(e2) {
      MidTableOwned(frames, freeList, owner, r, va);
      var t1 := Pte2Pa(e2);
      var e1 := Entry(frames, t1, PX(1, va));
      if IsValid(e1) {
        assert OwnerOk(frames, owner, t1) && SlotOk(frames, owner, t1, PX(1, va));
      }
    }
  }

  /** walk's allocation step keeps the invariant, and no leaf of any root
      changes. */
  lemma InstallTable(frames: Frames, freeList: seq<nat>, owner: Owners, s: Slot)
    requires CanInstall(frames, freeList, owner, s)
    ensures freeList[0] !in owner && OwnerOk(frames, owner, s.table)
    ensures var n := freeList[0];
      var frames' := Installed(frames, s, n);
      var owner' := owner[n := ChildOwner(owner, s)];
      && Inv(frames', freeList[1..], owner')
      && (forall r, va :: IsRoot(owner, r) ==> Leaf(frames', r, va) == Leaf(frames, r, va))
      && (forall r :: IsRoot(owner', r) <==> IsRoot(owner, r))
  {
    var n := freeList[0];
    InstallEntries(frames, freeList, owner, s);
    PopFree(frames, freeList, owner);
    var frames' := Installed(frames, s, n);
    var owner' := owner[n := ChildOwner(owner, s)];
    forall f | f in owner' ensures OwnerOk(frames', owner', f) {
      InstallOwnerOk(frames, freeList, owner, s, f);
    }
    forall r, va | IsRoot(owner, r) ensures Leaf(frames', r, va) == Leaf(frames, r, va) {
      InstallLeaves(frames, freeList, owner, s, r, va);
    }
    forall t: nat, i: nat | IsTable(owner', t) && owner'[t].level == 0 && i < ENTRIES
      ensures AliasOk(frames', freeList[1..], owner', t, i)
    {
      InstallAliasOk(frames, freeList, owner, s, t, i);
    }
  }

  lemma InstallAliasOk(frames: Frames, freeList: seq<nat>, owner: Owners, s: Slot, t: nat, i: nat)
    requires CanInstall(frames, freeList, owner, s)
    requires var owner' := owner[freeList[0] := ChildOwner(owner, s)];
      IsTable(owner', t) && owner'[t].level == 0 && i < ENTRIES
    ensures freeList[0] !in owner && OwnerOk(frames, owner, s.table)
    ensures AliasOk(Installed(frames, s, freeList[0]), freeList[1..], owner[freeList[0] := ChildOwner(owner, s)], t, i)
  {
    InstallEntries(frames, freeList, owner, s);
    PopFree(frames, freeList, owner);
    if t != freeList[0] {
      assert AliasOk(frames, freeList, owner, t, i);
    }
  }

  // ---------------------------------------------------------------------
  // Writing a leaf slot.

  /** A valid leaf without PTE_S owns its frame. */
  predicate Owning(w: Word)
  {
    IsValid(w) && !Has(w, PTE_S)
  }

  /** The owners once slot s holds w instead of its old entry: the old
      entry's frame loses its owner, the new entry's frame gains one. */
  function LeafOwners(frames: Frames, owner: Owners, s: Slot, w: Word): Owners
  {
    var e := Entry(frames, s.table, s.index);
    var o1 := if Owning(e) then owner - {Pte2Pa(e)} else owner;
    if Owning(w) then o1[Pte2Pa(w) := LeafOf(s.table, s.index)] else o1
  }

  /** What storing w in level-0 slot s requires: a valid leaf has R, W or X,
      and a frame it is to own is a data page nobody else owns and not free. */
  ghost predicate CanSetLeaf(frames: Frames, freeList: seq<nat>, owner: Owners, s: Slot, w: Word)
  {
    && Inv(frames, freeList, owner)
    && IsTable(owner, s.table) && owner[s.table].level == 0 && s.index < ENTRIES
    && (IsValid(w) ==> Has(w, PTE_RWX))
    && (IsValid(w) && Has(w, PTE_S) ==>
         var p := Pte2Pa(w);
         && p in frames && frames[p].DataFrame? && |frames[p].bytes| == PGSIZE
         && !IsTable(owner, p) && p !in FreeSet(freeList))
    && (Owning(w) ==>
         var p := Pte2Pa(w);
         var e := Entry(frames, s.table, s.index);
         && p in frames && frames[p].DataFrame? && |frames[p].bytes| == PGSIZE
         && p !in FreeSet(freeList)
         && (p in owner ==> Owning(e) && Pte2Pa(e) == p))
  }

  lemma SetLeafBasics(frames: Frames, freeList: seq<nat>, owner: Owners, s: Slot, w: Word)
    requires CanSetLeaf(frames, freeList, owner, s, w)
    ensures OwnerOk(frames, owner, s.table)
    ensures s.table in frames && frames[s.table].PtFrame? && |frames[s.table].ptes| == ENTRIES
    ensures var e := Entry(frames, s.table, s.index);
      Owning(e) ==> Pte2Pa(e) in owner && owner[Pte2Pa(e)] == LeafOf(s.table, s.index)
    ensures var o2 := LeafOwners(frames, owner, s, w);
      && (forall f :: IsTable(o2, f) <==> IsTable(owner, f))
      && (forall f :: IsTable(owner, f) ==> o2[f] == owner[f])
      && (forall f :: f in o2 && f in owner && o2[f] != owner[f] ==> Owning(w) && f == Pte2Pa(w))
  {
    assert OwnerOk(frames, owner, s.table);
    assert SlotOk(frames, owner, s.table, s.index);
  }

  lemma SetLeafSlotOk(frames: Frames, freeList: seq<nat>, owner: Owners, s: Slot, w: Word, f: nat, i: nat)
    requires CanSetLeaf(frames, freeList, owner, s, w)
    requires IsTable(owner, f) && i < ENTRIES
    ensures s.table in frames && frames[s.table].PtFrame? && s.index < |frames[s.table].ptes|
    ensures IsTable(LeafOwners(frames, owner, s, w), f)
    ensures SlotOk(SetEntry(frames, s, w), LeafOwners(frames, owner, s, w), f, i)
  {
    SetLeafBasics(frames, freeList, owner, s, w);
    assert OwnerOk(frames, owner, f);
    assert SlotOk(frames, owner, f, i);
    var e := Entry(frames, f, i);
    if Owning(e) && owner[f].level == 0 && (f, i) != (s.table, s.index) {
      assert owner[Pte2Pa(e)] == LeafOf(f, i);
    }
  }

  lemma SetLeafLinkOk(frames: Frames, freeList: seq<nat>, owner: Owners, s: Slot, w: Word, f: nat)
    requires CanSetLeaf(frames, freeList, owner, s, w)
    requires IsTable(owner, f)
    ensures OwnerOk(frames, owner, f)
    ensures s.table in frames && frames[s.table].PtFrame? && s.index < |frames[s.table].ptes|
    ensures LinkedFromParent(SetEntry(frames, s, w), f, owner[f].root, owner[f].path)
  {
    SetLeafBasics(frames, freeList, owner, s, w);
    assert OwnerOk(frames, owner, f);
    var r, path := owner[f].root, owner[f].path;
    assert OwnerOk(frames, owner, r);
    if |path| == 2 {
      assert SlotOk(frames, owner, r, path[0]);
    }
  }

  lemma SetLeafOwnerOk(frames: Frames, freeList: seq<nat>, owner: Owners, s: Slot, w: Word, f: nat)
    requires CanSetLeaf(frames, freeList, owner, s, w)
    requires f in LeafOwners(frames, owner, s, w)
    ensures s.table in frames && frames[s.table].PtFrame? && s.index < |frames[s.table].ptes|
    ensures OwnerOk(SetEntry(frames, s, w), LeafOwners(frames, owner, s, w), f)
  {
    SetLeafBasics(frames, freeList, owner, s, w);
    var frames2 := SetEntry(frames, s, w);
    var owner2 := LeafOwners(frames, owner, s, w);
    if Owning(w) && f == Pte2Pa(w) {
    } else {
      assert f in owner && owner2[f] == owner[f];
      assert OwnerOk(frames, owner, f);
      if owner[f].TableOf? {
        forall i | 0 <= i < ENTRIES ensures SlotOk(frames2, owner2, f, i) {
          SetLeafSlotOk(frames, freeList, owner, s, w, f, i);
        }
        SetLeafLinkOk(frames, freeList, owner, s, w, f);
      }
    }
  }

  /** Walk's slots of roots do not move when a leaf slot is written, and
      only the leaf found in slot s changes. */
  lemma SetLeafSlots(frames: Frames, freeList: seq<nat>, owner: Owners, s: Slot, w: Word, r: nat, va: nat)
    requires CanSetLeaf(frames, freeList, owner, s, w) && IsRoot(owner, r)
    ensures s.table in frames && frames[s.table].PtFrame? && s.index < |frames[s.table].ptes|
    ensures LeafSlot(SetEntry(frames, s, w), r, va) == LeafSlot(frames, r, va)
    ensures Leaf(SetEntry(frames, s, w), r, va) == if LeafSlot(frames, r, va) == Some(s) then w else Leaf(frames, r, va)
  {
    SetLeafBasics(frames, freeList, owner, s, w);
    assert OwnerOk(frames, owner, r);
    if IsValid(Entry(frames, r, PX(2, va))) {
      MidTableOwned(frames, freeList, owner, r, va);
    }
  }

  /** Storing w in a level-0 slot keeps the invariant and the tables. */
  lemma SetLeafInv(frames: Frames, freeList: seq<nat>, owner: Owners, s: Slot, w: Word)
    requires CanSetLeaf(frames, freeList, owner, s, w)
    ensures s.table in frames && frames[s.table].PtFrame? && s.index < |frames[s.table].ptes|
    ensures var owner' := LeafOwners(frames, owner, s, w);
      && Inv(SetEntry(frames, s, w), freeList, owner')
      && (forall r :: IsRoot(owner', r) <==> IsRoot(owner, r))
      && (forall r :: TablesOf(owner', r) == TablesOf(owner, r))
  {
    SetLeafBasics(frames, freeList, owner, s, w);
    var frames' := SetEntry(frames, s, w);
    var owner' := LeafOwners(frames, owner, s, w);
    forall f | f in owner' ensures OwnerOk(frames', owner', f) {
      SetLeafOwnerOk(frames, freeList, owner, s, w, f);
    }
    SetLeafOwners(frames, freeList, owner, s, w);
    forall t: nat, i: nat | IsTable(owner', t) && owner'[t].level == 0 && i < ENTRIES
      ensures AliasOk(frames', freeList, owner', t, i)
    {
      assert AliasOk(frames, freeList, owner, t, i);
    }
  }

  /** The new owners keep the tables and the free list unowned. */
  lemma SetLeafOwners(frames: Frames, freeList: seq<nat>, owner: Owners, s: Slot, w: Word)
    requires CanSetLeaf(frames, freeList, owner, s, w)
    ensures var owner' := LeafOwners(frames, owner, s, w);
      && (forall k :: 0 <= k < |freeList| ==> freeList[k] !in owner')
      && (forall r :: IsRoot(owner', r) <==> IsRoot(owner, r))
      && (forall r :: TablesOf(owner', r) == TablesOf(owner, r))
  {
    SetLeafBasics(frames, freeList, owner, s, w);
    var owner' := LeafOwners(frames, owner, s, w);
    forall k | 0 <= k < |freeList| ensures freeList[k] !in owner' {
      assert freeList[k] in FreeSet(freeList);
    }
    forall r ensures TablesOf(owner', r) == TablesOf(owner, r) {
    }
  }

  /** Storing w in a level-0 slot keeps the invariant; the only leaf of any
      root that changes is the one walk finds in that slot. */
  lemma SetLeaf(frames: Frames, freeList: seq<nat>, owner: Owners, s: Slot, w: Word)
    requires CanSetLeaf(frames, freeList, owner, s, w)
    ensures s.table in frames && frames[s.table].PtFrame? && s.index < |frames[s.table].ptes|
    ensures var frames' := SetEntry(frames, s, w);
      var owner' := LeafOwners(frames, owner, s, w);
      && Inv(frames', freeList, owner')
      && (forall r :: IsRoot(owner', r) <==> IsRoot(owner, r))
      && (forall r :: TablesOf(owner', r) == TablesOf(owner, r))
      && (forall r, va :: IsRoot(owner, r) ==> LeafSlot(frames', r, va) == LeafSlot(frames, r, va))
      && (forall r, va :: IsRoot(owner, r) ==>
            Leaf(frames', r, va) == if LeafSlot(frames, r, va) == Some(s) then w else Leaf(frames, r, va))
  {
    SetLeafInv(frames, freeList, owner, s, w);
    forall r, va | IsRoot(owner, r)
      ensures LeafSlot(SetEntry(frames, s, w), r, va) == LeafSlot(frames, r, va)
      ensures Leaf(SetEntry(frames, s, w), r, va) == if LeafSlot(frames, r, va) == Some(s) then w else Leaf(frames, r, va)
    {
      SetLeafSlots(frames, freeList, owner, s, w, r, va);
    }
  }

  // ---------------------------------------------------------------------
  // Slots and pages.

  /** Below MAXVA, walk's slot in a root is the slot of exactly one page of
      exactly that root. */
  lemma SlotForPage(frames: Frames, freeList: seq<nat>, owner: Owners, pt: nat, a: nat, r: nat, v: nat)
    requires Inv(frames, freeList, owner) && IsRoot(owner, pt) && IsRoot(owner, r)
    requires a < MAXVA && v < MAXVA && LeafSlot(frames, pt, a).Some?
    ensures LeafSlot(frames, r, v) == LeafSlot(frames, pt, a) <==> r == pt && v / PGSIZE == a / PGSIZE
  {
    LeafSlotOwned(frames, freeList, owner, pt, a);
    LeafSlotOwned(frames, freeList, owner, r, v);
    if LeafSlot(frames, r, v) == LeafSlot(frames, pt, a) {
      PathDeterminesPage(a, v);
    }
    if r == pt && v / PGSIZE == a / PGSIZE {
      SamePageSamePath(a, v);
    }
  }

  // ---------------------------------------------------------------------
  // Relations between two states.

  /** The frames that are owned or free: a frame outside this set is in the
      custody of whoever allocated it. An operation that keeps this set does
      not leak. */
  function Accounted(freeList: seq<nat>, owner: Owners): set<nat>
  {
    owner.Keys + FreeSet(freeList)
  }

  /** From state 0 to state 1 the tables below pt grew by frames taken off
      the head of the free list; nothing else changed, no leaf of any root
      and no frame other than a table. */
  ghost predicate TreeGrown(f0: Frames, fl0: seq<nat>, o0: Owners, f1: Frames, fl1: seq<nat>, o1: Owners, pt: nat)
  {
    && f1.Keys == f0.Keys
    && |fl1| <= |fl0| && fl1 == fl0[|fl0| - |fl1|..]
    && (forall f :: f in o0 ==> f in o1 && o1[f] == o0[f])
    && (forall f :: f in o1 && f !in o0 ==> o1[f].TableOf? && o1[f].root == pt && o1[f].level < 2)
    && Accounted(fl1, o1) == Accounted(fl0, o0)
    && (forall r, va :: IsRoot(o0, r) ==> Leaf(f1, r, va) == Leaf(f0, r, va))
    && (forall f :: f in f0 && !IsTable(o1, f) ==> f1[f] == f0[f])
  }

  lemma TreeGrownRefl(f0: Frames, fl0: seq<nat>, o0: Owners, pt: nat)
    ensures TreeGrown(f0, fl0, o0, f0, fl0, o0, pt)
  {
  }

  lemma TreeGrownTrans(f0: Frames, fl0: seq<nat>, o0: Owners, f1: Frames, fl1: seq<nat>, o1: Owners,
                       f2: Frames, fl2: seq<nat>, o2: Owners, pt: nat)
    requires TreeGrown(f0, fl0, o0, f1, fl1, o1, pt) && TreeGrown(f1, fl1, o1, f2, fl2, o2, pt)
    ensures TreeGrown(f0, fl0, o0, f2, fl2, o2, pt)
  {
    assert forall r :: IsRoot(o0, r) ==> IsRoot(o1, r);
    assert fl2 == fl0[|fl0| - |fl2|..];
  }

  /** Roots are the same before and after the tree grows. */
  lemma TreeGrownRoots(f0: Frames, fl0: seq<nat>, o0: Owners, f1: Frames, fl1: seq<nat>, o1: Owners, pt: nat)
    requires TreeGrown(f0, fl0, o0, f1, fl1, o1, pt)
    ensures forall r :: IsRoot(o1, r) <==> IsRoot(o0, r)
    ensures forall f :: IsTable(o0, f) ==> IsTable(o1, f)
  {
  }

  /** The frames a growing tree takes come off the free list. */
  lemma TreeGrownFree(f0: Frames, fl0: seq<nat>, o0: Owners, f1: Frames, fl1: seq<nat>, o1: Owners, pt: nat)
    requires TreeGrown(f0, fl0, o0, f1, fl1, o1, pt)
    ensures forall f :: f in o1 && f !in o0 ==> f in FreeSet(fl0)
    ensures FreeSet(fl1) <= FreeSet(fl0)
  {
    forall x | x in FreeSet(fl1) ensures x in FreeSet(fl0) {
      var k :| 0 <= k < |fl1| && fl1[k] == x;
      assert fl0[|fl0| - |fl1| + k] == x;
    }
    forall f | f in o1 && f !in o0 ensures f in FreeSet(fl0) {
      assert f in Accounted(fl1, o1);
    }
  }

  /** The allocation step of walk grows the tree. */
  lemma InstallGrows(frames: Frames, freeList: seq<nat>, owner: Owners, s: Slot)
    requires CanInstall(frames, freeList, owner, s)
    ensures freeList[0] !in owner && OwnerOk(frames, owner, s.table)
    ensures Inv(Installed(frames, s, freeList[0]), freeList[1..], owner[freeList[0] := ChildOwner(owner, s)])
    ensures TreeGrown(frames, freeList, owner,
                      Installed(frames, s, freeList[0]), freeList[1..], owner[freeList[0] := ChildOwner(owner, s)],
                      owner[s.table].root)
  {
    InstallTable(frames, freeList, owner, s);
    var n := freeList[0];
    assert FreeSet(freeList) == {n} + FreeSet(freeList[1..]) by {
      forall x | x in FreeSet(freeList) ensures x in {n} + FreeSet(freeList[1..]) {
        var k :| 0 <= k < |freeList| && freeList[k] == x;
        if k > 0 { assert freeList[1..][k - 1] == x; }
      }
    }
  }
}
