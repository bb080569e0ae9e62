/** Moving bytes between kernel buffers and user address space, as
    copyout, copyin and copyinstr of kernel/vm.c do: page by page, each
    page translated by walkaddr. Kernel buffers are byte sequences; the
    bytes a routine stores into its kernel buffer are returned. */
module UserCopy {
  import opened Sv39
  import opened Phys
  import opened PageTable

  // ---------------------------------------------------------------------
  // User memory as the copy routines see it.

  /** The frame walkaddr yields for the page holding user address va
      (0 when walkaddr refuses the page). */
  function UserFrame(f: Frames, pt: nat, va: nat): nat
  {
    WalkAddr(f, pt, PgRoundDown(va))
  }

  lemma UserFrameIs(f: Frames, pt: nat, va: nat)
    ensures UserFrame(f, pt, va) == WalkAddr(f, pt, PgRoundDown(va))
  {
  }

  /** User byte va can be reached: walkaddr accepts its page and the frame
      holds a full data page. */
  predicate Reachable(f: Frames, pt: nat, va: nat)
  {
    var pa := UserFrame(f, pt, va);
    pa != 0 && pa in f && f[pa].DataFrame? && |f[pa].bytes| == PGSIZE
  }

  lemma ReachableFrame(f: Frames, pt: nat, va: nat)
    ensures Reachable(f, pt, va) ==> UserFrame(f, pt, va) != 0
  {
  }

  /** Byte j of frame p, when p holds a data page that long (else 0). */
  function FrameByte(f: Frames, p: nat, j: nat): bv8
  {
    if p in f && f[p].DataFrame? && j < |f[p].bytes| then f[p].bytes[j] else 0
  }

  /** The byte at user address va. */
  function UserByte(f: Frames, pt: nat, va: nat): bv8
  {
    FrameByte(f, UserFrame(f, pt, va), va % PGSIZE)
  }

  /** The n user bytes from va on. */
  function ReadUser(f: Frames, pt: nat, va: nat, n: nat): seq<bv8>
  {
    seq(n, k requires 0 <= k < n => UserByte(f, pt, va + k))
  }

  /** Byte j of data frame p set to b (no change unless p holds a data page
      that long). */
  function PutByte(f: Frames, p: nat, j: nat, b: bv8): Frames
  {
    if p in f && f[p].DataFrame? && j < |f[p].bytes| then f[p := DataFrame(f[p].bytes[j := b])] else f
  }

  /** memmove(base + off, run, |run|) on a page's bytes. */
  function Splice(bytes: seq<bv8>, off: nat, run: seq<bv8>): (r: seq<bv8>)
    requires off + |run| <= |bytes|
    ensures |r| == |bytes| && r[off..off + |run|] == run
    ensures forall j :: 0 <= j < |bytes| && !(off <= j < off + |run|) ==> r[j] == bytes[j]
  {
    bytes[..off] + run + bytes[off + |run|..]
  }

  /** Memory after the bytes of s are stored in order from user address va
      on, each through f0's translation; unreachable bytes are dropped. */
  function Stored(f0: Frames, pt: nat, va: nat, s: seq<bv8>): Frames
    decreases |s|
  {
    if s == [] then f0
    else
      var a := va + |s| - 1;
      var g := Stored(f0, pt, va, s[..|s| - 1]);
      if Reachable(f0, pt, a) then PutByte(g, UserFrame(f0, pt, a), a % PGSIZE, s[|s| - 1]) else g
  }

  /** No two pages of the n bytes from va share a frame. */
  predicate NoAlias(f: Frames, pt: nat, va: nat, n: nat)
  {
    forall a, b :: va <= a < va + n && va <= b < va + n && UserFrame(f, pt, a) == UserFrame(f, pt, b) ==>
      PgRoundDown(a) == PgRoundDown(b)
  }

  /** The bytes one round of a copy loop moves: n = PGSIZE - (va - va0),
      cut down to len. */
  function ChunkLen(va: nat, len: nat): (n: nat)
    ensures n <= len && va % PGSIZE + n <= PGSIZE
    ensures len > 0 ==> n > 0
    ensures n == len || va + n == PgRoundDown(va) + PGSIZE
  {
    InPage(PgRoundDown(va), va);
    var n := PGSIZE - (va - PgRoundDown(va));
    if n > len then len else n
  }

  // ---------------------------------------------------------------------
  // Facts about the reference functions.

  /** An address within the page at base has that page and its offset. */
  lemma InPage(base: nat, a: nat)
    requires base % PGSIZE == 0 && base <= a < base + PGSIZE
    ensures PgRoundDown(a) == base && a % PGSIZE == a - base
  {
    var q := base / PGSIZE;
    assert base == q * PGSIZE;
    assert a == q * PGSIZE + (a - base);
  }

  /** Reading a byte after PutByte: the byte put, at its own place. */
  lemma FrameBytePut(g: Frames, p: nat, j: nat, b: bv8, q: nat, i: nat)
    requires p in g && g[p].DataFrame? && j < |g[p].bytes|
    ensures FrameByte(PutByte(g, p, j, b), q, i) == if q == p && i == j then b else FrameByte(g, q, i)
  {
  }

  /** In well-formed memory a byte is reachable exactly when walkaddr
      accepts its page: the page lies below MAXVA and its leaf is valid and
      carries PTE_U. */
  lemma ReachableSpec(f: Frames, fl: seq<nat>, o: Owners, pt: nat, va: nat)
    requires Inv(f, fl, o) && IsRoot(o, pt)
    ensures var w := Leaf(f, pt, PgRoundDown(va));
      Reachable(f, pt, va) <==> va < MAXVA && IsValid(w) && Has(w, PTE_U)
  {
    WalkAddrSpec(f, fl, o, pt, PgRoundDown(va));
    if va < MAXVA {
      assert PgRoundDown(va) < MAXVA;
    } else {
      InPage(MAXVA, MAXVA);
      assert PgRoundDown(va) >= MAXVA by {
        assert va / PGSIZE >= MAXVA / PGSIZE;
      }
    }
  }

  /** Storing bytes rewrites data frames only: every table entry, and with
      it every translation and every reachable byte, stays as it was. */
  lemma {:induction false} StoredShape(f0: Frames, pt: nat, va: nat, s: seq<bv8>)
    ensures var g := Stored(f0, pt, va, s);
      && g.Keys == f0.Keys
      && (forall p :: p in g ==> g[p].DataFrame? == f0[p].DataFrame?)
      && (forall p :: p in g && g[p].DataFrame? ==> |g[p].bytes| == |f0[p].bytes|)
      && (forall p :: p in g && g[p].PtFrame? ==> g[p] == f0[p])
    decreases |s|
  {
    if s != [] {
      StoredShape(f0, pt, va, s[..|s| - 1]);
    }
  }

  /** copyout changes no translation: walkaddr, and which bytes can be
      reached, are the same before and after. */
  lemma StoredTranslation(f0: Frames, pt: nat, va: nat, s: seq<bv8>)
    ensures forall t, i :: Entry(Stored(f0, pt, va, s), t, i) == Entry(f0, t, i)
    ensures forall x :: UserFrame(Stored(f0, pt, va, s), pt, x) == UserFrame(f0, pt, x)
    ensures forall x :: Reachable(Stored(f0, pt, va, s), pt, x) <==> Reachable(f0, pt, x)
  {
    var g := Stored(f0, pt, va, s);
    StoredShape(f0, pt, va, s);
    forall t, i ensures Entry(g, t, i) == Entry(f0, t, i) {
      if t in f0 && f0[t].PtFrame? {
        assert g[t] == f0[t];
      }
    }
    forall x ensures UserFrame(g, pt, x) == UserFrame(f0, pt, x) {
      var v := PgRoundDown(x);
      assert Entry(g, pt, PX(2, v)) == Entry(f0, pt, PX(2, v));
      assert Entry(g, Pte2Pa(Entry(f0, pt, PX(2, v))), PX(1, v)) == Entry(f0, Pte2Pa(Entry(f0, pt, PX(2, v))), PX(1, v));
      assert LeafSlot(g, pt, v) == LeafSlot(f0, pt, v);
      match LeafSlot(f0, pt, v)
      case None =>
      case Some(sl) =>
        assert Entry(g, sl.table, sl.index) == Entry(f0, sl.table, sl.index);
    }
  }

  /** Storing a run of bytes that falls in one page rewrites that page's
      frame from offset off on with the run (memmove into pa0 + off). */
  lemma {:induction false} StoredChunk(f0: Frames, pt: nat, va: nat, s: seq<bv8>, w: nat, n: nat, pa: nat, off: nat)
    requires w + n <= |s| && off + n <= PGSIZE
    requires forall a :: va + w <= a < va + w + n ==>
      Reachable(f0, pt, a) && UserFrame(f0, pt, a) == pa && a % PGSIZE == off + (a - va - w)
    requires var g := Stored(f0, pt, va, s[..w]);
      pa in g && g[pa].DataFrame? && |g[pa].bytes| == PGSIZE
    ensures var g := Stored(f0, pt, va, s[..w]);
      Stored(f0, pt, va, s[..w + n]) == g[pa := DataFrame(Splice(g[pa].bytes, off, s[w..w + n]))]
    decreases n
  {
    hide *;
    var g := Stored(f0, pt, va, s[..w]);
    var b0 := g[pa].bytes;
    if n == 0 {
      assert Splice(b0, off, s[w..w]) == b0;
      assert s[..w + n] == s[..w];
      assert g[pa := DataFrame(b0)] == g;
    } else {
      StoredChunk(f0, pt, va, s, w, n - 1, pa, off);
      var t := s[..w + n];
      assert t[..|t| - 1] == s[..w + n - 1];
      StoredLast(f0, pt, va, t, pa, off + n - 1);
      PutByteSplice(g, pa, off, s[w..w + n - 1], s[w + n - 1]);
      assert s[w..w + n - 1] + [s[w + n - 1]] == s[w..w + n];
    }
  }

  /** Storing t whose last byte goes to offset j of frame pa puts that byte
      there after storing the rest. */
  lemma StoredLast(f0: Frames, pt: nat, va: nat, t: seq<bv8>, pa: nat, j: nat)
    requires |t| > 0
    requires Reachable(f0, pt, va + |t| - 1) && UserFrame(f0, pt, va + |t| - 1) == pa
    requires (va + |t| - 1) % PGSIZE == j
    ensures Stored(f0, pt, va, t) == PutByte(Stored(f0, pt, va, t[..|t| - 1]), pa, j, t[|t| - 1])
  {
  }

  /** Putting the byte after a spliced run extends the run by that byte. */
  lemma PutByteSplice(g: Frames, pa: nat, off: nat, run: seq<bv8>, x: bv8)
    requires pa in g && g[pa].DataFrame? && off + |run| < |g[pa].bytes|
    ensures var h := g[pa := DataFrame(Splice(g[pa].bytes, off, run))];
      PutByte(h, pa, off + |run|, x) == g[pa := DataFrame(Splice(g[pa].bytes, off, run + [x]))]
  {
    var b0 := g[pa].bytes;
    assert Splice(b0, off, run)[off + |run| := x] == Splice(b0, off, run + [x]);
  }

  /** Each byte stored where no two pages alias one frame can be read back
      from the frame that translates its address. */
  lemma {:induction false} StoredByte(f0: Frames, pt: nat, va: nat, s: seq<bv8>)
    requires forall a :: va <= a < va + |s| ==> Reachable(f0, pt, a)
    requires NoAlias(f0, pt, va, |s|)
    ensures forall a :: va <= a < va + |s| ==>
      FrameByte(Stored(f0, pt, va, s), UserFrame(f0, pt, a), a % PGSIZE) == s[a - va]
    decreases |s|
  {
    hide UserFrame;
    if s != [] {
      var s' := s[..|s| - 1];
      var g := Stored(f0, pt, va, s');
      var last := va + |s| - 1;
      var pl := UserFrame(f0, pt, last);
      assert Reachable(f0, pt, last);
      assert Stored(f0, pt, va, s) == PutByte(g, pl, last % PGSIZE, s[|s| - 1]);
      StoredByte(f0, pt, va, s');
      StoredShape(f0, pt, va, s');
      assert pl in g && g[pl].DataFrame? && last % PGSIZE < |g[pl].bytes|;
      hide Reachable, Stored;
      forall a | va <= a < va + |s|
        ensures FrameByte(Stored(f0, pt, va, s), UserFrame(f0, pt, a), a % PGSIZE) == s[a - va]
      {
        var p := UserFrame(f0, pt, a);
        FrameBytePut(g, pl, last % PGSIZE, s[|s| - 1], p, a % PGSIZE);
        if a != last && p == pl {
          assert PgRoundDown(a) == PgRoundDown(last);
          InPage(PgRoundDown(a), a);
          InPage(PgRoundDown(a), last);
        }
      }
    }
  }

  /** copyout followed by copyin of the same range gives back what was
      written, when no two of its pages alias one frame. */
  lemma CopyOutReadBack(f0: Frames, pt: nat, va: nat, s: seq<bv8>)
    requires forall a :: va <= a < va + |s| ==> Reachable(f0, pt, a)
    requires NoAlias(f0, pt, va, |s|)
    ensures forall a :: va <= a < va + |s| ==> Reachable(Stored(f0, pt, va, s), pt, a)
    ensures ReadUser(Stored(f0, pt, va, s), pt, va, |s|) == s
  {
    hide UserFrame;
    StoredTranslation(f0, pt, va, s);
    StoredByte(f0, pt, va, s);
    var g := Stored(f0, pt, va, s);
    forall k | 0 <= k < |s| ensures ReadUser(g, pt, va, |s|)[k] == s[k] {
      var a := va + k;
      assert ReadUser(g, pt, va, |s|)[k] == UserByte(g, pt, a);
      assert UserFrame(g, pt, a) == UserFrame(f0, pt, a);
      assert FrameByte(g, UserFrame(f0, pt, a), a % PGSIZE) == s[a - va];
    }
  }

  /** Reading a run that falls in frame pa from offset off on extends the
      bytes read so far with that slice of the frame. */
  lemma ReadChunk(f: Frames, pt: nat, va: nat, k: nat, n: nat, pa: nat, off: nat)
    requires forall a :: va <= a < va + k ==> Reachable(f, pt, a)
    requires pa != 0 && pa in f && f[pa].DataFrame? && |f[pa].bytes| == PGSIZE && off + n <= PGSIZE
    requires forall a :: va + k <= a < va + k + n ==> UserFrame(f, pt, a) == pa && a % PGSIZE == off + (a - va - k)
    ensures forall a :: va <= a < va + k + n ==> Reachable(f, pt, a)
    ensures ReadUser(f, pt, va, k + n) == ReadUser(f, pt, va, k) + f[pa].bytes[off..off + n]
  {
    hide UserFrame;
    assert forall a :: va + k <= a < va + k + n ==> Reachable(f, pt, a);
    var r := ReadUser(f, pt, va, k + n);
    var q := ReadUser(f, pt, va, k) + f[pa].bytes[off..off + n];
    forall j | 0 <= j < k + n ensures r[j] == q[j] {
      if j >= k {
        assert UserFrame(f, pt, va + j) == pa && (va + j) % PGSIZE == off + (j - k);
      }
    }
  }

  /** The addresses of one round lie in va's page at consecutive offsets. */
  lemma ChunkPage(f: Frames, pt: nat, va: nat, n: nat)
    requires va % PGSIZE + n <= PGSIZE
    ensures forall a :: va <= a < va + n ==>
      PgRoundDown(a) == PgRoundDown(va) && a % PGSIZE == va % PGSIZE + (a - va) &&
      UserFrame(f, pt, a) == UserFrame(f, pt, va)
  {
    var va0 := PgRoundDown(va);
    InPage(va0, va);
    forall a | va <= a < va + n
      ensures PgRoundDown(a) == va0 && a % PGSIZE == va % PGSIZE + (a - va)
    {
      InPage(va0, a);
    }
  }

  /** One round of copyout, from memory g holding the first s bytes: the
      n bytes go to the data frame behind va = dstva + s from offset off
      on, which leaves memory holding the first s2 = s + n bytes. */
  lemma CopyOutStep(g: Frames, fl: seq<nat>, o: Owners, f0: Frames, pt: nat, dstva: nat, src: seq<bv8>,
                    s: nat, n: nat, va: nat, off: nat, pa: nat)
    requires Inv(g, fl, o) && IsRoot(o, pt) && s + n <= |src|
    requires OutProgress(f0, g, pt, dstva, src, s)
    requires va == dstva + s && off == va % PGSIZE && off + n <= PGSIZE
    requires pa == UserFrame(g, pt, va) && pa != 0
    ensures pa in g && !IsTable(o, pa) && g[pa].DataFrame? && |g[pa].bytes| == PGSIZE
    ensures OutProgress(f0, g[pa := DataFrame(Splice(g[pa].bytes, off, src[s..s + n]))], pt, dstva, src, s + n)
  {
    hide Inv, Splice;
    WalkAddrSpec(g, fl, o, pt, PgRoundDown(va));
    assert UserFrame(g, pt, va) == WalkAddr(g, pt, PgRoundDown(va));
    ChunkPage(f0, pt, va, n);
    hide UserFrame;
    StoredTranslation(f0, pt, dstva, src[..s]);
    assert Reachable(g, pt, va);
    StoredChunk(f0, pt, dstva, src, s, n, pa, off);
  }

  /** copyout's progress after s bytes: memory holds them, stored through
      the translation of f0, and every one of them was reachable. */
  ghost predicate OutProgress(f0: Frames, f: Frames, pt: nat, dstva: nat, src: seq<bv8>, s: nat)
  {
    && s <= |src| && f == Stored(f0, pt, dstva, src[..s])
    && forall a :: dstva <= a < dstva + s ==> Reachable(f0, pt, a)
  }

  lemma OutProgressFacts(f0: Frames, f: Frames, pt: nat, dstva: nat, src: seq<bv8>, s: nat)
    requires OutProgress(f0, f, pt, dstva, src, s)
    ensures s <= |src| && f == Stored(f0, pt, dstva, src[..s])
    ensures forall a :: dstva <= a < dstva + s ==> Reachable(f0, pt, a)
  {
  }

  lemma OutStart(f0: Frames, pt: nat, dstva: nat, src: seq<bv8>)
    ensures OutProgress(f0, f0, pt, dstva, src, 0)
  {
    assert src[..0] == [];
  }

  /** copyout stops at a page walkaddr refuses: its first byte is not
      reachable in the memory copyout started from. */
  lemma CopyOutStop(g: Frames, f0: Frames, pt: nat, dstva: nat, src: seq<bv8>, s: nat, va: nat)
    requires OutProgress(f0, g, pt, dstva, src, s)
    requires va == dstva + s && UserFrame(g, pt, va) == 0
    ensures !Reachable(f0, pt, dstva + s)
  {
    hide *;
    OutProgressFacts(f0, g, pt, dstva, src, s);
    StoredTranslation(f0, pt, dstva, src[..s]);
    ReachableFrame(f0, pt, va);
  }

  // ---------------------------------------------------------------------
  // The copy routines.

  lemma Unfold(m: Machine)
    requires m.Valid()
    ensures Inv(m.frames, m.freeList, m.owner)
  {
  }

  /** copyout(pagetable, dstva, src, len): store src at user address dstva.
      Returns -1 at the first page walkaddr refuses, after storing the
      bytes before it; `done` is the number stored. No mapping changes. */
  method CopyOut(m: Machine, pagetable: nat, dstva: nat, src: seq<bv8>) returns (r: int, ghost done: nat)
    requires m.Valid() && IsRoot(m.owner, pagetable)
    modifies m`frames
    ensures m.Valid() && (r == 0 || r == -1) && done <= |src|
    ensures m.frames == Stored(old(m.frames), pagetable, dstva, src[..done])
    ensures forall a :: dstva <= a < dstva + done ==> Reachable(old(m.frames), pagetable, a)
    ensures r == 0 ==> done == |src|
    ensures r == -1 ==> done < |src| && !Reachable(old(m.frames), pagetable, dstva + done)
  {
    hide *;
    ghost var f0 := m.frames;
    OutStart(f0, pagetable, dstva, src);
    var va := dstva;
    var len: nat := |src|;
    var s: nat := 0;
    done := 0;
    while len > 0
      invariant m.Valid() && s + len == |src| && done == s
      invariant len > 0 ==> va == dstva + s
      invariant OutProgress(f0, m.frames, pagetable, dstva, src, s)
    {
      var va0 := PgRoundDown(va);
      var pa0 := WalkAddr(m.frames, pagetable, va0);
      UserFrameIs(m.frames, pagetable, va);
      if pa0 == 0 {
        CopyOutStop(m.frames, f0, pagetable, dstva, src, s, va);
        OutProgressFacts(f0, m.frames, pagetable, dstva, src, s);
        return -1, done;
      }
      var n := ChunkLen(va, len);
      InPage(va0, va);
      var off := va - va0;
      Unfold(m);
      CopyOutStep(m.frames, m.freeList, m.owner, f0, pagetable, dstva, src, s, n, va, off, pa0);
      m.WritePage(pa0, DataFrame(Splice(m.frames[pa0].bytes, off, src[s..s + n])));
      len := len - n;
      s := s + n;
      done := s;
      va := va0 + PGSIZE;
    }
    OutProgressFacts(f0, m.frames, pagetable, dstva, src, s);
    r := 0;
  }

  /** What copyin and copyinstr keep after reading dst from srcva on: every
      byte was reachable and dst is what the user memory holds there. */
  ghost predicate InProgress(f: Frames, pt: nat, srcva: nat, dst: seq<bv8>)
  {
    && (forall a :: srcva <= a < srcva + |dst| ==> Reachable(f, pt, a))
    && dst == ReadUser(f, pt, srcva, |dst|)
  }

  lemma InProgressFacts(f: Frames, pt: nat, srcva: nat, dst: seq<bv8>)
    requires InProgress(f, pt, srcva, dst)
    ensures forall a :: srcva <= a < srcva + |dst| ==> Reachable(f, pt, a)
    ensures dst == ReadUser(f, pt, srcva, |dst|)
  {
  }

  lemma InStart(f: Frames, pt: nat, srcva: nat)
    ensures InProgress(f, pt, srcva, [])
  {
  }

  /** One copyin round: the n bytes at va, which continue dst and lie in
      the page walkaddr maps to pa, are bytes off..off + n of frame pa. */
  lemma CopyInStep(f: Frames, fl: seq<nat>, o: Owners, pt: nat, srcva: nat, dst: seq<bv8>,
                   va: nat, n: nat, pa: nat, off: nat)
    requires Inv(f, fl, o) && IsRoot(o, pt) && InProgress(f, pt, srcva, dst)
    requires va == srcva + |dst| && off == va % PGSIZE && off + n <= PGSIZE
    requires pa == UserFrame(f, pt, va) && pa != 0
    ensures pa in f && f[pa].DataFrame? && |f[pa].bytes| == PGSIZE
    ensures InProgress(f, pt, srcva, dst + f[pa].bytes[off..off + n])
  {
    hide Inv;
    WalkAddrSpec(f, fl, o, pt, PgRoundDown(va));
    ChunkPage(f, pt, va, n);
    ReadChunk(f, pt, srcva, |dst|, n, pa, off);
  }

  /** One byte of a copyinstr round: the byte p - off past va in va's page,
      when the bytes before it were read into dst. */
  lemma CopyInStrByte(f: Frames, fl: seq<nat>, o: Owners, pt: nat, srcva: nat, dst: seq<bv8>,
                      va: nat, pa: nat, p: nat)
    requires Inv(f, fl, o) && IsRoot(o, pt) && InProgress(f, pt, srcva, dst)
    requires va <= srcva + |dst| && p == va % PGSIZE + (srcva + |dst| - va) && p < PGSIZE
    requires pa == UserFrame(f, pt, va) && pa != 0
    ensures pa in f && f[pa].DataFrame? && |f[pa].bytes| == PGSIZE
    ensures InProgress(f, pt, srcva, dst + [f[pa].bytes[p]])
  {
    hide Inv;
    WalkAddrSpec(f, fl, o, pt, PgRoundDown(va));
    ChunkPage(f, pt, va, p - va % PGSIZE + 1);
    ReadChunk(f, pt, srcva, |dst|, 1, pa, p);
    assert f[pa].bytes[p..p + 1] == [f[pa].bytes[p]];
  }

  /** A round whose page walkaddr refuses: its first byte is unreachable. */
  lemma CopyInStop(f: Frames, pt: nat, va: nat)
    requires UserFrame(f, pt, va) == 0
    ensures !Reachable(f, pt, va)
  {
  }

  /** copyin(pagetable, dst, srcva, len): the len user bytes from srcva.
      Returns -1 at the first page walkaddr refuses, with dst holding the
      bytes before it. */
  method CopyIn(m: Machine, pagetable: nat, srcva: nat, len: nat) returns (r: int, dst: seq<bv8>)
    requires m.Valid() && IsRoot(m.owner, pagetable)
    ensures r == 0 || r == -1
    ensures forall a :: srcva <= a < srcva + |dst| ==> Reachable(m.frames, pagetable, a)
    ensures dst == ReadUser(m.frames, pagetable, srcva, |dst|)
    ensures r == 0 ==> |dst| == len
    ensures r == -1 ==> |dst| < len && !Reachable(m.frames, pagetable, srcva + |dst|)
  {
    hide *;
    Unfold(m);
    InStart(m.frames, pagetable, srcva);
    var va := srcva;
    var left: nat := len;
    dst := [];
    while left > 0
      invariant |dst| + left == len
      invariant left > 0 ==> va == srcva + |dst|
      invariant InProgress(m.frames, pagetable, srcva, dst)
    {
      var va0 := PgRoundDown(va);
      var pa0 := WalkAddr(m.frames, pagetable, va0);
      UserFrameIs(m.frames, pagetable, va);
      if pa0 == 0 {
        CopyInStop(m.frames, pagetable, va);
        InProgressFacts(m.frames, pagetable, srcva, dst);
        return -1, dst;
      }
      var n := ChunkLen(va, left);
      InPage(va0, va);
      var off := va - va0;
      CopyInStep(m.frames, m.freeList, m.owner, pagetable, srcva, dst, va, n, pa0, off);
      dst := dst + m.frames[pa0].bytes[off..off + n];
      left := left - n;
      va := va0 + PGSIZE;
    }
    InProgressFacts(m.frames, pagetable, srcva, dst);
    r := 0;
  }

  /** copyinstr(pagetable, dst, srcva, max): the user string at srcva with
      its NUL, reading at most max bytes. Returns 0 when a NUL was found;
      -1 when max bytes held none or a page walkaddr refuses came first. */
  method CopyInStr(m: Machine, pagetable: nat, srcva: nat, max: nat) returns (r: int, dst: seq<bv8>)
    requires m.Valid() && IsRoot(m.owner, pagetable)
    ensures r == 0 || r == -1
    ensures |dst| <= max
    ensures forall a :: srcva <= a < srcva + |dst| ==> Reachable(m.frames, pagetable, a)
    ensures dst == ReadUser(m.frames, pagetable, srcva, |dst|)
    ensures forall k :: 0 <= k < |dst| - 1 ==> dst[k] != 0
    ensures r == 0 <==> |dst| > 0 && dst[|dst| - 1] == 0
    ensures r == -1 ==> |dst| == max || !Reachable(m.frames, pagetable, srcva + |dst|)
  {
    hide *;
    Unfold(m);
    InStart(m.frames, pagetable, srcva);
    var got := false;
    var va := srcva;
    var left: nat := max;
    dst := [];
    while !got && left > 0
      invariant |dst| <= max && (!got ==> |dst| + left == max)
      invariant !got && left > 0 ==> va == srcva + |dst|
      invariant InProgress(m.frames, pagetable, srcva, dst)
      invariant forall k :: 0 <= k < |dst| - 1 ==> dst[k] != 0
      invariant got <==> |dst| > 0 && dst[|dst| - 1] == 0
      decreases left, if got then 0 else 1
    {
      var va0 := PgRoundDown(va);
      var pa0 := WalkAddr(m.frames, pagetable, va0);
      UserFrameIs(m.frames, pagetable, va);
      if pa0 == 0 {
        CopyInStop(m.frames, pagetable, va);
        InProgressFacts(m.frames, pagetable, srcva, dst);
        return -1, dst;
      }
      var n: nat := ChunkLen(va, left);
      InPage(va0, va);
      var p := va - va0;
      ghost var k0 := |dst|;
      ghost var n0 := n;
      while n > 0
        invariant !got && n <= n0 && p == va % PGSIZE + (n0 - n) && va % PGSIZE + n0 <= PGSIZE
        invariant |dst| == k0 + (n0 - n) && srcva + k0 == va && |dst| + left == max && n <= left
        invariant InProgress(m.frames, pagetable, srcva, dst)
        invariant forall k :: 0 <= k < |dst| ==> dst[k] != 0
      {
        n := n - 1;
        CopyInStrByte(m.frames, m.freeList, m.owner, pagetable, srcva, dst, va, pa0, p);
        var c := m.frames[pa0].bytes[p];
        if c == 0 {
          dst := dst + [0];
          got := true;
          break;
        }
        dst := dst + [c];
        p := p + 1;
        left := left - 1;
      }
      va := va0 + PGSIZE;
    }
    InProgressFacts(m.frames, pagetable, srcva, dst);
    r := if got then 0 else -1;
  }
}
