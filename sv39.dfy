/** Page geometry and page-table-entry bit fields of the Sv39 scheme
    (section 4.4 of the RISC-V Privileged Architecture): a three-level radix
    tree of 512-entry tables, one 4096-byte page per table.
    These are the helpers xv6 keeps in riscv.h; riscv.h is not part of this
    model, so their standard xv6 meanings are written out here. */
module Sv39 {

  const PGSIZE: nat := 4096
  /** One bit less than Sv39 allows, as xv6 does: MAXVA = 1 << 38. */
  const MAXVA: nat := 0x40_0000_0000
  const ENTRIES: nat := 512

  /** A page-table entry or an address. C's uint64 is modelled unbounded. */
  type Word = nat
  /** The ten low bits of an entry: V R W X U G A D and the two RSW bits. */
  type Flags = bv10

  const PTE_V: Flags := 1
  const PTE_R: Flags := 2
  const PTE_W: Flags := 4
  const PTE_X: Flags := 8
  const PTE_U: Flags := 16
  /** Shared-not-owned: the frame belongs to another address space.
      Assumed to be the first RSW bit. */
  const PTE_S: Flags := 0x100
  const PTE_RWX: Flags := 14
  const PTE_RWXU: Flags := 30

  /** The root slots below MAXVA: MAXVA / 2^30. */
  const ROOTSLOTS: nat := 256

  function PgRoundUp(a: nat): (r: nat)
    ensures r % PGSIZE == 0 && a <= r < a + PGSIZE
  {
    (a + PGSIZE - 1) / PGSIZE * PGSIZE
  }

  function PgRoundDown(a: nat): (r: nat)
    ensures r % PGSIZE == 0 && r <= a < r + PGSIZE
  {
    a / PGSIZE * PGSIZE
  }

  /** The address of page k of a run that starts at base. */
  function PageAt(base: nat, k: nat): nat
  {
    base + k * PGSIZE
  }

  lemma PageAtAligned(base: nat, k: nat)
    requires base % PGSIZE == 0
    ensures PageAt(base, k) % PGSIZE == 0 && PageAt(base, k) / PGSIZE == base / PGSIZE + k
    ensures PgRoundDown(PageAt(base, k)) == PageAt(base, k)
  {
    var q := base / PGSIZE;
    assert base == q * PGSIZE;
    assert PageAt(base, k) == (q + k) * PGSIZE;
  }

  /** Address va lies below page n exactly when its page number is below n. */
  lemma PageBelow(va: nat, n: nat)
    ensures va / PGSIZE < n <==> va < n * PGSIZE
  {
    var q := va / PGSIZE;
    assert q * PGSIZE <= va < (q + 1) * PGSIZE;
    if q < n {
      assert (q + 1) * PGSIZE <= n * PGSIZE;
    } else {
      assert n * PGSIZE <= q * PGSIZE;
    }
  }

  /** A loop stepping a page at a time from base stays below base + n pages
      exactly for its first n steps. */
  lemma PageAtBelow(base: nat, k: nat, n: nat)
    ensures PageAt(base, k) < base + n * PGSIZE <==> k < n
  {
    if k < n {
      assert n * PGSIZE == k * PGSIZE + (n - k) * PGSIZE;
    } else {
      assert k * PGSIZE == n * PGSIZE + (k - n) * PGSIZE;
    }
  }

  /** 2 to the power 12 + 9 * level. */
  function Shift(level: nat): nat
    requires level <= 2
  {
    if level == 0 then 0x1000 else if level == 1 then 0x20_0000 else 0x4000_0000
  }

  /** PX(level, va) = (va >> (12 + 9 * level)) & 0x1FF: the index into the
      table of that level. */
  function PX(level: nat, va: nat): (r: nat)
    requires level <= 2
    ensures r < ENTRIES
  {
    va / Shift(level) % ENTRIES
  }

  /** Below MAXVA the root index is below ROOTSLOTS. */
  lemma RootIndexBelow(va: nat)
    requires va < MAXVA
    ensures PX(2, va) == va / Shift(2) && PX(2, va) < ROOTSLOTS
  {
  }

  /** PTE_FLAGS(pte) = pte & 0x3FF. */
  function PteFlags(w: Word): Flags
  {
    (w % 1024) as Flags
  }

  /** PTE2PA(pte) = (pte >> 10) << 12. */
  function Pte2Pa(w: Word): nat
  {
    w / 1024 * PGSIZE
  }

  /** PA2PTE(pa) | flags = ((pa >> 12) << 10) | flags. */
  function MakePte(pa: nat, flags: Flags): Word
  {
    pa / PGSIZE * 1024 + flags as int
  }

  /** pte & f != 0. */
  predicate Has(w: Word, f: Flags)
  {
    PteFlags(w) & f != 0
  }

  predicate IsValid(w: Word)
  {
    Has(w, PTE_V)
  }

  /** pte & ~f, for f among the flag bits. */
  function ClearBits(w: Word, f: Flags): Word
  {
    w / 1024 * 1024 + (PteFlags(w) & !f) as int
  }

  /** The two fields of k * 1024 + flags. */
  lemma Fields(k: nat, flags: Flags)
    ensures (k * 1024 + flags as int) % 1024 == flags as int
    ensures (k * 1024 + flags as int) / 1024 == k
  {
    assert flags as int < 1024;
  }

  lemma MakePteFields(pa: nat, flags: Flags)
    ensures PteFlags(MakePte(pa, flags)) == flags
    ensures Pte2Pa(MakePte(pa, flags)) == PgRoundDown(pa)
  {
    Fields(pa / PGSIZE, flags);
  }

  lemma ClearBitsFields(w: Word, f: Flags)
    ensures PteFlags(ClearBits(w, f)) == PteFlags(w) & !f
    ensures Pte2Pa(ClearBits(w, f)) == Pte2Pa(w)
  {
    var k, x := w / 1024, PteFlags(w) & !f;
    var c := ClearBits(w, f);
    assert c == k * 1024 + x as int;
    Fields(k, x);
    assert c % 1024 == x as int;
    assert PteFlags(c) == x;
    assert c / 1024 == k;
  }

  /** a / (m * 512) == a / m / 512, for the constant divisors used here. */
  lemma DivBy512(a: nat, m: nat)
    requires m == 0x1000 || m == 0x20_0000 || m == 0x1 || m == 0x200
    ensures a / (m * 512) == a / m / 512
  {
    if m == 1 {
    } else if m == 0x200 {
      DivTwice(a, 0x200);
    } else if m == 0x1000 {
      DivTwice(a, 0x1000);
    } else {
      DivTwice(a, 0x20_0000);
    }
  }

  /** DivBy512 for one constant divisor m. */
  lemma DivTwice(a: nat, m: nat)
    requires m == 0x200 || m == 0x1000 || m == 0x20_0000
    ensures a / (m * 512) == a / m / 512
  {
    var q, r := a / m, a % m;
    var q2, r2 := q / 512, q % 512;
    assert a == m * q + r;
    assert q == 512 * q2 + r2;
    assert a == (m * 512) * q2 + (m * r2 + r);
    assert 0 <= m * r2 + r < m * 512;
  }

  /** The table indices of a virtual address depend only on its page number. */
  lemma PXOfPage(level: nat, va: nat)
    requires level <= 2
    ensures PX(level, va) == va / PGSIZE / (Shift(level) / PGSIZE) % ENTRIES
  {
    if level == 1 {
      DivBy512(va, 0x1000);
    } else if level == 2 {
      DivBy512(va, 0x20_0000);
      DivBy512(va, 0x1000);
      DivBy512(va / 0x1000, 0x1);
      DivBy512(va / 0x1000, 0x200);
    }
  }

  /** A page number below 2^26 is its three base-512 digits. */
  lemma PageDigits(p: nat)
    requires p < 0x400_0000
    ensures p == p / 512 / 512 % 512 * 262144 + p / 512 % 512 * 512 + p % 512
  {
    var d0, q := p % 512, p / 512;
    var d1, d2 := q % 512, q / 512;
    assert p == 512 * q + d0;
    assert q == 512 * d2 + d1;
    assert d2 < 512;
    assert d2 % 512 == d2;
    assert p == 262144 * d2 + 512 * d1 + d0;
  }

  /** Below MAXVA the three table indices determine the page: page numbers
      are 26 bits wide, split into base-512 digits. */
  lemma PathDeterminesPage(va: nat, vb: nat)
    requires va < MAXVA && vb < MAXVA
    requires PX(2, va) == PX(2, vb) && PX(1, va) == PX(1, vb) && PX(0, va) == PX(0, vb)
    ensures va / PGSIZE == vb / PGSIZE
  {
    PXOfPage(0, va); PXOfPage(1, va); PXOfPage(2, va);
    PXOfPage(0, vb); PXOfPage(1, vb); PXOfPage(2, vb);
    var p, q := va / PGSIZE, vb / PGSIZE;
    DivBy512(p, 0x200);
    DivBy512(q, 0x200);
    PageDigits(p);
    PageDigits(q);
  }

  /** The address of the page reached through root slot a, middle slot b
      and leaf slot j. */
  function PageVa(a: nat, b: nat, j: nat): nat
  {
    ((a * ENTRIES + b) * ENTRIES + j) * PGSIZE
  }

  /** The table indices of PageVa(a, b, j) are a, b and j, and the page is
      below MAXVA when a is a root slot below MAXVA. */
  lemma PageVaIndices(a: nat, b: nat, j: nat)
    requires a < ROOTSLOTS && b < ENTRIES && j < ENTRIES
    ensures PageVa(a, b, j) < MAXVA && PageVa(a, b, j) % PGSIZE == 0
    ensures PX(2, PageVa(a, b, j)) == a && PX(1, PageVa(a, b, j)) == b && PX(0, PageVa(a, b, j)) == j
  {
    var v := PageVa(a, b, j);
    var q := a * ENTRIES + b;
    var p := q * ENTRIES + j;
    assert q < ROOTSLOTS * ENTRIES;
    assert p < ROOTSLOTS * ENTRIES * ENTRIES;
    assert v / PGSIZE == p;
    PXOfPage(0, v); PXOfPage(1, v); PXOfPage(2, v);
    assert p / 512 == q;
    assert q / 512 == a;
    DivBy512(p, 0x200);
    DivBy512(p, 0x1);
  }

  /** Addresses on the same page share their table indices. */
  lemma SamePageSamePath(va: nat, vb: nat)
    requires va / PGSIZE == vb / PGSIZE
    ensures PX(2, va) == PX(2, vb) && PX(1, va) == PX(1, vb) && PX(0, va) == PX(0, vb)
  {
    PXOfPage(0, va); PXOfPage(1, va); PXOfPage(2, va);
    PXOfPage(0, vb); PXOfPage(1, vb); PXOfPage(2, vb);
  }
}
