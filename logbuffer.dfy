/** The one-page log of user/log_test.c. Writers append records, each a
    4-byte header (pid << 16) | len at a 4-aligned offset followed by len
    payload bytes; the reader walks the records back in buffer order.

    The buffer is modelled as the log page followed by the three bytes that
    lie after it in memory: write_log tests its bound before it aligns the
    offset, so a payload can end up to three bytes past the page (Slot's
    contract, OverrunExample). The compare-and-swap on a header is modelled
    by its sequential effect: store when the header reads 0. */
module LogBuffer {
  import opened Sv39
  import opened Outcomes

  /** The log page and the three bytes after it. */
  const SPAN: nat := PGSIZE + 3

  /** A byte of the buffer. */
  newtype Byte = x: int | 0 <= x < 0x100

  /** A record as the reader reports it. */
  datatype Rec = Rec(pid: nat, payload: seq<Byte>)

  /** A call write_log(pid, msg, |msg|). */
  datatype Write = Write(pid: nat, msg: seq<Byte>)

  /** offset = (offset + 3) & ~3: x rounded up to a multiple of 4. */
  function Align4(x: nat): (r: nat)
    ensures x <= r <= x + 3
  {
    (x + 3) / 4 * 4
  }

  /** Offset 0 is already aligned. */
  lemma Align4Zero()
    ensures Align4(0) == 0
  {
  }

  /** The rounded offset is a multiple of 4. */
  lemma Align4Mask(x: nat)
    ensures Align4(x) % 4 == 0
  {
  }

  /** An unaligned offset that leaves room for a header before the end of
      the page still does once aligned. */
  lemma AlignInPage(x: nat)
    requires x + 4 <= PGSIZE
    ensures Align4(x) + 4 <= PGSIZE
  {
    Align4Mask(x);
    assert (x + 3) / 4 <= 1023;
  }

  // ---------------------------------------------------------------------
  // Header words.

  /** The little-endian uint32 at b[a .. a + 4]. */
  function LoadWord(b: seq<Byte>, a: nat): (w: nat)
    requires a + 4 <= |b|
  {
    b[a] as nat + 0x100 * b[a + 1] as nat + 0x1_0000 * b[a + 2] as nat + 0x100_0000 * b[a + 3] as nat
  }

  /** The low n bytes of w, least significant first. */
  function StoreLE(w: nat, n: nat): (r: seq<Byte>)
    ensures |r| == n
  {
    if n == 0 then [] else [(w % 0x100) as Byte] + StoreLE(w / 0x100, n - 1)
  }

  /** The four bytes a uint32 is stored as. */
  function WordBytes(w: nat): (r: seq<Byte>)
    ensures |r| == 4
  {
    StoreLE(w, 4)
  }

  /** The little-endian 16-bit half at b[a .. a + 2]. */
  function Half(b: seq<Byte>, a: nat): (h: nat)
    requires a + 2 <= |b|
    ensures h < 0x1_0000
  {
    b[a] as nat + 0x100 * b[a + 1] as nat
  }

  /** The header at a is 0: all four of its bytes are. */
  predicate FreeAt(b: seq<Byte>, a: nat)
    requires a + 4 <= |b|
  {
    b[a] == 0 && b[a + 1] == 0 && b[a + 2] == 0 && b[a + 3] == 0
  }

  /** hdr >> 16 of a uint32. */
  function HdrPid(h: nat): nat
  {
    h / 0x1_0000
  }

  /** hdr & 0xFFFF. */
  function HdrLen(h: nat): (n: nat)
    ensures n < 0x1_0000
  {
    h % 0x1_0000
  }

  /** On a little-endian machine hdr & 0xFFFF is the lower 16-bit half of
      the header's bytes, hdr >> 16 the upper one, and hdr is 0 exactly when
      its bytes are. */
  lemma HeaderFields(b: seq<Byte>, a: nat)
    requires a + 4 <= |b|
    ensures HdrLen(LoadWord(b, a)) == Half(b, a) && HdrPid(LoadWord(b, a)) == Half(b, a + 2)
    ensures LoadWord(b, a) == 0 <==> FreeAt(b, a)
  {
    var w := LoadWord(b, a);
    assert w == Half(b, a) + 0x1_0000 * Half(b, a + 2);
  }

  /** Loads the header word at a and splits it as both loops do: hdr is
      compared with 0, hdr >> 16 is the pid and hdr & 0xFFFF the length. */
  method ReadHeader(b: seq<Byte>, a: nat) returns (hdr: nat, pid: nat, len: nat)
    requires a + 4 <= |b|
    ensures (hdr == 0) == FreeAt(b, a)
    ensures pid == Half(b, a + 2) && len == Half(b, a)
  {
    hdr := LoadWord(b, a);
    HeaderFields(b, a);
    pid := HdrPid(hdr);
    len := HdrLen(hdr);
  }

  /** The bitwise OR of two naturals. */
  function BitOr(x: nat, y: nat): nat
    decreases x + y
  {
    if x == 0 && y == 0 then 0
    else 2 * BitOr(x / 2, y / 2) + (if x % 2 == 1 || y % 2 == 1 then 1 else 0)
  }

  lemma {:induction false} BitOrZero(x: nat)
    ensures BitOr(x, 0) == x
    decreases x
  {
    if x != 0 {
      BitOrZero(x / 2);
    }
  }

  /** (child_pid << 16) | len as the uint32 the compare-and-swap stores. The
      shifted pid has a zero low half, so the low half of the OR is the low
      half of len, and the high half is the pid's low 16 bits ORed with bits
      16 .. 31 of len. */
  function Header(pid: nat, len: nat): (h: nat)
    ensures h < 0x1_0000_0000 && HdrLen(h) == len % 0x1_0000
    ensures len < 0x1_0000 ==> HdrPid(h) == pid % 0x1_0000
  {
    var lo, hi := pid % 0x1_0000, len % 0x1_0000_0000 / 0x1_0000;
    HighHalf(len);
    Pow2Sixteen();
    BitOrBelow(lo, hi, 16);
    BitOrZero(lo);
    Split16(BitOr(lo, hi), len % 0x1_0000);
    BitOr(lo, hi) * 0x1_0000 + len % 0x1_0000
  }

  /** Bits 16 .. 31 of len form a 16-bit number, zero when len fits in 16
      bits. */
  lemma HighHalf(len: nat)
    ensures len % 0x1_0000_0000 / 0x1_0000 < 0x1_0000
    ensures len < 0x1_0000 ==> len % 0x1_0000_0000 / 0x1_0000 == 0
  {
  }

  lemma Split16(q: nat, r: nat)
    requires r < 0x1_0000
    ensures (q * 0x1_0000 + r) / 0x1_0000 == q && (q * 0x1_0000 + r) % 0x1_0000 == r
    ensures q < 0x1_0000 ==> q * 0x1_0000 + r < 0x1_0000_0000
  {
  }

  function Pow2(k: nat): (p: nat)
    ensures p > 0
  {
    if k == 0 then 1 else 2 * Pow2(k - 1)
  }

  lemma Pow2Sixteen()
    ensures Pow2(16) == 0x1_0000
  {
    assert Pow2(4) == 16;
    assert Pow2(8) == 256;
    assert Pow2(12) == 4096;
  }

  /** The OR of two k-bit numbers has k bits. */
  lemma {:induction false} BitOrBelow(x: nat, y: nat, k: nat)
    requires x < Pow2(k) && y < Pow2(k)
    ensures BitOr(x, y) < Pow2(k)
    decreases k
  {
    if k > 0 && !(x == 0 && y == 0) {
      BitOrBelow(x / 2, y / 2, k - 1);
    }
  }

  /** With pid and length inside 16 bits the OR is a plain sum. */
  lemma HeaderValue(pid: nat, len: nat)
    requires pid < 0x1_0000 && len < 0x1_0000
    ensures Header(pid, len) == pid * 0x1_0000 + len
  {
    var lo := pid % 0x1_0000;
    var hi := len % 0x1_0000_0000 / 0x1_0000;
    assert lo == pid;
    assert hi == 0 by {
      assert len % 0x1_0000_0000 == len;
    }
    BitOrZero(pid);
    assert BitOr(lo, hi) == pid;
    assert len % 0x1_0000 == len;
  }

  /** The bytes of a word made of two 16-bit halves. */
  lemma HalvesBytes(pid: nat, len: nat)
    requires pid < 0x1_0000 && len < 0x1_0000
    ensures WordBytes(pid * 0x1_0000 + len) ==
      [(len % 0x100) as Byte, (len / 0x100) as Byte, (pid % 0x100) as Byte, (pid / 0x100) as Byte]
  {
    var ll, lh := len % 0x100, len / 0x100;
    var pl, ph := pid % 0x100, pid / 0x100;
    var w := pid * 0x1_0000 + len;
    assert w == ((ph * 0x100 + pl) * 0x100 + lh) * 0x100 + ll;
    Split256((ph * 0x100 + pl) * 0x100 + lh, ll);
    Split256(ph * 0x100 + pl, lh);
    Split256(ph, pl);
    Split256(0, ph);
    assert StoreLE(w, 4) == [ll as Byte] + StoreLE((ph * 0x100 + pl) * 0x100 + lh, 3);
    assert StoreLE((ph * 0x100 + pl) * 0x100 + lh, 3) == [lh as Byte] + StoreLE(ph * 0x100 + pl, 2);
    assert StoreLE(ph * 0x100 + pl, 2) == [pl as Byte] + StoreLE(ph, 1);
    assert StoreLE(ph, 1) == [ph as Byte] + StoreLE(0, 0);
  }

  /** When pid and length fit in 16 bits the stored header's lower half is
      the length and its upper half the pid: the reader gets back what the
      writer put, and the header is nonzero unless both are 0. */
  lemma HeaderRoundTrip(pid: nat, len: nat, b: seq<Byte>, a: nat)
    requires pid < 0x1_0000 && len < 0x1_0000
    requires a + 4 <= |b| && b[a..a + 4] == WordBytes(Header(pid, len))
    ensures Half(b, a) == len && Half(b, a + 2) == pid
    ensures FreeAt(b, a) <==> pid == 0 && len == 0
  {
    HeaderBytes(pid, len);
    var s := b[a..a + 4];
    assert b[a] as nat == len % 0x100 && b[a + 1] as nat == len / 0x100 by {
      assert b[a] == s[0] && b[a + 1] == s[1];
    }
    assert b[a + 2] as nat == pid % 0x100 && b[a + 3] as nat == pid / 0x100 by {
      assert b[a + 2] == s[2] && b[a + 3] == s[3];
    }
  }

  lemma HeaderBytes(pid: nat, len: nat)
    requires pid < 0x1_0000 && len < 0x1_0000
    ensures WordBytes(Header(pid, len)) ==
      [(len % 0x100) as Byte, (len / 0x100) as Byte, (pid % 0x100) as Byte, (pid / 0x100) as Byte]
  {
    HeaderValue(pid, len);
    HalvesBytes(pid, len);
  }

  lemma Split256(q: nat, r: nat)
    requires r < 0x100
    ensures (q * 0x100 + r) / 0x100 == q && (q * 0x100 + r) % 0x100 == r
  {
  }

  /** The buffer once the header for (pid, msg) is stored at a and msg is
      copied right after it. Nothing outside those 4 + |msg| bytes changes. */
  function Stored(b: seq<Byte>, a: nat, pid: nat, msg: seq<Byte>): (r: seq<Byte>)
    requires a + 4 + |msg| <= |b|
    ensures |r| == |b|
    ensures r[..a] == b[..a] && r[a + 4 + |msg|..] == b[a + 4 + |msg|..]
    ensures r[a..a + 4] == WordBytes(Header(pid, |msg|)) && r[a + 4..a + 4 + |msg|] == msg
  {
    var r := b[..a] + WordBytes(Header(pid, |msg|)) + msg + b[a + 4 + |msg|..];
    assert r[..a] == b[..a];
    assert r[a..a + 4] == WordBytes(Header(pid, |msg|));
    assert r[a + 4..a + 4 + |msg|] == msg;
    assert r[a + 4 + |msg|..] == b[a + 4 + |msg|..];
    r
  }

  // ---------------------------------------------------------------------
  // The writer, as written: the bound test precedes the alignment.

  /** Where write_log's scan from the unaligned offset off stores a record
      of len bytes: the first aligned slot whose header is 0, hopping over
      4 + entry_len past each nonzero header; None once the loop guard
      offset + 4 + len <= PGSIZE fails (the writer exits). The record then
      ends at most 3 bytes past the page. */
  function Slot(b: seq<Byte>, off: nat, len: nat): (r: Option<nat>)
    requires |b| == SPAN
    ensures r.Some? ==> off <= r.value && r.value + 4 <= PGSIZE
    ensures r.Some? ==> r.value + 4 + len <= PGSIZE + 3
    decreases PGSIZE - off
  {
    if off + 4 + len > PGSIZE then None
    else
      var a := Align4(off);
      AlignInPage(off);
      if FreeAt(b, a) then Some(a) else Slot(b, a + 4 + Half(b, a), len)
  }

  /** Every slot write_log picks is 4-aligned. */
  lemma {:induction false} SlotAligned(b: seq<Byte>, off: nat, len: nat)
    requires |b| == SPAN
    ensures Slot(b, off, len).Some? ==> Slot(b, off, len).value % 4 == 0
    decreases PGSIZE - off
  {
    hide Align4, Half, FreeAt;
    if off + 4 + len <= PGSIZE {
      var a := Align4(off);
      AlignInPage(off);
      SlotPass(b, off, len);
      if FreeAt(b, a) {
        Align4Mask(off);
      } else {
        SlotAligned(b, a + 4 + Half(b, a), len);
      }
    }
  }

  /** write_log(child_pid, msg, |msg|): false is the exit(0) taken when no
      slot is left. */
  method WriteLog(buffer: array<Byte>, childPid: nat, msg: seq<Byte>) returns (stored: bool)
    requires buffer.Length == SPAN
    modifies buffer
    ensures var s := Slot(old(buffer[..]), 0, |msg|);
      && stored == s.Some?
      && buffer[..] == if s.Some? then Stored(old(buffer[..]), s.value, childPid, msg) else old(buffer[..])
  {
    ghost var b := buffer[..];
    ghost var slot := Slot(b, 0, |msg|);
    var offset := 0;
    while offset + 4 + |msg| <= PGSIZE
      invariant buffer[..] == b
      invariant Slot(b, offset, |msg|) == slot
      decreases PGSIZE - offset
    {
      ghost var start := offset;
      AlignInPage(offset);
      offset := Align4(offset);
      var hdr, _, entryLen := ReadHeader(buffer[..], offset);
      SlotPass(b, start, |msg|);
      if hdr == 0 {
        StoreRecord(buffer, offset, childPid, msg);
        return true;
      }
      offset := offset + 4 + entryLen;
    }
    return false;
  }

  /** One pass of write_log's loop in terms of the header word it loads at
      the aligned offset. */
  lemma SlotPass(b: seq<Byte>, off: nat, len: nat)
    requires |b| == SPAN && off + 4 + len <= PGSIZE && Align4(off) + 4 <= PGSIZE
    ensures FreeAt(b, Align4(off)) ==> Slot(b, off, len) == Some(Align4(off))
    ensures !FreeAt(b, Align4(off)) ==> Slot(b, off, len) == Slot(b, Align4(off) + 4 + Half(b, Align4(off)), len)
  {
  }

  /** The successful compare-and-swap of the header, then memmove of the
      payload right after it. */
  method StoreRecord(buffer: array<Byte>, a: nat, pid: nat, msg: seq<Byte>)
    requires a + 4 + |msg| <= buffer.Length
    modifies buffer
    ensures buffer[..] == Stored(old(buffer[..]), a, pid, msg)
  {
    var w := WordBytes(Header(pid, |msg|));
    buffer[a] := w[0];
    buffer[a + 1] := w[1];
    buffer[a + 2] := w[2];
    buffer[a + 3] := w[3];
    forall i | 0 <= i < |msg| {
      buffer[a + 4 + i] := msg[i];
    }
    ghost var s := Stored(old(buffer[..]), a, pid, msg);
    forall i | 0 <= i < buffer.Length ensures buffer[i] == s[i] {
      if i < a {
        assert s[i] == s[..a][i];
      } else if i < a + 4 {
        assert s[i] == s[a..a + 4][i - a];
      } else if i < a + 4 + |msg| {
        assert s[i] == s[a + 4..a + 4 + |msg|][i - a - 4];
      } else {
        assert s[i] == s[a + 4 + |msg|..][i - a - 4 - |msg|];
      }
    }
  }

  // ---------------------------------------------------------------------
  // The reader.

  /** The records parent_read_logs reports from the unaligned offset off:
      it stops when offset + 4 >= PGSIZE, at a zero header, and at a header
      whose payload would pass the page. */
  function DecodeFrom(b: seq<Byte>, off: nat): (r: seq<Rec>)
    requires |b| >= PGSIZE
    ensures forall k :: 0 <= k < |r| ==> off + 4 + |r[k].payload| <= PGSIZE
    ensures forall k :: 0 <= k < |r| ==> r[k].pid < 0x1_0000 && (r[k].pid != 0 || r[k].payload != [])
    decreases PGSIZE - off
  {
    if off + 4 >= PGSIZE then []
    else
      var a := Align4(off);
      AlignInPage(off);
      HeaderFields(b, a);
      var len := Half(b, a);
      if FreeAt(b, a) || a + 4 + len > PGSIZE then []
      else [Rec(Half(b, a + 2), b[a + 4..a + 4 + len])] + DecodeFrom(b, a + 4 + len)
  }

  /** One pass of the reader's loop from the unaligned offset off: align,
      load the header, and read the record after it unless the header is 0
      or the payload would pass the page. The record read is the first one
      DecodeFrom reports, and next is where the following pass starts. */
  method ReadRecord(page: seq<Byte>, off: nat) returns (rec: Option<Rec>, next: nat)
    requires |page| >= PGSIZE && off + 4 < PGSIZE
    ensures rec.None? ==> DecodeFrom(page, off) == []
    ensures rec.Some? ==> off < next && DecodeFrom(page, off) == [rec.value] + DecodeFrom(page, next)
  {
    hide Align4, Half, FreeAt;
    AlignInPage(off);
    var offset := Align4(off);
    var hdr, pid, len := ReadHeader(page, offset);
    if hdr == 0 {
      DecodeStop(page, off, offset);
      return None, offset;
    }
    ghost var a := offset;
    offset := offset + 4;
    if offset + len > PGSIZE {
      DecodeStop(page, off, a);
      return None, offset;
    }
    DecodeAt(page, off, a, pid, len);
    return Some(Rec(pid, page[offset..offset + len])), offset + len;
  }

  /** The reader stops at the aligned offset a when its header is 0 or the
      payload it announces would pass the page. */
  lemma DecodeStop(b: seq<Byte>, off: nat, a: nat)
    requires |b| >= PGSIZE && off + 4 < PGSIZE && a == Align4(off) && a + 4 <= PGSIZE
    requires FreeAt(b, a) || a + 4 + Half(b, a) > PGSIZE
    ensures DecodeFrom(b, off) == []
  {
    hide Align4, Half, FreeAt;
  }

  /** Otherwise it reports the record at a and goes on after its payload. */
  lemma DecodeAt(b: seq<Byte>, off: nat, a: nat, pid: nat, len: nat)
    requires |b| >= PGSIZE && off + 4 < PGSIZE && a == Align4(off)
    requires a + 4 + len <= PGSIZE && !FreeAt(b, a) && len == Half(b, a) && pid == Half(b, a + 2)
    ensures DecodeFrom(b, off) == [Rec(pid, b[a + 4..a + 4 + len])] + DecodeFrom(b, a + 4 + len)
  {
    hide Align4, Half, FreeAt;
  }

  /** parent_read_logs(): the records it prints, in order, and their count.
      The children have exited by then, so the page is read as it stands. */
  method ParentReadLogs(buffer: array<Byte>) returns (records: seq<Rec>, total: nat)
    requires buffer.Length >= PGSIZE
    ensures records == DecodeFrom(buffer[..], 0) && total == |records|
  {
    hide Align4, Half, FreeAt, DecodeFrom;
    var page := buffer[..];
    var offset := 0;
    total := 0;
    records := [];
    ghost var rest := DecodeFrom(page, 0);
    while offset + 4 < PGSIZE
      invariant rest == DecodeFrom(page, offset)
      invariant DecodeFrom(page, 0) == records + rest
      invariant total == |records|
      decreases PGSIZE - offset
    {
      var rec, next := ReadRecord(page, offset);
      if rec.None? {
        break;
      }
      records := records + [rec.value];
      offset := next;
      rest := DecodeFrom(page, offset);
      total := total + 1;
    }
    DecodePast(page, offset);
  }

  /** The reader's loop ends once offset + 4 reaches the page end. */
  lemma DecodePast(b: seq<Byte>, off: nat)
    requires |b| >= PGSIZE
    ensures off + 4 >= PGSIZE ==> DecodeFrom(b, off) == []
  {
  }

  // ---------------------------------------------------------------------
  // Layout: a buffer holding records R from offset off, zero after them.

  /** The offset just past the record r placed from the unaligned offset
      off: its header sits at the aligned offset, its payload right after. */
  function Next(off: nat, r: Rec): (n: nat)
    ensures off + 4 + |r.payload| <= n <= off + 7 + |r.payload|
  {
    Align4(off) + 4 + |r.payload|
  }

  /** The unaligned offset just past the records R laid out from off. */
  function End(off: nat, R: seq<Rec>): (e: nat)
    ensures off <= e
    decreases |R|
  {
    if R == [] then off else End(Next(off, R[0]), R[1..])
  }

  /** A record both writer and reader handle: pid and length fit their 16
      header bits and the payload is not empty. */
  predicate Decodable(pid: nat, len: nat)
  {
    pid < 0x1_0000 && 1 <= len < 0x1_0000
  }

  /** Every byte of b from i on is 0. */
  ghost predicate ZeroFrom(b: seq<Byte>, i: nat)
    decreases |b| - i
  {
    i >= |b| || (b[i] == 0 && ZeroFrom(b, i + 1))
  }

  /** A header inside an all-zero tail is free. */
  lemma ZeroFree(b: seq<Byte>, a: nat)
    requires a + 4 <= |b| && ZeroFrom(b, a)
    ensures FreeAt(b, a)
  {
    assert ZeroFrom(b, a + 1) && ZeroFrom(b, a + 2) && ZeroFrom(b, a + 3);
  }

  /** An all-zero tail from i is one from every later offset. */
  lemma {:induction false} ZeroLater(b: seq<Byte>, i: nat, j: nat)
    requires ZeroFrom(b, i) && i <= j
    ensures ZeroFrom(b, j)
    decreases j - i
  {
    if i < j && i < |b| {
      ZeroLater(b, i + 1, j);
    }
  }

  /** Bytes from i on that equal an all-zero tail are an all-zero tail. */
  lemma {:induction false} ZeroSame(b: seq<Byte>, c: seq<Byte>, i: nat)
    requires |b| == |c| && i <= |b| && b[i..] == c[i..] && ZeroFrom(b, i)
    ensures ZeroFrom(c, i)
    decreases |b| - i
  {
    if i < |b| {
      assert b[i] == b[i..][0] && c[i] == c[i..][0];
      assert b[i + 1..] == b[i..][1..] && c[i + 1..] == c[i..][1..];
      ZeroSame(b, c, i + 1);
    }
  }

  /** A zeroed buffer is all zero from every offset. */
  lemma {:induction false} ZeroedFrom(n: nat, i: nat)
    ensures ZeroFrom(seq(n, _ => 0), i)
    decreases n - i
  {
    if i < n {
      ZeroedFrom(n, i + 1);
    }
  }

  /** The header at the aligned offset a holds the pid and length of r, and
      r's payload follows it inside the page. */
  predicate HeadAt(b: seq<Byte>, a: nat, r: Rec)
    requires |b| == SPAN
  {
    var n := a + 4 + |r.payload|;
    && Decodable(r.pid, |r.payload|) && n <= PGSIZE
    && Half(b, a) == |r.payload| && Half(b, a + 2) == r.pid && b[a + 4..n] == r.payload
  }

  /** b holds the records R from unaligned offset off, each inside the page,
      and only zero bytes from the aligned offset after them. */
  ghost predicate Laid(b: seq<Byte>, off: nat, R: seq<Rec>)
    requires |b| == SPAN
    decreases |R|
  {
    if R == [] then ZeroFrom(b, Align4(off))
    else HeadAt(b, Align4(off), R[0]) && Laid(b, Next(off, R[0]), R[1..])
  }

  /** The first of the laid-out records: its header is not 0, and the rest
      are laid out after it. */
  lemma LaidHead(b: seq<Byte>, off: nat, R: seq<Rec>)
    requires |b| == SPAN && Laid(b, off, R) && R != []
    ensures off + 4 < PGSIZE && HeadAt(b, Align4(off), R[0]) && !FreeAt(b, Align4(off))
    ensures Laid(b, Next(off, R[0]), R[1..]) && End(off, R) == End(Next(off, R[0]), R[1..])
  {
    hide Align4, Half, FreeAt;
    HeadNotFree(b, Align4(off), R[0]);
  }

  /** A header that announces a nonempty payload is not 0. */
  lemma HeadNotFree(b: seq<Byte>, a: nat, r: Rec)
    requires |b| == SPAN && HeadAt(b, a, r)
    ensures !FreeAt(b, a)
  {
  }

  /** A record laid out at the aligned offset before laid-out records. */
  lemma LaidCons(b: seq<Byte>, off: nat, R: seq<Rec>)
    requires |b| == SPAN && R != []
    requires HeadAt(b, Align4(off), R[0]) && Laid(b, Next(off, R[0]), R[1..])
    ensures Laid(b, off, R)
  {
  }

  /** DecodeFrom reads the record whose header is at the aligned offset. */
  lemma DecodeRecord(b: seq<Byte>, off: nat, r: Rec)
    requires |b| == SPAN && off + 4 < PGSIZE && HeadAt(b, Align4(off), r)
    ensures DecodeFrom(b, off) == [r] + DecodeFrom(b, Next(off, r))
  {
    hide Align4, Half, FreeAt;
    var a := Align4(off);
    HeadNotFree(b, a, r);
    DecodeAt(b, off, a, r.pid, |r.payload|);
    assert Rec(r.pid, r.payload) == r;
  }

  /** The reader recovers exactly the records laid out. */
  lemma {:induction false} DecodeLaid(b: seq<Byte>, off: nat, R: seq<Rec>)
    requires |b| == SPAN && Laid(b, off, R)
    ensures DecodeFrom(b, off) == R
    decreases |R|
  {
    if R == [] {
      if off + 4 < PGSIZE {
        AlignInPage(off);
        ZeroFree(b, Align4(off));
        DecodeStop(b, off, Align4(off));
      }
    } else {
      LaidHead(b, off, R);
      DecodeLaid(b, Next(off, R[0]), R[1..]);
      DecodeRecord(b, off, R[0]);
      assert R == [R[0]] + R[1..];
    }
  }

  /** Over laid-out records the writer hops record by record: it stores at
      the aligned end of the records exactly when the guard still holds at
      their unaligned end. */
  lemma {:induction false} SlotLaid(b: seq<Byte>, off: nat, R: seq<Rec>, len: nat)
    requires |b| == SPAN && Laid(b, off, R)
    ensures End(off, R) + 4 + len <= PGSIZE ==> Slot(b, off, len) == Some(Align4(End(off, R)))
    ensures End(off, R) + 4 + len > PGSIZE ==> Slot(b, off, len) == None
    decreases |R|
  {
    hide Align4, Half, FreeAt;
    if R == [] {
      if off + 4 + len <= PGSIZE {
        AlignInPage(off);
        ZeroFree(b, Align4(off));
      }
    } else {
      LaidHead(b, off, R);
      SlotLaid(b, Next(off, R[0]), R[1..], len);
      if off + 4 + len <= PGSIZE {
        AlignInPage(off);
        SlotPass(b, off, len);
      }
    }
  }

  /** Storing a record at the aligned end of laid-out records, inside the
      page, lays it out after them. */
  lemma {:induction false} LaidAppend(b: seq<Byte>, off: nat, R: seq<Rec>, r: Rec)
    requires |b| == SPAN && Laid(b, off, R) && Decodable(r.pid, |r.payload|)
    requires Align4(End(off, R)) + 4 + |r.payload| <= PGSIZE
    ensures Laid(Stored(b, Align4(End(off, R)), r.pid, r.payload), off, R + [r])
    decreases |R|
  {
    if R == [] {
      LaidFirst(b, off, r);
      assert R + [r] == [r];
    } else {
      LaidHead(b, off, R);
      LaidAppend(b, Next(off, R[0]), R[1..], r);
      ConsAppend(R, r);
      KeepHead(b, off, Align4(End(off, R)), r, R + [r]);
    }
  }

  /** A record laid out before e stays laid out, with the records after it,
      once another record is stored at e. */
  lemma KeepHead(b: seq<Byte>, off: nat, e: nat, r: Rec, R: seq<Rec>)
    requires |b| == SPAN && R != []
    requires HeadAt(b, Align4(off), R[0]) && Next(off, R[0]) <= e && e + 4 + |r.payload| <= SPAN
    requires Laid(Stored(b, e, r.pid, r.payload), Next(off, R[0]), R[1..])
    ensures Laid(Stored(b, e, r.pid, r.payload), off, R)
  {
    hide Align4, Half, FreeAt, Stored;
    var a, n := Align4(off), Next(off, R[0]);
    var b2 := Stored(b, e, r.pid, r.payload);
    StoredKeeps(b, e, r.pid, r.payload, a, n);
    HeadKept(b, b2, a, n);
    LaidCons(b2, off, R);
  }

  lemma ConsAppend<T>(R: seq<T>, r: T)
    requires R != []
    ensures (R + [r])[0] == R[0] && (R + [r])[1..] == R[1..] + [r]
  {
  }

  /** The first record stored into an all-zero tail is laid out there. */
  lemma LaidFirst(b: seq<Byte>, off: nat, r: Rec)
    requires |b| == SPAN && Laid(b, off, []) && Decodable(r.pid, |r.payload|)
    requires Align4(off) + 4 + |r.payload| <= PGSIZE
    ensures Laid(Stored(b, Align4(off), r.pid, r.payload), off, [r])
  {
    var a := Align4(off);
    var b2 := Stored(b, a, r.pid, r.payload);
    HeaderRoundTrip(r.pid, |r.payload|, b2, a);
    var n := Next(off, r);
    var z := Align4(n);
    ZeroLater(b, a, z);
    assert b2[z..] == b2[n..][z - n..] && b[z..] == b[n..][z - n..];
    ZeroSame(b, b2, z);
    LaidSingle(b2, off, r);
  }

  /** One record at the aligned offset followed by an all-zero tail. */
  lemma LaidSingle(c: seq<Byte>, off: nat, r: Rec)
    requires |c| == SPAN && HeadAt(c, Align4(off), r) && ZeroFrom(c, Align4(Next(off, r)))
    ensures Laid(c, off, [r])
  {
    assert Laid(c, Next(off, r), []);
    assert [r][0] == r && [r][1..] == [];
    LaidCons(c, off, [r]);
  }

  /** Two buffers that agree on a header and the bytes after it up to n
      hold the same header fields and payload bytes there. */
  lemma HeadKept(b: seq<Byte>, c: seq<Byte>, a: nat, n: nat)
    requires |b| == |c| && a + 4 <= n <= |b| && c[a..n] == b[a..n]
    ensures Half(c, a) == Half(b, a) && Half(c, a + 2) == Half(b, a + 2) && c[a + 4..n] == b[a + 4..n]
  {
    assert c[a] == c[a..n][0] && b[a] == b[a..n][0];
    assert c[a + 1] == c[a..n][1] && b[a + 1] == b[a..n][1];
    assert c[a + 2] == c[a..n][2] && b[a + 2] == b[a..n][2];
    assert c[a + 3] == c[a..n][3] && b[a + 3] == b[a..n][3];
    assert c[a + 4..n] == c[a..n][4..] && b[a + 4..n] == b[a..n][4..];
  }

  /** Storing a record at e leaves the bytes below e as they were. */
  lemma StoredKeeps(b: seq<Byte>, e: nat, pid: nat, msg: seq<Byte>, lo: nat, hi: nat)
    requires e + 4 + |msg| <= |b| && lo <= hi <= e
    ensures Stored(b, e, pid, msg)[lo..hi] == b[lo..hi]
  {
    var r := Stored(b, e, pid, msg);
    forall k | lo <= k < hi
      ensures r[k] == b[k]
    {
      assert r[k] == r[..e][k] && b[k] == b[..e][k];
    }
    assert r[lo..hi] == b[lo..hi];
  }

  // ---------------------------------------------------------------------
  // The writer corrected: align first, then test the bound.

  /** Slot with the bound tested on the aligned offset: a record is stored
      only when it ends inside the page. */
  function SlotChecked(b: seq<Byte>, off: nat, len: nat): (r: Option<nat>)
    requires |b| == SPAN
    ensures r.Some? ==> off <= r.value && r.value + 4 + len <= PGSIZE
    decreases PGSIZE - off
  {
    var a := Align4(off);
    if a + 4 + len > PGSIZE then None
    else if FreeAt(b, a) then Some(a)
    else SlotChecked(b, a + 4 + Half(b, a), len)
  }

  /** Every slot the corrected writer picks is 4-aligned. */
  lemma {:induction false} SlotCheckedAligned(b: seq<Byte>, off: nat, len: nat)
    requires |b| == SPAN
    ensures SlotChecked(b, off, len).Some? ==> SlotChecked(b, off, len).value % 4 == 0
    decreases PGSIZE - off
  {
    hide Align4, Half, FreeAt;
    var a := Align4(off);
    if a + 4 + len <= PGSIZE {
      SlotCheckedPass(b, off, len);
      if FreeAt(b, a) {
        Align4Mask(off);
      } else {
        SlotCheckedAligned(b, a + 4 + Half(b, a), len);
      }
    }
  }

  /** write_log with the alignment moved before the bound test. */
  method WriteLogChecked(buffer: array<Byte>, childPid: nat, msg: seq<Byte>) returns (stored: bool)
    requires buffer.Length == SPAN
    modifies buffer
    ensures var s := SlotChecked(old(buffer[..]), 0, |msg|);
      && stored == s.Some?
      && buffer[..] == if s.Some? then Stored(old(buffer[..]), s.value, childPid, msg) else old(buffer[..])
  {
    ghost var b := buffer[..];
    ghost var slot := SlotChecked(b, 0, |msg|);
    var offset := 0;
    while true
      invariant buffer[..] == b
      invariant SlotChecked(b, offset, |msg|) == slot
      decreases PGSIZE - offset
    {
      ghost var start := offset;
      offset := Align4(offset);
      if offset + 4 + |msg| > PGSIZE {
        return false;
      }
      var hdr, _, entryLen := ReadHeader(buffer[..], offset);
      SlotCheckedPass(b, start, |msg|);
      if hdr == 0 {
        StoreRecord(buffer, offset, childPid, msg);
        return true;
      }
      offset := offset + 4 + entryLen;
    }
  }

  /** One pass of the corrected writer's loop in terms of the header word it
      loads at the aligned offset. */
  lemma SlotCheckedPass(b: seq<Byte>, off: nat, len: nat)
    requires |b| == SPAN && Align4(off) + 4 + len <= PGSIZE
    ensures FreeAt(b, Align4(off)) ==> SlotChecked(b, off, len) == Some(Align4(off))
    ensures !FreeAt(b, Align4(off)) ==>
      SlotChecked(b, off, len) == SlotChecked(b, Align4(off) + 4 + Half(b, Align4(off)), len)
  {
  }

  /** Over laid-out records the corrected writer stores at their aligned end
      exactly when the record fits in the page there. */
  lemma {:induction false} SlotCheckedLaid(b: seq<Byte>, off: nat, R: seq<Rec>, len: nat)
    requires |b| == SPAN && Laid(b, off, R)
    ensures Align4(End(off, R)) + 4 + len <= PGSIZE ==> SlotChecked(b, off, len) == Some(Align4(End(off, R)))
    ensures Align4(End(off, R)) + 4 + len > PGSIZE ==> SlotChecked(b, off, len) == None
    decreases |R|
  {
    hide Align4, Half, FreeAt;
    if R == [] {
      if Align4(off) + 4 + len <= PGSIZE {
        ZeroFree(b, Align4(off));
      }
    } else {
      var n := Next(off, R[0]);
      LaidHead(b, off, R);
      SlotCheckedLaid(b, n, R[1..], len);
      assert Align4(End(n, R[1..])) >= n;
      if Align4(off) + 4 + len <= PGSIZE {
        SlotCheckedPass(b, off, len);
      }
    }
  }


  /** A sequential run of corrected writes on a zeroed buffer: the buffer
      and the records stored, in write order. */
  function Replay(ws: seq<Write>): (s: (seq<Byte>, seq<Rec>))
    ensures |s.0| == SPAN
  {
    if ws == [] then (seq(SPAN, _ => 0), [])
    else
      var (b, R) := Replay(ws[..|ws| - 1]);
      var w := ws[|ws| - 1];
      match SlotChecked(b, 0, |w.msg|)
      case None => (b, R)
      case Some(a) => (Stored(b, a, w.pid, w.msg), R + [Rec(w.pid, w.msg)])
  }

  /** Every write of a run is stored, in order, exactly when it fits after
      the records before it, and the buffer keeps them laid out. */
  lemma {:induction false} ReplayLaid(ws: seq<Write>)
    requires forall k :: 0 <= k < |ws| ==> Decodable(ws[k].pid, |ws[k].msg|)
    ensures Laid(Replay(ws).0, 0, Replay(ws).1)
  {
    if ws == [] {
      ZeroedLaid();
    } else {
      var ws' := ws[..|ws| - 1];
      ReplayLaid(ws');
      var (b, R) := Replay(ws');
      var w := ws[|ws| - 1];
      SlotCheckedLaid(b, 0, R, |w.msg|);
      if SlotChecked(b, 0, |w.msg|).Some? {
        LaidAppend(b, 0, R, Rec(w.pid, w.msg));
      }
    }
  }

  /** In a sequential run on a zeroed page the reader reports exactly the
      records the writers stored, in write order. */
  lemma ReplayDecodes(ws: seq<Write>)
    requires forall k :: 0 <= k < |ws| ==> Decodable(ws[k].pid, |ws[k].msg|)
    ensures DecodeFrom(Replay(ws).0, 0) == Replay(ws).1
  {
    ReplayLaid(ws);
    DecodeLaid(Replay(ws).0, 0, Replay(ws).1);
  }

  // ---------------------------------------------------------------------
  // The overrun of the writer as written.

  /** On a zeroed buffer, a record of 4085 bytes followed by one of 3 bytes:
      write_log as written stores the second header at 4092 and its payload
      at 4096 .. 4098, past the page, and the reader reports only the first
      record. The end-of-write bound PGSIZE + 3 of Slot is reached. */
  lemma OverrunExample(p1: nat, m1: seq<Byte>, p2: nat, m2: seq<Byte>)
    requires p1 < 0x1_0000 && p2 < 0x1_0000
    requires |m1| == 4085 && |m2| == 3
    ensures var b0: seq<Byte> := seq(SPAN, _ => 0);
      && Slot(b0, 0, |m1|) == Some(0)
      && var b1 := Stored(b0, 0, p1, m1);
      && Slot(b1, 0, |m2|) == Some(4092)
      && 4092 + 4 + |m2| == PGSIZE + 3
      && var b2 := Stored(b1, 4092, p2, m2);
      && DecodeFrom(b2, 0) == [Rec(p1, m1)]
  {
    var b0: seq<Byte> := seq(SPAN, _ => 0);
    var b1 := Stored(b0, 0, p1, m1);
    OverrunFirst(p1, m1);
    SlotLaid(b1, 0, [Rec(p1, m1)], |m2|);
    OverrunRead(b1, p1, m1, p2, m2);
  }

  /** The first write of OverrunExample: stored at 0, it lays out one record
      ending at 4089. */
  lemma OverrunFirst(p1: nat, m1: seq<Byte>)
    requires p1 < 0x1_0000 && |m1| == 4085
    ensures var b0: seq<Byte> := seq(SPAN, _ => 0);
      && Slot(b0, 0, |m1|) == Some(0)
      && Laid(Stored(b0, 0, p1, m1), 0, [Rec(p1, m1)])
      && End(0, [Rec(p1, m1)]) == 4089
  {
    hide Align4, Half, FreeAt, Slot, DecodeFrom, Laid, Stored;
    var b0: seq<Byte> := seq(SPAN, _ => 0);
    Align4Zero();
    ZeroedLaid();
    SlotLaid(b0, 0, [], |m1|);
    var r1 := Rec(p1, m1);
    LaidFirst(b0, 0, r1);
    EndOne(0, r1);
  }

  /** The unaligned end of a single record. */
  lemma EndOne(off: nat, r: Rec)
    ensures End(off, [r]) == Next(off, r)
  {
    assert [r][1..] == [];
  }

  /** A zeroed buffer holds no records. */
  lemma ZeroedLaid()
    ensures Laid(seq(SPAN, _ => 0), 0, [])
  {
    ZeroedFrom(SPAN, Align4(0));
  }

  /** The second write of OverrunExample leaves the first record in place
      and puts a header at 4092 whose payload passes the page, so the reader
      stops after the first record. */
  lemma OverrunRead(b1: seq<Byte>, p1: nat, m1: seq<Byte>, p2: nat, m2: seq<Byte>)
    requires |b1| == SPAN && p1 < 0x1_0000 && p2 < 0x1_0000 && |m1| == 4085 && |m2| == 3
    requires b1[0..4] == WordBytes(Header(p1, |m1|)) && b1[4..4 + |m1|] == m1
    ensures DecodeFrom(Stored(b1, 4092, p2, m2), 0) == [Rec(p1, m1)]
  {
    var b2 := Stored(b1, 4092, p2, m2);
    StoredKeeps(b1, 4092, p2, m2, 0, 4);
    StoredKeeps(b1, 4092, p2, m2, 4, 4 + |m1|);
    HeaderRoundTrip(p1, |m1|, b2, 0);
    OverrunStopsAtSecond(b2, p2, |m2|);
    assert Align4(0) == 0;
    DecodeRecord(b2, 0, Rec(p1, m1));
  }

  /** The reader, at 4089, finds the header at 4092 and stops: a payload of
      3 bytes would end past the page. */
  lemma OverrunStopsAtSecond(b2: seq<Byte>, p2: nat, len: nat)
    requires |b2| == SPAN && p2 < 0x1_0000 && len == 3 && b2[4092..4096] == WordBytes(Header(p2, len))
    ensures DecodeFrom(b2, 4089) == []
  {
    HeaderRoundTrip(p2, len, b2, 4092);
    DecodeStop(b2, 4089, 4092);
  }
}
