/** ELF headers and the placement arithmetic of src/elfload.c. */
module Elf {
  import opened Align
  import opened Bytes
  import opened AddressSpace
  import opened Wrappers

  const CODEMAX := GB
  const EHSIZE := 64
  const PHSIZE := 56
  const ELF_MAGIC := 0x464C457F
  const ET_EXEC := 2
  const ET_DYN := 3
  const PT_LOAD := 1

  datatype Ehdr = Ehdr(magic: nat, width: nat, etype: nat, version: nat, entry: U64, phoff: U64,
                       phentsize: U64, phnum: U64)

  datatype Phdr = Phdr(ptype: nat, flags: nat, offset: U64, vaddr: U64, filesz: U64, memsz: U64, align: U64)

  function U64At(f: seq<byte>, off: nat): U64
    requires off + 8 <= |f|
  {
    assert Pow256(8) == WORD;
    LE(f[off..off + 8])
  }

  function U16At(f: seq<byte>, off: nat): (v: nat)
    requires off + 2 <= |f|
    ensures v < 0x1_0000
  {
    assert Pow256(2) == 0x1_0000;
    LE(f[off..off + 2])
  }

  function ReadEhdr(f: seq<byte>): Ehdr
    requires EHSIZE <= |f|
  {
    Ehdr(LE(f[0..4]), f[4], U16At(f, 16), LE(f[20..24]), U64At(f, 24), U64At(f, 32), U16At(f, 54), U16At(f, 56))
  }

  function ReadPhdr(f: seq<byte>, at: nat): Phdr
    requires at + PHSIZE <= |f|
  {
    Phdr(LE(f[at..at + 4]), LE(f[at + 4..at + 8]), U64At(f, at + 8), U64At(f, at + 16),
         U64At(f, at + 32), U64At(f, at + 40), U64At(f, at + 48))
  }

  /** struct FileHeader as the ELF format lays it out; the fields the loader ignores are inputs. */
  function EncodeEhdr(h: Ehdr, ident: seq<byte>, machine: nat, tail: seq<byte>): seq<byte>
    requires h.width < 256 && |ident| == 11
  {
    ToLE(h.magic, 4) + [h.width] + ident + ToLE(h.etype, 2) + ToLE(machine, 2) + ToLE(h.version, 4) +
    ToLE(h.entry, 8) + ToLE(h.phoff, 8) + tail
  }

  /** struct ProgHeader, field by field in its order in the file. */
  function EncodePhdr(p: Phdr, paddr: U64): seq<byte> {
    ToLE(p.ptype, 4) + ToLE(p.flags, 4) + ToLE(p.offset, 8) + ToLE(p.vaddr, 8) + ToLE(paddr, 8) +
    ToLE(p.filesz, 8) + ToLE(p.memsz, 8) + ToLE(p.align, 8)
  }

  /** Reading undoes encoding, wherever the header stands in the file. */
  lemma PhdrRoundTrip(before: seq<byte>, p: Phdr, paddr: U64, after: seq<byte>)
    requires p.ptype < 0x1_0000_0000 && p.flags < 0x1_0000_0000
    ensures |EncodePhdr(p, paddr)| == PHSIZE
    ensures ReadPhdr(before + EncodePhdr(p, paddr) + after, |before|) == p
  {
    hide LE, ToLE;
    var f, at := before + EncodePhdr(p, paddr) + after, |before|;
    Widths();
    LERoundTrip(p.ptype, 4);
    LERoundTrip(p.flags, 4);
    LERoundTrip(p.offset, 8);
    LERoundTrip(p.vaddr, 8);
    LERoundTrip(p.filesz, 8);
    LERoundTrip(p.memsz, 8);
    LERoundTrip(p.align, 8);
    assert f[at..at + 4] == ToLE(p.ptype, 4) && f[at + 4..at + 8] == ToLE(p.flags, 4);
    assert f[at + 8..at + 16] == ToLE(p.offset, 8) && f[at + 16..at + 24] == ToLE(p.vaddr, 8);
    assert f[at + 32..at + 40] == ToLE(p.filesz, 8) && f[at + 40..at + 48] == ToLE(p.memsz, 8);
    assert f[at + 48..at + 56] == ToLE(p.align, 8);
  }

  /** The tail holds the section offset and the flags, then the sizes and counts. */
  lemma EhdrRoundTrip(h: Ehdr, ident: seq<byte>, machine: nat, skip: seq<byte>, after: seq<byte>)
    requires h.magic < 0x1_0000_0000 && h.width < 256 && h.etype < 0x1_0000 && h.version < 0x1_0000_0000
    requires h.phentsize < 0x1_0000 && h.phnum < 0x1_0000 && |ident| == 11 && |skip| == 14 && |after| >= 6
    ensures
      var f := EncodeEhdr(h, ident, machine, skip + ToLE(h.phentsize, 2) + ToLE(h.phnum, 2) + after);
      EHSIZE <= |f| && ReadEhdr(f) == h
  {
    hide LE, ToLE;
    var f := EncodeEhdr(h, ident, machine, skip + ToLE(h.phentsize, 2) + ToLE(h.phnum, 2) + after);
    Widths();
    LERoundTrip(h.magic, 4);
    LERoundTrip(h.etype, 2);
    LERoundTrip(h.version, 4);
    LERoundTrip(h.entry, 8);
    LERoundTrip(h.phoff, 8);
    LERoundTrip(h.phentsize, 2);
    LERoundTrip(h.phnum, 2);
    assert f[0..4] == ToLE(h.magic, 4) && f[4] == h.width && f[16..18] == ToLE(h.etype, 2);
    assert f[20..24] == ToLE(h.version, 4) && f[24..32] == ToLE(h.entry, 8) && f[32..40] == ToLE(h.phoff, 8);
    assert f[54..56] == ToLE(h.phentsize, 2) && f[56..58] == ToLE(h.phnum, 2);
  }

  lemma Widths()
    ensures Pow256(2) == 0x1_0000 && Pow256(4) == 0x1_0000_0000 && Pow256(8) == WORD
  {
  }

  predicate ElfCheck(h: Ehdr) {
    h.magic == ELF_MAGIC && h.width == 2 && h.version == 1 && (h.etype == ET_DYN || h.etype == ET_EXEC)
  }

  /** The file holds a whole header and a whole program header table. */
  predicate HasTable(f: seq<byte>) {
    && EHSIZE <= |f|
    && var h := ReadEhdr(f); h.phoff + PHSIZE * h.phnum <= |f|
  }

  function Phdrs(f: seq<byte>): (ps: seq<Phdr>)
    requires HasTable(f)
    ensures |ps| == ReadEhdr(f).phnum
  {
    var h := ReadEhdr(f);
    seq(h.phnum, i requires 0 <= i < h.phnum => ReadPhdr(f, h.phoff + PHSIZE * i))
  }

  /** A program header table: the headers in order, without gaps. */
  function EncodeTable(ps: seq<Phdr>, paddrs: seq<U64>): seq<byte>
    requires |ps| == |paddrs|
  {
    if ps == [] then [] else EncodePhdr(ps[0], paddrs[0]) + EncodeTable(ps[1..], paddrs[1..])
  }

  lemma {:induction false} EntryRoundTrip(before: seq<byte>, ps: seq<Phdr>, paddrs: seq<U64>, after: seq<byte>, i: nat)
    requires |ps| == |paddrs| && i < |ps|
    requires forall k :: 0 <= k < |ps| ==> ps[k].ptype < 0x1_0000_0000 && ps[k].flags < 0x1_0000_0000
    ensures
      var f := before + EncodeTable(ps, paddrs) + after;
      |f| == |before| + 56 * |ps| + |after| && ReadPhdr(f, |before| + 56 * i) == ps[i]
    decreases i
  {
    hide ReadPhdr, EncodePhdr;
    var first, others := EncodePhdr(ps[0], paddrs[0]), EncodeTable(ps[1..], paddrs[1..]);
    var f := before + EncodeTable(ps, paddrs) + after;
    TableSize(ps, paddrs);
    PhdrRoundTrip(before, ps[0], paddrs[0], others + after);
    assert f == before + first + (others + after);
    if i > 0 {
      EntryRoundTrip(before + first, ps[1..], paddrs[1..], after, i - 1);
      assert f == before + first + others + after;
    }
  }

  lemma {:induction false} TableSize(ps: seq<Phdr>, paddrs: seq<U64>)
    requires |ps| == |paddrs|
    ensures |EncodeTable(ps, paddrs)| == 56 * |ps|
  {
    if ps != [] {
      TableSize(ps[1..], paddrs[1..]);
    }
  }

  /** Where the file header says, the table is read back whole and in order. */
  lemma TableRoundTrip(f: seq<byte>, before: seq<byte>, ps: seq<Phdr>, paddrs: seq<U64>, after: seq<byte>)
    requires |ps| == |paddrs| && f == before + EncodeTable(ps, paddrs) + after
    requires forall k :: 0 <= k < |ps| ==> ps[k].ptype < 0x1_0000_0000 && ps[k].flags < 0x1_0000_0000
    requires 64 <= |f| && ReadEhdr(f).phoff == |before| && ReadEhdr(f).phnum == |ps|
    ensures HasTable(f) && Phdrs(f) == ps
  {
    hide ReadEhdr, EncodeTable, Phdrs;
    TableSize(ps, paddrs);
    var got := Phdrs(f);
    forall i | 0 <= i < |ps| ensures got[i] == ps[i] {
      EntryRead(f, before, ps, paddrs, after, i);
    }
  }

  lemma EntryRead(f: seq<byte>, before: seq<byte>, ps: seq<Phdr>, paddrs: seq<U64>, after: seq<byte>, i: nat)
    requires |ps| == |paddrs| && f == before + EncodeTable(ps, paddrs) + after && HasTable(f) && i < |ps|
    requires forall k :: 0 <= k < |ps| ==> ps[k].ptype < 0x1_0000_0000 && ps[k].flags < 0x1_0000_0000
    requires ReadEhdr(f).phoff == |before| && ReadEhdr(f).phnum == |ps|
    ensures Phdrs(f)[i] == ps[i]
  {
    hide ReadEhdr, ReadPhdr, EncodeTable, Phdrs;
    EntryRoundTrip(before, ps, paddrs, after, i);
    EntryAt(f, i);
  }

  lemma EntryAt(f: seq<byte>, i: nat)
    requires HasTable(f) && i < ReadEhdr(f).phnum
    ensures ReadEhdr(f).phoff + 56 * i + 56 <= |f| && Phdrs(f)[i] == ReadPhdr(f, ReadEhdr(f).phoff + 56 * i)
  {
    hide ReadEhdr, ReadPhdr;
  }

  predicate Loadable(p: Phdr) {
    p.ptype == PT_LOAD && p.memsz != 0
  }

  ghost predicate HasLoadable(ps: seq<Phdr>) {
    exists k :: 0 <= k < |ps| && Loadable(ps[k])
  }

  function Pflags(flags: nat): Prot {
    Prot(flags / 4 % 2 == 1, flags / 2 % 2 == 1, flags % 2 == 1)
  }

  /** The protection bits are those that the masks of the format select. */
  lemma PflagsMasks(flags: nat)
    ensures Pflags(flags).x <==> BitAnd(flags, 1) != 0
    ensures Pflags(flags).w <==> BitAnd(flags, 2) != 0
    ensures Pflags(flags).r <==> BitAnd(flags, 4) != 0
  {
    AndUnfold(flags, 1);
    AndUnfold(flags, 2);
    AndUnfold(flags / 2, 1);
    AndUnfold(flags, 4);
    AndUnfold(flags / 2, 2);
    AndUnfold(flags / 2 / 2, 1);
  }

  function SegStart(p: Phdr): U64 {
    Truncp(p.vaddr, p.align)
  }

  function SegEnd(p: Phdr): U64 {
    Ceilp(Add64(p.vaddr, p.memsz), p.align)
  }

  /** Fixed-address programs are moved by `delta`, the distance of the load base from the
      start of the space; position-independent ones by nothing. */
  function Moved(a: U64, exec: bool, delta: U64): U64 {
    if exec then Sub64(a, delta) else a
  }

  /** The checks that the loader makes on one loadable header. */
  predicate Passes(p: Phdr, page: int, exec: bool, delta: U64)
    requires page > 0
  {
    && p.align % page == 0
    && (exec ==> delta <= SegStart(p))
    && p.filesz <= p.memsz
    && var start, end := Moved(SegStart(p), exec, delta), Moved(SegEnd(p), exec, delta);
       start < end && start < CODEMAX && end < CODEMAX
  }

  // ---------------------------------------------------------------- sufficiency of the checks

  /** The page-rounded range is non-empty and contains the whole segment, file bytes included. */
  ghost predicate Contains(p: Phdr, page: int)
    requires page > 0
  {
    && SegStart(p) % page == 0 && SegEnd(p) % page == 0
    && SegStart(p) < SegEnd(p)
    && SegStart(p) <= p.vaddr && p.vaddr + p.filesz <= p.vaddr + p.memsz <= SegEnd(p)
  }

  /** What the checks do guarantee, for any header that passes: a non-empty range of whole pages
      that starts at or below the segment and is moved without wrapping. */
  lemma PassesGuarantees(p: Phdr, page: int, exec: bool, delta: U64)
    requires IsPow2(page) && page <= WORD && delta <= WORD - CODEMAX && Passes(p, page, exec, delta)
    ensures p.align > 0 && SegStart(p) % page == 0 && SegEnd(p) % page == 0
    ensures SegStart(p) < SegEnd(p) && SegStart(p) <= p.vaddr
    ensures Moved(SegStart(p), exec, delta) == SegStart(p) - (if exec then delta else 0)
    ensures Moved(SegEnd(p), exec, delta) == SegEnd(p) - (if exec then delta else 0)
  {
    if p.align == 0 {
      ZeroAlignment(p);
    }
    RoundsToPages(p.vaddr, p.align, page);
    RoundsToPages(Add64(p.vaddr, p.memsz), p.align, page);
  }

  lemma ZeroAlignment(p: Phdr)
    requires p.align == 0
    ensures SegStart(p) == 0 && SegEnd(p) == 0
  {
  }

  /** For any header at all, one that passes is contained exactly when neither the sum of vaddr
      and memsz nor rounding it up wraps. */
  lemma ContainedIffNoWrap(p: Phdr, page: int, exec: bool, delta: U64)
    requires IsPow2(page) && page <= WORD && delta <= WORD - CODEMAX && Passes(p, page, exec, delta)
    ensures p.align > 0
    ensures Contains(p, page) <==> p.vaddr + p.memsz + p.align - 1 < WORD
  {
    PassesGuarantees(p, page, exec, delta);
    if p.vaddr + p.memsz < WORD {
      CeilpSoundIffNoWrap(p.vaddr + p.memsz, p.align);
    }
  }

  /** With an alignment that the ELF format allows, exactly when the sum does not wrap: rounding
      it up then gives zero if it wraps, which does not pass. */
  lemma ChecksSufficeIff(p: Phdr, page: int, exec: bool, delta: U64)
    requires IsPow2(page) && page <= WORD && delta <= WORD - CODEMAX && Passes(p, page, exec, delta)
    requires p.align == 0 || IsPow2(p.align)
    ensures Contains(p, page) <==> p.vaddr + p.memsz < WORD
  {
    ContainedIffNoWrap(p, page, exec, delta);
    if p.vaddr + p.memsz < WORD {
      PowerOfTwoRounding(p.vaddr + p.memsz, p.align);
    }
  }

  /** In ordinary arithmetic, for headers that do not wrap: exactly what passes. A segment may reach
      up to 1 GiB above the base. */
  lemma PassesIff(p: Phdr, page: int, exec: bool, delta: U64)
    requires page > 0 && delta <= WORD - CODEMAX && p.memsz > 0
    requires IsPow2(p.align) && p.vaddr + p.memsz + p.align - 1 < WORD
    ensures p.align > 0 && SegStart(p) == p.vaddr - p.vaddr % p.align && SegEnd(p) == RoundUp(p.vaddr + p.memsz, p.align)
    ensures Passes(p, page, exec, delta) <==>
      && p.align % page == 0 && p.filesz <= p.memsz
      && var shift := if exec then delta else 0;
      && shift <= p.vaddr - p.vaddr % p.align && RoundUp(p.vaddr + p.memsz, p.align) - shift < 0x4000_0000
  {
    PowerOfTwoRounding(p.vaddr, p.align);
    CeilpIsRoundUp(p.vaddr + p.memsz, p.align);
    RoundUpBounds(p.vaddr + p.memsz, p.align);
    hide Truncp, Ceilp, IsPow2, RoundUp;
  }

  /** So the checks are not enough. Rounding up wraps: this header passes, yet only one page is
      mapped for its 8193 bytes. */
  lemma WrappedEndPasses(p: Phdr)
    requires p == Phdr(PT_LOAD, 6, 0, 0, 8193, 8193, WORD - 4096)
    ensures Loadable(p) && Passes(p, 4096, false, 0) && SegEnd(p) - SegStart(p) == 4096 < p.filesz
  {
    hide BitAnd;
    assert Not64(Sub64(p.align, 1)) == 4096;
    AndPage(p.vaddr);
    AndPage(Add64(p.memsz, p.align - 1));
  }

  /** The same with its bytes 8 GiB above its range, which is more than a whole space. */
  lemma WrappedEndFarOff(p: Phdr)
    requires p == Phdr(PT_LOAD, 6, 0, 0x2_0000_0000, 8193, 8193, WORD - 4096)
    ensures Loadable(p) && Passes(p, 4096, false, 0) && SegStart(p) == 0 && SegEnd(p) == 4096 && p.vaddr - SegEnd(p) > VMSIZE
  {
    hide BitAnd;
    assert Not64(Sub64(p.align, 1)) == 4096;
    AndPage(p.vaddr);
    AndPage(Add64(p.vaddr + p.memsz, p.align - 1));
  }

  /** The sum wraps: with 4 KiB alignment one page is mapped for 8192 bytes. */
  lemma WrappedSumPasses(p: Phdr)
    requires p == Phdr(PT_LOAD, 6, 0, 8292, 8192, WORD - 50, 4096)
    ensures Loadable(p) && Passes(p, 4096, false, 0) && IsPow2(p.align) && SegStart(p) == 8192 && SegEnd(p) == 12288
  {
    hide Truncp, Ceilp;
    assert Pow2(12) == 4096;
    PowerOfTwoRounding(p.vaddr, p.align);
    PowerOfTwoRounding(Add64(p.vaddr, p.memsz), p.align);
  }

  lemma AndEight(a: nat, b: nat)
    ensures BitAnd(a, 8 * b) == 8 * BitAnd(a / 8, b)
  {
    AndUnfold(a, 8 * b);
    AndUnfold(a / 2, 4 * b);
    AndUnfold(a / 4, 2 * b);
    hide BitAnd;
    assert 8 * b / 2 == 4 * b && 4 * b / 2 == 2 * b && 2 * b / 2 == b;
    assert a / 2 / 2 == a / 4 && a / 4 / 2 == a / 8;
  }

  /** Masking with 4096 keeps the one bit. */
  lemma AndPage(a: nat)
    ensures BitAnd(a, 4096) == if a / 4096 % 2 == 1 then 4096 else 0
  {
    AndEight(a, 512);
    AndEight(a / 8, 64);
    AndEight(a / 64, 8);
    AndEight(a / 512, 1);
    AndUnfold(a / 4096, 1);
    assert BitAnd(a / 4096 / 2, 0) == 0;
    hide BitAnd;
    assert a / 8 / 8 == a / 64 && a / 64 / 8 == a / 512 && a / 512 / 8 == a / 4096;
  }

  // ---------------------------------------------------------------- the image

  predicate Covers(p: Phdr, bias: int, a: int) {
    Loadable(p) && bias + SegStart(p) <= a < bias + SegEnd(p)
  }

  /** The byte of segment p at address a: from the file within filesz, otherwise zero. */
  function SegByte(f: seq<byte>, p: Phdr, bias: int, a: int): byte {
    var d := a - (bias + p.vaddr);
    if 0 <= d < p.filesz && p.offset + d < |f| then f[p.offset + d] else 0
  }

  /** A loaded address: recorded as read-write, protected as the segment asks. */
  function SegCell(f: seq<byte>, p: Phdr, bias: int, a: int): Cell {
    Cell(Some(RW), Pflags(p.flags), SegByte(f, p, bias, a))
  }

  /** Address a after laying the first n headers over s0, one after the other. */
  function Laid(f: seq<byte>, ps: seq<Phdr>, n: nat, bias: int, s0: Space, a: int): Cell
    requires n <= |ps|
  {
    if n == 0 then s0.At(a)
    else if Covers(ps[n - 1], bias, a) then SegCell(f, ps[n - 1], bias, a)
    else Laid(f, ps, n - 1, bias, s0, a)
  }

  /** The last covering header decides an address. */
  lemma {:induction false} LastSegmentWins(f: seq<byte>, ps: seq<Phdr>, n: nat, bias: int, s0: Space, a: int, k: nat)
    requires k < n <= |ps| && Covers(ps[k], bias, a)
    requires forall j :: k < j < n ==> !Covers(ps[j], bias, a)
    ensures Laid(f, ps, n, bias, s0, a) == SegCell(f, ps[k], bias, a)
  {
    hide SegStart, SegEnd, SegCell;
    if k < n - 1 {
      LastSegmentWins(f, ps, n - 1, bias, s0, a, k);
    }
  }

  /** An address that no header covers is unchanged. */
  lemma {:induction false} UncoveredUnchanged(f: seq<byte>, ps: seq<Phdr>, n: nat, bias: int, s0: Space, a: int)
    requires n <= |ps| && forall j :: 0 <= j < n ==> !Covers(ps[j], bias, a)
    ensures Laid(f, ps, n, bias, s0, a) == s0.At(a)
  {
    hide SegStart, SegEnd, SegCell;
    if n > 0 {
      UncoveredUnchanged(f, ps, n - 1, bias, s0, a);
    }
  }

  /** No later loadable header reaches into the range of header k. */
  ghost predicate Topmost(ps: seq<Phdr>, k: nat)
    requires k < |ps|
  {
    forall j :: k < j < |ps| && Loadable(ps[j]) ==> SegEnd(ps[j]) <= SegStart(ps[k]) || SegEnd(ps[k]) <= SegStart(ps[j])
  }

  /** Memory holds segment p of the file: its bytes at bias + vaddr, zeroes in the rest of its range,
      and the protection that the flags ask for. */
  ghost predicate HoldsSegment(f: seq<byte>, p: Phdr, bias: int, s: Space) {
    && p.offset + p.filesz <= |f|
    && Read(s.mem, bias + p.vaddr, p.filesz) == f[p.offset..p.offset + p.filesz]
    && (forall a :: bias + SegStart(p) <= a < bias + SegEnd(p) && !(bias + p.vaddr <= a < bias + p.vaddr + p.filesz) ==>
      s.mem(a) == 0)
    && (forall a :: bias + SegStart(p) <= a < bias + SegEnd(p) ==>
      s.prot(a) == Prot(BitAnd(p.flags, 4) != 0, BitAnd(p.flags, 2) != 0, BitAnd(p.flags, 1) != 0))
  }

  /** s is s0 with the first n headers laid over it. */
  ghost predicate Image(f: seq<byte>, ps: seq<Phdr>, n: nat, bias: int, s0: Space, s: Space)
    requires n <= |ps|
  {
    forall a :: s.At(a) == Laid(f, ps, n, bias, s0, a)
  }

  /** The lowest page-rounded start of the loadable headers, or zero when there are none. */
  function Lowest(ps: seq<Phdr>, n: nat, bias: int): int
    requires n <= |ps|
  {
    if n == 0 then 0
    else
      var low := Lowest(ps, n - 1, bias);
      if !Loadable(ps[n - 1]) then low
      else if low == 0 || bias + SegStart(ps[n - 1]) < low then bias + SegStart(ps[n - 1]) else low
  }

  function Highest(ps: seq<Phdr>, n: nat, bias: int): int
    requires n <= |ps|
  {
    if n == 0 then 0
    else
      var high := Highest(ps, n - 1, bias);
      if !Loadable(ps[n - 1]) then high
      else if bias + SegEnd(ps[n - 1]) > high then bias + SegEnd(ps[n - 1]) else high
  }

  /** first and last bound every loadable header, and are each the bound of one of them. */
  ghost predicate Bounds(ps: seq<Phdr>, n: nat, bias: int, first: int, last: int)
    requires n <= |ps|
  {
    && (forall k :: 0 <= k < n && Loadable(ps[k]) ==> first <= bias + SegStart(ps[k]) && bias + SegEnd(ps[k]) <= last)
    && (exists k :: 0 <= k < n && Loadable(ps[k]) && first == bias + SegStart(ps[k]))
    && (exists k :: 0 <= k < n && Loadable(ps[k]) && last == bias + SegEnd(ps[k]))
  }

  lemma {:induction false} LowestIsLeast(ps: seq<Phdr>, n: nat, bias: int) returns (k: nat)
    requires n <= |ps| && bias > 0
    ensures k <= n && (k < n ==> Loadable(ps[k]) && Lowest(ps, n, bias) == bias + SegStart(ps[k]))
    ensures k == n ==> Lowest(ps, n, bias) == 0 && forall j :: 0 <= j < n ==> !Loadable(ps[j])
    ensures forall j :: 0 <= j < n && Loadable(ps[j]) ==> Lowest(ps, n, bias) <= bias + SegStart(ps[j])
  {
    hide SegStart;
    if n == 0 {
      return 0;
    }
    k := LowestIsLeast(ps, n - 1, bias);
    if Loadable(ps[n - 1]) {
      k := if Lowest(ps, n, bias) == bias + SegStart(ps[n - 1]) then n - 1 else k;
    } else if k == n - 1 {
      k := n;
    }
  }

  lemma {:induction false} HighestIsGreatest(ps: seq<Phdr>, n: nat, bias: int) returns (k: nat)
    requires n <= |ps| && bias > 0
    ensures k <= n && (k < n ==> Loadable(ps[k]) && Highest(ps, n, bias) == bias + SegEnd(ps[k]))
    ensures k == n ==> Highest(ps, n, bias) == 0 && forall j :: 0 <= j < n ==> !Loadable(ps[j])
    ensures forall j :: 0 <= j < n && Loadable(ps[j]) ==> bias + SegEnd(ps[j]) <= Highest(ps, n, bias)
  {
    hide SegEnd;
    if n == 0 {
      return 0;
    }
    k := HighestIsGreatest(ps, n - 1, bias);
    if Loadable(ps[n - 1]) {
      k := if Highest(ps, n, bias) == bias + SegEnd(ps[n - 1]) then n - 1 else k;
    } else if k == n - 1 {
      k := n;
    }
  }

  lemma LowestAndHighest(ps: seq<Phdr>, bias: int)
    requires bias > 0
    ensures
      if HasLoadable(ps) then Bounds(ps, |ps|, bias, Lowest(ps, |ps|, bias), Highest(ps, |ps|, bias))
      else Lowest(ps, |ps|, bias) == 0 && Highest(ps, |ps|, bias) == 0
  {
    hide SegStart, SegEnd;
    var i := LowestIsLeast(ps, |ps|, bias);
    var j := HighestIsGreatest(ps, |ps|, bias);
  }

  /** In the image, memory holds every segment that no later one reaches into. */
  lemma SegmentHeld(f: seq<byte>, ps: seq<Phdr>, bias: int, s0: Space, s: Space, k: nat)
    requires k < |ps| && Loadable(ps[k]) && Topmost(ps, k) && Image(f, ps, |ps|, bias, s0, s)
    requires SegStart(ps[k]) <= ps[k].vaddr && ps[k].offset + ps[k].filesz <= |f|
    requires ps[k].filesz == 0 || ps[k].vaddr + ps[k].filesz <= SegEnd(ps[k])
    ensures HoldsSegment(f, ps[k], bias, s)
  {
    hide SegStart, SegEnd, Laid, BitAnd, Pflags;
    var p := ps[k];
    forall a | bias + SegStart(p) <= a < bias + SegEnd(p) ensures s.At(a) == SegCell(f, p, bias, a) {
      assert Covers(p, bias, a);
      forall j | k < j < |ps| ensures !Covers(ps[j], bias, a) {
        assert Loadable(ps[j]) ==> SegEnd(ps[j]) <= SegStart(p) || SegEnd(p) <= SegStart(ps[j]);
      }
      LastSegmentWins(f, ps, |ps|, bias, s0, a, k);
    }
    var got, want := Read(s.mem, bias + p.vaddr, p.filesz), f[p.offset..p.offset + p.filesz];
    forall i | 0 <= i < p.filesz ensures got[i] == want[i] {
      assert s.At(bias + p.vaddr + i) == SegCell(f, p, bias, bias + p.vaddr + i);
    }
    forall a | bias + SegStart(p) <= a < bias + SegEnd(p)
      ensures s.prot(a) == Pflags(p.flags) && (!(bias + p.vaddr <= a < bias + p.vaddr + p.filesz) ==> s.mem(a) == 0)
    {
      assert s.At(a) == SegCell(f, p, bias, a);
    }
    PflagsParts(p.flags);
  }

  lemma PflagsParts(flags: nat)
    ensures Pflags(flags) == Prot(BitAnd(flags, 4) != 0, BitAnd(flags, 2) != 0, BitAnd(flags, 1) != 0)
  {
    PflagsMasks(flags);
    hide BitAnd;
  }
}
