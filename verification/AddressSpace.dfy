/** The sandbox address space of src/pal/vm.c: libmmap's bookkeeping beside the host's pages.

    Bookkeeping, protection and contents are kept per address; every operation acts on
    whole pages, and `PageGrained` says that the per-address view never splits one.
    What libmmap and the host answer (`Answers`, and the place libmmap finds) are inputs. */
module AddressSpace {
  import opened Align
  import opened Bytes
  import opened Wrappers

  datatype Prot = Prot(r: bool, w: bool, x: bool)

  const NONE := Prot(false, false, false)
  const RW := Prot(true, true, false)

  const KB := 1024
  const GB := 1024 * 1024 * 1024
  const GUARD := 80 * KB
  const VMSIZE := 4 * GB

  /** What lfi_as_new fixes: a 4 GiB aligned base and the page size. */
  datatype Geometry = Geometry(base: int, page: int) {
    ghost predicate Valid() {
      && 0 < base && base % VMSIZE == 0 && base + VMSIZE <= WORD
      && IsPow2(page) && GUARD % page == 0
    }
    function MinAddr(): int { base + GUARD + page }
    function MaxAddr(): int { base + VMSIZE - GUARD }
    predicate Inside(a: int) { MinAddr() <= a < MaxAddr() }
  }

  function RoundUp(size: nat, page: int): nat
    requires page > 0
  {
    if size % page == 0 then size else size + page - size % page
  }

  lemma RoundUpBounds(size: nat, page: int)
    requires page > 0
    ensures size <= RoundUp(size, page) < size + page
    ensures RoundUp(size, page) % page == 0
  {
    var q, r := size / page, size % page;
    assert size == q * page + r;
    if r != 0 {
      assert size + page - r == (q + 1) * page;
      MultipleOf(q + 1, page);
    }
  }

  /** Mask rounding by a power of two is rounding up. */
  lemma CeilpIsRoundUp(x: U64, align: U64)
    requires IsPow2(align) && x + align - 1 < WORD
    ensures align > 0 && Ceilp(x, align) == RoundUp(x, align)
  {
    hide Ceilp, RoundUp, IsPow2;
    PowerOfTwoRounding(x, align);
    RoundUpBounds(x, align);
    CeilpIsLeast(x, align, RoundUp(x, align));
    if Ceilp(x, align) < RoundUp(x, align) {
      AlignedGap(Ceilp(x, align), RoundUp(x, align), align);
    }
  }

  /** A page-aligned limit that bounds the request bounds its rounded form too. */
  lemma RoundUpFits(addr: int, size: nat, limit: int, page: int)
    requires page > 0 && addr % page == 0 && limit % page == 0 && addr + size <= limit
    ensures addr + RoundUp(size, page) <= limit
  {
    RoundUpBounds(size, page);
    var end := addr + RoundUp(size, page);
    AlignedSum(addr, RoundUp(size, page), page);
    if limit < end {
      AlignedGap(limit, end, page);
    }
  }

  /** The power of two in 80 KiB is 2^14. */
  lemma PowOfGuard(k: nat, q: int)
    ensures k > 14 ==> q * Pow2(k) != GUARD
  {
    if k > 14 {
      PowAdd(15, k - 15);
      PowAdd(7, 8);
      assert Pow2(15) == 32768;
      var c := q * Pow2(k - 15);
      assert q * Pow2(k) == c * 32768;
    }
  }

  lemma PageFacts(page: int)
    requires IsPow2(page) && GUARD % page == 0
    ensures 0 < page <= 16 * KB && VMSIZE % page == 0
  {
    var k: nat :| page == Pow2(k);
    assert GUARD == (GUARD / page) * page;
    PowOfGuard(k, GUARD / page);
    Powers();
    PowAdd(32 - k, k);
    MultipleOf(Pow2(32 - k), page);
    if k < 14 {
      PowMono(k, 14);
    }
  }

  lemma Powers()
    ensures Pow2(14) == 16 * KB && Pow2(32) == VMSIZE
  {
    assert Pow2(7) == 128 && Pow2(8) == 256;
    PowAdd(7, 7);
    PowAdd(8, 8);
    PowAdd(16, 16);
  }

  lemma GeometryFacts(g: Geometry)
    requires g.Valid()
    ensures 0 < g.page <= 16 * KB
    ensures VMSIZE <= g.base < g.MinAddr() < g.MaxAddr() < WORD
    ensures g.MinAddr() == g.base + 81920 + g.page && g.MaxAddr() == g.base + 0x1_0000_0000 - 81920
    ensures g.base % g.page == 0 && g.MinAddr() % g.page == 0 && g.MaxAddr() % g.page == 0
  {
    PageFacts(g.page);
    MultipleTrans(g.base, VMSIZE, g.page);
    MultipleOf(1, g.page);
    AlignedSum(g.base, GUARD, g.page);
    AlignedSum(g.base + GUARD, g.page, g.page);
    AlignedSum(g.base, VMSIZE, g.page);
    AlignedSum(g.base + VMSIZE, GUARD, g.page);
  }

  // ---------------------------------------------------------------- states and steps

  /** libmmap's record of each address, and the host's protection and contents. */
  datatype Space = Space(mm: int -> Option<Prot>, prot: int -> Prot, mem: Memory) {
    function At(a: int): Cell { Cell(mm(a), prot(a), mem(a)) }
  }

  datatype Cell = Cell(mm: Option<Prot>, prot: Prot, byte: byte)

  /** Whether libmmap accepts the request, and whether the host's mmap then succeeds. */
  datatype Answers = Answers(mm: bool, host: bool)

  datatype MapResult = Mapped(addr: int) | Refused | Aborted

  ghost predicate SameOutside(s: Space, s': Space, lo: int, hi: int) {
    forall a :: !(lo <= a < hi) ==> s'.mm(a) == s.mm(a) && s'.prot(a) == s.prot(a) && s'.mem(a) == s.mem(a)
  }

  ghost predicate Same(s: Space, s': Space) {
    SameOutside(s, s', 0, 0)
  }

  /** A new anonymous mapping: recorded, protected as asked, and zero. */
  ghost predicate Fresh(s': Space, lo: int, hi: int, p: Prot) {
    forall a :: lo <= a < hi ==> s'.mm(a) == Some(p) && s'.prot(a) == p && s'.mem(a) == 0
  }

  /** Nothing recorded any more; what was recorded before has become inaccessible zero pages. */
  ghost predicate Vacated(s: Space, s': Space, lo: int, hi: int) {
    forall a :: lo <= a < hi ==>
      && s'.mm(a) == None
      && s'.prot(a) == (if s.mm(a).Some? then NONE else s.prot(a))
      && s'.mem(a) == (if s.mm(a).Some? then 0 else s.mem(a))
  }

  predicate InRange(g: Geometry, addr: int, size: nat) {
    g.MinAddr() <= addr && addr + size <= g.MaxAddr()
  }

  /** What libmmap is known to handle: a page-aligned address and a range that does not wrap. */
  predicate Plain(g: Geometry, addr: int, size: nat) {
    g.page > 0 && addr % g.page == 0 && addr + size < WORD
  }

  ghost predicate MapsAt(g: Geometry, s: Space, s': Space, addr: int, size: nat, p: Prot, ans: Answers, r: MapResult)
    requires g.page > 0
  {
    if !InRange(g, addr, size) then r == Aborted && Same(s, s')
    else if !ans.mm then r == Refused && Same(s, s')
    else
      var end := addr + RoundUp(size, g.page);
      && SameOutside(s, s', addr, end)
      && if ans.host then r == Mapped(addr) && Fresh(s', addr, end, p)
         else r == Refused && Vacated(s, s', addr, end)
  }

  /** A place that libmmap may pick: page aligned, inside the space, and unrecorded. */
  ghost predicate FreePlace(g: Geometry, s: Space, addr: int, size: nat)
    requires g.page > 0
  {
    && addr % g.page == 0 && InRange(g, addr, size)
    && forall a :: addr <= a < addr + RoundUp(size, g.page) ==> s.mm(a) == None
  }

  /** The result is an address, 0 when libmmap finds no place, and all ones when the host refuses. */
  ghost predicate MapsAny(g: Geometry, s: Space, s': Space, size: nat, p: Prot, found: Option<int>, host: bool, r: int)
    requires g.page > 0
  {
    match found
    case None => r == 0 && Same(s, s')
    case Some(addr) =>
      if host then
        var end := addr + RoundUp(size, g.page);
        r == addr && SameOutside(s, s', addr, end) && Fresh(s', addr, end, p)
      else r == WORD - 1 && Same(s, s')
  }

  /** The upper comparison is strict: a range that ends at the top of the space is refused. */
  ghost predicate Unmaps(g: Geometry, s: Space, s': Space, addr: int, size: nat, mm: bool, ok: bool)
    requires g.page > 0
  {
    if g.MinAddr() <= addr && addr + size < g.MaxAddr() && mm then
      var end := addr + RoundUp(size, g.page);
      ok && SameOutside(s, s', addr, end) && Vacated(s, s', addr, end)
    else !ok && Same(s, s')
  }

  function Overlay<T>(f: int -> T, lo: int, hi: int, v: T): int -> T {
    a => if lo <= a < hi then v else f(a)
  }

  function OverlayWhere<T>(f: int -> T, lo: int, hi: int, mm: int -> Option<Prot>, v: T): int -> T {
    a => if lo <= a < hi && mm(a).Some? then v else f(a)
  }

  class AddrSpace {
    const g: Geometry
    var mm: int -> Option<Prot>
    var prot: int -> Prot
    var mem: Memory

    ghost function State(): Space
      reads this
    {
      Space(mm, prot, mem)
    }

    /** The host memory around the space is arbitrary; the space itself starts reserved. */
    constructor (base: int, page: int, hostProt: int -> Prot, hostMem: Memory)
      requires Geometry(base, page).Valid()
      requires forall a :: Geometry(base, page).Inside(a) ==> hostProt(a) == NONE
      requires page > 0 && forall a :: hostProt(a) == hostProt(a - a % page)
      ensures g == Geometry(base, page) && prot == hostProt && mem == hostMem
      ensures forall a :: mm(a) == None
      ensures Agreement(g, State()) && g.page > 0 && PageGrained(g, State())
    {
      g := Geometry(base, page);
      mm := _ => None;
      prot := hostProt;
      mem := hostMem;
    }

    /** cbunmap, on each recorded range between lo and hi. */
    method CbUnmap(lo: int, hi: int)
      modifies this`prot, this`mem
      ensures forall a :: prot(a) == (if lo <= a < hi && mm(a).Some? then NONE else old(prot)(a))
      ensures forall a :: mem(a) == (if lo <= a < hi && mm(a).Some? then 0 else old(mem)(a))
    {
      prot := OverlayWhere(prot, lo, hi, mm, NONE);
      mem := OverlayWhere(mem, lo, hi, mm, 0);
    }

    /** A request that the range assertion lets through must be one that libmmap understands. */
    method MapAt(addr: U64, size: U64, p: Prot, ans: Answers) returns (r: MapResult)
      requires g.Valid() && (g.MinAddr() <= addr && Add64(addr, size) <= g.MaxAddr() ==> Plain(g, addr, size))
      modifies this
      ensures g.page > 0 && MapsAt(g, old(State()), State(), addr, size, p, ans, r)
    {
      if addr < g.MinAddr() || Add64(addr, size) > g.MaxAddr() {
        return Aborted;
      }
      if !ans.mm {
        return Refused;
      }
      var end := addr + RoundUp(size, g.page);
      CbUnmap(addr, end);
      mm := Overlay(mm, addr, end, Some(p));
      if !ans.host {
        mm := Overlay(mm, addr, end, None);
        return Refused;
      }
      prot := Overlay(prot, addr, end, p);
      mem := Overlay(mem, addr, end, 0);
      return Mapped(addr);
    }

    method MapAny(size: nat, p: Prot, found: Option<int>, host: bool) returns (r: int)
      requires g.Valid()
      requires found.Some? ==> g.page > 0 && FreePlace(g, State(), found.value, size)
      modifies this
      ensures g.page > 0 && MapsAny(g, old(State()), State(), size, p, found, host, r)
    {
      if found == None {
        return 0;
      }
      var addr, end := found.value, found.value + RoundUp(size, g.page);
      mm := Overlay(mm, addr, end, Some(p));
      if !host {
        mm := Overlay(mm, addr, end, None);
        return WORD - 1;
      }
      prot := Overlay(prot, addr, end, p);
      mem := Overlay(mem, addr, end, 0);
      return addr;
    }

    method Munmap(addr: U64, size: U64, agrees: bool) returns (ok: bool)
      requires g.Valid() && (g.MinAddr() <= addr && Add64(addr, size) < g.MaxAddr() ==> Plain(g, addr, size))
      modifies this
      ensures g.page > 0 && Unmaps(g, old(State()), State(), addr, size, agrees, ok)
    {
      if g.MinAddr() <= addr && Add64(addr, size) < g.MaxAddr() && agrees {
        var end := addr + RoundUp(size, g.page);
        CbUnmap(addr, end);
        mm := Overlay(mm, addr, end, None);
        return true;
      }
      return false;
    }

    /** Changes the host's protection only; libmmap keeps the old record. */
    method Mprotect(addr: int, size: nat, p: Prot, host: bool) returns (r: MapResult)
      requires g.Valid() && 0 <= addr && addr + size < WORD
      modifies this`prot
      ensures g.page > 0
      ensures r == if !InRange(g, addr, size) then Aborted else if host then Mapped(addr) else Refused
      ensures forall a ::
        prot(a) == if r.Mapped? && addr <= a < addr + RoundUp(size, g.page) then p else old(prot)(a)
    {
      if !InRange(g, addr, size) {
        return Aborted;
      }
      if !host {
        return Refused;
      }
      prot := Overlay(prot, addr, addr + RoundUp(size, g.page), p);
      return Mapped(addr);
    }
  }

  // ---------------------------------------------------------------- bookkeeping agrees with the host

  /** Unrecorded pages are inaccessible, recorded pages have the recorded protection, and
      nothing outside the space is recorded. */
  ghost predicate Agreement(g: Geometry, s: Space) {
    && (forall a :: !g.Inside(a) ==> s.mm(a) == None)
    && (forall a :: g.Inside(a) ==> s.prot(a) == if s.mm(a).Some? then s.mm(a).value else NONE)
  }

  /** No page is split: every address agrees with the first address of its page. */
  ghost predicate PageGrained(g: Geometry, s: Space)
    requires g.page > 0
  {
    forall a :: s.mm(a) == s.mm(a - a % g.page) && s.prot(a) == s.prot(a - a % g.page)
  }

  lemma BoundaryKeepsPages(lo: int, a: int, page: int)
    requires page > 0 && lo % page == 0
    ensures lo <= a <==> lo <= a - a % page
  {
    var b := a - a % page;
    assert b == (a / page) * page;
    MultipleOf(a / page, page);
    if b < lo {
      AlignedGap(b, lo, page);
    }
  }

  datatype Op =
    | MapAt(addr: int, size: nat, prot: Prot, ans: Answers)
    | MapAny(size: nat, prot: Prot, found: Option<int>, host: bool)
    | Munmap(addr: int, size: nat, mm: bool)

  /** One call of the address-space layer, with whatever it returns. */
  ghost predicate Step(g: Geometry, s: Space, s': Space, op: Op)
    requires g.page > 0
  {
    match op
    case MapAt(addr, size, p, ans) =>
      addr % g.page == 0 && exists r :: MapsAt(g, s, s', addr, size, p, ans, r)
    case MapAny(size, p, found, host) =>
      && (found.Some? ==> FreePlace(g, s, found.value, size))
      && exists r :: MapsAny(g, s, s', size, p, found, host, r)
    case Munmap(addr, size, mm) =>
      addr % g.page == 0 && exists ok :: Unmaps(g, s, s', addr, size, mm, ok)
  }

  /** Every step changes at most one page-aligned range inside the space, and leaves it
      either freshly mapped, vacated, or as it was. */
  lemma StepShape(g: Geometry, s: Space, s': Space, op: Op) returns (lo: int, hi: int)
    requires g.Valid() && g.page > 0 && Step(g, s, s', op)
    ensures g.MinAddr() <= lo && hi <= g.MaxAddr() && lo % g.page == 0 && hi % g.page == 0
    ensures SameOutside(s, s', lo, hi)
    ensures (exists p :: Fresh(s', lo, hi, p)) || Vacated(s, s', lo, hi) || Same(s, s')
  {
    GeometryFacts(g);
    lo, hi := g.MinAddr(), g.MinAddr();
    match op
    case MapAt(addr, size, p, ans) =>
      if InRange(g, addr, size) && ans.mm {
        lo, hi := addr, addr + RoundUp(size, g.page);
        RangeShape(g, addr, size);
      }
    case MapAny(size, p, found, host) =>
      if found.Some? && host {
        lo, hi := found.value, found.value + RoundUp(size, g.page);
        RangeShape(g, lo, size);
      }
    case Munmap(addr, size, mm) =>
      if mm && InRange(g, addr, size) && addr + size < g.MaxAddr() {
        lo, hi := addr, addr + RoundUp(size, g.page);
        RangeShape(g, addr, size);
      }
  }

  /** Unmapping what was just mapped is refused exactly for a range up to the very top; otherwise it
      leaves the range unrecorded and inaccessible, and everything else as it was before both. */
  lemma UnmapUndoesMap(g: Geometry, s: Space, s1: Space, s2: Space, addr: int, size: nat, p: Prot, ok: bool)
    requires g.Valid() && g.page > 0 && MapsAt(g, s, s1, addr, size, p, Answers(true, true), Mapped(addr))
    requires Unmaps(g, s1, s2, addr, size, true, ok)
    ensures g.base + 81920 + g.page <= addr && addr + size <= g.base + 0x1_0000_0000 - 81920
    ensures forall a :: addr <= a < addr + size ==> s1.At(a) == Cell(Some(p), p, 0)
    ensures ok <==> addr + size < g.base + 0x1_0000_0000 - 81920
    ensures ok ==> forall a :: addr <= a < addr + size ==> s2.At(a) == Cell(None, NONE, 0)
    ensures forall a :: a < addr || a >= addr + size + g.page ==> s2.At(a) == s1.At(a) == s.At(a)
    ensures !ok ==> forall a :: s2.At(a) == s1.At(a)
  {
    RoundUpBounds(size, g.page);
  }

  lemma RangeShape(g: Geometry, addr: int, size: nat)
    requires g.Valid() && g.page > 0 && addr % g.page == 0 && InRange(g, addr, size)
    ensures addr + RoundUp(size, g.page) <= g.MaxAddr()
    ensures (addr + RoundUp(size, g.page)) % g.page == 0
  {
    GeometryFacts(g);
    RoundUpFits(addr, size, g.MaxAddr(), g.page);
    RoundUpBounds(size, g.page);
    AlignedSum(addr, RoundUp(size, g.page), g.page);
  }

  lemma StepKeepsAgreement(g: Geometry, s: Space, s': Space, op: Op)
    requires g.Valid() && g.page > 0 && Step(g, s, s', op)
    requires Agreement(g, s) && PageGrained(g, s)
    ensures Agreement(g, s') && PageGrained(g, s')
    ensures SameOutside(s, s', g.MinAddr(), g.MaxAddr())
  {
    var lo, hi := StepShape(g, s, s', op);
    forall a
      ensures s'.mm(a) == s'.mm(a - a % g.page) && s'.prot(a) == s'.prot(a - a % g.page)
    {
      BoundaryKeepsPages(lo, a, g.page);
      BoundaryKeepsPages(hi, a, g.page);
    }
  }

  ghost predicate IsRun(g: Geometry, run: seq<Space>, ops: seq<Op>)
    requires g.page > 0
  {
    && |run| == |ops| + 1
    && forall i :: 0 <= i < |ops| ==> Step(g, run[i], run[i + 1], ops[i])
  }

  /** Over every run of mapat, mapany and munmap, with libmmap and the host refusing at any
      point, bookkeeping and host pages agree and nothing outside the space is touched. */
  lemma {:induction false} RunKeepsAgreement(g: Geometry, run: seq<Space>, ops: seq<Op>, i: nat)
    requires g.Valid() && g.page > 0 && IsRun(g, run, ops) && i <= |ops|
    requires Agreement(g, run[0]) && PageGrained(g, run[0])
    ensures Agreement(g, run[i]) && PageGrained(g, run[i])
    ensures SameOutside(run[0], run[i], g.MinAddr(), g.MaxAddr())
  {
    hide Geometry.Valid, Step, Agreement, PageGrained;
    if i > 0 {
      RunKeepsAgreement(g, run, ops, i - 1);
      StepKeepsAgreement(g, run[i - 1], run[i], ops[i - 1]);
    }
  }

  // ---------------------------------------------------------------- recorded and accessible

  /** No page is recorded as inaccessible. */
  ghost predicate NoneReserved(s: Space) {
    forall a :: s.mm(a) != Some(NONE)
  }

  ghost predicate RecordedIsAccessible(g: Geometry, s: Space) {
    forall a :: g.Inside(a) ==> (s.mm(a).Some? <==> s.prot(a) != NONE)
  }

  /** A page is recorded exactly when it is accessible, if and only if no page is recorded as
      inaccessible: the host cannot tell such a page from one that was never mapped. */
  lemma RecordedIffAccessible(g: Geometry, s: Space)
    requires Agreement(g, s)
    ensures RecordedIsAccessible(g, s) <==> NoneReserved(s)
  {
    if RecordedIsAccessible(g, s) {
      forall a ensures s.mm(a) != Some(NONE) {
        assert g.Inside(a) ==> (s.mm(a).Some? <==> s.prot(a) != NONE);
      }
    }
  }

  predicate Reserves(op: Op) {
    !op.Munmap? && op.prot == NONE
  }

  /** Over every run without a request for inaccessible pages, a page is recorded exactly when it
      is accessible. */
  lemma {:induction false} RunKeepsAccess(g: Geometry, run: seq<Space>, ops: seq<Op>, i: nat)
    requires g.Valid() && g.page > 0 && IsRun(g, run, ops) && i <= |ops|
    requires Agreement(g, run[0]) && PageGrained(g, run[0]) && NoneReserved(run[0])
    requires forall j :: 0 <= j < i ==> !Reserves(ops[j])
    ensures NoneReserved(run[i]) && RecordedIsAccessible(g, run[i])
  {
    if i > 0 {
      RunKeepsAccess(g, run, ops, i - 1);
      StepReserves(g, run[i - 1], run[i], ops[i - 1]);
    }
    RunKeepsAgreement(g, run, ops, i);
    RecordedIffAccessible(g, run[i]);
  }

  lemma StepReserves(g: Geometry, s: Space, s': Space, op: Op)
    requires g.page > 0 && Step(g, s, s', op) && NoneReserved(s) && !Reserves(op)
    ensures NoneReserved(s')
  {
    hide RoundUp, InRange;
    forall a ensures s'.mm(a) != Some(NONE) {
      assert s.mm(a) != Some(NONE);
    }
  }
}
