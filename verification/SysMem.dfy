/** The memory calls of src/syscalls/sys_mem.c over the page-grained mapping layer. */
module SysMem {
  import opened Align
  import opened Bytes
  import opened AddressSpace
  import opened Wrappers
  import opened Process
  import Elf
  import Loader
  import Stack

  datatype BrkResult = Returned(brk: int) | Refusal | Assertion

  /** The break as a byte count above its base, and the memory it lives in. */
  datatype BrkState = BrkState(size: nat, space: Space)

  datatype Request = Request(addr: U64, ans: Answers)

  /** Where a request asks the break to be; zero asks for the present break. */
  function Target(base: int, size: nat, addr: U64): (t: int)
    ensures t >= base
  {
    var want := if addr == 0 then base + size else addr;
    if want < base then base else want
  }

  /** One call: at or above the limit it asserts; shrinking only moves the break; growing maps
      whole pages from the rounded old break, as many bytes as the break grows by. */
  ghost predicate BrkStep(g: Geometry, base: int, st: BrkState, st': BrkState, req: Request, r: BrkResult)
    requires g.page > 0
  {
    var target := Target(base, st.size, req.addr);
    if target >= base + BRKMAX then r == Assertion && st' == st
    else if target <= base + st.size then
      r == Returned(target) && st'.size == target - base && Same(st.space, st'.space)
    else GrowStep(g, base, st, st', target - base, req.ans, r)
  }

  /** What the mapping layer returned, as the caller reports it. */
  function Reported(r: BrkResult, start: int): MapResult {
    match r
    case Returned(_) => Mapped(start)
    case Refusal => Refused
    case Assertion => Aborted
  }

  ghost predicate GrowStep(g: Geometry, base: int, st: BrkState, st': BrkState, size: nat, ans: Answers, r: BrkResult)
    requires g.page > 0 && size > st.size
  {
    var start := base + RoundUp(st.size, g.page);
    && MapsAt(g, st.space, st'.space, start, size - st.size, RW, ans, Reported(r, start))
    && if r.Returned? then r.brk == base + size && st'.size == size else st'.size == st.size
  }

  /** The reserve and one page above it lie in the space, and every page below the rounded
      break is mapped read-write. */
  ghost predicate BrkInv(g: Geometry, base: int, st: BrkState) {
    && g.Valid() && g.page > 0
    && base % g.page == 0 && g.MinAddr() <= base && base + BRKMAX + g.page <= g.MaxAddr()
    && st.size < BRKMAX
    && forall a :: base <= a < base + RoundUp(st.size, g.page) ==> st.space.mm(a) == Some(RW) && st.space.prot(a) == RW
  }

  /** Rounding the base plus the break with masks is rounding the break. */
  lemma NextPage(g: Geometry, base: int, size: nat)
    requires g.Valid() && g.page > 0 && base % g.page == 0 && 0 <= base && base + size + g.page < WORD
    ensures Ceilp(base + size, g.page) == base + RoundUp(size, g.page)
  {
    hide Ceilp, RoundUp, IsPow2;
    GeometryFacts(g);
    RoundUpBounds(size, g.page);
    AlignedSum(base, RoundUp(size, g.page), g.page);
    PowerOfTwoRounding(base + size, g.page);
    CeilpIsLeast(base + size, g.page, base + RoundUp(size, g.page));
    if Ceilp(base + size, g.page) < base + RoundUp(size, g.page) {
      AlignedGap(Ceilp(base + size, g.page), base + RoundUp(size, g.page), g.page);
    }
  }

  ghost function StateOf(p: TuxProc): BrkState
    reads p, p.vm
    requires p.brksize >= 0
  {
    BrkState(p.brksize, p.vm.State())
  }

  lemma GrowFacts(g: Geometry, base: int, size: nat, newsize: nat)
    requires g.Valid() && g.page > 0 && base % g.page == 0 && size <= newsize
    requires g.MinAddr() <= base && base + newsize + g.page <= g.MaxAddr()
    ensures 0 <= g.page < WORD && 0 <= base && base + newsize + g.page < WORD
    ensures size == 0 ==> RoundUp(size, g.page) == 0
    ensures Ceilp(base + size, g.page) == base + RoundUp(size, g.page)
    ensures (base + RoundUp(size, g.page)) % g.page == 0
    ensures size <= RoundUp(size, g.page) < size + g.page
  {
    GeometryFacts(g);
    NextPage(g, base, size);
    RoundUpBounds(size, g.page);
    AlignedSum(base, RoundUp(size, g.page), g.page);
    MultipleOf(0, g.page);
  }

  /** The growing branch, with its separate case for an empty region. */
  method Grow(p: TuxProc, newsize: nat, ans: Answers) returns (r: BrkResult)
    requires p.brksize >= 0 && BrkInv(p.vm.g, p.brkbase, StateOf(p)) && p.brksize < newsize < BRKMAX
    modifies p`brksize, p.vm
    ensures p.brksize >= 0
    ensures GrowStep(p.vm.g, p.brkbase, old(StateOf(p)), StateOf(p), newsize, ans, r)
  {
    hide Geometry.Valid, MapsAt, RoundUp, Ceilp;
    GrowFacts(p.vm.g, p.brkbase, p.brksize, newsize);
    var m;
    if p.brksize == 0 {
      m := p.vm.MapAt(p.brkbase, newsize, RW, ans);
    } else {
      var next := Ceilp(p.brkbase + p.brksize, p.vm.g.page);
      m := p.vm.MapAt(next, newsize - p.brksize, RW, ans);
    }
    match m
    case Mapped(_) =>
      p.brksize := newsize;
      return Returned(p.brkbase + newsize);
    case Refused => return Refusal;
    case Aborted => return Assertion;
  }

  method SysBrk(p: TuxProc, addr: U64, ans: Answers) returns (r: BrkResult)
    requires p.brksize >= 0 && BrkInv(p.vm.g, p.brkbase, StateOf(p))
    modifies p`brksize, p.vm
    ensures p.brksize >= 0
    ensures BrkStep(p.vm.g, p.brkbase, old(StateOf(p)), StateOf(p), Request(addr, ans), r)
    ensures BrkAnswer(p.brkbase, old(StateOf(p)), StateOf(p), Request(addr, ans), r)
  {
    hide IsPow2, GrowStep, BrkAnswer;
    ghost var st := StateOf(p);
    var brkp := p.brkbase + p.brksize;
    if addr != 0 {
      brkp := addr;
    }
    if brkp < p.brkbase {
      brkp := p.brkbase;
    }
    if brkp >= p.brkbase + BRKMAX {
      // The clamp to the limit is followed by an assertion that excludes the limit.
      BrkAnswers(p.vm.g, p.brkbase, st, StateOf(p), Request(addr, ans), Assertion);
      return Assertion;
    }
    var newsize := brkp - p.brkbase;
    if newsize == p.brksize {
      BrkAnswers(p.vm.g, p.brkbase, st, StateOf(p), Request(addr, ans), Returned(brkp));
      return Returned(brkp);
    }
    if brkp >= p.brkbase + p.brksize {
      r := Grow(p, newsize, ans);
      BrkAnswers(p.vm.g, p.brkbase, st, StateOf(p), Request(addr, ans), r);
      return;
    }
    p.brksize := newsize;
    BrkAnswers(p.vm.g, p.brkbase, st, StateOf(p), Request(addr, ans), Returned(p.brkbase + p.brksize));
    return Returned(p.brkbase + p.brksize);
  }

  /** What a caller is told, case by case: zero asks for the break; below the region gives the empty
      region; 512 MiB or more asserts; anything else is the new break, unless more memory is needed
      and refused. */
  ghost predicate BrkAnswer(base: int, st: BrkState, st': BrkState, req: Request, r: BrkResult) {
    var addr, top := req.addr, base + st.size;
    && (r == Assertion <==> addr >= base + 0x2000_0000)
    && (r == Assertion ==> st' == st)
    && (addr == 0 ==> r == Returned(top) && st'.size == st.size && Same(st.space, st'.space))
    && (0 < addr < base ==> r == Returned(base) && st'.size == 0 && Same(st.space, st'.space))
    && (base <= addr <= top ==> r == Returned(addr) && st'.size == addr - base && Same(st.space, st'.space))
    && (top < addr < base + 0x2000_0000 ==>
      if req.ans.mm && req.ans.host then r == Returned(addr) && st'.size == addr - base
      else r == Refusal && st'.size == st.size)
  }

  lemma BrkAnswers(g: Geometry, base: int, st: BrkState, st': BrkState, req: Request, r: BrkResult)
    requires BrkInv(g, base, st) && BrkStep(g, base, st, st', req, r)
    ensures BrkAnswer(base, st, st', req, r)
  {
    StepKeepsBrk(g, base, st, st', req, r);
    GeometryFacts(g);
    hide RoundUp, Fresh, Vacated, SameOutside;
  }

  // ---------------------------------------------------------------- what every call keeps

  /** Growth maps whole pages from the rounded old break to at least the rounded new one, and at
      most one page further. */
  lemma GrowthRange(g: Geometry, base: int, before: nat, after: nat)
    requires g.Valid() && g.page > 0 && base % g.page == 0 && before < after
    ensures
      var start, len := base + RoundUp(before, g.page), RoundUp(after - before, g.page);
      && start % g.page == 0 && (start + len) % g.page == 0
      && base + before <= start
      && base + RoundUp(after, g.page) <= start + len <= base + RoundUp(after, g.page) + g.page
  {
    var page := g.page;
    RoundUpBounds(before, page);
    RoundUpBounds(after - before, page);
    RoundUpBounds(after, page);
    var sum := RoundUp(before, page) + RoundUp(after - before, page);
    AlignedSum(base, RoundUp(before, page), page);
    AlignedSum(RoundUp(before, page), RoundUp(after - before, page), page);
    AlignedSum(base, sum, page);
    AlignedSum(RoundUp(after, page), page, page);
    MultipleOf(1, page);
    AlignedSum(RoundUp(after, page), page, page);
    if sum < RoundUp(after, page) {
      AlignedGap(sum, RoundUp(after, page), page);
    }
    if RoundUp(after, page) + page < sum {
      AlignedGap(RoundUp(after, page) + page, sum, page);
    }
  }

  lemma LimitAligned(g: Geometry, base: int, size: nat)
    requires g.Valid() && g.page > 0 && base % g.page == 0 && size < BRKMAX
    ensures RoundUp(size, g.page) <= BRKMAX
  {
    RegionFacts(g);
    MultipleOf(0, g.page);
    RoundUpFits(0, size, BRKMAX, g.page);
  }

  /** Every call keeps the region covered, touches nothing but the reserve and one page above
      it, and never trips the mapping layer's range assertion. */
  lemma StepKeepsBrk(g: Geometry, base: int, st: BrkState, st': BrkState, req: Request, r: BrkResult)
    requires BrkInv(g, base, st) && BrkStep(g, base, st, st', req, r)
    ensures BrkInv(g, base, st')
    ensures SameOutside(st.space, st'.space, base, base + BRKMAX + g.page)
    ensures r == Assertion <==> Target(base, st.size, req.addr) >= base + BRKMAX
    ensures r.Returned? ==> r.brk == Target(base, st.size, req.addr) == base + st'.size
  {
    hide Geometry.Valid, RoundUp;
    var target := Target(base, st.size, req.addr);
    if target < base + BRKMAX {
      LimitAligned(g, base, target - base);
      if target > base + st.size {
        GrowthRange(g, base, st.size, target - base);
        RoundUpBounds(target - base - st.size, g.page);
      } else {
        Shrinks(target - base, st.size, g.page);
      }
    }
  }

  lemma Shrinks(a: nat, b: nat, page: int)
    requires page > 0 && a <= b
    ensures RoundUp(a, page) <= RoundUp(b, page)
  {
    RoundUpBounds(a, page);
    RoundUpBounds(b, page);
    if RoundUp(b, page) < RoundUp(a, page) {
      AlignedGap(RoundUp(b, page), RoundUp(a, page), page);
    }
  }

  /** Growth keeps every byte below the old break's page end, and hands out zeroes above it. */
  lemma GrowthPreserves(g: Geometry, base: int, st: BrkState, st': BrkState, req: Request, r: BrkResult)
    requires BrkInv(g, base, st) && BrkStep(g, base, st, st', req, r)
    ensures forall a :: a < base + RoundUp(st.size, g.page) ==> st'.space.mem(a) == st.space.mem(a)
    ensures r.Returned? ==>
      forall a :: base + RoundUp(st.size, g.page) <= a < base + st'.size ==> st'.space.mem(a) == 0
  {
    var target := Target(base, st.size, req.addr);
    RoundUpBounds(st.size, g.page);
    if base + st.size < target < base + BRKMAX {
      GrowthRange(g, base, st.size, target - base);
      RoundUpBounds(target - base, g.page);
    }
  }

  ghost predicate IsBrkRun(g: Geometry, base: int, run: seq<BrkState>, reqs: seq<Request>, rs: seq<BrkResult>)
    requires g.page > 0
  {
    && |run| == |reqs| + 1 && |rs| == |reqs|
    && forall i :: 0 <= i < |reqs| ==> BrkStep(g, base, run[i], run[i + 1], reqs[i], rs[i])
  }

  /** Over every run of requests, whatever libmmap and the host answer: each byte below the
      break is mapped read-write, at most one page past the reserve is ever touched, and bytes
      that stay below the break all along keep their values. */
  lemma {:induction false} BrkRun(g: Geometry, base: int, run: seq<BrkState>, reqs: seq<Request>, rs: seq<BrkResult>, i: nat, keep: nat)
    requires g.page > 0 && IsBrkRun(g, base, run, reqs, rs) && i <= |reqs| && BrkInv(g, base, run[0])
    requires forall j :: 0 <= j < i ==> keep <= run[j].size
    ensures BrkInv(g, base, run[i])
    ensures forall a :: base <= a < base + run[i].size ==> run[i].space.mm(a) == Some(RW) && run[i].space.prot(a) == RW
    ensures SameOutside(run[0].space, run[i].space, base, base + BRKMAX + g.page)
    ensures forall a :: base <= a < base + keep ==> run[i].space.mem(a) == run[0].space.mem(a)
  {
    hide BrkStep, IsPow2;
    if i > 0 {
      BrkRun(g, base, run, reqs, rs, i - 1, keep);
      StepKeepsBrk(g, base, run[i - 1], run[i], reqs[i - 1], rs[i - 1]);
      GrowthPreserves(g, base, run[i - 1], run[i], reqs[i - 1], rs[i - 1]);
      RoundUpBounds(run[i - 1].size, g.page);
    }
    RoundUpBounds(run[i].size, g.page);
  }

  // ---------------------------------------------------------------- overshoot

  /** Growth maps a page that the new break does not need exactly when the old break and the
      increment both end inside a page and their remainders fit into one. */
  lemma OvershootIff(page: int, before: nat, inc: nat)
    requires page > 0
    ensures
      RoundUp(before, page) + RoundUp(inc, page) > RoundUp(before + inc, page) <==>
      before % page != 0 && inc % page != 0 && before % page + inc % page <= page
  {
    var q, r, q', r' := before / page, before % page, inc / page, inc % page;
    assert before == q * page + r && inc == q' * page + r';
    assert before + inc == (q + q') * page + (r + r');
    if r + r' < page {
      Remainder(before + inc, page, q + q', r + r');
    } else {
      assert before + inc == (q + q' + 1) * page + (r + r' - page);
      Remainder(before + inc, page, q + q' + 1, r + r' - page);
    }
  }

  /** A granted growth maps the page above the reserve exactly when the rounded old break and the
      rounded increment together exceed the reserve; otherwise it stays inside the reserve. */
  lemma PastReserveIff(g: Geometry, base: int, st: BrkState, st': BrkState, req: Request, r: BrkResult)
    requires BrkInv(g, base, st) && BrkStep(g, base, st, st', req, r)
    requires r.Returned? && Target(base, st.size, req.addr) > base + st.size
    ensures
      if RoundUp(st.size, g.page) + RoundUp(st'.size - st.size, g.page) > BRKMAX then
        Fresh(st'.space, base + BRKMAX, base + BRKMAX + g.page, RW)
      else SameOutside(st.space, st'.space, base, base + BRKMAX)
  {
    var size := Target(base, st.size, req.addr) - base;
    LimitAligned(g, base, st.size);
    LimitAligned(g, base, size);
    RegionFacts(g);
    GrowthRange(g, 0, st.size, size);
    MultipleOf(0, g.page);
    var end := RoundUp(st.size, g.page) + RoundUp(size - st.size, g.page);
    if end > BRKMAX {
      AlignedGap(BRKMAX, end, g.page);
    }
  }

  /** It does happen: growing from 4095 bytes below the limit by 4094, with 4 KiB pages. */
  lemma ReserveOverrun(g: Geometry, base: int, st: BrkState, st': BrkState, r: BrkResult)
    requires BrkInv(g, base, st) && g.page == 4096 && st.size == BRKMAX - 4095 && 0 < base + BRKMAX - 1 < WORD
    requires BrkStep(g, base, st, st', Request(base + BRKMAX - 1, Answers(true, true)), r)
    ensures r.Returned? && st'.space.mm(base + BRKMAX) == Some(RW)
  {
    LimitAligned(g, base, st.size);
    assert RoundUp(BRKMAX - 4095, 4096) == BRKMAX && RoundUp(4094, 4096) == 4096;
    StepKeepsBrk(g, base, st, st', Request(base + BRKMAX - 1, Answers(true, true)), r);
    PastReserveIff(g, base, st, st', Request(base + BRKMAX - 1, Answers(true, true)), r);
  }

  /** A process that has just been set up starts with a valid, empty break. */
  lemma SetupEstablishesBrk(g: Geometry, f: seq<byte>, interp: Option<seq<byte>>, info: Stack.LoadInfo, s: Space)
    requires g.Valid() && g.page > 0 && Elf.HasTable(f) && (interp.Some? ==> Elf.HasTable(interp.value))
    requires Layout(g, f, interp, info) && info.lastva % g.page == 0
    ensures BrkInv(g, info.lastva, BrkState(0, s))
  {
    hide Elf.Lowest, Elf.Highest, Elf.ReadEhdr, Elf.Phdrs;
    GeometryFacts(g);
    GrowFacts(g, info.lastva, 0, 0);
  }

  /** The images that setup placed survive every run of brk calls. */
  lemma ImagesSurviveBrk(g: Geometry, f: seq<byte>, interp: Option<seq<byte>>, info: Stack.LoadInfo, s0: Space,
                         run: seq<BrkState>, reqs: seq<Request>, rs: seq<BrkResult>, i: nat)
    requires g.Valid() && g.page > 0 && Elf.HasTable(f) && (interp.Some? ==> Elf.HasTable(interp.value))
    requires Layout(g, f, interp, info) && info.lastva % g.page == 0
    requires IsBrkRun(g, info.lastva, run, reqs, rs) && i <= |reqs| && run[0].size == 0
    requires ImagesInPlace(g, f, interp, s0, run[0].space)
    ensures ImagesInPlace(g, f, interp, s0, run[i].space)
  {
    hide Elf.Lowest, Elf.ReadEhdr, Elf.Phdrs, BrkStep, InPlace, End, Elf.HasTable, Geometry.Valid;
    SetupEstablishesBrk(g, f, interp, info, run[0].space);
    BrkRun(g, info.lastva, run, reqs, rs, i, 0);
    var lo, hi := info.lastva, info.lastva + BRKMAX + g.page;
    InPlaceKept(g, Loader.Parse(f), g.MinAddr(), s0, run[0].space, run[i].space, lo, hi);
    if interp.Some? {
      InPlaceKept(g, Loader.Parse(interp.value), End(g, Loader.Parse(f), g.MinAddr()), s0, run[0].space, run[i].space, lo, hi);
    }
  }

  /** So does the initial stack: it reads back after every run exactly as it did at the start. */
  lemma StartSurvivesBrk(g: Geometry, f: seq<byte>, interp: Option<seq<byte>>, info: Stack.LoadInfo, argv: seq<seq<byte>>,
                         sp: int, run: seq<BrkState>, reqs: seq<Request>, rs: seq<BrkResult>, i: nat)
    requires g.Valid() && g.page > 0 && Elf.HasTable(f) && (interp.Some? ==> Elf.HasTable(interp.value))
    requires Layout(g, f, interp, info) && info.lastva % g.page == 0
    requires IsBrkRun(g, info.lastva, run, reqs, rs) && i <= |reqs| && run[0].size == 0
    requires Stack.NoNuls(argv) && |argv| <= Stack.ARGC_TOP && StackReads(g, argv, info, run[0].space.mem, sp)
    ensures forall a :: info.stack <= a < g.MaxAddr() ==> run[i].space.At(a) == run[0].space.At(a)
    ensures StackReads(g, argv, info, run[i].space.mem, sp)
  {
    hide Elf.Lowest, Elf.ReadEhdr, Elf.Phdrs, BrkStep, End, Elf.HasTable, Geometry.Valid, StackReads;
    GeometryFacts(g);
    SetupEstablishesBrk(g, f, interp, info, run[0].space);
    BrkRun(g, info.lastva, run, reqs, rs, i, 0);
    StackReadsKept(g, argv, info, run[0].space.mem, run[i].space.mem, sp);
  }

  // ---------------------------------------------------------------- mmap

  const EINVAL := 22

  datatype MmapCall = MmapCall(addr: U64, length: U64, prot: Prot, fixed: bool, legal: bool)

  datatype MmapResult = Value(v: int) | Killed

  /** An anonymous sys_mmap. When libmmap finds no place for a call without a fixed address, the
      caller is told success at address zero, although nothing was mapped. */
  method SysMmap(p: TuxProc, c: MmapCall, ans: Answers, found: Option<int>) returns (r: MmapResult)
    requires p.vm.g.Valid() && p.vm.g.page > 0 && 0 < p.vm.g.page < WORD
    requires c.length + p.vm.g.page < WORD
    requires
      var at, size := Truncp(c.addr, p.vm.g.page), Ceilp(c.length, p.vm.g.page);
      c.fixed && p.vm.g.MinAddr() <= at && Add64(at, size) <= p.vm.g.MaxAddr() ==> at + size < WORD
    requires found.Some? ==> FreePlace(p.vm.g, p.vm.State(), found.value, Ceilp(c.length, p.vm.g.page))
    modifies p.vm
    ensures c.length == 0 || !c.legal ==> r == Value(-22) && Same(old(p.vm.State()), p.vm.State())
    ensures c.length > 0 && c.legal && !c.fixed ==>
      && r.Value?
      && (r.v > 0 <==> found.Some? && ans.host)
      && (r.v == 0 <==> found.None?)
      && (r.v > 0 ==>
        var end := r.v + Ceilp(c.length, p.vm.g.page);
        && r.v == found.value && Fresh(p.vm.State(), r.v, end, c.prot)
        && SameOutside(old(p.vm.State()), p.vm.State(), r.v, end))
      && (r.v <= 0 ==> Same(old(p.vm.State()), p.vm.State()))
    ensures c.length > 0 && c.legal && c.fixed ==>
      var at, size := Truncp(c.addr, p.vm.g.page), Ceilp(c.length, p.vm.g.page);
      && (r == Killed <==> !InRange(p.vm.g, at, size))
      && (r == Value(at) <==> InRange(p.vm.g, at, size) && ans.mm && ans.host)
      && (r == Value(at) ==> Fresh(p.vm.State(), at, at + size, c.prot))
      && (r == Killed ==> Same(old(p.vm.State()), p.vm.State()))
      // If the host refuses after libmmap agreed, what was mapped there is already gone.
      && (InRange(p.vm.g, at, size) && !(ans.mm && ans.host) ==>
        && r == Value(-22)
        && if ans.mm then Vacated(old(p.vm.State()), p.vm.State(), at, at + size) else Same(old(p.vm.State()), p.vm.State()))
      && SameOutside(old(p.vm.State()), p.vm.State(), at, at + size)
  {
    hide IsPow2, Truncp, Ceilp, RoundUp;
    if c.length == 0 {
      return Value(-EINVAL);
    }
    MmapFacts(p.vm.g, c.addr, c.length);
    var length := Ceilp(c.length, p.vm.g.page);
    if !c.legal {
      return Value(-EINVAL);
    }
    if c.fixed {
      var at := Truncp(c.addr, p.vm.g.page);
      var m := p.vm.MapAt(at, length, c.prot, ans);
      return match m case Mapped(_) => Value(at) case Refused => Value(-EINVAL) case Aborted => Killed;
    }
    var a := p.vm.MapAny(length, c.prot, found, ans.host);
    if a == WORD - 1 {
      return Value(-EINVAL);
    }
    return Value(a);
  }

  lemma MmapFacts(g: Geometry, addr: U64, length: U64)
    requires g.Valid() && 0 < g.page < WORD && length + g.page < WORD
    ensures VMSIZE < g.MinAddr() && g.MaxAddr() < WORD - 1
    ensures Truncp(addr, g.page) % g.page == 0
    ensures length <= Ceilp(length, g.page) < length + g.page
    ensures RoundUp(Ceilp(length, g.page), g.page) == Ceilp(length, g.page)
  {
    GeometryFacts(g);
    MultipleOf(1, g.page);
    RoundsToPages(addr, g.page, g.page);
    PowerOfTwoRounding(length, g.page);
  }
}
