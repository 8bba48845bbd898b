/** Building a process image: lfi_proc_loadelf of src/elfload.c and procsetup of src/proc.c. */
module Process {
  import opened Align
  import opened Bytes
  import opened AddressSpace
  import opened Wrappers
  import opened Elf
  import opened Loader
  import opened Stack

  const MB := 1024 * 1024
  const STACKSIZE := 2 * MB
  const BRKMAX := 512 * MB

  lemma RegionFacts(g: Geometry)
    requires g.Valid()
    ensures g.page > 0 && STACKSIZE % g.page == 0 && BRKMAX % g.page == 0
    ensures (g.MaxAddr() - STACKSIZE) % g.page == 0
  {
    hide Pow2;
    GeometryFacts(g);
    PageDivides16K(g.page);
    MultipleTrans(STACKSIZE, 16 * KB, g.page);
    MultipleTrans(BRKMAX, 16 * KB, g.page);
    AlignedSum(g.MaxAddr(), STACKSIZE, g.page);
  }

  lemma PageDivides16K(page: int)
    requires IsPow2(page) && 0 < page <= 16 * KB
    ensures 16 * KB % page == 0
  {
    var k: nat :| page == Pow2(k);
    Powers();
    hide Pow2;
    if k > 14 {
      PowMono(14, k);
    }
    PowAdd(14 - k, k);
    MultipleOf(Pow2(14 - k), page);
  }

  /** The range taken by a loaded program that has loadable segments. */
  lemma LoadedRange(g: Geometry, prog: Program, base: U64)
    requires g.Valid() && g.page > 0 && GoodBase(g, base) && base != 0 && 0 <= g.base < WORD
    requires AllAccepted(g, prog, base)
    ensures
      var low, high := Lowest(prog.headers, |prog.headers|, prog.Bias(g, base)), Highest(prog.headers, |prog.headers|, prog.Bias(g, base));
      if HasLoadable(prog.headers) then base <= low < high < base + GB && high % g.page == 0
      else low == 0 && high == 0
  {
    hide Truncp, Ceilp, IsPow2;
    GeometryFacts(g);
    var bias := prog.Bias(g, base);
    var i := LowestIsLeast(prog.headers, |prog.headers|, bias);
    var j := HighestIsGreatest(prog.headers, |prog.headers|, bias);
    if i < |prog.headers| {
      Placement(g, base, prog, prog.headers[i]);
      Placement(g, base, prog, prog.headers[j]);
    }
  }

  // ---------------------------------------------------------------- placing program and interpreter

  datatype SetupEnv = SetupEnv(stack: Answers, prog: LoadEnv, interp: LoadEnv, brk: Answers)

  datatype ElfResult = Placed(info: LoadInfo) | NotPlaced | Crash | Stray

  function End(g: Geometry, prog: Program, base: int): int {
    Highest(prog.headers, |prog.headers|, prog.Bias(g, base))
  }

  /** From its base to its end, memory holds the program's image, and nothing else changed there. */
  ghost predicate InPlace(g: Geometry, prog: Program, base: int, s0: Space, s: Space) {
    forall a :: base <= a < End(g, prog, base) ==>
      s.At(a) == Laid(prog.file, prog.headers, |prog.headers|, prog.Bias(g, base), s0, a)
  }

  /** Only the cell at a matters for what is laid there. */
  lemma {:induction false} LaidAgrees(f: seq<byte>, ps: seq<Phdr>, n: nat, bias: int, s0: Space, s1: Space, a: int)
    requires n <= |ps| && s0.At(a) == s1.At(a)
    ensures Laid(f, ps, n, bias, s0, a) == Laid(f, ps, n, bias, s1, a)
  {
    hide SegStart, SegEnd, SegCell;
    if n > 0 {
      LaidAgrees(f, ps, n - 1, bias, s0, s1, a);
    }
  }

  lemma AboveUnchanged(g: Geometry, prog: Program, base: U64, s0: Space, a: int)
    requires prog.Bias(g, base) > 0 && End(g, prog, base) <= a
    ensures Laid(prog.file, prog.headers, |prog.headers|, prog.Bias(g, base), s0, a) == s0.At(a)
  {
    hide SegStart, SegEnd, SegCell, Laid;
    var j := HighestIsGreatest(prog.headers, |prog.headers|, prog.Bias(g, base));
    UncoveredUnchanged(prog.file, prog.headers, |prog.headers|, prog.Bias(g, base), s0, a);
  }

  lemma InPlaceKept(g: Geometry, prog: Program, base: int, s0: Space, s: Space, s': Space, lo: int, hi: int)
    requires InPlace(g, prog, base, s0, s) && SameOutside(s, s', lo, hi)
    requires End(g, prog, base) <= lo || hi <= base
    ensures InPlace(g, prog, base, s0, s')
  {
    hide Laid, Highest;
  }

  /** Loading at base, over a state that agrees with s0 above it. */
  method LoadAt(vm: AddrSpace, f: seq<byte>, base: U64, env: LoadEnv, ghost s0: Space) returns (r: LoadResult)
    requires vm.g.Valid() && vm.g.page > 0 && GoodBase(vm.g, base) && |f| < WORD
    requires forall a :: base <= a < base + GB ==> vm.State().At(a) == s0.At(a)
    modifies vm
    ensures 0 <= vm.g.base < WORD
    ensures SameOutside(old(vm.State()), vm.State(), base, Reach(base))
    ensures base != 0 ==> !r.Died?
    ensures r.Loaded? <==> Succeeds(vm.g, f, base, env)
    ensures r.Strayed? <==> LoadStrays(vm.g, f, base, env)
    ensures r.Loaded? ==>
      && HasTable(f)
      && r.first == Lowest(Phdrs(f), |Phdrs(f)|, Parse(f).Bias(vm.g, base)) && r.last == End(vm.g, Parse(f), base)
      && 0 <= r.entry == Parse(f).Bias(vm.g, base) + ReadEhdr(f).entry < WORD
      && (base != 0 ==> InPlace(vm.g, Parse(f), base, s0, vm.State()))
      && (base != 0 ==> forall a :: r.last <= a < base + GB && base <= a ==> vm.State().At(a) == s0.At(a))
      && (base != 0 && HasLoadable(Phdrs(f)) ==> base <= r.first < r.last < base + GB && r.last % vm.g.page == 0)
      && (!HasLoadable(Phdrs(f)) ==> r.first == 0 && r.last == 0)
  {
    GeometryFacts(vm.g);
    ghost var s1 := vm.State();
    r := Load(vm, f, base, env);
    if r.Loaded? {
      ghost var prog := Parse(f);
      if base != 0 {
        LoadedRange(vm.g, prog, base);
        Above(vm.g, prog, base, s0, s1, vm.State());
      } else {
        NoneLoadable(prog, prog.Bias(vm.g, base));
      }
    }
  }

  lemma {:induction false} NoneBefore(ps: seq<Phdr>, n: nat, bias: int)
    requires n <= |ps| && !HasLoadable(ps)
    ensures Lowest(ps, n, bias) == 0 && Highest(ps, n, bias) == 0
  {
    hide SegStart, SegEnd;
    if n > 0 {
      NoneBefore(ps, n - 1, bias);
    }
  }

  lemma NoneLoadable(prog: Program, bias: int)
    requires !HasLoadable(prog.headers)
    ensures Lowest(prog.headers, |prog.headers|, bias) == 0 && Highest(prog.headers, |prog.headers|, bias) == 0
  {
    NoneBefore(prog.headers, |prog.headers|, bias);
  }

  lemma Above(g: Geometry, prog: Program, base: U64, s0: Space, s1: Space, s: Space)
    requires prog.Bias(g, base) > 0
    requires Image(prog.file, prog.headers, |prog.headers|, prog.Bias(g, base), s1, s)
    requires forall a :: base <= a < base + GB ==> s1.At(a) == s0.At(a)
    requires End(g, prog, base) <= base + GB
    ensures InPlace(g, prog, base, s0, s)
    ensures forall a :: End(g, prog, base) <= a < base + GB && base <= a ==> s.At(a) == s0.At(a)
  {
    hide Laid, Lowest, Highest;
    var bias := prog.Bias(g, base);
    forall a | base <= a < base + GB
      ensures s.At(a) == Laid(prog.file, prog.headers, |prog.headers|, bias, s0, a)
      ensures End(g, prog, base) <= a ==> s.At(a) == s0.At(a)
    {
      LaidAgrees(prog.file, prog.headers, |prog.headers|, bias, s0, s1, a);
      if End(g, prog, base) <= a {
        AboveUnchanged(g, prog, base, s0, a);
      }
    }
  }

  /** The program and the interpreter, if any, are accepted and the host grants all of it. */
  ghost predicate Loads(g: Geometry, f: seq<byte>, interp: Option<seq<byte>>, env: SetupEnv)
    requires g.page > 0 && 0 < g.base && g.base + VMSIZE <= WORD && g.page <= GUARD
  {
    && env.stack.mm && env.stack.host && Succeeds(g, f, g.MinAddr(), env.prog)
    && (interp.Some? ==>
      var base := End(g, Parse(f), g.MinAddr());
      0 <= base < WORD && Succeeds(g, interp.value, base, env.interp))
  }

  /** The program strays, or it is loaded and the interpreter strays. */
  ghost predicate ElfStrays(g: Geometry, f: seq<byte>, interp: Option<seq<byte>>, env: SetupEnv)
    requires g.page > 0 && 0 < g.base && g.base + VMSIZE <= WORD && g.page <= GUARD
    requires |f| < WORD && (interp.Some? ==> |interp.value| < WORD)
  {
    && env.stack.mm && env.stack.host
    && (|| LoadStrays(g, f, g.MinAddr(), env.prog)
        || (Succeeds(g, f, g.MinAddr(), env.prog) && interp.Some? &&
            var base := End(g, Parse(f), g.MinAddr());
            0 <= base < WORD && LoadStrays(g, interp.value, base, env.interp)))
  }

  ghost predicate Holdable(f: seq<byte>) {
    HasTable(f) && HasLoadable(Phdrs(f))
  }

  /** The parts in order from the bottom of the space: program, interpreter, brk reserve, stack. */
  ghost predicate Layout(g: Geometry, f: seq<byte>, interp: Option<seq<byte>>, info: LoadInfo)
    requires HasTable(f) && (interp.Some? ==> HasTable(interp.value))
  {
    var last := End(g, Parse(f), g.MinAddr());
    && g.MinAddr() <= info.elfbase < last
    && info.elfbase == Lowest(Phdrs(f), |Phdrs(f)|, Parse(f).Bias(g, g.MinAddr()))
    && info.elfentry == Parse(f).Bias(g, g.MinAddr()) + ReadEhdr(f).entry
    && info.phoff == ReadEhdr(f).phoff && info.phnum == ReadEhdr(f).phnum && info.phentsize == ReadEhdr(f).phentsize
    && (if interp.Some? then
          && last <= info.ldbase < info.lastva && info.lastva == End(g, Parse(interp.value), last)
          && info.ldbase == Lowest(Phdrs(interp.value), |Phdrs(interp.value)|, Parse(interp.value).Bias(g, last))
          && info.ldentry == Parse(interp.value).Bias(g, last) + ReadEhdr(interp.value).entry
        else info.lastva == last && info.ldbase == info.elfbase && info.ldentry == 0)
    // One page more than the reserve: the break may overshoot it by that much.
    && info.lastva + BRKMAX + g.page <= info.stack
    && info.stacksize == STACKSIZE && info.stack + info.stacksize == g.MaxAddr()
  }

  /** Program and interpreter hold their images, over memory that was s0. */
  ghost predicate ImagesInPlace(g: Geometry, f: seq<byte>, interp: Option<seq<byte>>, s0: Space, s: Space)
    requires HasTable(f) && (interp.Some? ==> HasTable(interp.value))
  {
    && InPlace(g, Parse(f), g.MinAddr(), s0, s)
    && (interp.Some? ==> InPlace(g, Parse(interp.value), End(g, Parse(f), g.MinAddr()), s0, s))
  }

  function StackCell(): Cell { Cell(Some(RW), RW, 0) }

  method LoadElf(vm: AddrSpace, f: seq<byte>, interp: Option<seq<byte>>, env: SetupEnv) returns (r: ElfResult)
    requires vm.g.Valid() && |f| < WORD && (interp.Some? ==> |interp.value| < WORD)
    modifies vm
    ensures vm.g.page > 0 && 0 < vm.g.base && vm.g.base + VMSIZE <= WORD && vm.g.page <= GUARD
    ensures SameOutside(old(vm.State()), vm.State(), vm.g.MinAddr(), vm.g.MaxAddr())
    ensures r.Crash? ==> !Holdable(f)
    ensures r.Placed? <==> Loads(vm.g, f, interp, env)
    ensures r.Stray? <==> ElfStrays(vm.g, f, interp, env)
    ensures r.Placed? ==> HasTable(f) && (interp.Some? ==> HasTable(interp.value))
    ensures r.Placed? && (!Holdable(f) || (interp.Some? && !Holdable(interp.value))) ==> r.info.lastva == 0
    ensures r.Placed? ==> r.info.stacksize == STACKSIZE && r.info.stack + STACKSIZE == vm.g.MaxAddr()
    ensures r.Placed? && Holdable(f) && (interp.Some? ==> Holdable(interp.value)) ==>
      && Layout(vm.g, f, interp, r.info) && r.info.lastva % vm.g.page == 0
      && ImagesInPlace(vm.g, f, interp, old(vm.State()), vm.State())
      && forall a :: r.info.stack <= a < vm.g.MaxAddr() ==> vm.State().At(a) == StackCell()
  {
    hide Laid, Lowest, Highest, Granted, HasLoadable, ReadEhdr, Phdrs, AllAccepted, ElfCheck, IsPow2, InPlace, End, Accepts, LoadStrays;
    GeometryFacts(vm.g);
    RegionFacts(vm.g);
    ghost var s0 := vm.State();
    var stack := vm.g.MaxAddr() - STACKSIZE;
    var m := vm.MapAt(stack, STACKSIZE, RW, env.stack);
    if !m.Mapped? {
      return NotPlaced;
    }
    var base := vm.g.MinAddr();
    var p := LoadAt(vm, f, base, env.prog, s0);
    if !p.Loaded? {
      return if p.Strayed? then Stray else NotPlaced;
    }
    var i := p;
    ghost var s1 := vm.State();
    if interp.Some? {
      i := LoadAt(vm, interp.value, p.last, env.interp, s0);
      if !i.Loaded? {
        return if i.Died? then Crash else if i.Strayed? then Stray else NotPlaced;
      }
      if p.last != 0 {
        InPlaceKept(vm.g, Parse(f), base, s0, s1, vm.State(), p.last, Reach(p.last));
      }
    }
    var h := ReadEhdr(f);
    return Placed(LoadInfo(stack, STACKSIZE, i.last, p.entry, if interp.Some? then i.entry else 0,
                           p.first, i.first, h.phoff, h.phnum, h.phentsize));
  }

  // ---------------------------------------------------------------- the whole process

  datatype SetupResult = Started(info: LoadInfo, sp: int, entry: int) | Rejected | Crashed | Astray

  class TuxProc {
    const vm: AddrSpace
    var brkbase: int
    var brksize: int

    constructor (vm: AddrSpace)
      ensures this.vm == vm && brkbase == 0 && brksize == 0
    {
      this.vm := vm;
      brkbase, brksize := 0, 0;
    }
  }

  ghost predicate CanStart(g: Geometry, f: seq<byte>, interp: Option<seq<byte>>, argv: seq<seq<byte>>, env: SetupEnv)
    requires g.page > 0 && 0 < g.base && g.base + VMSIZE <= WORD && g.page <= GUARD
  {
    && Loads(g, f, interp, env) && AllHoldable(f, interp)
    && 0 < |argv| <= ARGC_TOP && Taken(argv, |argv|) < ARG_BLOCK
    && env.brk.mm && env.brk.host
  }

  /** A state that differs only in the bytes between lo and hi keeps an image outside them. */
  lemma BytesKeepImage(g: Geometry, prog: Program, base: int, s0: Space, s: Space, s': Space, lo: int, hi: int)
    requires InPlace(g, prog, base, s0, s) && End(g, prog, base) <= lo
    requires s'.mm == s.mm && s'.prot == s.prot && forall x :: !(lo <= x < hi) ==> s'.mem(x) == s.mem(x)
    ensures InPlace(g, prog, base, s0, s')
  {
    hide Laid, Highest;
    InPlaceKept(g, prog, base, s0, s, s', lo, hi);
  }

  /** Writing the stack and reserving the brk region leave both images alone. */
  lemma StillInPlace(g: Geometry, f: seq<byte>, interp: Option<seq<byte>>, info: LoadInfo,
                     s0: Space, s1: Space, s2: Space, s3: Space)
    requires g.page > 0 && HasTable(f) && (interp.Some? ==> HasTable(interp.value))
    requires Layout(g, f, interp, info) && ImagesInPlace(g, f, interp, s0, s1)
    requires s2.mm == s1.mm && s2.prot == s1.prot
    requires forall x :: !(info.stack <= x < g.MaxAddr()) ==> s2.mem(x) == s1.mem(x)
    requires SameOutside(s2, s3, info.lastva, info.lastva + BRKMAX)
    ensures ImagesInPlace(g, f, interp, s0, s3)
  {
    hide Laid, Lowest, Highest, HasTable, ReadEhdr, Phdrs, InPlace, End;
    var lo, hi := info.stack, g.MaxAddr();
    BytesKeepImage(g, Parse(f), g.MinAddr(), s0, s1, s2, lo, hi);
    InPlaceKept(g, Parse(f), g.MinAddr(), s0, s2, s3, info.lastva, info.lastva + BRKMAX);
    if interp.Some? {
      var base := End(g, Parse(f), g.MinAddr());
      BytesKeepImage(g, Parse(interp.value), base, s0, s1, s2, lo, hi);
      InPlaceKept(g, Parse(interp.value), base, s0, s2, s3, info.lastva, info.lastva + BRKMAX);
    }
  }

  ghost predicate AllHoldable(f: seq<byte>, interp: Option<seq<byte>>) {
    Holdable(f) && (interp.Some? ==> Holdable(interp.value))
  }

  /** The process as it starts, over memory that was s0 before setup. */
  ghost predicate Furnished(g: Geometry, f: seq<byte>, interp: Option<seq<byte>>, info: LoadInfo, s0: Space, s: Space)
    requires HasTable(f) && (interp.Some? ==> HasTable(interp.value))
  {
    && Layout(g, f, interp, info) && ImagesInPlace(g, f, interp, s0, s)
    && info.stack == g.base + 0x1_0000_0000 - 81920 - 0x20_0000
    && (forall a :: info.lastva <= a < info.lastva + 0x2000_0000 ==> s.At(a) == Cell(Some(NONE), NONE, 0))
    && (forall a :: info.stack <= a < g.MaxAddr() ==> s.mm(a) == Some(RW) && s.prot(a) == RW)
  }

  /** The initial stack reads back, except where more than 471 arguments harm their own strings. */
  ghost predicate StackReads(g: Geometry, argv: seq<seq<byte>>, info: LoadInfo, m: Memory, sp: int) {
    var blk := g.MaxAddr() - ARG_BLOCK;
    && 0 < blk < WORD && Fits(blk, argv) && 0 <= g.page < WORD
    && sp == blk - ARG_BLOCK && sp % 16 == 0
    && var l := AuxList(info, blk, g.page);
    && StartWritten(m, blk, argv, l)
    && (Reads(m, sp, Start(CutAll(argv), [], l)) <==> Unharmed(blk, argv, l))
    && (|argv| <= 471 ==> Unharmed(blk, argv, l))
  }

  lemma StackReadsKept(g: Geometry, argv: seq<seq<byte>>, info: LoadInfo, m: Memory, m': Memory, sp: int)
    requires StackReads(g, argv, info, m, sp) && |argv| <= ARGC_TOP && NoNuls(argv) && ARG_BLOCK < g.MaxAddr()
    requires forall x :: g.MaxAddr() - 2 * ARG_BLOCK <= x < g.MaxAddr() ==> m'(x) == m(x)
    ensures StackReads(g, argv, info, m', sp)
  {
    hide Reads, StartWritten, Unharmed, CutAll, Taken, AuxList, Fits, NoNuls;
    var blk := g.MaxAddr() - ARG_BLOCK;
    var l := AuxList(info, blk, g.page);
    StartKept(m, m', blk, argv, l);
    StartReadsIff(m', blk, argv, l);
  }

  /** The second half of procsetup: the initial stack, then the brk reserve above the last image. */
  method Furnish(p: TuxProc, f: seq<byte>, interp: Option<seq<byte>>, argv: seq<seq<byte>>, info: LoadInfo, brk: Answers,
                 ghost s0: Space) returns (r: SetupResult)
    requires p.vm.g.Valid() && NoNuls(argv) && info.stacksize == STACKSIZE && info.stack + STACKSIZE == p.vm.g.MaxAddr()
    requires !AllHoldable(f, interp) ==> info.lastva == 0
    requires AllHoldable(f, interp) ==>
      && p.vm.g.page > 0 && Layout(p.vm.g, f, interp, info) && info.lastva % p.vm.g.page == 0
      && ImagesInPlace(p.vm.g, f, interp, s0, p.vm.State())
      && forall a :: info.stack <= a < p.vm.g.MaxAddr() ==> p.vm.State().At(a) == StackCell()
    modifies p, p.vm
    ensures SameOutside(old(p.vm.State()), p.vm.State(), p.vm.g.MinAddr(), p.vm.g.MaxAddr())
    ensures r.Started? <==> AllHoldable(f, interp) && 0 < |argv| <= ARGC_TOP && Taken(argv, |argv|) < ARG_BLOCK && brk.mm && brk.host
    ensures r.Astray? <==> |argv| > ARGC_TOP && Taken(argv, Tried(argv)) < ARG_BLOCK
    ensures r.Crashed? ==> argv == [] || !AllHoldable(f, interp)
    ensures r.Started? ==>
      && r.info == info && Furnished(p.vm.g, f, interp, info, s0, p.vm.State())
      && p.brkbase == info.lastva && p.brksize == 0 && StackReads(p.vm.g, argv, info, p.vm.mem, r.sp)
      && r.entry == (if interp.Some? then info.ldentry else info.elfentry)
  {
    hide HasLoadable, HasTable, ReadEhdr, Phdrs, Laid, Lowest, Highest, IsPow2, InPlace, End;
    hide Reads, StartWritten, Unharmed, CutAll, Taken, AuxList, NoNuls, Fits, ImagesInPlace;
    GeometryFacts(p.vm.g);
    RegionFacts(p.vm.g);
    ghost var g, s1 := p.vm.g, p.vm.State();
    var st := StackSetup(p.vm, argv, info);
    if !st.Ready? {
      return if st.NullName? then Crashed else if st.Overflow? then Astray else Rejected;
    }
    assert StackReads(g, argv, info, p.vm.mem, st.sp);
    hide StackReads;
    p.brkbase, p.brksize := info.lastva, 0;
    ghost var s2 := p.vm.State();
    var b := p.vm.MapAt(p.brkbase, BRKMAX, NONE, brk);
    if !b.Mapped? {
      return if b.Aborted? then Crashed else Rejected;
    }
    StillInPlace(g, f, interp, info, s0, s1, s2, p.vm.State());
    forall a | info.stack <= a < g.MaxAddr() ensures p.vm.mm(a) == Some(RW) && p.vm.prot(a) == RW {
      assert s1.At(a) == StackCell();
    }
    StackReadsKept(g, argv, info, s2.mem, p.vm.mem, st.sp);
    return Started(info, st.sp, if interp.Some? then info.ldentry else info.elfentry);
  }

  /** procsetup: images, initial stack, then the brk reserve right above the last image. */
  method ProcSetup(p: TuxProc, f: seq<byte>, interp: Option<seq<byte>>, argv: seq<seq<byte>>, env: SetupEnv)
      returns (r: SetupResult)
    requires p.vm.g.Valid() && |f| < WORD && (interp.Some? ==> |interp.value| < WORD) && NoNuls(argv)
    modifies p, p.vm
    ensures p.vm.g.page > 0 && 0 < p.vm.g.base && p.vm.g.base + VMSIZE <= WORD && p.vm.g.page <= GUARD
    // Nothing outside the sandbox is touched, up to where it goes astray.
    ensures SameOutside(old(p.vm.State()), p.vm.State(), p.vm.g.MinAddr(), p.vm.g.MaxAddr())
    ensures r.Started? <==> CanStart(p.vm.g, f, interp, argv, env)
    // It goes astray only in a load, or with more arguments than the stack has words for.
    ensures r.Astray? <==>
      || ElfStrays(p.vm.g, f, interp, env)
      || (Loads(p.vm.g, f, interp, env) && |argv| > ARGC_TOP && Taken(argv, Tried(argv)) < ARG_BLOCK)
    // An assertion can fire only without arguments or without loadable segments.
    ensures r.Crashed? ==> argv == [] || !AllHoldable(f, interp)
    ensures r.Started? ==>
      && AllHoldable(f, interp) && Furnished(p.vm.g, f, interp, r.info, old(p.vm.State()), p.vm.State())
      && p.brkbase == r.info.lastva && p.brksize == 0 && p.brkbase % p.vm.g.page == 0
      && StackReads(p.vm.g, argv, r.info, p.vm.mem, r.sp)
      // The interpreter runs first, if there is one.
      && r.entry == (if interp.Some? then r.info.ldentry else r.info.elfentry)
  {
    hide Holdable, HasTable, Layout, ImagesInPlace, Furnished, StackReads, Loads, ElfStrays, IsPow2, Taken, Tried, NoNuls;
    GeometryFacts(p.vm.g);
    ghost var s0 := p.vm.State();
    var e := LoadElf(p.vm, f, interp, env);
    if !e.Placed? {
      return if e.Crash? then Crashed else if e.Stray? then Astray else Rejected;
    }
    r := Furnish(p, f, interp, argv, e.info, env.brk, s0);
  }

  /** Sane files never lead a setup astray. */
  lemma SaneNeverAstray(g: Geometry, f: seq<byte>, interp: Option<seq<byte>>, env: SetupEnv)
    requires g.Valid() && g.page > 0 && 0 < g.base && g.base + VMSIZE <= WORD && g.page <= GUARD
    requires SaneFile(f) && (interp.Some? ==> SaneFile(interp.value))
    ensures !ElfStrays(g, f, interp, env)
  {
    hide LoadStrays, SaneFile, Lowest, Highest, Laid, ReadEhdr, Phdrs, IsPow2, HasTable, AllAccepted, Granted;
    GeometryFacts(g);
    SaneNeverStrays(g, f, g.MinAddr(), env.prog);
    if Succeeds(g, f, g.MinAddr(), env.prog) && interp.Some? {
      LoadedRange(g, Parse(f), g.MinAddr());
      MultipleOf(0, g.page);
      SaneNeverStrays(g, interp.value, End(g, Parse(f), g.MinAddr()), env.interp);
    }
  }

  // ---------------------------------------------------------------- AT_PHDR

  /** Segment k is the lowest one, starts at file offset zero on an aligned address, holds the
      header table, and no later segment lies over the table. */
  ghost predicate HeadersMapped(g: Geometry, f: seq<byte>, base: int, k: nat)
    requires HasTable(f) && k < |Phdrs(f)|
  {
    var ps, p, bias, h := Phdrs(f), Phdrs(f)[k], Parse(f).Bias(g, base), ReadEhdr(f);
    && Loadable(p) && Lowest(ps, |ps|, bias) == bias + SegStart(p)
    && p.offset == 0 && p.vaddr == SegStart(p) && h.phoff + PHSIZE * h.phnum <= p.filesz
    && forall j, a :: k < j < |ps| && bias + p.vaddr + h.phoff <= a < bias + p.vaddr + h.phoff + PHSIZE * h.phnum ==>
         !Covers(ps[j], bias, a)
  }

  lemma TableByte(g: Geometry, f: seq<byte>, s0: Space, s: Space, k: nat, i: nat)
    requires g.Valid() && g.page > 0 && 0 <= g.base < WORD && |f| < WORD && Accepts(g, f, g.MinAddr())
    requires k < |Phdrs(f)| && HeadersMapped(g, f, g.MinAddr(), k)
    requires InPlace(g, Parse(f), g.MinAddr(), s0, s)
    requires i < PHSIZE * ReadEhdr(f).phnum
    ensures
      var a := Lowest(Phdrs(f), |Phdrs(f)|, Parse(f).Bias(g, g.MinAddr())) + ReadEhdr(f).phoff + i;
      a < g.MinAddr() + GB && s.mem(a) == f[ReadEhdr(f).phoff + i]
  {
    hide Truncp, Ceilp, IsPow2, ReadEhdr, Phdrs, Laid;
    GeometryFacts(g);
    var prog, base := Parse(f), g.MinAddr();
    var bias, p := prog.Bias(g, base), prog.headers[k];
    MultipleOf(0, g.page);
    assert Accepted(g, prog, base, p);
    Placement(g, base, prog, p);
    var a := bias + p.vaddr + ReadEhdr(f).phoff + i;
    assert Covers(p, bias, a);
    LastSegmentWins(f, prog.headers, |prog.headers|, bias, s0, a, k);
    var top := HighestIsGreatest(prog.headers, |prog.headers|, bias);
    assert s.At(a) == SegCell(f, p, bias, a);
  }

  /** What a program reads from its stack as AT_PHDR points at its own program headers. */
  lemma PhdrCorrect(g: Geometry, f: seq<byte>, interp: Option<seq<byte>>, info: LoadInfo, s0: Space, s: Space,
                    k: nat, sp: int, argv: seq<seq<byte>>, execfn: U64, t: Start, q: nat)
    requires g.Valid() && g.page > 0 && 0 <= g.base < WORD && |f| < WORD && Accepts(g, f, g.MinAddr())
    requires (interp.Some? ==> HasTable(interp.value)) && Layout(g, f, interp, info) && ImagesInPlace(g, f, interp, s0, s)
    requires k < |Phdrs(f)| && HeadersMapped(g, f, g.MinAddr(), k)
    requires 0 <= g.page < WORD && Reads(s.mem, sp, Start(argv, [], AuxList(info, execfn, g.page)))
    requires Reads(s.mem, sp, t) && q < |t.auxv| && t.auxv[q].key == AT_PHDR
    ensures
      var h := ReadEhdr(f);
      Read(s.mem, t.auxv[q].val, PHSIZE * h.phnum) == f[h.phoff..h.phoff + PHSIZE * h.phnum]
  {
    hide Reads, ReadEhdr, Phdrs, Laid, Lowest, Highest, IsPow2, HeadersMapped, InPlace;
    ReadsUnique(s.mem, sp, t, Start(argv, [], AuxList(info, execfn, g.page)));
    OnlyPhdr(info, execfn, g.page, q);
    GeometryFacts(g);
    var h := ReadEhdr(f);
    var table := f[h.phoff..h.phoff + PHSIZE * h.phnum];
    forall i | 0 <= i < PHSIZE * h.phnum ensures s.mem(t.auxv[q].val + i) == table[i] {
      TableByte(g, f, s0, s, k, i);
    }
  }

  lemma OnlyPhdr(info: LoadInfo, execfn: U64, page: U64, q: nat)
    requires q < 19 && AuxList(info, execfn, page)[q].key == AT_PHDR
    ensures AuxList(info, execfn, page)[q].val == Add64(info.elfbase, info.phoff)
  {
  }
}
