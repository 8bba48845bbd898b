/** The loader loop of src/elfload.c over an address space.

    The loader trusts its headers in two places: a read may leave the file's buffer, and a copy
    may leave the range that was mapped for it. The model stops before such a copy, with the
    result `Strayed`, and says exactly when that happens. */
module Loader {
  import opened Align
  import opened Bytes
  import opened AddressSpace
  import opened Wrappers
  import opened Elf

  /** What libmmap and the host answer while one segment is mapped, and then protected. */
  datatype SegAnswers = SegAnswers(mapping: Answers, protect: bool) {
    predicate Ok() { mapping.mm && mapping.host && protect }
  }

  datatype LoadEnv = LoadEnv(alloc: bool, segs: int -> SegAnswers)

  datatype LoadResult = Loaded(first: int, last: int, entry: int) | Failed | Died | Strayed

  /** bufread: what is copied, or nothing at all if the copy would leave the buffer. */
  function BufRead(f: seq<byte>, count: U64, offset: U64): (r: Option<seq<byte>>)
    requires |f| < WORD
    ensures r.None? <==> offset > |f| || offset + count >= WORD
    ensures r.Some? ==> r.value == if offset + count <= |f| then f[offset..offset + count] else f[offset..]
  {
    var n := if Add64(offset, count) > |f| then Sub64(|f|, offset) else count;
    if offset + n <= |f| then Some(f[offset..offset + n]) else None
  }

  /** The copy of a segment's file bytes leaves the file, or the range that ends at SegEnd. */
  predicate Strays(f: seq<byte>, p: Phdr)
    requires |f| < WORD
  {
    match BufRead(f, p.filesz, p.offset)
    case None => true
    case Some(bytes) => bytes != [] && p.vaddr + |bytes| > SegEnd(p)
  }

  /** All bytes of the segment are copied, and into its own range. */
  predicate Copied(f: seq<byte>, p: Phdr) {
    p.offset + p.filesz <= |f| && (p.filesz == 0 || p.vaddr + p.filesz <= SegEnd(p))
  }

  /** s' is s with one segment laid over it. */
  ghost predicate Overlaid(f: seq<byte>, p: Phdr, bias: int, s: Space, s': Space) {
    forall a :: s'.At(a) == if bias + SegStart(p) <= a < bias + SegEnd(p) then SegCell(f, p, bias, a) else s.At(a)
  }

  /** bufreadelfseg: map the range, copy the file bytes, then set the protection. The segment is
      displaced by bias. */
  method LoadSegment(vm: AddrSpace, f: seq<byte>, p: Phdr, bias: int, ans: SegAnswers) returns (r: LoadResult)
    requires vm.g.Valid() && vm.g.page > 0 && |f| < WORD && SegStart(p) <= p.vaddr && SegStart(p) < SegEnd(p)
    requires (bias + SegStart(p)) % vm.g.page == 0 && (bias + SegEnd(p)) % vm.g.page == 0
    requires 0 <= bias + SegStart(p) && bias + SegEnd(p) < WORD
    modifies vm
    ensures r.Died? <==> !InRange(vm.g, bias + SegStart(p), SegEnd(p) - SegStart(p))
    ensures r.Strayed? <==> !r.Died? && ans.mapping.mm && ans.mapping.host && Strays(f, p)
    ensures r.Loaded? <==> !r.Died? && ans.Ok() && Copied(f, p)
    ensures SameOutside(old(vm.State()), vm.State(), bias + SegStart(p), bias + SegEnd(p))
    ensures r.Died? ==> Same(old(vm.State()), vm.State())
    ensures r.Loaded? ==> Overlaid(f, p, bias, old(vm.State()), vm.State())
  {
    hide Truncp, Ceilp, IsPow2;
    var start, end, at := bias + SegStart(p), bias + SegEnd(p), bias + p.vaddr;
    AlignedSum(end, start, vm.g.page);
    var m := vm.MapAt(start, end - start, RW, ans.mapping);
    if !m.Mapped? {
      return if m.Aborted? then Died else Failed;
    }
    var bytes := BufRead(f, p.filesz, p.offset);
    if bytes == None || (bytes.value != [] && at + |bytes.value| > end) {
      return Strayed;
    }
    vm.mem := Put(vm.mem, at, bytes.value);
    if |bytes.value| != p.filesz {
      return Failed;
    }
    var q := vm.Mprotect(start, end - start, Pflags(p.flags), ans.protect);
    if !q.Mapped? {
      return Failed;
    }
    return Loaded(start, end, at);
  }

  /** Load bases in use: the bottom of the space, or the end of a program loaded there; zero
      stands for a program without loadable segments. */
  ghost predicate GoodBase(g: Geometry, base: int)
    requires g.page > 0
  {
    base % g.page == 0 && (base == 0 || g.MinAddr() <= base <= g.MinAddr() + GB)
  }

  /** The end of what loading at base may touch: nothing for base zero. */
  function Reach(base: int): int {
    if base == 0 then 0 else base + GB
  }

  function Delta(g: Geometry, base: U64): U64
    requires 0 <= g.base < WORD
  {
    Sub64(base, g.base)
  }

  /** A program, parsed: the file's bytes, its headers, and whether it is fixed in place. */
  datatype Program = Program(file: seq<byte>, headers: seq<Phdr>, exec: bool) {
    /** The one displacement between the program's addresses and where they land. */
    function Bias(g: Geometry, base: int): int {
      if exec then g.base else base
    }
  }

  /** Subtracting the displacement and adding the base again cancels: a segment lands at
      bias + vaddr, inside the space, for both kinds of program. */
  lemma Placement(g: Geometry, base: U64, prog: Program, p: Phdr)
    requires g.Valid() && g.page > 0 && GoodBase(g, base) && Passes(p, g.page, prog.exec, Delta(g, base))
    ensures SegStart(p) <= p.vaddr && SegStart(p) < SegEnd(p)
    ensures
      var start, end := Moved(SegStart(p), prog.exec, Delta(g, base)), Moved(SegEnd(p), prog.exec, Delta(g, base));
      && end - start == SegEnd(p) - SegStart(p)
      && (base + start) % g.page == 0 && (base + end) % g.page == 0
      && base + start < base + end < WORD
      && (InRange(g, base + start, end - start) <==> base != 0)
      && (base != 0 ==>
        && base + start == prog.Bias(g, base) + SegStart(p)
        && base + end == prog.Bias(g, base) + SegEnd(p)
        && base + end < base + GB)
  {
    GeometryFacts(g);
    var delta := Delta(g, base);
    PassesGuarantees(p, g.page, prog.exec, delta);
    var k: nat :| g.page == Pow2(k);
    PageDividesWord(k);
    AlignedSum(base, g.base, g.page);
    AlignedSum(base - g.base, WORD, g.page);
    assert delta % g.page == 0;
    AlignedSum(SegStart(p), delta, g.page);
    AlignedSum(SegEnd(p), delta, g.page);
    AlignedSum(base, Moved(SegStart(p), prog.exec, delta), g.page);
    AlignedSum(base, Moved(SegEnd(p), prog.exec, delta), g.page);
  }

  /** The loader's checks on one header, and the whole copy of its bytes into its own range. */
  predicate Accepted(g: Geometry, prog: Program, base: U64, p: Phdr)
    requires g.page > 0 && 0 <= g.base < WORD
  {
    Passes(p, g.page, prog.exec, Delta(g, base)) && Copied(prog.file, p)
  }

  /** A header that passes, and whose mapping is granted, strays. */
  predicate StraysWhenMapped(g: Geometry, prog: Program, base: U64, p: Phdr, ans: SegAnswers)
    requires g.page > 0 && 0 <= g.base < WORD && |prog.file| < WORD
  {
    && base != 0 && Loadable(p) && Passes(p, g.page, prog.exec, Delta(g, base))
    && ans.mapping.mm && ans.mapping.host && Strays(prog.file, p)
  }

  lemma ImageStep(prog: Program, n: nat, bias: int, s0: Space, s: Space, s': Space)
    requires n < |prog.headers| && Loadable(prog.headers[n]) && Image(prog.file, prog.headers, n, bias, s0, s)
    requires Overlaid(prog.file, prog.headers[n], bias, s, s')
    ensures Image(prog.file, prog.headers, n + 1, bias, s0, s')
  {
    hide Truncp, Ceilp, SegCell;
  }

  /** The body of the loop for one loadable header. */
  method LoadHeader(vm: AddrSpace, prog: Program, base: U64, p: Phdr, ans: SegAnswers) returns (r: LoadResult)
    requires vm.g.Valid() && vm.g.page > 0 && GoodBase(vm.g, base) && Loadable(p)
    requires 0 <= vm.g.base < WORD && |prog.file| < WORD
    modifies vm
    ensures SameOutside(old(vm.State()), vm.State(), base, Reach(base))
    ensures r.Died? <==> base == 0 && Passes(p, vm.g.page, prog.exec, Delta(vm.g, base))
    ensures r.Strayed? <==> StraysWhenMapped(vm.g, prog, base, p, ans)
    ensures r.Loaded? <==> base != 0 && Accepted(vm.g, prog, base, p) && ans.Ok()
    ensures r.Loaded? ==>
      && r.first == prog.Bias(vm.g, base) + SegStart(p) && r.last == prog.Bias(vm.g, base) + SegEnd(p)
      && Overlaid(prog.file, p, prog.Bias(vm.g, base), old(vm.State()), vm.State())
  {
    hide Truncp, Ceilp, IsPow2, SegCell, Geometry.Valid, InRange, GoodBase, Overlaid, Strays, Copied;
    var exec, delta := prog.exec, Delta(vm.g, base);
    if p.align % vm.g.page != 0 {
      return Failed;
    }
    var start, end := SegStart(p), SegEnd(p);
    var offset := p.vaddr - start;
    var first := Add64(if exec then vm.g.base else base, start);
    if exec {
      if start < delta {
        return Failed;
      }
      start, end := Sub64(start, delta), Sub64(end, delta);
    }
    if p.memsz < p.filesz {
      return Failed;
    }
    if end <= start || start >= CODEMAX || end >= CODEMAX {
      return Failed;
    }
    Placement(vm.g, base, prog, p);
    // offset is vaddr less the rounded start, so the bytes go to the same displacement.
    assert base + start + offset == base + start - SegStart(p) + p.vaddr;
    var seg := LoadSegment(vm, prog.file, p, base + start - SegStart(p), ans);
    if !seg.Loaded? {
      return seg;
    }
    // The segment lies inside the space, so base is not zero and needs no fixing up.
    assert base != 0;
    return Loaded(first, base + end, 0);
  }

  /** Header k was accepted and the host agreed, if it is loadable at all. */
  predicate Done(g: Geometry, prog: Program, base: U64, env: LoadEnv, k: nat)
    requires g.page > 0 && 0 <= g.base < WORD && k < |prog.headers|
  {
    Loadable(prog.headers[k]) ==> base != 0 && Accepted(g, prog, base, prog.headers[k]) && env.segs(k).Ok()
  }

  /** A header strays, and all headers before it are loaded. */
  ghost predicate SomeHeaderStrays(g: Geometry, prog: Program, base: U64, env: LoadEnv)
    requires g.page > 0 && 0 <= g.base < WORD && |prog.file| < WORD
  {
    exists k :: 0 <= k < |prog.headers| && StraysWhenMapped(g, prog, base, prog.headers[k], env.segs(k))
      && forall j :: 0 <= j < k ==> Done(g, prog, base, env, j)
  }

  lemma CopiedOrStrays(f: seq<byte>, p: Phdr)
    requires |f| < WORD
    ensures !(Copied(f, p) && Strays(f, p))
    ensures !Copied(f, p) && !Strays(f, p) ==> p.offset <= |f| < p.offset + p.filesz
  {
    hide Truncp, Ceilp;
  }

  /** The first header that is not done decides. */
  lemma FirstStop(g: Geometry, prog: Program, base: U64, env: LoadEnv, i: nat)
    requires g.page > 0 && 0 <= g.base < WORD && |prog.file| < WORD && i < |prog.headers|
    requires !Done(g, prog, base, env, i) && forall j :: 0 <= j < i ==> Done(g, prog, base, env, j)
    ensures SomeHeaderStrays(g, prog, base, env) <==> StraysWhenMapped(g, prog, base, prog.headers[i], env.segs(i))
  {
    hide Done, StraysWhenMapped;
    forall k | 0 <= k < |prog.headers| && Done(g, prog, base, env, k)
      ensures !StraysWhenMapped(g, prog, base, prog.headers[k], env.segs(k))
    {
      DoneNeverStrays(g, prog, base, env, k);
    }
  }

  lemma DoneNeverStrays(g: Geometry, prog: Program, base: U64, env: LoadEnv, k: nat)
    requires g.page > 0 && 0 <= g.base < WORD && |prog.file| < WORD && k < |prog.headers|
    requires Done(g, prog, base, env, k)
    ensures !StraysWhenMapped(g, prog, base, prog.headers[k], env.segs(k))
  {
    hide Strays, Copied, Passes;
    CopiedOrStrays(prog.file, prog.headers[k]);
  }

  /** The first n headers are loaded into s, which was s0. */
  ghost predicate Progress(g: Geometry, prog: Program, base: U64, n: nat, first: int, last: int, s0: Space, s: Space)
    requires n <= |prog.headers|
  {
    && SameOutside(s0, s, base, Reach(base))
    && Image(prog.file, prog.headers, n, prog.Bias(g, base), s0, s)
    && first == Lowest(prog.headers, n, prog.Bias(g, base))
    && last == Highest(prog.headers, n, prog.Bias(g, base))
  }

  /** One turn of the loop over the program headers. */
  method LoadStep(vm: AddrSpace, prog: Program, base: U64, env: LoadEnv, i: nat, first: int, last: int, ghost s0: Space)
      returns (r: LoadResult)
    requires vm.g.Valid() && vm.g.page > 0 && GoodBase(vm.g, base) && |prog.file| < WORD
    requires 0 < vm.g.base < WORD && i < |prog.headers|
    requires Progress(vm.g, prog, base, i, first, last, s0, vm.State())
    modifies vm
    ensures r.Loaded? <==> Done(vm.g, prog, base, env, i)
    ensures r.Strayed? <==> StraysWhenMapped(vm.g, prog, base, prog.headers[i], env.segs(i))
    ensures r.Loaded? ==> Progress(vm.g, prog, base, i + 1, r.first, r.last, s0, vm.State())
    ensures SameOutside(s0, vm.State(), base, Reach(base))
    ensures r.Died? ==> base == 0 && Loadable(prog.headers[i])
  {
    hide Truncp, Ceilp, IsPow2, Strays, Copied;
    var ps := prog.headers;
    ghost var bias, s := prog.Bias(vm.g, base), vm.State();
    if !Loadable(ps[i]) {
      return Loaded(first, last, 0);
    }
    var seg := LoadHeader(vm, prog, base, ps[i], env.segs(i));
    if !seg.Loaded? {
      return seg;
    }
    ImageStep(prog, i, bias, s0, s, vm.State());
    return Loaded(if first == 0 || seg.first < first then seg.first else first,
                  if seg.last > last then seg.last else last, 0);
  }

  /** The loop over the program headers. */
  method LoadHeaders(vm: AddrSpace, prog: Program, base: U64, env: LoadEnv) returns (r: LoadResult)
    requires vm.g.Valid() && vm.g.page > 0 && GoodBase(vm.g, base) && |prog.file| < WORD
    requires 0 < vm.g.base < WORD
    modifies vm
    ensures SameOutside(old(vm.State()), vm.State(), base, Reach(base))
    ensures r.Died? ==> base == 0 && HasLoadable(prog.headers)
    ensures r.Loaded? <==> forall k :: 0 <= k < |prog.headers| ==> Done(vm.g, prog, base, env, k)
    ensures r.Strayed? <==> SomeHeaderStrays(vm.g, prog, base, env)
    ensures r.Loaded? ==>
      Progress(vm.g, prog, base, |prog.headers|, r.first, r.last, old(vm.State()), vm.State())
  {
    hide Truncp, Ceilp, IsPow2, Strays, Copied;
    ghost var s0 := vm.State();
    r := Loaded(0, 0, 0);
    for i := 0 to |prog.headers|
      invariant r.Loaded? && Progress(vm.g, prog, base, i, r.first, r.last, s0, vm.State())
      invariant forall k :: 0 <= k < i ==> Done(vm.g, prog, base, env, k)
    {
      r := LoadStep(vm, prog, base, env, i, r.first, r.last, s0);
      if !r.Loaded? {
        FirstStop(vm.g, prog, base, env, i);
        return;
      }
    }
    forall k | 0 <= k < |prog.headers| ensures !StraysWhenMapped(vm.g, prog, base, prog.headers[k], env.segs(k)) {
      DoneNeverStrays(vm.g, prog, base, env, k);
    }
  }

  // ---------------------------------------------------------------- whole files

  function Parse(f: seq<byte>): (prog: Program)
    requires HasTable(f)
    ensures prog.file == f
  {
    Program(f, Phdrs(f), ReadEhdr(f).etype == ET_EXEC)
  }

  /** Everything the loader checks: the file and the headers, but not the host's answers. */
  ghost predicate Accepts(g: Geometry, f: seq<byte>, base: U64)
    requires g.page > 0 && 0 <= g.base < WORD
  {
    && HasTable(f) && ElfCheck(ReadEhdr(f)) && ReadEhdr(f).entry < CODEMAX
    && AllAccepted(g, Parse(f), base)
  }

  ghost predicate AllAccepted(g: Geometry, prog: Program, base: U64)
    requires g.page > 0 && 0 <= g.base < WORD
  {
    forall k :: 0 <= k < |prog.headers| && Loadable(prog.headers[k]) ==> Accepted(g, prog, base, prog.headers[k])
  }

  ghost predicate Granted(prog: Program, env: LoadEnv) {
    env.alloc && forall k :: 0 <= k < |prog.headers| && Loadable(prog.headers[k]) ==> env.segs(k).Ok()
  }

  /** Exactly when a load succeeds. */
  ghost predicate Succeeds(g: Geometry, f: seq<byte>, base: U64, env: LoadEnv)
    requires g.page > 0 && 0 <= g.base < WORD
  {
    Accepts(g, f, base) && Granted(Parse(f), env) && (base != 0 || !HasLoadable(Phdrs(f)))
  }

  lemma AllDone(g: Geometry, prog: Program, base: U64, env: LoadEnv)
    requires g.page > 0 && 0 <= g.base < WORD && env.alloc
    ensures (forall k :: 0 <= k < |prog.headers| ==> Done(g, prog, base, env, k)) <==>
            AllAccepted(g, prog, base) && Granted(prog, env) && (base != 0 || !HasLoadable(prog.headers))
  {
    if forall k :: 0 <= k < |prog.headers| ==> Done(g, prog, base, env, k) {
      forall k | 0 <= k < |prog.headers| && Loadable(prog.headers[k])
        ensures Accepted(g, prog, base, prog.headers[k]) && env.segs(k).Ok() && base != 0
      {
        assert Done(g, prog, base, env, k);
      }
    }
  }

  /** Reading the header table leaves the file. */
  predicate TableStrays(f: seq<byte>)
    requires EHSIZE <= |f| < WORD
  {
    var h := ReadEhdr(f);
    BufRead(f, PHSIZE * h.phnum, h.phoff) == None
  }

  /** Exactly when a load strays. */
  ghost predicate LoadStrays(g: Geometry, f: seq<byte>, base: U64, env: LoadEnv)
    requires g.page > 0 && 0 <= g.base < WORD && |f| < WORD
  {
    && EHSIZE <= |f| && ElfCheck(ReadEhdr(f)) && env.alloc
    && (TableStrays(f) || (HasTable(f) && ReadEhdr(f).entry < CODEMAX && SomeHeaderStrays(g, Parse(f), base, env)))
  }

  /** What a successful load means, by the file's own bytes: it begins with the ELF magic and the
      64-bit class, its version is 1 and its type 2 or 3; type 2 is placed from the start of the
      space and type 3 from the base; and memory holds every loadable segment that no later one
      reaches into. */
  ghost predicate InMemory(g: Geometry, f: seq<byte>, base: U64, r: LoadResult, s: Space)
    requires r.Loaded?
  {
    && 64 <= |f| && HasTable(f)
    && f[..5] == [0x7F, 0x45, 0x4C, 0x46, 2] && LE(f[20..24]) == 1 && (U16At(f, 16) == 2 || U16At(f, 16) == 3)
    && U64At(f, 24) < 0x4000_0000
    && var bias := if U16At(f, 16) == 2 then g.base else base;
    && r.entry == bias + U64At(f, 24)
    && forall k :: 0 <= k < |Phdrs(f)| && Loadable(Phdrs(f)[k]) && Topmost(Phdrs(f), k) ==>
      HoldsSegment(f, Phdrs(f)[k], bias, s)
  }

  /** The magic number, byte by byte. */
  lemma MagicBytes(f: seq<byte>)
    requires 64 <= |f|
    ensures LE(f[0..4]) == ELF_MAGIC <==> f[..4] == [0x7F, 0x45, 0x4C, 0x46]
  {
    var magic := [0x7F, 0x45, 0x4C, 0x46];
    assert LE(magic) == ELF_MAGIC by {
      assert magic[1..] == [0x45, 0x4C, 0x46] && magic[1..][1..] == [0x4C, 0x46] && magic[1..][1..][1..] == [0x46];
    }
    LEInverse(f[0..4]);
    LEInverse(magic);
  }

  lemma HeaderBytes(f: seq<byte>)
    requires 64 <= |f|
    ensures ElfCheck(ReadEhdr(f)) <==>
      f[..5] == [0x7F, 0x45, 0x4C, 0x46, 2] && LE(f[20..24]) == 1 && (U16At(f, 16) == 2 || U16At(f, 16) == 3)
  {
    MagicBytes(f);
    hide LE, U64At;
    assert f[..5] == f[..4] + [f[4]];
  }

  lemma AllInMemory(g: Geometry, f: seq<byte>, base: U64, env: LoadEnv, r: LoadResult, s0: Space, s: Space)
    requires g.Valid() && g.page > 0 && 0 <= g.base < WORD && GoodBase(g, base) && |f| < WORD && r.Loaded?
    requires Succeeds(g, f, base, env) && Progress(g, Parse(f), base, |Phdrs(f)|, r.first, r.last, s0, s)
    requires r.entry == Parse(f).Bias(g, base) + ReadEhdr(f).entry
    ensures InMemory(g, f, base, r, s)
  {
    HeaderBytes(f);
    hide Truncp, Ceilp, IsPow2, LE, Lowest, Highest, Image, HoldsSegment, Topmost;
    var ps, bias := Phdrs(f), Parse(f).Bias(g, base);
    forall k | 0 <= k < |ps| && Loadable(ps[k]) && Topmost(ps, k) ensures HoldsSegment(f, ps[k], bias, s) {
      assert Accepted(g, Parse(f), base, ps[k]);
      Placement(g, base, Parse(f), ps[k]);
      SegmentHeld(f, ps, bias, s0, s, k);
    }
  }

  method Load(vm: AddrSpace, f: seq<byte>, base: U64, env: LoadEnv) returns (r: LoadResult)
    requires vm.g.Valid() && vm.g.page > 0 && GoodBase(vm.g, base) && |f| < WORD
    modifies vm
    ensures 0 <= vm.g.base < WORD
    // Only the first gibibyte above the base is ever touched, and nothing for base zero.
    ensures SameOutside(old(vm.State()), vm.State(), base, Reach(base))
    // The range assertion of the mapping layer fires only for base zero.
    ensures r.Died? ==> base == 0 && HasTable(f) && HasLoadable(Phdrs(f))
    ensures r.Strayed? <==> LoadStrays(vm.g, f, base, env)
    // Success is exactly acceptance of the file together with the host's consent.
    ensures r.Loaded? <==> Succeeds(vm.g, f, base, env)
    ensures r.Loaded? ==>
      var prog := Parse(f);
      && Progress(vm.g, prog, base, |prog.headers|, r.first, r.last, old(vm.State()), vm.State())
      && (base != 0 && HasLoadable(prog.headers) ==>
        Bounds(prog.headers, |prog.headers|, prog.Bias(vm.g, base), r.first, r.last))
      && r.entry == prog.Bias(vm.g, base) + ReadEhdr(f).entry
    ensures r.Loaded? ==> InMemory(vm.g, f, base, r, vm.State())
  {
    GeometryFacts(vm.g);
    ghost var s0 := vm.State();
    if |f| < EHSIZE {
      return Failed;
    }
    var h := ReadEhdr(f);
    if !ElfCheck(h) || !env.alloc {
      return Failed;
    }
    var table := BufRead(f, PHSIZE * h.phnum, h.phoff);
    if table == None {
      return Strayed;
    }
    if |table.value| != PHSIZE * h.phnum {
      return Failed;
    }
    if h.entry >= CODEMAX {
      return Failed;
    }
    AllDone(vm.g, Parse(f), base, env);
    r := LoadHeaders(vm, Parse(f), base, env);
    if r.Loaded? {
      if base != 0 {
        LowestAndHighest(Phdrs(f), Parse(f).Bias(vm.g, base));
      }
      r := r.(entry := (if h.etype == ET_DYN then base else vm.g.base) + h.entry);
      AllInMemory(vm.g, f, base, env, r, s0, vm.State());
    }
  }

  // ---------------------------------------------------------------- who strays

  /** A copy that is in the file leaves its range exactly when the end has wrapped, in the sum of
      vaddr and memsz or in rounding it up, to below the end of the bytes. */
  lemma StraysIff(g: Geometry, base: U64, prog: Program, p: Phdr)
    requires g.Valid() && g.page > 0 && GoodBase(g, base) && Passes(p, g.page, prog.exec, Delta(g, base))
    requires |prog.file| < WORD && p.offset + p.filesz <= |prog.file|
    ensures Strays(prog.file, p) <==>
      p.vaddr + p.memsz + p.align - 1 >= WORD && 0 < p.filesz && SegEnd(p) < p.vaddr + p.filesz
  {
    GeometryFacts(g);
    ContainedIffNoWrap(p, g.page, prog.exec, Delta(g, base));
  }

  /** A header as the ELF format asks for it: its bytes begin in the file, the segment does not
      wrap, and its alignment is zero or a power of two. */
  ghost predicate Sane(p: Phdr, size: nat) {
    p.offset <= size && p.offset + p.filesz < WORD && p.vaddr + p.memsz < WORD && (p.align == 0 || IsPow2(p.align))
  }

  ghost predicate SaneFile(f: seq<byte>) {
    |f| < WORD && (EHSIZE <= |f| && ElfCheck(ReadEhdr(f)) ==>
      && ReadEhdr(f).phoff <= |f| && ReadEhdr(f).phoff + PHSIZE * ReadEhdr(f).phnum < WORD
      && (HasTable(f) ==> forall k :: 0 <= k < |Phdrs(f)| && Loadable(Phdrs(f)[k]) ==> Sane(Phdrs(f)[k], |f|)))
  }

  /** A sane file never strays. */
  lemma SaneNeverStrays(g: Geometry, f: seq<byte>, base: U64, env: LoadEnv)
    requires g.Valid() && g.page > 0 && 0 <= g.base < WORD && GoodBase(g, base) && SaneFile(f)
    ensures !LoadStrays(g, f, base, env)
  {
    hide Truncp, Ceilp, IsPow2, ReadEhdr, Passes, Strays;
    GeometryFacts(g);
    if EHSIZE <= |f| && ElfCheck(ReadEhdr(f)) && HasTable(f) {
      var prog := Parse(f);
      forall k | 0 <= k < |prog.headers| && Loadable(prog.headers[k]) && Passes(prog.headers[k], g.page, prog.exec, Delta(g, base))
        ensures !Strays(f, prog.headers[k])
      {
        SaneStays(g, base, prog, prog.headers[k]);
      }
    }
  }

  lemma SaneStays(g: Geometry, base: U64, prog: Program, p: Phdr)
    requires g.Valid() && g.page > 0 && GoodBase(g, base) && Passes(p, g.page, prog.exec, Delta(g, base))
    requires |prog.file| < WORD && Sane(p, |prog.file|)
    ensures !Strays(prog.file, p)
  {
    hide Truncp, Ceilp;
    GeometryFacts(g);
    ChecksSufficeIff(p, g.page, prog.exec, Delta(g, base));
  }

  // ---------------------------------------------------------------- files made of given headers

  /** Segment p fits: at most as many file bytes as memory, all of them in the file, page-aligned
      alignment, and between the start of the space, or the base, and 1 GiB above the base. */
  ghost predicate Fitting(g: Geometry, base: int, exec: bool, p: Phdr, size: nat)
    requires g.page > 0
  {
    var shift := if exec then base - g.base else 0;
    && p.align > 0 && p.filesz <= p.memsz && p.offset + p.filesz <= size && p.align % g.page == 0
    && shift <= p.vaddr - p.vaddr % p.align && RoundUp(p.vaddr + p.memsz, p.align) - shift < 0x4000_0000
  }

  /** A header whose segment and alignment are as the ELF format asks for. */
  ghost predicate Regular(p: Phdr) {
    IsPow2(p.align) && p.align > 0 && p.vaddr + p.memsz + p.align - 1 < WORD
  }

  lemma AcceptedIff(g: Geometry, base: U64, prog: Program, p: Phdr)
    requires g.Valid() && g.page > 0 && 0 <= g.base < WORD && GoodBase(g, base) && base != 0
    requires |prog.file| < WORD && Loadable(p) && Regular(p)
    ensures Accepted(g, prog, base, p) <==> Fitting(g, base, prog.exec, p, |prog.file|)
  {
    GeometryFacts(g);
    PassesIff(p, g.page, prog.exec, Delta(g, base));
    if Passes(p, g.page, prog.exec, Delta(g, base)) {
      ContainedIffNoWrap(p, g.page, prog.exec, Delta(g, base));
    }
    hide Truncp, Ceilp, RoundUp, IsPow2;
  }

  /** For regular headers, exactly which files are accepted, by their bytes. */
  lemma AcceptsIff(g: Geometry, f: seq<byte>, base: U64)
    requires g.Valid() && g.page > 0 && 0 <= g.base < WORD && GoodBase(g, base) && base != 0 && 64 <= |f| < WORD
    requires HasTable(f) && forall k :: 0 <= k < |Phdrs(f)| && Loadable(Phdrs(f)[k]) ==> Regular(Phdrs(f)[k])
    ensures Accepts(g, f, base) <==>
      && f[..5] == [0x7F, 0x45, 0x4C, 0x46, 2] && LE(f[20..24]) == 1 && (U16At(f, 16) == 2 || U16At(f, 16) == 3)
      && U64At(f, 24) < 0x4000_0000
      && forall k :: 0 <= k < |Phdrs(f)| && Loadable(Phdrs(f)[k]) ==>
        Fitting(g, base, U16At(f, 16) == 2, Phdrs(f)[k], |f|)
  {
    HeaderBytes(f);
    hide LE, U64At, Fitting, Accepted, IsPow2;
    forall k | 0 <= k < |Phdrs(f)| && Loadable(Phdrs(f)[k])
      ensures Accepted(g, Parse(f), base, Phdrs(f)[k]) <==> Fitting(g, base, U16At(f, 16) == 2, Phdrs(f)[k], |f|)
    {
      AcceptedIff(g, base, Parse(f), Phdrs(f)[k]);
    }
  }

  /** A file whose header h and table ps are encoded as the format asks for, as the loader sees it:
      a successful load puts the segments of exactly those headers into memory, enters at h.entry,
      and reports their bounds. */
  lemma LoadsGivenHeaders(g: Geometry, f: seq<byte>, base: U64, r: LoadResult, s: Space,
                          h: Ehdr, ident: seq<byte>, machine: nat, skip: seq<byte>, tail: seq<byte>,
                          before: seq<byte>, ps: seq<Phdr>, paddrs: seq<U64>, after: seq<byte>, k: nat)
    requires h.magic < 0x1_0000_0000 && h.width < 256 && h.etype < 0x1_0000 && h.version < 0x1_0000_0000
    requires h.phentsize < 0x1_0000 && h.phnum < 0x1_0000 && |ident| == 11 && |skip| == 14 && |tail| >= 6
    requires f == EncodeEhdr(h, ident, machine, skip + ToLE(h.phentsize, 2) + ToLE(h.phnum, 2) + tail)
    requires |ps| == |paddrs| == h.phnum && f == before + EncodeTable(ps, paddrs) + after && |before| == h.phoff
    requires forall i :: 0 <= i < |ps| ==> ps[i].ptype < 0x1_0000_0000 && ps[i].flags < 0x1_0000_0000
    requires r.Loaded? && InMemory(g, f, base, r, s) && k < |ps|
    ensures HasTable(f) && Phdrs(f) == ps
    ensures h.magic == 0x464C457F && h.width == 2 && h.version == 1 && (h.etype == 2 || h.etype == 3)
    ensures
      var bias := if h.etype == 2 then g.base else base;
      && r.entry == bias + h.entry
      && (ps[k].ptype == 1 && ps[k].memsz > 0 && Topmost(ps, k) ==> HoldsSegment(f, ps[k], bias, s))
  {
    EhdrRoundTrip(h, ident, machine, skip, tail);
    HeaderBytes(f);
    TableRoundTrip(f, before, ps, paddrs, after);
    hide LE, U64At, EncodeEhdr, EncodeTable, HoldsSegment, Topmost;
  }
}
