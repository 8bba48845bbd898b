/** The initial stack: stacksetup of src/proc.c against the layout that section 3.4.1 of the
    System V AMD64 psABI prescribes for a starting process. */
module Stack {
  import opened Align
  import opened Bytes
  import opened AddressSpace
  import opened Wrappers

  const ARGC_MAX := 1024
  const ARGV_MAX := 1024
  const ARG_BLOCK := 4096

  const AT_NULL := 0
  const AT_PHDR := 3
  const AT_PHENT := 4
  const AT_PHNUM := 5
  const AT_PAGESZ := 6
  const AT_BASE := 7
  const AT_FLAGS := 8
  const AT_ENTRY := 9
  const AT_UID := 11
  const AT_EUID := 12
  const AT_GID := 13
  const AT_EGID := 14
  const AT_HWCAP := 16
  const AT_HWCAP2 := 17
  const AT_SECURE := 23
  const AT_RANDOM := 25
  const AT_EXECFN := 31
  const AT_SYSINFO := 32
  const AT_SYSINFO_EHDR := 33

  datatype Aux = Aux(key: U64, val: U64)

  datatype LoadInfo = LoadInfo(stack: int, stacksize: int, lastva: int, elfentry: U64, ldentry: int,
                               elfbase: U64, ldbase: U64, phoff: U64, phnum: U64, phentsize: U64)

  /** Overflow is a store past the end of the pointer array or of the stack; the model stops
      before it. */
  datatype StackResult = Ready(sp: int) | TooLong | NullName | Overflow

  datatype StringsResult = Copied(ptrs: seq<U64>) | NoRoom | NoPointer

  function AuxList(info: LoadInfo, execfn: U64, page: U64): (l: seq<Aux>)
    ensures |l| == 19
    ensures l[18] == Aux(AT_NULL, 0) && forall i :: 0 <= i < 18 ==> l[i].key != AT_NULL
  {
    [ Aux(AT_SECURE, 0), Aux(AT_BASE, info.ldbase), Aux(AT_PHDR, Add64(info.elfbase, info.phoff)),
      Aux(AT_PHNUM, info.phnum), Aux(AT_PHENT, info.phentsize), Aux(AT_ENTRY, info.elfentry),
      Aux(AT_EXECFN, execfn), Aux(AT_PAGESZ, page), Aux(AT_HWCAP, 0), Aux(AT_HWCAP2, 0),
      Aux(AT_RANDOM, execfn), Aux(AT_FLAGS, 0), Aux(AT_UID, 1000), Aux(AT_EUID, 1000),
      Aux(AT_GID, 1000), Aux(AT_EGID, 1000), Aux(AT_SYSINFO, 0), Aux(AT_SYSINFO_EHDR, 0), Aux(AT_NULL, 0) ]
  }

  // ---------------------------------------------------------------- the reader

  /** What a program finds on its stack: arguments, environment and auxiliary vector. */
  datatype Start = Start(argv: seq<seq<byte>>, envp: seq<seq<byte>>, auxv: seq<Aux>)

  /** At a stand n pointers to the strings s, none of them null, and then a null pointer. */
  ghost predicate HoldsStrings(m: Memory, a: int, s: seq<seq<byte>>) {
    && (forall i :: 0 <= i < |s| ==> Word(m, a + 8 * i) != 0 && IsCString(m, Word(m, a + 8 * i), s[i]))
    && Word(m, a + 8 * |s|) == 0
  }

  /** At a stand the pairs of l, of which only the last is AT_NULL. */
  ghost predicate HoldsAux(m: Memory, a: int, l: seq<Aux>) {
    && l != [] && l[|l| - 1].key == AT_NULL
    && (forall i :: 0 <= i < |l| - 1 ==> l[i].key != AT_NULL)
    && (forall i :: 0 <= i < |l| ==> Word(m, a + 16 * i) == l[i].key && Word(m, a + 16 * i + 8) == l[i].val)
  }

  ghost predicate Reads(m: Memory, sp: int, s: Start) {
    && Word(m, sp) == |s.argv|
    && HoldsStrings(m, sp + 8, s.argv)
    && HoldsStrings(m, sp + 16 + 8 * |s.argv|, s.envp)
    && HoldsAux(m, sp + 24 + 8 * |s.argv| + 8 * |s.envp|, s.auxv)
  }

  /** Reading a stack has at most one outcome. */
  lemma ReadsUnique(m: Memory, sp: int, s: Start, t: Start)
    requires Reads(m, sp, s) && Reads(m, sp, t)
    ensures s == t
  {
    hide Word, HoldsStrings, HoldsAux;
    StringsUnique(m, sp + 8, s.argv, t.argv);
    StringsUnique(m, sp + 16 + 8 * |s.argv|, s.envp, t.envp);
    AuxUnique(m, sp + 24 + 8 * |s.argv| + 8 * |s.envp|, s.auxv, t.auxv);
  }

  lemma StringsUnique(m: Memory, a: int, s: seq<seq<byte>>, t: seq<seq<byte>>)
    requires HoldsStrings(m, a, s) && HoldsStrings(m, a, t)
    ensures s == t
  {
    hide Word, IsCString;
    if |s| < |t| {
      StringsGoOn(m, a, t, |s|);
    } else if |t| < |s| {
      StringsGoOn(m, a, s, |t|);
    }
    forall i | 0 <= i < |s| && i < |t| ensures s[i] == t[i] {
      CStringUnique(m, Word(m, a + 8 * i), s[i], t[i]);
    }
  }

  lemma StringsGoOn(m: Memory, a: int, s: seq<seq<byte>>, i: int)
    requires HoldsStrings(m, a, s) && 0 <= i < |s|
    ensures Word(m, a + 8 * i) != 0
  {
    hide Word;
    var x := s[i];
  }

  lemma AuxUnique(m: Memory, a: int, l: seq<Aux>, k: seq<Aux>)
    requires HoldsAux(m, a, l) && HoldsAux(m, a, k)
    ensures l == k
  {
    hide Word;
    AuxEnds(m, a, l);
    AuxEnds(m, a, k);
    if |l| < |k| {
      AuxGoesOn(m, a, k, |l| - 1);
    } else if |k| < |l| {
      AuxGoesOn(m, a, l, |k| - 1);
    }
    forall i | 0 <= i < |l| && i < |k| ensures l[i] == k[i] {
      var x, y := l[i], k[i];
    }
  }

  lemma AuxEnds(m: Memory, a: int, l: seq<Aux>)
    requires HoldsAux(m, a, l)
    ensures Word(m, a + 16 * (|l| - 1)) == AT_NULL
  {
    hide Word;
    var x := l[|l| - 1];
  }

  lemma AuxGoesOn(m: Memory, a: int, l: seq<Aux>, i: int)
    requires HoldsAux(m, a, l) && 0 <= i < |l| - 1
    ensures Word(m, a + 16 * i) != AT_NULL
  {
    hide Word;
    var x := l[i];
  }

  /** What getauxval finds: the value of the first pair with the key. */
  function Getauxval(l: seq<Aux>, key: U64): Option<U64> {
    if l == [] then None else if l[0].key == key then Some(l[0].val) else Getauxval(l[1..], key)
  }

  lemma {:induction false} GetauxvalAt(l: seq<Aux>, i: nat)
    requires i < |l| && forall j :: 0 <= j < i ==> l[j].key != l[i].key
    ensures Getauxval(l, l[i].key) == Some(l[i].val)
  {
    if i > 0 {
      GetauxvalAt(l[1..], i - 1);
    }
  }

  /** No key is given twice, so every pair of the vector is the one that is found. */
  lemma AuxFound(info: LoadInfo, execfn: U64, page: U64, i: nat)
    requires i < 19
    ensures var l := AuxList(info, execfn, page); Getauxval(l, l[i].key) == Some(l[i].val)
  {
    hide Getauxval;
    GetauxvalAt(AuxList(info, execfn, page), i);
  }

  /** A program that asks for any of the eighteen keys, by their numbers in the ELF format, gets what
      the loader placed, or the constant that stands for it. */
  lemma AuxValues(info: LoadInfo, execfn: U64, page: U64)
    ensures
      var l := AuxList(info, execfn, page);
      && Getauxval(l, 3) == Some(Add64(info.elfbase, info.phoff))
      && Getauxval(l, 4) == Some(info.phentsize)
      && Getauxval(l, 5) == Some(info.phnum)
      && Getauxval(l, 6) == Some(page)
      && Getauxval(l, 7) == Some(info.ldbase)
      && Getauxval(l, 9) == Some(info.elfentry)
      && Getauxval(l, 25) == Some(execfn)
      && Getauxval(l, 31) == Some(execfn)
  {
    hide Getauxval;
    var l := AuxList(info, execfn, page);
    AuxFound(info, execfn, page, 1);
    AuxFound(info, execfn, page, 2);
    AuxFound(info, execfn, page, 3);
    AuxFound(info, execfn, page, 4);
    AuxFound(info, execfn, page, 5);
    AuxFound(info, execfn, page, 6);
    AuxFound(info, execfn, page, 7);
    AuxFound(info, execfn, page, 10);
  }

  lemma AuxConstants(info: LoadInfo, execfn: U64, page: U64)
    ensures
      var l := AuxList(info, execfn, page);
      && Getauxval(l, 8) == Getauxval(l, 16) == Getauxval(l, 17) == Some(0)
      && Getauxval(l, 23) == Getauxval(l, 32) == Getauxval(l, 33) == Some(0)
      && Getauxval(l, 11) == Getauxval(l, 12) == Getauxval(l, 13) == Getauxval(l, 14) == Some(1000)
  {
    hide Getauxval;
    var l := AuxList(info, execfn, page);
    AuxFound(info, execfn, page, 0);
    AuxFound(info, execfn, page, 8);
    AuxFound(info, execfn, page, 9);
    AuxFound(info, execfn, page, 11);
    AuxFound(info, execfn, page, 12);
    AuxFound(info, execfn, page, 13);
    AuxFound(info, execfn, page, 14);
    AuxFound(info, execfn, page, 15);
    AuxFound(info, execfn, page, 16);
    AuxFound(info, execfn, page, 17);
  }

  // ---------------------------------------------------------------- the writer

  function Stored(s: seq<byte>): seq<byte> {
    Cut(s, ARGV_MAX) + [0]
  }

  /** Bytes taken by the first n arguments, each cut and terminated. */
  function Taken(argv: seq<seq<byte>>, n: nat): nat
    requires n <= |argv|
  {
    if n == 0 then 0 else Taken(argv, n - 1) + |Stored(argv[n - 1])|
  }

  lemma {:induction false} TakenGrows(argv: seq<seq<byte>>, i: nat, j: nat)
    requires i <= j <= |argv|
    ensures Taken(argv, i) <= Taken(argv, j)
  {
    if i < j {
      TakenGrows(argv, i, j - 1);
    }
  }

  /** The first n arguments one behind the other, each cut and terminated. */
  function Strings(argv: seq<seq<byte>>, n: nat): (r: seq<byte>)
    requires n <= |argv|
    ensures |r| == Taken(argv, n)
  {
    if n == 0 then [] else Strings(argv, n - 1) + Stored(argv[n - 1])
  }

  /** Where the first n arguments stand. */
  function Pointers(blk: U64, argv: seq<seq<byte>>, n: nat): (r: seq<U64>)
    requires n <= |argv| && blk + Taken(argv, n) < WORD
    ensures |r| == n && forall j :: 0 <= j < n ==> r[j] == blk + Taken(argv, j)
  {
    if n == 0 then [] else Pointers(blk, argv, n - 1) + [blk + Taken(argv, n - 1)]
  }

  predicate NoNuls(argv: seq<seq<byte>>) {
    forall i :: 0 <= i < |argv| ==> NoNul(argv[i])
  }

  /** Argument j stands in the block behind the arguments before it. */
  ghost predicate StandsAt(m: Memory, blk: int, argv: seq<seq<byte>>, j: nat)
    requires j < |argv|
  {
    IsCString(m, blk + Taken(argv, j), Cut(argv[j], ARGV_MAX))
  }

  /** A stored argument is the C string of the cut argument. */
  lemma StoredIsCString(m: Memory, a: int, s: seq<byte>)
    requires NoNul(s)
    ensures IsCString(m, a, Cut(s, ARGV_MAX)) <==> Read(m, a, |Stored(s)|) == Stored(s)
  {
    var t, r := Cut(s, ARGV_MAX), Read(m, a, |Stored(s)|);
    if r == Stored(s) {
      forall i | 0 <= i < |t| ensures m(a + i) == t[i] && t[i] != 0 {
        assert r[i] == Stored(s)[i] == s[i];
      }
      assert r[|t|] == 0;
    }
  }

  lemma ReadSplit(m: Memory, a: int, i: nat, j: nat)
    ensures Read(m, a, i + j) == Read(m, a, i) + Read(m, a + i, j)
  {
  }

  /** The block of strings, byte by byte, is its C strings. */
  lemma {:induction false} StringsStand(m: Memory, blk: int, argv: seq<seq<byte>>, n: nat)
    requires n <= |argv| && NoNuls(argv)
    ensures Read(m, blk, Taken(argv, n)) == Strings(argv, n) <==>
      forall j :: 0 <= j < n ==> StandsAt(m, blk, argv, j)
  {
    if n > 0 {
      StringsStand(m, blk, argv, n - 1);
      LastStands(m, blk, argv, n);
      hide *;
    }
  }

  lemma LastStands(m: Memory, blk: int, argv: seq<seq<byte>>, n: nat)
    requires 0 < n <= |argv| && NoNuls(argv)
    ensures Read(m, blk, Taken(argv, n)) == Strings(argv, n) <==>
      Read(m, blk, Taken(argv, n - 1)) == Strings(argv, n - 1) && StandsAt(m, blk, argv, n - 1)
  {
    hide IsCString, Stored, Read;
    StoredIsCString(m, blk + Taken(argv, n - 1), argv[n - 1]);
    var i, j := Taken(argv, n - 1), |Stored(argv[n - 1])|;
    ReadSplit(m, blk, i, j);
    SameParts(Read(m, blk, i), Read(m, blk + i, j), Strings(argv, n - 1), Stored(argv[n - 1]));
  }

  lemma SameParts(s: seq<byte>, s': seq<byte>, t: seq<byte>, t': seq<byte>)
    requires |s| == |t|
    ensures s + s' == t + t' <==> s == t && s' == t'
  {
    if s + s' == t + t' {
      assert s == (s + s')[..|s|] && t == (t + t')[..|t|];
      assert s' == (s + s')[|s|..] && t' == (t + t')[|t|..];
    }
  }

  /** How many strings the loop tries: one more than it has pointers for. */
  function Tried(argv: seq<seq<byte>>): (n: nat)
    ensures n <= |argv|
  {
    if |argv| <= ARGC_MAX then |argv| else ARGC_MAX + 1
  }

  /** The loop that copies the argument strings into their block. */
  method WriteStrings(vm: AddrSpace, blk: U64, argv: seq<seq<byte>>) returns (r: StringsResult)
    requires blk + ARG_BLOCK < WORD
    modifies vm`mem
    ensures r.NoRoom? <==> Taken(argv, if |argv| <= 1024 then |argv| else 1025) >= 4096
    ensures r.NoPointer? <==> !r.NoRoom? && |argv| > 1024
    ensures r.Copied? ==> Taken(argv, |argv|) < ARG_BLOCK
    ensures r.Copied? ==> Read(vm.mem, blk, Taken(argv, |argv|)) == Strings(argv, |argv|)
    ensures r.Copied? ==> r.ptrs == Pointers(blk, argv, |argv|)
    ensures forall x :: !(blk <= x < blk + ARG_BLOCK) ==> vm.mem(x) == old(vm.mem)(x)
  {
    SizeZero(argv);
    hide Stored, Taken, Strings, Pointers, Read;
    var p, ptrs := blk, [];
    for i := 0 to |argv|
      invariant blk <= p < blk + ARG_BLOCK && p == blk + Taken(argv, i) && i <= ARGC_MAX
      invariant Read(vm.mem, blk, Taken(argv, i)) == Strings(argv, i) && ptrs == Pointers(blk, argv, i)
      invariant forall x :: !(blk <= x < blk + ARG_BLOCK) ==> vm.mem(x) == old(vm.mem)(x)
    {
      var len := |Stored(argv[i])|;
      TakenGrows(argv, i + 1, Tried(argv));
      StringsStep(vm.mem, blk, argv, i);
      if p + len >= blk + ARG_BLOCK {
        return NoRoom;
      }
      vm.mem := Put(vm.mem, p, Stored(argv[i]));
      if i == ARGC_MAX {
        return NoPointer;
      }
      ptrs, p := ptrs + [p], p + len;
    }
    return Copied(ptrs);
  }

  lemma SizeZero(argv: seq<seq<byte>>)
    ensures Taken(argv, 0) == 0 && Strings(argv, 0) == []
  {
  }

  /** Copying the next string extends the block by it. */
  lemma StringsStep(m: Memory, blk: U64, argv: seq<seq<byte>>, i: nat)
    requires i < |argv| && Read(m, blk, Taken(argv, i)) == Strings(argv, i)
    ensures Taken(argv, i + 1) == Taken(argv, i) + |Stored(argv[i])|
    ensures Read(Put(m, blk + Taken(argv, i), Stored(argv[i])), blk, Taken(argv, i + 1)) == Strings(argv, i + 1)
    ensures blk + Taken(argv, i + 1) < WORD ==>
      Pointers(blk, argv, i + 1) == Pointers(blk, argv, i) + [blk + Taken(argv, i)]
  {
    hide Stored, Read;
    PutBehind(m, blk, Taken(argv, i), Stored(argv[i]));
  }

  lemma PutBehind(m: Memory, a: int, n: nat, s: seq<byte>)
    ensures Read(Put(m, a + n, s), a, n + |s|) == Read(m, a, n) + s
  {
  }

  ghost predicate WordsWritten(m: Memory, a: int, ws: seq<U64>, n: nat)
    requires n <= |ws|
  {
    forall k :: 0 <= k < n ==> Word(m, a + 8 * k) == ws[k]
  }

  lemma WordStep(m: Memory, a: int, ws: seq<U64>, n: nat)
    requires n < |ws| && WordsWritten(m, a, ws, n)
    ensures WordsWritten(Put(m, a + 8 * n, ToLE(ws[n], 8)), a, ws, n + 1)
  {
    var m' := Put(m, a + 8 * n, ToLE(ws[n], 8));
    PutWord(m, a + 8 * n, ws[n]);
    forall k | 0 <= k < n ensures Word(m', a + 8 * k) == ws[k] {
      WordFrame(m, m', a + 8 * k);
    }
  }

  method WriteWords(vm: AddrSpace, a: int, ws: seq<U64>)
    modifies vm`mem
    ensures WordsWritten(vm.mem, a, ws, |ws|)
    ensures forall x :: !(a <= x < a + 8 * |ws|) ==> vm.mem(x) == old(vm.mem)(x)
  {
    for i := 0 to |ws|
      invariant WordsWritten(vm.mem, a, ws, i)
      invariant forall x :: !(a <= x < a + 8 * |ws|) ==> vm.mem(x) == old(vm.mem)(x)
    {
      WordStep(vm.mem, a, ws, i);
      vm.mem := Put(vm.mem, a + 8 * i, ToLE(ws[i], 8));
    }
  }

  function AuxWords(l: seq<Aux>): (ws: seq<U64>)
    ensures |ws| == 2 * |l|
    ensures forall i :: 0 <= i < |l| ==> ws[2 * i] == l[i].key && ws[2 * i + 1] == l[i].val
  {
    if l == [] then [] else AuxWords(l[..|l| - 1]) + [l[|l| - 1].key, l[|l| - 1].val]
  }

  function Words(ptrs: seq<U64>, l: seq<Aux>): (ws: seq<U64>)
    requires |ptrs| < WORD
    ensures |ws| == |ptrs| + 3 + 2 * |l|
    ensures ws[0] == |ptrs| && ws[|ptrs| + 1] == 0 && ws[|ptrs| + 2] == 0
    ensures forall i :: 0 <= i < |ptrs| ==> ws[1 + i] == ptrs[i]
    ensures forall i :: 0 <= i < |l| ==> ws[|ptrs| + 3 + 2 * i] == l[i].key && ws[|ptrs| + 3 + 2 * i + 1] == l[i].val
  {
    [|ptrs|] + ptrs + [0, 0] + AuxWords(l)
  }

  function CutAll(argv: seq<seq<byte>>): (r: seq<seq<byte>>)
    ensures |r| == |argv| && forall i :: 0 <= i < |argv| ==> r[i] == Cut(argv[i], ARGV_MAX)
  {
    seq(|argv|, i requires 0 <= i < |argv| => Cut(argv[i], ARGV_MAX))
  }

  /** The words of a start as they are read: argc, pointers, two null pointers, and pairs. */
  ghost predicate WordsAt(m: Memory, sp: int, blk: int, argv: seq<seq<byte>>, l: seq<Aux>) {
    var n := |argv|;
    && Word(m, sp) == n && Word(m, sp + 8 + 8 * n) == 0 && Word(m, sp + 16 + 8 * n) == 0
    && (forall i :: 0 <= i < n ==> Word(m, sp + 8 + 8 * i) == blk + Taken(argv, i))
    && (forall i :: 0 <= i < |l| ==>
      Word(m, sp + 24 + 8 * n + 16 * i) == l[i].key && Word(m, sp + 24 + 8 * n + 16 * i + 8) == l[i].val)
  }

  lemma WordsFound(m: Memory, sp: int, blk: U64, argv: seq<seq<byte>>, l: seq<Aux>)
    requires Fits(blk, argv) && WordsWritten(m, sp, StartWords(blk, argv, l), |StartWords(blk, argv, l)|)
    ensures WordsAt(m, sp, blk, argv, l)
  {
    hide Word, StartWords, Taken, Words, Pointers;
    StartWordsAre(blk, argv, l);
    var ws, n := StartWords(blk, argv, l), |argv|;
    assert Word(m, sp + 8 * 0) == ws[0];
    assert sp + 8 + 8 * n == sp + 8 * (n + 1) && Word(m, sp + 8 * (n + 1)) == ws[n + 1];
    assert sp + 16 + 8 * n == sp + 8 * (n + 2) && Word(m, sp + 8 * (n + 2)) == ws[n + 2];
    forall i | 0 <= i < n ensures Word(m, sp + 8 + 8 * i) == blk + Taken(argv, i) {
      assert sp + 8 + 8 * i == sp + 8 * (1 + i) && Word(m, sp + 8 * (1 + i)) == ws[1 + i];
    }
    var at := sp + 24 + 8 * n;
    forall i | 0 <= i < |l| ensures Word(m, at + 16 * i) == l[i].key && Word(m, at + 16 * i + 8) == l[i].val {
      assert at + 16 * i == sp + 8 * (n + 3 + 2 * i) && Word(m, sp + 8 * (n + 3 + 2 * i)) == ws[n + 3 + 2 * i];
      assert at + 16 * i + 8 == sp + 8 * (n + 3 + 2 * i + 1);
      assert Word(m, sp + 8 * (n + 3 + 2 * i + 1)) == ws[n + 3 + 2 * i + 1];
    }
  }

  /** Over those words, exactly standing strings are read as the arguments. */
  lemma ArgumentsIff(m: Memory, sp: int, blk: int, argv: seq<seq<byte>>, l: seq<Aux>)
    requires 0 < blk && WordsAt(m, sp, blk, argv, l)
    ensures HoldsStrings(m, sp + 8, CutAll(argv)) <==> forall j :: 0 <= j < |argv| ==> StandsAt(m, blk, argv, j)
  {
    hide Word, CutAll, Taken, IsCString;
    var r := CutAll(argv);
    if HoldsStrings(m, sp + 8, r) {
      forall j | 0 <= j < |argv| ensures StandsAt(m, blk, argv, j) {
        assert IsCString(m, Word(m, sp + 8 + 8 * j), r[j]);
      }
    }
    if forall j :: 0 <= j < |argv| ==> StandsAt(m, blk, argv, j) {
      forall i | 0 <= i < |r| ensures Word(m, sp + 8 + 8 * i) != 0 && IsCString(m, Word(m, sp + 8 + 8 * i), r[i]) {
        assert StandsAt(m, blk, argv, i);
      }
    }
  }

  /** The written words, over standing strings, read back as the process's start. */
  lemma WordsReadBack(m: Memory, sp: int, blk: U64, argv: seq<seq<byte>>, l: seq<Aux>)
    requires 0 < blk && Fits(blk, argv) && NoNuls(argv)
    requires WordsWritten(m, sp, StartWords(blk, argv, l), |StartWords(blk, argv, l)|)
    requires Read(m, blk, Taken(argv, |argv|)) == Strings(argv, |argv|)
    requires l != [] && l[|l| - 1].key == AT_NULL && forall i :: 0 <= i < |l| - 1 ==> l[i].key != AT_NULL
    ensures Reads(m, sp, Start(CutAll(argv), [], l))
  {
    hide Word, Taken, StandsAt, Strings, Read, StartWords, WordsWritten, CutAll, HoldsStrings, HoldsAux, WordsAt, Pointers;
    StringsStand(m, blk, argv, |argv|);
    WordsFound(m, sp, blk, argv, l);
    ArgumentsIff(m, sp, blk, argv, l);
    RestHeld(m, sp, blk, argv, l);
  }

  lemma RestHeld(m: Memory, sp: int, blk: int, argv: seq<seq<byte>>, l: seq<Aux>)
    requires WordsAt(m, sp, blk, argv, l)
    requires l != [] && l[|l| - 1].key == AT_NULL && forall i :: 0 <= i < |l| - 1 ==> l[i].key != AT_NULL
    ensures Word(m, sp) == |argv| && HoldsStrings(m, sp + 16 + 8 * |argv|, []) && HoldsAux(m, sp + 24 + 8 * |argv|, l)
  {
    hide Word, Taken;
  }

  /** Conversely, whoever reads the arguments over those words reads the strings. */
  lemma ArgumentsNeedStrings(m: Memory, sp: int, blk: U64, argv: seq<seq<byte>>, l: seq<Aux>, s: Start)
    requires 0 < blk && Fits(blk, argv) && NoNuls(argv)
    requires WordsWritten(m, sp, StartWords(blk, argv, l), |StartWords(blk, argv, l)|)
    requires Reads(m, sp, s) && s.argv == CutAll(argv)
    ensures Read(m, blk, Taken(argv, |argv|)) == Strings(argv, |argv|)
  {
    StringsStand(m, blk, argv, |argv|);
    WordsFound(m, sp, blk, argv, l);
    ArgumentsIff(m, sp, blk, argv, l);
  }

  // ---------------------------------------------------------------- when the words reach the strings

  /** Bytes of the word block, which begins one block below the strings. */
  function WordBytes(argc: nat): nat {
    8 * (argc + 41)
  }

  /** The last argument count whose words stay below the strings, and on the stack. */
  const ARGC_FIT := 471
  const ARGC_TOP := 983

  /** The strings fit into the block at blk, which fits into the address range. */
  predicate Fits(blk: U64, argv: seq<seq<byte>>) {
    Taken(argv, |argv|) < ARG_BLOCK && blk + ARG_BLOCK < WORD && |argv| < WORD
  }

  function StartWords(blk: U64, argv: seq<seq<byte>>, l: seq<Aux>): (ws: seq<U64>)
    requires Fits(blk, argv)
    ensures |ws| == |argv| + 3 + 2 * |l|
  {
    Words(Pointers(blk, argv, |argv|), l)
  }

  lemma StartWordsAre(blk: U64, argv: seq<seq<byte>>, l: seq<Aux>)
    requires Fits(blk, argv)
    ensures
      var ws, n := StartWords(blk, argv, l), |argv|;
      && ws[0] == n && ws[n + 1] == 0 && ws[n + 2] == 0
      && (forall i :: 0 <= i < n ==> ws[1 + i] == blk + Taken(argv, i))
      && (forall i :: 0 <= i < |l| ==> ws[n + 3 + 2 * i] == l[i].key && ws[n + 3 + 2 * i + 1] == l[i].val)
  {
    hide Taken, Words, Pointers;
    var ptrs, ws := Pointers(blk, argv, |argv|), StartWords(blk, argv, l);
    forall i | 0 <= i < |argv| ensures ws[1 + i] == blk + Taken(argv, i) {
      assert ws[1 + i] == ptrs[i];
    }
  }

  /** Byte k of words in memory. */
  function WordByte(ws: seq<U64>, k: nat): byte
    requires k < 8 * |ws|
  {
    ToLE(ws[k / 8], 8)[k % 8]
  }

  /** Byte k of the words that reach beyond their own block. */
  function Spilled(ws: seq<U64>, k: nat): byte
    requires ARG_BLOCK + k < 8 * |ws|
  {
    WordByte(ws, ARG_BLOCK + k)
  }

  lemma WordsAreBytes(m: Memory, a: int, ws: seq<U64>, k: nat)
    requires WordsWritten(m, a, ws, |ws|) && k < 8 * |ws|
    ensures m(a + k) == WordByte(ws, k)
  {
    hide LE, ToLE;
    var i := k / 8;
    assert Word(m, a + 8 * i) == ws[i];
    LEInverse(Read(m, a + 8 * i, 8));
    assert Read(m, a + 8 * i, 8)[k % 8] == m(a + 8 * i + k % 8);
  }

  /** The words that reach into the block of strings happen to be the bytes that stand there. */
  predicate Unharmed(blk: U64, argv: seq<seq<byte>>, l: seq<Aux>)
    requires Fits(blk, argv) && |l| == 19
  {
    forall k :: 0 <= k < Taken(argv, |argv|) && k < WordBytes(|argv|) - ARG_BLOCK ==>
      Spilled(StartWords(blk, argv, l), k) == Strings(argv, |argv|)[k]
  }

  /** The start of a process in memory: the words, and what they leave of the strings. */
  ghost predicate StartWritten(m: Memory, blk: U64, argv: seq<seq<byte>>, l: seq<Aux>)
    requires Fits(blk, argv) && |l| == 19
  {
    && WordsWritten(m, blk - ARG_BLOCK, StartWords(blk, argv, l), |StartWords(blk, argv, l)|)
    && forall k :: 0 <= k < Taken(argv, |argv|) && WordBytes(|argv|) - ARG_BLOCK <= k ==>
      m(blk + k) == Strings(argv, |argv|)[k]
  }

  lemma StringsStandIff(m: Memory, blk: U64, argv: seq<seq<byte>>, l: seq<Aux>)
    requires Fits(blk, argv) && |l| == 19 && StartWritten(m, blk, argv, l)
    ensures Read(m, blk, Taken(argv, |argv|)) == Strings(argv, |argv|) <==> Unharmed(blk, argv, l)
  {
    hide Words, WordsWritten, Taken, Strings, WordByte, StartWords;
    var n, ws, t, over := Taken(argv, |argv|), StartWords(blk, argv, l), Strings(argv, |argv|), WordBytes(|argv|) - ARG_BLOCK;
    forall k | 0 <= k < n && k < over ensures m(blk + k) == Spilled(ws, k) {
      WordsAreBytes(m, blk - ARG_BLOCK, ws, ARG_BLOCK + k);
    }
    if Unharmed(blk, argv, l) {
      forall k | 0 <= k < n ensures Read(m, blk, n)[k] == t[k] {
        assert k < over ==> Spilled(ws, k) == t[k];
      }
    } else {
      var k :| 0 <= k < n && k < over && Spilled(ws, k) != t[k];
      assert Read(m, blk, n)[k] == m(blk + k);
    }
  }

  /** For any number of arguments the start reads back if and only if the strings are unharmed;
      otherwise no reading of the stack gives the arguments. */
  lemma StartReadsIff(m: Memory, blk: U64, argv: seq<seq<byte>>, l: seq<Aux>)
    requires 0 < blk && Fits(blk, argv) && NoNuls(argv) && |l| == 19 && StartWritten(m, blk, argv, l)
    requires l[18] == Aux(AT_NULL, 0) && forall i :: 0 <= i < 18 ==> l[i].key != AT_NULL
    ensures Reads(m, blk - ARG_BLOCK, Start(CutAll(argv), [], l)) <==> Unharmed(blk, argv, l)
    ensures forall s :: Reads(m, blk - ARG_BLOCK, s) && s.argv == CutAll(argv) ==> Unharmed(blk, argv, l)
    ensures |argv| <= ARGC_FIT ==> Unharmed(blk, argv, l)
  {
    hide Words, Reads, WordsWritten, Taken, Strings, CutAll, StartWords, WordByte;
    StringsStandIff(m, blk, argv, l);
    if Unharmed(blk, argv, l) {
      WordsReadBack(m, blk - ARG_BLOCK, blk, argv, l);
    }
    forall s | Reads(m, blk - ARG_BLOCK, s) && s.argv == CutAll(argv) ensures Unharmed(blk, argv, l) {
      ArgumentsNeedStrings(m, blk - ARG_BLOCK, blk, argv, l, s);
    }
  }

  /** With 472 arguments one zero word reaches the strings: the first eight must be empty. */
  lemma UnharmedAt472(blk: U64, argv: seq<seq<byte>>, l: seq<Aux>)
    requires Fits(blk, argv) && NoNuls(argv) && |l| == 19 && l[18] == Aux(AT_NULL, 0)
    requires |argv| == ARGC_FIT + 1
    ensures Unharmed(blk, argv, l) <==> forall i :: 0 <= i < 8 ==> argv[i] == []
  {
    var ws, t := StartWords(blk, argv, l), Strings(argv, |argv|);
    StartWordsAre(blk, argv, l);
    assert ws[512] == l[18].val;
    forall k | 0 <= k < 8 ensures Spilled(ws, k) == 0 {
      assert (ARG_BLOCK + k) / 8 == 512 && (ARG_BLOCK + k) % 8 == k;
      ZeroWord(k);
    }
    hide Spilled, StartWords, Strings, Taken;
    AtLeastOneEach(argv, |argv|);
    EmptyPrefix(argv, 8);
    if Unharmed(blk, argv, l) {
      forall k | 0 <= k < 8 ensures t[k] == 0 {
        assert Spilled(ws, k) == t[k];
      }
    }
  }

  lemma ZeroWord(k: nat)
    requires k < 8
    ensures ToLE(0, 8)[k] == 0
  {
    assert ToLE(0, 8) == [0, 0, 0, 0, 0, 0, 0, 0];
  }

  lemma {:induction false} AtLeastOneEach(argv: seq<seq<byte>>, n: nat)
    requires n <= |argv|
    ensures Taken(argv, n) >= n
  {
    if n > 0 {
      AtLeastOneEach(argv, n - 1);
    }
  }

  /** Argument j stands in the block behind the arguments before it. */
  lemma {:induction false} ArgumentAt(argv: seq<seq<byte>>, j: nat, n: nat)
    requires j < n <= |argv|
    ensures Taken(argv, j) + |Stored(argv[j])| <= Taken(argv, n)
    ensures Strings(argv, n)[Taken(argv, j)] == Stored(argv[j])[0]
  {
    if j < n - 1 {
      ArgumentAt(argv, j, n - 1);
    }
  }

  /** The block starts with j zeroes exactly when the first j arguments are empty. */
  lemma {:induction false} EmptyPrefix(argv: seq<seq<byte>>, j: nat)
    requires j <= |argv| && NoNuls(argv)
    ensures |Strings(argv, |argv|)| >= j
    ensures (forall k :: 0 <= k < j ==> Strings(argv, |argv|)[k] == 0) <==> forall i :: 0 <= i < j ==> argv[i] == []
    ensures (forall i :: 0 <= i < j ==> argv[i] == []) ==> Taken(argv, j) == j
  {
    AtLeastOneEach(argv, |argv|);
    if j > 0 {
      hide Strings;
      EmptyPrefix(argv, j - 1);
      ArgumentAt(argv, j - 1, |argv|);
      var last := argv[j - 1];
      assert Stored(last)[0] == 0 <==> last == [];
      if forall k :: 0 <= k < j ==> Strings(argv, |argv|)[k] == 0 {
        assert forall i :: 0 <= i < j - 1 ==> argv[i] == [];
        assert Strings(argv, |argv|)[j - 1] == Stored(last)[0];
      }
    }
  }

  /** What a program should find for the arguments argv: each one, up to 1024 characters of it, and
      no environment. */
  ghost predicate ArgumentsOf(s: Start, argv: seq<seq<byte>>) {
    && |s.argv| == |argv| && s.envp == []
    && forall i :: 0 <= i < |argv| ==>
      s.argv[i] <= argv[i] && |s.argv[i]| == if |argv[i]| <= 1024 then |argv[i]| else 1024
  }

  /** Whoever reads a start that reads back finds that. */
  lemma ReadsArguments(m: Memory, sp: int, argv: seq<seq<byte>>, l: seq<Aux>, s: Start)
    requires Reads(m, sp, Start(CutAll(argv), [], l)) && Reads(m, sp, s)
    ensures ArgumentsOf(s, argv) && s.auxv == l
  {
    hide Reads, CutAll;
    ReadsUnique(m, sp, s, Start(CutAll(argv), [], l));
    forall i | 0 <= i < |argv|
      ensures s.argv[i] <= argv[i] && |s.argv[i]| == if |argv[i]| <= 1024 then |argv[i]| else 1024
    {
      assert s.argv[i] == Cut(argv[i], ARGV_MAX);
    }
  }

  lemma WordsKept(m: Memory, m': Memory, a: int, ws: seq<U64>)
    requires WordsWritten(m, a, ws, |ws|) && forall x :: a <= x < a + 8 * |ws| ==> m'(x) == m(x)
    ensures WordsWritten(m', a, ws, |ws|)
  {
    hide Word;
    forall k | 0 <= k < |ws| ensures Word(m', a + 8 * k) == ws[k] {
      WordFrame(m, m', a + 8 * k);
    }
  }

  /** The start stays written in every memory that agrees on the two blocks. */
  lemma StartKept(m: Memory, m': Memory, blk: U64, argv: seq<seq<byte>>, l: seq<Aux>)
    requires Fits(blk, argv) && |l| == 19 && WordBytes(|argv|) <= 2 * ARG_BLOCK && StartWritten(m, blk, argv, l)
    requires forall x :: blk - ARG_BLOCK <= x < blk + ARG_BLOCK ==> m'(x) == m(x)
    ensures StartWritten(m', blk, argv, l)
  {
    hide StartWords, WordsWritten, Taken, Strings;
    WordsKept(m, m', blk - ARG_BLOCK, StartWords(blk, argv, l));
  }

  /** Writes the words one block below the strings, which are already in place. */
  method WriteStart(vm: AddrSpace, blk: U64, argv: seq<seq<byte>>, ptrs: seq<U64>, l: seq<Aux>)
    requires Fits(blk, argv) && |l| == 19 && WordBytes(|argv|) <= 2 * ARG_BLOCK
    requires Read(vm.mem, blk, Taken(argv, |argv|)) == Strings(argv, |argv|) && ptrs == Pointers(blk, argv, |argv|)
    modifies vm`mem
    ensures forall x :: !(blk - ARG_BLOCK <= x < blk + ARG_BLOCK) ==> vm.mem(x) == old(vm.mem)(x)
    ensures StartWritten(vm.mem, blk, argv, l)
  {
    hide Word, Words, WordsWritten, Taken, Strings;
    ghost var m := vm.mem;
    WriteWords(vm, blk - ARG_BLOCK, Words(ptrs, l));
    forall k | 0 <= k < Taken(argv, |argv|) && WordBytes(|argv|) - ARG_BLOCK <= k
      ensures vm.mem(blk + k) == Strings(argv, |argv|)[k]
    {
      assert Read(m, blk, Taken(argv, |argv|))[k] == m(blk + k);
    }
  }

  method StackSetup(vm: AddrSpace, argv: seq<seq<byte>>, info: LoadInfo) returns (r: StackResult)
    requires vm.g.Valid() && NoNuls(argv)
    requires info.stacksize >= 2 * ARG_BLOCK && vm.g.MinAddr() <= info.stack && info.stack + info.stacksize == vm.g.MaxAddr()
    modifies vm`mem
    ensures 0 <= vm.g.page < WORD
    ensures forall x :: !(vm.g.MaxAddr() - 2 * ARG_BLOCK <= x < vm.g.MaxAddr()) ==> vm.mem(x) == old(vm.mem)(x)
    ensures r.TooLong? <==> Taken(argv, if |argv| <= 1024 then |argv| else 1025) >= 4096
    ensures r.Overflow? <==> !r.TooLong? && |argv| > 983
    ensures r.NullName? <==> argv == []
    ensures r.Ready? ==> r.sp == vm.g.MaxAddr() - 8192 && r.sp % 16 == 0
    ensures r.Ready? ==>
      var blk := vm.g.MaxAddr() - ARG_BLOCK;
      && 0 < blk < WORD && Fits(blk, argv)
      && var l := AuxList(info, blk, vm.g.page);
      && StartWritten(vm.mem, blk, argv, l)
      // The start reads back exactly when the words leave the strings unharmed ...
      && (Reads(vm.mem, r.sp, Start(CutAll(argv), [], l)) <==> Unharmed(blk, argv, l))
      // ... which up to 471 arguments they always do; and else nobody can read the arguments.
      && (|argv| <= 471 ==> Unharmed(blk, argv, l))
      && (forall s :: Reads(vm.mem, r.sp, s) && s.argv == CutAll(argv) ==> Unharmed(blk, argv, l))
      // What is read is each argument, up to 1024 characters of it, then no environment, and l.
      && (Unharmed(blk, argv, l) ==> forall s :: Reads(vm.mem, r.sp, s) ==> ArgumentsOf(s, argv) && s.auxv == l)
  {
    hide Word, Words, Reads, WordsWritten, StartWritten, Unharmed, AuxList, Taken, Strings, CutAll, IsPow2, Pointers;
    GeometryFacts(vm.g);
    var top := info.stack + info.stacksize;
    var strings := WriteStrings(vm, top - ARG_BLOCK, argv);
    if !strings.Copied? {
      NothingTaken(argv);
      return if strings.NoRoom? then TooLong else Overflow;
    }
    // The program name's address is asserted to lie in the space; without arguments it is null.
    if argv == [] {
      return NullName;
    }
    var ptrs := strings.ptrs;
    if WordBytes(|argv|) > 2 * ARG_BLOCK {
      return Overflow;
    }
    FirstPointer(top - ARG_BLOCK, argv);
    WriteStart(vm, top - ARG_BLOCK, argv, ptrs, AuxList(info, ptrs[0], vm.g.page));
    TopAligned(vm.g);
    ghost var l := AuxList(info, ptrs[0], vm.g.page);
    StartReadsIff(vm.mem, top - ARG_BLOCK, argv, l);
    if Unharmed(top - ARG_BLOCK, argv, l) {
      forall s | Reads(vm.mem, top - 2 * ARG_BLOCK, s) ensures ArgumentsOf(s, argv) && s.auxv == l {
        ReadsArguments(vm.mem, top - 2 * ARG_BLOCK, argv, l, s);
      }
    }
    hide ArgumentsOf;
    return Ready(top - 2 * ARG_BLOCK);
  }

  lemma NothingTaken(argv: seq<seq<byte>>)
    ensures argv == [] ==> Taken(argv, Tried(argv)) == 0
  {
  }

  lemma FirstPointer(blk: U64, argv: seq<seq<byte>>)
    requires argv != [] && blk + Taken(argv, |argv|) < WORD
    ensures Pointers(blk, argv, |argv|)[0] == blk
  {
  }

  lemma TopAligned(g: Geometry)
    requires g.base % VMSIZE == 0
    ensures (g.MaxAddr() - 2 * ARG_BLOCK) % 16 == 0
  {
  }
}
