/** Thread creation and exit (src/syscalls/sys_thread.c, src/syscalls/sys_proc.c) as atomic steps
    of a parent, its child, and any number of joiners that wait for one tid word to become zero.

    Memory is bytes, and a tid store writes four of them anywhere, aligned or not. The futex is
    the kernel's, which compares and sleeps in one step. Other threads may write any byte outside
    the joined word. */
module ThreadExit {
  import opened Bytes

  /** The joined word, the arguments of spawn, and the bounds of the space. */
  datatype Config = Config(word: int, ctid: int, ptid: int, tid: nat, setTid: bool, clearTid: bool, parentSetTid: bool,
                           minaddr: int, maxaddr: int) {
    /** sys_futex refuses addresses that are not aligned or not in the space. */
    predicate FutexOk(a: int) { a % 4 == 0 && minaddr <= a < maxaddr }

    /** Thread numbers are positive ints. */
    predicate Valid() { 0 < tid < 0x8000_0000 && word != 0 }
  }

  /** spawn: store into the child's word, start the child, store into the parent's word. */
  datatype Parent = BeforeStore | BeforeStart | BeforeParentStore | Finished

  /** The child remembers the word to clear; exiting stores zero, and then wakes. */
  datatype Child = Unborn | Running(ctid: int) | Cleared(ctid: int) | Exited(ctid: int)

  datatype Joiner = Checking | Saw(v: int) | Asleep | Done

  datatype State = State(mem: Memory, parent: Parent, child: Child, joiners: map<nat, Joiner>)

  datatype Event =
    | ParentStep
    | SetTidAddress(a: int)
    | ClearWord
    | WakeAll
    | Check(j: nat)
    | WaitOn(j: nat)
    | Spurious(j: nat)
    | Write(a: int, v: byte)

  predicate Enabled(c: Config, s: State, e: Event) {
    match e
    case ParentStep => !s.parent.Finished?
    case SetTidAddress(_) => s.child.Running?
    case ClearWord => s.child.Running?
    case WakeAll => s.child.Cleared?
    case Check(j) => j in s.joiners && s.joiners[j].Checking?
    case WaitOn(j) => j in s.joiners && s.joiners[j].Saw?
    case Spurious(j) => j in s.joiners && s.joiners[j].Asleep?
    case Write(a, _) => !(c.word <= a < c.word + 4)
  }

  /** A 32-bit store, and the load of a 32-bit word. */
  function Store(m: Memory, a: int, v: nat): Memory {
    Put(m, a, ToLE(v, 4))
  }

  function Load(m: Memory, a: int): nat {
    LE(Read(m, a, 4))
  }

  function Wake(js: map<nat, Joiner>): (r: map<nat, Joiner>)
    ensures r.Keys == js.Keys
    ensures forall j :: j in js ==> r[j] == if js[j].Asleep? then Checking else js[j]
  {
    map j | j in js :: if js[j].Asleep? then Checking else js[j]
  }

  function Next(c: Config, s: State, e: Event): State
    requires Enabled(c, s, e)
  {
    match e
    case ParentStep =>
      (match s.parent
       case BeforeStore => s.(mem := if c.setTid then Store(s.mem, c.ctid, c.tid) else s.mem, parent := BeforeStart)
       case BeforeStart => s.(parent := BeforeParentStore, child := Running(if c.clearTid then c.ctid else 0))
       case BeforeParentStore => s.(mem := if c.parentSetTid then Store(s.mem, c.ptid, c.tid) else s.mem, parent := Finished))
    case SetTidAddress(a) => s.(child := Running(a))
    case ClearWord =>
      s.(mem := if s.child.ctid != 0 then Store(s.mem, s.child.ctid, 0) else s.mem, child := Cleared(s.child.ctid))
    case WakeAll =>
      s.(joiners := if c.FutexOk(s.child.ctid) && s.child.ctid == c.word then Wake(s.joiners) else s.joiners,
         child := Exited(s.child.ctid))
    case Check(j) => s.(joiners := s.joiners[j := if Load(s.mem, c.word) == 0 then Done else Saw(Load(s.mem, c.word))])
    case WaitOn(j) =>
      s.(joiners := s.joiners[j := if c.FutexOk(c.word) && Load(s.mem, c.word) == s.joiners[j].v then Asleep else Checking])
    case Spurious(j) => s.(joiners := s.joiners[j := Checking])
    case Write(a, v) => s.(mem := Put(s.mem, a, [v]))
  }

  ghost predicate Initial(s: State) {
    s.parent == BeforeStore && s.child == Unborn && forall j :: j in s.joiners ==> s.joiners[j] == Checking
  }

  ghost predicate IsRun(c: Config, run: seq<State>, es: seq<Event>) {
    && |run| == |es| + 1 && Initial(run[0])
    && forall i :: 0 <= i < |es| ==> Enabled(c, run[i], es[i]) && run[i + 1] == Next(c, run[i], es[i])
  }

  // ---------------------------------------------------------------- no lost exit

  /** All four bytes of the word at a are zero. */
  predicate Zero(m: Memory, a: int) {
    forall x :: a <= x < a + 4 ==> m(x) == 0
  }

  lemma {:induction false} AllZero(s: seq<byte>)
    ensures LE(s) == 0 <==> forall i :: 0 <= i < |s| ==> s[i] == 0
  {
    if s != [] {
      AllZero(s[1..]);
      assert s == [s[0]] + s[1..];
    }
  }

  lemma ZeroLoads(m: Memory, a: int)
    ensures Load(m, a) == 0 <==> Zero(m, a)
  {
    hide LE;
    var s := Read(m, a, 4);
    AllZero(s);
    if Load(m, a) == 0 {
      forall x | a <= x < a + 4 ensures m(x) == 0 {
        assert s[x - a] == m(a + (x - a));
      }
    }
  }

  lemma ZeroStored(m: Memory, a: int)
    ensures Zero(Store(m, a, 0), a)
  {
    assert ToLE(0, 4) == [0, 0, 0, 0];
  }

  ghost predicate Inv(c: Config, s: State) {
    && (s.parent.BeforeStore? || s.parent.BeforeStart? <==> s.child.Unborn?)
    && (forall j :: j in s.joiners && s.joiners[j].Saw? ==> s.joiners[j].v != 0)
    && (forall j :: j in s.joiners && s.joiners[j].Asleep? ==> c.FutexOk(c.word))
    && (s.child.Cleared? && s.child.ctid == c.word ==> Zero(s.mem, c.word))
    && (s.child.Exited? && s.child.ctid == c.word ==>
      Zero(s.mem, c.word) && forall j :: j in s.joiners ==> !s.joiners[j].Asleep?)
  }

  /** The parent's late store puts no nonzero byte of the thread's number into the joined word. */
  predicate ApartFromParent(c: Config) {
    c.parentSetTid ==>
      forall i :: 0 <= i < 4 && c.word <= c.ptid + i < c.word + 4 ==> ToLE(c.tid, 4)[i] == 0
  }

  /** For aligned words that is: they are different words. */
  lemma AlignedApart(c: Config)
    requires c.Valid() && c.word % 4 == 0 && c.ptid % 4 == 0
    ensures ApartFromParent(c) <==> (c.parentSetTid ==> c.ptid != c.word)
  {
    hide LE, ToLE;
    assert Pow256(4) == 0x1_0000_0000;
    LERoundTrip(c.tid, 4);
    AllZero(ToLE(c.tid, 4));
  }

  lemma ParentKeepsZero(c: Config, m: Memory)
    requires ApartFromParent(c) && c.parentSetTid && Zero(m, c.word)
    ensures Zero(Store(m, c.ptid, c.tid), c.word)
  {
    hide ToLE;
    var m' := Store(m, c.ptid, c.tid);
    forall x | c.word <= x < c.word + 4 ensures m'(x) == 0 {
      var k := x - c.ptid;
      assert 0 <= k < 4 ==> ToLE(c.tid, 4)[k] == 0;
    }
  }

  lemma NextKeepsInv(c: Config, s: State, e: Event)
    requires c.Valid() && ApartFromParent(c) && Inv(c, s) && Enabled(c, s, e)
    ensures Inv(c, Next(c, s, e))
  {
    ZeroLoads(s.mem, c.word);
    ZeroStored(s.mem, c.word);
    if c.parentSetTid && Zero(s.mem, c.word) {
      ParentKeepsZero(c, s.mem);
    }
    if e.Write? && Zero(s.mem, c.word) {
      ByteKeepsZero(s.mem, c.word, e.a, e.v);
    }
    hide Load, Store, Zero, Put, ApartFromParent;
  }

  lemma ByteKeepsZero(m: Memory, word: int, a: int, v: byte)
    requires Zero(m, word) && !(word <= a < word + 4)
    ensures Zero(Put(m, a, [v]), word)
  {
  }

  /** If a thread that clears the joined word has exited, the word is zero and no joiner sleeps. */
  ghost predicate ExitSeen(c: Config, s: State) {
    s.child == Exited(c.word) ==> Load(s.mem, c.word) == 0 && forall j :: j in s.joiners ==> !s.joiners[j].Asleep?
  }

  /** Whatever the interleaving, an exit is seen. */
  lemma {:induction false} NoLostExit(c: Config, run: seq<State>, es: seq<Event>, i: nat)
    requires c.Valid() && ApartFromParent(c) && IsRun(c, run, es) && i <= |es|
    ensures Inv(c, run[i]) && ExitSeen(c, run[i])
  {
    if i > 0 {
      NoLostExit(c, run, es, i - 1);
      NextKeepsInv(c, run[i - 1], es[i - 1]);
    }
    ZeroLoads(run[i].mem, c.word);
    hide Next, Load, Zero;
  }

  /** Nobody ever sleeps on a word that is not aligned or not in the space: the call is refused. */
  lemma {:induction false} SleepsOnlyOnGoodWords(c: Config, run: seq<State>, es: seq<Event>, i: nat, j: nat)
    requires IsRun(c, run, es) && i <= |es| && j in run[i].joiners && run[i].joiners[j] == Asleep
    ensures c.word % 4 == 0 && c.minaddr <= c.word < c.maxaddr
  {
    if i > 0 {
      hide Load, Store, Put;
      if j in run[i - 1].joiners && run[i - 1].joiners[j] == Asleep {
        SleepsOnlyOnGoodWords(c, run, es, i - 1, j);
      }
    }
  }

  // ---------------------------------------------------------------- what the child clears, and when

  /** The word that the child is to clear after i events: what set_tid_address said last, or else
      the argument of spawn, if that asked for it. */
  function ToClear(c: Config, es: seq<Event>, i: nat): int
    requires i <= |es|
  {
    if i == 0 then if c.clearTid then c.ctid else 0
    else if es[i - 1].SetTidAddress? then es[i - 1].a
    else ToClear(c, es, i - 1)
  }

  /** In every run the child clears that word. */
  lemma {:induction false} ClearsTheRightWord(c: Config, run: seq<State>, es: seq<Event>, i: nat)
    requires IsRun(c, run, es) && i <= |es|
    ensures (run[i].parent.BeforeStore? || run[i].parent.BeforeStart?) <==> run[i].child.Unborn?
    ensures run[i].child.Unborn? ==> forall j :: 0 <= j < i ==> !es[j].SetTidAddress?
    ensures !run[i].child.Unborn? ==> run[i].child.ctid == ToClear(c, es, i)
  {
    if i > 0 {
      ClearsTheRightWord(c, run, es, i - 1);
      if run[i - 1].child.Unborn? {
        NeverSet(c, es, i);
      }
      hide Load, Store, Put, Wake;
    }
  }

  lemma {:induction false} NeverSet(c: Config, es: seq<Event>, i: nat)
    requires i <= |es| && forall j :: 0 <= j < i ==> !es[j].SetTidAddress?
    ensures ToClear(c, es, i) == if c.clearTid then c.ctid else 0
  {
    if i > 0 {
      NeverSet(c, es, i - 1);
    }
  }

  /** The ordinary case: a thread created to clear the joined word, which never calls
      set_tid_address, is seen to have exited, in every interleaving. */
  lemma ClearTidIsSeen(c: Config, run: seq<State>, es: seq<Event>, i: nat)
    requires c.Valid() && ApartFromParent(c) && IsRun(c, run, es) && i <= |es|
    requires c.clearTid && c.ctid == c.word && forall j :: 0 <= j < i ==> !es[j].SetTidAddress?
    requires run[i].child.Exited?
    ensures run[i].child == Exited(c.word) && Load(run[i].mem, c.word) == 0
    ensures forall j :: j in run[i].joiners ==> run[i].joiners[j] != Asleep
  {
    ClearsTheRightWord(c, run, es, i);
    NeverSet(c, es, i);
    NoLostExit(c, run, es, i);
  }

  /** The word before and after the parent's late store, while the child has not touched it. */
  function TidBytes(c: Config, late: bool): seq<byte> {
    var m := Store(_ => 0, c.word, c.tid);
    Read(if late && c.parentSetTid then Store(m, c.ptid, c.tid) else m, c.word, 4)
  }

  lemma StoreLocal(m: Memory, m': Memory, word: int, a: int, v: nat)
    requires Read(m, word, 4) == Read(m', word, 4)
    ensures Read(Store(m, a, v), word, 4) == Read(Store(m', a, v), word, 4)
  {
    hide ToLE;
    var r, r' := Read(Store(m, a, v), word, 4), Read(Store(m', a, v), word, 4);
    forall i | 0 <= i < 4 ensures r[i] == r'[i] {
      assert Read(m, word, 4)[i] == Read(m', word, 4)[i];
    }
  }

  lemma WriteLocal(m: Memory, word: int, a: int, v: byte)
    requires !(word <= a < word + 4)
    ensures Read(Put(m, a, [v]), word, 4) == Read(m, word, 4)
  {
  }

  lemma FirstStore(c: Config, m: Memory)
    ensures Read(Store(m, c.word, c.tid), c.word, 4) == ToLE(c.tid, 4) == TidBytes(c, false)
  {
    hide ToLE;
  }

  /** With the joined word as the child's, its number stands there from before the child runs until
      the child clears it, or until the parent's late store. */
  lemma {:induction false} TidStands(c: Config, run: seq<State>, es: seq<Event>, i: nat)
    requires c.Valid() && c.setTid && c.ctid == c.word && IsRun(c, run, es) && i <= |es|
    ensures (run[i].parent.BeforeStore? || run[i].parent.BeforeStart?) <==> run[i].child.Unborn?
    ensures !run[i].parent.BeforeStore? && (run[i].child.Unborn? || run[i].child.Running?) ==>
      Read(run[i].mem, c.word, 4) == TidBytes(c, run[i].parent.Finished?)
  {
    if i > 0 {
      TidStands(c, run, es, i - 1);
      var s, e := run[i - 1], es[i - 1];
      FirstStore(c, s.mem);
      if e.Write? {
        WriteLocal(s.mem, c.word, e.a, e.v);
      }
      if Read(s.mem, c.word, 4) == TidBytes(c, false) {
        StoreLocal(s.mem, Store(_ => 0, c.word, c.tid), c.word, c.ptid, c.tid);
      }
      hide Store, Put, Wake, Read, Load;
    }
  }

  /** The number that stands there is the child's. */
  lemma TidIsRead(c: Config, run: seq<State>, es: seq<Event>, i: nat)
    requires c.Valid() && c.setTid && c.ctid == c.word && IsRun(c, run, es) && i <= |es|
    requires run[i].child.Running? && run[i].parent == BeforeParentStore
    ensures Load(run[i].mem, c.word) == c.tid
  {
    TidStands(c, run, es, i);
    FirstStore(c, run[i].mem);
    assert Pow256(4) == 0x1_0000_0000;
    LERoundTrip(c.tid, 4);
  }

  /** The parent's late store does not turn the child's number into zero. */
  predicate KeepsNumber(c: Config) {
    LE(TidBytes(c, true)) != 0
  }

  /** Nobody can find a zero in the word, and so join, while the child runs: exactly if the late
      store keeps the number nonzero. */
  lemma NoEarlyJoinIff(c: Config)
    requires c.Valid() && c.setTid && c.ctid == c.word
    ensures
      (forall run, es, i: nat :: IsRun(c, run, es) && i <= |es| ==> NotYetZero(c, run[i])) <==> KeepsNumber(c)
  {
    if KeepsNumber(c) {
      forall run: seq<State>, es: seq<Event>, i: nat | IsRun(c, run, es) && i <= |es| ensures NotYetZero(c, run[i]) {
        TidStands(c, run, es, i);
        if run[i].child.Running? && !run[i].parent.Finished? {
          TidIsRead(c, run, es, i);
        }
        hide IsRun, TidBytes;
      }
    } else {
      var s := State(_ => 0, BeforeStore, Unborn, map[]);
      var s1 := Next(c, s, ParentStep);
      var s2 := Next(c, s1, ParentStep);
      var s3 := Next(c, s2, ParentStep);
      var run, es := [s, s1, s2, s3], [ParentStep, ParentStep, ParentStep];
      assert IsRun(c, run, es);
      TidStands(c, run, es, 3);
      assert !NotYetZero(c, run[3]);
    }
  }

  ghost predicate NotYetZero(c: Config, s: State) {
    s.child.Running? ==> Load(s.mem, c.word) != 0
  }

  /** A joiner finishes only by finding a zero, so not while the child runs. */
  lemma JoinsAfterClearing(c: Config, run: seq<State>, es: seq<Event>, i: nat, j: nat)
    requires c.Valid() && c.setTid && c.ctid == c.word && KeepsNumber(c) && IsRun(c, run, es) && i < |es|
    requires j in run[i].joiners && run[i].joiners[j] != Done && j in run[i + 1].joiners && run[i + 1].joiners[j] == Done
    ensures es[i] == Check(j) && Load(run[i].mem, c.word) == 0 && !run[i].child.Running?
  {
    NoEarlyJoinIff(c);
    assert NotYetZero(c, run[i]);
    hide KeepsNumber, Load, Store;
  }

  // ---------------------------------------------------------------- joiners finish

  /** Steps that a joiner still has to take after the exit. */
  function Remaining(j: Joiner): nat {
    match j
    case Done => 0
    case Checking => 1
    case Saw(_) => 2
    case Asleep => 3
  }

  predicate IsOwn(e: Event, j: nat) {
    e == Check(j) || e == WaitOn(j)
  }

  /** How many of the events from i to k are steps of joiner j. */
  function OwnSteps(es: seq<Event>, i: nat, k: nat, j: nat): nat
    requires i <= k <= |es|
  {
    if i == k then 0 else OwnSteps(es, i, k - 1, j) + if IsOwn(es[k - 1], j) then 1 else 0
  }

  /** One step after the exit: it stays an exit, and only a joiner's own step brings it nearer. */
  lemma StepAfterExit(c: Config, s: State, e: Event, j: nat)
    requires c.Valid() && ApartFromParent(c) && Inv(c, s) && Enabled(c, s, e)
    requires s.child == Exited(c.word) && j in s.joiners
    ensures
      var s' := Next(c, s, e);
      && s'.child == Exited(c.word) && j in s'.joiners
      && Remaining(s'.joiners[j]) + (if IsOwn(e, j) then 1 else 0) == Remaining(s.joiners[j]) <= 2
  {
    ZeroLoads(s.mem, c.word);
    hide Load, Store, Zero, Put, ApartFromParent;
  }

  /** After the exit, whatever the others do in between, every joiner is at most two steps of its
      own from the end, and each step it takes is one of them: after two it is done. */
  lemma {:induction false} JoinerFinishes(c: Config, run: seq<State>, es: seq<Event>, i: nat, k: nat, j: nat)
    requires c.Valid() && ApartFromParent(c) && IsRun(c, run, es) && i <= k <= |es|
    requires run[i].child == Exited(c.word) && j in run[i].joiners
    ensures run[k].child == Exited(c.word) && j in run[k].joiners
    ensures Remaining(run[k].joiners[j]) + OwnSteps(es, i, k, j) == Remaining(run[i].joiners[j]) <= 2
    ensures OwnSteps(es, i, k, j) == 2 ==> run[k].joiners[j] == Done
  {
    NoLostExit(c, run, es, i);
    if i < k {
      JoinerFinishes(c, run, es, i, k - 1, j);
      NoLostExit(c, run, es, k - 1);
      hide Next, Inv;
      StepAfterExit(c, run[k - 1], es[k - 1], j);
    }
  }

  // ---------------------------------------------------------------- when the words coincide

  /** If the parent does store into the joined word, then from every initial state there is an
      interleaving in which the thread has exited and the word is not zero: the parent's store comes
      after the child's exit. */
  lemma OverwrittenExit(c: Config, s: State) returns (run: seq<State>, es: seq<Event>)
    requires c.Valid() && !ApartFromParent(c) && Initial(s)
    ensures IsRun(c, run, es) && run[0] == s
    ensures run[|es|].child == Exited(c.word) && run[|es|].parent == Finished && Load(run[|es|].mem, c.word) != 0
    ensures run[|es|].joiners == s.joiners
  {
    es := [ParentStep, ParentStep, SetTidAddress(c.word), ClearWord, WakeAll, ParentStep];
    var s1 := Next(c, s, ParentStep);
    var s2 := Next(c, s1, ParentStep);
    var s3 := Next(c, s2, SetTidAddress(c.word));
    var s4 := Next(c, s3, ClearWord);
    var s5 := Next(c, s4, WakeAll);
    assert s5.joiners == s.joiners;
    var s6 := Next(c, s5, ParentStep);
    NotZero(c, s5.mem);
    run := [s, s1, s2, s3, s4, s5, s6];
  }

  lemma NotZero(c: Config, m: Memory)
    requires !ApartFromParent(c)
    ensures Load(Store(m, c.ptid, c.tid), c.word) != 0
  {
    hide ToLE;
    var m' := Store(m, c.ptid, c.tid);
    var i :| 0 <= i < 4 && c.word <= c.ptid + i < c.word + 4 && ToLE(c.tid, 4)[i] != 0;
    assert m'(c.ptid + i) != 0;
    ZeroLoads(m', c.word);
  }

  /** And if the word can be waited on, a joiner then goes to sleep on it. */
  lemma LostExitWhenShared(c: Config, s: State, j: nat) returns (run: seq<State>, es: seq<Event>)
    requires c.Valid() && !ApartFromParent(c) && c.FutexOk(c.word) && Initial(s) && j in s.joiners
    ensures IsRun(c, run, es) && run[0] == s
    ensures run[|es|].child == Exited(c.word) && run[|es|].parent == Finished
    ensures j in run[|es|].joiners && run[|es|].joiners[j] == Asleep
  {
    run, es := OverwrittenExit(c, s);
    var s6 := run[|es|];
    var s7 := Next(c, s6, Check(j));
    var s8 := Next(c, s7, WaitOn(j));
    run, es := run + [s7, s8], es + [Check(j), WaitOn(j)];
  }

  /** Exits are seen in every state of every run if and only if the parent's late store puts no
      nonzero byte into the joined word. */
  lemma NoLostExitIff(c: Config)
    requires c.Valid()
    ensures (forall run, es, i: nat :: IsRun(c, run, es) && i <= |es| ==> ExitSeen(c, run[i])) <==> ApartFromParent(c)
  {
    if ApartFromParent(c) {
      forall run, es, i: nat | IsRun(c, run, es) && i <= |es| ensures ExitSeen(c, run[i]) {
        NoLostExit(c, run, es, i);
      }
    } else {
      var run, es := OverwrittenExit(c, State(_ => 0, BeforeStore, Unborn, map[]));
      assert !ExitSeen(c, run[|es|]);
    }
  }
}
