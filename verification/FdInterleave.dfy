/** Opens and closes of the threads of any number of processes, interleaved at the granularity
    of the table's critical sections (src/fd.c, src/syscalls/sys_file.c:113-126): creating the
    record, fdalloc, and fdassign are separate steps, and so is fdremove. */
module FdInterleave {
  import opened Align
  import opened Files
  import opened Wrappers

  /** How far a thread is in an open: record created, and then slot chosen. */
  datatype Phase = Idle | Created(f: nat) | Chosen(f: nat, fd: nat)

  datatype Thread = Thread(pid: nat, phase: Phase)

  /** lost[f] counts the slots holding f that an fdassign overwrote. */
  datatype State = State(w: World, threads: seq<Thread>, lost: seq<nat>)

  /** Abandon is a creation that opens the host file and finds no memory for the record. */
  datatype Event = Create(t: nat) | Abandon(t: nat) | Alloc(t: nat) | Assign(t: nat) | Remove(pid: nat, fd: int)

  predicate Pending(th: Thread, f: nat) {
    !th.phase.Idle? && th.phase.f == f
  }

  ghost predicate IsPending(s: State, f: nat) {
    exists t :: 0 <= t < |s.threads| && Pending(s.threads[t], f)
  }

  predicate Shaped(s: State) {
    && Sound(s.w) && |s.w.files| >= 3 && |s.lost| == |s.w.files|
    && forall t :: 0 <= t < |s.threads| ==>
      && s.threads[t].pid < |s.w.procs|
      && (!s.threads[t].phase.Idle? ==> s.threads[t].phase.f < |s.w.files|)
      && (s.threads[t].phase.Chosen? ==> s.threads[t].phase.fd < NOFILE)
  }

  predicate Enabled(s: State, e: Event) {
    && Shaped(s)
    && match e
       case Create(t) => t < |s.threads| && s.threads[t].phase.Idle?
       case Abandon(t) => t < |s.threads| && s.threads[t].phase.Idle?
       case Alloc(t) => t < |s.threads| && s.threads[t].phase.Created?
       case Assign(t) => t < |s.threads| && s.threads[t].phase.Chosen?
       case Remove(pid, fd) => pid < |s.w.procs|
  }

  function SetPhase(s: State, t: nat, p: Phase): State
    requires t < |s.threads|
  {
    s.(threads := s.threads[t := s.threads[t].(phase := p)])
  }

  function Next(s: State, e: Event): State
    requires Enabled(s, e)
  {
    match e
    case Create(t) =>
      var w := World(s.w.files + [FDFile(0, |s.w.closes|, false)], s.w.closes + [0], s.w.procs);
      SetPhase(s.(w := w, lost := s.lost + [0]), t, Created(|s.w.files|))
    case Abandon(t) => s.(w := s.w.(closes := s.w.closes + [0]))
    case Alloc(t) =>
      var f := s.threads[t].phase.f;
      var fd := FirstFree(s.w.procs[s.threads[t].pid].slots, 0);
      if fd < 0 then SetPhase(s.(w := Release(s.w, f)), t, Idle) else SetPhase(s, t, Chosen(f, fd))
    case Assign(t) =>
      var pid, f, fd := s.threads[t].pid, s.threads[t].phase.f, s.threads[t].phase.fd;
      var over := s.w.procs[pid].slots[fd];
      var lost := if over.Some? then s.lost[over.value := s.lost[over.value] + 1] else s.lost;
      SetPhase(s.(w := SetSlot(Bump(s.w, f), pid, fd, Some(f)), lost := lost), t, Idle)
    case Remove(pid, fd) => s.(w := DoClose(s.w, pid, fd).0)
  }

  // ---------------------------------------------------------------- the invariant

  /** Holders that a count stands for: the present ones and the overwritten slots. */
  function Counted(s: State, f: nat): nat
    requires f < |s.lost|
  {
    Holders(s.w, f) + s.lost[f]
  }

  ghost predicate FileInv(s: State, f: nat)
    requires Shaped(s) && f < |s.w.files|
  {
    var x, h := s.w.files[f], Counted(s, f);
    && h < WORD - 3
    && if x.freed then h == 0 && s.w.closes[x.dev] == 1 && !IsPending(s, f)
       else
         && s.w.closes[x.dev] == 0
         && (IsPending(s, f) ==> h == 0 && x.refs == 0)
         && (!IsPending(s, f) ==> x.refs == if h > 0 then h else WORD - 1)
  }

  ghost predicate SafeInv(s: State) {
    && Shaped(s)
    && (forall f :: 0 <= f < |s.w.files| ==> FileInv(s, f))
    && (forall f, g :: 0 <= f < g < |s.w.files| ==> s.w.files[f].dev != s.w.files[g].dev)
    && (forall h :: 0 <= h < |s.w.closes| ==> s.w.closes[h] <= 1)
    && (forall i, f :: 0 <= i < |s.w.procs| && 0 <= f < |s.w.files| ==> Owned(s.w.procs[i]) != Some(s.w.files[f].dev))
    && (forall t, u, f :: 0 <= t < |s.threads| && 0 <= u < |s.threads| && Pending(s.threads[t], f) && Pending(s.threads[u], f) ==> t == u)
  }

  lemma PendingSame(s: State, s': State, f: nat, t: nat)
    requires |s'.threads| == |s.threads| && t < |s.threads|
    requires forall u :: 0 <= u < |s.threads| && u != t ==> s'.threads[u] == s.threads[u]
    requires Pending(s.threads[t], f) == Pending(s'.threads[t], f)
    ensures IsPending(s, f) <==> IsPending(s', f)
  {
    if IsPending(s, f) {
      var u :| 0 <= u < |s.threads| && Pending(s.threads[u], f);
      assert Pending(s'.threads[u], f);
    }
    if IsPending(s', f) {
      var u :| 0 <= u < |s'.threads| && Pending(s'.threads[u], f);
      assert Pending(s.threads[u], f);
    }
  }

  lemma CreateSafe(s: State, t: nat)
    requires SafeInv(s) && Enabled(s, Create(t))
    ensures SafeInv(Next(s, Create(t)))
  {
    hide Holds, HoldsOf, SoundProc;
    var s', n := Next(s, Create(t)), |s.w.files|;
    NoHolderYet(s.w);
    SoundGrowsTable(s, t);
    forall i | 0 <= i < |s.w.procs| ensures Owned(s.w.procs[i]) != Some(|s.w.closes|) {
      OwnedBound(s.w, i);
    }
    assert s'.threads[t].phase == Created(n);
    forall f | 0 <= f < |s'.w.files| ensures FileInv(s', f) {
      if f < n {
        assert FileInv(s, f);
        PendingSame(s, s', f, t);
      } else {
        assert Pending(s'.threads[t], f);
      }
    }
  }

  lemma AbandonSafe(s: State, t: nat)
    requires SafeInv(s) && Enabled(s, Abandon(t))
    ensures SafeInv(Next(s, Abandon(t)))
  {
    hide Holds, HoldsOf;
    var s' := Next(s, Abandon(t));
    forall i | 0 <= i < |s'.w.procs| ensures SoundProc(s'.w, s'.w.procs[i]) {
      assert SoundProc(s.w, s.w.procs[i]);
    }
    forall f | 0 <= f < |s'.w.files| ensures FileInv(s', f) {
      assert FileInv(s, f);
      assert IsPending(s', f) == IsPending(s, f);
    }
  }

  lemma SoundGrowsTable(s: State, t: nat)
    requires Enabled(s, Create(t))
    ensures Shaped(Next(s, Create(t)))
  {
    var s' := Next(s, Create(t));
    forall i | 0 <= i < |s'.w.procs| ensures SoundProc(s'.w, s'.w.procs[i]) {
      assert SoundProc(s.w, s.w.procs[i]);
    }
  }

  /** Nobody else has the record that thread t is about to publish or give up. */
  lemma OnlyPending(s: State, s': State, t: nat, f: nat)
    requires SafeInv(s) && t < |s.threads| && Pending(s.threads[t], f)
    requires |s'.threads| == |s.threads| && s'.threads[t].phase == Idle
    requires forall u :: 0 <= u < |s.threads| && u != t ==> s'.threads[u] == s.threads[u]
    ensures IsPending(s, f) && !IsPending(s', f)
  {
    forall u | 0 <= u < |s'.threads| ensures !Pending(s'.threads[u], f) {
      assert u != t ==> s'.threads[u] == s.threads[u];
    }
  }

  lemma AllocSafe(s: State, t: nat)
    requires SafeInv(s) && Enabled(s, Alloc(t))
    ensures SafeInv(Next(s, Alloc(t)))
  {
    hide Holds, HoldsOf;
    var s', f := Next(s, Alloc(t)), s.threads[t].phase.f;
    assert Pending(s.threads[t], f) && IsPending(s, f) && FileInv(s, f);
    forall i | 0 <= i < |s'.w.procs| ensures SoundProc(s'.w, s'.w.procs[i]) {
      assert SoundProc(s.w, s.w.procs[i]);
    }
    forall g | 0 <= g < |s'.w.files| ensures FileInv(s', g) {
      assert FileInv(s, g);
      if g == f && s'.threads[t].phase == Idle {
        OnlyPending(s, s', t, f);
      } else {
        PendingSame(s, s', g, t);
      }
    }
  }

  lemma AssignSafe(s: State, t: nat)
    requires SafeInv(s) && Enabled(s, Assign(t))
    ensures SafeInv(Next(s, Assign(t)))
  {
    hide Holds, HoldsOf;
    var s' := Next(s, Assign(t));
    var pid, f, fd := s.threads[t].pid, s.threads[t].phase.f, s.threads[t].phase.fd;
    var p := s.w.procs[pid];
    var p' := p.(slots := p.slots[fd := Some(f)]);
    assert SoundProc(s.w, p);
    assert Pending(s.threads[t], f) && IsPending(s, f) && FileInv(s, f);
    SlotUpdate(p, fd, Some(f), f);
    SetProcHolders(s.w, pid, p', f);
    OnlyPending(s, s', t, f);
    assert s'.w.procs == SetProc(s.w, pid, p').procs;
    forall i | 0 <= i < |s'.w.procs| ensures SoundProc(s'.w, s'.w.procs[i]) {
      assert SoundProc(s.w, s.w.procs[i]);
    }
    forall g | 0 <= g < |s'.w.files| ensures FileInv(s', g) {
      assert FileInv(s, g);
      SlotUpdate(p, fd, Some(f), g);
      SetProcHolders(s.w, pid, p', g);
      if g != f {
        PendingSame(s, s', g, t);
      }
    }
  }

  lemma RemoveSafe(s: State, pid: nat, fd: int)
    requires SafeInv(s) && Enabled(s, Remove(pid, fd))
    ensures SafeInv(Next(s, Remove(pid, fd)))
  {
    hide Holds, HoldsOf;
    var p, s' := s.w.procs[pid], Next(s, Remove(pid, fd));
    assert SoundProc(s.w, p);
    if Has(p, fd) {
      var f, p' := p.slots[fd].value, p.(slots := p.slots[fd := None]);
      SlotUpdate(p, fd, None, f);
      SetProcHolders(s.w, pid, p', f);
      assert FileInv(s, f);
      assert s'.w.procs == SetProc(s.w, pid, p').procs;
      forall i | 0 <= i < |s'.w.procs| ensures SoundProc(s'.w, s'.w.procs[i]) {
        assert SoundProc(s.w, s.w.procs[i]);
      }
      forall g | 0 <= g < |s'.w.files| ensures FileInv(s', g) {
        assert FileInv(s, g);
        SlotUpdate(p, fd, None, g);
        SetProcHolders(s.w, pid, p', g);
        assert IsPending(s', g) == IsPending(s, g);
      }
    }
  }

  lemma NextSafe(s: State, e: Event)
    requires SafeInv(s) && Enabled(s, e)
    ensures SafeInv(Next(s, e))
  {
    hide SafeInv, Next;
    match e
    case Create(t) => CreateSafe(s, t);
    case Abandon(t) => AbandonSafe(s, t);
    case Alloc(t) => AllocSafe(s, t);
    case Assign(t) => AssignSafe(s, t);
    case Remove(pid, fd) => RemoveSafe(s, pid, fd);
  }

  // ---------------------------------------------------------------- every interleaving

  /** Threads start idle in any world that sequential calls can build. */
  ghost predicate Initial(s: State) {
    && Inv(s.w)
    && (forall t :: 0 <= t < |s.threads| ==> s.threads[t].phase == Idle && s.threads[t].pid < |s.w.procs|)
    && |s.lost| == |s.w.files| && (forall f :: 0 <= f < |s.lost| ==> s.lost[f] == 0)
  }

  ghost predicate IsInterleaving(run: seq<State>, es: seq<Event>) {
    && |run| == |es| + 1 && Initial(run[0])
    && forall i :: 0 <= i < |es| ==> Enabled(run[i], es[i]) && run[i + 1] == Next(run[i], es[i])
  }

  lemma InitialSafe(s: State)
    requires Initial(s)
    ensures SafeInv(s)
  {
    forall f | 0 <= f < |s.w.files| ensures FileInv(s, f) {
      assert FileOk(s.w, f);
      Bounded(s.w, f);
    }
    forall i, f | 0 <= i < |s.w.procs| && 0 <= f < |s.w.files| ensures Owned(s.w.procs[i]) != Some(s.w.files[f].dev) {
      assert CwdOk(s.w, i);
    }
  }

  lemma {:induction false} InterleavingSafe(run: seq<State>, es: seq<Event>, i: nat)
    requires IsInterleaving(run, es) && i <= |es|
    ensures SafeInv(run[i])
  {
    if i == 0 {
      InitialSafe(run[0]);
    } else {
      hide SafeInv, Next;
      InterleavingSafe(run, es, i - 1);
      NextSafe(run[i - 1], es[i - 1]);
    }
  }

  /** In every interleaving: the count of a held file is its holders plus its overwritten slots,
      so it is never below the slots holding it; no slot and no thread names a freed record or a
      closed host file; and no host file is closed twice. */
  lemma OpenCloseSafety(run: seq<State>, es: seq<Event>, i: nat, f: nat)
    requires IsInterleaving(run, es) && i <= |es| && f < |run[i].w.files|
    ensures Shaped(run[i])
    ensures
      var s, x := run[i], run[i].w.files[f];
      && (Holders(s.w, f) > 0 ==>
        !x.freed && s.w.closes[x.dev] == 0 && x.refs == Holders(s.w, f) + s.lost[f] >= Holders(s.w, f))
      && (x.freed <==> s.w.closes[x.dev] == 1)
      && (IsPending(s, f) ==> !x.freed && Holders(s.w, f) == 0)
    ensures forall k :: 0 <= k < |run[i].w.closes| ==> run[i].w.closes[k] <= 1
  {
    InterleavingSafe(run, es, i);
    assert FileInv(run[i], f);
  }

  lemma SlotAlive(run: seq<State>, es: seq<Event>, i: nat, pid: nat, fd: nat)
    requires IsInterleaving(run, es) && i <= |es| && pid < |run[i].w.procs| && fd < |run[i].w.procs[pid].slots|
    requires run[i].w.procs[pid].slots[fd].Some?
    ensures
      var s, f := run[i], run[i].w.procs[pid].slots[fd].value;
      f < |s.w.files| && !s.w.files[f].freed && s.w.files[f].dev < |s.w.closes| && s.w.closes[s.w.files[f].dev] == 0
  {
    InterleavingSafe(run, es, i);
    var s, p := run[i], run[i].w.procs[pid];
    assert SoundProc(s.w, p);
    SlotCounts(p, fd, p.slots[fd].value);
    SetProcHolders(s.w, pid, p, p.slots[fd].value);
    OpenCloseSafety(run, es, i, p.slots[fd].value);
  }

  /** Without other threads in between, the steps of an open are the call, and so is its failure. */
  lemma StepsMakeOpen(s: State, t: nat)
    requires Shaped(s) && t < |s.threads| && s.threads[t].phase == Idle
    ensures
      var pid := s.threads[t].pid;
      var s1 := Next(s, Create(t));
      && Enabled(s1, Alloc(t))
      && var s2 := Next(s1, Alloc(t));
      if FirstFree(s.w.procs[pid].slots, 0) < 0 then
        s2.w == DoOpen(s.w, pid, AT_FDCWD, OpenAnswers(true, true, true, true)).0 && s2.threads == s.threads
      else
        && Enabled(s2, Assign(t))
        && var s3 := Next(s2, Assign(t));
        && s3.w == DoOpen(s.w, pid, AT_FDCWD, OpenAnswers(true, true, true, true)).0 && s3.threads == s.threads
    ensures Next(s, Abandon(t)).w == DoOpen(s.w, s.threads[t].pid, AT_FDCWD, OpenAnswers(true, true, true, false)).0
  {
    hide Release;
    var pid, n := s.threads[t].pid, |s.w.files|;
    SoundGrowsTable(s, t);
    var s1 := Next(s, Create(t));
    var s2 := Next(s1, Alloc(t));
    assert SoundProc(s.w, s.w.procs[pid]);
    if FirstFree(s.w.procs[pid].slots, 0) >= 0 {
      hide Sound;
      var s3 := Next(s2, Assign(t));
      assert s3.threads == s.threads;
    } else {
      assert s2.threads == s.threads;
    }
  }

  // ---------------------------------------------------------------- leaks, exactly

  /** Somebody can still close host file h: it is named, or stands behind a record in an open. */
  ghost predicate Reachable(s: State, h: nat) {
    Named(s.w, h) || exists f :: 0 <= f < |s.w.files| && s.w.files[f].dev == h && IsPending(s, f)
  }

  /** Nothing has leaked: every open host file can still be closed. */
  ghost predicate Clean(s: State) {
    forall h :: 0 <= h < |s.w.closes| && s.w.closes[h] == 0 ==> Reachable(s, h)
  }

  // Records created since the threads began have numbers from n on.

  ghost predicate ThreadBorn(s: State, n: nat, t: nat)
    requires Shaped(s) && t < |s.threads|
  {
    var th := s.threads[t];
    && (!th.phase.Idle? ==> th.phase.f >= n)
    && (th.phase.Chosen? ==>
      var x := s.w.procs[th.pid].slots[th.phase.fd];
      x.Some? ==> x.value >= n)
  }

  /** A record from before has lost no slot, and a record created since is counted at most once;
      a chosen slot is empty or holds such a record. */
  ghost predicate Born(s: State, n: nat) {
    && Shaped(s) && n <= |s.w.files|
    && (forall f :: 0 <= f < n ==> s.lost[f] == 0)
    && (forall f :: n <= f < |s.w.files| ==> Counted(s, f) <= 1)
    && (forall t :: 0 <= t < |s.threads| ==> ThreadBorn(s, n, t))
  }

  /** So a file that lost its slot has no holder. */
  lemma OverwrittenUnheld(s: State, n: nat, f: nat)
    requires Born(s, n) && f < |s.lost| && s.lost[f] > 0
    ensures Holders(s.w, f) == 0
  {
    hide Holders;
    assert f >= n ==> Counted(s, f) <= 1;
  }

  lemma CreateBorn(s: State, n: nat, t: nat)
    requires SafeInv(s) && Born(s, n) && Enabled(s, Create(t))
    ensures Born(Next(s, Create(t)), n)
  {
    hide Holds, HoldsOf, SoundProc, FileInv;
    var s' := Next(s, Create(t));
    SoundGrowsTable(s, t);
    NoHolderYet(s.w);
    forall f | n <= f < |s'.w.files| ensures Counted(s', f) <= 1 {
      assert f < |s.w.files| ==> Counted(s, f) <= 1;
    }
    forall u | 0 <= u < |s'.threads| ensures ThreadBorn(s', n, u) {
      assert ThreadBorn(s, n, u);
    }
  }

  lemma AllocBorn(s: State, n: nat, t: nat)
    requires SafeInv(s) && Born(s, n) && Enabled(s, Alloc(t)) && SafeInv(Next(s, Alloc(t)))
    ensures Born(Next(s, Alloc(t)), n)
  {
    hide Holds, HoldsOf, SoundProc, FileInv;
    var s' := Next(s, Alloc(t));
    forall f | n <= f < |s'.w.files| ensures Counted(s', f) <= 1 {
      assert Counted(s, f) <= 1;
    }
    forall u | 0 <= u < |s'.threads| ensures ThreadBorn(s', n, u) {
      assert ThreadBorn(s, n, u);
    }
  }

  lemma AssignBorn(s: State, n: nat, t: nat)
    requires SafeInv(s) && Born(s, n) && Enabled(s, Assign(t)) && SafeInv(Next(s, Assign(t)))
    ensures Born(Next(s, Assign(t)), n)
  {
    hide Holds, HoldsOf;
    var s' := Next(s, Assign(t));
    var pid, f, fd := s.threads[t].pid, s.threads[t].phase.f, s.threads[t].phase.fd;
    var p := s.w.procs[pid];
    var p' := p.(slots := p.slots[fd := Some(f)]);
    assert SoundProc(s.w, p) && ThreadBorn(s, n, t);
    assert Pending(s.threads[t], f) && IsPending(s, f) && FileInv(s, f);
    assert s'.w.procs == SetProc(s.w, pid, p').procs;
    hide SoundProc, FileInv;
    forall g | n <= g < |s'.w.files| ensures Counted(s', g) <= 1 {
      assert Counted(s, g) <= 1;
      SlotUpdate(p, fd, Some(f), g);
      SetProcHolders(s.w, pid, p', g);
    }
    forall u | 0 <= u < |s'.threads| ensures ThreadBorn(s', n, u) {
      assert ThreadBorn(s, n, u);
    }
  }

  lemma RemoveBorn(s: State, n: nat, pid: nat, fd: int)
    requires SafeInv(s) && Born(s, n) && Enabled(s, Remove(pid, fd)) && SafeInv(Next(s, Remove(pid, fd)))
    ensures Born(Next(s, Remove(pid, fd)), n)
  {
    hide Holds, HoldsOf;
    var p, s' := s.w.procs[pid], Next(s, Remove(pid, fd));
    if Has(p, fd) {
      var p' := p.(slots := p.slots[fd := None]);
      assert s'.w.procs == SetProc(s.w, pid, p').procs;
      hide SoundProc, FileInv;
      forall g | n <= g < |s'.w.files| ensures Counted(s', g) <= 1 {
        assert Counted(s, g) <= 1;
        SlotUpdate(p, fd, None, g);
        SetProcHolders(s.w, pid, p', g);
      }
      forall u | 0 <= u < |s'.threads| ensures ThreadBorn(s', n, u) {
        assert ThreadBorn(s, n, u);
      }
    }
  }

  lemma NextBorn(s: State, n: nat, e: Event)
    requires SafeInv(s) && Born(s, n) && Enabled(s, e)
    ensures Born(Next(s, e), n)
  {
    NextSafe(s, e);
    match e
    case Create(t) => CreateBorn(s, n, t);
    case Abandon(_) =>
      forall f | n <= f < |s.w.files| ensures Counted(Next(s, e), f) <= 1 {
        assert Counted(s, f) <= 1;
      }
      forall u | 0 <= u < |s.threads| ensures ThreadBorn(Next(s, e), n, u) {
        assert ThreadBorn(s, n, u);
      }
    case Alloc(t) => AllocBorn(s, n, t);
    case Assign(t) => AssignBorn(s, n, t);
    case Remove(pid, fd) => RemoveBorn(s, n, pid, fd);
  }

  lemma {:induction false} InterleavingBorn(run: seq<State>, es: seq<Event>, i: nat)
    requires IsInterleaving(run, es) && i <= |es|
    ensures Born(run[i], |run[0].w.files|)
  {
    InterleavingSafe(run, es, i);
    if i > 0 {
      hide SafeInv, Next, Born;
      InterleavingBorn(run, es, i - 1);
      InterleavingSafe(run, es, i - 1);
      NextBorn(run[i - 1], |run[0].w.files|, es[i - 1]);
    }
  }

  /** The steps that leak: choosing a slot in a full table, assigning to a slot that was filled
      in the meantime, and opening a host file without memory for its record. */
  predicate Leaks(s: State, e: Event)
    requires Enabled(s, e)
  {
    match e
    case Create(_) => false
    case Abandon(_) => true
    case Alloc(t) =>
      var slots := s.w.procs[s.threads[t].pid].slots;
      forall k :: 0 <= k < |slots| ==> slots[k].Some?
    case Assign(t) => s.w.procs[s.threads[t].pid].slots[s.threads[t].phase.fd].Some?
    case Remove(_, _) => false
  }

  /** What no step does: touch a record that nobody holds or is opening, revive one, forget an
      overwritten slot, change a working directory, or close an unreachable host file. */
  ghost predicate Gentle(s: State, s': State) {
    && |s.w.files| <= |s'.w.files| && |s.w.closes| <= |s'.w.closes| && |s.w.procs| == |s'.w.procs|
    && |s.lost| == |s.w.files| && |s'.lost| == |s'.w.files|
    && (forall f :: 0 <= f < |s.w.files| ==> GentleFile(s, s', f))
    && (forall f :: |s.w.files| <= f < |s'.w.files| ==> s'.w.files[f].dev >= |s.w.closes|)
    && (forall h :: 0 <= h < |s.w.closes| ==>
      s'.w.closes[h] == s.w.closes[h] || (s'.w.closes[h] > s.w.closes[h] && Reachable(s, h)))
    && (forall i :: 0 <= i < |s.w.procs| ==> Owned(s'.w.procs[i]) == Owned(s.w.procs[i]))
  }

  ghost predicate GentleFile(s: State, s': State, f: nat)
    requires f < |s.w.files| <= |s'.w.files| && |s.lost| == |s.w.files| && |s'.lost| == |s'.w.files|
  {
    && s'.w.files[f].dev == s.w.files[f].dev && s'.lost[f] >= s.lost[f]
    && (IsPending(s', f) ==> IsPending(s, f))
    && (Holders(s.w, f) == 0 && !IsPending(s, f) ==> s'.w.files[f] == s.w.files[f])
  }

  /** A step that does not leak raises no count by more than one and overwrites no slot. */
  ghost predicate Modest(s: State, s': State) {
    forall f :: 0 <= f < |s.w.files| && f < |s'.w.files| && f < |s'.lost| && f < |s.lost| ==>
      s'.w.files[f].refs <= s.w.files[f].refs + 1 && s'.lost[f] == s.lost[f]
  }

  lemma CreateGentle(s: State, t: nat)
    requires SafeInv(s) && Enabled(s, Create(t))
    ensures Gentle(s, Next(s, Create(t))) && Modest(s, Next(s, Create(t)))
  {
    hide Holders, FileInv, Sound;
    var s' := Next(s, Create(t));
    forall f | 0 <= f < |s.w.files| ensures GentleFile(s, s', f) {
      PendingSame(s, s', f, t);
    }
  }

  lemma AllocGentle(s: State, t: nat)
    requires SafeInv(s) && Enabled(s, Alloc(t))
    ensures Gentle(s, Next(s, Alloc(t))) && (Leaks(s, Alloc(t)) || Modest(s, Next(s, Alloc(t))))
  {
    hide Holders, SoundProc;
    var s', g := Next(s, Alloc(t)), s.threads[t].phase.f;
    assert Pending(s.threads[t], g) && FileInv(s, g);
    forall f | 0 <= f < |s.w.files| ensures GentleFile(s, s', f) {
      if f == g {
        assert IsPending(s, f);
      } else {
        PendingSame(s, s', f, t);
      }
    }
  }

  lemma AssignGentle(s: State, t: nat)
    requires SafeInv(s) && Enabled(s, Assign(t))
    ensures Gentle(s, Next(s, Assign(t))) && (Leaks(s, Assign(t)) || Modest(s, Next(s, Assign(t))))
  {
    hide Holders;
    var s', g := Next(s, Assign(t)), s.threads[t].phase.f;
    assert SoundProc(s.w, s.w.procs[s.threads[t].pid]);
    assert Pending(s.threads[t], g) && FileInv(s, g);
    forall f | 0 <= f < |s.w.files| ensures GentleFile(s, s', f) {
      if f == g {
        assert IsPending(s, f);
      } else {
        PendingSame(s, s', f, t);
      }
    }
  }

  lemma RemoveGentle(s: State, pid: nat, fd: int)
    requires SafeInv(s) && Enabled(s, Remove(pid, fd))
    ensures Gentle(s, Next(s, Remove(pid, fd))) && Modest(s, Next(s, Remove(pid, fd)))
  {
    hide Holds, HoldsOf;
    var s' := Next(s, Remove(pid, fd));
    if Has(s.w.procs[pid], fd) {
      HeldInSlot(s.w, pid, fd);
      var g := s.w.procs[pid].slots[fd].value;
      assert FileInv(s, g);
      assert Named(s.w, s.w.files[g].dev);
    }
    forall f | 0 <= f < |s.w.files| ensures GentleFile(s, s', f) {
      assert IsPending(s', f) == IsPending(s, f);
    }
  }

  lemma NextGentle(s: State, e: Event)
    requires SafeInv(s) && Enabled(s, e)
    ensures Gentle(s, Next(s, e)) && (Leaks(s, e) || Modest(s, Next(s, e)))
  {
    match e
    case Create(t) => CreateGentle(s, t);
    case Abandon(t) =>
      forall f | 0 <= f < |s.w.files| ensures GentleFile(s, Next(s, e), f) {
        assert IsPending(Next(s, e), f) == IsPending(s, f);
      }
    case Alloc(t) => AllocGentle(s, t);
    case Assign(t) => AssignGentle(s, t);
    case Remove(pid, fd) => RemoveGentle(s, pid, fd);
  }

  /** A record behind an open host file: being opened, held, overwritten, or never held. */
  lemma RecordFacts(s: State, f: nat)
    requires SafeInv(s) && f < |s.w.files| && s.w.closes[s.w.files[f].dev] == 0
    ensures !s.w.files[f].freed
    ensures Reachable(s, s.w.files[f].dev) <==> IsPending(s, f) || Holders(s.w, f) > 0
    ensures Holders(s.w, f) + s.lost[f] < WORD - 3 && (IsPending(s, f) ==> Holders(s.w, f) == s.lost[f] == 0)
    ensures s.w.files[f].refs ==
      if IsPending(s, f) then 0
      else if Holders(s.w, f) + s.lost[f] > 0 then Holders(s.w, f) + s.lost[f] else WORD - 1
  {
    hide Holders;
    assert FileInv(s, f);
  }

  /** A host file that nobody can close stays open and out of reach, whatever happens. */
  lemma UnreachableStays(s: State, e: Event, h: nat)
    requires SafeInv(s) && Enabled(s, e) && h < |s.w.closes| && s.w.closes[h] == 0 && !Reachable(s, h)
    ensures h < |Next(s, e).w.closes| && Next(s, e).w.closes[h] == 0 && !Reachable(Next(s, e), h)
  {
    hide Holders, FileInv, Next;
    var s' := Next(s, e);
    NextSafe(s, e);
    NextGentle(s, e);
    forall f | 0 <= f < |s'.w.files| && s'.w.files[f].dev == h ensures !IsPending(s', f) && Holders(s'.w, f) == 0 {
      assert f < |s.w.files| && GentleFile(s, s', f);
      RecordFacts(s, f);
      RecordFacts(s', f);
    }
  }

  /** A host file within reach is closed, or still within reach after a step that does not leak. */
  lemma ReachableStays(s: State, n: nat, e: Event, h: nat)
    requires SafeInv(s) && Born(s, n) && Enabled(s, e) && !Leaks(s, e) && h < |s.w.closes| && Reachable(s, h)
    ensures h < |Next(s, e).w.closes| && (Next(s, e).w.closes[h] == 0 ==> Reachable(Next(s, e), h))
  {
    hide Holders, FileInv, Next, Leaks;
    var s' := Next(s, e);
    NextSafe(s, e);
    NextGentle(s, e);
    if s'.w.closes[h] == 0 {
      if f :| 0 <= f < |s.w.files| && s.w.files[f].dev == h && (IsPending(s, f) || Holders(s.w, f) > 0) {
        assert GentleFile(s, s', f);
        RecordFacts(s, f);
        RecordFacts(s', f);
        if s.lost[f] > 0 {
          OverwrittenUnheld(s, n, f);
        }
      } else {
        var i :| 0 <= i < |s.w.procs| && Owned(s.w.procs[i]) == Some(h);
        assert Owned(s'.w.procs[i]) == Some(h);
      }
    }
  }

  /** What a leaking step loses. */
  lemma LeakShows(s: State, n: nat, e: Event)
    requires SafeInv(s) && Born(s, n) && Enabled(s, e) && Leaks(s, e)
    ensures !Clean(Next(s, e))
  {
    hide Holders;
    var s' := Next(s, e);
    NextSafe(s, e);
    match e
    case Create(_) =>
    case Abandon(_) =>
      forall i | 0 <= i < |s.w.procs| ensures Owned(s.w.procs[i]) != Some(|s.w.closes|) {
        OwnedBound(s.w, i);
      }
      assert !Reachable(s', |s.w.closes|);
    case Alloc(t) =>
      var f := s.threads[t].phase.f;
      assert Pending(s.threads[t], f) && FileInv(s, f);
      OnlyPending(s, s', t, f);
      RecordFacts(s', f);
    case Assign(t) =>
      var g := s.w.procs[s.threads[t].pid].slots[s.threads[t].phase.fd].value;
      assert SoundProc(s.w, s.w.procs[s.threads[t].pid]);
      OverwriteShows(s', n, g) by {
        NextBorn(s, n, e);
      }
    case Remove(_, _) =>
  }

  /** The host file of an overwritten record is open and out of reach. */
  lemma OverwriteShows(s: State, n: nat, g: nat)
    requires SafeInv(s) && Born(s, n) && g < |s.lost| && s.lost[g] > 0
    ensures !Clean(s)
  {
    hide Holders;
    OverwrittenUnheld(s, n, g);
    assert FileInv(s, g);
    RecordFacts(s, g);
  }

  lemma OwnedBound(w: World, i: nat)
    requires Sound(w) && i < |w.procs|
    ensures Owned(w.procs[i]) != Some(|w.closes|)
  {
    assert SoundProc(w, w.procs[i]);
  }

  /** From a clean state a step leaks exactly when it is one of the three. */
  lemma LeakIff(s: State, n: nat, e: Event)
    requires SafeInv(s) && Born(s, n) && Clean(s) && Enabled(s, e)
    ensures Clean(Next(s, e)) <==> !Leaks(s, e)
  {
    hide Holders, FileInv, SafeInv, Leaks, Born;
    var s' := Next(s, e);
    if Leaks(s, e) {
      LeakShows(s, n, e);
    } else {
      NextGentle(s, e);
      hide Next;
      forall h | 0 <= h < |s'.w.closes| && s'.w.closes[h] == 0 ensures Reachable(s', h) {
        if h < |s.w.closes| {
          ReachableStays(s, n, e, h);
        } else {
          NewReachable(s, e, h);
        }
      }
    }
  }

  lemma NewReachable(s: State, e: Event, h: nat)
    requires Enabled(s, e) && !Leaks(s, e) && |s.w.closes| <= h < |Next(s, e).w.closes|
    ensures Reachable(Next(s, e), h)
  {
    hide Holders;
    var s' := Next(s, e);
    match e
    case Create(t) =>
      assert Pending(s'.threads[t], |s.w.files|);
      assert s'.w.files[|s.w.files|].dev == h && IsPending(s', |s.w.files|);
    case Alloc(_) =>
    case Assign(_) =>
    case Remove(_, _) =>
  }

  /** In every interleaving: nothing has leaked if and only if nothing had before the threads
      began and no step so far was one of the three. */
  lemma {:induction false} LeakFreeIff(run: seq<State>, es: seq<Event>, i: nat)
    requires IsInterleaving(run, es) && i <= |es|
    ensures Clean(run[i]) <==> NoOrphan(run[0].w) && forall j :: 0 <= j < i ==> !Leaks(run[j], es[j])
  {
    if i == 0 {
      InitialClean(run[0]);
    } else {
      hide SafeInv, Next, Leaks, NoOrphan, Reachable, Born;
      LeakFreeIff(run, es, i - 1);
      InterleavingSafe(run, es, i - 1);
      InterleavingBorn(run, es, i - 1);
      if Clean(run[i - 1]) {
        LeakIff(run[i - 1], |run[0].w.files|, es[i - 1]);
      } else {
        UncleanStays(run[i - 1], es[i - 1]);
      }
    }
  }

  lemma InitialClean(s: State)
    requires Initial(s)
    ensures Clean(s) <==> NoOrphan(s.w)
  {
    hide Holders, Inv;
    forall h | 0 <= h < |s.w.closes| ensures Reachable(s, h) <==> Named(s.w, h) {
      assert forall f :: 0 <= f < |s.w.files| ==> !IsPending(s, f);
    }
  }

  lemma UncleanStays(s: State, e: Event)
    requires SafeInv(s) && Enabled(s, e) && !Clean(s)
    ensures !Clean(Next(s, e))
  {
    hide Holders, FileInv, SafeInv, Next, Reachable;
    var h :| 0 <= h < |s.w.closes| && s.w.closes[h] == 0 && !Reachable(s, h);
    UnreachableStays(s, e, h);
  }

  /** In every interleaving without those steps, a record that no thread is opening is freed, and
      its host file closed, exactly when nobody holds it. */
  lemma FreedIffUnheld(run: seq<State>, es: seq<Event>, i: nat, f: nat)
    requires IsInterleaving(run, es) && i <= |es| && f < |run[i].w.files| && !IsPending(run[i], f)
    requires NoOrphan(run[0].w) && forall j :: 0 <= j < i ==> !Leaks(run[j], es[j])
    ensures Shaped(run[i])
    ensures run[i].w.files[f].freed <==> Holders(run[i].w, f) == 0
    ensures run[i].w.closes[run[i].w.files[f].dev] == if Holders(run[i].w, f) == 0 then 1 else 0
  {
    hide Holders, Leaks;
    InterleavingSafe(run, es, i);
    LeakFreeIff(run, es, i);
    assert FileInv(run[i], f);
    if run[i].w.closes[run[i].w.files[f].dev] == 0 {
      RecordFacts(run[i], f);
    }
  }

  /** A file that lost a slot to another open is never freed and never closed. */
  lemma {:induction false} OverwrittenForever(run: seq<State>, es: seq<Event>, i: nat, k: nat, f: nat)
    requires IsInterleaving(run, es) && i <= k <= |es| && f < |run[i].lost| && run[i].lost[f] > 0
    ensures Shaped(run[k]) && f < |run[k].w.files| && run[k].lost[f] > 0
    ensures !run[k].w.files[f].freed && run[k].w.closes[run[k].w.files[f].dev] == 0 && Holders(run[k].w, f) == 0
  {
    hide SafeInv, Next, FileInv, Holders, Born;
    InterleavingSafe(run, es, k);
    SafeIsShaped(run[k]);
    if i < k {
      OverwrittenForever(run, es, i, k - 1, f);
      InterleavingSafe(run, es, k - 1);
      NextGentle(run[k - 1], es[k - 1]);
      assert GentleFile(run[k - 1], run[k], f);
    }
    NotFreed(run[k], f);
    InterleavingBorn(run, es, k);
    OverwrittenUnheld(run[k], |run[0].w.files|, f);
  }

  lemma SafeIsShaped(s: State)
    requires SafeInv(s)
    ensures Shaped(s)
  {
  }

  lemma NotFreed(s: State, f: nat)
    requires SafeInv(s) && f < |s.lost| && s.lost[f] > 0
    ensures !s.w.files[f].freed && s.w.closes[s.w.files[f].dev] == 0
  {
    assert FileInv(s, f);
  }

  /** Both threads choose before either assigns. */
  function RaceEvents(t: nat, u: nat): seq<Event> {
    [Create(t), Create(u), Alloc(t), Alloc(u), Assign(t), Assign(u)]
  }

  ghost predicate Race(run: seq<State>, t: nat, u: nat) {
    && IsInterleaving(run, RaceEvents(t, u)) && t != u
    && t < |run[0].threads| && u < |run[0].threads| && run[0].threads[t].pid == run[0].threads[u].pid
    && run[0].threads[t].pid < |run[0].w.procs| && FirstFree(run[0].w.procs[run[0].threads[t].pid].slots, 0) >= 0
  }

  lemma BothChoose(run: seq<State>, t: nat, u: nat)
    requires Race(run, t, u)
    ensures
      var s0, s, n := run[0], run[4], |run[0].w.files|;
      var fd := FirstFree(s0.w.procs[s0.threads[t].pid].slots, 0);
      && |s.threads| == |s0.threads| && s.w.procs == s0.w.procs && |s.w.files| == |s.lost| == n + 2
      && s.threads[t] == Thread(s0.threads[t].pid, Chosen(n, fd)) && s.threads[u] == Thread(s0.threads[t].pid, Chosen(n + 1, fd))
      && s.lost[n] == 0 && s.w.files[n].refs == 0 && !s.w.files[n].freed
  {
    hide Holders, SafeInv, Sound, Inv, Shaped, Release;
    var es := RaceEvents(t, u);
    assert es[0] == Create(t) && run[1] == Next(run[0], Create(t));
    assert es[1] == Create(u) && run[2] == Next(run[1], Create(u));
    assert es[2] == Alloc(t) && run[3] == Next(run[2], Alloc(t));
    assert es[3] == Alloc(u) && run[4] == Next(run[3], Alloc(u));
  }

  /** From every initial state, two racing opens of one process choose the same slot: the first
      record is overwritten, and stays open with a count of one and no holder. */
  lemma RacingOpensLeak(run: seq<State>, t: nat, u: nat)
    requires Race(run, t, u)
    ensures
      var s, n := run[6], |run[0].w.files|;
      n < |s.w.files| == |s.lost| && Holders(s.w, n) == 0 && s.lost[n] == 1 && s.w.files[n].refs == 1 && !s.w.files[n].freed
  {
    BothChoose(run, t, u);
    hide Holders, SafeInv, Sound, Inv, Shaped, Release, Initial;
    var es, n, pid := RaceEvents(t, u), |run[0].w.files|, run[0].threads[t].pid;
    assert es[4] == Assign(t) && run[5] == Next(run[4], Assign(t));
    assert es[5] == Assign(u) && run[6] == Next(run[5], Assign(u));
    OpenedOnce(run, es, n);
  }

  /** The racing thread's slot is the only holder its record ever had. */
  lemma OpenedOnce(run: seq<State>, es: seq<Event>, n: nat)
    requires IsInterleaving(run, es) && |es| == 6 && n < |run[6].w.files| == |run[6].lost|
    requires run[6].w.files[n].refs == 1 && !run[6].w.files[n].freed && run[6].lost[n] == 1
    ensures Holders(run[6].w, n) == 0
  {
    InterleavingSafe(run, es, 6);
    assert FileInv(run[6], n);
  }
}
