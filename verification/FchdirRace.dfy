/** An fchdir (src/syscalls/sys_cwd.c:39-65) beside opens and closes of other threads. It looks the
    file up without taking a reference, gives up the present working directory, and only then
    counts its own reference; other threads may close files in between. */
module FchdirRace {
  import opened Align
  import opened Files
  import opened FdInterleave
  import opened Wrappers

  /** An fchdir that has looked up record f, and may have left the old working directory. */
  datatype Call = Call(pid: nat, f: nat, left: bool)

  datatype Race = Race(s: State, call: Call)

  datatype Move = Table(e: FdInterleave.Event) | Leave

  predicate Ready(r: Race, m: Move) {
    && Shaped(r.s) && r.call.pid < |r.s.w.procs|
    && match m
       case Table(e) => FdInterleave.Enabled(r.s, e)
       case Leave => !r.call.left
  }

  function After(r: Race, m: Move): Race
    requires Ready(r, m)
  {
    match m
    case Table(e) => r.(s := FdInterleave.Next(r.s, e))
    case Leave => Race(r.s.(w := LeftDir(r.s.w, r.call.pid)), r.call.(left := true))
  }

  /** The working directory is given up: a held file is released, an owned one closed. */
  function LeftDir(w: World, pid: nat): World
    requires Sound(w) && pid < |w.procs|
  {
    SetProc(LeaveCwd(w, w.procs[pid]), pid, w.procs[pid].(cwdFile := None, cwdFd := None))
  }

  /** The last step of an fchdir: count the record, and make it the working directory. */
  function Taken(w: World, pid: nat, f: nat): World
    requires pid < |w.procs| && f < |w.files|
  {
    SetProc(Bump(w, f), pid, w.procs[pid].(cwdFile := Some(w.files[f].dev), cwdFd := Some(f)))
  }

  /** Without other threads in between, the steps of an fchdir are the call. */
  lemma StepsMakeFchdir(w: World, pid: nat, fd: int)
    requires Sound(w) && pid < |w.procs| && Has(w.procs[pid], fd)
    ensures
      var f := w.procs[pid].slots[fd].value;
      && pid < |LeftDir(w, pid).procs| && f < |LeftDir(w, pid).files|
      && Taken(LeftDir(w, pid), pid, f) == DoFchdir(w, pid, fd, true).0
  {
    assert SoundProc(w, w.procs[pid]);
  }

  // ---------------------------------------------------------------- the invariant

  /** Owned working directories are open host files, each owned once. */
  ghost predicate CwdSafe(w: World) {
    && (forall i :: 0 <= i < |w.procs| && Owned(w.procs[i]).Some? ==>
      Owned(w.procs[i]).value < |w.closes| && w.closes[Owned(w.procs[i]).value] == 0)
    && (forall i, j :: 0 <= i < j < |w.procs| && Owned(w.procs[i]).Some? ==> Owned(w.procs[i]) != Owned(w.procs[j]))
  }

  ghost predicate RaceInv(r: Race) {
    && SafeInv(r.s) && CwdSafe(r.s.w) && r.call.pid < |r.s.w.procs| && r.call.f < |r.s.w.files|
    && !IsPending(r.s, r.call.f)
    && (r.s.w.files[r.call.f].freed || Counted(r.s, r.call.f) > 0)
  }

  /** Opens and closes change no working directory and close none. */
  lemma TableKeepsCwds(s: State, e: FdInterleave.Event)
    requires SafeInv(s) && CwdSafe(s.w) && FdInterleave.Enabled(s, e)
    ensures CwdSafe(FdInterleave.Next(s, e).w)
  {
    hide Holders, FdInterleave.Next, FileInv, Leaks, Modest;
    var s' := FdInterleave.Next(s, e);
    NextGentle(s, e);
    forall i | 0 <= i < |s'.w.procs| && Owned(s'.w.procs[i]).Some?
      ensures Owned(s'.w.procs[i]).value < |s'.w.closes| && s'.w.closes[Owned(s'.w.procs[i]).value] == 0
    {
      ClosesOnlyRecords(s, e, Owned(s.w.procs[i]).value);
    }
    forall i, j | 0 <= i < j < |s'.w.procs| && Owned(s'.w.procs[i]).Some?
      ensures Owned(s'.w.procs[i]) != Owned(s'.w.procs[j])
    {
      assert Owned(s.w.procs[i]) == Owned(s'.w.procs[i]) && Owned(s.w.procs[j]) == Owned(s'.w.procs[j]);
    }
  }

  lemma ClosesOnlyRecords(s: State, e: FdInterleave.Event, h: nat)
    requires SafeInv(s) && FdInterleave.Enabled(s, e) && h < |s.w.closes|
    requires forall f :: 0 <= f < |s.w.files| ==> s.w.files[f].dev != h
    ensures h < |FdInterleave.Next(s, e).w.closes| && FdInterleave.Next(s, e).w.closes[h] == s.w.closes[h]
  {
    hide Holders, FileInv;
    if e.Remove? && Has(s.w.procs[e.pid], e.fd) {
      HeldInSlot(s.w, e.pid, e.fd);
    }
  }

  /** The step gives up the last hold on f. */
  predicate LastHold(r: Race, m: Move, f: nat)
    requires Ready(r, m) && f < |r.s.lost|
  {
    && Counted(r.s, f) == 1
    && match m
       case Table(e) => e.Remove? && Has(r.s.w.procs[e.pid], e.fd) && r.s.w.procs[e.pid].slots[e.fd] == Some(f)
       case Leave => r.s.w.procs[r.call.pid].cwdFd == Some(f)
  }

  /** A record that somebody holds and nobody is opening is freed exactly with its last hold. */
  lemma TableFreesIff(s: State, e: FdInterleave.Event, f: nat)
    requires SafeInv(s) && FdInterleave.Enabled(s, e) && f < |s.w.files| && !IsPending(s, f)
    requires s.w.files[f].freed || Counted(s, f) > 0
    ensures
      var s' := FdInterleave.Next(s, e);
      && Shaped(s') && f < |s'.w.files| && !IsPending(s', f)
      && (s'.w.files[f].freed || Counted(s', f) > 0)
      && (s'.w.files[f].freed <==>
        || s.w.files[f].freed
        || (Counted(s, f) == 1 && e.Remove? && Has(s.w.procs[e.pid], e.fd) && s.w.procs[e.pid].slots[e.fd] == Some(f)))
  {
    hide Holders;
    var s' := FdInterleave.Next(s, e);
    NextSafe(s, e);
    NextGentle(s, e);
    assert GentleFile(s, s', f) && FileInv(s, f) && FileInv(s', f);
    match e
    case Create(_) =>
    case Abandon(_) =>
    case Alloc(t) => assert Pending(s.threads[t], s.threads[t].phase.f);
    case Assign(t) => assert Pending(s.threads[t], s.threads[t].phase.f);
    case Remove(pid, fd) =>
  }

  /** Leaving keeps every count right. */
  lemma LeaveCounts(s: State, s': State, pid: nat, g: nat)
    requires SafeInv(s) && CwdSafe(s.w) && pid < |s.w.procs| && g < |s.w.files|
    requires s' == s.(w := LeftDir(s.w, pid)) && Shaped(s')
    ensures FileInv(s', g)
  {
    hide Holds, HoldsOf;
    var p := s.w.procs[pid];
    assert SoundProc(s.w, p);
    hide SoundProc;
    if p.cwdFd.Some? {
      HeldAsCwd(s.w, pid);
      assert FileInv(s, p.cwdFd.value);
    }
    assert FileInv(s, g);
    CwdHold(p, g);
    SetProcHolders(s.w, pid, p.(cwdFile := None, cwdFd := None), g);
    assert s'.w.procs == SetProc(s.w, pid, p.(cwdFile := None, cwdFd := None)).procs;
    assert IsPending(s', g) == IsPending(s, g);
  }

  lemma LeaveShaped(s: State, pid: nat)
    requires Shaped(s) && pid < |s.w.procs|
    ensures Shaped(s.(w := LeftDir(s.w, pid)))
  {
    var w' := LeftDir(s.w, pid);
    assert SoundProc(s.w, s.w.procs[pid]);
    forall i | 0 <= i < |w'.procs| ensures SoundProc(w', w'.procs[i]) {
      assert SoundProc(s.w, s.w.procs[i]);
    }
  }

  lemma LeaveSafe(r: Race)
    requires RaceInv(r) && Ready(r, Leave)
    ensures SafeInv(After(r, Leave).s) && CwdSafe(After(r, Leave).s.w)
  {
    var s, s', pid := r.s, After(r, Leave).s, r.call.pid;
    LeaveShaped(s, pid);
    forall g | 0 <= g < |s.w.files| ensures FileInv(s', g) {
      LeaveCounts(s, s', pid, g);
    }
    LeaveCloses(s.w, pid) by {
      if s.w.procs[pid].cwdFd.Some? {
        HeldAsCwd(s.w, pid);
        assert FileInv(s, s.w.procs[pid].cwdFd.value);
      }
    }
    hide FileInv, Shaped, LeaveCwd;
  }

  /** Leaving closes at most the owned directory or the host file of the held record. */
  lemma LeaveCloses(w: World, pid: nat)
    requires Sound(w) && pid < |w.procs| && CwdSafe(w)
    requires w.procs[pid].cwdFd.Some? ==>
      w.procs[pid].cwdFd.value < |w.files| && w.closes[w.files[w.procs[pid].cwdFd.value].dev] == 0
    requires forall i, f :: 0 <= i < |w.procs| && 0 <= f < |w.files| ==> Owned(w.procs[i]) != Some(w.files[f].dev)
    requires forall h :: 0 <= h < |w.closes| ==> w.closes[h] <= 1
    ensures
      var w' := LeftDir(w, pid);
      && |w'.files| == |w.files| && (forall f :: 0 <= f < |w.files| ==> w'.files[f].dev == w.files[f].dev)
      && w'.procs == w.procs[pid := w.procs[pid].(cwdFile := None, cwdFd := None)]
      && CwdSafe(w') && forall h :: 0 <= h < |w'.closes| ==> w'.closes[h] <= 1
  {
    assert SoundProc(w, w.procs[pid]);
    hide SoundProc;
  }

  /** The working directory is one hold. */
  lemma CwdHold(p: Proc, f: nat)
    ensures HoldsOf(p.(cwdFile := None, cwdFd := None), f) == HoldsOf(p, f) - if p.cwdFd == Some(f) then 1 else 0
    ensures p.cwdFd == Some(f) ==> HoldsOf(p, f) > 0
  {
  }

  lemma LeaveFreesIff(r: Race)
    requires RaceInv(r) && Ready(r, Leave)
    ensures RaceInv(After(r, Leave))
    ensures After(r, Leave).s.w.files[r.call.f].freed <==> r.s.w.files[r.call.f].freed || LastHold(r, Leave, r.call.f)
  {
    LeaveSafe(r);
    hide Holders;
    var s, s', f := r.s, After(r, Leave).s, r.call.f;
    assert FileInv(s, f) && FileInv(s', f);
    assert IsPending(s', f) == IsPending(s, f);
    assert SoundProc(s.w, s.w.procs[r.call.pid]);
    if s.w.procs[r.call.pid].cwdFd.Some? {
      HeldAsCwd(s.w, r.call.pid);
    }
  }

  /** One move: the invariant stays, and the record is freed exactly with its last hold. */
  lemma MoveFreesIff(r: Race, m: Move)
    requires RaceInv(r) && Ready(r, m)
    ensures RaceInv(After(r, m)) && After(r, m).call.f == r.call.f
    ensures After(r, m).s.w.files[r.call.f].freed <==> r.s.w.files[r.call.f].freed || LastHold(r, m, r.call.f)
  {
    hide Holders, FdInterleave.Next;
    match m
    case Table(e) =>
      TableFreesIff(r.s, e, r.call.f);
      TableKeepsCwds(r.s, e);
      NextSafe(r.s, e);
      NextGentle(r.s, e);
    case Leave => LeaveFreesIff(r);
  }

  // ---------------------------------------------------------------- every race

  /** A race begins where an fchdir looks up a slot, in any state that interleaved opens and closes
      can reach. */
  ghost predicate Begins(r: Race, fd: int) {
    && SafeInv(r.s) && CwdSafe(r.s.w) && !r.call.left
    && r.call.pid < |r.s.w.procs| && Has(r.s.w.procs[r.call.pid], fd)
    && r.s.w.procs[r.call.pid].slots[fd] == Some(r.call.f)
  }

  ghost predicate IsRace(run: seq<Race>, ms: seq<Move>, fd: int) {
    && |run| == |ms| + 1 && Begins(run[0], fd)
    && forall i :: 0 <= i < |ms| ==> Ready(run[i], ms[i]) && run[i + 1] == After(run[i], ms[i])
  }

  /** Sequential calls and interleaved opens and closes reach only states where it may begin. */
  lemma {:induction false} AlwaysMayBegin(run: seq<State>, es: seq<FdInterleave.Event>, i: nat)
    requires IsInterleaving(run, es) && i <= |es|
    ensures SafeInv(run[i]) && CwdSafe(run[i].w)
  {
    InterleavingSafe(run, es, i);
    if i == 0 {
      forall k | 0 <= k < |run[0].w.procs| ensures CwdOk(run[0].w, k) && SoundProc(run[0].w, run[0].w.procs[k]) {
      }
    } else {
      hide SafeInv, CwdSafe, FdInterleave.Next;
      AlwaysMayBegin(run, es, i - 1);
      TableKeepsCwds(run[i - 1], es[i - 1]);
    }
  }

  lemma BeginInv(r: Race, fd: int)
    requires Begins(r, fd)
    ensures RaceInv(r) && !r.s.w.files[r.call.f].freed
  {
    HeldInSlot(r.s.w, r.call.pid, fd);
    hide Holders;
    assert FileInv(r.s, r.call.f);
  }

  lemma StillCounted(r: Race)
    requires RaceInv(r)
    ensures Shaped(r.s)
    ensures !r.s.w.files[r.call.f].freed ==>
      var x := r.s.w.files[r.call.f];
      r.s.w.closes[x.dev] == 0 && x.refs == Counted(r.s, r.call.f) > 0
  {
    hide Holders;
    assert FileInv(r.s, r.call.f);
  }

  /** In every race the record that fchdir is about to count is freed already if and only if some
      move since the lookup gave up its last hold; otherwise its host file is open and its count
      is that of its holders. */
  lemma {:induction false} FreedInRaceIff(run: seq<Race>, ms: seq<Move>, fd: int, k: nat)
    requires IsRace(run, ms, fd) && k <= |ms|
    ensures RaceInv(run[k]) && run[k].call.f == run[0].call.f
    ensures forall j :: 0 <= j < k ==> run[0].call.f < |run[j].s.lost|
    ensures run[k].s.w.files[run[0].call.f].freed <==>
      exists j :: 0 <= j < k && LastHold(run[j], ms[j], run[0].call.f)
    ensures !run[k].s.w.files[run[0].call.f].freed ==>
      var x := run[k].s.w.files[run[0].call.f];
      run[k].s.w.closes[x.dev] == 0 && x.refs == Counted(run[k].s, run[0].call.f) > 0
  {
    hide SafeInv, CwdSafe, Counted, After, LastHold, Has;
    if k == 0 {
      BeginInv(run[0], fd);
    } else {
      FreedInRaceIff(run, ms, fd, k - 1);
      MoveFreesIff(run[k - 1], ms[k - 1]);
    }
    StillCounted(run[k]);
  }

  /** It does happen: whenever the slot is the only hold, another thread's close frees the record
      under the fchdir. */
  lemma CloseFreesUnderFchdir(r: Race, fd: int)
    requires Begins(r, fd) && r.call.f < |r.s.lost| && Counted(r.s, r.call.f) == 1
    ensures
      var m := Table(Remove(r.call.pid, fd));
      Ready(r, m) && r.call.f < |After(r, m).s.w.files| && After(r, m).s.w.files[r.call.f].freed
  {
    BeginInv(r, fd);
    MoveFreesIff(r, Table(Remove(r.call.pid, fd)));
  }
}
