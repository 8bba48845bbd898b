/** Reference-counted files: src/fd.c, src/file.c, src/tux.c, src/syscalls/sys_cwd.c and the open
    and close calls of src/syscalls/sys_file.c.

    FDFile records and host files are numbered in the order they are created; a freed record
    keeps its number and is marked. `closes` counts the calls of host_close on each host file. */
module Files {
  import opened Align
  import opened Wrappers

  const NOFILE := 128
  const AT_FDCWD := -100
  const EBADF := 9
  const ENOENT := 2
  const EFAULT := 14
  const ENOTDIR := 20
  const EMFILE := 24

  /** One address space of 4 GiB per process out of the 256 GiB that a platform reserves. */
  const MAXPROCS := 64

  datatype FDFile = FDFile(refs: U64, dev: nat, freed: bool)

  datatype Proc = Proc(slots: seq<Option<nat>>, cwdFile: Option<nat>, cwdFd: Option<nat>)

  datatype World = World(files: seq<FDFile>, closes: seq<nat>, procs: seq<Proc>)

  // ---------------------------------------------------------------- the calls as functions

  function Bump(w: World, f: nat): World
    requires f < |w.files|
  {
    w.(files := w.files[f := w.files[f].(refs := Add64(w.files[f].refs, 1))])
  }

  function HostClose(w: World, h: nat): World
    requires h < |w.closes|
  {
    w.(closes := w.closes[h := w.closes[h] + 1])
  }

  /** fdrelease: the last reference closes the host file and frees the record. */
  function Release(w: World, f: nat): World
    requires f < |w.files| && w.files[f].dev < |w.closes|
  {
    var refs := Sub64(w.files[f].refs, 1);
    var w1 := w.(files := w.files[f := w.files[f].(refs := refs, freed := w.files[f].freed || refs == 0)]);
    if refs == 0 then HostClose(w1, w.files[f].dev) else w1
  }

  function SetProc(w: World, i: nat, p: Proc): World
    requires i < |w.procs|
  {
    w.(procs := w.procs[i := p])
  }

  function SetSlot(w: World, i: nat, fd: nat, x: Option<nat>): World
    requires i < |w.procs| && fd < |w.procs[i].slots|
  {
    SetProc(w, i, w.procs[i].(slots := w.procs[i].slots[fd := x]))
  }

  predicate Has(p: Proc, fd: int) {
    0 <= fd < |p.slots| && fd < NOFILE && p.slots[fd].Some?
  }

  /** fdalloc: the lowest empty slot, or -1. */
  function FirstFree(slots: seq<Option<nat>>, from: nat): (fd: int)
    requires from <= |slots|
    ensures fd == -1 || from <= fd < |slots|
    ensures fd >= 0 ==> slots[fd] == None && forall k :: from <= k < fd ==> slots[k].Some?
    ensures fd == -1 ==> forall k :: from <= k < |slots| ==> slots[k].Some?
    decreases |slots| - from
  {
    if from == |slots| then -1 else if slots[from] == None then from else FirstFree(slots, from + 1)
  }

  /** What the host answers to an open: is the directory one, is the path readable, does the
      open succeed, and is there memory for the record. */
  datatype OpenAnswers = OpenAnswers(isDir: bool, path: bool, host: bool, alloc: bool)

  datatype Op =
    | Spawn(space: bool)
    | Open(pid: nat, dirfd: int, ans: OpenAnswers)
    | Close(pid: nat, fd: int)
    | Chdir(pid: nat, path: bool, host: bool)
    | Fchdir(pid: nat, fd: int, isDir: bool)

  predicate Sound(w: World) {
    && (forall f :: 0 <= f < |w.files| ==> w.files[f].dev < |w.closes|)
    && (forall i :: 0 <= i < |w.procs| ==> SoundProc(w, w.procs[i]))
  }

  predicate SoundProc(w: World, p: Proc) {
    && |p.slots| == NOFILE
    && (forall k :: 0 <= k < NOFILE && p.slots[k].Some? ==> p.slots[k].value < |w.files|)
    && (p.cwdFd.Some? ==> p.cwdFd.value < |w.files|)
    && (p.cwdFile.Some? ==> p.cwdFile.value < |w.closes|)
  }

  function DoSpawn(w: World, space: bool): World
    requires Sound(w) && |w.files| >= 3
  {
    if !space || |w.procs| >= MAXPROCS then w
    else
      var empty := seq(NOFILE, _ => None);
      var w1 := Bump(Bump(Bump(w, 0), 1), 2);
      w1.(procs := w.procs + [Proc(empty[0 := Some(0)][1 := Some(1)][2 := Some(2)], None, None)])
  }

  function DoOpen(w: World, pid: nat, dirfd: int, ans: OpenAnswers): (World, int)
    requires Sound(w) && pid < |w.procs|
  {
    var p := w.procs[pid];
    if dirfd != AT_FDCWD && !(Has(p, dirfd) && ans.isDir) then (w, -EBADF)
    else if !ans.path then (w, -EFAULT)
    else if !ans.host then (w, -ENOENT)
    else
      var w1 := w.(closes := w.closes + [0]);
      if !ans.alloc then (w1, -ENOENT)
      else
        var f := |w.files|;
        var w2 := w1.(files := w.files + [FDFile(0, |w.closes|, false)]);
        var fd := FirstFree(p.slots, 0);
        if fd < 0 then (Release(w2, f), -EMFILE)
        else (SetSlot(Bump(w2, f), pid, fd, Some(f)), fd)
  }

  function DoClose(w: World, pid: nat, fd: int): (World, int)
    requires Sound(w) && pid < |w.procs|
  {
    var p := w.procs[pid];
    if Has(p, fd) then (SetSlot(Release(w, p.slots[fd].value), pid, fd, None), 0) else (w, -EBADF)
  }

  /** Gives up the present working directory: a held file is released, an owned one closed. */
  function LeaveCwd(w: World, p: Proc): World
    requires Sound(w) && SoundProc(w, p)
  {
    if p.cwdFd.Some? then Release(w, p.cwdFd.value)
    else if p.cwdFile.Some? then HostClose(w, p.cwdFile.value)
    else w
  }

  function DoChdir(w: World, pid: nat, path: bool, host: bool): (World, int)
    requires Sound(w) && pid < |w.procs|
  {
    if !path then (w, -EFAULT)
    else
      var p := w.procs[pid];
      var w1 := if host then w.(closes := w.closes + [0]) else w;
      var dir := if host then Some(|w.closes|) else None;
      (SetProc(LeaveCwd(w1, p), pid, p.(cwdFile := dir, cwdFd := None)), 0)
  }

  function DoFchdir(w: World, pid: nat, fd: int, isDir: bool): (World, int)
    requires Sound(w) && pid < |w.procs|
  {
    var p := w.procs[pid];
    if !Has(p, fd) then (w, -EBADF)
    else if !isDir then (w, -ENOTDIR)
    else
      var f := p.slots[fd].value;
      var w1 := Bump(LeaveCwd(w, p), f);
      (SetProc(w1, pid, p.(cwdFile := Some(w.files[f].dev), cwdFd := Some(f))), 0)
  }

  predicate Applicable(w: World, op: Op) {
    Sound(w) && |w.files| >= 3 && (op.Spawn? || op.pid < |w.procs|)
  }

  function Step(w: World, op: Op): World
    requires Applicable(w, op)
  {
    match op
    case Spawn(space) => DoSpawn(w, space)
    case Open(pid, dirfd, ans) => DoOpen(w, pid, dirfd, ans).0
    case Close(pid, fd) => DoClose(w, pid, fd).0
    case Chdir(pid, path, host) => DoChdir(w, pid, path, host).0
    case Fchdir(pid, fd, isDir) => DoFchdir(w, pid, fd, isDir).0
  }

  // ---------------------------------------------------------------- counting holders

  function HoldsOf(p: Proc, f: nat): nat {
    multiset(p.slots)[Some(f)] + (if p.cwdFd == Some(f) then 1 else 0)
  }

  function Holds(procs: seq<Proc>, f: nat): nat {
    if procs == [] then 0 else Holds(procs[..|procs| - 1], f) + HoldsOf(procs[|procs| - 1], f)
  }

  /** Table slots, working directories, and the engine's own hold on the standard streams. */
  function Holders(w: World, f: nat): nat {
    Holds(w.procs, f) + (if f < 3 then 1 else 0)
  }

  lemma {:induction false} HoldsUpdate(procs: seq<Proc>, i: nat, p: Proc, f: nat)
    requires i < |procs|
    ensures Holds(procs[i := p], f) == Holds(procs, f) - HoldsOf(procs[i], f) + HoldsOf(p, f)
    ensures Holds(procs, f) >= HoldsOf(procs[i], f)
  {
    hide HoldsOf;
    var n := |procs| - 1;
    if i == n {
      assert procs[i := p][..n] == procs[..n];
    } else {
      HoldsUpdate(procs[..n], i, p, f);
      assert procs[i := p][..n] == procs[..n][i := p];
    }
  }

  lemma {:induction false} HoldsBound(procs: seq<Proc>, f: nat)
    requires forall i :: 0 <= i < |procs| ==> |procs[i].slots| == NOFILE
    ensures Holds(procs, f) <= (NOFILE + 1) * |procs|
  {
    if procs != [] {
      HoldsBound(procs[..|procs| - 1], f);
      CountBound(procs[|procs| - 1].slots, Some(f));
    }
  }

  lemma CountBound(s: seq<Option<nat>>, x: Option<nat>)
    ensures multiset(s)[x] <= |s|
  {
    var m := multiset(s);
    assert |m| == |s|;
    assert |m[x := 0]| == |m| - m[x];
  }

  lemma {:induction false} HoldsNothingNew(procs: seq<Proc>, f: nat)
    requires forall i :: 0 <= i < |procs| ==>
      && (forall k :: 0 <= k < |procs[i].slots| ==> procs[i].slots[k] != Some(f)) && procs[i].cwdFd != Some(f)
    ensures Holds(procs, f) == 0
  {
    if procs != [] {
      HoldsNothingNew(procs[..|procs| - 1], f);
      var s := procs[|procs| - 1].slots;
      assert Some(f) !in s;
    }
  }

  lemma SlotCounts(p: Proc, fd: nat, f: nat)
    requires fd < |p.slots| && p.slots[fd] == Some(f)
    ensures HoldsOf(p, f) >= 1 + (if p.cwdFd == Some(f) then 1 else 0)
  {
    assert Some(f) in multiset(p.slots);
  }

  // ---------------------------------------------------------------- the invariant

  /** A file is freed, its host file closed once, and nobody holds it; or its host file is open
      and its count is the number of its holders. The count of a file that nobody ever held,
      because the open found the table full, has wrapped to the largest word. */
  predicate FileOk(w: World, f: nat)
    requires f < |w.files| && w.files[f].dev < |w.closes|
  {
    var x, h := w.files[f], Holders(w, f);
    if x.freed then h == 0 && w.closes[x.dev] == 1
    else w.closes[x.dev] == 0 && x.refs == if h > 0 then h else WORD - 1
  }

  /** The host file that a working directory owns by itself, if any. */
  function Owned(p: Proc): Option<nat> {
    if p.cwdFd == None then p.cwdFile else None
  }

  predicate CwdOk(w: World, i: nat)
    requires Sound(w) && i < |w.procs|
  {
    var p := w.procs[i];
    && (p.cwdFd.Some? ==> p.cwdFile == Some(w.files[p.cwdFd.value].dev))
    && (Owned(p).Some? ==> w.closes[Owned(p).value] == 0)
    && (Owned(p).Some? ==> forall f :: 0 <= f < |w.files| ==> w.files[f].dev != Owned(p).value)
    && (Owned(p).Some? ==> forall j :: 0 <= j < |w.procs| && j != i ==> Owned(w.procs[j]) != Owned(p))
  }

  /** Holder counts never wrap: at most 64 processes with 129 places each. */
  lemma Bounded(w: World, f: nat)
    requires Sound(w) && |w.procs| <= MAXPROCS
    ensures Holders(w, f) < WORD - 3
  {
    HoldsBound(w.procs, f);
  }

  lemma SetProcHolders(w: World, i: nat, p: Proc, f: nat)
    requires i < |w.procs|
    ensures Holders(SetProc(w, i, p), f) == Holders(w, f) - HoldsOf(w.procs[i], f) + HoldsOf(p, f)
    ensures Holders(w, f) >= HoldsOf(w.procs[i], f)
  {
    HoldsUpdate(w.procs, i, p, f);
  }

  lemma SlotUpdate(p: Proc, fd: nat, x: Option<nat>, f: nat)
    requires fd < |p.slots|
    ensures HoldsOf(p.(slots := p.slots[fd := x]), f) ==
      HoldsOf(p, f) - (if p.slots[fd] == Some(f) then 1 else 0) + (if x == Some(f) then 1 else 0)
    ensures p.slots[fd] == Some(f) ==> HoldsOf(p, f) >= 1
  {
    if p.slots[fd] == Some(f) {
      assert Some(f) in multiset(p.slots);
    }
  }

  ghost predicate FilesInv(w: World) {
    && Sound(w) && |w.files| >= 3 && |w.procs| <= MAXPROCS
    && (forall f :: 0 <= f < |w.files| ==> FileOk(w, f))
    && (forall f, g :: 0 <= f < g < |w.files| ==> w.files[f].dev != w.files[g].dev)
    && (forall h :: 0 <= h < |w.closes| ==> w.closes[h] <= 1)
  }

  ghost predicate CwdInv(w: World) {
    Sound(w) && forall i :: 0 <= i < |w.procs| ==> CwdOk(w, i)
  }

  ghost predicate Inv(w: World) {
    FilesInv(w) && CwdInv(w)
  }

  /** What a release does to a file that somebody holds. */
  lemma ReleaseEffect(w: World, f: nat)
    requires FilesInv(w) && f < |w.files| && Holders(w, f) > 0
    ensures
      var w', h, dev := Release(w, f), Holders(w, f), w.files[f].dev;
      && w'.procs == w.procs && |w'.files| == |w.files| && |w'.closes| == |w.closes|
      && (forall g :: 0 <= g < |w.files| && g != f ==> w'.files[g] == w.files[g])
      && w'.files[f].refs == h - 1 && w'.files[f].dev == dev && w'.files[f].freed == (h == 1)
      && (forall k :: 0 <= k < |w.closes| && k != dev ==> w'.closes[k] == w.closes[k])
      && w'.closes[dev] == if h == 1 then 1 else 0
  {
    assert FileOk(w, f);
  }

  /** p' is p with one hold on f given up. */
  ghost predicate OneLess(p: Proc, p': Proc, f: nat) {
    forall g: nat :: HoldsOf(p', g) == HoldsOf(p, g) - if g == f then 1 else 0
  }

  /** Giving up a hold and releasing the file keeps every count right, and closes the host file
      exactly with the last hold. */
  lemma DropKeepsFiles(w: World, i: nat, p': Proc, f: nat)
    requires FilesInv(w) && i < |w.procs| && f < |w.files| && SoundProc(w, p') && OneLess(w.procs[i], p', f)
    ensures Holders(w, f) > 0 && FilesInv(SetProc(Release(w, f), i, p'))
  {
    hide Holds, HoldsOf, Release;
    assert HoldsOf(p', f) == HoldsOf(w.procs[i], f) - 1;
    SetProcHolders(w, i, p', f);
    ReleaseEffect(w, f);
    var w' := SetProc(Release(w, f), i, p');
    assert w'.procs == SetProc(w, i, p').procs;
    forall g | 0 <= g < |w'.files| ensures w'.files[g].dev < |w'.closes| && FileOk(w', g) {
      assert FileOk(w, g);
      SetProcHolders(w, i, p', g);
      assert HoldsOf(p', g) == HoldsOf(w.procs[i], g) - if g == f then 1 else 0;
    }
    forall j | 0 <= j < |w'.procs| ensures SoundProc(w', w'.procs[j]) {
      assert SoundProc(w, w.procs[j]);
    }
  }

  /** p' is p with one more hold on f. */
  ghost predicate OneMore(p: Proc, p': Proc, f: nat) {
    forall g: nat :: HoldsOf(p', g) == HoldsOf(p, g) + if g == f then 1 else 0
  }

  /** A further hold on a file that is already held. */
  lemma TakeKeepsFiles(w: World, i: nat, p': Proc, f: nat)
    requires FilesInv(w) && i < |w.procs| && f < |w.files| && SoundProc(w, p') && OneMore(w.procs[i], p', f)
    requires Holders(w, f) > 0
    ensures FilesInv(SetProc(Bump(w, f), i, p'))
  {
    hide Holds, HoldsOf;
    Bounded(w, f);
    var w' := SetProc(Bump(w, f), i, p');
    assert w'.procs == SetProc(w, i, p').procs;
    forall g | 0 <= g < |w'.files| ensures w'.files[g].dev < |w'.closes| && FileOk(w', g) {
      assert FileOk(w, g);
      SetProcHolders(w, i, p', g);
      assert HoldsOf(p', g) == HoldsOf(w.procs[i], g) + if g == f then 1 else 0;
    }
    forall j | 0 <= j < |w'.procs| ensures SoundProc(w', w'.procs[j]) {
      assert SoundProc(w, w.procs[j]);
    }
  }

  /** A host file that no FDFile stands for is opened or closed. */
  lemma HostKeepsFiles(w: World, closes: seq<nat>)
    requires FilesInv(w) && |w.closes| <= |closes|
    requires forall f :: 0 <= f < |w.files| ==> closes[w.files[f].dev] == w.closes[w.files[f].dev]
    requires forall h :: 0 <= h < |closes| ==> closes[h] <= 1
    ensures FilesInv(w.(closes := closes))
  {
    hide Holds, HoldsOf;
    var w' := w.(closes := closes);
    forall g | 0 <= g < |w'.files| ensures w'.files[g].dev < |w'.closes| && FileOk(w', g) {
      assert FileOk(w, g);
    }
    forall j | 0 <= j < |w'.procs| ensures SoundProc(w', w'.procs[j]) {
      assert SoundProc(w, w.procs[j]);
    }
  }

  /** A process changes without changing what it holds. */
  lemma SameHoldsKeepsFiles(w: World, i: nat, p': Proc)
    requires FilesInv(w) && i < |w.procs| && SoundProc(w, p')
    requires p'.slots == w.procs[i].slots && p'.cwdFd == w.procs[i].cwdFd
    ensures FilesInv(SetProc(w, i, p'))
  {
    hide Holds;
    var w' := SetProc(w, i, p');
    forall g | 0 <= g < |w'.files| ensures w'.files[g].dev < |w'.closes| && FileOk(w', g) {
      assert FileOk(w, g);
      SetProcHolders(w, i, p', g);
    }
    forall j | 0 <= j < |w'.procs| ensures SoundProc(w', w'.procs[j]) {
      assert SoundProc(w, w.procs[j]);
    }
  }

  /** A new record on a new host file: held once by process i, or by nobody with a wrapped count. */
  lemma NewFileKeepsFiles(w: World, refs: U64, procs: seq<Proc>)
    requires FilesInv(w) && |procs| == |w.procs|
    requires
      var w' := World(w.files + [FDFile(refs, |w.closes|, false)], w.closes + [0], procs);
      && (forall g: nat :: g < |w.files| ==> Holds(procs, g) == Holds(w.procs, g))
      && refs == (if Holds(procs, |w.files|) > 0 then Holds(procs, |w.files|) else WORD - 1)
      && forall i :: 0 <= i < |procs| ==> SoundProc(w', procs[i])
    ensures FilesInv(World(w.files + [FDFile(refs, |w.closes|, false)], w.closes + [0], procs))
  {
    hide Holds, HoldsOf;
    var w' := World(w.files + [FDFile(refs, |w.closes|, false)], w.closes + [0], procs);
    forall g | 0 <= g < |w'.files| ensures w'.files[g].dev < |w'.closes| && FileOk(w', g) {
      if g < |w.files| {
        assert FileOk(w, g);
        assert w'.files[g] == w.files[g];
      } else {
        assert w'.files[g] == FDFile(refs, |w.closes|, false);
      }
    }
  }

  // ---------------------------------------------------------------- every call keeps the invariant

  lemma CloseKeepsInv(w: World, pid: nat, fd: int)
    requires Inv(w) && pid < |w.procs|
    ensures Inv(DoClose(w, pid, fd).0)
  {
    var p := w.procs[pid];
    if Has(p, fd) {
      var f, p' := p.slots[fd].value, p.(slots := p.slots[fd := None]);
      forall g: nat ensures HoldsOf(p', g) == HoldsOf(p, g) - if g == f then 1 else 0 {
        SlotUpdate(p, fd, None, g);
      }
      DropKeepsFiles(w, pid, p', f);
      DropKeepsCwds(w, pid, p', f);
    }
  }

  /** A working directory does not care whether somebody else's hold goes. */
  lemma DropKeepsCwds(w: World, i: nat, p': Proc, f: nat)
    requires Inv(w) && i < |w.procs| && f < |w.files| && SoundProc(w, p') && OneLess(w.procs[i], p', f)
    requires Holders(w, f) > 0
    requires (p'.cwdFile == w.procs[i].cwdFile && p'.cwdFd == w.procs[i].cwdFd) || p'.cwdFile == p'.cwdFd == None
    ensures Sound(SetProc(Release(w, f), i, p')) && CwdInv(SetProc(Release(w, f), i, p'))
  {
    hide Holds, HoldsOf, Release;
    ReleaseEffect(w, f);
    var w' := SetProc(Release(w, f), i, p');
    forall j | 0 <= j < |w'.procs| ensures SoundProc(w', w'.procs[j]) {
      assert SoundProc(w, w.procs[j]);
    }
    forall g | 0 <= g < |w'.files| ensures w'.files[g].dev == w.files[g].dev < |w'.closes| {
      assert g == f || w'.files[g] == w.files[g];
    }
    forall j | 0 <= j < |w'.procs| ensures CwdOk(w', j) {
      assert CwdOk(w, j) && CwdOk(w, i);
    }
  }

  /** Leaving the working directory: its hold is dropped, or its own host file closed. */
  lemma LeaveKeepsInv(w: World, i: nat)
    requires Inv(w) && i < |w.procs|
    ensures
      var p := w.procs[i];
      Inv(SetProc(LeaveCwd(w, p), i, p.(cwdFile := None, cwdFd := None)))
  {
    var p := w.procs[i];
    var p' := p.(cwdFile := None, cwdFd := None);
    assert CwdOk(w, i);
    if p.cwdFd.Some? {
      DropKeepsFiles(w, i, p', p.cwdFd.value);
      DropKeepsCwds(w, i, p', p.cwdFd.value);
    } else if p.cwdFile.Some? {
      CloseOwnedKeepsInv(w, i);
    } else {
      assert SetProc(w, i, p') == w;
    }
  }

  lemma CloseOwnedKeepsInv(w: World, i: nat)
    requires Inv(w) && i < |w.procs| && Owned(w.procs[i]).Some? && Owned(w.procs[i]).value < |w.closes|
    ensures
      var p := w.procs[i];
      Inv(SetProc(HostClose(w, Owned(p).value), i, p.(cwdFile := None, cwdFd := None)))
  {
    hide Holds, HoldsOf;
    var p, h := w.procs[i], Owned(w.procs[i]).value;
    var p' := p.(cwdFile := None, cwdFd := None);
    assert CwdOk(w, i);
    var w1 := HostClose(w, h);
    HostKeepsFiles(w, w1.closes);
    SameHoldsKeepsFiles(w1, i, p');
    var w' := SetProc(w1, i, p');
    forall j | 0 <= j < |w'.procs| ensures CwdOk(w', j) {
      assert CwdOk(w, j);
    }
  }

  /** Opening a host file disturbs nothing. */
  lemma HostOpenKeepsInv(w: World)
    requires Inv(w)
    ensures Inv(w.(closes := w.closes + [0]))
  {
    hide Holds, HoldsOf;
    var w' := w.(closes := w.closes + [0]);
    HostKeepsFiles(w, w'.closes);
    forall j | 0 <= j < |w'.procs| ensures CwdOk(w', j) {
      assert CwdOk(w, j);
    }
  }

  /** An open host file that nobody has yet becomes a working directory of its own. */
  lemma OwnKeepsInv(w: World, i: nat, h: nat)
    requires Inv(w) && i < |w.procs| && w.procs[i].cwdFd == w.procs[i].cwdFile == None
    requires h < |w.closes| && w.closes[h] == 0
    requires forall f :: 0 <= f < |w.files| ==> w.files[f].dev != h
    requires forall j :: 0 <= j < |w.procs| ==> Owned(w.procs[j]) != Some(h)
    ensures Inv(SetProc(w, i, w.procs[i].(cwdFile := Some(h))))
  {
    hide Holds, HoldsOf;
    var p' := w.procs[i].(cwdFile := Some(h));
    SameHoldsKeepsFiles(w, i, p');
    var w' := SetProc(w, i, p');
    forall j | 0 <= j < |w'.procs| ensures CwdOk(w', j) {
      assert CwdOk(w, j);
    }
  }

  lemma ChdirKeepsInv(w: World, pid: nat, path: bool, host: bool)
    requires Inv(w) && pid < |w.procs|
    ensures Inv(DoChdir(w, pid, path, host).0)
  {
    hide Holds, HoldsOf, FileOk, CwdOk;
    if path {
      var p := w.procs[pid];
      var w1 := if host then w.(closes := w.closes + [0]) else w;
      HostOpenKeepsInv(w);
      LeaveKeepsInv(w1, pid);
      var p' := p.(cwdFile := None, cwdFd := None);
      var w2 := SetProc(LeaveCwd(w1, p), pid, p');
      if host {
        LeaveFresh(w, pid);
        OwnKeepsInv(w2, pid, |w.closes|);
        assert SetProc(w2, pid, p'.(cwdFile := Some(|w.closes|))) == DoChdir(w, pid, path, host).0;
      }
    }
  }

  /** After leaving, the host file opened just before is still open and still nobody's. */
  lemma LeaveFresh(w: World, pid: nat)
    requires Inv(w) && pid < |w.procs|
    ensures
      var w1, p := w.(closes := w.closes + [0]), w.procs[pid];
      && Sound(w1) && SoundProc(w1, p)
      && var w2 := SetProc(LeaveCwd(w1, p), pid, p.(cwdFile := None, cwdFd := None));
      && |w2.closes| == |w.closes| + 1 && w2.closes[|w.closes|] == 0
      && (forall f :: 0 <= f < |w2.files| ==> w2.files[f].dev != |w.closes|)
      && (forall j :: 0 <= j < |w2.procs| ==> Owned(w2.procs[j]) != Some(|w.closes|))
  {
    hide Holds, HoldsOf, FileOk, CwdOk;
    var w1, p := w.(closes := w.closes + [0]), w.procs[pid];
    forall j | 0 <= j < |w.procs| ensures SoundProc(w1, w1.procs[j]) {
      assert SoundProc(w, w.procs[j]);
    }
  }

  lemma FchdirKeepsInv(w: World, pid: nat, fd: int, isDir: bool)
    requires Inv(w) && pid < |w.procs|
    ensures Inv(DoFchdir(w, pid, fd, isDir).0)
  {
    var p := w.procs[pid];
    if Has(p, fd) && isDir {
      var f := p.slots[fd].value;
      var p' := p.(cwdFile := None, cwdFd := None);
      var w1 := SetProc(LeaveCwd(w, p), pid, p');
      LeaveKeepsInv(w, pid);
      var p'' := p.(cwdFile := Some(w.files[f].dev), cwdFd := Some(f));
      assert w1.files[f].dev == w.files[f].dev;
      SlotCounts(p', fd, f);
      SetProcHolders(w1, pid, p', f);
      TakeKeepsFiles(w1, pid, p'', f);
      TakeKeepsCwds(w1, pid, p'', f);
      assert SetProc(Bump(w1, f), pid, p'') == DoFchdir(w, pid, fd, isDir).0;
    }
  }

  lemma TakeKeepsCwds(w: World, i: nat, p': Proc, f: nat)
    requires Inv(w) && i < |w.procs| && f < |w.files| && SoundProc(w, p')
    requires p'.cwdFd == Some(f) && p'.cwdFile == Some(w.files[f].dev)
    ensures Sound(SetProc(Bump(w, f), i, p')) && CwdInv(SetProc(Bump(w, f), i, p'))
  {
    hide Holds, HoldsOf;
    var w' := SetProc(Bump(w, f), i, p');
    forall j | 0 <= j < |w'.procs| ensures SoundProc(w', w'.procs[j]) {
      assert SoundProc(w, w.procs[j]);
    }
    forall j | 0 <= j < |w'.procs| ensures CwdOk(w', j) {
      assert CwdOk(w, j);
    }
  }

  /** A new record and its host file leave the working directories alone. */
  lemma NewFileKeepsCwds(w: World, x: FDFile, procs: seq<Proc>)
    requires Inv(w) && |procs| == |w.procs| && x.dev == |w.closes|
    requires forall i :: 0 <= i < |procs| ==>
      procs[i].cwdFile == w.procs[i].cwdFile && procs[i].cwdFd == w.procs[i].cwdFd
    requires
      var w' := World(w.files + [x], w.closes + [0], procs);
      forall i :: 0 <= i < |procs| ==> SoundProc(w', procs[i])
    ensures CwdInv(World(w.files + [x], w.closes + [0], procs))
  {
    hide Holds, HoldsOf;
    var w' := World(w.files + [x], w.closes + [0], procs);
    forall j | 0 <= j < |w'.procs| ensures CwdOk(w', j) {
      assert CwdOk(w, j) && SoundProc(w, w.procs[j]);
    }
  }

  lemma NoHolderYet(w: World)
    requires Sound(w)
    ensures Holds(w.procs, |w.files|) == 0
  {
    forall i | 0 <= i < |w.procs|
      ensures (forall k :: 0 <= k < |w.procs[i].slots| ==> w.procs[i].slots[k] != Some(|w.files|)) && w.procs[i].cwdFd != Some(|w.files|)
    {
      assert SoundProc(w, w.procs[i]);
    }
    HoldsNothingNew(w.procs, |w.files|);
  }

  lemma OpenKeepsInv(w: World, pid: nat, dirfd: int, ans: OpenAnswers)
    requires Inv(w) && pid < |w.procs|
    ensures Inv(DoOpen(w, pid, dirfd, ans).0)
  {
    hide Holds, HoldsOf, FileOk, CwdOk;
    var p, n := w.procs[pid], |w.files|;
    HostOpenKeepsInv(w);
    NoHolderYet(w);
    var w', fd := DoOpen(w, pid, dirfd, ans).0, FirstFree(p.slots, 0);
    if |w'.files| == n + 1 {
      if fd < 0 {
        var x := FDFile(WORD - 1, |w.closes|, false);
        assert w' == World(w.files + [x], w.closes + [0], w.procs);
        SoundGrows(w, x, w.procs);
        NewFileKeepsFiles(w, WORD - 1, w.procs);
        NewFileKeepsCwds(w, x, w.procs);
      } else {
        var x, p' := FDFile(1, |w.closes|, false), p.(slots := p.slots[fd := Some(n)]);
        var procs := w.procs[pid := p'];
        assert w' == World(w.files + [x], w.closes + [0], procs);
        forall g: nat ensures Holds(procs, g) == Holds(w.procs, g) + if g == n then 1 else 0 {
          SlotUpdate(p, fd, Some(n), g);
          HoldsUpdate(w.procs, pid, p', g);
        }
        SoundGrows(w, x, procs);
        NewFileKeepsFiles(w, 1, procs);
        NewFileKeepsCwds(w, x, procs);
      }
    }
  }

  lemma SoundGrows(w: World, x: FDFile, procs: seq<Proc>)
    requires Sound(w)
    requires forall i :: 0 <= i < |procs| ==>
      && |procs[i].slots| == NOFILE
      && (forall k :: 0 <= k < NOFILE && procs[i].slots[k].Some? ==> procs[i].slots[k].value <= |w.files|)
      && (procs[i].cwdFd.Some? ==> procs[i].cwdFd.value < |w.files|)
      && (procs[i].cwdFile.Some? ==> procs[i].cwdFile.value < |w.closes|)
    ensures forall i :: 0 <= i < |procs| ==> SoundProc(World(w.files + [x], w.closes + [0], procs), procs[i])
  {
  }

  /** The three slots that fdinit fills. */
  lemma FreshTable(f: nat)
    ensures
      var empty: seq<Option<nat>> := seq(NOFILE, _ => None);
      HoldsOf(Proc(empty[0 := Some(0)][1 := Some(1)][2 := Some(2)], None, None), f) == if f < 3 then 1 else 0
  {
    var empty: seq<Option<nat>> := seq(NOFILE, _ => None);
    assert Some(f) !in empty;
    var p0 := Proc(empty, None, None);
    var p1 := p0.(slots := p0.slots[0 := Some(0)]);
    var p2 := p1.(slots := p1.slots[1 := Some(1)]);
    SlotUpdate(p0, 0, Some(0), f);
    SlotUpdate(p1, 1, Some(1), f);
    SlotUpdate(p2, 2, Some(2), f);
  }

  lemma SpawnKeepsInv(w: World, space: bool)
    requires Inv(w)
    ensures Inv(DoSpawn(w, space))
  {
    hide HoldsOf;
    var w' := DoSpawn(w, space);
    if w' != w {
      var n := |w.procs|;
      assert w'.procs[..n] == w.procs;
      forall g | 0 <= g < |w'.files| ensures w'.files[g].dev < |w'.closes| && FileOk(w', g) {
        assert FileOk(w, g);
        Bounded(w, g);
        FreshTable(g);
        assert Holds(w'.procs, g) == Holds(w.procs, g) + HoldsOf(w'.procs[n], g);
        assert w'.files[g].dev == w.files[g].dev && w'.files[g].freed == w.files[g].freed;
        assert w'.files[g].refs == if g < 3 then Add64(w.files[g].refs, 1) else w.files[g].refs;
      }
      forall j | 0 <= j < |w'.procs| ensures SoundProc(w', w'.procs[j]) {
        assert j < n ==> SoundProc(w, w.procs[j]);
      }
      forall j | 0 <= j < |w'.procs| ensures CwdOk(w', j) {
        assert j < n ==> CwdOk(w, j);
      }
    }
  }

  lemma StepKeepsInv(w: World, op: Op)
    requires Inv(w) && Applicable(w, op)
    ensures Inv(Step(w, op))
  {
    hide Inv, DoSpawn, DoOpen, DoClose, DoChdir, DoFchdir;
    match op
    case Spawn(space) => SpawnKeepsInv(w, space);
    case Open(pid, dirfd, ans) => OpenKeepsInv(w, pid, dirfd, ans);
    case Close(pid, fd) => CloseKeepsInv(w, pid, fd);
    case Chdir(pid, path, host) => ChdirKeepsInv(w, pid, path, host);
    case Fchdir(pid, fd, isDir) => FchdirKeepsInv(w, pid, fd, isDir);
  }

  // ---------------------------------------------------------------- theorems over runs

  /** The engine as lfi_tux_new leaves it: three streams, each held once by the engine itself. */
  function Boot(): World {
    World([FDFile(1, 0, false), FDFile(1, 1, false), FDFile(1, 2, false)], [0, 0, 0], [])
  }

  ghost predicate IsRun(run: seq<World>, ops: seq<Op>) {
    && |run| == |ops| + 1 && run[0] == Boot()
    && forall i :: 0 <= i < |ops| ==> Applicable(run[i], ops[i]) && run[i + 1] == Step(run[i], ops[i])
  }

  lemma {:induction false} RunKeepsInv(run: seq<World>, ops: seq<Op>, i: nat)
    requires IsRun(run, ops) && i <= |ops|
    ensures Inv(run[i])
  {
    if i > 0 {
      hide Inv, Step;
      RunKeepsInv(run, ops, i - 1);
      StepKeepsInv(run[i - 1], ops[i - 1]);
    } else {
      assert forall f :: 0 <= f < 3 ==> FileOk(run[0], f);
    }
  }

  /** An open that gets past the checks on its directory and its path. */
  predicate Reaches(p: Proc, dirfd: int, ans: OpenAnswers) {
    (dirfd == AT_FDCWD || (Has(p, dirfd) && ans.isDir)) && ans.path
  }

  /** Does this call create a file for a process whose table is full? */
  predicate FullOpen(w: World, op: Op)
    requires Applicable(w, op)
  {
    && op.Open? && Reaches(w.procs[op.pid], op.dirfd, op.ans) && op.ans.host && op.ans.alloc
    && forall k :: 0 <= k < NOFILE && k < |w.procs[op.pid].slots| ==> w.procs[op.pid].slots[k].Some?
  }

  /** Does this call open a host file and then find no memory for its record? */
  predicate RecordlessOpen(w: World, op: Op)
    requires Applicable(w, op)
  {
    op.Open? && Reaches(w.procs[op.pid], op.dirfd, op.ans) && op.ans.host && !op.ans.alloc
  }

  /** Every record that is not freed has a holder. */
  ghost predicate NoLeak(w: World) {
    forall f :: 0 <= f < |w.files| && !w.files[f].freed ==> Holders(w, f) > 0
  }

  /** Host file h stands behind a record that somebody holds, or is a working directory. */
  ghost predicate Named(w: World, h: nat) {
    || (exists f :: 0 <= f < |w.files| && w.files[f].dev == h && Holders(w, f) > 0)
    || (exists i :: 0 <= i < |w.procs| && Owned(w.procs[i]) == Some(h))
  }

  /** Every host file that is still open is named by somebody who can close it. */
  ghost predicate NoOrphan(w: World) {
    forall h :: 0 <= h < |w.closes| && w.closes[h] == 0 ==> Named(w, h)
  }

  /** What no call does: touch a record that nobody holds, raise a count by more than one, close a
      host file that nobody names, or forget an owned directory without closing it. */
  ghost predicate Tame(w: World, w': World) {
    && |w.files| <= |w'.files| && |w.closes| <= |w'.closes| && |w.procs| <= |w'.procs|
    && (forall f :: 0 <= f < |w.files| ==> TameFile(w, w', f))
    && (forall f :: |w.files| <= f < |w'.files| ==> w'.files[f].dev >= |w.closes|)
    && (forall h :: 0 <= h < |w.closes| ==> w'.closes[h] == w.closes[h] || (w'.closes[h] > w.closes[h] && Named(w, h)))
    && (forall i :: 0 <= i < |w'.procs| ==> TameCwd(w, w', i))
  }

  ghost predicate TameFile(w: World, w': World, f: nat)
    requires f < |w.files| <= |w'.files|
  {
    && w'.files[f].dev == w.files[f].dev
    && (Holders(w, f) == 0 ==> w'.files[f] == w.files[f])
    && (!w'.files[f].freed ==> w'.files[f].refs <= w.files[f].refs + 1)
  }

  ghost predicate TameCwd(w: World, w': World, i: nat)
    requires i < |w'.procs| && |w.closes| <= |w'.closes|
  {
    var now, before := Owned(w'.procs[i]), if i < |w.procs| then Owned(w.procs[i]) else None;
    && (now.Some? ==> now == before || now.value >= |w.closes|)
    && (before.Some? && before != now ==> before.value < |w.closes| && w'.closes[before.value] > w.closes[before.value])
  }

  lemma CloseTame(w: World, pid: nat, fd: int)
    requires Inv(w) && pid < |w.procs|
    ensures Tame(w, DoClose(w, pid, fd).0)
  {
    hide Holds, HoldsOf, CwdOk, Release;
    var p := w.procs[pid];
    if Has(p, fd) {
      HeldInSlot(w, pid, fd);
      ReleaseTame(w, p.slots[fd].value);
      TameAfter(w, Release(w, p.slots[fd].value), DoClose(w, pid, fd).0);
    }
  }

  /** More open host files, and other processes with tame working directories. */
  lemma TameAfter(w: World, w1: World, w': World)
    requires Tame(w, w1) && w'.files == w1.files && |w.procs| <= |w'.procs| && w1.closes <= w'.closes
    requires forall i :: 0 <= i < |w'.procs| ==> TameCwd(w, w', i)
    ensures Tame(w, w')
  {
    hide Holders, Named;
    forall f | 0 <= f < |w.files| ensures TameFile(w, w', f) {
      assert TameFile(w, w1, f);
    }
  }

  /** Releasing a held file is tame as long as no process changes. */
  lemma ReleaseTame(w: World, f: nat)
    requires Inv(w) && f < |w.files| && Holders(w, f) > 0
    ensures Tame(w, Release(w, f)) && Release(w, f).procs == w.procs
  {
    hide Holds, HoldsOf, CwdOk, Release;
    ReleaseEffect(w, f);
    assert FileOk(w, f);
    var w' := Release(w, f);
    forall g | 0 <= g < |w.files| ensures TameFile(w, w', g) {
      assert g != f ==> w'.files[g] == w.files[g];
    }
  }

  lemma HeldInSlot(w: World, pid: nat, fd: int)
    requires Sound(w) && pid < |w.procs| && Has(w.procs[pid], fd)
    ensures w.procs[pid].slots[fd].value < |w.files| && Holders(w, w.procs[pid].slots[fd].value) > 0
  {
    var p := w.procs[pid];
    assert SoundProc(w, p);
    SlotCounts(p, fd, p.slots[fd].value);
    SetProcHolders(w, pid, p, p.slots[fd].value);
  }

  lemma HeldAsCwd(w: World, pid: nat)
    requires Sound(w) && pid < |w.procs| && w.procs[pid].cwdFd.Some?
    ensures w.procs[pid].cwdFd.value < |w.files| && Holders(w, w.procs[pid].cwdFd.value) > 0
  {
    var p := w.procs[pid];
    assert SoundProc(w, p);
    HeldByCwd(p, p.cwdFd.value);
    SetProcHolders(w, pid, p, p.cwdFd.value);
  }

  /** Leaving a working directory, and having none of its own afterwards, is tame. */
  lemma LeaveTame(w: World, pid: nat)
    requires Inv(w) && pid < |w.procs|
    ensures
      var w1 := LeaveCwd(w, w.procs[pid]);
      && w1.procs == w.procs && Tame(w, SetProc(w1, pid, w.procs[pid].(cwdFile := None, cwdFd := None)))
  {
    hide Holds, HoldsOf, Release;
    var p := w.procs[pid];
    assert SoundProc(w, p) && CwdOk(w, pid);
    hide CwdOk;
    if p.cwdFd.Some? {
      HeldAsCwd(w, pid);
      ReleaseTame(w, p.cwdFd.value);
      TameAfter(w, LeaveCwd(w, p), SetProc(LeaveCwd(w, p), pid, p.(cwdFile := None, cwdFd := None)));
    } else if p.cwdFile.Some? {
      assert Owned(w.procs[pid]) == Some(p.cwdFile.value);
    }
  }

  lemma ChdirTame(w: World, pid: nat, path: bool, host: bool)
    requires Inv(w) && pid < |w.procs|
    ensures Tame(w, DoChdir(w, pid, path, host).0)
  {
    hide Holds, HoldsOf, CwdOk;
    if path {
      var p := w.procs[pid];
      var p' := p.(cwdFile := None, cwdFd := None);
      var w1, w' := SetProc(LeaveCwd(w, p), pid, p'), DoChdir(w, pid, path, host).0;
      LeaveTame(w, pid);
      LeaveSame(w, pid);
      forall i | 0 <= i < |w'.procs| ensures TameCwd(w, w', i) {
        assert TameCwd(w, w1, i);
      }
      TameAfter(w, w1, w');
    }
  }

  /** A host file opened just before makes no difference to leaving. */
  lemma LeaveSame(w: World, pid: nat)
    requires Inv(w) && pid < |w.procs|
    ensures
      var w1, p := w.(closes := w.closes + [0]), w.procs[pid];
      && Sound(w1) && SoundProc(w1, p)
      && LeaveCwd(w1, p) == LeaveCwd(w, p).(closes := LeaveCwd(w, p).closes + [0])
  {
    var w1, p := w.(closes := w.closes + [0]), w.procs[pid];
    forall j | 0 <= j < |w.procs| ensures SoundProc(w1, w1.procs[j]) {
      assert SoundProc(w, w.procs[j]);
    }
  }

  lemma FchdirTame(w: World, pid: nat, fd: int, isDir: bool)
    requires Inv(w) && pid < |w.procs|
    ensures Tame(w, DoFchdir(w, pid, fd, isDir).0)
  {
    hide Holds, HoldsOf, CwdOk;
    var p := w.procs[pid];
    if Has(p, fd) && isDir {
      var w1, w' := SetProc(LeaveCwd(w, p), pid, p.(cwdFile := None, cwdFd := None)), DoFchdir(w, pid, fd, isDir).0;
      HeldInSlot(w, pid, fd);
      LeaveTame(w, pid);
      LeaveKeepsCount(w, pid, p.slots[fd].value);
      forall f | 0 <= f < |w.files| ensures TameFile(w, w', f) {
        assert TameFile(w, w1, f);
      }
      forall i | 0 <= i < |w'.procs| ensures TameCwd(w, w', i) {
        assert TameCwd(w, w1, i);
      }
    }
  }

  /** A file that is in a slot is not freed by leaving the working directory. */
  lemma LeaveKeepsCount(w: World, pid: nat, f: nat)
    requires Inv(w) && pid < |w.procs| && f < |w.files| && Holders(w, f) > 0
    ensures
      var w1 := LeaveCwd(w, w.procs[pid]);
      |w1.files| == |w.files| && w1.files[f].refs <= w.files[f].refs < WORD - 3
  {
    hide Holds, HoldsOf, CwdOk, Release;
    var p := w.procs[pid];
    assert SoundProc(w, p) && FileOk(w, f);
    Bounded(w, f);
    if p.cwdFd.Some? {
      HeldAsCwd(w, pid);
      ReleaseEffect(w, p.cwdFd.value);
    }
  }

  lemma OpenTame(w: World, pid: nat, dirfd: int, ans: OpenAnswers)
    requires Inv(w) && pid < |w.procs|
    ensures Tame(w, DoOpen(w, pid, dirfd, ans).0)
  {
    hide Holds, HoldsOf, CwdOk, FileOk;
  }

  lemma SpawnTame(w: World, space: bool)
    requires Inv(w)
    ensures Tame(w, DoSpawn(w, space))
  {
    hide Holds, HoldsOf, CwdOk;
    var w' := DoSpawn(w, space);
    forall f | 0 <= f < |w.files| ensures TameFile(w, w', f) {
      assert FileOk(w, f);
      Bounded(w, f);
    }
  }

  lemma StepTame(w: World, op: Op)
    requires Inv(w) && Applicable(w, op)
    ensures Tame(w, Step(w, op))
  {
    hide Inv, Tame, DoSpawn, DoOpen, DoClose, DoChdir, DoFchdir;
    match op
    case Spawn(space) => SpawnTame(w, space);
    case Open(pid, dirfd, ans) => OpenTame(w, pid, dirfd, ans);
    case Close(pid, fd) => CloseTame(w, pid, fd);
    case Chdir(pid, path, host) => ChdirTame(w, pid, path, host);
    case Fchdir(pid, fd, isDir) => FchdirTame(w, pid, fd, isDir);
  }

  /** What a call creates: a record counted once unless the table is full, and host files that
      are named unless there was no memory for the record. */
  lemma StepCreates(w: World, op: Op)
    requires Inv(w) && Applicable(w, op)
    ensures
      var w' := Step(w, op);
      && |w.closes| <= |w'.closes| <= |w.closes| + 1 && |w.files| <= |w'.files| <= |w.files| + 1
      && (|w'.files| > |w.files| ==>
        && |w'.closes| > |w.closes| && !w'.files[|w.files|].freed && w'.files[|w.files|].dev == |w.closes|
        && w'.files[|w.files|].refs == if FullOpen(w, op) then WORD - 1 else 1)
      && (|w'.closes| > |w.closes| && |w'.files| == |w.files| && !RecordlessOpen(w, op) ==>
        exists i :: 0 <= i < |w'.procs| && Owned(w'.procs[i]) == Some(|w.closes|))
      && (RecordlessOpen(w, op) ==> w' == w.(closes := w.closes + [0]))
      && (FullOpen(w, op) ==> |w'.files| > |w.files| && w'.procs == w.procs)
  {
    hide Holds, HoldsOf, CwdOk, FileOk, FilesInv, CwdInv;
    InvIsSound(w);
    match op
    case Spawn(_) =>
    case Open(_, _, _) =>
    case Close(_, _) =>
    case Chdir(pid, path, host) =>
      if path && host {
        assert Owned(Step(w, op).procs[pid]) == Some(|w.closes|);
      }
    case Fchdir(_, _, _) =>
  }

  /** A call leaves an unfreed record without holder exactly when it opens into a full table. */
  lemma LeaksIffFull(w: World, op: Op)
    requires Inv(w) && NoLeak(w) && Applicable(w, op)
    ensures NoLeak(Step(w, op)) <==> !FullOpen(w, op)
  {
    hide Holds, HoldsOf, CwdOk, Step, FullOpen, RecordlessOpen;
    var w' := Step(w, op);
    StepKeepsInv(w, op);
    StepTame(w, op);
    StepCreates(w, op);
    forall f | 0 <= f < |w.files| && !w'.files[f].freed ensures Holders(w', f) > 0 {
      assert FileOk(w, f) && FileOk(w', f) && TameFile(w, w', f);
      Bounded(w, f);
    }
    if |w'.files| > |w.files| {
      assert FileOk(w', |w.files|);
      Bounded(w', |w.files|);
    }
  }

  /** A host file that is open but named by nobody stays so, whatever is called: it is never
      closed. */
  lemma OrphanStays(w: World, op: Op, h: nat)
    requires Inv(w) && Applicable(w, op) && h < |w.closes| && w.closes[h] == 0 && !Named(w, h)
    ensures h < |Step(w, op).closes| && Step(w, op).closes[h] == 0 && !Named(Step(w, op), h)
  {
    hide Holds, HoldsOf, CwdOk, Step;
    var w' := Step(w, op);
    StepKeepsInv(w, op);
    StepTame(w, op);
    forall f | 0 <= f < |w'.files| && w'.files[f].dev == h ensures Holders(w', f) == 0 {
      assert f < |w.files| && TameFile(w, w', f);
      assert FileOk(w, f) && FileOk(w', f);
      Bounded(w', f);
    }
    forall i | 0 <= i < |w'.procs| ensures Owned(w'.procs[i]) != Some(h) {
      assert TameCwd(w, w', i);
    }
  }

  /** Without orphans every unfreed record has a holder. */
  lemma NoOrphanNoLeak(w: World)
    requires Inv(w) && NoOrphan(w)
    ensures NoLeak(w)
  {
    hide Holds, HoldsOf;
    forall f | 0 <= f < |w.files| && !w.files[f].freed ensures Holders(w, f) > 0 {
      assert FileOk(w, f) && Named(w, w.files[f].dev);
      forall i | 0 <= i < |w.procs| ensures Owned(w.procs[i]) != Some(w.files[f].dev) {
        assert CwdOk(w, i);
      }
    }
  }

  /** A host file that was named is closed or named after a call that opens into no full table. */
  lemma NamedStays(w: World, op: Op, h: nat)
    requires Inv(w) && NoLeak(w) && Applicable(w, op) && !FullOpen(w, op) && h < |w.closes| && Named(w, h)
    ensures h < |Step(w, op).closes| && (Step(w, op).closes[h] == 0 ==> Named(Step(w, op), h))
  {
    hide Holds, HoldsOf, CwdOk, Step, FullOpen;
    var w' := Step(w, op);
    StepKeepsInv(w, op);
    StepTame(w, op);
    LeaksIffFull(w, op);
    if f :| 0 <= f < |w.files| && w.files[f].dev == h && Holders(w, f) > 0 {
      assert TameFile(w, w', f) && FileOk(w', f);
    } else {
      var i :| 0 <= i < |w.procs| && Owned(w.procs[i]) == Some(h);
      assert TameCwd(w, w', i);
    }
  }

  /** A call leaves a host file open that nobody names exactly when it opens one for a process
      whose table is full, or without memory for its record. */
  lemma OrphanIff(w: World, op: Op)
    requires Inv(w) && NoOrphan(w) && Applicable(w, op)
    ensures NoOrphan(Step(w, op)) <==> !FullOpen(w, op) && !RecordlessOpen(w, op)
  {
    hide Holds, HoldsOf, CwdOk, Step, FullOpen, RecordlessOpen, Tame;
    var w', n := Step(w, op), |w.closes|;
    NoOrphanNoLeak(w);
    StepKeepsInv(w, op);
    StepCreates(w, op);
    LeaksIffFull(w, op);
    if FullOpen(w, op) {
      if NoOrphan(w') {
        NoOrphanNoLeak(w');
      }
    } else if RecordlessOpen(w, op) {
      FreshUnnamed(w, w');
    } else {
      forall h | 0 <= h < |w'.closes| && w'.closes[h] == 0 ensures Named(w', h) {
        if h < n {
          StepTame(w, op);
          StillOpen(w, w', h);
          NamedStays(w, op, h);
        } else if |w'.files| > |w.files| {
          assert FileOk(w', |w.files|);
        }
      }
    }
  }

  lemma StillOpen(w: World, w': World, h: nat)
    requires Tame(w, w') && h < |w.closes| && w'.closes[h] == 0
    ensures w.closes[h] == 0
  {
  }

  /** A new host file without a record is nobody's. */
  lemma FreshUnnamed(w: World, w': World)
    requires Sound(w) && w' == w.(closes := w.closes + [0])
    ensures !Named(w', |w.closes|) && w'.closes[|w.closes|] == 0
  {
    hide Holds, HoldsOf;
    forall i | 0 <= i < |w.procs| ensures Owned(w.procs[i]) != Some(|w.closes|) {
      assert SoundProc(w, w.procs[i]);
    }
  }

  /** Over every run: each open host file can still be closed by somebody if and only if no call
      so far opened into a full table or without memory for the record. */
  lemma {:induction false} OrphanRun(run: seq<World>, ops: seq<Op>, i: nat)
    requires IsRun(run, ops) && i <= |ops|
    ensures NoOrphan(run[i]) <==>
      forall j :: 0 <= j < i ==> !FullOpen(run[j], ops[j]) && !RecordlessOpen(run[j], ops[j])
  {
    if i == 0 {
      forall h | 0 <= h < 3 ensures Named(run[0], h) {
        assert run[0].files[h].dev == h && Holders(run[0], h) > 0;
      }
    } else {
      hide Inv, Step, FullOpen, RecordlessOpen, Named;
      OrphanRun(run, ops, i - 1);
      RunKeepsInv(run, ops, i - 1);
      if NoOrphan(run[i - 1]) {
        OrphanIff(run[i - 1], ops[i - 1]);
      } else {
        var h :| 0 <= h < |run[i - 1].closes| && run[i - 1].closes[h] == 0 && !Named(run[i - 1], h);
        OrphanStays(run[i - 1], ops[i - 1], h);
      }
    }
  }

  /** Once nobody names an open host file, it stays open to the end of the run. */
  lemma {:induction false} NeverClosed(run: seq<World>, ops: seq<Op>, i: nat, k: nat, h: nat)
    requires IsRun(run, ops) && i <= k <= |ops|
    requires h < |run[i].closes| && run[i].closes[h] == 0 && !Named(run[i], h)
    ensures h < |run[k].closes| && run[k].closes[h] == 0 && !Named(run[k], h)
  {
    if i < k {
      hide Inv, Step, Named;
      NeverClosed(run, ops, i, k - 1, h);
      RunKeepsInv(run, ops, k - 1);
      OrphanStays(run[k - 1], ops[k - 1], h);
    }
  }

  /** Reference conservation, over every run: a freed record has no holder and its host file was
      closed exactly once; any other record's host file is open, and its count is the number of
      slots, working directories and engine holds on it, except that a record whose open found
      the table full keeps a wrapped count and is never closed. No host file is closed twice. */
  lemma Conservation(run: seq<World>, ops: seq<Op>, i: nat, f: nat)
    requires IsRun(run, ops) && i <= |ops| && f < |run[i].files|
    ensures
      var w, x, h := run[i], run[i].files[f], Holders(run[i], f);
      && x.dev < |w.closes|
      && (x.freed <==> w.closes[x.dev] == 1) && (!x.freed <==> w.closes[x.dev] == 0)
      && (x.freed ==> h == 0)
      && (h > 0 ==> x.refs == h)
      && (h == 0 && !x.freed ==> x.refs == WORD - 1)
    ensures forall k :: 0 <= k < |run[i].closes| ==> run[i].closes[k] <= 1
  {
    RunKeepsInv(run, ops, i);
    assert FileOk(run[i], f);
  }

  /** Without an open into a full table, a record is freed exactly when its last holder goes. */
  lemma {:induction false} FreedExactlyWithLastHolder(run: seq<World>, ops: seq<Op>, i: nat)
    requires IsRun(run, ops) && i <= |ops|
    requires forall j :: 0 <= j < i ==> !FullOpen(run[j], ops[j])
    ensures NoLeak(run[i])
    ensures forall f :: 0 <= f < |run[i].files| ==> (run[i].files[f].freed <==> Holders(run[i], f) == 0)
  {
    RunKeepsInv(run, ops, i);
    if i > 0 {
      hide Step, FullOpen;
      FreedExactlyWithLastHolder(run, ops, i - 1);
      RunKeepsInv(run, ops, i - 1);
      LeaksIffFull(run[i - 1], ops[i - 1]);
    }
    forall f | 0 <= f < |run[i].files| ensures run[i].files[f].freed <==> Holders(run[i], f) == 0 {
      assert FileOk(run[i], f);
    }
  }

  /** Over every run, a working directory is absent or open, and it belongs either to the held
      record or to the working directory alone. */
  lemma CwdAlive(run: seq<World>, ops: seq<Op>, i: nat, pid: nat)
    requires IsRun(run, ops) && i <= |ops| && pid < |run[i].procs|
    ensures
      var w, p := run[i], run[i].procs[pid];
      p.cwdFile.Some? ==>
        && p.cwdFile.value < |w.closes| && w.closes[p.cwdFile.value] == 0
        && if p.cwdFd.Some? then
             p.cwdFd.value < |w.files| && !w.files[p.cwdFd.value].freed && w.files[p.cwdFd.value].dev == p.cwdFile.value
           else
             && (forall f :: 0 <= f < |w.files| ==> w.files[f].dev != p.cwdFile.value)
             && (forall j :: 0 <= j < |w.procs| && j != pid ==> Owned(w.procs[j]) != p.cwdFile)
  {
    RunKeepsInv(run, ops, i);
    var w, p := run[i], run[i].procs[pid];
    assert CwdOk(w, pid) && SoundProc(w, p);
    if p.cwdFd.Some? {
      SetProcHolders(w, pid, p, p.cwdFd.value);
      assert FileOk(w, p.cwdFd.value);
    }
  }

  /** Closing the descriptor that was given to fchdir leaves the working directory open. */
  lemma FchdirThenClose(w: World, pid: nat, fd: int)
    requires Inv(w) && pid < |w.procs| && Has(w.procs[pid], fd)
    ensures
      var w1 := DoFchdir(w, pid, fd, true).0;
      && Sound(w1) && pid < |w1.procs|
      && var w2, dir := DoClose(w1, pid, fd).0, w.files[w.procs[pid].slots[fd].value].dev;
      && w2.procs[pid].cwdFile == Some(dir) && dir < |w2.closes| && w2.closes[dir] == 0
  {
    hide Holds, HoldsOf;
    FchdirKeepsInv(w, pid, fd, true);
    var w1 := DoFchdir(w, pid, fd, true).0;
    CloseKeepsInv(w1, pid, fd);
    var w2, f := DoClose(w1, pid, fd).0, w.procs[pid].slots[fd].value;
    var p2 := w2.procs[pid];
    assert CwdOk(w2, pid) && p2.cwdFd == Some(f);
    HeldByCwd(p2, f);
    SetProcHolders(w2, pid, p2, f);
    assert FileOk(w2, f);
  }

  lemma HeldByCwd(p: Proc, f: nat)
    requires p.cwdFd == Some(f)
    ensures HoldsOf(p, f) >= 1
  {
  }

  // ---------------------------------------------------------------- what the caller sees

  /** An open that succeeds returns the lowest empty slot, which then holds a new file with a count
      of one on the host file just opened; closing what it returned undoes it, and closes that
      host file. */
  lemma OpenThenClose(w: World, pid: nat, dirfd: int, ans: OpenAnswers)
    requires Sound(w) && pid < |w.procs| && DoOpen(w, pid, dirfd, ans).1 >= 0
    ensures
      var w1, fd := DoOpen(w, pid, dirfd, ans).0, DoOpen(w, pid, dirfd, ans).1;
      && Sound(w1) && pid < |w1.procs| && DoClose(w1, pid, fd).1 == 0
      && var w2 := DoClose(w1, pid, fd).0;
      && w2.procs == w.procs
      && w2.files == w.files + [FDFile(0, |w.closes|, true)] && w2.closes == w.closes + [1]
  {
    var p, n := w.procs[pid], |w.files|;
    assert SoundProc(w, p);
    var w1, fd := DoOpen(w, pid, dirfd, ans).0, FirstFree(p.slots, 0);
    var x, p1 := FDFile(1, |w.closes|, false), p.(slots := p.slots[fd := Some(n)]);
    assert w1 == World(w.files + [x], w.closes + [0], w.procs[pid := p1]);
    SoundGrows(w, x, w1.procs) by {
      forall i | 0 <= i < |w.procs| ensures SoundProc(w, w.procs[i]) {
      }
    }
    assert p1.slots[fd := None] == p.slots;
    assert DoClose(w1, pid, fd).0.procs == w.procs;
  }

  // ---------------------------------------------------------------- the calls as the engine runs them

  /** From w to w', one reference to f is given up: its count drops by one, and at zero its host file
      is closed and it is freed; no other file changes. */
  ghost predicate GaveUp(w: World, w': World, f: nat) {
    && f < |w.files| && |w'.files| == |w.files| && |w'.closes| == |w.closes|
    && (forall g :: 0 <= g < |w.files| && g != f ==> w'.files[g] == w.files[g])
    && w'.files[f].refs == (if w.files[f].refs == 0 then 0xFFFF_FFFF_FFFF_FFFF else w.files[f].refs - 1)
    && w'.files[f].dev == w.files[f].dev && w'.files[f].freed == (w.files[f].freed || w.files[f].refs == 1)
    && forall h :: 0 <= h < |w.closes| ==>
      w'.closes[h] == w.closes[h] + if w.files[f].refs == 1 && h == w.files[f].dev then 1 else 0
  }

  /** In files and closes, which may have grown, process p has given up its working directory. */
  ghost predicate LeftCwd(w: World, files: seq<FDFile>, closes: seq<nat>, p: Proc) {
    && |closes| >= |w.closes|
    && var w' := World(files, closes[..|w.closes|], w.procs);
    if p.cwdFd.Some? then GaveUp(w, w', p.cwdFd.value)
    else
      && files == w.files
      && forall h :: 0 <= h < |w.closes| ==> w'.closes[h] == w.closes[h] + if p.cwdFile == Some(h) then 1 else 0
  }

  class Tux {
    var files: seq<FDFile>
    var closes: seq<nat>
    var procs: seq<Proc>

    ghost function W(): World
      reads this
    {
      World(files, closes, procs)
    }

    /** lfi_tux_new: three fresh records, then the engine's own references. */
    constructor ()
      ensures W() == Boot() && Inv(W())
    {
      files := [FDFile(0, 0, false), FDFile(0, 1, false), FDFile(0, 2, false)];
      closes, procs := [0, 0, 0], [];
      new;
      files := files[0 := files[0].(refs := files[0].refs + 1)];
      files := files[1 := files[1].(refs := files[1].refs + 1)];
      files := files[2 := files[2].(refs := files[2].refs + 1)];
      RunKeepsInv([Boot()], [], 0);
    }

    method FdRelease(f: nat)
      requires f < |files| && files[f].dev < |closes|
      modifies this`files, this`closes
      ensures W() == Release(old(W()), f)
    {
      files := files[f := files[f].(refs := Sub64(files[f].refs, 1))];
      if files[f].refs == 0 {
        closes := closes[files[f].dev := closes[files[f].dev] + 1];
        files := files[f := files[f].(freed := true)];
      }
    }

    method FdAssign(pid: nat, fd: nat, f: nat)
      requires f < |files| && pid < |procs| && fd < |procs[pid].slots|
      modifies this
      ensures W() == SetSlot(Bump(old(W()), f), pid, fd, Some(f))
    {
      files := files[f := files[f].(refs := Add64(files[f].refs, 1))];
      procs := procs[pid := procs[pid].(slots := procs[pid].slots[fd := Some(f)])];
    }

    /** The loop of fdalloc finds the lowest empty slot. */
    method FdAlloc(pid: nat) returns (fd: int)
      requires pid < |procs| && |procs[pid].slots| == NOFILE
      ensures fd == FirstFree(procs[pid].slots, 0)
    {
      var slots, i := procs[pid].slots, 0;
      while i < NOFILE && slots[i] != None
        invariant 0 <= i <= NOFILE && FirstFree(slots, i) == FirstFree(slots, 0)
      {
        i := i + 1;
      }
      return if i >= NOFILE then -1 else i;
    }

    method FdRemove(pid: nat, fd: int) returns (ok: bool)
      requires Sound(W()) && pid < |procs|
      modifies this
      ensures ok == Has(old(procs)[pid], fd) && W() == DoClose(old(W()), pid, fd).0
    {
      ok := Has(procs[pid], fd);
      if ok {
        FdRelease(procs[pid].slots[fd].value);
        procs := procs[pid := procs[pid].(slots := procs[pid].slots[fd := None])];
      }
    }

    /** fdclear empties the table one slot at a time and keeps every count right. */
    method FdClear(pid: nat)
      requires Inv(W()) && pid < |procs|
      modifies this
      ensures Inv(W()) && |procs| == |old(procs)|
      ensures forall k :: 0 <= k < NOFILE ==> procs[pid].slots[k] == None
      ensures procs[pid].cwdFile == old(procs)[pid].cwdFile && procs[pid].cwdFd == old(procs)[pid].cwdFd
      ensures forall j :: 0 <= j < |procs| && j != pid ==> procs[j] == old(procs)[j]
    {
      assert SoundProc(W(), procs[pid]);
      for fd := 0 to NOFILE
        invariant Inv(W()) && |procs| == |old(procs)| && |procs[pid].slots| == NOFILE
        invariant forall k :: 0 <= k < fd ==> procs[pid].slots[k] == None
        invariant procs[pid].cwdFile == old(procs)[pid].cwdFile && procs[pid].cwdFd == old(procs)[pid].cwdFd
        invariant forall j :: 0 <= j < |procs| && j != pid ==> procs[j] == old(procs)[j]
      {
        hide FilesInv, CwdInv;
        CloseKeepsInv(W(), pid, fd);
        InvIsSound(W());
        var ok := FdRemove(pid, fd);
      }
    }

    method SpawnProc(space: bool) returns (pid: int)
      requires Sound(W()) && |files| >= 3
      modifies this
      ensures W() == DoSpawn(old(W()), space)
      ensures pid == if space && |old(procs)| < 64 then |old(procs)| else -1
      ensures pid == -1 ==> W() == old(W())
      // Slots 0, 1 and 2 hold the engine's input, output and error; each is held once more.
      ensures pid >= 0 ==>
        && |procs| == |old(procs)| + 1 && procs[..pid] == old(procs)
        && |procs[pid].slots| == 128 && procs[pid].cwdFile == None && procs[pid].cwdFd == None
        && (forall k :: 0 <= k < 128 ==> procs[pid].slots[k] == if k < 3 then Some(k) else None)
      ensures pid >= 0 ==>
        && closes == old(closes) && |files| == |old(files)|
        && (forall f :: 0 <= f < |files| ==>
          files[f] == if f < 3 then old(files)[f].(refs := Add64(old(files)[f].refs, 1)) else old(files)[f])
    {
      if !space || |procs| >= MAXPROCS {
        return -1;
      }
      pid := |procs|;
      ghost var w0 := W();
      procs := procs + [Proc(seq(NOFILE, _ => None), None, None)];
      FdAssign(pid, 0, 0);
      FdAssign(pid, 1, 1);
      FdAssign(pid, 2, 2);
      assert W().procs == DoSpawn(w0, space).procs;
    }

    method SysOpenat(pid: nat, dirfd: int, ans: OpenAnswers) returns (r: int)
      requires Sound(W()) && pid < |procs|
      modifies this
      ensures W() == DoOpen(old(W()), pid, dirfd, ans).0 && r == DoOpen(old(W()), pid, dirfd, ans).1
      // The errors: bad directory, bad path, nothing opened or no memory, and a full table.
      ensures
        var slots := old(procs)[pid].slots;
        var dir := dirfd == -100 || (0 <= dirfd < 128 && slots[dirfd].Some? && ans.isDir);
        && (r == -9 <==> !dir)
        && (r == -14 <==> dir && !ans.path)
        && (r == -2 <==> dir && ans.path && !(ans.host && ans.alloc))
        && (r == -24 <==> dir && ans.path && ans.host && ans.alloc && forall k :: 0 <= k < 128 ==> slots[k].Some?)
        && (r >= 0 || r == -9 || r == -14 || r == -2 || r == -24)
      // Otherwise the lowest empty slot, and a new file in it.
      ensures r >= 0 ==>
        && r < 128 && old(procs)[pid].slots[r] == None && (forall k :: 0 <= k < r ==> old(procs)[pid].slots[k].Some?)
        && procs == old(procs)[pid := old(procs)[pid].(slots := old(procs)[pid].slots[r := Some(|old(files)|)])]
        && files == old(files) + [FDFile(1, |old(closes)|, false)] && closes == old(closes) + [0]
      ensures r < 0 ==> procs == old(procs) && |files| >= |old(files)| && files[..|old(files)|] == old(files)
    {
      assert SoundProc(W(), procs[pid]);
      if dirfd != AT_FDCWD && !(Has(procs[pid], dirfd) && ans.isDir) {
        return -EBADF;
      }
      if !ans.path {
        return -EFAULT;
      }
      if !ans.host {
        return -ENOENT;
      }
      var host := |closes|;
      closes := closes + [0];
      if !ans.alloc {
        return -ENOENT;
      }
      var f := |files|;
      files := files + [FDFile(0, host, false)];
      var fd := FdAlloc(pid);
      if fd < 0 {
        FdRelease(f);
        return -EMFILE;
      }
      FdAssign(pid, fd, f);
      return fd;
    }

    method SysClose(pid: nat, fd: int) returns (r: int)
      requires Sound(W()) && pid < |procs|
      modifies this
      ensures W() == DoClose(old(W()), pid, fd).0 && r == DoClose(old(W()), pid, fd).1
      ensures r == if 0 <= fd < 128 && old(procs)[pid].slots[fd].Some? then 0 else -9
      ensures r == -9 ==> W() == old(W())
      ensures r == 0 ==>
        var f := old(procs)[pid].slots[fd].value;
        && procs == old(procs)[pid := old(procs)[pid].(slots := old(procs)[pid].slots[fd := None])]
        && GaveUp(old(W()), W(), f)
    {
      var ok := FdRemove(pid, fd);
      return if ok then 0 else -EBADF;
    }

    method LeaveDir(pid: nat)
      requires Sound(W()) && pid < |procs|
      modifies this`files, this`closes
      ensures W() == LeaveCwd(old(W()), old(procs)[pid])
    {
      var p := procs[pid];
      assert SoundProc(W(), p);
      if p.cwdFd.Some? {
        FdRelease(p.cwdFd.value);
      } else if p.cwdFile.Some? {
        closes := closes[p.cwdFile.value := closes[p.cwdFile.value] + 1];
      }
    }

    /** A chdir whose open fails still returns zero, and leaves no working directory at all. */
    method SysChdir(pid: nat, path: bool, host: bool) returns (r: int)
      requires Sound(W()) && pid < |procs|
      modifies this
      ensures W() == DoChdir(old(W()), pid, path, host).0 && r == DoChdir(old(W()), pid, path, host).1
      ensures r == if path then 0 else -14
      ensures !path ==> W() == old(W())
      // The directory just opened is the new one, owned by the process; there is none if it could
      // not be opened. The old one is released or closed.
      ensures path ==>
        && procs == old(procs)[pid := old(procs)[pid].(cwdFd := None, cwdFile := if host then Some(|old(closes)|) else None)]
        && |closes| == |old(closes)| + (if host then 1 else 0) && (host ==> closes[|old(closes)|] == 0)
        && LeftCwd(old(W()), files, closes, old(procs)[pid])
    {
      assert SoundProc(W(), procs[pid]);
      if !path {
        return -EFAULT;
      }
      var dir := if host then Some(|closes|) else None;
      if host {
        closes := closes + [0];
      }
      assert forall j :: 0 <= j < |procs| ==> SoundProc(old(W()), procs[j]) && SoundProc(W(), procs[j]);
      LeaveDir(pid);
      procs := procs[pid := procs[pid].(cwdFile := dir, cwdFd := None)];
      return 0;
    }

    method SysFchdir(pid: nat, fd: int, isDir: bool) returns (r: int)
      requires Sound(W()) && pid < |procs|
      modifies this
      ensures W() == DoFchdir(old(W()), pid, fd, isDir).0 && r == DoFchdir(old(W()), pid, fd, isDir).1
      ensures
        var open := 0 <= fd < 128 && old(procs)[pid].slots[fd].Some?;
        r == if !open then -9 else if !isDir then -20 else 0
      ensures r < 0 ==> W() == old(W())
      // The file in the slot is the new working directory, and counted once more.
      ensures r == 0 ==>
        var f := old(procs)[pid].slots[fd].value;
        && procs == old(procs)[pid := old(procs)[pid].(cwdFd := Some(f), cwdFile := Some(old(files)[f].dev))]
        && |files| == |old(files)|
        && LeftCwd(old(W()), files[f := files[f].(refs := Sub64(files[f].refs, 1))], closes, old(procs)[pid])
    {
      assert SoundProc(W(), procs[pid]);
      if !Has(procs[pid], fd) {
        return -EBADF;
      }
      if !isDir {
        return -ENOTDIR;
      }
      var f := procs[pid].slots[fd].value;
      var dir := files[f].dev;
      LeaveDir(pid);
      files := files[f := files[f].(refs := Add64(files[f].refs, 1))];
      procs := procs[pid := procs[pid].(cwdFile := Some(dir), cwdFd := Some(f))];
      return 0;
    }
  }

  lemma InvIsSound(w: World)
    requires Inv(w)
    ensures Sound(w)
  {
  }
}
