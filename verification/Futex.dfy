/** The futex cell pool of src/host/posix/futex.c. A wait has two critical sections under the
    pool's lock, entering and leaving; threads interleave between them in any way.

    Lists are sequences with the first element in front; a cell is named by its index. */
module Futex {
  import opened Wrappers

  datatype Cell = Cell(addr: int, waiters: int)

  datatype Pool = Pool(active: seq<nat>, free: seq<nat>, cells: seq<Cell>)

  predicate Shaped(p: Pool) {
    && (forall i :: 0 <= i < |p.active| ==> p.active[i] < |p.cells|)
    && (forall i :: 0 <= i < |p.free| ==> p.free[i] < |p.cells|)
  }

  /** futexfind: the first active cell for the address. */
  function Find(p: Pool, addr: int, from: nat): (c: Option<nat>)
    requires Shaped(p) && from <= |p.active|
    ensures c.Some? ==> c.value in p.active[from..] && p.cells[c.value].addr == addr
    ensures c.None? ==> forall i :: from <= i < |p.active| ==> p.cells[p.active[i]].addr != addr
    decreases |p.active| - from
  {
    if from == |p.active| then None
    else if p.cells[p.active[from]].addr == addr then Some(p.active[from])
    else Find(p, addr, from + 1)
  }

  function Without(s: seq<nat>, c: nat): (r: seq<nat>)
    ensures forall x :: x in r ==> x in s
  {
    if s == [] then [] else if s[0] == c then s[1..] else [s[0]] + Without(s[1..], c)
  }

  lemma {:induction false} WithoutCounts(s: seq<nat>, c: nat)
    requires c in s
    ensures multiset(Without(s, c)) == multiset(s) - multiset{c}
  {
    assert s == [s[0]] + s[1..];
    if s[0] != c {
      WithoutCounts(s[1..], c);
    }
  }

  /** The entering section: join an active cell, or activate a free one. */
  function Enter(p: Pool, addr: int): (Pool, Option<nat>)
    requires Shaped(p)
  {
    match Find(p, addr, 0)
    case Some(c) => (p.(cells := p.cells[c := p.cells[c].(waiters := p.cells[c].waiters + 1)]), Some(c))
    case None =>
      if p.free == [] then (p, None)
      else
        var c := p.free[0];
        (Pool([c] + p.active, p.free[1..], p.cells[c := Cell(addr, 1)]), Some(c))
  }

  /** The leaving section: the last waiter returns the cell. */
  function Leave(p: Pool, c: nat): Pool
    requires Shaped(p) && c < |p.cells|
  {
    var n := p.cells[c].waiters - 1;
    var cells := p.cells[c := p.cells[c].(waiters := n)];
    if n == 0 then Pool(Without(p.active, c), [c] + p.free, cells) else p.(cells := cells)
  }

  class FutexPool {
    var active: seq<nat>
    var free: seq<nat>
    var cells: seq<Cell>

    ghost function P(): Pool
      reads this
    {
      Pool(active, free, cells)
    }

    constructor (cells: seq<Cell>, free: seq<nat>)
      ensures P() == Pool([], free, cells)
    {
      active, this.free, this.cells := [], free, cells;
    }

    method FutexFind(addr: int) returns (c: Option<nat>)
      requires Shaped(P())
      ensures c == Find(P(), addr, 0)
    {
      var i := 0;
      while i < |active|
        invariant i <= |active| && Find(P(), addr, i) == Find(P(), addr, 0)
      {
        if cells[active[i]].addr == addr {
          return Some(active[i]);
        }
        i := i + 1;
      }
      return None;
    }

    method FutexNew(addr: int) returns (c: Option<nat>)
      requires Shaped(P())
      modifies this`free, this`cells
      ensures old(free) == [] ==> c == None && P() == old(P())
      ensures old(free) != [] ==>
        c == Some(old(free)[0]) && free == old(free)[1..] && cells == old(cells)[old(free)[0] := Cell(addr, 1)]
    {
      if free == [] {
        return None;
      }
      var f := free[0];
      free := free[1..];
      cells := cells[f := Cell(addr, 1)];
      return Some(f);
    }

    method EnterWait(addr: int) returns (c: Option<nat>)
      requires Shaped(P())
      modifies this
      ensures P() == Enter(old(P()), addr).0 && c == Enter(old(P()), addr).1
      // A cell that is active for the address is joined; else the first free cell becomes the
      // first active one, for the address and one waiter; else nothing happens.
      ensures (exists i :: 0 <= i < |old(active)| && old(cells)[old(active)[i]].addr == addr) ==>
        && c.Some? && c.value in old(active) && old(cells)[c.value].addr == addr
        && active == old(active) && free == old(free)
        && cells == old(cells)[c.value := Cell(addr, old(cells)[c.value].waiters + 1)]
      ensures (forall i :: 0 <= i < |old(active)| ==> old(cells)[old(active)[i]].addr != addr) ==>
        if old(free) == [] then c == None && P() == old(P())
        else
          && c == Some(old(free)[0]) && active == [old(free)[0]] + old(active) && free == old(free)[1..]
          && cells == old(cells)[old(free)[0] := Cell(addr, 1)]
    {
      c := FutexFind(addr);
      if c.Some? {
        cells := cells[c.value := cells[c.value].(waiters := cells[c.value].waiters + 1)];
        return;
      }
      c := FutexNew(addr);
      if c.Some? {
        active := [c.value] + active;
      }
    }

    method LeaveWait(c: nat)
      requires Shaped(P()) && c < |cells|
      modifies this
      ensures P() == Leave(old(P()), c)
      // One waiter less; with the last one the cell goes to the front of the free list.
      ensures cells == old(cells)[c := Cell(old(cells)[c].addr, old(cells)[c].waiters - 1)]
      ensures old(cells)[c].waiters != 1 ==> active == old(active) && free == old(free)
      ensures old(cells)[c].waiters == 1 ==> free == [c] + old(free)
      ensures old(cells)[c].waiters == 1 && c in old(active) ==>
        multiset(active) == multiset(old(active)) - multiset{c}
    {
      if c in active {
        WithoutCounts(active, c);
      }
      cells := cells[c := cells[c].(waiters := cells[c].waiters - 1)];
      if cells[c].waiters == 0 {
        active := Without(active, c);
        free := [c] + free;
      }
    }
  }

  // ---------------------------------------------------------------- threads

  /** A thread between its two sections: the cell it got and the address it asked for. */
  datatype Wait = Wait(cell: nat, addr: int)

  datatype Sys = Sys(pool: Pool, waiting: map<nat, Wait>)

  datatype Event = Entering(t: nat, addr: int) | Leaving(t: nat)

  predicate Enabled(s: Sys, e: Event) {
    && Shaped(s.pool)
    && match e
       case Entering(t, _) => t !in s.waiting
       case Leaving(t) => t in s.waiting && s.waiting[t].cell < |s.pool.cells|
  }

  function Next(s: Sys, e: Event): Sys
    requires Enabled(s, e)
  {
    match e
    case Entering(t, addr) =>
      var r := Enter(s.pool, addr);
      if r.1.Some? then Sys(r.0, s.waiting[t := Wait(r.1.value, addr)]) else Sys(r.0, s.waiting)
    case Leaving(t) => Sys(Leave(s.pool, s.waiting[t].cell), s.waiting - {t})
  }

  function WaitersOf(waiting: map<nat, Wait>, c: nat): set<nat> {
    set t | t in waiting && waiting[t].cell == c
  }

  predicate ActiveOk(s: Sys, c: nat)
    requires c < |s.pool.cells|
  {
    s.pool.cells[c].waiters == |WaitersOf(s.waiting, c)| > 0
  }

  predicate WaitOk(s: Sys, t: nat)
    requires Shaped(s.pool) && t in s.waiting
  {
    var w := s.waiting[t];
    w.cell in s.pool.active && s.pool.cells[w.cell].addr == w.addr
  }

  /** Active and free cells together are the initial cells, each exactly once. */
  ghost predicate Partition(p: Pool, pool: seq<nat>) {
    && multiset(p.active) + multiset(p.free) == multiset(pool)
    && (forall c :: c in multiset(pool) ==> multiset(pool)[c] == 1)
  }

  ghost predicate Inv(s: Sys, pool: seq<nat>) {
    && Shaped(s.pool) && Partition(s.pool, pool)
    // Each active cell counts the threads waiting on it, and no two serve the same address.
    && (forall c :: c in s.pool.active ==> ActiveOk(s, c))
    && (forall c, d :: c in s.pool.active && d in s.pool.active && c != d ==> s.pool.cells[c].addr != s.pool.cells[d].addr)
    // A waiting thread's cell stays active and keeps the thread's address.
    && (forall t :: t in s.waiting ==> WaitOk(s, t))
  }

  lemma NotBoth(s: Sys, pool: seq<nat>, c: nat)
    requires Inv(s, pool) && c in s.pool.active
    ensures c !in s.pool.free && multiset(s.pool.active)[c] == 1
  {
    var a, f := multiset(s.pool.active), multiset(s.pool.free);
    assert c in a && (a + f)[c] == a[c] + f[c] == multiset(pool)[c];
    assert c in multiset(pool);
    assert c !in f;
  }

  /** A thread that starts waiting is counted on its cell and nowhere else. */
  lemma WaitersJoin(waiting: map<nat, Wait>, t: nat, w: Wait, c: nat)
    requires t !in waiting
    ensures |WaitersOf(waiting[t := w], c)| == |WaitersOf(waiting, c)| + if w.cell == c then 1 else 0
  {
    if w.cell == c {
      assert WaitersOf(waiting[t := w], c) == WaitersOf(waiting, c) + {t};
    } else {
      assert WaitersOf(waiting[t := w], c) == WaitersOf(waiting, c);
    }
  }

  /** A thread that stops waiting is no longer counted on its cell. */
  lemma WaitersLeave(waiting: map<nat, Wait>, t: nat, c: nat)
    requires t in waiting
    ensures |WaitersOf(waiting - {t}, c)| == |WaitersOf(waiting, c)| - if waiting[t].cell == c then 1 else 0
  {
    if waiting[t].cell == c {
      assert WaitersOf(waiting - {t}, c) == WaitersOf(waiting, c) - {t};
    } else {
      assert WaitersOf(waiting - {t}, c) == WaitersOf(waiting, c);
    }
  }

  lemma JoinKeepsInv(s: Sys, pool: seq<nat>, t: nat, addr: int)
    requires Inv(s, pool) && t !in s.waiting && Find(s.pool, addr, 0).Some?
    ensures Inv(Next(s, Entering(t, addr)), pool)
  {
    hide WaitersOf;
    var c := Find(s.pool, addr, 0).value;
    assert Enter(s.pool, addr).1 == Some(c);
    Joined(s, Next(s, Entering(t, addr)), pool, t, c);
  }

  /** Thread t has just joined the active cell c, whose address stays. */
  lemma Joined(s: Sys, s': Sys, pool: seq<nat>, t: nat, c: nat)
    requires Inv(s, pool) && t !in s.waiting && c in s.pool.active
    requires s'.pool == s.pool.(cells := s.pool.cells[c := s.pool.cells[c].(waiters := s.pool.cells[c].waiters + 1)])
    requires s'.waiting == s.waiting[t := Wait(c, s.pool.cells[c].addr)]
    ensures Inv(s', pool)
  {
    assert Partition(s'.pool, pool);
    hide WaitersOf, Partition;
    forall u | u in s'.waiting ensures WaitOk(s', u) {
      assert u in s.waiting ==> WaitOk(s, u);
    }
    forall d | d in s'.pool.active ensures ActiveOk(s', d) {
      assert ActiveOk(s, d);
      WaitersJoin(s.waiting, t, s'.waiting[t], d);
    }
  }

  lemma ActivateKeepsInv(s: Sys, pool: seq<nat>, t: nat, addr: int)
    requires Inv(s, pool) && t !in s.waiting && Find(s.pool, addr, 0).None? && s.pool.free != []
    ensures Inv(Next(s, Entering(t, addr)), pool)
  {
    forall d | d in s.pool.active ensures s.pool.cells[d].addr != addr {
      var i :| 0 <= i < |s.pool.active| && s.pool.active[i] == d;
    }
    Activated(s, Next(s, Entering(t, addr)), pool, t, addr, s.pool.free[0]);
  }

  /** Cell c has just been activated for thread t. */
  lemma Activated(s: Sys, s': Sys, pool: seq<nat>, t: nat, addr: int, c: nat)
    requires Inv(s, pool) && t !in s.waiting && s.pool.free != [] && c == s.pool.free[0]
    requires s'.pool == Pool([c] + s.pool.active, s.pool.free[1..], s.pool.cells[c := Cell(addr, 1)])
    requires s'.waiting == s.waiting[t := Wait(c, addr)]
    requires forall d :: d in s.pool.active ==> s.pool.cells[d].addr != addr
    ensures Inv(s', pool)
  {
    FreeNotActive(s, pool, c);
    TakePartition(s.pool);
    assert WaitersOf(s.waiting, c) == {} && Partition(s'.pool, pool);
    hide WaitersOf, Partition;
    forall u | u in s'.waiting ensures WaitOk(s', u) {
      assert u != t ==> WaitOk(s, u);
    }
    forall d | d in s'.pool.active ensures ActiveOk(s', d) {
      assert d != c ==> ActiveOk(s, d);
      WaitersJoin(s.waiting, t, Wait(c, addr), d);
    }
  }

  lemma FreeNotActive(s: Sys, pool: seq<nat>, c: nat)
    requires Inv(s, pool) && c in s.pool.free
    ensures c !in s.pool.active && forall u :: u in s.waiting ==> s.waiting[u].cell != c
  {
    var a, f := multiset(s.pool.active), multiset(s.pool.free);
    assert c in f && (a + f)[c] == a[c] + f[c] == multiset(pool)[c];
    assert c in multiset(pool);
    assert c !in a;
    forall u | u in s.waiting ensures s.waiting[u].cell != c {
      assert WaitOk(s, u);
    }
  }

  /** Taking the first free cell loses and doubles nothing. */
  lemma TakePartition(p: Pool)
    requires p.free != []
    ensures
      var c := p.free[0];
      var active, free := [c] + p.active, p.free[1..];
      && multiset(active) + multiset(free) == multiset(p.active) + multiset(p.free)
      && forall d :: d in active <==> d == c || d in p.active
  {
    assert p.free == [p.free[0]] + p.free[1..];
  }

  lemma StayKeepsInv(s: Sys, pool: seq<nat>, t: nat)
    requires Inv(s, pool) && t in s.waiting && Enabled(s, Leaving(t)) && s.pool.cells[s.waiting[t].cell].waiters != 1
    ensures Inv(Next(s, Leaving(t)), pool)
  {
    hide WaitersOf;
    var s', c := Next(s, Leaving(t)), s.waiting[t].cell;
    assert WaitOk(s, t);
    forall u | u in s'.waiting ensures WaitOk(s', u) {
      assert u in s.waiting ==> WaitOk(s, u);
    }
    forall d | d in s'.pool.active ensures ActiveOk(s', d) {
      assert ActiveOk(s, d);
      WaitersLeave(s.waiting, t, d);
    }
  }

  lemma ReturnKeepsInv(s: Sys, pool: seq<nat>, t: nat)
    requires Inv(s, pool) && t in s.waiting && Enabled(s, Leaving(t)) && s.pool.cells[s.waiting[t].cell].waiters == 1
    ensures Inv(Next(s, Leaving(t)), pool)
  {
    var s', c := Next(s, Leaving(t)), s.waiting[t].cell;
    assert WaitOk(s, t) && ActiveOk(s, c);
    NotBoth(s, pool, c);
    ReturnPartition(s.pool, c);
    LastWaiter(s, t);
    hide Without, WaitersOf;
    assert Partition(s'.pool, pool);
    GaveBack(s, s', pool, t, c);
  }

  /** Thread t was the last to wait on cell c, which is active no more. */
  lemma GaveBack(s: Sys, s': Sys, pool: seq<nat>, t: nat, c: nat)
    requires Inv(s, pool) && t in s.waiting && s.waiting[t].cell == c < |s.pool.cells|
    requires Partition(s'.pool, pool) && s'.waiting == s.waiting - {t} && s'.pool.free == [c] + s.pool.free
    requires s'.pool.cells == s.pool.cells[c := s.pool.cells[c].(waiters := 0)]
    requires forall d :: d in s'.pool.active <==> d in s.pool.active && d != c
    requires forall u :: u in s.waiting && u != t ==> s.waiting[u].cell != c
    ensures Inv(s', pool)
  {
    hide WaitersOf, Partition;
    forall i | 0 <= i < |s'.pool.active| ensures s'.pool.active[i] < |s'.pool.cells| {
      assert s'.pool.active[i] in s.pool.active;
    }
    forall u | u in s'.waiting ensures WaitOk(s', u) {
      assert u in s.waiting ==> WaitOk(s, u);
    }
    forall d | d in s'.pool.active ensures ActiveOk(s', d) {
      assert ActiveOk(s, d);
      WaitersLeave(s.waiting, t, d);
    }
  }

  /** Moving a cell back to the free list loses and doubles nothing. */
  lemma ReturnPartition(p: Pool, c: nat)
    requires c in p.active && multiset(p.active)[c] == 1
    ensures
      var active, free := Without(p.active, c), [c] + p.free;
      && multiset(active) + multiset(free) == multiset(p.active) + multiset(p.free)
      && forall d :: d in active <==> d in p.active && d != c
  {
    WithoutCounts(p.active, c);
    hide Without;
    var active, free := Without(p.active, c), [c] + p.free;
    assert multiset(free) == multiset(p.free) + multiset{c};
    forall d ensures d in active <==> d in p.active && d != c {
      assert d in multiset(active) <==> d in multiset(p.active) && d != c;
    }
  }

  /** The only thread waiting on a cell. */
  lemma LastWaiter(s: Sys, t: nat)
    requires t in s.waiting && |WaitersOf(s.waiting, s.waiting[t].cell)| == 1
    ensures forall u :: u in s.waiting && u != t ==> s.waiting[u].cell != s.waiting[t].cell
  {
    var ws := WaitersOf(s.waiting, s.waiting[t].cell);
    assert |ws - {t}| == 0;
    forall u | u in s.waiting && u != t ensures s.waiting[u].cell != s.waiting[t].cell {
      assert u !in ws - {t};
    }
  }

  lemma NextKeepsInv(s: Sys, pool: seq<nat>, e: Event)
    requires Inv(s, pool) && Enabled(s, e)
    ensures Inv(Next(s, e), pool)
  {
    match e
    case Entering(t, addr) =>
      if Find(s.pool, addr, 0).Some? {
        JoinKeepsInv(s, pool, t, addr);
      } else if s.pool.free != [] {
        ActivateKeepsInv(s, pool, t, addr);
      }
    case Leaving(t) =>
      if s.pool.cells[s.waiting[t].cell].waiters == 1 {
        ReturnKeepsInv(s, pool, t);
      } else {
        StayKeepsInv(s, pool, t);
      }
  }

  ghost predicate IsRun(run: seq<Sys>, es: seq<Event>, pool: seq<nat>) {
    && |run| == |es| + 1
    && run[0].waiting == map[] && run[0].pool.active == [] && run[0].pool.free == pool && Shaped(run[0].pool)
    && Partition(run[0].pool, pool)
    && forall i :: 0 <= i < |es| ==> Enabled(run[i], es[i]) && run[i + 1] == Next(run[i], es[i])
  }

  /** The pool invariant holds over every interleaving, whatever cells the pool starts with. */
  lemma {:induction false} PoolRun(run: seq<Sys>, es: seq<Event>, pool: seq<nat>, i: nat)
    requires IsRun(run, es, pool) && i <= |es|
    ensures Inv(run[i], pool)
  {
    if i > 0 {
      PoolRun(run, es, pool, i - 1);
      hide Inv, Next;
      NextKeepsInv(run[i - 1], pool, es[i - 1]);
    }
  }

  /** Entering fails exactly when every cell of the pool is active for some other address. */
  lemma EnterFailsIff(s: Sys, pool: seq<nat>, addr: int)
    requires Inv(s, pool)
    ensures Enter(s.pool, addr).1 == None <==>
      forall c :: c in pool ==> c < |s.pool.cells| && c in s.pool.active && s.pool.cells[c].addr != addr
  {
    var a, f := multiset(s.pool.active), multiset(s.pool.free);
    if Enter(s.pool, addr).1 == None {
      assert f == multiset{};
      forall c | c in pool ensures c < |s.pool.cells| && c in s.pool.active && s.pool.cells[c].addr != addr {
        assert c in multiset(pool) && c in a;
        var i :| 0 <= i < |s.pool.active| && s.pool.active[i] == c;
      }
    } else if Find(s.pool, addr, 0).Some? {
      var c := Find(s.pool, addr, 0).value;
      assert c in a && c in multiset(pool);
    } else {
      var c := s.pool.free[0];
      assert c in f && c in multiset(pool);
      if c in s.pool.active {
        NotBoth(s, pool, c);
      }
    }
  }

  /** When nobody waits, every cell is free again. */
  lemma QuietPoolIsFree(s: Sys, pool: seq<nat>)
    requires Inv(s, pool) && s.waiting == map[]
    ensures s.pool.active == [] && multiset(s.pool.free) == multiset(pool)
  {
    if s.pool.active != [] {
      var t := ActiveHasWaiter(s, pool, s.pool.active[0]);
    }
  }

  lemma ActiveHasWaiter(s: Sys, pool: seq<nat>, c: nat) returns (t: nat)
    requires Inv(s, pool) && c in s.pool.active
    ensures t in s.waiting && s.waiting[t].cell == c
  {
    assert ActiveOk(s, c);
    assert WaitersOf(s.waiting, c) != {};
    t :| t in WaitersOf(s.waiting, c);
  }
}
