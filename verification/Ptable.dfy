// The process table (proc.c): fork, exit, wait, kill, wakeup1 and the scheduler's choice.
// Each method is one critical section of ptable.lock, or one store outside of it; fork is
// several of them, between which other processes run.
module Ptable {
  import opened Common
  import opened Areas

  datatype ProcState = UNUSED | EMBRYO | SLEEPING | RUNNABLE | RUNNING | ZOMBIE

  /** What a process sleeps on: nothing, a process (wait), or some other kernel object. */
  datatype Chan = NoChan | Proc(p: nat) | Object(id: nat)

  datatype WaitResult = Reaped(child: nat, pid: int) | NoChildren | Asleep

  predicate Alive(s: ProcState) {
    s.SLEEPING? || s.RUNNABLE? || s.RUNNING?
  }

  /** wakeup1: every process that sleeps on c becomes runnable. */
  function Woken(state: seq<ProcState>, chan: seq<Chan>, c: Chan): (r: seq<ProcState>)
    requires |state| == |chan|
    ensures |r| == |state|
    ensures forall q :: 0 <= q < |state| ==> r[q] == if state[q].SLEEPING? && chan[q] == c then RUNNABLE else state[q]
  {
    seq(|state|, q requires 0 <= q < |state| => if state[q].SLEEPING? && chan[q] == c then RUNNABLE else state[q])
  }

  /** Every process but init has a live parent, which is not asleep in wait beside a zombie child. */
  ghost predicate Family(init: nat, state: seq<ProcState>, parent: seq<Option<nat>>, chan: seq<Chan>) {
    && |state| == |parent| == |chan|
    && init < |state| && Alive(state[init]) && parent[init].None?
    && (forall q :: 0 <= q < |state| ==> parent[q] != Some(q))
    && (forall q :: 0 <= q < |state| && parent[q].Some? ==> parent[q].value < |state| && Alive(state[parent[q].value]))
    && (forall q :: 0 <= q < |state| && state[q].UNUSED? ==> parent[q].None?)
    && (forall q :: 0 <= q < |state| && q != init && (Alive(state[q]) || state[q].ZOMBIE?) ==> parent[q].Some?)
    && (forall q, p :: 0 <= q < |state| && state[q].ZOMBIE? && parent[q] == Some(p) ==> !InWait(state, chan, p))
  }

  ghost predicate InWait(state: seq<ProcState>, chan: seq<Chan>, p: nat) {
    p < |state| == |chan| && state[p].SLEEPING? && chan[p] == Proc(p)
  }

  /** Pids of slots in use are positive, below the next one, and shared with no other slot. */
  ghost predicate Pids(state: seq<ProcState>, pid: seq<int>, nextpid: int) {
    && |pid| == |state| && nextpid > 0
    && (forall p :: 0 <= p < |pid| ==> pid[p] < nextpid)
    && (forall p :: 0 <= p < |pid| && !state[p].UNUSED? ==> pid[p] > 0)
    && (forall p, q :: 0 <= p < |pid| && 0 <= q < |pid| && p != q && !state[q].UNUSED? ==> pid[p] != pid[q])
  }

  // ----- The mmap areas that fork copies -----

  /** The page tables and mapped pages of an address space. */
  datatype Space = Space(tables: set<nat>, mapped: set<nat>)

  /** No area left, kalloc failed, a source page was absent, or a page of the child was mapped already. */
  datatype CopyResult = AllCopied | NoArea | NoPage | Fault | Remap

  /** Zero is the return value 0 of a fork whose kalloc failed; Exited the end of the parent inside fork. */
  datatype ForkResult = Child(np: nat, pid: int) | Refused | Zero | Exited | Panicked

  function PageSeq(page: nat, n: nat): (r: seq<nat>)
    ensures |r| == n
  {
    seq(n, k requires 0 <= k < n => (page + k) % NPAGES)
  }

  /** The pages at which fork copies an area: one for every PGSIZE bytes of its length. */
  function PagesOf(a: Area): seq<nat> {
    PageSeq(a.addr / PGSIZE, Count(a))
  }

  function Count(a: Area): nat {
    if a.length <= 0 then 0 else (a.length + PGSIZE - 1) / PGSIZE
  }

  /** The pages of p's mapped areas, in the order in which fork copies them. */
  function Pages(areas: seq<Area>, p: nat): seq<nat> {
    if areas == [] then []
    else (if areas[0].proc == p && areas[0].status == 1 then PagesOf(areas[0]) else []) + Pages(areas[1..], p)
  }

  ghost function Dirs(vs: seq<nat>): set<nat> {
    set v | v in vs :: v / NPT
  }

  /** What mapping the pages vs takes: the pages, and a table for every directory entry without one. */
  ghost function Need(tables: set<nat>, vs: seq<nat>): nat {
    |vs| + |Dirs(vs) - tables|
  }

  /** The last of the pages is the first under its directory entry. */
  ghost predicate LastNew(tables: set<nat>, vs: seq<nat>) {
    vs != [] && vs[|vs| - 1] / NPT !in tables + Dirs(vs[..|vs| - 1])
  }

  /** There are pages for all of it, or only the table of the very last page is missing. */
  ghost predicate Enough(tables: set<nat>, vs: seq<nat>, free: nat) {
    Need(tables, vs) <= free || (Need(tables, vs) == free + 1 && LastNew(tables, vs))
  }

  /** No page is mapped already or twice. */
  ghost predicate Fresh(mapped: set<nat>, vs: seq<nat>) {
    && (forall i, j :: 0 <= i < j < |vs| ==> vs[i] != vs[j])
    && (forall i :: 0 <= i < |vs| ==> vs[i] !in mapped)
  }

  ghost predicate AllIn(vs: seq<nat>, present: set<nat>) {
    forall i :: 0 <= i < |vs| ==> vs[i] in present
  }

  ghost predicate SpaceOk(sp: Space) {
    forall v :: v in sp.mapped ==> v / NPT in sp.tables
  }

  /** The child's space and the free pages once the pages done are copied; lost if the last one was not mapped. */
  ghost predicate Copied(sp0: Space, free0: nat, present: set<nat>, done: seq<nat>, sp: Space, free: nat, lost: bool) {
    && SpaceOk(sp0) && AllIn(done, present) && Fresh(sp0.mapped, done)
    && (!lost ==>
          && sp == Space(sp0.tables + Dirs(done), sp0.mapped + Elements(done)) && free + Need(sp0.tables, done) == free0)
    && (lost ==>
          && LastNew(sp0.tables, done) && free == 0 && Need(sp0.tables, done) == free0 + 1
          && var front := done[..|done| - 1];
             sp == Space(sp0.tables + Dirs(front), sp0.mapped + Elements(front)))
  }

  lemma CopiedNone(sp0: Space, free0: nat, present: set<nat>)
    requires SpaceOk(sp0)
    ensures Copied(sp0, free0, present, [], sp0, free0, false)
  {
    assert Dirs([]) - sp0.tables == {};
    assert sp0.tables + Dirs([]) == sp0.tables && sp0.mapped + Elements([]) == sp0.mapped;
  }

  lemma DirsSnoc(vs: seq<nat>, v: nat)
    ensures Dirs(vs + [v]) == Dirs(vs) + {v / NPT} && Elements(vs + [v]) == Elements(vs) + {v}
  {
    assert v in vs + [v];
    forall w | w in vs ensures w in vs + [v] {
    }
  }

  lemma NeedSnoc(tables: set<nat>, vs: seq<nat>, v: nat)
    ensures Need(tables, vs + [v]) == Need(tables, vs) + 1 + if v / NPT in tables + Dirs(vs) then 0 else 1
  {
    DirsSnoc(vs, v);
    if v / NPT in tables + Dirs(vs) {
      assert Dirs(vs + [v]) - tables == Dirs(vs) - tables;
    } else {
      assert Dirs(vs + [v]) - tables == (Dirs(vs) - tables) + {v / NPT};
    }
  }

  /** More pages need more, and a new table at the very end one more. */
  lemma {:induction false} NeedMore(tables: set<nat>, vs: seq<nat>, ws: seq<nat>)
    ensures Need(tables, vs + ws) >= Need(tables, vs) + |ws|
    ensures ws != [] && LastNew(tables, vs + ws) ==> Need(tables, vs + ws) > Need(tables, vs) + |ws|
  {
    if ws == [] {
      assert vs + ws == vs;
    } else {
      var front, v := ws[..|ws| - 1], ws[|ws| - 1];
      assert vs + ws == vs + front + [v] && (vs + ws)[..|vs + ws| - 1] == vs + front;
      NeedMore(tables, vs, front);
      NeedSnoc(tables, vs + front, v);
    }
  }

  lemma FreshSnoc(mapped: set<nat>, vs: seq<nat>, v: nat)
    ensures Fresh(mapped, vs + [v]) <==> Fresh(mapped, vs) && v !in mapped + Elements(vs)
  {
    var ws := vs + [v];
    assert ws[|vs|] == v && ws[..|vs|] == vs;
    assert forall i :: 0 <= i < |vs| ==> ws[i] == vs[i];
    if Fresh(mapped, vs) && v !in mapped + Elements(vs) {
      forall i | 0 <= i < |vs| ensures vs[i] != v {
        assert vs[i] in Elements(vs);
      }
    }
    if v in Elements(vs) {
      var i :| 0 <= i < |vs| && vs[i] == v;
      assert ws[i] == ws[|vs|];
    }
  }

  lemma {:induction false} FreshPrefix(mapped: set<nat>, vs: seq<nat>, ws: seq<nat>)
    requires vs <= ws && Fresh(mapped, ws)
    ensures Fresh(mapped, vs)
  {
    assert forall i :: 0 <= i < |vs| ==> vs[i] == ws[i];
  }

  /** One page copied and mapped. */
  lemma CopiedSnoc(sp0: Space, free0: nat, present: set<nat>, done: seq<nat>, sp: Space, free: nat, v: nat)
    requires Copied(sp0, free0, present, done, sp, free, false) && free > 0 && v in present && v !in sp.mapped
    ensures v / NPT in sp.tables ==>
              Copied(sp0, free0, present, done + [v], Space(sp.tables, sp.mapped + {v}), free - 1, false)
    ensures v / NPT !in sp.tables && free > 1 ==>
              Copied(sp0, free0, present, done + [v], Space(sp.tables + {v / NPT}, sp.mapped + {v}), free - 2, false)
  {
    hide Need;
    hide Fresh;
    hide Dirs;
    hide Elements;
    hide AllIn;
    hide SpaceOk;
    hide LastNew;
    var all := done + [v];
    DirsSnoc(done, v);
    NeedSnoc(sp0.tables, done, v);
    FreshSnoc(sp0.mapped, done, v);
    AllInSnoc(done, v, present);
    assert sp0.tables + Dirs(all) == sp.tables + {v / NPT} && sp0.mapped + Elements(all) == sp.mapped + {v};
    assert v / NPT in sp.tables ==> sp.tables + {v / NPT} == sp.tables;
  }

  lemma AllInSnoc(vs: seq<nat>, v: nat, present: set<nat>)
    requires AllIn(vs, present) && v in present
    ensures AllIn(vs + [v], present)
  {
  }

  lemma ElementDir(vs: seq<nat>, v: nat)
    ensures v in Elements(vs) ==> v / NPT in Dirs(vs)
  {
  }

  /** A page that kalloc had no table for: it is copied, and lost. */
  lemma CopiedLost(sp0: Space, free0: nat, present: set<nat>, done: seq<nat>, sp: Space, v: nat)
    requires Copied(sp0, free0, present, done, sp, 1, false) && v in present && v / NPT !in sp.tables
    ensures Copied(sp0, free0, present, done + [v], sp, 0, true)
  {
    var all := done + [v];
    NeedSnoc(sp0.tables, done, v);
    assert all[..|all| - 1] == done;
    AllInSnoc(done, v, present);
    ElementDir(done, v);
    FreshSnoc(sp0.mapped, done, v);
  }

  /** With pages still to copy and none free there were not enough. */
  lemma NotEnough(sp0: Space, free0: nat, present: set<nat>, done: seq<nat>, sp: Space, lost: bool, vs: seq<nat>)
    requires Copied(sp0, free0, present, done, sp, 0, lost) && done <= vs && |done| < |vs|
    ensures !Enough(sp0.tables, vs, free0)
  {
    hide Need;
    hide LastNew;
    var ws := vs[|done|..];
    assert vs == done + ws;
    NeedMore(sp0.tables, done, ws);
  }

  /** What the copy of all pages comes to. */
  lemma CopiedAll(sp0: Space, free0: nat, present: set<nat>, vs: seq<nat>, sp: Space, free: nat, lost: bool)
    requires Copied(sp0, free0, present, vs, sp, free, lost)
    ensures AllIn(vs, present) && Fresh(sp0.mapped, vs) && Enough(sp0.tables, vs, free0)
    ensures lost <==> Need(sp0.tables, vs) > free0
    ensures Need(sp0.tables, vs) <= free0 ==>
              sp.mapped == sp0.mapped + Elements(vs) && free == free0 - Need(sp0.tables, vs)
    ensures Need(sp0.tables, vs) > free0 ==> vs != [] && sp.mapped == sp0.mapped + Elements(vs[..|vs| - 1]) && free == 0
  {
  }

  lemma LostIsLast(sp0: Space, free0: nat, present: set<nat>, done: seq<nat>, sp: Space, free: nat, lost: bool)
    requires Copied(sp0, free0, present, done, sp, free, lost)
    ensures lost ==> free == 0
  {
  }

  lemma RemapNotFresh(sp0: Space, free0: nat, present: set<nat>, done: seq<nat>, sp: Space, free: nat, v: nat, vs: seq<nat>)
    requires Copied(sp0, free0, present, done, sp, free, false) && v in sp.mapped && done + [v] <= vs
    ensures !Fresh(sp0.mapped, vs)
  {
    FreshSnoc(sp0.mapped, done, v);
    if Fresh(sp0.mapped, vs) {
      FreshPrefix(sp0.mapped, done + [v], vs);
    }
  }

  /** A child that is published has all its pages exactly when there was a table for the last one too. */
  lemma LostPage(child: Space, vs: seq<nat>, present: set<nat>, free: nat, sp: Space)
    requires Fresh(child.mapped, vs)
    requires Need(child.tables, vs) <= free ==> sp.mapped == child.mapped + Elements(vs)
    requires Need(child.tables, vs) > free ==> vs != [] && sp.mapped == child.mapped + Elements(vs[..|vs| - 1])
    ensures Elements(vs) <= sp.mapped <==> Need(child.tables, vs) <= free
  {
    hide Need;
    if Need(child.tables, vs) > free {
      var front, v := vs[..|vs| - 1], vs[|vs| - 1];
      assert vs == front + [v];
      FreshSnoc(child.mapped, front, v);
      assert v in Elements(vs);
    }
  }

  lemma SplitPages(areas: seq<Area>, p: nat, i: nat)
    requires i < |areas|
    ensures Pages(areas[i..], p) ==
              (if areas[i].proc == p && areas[i].status == 1 then PagesOf(areas[i]) else []) + Pages(areas[i + 1..], p)
  {
    assert areas[i..][1..] == areas[i + 1..];
  }

  lemma NoAreas(p: nat)
    ensures Pages([], p) == [] && Room([], p)
  {
  }

  function FirstUnused(state: seq<ProcState>, p: nat): (r: nat)
    requires p <= |state|
    ensures p <= r <= |state| && (r < |state| ==> state[r].UNUSED?)
    decreases |state| - p
  {
    if p == |state| || state[p].UNUSED? then p else FirstUnused(state, p + 1)
  }

  lemma {:induction false} FirstUnusedFrom(state: seq<ProcState>, p: nat, r: nat)
    requires p <= r <= |state| && (r < |state| ==> state[r].UNUSED?)
    requires forall q :: p <= q < r ==> !state[q].UNUSED?
    ensures FirstUnused(state, p) == r
    decreases r - p
  {
    if p < r {
      FirstUnusedFrom(state, p + 1, r);
    }
  }

  lemma FirstUnusedIs(state: seq<ProcState>, r: nat)
    requires r <= |state| && (r < |state| ==> state[r].UNUSED?)
    requires forall q :: 0 <= q < r ==> !state[q].UNUSED?
    ensures FirstUnused(state, 0) == r
  {
    FirstUnusedFrom(state, 0, r);
  }

  ghost predicate HasPid(pid: seq<int>, id: int) {
    exists p :: 0 <= p < |pid| && pid[p] == id
  }

  ghost predicate UsedPid(state: seq<ProcState>, pid: seq<int>, id: int)
    requires |state| == |pid|
  {
    exists p :: 0 <= p < |pid| && pid[p] == id && !state[p].UNUSED?
  }

  class Ptable {
    const init: nat
    var state: seq<ProcState>
    var parent: seq<Option<nat>>
    var chan: seq<Chan>
    var pid: seq<int>
    var killed: seq<bool>
    var nextpid: int
    var areas: seq<Area>        // mmap_areas with mmap_status_flag

    ghost predicate Valid()
      reads this
    {
      && |state| == |parent| == |chan| == |pid| == |killed|
      && Family(init, state, parent, chan) && Pids(state, pid, nextpid)
    }

    /** The table once userinit has made the first process, in slot 0 of n. */
    constructor (n: nat, areas: seq<Area>)
      requires n > 0
      ensures Valid() && init == 0 && |state| == n && state[0].RUNNABLE? && this.areas == areas
      ensures forall q :: 1 <= q < n ==> state[q].UNUSED? && pid[q] == 0
      ensures pid[0] == 1 && nextpid == 2 && forall q :: 0 <= q < n ==> !killed[q]
    {
      this.areas := areas;
      init := 0;
      state := seq(n, q => if q == 0 then RUNNABLE else UNUSED);
      parent := seq(n, _ => None);
      chan := seq(n, _ => NoChan);
      pid := seq(n, q => if q == 0 then 1 else 0);
      killed := seq(n, _ => false);
      nextpid := 2;
    }

    method Wakeup1(c: Chan)
      requires |state| == |chan|
      modifies this`state
      ensures state == Woken(old(state), chan, c)
    {
      var p := 0;
      while p < |state|
        invariant 0 <= p <= |state| == |old(state)|
        invariant forall q :: 0 <= q < |state| ==> state[q] == if q < p then Woken(old(state), chan, c)[q] else old(state)[q]
      {
        if state[p].SLEEPING? && chan[p] == c {
          state := state[p := RUNNABLE];
        }
        p := p + 1;
      }
    }

    /** exit of process cur; its children go to init, and cur waits for its parent as a zombie. */
    method Exit(cur: nat)
      requires Valid() && cur < |state| && state[cur].RUNNING? && cur != init
      modifies this`state, this`parent
      ensures Valid()
      ensures state == ExitStates(init, old(state), old(parent), chan, cur)
      ensures parent == Adopted(init, old(parent), cur)
    {
      hide Family;
      hide Pids;
      HasParent(init, state, parent, chan, cur);
      ghost var s0 := state;
      Wakeup1(Proc(parent[cur].value));
      ghost var s1 := state;
      ghost var found := false;
      var p := 0;
      while p < |state|
        invariant 0 <= p <= |state| == |s0| == |chan| && |parent| == |s0| == |old(parent)| && |s1| == |s0|
        invariant forall q :: 0 <= q < |parent| ==> parent[q] == if q < p && old(parent)[q] == Some(cur) then Some(init) else old(parent)[q]
        invariant found <==> exists z :: 0 <= z < p && s0[z].ZOMBIE? && old(parent)[z] == Some(cur)
        invariant state == if found then Woken(s1, chan, Proc(init)) else s1
      {
        if parent[p] == Some(cur) {
          parent := parent[p := Some(init)];
          if state[p].ZOMBIE? {
            Wakeup1(Proc(init));
            assert state == Woken(s1, chan, Proc(init));
            found := true;
          }
        }
        p := p + 1;
      }
      state := state[cur := ZOMBIE];
      assert parent == Adopted(init, old(parent), cur);
      assert found == ZombieChild(s0, old(parent), cur);
      ExitKeeps(init, s0, old(parent), chan, cur, pid, nextpid);
    }

    /** One round of wait by cur: a zombie child is freed; without children it fails; else cur sleeps. */
    method Wait(cur: nat) returns (r: WaitResult)
      requires Valid() && cur < |state| && state[cur].RUNNING?
      modifies this
      ensures Valid() && nextpid == old(nextpid)
      ensures r.Reaped? <==> ZombieChild(old(state), old(parent), cur)
      ensures r.NoChildren? <==> !ZombieChild(old(state), old(parent), cur) && (old(killed)[cur] || !HasChild(old(parent), cur))
      ensures r.Reaped? ==>
                && r.child < |old(state)| && old(state)[r.child].ZOMBIE? && old(parent)[r.child] == Some(cur) && r.pid == old(pid)[r.child]
                && state == old(state)[r.child := UNUSED] && parent == old(parent)[r.child := None] && chan == old(chan)
                && pid == old(pid)[r.child := 0] && killed == old(killed)[r.child := false]
      ensures !r.Reaped? ==> parent == old(parent) && pid == old(pid) && killed == old(killed)
      ensures r.NoChildren? ==> state == old(state) && chan == old(chan)
      ensures r.Asleep? ==> state == old(state)[cur := SLEEPING] && chan == old(chan)[cur := Proc(cur)]
    {
      hide Family;
      hide Pids;
      var havekids := false;
      var p := 0;
      while p < |state|
        invariant 0 <= p <= |state| && state == old(state) && parent == old(parent) && chan == old(chan)
        invariant pid == old(pid) && killed == old(killed) && nextpid == old(nextpid)
        invariant havekids <==> exists q :: 0 <= q < p && parent[q] == Some(cur)
        invariant forall q :: 0 <= q < p && parent[q] == Some(cur) ==> !state[q].ZOMBIE?
      {
        if parent[p] == Some(cur) {
          havekids := true;
          if state[p].ZOMBIE? {
            ReapKeeps(init, state, parent, chan, pid, nextpid, p);
            r := Reaped(p, pid[p]);
            pid := pid[p := 0];
            parent := parent[p := None];
            killed := killed[p := false];
            state := state[p := UNUSED];
            return;
          }
        }
        p := p + 1;
      }
      if !havekids || killed[cur] {
        return NoChildren;
      }
      WaitKeeps(init, state, parent, chan, pid, nextpid, cur);
      chan := chan[cur := Proc(cur)];
      state := state[cur := SLEEPING];
      r := Asleep;
    }

    /** allocproc's critical section: the first unused slot becomes EMBRYO with a new pid. */
    method Allocslot() returns (r: Option<nat>)
      requires Valid()
      modifies this`state, this`pid, this`nextpid
      ensures Valid()
      ensures r.None? <==> forall q :: 0 <= q < |old(state)| ==> !old(state)[q].UNUSED?
      ensures r.None? ==> state == old(state) && pid == old(pid) && nextpid == old(nextpid)
      ensures r.Some? ==>
                && r.value < |old(state)| && old(state)[r.value].UNUSED? && parent[r.value].None?
                && (forall q :: 0 <= q < r.value ==> !old(state)[q].UNUSED?)
                && state == old(state)[r.value := EMBRYO]
                && pid == old(pid)[r.value := old(nextpid)] && nextpid == old(nextpid) + 1
    {
      hide Family;
      hide Pids;
      var p := 0;
      while p < |state| && !state[p].UNUSED?
        invariant 0 <= p <= |state| && forall q :: 0 <= q < p ==> !state[q].UNUSED?
      {
        p := p + 1;
      }
      if p == |state| {
        return None;
      }
      EmbryoKeeps(init, state, parent, chan, pid, nextpid, p);
      state := state[p := EMBRYO];
      pid := pid[p := nextpid];
      nextpid := nextpid + 1;
      r := Some(p);
    }

    /**
     * The failures before the parent is set: no kernel stack, or no memory for the copy.  A mark that kill
     * left on the EMBRYO stays in the unused slot.
     */
    method Abandon(np: nat)
      requires Valid() && np < |state| && state[np].EMBRYO? && parent[np].None?
      modifies this`state
      ensures Valid() && state == old(state)[np := UNUSED]
      ensures CleanSlots(old(state), killed) ==> (CleanSlots(state, killed) <==> !killed[np])
    {
      hide Family;
      hide Pids;
      AbandonKeeps(init, state, parent, chan, pid, nextpid, np);
      state := state[np := UNUSED];
    }

    /** np->parent = curproc, without the lock. */
    method SetParent(np: nat, cur: nat)
      requires Valid() && np < |state| && state[np].EMBRYO? && cur < |state| && state[cur].RUNNING?
      modifies this`parent
      ensures Valid() && parent == old(parent)[np := Some(cur)]
    {
      hide Pids;
      EmbryoChild(init, state, parent, chan, np, cur);
      parent := parent[np := Some(cur)];
    }

    /** The new process may run. */
    method Publish(np: nat)
      requires Valid() && np < |state| && state[np].EMBRYO? && parent[np].Some?
      modifies this`state
      ensures Valid() && state == old(state)[np := RUNNABLE]
    {
      hide Family;
      hide Pids;
      PublishKeeps(init, state, parent, chan, pid, nextpid, np);
      state := state[np := RUNNABLE];
    }

    /**
     * The copy of one mapped area: for each page a kalloc, a copy from the parent, and a mappages whose
     * failure is ignored.
     */
    method CopyPages(a: Area, present: set<nat>, sp: Space, free: nat,
                     ghost sp0: Space, ghost free0: nat, ghost done: seq<nat>, ghost was: bool, ghost vs: seq<nat>)
      returns (r: CopyResult, sp': Space, free': nat, ghost lost: bool)
      requires Copied(sp0, free0, present, done, sp, free, was) && done + PagesOf(a) <= vs
      ensures r in {AllCopied, NoPage, Fault, Remap}
      ensures r == AllCopied ==> Copied(sp0, free0, present, done + PagesOf(a), sp', free', lost)
      ensures r == NoPage ==> !Enough(sp0.tables, vs, free0)
      ensures r == Fault ==> !AllIn(vs, present)
      ensures r == Remap ==> !Fresh(sp0.mapped, vs)
    {
      hide Copied;
      hide Enough;
      hide Fresh;
      ghost var ps := PagesOf(a);
      sp', free', lost := sp, free, was;
      var i := 0;
      assert done + ps[..0] == done;
      while i * PGSIZE < a.length
        invariant 0 <= i <= Count(a) && Copied(sp0, free0, present, done + ps[..i], sp', free', lost)
      {
        ghost var front := done + ps[..i];
        var v := (a.addr / PGSIZE + i) % NPAGES;
        assert front + [v] == done + ps[..i + 1] && ps[..i + 1] <= ps;
        assert front <= vs && front + [v] <= vs && vs[|front|] == v;
        LostIsLast(sp0, free0, present, front, sp', free', lost);
        if free' == 0 {
          NotEnough(sp0, free0, present, front, sp', lost, vs);
          return NoPage, sp', free', lost;
        }
        if v !in present {
          return Fault, sp', free' - 1, lost;
        }
        if v / NPT !in sp'.tables && free' == 1 {
          CopiedLost(sp0, free0, present, front, sp', v);
          free', lost := 0, true;
        } else {
          if v in sp'.mapped {
            RemapNotFresh(sp0, free0, present, front, sp', free', v, vs);
            return Remap, sp', free', lost;
          }
          CopiedSnoc(sp0, free0, present, front, sp', free', v);
          if v / NPT in sp'.tables {
            sp', free' := Space(sp'.tables, sp'.mapped + {v}), free' - 1;
          } else {
            sp', free' := Space(sp'.tables + {v / NPT}, sp'.mapped + {v}), free' - 2;
          }
        }
        i := i + 1;
      }
      assert ps[..i] == ps;
      r := AllCopied;
    }

    /** The first unused area, or the number of areas. */
    method UnusedArea() returns (k: nat)
      ensures FirstFree(areas, k) || (k == |areas| && Unowned(areas) == 0)
    {
      k := 0;
      while k < |areas| && areas[k].status != 0
        invariant 0 <= k <= |areas| && forall j :: 0 <= j < k ==> areas[j].status != 0
      {
        k := k + 1;
      }
      NoneUnowned(areas);
    }

    /** Area i of cur entered again for np in the first unused area; false when there is none. */
    method EnterArea(i: nat, cur: nat, np: nat) returns (ok: bool)
      requires i < |areas| && areas[i].proc == cur && areas[i].status != 0 && cur != np
      modifies this`areas
      ensures !ok ==> areas == old(areas) && Unowned(areas) == 0
      ensures ok ==>
        exists k: nat :: FirstFree(old(areas), k) && areas == old(areas)[k := old(areas)[i].(proc := np)]
    {
      var k := UnusedArea();
      if k == |areas| {
        return false;
      }
      areas := areas[k := areas[i].(proc := np)];
      ok := true;
    }

    /** The turn of area i in fork's loop, up to the copying of its pages. */
    method NextArea(i: nat, cur: nat, np: nat, ghost areas0: seq<Area>) returns (mine: bool, ok: bool)
      requires i < |areas| == |areas0| && cur != np && areas == Forked(areas0, cur, np, i)
      requires |Live(areas0[..i], cur)| <= Unowned(areas0)
      modifies this`areas
      ensures mine <==> areas0[i].proc == cur && areas0[i].status != 0
      ensures |areas| == |areas0| && (mine ==> areas[i] == areas0[i])
      ensures ok ==> areas == Forked(areas0, cur, np, i + 1) && |Live(areas0[..i + 1], cur)| <= Unowned(areas0)
      ensures !ok ==> areas == old(areas) && !Room(areas0, cur)
    {
      hide Forked;
      hide Unowned;
      hide Live;
      ForkedNext(areas0, cur, np, i);
      LiveNext(areas0, cur, i);
      mine := areas[i].proc == cur && areas[i].status != 0;
      ok := true;
      if mine {
        ok := EnterArea(i, cur, np);
        if ok {
          ghost var k: nat :| FirstFree(old(areas), k) && areas == old(areas)[k := areas0[i].(proc := np)];
          ForkedEnter(areas0, cur, np, i, k);
          NoneUnowned(old(areas));
        }
      }
    }

    /**
     * fork's loop over the areas of cur: each is entered again for np, and a mapped one is copied page by
     * page.  It gets through exactly when there is an area for each, every source page is present, no page
     * of the child is mapped already, and there are pages for the copies and their tables, or all but the
     * table of the very last page, which is then lost.
     */
    method CopyAreas(cur: nat, np: nat, present: set<nat>, child: Space, free: nat) returns (r: CopyResult, sp: Space, left: nat)
      requires cur != np && SpaceOk(child)
      modifies this`areas
      ensures PartlyForked(old(areas), cur, np, areas)
      ensures r == AllCopied ==> areas == Forked(old(areas), cur, np, |old(areas)|)
      ensures var vs := Pages(old(areas), cur);
              && (r == AllCopied <==>
                    && Room(old(areas), cur) && AllIn(vs, present)
                    && Fresh(child.mapped, vs) && Enough(child.tables, vs, free))
              && (r == NoArea ==> !Room(old(areas), cur))
              && (r == NoPage ==> !Enough(child.tables, vs, free))
              && (r == Fault ==> !AllIn(vs, present)) && (r == Remap ==> !Fresh(child.mapped, vs))
              && (r == AllCopied && Need(child.tables, vs) <= free ==>
                    sp.mapped == child.mapped + Elements(vs) && left == free - Need(child.tables, vs))
              && (r == AllCopied && Need(child.tables, vs) > free ==>
                    vs != [] && sp.mapped == child.mapped + Elements(vs[..|vs| - 1]) && left == 0)
    {
      hide Copied;
      hide Enough;
      hide Fresh;
      hide AllIn;
      hide SpaceOk;
      hide Need;
      hide Pages;
      hide PageSeq;
      hide Forked;
      hide Unowned;
      hide Live;
      hide Dirs;
      ghost var areas0, vs := areas, Pages(areas, cur);
      ghost var done: seq<nat>, lost := [], false;
      sp, left := child, free;
      CopiedNone(child, free, present);
      ForkedNone(areas, cur, np);
      var i := 0;
      assert areas0[0..] == areas0;
      while i < |areas|
        invariant 0 <= i <= |areas| == |areas0|
        invariant areas == Forked(areas0, cur, np, i) && |Live(areas0[..i], cur)| <= Unowned(areas0)
        invariant done + Pages(areas0[i..], cur) == vs && Copied(child, free, present, done, sp, left, lost)
      {
        SplitPages(areas0, cur, i);
        ghost var rest := Pages(areas0[i + 1..], cur);
        var mine, ok := NextArea(i, cur, np, areas0);
        if !ok {
          return NoArea, sp, left;
        }
        if mine && areas[i].status == 1 {
          ghost var ps := PagesOf(areas[i]);
          assert vs == done + ps + rest;
          r, sp, left, lost := CopyPages(areas[i], present, sp, left, child, free, done, lost, vs);
          if r != AllCopied {
            return;
          }
          done := done + ps;
        }
        i := i + 1;
      }
      assert areas0[i..] == [] && areas0[..i] == areas0;
      NoAreas(cur);
      assert done == vs;
      CopiedAll(child, free, present, vs, sp, left, lost);
      r := AllCopied;
    }

    /**
     * fork by cur.  stack and mem say whether allocproc and copyuvm find memory; present is the parent's
     * pages, child the space copyuvm made, and free the pages kalloc still has.  A failure in the areas
     * leaves an EMBRYO behind for good: its slot is taken, and wait counts it as a child.
     */
    method Fork(cur: nat, stack: bool, mem: bool, present: set<nat>, child: Space, free: nat) returns (r: ForkResult, sp: Space)
      requires Valid() && cur < |state| && state[cur].RUNNING? && SpaceOk(child)
      modifies this
      ensures Valid() && killed == old(killed) && chan == old(chan)
      ensures r.Child? ==> areas == Forked(old(areas), cur, r.np, |old(areas)|)
      ensures var np := FirstUnused(old(state), 0);
        if np == |old(state)| || !stack || !mem then areas == old(areas) else PartlyForked(old(areas), cur, np, areas)
      ensures var np := FirstUnused(old(state), 0);
        var vs := Pages(old(areas), cur);
        var areasDo := Room(old(areas), cur);
        if np == |old(state)| then
          r == Refused && state == old(state) && parent == old(parent) && pid == old(pid) && nextpid == old(nextpid)
        else
          && pid == old(pid)[np := old(nextpid)] && nextpid == old(nextpid) + 1
          && if !stack || !mem then r == Refused && state == old(state) && parent == old(parent)
             else
               && (r == Child(np, old(nextpid)) <==>
                     areasDo && AllIn(vs, present) && Fresh(child.mapped, vs) && Enough(child.tables, vs, free))
               && (r.Child? ==> r == Child(np, old(nextpid)) && state == old(state)[np := RUNNABLE])
               && (r.Child? ==> (Elements(vs) <= sp.mapped <==> Need(child.tables, vs) <= free))
               && (r == Refused ==> !areasDo) && (r == Zero ==> !Enough(child.tables, vs, free))
               && (r == Exited ==> !AllIn(vs, present) && cur != init)
               && (r == Panicked ==> !Fresh(child.mapped, vs) || (cur == init && !AllIn(vs, present)))
               && (r != Exited ==> parent == old(parent)[np := Some(cur)])
               && (r in {Refused, Zero, Panicked} ==> state == old(state)[np := EMBRYO])
               && (r == Exited ==>
                     && old(parent)[cur].Some? && np != cur && |old(parent)| == |old(state)| == |old(chan)|
                     && state == ExitStates(init, old(state)[np := EMBRYO], old(parent)[np := Some(cur)], chan, cur)
                     && parent == Adopted(init, old(parent)[np := Some(cur)], cur))
    {
      hide Family;
      hide Pids;
      hide AllIn;
      hide Enough;
      hide Fresh;
      hide SpaceOk;
      hide Need;
      sp := child;
      var slot := Allocslot();
      if slot.None? {
        FirstUnusedIs(state, |state|);
        return Refused, sp;
      }
      var np := slot.value;
      FirstUnusedIs(old(state), np);
      if !stack || !mem {
        Abandon(np);
        assert state == old(state);
        return Refused, sp;
      }
      SetParent(np, cur);
      var c, left;
      c, sp, left := CopyAreas(cur, np, present, child, free);
      if c == NoArea {
        return Refused, sp;
      }
      if c == NoPage {
        return Zero, sp;
      }
      if c == Remap {
        return Panicked, sp;
      }
      if c == Fault {
        if cur == init {
          return Panicked, sp;
        }
        HasParent(init, state, parent, chan, cur);
        Exit(cur);
        return Exited, sp;
      }
      LostPage(child, Pages(old(areas), cur), present, free, sp);
      Publish(np);
      assert state == old(state)[np := RUNNABLE];
      return Child(np, pid[np]), sp;
    }

    /**
     * kill: the first slot with that pid is marked, and made runnable if asleep.  That is a process
     * exactly when some slot in use has the pid: pid 0, or the pid of a fork that failed, marks an
     * unused slot, and whoever is forked into it later is born killed.
     */
    method Kill(id: int) returns (found: bool)
      requires Valid()
      modifies this`state, this`killed
      ensures Valid()
      ensures found <==> HasPid(pid, id)
      ensures !found ==> state == old(state) && killed == old(killed)
      ensures forall q :: 0 <= q < |pid| && pid[q] == id && !old(state)[q].UNUSED? ==>
                killed == old(killed)[q := true]
                && state == (if old(state)[q].SLEEPING? then old(state)[q := RUNNABLE] else old(state))
      ensures !UsedPid(old(state), pid, id) ==> state == old(state)
      ensures CleanSlots(old(state), old(killed)) ==>
                (CleanSlots(state, killed) <==> UsedPid(old(state), pid, id) || !HasPid(pid, id))
    {
      hide Family;
      var p := 0;
      while p < |state|
        invariant 0 <= p <= |state| && forall q :: 0 <= q < p ==> pid[q] != id
        invariant state == old(state) && killed == old(killed)
      {
        if pid[p] == id {
          if state[p].SLEEPING? {
            MoveKeeps(init, state, parent, chan, pid, nextpid, p, RUNNABLE, chan[p]);
            assert chan[p := chan[p]] == chan;
          }
          killed := killed[p := true];
          if state[p].SLEEPING? {
            state := state[p := RUNNABLE];
          }
          return true;
        }
        p := p + 1;
      }
      found := false;
    }

    /** The scheduler's choice: the first runnable process with the least (overflow, vruntime). */
    method Pick(overflow: seq<int>, vruntime: seq<nat>) returns (r: Option<nat>)
      requires Valid() && |overflow| == |vruntime| == |state|
      ensures r.None? <==> forall q :: 0 <= q < |state| ==> !state[q].RUNNABLE?
      ensures r.Some? ==>
                && r.value < |state| && state[r.value].RUNNABLE?
                && (forall q :: 0 <= q < |state| && state[q].RUNNABLE? ==> !Before(overflow, vruntime, q, r.value))
                && (forall q :: 0 <= q < r.value && state[q].RUNNABLE? ==> Before(overflow, vruntime, r.value, q))
    {
      hide Family;
      hide Pids;
      var p := 0;
      while p < |state| && !state[p].RUNNABLE?
        invariant 0 <= p <= |state| && forall q :: 0 <= q < p ==> !state[q].RUNNABLE?
      {
        p := p + 1;
      }
      if p == |state| {
        return None;
      }
      var best := p;
      p := 0;
      while p < |state|
        invariant 0 <= p <= |state| && best < |state| && state[best].RUNNABLE?
        invariant forall q :: 0 <= q < p && state[q].RUNNABLE? ==> !Before(overflow, vruntime, q, best)
        invariant forall q :: 0 <= q < best && state[q].RUNNABLE? ==> Before(overflow, vruntime, best, q)
        invariant p <= best ==> forall q :: 0 <= q < best ==> !state[q].RUNNABLE?
      {
        if state[p].RUNNABLE? {
          if overflow[p] < overflow[best] {
            best := p;
          } else if overflow[p] == overflow[best] && vruntime[p] < vruntime[best] {
            best := p;
          }
        }
        p := p + 1;
      }
      r := Some(best);
    }

    /** Any other change of a live process: run, yield, sleep on an object, be woken from one. */
    method Move(p: nat, s: ProcState, c: Chan)
      requires Valid() && p < |state| && Alive(state[p]) && Alive(s) && !c.Proc?
      modifies this`state, this`chan
      ensures Valid() && state == old(state)[p := s] && chan == old(chan)[p := c]
    {
      MoveKeeps(init, state, parent, chan, pid, nextpid, p, s, c);
      state := state[p := s];
      chan := chan[p := c];
    }
  }

  // ----- Runs of the table -----

  /** The critical sections of any number of processes, one after another. */
  datatype Event =
    | Alloc | Abandoned(np: nat) | Parented(np: nat, cur: nat) | Published(np: nat) | Killed(id: int)
    | Exits(cur: nat) | Waits(cur: nat) | Moves(p: nat, s: ProcState, c: Chan)

  /** Whether the event can happen now. */
  predicate Enabled(init: nat, state: seq<ProcState>, parent: seq<Option<nat>>, e: Event)
    requires |state| == |parent|
  {
    match e
    case Alloc => true
    case Abandoned(np) => np < |state| && state[np].EMBRYO? && parent[np].None?
    case Parented(np, cur) => np < |state| && state[np].EMBRYO? && cur < |state| && state[cur].RUNNING?
    case Published(np) => np < |state| && state[np].EMBRYO? && parent[np].Some?
    case Killed(id) => true
    case Exits(cur) => cur < |state| && state[cur].RUNNING? && cur != init
    case Waits(cur) => cur < |state| && state[cur].RUNNING?
    case Moves(p, s, c) => p < |state| && Alive(state[p]) && Alive(s) && !c.Proc?
  }

  /** A kill that finds a process or nothing, and a fork given up before anybody killed the slot. */
  ghost predicate Harmless(state: seq<ProcState>, pid: seq<int>, killed: seq<bool>, e: Event)
    requires |state| == |pid| == |killed|
  {
    match e
    case Killed(id) => UsedPid(state, pid, id) || !HasPid(pid, id)
    case Abandoned(np) => np < |killed| ==> !killed[np]
    case _ => true
  }

  lemma ExitClean(init: nat, state: seq<ProcState>, parent: seq<Option<nat>>, chan: seq<Chan>, cur: nat, killed: seq<bool>)
    requires |state| == |parent| == |chan| == |killed| && cur < |state| && parent[cur].Some? && CleanSlots(state, killed)
    ensures CleanSlots(ExitStates(init, state, parent, chan, cur), killed)
  {
  }

  /** One event; a birth is an allocproc that takes a slot which is marked killed. */
  method Step(t: Ptable, e: Event) returns (born: bool)
    requires t.Valid() && Enabled(t.init, t.state, t.parent, e)
    modifies t
    ensures t.Valid() && |t.state| == |old(t.state)|
    ensures old(CleanSlots(t.state, t.killed)) ==>
              !born && (CleanSlots(t.state, t.killed) <==> old(Harmless(t.state, t.pid, t.killed, e)))
  {
    hide Family;
    hide Pids;
    hide HasPid;
    hide UsedPid;
    born := false;
    match e
    case Alloc =>
      var r := t.Allocslot();
      born := r.Some? && t.killed[r.value];
    case Abandoned(np) => t.Abandon(np);
    case Parented(np, cur) => t.SetParent(np, cur);
    case Published(np) => t.Publish(np);
    case Killed(id) =>
      var found := t.Kill(id);
    case Exits(cur) =>
      HasParent(t.init, t.state, t.parent, t.chan, cur);
      if CleanSlots(t.state, t.killed) {
        ExitClean(t.init, t.state, t.parent, t.chan, cur, t.killed);
      }
      t.Exit(cur);
    case Waits(cur) =>
      var r := t.Wait(cur);
    case Moves(p, s, c) => t.Move(p, s, c);
  }

  /**
   * Any interleaving of events, those that cannot happen skipped.  From a table without marked unused
   * slots, no slot is ever marked, and so no process is born killed, exactly as long as every event is harmless.
   */
  method Run(t: Ptable, es: seq<Event>) returns (born: bool, ghost harmless: bool, ghost clean: bool)
    requires t.Valid()
    modifies t
    ensures t.Valid() && |t.state| == |old(t.state)|
    ensures old(CleanSlots(t.state, t.killed)) ==> (harmless <==> clean)
    ensures old(CleanSlots(t.state, t.killed)) && harmless ==> !born && CleanSlots(t.state, t.killed)
  {
    hide Ptable.Valid;
    hide CleanSlots;
    hide Harmless;
    born, harmless, clean := false, true, true;
    var i := 0;
    while i < |es|
      invariant 0 <= i <= |es| && t.Valid() && |t.state| == |old(t.state)|
      invariant old(CleanSlots(t.state, t.killed)) ==> (harmless <==> clean)
      invariant old(CleanSlots(t.state, t.killed)) && harmless ==> !born && CleanSlots(t.state, t.killed)
    {
      Lengths(t);
      if Enabled(t.init, t.state, t.parent, es[i]) {
        harmless := harmless && Harmless(t.state, t.pid, t.killed, es[i]);
        var b := Step(t, es[i]);
        clean := clean && CleanSlots(t.state, t.killed);
        born := born || b;
      }
      i := i + 1;
    }
  }

  lemma Lengths(t: Ptable)
    requires t.Valid()
    ensures |t.state| == |t.parent| == |t.chan| == |t.pid| == |t.killed|
  {
  }

  /** And a mark is never harmless: whoever has one in an unused slot gets a process born killed by forking on. */
  method MarkIsInherited(t: Ptable, p: nat)
    requires t.Valid() && p < |t.state| && t.state[p].UNUSED? && t.killed[p]
    modifies t
    ensures t.Valid() && p < |t.state| && t.state[p].EMBRYO? && t.killed[p]
  {
    hide Family;
    hide Pids;
    while t.state[p].UNUSED?
      invariant t.Valid() && p < |t.state| && t.killed[p] && (t.state[p].UNUSED? || t.state[p].EMBRYO?)
      decreases Unuseds(t.state)
    {
      ghost var state0 := t.state;
      var r := t.Allocslot();
      if r.None? {
        assert false;
      }
      UnusedLess(state0, r.value);
    }
  }

  function Unuseds(state: seq<ProcState>): nat {
    if state == [] then 0 else (if state[0].UNUSED? then 1 else 0) + Unuseds(state[1..])
  }

  lemma {:induction false} UnusedLess(state: seq<ProcState>, p: nat)
    requires p < |state| && state[p].UNUSED?
    ensures Unuseds(state[p := EMBRYO]) < Unuseds(state)
  {
    if p > 0 {
      assert state[p := EMBRYO][1..] == state[1..][p - 1 := EMBRYO];
      UnusedLess(state[1..], p - 1);
    }
  }

  ghost predicate HasChild(parent: seq<Option<nat>>, p: nat) {
    exists q :: 0 <= q < |parent| && parent[q] == Some(p)
  }

  /** No unused slot is marked killed, so no process is born killed. */
  ghost predicate CleanSlots(state: seq<ProcState>, killed: seq<bool>) {
    |state| == |killed| && forall p :: 0 <= p < |state| && state[p].UNUSED? ==> !killed[p]
  }

  predicate Before(overflow: seq<int>, vruntime: seq<nat>, p: nat, q: nat)
    requires p < |overflow| == |vruntime| && q < |overflow|
  {
    overflow[p] < overflow[q] || (overflow[p] == overflow[q] && vruntime[p] < vruntime[q])
  }

  /** The children of cur become init's. */
  function Adopted(init: nat, parent: seq<Option<nat>>, cur: nat): (r: seq<Option<nat>>) {
    seq(|parent|, q requires 0 <= q < |parent| => if parent[q] == Some(cur) then Some(init) else parent[q])
  }

  ghost predicate ZombieChild(state: seq<ProcState>, parent: seq<Option<nat>>, p: nat)
    requires |state| == |parent|
  {
    exists z :: 0 <= z < |state| && state[z].ZOMBIE? && parent[z] == Some(p)
  }

  /** The parent is woken, init too if it inherits a zombie, and cur becomes one. */
  ghost function ExitStates(init: nat, state: seq<ProcState>, parent: seq<Option<nat>>, chan: seq<Chan>, cur: nat): (r: seq<ProcState>)
    requires |state| == |parent| == |chan| && cur < |state| && parent[cur].Some?
  {
    var s1 := Woken(state, chan, Proc(parent[cur].value));
    (if ZombieChild(state, parent, cur) then Woken(s1, chan, Proc(init)) else s1)[cur := ZOMBIE]
  }

  lemma HasParent(init: nat, state: seq<ProcState>, parent: seq<Option<nat>>, chan: seq<Chan>, cur: nat)
    requires Family(init, state, parent, chan) && cur < |state| && Alive(state[cur]) && cur != init
    ensures |state| == |parent| == |chan| && parent[cur].Some?
  {
  }

  lemma ExitKeeps(init: nat, state: seq<ProcState>, parent: seq<Option<nat>>, chan: seq<Chan>, cur: nat, pid: seq<int>, nextpid: int)
    requires Family(init, state, parent, chan) && cur < |state| && state[cur].RUNNING? && cur != init
    requires Pids(state, pid, nextpid)
    ensures |state| == |parent| == |chan| && parent[cur].Some?
    ensures |ExitStates(init, state, parent, chan, cur)| == |state|
    ensures Family(init, ExitStates(init, state, parent, chan, cur), Adopted(init, parent, cur), chan)
    ensures Pids(ExitStates(init, state, parent, chan, cur), pid, nextpid)
  {
    var state' := ExitStates(init, state, parent, chan, cur);
    var parent' := Adopted(init, parent, cur);
    forall q | 0 <= q < |state| && q != cur ensures Alive(state'[q]) == Alive(state[q]) && state'[q].ZOMBIE? == state[q].ZOMBIE?
      && state'[q].UNUSED? == state[q].UNUSED? && state'[q].EMBRYO? == state[q].EMBRYO?
    {
    }
    forall q, p | 0 <= q < |state| && state'[q].ZOMBIE? && parent'[q] == Some(p) ensures !InWait(state', chan, p) {
      if q == cur {
        assert parent[cur] == Some(p);
      } else if parent[q] == Some(cur) {
        assert ZombieChild(state, parent, cur);
        assert p == init;
      } else {
        assert !InWait(state, chan, p);
      }
    }
  }

  lemma ReapKeeps(init: nat, state: seq<ProcState>, parent: seq<Option<nat>>, chan: seq<Chan>, pid: seq<int>, nextpid: int, q: nat)
    requires Family(init, state, parent, chan) && Pids(state, pid, nextpid) && q < |state| && state[q].ZOMBIE?
    ensures Family(init, state[q := UNUSED], parent[q := None], chan) && Pids(state[q := UNUSED], pid[q := 0], nextpid)
  {
    var state', parent' := state[q := UNUSED], parent[q := None];
    assert Pids(state', pid[q := 0], nextpid) by {
      hide Family;
    }
    hide Pids;
    forall p: nat
      ensures InWait(state', chan, p) ==> InWait(state, chan, p)
    {
    }
    hide InWait;
    forall p | 0 <= p < |state| && p != q
      ensures state'[p] == state[p] && parent'[p] == parent[p]
    {
    }
  }

  /** A process with no zombie child may sleep in wait. */
  lemma WaitKeeps(init: nat, state: seq<ProcState>, parent: seq<Option<nat>>, chan: seq<Chan>, pid: seq<int>, nextpid: int, p: nat)
    requires Family(init, state, parent, chan) && Pids(state, pid, nextpid) && p < |state| && Alive(state[p])
    requires forall q :: 0 <= q < |state| && parent[q] == Some(p) ==> !state[q].ZOMBIE?
    ensures Family(init, state[p := SLEEPING], parent, chan[p := Proc(p)]) && Pids(state[p := SLEEPING], pid, nextpid)
  {
    var state', chan' := state[p := SLEEPING], chan[p := Proc(p)];
    forall q | 0 <= q < |state|
      ensures Alive(state'[q]) == Alive(state[q]) && state'[q].ZOMBIE? == state[q].ZOMBIE?
      ensures state'[q].UNUSED? == state[q].UNUSED? && state'[q].EMBRYO? == state[q].EMBRYO?
    {
    }
    forall q: nat
      ensures InWait(state', chan', q) ==> InWait(state, chan, q) || q == p
    {
    }
    hide InWait;
    forall q, c: nat | 0 <= q < |state| && state'[q].ZOMBIE? && parent[q] == Some(c)
      ensures !InWait(state', chan', c)
    {
    }
  }

  lemma EmbryoKeeps(init: nat, state: seq<ProcState>, parent: seq<Option<nat>>, chan: seq<Chan>, pid: seq<int>, nextpid: int, p: nat)
    requires Family(init, state, parent, chan) && Pids(state, pid, nextpid) && p < |state| && state[p].UNUSED?
    ensures Family(init, state[p := EMBRYO], parent, chan) && parent[p].None?
    ensures Pids(state[p := EMBRYO], pid[p := nextpid], nextpid + 1)
  {
    assert Pids(state[p := EMBRYO], pid[p := nextpid], nextpid + 1) by {
      hide Family;
    }
    hide Pids;
    var state' := state[p := EMBRYO];
    forall q | 0 <= q < |state| && q != p ensures state'[q] == state[q] {
    }
    forall q: nat ensures InWait(state', chan, q) ==> InWait(state, chan, q) {
    }
    hide InWait;
  }

  lemma AbandonKeeps(init: nat, state: seq<ProcState>, parent: seq<Option<nat>>, chan: seq<Chan>, pid: seq<int>, nextpid: int, p: nat)
    requires Family(init, state, parent, chan) && Pids(state, pid, nextpid)
    requires p < |state| && state[p].EMBRYO? && parent[p].None?
    ensures Family(init, state[p := UNUSED], parent, chan) && Pids(state[p := UNUSED], pid, nextpid)
  {
    assert Pids(state[p := UNUSED], pid, nextpid) by {
      hide Family;
    }
    hide Pids;
    var state' := state[p := UNUSED];
    forall q | 0 <= q < |state| && q != p ensures state'[q] == state[q] {
    }
    forall q: nat ensures InWait(state', chan, q) ==> InWait(state, chan, q) {
    }
    hide InWait;
  }

  lemma EmbryoChild(init: nat, state: seq<ProcState>, parent: seq<Option<nat>>, chan: seq<Chan>, p: nat, cur: nat)
    requires Family(init, state, parent, chan) && p < |state| && state[p].EMBRYO? && cur < |state| && state[cur].RUNNING?
    ensures Family(init, state, parent[p := Some(cur)], chan)
  {
  }

  lemma PublishKeeps(init: nat, state: seq<ProcState>, parent: seq<Option<nat>>, chan: seq<Chan>, pid: seq<int>, nextpid: int, p: nat)
    requires Family(init, state, parent, chan) && Pids(state, pid, nextpid)
    requires p < |state| && state[p].EMBRYO? && parent[p].Some?
    ensures Family(init, state[p := RUNNABLE], parent, chan) && Pids(state[p := RUNNABLE], pid, nextpid)
  {
    assert Pids(state[p := RUNNABLE], pid, nextpid) by {
      hide Family;
    }
    hide Pids;
    var state' := state[p := RUNNABLE];
    forall q | 0 <= q < |state| && q != p ensures state'[q] == state[q] {
    }
    forall q: nat ensures InWait(state', chan, q) ==> InWait(state, chan, q) {
    }
    hide InWait;
  }

  lemma MoveKeeps(init: nat, state: seq<ProcState>, parent: seq<Option<nat>>, chan: seq<Chan>, pid: seq<int>, nextpid: int,
                  p: nat, s: ProcState, c: Chan)
    requires Family(init, state, parent, chan) && Pids(state, pid, nextpid)
    requires p < |state| && Alive(state[p]) && Alive(s) && (s.SLEEPING? ==> !c.Proc?)
    ensures Family(init, state[p := s], parent, chan[p := c]) && Pids(state[p := s], pid, nextpid)
  {
    var state', chan' := state[p := s], chan[p := c];
    forall q | 0 <= q < |state| ensures Alive(state'[q]) == Alive(state[q]) && state'[q].ZOMBIE? == state[q].ZOMBIE? {
    }
    forall q: nat ensures InWait(state', chan', q) ==> InWait(state, chan, q) {
    }
    assert Pids(state', pid, nextpid) by {
      hide Family;
      forall q | 0 <= q < |state| ensures state'[q].UNUSED? == state[q].UNUSED? {
      }
    }
  }

  /** kill(0) marks an unused slot, and the process forked into it is born killed. */
  method BornKilled() returns (t: Ptable)
    ensures t.Valid() && |t.state| == 2 && t.state[1].RUNNABLE? && t.parent[1] == Some(0) && t.killed[1]
  {
    hide Family;
    hide Pids;
    t := new Ptable(2, []);
    t.Move(0, RUNNING, NoChan);
    assert t.pid[1] == 0;
    assert t.pid[0] == 1;
    var found := t.Kill(0);
    FirstUnusedIs(t.state, 1);
    NoAreas(0);
    OnlyTables();
    var r, sp := t.Fork(0, true, true, {}, Space({}, {}), 0);
  }

  /** A fork killed while it is EMBRYO and then given up leaves the mark for the next process in its slot. */
  method InheritedKill() returns (t: Ptable)
    ensures t.Valid() && |t.state| == 2 && t.state[1].RUNNABLE? && t.parent[1] == Some(0) && t.killed[1]
  {
    hide Family;
    hide Pids;
    t := new Ptable(2, []);
    t.Move(0, RUNNING, NoChan);
    assert t.state[1].UNUSED? && !t.state[0].UNUSED?;
    var np := t.Allocslot();
    assert np.value == 1;
    assert t.pid[1] == 2;
    var found := t.Kill(2);
    t.Abandon(1);
    FirstUnusedIs(t.state, 1);
    NoAreas(0);
    OnlyTables();
    var r, sp := t.Fork(0, true, true, {}, Space({}, {}), 0);
  }

  /** With no area left a fork fails and leaves an EMBRYO child, for which its parent waits in vain. */
  method LeakedChild() returns (t: Ptable)
    ensures t.Valid() && |t.state| == 2 && t.state[1].EMBRYO? && t.parent[1] == Some(0)
    ensures t.state[0].SLEEPING? && t.chan[0] == Proc(0)
  {
    var a := Area(MMAPBASE, 0x1000, 0, 0, 0, -1);
    t := new Ptable(2, [a]);
    t.Move(0, RUNNING, NoChan);
    LoneArea(a);
    var r, sp := t.Fork(0, true, true, {}, Space({}, {}), 0);
    assert t.parent[1] == Some(0);
    var w := t.Wait(0);
  }

  const MMAP: nat := MMAPBASE / PGSIZE

  /** Two populated pages and two free ones: the table takes the second, fork returns 0 and an EMBRYO is left. */
  method TableTakesLast() returns (t: Ptable, r: ForkResult)
    ensures t.Valid() && |t.state| == 2 && r == Zero && t.state[1].EMBRYO? && t.parent[1] == Some(0)
  {
    hide Family;
    hide Pids;
    var areas := [Area(MMAPBASE, 0x2000, 0, 0, 0, 1), Area(0, 0, 0, 0, 0, 0)];
    t := new Ptable(2, areas);
    t.Move(0, RUNNING, NoChan);
    FirstUnusedIs(t.state, 1);
    OneArea(areas, 2);
    TwoPages();
    var sp;
    r, sp := t.Fork(0, true, true, {MMAP, MMAP + 1}, Space({}, {}), 2);
  }

  /** One populated page and one free one: the child runs, without the page. */
  method UnmappedChild() returns (t: Ptable, r: ForkResult, sp: Space)
    ensures t.Valid() && |t.state| == 2 && r == Child(1, 2) && t.state[1].RUNNABLE? && MMAP !in sp.mapped
  {
    hide Family;
    hide Pids;
    var areas := [Area(MMAPBASE, 0x1000, 0, 0, 0, 1), Area(0, 0, 0, 0, 0, 0)];
    t := new Ptable(2, areas);
    t.Move(0, RUNNING, NoChan);
    FirstUnusedIs(t.state, 1);
    OneArea(areas, 1);
    OnePage();
    r, sp := t.Fork(0, true, true, {MMAP}, Space({}, {}), 1);
    assert Elements([MMAP]) == {MMAP};
  }

  /** init and a running child of it, in a table of three. */
  method TwoProcesses() returns (t: Ptable)
    ensures fresh(t) && t.Valid() && t.init == 0 && |t.state| == 3
    ensures t.state == [RUNNING, RUNNING, UNUSED] && t.parent[1] == Some(0)
  {
    hide Family;
    hide Pids;
    t := new Ptable(3, []);
    t.Move(0, RUNNING, NoChan);
    FirstUnusedIs(t.state, 1);
    NoAreas(0);
    OnlyTables();
    var r, sp := t.Fork(0, true, true, {}, Space({}, {}), 0);
    assert t.state[1].RUNNABLE?;
    t.Move(1, RUNNING, NoChan);
  }

  /** Two pages mapped lazily, one of them touched: the copy faults on the other and the parent exits inside fork. */
  method ExitInFork() returns (t: Ptable, r: ForkResult)
    ensures t.Valid() && |t.state| == 3 && r == Exited && t.state[1].ZOMBIE? && t.state[2].EMBRYO? && t.parent[2] == Some(0)
  {
    hide Family;
    hide Pids;
    hide Need;
    t := TwoProcesses();
    var areas := [Area(MMAPBASE, 0x2000, 0, 0, 1, 1), Area(0, 0, 0, 0, 0, 0)];
    t.areas := areas;
    OneArea(areas, 2);
    TwoPages();
    FirstUnusedIs(t.state, 2);
    var sp;
    r, sp := t.Fork(1, true, true, {MMAP}, Space({}, {}), 10);
  }

  lemma LoneArea(a: Area)
    requires a.status != 0
    ensures !Room([a], a.proc)
  {
    OneCounts(a);
  }

  lemma OneArea(areas: seq<Area>, n: nat)
    requires |areas| == 2 && areas[0] == Area(MMAPBASE, n * PGSIZE, 0, 0, areas[0].proc, 1) && areas[1] == Area(0, 0, 0, 0, 0, 0)
    ensures Room(areas, areas[0].proc) && Pages(areas, areas[0].proc) == PageSeq(MMAP, n)
  {
    var rest := areas[1..];
    assert rest == [areas[1]] && rest[1..] == [];
    OneCounts(areas[1]);
    assert Live(rest, areas[0].proc) == [] && Pages(rest, areas[0].proc) == [];
  }

  lemma OnlyTables()
    ensures Need({}, []) == 0 && Fresh({}, []) && AllIn([], {})
  {
    assert Dirs([]) == {};
  }

  lemma OnePage()
    ensures PageSeq(MMAP, 1) == [MMAP] && Need({}, [MMAP]) == 2 && LastNew({}, [MMAP]) && Fresh({}, [MMAP])
  {
    OnlyTables();
    NeedSnoc({}, [], MMAP);
    assert [] + [MMAP] == [MMAP];
  }

  lemma TwoPages()
    ensures PageSeq(MMAP, 2) == [MMAP, MMAP + 1] && Need({}, [MMAP, MMAP + 1]) == 3
    ensures !LastNew({}, [MMAP, MMAP + 1]) && Fresh({}, [MMAP, MMAP + 1])
  {
    OnePage();
    NeedSnoc({}, [MMAP], MMAP + 1);
    assert [MMAP] + [MMAP + 1] == [MMAP, MMAP + 1] && [MMAP, MMAP + 1][..1] == [MMAP];
    assert MMAP in [MMAP];
    assert MMAP / NPT in Dirs([MMAP]);
  }
}
