// fork on real page tables (proc.c over vm.c and kalloc.c): the pages it takes, copies and loses.
module ForkSpace {
  import opened Common
  import opened Pages
  import opened Spaces
  import opened PageTables
  import Areas
  import Mmap
  import P = Ptable

  /** The page tables and mapped pages of space c. */
  ghost function SpaceOf(m: Mem, c: nat): P.Space
    requires Shaped(m) && c in m.dirs
  {
    P.Space(set i: nat | i < NPT && m.dirs[c][i].Maps? :: i, Present(m, c))
  }

  ghost function Present(m: Mem, d: nat): set<nat>
    requires Shaped(m)
  {
    set v: nat | v < NPAGES && View(m, d, v).Maps? :: v
  }

  lemma SpaceOfOk(m: Mem, c: nat)
    requires Shaped(m) && c in m.dirs
    ensures P.SpaceOk(SpaceOf(m, c))
  {
  }

  /** Memory when the areas begin to be copied, from the pages of d to those of c. */
  datatype Start = Start(m: Mem, ta: Owner, pa: Owner, loose: set<nat>, all: set<nat>, d: nat, c: nat)

  ghost predicate Begun(s: Start) {
    Owned(s.m, s.ta, s.pa, s.all, s.loose) && s.d in s.m.dirs && s.c in s.m.dirs && s.d != s.c
  }

  /** Every page is in exactly one place, only space c has changed, and the pages gone belong to nobody. */
  ghost predicate Accounted(vm: Vm, s: Start, gone: set<nat>)
    reads vm
  {
    && Begun(s) && vm.Valid() && vm.all == s.all && s.d in vm.dirs && s.c in vm.dirs
    && OnlyDir(s.m, s.ta, s.pa, vm.M(), vm.tabAt, vm.pageAt, s.c) && Keeps(s.m.data, vm.data)
    && vm.loose == s.loose + gone && gone !! s.loose
  }

  /** The pages vs of c hold what those of d held. */
  ghost predicate SameContents(m0: Mem, m: Mem, d: nat, c: nat, vs: seq<nat>)
    requires Shaped(m0) && Shaped(m)
  {
    forall i :: 0 <= i < |vs| ==>
      var e, g := View(m0, d, vs[i]), View(m, c, vs[i]);
      e.Maps? && g.Maps? && g.frame in m.data && (e.frame in m0.data ==> m.data[g.frame] == m0.data[e.frame])
  }

  ghost function Whole(done: seq<nat>, lost: bool): seq<nat> {
    if lost && done != [] then done[..|done| - 1] else done
  }

  /** The pages done are copied; if lost, the last of them has no table and is gone. */
  ghost predicate Forking(vm: Vm, s: Start, done: seq<nat>, lost: bool, gone: set<nat>)
    reads vm
  {
    && Accounted(vm, s, gone) && |gone| == (if lost then 1 else 0)
    && P.Copied(SpaceOf(s.m, s.c), |s.m.free|, Present(s.m, s.d), done, SpaceOf(vm.M(), s.c), |vm.free|, lost)
    && SameContents(s.m, vm.M(), s.d, s.c, Whole(done, lost))
  }

  lemma ForkingStart(vm: Vm, s: Start)
    requires Begun(s) && vm.Valid() && s == Start(vm.M(), vm.tabAt, vm.pageAt, vm.loose, vm.all, s.d, s.c)
    ensures Forking(vm, s, [], false, {})
  {
    hide Parts;
    hide TabsOwned;
    hide PagesOwned;
    hide View;
    OnlyRefl(s.m, s.ta, s.pa, s.all, s.loose, s.c);
    SpaceOfOk(s.m, s.c);
    P.CopiedNone(SpaceOf(s.m, s.c), |s.m.free|, Present(s.m, s.d));
    assert s.loose + {} == s.loose;
  }

  /** The entry of d for page v, as the processor finds it. */
  method Entry(vm: Vm, d: nat, v: nat) returns (e: Pte)
    requires vm.Valid() && d in vm.dirs && v < NPAGES
    modifies vm`free, vm`dirs, vm`tabs, vm`tabAt
    ensures vm.M() == old(vm.M()) && vm.tabAt == old(vm.tabAt) && e == View(vm.M(), d, v)
  {
    hide Parts;
    hide TabsOwned;
    hide PagesOwned;
    hide View;
    hide HasTable;
    hide OnlyDir;
    hide SameViews;
    var t := vm.Walkpgdir(d, v, false);
    if t.None? {
      return Absent;
    }
    HasView(vm.M(), d, v, t.value);
    e := vm.tabs[t.value][v % NPT];
  }

  /** A page taken and not mapped changes no space. */
  lemma SameSpaces(m: Mem, r: Mem, c: nat)
    requires Shaped(m) && Shaped(r) && SameViews(m, r) && r.dirs == m.dirs && c in m.dirs
    ensures SpaceOf(r, c) == SpaceOf(m, c)
  {
    hide View;
  }

  /** Page v mapped in c. */
  lemma SpaceMapped(m: Mem, r: Mem, c: nat, v: nat, f: nat, perm: nat)
    requires Shaped(m) && Shaped(r) && RangeMapped(m, r, c, v, 1, f, perm) && OneExact(m, r, c, v, Mapped)
    ensures SpaceOf(r, c) == P.Space(SpaceOf(m, c).tables + {v / NPT}, SpaceOf(m, c).mapped + {v})
  {
    hide View;
    assert v / NPT < NPT;
  }

  lemma ContentsMore(m0: Mem, m: Mem, r: Mem, d: nat, c: nat, vs: seq<nat>, v: nat, f: nat, perm: nat)
    requires Shaped(m0) && Shaped(m) && Shaped(r) && SameContents(m0, m, d, c, vs) && Keeps(m.data, r.data)
    requires RangeMapped(m, r, c, v, 1, f, perm) && View(m0, d, v).Maps? && f in r.data
    requires View(m0, d, v).frame in m0.data ==> r.data[f] == m0.data[View(m0, d, v).frame]
    ensures SameContents(m0, r, d, c, vs + [v])
  {
    hide View;
  }

  lemma ContentsKept(m0: Mem, m: Mem, r: Mem, d: nat, c: nat, vs: seq<nat>)
    requires Shaped(m0) && Shaped(m) && Shaped(r) && SameContents(m0, m, d, c, vs) && Keeps(m.data, r.data) && SameViews(m, r)
    ensures SameContents(m0, r, d, c, vs)
  {
    hide View;
  }

  lemma AccountedMore(vm: Vm, s: Start, m1: Mem, ta1: Owner, pa1: Owner, gone: set<nat>)
    requires Begun(s) && OnlyDir(s.m, s.ta, s.pa, m1, ta1, pa1, s.c) && OnlyDir(m1, ta1, pa1, vm.M(), vm.tabAt, vm.pageAt, s.c)
    requires Keeps(s.m.data, m1.data) && Keeps(m1.data, vm.data) && vm.Valid() && vm.all == s.all && s.d in vm.dirs && s.c in vm.dirs
    requires vm.loose == s.loose + gone && gone !! s.loose
    ensures Accounted(vm, s, gone)
  {
    hide Owned;
    OnlyTrans(s.m, s.ta, s.pa, m1, ta1, pa1, vm.M(), vm.tabAt, vm.pageAt, s.c);
    KeepsTrans(s.m.data, m1.data, vm.data);
  }

  lemma DirStays(m: Mem, ta: Owner, pa: Owner, r: Mem, rta: Owner, rpa: Owner, c: nat, d: nat)
    requires OnlyDir(m, ta, pa, r, rta, rpa, c) && d != c && d in m.dirs
    ensures d in r.dirs
  {
  }

  /** The numbers of Ptable.Copied after page v has been mapped, or has found no table. */
  lemma CountedOne(s: Start, done: seq<nat>, m1: Mem, m2: Mem, m3: Mem, v: nat, f: nat, perm: nat, got: Mapped)
    requires Begun(s) && Shaped(m1) && Shaped(m2) && Shaped(m3) && s.c in m1.dirs && s.c in m3.dirs && v < NPAGES
    requires SameViews(m1, m2) && m2.dirs == m1.dirs && |m2.free| == |m1.free| - 1 && v in Present(s.m, s.d)
    requires P.Copied(SpaceOf(s.m, s.c), |s.m.free|, Present(s.m, s.d), done, SpaceOf(m1, s.c), |m1.free|, false)
    requires OneExact(m2, m3, s.c, v, got) && got != Remap && (got == Mapped ==> RangeMapped(m2, m3, s.c, v, 1, f, perm))
    ensures P.Copied(SpaceOf(s.m, s.c), |s.m.free|, Present(s.m, s.d), done + [v], SpaceOf(m3, s.c), |m3.free|, got == NoMemory)
  {
    hide Parts;
    hide TabsOwned;
    hide PagesOwned;
    hide View;
    hide P.Copied;
    hide RangeMapped;
    hide SameViews;
    SameSpaces(m1, m2, s.c);
    var sp, sp0, present := SpaceOf(m1, s.c), SpaceOf(s.m, s.c), Present(s.m, s.d);
    assert v / NPT < NPT;
    assert m1.dirs[s.c][v / NPT].Maps? <==> v / NPT in sp.tables;
    assert v !in sp.mapped;
    if got == Mapped {
      SpaceMapped(m2, m3, s.c, v, f, perm);
      P.CopiedSnoc(sp0, |s.m.free|, present, done, sp, |m1.free|, v);
      assert v / NPT in sp.tables ==> sp.tables + {v / NPT} == sp.tables;
    } else {
      P.CopiedLost(sp0, |s.m.free|, present, done, sp, v);
    }
  }

  /** The areas as copied so far, in memory m1, and a new page f with contents page that nobody maps yet. */
  ghost predicate Taken(vm: Vm, s: Start, done: seq<nat>, m1: Mem, f: nat, page: Page)
    reads vm
  {
    && Begun(s) && Shaped(m1) && s.c in m1.dirs && s.d in m1.dirs && Keeps(s.m.data, m1.data)
    && OnlyDir(s.m, s.ta, s.pa, m1, vm.tabAt, vm.pageAt, s.c)
    && P.Copied(SpaceOf(s.m, s.c), |s.m.free|, Present(s.m, s.d), done, SpaceOf(m1, s.c), |m1.free|, false)
    && SameContents(s.m, m1, s.d, s.c, done)
    && vm.Valid() && vm.all == s.all && vm.dirs == m1.dirs && vm.tabs == m1.tabs && |vm.free| == |m1.free| - 1
    && SameViews(m1, vm.M()) && OnlyDir(m1, vm.tabAt, vm.pageAt, vm.M(), vm.tabAt, vm.pageAt, s.c)
    && f !in m1.data && vm.data == m1.data[f := page] && vm.loose == s.loose + {f} && f !in s.loose
  }

  /** mappages of the new page; out of memory it is lost, and fork does not notice. */
  method MapTaken(vm: Vm, c: nat, v: nat, f: nat, perm: nat, ghost s: Start, ghost done: seq<nat>, ghost m1: Mem, ghost page: Page)
    returns (r: P.CopyResult, ghost lost: bool, ghost gone: set<nat>)
    requires Taken(vm, s, done, m1, f, page) && c == s.c && v < NPAGES && perm / PTE_U % 2 == 1
    requires View(s.m, s.d, v).Maps?
    requires View(s.m, s.d, v).frame in s.m.data ==> page == s.m.data[View(s.m, s.d, v).frame]
    modifies vm
    ensures r in {P.AllCopied, P.Remap} && Accounted(vm, s, gone)
    ensures r == P.AllCopied ==> Forking(vm, s, done + [v], lost, gone)
    ensures r == P.Remap ==> v in SpaceOf(m1, s.c).mapped && gone == {f}
  {
    hide Parts;
    hide TabsOwned;
    hide PagesOwned;
    hide View;
    hide OnlyDir;
    hide Keeps;
    hide P.Copied;
    hide RangeMapped;
    hide SameViews;
    hide SameContents;
    ghost var m2, ta1, pa1 := vm.M(), vm.tabAt, vm.pageAt;
    lost, gone := false, {f};
    var got := vm.Mappages(c, v * PGSIZE, PGSIZE, f * PGSIZE, perm);
    ghost var m3 := vm.M();
    assert v * PGSIZE / PGSIZE == v && (v * PGSIZE + PGSIZE - 1) / PGSIZE == v && f * PGSIZE / PGSIZE == f;
    DirStays(m2, ta1, pa1, m3, vm.tabAt, vm.pageAt, c, s.d);
    OnlyTrans(m1, ta1, pa1, m2, ta1, pa1, m3, vm.tabAt, vm.pageAt, c);
    KeepsMore(m1.data, m3.data, f);
    KeepsMore(m2.data, m3.data, 0);
    if got == Mapped {
      gone := {};
      assert vm.loose == s.loose;
    }
    AccountedMore(vm, s, m1, ta1, pa1, gone);
    if got == Remap {
      SameSpaces(m1, m2, c);
      return P.Remap, lost, gone;
    }
    CountedOne(s, done, m1, m2, m3, v, f, perm, got);
    KeepsMore(m1.data, m2.data, f);
    ContentsKept(s.m, m1, m2, s.d, c, done);
    if got == Mapped {
      ContentsMore(s.m, m2, m3, s.d, c, done, v, f, perm);
    } else {
      assert (done + [v])[..|done|] == done;
    }
    r, lost := P.AllCopied, got == NoMemory;
  }

  /** One page of an area: a kalloc, the copy from the parent, and a mappages whose failure is ignored. */
  method CopyOne(vm: Vm, d: nat, c: nat, v: nat, perm: nat, ghost s: Start, ghost done: seq<nat>, ghost was: bool, ghost gone0: set<nat>)
    returns (r: P.CopyResult, ghost lost: bool, ghost gone: set<nat>)
    requires Forking(vm, s, done, was, gone0) && d == s.d && c == s.c && v < NPAGES && perm / PTE_U % 2 == 1
    modifies vm
    ensures r in {P.AllCopied, P.NoPage, P.Fault, P.Remap} && Accounted(vm, s, gone)
    ensures r == P.AllCopied ==> Forking(vm, s, done + [v], lost, gone)
    ensures r == P.NoPage ==> old(vm.free) == [] && gone == gone0 && lost == was
    ensures r == P.Fault ==> v !in Present(s.m, s.d)
    ensures r == P.Remap ==> v in SpaceOf(old(vm.M()), s.c).mapped
    ensures r in {P.Fault, P.Remap} ==> !was && |gone| == 1
  {
    hide Parts;
    hide TabsOwned;
    hide PagesOwned;
    hide View;
    hide OnlyDir;
    hide Keeps;
    hide P.Copied;
    hide SameViews;
    hide SameContents;
    ghost var m1, ta1, pa1 := vm.M(), vm.tabAt, vm.pageAt;
    lost, gone := was, gone0;
    P.LostIsLast(SpaceOf(s.m, c), |s.m.free|, Present(s.m, d), done, SpaceOf(m1, c), |vm.free|, was);
    OnlyViews(s.m, s.ta, s.pa, m1, ta1, pa1, c, s.all, s.loose, vm.loose, d, v);
    var e := Entry(vm, d, v);
    var page: Page := if e.Maps? && e.frame in vm.data then vm.data[e.frame] else [];
    var f := vm.NewPage(page);
    if f == 0 {
      return P.NoPage, lost, gone;
    }
    KeepsMore(m1.data, vm.data, f);
    if e.Absent? {
      gone := {f};
      AccountedMore(vm, s, m1, ta1, pa1, gone);
      return P.Fault, lost, gone;
    }
    if e.frame in s.m.data {
      KeptAt(s.m.data, m1.data, e.frame);
    }
    r, lost, gone := MapTaken(vm, c, v, f, perm, s, done, m1, page);
  }

  lemma ForkingCounts(vm: Vm, s: Start, done: seq<nat>, lost: bool, gone: set<nat>)
    requires Forking(vm, s, done, lost, gone)
    ensures Begun(s) && Shaped(vm.M()) && s.c in vm.dirs
    ensures P.Copied(SpaceOf(s.m, s.c), |s.m.free|, Present(s.m, s.d), done, SpaceOf(vm.M(), s.c), |vm.free|, lost)
    ensures Accounted(vm, s, gone) && |gone| <= 1
  {
  }

  /** What the areas need, against what was there when they began to be copied. */
  ghost predicate Sufficient(s: Start, vs: seq<nat>)
    requires Begun(s)
  {
    && P.AllIn(vs, Present(s.m, s.d)) && P.Fresh(SpaceOf(s.m, s.c).mapped, vs)
    && P.Enough(SpaceOf(s.m, s.c).tables, vs, |s.m.free|)
  }

  /** Why the copy stopped. */
  ghost predicate Short(r: P.CopyResult, s: Start, vs: seq<nat>)
    requires Begun(s)
  {
    && (r == P.NoPage ==> !P.Enough(SpaceOf(s.m, s.c).tables, vs, |s.m.free|))
    && (r == P.Fault ==> !P.AllIn(vs, Present(s.m, s.d)))
    && (r == P.Remap ==> !P.Fresh(SpaceOf(s.m, s.c).mapped, vs))
  }

  /** With page v next, what each way to stop says about all pages. */
  lemma MoreToCopy(s: Start, front: seq<nat>, m: Mem, lost: bool, v: nat, vs: seq<nat>)
    requires Begun(s) && Shaped(m) && s.c in m.dirs && front + [v] <= vs
    requires P.Copied(SpaceOf(s.m, s.c), |s.m.free|, Present(s.m, s.d), front, SpaceOf(m, s.c), |m.free|, lost)
    ensures m.free == [] ==> Short(P.NoPage, s, vs)
    ensures v !in Present(s.m, s.d) ==> Short(P.Fault, s, vs)
    ensures !lost && v in SpaceOf(m, s.c).mapped ==> Short(P.Remap, s, vs)
  {
    hide Parts;
    hide TabsOwned;
    hide PagesOwned;
    hide SpaceOf;
    hide Present;
    hide P.Copied;
    hide P.Enough;
    hide P.Fresh;
    var sp0, sp, present := SpaceOf(s.m, s.c), SpaceOf(m, s.c), Present(s.m, s.d);
    assert vs[|front|] == v && front <= vs;
    if m.free == [] {
      P.NotEnough(sp0, |s.m.free|, present, front, sp, lost, vs);
    }
    if !lost && v in sp.mapped {
      P.RemapNotFresh(sp0, |s.m.free|, present, front, sp, |m.free|, v, vs);
    }
  }

  /** The next page of an area, with what stopping at it means for all pages vs. */
  method CopyNext(vm: Vm, d: nat, c: nat, v: nat, perm: nat, ghost s: Start, ghost front: seq<nat>, ghost was: bool, ghost gone0: set<nat>,
                  ghost vs: seq<nat>)
    returns (r: P.CopyResult, ghost lost: bool, ghost gone: set<nat>)
    requires Forking(vm, s, front, was, gone0) && d == s.d && c == s.c && v < NPAGES && perm / PTE_U % 2 == 1 && front + [v] <= vs
    modifies vm
    ensures r in {P.AllCopied, P.NoPage, P.Fault, P.Remap} && Accounted(vm, s, gone) && |gone| <= 1 && Short(r, s, vs)
    ensures r in {P.Fault, P.Remap} ==> |gone| == 1
    ensures r == P.AllCopied ==> Forking(vm, s, front + [v], lost, gone)
  {
    hide Forking;
    hide Accounted;
    hide P.Copied;
    hide P.Enough;
    hide P.Fresh;
    hide P.AllIn;
    hide Begun;
    hide SpaceOf;
    hide Present;
    hide Vm.Valid;
    ForkingCounts(vm, s, front, was, gone0);
    MoreToCopy(s, front, vm.M(), was, v, vs);
    r, lost, gone := CopyOne(vm, d, c, v, perm, s, front, was, gone0);
    if r == P.AllCopied {
      ForkingCounts(vm, s, front + [v], lost, gone);
    }
  }

  /** The copy of one mapped area. */
  method CopyArea(vm: Vm, d: nat, c: nat, a: Area, ghost s: Start, ghost done: seq<nat>, ghost was: bool, ghost gone0: set<nat>,
                  ghost vs: seq<nat>)
    returns (r: P.CopyResult, ghost lost: bool, ghost gone: set<nat>)
    requires Forking(vm, s, done, was, gone0) && d == s.d && c == s.c && done + P.PagesOf(a) <= vs
    modifies vm
    ensures r in {P.AllCopied, P.NoPage, P.Fault, P.Remap} && Accounted(vm, s, gone) && |gone| <= 1 && Short(r, s, vs)
    ensures r in {P.Fault, P.Remap} ==> |gone| == 1
    ensures r == P.AllCopied ==> Forking(vm, s, done + P.PagesOf(a), lost, gone)
  {
    hide Forking;
    hide Accounted;
    hide Begun;
    hide Short;
    hide Vm.Valid;
    ghost var ps := P.PagesOf(a);
    lost, gone := was, gone0;
    ForkingCounts(vm, s, done, lost, gone);
    NotShort(s, vs);
    var i := 0;
    assert done + ps[..0] == done;
    while i * PGSIZE < a.length
      invariant 0 <= i <= |ps| && Forking(vm, s, done + ps[..i], lost, gone) && Accounted(vm, s, gone) && |gone| <= 1
    {
      var v := (a.addr / PGSIZE + i) % NPAGES;
      NextPage(done, ps, i, v, vs);
      r, lost, gone := CopyNext(vm, d, c, v, Mmap.Perm(a.prot), s, done + ps[..i], lost, gone, vs);
      if r != P.AllCopied {
        return;
      }
      i := i + 1;
    }
    assert ps[..i] == ps;
    r := P.AllCopied;
  }

  lemma NotShort(s: Start, vs: seq<nat>)
    requires Begun(s)
    ensures Short(P.AllCopied, s, vs) && Short(P.NoArea, s, vs)
  {
  }

  lemma NextPage(done: seq<nat>, ps: seq<nat>, i: nat, v: nat, vs: seq<nat>)
    requires i < |ps| && ps[i] == v && done + ps <= vs
    ensures done + ps[..i] + [v] == done + ps[..i + 1] <= vs
  {
    assert ps[..i] + [v] == ps[..i + 1];
    assert (done + ps)[..|done| + i + 1] == done + ps[..i + 1];
  }

  /** fork's loop over the areas of cur, as Ptable.CopyAreas, on the page tables of the child. */
  method CopyAreas(t: P.Ptable, vm: Vm, cur: nat, np: nat, d: nat, c: nat, ghost s: Start)
    returns (r: P.CopyResult, ghost gone: set<nat>)
    requires cur != np && Begun(s) && vm.Valid() && s == Start(vm.M(), vm.tabAt, vm.pageAt, vm.loose, vm.all, d, c)
    modifies t`areas, vm
    ensures Areas.PartlyForked(old(t.areas), cur, np, t.areas) && Accounted(vm, s, gone) && |gone| <= 1
    ensures r == P.AllCopied ==> t.areas == Areas.Forked(old(t.areas), cur, np, |old(t.areas)|)
    ensures var vs := P.Pages(old(t.areas), cur);
            && (r == P.AllCopied <==> Areas.Room(old(t.areas), cur) && Sufficient(s, vs))
            && (r == P.NoArea ==> !Areas.Room(old(t.areas), cur)) && Short(r, s, vs)
            && (r == P.AllCopied ==> Forking(vm, s, vs, gone != {}, gone))
            && (r == P.AllCopied ==> (gone == {} <==> P.Need(SpaceOf(s.m, s.c).tables, vs) <= |s.m.free|))
    ensures r in {P.Fault, P.Remap} ==> |gone| == 1
  {
    hide Forking;
    hide Accounted;
    hide Begun;
    hide Short;
    hide Sufficient;
    hide Vm.Valid;
    hide SpaceOf;
    hide Present;
    hide P.Copied;
    hide P.Enough;
    hide P.Fresh;
    hide P.AllIn;
    hide P.Pages;
    hide P.Need;
    hide P.PagesOf;
    hide Areas.Forked;
    hide Areas.Unowned;
    hide Areas.Live;
    hide P.AllIn;
    hide Parts;
    hide TabsOwned;
    hide PagesOwned;
    hide OnlyDir;
    hide View;
    hide SameContents;
    ghost var areas0, vs := t.areas, P.Pages(t.areas, cur);
    ghost var done: seq<nat>, lost := [], false;
    gone := {};
    ForkingStart(vm, s);
    NotShort(s, vs);
    Areas.ForkedNone(areas0, cur, np);
    var i := 0;
    assert areas0[0..] == areas0;
    while i < |t.areas|
      invariant 0 <= i <= |t.areas| == |areas0| && t.areas == Areas.Forked(areas0, cur, np, i)
      invariant |Areas.Live(areas0[..i], cur)| <= Areas.Unowned(areas0)
      invariant done + P.Pages(areas0[i..], cur) == vs && Forking(vm, s, done, lost, gone)
    {
      ForkingCounts(vm, s, done, lost, gone);
      P.SplitPages(areas0, cur, i);
      ghost var rest := P.Pages(areas0[i + 1..], cur);
      var mine, ok := t.NextArea(i, cur, np, areas0);
      if !ok {
        return P.NoArea, gone;
      }
      if mine && t.areas[i].status == 1 {
        ghost var ps := P.PagesOf(t.areas[i]);
        assert vs == done + ps + rest;
        r, lost, gone := CopyArea(vm, d, c, t.areas[i], s, done, lost, gone, vs);
        if r != P.AllCopied {
          ShortMeans(r, s, vs);
          return;
        }
        done := done + ps;
      }
      i := i + 1;
    }
    assert areas0[i..] == [] && areas0[..i] == areas0;
    P.NoAreas(cur);
    assert done == vs;
    ForkingCounts(vm, s, vs, lost, gone);
    ForkingGone(vm, s, vs, lost, gone);
    AllDone(vm, s, vs, lost, gone);
    r := P.AllCopied;
  }

  lemma AllDone(vm: Vm, s: Start, vs: seq<nat>, lost: bool, gone: set<nat>)
    requires Forking(vm, s, vs, lost, gone)
    ensures Begun(s) && Sufficient(s, vs) && (lost <==> P.Need(SpaceOf(s.m, s.c).tables, vs) > |s.m.free|)
  {
    hide P.Copied;
    P.CopiedAll(SpaceOf(s.m, s.c), |s.m.free|, Present(s.m, s.d), vs, SpaceOf(vm.M(), s.c), |vm.free|, lost);
  }

  lemma ShortMeans(r: P.CopyResult, s: Start, vs: seq<nat>)
    requires Begun(s) && Short(r, s, vs) && r in {P.NoPage, P.Fault, P.Remap}
    ensures !Sufficient(s, vs)
  {
  }

  lemma ForkingGone(vm: Vm, s: Start, done: seq<nat>, lost: bool, gone: set<nat>)
    requires Forking(vm, s, done, lost, gone)
    ensures lost <==> gone != {}
  {
  }

  /** The kernel stack and the copy of user memory: there, or nothing was taken; or copyuvm panics. */
  datatype Room = NoSlot | NoRoom | Broken | Made(stack: nat, c: nat)

  /** Every page is back where it was; the free list may have another order. */
  ghost predicate Restored(vm: Vm, m0: Mem, ta0: Owner, pa0: Owner, l0: set<nat>)
    reads vm
  {
    && vm.Valid() && vm.dirs == m0.dirs && vm.tabs == m0.tabs && vm.data == m0.data && SameFree(m0.free, vm.free)
    && vm.tabAt == ta0 && vm.pageAt == pa0 && vm.loose == l0
  }

  /** The new space c is a copy of d, the stack belongs to no space, and the rest is as before. */
  ghost predicate Prepared(vm: Vm, m0: Mem, ta0: Owner, pa0: Owner, l0: set<nat>, all: set<nat>, d: nat, sz: nat, stack: nat, c: nat)
    reads vm
  {
    && vm.Valid() && vm.all == all && Shaped(m0) && d in vm.dirs && c in vm.dirs && c !in m0.dirs && d != c
    && OnlyDir(m0, ta0, pa0, vm.M(), vm.tabAt, vm.pageAt, c) && Keeps(m0.data, vm.data)
    && CopyOf(m0, vm.M(), d, c, Up(sz), vm.dataPg)
    && stack !in m0.data && stack in vm.data && stack !in l0 && vm.loose == l0 + {stack}
    && |vm.free| + KTABLES + 2 + 2 * Up(sz) >= |m0.free|
  }

  /** A copy is one of the space as it was before a page was taken. */
  lemma CopyBefore(m1: Mem, ta: Owner, pa: Owner, all: set<nat>, loose: set<nat>, m2: Mem, m: Mem, d: nat, c: nat, n: nat,
                   dataPg: nat, f: nat)
    requires Owned(m1, ta, pa, all, loose) && Shaped(m2) && Shaped(m) && SameViews(m1, m2) && n <= KERNPG
    requires f !in m1.data && f in m2.data && m2.data == m1.data[f := m2.data[f]] && CopyOf(m2, m, d, c, n, dataPg)
    ensures CopyOf(m1, m, d, c, n, dataPg)
  {
    hide Parts;
    hide TabsOwned;
    hide PagesOwned;
    hide View;
    forall v: nat | v < n ensures View(m1, d, v).Maps? && View(m1, d, v).frame in m1.data {
      MappedData(m1, ta, pa, all, loose, d, v);
    }
  }

  /** allocproc's stack and copyuvm. */
  method Prepare(vm: Vm, d: nat, sz: nat) returns (room: Room)
    requires vm.Valid() && d in vm.dirs && sz <= KERNPG * PGSIZE
    modifies vm
    ensures !room.NoSlot? && (room.NoRoom? ==> Restored(vm, old(vm.M()), old(vm.tabAt), old(vm.pageAt), old(vm.loose)))
    ensures room.NoRoom? ==> |old(vm.free)| <= KTABLES + 2 + 2 * Up(sz)
    ensures room.Broken? ==> exists v: nat :: v < Up(sz) && View(old(vm.M()), d, v).Absent?
    ensures room.Made? ==>
              Prepared(vm, old(vm.M()), old(vm.tabAt), old(vm.pageAt), old(vm.loose), old(vm.all), d, sz, room.stack, room.c)
  {
    hide TabsOwned;
    hide PagesOwned;
    hide View;
    hide OnlyDir;
    hide CopyOf;
    hide Keeps;
    hide AllLow;
    hide SameViews;
    hide Parts;
    ghost var m1, ta1, pa1, l1 := vm.M(), vm.tabAt, vm.pageAt, vm.loose;
    var f := vm.NewPage([]);
    if f == 0 {
      SelfFree(m1.free);
      return NoRoom;
    }
    ghost var m2 := vm.M();
    KeepsMore(m1.data, m2.data, f);
    var got := vm.Copyuvm(d, sz);
    match got
    case Space(c) =>
      CopyBefore(m1, ta1, pa1, vm.all, l1, m2, vm.M(), d, c, Up(sz), vm.dataPg, f);
      OnlyTrans(m1, ta1, pa1, m2, ta1, pa1, vm.M(), vm.tabAt, vm.pageAt, c);
      DirStays(m1, ta1, pa1, vm.M(), vm.tabAt, vm.pageAt, c, d);
      KeptAt(m2.data, vm.data, f);
      KeepsTrans(m1.data, m2.data, vm.data);
      room := Made(f, c);
    case NoSpace =>
      vm.DropPage(f);
      assert vm.data == m1.data;
      SameLists(m1, ta1, pa1, vm.all, l1, vm.M(), vm.tabAt, vm.pageAt, vm.loose);
      room := NoRoom;
    case CopyPanic =>
      AbsentBefore(m1, m2, d, Up(sz));
      room := Broken;
  }

  lemma SelfFree(a: seq<nat>)
    ensures SameFree(a, a)
  {
  }

  lemma AbsentBefore(m1: Mem, m2: Mem, d: nat, n: nat)
    requires Shaped(m1) && Shaped(m2) && SameViews(m1, m2) && exists v: nat :: v < n && View(m2, d, v).Absent?
    ensures exists v: nat :: v < n && View(m1, d, v).Absent?
  {
    hide View;
    var v: nat :| v < n && View(m2, d, v).Absent?;
    assert View(m1, d, v).Absent?;
  }

  lemma SameLists(m: Mem, ta: Owner, pa: Owner, all: set<nat>, l: set<nat>, r: Mem, rta: Owner, rpa: Owner, rl: set<nat>)
    requires Owned(m, ta, pa, all, l) && Owned(r, rta, rpa, all, rl) && r.dirs == m.dirs && r.tabs == m.tabs && r.data == m.data
    ensures SameFree(m.free, r.free)
  {
    hide TabsOwned;
    hide PagesOwned;
    FreeSame(m, r, all);
  }

  lemma PreparedBegun(vm: Vm, m0: Mem, ta0: Owner, pa0: Owner, l0: set<nat>, all: set<nat>, d: nat, sz: nat, stack: nat, c: nat)
    requires Prepared(vm, m0, ta0, pa0, l0, all, d, sz, stack, c)
    ensures vm.Valid() && Begun(Start(vm.M(), vm.tabAt, vm.pageAt, vm.loose, vm.all, d, c)) && vm.all == all
  {
  }

  /** What fork makes of the process table, by the outcome c of the areas. */
  ghost predicate Told(r: P.ForkResult, c: P.CopyResult, np: nat, pid: int, init: bool) {
    match c
    case AllCopied => r == P.Child(np, pid)
    case NoArea => r == P.Refused
    case NoPage => r == P.Zero
    case Fault => r == if init then P.Panicked else P.Exited
    case Remap => r == P.Panicked
  }

  /**
   * fork by cur, whose page directory is d, on the kernel's own memory.  Without a slot, a stack or memory for
   * the copy every page is back in its place.  Otherwise the stack and the new space are there, the areas are
   * all copied exactly when the memory left suffices, and at most one page belongs to nobody any more: the one
   * whose table was missing, or the one taken for a source page that was not there.
   */
  method Fork(t: P.Ptable, vm: Vm, cur: nat, d: nat, sz: nat)
    returns (r: P.ForkResult, room: Room, ghost c: P.CopyResult, ghost s: Start, ghost gone: set<nat>)
    requires t.Valid() && cur < |t.state| && t.state[cur].RUNNING? && vm.Valid() && d in vm.dirs && sz <= KERNPG * PGSIZE
    modifies t, vm
    ensures t.Valid() && t.killed == old(t.killed) && t.chan == old(t.chan)
    ensures room.NoSlot? <==> P.FirstUnused(old(t.state), 0) == |old(t.state)|
    ensures !room.Made? ==> t.areas == old(t.areas)
    ensures room.NoSlot? || room.NoRoom? ==>
              && r == P.Refused && t.state == old(t.state) && t.parent == old(t.parent)
              && Restored(vm, old(vm.M()), old(vm.tabAt), old(vm.pageAt), old(vm.loose))
    ensures room.NoRoom? ==> |old(vm.free)| <= KTABLES + 2 + 2 * Up(sz)
    ensures room.Broken? ==> r == P.Panicked && exists v: nat :: v < Up(sz) && View(old(vm.M()), d, v).Absent?
    ensures room.Made? ==>
              var np, vs := P.FirstUnused(old(t.state), 0), P.Pages(old(t.areas), cur);
              && Begun(s) && s.d == d && s.c == room.c && s.all == old(vm.all)
              && s.loose == old(vm.loose) + {room.stack} && |s.m.free| + KTABLES + 2 + 2 * Up(sz) >= |old(vm.free)|
              && Shaped(old(vm.M())) && CopyOf(old(vm.M()), s.m, d, s.c, Up(sz), vm.dataPg)
              && Accounted(vm, s, gone) && |gone| <= 1 && Short(c, s, vs)
              && Areas.PartlyForked(old(t.areas), cur, np, t.areas)
              && (c == P.AllCopied ==> t.areas == Areas.Forked(old(t.areas), cur, np, |old(t.areas)|))
              && (c == P.AllCopied <==> Areas.Room(old(t.areas), cur) && Sufficient(s, vs))
              && (c == P.AllCopied ==> Forking(vm, s, vs, gone != {}, gone))
              && (c == P.AllCopied ==> (gone == {} <==> P.Need(SpaceOf(s.m, s.c).tables, vs) <= |s.m.free|))
              && (c in {P.Fault, P.Remap} ==> |gone| == 1)
              && Told(r, c, np, old(t.nextpid), cur == t.init)
              && (r.Child? ==> t.state == old(t.state)[np := P.RUNNABLE])
              && (r in {P.Refused, P.Zero, P.Panicked} ==> t.state == old(t.state)[np := P.EMBRYO])
              && (r != P.Exited ==> t.parent == old(t.parent)[np := Some(cur)])
  {
    hide P.Family;
    hide P.Pids;
    hide Restored;
    hide Prepared;
    hide Begun;
    hide Accounted;
    hide Forking;
    hide Short;
    hide Sufficient;
    hide Owned;
    hide View;
    hide CopyOf;
    hide Areas.Forked;
    hide Areas.PartlyForked;
    hide Areas.Room;
    hide P.Pages;
    hide P.Need;
    hide SpaceOf;
    ghost var m0, ta0, pa0, l0, all := vm.M(), vm.tabAt, vm.pageAt, vm.loose, vm.all;
    s, gone, c := Start(m0, ta0, pa0, l0, all, d, d), {}, P.NoArea;
    var slot := t.Allocslot();
    if slot.None? {
      P.FirstUnusedIs(t.state, |t.state|);
      SelfRestored(vm);
      return P.Refused, NoSlot, c, s, gone;
    }
    var np := slot.value;
    P.FirstUnusedIs(old(t.state), np);
    room := Prepare(vm, d, sz);
    if room.NoRoom? {
      t.Abandon(np);
      assert t.state == old(t.state);
      return P.Refused, room, c, s, gone;
    }
    if room.Broken? {
      return P.Panicked, room, c, s, gone;
    }
    PreparedBegun(vm, m0, ta0, pa0, l0, all, d, sz, room.stack, room.c);
    PreparedFacts(vm, m0, ta0, pa0, l0, all, d, sz, room.stack, room.c);
    s := Start(vm.M(), vm.tabAt, vm.pageAt, vm.loose, vm.all, d, room.c);
    t.SetParent(np, cur);
    var got;
    got, gone := CopyAreas(t, vm, cur, np, d, room.c, s);
    c := got;
    match got
    case NoArea => r := P.Refused;
    case NoPage => r := P.Zero;
    case Remap => r := P.Panicked;
    case Fault =>
      if cur == t.init {
        r := P.Panicked;
      } else {
        t.Exit(cur);
        r := P.Exited;
      }
    case AllCopied =>
      t.Publish(np);
      assert t.state == old(t.state)[np := P.RUNNABLE];
      r := P.Child(np, t.pid[np]);
  }

  lemma SelfRestored(vm: Vm)
    requires vm.Valid()
    ensures Restored(vm, vm.M(), vm.tabAt, vm.pageAt, vm.loose)
  {
  }

  lemma PreparedFacts(vm: Vm, m0: Mem, ta0: Owner, pa0: Owner, l0: set<nat>, all: set<nat>, d: nat, sz: nat, stack: nat, c: nat)
    requires Prepared(vm, m0, ta0, pa0, l0, all, d, sz, stack, c)
    ensures Shaped(m0) && Shaped(vm.M()) && vm.loose == l0 + {stack} && |vm.free| + KTABLES + 2 + 2 * Up(sz) >= |m0.free|
    ensures CopyOf(m0, vm.M(), d, c, Up(sz), vm.dataPg)
  {
  }

  // ----- munmap by the child -----

  /** The area munmap picks. */
  function Picked(areas: seq<Area>, addr: nat, p: nat): Option<Area> {
    var k := Mmap.FirstMine(areas, addr, p);
    if k < |areas| then Some(areas[k]) else None
  }

  /** The first of cs at addr. */
  function At(cs: seq<Area>, addr: nat): Option<Area> {
    if cs == [] then None else if cs[0].addr == addr then Some(cs[0]) else At(cs[1..], addr)
  }

  lemma {:induction false} PickedFrom(areas: seq<Area>, addr: nat, p: nat, k: nat)
    requires k <= |areas|
    ensures var i := Mmap.FirstMine(areas, addr, p, k);
      At(Areas.Live(areas[k..], p), addr) == if i < |areas| then Some(areas[i]) else None
    decreases |areas| - k
  {
    if k < |areas| {
      PickedFrom(areas, addr, p, k + 1);
      var a, rest := areas[k], areas[k + 1..];
      assert areas[k..] == [a] + rest;
      Areas.LiveCons(a, rest, p);
      if a.proc == p && a.status != 0 {
        var live := Areas.Live(areas[k..], p);
        assert live[0] == a && live[1..] == Areas.Live(rest, p);
      } else {
        assert [] + Areas.Live(rest, p) == Areas.Live(rest, p);
      }
    }
  }

  lemma {:induction false} AtGiven(cs: seq<Area>, p: nat, addr: nat)
    ensures At(Areas.Given(cs, p), addr) == match At(cs, addr) case None => None case Some(a) => Some(a.(proc := p))
  {
    if cs != [] {
      AtGiven(cs[1..], p, addr);
      assert Areas.Given(cs, p)[1..] == Areas.Given(cs[1..], p);
    }
  }

  lemma {:induction false} AtSome(cs: seq<Area>, addr: nat)
    ensures At(cs, addr).Some? <==> exists a :: a in cs && a.addr == addr
  {
    if cs != [] {
      AtSome(cs[1..], addr);
      assert forall a :: a in cs <==> a == cs[0] || a in cs[1..];
    }
  }

  /**
   * After a whole fork munmap finds an area of the child at every address at which it finds one of the
   * parent.  Unless an earlier process left areas behind in the child's slot it is the copy of that one, and
   * there are no others.
   */
  lemma ChildFinds(areas: seq<Area>, cur: nat, np: nat, addr: nat)
    requires cur != np && Areas.Room(areas, cur)
    ensures var after := Areas.Forked(areas, cur, np, |areas|);
      && Picked(after, addr, cur) == Picked(areas, addr, cur)
      && (Picked(areas, addr, cur).Some? ==> Picked(after, addr, np).Some?)
      && (Areas.Live(areas, np) == [] ==>
            Picked(after, addr, np) == match Picked(areas, addr, cur) case None => None case Some(a) => Some(a.(proc := np)))
  {
    var after, live := Areas.Forked(areas, cur, np, |areas|), Areas.Live(areas, cur);
    var cs := Areas.Given(live, np);
    Areas.ChildAreas(areas, cur, np);
    assert areas[0..] == areas && after[0..] == after;
    PickedFrom(areas, addr, cur, 0);
    PickedFrom(after, addr, cur, 0);
    PickedFrom(after, addr, np, 0);
    AtGiven(live, np, addr);
    AtSome(cs, addr);
    AtSome(Areas.Live(after, np), addr);
    forall a | a in cs
      ensures a in Areas.Live(after, np)
    {
      assert a in multiset(cs) && a in multiset(Areas.Live(after, np));
    }
  }
}
