// What an operation on one address space does (vm.c): which entries change, which pages
// come and go, and that other spaces are left alone.
module Spaces {
  import opened Common
  import opened Pages

  /** r differs from m only in what belongs to address space d. */
  ghost predicate OnlyDir(m: Mem, ta: Owner, pa: Owner, r: Mem, rta: Owner, rpa: Owner, d: nat) {
    && (forall c: nat :: c != d && c in m.dirs ==> c in r.dirs && r.dirs[c] == m.dirs[c])
    && (forall c: nat :: c != d && c in r.dirs ==> c in m.dirs)
    && (forall t: nat :: t in ta && ta[t].0 != d ==>
          t in rta && rta[t] == ta[t] && t in m.tabs && t in r.tabs && r.tabs[t] == m.tabs[t])
    && (forall t: nat :: t in rta && rta[t].0 != d ==> t in ta && ta[t] == rta[t])
    && (forall f: nat :: f in pa && pa[f].0 != d ==>
          f in rpa && rpa[f] == pa[f] && f in m.data && f in r.data && r.data[f] == m.data[f])
    && (forall f: nat :: f in rpa && rpa[f].0 != d ==> f in pa && pa[f] == rpa[f])
  }

  lemma OnlyTrans(m: Mem, ta: Owner, pa: Owner, s: Mem, sta: Owner, spa: Owner, r: Mem, rta: Owner, rpa: Owner, d: nat)
    requires OnlyDir(m, ta, pa, s, sta, spa, d) && OnlyDir(s, sta, spa, r, rta, rpa, d)
    ensures OnlyDir(m, ta, pa, r, rta, rpa, d)
  {
  }

  /** Other address spaces see the same entries. */
  lemma OnlyViews(m: Mem, ta: Owner, pa: Owner, r: Mem, rta: Owner, rpa: Owner, d: nat, all: set<nat>,
                  loose: set<nat>, rloose: set<nat>, c: nat, v: nat)
    requires Owned(m, ta, pa, all, loose) && Owned(r, rta, rpa, all, rloose)
    requires OnlyDir(m, ta, pa, r, rta, rpa, d) && c != d
    ensures View(r, c, v) == View(m, c, v)
  {
    hide Parts;
    hide PagesOwned;
    if c in m.dirs && v < NPAGES && m.dirs[c][v / NPT].Maps? {
      assert m.dirs[c][v / NPT].frame in ta;
    }
  }

  lemma OnlyRefl(m: Mem, ta: Owner, pa: Owner, all: set<nat>, loose: set<nat>, d: nat)
    requires Owned(m, ta, pa, all, loose)
    ensures OnlyDir(m, ta, pa, m, ta, pa, d) && SameViews(m, m)
  {
    hide Parts;
    hide View;
  }

  lemma OnlyTable(m: Mem, ta: Owner, pa: Owner, all: set<nat>, loose: set<nat>, d: nat, i: nat, perm: nat)
    requires Owned(m, ta, pa, all, loose) && m.free != [] && d in m.dirs && i < NPT && m.free[0] !in m.tabs
    ensures OnlyDir(m, ta, pa, AddTable(m, d, i, perm), ta[m.free[0] := (d, i)], pa, d)
  {
    hide Parts;
    hide View;
  }

  /** An entry of one of d's tables changes, and with it one page of d at most. */
  lemma OnlyPte(m: Mem, ta: Owner, pa: Owner, all: set<nat>, loose: set<nat>, d: nat, v: nat, t: nat, e: Pte,
                r: Mem, rpa: Owner, f: nat)
    requires Owned(m, ta, pa, all, loose) && HasTable(m, d, v, t)
    requires r.dirs == m.dirs && r.tabs == SetPte(m, t, v, e).tabs
    requires rpa - {f} == pa - {f} && r.data - {f} == m.data - {f}
    requires (f in pa ==> pa[f].0 == d) && (f in rpa ==> rpa[f].0 == d)
    ensures OnlyDir(m, ta, pa, r, ta, rpa, d)
  {
    hide Parts;
    hide View;
    assert ta[t] == (d, v / NPT);
    forall g: nat | g != f
      ensures g in rpa <==> g in pa
      ensures g in pa ==> rpa[g] == pa[g]
      ensures g in r.data <==> g in m.data
      ensures g in m.data ==> r.data[g] == m.data[g]
    {
      assert g in rpa - {f} <==> g in pa - {f};
      assert g in pa ==> (rpa - {f})[g] == (pa - {f})[g];
      assert g in r.data - {f} <==> g in m.data - {f};
      assert g in m.data ==> (r.data - {f})[g] == (m.data - {f})[g];
    }
  }

  datatype Mapped = Mapped | NoMemory | Remap

  /** What mapping the one page v in d takes, and exactly when it fails. */
  ghost predicate OneExact(m0: Mem, m: Mem, d: nat, v: nat, r: Mapped) {
    && Shaped(m0) && Shaped(m) && d in m0.dirs && d in m.dirs && v < NPAGES
    && (forall i :: 0 <= i < NPT && i != v / NPT ==> m.dirs[d][i] == m0.dirs[d][i])
    && (r == Mapped ==> m.dirs[d][v / NPT].Maps? && |m.free| == |m0.free| - (if m0.dirs[d][v / NPT].Absent? then 1 else 0))
    && (r == NoMemory <==> m0.dirs[d][v / NPT].Absent? && m0.free == [])
    && (r == NoMemory ==> m == m0)
    && (r == Remap <==> View(m0, d, v).Maps?)
  }

  /** Space d has n pages from first on, absent in m0, mapped to consecutive frames, and m0's entries elsewhere. */
  ghost predicate RangeMapped(m0: Mem, m: Mem, d: nat, first: nat, n: nat, frame: nat, perm: nat)
    requires Shaped(m0) && Shaped(m)
  {
    forall v: nat ::
      if first <= v < first + n then View(m, d, v) == Maps(frame + (v - first), perm) && View(m0, d, v).Absent?
      else View(m, d, v) == View(m0, d, v)
  }

  /** How many page tables the pages from first to last lie in. */
  function Tables(first: nat, last: nat): nat
    requires first <= last
  {
    last / NPT - first / NPT + 1
  }

  lemma TablesStep(first: nat, a: nat)
    requires first <= a
    ensures a == first ==> Tables(first, a) == 1
    ensures a > first ==> Tables(first, a) == Tables(first, a - 1) + (if a / NPT == (a - 1) / NPT then 0 else 1)
  {
  }

  lemma TablesGrow(first: nat, a: nat, last: nat)
    requires first <= a <= last
    ensures Tables(first, a) <= Tables(first, last)
  {
  }

  lemma RangeStart(m: Mem, d: nat, first: nat, frame: nat, perm: nat)
    requires Shaped(m)
    ensures RangeMapped(m, m, d, first, 0, frame, perm)
  {
  }

  lemma RangeMore(m0: Mem, m: Mem, s: Mem, r: Mem, d: nat, first: nat, n: nat, frame: nat, perm: nat)
    requires Shaped(m0) && Shaped(m) && Shaped(s) && Shaped(r)
    requires RangeMapped(m0, m, d, first, n, frame, perm) && SameViews(m, s)
    ensures RangeMapped(m0, s, d, first, n, frame, perm)
    ensures View(s, d, first + n).Absent? && ViewsBut(s, r, d, first + n, Maps(frame + n, perm)) ==> RangeMapped(m0, r, d, first, n + 1, frame, perm)
  {
    hide View;
  }

  /** What setupkvm maps at page v: the low megabyte, the kernel, its data and free memory, devices. */
  function KernelMap(v: nat, dataPg: nat): Pte {
    if v < KERNPG then Absent
    else if v < KERNPG + 0x100 then Maps(v - KERNPG, PTE_W)
    else if v < KERNPG + dataPg then Maps(v - KERNPG, 0)
    else if v < KERNPG + 0xE000 then Maps(v - KERNPG, PTE_W)
    else if 0xF_E000 <= v < NPAGES then Maps(v, PTE_W)
    else Absent
  }

  lemma Harmless(m: Mem, ta: Owner, pa: Owner, all: set<nat>, loose: set<nat>, d: nat, v: nat, t: nat, e: Pte)
    requires Owned(m, ta, pa, all, loose) && HasTable(m, d, v, t) && 0 !in all
    ensures OnlyDir(m, ta, pa, SetPte(m, t, v, e), ta, pa, d)
  {
    hide Parts;
    hide View;
    assert ta[t] == (d, v / NPT);
  }

  lemma HasView(m: Mem, d: nat, v: nat, t: nat)
    requires Shaped(m) && HasTable(m, d, v, t)
    ensures t in m.tabs && View(m, d, v) == m.tabs[t][v % NPT]
  {
  }

  lemma RangeOutside(m0: Mem, m: Mem, d: nat, first: nat, n: nat, frame: nat, perm: nat, v: nat)
    requires Shaped(m0) && Shaped(m) && RangeMapped(m0, m, d, first, n, frame, perm) && !(first <= v < first + n)
    ensures View(m, d, v) == View(m0, d, v)
  {
  }

  lemma FrontNonzero(m: Mem, all: set<nat>)
    requires Parts(m, all) && 0 !in all
    ensures m.free != [] ==> m.free[0] != 0 && m.free[0] in all && m.free[0] !in m.dirs && m.free[0] !in m.tabs && m.free[0] !in m.data
  {
  }

  /** PGROUNDUP, in pages. */
  function Up(sz: nat): nat { (sz + PGSIZE - 1) / PGSIZE }

  /** Space d lost its pages from lo to hi - 1, and has m0's entries elsewhere. */
  ghost predicate Unmapped(m0: Mem, m: Mem, d: nat, lo: nat, hi: nat)
    requires Shaped(m0) && Shaped(m)
  {
    forall v: nat :: View(m, d, v) == if lo <= v < hi then Absent else View(m0, d, v)
  }

  lemma UnmappedStart(m: Mem, d: nat, lo: nat, hi: nat)
    requires Shaped(m)
    ensures hi <= lo ==> Unmapped(m, m, d, lo, hi)
    ensures Unmapped(m, m, d, lo, lo)
  {
  }

  /** Unmapping a range changes nothing exactly when nothing was mapped there. */
  lemma UndoneExact(m0: Mem, m: Mem, d: nat, lo: nat, hi: nat)
    requires Shaped(m0) && Shaped(m) && Unmapped(m0, m, d, lo, hi)
    ensures (forall v: nat :: View(m, d, v) == View(m0, d, v)) <==>
      forall v: nat :: lo <= v < hi ==> View(m0, d, v).Absent?
  {
    hide View;
    if forall v: nat :: View(m, d, v) == View(m0, d, v) {
      forall v: nat | lo <= v < hi
        ensures View(m0, d, v).Absent?
      {
        assert View(m, d, v) == View(m0, d, v);
      }
    }
  }

  lemma UnmapMore(m0: Mem, m: Mem, r: Mem, d: nat, lo: nat, a: nat)
    requires Shaped(m0) && Shaped(m) && Shaped(r) && Unmapped(m0, m, d, lo, a) && lo <= a
    requires ViewsBut(m, r, d, a, Absent) || (r == m && View(m, d, a).Absent?)
    ensures Unmapped(m0, r, d, lo, a + 1)
  {
    hide View;
  }

  lemma UnmapInAll(m: Mem, all: set<nat>, f: nat)
    requires Parts(m, all) && f in m.data
    ensures f in all && f !in m.dirs && f !in m.tabs
  {
  }

  /** Without a table there is nothing to unmap up to the next directory entry. */
  lemma SkipTable(m0: Mem, m: Mem, d: nat, lo: nat, a: nat)
    requires Shaped(m0) && Shaped(m) && Unmapped(m0, m, d, lo, a) && lo <= a
    requires d in m.dirs && a < NPAGES && m.dirs[d][a / NPT].Absent?
    ensures forall hi: nat :: a <= hi <= (a / NPT + 1) * NPT ==> Unmapped(m0, m, d, lo, hi)
  {
    forall v: nat | a <= v < (a / NPT + 1) * NPT
      ensures View(m, d, v).Absent?
    {
      assert v / NPT == a / NPT;
    }
  }

  // ----- Freeing an address space -----

  function TabsOf(ta: Owner, d: nat): set<nat> { set t | t in ta && ta[t].0 == d }

  function PagesOf(pa: Owner, d: nat): set<nat> { set f | f in pa && pa[f].0 == d }

  function LowPages(pa: Owner, d: nat): set<nat> { set f | f in pa && pa[f].0 == d && pa[f].1 < KERNPG }

  lemma ClearedNone(m: Mem, d: nat)
    requires Shaped(m) && d in m.dirs
    ensures |m.dirs[d]| == NPT && Disregard(m, d, 0) == m
  {
    assert Cleared(m.dirs[d], 0) == m.dirs[d];
  }

  lemma DirInAll(m: Mem, all: set<nat>, d: nat)
    requires Parts(m, all) && d in m.dirs
    ensures d in all && d !in m.tabs && d !in m.data
  {
  }

  lemma TabInAll(m: Mem, all: set<nat>, t: nat)
    requires Parts(m, all) && t in m.tabs
    ensures t in all && t !in m.dirs && t !in m.data
  {
  }

  /** Unmapping all of user memory frees exactly d's pages below KERNBASE. */
  lemma LowGone(m0: Mem, ta: Owner, pa0: Owner, all: set<nat>, loose: set<nat>, m1: Mem, pa1: Owner, d: nat)
    requires Owned(m0, ta, pa0, all, loose) && Owned(m1, ta, pa1, all, loose) && d in m0.dirs
    requires OnlyDir(m0, ta, pa0, m1, ta, pa1, d) && Unmapped(m0, m1, d, 0, KERNPG)
    requires pa1.Keys <= pa0.Keys && (forall f: nat :: f in pa1 ==> pa1[f] == pa0[f])
    requires m1.data.Keys <= m0.data.Keys && (forall f: nat :: f in m1.data ==> m1.data[f] == m0.data[f])
    ensures m1.data == m0.data - LowPages(pa0, d)
  {
    hide View;
    hide Parts;
    hide TabsOwned;
    forall f: nat | f in pa0
      ensures f in pa1 <==> f !in LowPages(pa0, d)
    {
      assert MapsTo(m0, pa0[f].0, pa0[f].1, f);
      assert f in pa1 ==> MapsTo(m1, pa1[f].0, pa1[f].1, f);
    }
    assert m1.data.Keys == m0.data.Keys - LowPages(pa0, d);
  }

  lemma OnlyDrop(m: Mem, ta: Owner, pa: Owner, all: set<nat>, loose: set<nat>, d: nat, i: nat)
    requires Owned(m, ta, pa, all, loose) && d in m.dirs && i < NPT && m.dirs[d][i].Maps?
    ensures OnlyDir(m, ta, pa, DropTable(m, d, i), ta - {m.dirs[d][i].frame}, Without(pa, d, i), d)
  {
    hide Parts;
    hide View;
    assert ta[m.dirs[d][i].frame] == (d, i);
  }

  /** Table page t is freed; the directory still has its entry. */
  function Turn(m: Mem, t: nat): Mem {
    m.(free := [t] + m.free, tabs := m.tabs - {t})
  }

  lemma TurnIsDrop(m: Mem, d: nat, i: nat)
    requires d in m.dirs && |m.dirs[d]| == NPT && i < NPT && m.dirs[d][i].Maps?
    ensures Disregard(m, d, i).dirs[d][i] == m.dirs[d][i]
    ensures Disregard(Turn(m, m.dirs[d][i].frame), d, i + 1) == DropTable(Disregard(m, d, i), d, i)
  {
    assert Cleared(m.dirs[d], i)[i := Absent] == Cleared(m.dirs[d], i + 1);
  }

  lemma TurnSkip(m: Mem, d: nat, i: nat)
    requires d in m.dirs && |m.dirs[d]| == NPT && i < NPT && m.dirs[d][i].Absent?
    ensures Disregard(m, d, i + 1) == Disregard(m, d, i)
  {
    assert Cleared(m.dirs[d], i) == Cleared(m.dirs[d], i + 1);
  }

  lemma TurnOwned(m: Mem, ta: Owner, pa: Owner, all: set<nat>, loose: set<nat>, d: nat, i: nat)
    requires d in m.dirs && |m.dirs[d]| == NPT && i < NPT && m.dirs[d][i].Maps?
    requires Owned(Disregard(m, d, i), ta, pa, all, loose)
    ensures var t := m.dirs[d][i].frame;
      && Owned(Disregard(Turn(m, t), d, i + 1), ta - {t}, Without(pa, d, i), all, loose + Lost(pa, d, i))
      && t in all && t !in m.dirs && t !in m.data
  {
    hide Owned;
    hide DropTable;
    hide View;
    TurnIsDrop(m, d, i);
    var v := Disregard(m, d, i);
    OwnedShaped(v, ta, pa, all, loose);
    DropTableOwned(v, ta, pa, all, loose, d, i);
    TabInAll(v, all, m.dirs[d][i].frame);
  }

  lemma OwnedShaped(m: Mem, ta: Owner, pa: Owner, all: set<nat>, loose: set<nat>)
    requires Owned(m, ta, pa, all, loose)
    ensures Shaped(m) && Parts(m, all)
  {
  }

  lemma TurnOnly(m: Mem, ta: Owner, pa: Owner, all: set<nat>, loose: set<nat>, d: nat, i: nat)
    requires d in m.dirs && |m.dirs[d]| == NPT && i < NPT && m.dirs[d][i].Maps?
    requires Owned(Disregard(m, d, i), ta, pa, all, loose)
    ensures var t := m.dirs[d][i].frame;
      OnlyDir(Disregard(m, d, i), ta, pa, Disregard(Turn(m, t), d, i + 1), ta - {t}, Without(pa, d, i), d)
  {
    hide Owned;
    hide OnlyDir;
    TurnIsDrop(m, d, i);
    OnlyDrop(Disregard(m, d, i), ta, pa, all, loose, d, i);
  }

  lemma OnlyGone(m0: Mem, ta0: Owner, pa0: Owner, m: Mem, ta: Owner, pa: Owner, d: nat)
    requires OnlyDir(m0, ta0, pa0, m, ta, pa, d)
    ensures OnlyDir(m0, ta0, pa0, DropDir(m, d), ta, pa, d)
  {
  }

  lemma FreedTabs(m0: Mem, ta0: Owner, pa0: Owner, m: Mem, ta: Owner, pa: Owner, d: nat)
    requires Shaped(m0) && Shaped(m) && TabsOwned(m0, ta0) && TabsOwned(m, ta) && OnlyDir(m0, ta0, pa0, m, ta, pa, d)
    requires d !in m.dirs
    ensures m.tabs == m0.tabs - TabsOf(ta0, d) && ta == ta0 - TabsOf(ta0, d)
  {
    forall t: nat
      ensures t in ta <==> t in ta0 && ta0[t].0 != d
    {
    }
    assert ta == ta0 - TabsOf(ta0, d);
    assert m.tabs.Keys == m0.tabs.Keys - TabsOf(ta0, d);
  }

  lemma FreedPages(m0: Mem, ta0: Owner, pa0: Owner, l0: set<nat>, m: Mem, ta: Owner, pa: Owner, loose: set<nat>, d: nat)
    requires Shaped(m0) && Shaped(m) && PagesOwned(m0, pa0, l0) && PagesOwned(m, pa, loose)
    requires OnlyDir(m0, ta0, pa0, m, ta, pa, d) && d !in m.dirs && m.data == m0.data - LowPages(pa0, d)
    ensures pa == pa0 - PagesOf(pa0, d)
    ensures loose == l0 + (PagesOf(pa0, d) - LowPages(pa0, d))
  {
    forall f: nat
      ensures f in pa <==> f in pa0 && pa0[f].0 != d
    {
      assert f in pa ==> MapsTo(m, pa[f].0, pa[f].1, f);
    }
    hide View;
    assert pa == pa0 - PagesOf(pa0, d);
    assert loose == m.data.Keys - pa.Keys && l0 == m0.data.Keys - pa0.Keys;
  }

  lemma Freed(m0: Mem, ta0: Owner, pa0: Owner, all: set<nat>, l0: set<nat>, m: Mem, ta: Owner, pa: Owner, loose: set<nat>, d: nat)
    requires Owned(m0, ta0, pa0, all, l0) && Owned(m, ta, pa, all, loose) && OnlyDir(m0, ta0, pa0, m, ta, pa, d)
    requires m.dirs == m0.dirs - {d} && m.data == m0.data - LowPages(pa0, d)
    ensures m.tabs == m0.tabs - TabsOf(ta0, d) && ta == ta0 - TabsOf(ta0, d)
    ensures pa == pa0 - PagesOf(pa0, d)
    ensures loose == l0 + (PagesOf(pa0, d) - LowPages(pa0, d))
  {
    hide Parts;
    hide TabsOwned;
    hide PagesOwned;
    hide OnlyDir;
    FreedTabs(m0, ta0, pa0, m, ta, pa, d);
    FreedPages(m0, ta0, pa0, l0, m, ta, pa, loose, d);
  }

  // ----- Building an address space -----

  lemma SelfOnly(m: Mem, ta: Owner, pa: Owner, all: set<nat>, loose: set<nat>)
    requires Owned(m, ta, pa, all, loose)
    ensures SameViews(m, m) && forall d: nat :: OnlyDir(m, ta, pa, m, ta, pa, d)
  {
    hide OnlyDir;
    hide Owned;
    forall d: nat
      ensures OnlyDir(m, ta, pa, m, ta, pa, d)
    {
      OnlyRefl(m, ta, pa, all, loose, d);
    }
    OnlyRefl(m, ta, pa, all, loose, 0);
  }

  lemma TakeOnly(m: Mem, ta: Owner, pa: Owner, all: set<nat>, loose: set<nat>, page: Page)
    requires Owned(m, ta, pa, all, loose) && m.free != [] && m.free[0] !in m.data
    ensures forall d: nat :: OnlyDir(m, ta, pa, TakePage(m, page), ta, pa, d)
  {
    hide Parts;
    hide View;
  }

  lemma GiveOnly(m: Mem, ta: Owner, pa: Owner, all: set<nat>, loose: set<nat>, f: nat)
    requires Owned(m, ta, pa, all, loose) && f in loose
    ensures forall d: nat :: OnlyDir(m, ta, pa, GivePage(m, f), ta, pa, d)
  {
    hide Parts;
    hide View;
  }

  lemma OnlyNew(m: Mem, ta: Owner, pa: Owner, all: set<nat>, loose: set<nat>)
    requires Owned(m, ta, pa, all, loose) && m.free != []
    ensures OnlyDir(m, ta, pa, AddDir(m), ta, pa, m.free[0])
  {
    hide Parts;
    hide View;
  }

  /** The kernel's four regions: address, physical start and end, permission. */
  function Kmap(k: nat, dataPg: nat): (nat, nat, nat, nat)
    requires k < 4
  {
    if k == 0 then (0x8000_0000, 0, 0x10_0000, PTE_W)
    else if k == 1 then (0x8010_0000, 0x10_0000, dataPg * PGSIZE, 0)
    else if k == 2 then (0x8000_0000 + dataPg * PGSIZE, dataPg * PGSIZE, 0xE00_0000, PTE_W)
    else (0xFE00_0000, 0xFE00_0000, 0, PTE_W)
  }

  const KTABLES: nat := 68   // page tables that setupkvm may need

  /** A bound on the tables of the first k regions. */
  function RegionTables(k: nat, dataPg: nat): nat {
    if k == 0 then 0 else if k == 1 then 1
    else if k == 2 then 2 + dataPg / NPT else if k == 3 then 60 else KTABLES
  }

  lemma RegionStep(k: nat, dataPg: nat)
    requires k < 4 && 0x100 < dataPg < 0xE000
    ensures var (virt, start, end, perm) := Kmap(k, dataPg);
      var first, last := virt / PGSIZE, (virt + (end - start) % (NPAGES * PGSIZE) - 1) / PGSIZE;
      && first <= last && RegionTables(k, dataPg) + Tables(first, last) <= RegionTables(k + 1, dataPg) <= KTABLES
      && start % PGSIZE == 0 && (end - start) % (NPAGES * PGSIZE) > 0
      && virt + (end - start) % (NPAGES * PGSIZE) <= NPAGES * PGSIZE
      && first >= KERNPG && !Owning(first, Maps(start / PGSIZE, perm))
  {
  }

  lemma RegionEnds(dataPg: nat)
    ensures RegionTables(0, dataPg) == 0 && RegionTables(4, dataPg) == KTABLES
    ensures Limit(0, dataPg) == KERNPG && Limit(4, dataPg) == NPAGES
  {
  }

  /** The first page past region k - 1. */
  function Limit(k: nat, dataPg: nat): nat {
    if k == 0 then KERNPG else if k == 1 then KERNPG + 0x100
    else if k == 2 then KERNPG + dataPg else if k == 3 then KERNPG + 0xE000 else NPAGES
  }

  /** Space d has the kernel's mappings below page n and nothing else. */
  ghost predicate IsKernel(m: Mem, d: nat, n: nat, dataPg: nat)
    requires Shaped(m)
  {
    forall v: nat :: View(m, d, v) == if v < n then KernelMap(v, dataPg) else Absent
  }

  lemma KernelStart(m: Mem, d: nat, dataPg: nat)
    requires Shaped(m) && d in m.dirs && m.dirs[d] == Zeros()
    ensures IsKernel(m, d, KERNPG, dataPg)
  {
  }

  lemma KernelMore(m: Mem, r: Mem, d: nat, k: nat, dataPg: nat, got: Mapped)
    requires Shaped(m) && Shaped(r) && k < 4 && 0x100 < dataPg < 0xE000 && IsKernel(m, d, Limit(k, dataPg), dataPg)
    requires got != NoMemory
    requires var (virt, start, end, perm) := Kmap(k, dataPg);
      var first, last := virt / PGSIZE, (virt + (end - start) % (NPAGES * PGSIZE) - 1) / PGSIZE;
      if got == Mapped then first <= last && RangeMapped(m, r, d, first, last - first + 1, start / PGSIZE, perm)
      else exists v: nat :: first <= v <= last && View(m, d, v).Maps?
    ensures got == Mapped && IsKernel(r, d, Limit(k + 1, dataPg), dataPg)
  {
    hide View;
  }

  lemma RestoredTabs(m0: Mem, ta0: Owner, pa0: Owner, m: Mem, ta: Owner, pa: Owner, d: nat)
    requires Shaped(m0) && Shaped(m) && TabsOwned(m0, ta0) && TabsOwned(m, ta)
    requires OnlyDir(m0, ta0, pa0, m, ta, pa, d) && d !in m0.dirs
    ensures m.dirs - {d} == m0.dirs && m.tabs - TabsOf(ta, d) == m0.tabs && ta - TabsOf(ta, d) == ta0
  {
    forall t: nat
      ensures t in ta0 <==> t in ta && ta[t].0 != d
    {
    }
    assert m.dirs - {d} == m0.dirs;
    assert ta - TabsOf(ta, d) == ta0;
    assert m.tabs - TabsOf(ta, d) == m0.tabs;
  }

  lemma RestoredPages(m0: Mem, ta0: Owner, pa0: Owner, l0: set<nat>, m: Mem, ta: Owner, pa: Owner, d: nat)
    requires Shaped(m0) && Shaped(m) && PagesOwned(m0, pa0, l0) && PagesOwned(m, pa, l0)
    requires OnlyDir(m0, ta0, pa0, m, ta, pa, d) && d !in m0.dirs
    requires forall f: nat :: f in l0 && f in m.data && f in m0.data ==> m.data[f] == m0.data[f]
    ensures pa - PagesOf(pa, d) == pa0 && m.data - PagesOf(pa, d) == m0.data
  {
    forall f: nat
      ensures f in pa0 <==> f in pa && pa[f].0 != d
    {
      assert f in pa0 ==> MapsTo(m0, pa0[f].0, pa0[f].1, f);
    }
    hide View;
    assert pa - PagesOf(pa, d) == pa0;
    assert m.data - PagesOf(pa, d) == m0.data;
  }

  lemma NoPages(m: Mem, ta: Owner, pa: Owner, all: set<nat>, loose: set<nat>, d: nat)
    requires Owned(m, ta, pa, all, loose) && d !in m.dirs
    ensures PagesOf(pa, d) == {} && LowPages(pa, d) == {}
  {
    hide Parts;
    forall f: nat | f in pa
      ensures pa[f].0 != d
    {
      assert MapsTo(m, pa[f].0, pa[f].1, f);
    }
  }

  /** Taking away a space made since m0 gives m0 back. */
  lemma Restored(m0: Mem, ta0: Owner, pa0: Owner, all: set<nat>, l0: set<nat>, m: Mem, ta: Owner, pa: Owner, loose: set<nat>, d: nat)
    requires Owned(m0, ta0, pa0, all, l0) && Owned(m, ta, pa, all, loose) && loose == l0
    requires OnlyDir(m0, ta0, pa0, m, ta, pa, d) && d !in m0.dirs
    requires forall f: nat :: f in l0 && f in m.data && f in m0.data ==> m.data[f] == m0.data[f]
    ensures m.dirs - {d} == m0.dirs && m.tabs - TabsOf(ta, d) == m0.tabs && ta - TabsOf(ta, d) == ta0
    ensures pa - PagesOf(pa, d) == pa0 && m.data - PagesOf(pa, d) == m0.data
  {
    hide Parts;
    hide TabsOwned;
    hide PagesOwned;
    hide OnlyDir;
    RestoredTabs(m0, ta0, pa0, m, ta, pa, d);
    RestoredPages(m0, ta0, pa0, l0, m, ta, pa, d);
  }

  // ----- Growing an address space -----

  datatype Grown = Size(sz: nat) | OutOfMemory | Remapped

  function ZeroPage(): Page { seq(PGSIZE, _ => 0) }

  /** after has all of before's pages, with the same contents. */
  ghost predicate Keeps(before: map<nat, Page>, after: map<nat, Page>) {
    forall f: nat :: f in before ==> f in after && after[f] == before[f]
  }

  /** Space d gained zeroed, writable pages from lo to hi - 1, which m0 did not have. */
  ghost predicate Zeroed(m0: Mem, m: Mem, d: nat, lo: nat, hi: nat)
    requires Shaped(m0) && Shaped(m)
  {
    forall v: nat ::
      if lo <= v < hi then
        var e := View(m, d, v);
        e.Maps? && e.perm == PTE_W + PTE_U && e.frame !in m0.data && e.frame in m.data && m.data[e.frame] == ZeroPage()
      else View(m, d, v) == View(m0, d, v)
  }

  /** The pages owned since pa0 are those of d from lo to hi - 1. */
  ghost predicate Gained(pa0: Owner, pa: Owner, d: nat, lo: nat, hi: nat) {
    && (forall f: nat :: f in pa0 ==> f in pa && pa[f] == pa0[f])
    && (forall f: nat :: f in pa && f !in pa0 ==> pa[f].0 == d && lo <= pa[f].1 < hi)
  }

  lemma ZeroedStart(m: Mem, d: nat, lo: nat)
    requires Shaped(m)
    ensures Zeroed(m, m, d, lo, lo) && Keeps(m.data, m.data)
  {
  }

  lemma ZeroedKeep(m0: Mem, m: Mem, r: Mem, d: nat, lo: nat, a: nat)
    requires Shaped(m0) && Shaped(m) && Shaped(r) && Zeroed(m0, m, d, lo, a) && Keeps(m0.data, m.data)
    requires SameViews(m, r) || forall v: nat :: View(r, d, v) == View(m, d, v)
    requires Keeps(m.data, r.data)
    ensures Zeroed(m0, r, d, lo, a) && Keeps(m0.data, r.data)
  {
    hide View;
  }

  lemma ZeroedMore(m0: Mem, m: Mem, r: Mem, d: nat, lo: nat, a: nat, f: nat)
    requires Shaped(m0) && Shaped(m) && Shaped(r) && Zeroed(m0, m, d, lo, a) && lo <= a
    requires RangeMapped(m, r, d, a, 1, f, PTE_W + PTE_U) && r.data == m.data
    requires f in m.data && m.data[f] == ZeroPage() && f !in m0.data
    ensures Zeroed(m0, r, d, lo, a + 1)
  {
    hide View;
  }

  lemma ZeroedOutside(m0: Mem, m: Mem, d: nat, lo: nat, a: nat, v: nat)
    requires Shaped(m0) && Shaped(m) && Zeroed(m0, m, d, lo, a) && !(lo <= v < a)
    ensures View(m, d, v) == View(m0, d, v)
  {
  }

  lemma RangeKeep(m0: Mem, m: Mem, r: Mem, d: nat, first: nat, n: nat, frame: nat, perm: nat)
    requires Shaped(m0) && Shaped(m) && Shaped(r) && RangeMapped(m0, m, d, first, n, frame, perm) && SameViews(m, r)
    ensures RangeMapped(m0, r, d, first, n, frame, perm)
  {
    hide View;
  }

  lemma RangeJoin(m0: Mem, m: Mem, r: Mem, d: nat, first: nat, n: nat, frame: nat, perm: nat)
    requires Shaped(m0) && Shaped(m) && Shaped(r) && RangeMapped(m0, m, d, first, n, frame, perm)
    requires RangeMapped(m, r, d, first + n, 1, frame + n, perm)
    ensures RangeMapped(m0, r, d, first, n + 1, frame, perm)
  {
    hide View;
  }

  lemma RangeNone(m0: Mem, m: Mem, d: nat, first: nat, frame: nat, perm: nat)
    requires Shaped(m0) && Shaped(m) && RangeMapped(m0, m, d, first, 0, frame, perm)
    ensures forall v: nat :: View(m, d, v) == View(m0, d, v)
  {
  }

  lemma UndoViews(m0: Mem, m1: Mem, m: Mem, d: nat, lo: nat, a: nat, hi: nat)
    requires Shaped(m0) && Shaped(m1) && Shaped(m) && Zeroed(m0, m1, d, lo, a) && a <= hi
    requires Unmapped(m1, m, d, lo, hi)
    ensures Unmapped(m0, m, d, lo, hi)
  {
    hide View;
  }

  lemma UnmappedKeep(m0: Mem, m: Mem, r: Mem, d: nat, lo: nat, hi: nat)
    requires Shaped(m0) && Shaped(m) && Shaped(r) && Unmapped(m0, m, d, lo, hi) && SameViews(m, r)
    ensures Unmapped(m0, r, d, lo, hi)
  {
    hide View;
  }

  /** Apart from loose pages, m holds nothing m0 did not hold. */
  ghost predicate Undone(m0: Mem, m: Mem, more: set<nat>) {
    forall g: nat :: g in m.data && g !in more ==> g in m0.data && m.data[g] == m0.data[g]
  }

  lemma UndoKeeps(m0: Mem, m: Mem, more: set<nat>)
    requires Undone(m0, m, more)
    ensures more == {} ==> Keeps(m.data, m0.data)
  {
  }

  lemma UndoDrop(m0: Mem, m: Mem, r: Mem, f: nat)
    requires Undone(m0, m, {f}) && r.data == m.data - {f}
    ensures Keeps(r.data, m0.data)
  {
  }

  lemma UndoData(m0: Mem, ta0: Owner, pa0: Owner, all: set<nat>, l0: set<nat>, m1: Mem, pa1: Owner,
                 m: Mem, ta: Owner, pa: Owner, loose: set<nat>, d: nat, lo: nat, a: nat, hi: nat)
    requires Owned(m0, ta0, pa0, all, l0) && Owned(m, ta, pa, all, loose) && l0 <= loose && a <= hi
    requires Shaped(m1) && Unmapped(m1, m, d, lo, hi) && Keeps(m0.data, m1.data) && Gained(pa0, pa1, d, lo, a)
    requires pa.Keys <= pa1.Keys && (forall f: nat :: f in pa ==> pa[f] == pa1[f])
    requires m.data.Keys <= m1.data.Keys && (forall f: nat :: f in m.data ==> m.data[f] == m1.data[f])
    ensures Undone(m0, m, loose - l0)
  {
    hide Parts;
    hide TabsOwned;
    hide View;
    forall g: nat | g in m.data && g !in loose - l0
      ensures g in m0.data && m.data[g] == m0.data[g]
    {
      assert g in pa ==> MapsTo(m, pa[g].0, pa[g].1, g);
      assert g in pa0 || g in l0;
    }
  }

  lemma KeepsMore(before: map<nat, Page>, after: map<nat, Page>, f: nat)
    requires after == before || (f !in before && f in after && after == before[f := after[f]])
    ensures Keeps(before, after)
  {
  }

  lemma NotKept(before: map<nat, Page>, after: map<nat, Page>, f: nat)
    requires Keeps(before, after) && f !in after
    ensures f !in before
  {
  }

  lemma GainedMore(pa0: Owner, pa: Owner, qa: Owner, d: nat, lo: nat, a: nat, f: nat)
    requires Gained(pa0, pa, d, lo, a) && lo <= a && f !in pa && qa == pa[f := (d, a)]
    ensures Gained(pa0, qa, d, lo, a + 1)
  {
  }

  // ----- Copying an address space -----

  datatype Copied = Space(c: nat) | NoSpace | CopyPanic

  /** Space c has, below page n, pages of its own equal to d's in m0, and the kernel's mappings. */
  ghost predicate CopyOf(m0: Mem, m: Mem, d: nat, c: nat, n: nat, dataPg: nat)
    requires Shaped(m0) && Shaped(m)
  {
    forall v: nat ::
      if v < n then
        var e, g := View(m0, d, v), View(m, c, v);
        && e.Maps? && g.Maps? && g.perm == e.perm && e.frame in m0.data
        && g.frame !in m0.data && g.frame in m.data && m.data[g.frame] == m0.data[e.frame]
      else View(m, c, v) == KernelMap(v, dataPg)
  }

  ghost predicate AllLow(pa: Owner, c: nat) {
    forall f: nat :: f in pa && pa[f].0 == c ==> pa[f].1 < KERNPG
  }

  lemma CopyStart(m0: Mem, ta0: Owner, pa0: Owner, all: set<nat>, l0: set<nat>, m: Mem, d: nat, c: nat, dataPg: nat)
    requires Owned(m0, ta0, pa0, all, l0) && Shaped(m) && c !in m0.dirs && m.data == m0.data
    requires IsKernel(m, c, NPAGES, dataPg) && dataPg < 0xE000
    ensures CopyOf(m0, m, d, c, 0, dataPg) && Keeps(m0.data, m.data) && AllLow(pa0, c)
  {
    hide Parts;
    hide View;
    NoPages(m0, ta0, pa0, all, l0, c);
    assert forall f: nat :: f in pa0 && pa0[f].0 == c ==> f in PagesOf(pa0, c);
    forall v: nat
      ensures View(m, c, v) == KernelMap(v, dataPg)
    {
      assert v >= NPAGES ==> KernelMap(v, dataPg) == Absent;
    }
  }

  lemma CopyKeep(m0: Mem, m: Mem, r: Mem, d: nat, c: nat, n: nat, dataPg: nat)
    requires Shaped(m0) && Shaped(m) && Shaped(r) && CopyOf(m0, m, d, c, n, dataPg) && SameViews(m, r) && Keeps(m.data, r.data)
    ensures CopyOf(m0, r, d, c, n, dataPg)
  {
    hide View;
  }

  lemma CopyFresh(m0: Mem, m: Mem, d: nat, c: nat, n: nat, dataPg: nat)
    requires Shaped(m0) && Shaped(m) && CopyOf(m0, m, d, c, n, dataPg) && n < KERNPG
    ensures View(m, c, n).Absent?
  {
  }

  lemma CopyMore(m0: Mem, m: Mem, r: Mem, d: nat, c: nat, n: nat, f: nat, dataPg: nat, page: Page, perm: nat)
    requires Shaped(m0) && Shaped(m) && Shaped(r) && CopyOf(m0, m, d, c, n, dataPg) && r.data == m.data
    requires RangeMapped(m, r, c, n, 1, f, perm) && f !in m0.data && f in m.data && m.data[f] == page
    requires View(m0, d, n).Maps? && View(m0, d, n).perm == perm
    requires View(m0, d, n).frame in m0.data && m0.data[View(m0, d, n).frame] == page
    ensures CopyOf(m0, r, d, c, n + 1, dataPg)
  {
    hide View;
  }

  lemma LowMore(pa: Owner, qa: Owner, c: nat, a: nat, f: nat)
    requires AllLow(pa, c) && qa == pa[f := (c, a)] && a < KERNPG
    ensures AllLow(qa, c)
  {
  }

  lemma KeepsTrans(a: map<nat, Page>, b: map<nat, Page>, c: map<nat, Page>)
    requires Keeps(a, b) && Keeps(b, c)
    ensures Keeps(a, c)
  {
  }

  lemma KeepsLess(a: map<nat, Page>, b: map<nat, Page>, c: map<nat, Page>, f: nat)
    requires Keeps(a, b) && f !in a && c == b - {f}
    ensures Keeps(a, c)
  {
  }

  lemma KeptAt(a: map<nat, Page>, b: map<nat, Page>, f: nat)
    requires Keeps(a, b) && f in a
    ensures f in b && b[f] == a[f]
  {
  }

  lemma MappedData(m: Mem, ta: Owner, pa: Owner, all: set<nat>, loose: set<nat>, d: nat, v: nat)
    requires Owned(m, ta, pa, all, loose) && v < KERNPG && View(m, d, v).Maps?
    ensures View(m, d, v).frame in m.data
  {
    hide View;
    hide Parts;
    hide TabsOwned;
  }

  lemma OnlyStill(m: Mem, ta: Owner, pa: Owner, r: Mem, rta: Owner, rpa: Owner, c: nat, d: nat)
    requires OnlyDir(m, ta, pa, r, rta, rpa, c) && d in m.dirs && c !in m.dirs
    ensures d != c && d in r.dirs
  {
  }

  // ----- Free pages -----

  /** The free lists hold the same pages. */
  ghost predicate SameFree(a: seq<nat>, b: seq<nat>) {
    forall f: nat :: f in a <==> f in b
  }

  lemma FreeSame(m0: Mem, m: Mem, all: set<nat>)
    requires Parts(m0, all) && Parts(m, all)
    requires m.dirs.Keys == m0.dirs.Keys && m.tabs.Keys == m0.tabs.Keys && m.data.Keys == m0.data.Keys
    ensures SameFree(m0.free, m.free)
  {
    forall f: nat
      ensures f in m0.free <==> f in m.free
    {
      assert f in m.dirs.Keys <==> f in m0.dirs.Keys;
      assert f in m.tabs.Keys <==> f in m0.tabs.Keys;
      assert f in m.data.Keys <==> f in m0.data.Keys;
    }
  }

  /** A space whose entries from KERNBASE up are the kernel's owns no page up there. */
  lemma KernelLow(m: Mem, ta: Owner, pa: Owner, all: set<nat>, loose: set<nat>, d: nat, dataPg: nat)
    requires Owned(m, ta, pa, all, loose) && forall v: nat :: v >= KERNPG ==> View(m, d, v) == KernelMap(v, dataPg)
    ensures AllLow(pa, d)
  {
    hide Parts;
    hide TabsOwned;
    hide View;
    forall f: nat | f in pa && pa[f].0 == d
      ensures pa[f].1 < KERNPG
    {
      assert MapsTo(m, d, pa[f].1, f);
    }
  }

  lemma GrownKernel(m0: Mem, m: Mem, d: nat, hi: nat, dataPg: nat)
    requires Shaped(m0) && Shaped(m) && IsKernel(m0, d, NPAGES, dataPg) && hi <= KERNPG && dataPg < 0xE000
    requires Zeroed(m0, m, d, 0, hi) || Unmapped(m0, m, d, 0, hi) || (m.dirs == m0.dirs && m.tabs == m0.tabs)
    ensures forall v: nat :: v >= KERNPG ==> View(m, d, v) == KernelMap(v, dataPg)
  {
    forall v: nat | v >= KERNPG
      ensures View(m, d, v) == KernelMap(v, dataPg)
    {
      assert View(m, d, v) == View(m0, d, v);
      assert v >= NPAGES ==> KernelMap(v, dataPg) == Absent;
    }
  }

  lemma LooseKept(m0: Mem, m: Mem, l0: set<nat>)
    requires Keeps(m0.data, m.data) || Keeps(m.data, m0.data)
    ensures forall f: nat :: f in l0 && f in m.data && f in m0.data ==> m.data[f] == m0.data[f]
  {
  }

  lemma KernelEmpty(m: Mem, d: nat, dataPg: nat)
    requires Shaped(m) && IsKernel(m, d, NPAGES, dataPg)
    ensures forall v: nat :: v < KERNPG ==> View(m, d, v).Absent?
  {
  }
}
