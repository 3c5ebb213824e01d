// The kernel's page tables at work (vm.c over kalloc.c): every operation on one address
// space keeps each physical page in exactly one place and leaves other spaces alone.
module PageTables {
  import opened Common
  import opened Pages
  import opened Spaces

  class Vm {
    const dataPg: nat   // V2P(data) / PGSIZE, a page boundary fixed by the linker
    var free: seq<nat>
    var dirs: map<nat, seq<Pte>>
    var tabs: map<nat, seq<Pte>>
    var data: map<nat, Page>
    ghost var tabAt: Owner
    ghost var pageAt: Owner
    ghost var all: set<nat>
    ghost var loose: set<nat>

    ghost function M(): Mem
      reads this
    {
      Mem(free, dirs, tabs, data)
    }

    ghost predicate Valid()
      reads this
    {
      && Owned(M(), tabAt, pageAt, all, loose)
      && 0 !in all && 0x100 < dataPg < 0xE000
    }

    /** freerange: the pages from first to last - 1, pushed one by one. */
    constructor (dataPg: nat, first: nat, last: nat)
      requires 0 < first <= last && 0x100 < dataPg < 0xE000
      ensures Valid() && dirs == map[] && loose == {} && this.dataPg == dataPg
      ensures forall f: nat :: f in all <==> first <= f < last
      ensures |free| == last - first
    {
      this.dataPg := dataPg;
      free, dirs, tabs, data := [], map[], map[], map[];
      tabAt, pageAt, all, loose := map[], map[], {}, {};
      new;
      var p := first;
      while p < last
        invariant first <= p <= last && Valid() && dirs == map[] && loose == {}
        invariant forall f: nat :: f in all <==> first <= f < p
        invariant |free| == p - first && tabs == map[] && data == map[] && tabAt == map[] && pageAt == map[]
      {
        ghost var m := M();
        free, all := [p] + free, all + {p};
        assert forall f: nat :: f in free <==> f == p || f in m.free;
        p := p + 1;
      }
    }

    /** kalloc: the first free page, or 0. */
    method Kalloc() returns (f: nat)
      modifies `free
      ensures old(free) == [] ==> f == 0 && free == []
      ensures old(free) != [] ==> f == old(free)[0] && free == old(free)[1..]
    {
      if free == [] {
        return 0;
      }
      f, free := free[0], free[1..];
    }

    /** kfree: whatever page f held is gone. */
    method Kfree(f: nat)
      requires f in all
      modifies `free, `dirs, `tabs, `data
      ensures free == [f] + old(free)
      ensures dirs == old(dirs) - {f} && tabs == old(tabs) - {f} && data == old(data) - {f}
    {
      dirs, tabs, data := dirs - {f}, tabs - {f}, data - {f};
      free := [f] + free;
    }

    /** kalloc and fill: the page is allocated but not mapped. */
    method NewPage(page: Page) returns (f: nat)
      requires Valid()
      modifies `free, `data, `loose
      ensures Valid() && SameViews(old(M()), M())
      ensures forall d: nat :: OnlyDir(old(M()), tabAt, pageAt, M(), tabAt, pageAt, d)
      ensures f == 0 ==> old(free) == [] && M() == old(M()) && loose == old(loose)
      ensures f != 0 ==> |free| == |old(free)| - 1
      ensures f != 0 ==> f in old(free) && f !in old(data) && f !in old(loose) && f !in pageAt
      ensures f != 0 ==> loose == old(loose) + {f} && data == old(data)[f := page]
    {
      hide Parts;
      hide TabsOwned;
      hide PagesOwned;
      hide View;
      hide OnlyDir;
      ghost var m := M();
      SelfOnly(m, tabAt, pageAt, all, loose);
      FrontNonzero(m, all);
      f := Kalloc();
      if f == 0 {
        return;
      }
      TakeOwned(m, tabAt, pageAt, all, loose, page);
      TakeOnly(m, tabAt, pageAt, all, loose, page);
      data := data[f := page];
      loose := loose + {f};
      assert M() == TakePage(m, page);
    }

    /** kfree of a page that is not mapped. */
    method DropPage(f: nat)
      requires Valid() && f in loose
      modifies `free, `dirs, `tabs, `data, `loose
      ensures Valid() && SameViews(old(M()), M()) && dirs == old(dirs) && tabs == old(tabs)
      ensures forall d: nat :: OnlyDir(old(M()), tabAt, pageAt, M(), tabAt, pageAt, d)
      ensures loose == old(loose) - {f} && data == old(data) - {f}
    {
      hide Parts;
      hide TabsOwned;
      hide View;
      hide OnlyDir;
      ghost var m := M();
      GiveOwned(m, tabAt, pageAt, all, loose, f);
      GiveOnly(m, tabAt, pageAt, all, loose, f);
      UnmapInAll(m, all, f);
      Kfree(f);
      loose := loose - {f};
      assert M() == GivePage(m, f);
    }

    /** walkpgdir: the table that holds the entry for page v. */
    method Walkpgdir(d: nat, v: nat, alloc: bool) returns (r: Option<nat>)
      requires Valid() && d in dirs && v < NPAGES
      modifies `free, `dirs, `tabs, `tabAt
      ensures Valid() && d in dirs && SameViews(old(M()), M())
      ensures OnlyDir(old(M()), old(tabAt), pageAt, M(), tabAt, pageAt, d)
      ensures r.Some? ==> HasTable(M(), d, v, r.value) && tabAt[r.value] == (d, v / NPT) && dirs[d][v / NPT].Maps?
      ensures |free| == |old(free)| - (if r.Some? && old(dirs)[d][v / NPT].Absent? then 1 else 0)
      ensures r.None? ==> M() == old(M()) && tabAt == old(tabAt) && View(M(), d, v).Absent?
      ensures r.None? ==> dirs[d][v / NPT].Absent? && (alloc ==> free == [])
      ensures !alloc ==> M() == old(M()) && tabAt == old(tabAt)
      ensures forall i :: 0 <= i < NPT && i != v / NPT ==> dirs[d][i] == old(dirs)[d][i]
    {
      hide PagesOwned;
      hide Parts;
      hide SameViews;
      hide OnlyDir;
      ghost var m, ta := M(), tabAt;
      OnlyRefl(m, ta, pageAt, all, loose, d);
      FrontNonzero(m, all);
      var i := v / NPT;
      if dirs[d][i].Maps? {
        return Some(dirs[d][i].frame);
      }
      if !alloc {
        return None;
      }
      var t := Kalloc();
      if t == 0 {
        return None;
      }
      AddTableOwned(m, ta, pageAt, all, loose, d, i, PTE_W + PTE_U);
      OnlyTable(m, ta, pageAt, all, loose, d, i, PTE_W + PTE_U);
      dirs := dirs[d := dirs[d][i := Maps(t, PTE_W + PTE_U)]];
      tabs := tabs[t := Zeros()];
      tabAt := tabAt[t := (d, i)];
      assert M() == AddTable(m, d, i, PTE_W + PTE_U);
      return Some(t);
    }

    /** The entry for page v of d, absent until now, is set to e. */
    method Install(d: nat, v: nat, t: nat, e: Pte)
      requires Valid() && HasTable(M(), d, v, t) && View(M(), d, v).Absent? && e.Maps?
      requires Owning(v, e) ==> e.frame in loose
      modifies `tabs, `pageAt, `loose
      ensures Valid() && M() == SetPte(old(M()), t, v, e) && ViewsBut(old(M()), M(), d, v, e)
      ensures OnlyDir(old(M()), tabAt, old(pageAt), M(), tabAt, pageAt, d)
      ensures
        if Owning(v, e) then loose == old(loose) - {e.frame} && pageAt == old(pageAt)[e.frame := (d, v)]
        else loose == old(loose) && pageAt == old(pageAt)
    {
      hide Parts;
      hide TabsOwned;
      hide View;
      hide OnlyDir;
      hide ViewsBut;
      ghost var m, pa, f := M(), pageAt, e.frame;
      tabs := tabs[t := tabs[t][v % NPT := e]];
      assert M() == SetPte(m, t, v, e);
      if Owning(v, e) {
        MapOwned(m, tabAt, pa, all, loose, d, v, t, e);
        pageAt, loose := pageAt[f := (d, v)], loose - {f};
        assert pageAt - {f} == pa - {f};
        OnlyPte(m, tabAt, pa, all, old(loose), d, v, t, e, M(), pageAt, f);
      } else {
        KernelOwned(m, tabAt, pa, all, loose, d, v, t, e);
        Harmless(m, tabAt, pa, all, loose, d, v, t, e);
      }
    }

    /** One turn of mappages: the entry for page v is set to e. */
    method MapOne(d: nat, v: nat, e: Pte) returns (r: Mapped)
      requires Valid() && d in dirs && v < NPAGES && e.Maps? && (Owning(v, e) ==> e.frame in loose)
      modifies `free, `dirs, `tabs, `tabAt, `pageAt, `loose
      ensures Valid() && d in dirs && OnlyDir(old(M()), old(tabAt), old(pageAt), M(), tabAt, pageAt, d)
      ensures
        if r == Mapped && Owning(v, e) then loose == old(loose) - {e.frame} && pageAt == old(pageAt)[e.frame := (d, v)]
        else loose == old(loose) && pageAt == old(pageAt)
      ensures r == Mapped ==> RangeMapped(old(M()), M(), d, v, 1, e.frame, e.perm) && dirs[d][v / NPT].Maps?
      ensures r != Mapped ==> SameViews(old(M()), M())
      ensures r == Remap ==> View(old(M()), d, v).Maps?
      ensures r == NoMemory ==> free == []
      ensures |free| >= |old(free)| - (if old(dirs)[d][v / NPT].Absent? then 1 else 0)
      ensures |free| <= |old(free)|
      ensures OneExact(old(M()), M(), d, v, r)
    {
      hide Parts;
      hide TabsOwned;
      hide PagesOwned;
      hide View;
      hide OnlyDir;
      hide RangeMapped;
      hide HasTable;
      hide SameViews;
      hide ViewsBut;
      ghost var m0, ta0, pa0 := M(), tabAt, pageAt;
      var t := Walkpgdir(d, v, true);
      ghost var m1, ta1 := M(), tabAt;
      RangeStart(m0, d, v, e.frame, e.perm);
      RangeMore(m0, m0, m1, m1, d, v, 0, e.frame, e.perm);
      RangeOutside(m0, m1, d, v, 0, e.frame, e.perm, v);
      if t.None? {
        return NoMemory;
      }
      HasView(m1, d, v, t.value);
      if tabs[t.value][v % NPT].Maps? {
        return Remap;
      }
      Install(d, v, t.value, e);
      OnlyTrans(m0, ta0, pa0, m1, ta1, pa0, M(), tabAt, pageAt, d);
      RangeMore(m0, m0, m1, M(), d, v, 0, e.frame, e.perm);
      return Mapped;
    }

    /** The pages from va to va + size - 1, in steps of a page. */
    method Mappages(d: nat, va: nat, size: nat, pa: nat, perm: nat) returns (r: Mapped)
      requires Valid() && d in dirs && size > 0 && va + size <= NPAGES * PGSIZE && pa % PGSIZE == 0
      requires var first, last := va / PGSIZE, (va + size - 1) / PGSIZE;
        if Owning(first, Maps(pa / PGSIZE, perm)) then first == last && pa / PGSIZE in loose else first >= KERNPG
      modifies `free, `dirs, `tabs, `tabAt, `pageAt, `loose
      ensures Valid() && d in dirs && OnlyDir(old(M()), old(tabAt), old(pageAt), M(), tabAt, pageAt, d)
      ensures
        if r == Mapped && Owning(va / PGSIZE, Maps(pa / PGSIZE, perm)) then
          loose == old(loose) - {pa / PGSIZE} && pageAt == old(pageAt)[pa / PGSIZE := (d, va / PGSIZE)]
        else loose == old(loose) && pageAt == old(pageAt)
      ensures var first, last := va / PGSIZE, (va + size - 1) / PGSIZE;
        match r
        case Mapped => RangeMapped(old(M()), M(), d, first, last - first + 1, pa / PGSIZE, perm)
        case NoMemory => exists n: nat :: n <= last - first && RangeMapped(old(M()), M(), d, first, n, pa / PGSIZE, perm)
        case Remap => exists v: nat :: first <= v <= last && View(old(M()), d, v).Maps?
      ensures |free| <= |old(free)| && |free| + Tables(va / PGSIZE, (va + size - 1) / PGSIZE) >= |old(free)|
      ensures r == NoMemory ==> free == []
      ensures va / PGSIZE == (va + size - 1) / PGSIZE ==> OneExact(old(M()), M(), d, va / PGSIZE, r)
    {
      hide Parts;
      hide TabsOwned;
      hide PagesOwned;
      hide View;
      hide OnlyDir;
      hide RangeMapped;
      hide HasTable;
      hide SameViews;
      hide ViewsBut;
      hide OneExact;
      hide Tables;
      ghost var m0, ta0, pa0 := M(), tabAt, pageAt;
      OnlyRefl(m0, ta0, pa0, all, loose, d);
      var first, last, a, p := va / PGSIZE, (va + size - 1) / PGSIZE, va / PGSIZE, pa / PGSIZE;
      RangeStart(m0, d, first, p, perm);
      while true
        invariant first <= a <= last < NPAGES && p == pa / PGSIZE + (a - first)
        invariant Valid() && d in dirs && loose == old(loose) && pageAt == pa0
        invariant OnlyDir(m0, ta0, pa0, M(), tabAt, pageAt, d)
        invariant RangeMapped(m0, M(), d, first, a - first, pa / PGSIZE, perm)
        invariant |free| <= |m0.free| && |free| + (if a == first then 0 else Tables(first, a - 1)) >= |m0.free|
        invariant a > first ==> dirs[d][(a - 1) / NPT].Maps?
        invariant a == first ==> M() == m0
        decreases last - a
      {
        ghost var m1, ta1, pa1 := M(), tabAt, pageAt;
        TablesStep(first, a);
        TablesGrow(first, a, last);
        r := MapOne(d, a, Maps(p, perm));
        OnlyTrans(m0, ta0, pa0, m1, ta1, pa1, M(), tabAt, pageAt, d);
        if r == NoMemory {
          RangeKeep(m0, m1, M(), d, first, a - first, pa / PGSIZE, perm);
          return;
        }
        if r == Remap {
          RangeOutside(m0, m1, d, first, a - first, pa / PGSIZE, perm, a);
          return;
        }
        RangeJoin(m0, m1, M(), d, first, a - first, pa / PGSIZE, perm);
        if a == last {
          return Mapped;
        }
        a, p := a + 1, p + 1;
      }
    }

    /** The page that owning entry v of d maps is freed and the entry cleared. */
    method UnmapPage(d: nat, v: nat, t: nat)
      requires Valid() && HasTable(M(), d, v, t) && Owning(v, View(M(), d, v))
      modifies `free, `dirs, `tabs, `data, `pageAt
      ensures Valid() && M() == Unmap(old(M()), t, v, View(old(M()), d, v).frame)
      ensures dirs == old(dirs) && tabs.Keys == old(tabs).Keys
      ensures ViewsBut(old(M()), M(), d, v, Absent) && OnlyDir(old(M()), tabAt, old(pageAt), M(), tabAt, pageAt, d)
      ensures pageAt == old(pageAt) - {View(old(M()), d, v).frame}
    {
      hide Parts;
      hide TabsOwned;
      hide PagesOwned;
      hide View;
      hide OnlyDir;
      hide ViewsBut;
      ghost var m, pa := M(), pageAt;
      HasView(m, d, v, t);
      var f := tabs[t][v % NPT].frame;
      UnmapOwned(m, tabAt, pa, all, loose, d, v, t, f);
      UnmapInAll(m, all, f);
      Kfree(f);
      tabs := tabs[t := tabs[t][v % NPT := Absent]];
      pageAt := pageAt - {f};
      assert M() == Unmap(m, t, v, f);
      OnlyPte(m, tabAt, pa, all, loose, d, v, t, Absent, M(), pageAt, f);
    }

    /** deallocuvm: the pages from PGROUNDUP(newsz) to oldsz - 1 are unmapped and freed. */
    method Deallocuvm(d: nat, oldsz: nat, newsz: nat) returns (sz: nat)
      requires Valid() && d in dirs && oldsz <= KERNPG * PGSIZE
      modifies `free, `dirs, `tabs, `data, `tabAt, `pageAt
      ensures Valid() && dirs == old(dirs) && tabAt == old(tabAt)
      ensures OnlyDir(old(M()), tabAt, old(pageAt), M(), tabAt, pageAt, d)
      ensures sz == (if newsz >= oldsz then oldsz else newsz)
      ensures Unmapped(old(M()), M(), d, Up(newsz), Up(oldsz))
      ensures pageAt.Keys <= old(pageAt).Keys && (forall f: nat :: f in pageAt ==> pageAt[f] == old(pageAt)[f])
      ensures data.Keys <= old(data).Keys && (forall f: nat :: f in data ==> data[f] == old(data)[f])
      ensures tabs.Keys == old(tabs).Keys
    {
      hide Parts;
      hide TabsOwned;
      hide PagesOwned;
      hide View;
      hide OnlyDir;
      hide HasTable;
      hide ViewsBut;
      hide Unmapped;
      ghost var m0, ta, pa0 := M(), tabAt, pageAt;
      OnlyRefl(m0, tabAt, pa0, all, loose, d);
      UnmappedStart(m0, d, Up(newsz), Up(oldsz));
      if newsz >= oldsz {
        return oldsz;
      }
      var a := (newsz + PGSIZE - 1) / PGSIZE;
      while a * PGSIZE < oldsz
        invariant Up(newsz) <= a && Valid() && dirs == m0.dirs && tabAt == ta
        invariant OnlyDir(m0, ta, pa0, M(), ta, pageAt, d)
        invariant Unmapped(m0, M(), d, Up(newsz), if a < Up(oldsz) then a else Up(oldsz))
        invariant pageAt.Keys <= pa0.Keys && (forall f: nat :: f in pageAt ==> pageAt[f] == pa0[f])
        invariant data.Keys <= m0.data.Keys && (forall f: nat :: f in data ==> data[f] == m0.data[f])
        invariant tabs.Keys == m0.tabs.Keys
        decreases oldsz - a * PGSIZE
      {
        ghost var m, pa := M(), pageAt;
        var t := Walkpgdir(d, a, false);
        if t.None? {
          SkipTable(m0, m, d, Up(newsz), a);
          a := (a / NPT + 1) * NPT - 1;
        } else {
          HasView(m, d, a, t.value);
          if tabs[t.value][a % NPT].Maps? {
            UnmapPage(d, a, t.value);
            OnlyTrans(m0, ta, pa0, m, ta, pa, M(), ta, pageAt, d);
          }
          UnmapMore(m0, m, M(), d, Up(newsz), a);
        }
        a := a + 1;
      }
      return newsz;
    }

    /** One turn of freevm's loop over the directory. */
    method FreeTable(d: nat, i: nat, ghost m0: Mem, ghost ta0: Owner, ghost pa0: Owner)
      requires d in dirs && |dirs[d]| == NPT && i < NPT && 0 !in all
      requires Owned(Disregard(M(), d, i), tabAt, pageAt, all, loose)
      requires OnlyDir(m0, ta0, pa0, Disregard(M(), d, i), tabAt, pageAt, d)
      modifies `free, `dirs, `tabs, `data, `tabAt, `pageAt, `loose
      ensures dirs == old(dirs) && data == old(data)
      ensures Owned(Disregard(M(), d, i + 1), tabAt, pageAt, all, loose)
      ensures OnlyDir(m0, ta0, pa0, Disregard(M(), d, i + 1), tabAt, pageAt, d)
    {
      hide Parts;
      hide TabsOwned;
      hide PagesOwned;
      hide View;
      hide OnlyDir;
      hide Disregard;
      ghost var m := M();
      if dirs[d][i].Maps? {
        var t := dirs[d][i].frame;
        TurnOwned(m, tabAt, pageAt, all, loose, d, i);
        TurnOnly(m, tabAt, pageAt, all, loose, d, i);
        OnlyTrans(m0, ta0, pa0, Disregard(m, d, i), tabAt, pageAt,
                  Disregard(Turn(m, t), d, i + 1), tabAt - {t}, Without(pageAt, d, i), d);
        Kfree(t);
        assert M() == Turn(m, t);
        ghost var pa := pageAt;
        tabAt, pageAt, loose := tabAt - {t}, Without(pa, d, i), loose + Lost(pa, d, i);
      } else {
        TurnSkip(m, d, i);
      }
    }

    /** freevm: the space d goes; every page it owned is free again, except pages mapped for the
        user at or above KERNBASE, which no entry owns any more. */
    method Freevm(d: nat)
      requires Valid() && d in dirs
      modifies `free, `dirs, `tabs, `data, `tabAt, `pageAt, `loose
      ensures Valid() && dirs == old(dirs) - {d}
      ensures tabs == old(tabs) - TabsOf(old(tabAt), d) && tabAt == old(tabAt) - TabsOf(old(tabAt), d)
      ensures pageAt == old(pageAt) - PagesOf(old(pageAt), d)
      ensures data == old(data) - LowPages(old(pageAt), d)
      ensures loose == old(loose) + (PagesOf(old(pageAt), d) - LowPages(old(pageAt), d))
    {
      hide Parts;
      hide TabsOwned;
      hide PagesOwned;
      hide View;
      hide OnlyDir;
      hide DropTable;
      ghost var m0, ta0, pa0, l0 := M(), tabAt, pageAt, loose;
      var _ := Deallocuvm(d, KERNPG * PGSIZE, 0);
      ghost var m1 := M();
      LowGone(m0, ta0, pa0, all, l0, m1, pageAt, d);
      ClearedNone(m1, d);
      var i := 0;
      while i < NPT
        invariant i <= NPT && 0 !in all && dirs == m0.dirs && data == m1.data && |dirs[d]| == NPT
        invariant Owned(Disregard(M(), d, i), tabAt, pageAt, all, loose)
        invariant OnlyDir(m0, ta0, pa0, Disregard(M(), d, i), tabAt, pageAt, d)
      {
        FreeTable(d, i, m0, ta0, pa0);
        i := i + 1;
      }
      ghost var m := Disregard(M(), d, NPT);
      DirInAll(m, all, d);
      DropDirOwned(m, tabAt, pageAt, all, loose, d);
      Kfree(d);
      assert M() == DropDir(m, d);
      OnlyGone(m0, ta0, pa0, m, tabAt, pageAt, d);
      Freed(m0, ta0, pa0, all, l0, M(), tabAt, pageAt, loose, d);
    }

    /** The loop of setupkvm over the kernel's regions. */
    method MapKernel(d: nat) returns (r: Mapped)
      requires Valid() && d in dirs && IsKernel(M(), d, KERNPG, dataPg)
      modifies `free, `dirs, `tabs, `tabAt, `pageAt, `loose
      ensures Valid() && d in dirs && pageAt == old(pageAt) && loose == old(loose)
      ensures OnlyDir(old(M()), old(tabAt), pageAt, M(), tabAt, pageAt, d)
      ensures r != Remap && (r == Mapped ==> IsKernel(M(), d, NPAGES, dataPg))
      ensures |free| + KTABLES >= |old(free)| && (r == NoMemory ==> |old(free)| <= KTABLES)
    {
      hide Parts;
      hide TabsOwned;
      hide PagesOwned;
      hide View;
      hide OnlyDir;
      hide IsKernel;
      hide RangeMapped;
      hide Tables;
      hide RegionTables;
      hide Limit;
      hide Kmap;
      ghost var m0, ta0 := M(), tabAt;
      OnlyRefl(m0, ta0, pageAt, all, loose, d);
      RegionEnds(dataPg);
      var k := 0;
      while k < 4
        invariant k <= 4 && Valid() && d in dirs && pageAt == old(pageAt) && loose == old(loose)
        invariant OnlyDir(m0, ta0, pageAt, M(), tabAt, pageAt, d)
        invariant IsKernel(M(), d, Limit(k, dataPg), dataPg)
        invariant |free| + RegionTables(k, dataPg) >= |m0.free|
      {
        ghost var m, ta := M(), tabAt;
        RegionStep(k, dataPg);
        var (virt, start, end, perm) := Kmap(k, dataPg);
        r := Mappages(d, virt, (end - start) % (NPAGES * PGSIZE), start, perm);
        OnlyTrans(m0, ta0, pageAt, m, ta, pageAt, M(), tabAt, pageAt, d);
        if r == NoMemory {
          return;
        }
        KernelMore(m, M(), d, k, dataPg, r);
        k := k + 1;
      }
      return Mapped;
    }

    /** setupkvm: an address space with the kernel's mappings, or 0 and nothing changed. */
    method Setupkvm() returns (d: nat)
      requires Valid()
      modifies `free, `dirs, `tabs, `data, `tabAt, `pageAt, `loose
      ensures Valid() && data == old(data) && pageAt == old(pageAt) && loose == old(loose)
      ensures d == 0 ==> dirs == old(dirs) && tabs == old(tabs) && tabAt == old(tabAt) && |old(free)| <= KTABLES + 1
      ensures d != 0 ==> |free| + KTABLES + 1 >= |old(free)|
      ensures d != 0 ==> d !in old(dirs) && d in dirs && IsKernel(M(), d, NPAGES, dataPg)
      ensures d != 0 ==> OnlyDir(old(M()), old(tabAt), old(pageAt), M(), tabAt, pageAt, d)
    {
      hide Parts;
      hide TabsOwned;
      hide PagesOwned;
      hide View;
      hide OnlyDir;
      hide IsKernel;
      hide RangeMapped;
      ghost var m0, ta0, pa0, l0 := M(), tabAt, pageAt, loose;
      FrontNonzero(m0, all);
      d := Kalloc();
      if d == 0 {
        return;
      }
      AddDirOwned(m0, ta0, pa0, all, l0);
      OnlyNew(m0, ta0, pa0, all, l0);
      dirs := dirs[d := Zeros()];
      assert M() == AddDir(m0);
      KernelStart(M(), d, dataPg);
      ghost var m1 := M();
      var r := MapKernel(d);
      OnlyTrans(m0, ta0, pa0, m1, ta0, pa0, M(), tabAt, pageAt, d);
      if r == NoMemory {
        Restored(m0, ta0, pa0, all, l0, M(), tabAt, pageAt, loose, d);
        NoPages(m0, ta0, pa0, all, l0, d);
        Freevm(d);
        return 0;
      }
    }

    /** allocuvm has reached page a: m0, ta0, pa0 and l0 are the state it started from. */
    ghost predicate Growing(m0: Mem, ta0: Owner, pa0: Owner, l0: set<nat>, d: nat, lo: nat, a: nat)
      requires Shaped(m0)
      reads this
    {
      && Valid() && d in dirs && loose == l0 && OnlyDir(m0, ta0, pa0, M(), tabAt, pageAt, d)
      && Zeroed(m0, M(), d, lo, a) && Keeps(m0.data, data) && Gained(pa0, pageAt, d, lo, a)
      && lo <= a && |free| + 2 * (a - lo) >= |m0.free|
    }

    /** The failure path of allocuvm. */
    method GrowStop(d: nat, oldsz: nat, newsz: nat, ghost m0: Mem, ghost ta0: Owner, ghost pa0: Owner, ghost a: nat)
      requires newsz < KERNPG * PGSIZE && Up(oldsz) <= a < Up(newsz)
      requires Owned(m0, ta0, pa0, all, loose) && Growing(m0, ta0, pa0, loose, d, Up(oldsz), a)
      modifies `free, `dirs, `tabs, `data, `tabAt, `pageAt
      ensures Valid() && d in dirs && OnlyDir(m0, ta0, pa0, M(), tabAt, pageAt, d)
      ensures Unmapped(m0, M(), d, Up(oldsz), Up(newsz)) && Keeps(data, m0.data)
    {
      hide Parts;
      hide TabsOwned;
      hide PagesOwned;
      hide View;
      hide OnlyDir;
      hide Zeroed;
      hide Unmapped;
      hide Keeps;
      hide Gained;
      ghost var m1, pa1 := M(), pageAt;
      var _ := Deallocuvm(d, newsz, oldsz);
      OnlyTrans(m0, ta0, pa0, m1, tabAt, pa1, M(), tabAt, pageAt, d);
      UndoViews(m0, m1, M(), d, Up(oldsz), a, Up(newsz));
      UndoData(m0, ta0, pa0, all, loose, m1, pa1, M(), tabAt, pageAt, loose, d, Up(oldsz), a, Up(newsz));
      UndoKeeps(m0, M(), {});
    }

    /** The failure path of allocuvm with page f in hand. */
    method GrowFail(d: nat, oldsz: nat, newsz: nat, f: nat, ghost m0: Mem, ghost ta0: Owner, ghost pa0: Owner,
                    ghost l0: set<nat>, ghost a: nat)
      requires Valid() && d in dirs && newsz < KERNPG * PGSIZE && Up(oldsz) <= a < Up(newsz)
      requires f in loose && f !in l0 && loose == l0 + {f} && f !in m0.data
      requires Owned(m0, ta0, pa0, all, l0) && OnlyDir(m0, ta0, pa0, M(), tabAt, pageAt, d)
      requires Zeroed(m0, M(), d, Up(oldsz), a) && Keeps(m0.data, data) && Gained(pa0, pageAt, d, Up(oldsz), a)
      modifies `free, `dirs, `tabs, `data, `tabAt, `pageAt, `loose
      ensures Valid() && d in dirs && loose == l0 && OnlyDir(m0, ta0, pa0, M(), tabAt, pageAt, d)
      ensures Unmapped(m0, M(), d, Up(oldsz), Up(newsz)) && Keeps(data, m0.data)
    {
      hide Parts;
      hide TabsOwned;
      hide PagesOwned;
      hide View;
      hide OnlyDir;
      hide Zeroed;
      hide Unmapped;
      hide Keeps;
      hide Gained;
      ghost var m1, pa1 := M(), pageAt;
      var _ := Deallocuvm(d, newsz, oldsz);
      ghost var m2 := M();
      OnlyTrans(m0, ta0, pa0, m1, tabAt, pa1, m2, tabAt, pageAt, d);
      UndoViews(m0, m1, m2, d, Up(oldsz), a, Up(newsz));
      UndoData(m0, ta0, pa0, all, l0, m1, pa1, m2, tabAt, pageAt, loose, d, Up(oldsz), a, Up(newsz));
      DropPage(f);
      OnlyTrans(m0, ta0, pa0, m2, tabAt, pageAt, M(), tabAt, pageAt, d);
      UnmappedKeep(m0, m2, M(), d, Up(oldsz), Up(newsz));
      UndoKeeps(m0, m2, {f});
      assert loose == l0;
      UndoDrop(m0, m2, M(), f);
    }

    /** One turn of allocuvm's loop. */
    method GrowOne(d: nat, oldsz: nat, newsz: nat, a: nat, ghost m0: Mem, ghost ta0: Owner, ghost pa0: Owner, ghost l0: set<nat>)
      returns (r: Mapped)
      requires newsz < KERNPG * PGSIZE && Up(oldsz) <= a && a * PGSIZE < newsz
      requires Owned(m0, ta0, pa0, all, l0) && Growing(m0, ta0, pa0, l0, d, Up(oldsz), a)
      modifies `free, `dirs, `tabs, `data, `tabAt, `pageAt, `loose
      ensures r == Mapped ==> Growing(m0, ta0, pa0, l0, d, Up(oldsz), a + 1)
      ensures r == NoMemory ==> Valid() && d in dirs && loose == l0 && OnlyDir(m0, ta0, pa0, M(), tabAt, pageAt, d)
      ensures r == NoMemory ==> Unmapped(m0, M(), d, Up(oldsz), Up(newsz)) && Keeps(data, m0.data)
      ensures r == NoMemory ==> |m0.free| <= 2 * (a - Up(oldsz)) + 2
      ensures r == Remap ==> View(m0, d, a).Maps?
    {
      hide Parts;
      hide TabsOwned;
      hide PagesOwned;
      hide View;
      hide OnlyDir;
      hide RangeMapped;
      hide Zeroed;
      hide Unmapped;
      hide Keeps;
      hide Gained;
      ghost var lo, m1 := Up(oldsz), M();
      var f := NewPage(ZeroPage());
      ghost var m2, ta2, pa2 := M(), tabAt, pageAt;
      OnlyTrans(m0, ta0, pa0, m1, ta2, pa2, m2, ta2, pa2, d);
      KeepsMore(m1.data, m2.data, f);
      ZeroedKeep(m0, m1, m2, d, lo, a);
      if f == 0 {
        GrowStop(d, oldsz, newsz, m0, ta0, pa0, a);
        return NoMemory;
      }
      NotKept(m0.data, m1.data, f);
      r := Mappages(d, a * PGSIZE, PGSIZE, f * PGSIZE, PTE_W + PTE_U);
      ghost var m3 := M();
      if r == Remap {
        ZeroedOutside(m0, m2, d, lo, a, a);
        return;
      }
      OnlyTrans(m0, ta0, pa0, m2, ta2, pa2, m3, tabAt, pageAt, d);
      if r == NoMemory {
        RangeNone(m2, m3, d, a, f, PTE_W + PTE_U);
        KeepsMore(m2.data, m3.data, 0);
        ZeroedKeep(m0, m2, m3, d, lo, a);
        GrowFail(d, oldsz, newsz, f, m0, ta0, pa0, l0, a);
        return;
      }
      ZeroedMore(m0, m2, m3, d, lo, a, f);
      GainedMore(pa0, pa2, pageAt, d, lo, a, f);
      assert loose == l0;
    }

    /** allocuvm: zeroed pages from PGROUNDUP(oldsz) to newsz - 1, or none of them. */
    method Allocuvm(d: nat, oldsz: nat, newsz: nat) returns (r: Grown)
      requires Valid() && d in dirs
      modifies `free, `dirs, `tabs, `data, `tabAt, `pageAt, `loose
      ensures r != Remapped ==> Valid() && d in dirs && loose == old(loose)
      ensures r != Remapped ==> OnlyDir(old(M()), old(tabAt), old(pageAt), M(), tabAt, pageAt, d)
      ensures match r
        case Size(sz) =>
          if newsz >= KERNPG * PGSIZE || newsz < oldsz then
            sz == (if newsz >= KERNPG * PGSIZE then 0 else oldsz) && M() == old(M())
          else
            sz == newsz && Zeroed(old(M()), M(), d, Up(oldsz), Up(newsz)) && Keeps(old(data), data)
        case OutOfMemory =>
          && oldsz <= newsz < KERNPG * PGSIZE && |old(free)| <= 2 * (Up(newsz) - Up(oldsz))
          && Unmapped(old(M()), M(), d, Up(oldsz), Up(newsz)) && Keeps(data, old(data))
          && ((forall v: nat :: View(M(), d, v) == View(old(M()), d, v)) <==>
                forall v: nat :: Up(oldsz) <= v < Up(newsz) ==> View(old(M()), d, v).Absent?)
        case Remapped =>
          newsz < KERNPG * PGSIZE && exists v: nat :: Up(oldsz) <= v < Up(newsz) && View(old(M()), d, v).Maps?
    {
      hide Parts;
      hide TabsOwned;
      hide PagesOwned;
      hide View;
      hide OnlyDir;
      hide RangeMapped;
      hide Zeroed;
      hide Unmapped;
      hide Keeps;
      hide SameViews;
      ghost var m0, ta0, pa0 := M(), tabAt, pageAt;
      OnlyRefl(m0, ta0, pa0, all, loose, d);
      if newsz >= KERNPG * PGSIZE {
        return Size(0);
      }
      if newsz < oldsz {
        return Size(oldsz);
      }
      var a := Up(oldsz);
      ZeroedStart(m0, d, a);
      while a * PGSIZE < newsz
        invariant Up(oldsz) <= a && (a <= Up(newsz) || a == Up(oldsz))
        invariant Growing(m0, ta0, pa0, old(loose), d, Up(oldsz), a)
        decreases newsz - a * PGSIZE
      {
        var got := GrowOne(d, oldsz, newsz, a, m0, ta0, pa0, old(loose));
        if got == NoMemory {
          UndoneExact(m0, M(), d, Up(oldsz), Up(newsz));
          return OutOfMemory;
        }
        if got == Remap {
          return Remapped;
        }
        a := a + 1;
      }
      return Size(newsz);
    }

    /** copyuvm has copied n pages of d to the new space c. */
    ghost predicate Copying(m0: Mem, ta0: Owner, pa0: Owner, l0: set<nat>, d: nat, c: nat, n: nat)
      requires Shaped(m0)
      reads this
    {
      && Valid() && c in dirs && c !in m0.dirs && loose == l0 && OnlyDir(m0, ta0, pa0, M(), tabAt, pageAt, c)
      && Keeps(m0.data, data) && CopyOf(m0, M(), d, c, n, dataPg) && AllLow(pageAt, c)
      && |free| + KTABLES + 1 + 2 * n >= |m0.free|
    }

    /** The failure path of copyuvm: the new space goes and nothing is left of it. */
    method Bail(c: nat, ghost m0: Mem, ghost ta0: Owner, ghost pa0: Owner)
      requires Valid() && c in dirs && c !in m0.dirs && OnlyDir(m0, ta0, pa0, M(), tabAt, pageAt, c)
      requires Owned(m0, ta0, pa0, all, loose) && Keeps(m0.data, data) && AllLow(pageAt, c)
      modifies `free, `dirs, `tabs, `data, `tabAt, `pageAt, `loose
      ensures Valid() && dirs == m0.dirs && tabs == m0.tabs && data == m0.data
      ensures tabAt == ta0 && pageAt == pa0 && loose == old(loose)
    {
      hide Parts;
      hide TabsOwned;
      hide PagesOwned;
      hide OnlyDir;
      Restored(m0, ta0, pa0, all, loose, M(), tabAt, pageAt, loose, c);
      assert LowPages(pageAt, c) == PagesOf(pageAt, c);
      Freevm(c);
    }

    /** The part of the loop that needs memory. */
    method CopyPage(d: nat, c: nat, a: nat, page: Page, perm: nat,
                    ghost m0: Mem, ghost ta0: Owner, ghost pa0: Owner, ghost l0: set<nat>)
      returns (r: Mapped)
      requires a < KERNPG && Owned(m0, ta0, pa0, all, l0) && Copying(m0, ta0, pa0, l0, d, c, a)
      requires View(m0, d, a).Maps? && View(m0, d, a).perm == perm
      requires View(m0, d, a).frame in m0.data && m0.data[View(m0, d, a).frame] == page
      modifies `free, `dirs, `tabs, `data, `tabAt, `pageAt, `loose
      ensures r != Remap && (r == Mapped ==> Copying(m0, ta0, pa0, l0, d, c, a + 1))
      ensures r == NoMemory ==> Valid() && dirs == m0.dirs && tabs == m0.tabs && data == m0.data
      ensures r == NoMemory ==> tabAt == ta0 && pageAt == pa0 && loose == l0 && |m0.free| <= KTABLES + 3 + 2 * a
    {
      hide Parts;
      hide TabsOwned;
      hide PagesOwned;
      hide View;
      hide OnlyDir;
      hide CopyOf;
      hide Keeps;
      hide AllLow;
      hide RangeMapped;
      ghost var m1 := M();
      var f := NewPage(page);
      ghost var m2, ta2, pa2 := M(), tabAt, pageAt;
      OnlyTrans(m0, ta0, pa0, m1, ta2, pa2, m2, ta2, pa2, c);
      KeepsMore(m1.data, m2.data, f);
      KeepsTrans(m0.data, m1.data, m2.data);
      CopyKeep(m0, m1, m2, d, c, a, dataPg);
      if f == 0 {
        Bail(c, m0, ta0, pa0);
        return NoMemory;
      }
      NotKept(m0.data, m1.data, f);
      r := Mappages(c, a * PGSIZE, PGSIZE, f * PGSIZE, perm);
      CopyFresh(m0, m2, d, c, a, dataPg);
      assert r != Remap;
      OnlyTrans(m0, ta0, pa0, m2, ta2, pa2, M(), tabAt, pageAt, c);
      if r == NoMemory {
        ghost var m3 := M();
        DropPage(f);
        OnlyTrans(m0, ta0, pa0, m3, tabAt, pageAt, M(), tabAt, pageAt, c);
        KeepsLess(m0.data, m3.data, data, f);
        assert loose == l0;
        Bail(c, m0, ta0, pa0);
        return;
      }
      CopyMore(m0, m2, M(), d, c, a, f, dataPg, page, perm);
      LowMore(pa2, pageAt, c, a, f);
      assert loose == l0;
    }

    /** One turn of copyuvm's loop; Remap stands for its panics. */
    method CopyOne(d: nat, c: nat, a: nat, ghost m0: Mem, ghost ta0: Owner, ghost pa0: Owner, ghost l0: set<nat>)
      returns (r: Mapped)
      requires a < KERNPG && d in m0.dirs && Owned(m0, ta0, pa0, all, l0) && Copying(m0, ta0, pa0, l0, d, c, a)
      modifies `free, `dirs, `tabs, `data, `tabAt, `pageAt, `loose
      ensures r == Mapped ==> Copying(m0, ta0, pa0, l0, d, c, a + 1)
      ensures r == NoMemory ==> Valid() && dirs == m0.dirs && tabs == m0.tabs && data == m0.data
      ensures r == NoMemory ==> tabAt == ta0 && pageAt == pa0 && loose == l0 && |m0.free| <= KTABLES + 3 + 2 * a
      ensures r == Remap ==> View(m0, d, a).Absent?
    {
      hide Parts;
      hide TabsOwned;
      hide PagesOwned;
      hide View;
      hide OnlyDir;
      hide CopyOf;
      hide Keeps;
      hide AllLow;
      hide RangeMapped;
      hide HasTable;
      OnlyStill(m0, ta0, pa0, M(), tabAt, pageAt, c, d);
      OnlyViews(m0, ta0, pa0, M(), tabAt, pageAt, c, all, l0, loose, d, a);
      var t := Walkpgdir(d, a, false);
      if t.None? {
        return Remap;
      }
      HasView(M(), d, a, t.value);
      var e := tabs[t.value][a % NPT];
      if e.Absent? {
        return Remap;
      }
      MappedData(m0, ta0, pa0, all, l0, d, a);
      KeptAt(m0.data, data, e.frame);
      r := CopyPage(d, c, a, data[e.frame], e.perm, m0, ta0, pa0, l0);
    }

    /** copyuvm: a new space with copies of d's pages below sz, or nothing changed. */
    method Copyuvm(d: nat, sz: nat) returns (r: Copied)
      requires Valid() && d in dirs && sz <= KERNPG * PGSIZE
      modifies `free, `dirs, `tabs, `data, `tabAt, `pageAt, `loose
      ensures r.Space? ==> Copying(old(M()), old(tabAt), old(pageAt), old(loose), d, r.c, Up(sz))
      ensures r == NoSpace ==> Valid() && dirs == old(dirs) && tabs == old(tabs) && data == old(data)
      ensures r == NoSpace ==> tabAt == old(tabAt) && pageAt == old(pageAt) && loose == old(loose) && SameFree(old(free), free)
      ensures r == NoSpace ==> |old(free)| <= KTABLES + 1 + 2 * Up(sz)
      ensures r == CopyPanic ==> exists v: nat :: v < Up(sz) && View(old(M()), d, v).Absent?
    {
      hide Parts;
      hide TabsOwned;
      hide PagesOwned;
      hide View;
      hide OnlyDir;
      hide CopyOf;
      hide Keeps;
      hide AllLow;
      hide IsKernel;
      ghost var m0, ta0, pa0, l0 := M(), tabAt, pageAt, loose;
      var c := Setupkvm();
      if c == 0 {
        FreeSame(m0, M(), all);
        return NoSpace;
      }
      CopyStart(m0, ta0, pa0, all, l0, M(), d, c, dataPg);
      var a := 0;
      while a * PGSIZE < sz
        invariant a <= Up(sz) && Copying(m0, ta0, pa0, l0, d, c, a)
        decreases sz - a * PGSIZE
      {
        var got := CopyOne(d, c, a, m0, ta0, pa0, l0);
        if got == Remap {
          return CopyPanic;
        }
        if got == NoMemory {
          FreeSame(m0, M(), all);
          return NoSpace;
        }
        a := a + 1;
      }
      return Space(c);
    }

    /** An address space made, grown to n bytes and freed leaves every page where it was. */
    method BuildAndFree(n: nat)
      requires Valid()
      modifies `free, `dirs, `tabs, `data, `tabAt, `pageAt, `loose
      ensures Valid() && dirs == old(dirs) && tabs == old(tabs) && data == old(data)
      ensures tabAt == old(tabAt) && pageAt == old(pageAt) && loose == old(loose) && SameFree(old(free), free)
    {
      hide Parts;
      hide TabsOwned;
      hide PagesOwned;
      hide View;
      hide OnlyDir;
      hide IsKernel;
      hide Zeroed;
      hide Unmapped;
      hide Keeps;
      hide SameFree;
      ghost var m0, ta0, pa0, l0 := M(), tabAt, pageAt, loose;
      var d := Setupkvm();
      if d == 0 {
        FreeSame(m0, M(), all);
        return;
      }
      ghost var m1, ta1, pa1 := M(), tabAt, pageAt;
      KernelEmpty(m1, d, dataPg);
      KeepsMore(m0.data, m1.data, 0);
      var g := Allocuvm(d, 0, n);
      assert g != Remapped && Up(0) == 0;
      OnlyTrans(m0, ta0, pa0, m1, ta1, pa1, M(), tabAt, pageAt, d);
      GrownKernel(m1, M(), d, if n < KERNPG * PGSIZE then Up(n) else 0, dataPg);
      KernelLow(M(), tabAt, pageAt, all, loose, d, dataPg);
      LooseKept(m0, M(), l0);
      Restored(m0, ta0, pa0, all, l0, M(), tabAt, pageAt, loose, d);
      assert LowPages(pageAt, d) == PagesOf(pageAt, d);
      Freevm(d);
      FreeSame(m0, M(), all);
    }
  }
}
