// Physical pages and two-level page tables (kalloc.c, vm.c): who owns each page.  A user
// page table entry owns the page it maps, a page directory entry owns the table it names;
// kernel entries, which are the entries from page number KERNPG up without the user bit,
// own nothing.
module Pages {
  import opened Common

  const KERNPG: nat := 0x8_0000    // KERNBASE / PGSIZE
  const PTE_W: nat := 2
  const PTE_U: nat := 4

  type Page = seq<byte>

  /** An entry of a directory or a table, with its permission bits. */
  datatype Pte = Absent | Maps(frame: nat, perm: nat)

  datatype Mem = Mem(free: seq<nat>, dirs: map<nat, seq<Pte>>, tabs: map<nat, seq<Pte>>, data: map<nat, Page>)

  type Owner = map<nat, (nat, nat)>

  function Zeros(): (z: seq<Pte>)
    ensures |z| == NPT && forall i :: 0 <= i < NPT ==> z[i] == Absent
  {
    seq(NPT, _ => Absent)
  }

  ghost predicate Shaped(m: Mem) {
    (forall d: nat :: d in m.dirs ==> |m.dirs[d]| == NPT) && (forall t: nat :: t in m.tabs ==> |m.tabs[t]| == NPT)
  }

  /** The entry for page v of the address space d. */
  ghost function View(m: Mem, d: nat, v: nat): Pte
    requires Shaped(m)
  {
    if d !in m.dirs || v >= NPAGES then Absent
    else
      var e := m.dirs[d][v / NPT];
      if e.Maps? && e.frame in m.tabs then m.tabs[e.frame][v % NPT] else Absent
  }

  // ----- Ownership -----

  /** Every page the allocator handed out or holds is in exactly one place. */
  ghost predicate Parts(m: Mem, all: set<nat>) {
    && Distinct(m.free)
    && (forall f: nat :: f in m.free ==> f !in m.dirs && f !in m.tabs && f !in m.data)
    && m.dirs.Keys !! m.tabs.Keys && m.dirs.Keys !! m.data.Keys && m.tabs.Keys !! m.data.Keys
    && (forall f: nat :: f in all <==> f in m.free || f in m.dirs || f in m.tabs || f in m.data)
  }

  ghost predicate TabsOwned(m: Mem, ta: Owner)
    requires Shaped(m)
  {
    && ta.Keys == m.tabs.Keys
    && (forall d: nat, i: nat :: d in m.dirs && i < NPT && m.dirs[d][i].Maps? ==>
          m.dirs[d][i].frame in ta && ta[m.dirs[d][i].frame] == (d, i))
    && (forall t: nat :: t in ta ==>
          ta[t].0 in m.dirs && ta[t].1 < NPT && m.dirs[ta[t].0][ta[t].1].Maps? && m.dirs[ta[t].0][ta[t].1].frame == t)
  }

  /** An entry for page v that owns the page it maps. */
  predicate Owning(v: nat, e: Pte) {
    e.Maps? && (v < KERNPG || e.perm / PTE_U % 2 == 1)
  }

  ghost predicate MapsTo(m: Mem, d: nat, v: nat, f: nat)
    requires Shaped(m)
  {
    Owning(v, View(m, d, v)) && View(m, d, v).frame == f
  }

  ghost predicate PagesOwned(m: Mem, pa: Owner, loose: set<nat>)
    requires Shaped(m)
  {
    && pa.Keys !! loose && m.data.Keys == pa.Keys + loose
    && (forall d: nat, v: nat :: Owning(v, View(m, d, v)) ==>
          View(m, d, v).frame in pa && pa[View(m, d, v).frame] == (d, v))
    && (forall f: nat :: f in pa ==> MapsTo(m, pa[f].0, pa[f].1, f))
  }

  /** loose are the pages allocated for data and not mapped yet. */
  ghost predicate Owned(m: Mem, ta: Owner, pa: Owner, all: set<nat>, loose: set<nat>) {
    Shaped(m) && Parts(m, all) && TabsOwned(m, ta) && PagesOwned(m, pa, loose)
  }

  ghost predicate SameViews(m: Mem, r: Mem)
    requires Shaped(m) && Shaped(r)
  {
    forall d: nat, v: nat :: View(r, d, v) == View(m, d, v)
  }

  lemma OwnedSame(m: Mem, r: Mem, pa: Owner, loose: set<nat>)
    requires Shaped(m) && Shaped(r) && PagesOwned(m, pa, loose) && SameViews(m, r) && r.data.Keys == m.data.Keys
    ensures PagesOwned(r, pa, loose)
  {
    hide View;
    forall f: nat | f in pa
      ensures MapsTo(r, pa[f].0, pa[f].1, f)
    {
      assert MapsTo(m, pa[f].0, pa[f].1, f);
    }
  }

  // ----- A new page table -----

  function AddTable(m: Mem, d: nat, i: nat, perm: nat): Mem
    requires m.free != [] && d in m.dirs && i < |m.dirs[d]|
  {
    var t := m.free[0];
    Mem(m.free[1..], m.dirs[d := m.dirs[d][i := Maps(t, perm)]], m.tabs[t := Zeros()], m.data)
  }

  lemma PopParts(m: Mem, r: Mem, all: set<nat>)
    requires Parts(m, all) && m.free != [] && r.free == m.free[1..]
    requires r.dirs.Keys + r.tabs.Keys + r.data.Keys == m.dirs.Keys + m.tabs.Keys + m.data.Keys + {m.free[0]}
    requires r.dirs.Keys !! r.tabs.Keys && r.dirs.Keys !! r.data.Keys && r.tabs.Keys !! r.data.Keys
    ensures Parts(r, all)
  {
    var t := m.free[0];
    assert forall f: nat :: f in m.free <==> f == t || f in r.free;
    assert t !in r.free;
    forall f: nat
      ensures f in r.dirs || f in r.tabs || f in r.data <==> f in m.dirs || f in m.tabs || f in m.data || f == t
    {
      assert f in r.dirs.Keys + r.tabs.Keys + r.data.Keys <==> f in m.dirs.Keys + m.tabs.Keys + m.data.Keys + {t};
    }
  }

  lemma TableViews(m: Mem, ta: Owner, d: nat, i: nat, perm: nat)
    requires Shaped(m) && TabsOwned(m, ta) && m.free != [] && d in m.dirs && i < NPT && m.dirs[d][i].Absent?
    requires m.free[0] !in m.tabs
    ensures Shaped(AddTable(m, d, i, perm)) && SameViews(m, AddTable(m, d, i, perm))
  {
    var r := AddTable(m, d, i, perm);
    forall e: nat, v: nat
      ensures View(r, e, v) == View(m, e, v)
    {
      if e in m.dirs && v < NPAGES && m.dirs[e][v / NPT].Maps? {
        assert m.dirs[e][v / NPT].frame in ta;
      }
    }
  }

  lemma TableOwned(m: Mem, ta: Owner, d: nat, i: nat, perm: nat)
    requires Shaped(m) && TabsOwned(m, ta) && m.free != [] && d in m.dirs && i < NPT && m.dirs[d][i].Absent?
    requires m.free[0] !in m.tabs
    ensures TabsOwned(AddTable(m, d, i, perm), ta[m.free[0] := (d, i)])
  {
  }

  lemma AddTableOwned(m: Mem, ta: Owner, pa: Owner, all: set<nat>, loose: set<nat>, d: nat, i: nat, perm: nat)
    requires Owned(m, ta, pa, all, loose) && m.free != [] && d in m.dirs && i < NPT && m.dirs[d][i].Absent?
    ensures var r := AddTable(m, d, i, perm);
      Owned(r, ta[m.free[0] := (d, i)], pa, all, loose) && SameViews(m, r)
  {
    hide TabsOwned;
    hide PagesOwned;
    hide View;
    hide SameViews;
    var r, t := AddTable(m, d, i, perm), m.free[0];
    assert t in m.free;
    TableViews(m, ta, d, i, perm);
    TableOwned(m, ta, d, i, perm);
    assert r.dirs.Keys == m.dirs.Keys && r.tabs.Keys == m.tabs.Keys + {t};
    PopParts(m, r, all);
    OwnedSame(m, r, pa, loose);
  }

  // ----- Setting one entry of a table -----

  /** The table that holds the entry for page v of d. */
  ghost predicate HasTable(m: Mem, d: nat, v: nat, t: nat)
    requires Shaped(m)
  {
    d in m.dirs && v < NPAGES && m.dirs[d][v / NPT].Maps? && m.dirs[d][v / NPT].frame == t && t in m.tabs
  }

  function SetPte(m: Mem, t: nat, v: nat, e: Pte): Mem
    requires t in m.tabs && |m.tabs[t]| == NPT
  {
    m.(tabs := m.tabs[t := m.tabs[t][v % NPT := e]])
  }

  /** r has entry e for page v of d, and m's entries elsewhere. */
  ghost predicate ViewsBut(m: Mem, r: Mem, d: nat, v: nat, e: Pte)
    requires Shaped(m) && Shaped(r)
  {
    && View(r, d, v) == e
    && (forall c: nat, w: nat :: c != d || w != v ==> View(r, c, w) == View(m, c, w))
  }

  lemma SetPteViews(m: Mem, ta: Owner, d: nat, v: nat, t: nat, e: Pte)
    requires Shaped(m) && TabsOwned(m, ta) && HasTable(m, d, v, t)
    ensures Shaped(SetPte(m, t, v, e)) && TabsOwned(SetPte(m, t, v, e), ta) && ViewsBut(m, SetPte(m, t, v, e), d, v, e)
  {
    var r := SetPte(m, t, v, e);
    assert r.tabs.Keys == m.tabs.Keys;
    forall c: nat, w: nat | c != d || w != v
      ensures View(r, c, w) == View(m, c, w)
    {
      if c in m.dirs && w < NPAGES && m.dirs[c][w / NPT].Maps? && m.dirs[c][w / NPT].frame == t {
        assert ta[t] == (d, v / NPT) && ta[t] == (c, w / NPT);
        SplitPage(v);
        SplitPage(w);
        assert w % NPT != v % NPT;
      }
    }
  }

  lemma SplitPage(v: nat)
    ensures v == NPT * (v / NPT) + v % NPT
  {
  }

  lemma SetParts(m: Mem, t: nat, v: nat, e: Pte, all: set<nat>)
    requires Parts(m, all) && t in m.tabs && |m.tabs[t]| == NPT
    ensures Parts(SetPte(m, t, v, e), all)
  {
    assert SetPte(m, t, v, e).tabs.Keys == m.tabs.Keys;
  }

  /** A page not mapped yet becomes owned by the entry that maps it. */
  lemma MapOwned(m: Mem, ta: Owner, pa: Owner, all: set<nat>, loose: set<nat>, d: nat, v: nat, t: nat, e: Pte)
    requires Owned(m, ta, pa, all, loose) && HasTable(m, d, v, t) && View(m, d, v).Absent?
    requires Owning(v, e) && e.frame in loose
    ensures var r := SetPte(m, t, v, e);
      Owned(r, ta, pa[e.frame := (d, v)], all, loose - {e.frame}) && ViewsBut(m, r, d, v, e)
  {
    hide View;
    hide TabsOwned;
    hide Parts;
    var r, f := SetPte(m, t, v, e), e.frame;
    var qa := pa[f := (d, v)];
    SetPteViews(m, ta, d, v, t, e);
    SetParts(m, t, v, e, all);
    forall g: nat | g in qa
      ensures MapsTo(r, qa[g].0, qa[g].1, g)
    {
      assert g != f ==> MapsTo(m, pa[g].0, pa[g].1, g);
    }
  }

  lemma KernelOwned(m: Mem, ta: Owner, pa: Owner, all: set<nat>, loose: set<nat>, d: nat, v: nat, t: nat, e: Pte)
    requires Owned(m, ta, pa, all, loose) && HasTable(m, d, v, t) && View(m, d, v).Absent? && !Owning(v, e)
    ensures var r := SetPte(m, t, v, e); Owned(r, ta, pa, all, loose) && ViewsBut(m, r, d, v, e)
  {
    hide View;
    hide TabsOwned;
    hide Parts;
    var r := SetPte(m, t, v, e);
    SetPteViews(m, ta, d, v, t, e);
    SetParts(m, t, v, e, all);
    forall g: nat | g in pa
      ensures MapsTo(r, pa[g].0, pa[g].1, g)
    {
      assert MapsTo(m, pa[g].0, pa[g].1, g);
    }
  }

  // ----- Unmapping a page -----

  /** The entry for page v is cleared and the page f goes to the front of the free list. */
  function Unmap(m: Mem, t: nat, v: nat, f: nat): Mem
    requires t in m.tabs && |m.tabs[t]| == NPT
  {
    SetPte(m, t, v, Absent).(free := [f] + m.free, data := m.data - {f})
  }

  lemma PushParts(m: Mem, r: Mem, all: set<nat>, f: nat)
    requires Parts(m, all) && r.free == [f] + m.free
    requires r.dirs.Keys + r.tabs.Keys + r.data.Keys + {f} == m.dirs.Keys + m.tabs.Keys + m.data.Keys
    requires f !in r.dirs && f !in r.tabs && f !in r.data
    requires r.dirs.Keys !! r.tabs.Keys && r.dirs.Keys !! r.data.Keys && r.tabs.Keys !! r.data.Keys
    ensures Parts(r, all)
  {
    assert f in m.dirs.Keys + m.tabs.Keys + m.data.Keys;
    assert forall g: nat :: g in r.free <==> g == f || g in m.free;
    forall g: nat
      ensures g in r.dirs || g in r.tabs || g in r.data || g == f <==> g in m.dirs || g in m.tabs || g in m.data
    {
      assert g in r.dirs.Keys + r.tabs.Keys + r.data.Keys + {f} <==> g in m.dirs.Keys + m.tabs.Keys + m.data.Keys;
    }
  }

  lemma UnmapPages(m: Mem, r: Mem, pa: Owner, loose: set<nat>, d: nat, v: nat, f: nat)
    requires Shaped(m) && Shaped(r) && PagesOwned(m, pa, loose) && MapsTo(m, d, v, f)
    requires ViewsBut(m, r, d, v, Absent) && r.data == m.data - {f}
    ensures f in m.data && f !in loose && PagesOwned(r, pa - {f}, loose) && f in pa && pa[f] == (d, v)
  {
    hide View;
    var qa := pa - {f};
    assert f in pa && pa[f] == (d, v);
    forall g: nat | g in qa
      ensures MapsTo(r, qa[g].0, qa[g].1, g)
    {
      assert MapsTo(m, pa[g].0, pa[g].1, g);
    }
    assert r.data.Keys == qa.Keys + loose;
  }

  lemma UnmapOwned(m: Mem, ta: Owner, pa: Owner, all: set<nat>, loose: set<nat>, d: nat, v: nat, t: nat, f: nat)
    requires Owned(m, ta, pa, all, loose) && HasTable(m, d, v, t) && MapsTo(m, d, v, f)
    ensures var r := Unmap(m, t, v, f);
      Owned(r, ta, pa - {f}, all, loose) && ViewsBut(m, r, d, v, Absent)
    ensures f in m.data && f !in loose && f in pa && pa[f] == (d, v)
  {
    hide View;
    hide TabsOwned;
    hide PagesOwned;
    hide ViewsBut;
    var s, r := SetPte(m, t, v, Absent), Unmap(m, t, v, f);
    SetPteViews(m, ta, d, v, t, Absent);
    FreeViews(s, r, ta);
    FreeBut(m, s, r, d, v);
    UnmapPages(m, r, pa, loose, d, v, f);
    assert r.tabs.Keys == m.tabs.Keys && r.data.Keys == m.data.Keys - {f};
    PushParts(m, r, all, f);
  }

  lemma FreeViews(s: Mem, r: Mem, ta: Owner)
    requires Shaped(s) && TabsOwned(s, ta) && r.dirs == s.dirs && r.tabs == s.tabs
    ensures Shaped(r) && TabsOwned(r, ta)
  {
  }

  lemma FreeBut(m: Mem, s: Mem, r: Mem, d: nat, v: nat)
    requires Shaped(m) && Shaped(s) && ViewsBut(m, s, d, v, Absent) && r.dirs == s.dirs && r.tabs == s.tabs && Shaped(r)
    ensures ViewsBut(m, r, d, v, Absent)
  {
    assert forall c: nat, w: nat :: View(r, c, w) == View(s, c, w);
  }

  // ----- Pages on their way between the free list and a mapping -----

  function TakePage(m: Mem, page: Page): Mem
    requires m.free != []
  {
    m.(free := m.free[1..], data := m.data[m.free[0] := page])
  }

  lemma TakeOwned(m: Mem, ta: Owner, pa: Owner, all: set<nat>, loose: set<nat>, page: Page)
    requires Owned(m, ta, pa, all, loose) && m.free != []
    ensures var r := TakePage(m, page);
      Owned(r, ta, pa, all, loose + {m.free[0]}) && SameViews(m, r) && m.free[0] !in m.data && m.free[0] !in loose
    ensures m.free[0] !in pa
  {
    hide TabsOwned;
    hide PagesOwned;
    hide View;
    hide SameViews;
    var r, f := TakePage(m, page), m.free[0];
    assert f in m.free;
    FreeViews(m, r, ta);
    assert r.data.Keys == m.data.Keys + {f};
    PopParts(m, r, all);
    TakePages(m, r, pa, loose, f);
  }

  lemma TakePages(m: Mem, r: Mem, pa: Owner, loose: set<nat>, f: nat)
    requires Shaped(m) && Shaped(r) && PagesOwned(m, pa, loose) && r.dirs == m.dirs && r.tabs == m.tabs
    requires f !in m.data && r.data.Keys == m.data.Keys + {f}
    ensures SameViews(m, r) && PagesOwned(r, pa, loose + {f}) && f !in loose && f !in pa
  {
    assert forall c: nat, w: nat :: View(r, c, w) == View(m, c, w);
    hide View;
    forall g: nat | g in pa
      ensures MapsTo(r, pa[g].0, pa[g].1, g)
    {
      assert MapsTo(m, pa[g].0, pa[g].1, g);
    }
  }

  function GivePage(m: Mem, f: nat): Mem {
    m.(free := [f] + m.free, data := m.data - {f})
  }

  lemma GiveOwned(m: Mem, ta: Owner, pa: Owner, all: set<nat>, loose: set<nat>, f: nat)
    requires Owned(m, ta, pa, all, loose) && f in loose
    ensures Owned(GivePage(m, f), ta, pa, all, loose - {f}) && SameViews(m, GivePage(m, f))
  {
    hide TabsOwned;
    hide View;
    hide SameViews;
    var r := GivePage(m, f);
    FreeViews(m, r, ta);
    assert r.data.Keys == m.data.Keys - {f};
    PushParts(m, r, all, f);
    GivePages(m, r, pa, loose, f);
  }

  lemma GivePages(m: Mem, r: Mem, pa: Owner, loose: set<nat>, f: nat)
    requires Shaped(m) && Shaped(r) && PagesOwned(m, pa, loose) && r.dirs == m.dirs && r.tabs == m.tabs
    requires f in loose && r.data.Keys == m.data.Keys - {f}
    ensures SameViews(m, r) && PagesOwned(r, pa, loose - {f})
  {
    assert forall c: nat, w: nat :: View(r, c, w) == View(m, c, w);
    hide View;
    forall g: nat | g in pa
      ensures MapsTo(r, pa[g].0, pa[g].1, g)
    {
      assert MapsTo(m, pa[g].0, pa[g].1, g);
    }
  }

  // ----- A new directory -----

  function AddDir(m: Mem): Mem
    requires m.free != []
  {
    m.(free := m.free[1..], dirs := m.dirs[m.free[0] := Zeros()])
  }

  lemma AddDirOwned(m: Mem, ta: Owner, pa: Owner, all: set<nat>, loose: set<nat>)
    requires Owned(m, ta, pa, all, loose) && m.free != []
    ensures Owned(AddDir(m), ta, pa, all, loose) && SameViews(m, AddDir(m)) && m.free[0] !in m.dirs
  {
    hide PagesOwned;
    var r, d := AddDir(m), m.free[0];
    assert d in m.free;
    assert r.dirs.Keys == m.dirs.Keys + {d};
    PopParts(m, r, all);
    forall c: nat, w: nat
      ensures View(r, c, w) == View(m, c, w)
    {
    }
    OwnedSame(m, r, pa, loose);
  }

  // ----- Freeing the tables of a directory, then the directory -----

  /** The first n entries of a directory, whose tables are freed already, count as absent. */
  function Cleared(dir: seq<Pte>, n: nat): (r: seq<Pte>)
    requires n <= |dir|
    ensures |r| == |dir|
    ensures forall i: nat :: i < |dir| ==> r[i] == (if i < n then Absent else dir[i])
  {
    seq(|dir|, i requires 0 <= i < |dir| => if i < n then Absent else dir[i])
  }

  /** The memory as it is once those entries are disregarded. */
  function Disregard(m: Mem, d: nat, n: nat): Mem
    requires d in m.dirs && n <= |m.dirs[d]|
  {
    m.(dirs := m.dirs[d := Cleared(m.dirs[d], n)])
  }

  /** Page f is owned by entry i's table of directory d. */
  predicate Under(pa: Owner, f: nat, d: nat, i: nat) {
    f in pa && pa[f].0 == d && pa[f].1 / NPT == i
  }

  function Without(pa: Owner, d: nat, i: nat): Owner {
    map f | f in pa && !Under(pa, f, d, i) :: pa[f]
  }

  function Lost(pa: Owner, d: nat, i: nat): set<nat> {
    set f | f in pa && Under(pa, f, d, i)
  }

  /** Table t of entry i is freed. */
  function DropTable(m: Mem, d: nat, i: nat): Mem
    requires d in m.dirs && i < |m.dirs[d]| && m.dirs[d][i].Maps?
  {
    var t := m.dirs[d][i].frame;
    Mem([t] + m.free, m.dirs[d := m.dirs[d][i := Absent]], m.tabs - {t}, m.data)
  }

  lemma DropTableTabs(m: Mem, ta: Owner, d: nat, i: nat)
    requires Shaped(m) && TabsOwned(m, ta) && d in m.dirs && i < NPT && m.dirs[d][i].Maps?
    ensures Shaped(DropTable(m, d, i)) && TabsOwned(DropTable(m, d, i), ta - {m.dirs[d][i].frame})
    ensures m.dirs[d][i].frame in m.tabs
  {
    var t, r := m.dirs[d][i].frame, DropTable(m, d, i);
    assert t in ta && ta[t] == (d, i);
    assert r.tabs.Keys == m.tabs.Keys - {t};
  }

  lemma DropTableViews(m: Mem, ta: Owner, d: nat, i: nat)
    requires Shaped(m) && TabsOwned(m, ta) && d in m.dirs && i < NPT && m.dirs[d][i].Maps?
    ensures Shaped(DropTable(m, d, i))
    ensures forall c: nat, w: nat :: View(DropTable(m, d, i), c, w) == (if c == d && w / NPT == i then Absent else View(m, c, w))
  {
    var t, r := m.dirs[d][i].frame, DropTable(m, d, i);
    assert t in ta && ta[t] == (d, i);
    forall c: nat, w: nat
      ensures View(r, c, w) == (if c == d && w / NPT == i then Absent else View(m, c, w))
    {
      if c in m.dirs && w < NPAGES && m.dirs[c][w / NPT].Maps? {
        assert ta[m.dirs[c][w / NPT].frame] == (c, w / NPT);
      }
    }
  }

  lemma DropTablePages(m: Mem, r: Mem, pa: Owner, loose: set<nat>, d: nat, i: nat)
    requires Shaped(m) && Shaped(r) && PagesOwned(m, pa, loose) && r.data == m.data
    requires forall c: nat, w: nat :: View(r, c, w) == (if c == d && w / NPT == i then Absent else View(m, c, w))
    ensures PagesOwned(r, Without(pa, d, i), loose + Lost(pa, d, i))
  {
    hide View;
    var qa := Without(pa, d, i);
    forall g: nat | g in qa
      ensures MapsTo(r, qa[g].0, qa[g].1, g)
    {
      assert MapsTo(m, pa[g].0, pa[g].1, g);
    }
    assert qa.Keys + (loose + Lost(pa, d, i)) == pa.Keys + loose;
  }

  lemma DropTableOwned(m: Mem, ta: Owner, pa: Owner, all: set<nat>, loose: set<nat>, d: nat, i: nat)
    requires Owned(m, ta, pa, all, loose) && d in m.dirs && i < NPT && m.dirs[d][i].Maps?
    ensures var t := m.dirs[d][i].frame;
      && Owned(DropTable(m, d, i), ta - {t}, Without(pa, d, i), all, loose + Lost(pa, d, i)) && t in m.tabs
    ensures forall c: nat, w: nat :: View(DropTable(m, d, i), c, w) == (if c == d && w / NPT == i then Absent else View(m, c, w))
  {
    hide View;
    hide TabsOwned;
    hide PagesOwned;
    var t, r := m.dirs[d][i].frame, DropTable(m, d, i);
    DropTableTabs(m, ta, d, i);
    DropTableViews(m, ta, d, i);
    DropTablePages(m, r, pa, loose, d, i);
    assert r.tabs.Keys == m.tabs.Keys - {t} && r.dirs.Keys == m.dirs.Keys;
    PushParts(m, r, all, t);
  }

  function DropDir(m: Mem, d: nat): Mem {
    m.(free := [d] + m.free, dirs := m.dirs - {d})
  }

  lemma DropDirOwned(m: Mem, ta: Owner, pa: Owner, all: set<nat>, loose: set<nat>, d: nat)
    requires Owned(m, ta, pa, all, loose) && d in m.dirs && forall i: nat :: i < NPT ==> m.dirs[d][i].Absent?
    ensures Owned(DropDir(m, d), ta, pa, all, loose) && SameViews(m, DropDir(m, d))
  {
    hide PagesOwned;
    var r := DropDir(m, d);
    assert r.dirs.Keys == m.dirs.Keys - {d};
    PushParts(m, r, all, d);
    forall c: nat, w: nat
      ensures View(r, c, w) == View(m, c, w)
    {
    }
    OwnedSame(m, r, pa, loose);
  }
}
