// Populated memory mappings (proc.c): mmap fills an area of the address space with new
// pages and munmap takes exactly those pages away again.
module Mmap {
  import opened Common
  import opened Pages
  import opened Spaces
  import opened PageTables

  const NAREA: nat := 64
  const PROT_READ: nat := 1
  const PROT_WRITE: nat := 2
  const MAP_ANONYMOUS: nat := 1
  const MAP_POPULATE: nat := 2

  predicate WellFormed(a: Area) {
    a.addr % PGSIZE == 0 && a.addr < WORDMAX && a.length % PGSIZE == 0 && a.length < SIGNED
  }

  /** The end of an area as the kernel computes it, in 32 bits. */
  function End(addr: nat, length: int): nat { (addr + length) % WORDMAX }

  predicate Apart(a: Area, start: nat, end: nat) {
    a.status == 0 || end <= a.addr || End(a.addr, a.length) <= start
  }

  /** No live area is in the way of a new one. */
  predicate AllApart(areas: seq<Area>, start: nat, length: int) {
    forall i :: 0 <= i < |areas| ==> Apart(areas[i], start, End(start, length))
  }

  predicate Mine(a: Area, addr: nat, proc: nat) {
    a.addr == addr && a.proc == proc && a.status != 0
  }

  /** Lengths are whole pages and no area wraps around the address space. */
  predicate NoWrap(areas: seq<Area>) {
    forall i :: 0 <= i < |areas| && areas[i].status != 0 ==>
      areas[i].length % PGSIZE == 0 && areas[i].addr + areas[i].length < WORDMAX
  }

  predicate Ordinary(areas: seq<Area>) {
    NoWrap(areas) && forall i :: 0 <= i < |areas| && areas[i].status != 0 ==> areas[i].length > 0
  }

  /** An ordinary area at the same address is in the way of a new one. */
  lemma SameStart(a: Area, start: nat, length: int, proc: nat)
    requires a.status != 0 && a.length > 0 && a.addr + a.length < WORDMAX && length > 0 && start + length < WORDMAX
    requires Apart(a, start, End(start, length))
    ensures !Mine(a, start, proc)
  {
  }

  predicate Within(x: int, start: nat, length: int) {
    start <= x < start + length
  }

  /** Two areas share an address. */
  ghost predicate Overlap(a: Area, start: nat, length: int) {
    exists x :: Within(x, a.addr, a.length) && Within(x, start, length)
  }

  /** Without wrapping the kernel's test finds exactly the areas in the way. */
  lemma ApartExact(a: Area, start: nat, length: int)
    requires a.status != 0 && a.length > 0 && a.addr + a.length < WORDMAX && length > 0 && start + length < WORDMAX
    ensures Apart(a, start, End(start, length)) <==> !Overlap(a, start, length)
  {
    var x := if a.addr < start then start else a.addr;
    if a.addr < start + length && start < a.addr + a.length {
      assert Within(x, a.addr, a.length) && Within(x, start, length);
    }
  }

  /** One that wraps is tested with an end below its start, and no area from there on is in its way. */
  lemma WrappedApart(a: Area, start: nat, length: int)
    requires start < WORDMAX <= start + length && length < SIGNED && start <= a.addr && a.length > 0
    ensures Apart(a, start, End(start, length)) && (a.addr < start + length ==> Overlap(a, start, length))
  {
    if a.addr < start + length {
      assert Within(a.addr, a.addr, a.length) && Within(a.addr, start, length);
    }
  }

  function FirstUnused(areas: seq<Area>, k: nat := 0): (r: nat)
    requires k <= |areas|
    ensures k <= r <= |areas| && (r < |areas| ==> areas[r].status == 0)
    ensures forall j :: k <= j < r ==> areas[j].status != 0
    decreases |areas| - k
  {
    if k == |areas| || areas[k].status == 0 then k else FirstUnused(areas, k + 1)
  }

  /** The area munmap picks. */
  function FirstMine(areas: seq<Area>, addr: nat, proc: nat, k: nat := 0): (r: nat)
    requires k <= |areas|
    ensures k <= r <= |areas| && (r < |areas| ==> Mine(areas[r], addr, proc))
    ensures forall j :: k <= j < r ==> !Mine(areas[j], addr, proc)
    decreases |areas| - k
  {
    if k == |areas| || Mine(areas[k], addr, proc) then k else FirstMine(areas, addr, proc, k + 1)
  }

  /** The page permissions mmap sets: prot's write bit and the user bit. */
  function Perm(prot: nat): nat { prot / PROT_WRITE % 2 * PTE_W + PTE_U }

  function Contents(flags: nat, pages: seq<Page>): (r: seq<Page>)
    ensures |r| == |pages|
  {
    if flags % 2 == MAP_ANONYMOUS then seq(|pages|, _ => ZeroPage()) else pages
  }

  // ----- A range of pages that may wrap around -----

  /** Page v is one of the n pages from lo on, in the cyclic order of addresses. */
  predicate InCycle(v: nat, lo: nat, n: int) {
    v < NPAGES && (v - lo) % NPAGES < n
  }

  ghost predicate Gone(m0: Mem, m: Mem, d: nat, lo: nat, n: int)
    requires Shaped(m0) && Shaped(m)
  {
    forall v: nat :: View(m, d, v) == if InCycle(v, lo, n) then Absent else View(m0, d, v)
  }

  /** A present entry that owns nothing. */
  ghost predicate IsKernelPte(m: Mem, d: nat, v: nat)
    requires Shaped(m)
  {
    View(m, d, v).Maps? && !Owning(v, View(m, d, v))
  }

  lemma CycleStep(v: nat, lo: nat, n: nat)
    requires lo < NPAGES && n < NPAGES
    ensures InCycle(v, lo, n + 1) <==> InCycle(v, lo, n) || v == (lo + n) % NPAGES
    ensures InCycle((lo + n) % NPAGES, lo, n + 1) && !InCycle((lo + n) % NPAGES, lo, n)
  {
  }

  lemma GoneStart(m: Mem, d: nat, lo: nat, n: int)
    requires Shaped(m)
    ensures Gone(m, m, d, lo, 0) && (n <= 0 ==> Gone(m, m, d, lo, n))
  {
  }

  lemma PageNumber(start: nat, n: nat)
    requires start % PGSIZE == 0
    ensures (start + n * PGSIZE) % WORDMAX / PGSIZE == (start / PGSIZE + n) % NPAGES
  {
    var p := start / PGSIZE + n;
    assert start + n * PGSIZE == p * PGSIZE;
    assert p == p / NPAGES * NPAGES + p % NPAGES;
    assert p * PGSIZE == p / NPAGES * WORDMAX + p % NPAGES * PGSIZE;
  }

  /** The next page still has its entry. */
  lemma GoneAt(m0: Mem, m: Mem, d: nat, lo: nat, n: nat, all: nat)
    requires Shaped(m0) && Shaped(m) && Gone(m0, m, d, lo, n) && lo < NPAGES && n < all <= NPAGES
    ensures var v := (lo + n) % NPAGES; View(m, d, v) == View(m0, d, v) && InCycle(v, lo, all)
  {
    CycleStep((lo + n) % NPAGES, lo, n);
  }

  lemma GoneMore(m0: Mem, m: Mem, r: Mem, d: nat, lo: nat, n: nat)
    requires Shaped(m0) && Shaped(m) && Shaped(r) && Gone(m0, m, d, lo, n) && lo < NPAGES && n < NPAGES
    requires var v := (lo + n) % NPAGES; ViewsBut(m, r, d, v, Absent) || (r == m && View(m, d, v).Absent?)
    ensures Gone(m0, r, d, lo, n + 1)
  {
    hide View;
    hide InCycle;
    forall v: nat
      ensures View(r, d, v) == if InCycle(v, lo, n + 1) then Absent else View(m0, d, v)
    {
      CycleStep(v, lo, n);
    }
  }

  /** Without wrapping it is an interval. */
  lemma GoneInterval(m0: Mem, m: Mem, d: nat, lo: nat, hi: nat)
    requires Shaped(m0) && Shaped(m) && Gone(m0, m, d, lo, hi - lo) && lo <= hi <= NPAGES
    ensures Unmapped(m0, m, d, lo, hi)
  {
    hide View;
    var n := hi - lo;
    forall v: nat
      ensures InCycle(v, lo, n) <==> lo <= v < hi
    {
    }
  }

  datatype Release = Released | NoTable | KernelPage

  /** Corrupt: munmap hands kfree a page of the kernel's, which panics or breaks the free list. */
  datatype Undone = Done | Err | Corrupt

  // ----- A range filled page by page -----

  ghost predicate Populated(m0: Mem, m: Mem, d: nat, lo: nat, hi: nat, perm: nat, pages: seq<Page>)
    requires Shaped(m0) && Shaped(m) && lo <= hi && hi - lo <= |pages|
  {
    forall v: nat ::
      if lo <= v < hi then
        var e := View(m, d, v);
        e.Maps? && e.perm == perm && e.frame !in m0.data && e.frame in m.data && m.data[e.frame] == pages[v - lo]
      else View(m, d, v) == View(m0, d, v)
  }

  /** User pages, writable exactly when asked for, that are zero or hold the file's pages. */
  ghost predicate MappedAs(m: Mem, d: nat, lo: nat, hi: nat, prot: nat, flags: nat, pages: seq<Page>)
    requires Shaped(m) && hi - lo <= |pages|
  {
    forall v: nat :: lo <= v < hi ==>
      var e := View(m, d, v);
      && e.Maps? && e.frame in m.data && e.perm / PTE_U % 2 == 1
      && (e.perm / PTE_W % 2 == 1 <==> prot == PROT_READ + PROT_WRITE)
      && m.data[e.frame] == if flags in {0, MAP_POPULATE} then pages[v - lo] else ZeroPage()
  }

  lemma PopulatedAs(m0: Mem, m: Mem, d: nat, lo: nat, hi: nat, prot: nat, flags: nat, pages: seq<Page>)
    requires Shaped(m0) && Shaped(m) && lo <= hi && hi - lo <= |pages|
    requires prot in {PROT_READ, PROT_READ + PROT_WRITE} && flags <= MAP_ANONYMOUS + MAP_POPULATE
    requires Populated(m0, m, d, lo, hi, Perm(prot), Contents(flags, pages))
    ensures MappedAs(m, d, lo, hi, prot, flags, pages)
  {
    hide View;
    assert Perm(PROT_READ) == PTE_U && Perm(PROT_READ + PROT_WRITE) == PTE_W + PTE_U;
  }

  ghost predicate SameSpace(m0: Mem, m: Mem, d: nat)
    requires Shaped(m0) && Shaped(m)
  {
    forall v: nat :: View(m, d, v) == View(m0, d, v)
  }

  /** Some of the pages lo to hi - 1 are populated and left so, at least one if three pages were free; the rest is as before. */
  ghost predicate Half(m0: Mem, m: Mem, d: nat, lo: nat, hi: nat, perm: nat, pages: seq<Page>)
    requires Shaped(m0) && Shaped(m) && lo <= hi && hi - lo <= |pages|
  {
    exists a: nat :: lo <= a < hi && |m0.free| <= 2 * (a - lo + 1) && Populated(m0, m, d, lo, a, perm, pages)
  }

  lemma HalfIs(m0: Mem, m: Mem, d: nat, lo: nat, hi: nat, perm: nat, pages: seq<Page>, a: nat)
    requires Shaped(m0) && Shaped(m) && lo <= a < hi && hi - lo <= |pages|
    requires Populated(m0, m, d, lo, a, perm, pages) && |m0.free| <= 2 * (a - lo + 1)
    ensures Half(m0, m, d, lo, hi, perm, pages)
  {
    hide Populated;
  }

  lemma PopulatedSame(m0: Mem, m: Mem, r: Mem, d: nat, lo: nat, hi: nat, perm: nat, pages: seq<Page>)
    requires Shaped(m0) && Shaped(m) && Shaped(r) && lo <= hi && hi - lo <= |pages|
    requires Populated(m0, m, d, lo, hi, perm, pages) && SameSpace(m, r, d) && Keeps(m.data, r.data)
    ensures Populated(m0, r, d, lo, hi, perm, pages)
  {
    hide View;
  }

  lemma PopulatedStart(m: Mem, d: nat, lo: nat, perm: nat, pages: seq<Page>)
    requires Shaped(m)
    ensures Populated(m, m, d, lo, lo, perm, pages)
  {
  }

  lemma PopulatedMore(m0: Mem, m: Mem, r: Mem, d: nat, lo: nat, a: nat, perm: nat, pages: seq<Page>, f: nat)
    requires Shaped(m0) && Shaped(m) && Shaped(r) && lo <= a && a + 1 - lo <= |pages|
    requires Populated(m0, m, d, lo, a, perm, pages) && RangeMapped(m, r, d, a, 1, f, perm)
    requires Keeps(m0.data, m.data) && f !in m.data && r.data == m.data[f := pages[a - lo]]
    ensures Populated(m0, r, d, lo, a + 1, perm, pages) && Keeps(m0.data, r.data)
  {
    hide View;
  }

  /** Unmapping what was populated gives the entries back. */
  lemma PopulatedUndone(m0: Mem, m1: Mem, m: Mem, d: nat, lo: nat, hi: nat, perm: nat, pages: seq<Page>)
    requires Shaped(m0) && Shaped(m1) && Shaped(m) && lo <= hi && hi - lo <= |pages|
    requires Populated(m0, m1, d, lo, hi, perm, pages) && Unmapped(m1, m, d, lo, hi)
    requires forall v: nat :: lo <= v < hi ==> View(m0, d, v).Absent?
    ensures forall v: nat :: View(m, d, v) == View(m0, d, v)
  {
    hide View;
  }

  /** Equal entries mean equal owners, so the same data pages. */
  lemma AllBack(m0: Mem, ta0: Owner, pa0: Owner, all: set<nat>, loose: set<nat>, m: Mem, ta: Owner, pa: Owner)
    requires Owned(m0, ta0, pa0, all, loose) && Owned(m, ta, pa, all, loose) && SameViews(m0, m)
    requires forall f: nat :: f in m.data && f in m0.data ==> m.data[f] == m0.data[f]
    ensures pa == pa0 && m.data == m0.data
  {
    hide View;
    hide Parts;
    hide TabsOwned;
    forall g: nat
      ensures g in pa <==> g in pa0
      ensures g in pa ==> pa[g] == pa0[g]
    {
      assert g in pa ==> MapsTo(m, pa[g].0, pa[g].1, g);
      assert g in pa0 ==> MapsTo(m0, pa0[g].0, pa0[g].1, g);
    }
    assert pa == pa0;
    assert m.data.Keys == m0.data.Keys;
  }

  lemma SameEverywhere(m0: Mem, ta0: Owner, pa0: Owner, all: set<nat>, loose: set<nat>, m: Mem, ta: Owner, pa: Owner, d: nat)
    requires Owned(m0, ta0, pa0, all, loose) && Owned(m, ta, pa, all, loose) && OnlyDir(m0, ta0, pa0, m, ta, pa, d)
    requires forall v: nat :: View(m, d, v) == View(m0, d, v)
    ensures SameViews(m0, m)
  {
    hide Owned;
    hide OnlyDir;
    hide View;
    OwnedShaped(m0, ta0, pa0, all, loose);
    OwnedShaped(m, ta, pa, all, loose);
    forall c: nat, v: nat
      ensures View(m, c, v) == View(m0, c, v)
    {
      if c != d {
        OnlyViews(m0, ta0, pa0, m, ta, pa, d, all, loose, loose, c, v);
      }
    }
  }

  datatype Answer = Refused | At(addr: nat) | Failed | MapPanic

  class Mmaps {
    const vm: Vm
    var areas: seq<Area>

    ghost predicate Valid()
      reads this, vm
    {
      vm.Valid() && |areas| == NAREA && forall i :: 0 <= i < NAREA && areas[i].status != 0 ==> WellFormed(areas[i])
    }

    constructor (vm: Vm)
      requires vm.Valid()
      ensures Valid() && this.vm == vm && Ordinary(areas) && forall i :: 0 <= i < NAREA ==> areas[i].status == 0
    {
      this.vm := vm;
      areas := seq(NAREA, _ => Area(0, 0, 0, 0, 0, 0));
    }

    /** The overlap test; false means some live area is in the way. */
    method Clear(start: nat, length: int) returns (ok: bool)
      ensures ok <==> AllApart(areas, start, length)
    {
      var i := 0;
      while i < |areas|
        invariant 0 <= i <= |areas|
        invariant forall j :: 0 <= j < i ==> Apart(areas[j], start, End(start, length))
      {
        if !Apart(areas[i], start, End(start, length)) {
          return false;
        }
        i := i + 1;
      }
      return true;
    }

    method Unused() returns (i: nat)
      ensures i == FirstUnused(areas)
    {
      i := 0;
      while i < |areas| && areas[i].status != 0
        invariant 0 <= i <= |areas| && FirstUnused(areas) == FirstUnused(areas, i)
      {
        i := i + 1;
      }
    }

    /** One page allocated, filled and mapped at page v. */
    method PopulateOne(d: nat, v: nat, page: Page, perm: nat) returns (r: Mapped, f: nat)
      requires vm.Valid() && d in vm.dirs && v < NPAGES && perm / PTE_U % 2 == 1
      modifies vm
      ensures vm.all == old(vm.all) && vm.Valid() && d in vm.dirs
      ensures r == Mapped ==>
        && OnlyDir(old(vm.M()), old(vm.tabAt), old(vm.pageAt), vm.M(), vm.tabAt, vm.pageAt, d)
        && vm.loose == old(vm.loose) && f !in old(vm.data) && f !in old(vm.pageAt)
        && vm.data == old(vm.data)[f := page] && vm.pageAt == old(vm.pageAt)[f := (d, v)]
        && RangeMapped(old(vm.M()), vm.M(), d, v, 1, f, perm) && View(old(vm.M()), d, v).Absent?
      ensures r == Remap ==> View(old(vm.M()), d, v).Maps?
      ensures r == NoMemory ==> SameSpace(old(vm.M()), vm.M(), d) && Keeps(old(vm.data), vm.data)
      ensures |vm.free| + 2 >= |old(vm.free)| && (r == NoMemory ==> |old(vm.free)| <= 2)
      ensures r == Mapped ==> |vm.free| < |old(vm.free)|
    {
      hide Parts;
      hide TabsOwned;
      hide PagesOwned;
      hide View;
      hide OnlyDir;
      hide RangeMapped;
      hide SameViews;
      ghost var m, ta, pa := vm.M(), vm.tabAt, vm.pageAt;
      f := vm.NewPage(page);
      ghost var m2 := vm.M();
      SameSpaceVia(m, m2, m2, d, v, 0, perm);
      if f == 0 {
        return NoMemory, 0;
      }
      r := vm.Mappages(d, v * PGSIZE, PGSIZE, f * PGSIZE, perm);
      RangeVia(m, m2, vm.M(), d, v, f, perm, r);
      if r == NoMemory {
        SameSpaceVia(m, m2, vm.M(), d, v, f, perm);
      }
      if r == Mapped {
        OnlyTrans(m, ta, pa, m2, ta, pa, vm.M(), vm.tabAt, vm.pageAt, d);
        assert vm.loose == old(vm.loose);
      }
    }

    /** Pages lo to a - 1 of d are populated; m0, ta0, pa0 and l0 are the state before. */
    ghost predicate Filling(m0: Mem, ta0: Owner, pa0: Owner, l0: set<nat>, d: nat, lo: nat, a: nat, perm: nat, pages: seq<Page>)
      requires Shaped(m0) && lo <= a && a - lo <= |pages|
      reads vm
    {
      && vm.Valid() && d in vm.dirs && vm.loose == l0
      && OnlyDir(m0, ta0, pa0, vm.M(), vm.tabAt, vm.pageAt, d)
      && Populated(m0, vm.M(), d, lo, a, perm, pages) && Keeps(m0.data, vm.data)
    }

    /** The populating loop of mmap. */
    method Populate(d: nat, start: nat, length: int, perm: nat, pages: seq<Page>) returns (r: Mapped)
      requires vm.Valid() && d in vm.dirs && start % PGSIZE == 0 && start < WORDMAX && perm / PTE_U % 2 == 1
      requires length % PGSIZE == 0 && length <= |pages| * PGSIZE
      modifies vm
      ensures vm.all == old(vm.all) && vm.Valid() && d in vm.dirs
      ensures r == Mapped && length > 0 && start + length <= WORDMAX ==>
        Filling(old(vm.M()), old(vm.tabAt), old(vm.pageAt), old(vm.loose), d, start / PGSIZE, (start + length) / PGSIZE, perm, pages)
      ensures r == Mapped && length > 0 && start + length <= WORDMAX ==>
        forall v: nat :: start / PGSIZE <= v < (start + length) / PGSIZE ==> View(old(vm.M()), d, v).Absent?
      ensures r == NoMemory ==> |old(vm.free)| <= 2 * (length / PGSIZE)
      ensures r == NoMemory && start + length <= WORDMAX ==>
        Half(old(vm.M()), vm.M(), d, start / PGSIZE, (start + length) / PGSIZE, perm, pages)
      ensures r == Mapped && length > 0 ==> length / PGSIZE <= |old(vm.free)|
      ensures r == Remap && start + length <= WORDMAX ==>
        exists v: nat :: start / PGSIZE <= v < (start + length) / PGSIZE && View(old(vm.M()), d, v).Maps?
    {
      hide Parts;
      hide TabsOwned;
      hide PagesOwned;
      hide View;
      hide OnlyDir;
      hide Populated;
      hide RangeMapped;
      hide Keeps;
      ghost var m0, ta0, pa0, l0 := vm.M(), vm.tabAt, vm.pageAt, vm.loose;
      var lo, n := start / PGSIZE, 0;
      OnlyRefl(m0, ta0, pa0, vm.all, l0, d);
      PopulatedStart(m0, d, lo, perm, pages);
      KeepsMore(m0.data, m0.data, 0);
      while n * PGSIZE < length
        invariant 0 <= n && (n == 0 || n * PGSIZE <= length)
        invariant vm.all == old(vm.all) && vm.Valid() && d in vm.dirs
        invariant n == 0 || start + length > WORDMAX || Filling(m0, ta0, pa0, l0, d, lo, lo + n, perm, pages)
        invariant n == 0 ==> Filling(m0, ta0, pa0, l0, d, lo, lo, perm, pages)
        invariant |vm.free| + 2 * n >= |m0.free| && |vm.free| + n <= |m0.free|
        invariant start + length <= WORDMAX ==> forall v: nat :: lo <= v < lo + n ==> View(m0, d, v).Absent?
        decreases length - n * PGSIZE
      {
        ghost var m, ta, pa := vm.M(), vm.tabAt, vm.pageAt;
        var v := (start + n * PGSIZE) % WORDMAX / PGSIZE;
        var f;
        r, f := PopulateOne(d, v, pages[n], perm);
        if r != Mapped {
          if start + length <= WORDMAX {
            PopulatedOutside(m0, m, d, lo, v, perm, pages, v);
            if r == NoMemory {
              PopulatedSame(m0, m, vm.M(), d, lo, v, perm, pages);
              HalfIs(m0, vm.M(), d, lo, (start + length) / PGSIZE, perm, pages, v);
            }
          }
          return;
        }
        if start + length <= WORDMAX {
          assert v == lo + n;
          OnlyTrans(m0, ta0, pa0, m, ta, pa, vm.M(), vm.tabAt, vm.pageAt, d);
          PopulatedMore(m0, m, vm.M(), d, lo, v, perm, pages, f);
          PopulatedOutside(m0, m, d, lo, v, perm, pages, v);
        }
        n := n + 1;
      }
      return Mapped;
    }

    /** mmap of process proc, whose page directory is d.  fdOk says the file arguments pass their
        checks; pages[i] is what reading the file gives for page i. */
    method Mmap(d: nat, proc: nat, addr: nat, length: int, prot: nat, flags: nat, fdOk: bool, pages: seq<Page>)
      returns (r: Answer)
      requires Valid() && d in vm.dirs && addr < WORDMAX && length < SIGNED && length <= |pages| * PGSIZE
      modifies this, vm
      ensures Valid() && d in vm.dirs && vm.all == old(vm.all)
      ensures r == Refused ==> areas == old(areas) && vm.M() == old(vm.M())
      ensures r == Refused <==>
        || addr % PGSIZE != 0 || length == 0 || length % PGSIZE != 0 || !fdOk
        || prot !in {PROT_READ, PROT_READ + PROT_WRITE} || flags > MAP_ANONYMOUS + MAP_POPULATE
        || FirstUnused(old(areas)) == NAREA
        || !AllApart(old(areas), (addr + MMAPBASE) % WORDMAX, length)
      ensures r == MapPanic ==> flags / MAP_POPULATE == 1
      ensures r == MapPanic && (addr + MMAPBASE) % WORDMAX + length <= WORDMAX ==>
        var start := (addr + MMAPBASE) % WORDMAX;
        exists v: nat :: start / PGSIZE <= v < (start + length) / PGSIZE && View(old(vm.M()), d, v).Maps?
      ensures r == Failed ==> flags / MAP_POPULATE == 1 && |old(vm.free)| <= 2 * (length / PGSIZE)
      ensures r in {Failed, MapPanic} ==>
        var start, k := (addr + MMAPBASE) % WORDMAX, FirstUnused(old(areas));
        k < NAREA && areas == old(areas)[k := Area(start, length, prot, flags, proc, -1)]
      ensures r == Failed && length > 0 && (addr + MMAPBASE) % WORDMAX + length <= WORDMAX ==>
        var start := (addr + MMAPBASE) % WORDMAX;
        Half(old(vm.M()), vm.M(), d, start / PGSIZE, (start + length) / PGSIZE, Perm(prot), Contents(flags, pages))
      ensures flags / MAP_POPULATE == 1 && length > |old(vm.free)| * PGSIZE ==> !r.At?
      ensures r.At? ==>
        var start, k := (addr + MMAPBASE) % WORDMAX, FirstUnused(old(areas));
        && r.addr == start && start % PGSIZE == 0 && k < NAREA
        && AllApart(old(areas), start, length)
        && areas == old(areas)[k := Area(start, length, prot, flags, proc, if flags / MAP_POPULATE == 1 then 1 else -1)]
      ensures r.At? && flags / MAP_POPULATE == 0 ==> vm.M() == old(vm.M())
      ensures r.At? && flags / MAP_POPULATE == 1 && length > 0 && r.addr + length <= WORDMAX ==>
        var lo, hi := r.addr / PGSIZE, (r.addr + length) / PGSIZE;
        && Filling(old(vm.M()), old(vm.tabAt), old(vm.pageAt), old(vm.loose), d, lo, hi, Perm(prot), Contents(flags, pages))
        && (forall v: nat :: lo <= v < hi ==> View(old(vm.M()), d, v).Absent?)
    {
      hide Vm.Valid;
      hide OnlyDir;
      hide Half;
      hide Populated;
      hide Keeps;
      if addr % PGSIZE != 0 {
        return Refused;
      }
      var start := (addr + MMAPBASE) % WORDMAX;
      if length == 0 || length % PGSIZE != 0 {
        return Refused;
      }
      if prot != PROT_READ && prot != PROT_READ + PROT_WRITE {
        return Refused;
      }
      if flags > MAP_ANONYMOUS + MAP_POPULATE || !fdOk {
        return Refused;
      }
      var ok := Clear(start, length);
      if !ok {
        return Refused;
      }
      var k := Unused();
      if k == NAREA {
        return Refused;
      }
      areas := areas[k := Area(start, length, prot, flags, proc, -1)];
      if flags / MAP_POPULATE == 0 {
        return At(start);
      }
      var got := Populate(d, start, length, Perm(prot), Contents(flags, pages));
      if got != Mapped {
        return if got == Remap then MapPanic else Failed;
      }
      areas := areas[k := areas[k].(status := 1)];
      return At(start);
    }

    /** One turn of munmap's loop: the page of address v, if there is one, is freed. */
    method UnmapAt(d: nat, v: nat) returns (r: Release)
      requires vm.Valid() && d in vm.dirs && v < NPAGES
      modifies vm
      ensures vm.all == old(vm.all) && vm.Valid() && vm.dirs == old(vm.dirs) && vm.loose == old(vm.loose)
      ensures vm.tabAt == old(vm.tabAt) && OnlyDir(old(vm.M()), vm.tabAt, old(vm.pageAt), vm.M(), vm.tabAt, vm.pageAt, d)
      ensures forall f: nat :: f in vm.data ==> f in old(vm.data) && vm.data[f] == old(vm.data)[f]
      ensures r != Released ==> vm.M() == old(vm.M())
      ensures match r
        case Released => ViewsBut(old(vm.M()), vm.M(), d, v, Absent) || (vm.M() == old(vm.M()) && View(vm.M(), d, v).Absent?)
        case NoTable => View(vm.M(), d, v).Absent?
        case KernelPage => IsKernelPte(vm.M(), d, v)
    {
      hide Parts;
      hide TabsOwned;
      hide PagesOwned;
      hide View;
      hide OnlyDir;
      hide HasTable;
      hide ViewsBut;
      ghost var m := vm.M();
      OnlyRefl(m, vm.tabAt, vm.pageAt, vm.all, vm.loose, d);
      r := Released;
      var t := vm.Walkpgdir(d, v, false);
      if t.None? {
        return NoTable;
      }
      HasView(m, d, v, t.value);
      if vm.tabs[t.value][v % NPT].Maps? {
        if Owning(v, vm.tabs[t.value][v % NPT]) {
          vm.UnmapPage(d, v, t.value);
        } else {
          r := KernelPage;
        }
      }
    }

    /** The unmapping loop of munmap, over addresses that wrap around. */
    method UnmapArea(d: nat, start: nat, length: int) returns (r: Release)
      requires vm.Valid() && d in vm.dirs && start % PGSIZE == 0 && start < WORDMAX && length % PGSIZE == 0 && length < SIGNED
      modifies vm
      ensures vm.all == old(vm.all) && vm.Valid() && vm.dirs.Keys == old(vm.dirs).Keys && vm.loose == old(vm.loose)
      ensures OnlyDir(old(vm.M()), old(vm.tabAt), old(vm.pageAt), vm.M(), vm.tabAt, vm.pageAt, d)
      ensures forall f: nat :: f in vm.data ==> f in old(vm.data) && vm.data[f] == old(vm.data)[f]
      ensures length <= 0 ==> r == Released && vm.M() == old(vm.M())
      ensures match r
        case Released => Gone(old(vm.M()), vm.M(), d, start / PGSIZE, length / PGSIZE)
        case NoTable => exists v: nat :: InCycle(v, start / PGSIZE, length / PGSIZE) && View(old(vm.M()), d, v).Absent?
        case KernelPage => exists v: nat :: InCycle(v, start / PGSIZE, length / PGSIZE) && IsKernelPte(old(vm.M()), d, v)
    {
      hide Parts;
      hide TabsOwned;
      hide PagesOwned;
      hide View;
      hide OnlyDir;
      hide HasTable;
      hide ViewsBut;
      hide Gone;
      hide InCycle;
      ghost var m0, ta0, pa0 := vm.M(), vm.tabAt, vm.pageAt;
      var lo, n := start / PGSIZE, 0;
      OnlyRefl(m0, ta0, pa0, vm.all, vm.loose, d);
      GoneStart(m0, d, lo, length / PGSIZE);
      while n * PGSIZE < length
        invariant 0 <= n && (n == 0 || n * PGSIZE <= length)
        invariant vm.all == old(vm.all) && vm.Valid() && vm.dirs == m0.dirs && vm.loose == old(vm.loose) && vm.tabAt == ta0
        invariant OnlyDir(m0, ta0, pa0, vm.M(), ta0, vm.pageAt, d)
        invariant Gone(m0, vm.M(), d, lo, n) && (n == 0 ==> vm.M() == m0)
        invariant forall f: nat :: f in vm.data ==> f in m0.data && vm.data[f] == m0.data[f]
        decreases length - n * PGSIZE
      {
        ghost var m, pa := vm.M(), vm.pageAt;
        var v := (start + n * PGSIZE) % WORDMAX / PGSIZE;
        PageNumber(start, n);
        GoneAt(m0, m, d, lo, n, length / PGSIZE);
        r := UnmapAt(d, v);
        OnlyTrans(m0, ta0, pa0, m, ta0, pa, vm.M(), ta0, vm.pageAt, d);
        if r != Released {
          return;
        }
        GoneMore(m0, m, vm.M(), d, lo, n);
        n := n + 1;
      }
      return Released;
    }

    /** munmap: 1, or -1 when there is no such area or one of its page tables is missing. */
    method Munmap(d: nat, proc: nat, addr: nat) returns (r: Undone)
      requires Valid() && d in vm.dirs && addr < WORDMAX
      modifies this, vm
      ensures Valid() && vm.all == old(vm.all) && vm.dirs.Keys == old(vm.dirs).Keys && vm.loose == old(vm.loose)
      ensures OnlyDir(old(vm.M()), old(vm.tabAt), old(vm.pageAt), vm.M(), vm.tabAt, vm.pageAt, d)
      ensures forall f: nat :: f in vm.data ==> f in old(vm.data) && vm.data[f] == old(vm.data)[f]
      ensures var k := FirstMine(old(areas), addr, proc);
        if addr % PGSIZE != 0 || k == NAREA then r == Err && areas == old(areas) && vm.M() == old(vm.M())
        else
          var a := old(areas)[k];
          && (a.status == -1 || a.length <= 0 ==> r == Done && vm.M() == old(vm.M()))
          && areas == (if r == Done then old(areas)[k := a.(status := 0)] else old(areas))
          && (a.status != -1 ==>
                match r
                case Done => Gone(old(vm.M()), vm.M(), d, addr / PGSIZE, a.length / PGSIZE)
                case Err => exists v: nat :: InCycle(v, addr / PGSIZE, a.length / PGSIZE) && View(old(vm.M()), d, v).Absent?
                case Corrupt => exists v: nat :: InCycle(v, addr / PGSIZE, a.length / PGSIZE) && IsKernelPte(old(vm.M()), d, v))
    {
      hide OnlyDir;
      hide View;
      hide Parts;
      hide TabsOwned;
      hide PagesOwned;
      hide Gone;
      hide InCycle;
      ghost var m := vm.M();
      OwnedRefl(vm, d);
      if addr % PGSIZE != 0 {
        return Err;
      }
      var k := 0;
      while k < NAREA && !Mine(areas[k], addr, proc)
        invariant 0 <= k <= NAREA && FirstMine(areas, addr, proc) == FirstMine(areas, addr, proc, k)
      {
        k := k + 1;
      }
      if k == NAREA {
        return Err;
      }
      if areas[k].status == -1 {
        areas := areas[k := areas[k].(status := 0)];
        return Done;
      }
      var u := UnmapArea(d, addr, areas[k].length);
      if u == NoTable {
        return Err;
      }
      if u == KernelPage {
        return Corrupt;
      }
      areas := areas[k := areas[k].(status := 0)];
      return Done;
    }

    /** A populated mmap followed by munmap of its result. */
    method MapUnmap(d: nat, proc: nat, addr: nat, length: int, prot: nat, flags: nat, fdOk: bool, pages: seq<Page>)
      returns (a: Answer, r: Undone)
      requires Valid() && NoWrap(areas) && d in vm.dirs && addr < WORDMAX && length <= |pages| * PGSIZE
      requires flags / MAP_POPULATE == 1 && 0 < length < SIGNED && (addr + MMAPBASE) % WORDMAX + length < WORDMAX
      modifies this, vm
      ensures Valid()
      ensures a.At? ==>
        (SameViews(old(vm.M()), vm.M()) <==> FirstMine(old(areas), a.addr, proc) >= FirstUnused(old(areas)))
      ensures a.At? && FirstMine(old(areas), a.addr, proc) >= FirstUnused(old(areas)) ==>
        && r == Done && vm.data == old(vm.data) && vm.pageAt == old(vm.pageAt) && vm.loose == old(vm.loose)
        && (forall f: nat :: f in old(vm.free) ==> f in vm.free || f in vm.tabs)
        && (forall i :: 0 <= i < NAREA && old(areas)[i].status != 0 ==> areas[i] == old(areas)[i])
        && (forall i :: 0 <= i < NAREA && old(areas)[i].status == 0 ==> areas[i].status == 0)
    {
      hide Parts;
      hide TabsOwned;
      hide PagesOwned;
      hide View;
      hide OnlyDir;
      hide Half;
      hide Populated;
      hide Unmapped;
      hide SameViews;
      hide Keeps;
      hide Gone;
      hide InCycle;
      hide Contents;
      hide Apart;
      hide End;
      ghost var m0, ta0, pa0, l0, areas0 := vm.M(), vm.tabAt, vm.pageAt, vm.loose, areas;
      a := Mmap(d, proc, addr, length, prot, flags, fdOk, pages);
      if !a.At? {
        return a, Err;
      }
      ghost var m1, ta1, pa1 := vm.M(), vm.tabAt, vm.pageAt;
      ghost var k, lo, hi := FirstUnused(areas0), a.addr / PGSIZE, (a.addr + length) / PGSIZE;
      ghost var perm, all := Perm(prot), Contents(flags, pages);
      PicksFirst(areas0, areas, k, a.addr, length, proc);
      PopulatedOwning(m0, m1, d, lo, hi, perm, all);
      ghost var j := FirstMine(areas, a.addr, proc);
      if j < k {
        NotPositive(areas0[j], a.addr, length, proc);
      }
      r := Munmap(d, proc, a.addr);
      if j == k {
        GoneInterval(m1, vm.M(), d, lo, hi);
        PopulatedUndone(m0, m1, vm.M(), d, lo, hi, perm, all);
        OnlyTrans(m0, ta0, pa0, m1, ta1, pa1, vm.M(), vm.tabAt, vm.pageAt, d);
        EverythingBack(m0, ta0, pa0, vm.all, l0, m1, vm.M(), vm.tabAt, vm.pageAt, d);
      } else {
        StillMapped(m0, m1, d, lo);
      }
      return a, r;
    }
  }

  lemma SameSpaceVia(m: Mem, s: Mem, r: Mem, d: nat, v: nat, f: nat, perm: nat)
    requires Shaped(m) && Shaped(s) && Shaped(r) && SameViews(m, s)
    ensures s == r || (exists n: nat :: n <= 0 && RangeMapped(s, r, d, v, n, f, perm)) ==> SameSpace(m, r, d)
  {
    hide View;
  }

  lemma RangeVia(m: Mem, s: Mem, r: Mem, d: nat, v: nat, f: nat, perm: nat, got: Mapped)
    requires Shaped(m) && Shaped(s) && Shaped(r) && SameViews(m, s)
    ensures got == Mapped && RangeMapped(s, r, d, v, 1, f, perm) ==> RangeMapped(m, r, d, v, 1, f, perm)
    ensures View(s, d, v) == View(m, d, v)
    ensures got == Mapped && RangeMapped(s, r, d, v, 1, f, perm) ==> View(m, d, v).Absent?
  {
    hide View;
  }

  lemma PopulatedOutside(m0: Mem, m: Mem, d: nat, lo: nat, hi: nat, perm: nat, pages: seq<Page>, v: nat)
    requires Shaped(m0) && Shaped(m) && lo <= hi && hi - lo <= |pages| && Populated(m0, m, d, lo, hi, perm, pages)
    requires v < lo || hi <= v
    ensures View(m, d, v) == View(m0, d, v)
  {
  }

  lemma OwnedRefl(vm: Vm, d: nat)
    requires vm.Valid()
    ensures Shaped(vm.M()) && OnlyDir(vm.M(), vm.tabAt, vm.pageAt, vm.M(), vm.tabAt, vm.pageAt, d)
  {
    hide OnlyDir;
    OnlyRefl(vm.M(), vm.tabAt, vm.pageAt, vm.all, vm.loose, d);
  }

  /** munmap picks the new area unless an earlier one of the process has its address. */
  lemma PicksFirst(areas0: seq<Area>, areas: seq<Area>, k: nat, start: nat, length: int, proc: nat)
    requires k == FirstUnused(areas0) < |areas0| && length > 0
    requires |areas| == |areas0| && Mine(areas[k], start, proc) && (forall i :: 0 <= i < |areas| && i != k ==> areas[i] == areas0[i])
    ensures FirstMine(areas, start, proc) == (if FirstMine(areas0, start, proc) >= k then k else FirstMine(areas0, start, proc))
  {
    var r, r0 := FirstMine(areas, start, proc), FirstMine(areas0, start, proc);
    assert r <= k;
    if r0 < k {
      assert Mine(areas[r0], start, proc);
    }
    if r < k {
      assert Mine(areas0[r], start, proc);
    }
  }

  lemma PopulatedOwning(m0: Mem, m: Mem, d: nat, lo: nat, hi: nat, perm: nat, pages: seq<Page>)
    requires Shaped(m0) && Shaped(m) && lo <= hi && hi - lo <= |pages| && Populated(m0, m, d, lo, hi, perm, pages)
    requires perm / PTE_U % 2 == 1
    ensures forall v: nat :: lo <= v < hi ==> Owning(v, View(m, d, v))
    ensures hi <= NPAGES ==> forall v: nat :: InCycle(v, lo, hi - lo) ==> Owning(v, View(m, d, v))
  {
    hide View;
    if hi <= NPAGES {
      var n := hi - lo;
      forall v: nat | InCycle(v, lo, n)
        ensures lo <= v < hi
      {
      }
    }
  }

  lemma NotPositive(a: Area, start: nat, length: int, proc: nat)
    requires Mine(a, start, proc) && a.addr + a.length < WORDMAX && length > 0 && start + length < WORDMAX
    requires Apart(a, start, End(start, length))
    ensures a.length <= 0
  {
    if a.length > 0 {
      SameStart(a, start, length, proc);
    }
  }

  lemma DataBack(m0: Mem, m1: Mem, m: Mem)
    requires Keeps(m0.data, m1.data) && forall f: nat :: f in m.data ==> f in m1.data && m.data[f] == m1.data[f]
    ensures forall f: nat :: f in m.data && f in m0.data ==> m.data[f] == m0.data[f]
  {
  }

  /** Every page free before is free now, or a page table made on the way. */
  lemma FreeBack(m0: Mem, ta0: Owner, pa0: Owner, m: Mem, ta: Owner, pa: Owner, all: set<nat>, d: nat)
    requires Parts(m0, all) && Parts(m, all) && m.data == m0.data && d in m0.dirs && OnlyDir(m0, ta0, pa0, m, ta, pa, d)
    ensures forall f: nat :: f in m0.free ==> f in m.free || f in m.tabs
  {
  }

  lemma StillMapped(m0: Mem, m: Mem, d: nat, v: nat)
    requires Shaped(m0) && Shaped(m) && View(m, d, v).Maps? && View(m0, d, v).Absent?
    ensures !SameViews(m0, m)
  {
  }

  /** An area of negative length is accepted, recorded, and out of the way of any later one. */
  lemma StaleArea(start: nat, proc: nat)
    requires PGSIZE <= start < WORDMAX && start % PGSIZE == 0
    ensures var a := Area(start, -0x1000, PROT_READ, MAP_ANONYMOUS, proc, -1);
      NoWrap([a]) && Mine(a, start, proc) && forall length: int :: Apart(a, start, End(start, length))
  {
  }

  /** With ordinary areas only, the area of the same process and address is always the new one. */
  lemma OrdinaryPicks(areas: seq<Area>, start: nat, length: int, proc: nat)
    requires Ordinary(areas) && length > 0 && start + length < WORDMAX
    requires AllApart(areas, start, length)
    ensures FirstMine(areas, start, proc) == |areas|
  {
    var r := FirstMine(areas, start, proc);
    if r < |areas| {
      SameStart(areas[r], start, length, proc);
    }
  }

  lemma EverythingBack(m0: Mem, ta0: Owner, pa0: Owner, all: set<nat>, loose: set<nat>, m1: Mem,
                       m: Mem, ta: Owner, pa: Owner, d: nat)
    requires Owned(m0, ta0, pa0, all, loose) && Owned(m, ta, pa, all, loose) && OnlyDir(m0, ta0, pa0, m, ta, pa, d)
    requires d in m0.dirs && forall v: nat :: View(m, d, v) == View(m0, d, v)
    requires Keeps(m0.data, m1.data) && forall f: nat :: f in m.data ==> f in m1.data && m.data[f] == m1.data[f]
    ensures SameViews(m0, m) && pa == pa0 && m.data == m0.data
    ensures forall f: nat :: f in m0.free ==> f in m.free || f in m.tabs
  {
    hide Owned;
    hide OnlyDir;
    hide View;
    hide Keeps;
    hide SameViews;
    OwnedShaped(m0, ta0, pa0, all, loose);
    OwnedShaped(m, ta, pa, all, loose);
    SameEverywhere(m0, ta0, pa0, all, loose, m, ta, pa, d);
    DataBack(m0, m1, m);
    AllBack(m0, ta0, pa0, all, loose, m, ta, pa);
    FreeBack(m0, ta0, pa0, m, ta, pa, all, d);
  }

  // ----- Runs -----

  lemma PopulatedOwned(m0: Mem, m: Mem, ta: Owner, pa: Owner, all: set<nat>, loose: set<nat>, d: nat, lo: nat, hi: nat,
                       perm: nat, pages: seq<Page>)
    requires Shaped(m0) && Owned(m, ta, pa, all, loose) && lo < hi && hi - lo <= |pages|
    requires Populated(m0, m, d, lo, hi, perm, pages) && perm / PTE_U % 2 == 1
    ensures Owning(lo, View(m, d, lo)) && View(m, d, lo).frame in pa && pa[View(m, d, lo).frame] == (d, lo)
  {
    hide View;
    hide Parts;
    hide TabsOwned;
    var e := View(m, d, lo);
    assert e.Maps? && Owning(lo, e);
  }

  /** A populated anonymous page at start, in a space that has nothing there. */
  method OnePage(mm: Mmaps, d: nat, addr: nat, start: nat) returns (ghost f: nat)
    requires mm.Valid() && d in mm.vm.dirs && |mm.vm.free| > 2 && addr % PGSIZE == 0 && addr < WORDMAX
    requires start == (addr + MMAPBASE) % WORDMAX && start + PGSIZE <= WORDMAX
    requires View(mm.vm.M(), d, start / PGSIZE) == Absent
    requires AllApart(mm.areas, start, 0x1000) && FirstUnused(mm.areas) < NAREA
    modifies mm, mm.vm
    ensures mm.Valid() && d in mm.vm.dirs && mm.vm.dirs.Keys == old(mm.vm.dirs).Keys
    ensures mm.areas == old(mm.areas)[FirstUnused(old(mm.areas)) := Area(start, 0x1000, PROT_READ, 3, 0, 1)]
    ensures f in mm.vm.pageAt && mm.vm.pageAt[f] == (d, start / PGSIZE)
    ensures Owning(start / PGSIZE, View(mm.vm.M(), d, start / PGSIZE))
  {
    hide Parts;
    hide TabsOwned;
    hide PagesOwned;
    hide View;
    hide OnlyDir;
    hide Keeps;
    hide Populated;
    ghost var m0, ta0, pa0 := mm.vm.M(), mm.vm.tabAt, mm.vm.pageAt;
    var page: Page := [];
    assert start % PGSIZE == 0;
    var a := mm.Mmap(d, 0, addr, 0x1000, PROT_READ, MAP_ANONYMOUS + MAP_POPULATE, true, [page]);
    assert a == At(start);
    ghost var lo := start / PGSIZE;
    assert (start + 0x1000) / PGSIZE == lo + 1;
    PopulatedOwned(m0, mm.vm.M(), mm.vm.tabAt, mm.vm.pageAt, mm.vm.all, mm.vm.loose, d, lo, lo + 1, Perm(PROT_READ), Contents(3, [page]));
    OnlyKeys(m0, ta0, pa0, mm.vm.M(), mm.vm.tabAt, mm.vm.pageAt, d);
    f := View(mm.vm.M(), d, lo).frame;
  }

  lemma OnlyKeys(m: Mem, ta: Owner, pa: Owner, r: Mem, rta: Owner, rpa: Owner, d: nat)
    requires OnlyDir(m, ta, pa, r, rta, rpa, d) && d in m.dirs && d in r.dirs
    ensures r.dirs.Keys == m.dirs.Keys
  {
  }

  /** An address space of its own, with nothing but the kernel's mappings, and no areas. */
  method Fresh(dataPg: nat, first: nat, last: nat) returns (mm: Mmaps, d: nat)
    requires 0 < first && first + 100 <= last && 0x100 < dataPg < 0xE000
    ensures fresh(mm) && fresh(mm.vm) && mm.Valid() && mm.vm.dirs.Keys == {d} && mm.vm.loose == {} && |mm.vm.free| > 2
    ensures IsKernel(mm.vm.M(), d, NPAGES, mm.vm.dataPg) && forall f: nat :: f in mm.vm.all <==> first <= f < last
    ensures forall i :: 0 <= i < NAREA ==> mm.areas[i].status == 0
  {
    hide Parts;
    hide TabsOwned;
    hide PagesOwned;
    hide View;
    hide IsKernel;
    var vm := new Vm(dataPg, first, last);
    d := vm.Setupkvm();
    mm := new Mmaps(vm);
  }

  /** A populated page at 0x90000000, where the kernel maps nothing, and then freevm: the page is lost. */
  method LeakAboveKernbase(dataPg: nat, first: nat, last: nat) returns (mm: Mmaps)
    requires 0 < first && first + 100 <= last && 0x100 < dataPg < 0xE000
    ensures mm.Valid() && mm.vm.dirs == map[] && mm.vm.loose != {}
  {
    hide Parts;
    hide TabsOwned;
    hide PagesOwned;
    hide View;
    hide IsKernel;
    var d;
    mm, d := Fresh(dataPg, first, last);
    FreshAreas(mm.areas, 0x9000_0000, 0x1000);
    SpaceHole(mm.vm, d, 0x9_0000);
    ghost var f := OnePage(mm, d, 0x5000_0000, 0x9000_0000);
    mm.vm.Freevm(d);
    assert f in mm.vm.loose;
  }

  lemma SpaceHole(vm: Vm, d: nat, v: nat)
    requires vm.Valid() && Shaped(vm.M()) && IsKernel(vm.M(), d, NPAGES, vm.dataPg)
    requires v < KERNPG || KERNPG + 0xE000 <= v < 0xF_E000
    ensures View(vm.M(), d, v) == Absent
  {
    hide Owned;
  }

  /**
   * mmap of a negative length, mmap of a page at the same address, munmap of that address: munmap
   * succeeds on the first area and the page stays mapped.
   */
  method StaleUnmap(dataPg: nat, first: nat, last: nat) returns (mm: Mmaps, r: Undone, d: nat)
    requires 0 < first && first + 100 <= last && 0x100 < dataPg < 0xE000
    ensures mm.Valid() && r == Done && View(mm.vm.M(), d, MMAPBASE / PGSIZE).Maps? && mm.areas[1].status == 1
  {
    hide Parts;
    hide TabsOwned;
    hide PagesOwned;
    hide View;
    hide IsKernel;
    mm, d := Fresh(dataPg, first, last);
    FreshAreas(mm.areas, MMAPBASE, -0x1000);
    SpaceHole(mm.vm, d, MMAPBASE / PGSIZE);
    var a := mm.Mmap(d, 0, 0, -0x1000, PROT_READ, MAP_ANONYMOUS, true, []);
    assert a == At(MMAPBASE) && mm.areas[0] == Area(MMAPBASE, -0x1000, PROT_READ, MAP_ANONYMOUS, 0, -1);
    StaleArea(MMAPBASE, 0);
    assert FirstUnused(mm.areas) == 1;
    assert AllApart(mm.areas, MMAPBASE, 0x1000);
    ghost var f := OnePage(mm, d, 0, MMAPBASE);
    assert FirstMine(mm.areas, MMAPBASE, 0) == 0;
    r := mm.Munmap(d, 0, MMAPBASE);
  }

  lemma FreshAreas(areas: seq<Area>, start: nat, length: int)
    requires |areas| == NAREA && forall i :: 0 <= i < NAREA ==> areas[i].status == 0
    ensures AllApart(areas, start, length) && FirstUnused(areas) == 0
  {
  }

  ghost function Range(lo: nat, hi: nat): (s: set<nat>)
    requires lo <= hi
    ensures |s| == hi - lo && forall x :: x in s <==> lo <= x < hi
    decreases hi
  {
    if lo == hi then {} else Range(lo, hi - 1) + {hi - 1}
  }

  lemma FreeBound(vm: Vm, first: nat, last: nat)
    requires vm.Valid() && first <= last && forall f: nat :: f in vm.all ==> first <= f < last
    ensures |vm.free| <= last - first
  {
    hide TabsOwned;
    hide PagesOwned;
    CountDistinct(vm.free);
    assert Elements(vm.free) <= Range(first, last);
    SubsetSize(Elements(vm.free), Range(first, last));
  }

  /**
   * mmap of more pages than are free fails and leaves its area recorded with the first pages mapped;
   * munmap of it answers 1 and leaves them mapped.
   */
  method FailedMmap(dataPg: nat, first: nat, last: nat) returns (mm: Mmaps, a: Answer, r: Undone, d: nat)
    requires 0 < first && first + 100 <= last <= first + 0x1000 && 0x100 < dataPg < 0xE000
    ensures mm.Valid() && a == Failed && r == Done && View(mm.vm.M(), d, MMAPBASE / PGSIZE).Maps?
    ensures forall i :: 0 <= i < NAREA ==> mm.areas[i].status == 0
  {
    hide Parts;
    hide TabsOwned;
    hide PagesOwned;
    hide View;
    hide IsKernel;
    hide OnlyDir;
    mm, d := Fresh(dataPg, first, last);
    FreshAreas(mm.areas, MMAPBASE, 0x1000);
    FreeBound(mm.vm, first, last);
    var n := |mm.vm.free| + 1;
    var page: Page := [];
    ghost var m0, lo := mm.vm.M(), MMAPBASE / PGSIZE;
    NothingThere(mm.vm, d, lo, lo + n);
    FreshAreas(mm.areas, MMAPBASE, n * PGSIZE);
    a := mm.Mmap(d, 0, 0, n * PGSIZE, PROT_READ, MAP_ANONYMOUS + MAP_POPULATE, true, seq(n, _ => page));
    assert (MMAPBASE + n * PGSIZE) / PGSIZE == lo + n;
    assert a == Failed;
    HalfFirst(m0, mm.vm.M(), d, lo, lo + n, Perm(PROT_READ), Contents(3, seq(n, _ => page)));
    assert FirstMine(mm.areas, MMAPBASE, 0) == 0;
    r := mm.Munmap(d, 0, MMAPBASE);
  }

  lemma NothingThere(vm: Vm, d: nat, lo: nat, hi: nat)
    requires vm.Valid() && Shaped(vm.M()) && IsKernel(vm.M(), d, NPAGES, vm.dataPg) && lo <= hi <= KERNPG
    ensures forall v: nat :: lo <= v < hi ==> View(vm.M(), d, v).Absent?
  {
    hide View;
    hide IsKernel;
    hide Vm.Valid;
    forall v: nat | lo <= v < hi ensures View(vm.M(), d, v).Absent? {
      SpaceHole(vm, d, v);
    }
  }

  lemma HalfFirst(m0: Mem, m: Mem, d: nat, lo: nat, hi: nat, perm: nat, pages: seq<Page>)
    requires Shaped(m0) && Shaped(m) && lo <= hi && hi - lo <= |pages| && |m0.free| > 2 && Half(m0, m, d, lo, hi, perm, pages)
    ensures View(m, d, lo).Maps?
  {
    hide View;
  }
}
