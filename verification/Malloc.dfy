// The user-level allocator (umalloc.c), after Kernighan and Ritchie, section 8.7 of
// The C Programming Language, 2nd edition.
//
// Addresses count Header units.  ptr and size are the two words of the header at an
// address.  Every block obtained from sbrk is either free, and then on the circular
// list, or allocated.
module Malloc {
  import opened Common

  const HEADER: nat := 8            // sizeof(Header)
  const NALLOC: nat := 4096

  /** malloc's request in units; the addition is on 32-bit unsigned integers. */
  function NUnits(nbytes: nat): (n: nat)
    ensures n >= 1
  {
    (nbytes + HEADER - 1) % WORDMAX / HEADER + 1
  }

  /** What morecore asks for. */
  function Granted(nunits: nat): nat {
    if nunits < NALLOC then NALLOC else nunits
  }

  // ----- The break -----

  /** A 32-bit word as the int parameter of sbrk. */
  function Signed(w: nat): int { if w < SIGNED then w else w - WORDMAX }

  datatype Answer = Answer(ok: bool, sz: nat, top: nat)

  /** growproc: the new break, how far memory is mapped, and whether it reports success. */
  function Growproc(sz: nat, n: int, mem: bool): Answer {
    if n > 0 then
      if sz + n >= KERNBASE || !mem then Answer(false, sz, sz) else Answer(true, sz + n, sz + n)
    else if n < 0 && (sz + n) % WORDMAX < sz then
      var newsz := (sz + n) % WORDMAX;
      Answer(newsz != 0, if newsz == 0 then sz else newsz, newsz)
    else Answer(true, sz, sz)
  }

  /** What morecore gets for nunits. */
  function Asked(sz: nat, nunits: nat, mem: bool): Answer {
    Growproc(sz, Signed(Granted(nunits) * HEADER % WORDMAX), mem)
  }

  /** Memory is mapped up to here. */
  function PgRoundUp(n: nat): nat { (n + PGSIZE - 1) / PGSIZE * PGSIZE }

  /**
   * The process is alive after sbrk's answer g, whose memory starts at sz: some of its memory is left, and
   * the header of the new memory, if it was granted, can be written.
   */
  predicate Survives(sz: nat, g: Answer) {
    g.top > 0 && (g.ok ==> sz + HEADER <= PgRoundUp(g.top))
  }

  /** Its last page, m bytes of which are below the break, still holds the break when the break goes down by over. */
  predicate RoomInPage(sz: nat, over: nat) {
    var m := sz % PGSIZE;
    m > 0 && (over > sz || over < m)
  }

  /** Less than 2^31 bytes never kill the process, more do unless there is room for a header in its last page. */
  lemma SurvivesExactly(sz: nat, nunits: nat, mem: bool)
    requires 0 < sz < KERNBASE && sz % HEADER == 0 && 0 < nunits <= WORDMAX / HEADER
    ensures var want := HEADER * Granted(nunits);
      Survives(sz, Asked(sz, nunits, mem)) <==> want < SIGNED || RoomInPage(sz, WORDMAX - want)
  {
    hide Asked;
    hide PgRoundUp;
    hide RoomInPage;
    var want := HEADER * Granted(nunits);
    AskedExact(sz, nunits, mem);
    if want >= SIGNED {
      AskedHuge(sz, nunits, mem);
      RoomIs(sz, WORDMAX - want);
    } else {
      RoundUp(sz + want);
      RoundUp(sz);
    }
  }

  lemma RoomIs(sz: nat, over: nat)
    requires 0 < sz && sz % HEADER == 0
    ensures over == 0 || over > sz ==> (sz + HEADER <= PgRoundUp(sz) <==> RoomInPage(sz, over))
    ensures 0 < over < sz ==> (sz + HEADER <= PgRoundUp(sz - over) <==> RoomInPage(sz, over))
    ensures over == sz ==> !RoomInPage(sz, over)
  {
    hide PgRoundUp;
    RoundUp(sz);
    if over < sz {
      RoundUp(sz - over);
      PageOf(sz, over);
    }
  }

  /** Where the break lies in its page before and after it goes down by over. */
  lemma PageOf(sz: nat, over: nat)
    requires over < sz
    ensures over < sz % PGSIZE ==> (sz - over) % PGSIZE == sz % PGSIZE - over
    ensures over >= sz % PGSIZE ==> sz - over <= sz - sz % PGSIZE
  {
  }

  lemma AskedHuge(sz: nat, nunits: nat, mem: bool)
    requires 0 < sz < KERNBASE && 0 < nunits <= WORDMAX / HEADER && HEADER * Granted(nunits) >= SIGNED
    ensures var over := WORDMAX - HEADER * Granted(nunits);
      && over >= 0
      && Asked(sz, nunits, mem) == if over == 0 || over > sz then Answer(true, sz, sz)
                                   else Answer(over != sz, if over == sz then sz else sz - over, sz - over)
  {
    var want := HEADER * Granted(nunits);
    assert want <= WORDMAX;
    if want < WORDMAX {
      assert Signed(want % WORDMAX) == want - WORDMAX;
    }
  }

  lemma RoundUp(n: nat)
    ensures PgRoundUp(n) == if n % PGSIZE == 0 then n else n - n % PGSIZE + PGSIZE
  {
  }

  lemma NUnitsBound(nbytes: nat)
    ensures NUnits(nbytes) <= WORDMAX / HEADER
  {
  }

  /** Below 2^31 bytes growproc does what morecore expects; from there on it never does. */
  lemma AskedExact(sz: nat, nunits: nat, mem: bool)
    requires 0 < sz < KERNBASE && 0 < nunits <= WORDMAX / HEADER
    ensures var g, want := Asked(sz, nunits, mem), HEADER * Granted(nunits);
      && (want < SIGNED ==> g == if mem && sz + want < KERNBASE then Answer(true, sz + want, sz + want) else Answer(false, sz, sz))
      && (want >= SIGNED ==> g.top <= sz && (g.ok || g.top < g.sz))
  {
    var want := HEADER * Granted(nunits);
    assert want <= WORDMAX;
    if SIGNED <= want < WORDMAX {
      assert Signed(want % WORDMAX) == want - WORDMAX;
    }
  }

  ghost predicate InMemory(base: nat, sz: nat, top: nat, arena: set<nat>) {
    && top == sz < KERNBASE && sz % HEADER == 0 && (base + 1) * HEADER <= sz
    && forall u: nat :: u in arena ==> (u + 1) * HEADER <= sz
  }

  /** After morecore the arena is in memory exactly when fewer than 2^31 bytes were asked for. */
  lemma BackedExact(base: nat, sz: nat, top: nat, arena: set<nat>, nunits: nat, mem: bool)
    requires InMemory(base, sz, top, arena) && 0 < nunits <= WORDMAX / HEADER
    ensures var g := Asked(sz, nunits, mem);
      InMemory(base, g.sz, g.top, arena + if g.ok then Units(sz / HEADER, Granted(nunits)) else {}) <==>
        HEADER * Granted(nunits) < SIGNED
  {
    AskedExact(sz, nunits, mem);
    var g, n := Asked(sz, nunits, mem), Granted(nunits);
    var hp, more := sz / HEADER, Units(sz / HEADER, n);
    hide Asked;
    hide Granted;
    if HEADER * n < SIGNED {
      forall u: nat | u in more
        ensures (u + 1) * HEADER <= sz + HEADER * n
      {
      }
    } else if g.ok {
      assert hp + n - 1 in more && (hp + n) * HEADER == sz + HEADER * n;
      assert hp + n - 1 in arena + more;
    }
  }

  // ----- Tilings -----

  /** The blocks, by address and size, cut the arena up without overlap. */
  ghost predicate Tiled(blocks: map<nat, nat>, arena: set<nat>) {
    Apart(blocks) && forall u :: u in arena <==> Covered(blocks, u)
  }

  ghost predicate Apart(blocks: map<nat, nat>) {
    && (forall a :: a in blocks ==> blocks[a] > 0)
    && (forall a, b :: a in blocks && b in blocks && a < b ==> a + blocks[a] <= b)
  }

  ghost predicate Within(blocks: map<nat, nat>, a: nat, u: nat) {
    a in blocks && a <= u < a + blocks[a]
  }

  ghost predicate Covered(blocks: map<nat, nat>, u: nat) {
    exists a :: Within(blocks, a, u)
  }

  ghost function Units(a: nat, n: nat): (s: set<nat>)
    ensures forall u: nat :: u in s <==> a <= u < a + n
  {
    if n == 0 then {} else Units(a, n - 1) + {a + n - 1}
  }

  /** Two adjacent blocks become one. */
  lemma MergeTiles(blocks: map<nat, nat>, arena: set<nat>, a: nat, b: nat)
    requires Tiled(blocks, arena) && a in blocks && b in blocks && b == a + blocks[a]
    ensures Tiled((blocks - {b})[a := blocks[a] + blocks[b]], arena)
  {
    var merged := (blocks - {b})[a := blocks[a] + blocks[b]];
    forall u: nat ensures Covered(merged, u) <==> Covered(blocks, u) {
      if Covered(blocks, u) {
        var c :| Within(blocks, c, u);
        assert Within(merged, if c == b then a else c, u);
      }
      if Covered(merged, u) {
        var c :| Within(merged, c, u);
        assert Within(blocks, if c == a && u >= b then b else c, u);
      }
    }
  }

  /** The last n units of a block become a block of their own. */
  lemma SplitTile(blocks: map<nat, nat>, arena: set<nat>, a: nat, n: nat)
    requires Tiled(blocks, arena) && a in blocks && 0 < n < blocks[a]
    ensures a + blocks[a] - n !in blocks
    ensures Tiled(blocks[a := blocks[a] - n][a + blocks[a] - n := n], arena)
  {
    var t: nat := a + blocks[a] - n;
    assert t !in blocks;
    var split := blocks[a := blocks[a] - n][t := n];
    SplitApart(blocks, a, t);
    forall u: nat ensures Covered(split, u) <==> Covered(blocks, u) {
      if Covered(blocks, u) {
        var c: nat :| Within(blocks, c, u);
        assert Within(split, if c == a && u >= t then t else c, u);
      }
      if Covered(split, u) {
        var c: nat :| Within(split, c, u);
        assert Within(blocks, if c == t then a else c, u);
      }
    }
  }

  lemma SplitApart(blocks: map<nat, nat>, a: nat, t: nat)
    requires Apart(blocks) && a in blocks && a < t < a + blocks[a]
    ensures Apart(blocks[a := t - a][t := a + blocks[a] - t])
  {
    var split := blocks[a := t - a][t := a + blocks[a] - t];
    forall x, y | x in split && y in split && x < y ensures x + split[x] <= y {
      if x == t {
        assert y in blocks;
      } else if y == t {
        assert x in blocks && (x == a || x < a || a < x);
      } else {
        assert x in blocks && y in blocks;
      }
    }
  }

  /** New memory above everything else. */
  lemma AddTile(blocks: map<nat, nat>, arena: set<nat>, a: nat, n: nat)
    requires Tiled(blocks, arena) && n > 0 && forall c :: c in blocks ==> c + blocks[c] <= a
    ensures a !in blocks && Tiled(blocks[a := n], arena + Units(a, n))
  {
    var more := blocks[a := n];
    assert a !in blocks;
    forall u: nat ensures Covered(more, u) <==> Covered(blocks, u) || u in Units(a, n) {
      if Covered(blocks, u) {
        var c :| Within(blocks, c, u);
        assert Within(more, c, u);
      }
      if u in Units(a, n) {
        assert Within(more, a, u);
      }
      if Covered(more, u) {
        var c :| Within(more, c, u);
        assert c != a ==> Within(blocks, c, u);
      }
    }
  }

  // ----- The circular list -----

  ghost predicate Sorted(l: seq<nat>) {
    forall i, j :: 0 <= i < j < |l| ==> l[i] < l[j]
  }

  /** Following ptr visits l in order and returns to its start. */
  ghost predicate Linked(ptr: map<nat, nat>, l: seq<nat>) {
    && (forall i :: 0 <= i < |l| ==> l[i] in ptr)
    && (forall i, j :: 0 <= i && j == i + 1 < |l| ==> ptr[l[i]] == l[j])
    && (l != [] ==> ptr[l[|l| - 1]] == l[0])
  }

  function Insert(l: seq<nat>, k: nat, b: nat): seq<nat>
    requires k < |l|
  {
    l[..k + 1] + [b] + l[k + 1..]
  }

  function Drop(l: seq<nat>, k: nat): seq<nat>
    requires k < |l|
  {
    l[..k] + l[k + 1..]
  }

  lemma SortedInsert(l: seq<nat>, k: nat, b: nat)
    requires k < |l| && Sorted(l) && l[k] < b && (k + 1 < |l| ==> b < l[k + 1])
    ensures Sorted(Insert(l, k, b))
  {
  }

  lemma LinkInsert(ptr: map<nat, nat>, l: seq<nat>, k: nat, b: nat)
    requires Linked(ptr, l) && k < |l| && Sorted(l)
    requires l[k] < b && (k + 1 < |l| ==> b < l[k + 1])
    ensures Linked(ptr[b := ptr[l[k]]][l[k] := b], Insert(l, k, b))
  {
    var l' := Insert(l, k, b);
    var ptr' := ptr[b := ptr[l[k]]][l[k] := b];
    assert l'[k] == l[k] && l'[k + 1] == b;
    forall i, j | 0 <= i && j == i + 1 < |l'| ensures ptr'[l'[i]] == l'[j] {
      if i < k {
        assert l'[i] == l[i] && l'[j] == l[j];
      } else if i > k + 1 {
        assert l'[i] == l[i - 1] && l'[j] == l[j - 1];
      }
    }
  }

  /** Dropping the successor of node k. */
  lemma LinkDrop(ptr: map<nat, nat>, l: seq<nat>, k: nat)
    requires Linked(ptr, l) && k + 1 < |l| && Sorted(l)
    ensures l[k + 1] in ptr && Sorted(Drop(l, k + 1))
    ensures Linked(ptr[l[k] := ptr[l[k + 1]]], Drop(l, k + 1))
  {
    var l' := Drop(l, k + 1);
    var ptr' := ptr[l[k] := ptr[l[k + 1]]];
    forall i, j | 0 <= i && j == i + 1 < |l'| ensures ptr'[l'[i]] == l'[j] {
      if i < k {
        assert l'[i] == l[i] && l'[j] == l[j];
      } else if i > k {
        assert l'[i] == l[i + 1] && l'[j] == l[j + 1];
      }
    }
  }

  // ----- The heap -----

  /** Headers, list and tiling agree; free blocks are exactly those on the list after base. */
  ghost predicate Heap(base: nat, ptr: map<nat, nat>, size: map<nat, nat>, l: seq<nat>,
                       blocks: map<nat, nat>, alloc: set<nat>, arena: set<nat>) {
    List(base, ptr, l) && Tiled(blocks, arena) && Sizes(base, size, blocks) && Labels(l, blocks, alloc)
  }

  ghost predicate List(base: nat, ptr: map<nat, nat>, l: seq<nat>) {
    l != [] && l[0] == base && Sorted(l) && Linked(ptr, l)
  }

  ghost predicate Sizes(base: nat, size: map<nat, nat>, blocks: map<nat, nat>) {
    && base in size && size[base] == 0
    && (forall a :: a in blocks ==> base < a && a in size && size[a] == blocks[a])
  }

  ghost predicate Labels(l: seq<nat>, blocks: map<nat, nat>, alloc: set<nat>) {
    && (forall a :: a in alloc ==> a in blocks)
    && (forall i :: 1 <= i < |l| ==> l[i] in blocks && l[i] !in alloc)
    && (forall a :: a in blocks && a !in alloc ==> a in l)
  }

  /** No two free blocks touch, except possibly at the positions in e. */
  ghost predicate Gaps(l: seq<nat>, blocks: map<nat, nat>, e: set<nat>) {
    && (forall i :: 1 <= i < |l| ==> l[i] in blocks)
    && (forall i: nat, j: nat :: 1 <= i && j == i + 1 < |l| && i !in e ==> l[i] + blocks[l[i]] < l[j])
  }

  /** Where an allocated block belongs on the list. */
  ghost predicate Place(l: seq<nat>, k: nat, b: nat) {
    k < |l| && l[k] < b && (k + 1 < |l| ==> b < l[k + 1])
  }

  /** The place of b is after the highest free block below it. */
  lemma PlaceGreatest(l: seq<nat>, k: nat, b: nat)
    requires Sorted(l) && Place(l, k, b)
    ensures l[k] in l && l[k] < b && forall q :: q in l && q < b ==> q <= l[k]
  {
    forall i | k < i < |l|
      ensures b < l[i]
    {
      assert l[k + 1] <= l[i];
    }
  }

  lemma {:induction false} FindPlace(l: seq<nat>, b: nat) returns (k: nat)
    requires l != [] && Sorted(l) && l[0] < b && b !in l
    ensures Place(l, k, b)
  {
    k := |l| - 1;
    if l[k] > b {
      k := FindPlace(l[..k], b);
    }
  }

  lemma InsertLabels(l: seq<nat>, blocks: map<nat, nat>, alloc: set<nat>, k: nat, b: nat)
    requires Labels(l, blocks, alloc) && k < |l| && b in alloc
    ensures Labels(Insert(l, k, b), blocks, alloc - {b})
  {
    InsertHas(l, k, b);
    var l' := Insert(l, k, b);
    forall i | 1 <= i < |l'| ensures l'[i] in blocks && l'[i] !in alloc - {b} {
      assert l'[i] == if i <= k then l[i] else if i == k + 1 then b else l[i - 1];
    }
  }

  lemma InsertGaps(l: seq<nat>, blocks: map<nat, nat>, k: nat, b: nat)
    requires Gaps(l, blocks, {}) && k < |l| && b in blocks
    ensures Gaps(Insert(l, k, b), blocks, {k, k + 1})
  {
    var l' := Insert(l, k, b);
    forall i | 0 <= i < |l'| ensures l'[i] == if i <= k then l[i] else if i == k + 1 then b else l[i - 1] {
    }
    forall i: nat, j: nat | 1 <= i && j == i + 1 < |l'| && i != k && i != k + 1
      ensures l'[i] + blocks[l'[i]] < l'[j]
    {
      if i < k {
        assert l'[i] == l[i] && l'[j] == l[j];
      } else {
        assert l'[i] == l[i - 1] && l'[j] == l[j - 1];
      }
    }
  }

  lemma InsertFree(base: nat, ptr: map<nat, nat>, size: map<nat, nat>, l: seq<nat>,
                   blocks: map<nat, nat>, alloc: set<nat>, arena: set<nat>, k: nat, b: nat)
    requires Heap(base, ptr, size, l, blocks, alloc, arena) && Gaps(l, blocks, {})
    requires b in alloc && Place(l, k, b)
    ensures l[k] in ptr
    ensures Heap(base, ptr[b := ptr[l[k]]][l[k] := b], size, Insert(l, k, b), blocks, alloc - {b}, arena)
    ensures Gaps(Insert(l, k, b), blocks, {k, k + 1})
  {
    hide Linked;
    hide Sorted;
    hide Gaps;
    hide Tiled;
    hide Labels;
    hide Sizes;
    ListLinked(ptr, l, k);
    LinkInsert(ptr, l, k, b);
    SortedInsert(l, k, b);
    AllocIsBlock(l, blocks, alloc, b);
    InsertLabels(l, blocks, alloc, k, b);
    InsertGaps(l, blocks, k, b);
  }

  lemma AllocIsBlock(l: seq<nat>, blocks: map<nat, nat>, alloc: set<nat>, b: nat)
    requires Labels(l, blocks, alloc) && b in alloc
    ensures b in blocks && forall i :: 1 <= i < |l| ==> l[i] != b
  {
  }

  lemma ListLinked(ptr: map<nat, nat>, l: seq<nat>, k: nat)
    requires Linked(ptr, l) && k < |l|
    ensures l[k] in ptr && ptr[l[k]] == l[if k + 1 == |l| then 0 else k + 1]
  {
  }

  lemma InsertHas(l: seq<nat>, k: nat, b: nat)
    requires k < |l|
    ensures b in Insert(l, k, b) && forall a :: a in l ==> a in Insert(l, k, b)
  {
    assert l == l[..k + 1] + l[k + 1..];
    assert Insert(l, k, b)[k + 1] == b;
  }

  lemma DropHas(l: seq<nat>, k: nat)
    requires k < |l|
    ensures forall a :: a in l && a != l[k] ==> a in Drop(l, k)
  {
    assert l == l[..k] + [l[k]] + l[k + 1..];
  }

  ghost function Merged(blocks: map<nat, nat>, a: nat, b: nat): map<nat, nat>
    requires a in blocks && b in blocks
  {
    (blocks - {b})[a := blocks[a] + blocks[b]]
  }

  lemma MergeLabels(l: seq<nat>, blocks: map<nat, nat>, alloc: set<nat>, k: nat)
    requires Labels(l, blocks, alloc) && 1 <= k && k + 1 < |l| && Sorted(l)
    ensures Labels(Drop(l, k + 1), Merged(blocks, l[k], l[k + 1]), alloc)
  {
    var l', blocks' := Drop(l, k + 1), Merged(blocks, l[k], l[k + 1]);
    forall i | 1 <= i < |l'| ensures l'[i] in blocks' && l'[i] !in alloc {
      assert l'[i] == (if i <= k then l[i] else l[i + 1]);
    }
    forall a | a in blocks' && a !in alloc ensures a in l' {
      DropHas(l, k + 1);
    }
  }

  lemma MergeGaps(l: seq<nat>, blocks: map<nat, nat>, k: nat, e: set<nat>)
    requires Gaps(l, blocks, e + {k}) && 1 <= k && k + 1 < |l| && Sorted(l)
    requires l[k] + blocks[l[k]] == l[k + 1] && forall i :: i in e ==> i < k
    ensures Gaps(Drop(l, k + 1), Merged(blocks, l[k], l[k + 1]), e)
  {
    var l', blocks' := Drop(l, k + 1), Merged(blocks, l[k], l[k + 1]);
    forall i | 0 <= i < |l'| ensures l'[i] == (if i <= k then l[i] else l[i + 1]) && l'[i] != l[k + 1] {
    }
    forall i: nat, j: nat | 1 <= i && j == i + 1 < |l'| && i !in e ensures l'[i] + blocks'[l'[i]] < l'[j] {
      if i < k {
        assert l'[i] == l[i] && l'[j] == l[j];
      } else {
        assert l'[j] == l[j + 1] && l[i + 1] + blocks[l[i + 1]] < l[j + 1];
      }
    }
  }

  /** Free block k + 1, which touches free block k, joins it. */
  lemma MergeNext(base: nat, ptr: map<nat, nat>, size: map<nat, nat>, l: seq<nat>,
                  blocks: map<nat, nat>, alloc: set<nat>, arena: set<nat>, k: nat, e: set<nat>)
    requires Heap(base, ptr, size, l, blocks, alloc, arena) && Gaps(l, blocks, e + {k})
    requires 1 <= k && k + 1 < |l| && l[k] + blocks[l[k]] == l[k + 1] && forall i :: i in e ==> i < k
    ensures l[k + 1] in ptr
    ensures var l', blocks' := Drop(l, k + 1), Merged(blocks, l[k], l[k + 1]);
            && Heap(base, ptr[l[k] := ptr[l[k + 1]]], size[l[k] := size[l[k]] + size[l[k + 1]]], l', blocks', alloc, arena)
            && Gaps(l', blocks', e)
  {
    hide Linked;
    hide Sorted;
    hide Tiled;
    hide Labels;
    LinkDrop(ptr, l, k);
    MergeTiles(blocks, arena, l[k], l[k + 1]);
    MergeLabels(l, blocks, alloc, k);
    MergeGaps(l, blocks, k, e);
  }

  /** Allocated blocks keep their place and size. */
  ghost predicate Kept(alloc: set<nat>, blocks: map<nat, nat>, blocks': map<nat, nat>) {
    forall a :: a in alloc ==> a in blocks && a in blocks' && blocks'[a] == blocks[a]
  }

  lemma MergeKeeps(l: seq<nat>, blocks: map<nat, nat>, alloc: set<nat>, k: nat)
    requires Labels(l, blocks, alloc) && 1 <= k && k + 1 < |l|
    ensures Kept(alloc, blocks, Merged(blocks, l[k], l[k + 1]))
  {
  }

  /** Between an inserted block and its successor there is a gap unless they touch. */
  lemma FillGap(l: seq<nat>, blocks: map<nat, nat>, k: nat, e: set<nat>)
    requires Gaps(l, blocks, e + {k}) && Apart(blocks) && Sorted(l)
    requires 1 <= k && k + 1 < |l| ==> l[k] + blocks[l[k]] != l[k + 1]
    ensures Gaps(l, blocks, e)
  {
  }

  /** The headers as free writes them: b joins its upper neighbour q, then its lower one p, where they touch. */
  function JoinUp(ptr: map<nat, nat>, size: map<nat, nat>, p: nat, b: nat): (map<nat, nat>, map<nat, nat>)
    requires p in ptr && ptr[p] in ptr && ptr[p] in size && b in size
  {
    var q: nat := ptr[p];
    if b + size[b] == q then (ptr[b := ptr[q]], size[b := size[b] + size[q]]) else (ptr[b := q], size)
  }

  function JoinDown(ptr: map<nat, nat>, size: map<nat, nat>, p: nat, b: nat): (map<nat, nat>, map<nat, nat>)
    requires b in ptr && p in size && b in size
  {
    if p + size[p] == b then (ptr[p := ptr[b]], size[p := size[p] + size[b]]) else (ptr[p := b], size)
  }

  /** After insertion and the upper join. */
  lemma FreeUp(base: nat, ptr: map<nat, nat>, size: map<nat, nat>, l: seq<nat>,
               blocks: map<nat, nat>, alloc: set<nat>, arena: set<nat>, k: nat, b: nat)
    returns (l': seq<nat>, blocks': map<nat, nat>)
    requires Heap(base, ptr, size, l, blocks, alloc, arena) && Gaps(l, blocks, {})
    requires b in alloc && Place(l, k, b)
    ensures l[k] in ptr && ptr[l[k]] in ptr && ptr[l[k]] in size && b in size
    ensures var (ptr', size') := JoinUp(ptr, size, l[k], b);
            && Heap(base, ptr'[l[k] := b], size', l', blocks', alloc - {b}, arena)
            && Gaps(l', blocks', {k}) && k + 1 < |l'| && l'[k] == l[k] && l'[k + 1] == b
            && Kept(alloc - {b}, blocks, blocks')
            && b in blocks && b in blocks' && blocks'[b] >= blocks[b]
  {
    hide Linked;
    hide Sorted;
    hide Tiled;
    hide Labels;
    hide Gaps;
    ListLinked(ptr, l, k);
    var p: nat, q: nat := l[k], ptr[l[k]];
    if k + 1 < |l| {
      ListLinked(ptr, l, k + 1);
    } else {
      ListLinked(ptr, l, 0);
    }
    OnList(base, size, l, blocks, alloc, b, k);
    InsertFree(base, ptr, size, l, blocks, alloc, arena, k, b);
    var la := Insert(l, k, b);
    var ptra := ptr[b := q][p := b];
    assert la[k] == p && la[k + 1] == b && (k + 1 < |l| ==> la[k + 2] == l[k + 1]);
    if b + size[b] == q {
      assert {k, k + 1} == {k} + {k + 1};
      MergeNext(base, ptra, size, la, blocks, alloc - {b}, arena, k + 1, {k});
      MergeKeeps(la, blocks, alloc - {b}, k + 1);
      l', blocks' := Drop(la, k + 2), Merged(blocks, b, q);
      assert ptra[b := ptra[q]] == ptr[b := ptr[q]][p := b];
    } else {
      assert {k, k + 1} == {k} + {k + 1};
      ApartOf(blocks, arena);
      FillGap(la, blocks, k + 1, {k});
      l', blocks' := la, blocks;
      KeptSelf(la, blocks, alloc - {b});
    }
  }

  lemma ApartOf(blocks: map<nat, nat>, arena: set<nat>)
    requires Tiled(blocks, arena)
    ensures Apart(blocks)
  {
  }

  lemma KeptSelf(l: seq<nat>, blocks: map<nat, nat>, alloc: set<nat>)
    requires Labels(l, blocks, alloc)
    ensures Kept(alloc, blocks, blocks)
  {
  }

  /** Facts about a place on the list. */
  lemma OnList(base: nat, size: map<nat, nat>, l: seq<nat>, blocks: map<nat, nat>, alloc: set<nat>, b: nat, k: nat)
    requires Sizes(base, size, blocks) && Labels(l, blocks, alloc) && l != [] && l[0] == base && b in alloc && k < |l|
    ensures b in blocks && b in size && size[b] == blocks[b] && base < b
    ensures l[k] in size && (k == 0 || (l[k] in blocks && size[l[k]] == blocks[l[k]]))
    ensures k + 1 < |l| ==> l[k + 1] in size && l[k + 1] in blocks
  {
    if k > 0 {
      assert l[k] in blocks;
    }
  }

  /** The n units at b lie in one free block. */
  ghost predicate InFree(blocks: map<nat, nat>, alloc: set<nat>, b: nat, n: nat) {
    exists a :: a in blocks && a !in alloc && a <= b && b + n <= a + blocks[a]
  }

  /** All that free does to the headers, with the list and the blocks it leaves. */
  lemma FreeDown(base: nat, ptr: map<nat, nat>, size: map<nat, nat>, l: seq<nat>,
                 blocks: map<nat, nat>, alloc: set<nat>, arena: set<nat>, k: nat, b: nat)
    returns (l': seq<nat>, blocks': map<nat, nat>)
    requires Heap(base, ptr, size, l, blocks, alloc, arena) && Gaps(l, blocks, {})
    requires b in alloc && Place(l, k, b)
    ensures l[k] in ptr && ptr[l[k]] in ptr && ptr[l[k]] in size && b in size && l[k] in size
    ensures var (ptr1, size1) := JoinUp(ptr, size, l[k], b);
            && b in ptr1 && b in size1 && l[k] in size1
            && var (ptr2, size2) := JoinDown(ptr1, size1, l[k], b);
               && Heap(base, ptr2, size2, l', blocks', alloc - {b}, arena)
               && Gaps(l', blocks', {}) && l[k] in l' && Kept(alloc - {b}, blocks, blocks')
               && b in blocks && InFree(blocks', alloc - {b}, b, blocks[b])
  {
    hide Linked;
    hide Sorted;
    hide Tiled;
    hide Gaps;
    hide Kept;
    var l1, blocks1 := FreeUp(base, ptr, size, l, blocks, alloc, arena, k, b);
    OnList(base, size, l, blocks, alloc, b, k);
    var p := l[k];
    var (ptr1, size1) := JoinUp(ptr, size, p, b);
    assert {} + {k} == {k};
    assert b in blocks1 && size1[b] == blocks1[b];
    if p + size1[p] == b {
      assert k > 0;
      assert p in blocks1;
      MergeNext(base, ptr1[p := b], size1, l1, blocks1, alloc - {b}, arena, k, {});
      MergeKeeps(l1, blocks1, alloc - {b}, k);
      l', blocks' := Drop(l1, k + 1), Merged(blocks1, p, b);
      assert ptr1[p := b][p := ptr1[b]] == ptr1[p := ptr1[b]];
      KeptTrans(alloc - {b}, blocks, blocks1, blocks');
      assert l'[k] == p;
    } else {
      ApartOf(blocks1, arena);
      assert k >= 1 ==> p in blocks1 && size1[p] == blocks1[p];
      FillGap(l1, blocks1, k, {});
      l', blocks' := l1, blocks1;
      assert l'[k] == p;
    }
  }

  lemma KeptTrans(alloc: set<nat>, blocks0: map<nat, nat>, blocks1: map<nat, nat>, blocks2: map<nat, nat>)
    requires Kept(alloc, blocks0, blocks1) && Kept(alloc, blocks1, blocks2)
    ensures Kept(alloc, blocks0, blocks2)
  {
  }

  class Allocator {
    const base: nat
    var sz: nat                 // proc->sz, in bytes
    var top: nat                // how much of it is mapped
    var freep: nat              // 0 is null
    var ptr: map<nat, nat>
    var size: map<nat, nat>
    ghost var l: seq<nat>
    ghost var blocks: map<nat, nat>
    ghost var alloc: set<nat>
    ghost var arena: set<nat>

    constructor (base: nat, sz: nat)
      requires 0 < base && (base + 1) * HEADER <= sz < KERNBASE && sz % HEADER == 0
      ensures Valid() && Backed() && this.base == base && this.sz == sz && freep == 0 && blocks == map[] && alloc == {}
    {
      this.base := base;
      this.sz, top := sz, sz;
      freep := 0;
      ptr := map[base := base];
      size := map[base := 0];
      l := [base];
      blocks := map[];
      alloc := {};
      arena := {};
    }

    /** Before the first call nothing is known of the list; afterwards everything. */
    ghost predicate Valid()
      reads this
    {
      && base > 0
      && (freep == 0 ==> blocks == map[] && alloc == {} && arena == {})
      && (freep != 0 ==> Ready())
    }

    /** The heap lies in memory the process has, below the break. */
    ghost predicate Backed()
      reads this
    {
      InMemory(base, sz, top, arena)
    }

    ghost predicate Ready()
      reads this
    {
      freep in l && Heap(base, ptr, size, l, blocks, alloc, arena) && Gaps(l, blocks, {})
    }

    /** free's search: the free block after which b goes. */
    method Search(b: nat) returns (p: nat, ghost k: nat)
      requires Ready() && b in alloc
      ensures Place(l, k, b) && p == l[k] >= base
      ensures p in l && p < b && forall q :: q in l && q < b ==> q <= p
    {
      hide Tiled;
      hide Gaps;
      OnList(base, size, l, blocks, alloc, b, 0);
      AllocIsBlock(l, blocks, alloc, b);
      ghost var t := FindPlace(l, b);
      p := freep;
      k :| 0 <= k < |l| && l[k] == freep;
      while !(b > p && b < ptr[p])
        invariant k < |l| && p == l[k] && p in ptr && Place(l, t, b)
        decreases if k <= t then t - k else |l| - k + t
      {
        if p >= ptr[p] && (b > p || b < ptr[p]) {
          break;
        }
        p := ptr[p];
        k := if k + 1 == |l| then 0 else k + 1;
      }
      PlaceGreatest(l, k, b);
    }

    /** free(bp + 1) */
    method Free(b: nat)
      requires Valid() && freep != 0 && b in alloc
      modifies this
      ensures Valid() && freep != 0
      ensures alloc == old(alloc) - {b} && arena == old(arena) && Kept(alloc, old(blocks), blocks)
      ensures sz == old(sz) && top == old(top)
      ensures b in old(blocks) && InFree(blocks, alloc, b, old(blocks)[b])
    {
      hide Heap;
      hide Gaps;
      hide Kept;
      hide Place;
      var p, k := Search(b);
      ghost var l', blocks' := FreeDown(base, ptr, size, l, blocks, alloc, arena, k, b);
      if b + size[b] == ptr[p] {
        size := size[b := size[b] + size[ptr[p]]];
        ptr := ptr[b := ptr[ptr[p]]];
      } else {
        ptr := ptr[b := ptr[p]];
      }
      if p + size[p] == b {
        size := size[p := size[p] + size[b]];
        ptr := ptr[p := ptr[b]];
      } else {
        ptr := ptr[p := b];
      }
      freep := p;
      l, blocks, alloc := l', blocks', alloc - {b};
    }

    /** sbrk: growproc with a signed argument; mem says whether allocuvm finds its pages. */
    method Sbrk(n: int, mem: bool) returns (core: Option<nat>)
      requires Backed()
      modifies `sz, `top
      ensures var g := Growproc(old(sz), n, mem);
        && sz == g.sz && top == g.top && core == (if g.ok then Some(old(sz) / HEADER) else None)
    {
      var addr := sz;
      if n > 0 {
        if sz + n >= KERNBASE || !mem {
          return None;
        }
        sz, top := sz + n, sz + n;
      } else if n < 0 {
        var newsz := (sz + n) % WORDMAX;
        if newsz < sz {
          top := newsz;
          if newsz == 0 {
            return None;
          }
          sz := newsz;
        }
      }
      return Some(addr / HEADER);
    }

    /**
     * morecore: the request in bytes is computed in 32 bits and passed as a signed integer.  When the new
     * memory is not there the store into its header faults and the process is gone.
     */
    method Morecore(nunits: nat, mem: bool) returns (ok: bool, died: bool)
      requires Valid() && Backed() && freep != 0 && 0 < nunits <= WORDMAX / HEADER
      modifies this
      ensures died <==> !Survives(old(sz), Asked(old(sz), nunits, mem))
      ensures var g := Asked(old(sz), nunits, mem);
        && ok == (g.ok && !died) && sz == g.sz && top == g.top
        && arena == old(arena) + if ok then Units(old(sz) / HEADER, Granted(nunits)) else {}
      ensures Valid() && freep != 0
      ensures alloc == old(alloc) && Kept(alloc, old(blocks), blocks)
      ensures !ok ==> l == old(l) && blocks == old(blocks) && freep == old(freep) && ptr == old(ptr) && size == old(size)
      ensures ok ==> InFree(blocks, alloc, old(sz) / HEADER, nunits)
    {
      hide Heap;
      hide Gaps;
      hide Kept;
      hide InFree;
      hide PgRoundUp;
      var nu := nunits;
      if nu < NALLOC {
        nu := NALLOC;
      }
      BelowBreak(base, ptr, size, l, blocks, alloc, arena, sz);
      KeptAlloc(base, ptr, size, l, blocks, alloc, arena);
      var core := Sbrk(Signed(nu * HEADER % WORDMAX), mem);
      if top == 0 {
        return false, true;
      }
      if core.None? {
        return false, false;
      }
      var hp := core.value;
      if hp * HEADER + HEADER > PgRoundUp(top) {
        return false, true;
      }
      AddHeap(base, ptr, size, l, blocks, alloc, arena, hp, nu);
      size := size[hp := nu];
      blocks, alloc, arena := blocks[hp := nu], alloc + {hp}, arena + Units(hp, nu);
      ghost var blocks1 := blocks;
      Free(hp);
      assert alloc == old(alloc);
      KeptTrans(alloc, old(blocks), blocks1, blocks);
      InFreeLess(blocks, alloc, hp, nunits, nu);
      ok, died := true, false;
    }

    /** malloc's exit: the whole of free block p, or the end of it, is handed out. */
    method Carve(p: nat, prevp: nat, nunits: nat, ghost i: nat) returns (b: nat)
      requires Valid() && freep != 0 && 1 <= i < |l| && p == l[i] && prevp == l[i - 1] && nunits >= 1
      requires p in size && size[p] >= nunits
      modifies this
      ensures Valid() && freep != 0 && arena == old(arena) && sz == old(sz) && top == old(top)
      ensures b !in old(alloc) && alloc == old(alloc) + {b} && b in blocks && blocks[b] == nunits
      ensures Kept(old(alloc), old(blocks), blocks)
    {
      hide Heap;
      hide Gaps;
      hide Kept;
      ListFacts(base, ptr, size, l, blocks, alloc, arena, i);
      b := p;
      if size[p] == nunits {
        AllocWhole(base, ptr, size, l, blocks, alloc, arena, i);
        ptr := ptr[prevp := ptr[p]];
        assert Drop(l, i)[i - 1] == prevp;
        l, alloc := Drop(l, i), alloc + {p};
      } else {
        AllocTail(base, ptr, size, l, blocks, alloc, arena, i, nunits);
        size := size[p := size[p] - nunits];
        b := p + size[p];
        size := size[b := nunits];
        blocks, alloc := blocks[p := blocks[p] - nunits][b := nunits], alloc + {b};
      }
      freep := prevp;
    }

    /** malloc's loop: a free block of nunits, found at once or after one call of morecore; false when that fails. */
    method Find(nunits: nat, mem: bool) returns (ok: bool, p: nat, prevp: nat, asked: bool, died: bool, ghost i: nat)
      requires Valid() && Backed() && freep != 0 && 1 <= nunits <= WORDMAX / HEADER
      modifies this
      ensures Valid() && freep != 0 && alloc == old(alloc) && Kept(alloc, old(blocks), blocks)
      ensures asked <==> NoFit(old(blocks), alloc, nunits)
      ensures !asked ==> blocks == old(blocks) && arena == old(arena) && sz == old(sz) && top == old(top)
      ensures asked ==>
        var g := Asked(old(sz), nunits, mem);
        && ok == (g.ok && !died) && sz == g.sz && top == g.top
        && arena == old(arena) + if ok then Units(old(sz) / HEADER, Granted(nunits)) else {}
      ensures died <==> asked && !Survives(old(sz), Asked(old(sz), nunits, mem))
      ensures !ok ==> asked && blocks == old(blocks)
      ensures ok ==> 1 <= i < |l| && p == l[i] && prevp == l[i - 1] && p in size && size[p] >= nunits
    {
      hide Heap;
      hide Gaps;
      hide Kept;
      hide InFree;
      hide NoFit;
      hide InMemory;
      hide Asked;
      hide Survives;
      hide SmallSince;
      hide FitAhead;
      KeptAlloc(base, ptr, size, l, blocks, alloc, arena);
      prevp := freep;
      ghost var f: nat :| f < |l| && l[f] == freep;
      i := After(f, |l|);
      ListFacts(base, ptr, size, l, blocks, alloc, arena, f);
      ListFacts(base, ptr, size, l, blocks, alloc, arena, i);
      p := ptr[prevp];
      asked, died := false, false;
      StartRound(size, l, f, nunits);
      while size[p] < nunits
        invariant Valid() && freep != 0
        invariant f < |l| && l[f] == freep && i < |l| && p == l[i] && p in size && (i > 0 ==> prevp == l[i - 1])
        invariant alloc == old(alloc) && Kept(alloc, old(blocks), blocks)
        invariant !asked ==> blocks == old(blocks) && arena == old(arena) && sz == old(sz) && top == old(top)
        invariant !asked ==> SmallSince(size, l, i, f, nunits)
        invariant asked ==> NoFit(old(blocks), alloc, nunits) && Asked(old(sz), nunits, mem).ok
        invariant !died && (asked ==> Survives(old(sz), Asked(old(sz), nunits, mem)))
        invariant asked ==> sz == Asked(old(sz), nunits, mem).sz && top == Asked(old(sz), nunits, mem).top
        invariant asked ==> arena == old(arena) + Units(old(sz) / HEADER, Granted(nunits))
        invariant asked ==> FitAhead(size, l, i, f, nunits)
        decreases !asked, Dist(i, f, |l|)
      {
        if p == freep {
          SameIndex(base, ptr, size, l, blocks, alloc, arena, i, f);
          FitAtEnd(size, l, f, nunits);
          NothingFits(base, ptr, size, l, blocks, alloc, arena, f, nunits);
          asked := true;
          ghost var blocks1 := blocks;
          ok, died := Morecore(nunits, mem);
          if !ok {
            return;
          }
          KeptTrans(alloc, old(blocks), blocks1, blocks);
          p := freep;
          f :| f < |l| && l[f] == freep;
          i := f;
          FitOnList(base, ptr, size, l, blocks, alloc, arena, old(sz) / HEADER, nunits, f);
        }
        if i != f {
          RoundStep(size, l, i, f, nunits);
        }
        ListFacts(base, ptr, size, l, blocks, alloc, arena, i);
        prevp := p;
        p := ptr[p];
        i := After(i, |l|);
        ListFacts(base, ptr, size, l, blocks, alloc, arena, i);
      }
      ListFacts(base, ptr, size, l, blocks, alloc, arena, i);
      if !asked {
        FoundFits(base, ptr, size, l, blocks, alloc, arena, i, nunits);
      }
      ok := true;
    }

    /**
     * malloc: first fit from freep on, and one call of morecore exactly when no free block is large
     * enough.  The process dies in it exactly when 2^31 bytes or more are asked of sbrk and its last page
     * has no room for a header.  If it lives, the heap stays in memory the process has, and the block has
     * room for the bytes, exactly when the rounding does not wrap and less than that is asked.
     */
    method Malloc(nbytes: nat, mem: bool) returns (r: nat, asked: bool, died: bool)
      requires Valid() && Backed() && nbytes < WORDMAX
      modifies this
      ensures asked <==> NoFit(old(blocks), old(alloc), NUnits(nbytes))
      ensures died <==> asked && var want := HEADER * Granted(NUnits(nbytes));
                                 want >= SIGNED && !RoomInPage(old(sz), WORDMAX - want)
      ensures !died ==>
        && Valid() && freep != 0
        && Kept(old(alloc), old(blocks), blocks)
        && (r == 0 <==> asked && !Asked(old(sz), NUnits(nbytes), mem).ok)
        && (asked ==> arena == old(arena) + if r > 0 then Units(old(sz) / HEADER, Granted(NUnits(nbytes))) else {})
        && (asked ==> sz == Asked(old(sz), NUnits(nbytes), mem).sz && top == Asked(old(sz), NUnits(nbytes), mem).top)
        && (!asked ==> arena == old(arena) && sz == old(sz) && top == old(top))
        && (r == 0 ==> alloc == old(alloc) && blocks == old(blocks))
        && (r > 0 ==> r - 1 !in old(alloc) && alloc == old(alloc) + {r - 1}
                      && r - 1 in blocks && blocks[r - 1] == NUnits(nbytes))
        && (Backed() <==> !asked || HEADER * Granted(NUnits(nbytes)) < SIGNED)
      ensures !died && Backed() && HEADER * (NUnits(nbytes) - 1) >= nbytes <==>
        nbytes + HEADER - 1 < WORDMAX && (!asked || HEADER * Granted(NUnits(nbytes)) < SIGNED)
    {
      hide Heap;
      hide Gaps;
      hide Kept;
      hide NoFit;
      hide InMemory;
      hide Asked;
      hide Survives;
      hide RoomInPage;
      var nunits := NUnits(nbytes);
      if freep == 0 {
        freep := base;
        ptr := ptr[base := base];
        size := size[base := 0];
        l := [base];
        EmptyHeap(base, ptr, size);
      }
      NUnitsBound(nbytes);
      RoomForBytes(nbytes);
      MemoryFacts(base, sz, top, arena);
      SurvivesExactly(sz, nunits, mem);
      var ok, p, prevp, a, d, i := Find(nunits, mem);
      asked, died := a, d;
      BackedExact(base, old(sz), old(top), old(arena), nunits, mem);
      if !ok {
        return 0, asked, died;
      }
      ghost var blocks1 := blocks;
      var b := Carve(p, prevp, nunits, i);
      KeptTrans(old(alloc), old(blocks), blocks1, blocks);
      r := b + 1;
    }
  }

  lemma MemoryFacts(base: nat, sz: nat, top: nat, arena: set<nat>)
    requires InMemory(base, sz, top, arena)
    ensures 0 < sz < KERNBASE && sz % HEADER == 0
  {
  }

  function After(i: nat, n: nat): nat {
    if i + 1 == n then 0 else i + 1
  }

  /** Steps along a circle of n from i to f. */
  function Dist(i: int, f: int, n: int): int {
    if i <= f then f - i else f - i + n
  }

  /** Every node passed since f, up to i, is too small. */
  ghost predicate SmallSince(size: map<nat, nat>, l: seq<nat>, i: nat, f: nat, n: nat) {
    forall j :: 0 <= j < |l| && Dist(j, f, |l|) > Dist(i, f, |l|) ==> l[j] in size && size[l[j]] < n
  }

  /** Some node from i on, up to f, is large enough. */
  ghost predicate FitAhead(size: map<nat, nat>, l: seq<nat>, i: nat, f: nat, n: nat) {
    exists j :: 0 <= j < |l| && Dist(j, f, |l|) <= Dist(i, f, |l|) && l[j] in size && size[l[j]] >= n
  }

  lemma StartRound(size: map<nat, nat>, l: seq<nat>, f: nat, n: nat)
    requires f < |l|
    ensures SmallSince(size, l, After(f, |l|), f, n)
  {
  }

  lemma RoundStep(size: map<nat, nat>, l: seq<nat>, i: nat, f: nat, n: nat)
    requires i < |l| && f < |l| && i != f && l[i] in size && size[l[i]] < n
    ensures Dist(After(i, |l|), f, |l|) == Dist(i, f, |l|) - 1
    ensures SmallSince(size, l, i, f, n) ==> SmallSince(size, l, After(i, |l|), f, n)
    ensures FitAhead(size, l, i, f, n) ==> FitAhead(size, l, After(i, |l|), f, n)
  {
    if FitAhead(size, l, i, f, n) {
      var j :| 0 <= j < |l| && Dist(j, f, |l|) <= Dist(i, f, |l|) && l[j] in size && size[l[j]] >= n;
      assert Dist(j, f, |l|) <= Dist(After(i, |l|), f, |l|);
    }
  }

  lemma FitAtEnd(size: map<nat, nat>, l: seq<nat>, f: nat, n: nat)
    requires f < |l| && l[f] in size
    ensures FitAhead(size, l, f, f, n) ==> size[l[f]] >= n
  {
  }

  /** No free block has n units. */
  ghost predicate NoFit(blocks: map<nat, nat>, alloc: set<nat>, n: nat) {
    forall a :: a in blocks && a !in alloc ==> blocks[a] < n
  }

  lemma EmptyHeap(base: nat, ptr: map<nat, nat>, size: map<nat, nat>)
    requires base in ptr && ptr[base] == base && base in size && size[base] == 0
    ensures Heap(base, ptr, size, [base], map[], {}, {}) && Gaps([base], map[], {})
  {
  }

  lemma SameIndex(base: nat, ptr: map<nat, nat>, size: map<nat, nat>, l: seq<nat>,
                  blocks: map<nat, nat>, alloc: set<nat>, arena: set<nat>, i: nat, j: nat)
    requires Heap(base, ptr, size, l, blocks, alloc, arena) && i < |l| && j < |l| && l[i] == l[j]
    ensures i == j
  {
  }

  lemma NothingFits(base: nat, ptr: map<nat, nat>, size: map<nat, nat>, l: seq<nat>,
                    blocks: map<nat, nat>, alloc: set<nat>, arena: set<nat>, f: nat, n: nat)
    requires Heap(base, ptr, size, l, blocks, alloc, arena) && f < |l|
    requires SmallSince(size, l, f, f, n) && l[f] in size && size[l[f]] < n
    ensures NoFit(blocks, alloc, n)
  {
    hide Tiled;
    hide Linked;
  }

  lemma FitOnList(base: nat, ptr: map<nat, nat>, size: map<nat, nat>, l: seq<nat>,
                  blocks: map<nat, nat>, alloc: set<nat>, arena: set<nat>, b: nat, n: nat, f: nat)
    requires Heap(base, ptr, size, l, blocks, alloc, arena) && InFree(blocks, alloc, b, n) && f < |l|
    ensures FitAhead(size, l, After(f, |l|), f, n)
  {
    hide Tiled;
    hide Linked;
    var a :| a in blocks && a !in alloc && a <= b && b + n <= a + blocks[a];
    assert a in l;
    var j :| 0 <= j < |l| && l[j] == a;
    assert Dist(j, f, |l|) <= Dist(After(f, |l|), f, |l|);
  }

  lemma KeptAlloc(base: nat, ptr: map<nat, nat>, size: map<nat, nat>, l: seq<nat>,
                  blocks: map<nat, nat>, alloc: set<nat>, arena: set<nat>)
    requires Heap(base, ptr, size, l, blocks, alloc, arena)
    ensures Kept(alloc, blocks, blocks)
  {
  }

  lemma InFreeLess(blocks: map<nat, nat>, alloc: set<nat>, b: nat, m: nat, n: nat)
    requires InFree(blocks, alloc, b, n) && m <= n
    ensures InFree(blocks, alloc, b, m)
  {
  }

  /** New memory enters the heap as an allocated block. */
  lemma AddHeap(base: nat, ptr: map<nat, nat>, size: map<nat, nat>, l: seq<nat>,
                blocks: map<nat, nat>, alloc: set<nat>, arena: set<nat>, b: nat, n: nat)
    requires Heap(base, ptr, size, l, blocks, alloc, arena) && Gaps(l, blocks, {})
    requires base < b && n > 0 && forall c :: c in blocks ==> c + blocks[c] <= b
    ensures b !in blocks && b !in alloc
    ensures Heap(base, ptr, size[b := n], l, blocks[b := n], alloc + {b}, arena + Units(b, n))
    ensures Gaps(l, blocks[b := n], {})
    ensures Kept(alloc, blocks, blocks[b := n])
  {
    hide Tiled;
    hide Linked;
    hide Sorted;
    AddTile(blocks, arena, b, n);
  }

  lemma ListFacts(base: nat, ptr: map<nat, nat>, size: map<nat, nat>, l: seq<nat>,
                  blocks: map<nat, nat>, alloc: set<nat>, arena: set<nat>, i: nat)
    requires Heap(base, ptr, size, l, blocks, alloc, arena) && i < |l|
    ensures l[i] in ptr && ptr[l[i]] == l[if i + 1 == |l| then 0 else i + 1]
    ensures l[i] in size && l[i] >= base && (i == 0 ==> size[l[i]] == 0)
    ensures i > 0 ==> l[i] in blocks && l[i] !in alloc && size[l[i]] == blocks[l[i]] && l[i - 1] >= base
  {
    hide Tiled;
  }

  lemma AllocWhole(base: nat, ptr: map<nat, nat>, size: map<nat, nat>, l: seq<nat>,
                   blocks: map<nat, nat>, alloc: set<nat>, arena: set<nat>, i: nat)
    requires Heap(base, ptr, size, l, blocks, alloc, arena) && Gaps(l, blocks, {}) && 1 <= i < |l|
    ensures l[i] in ptr
    ensures Heap(base, ptr[l[i - 1] := ptr[l[i]]], size, Drop(l, i), blocks, alloc + {l[i]}, arena)
    ensures Gaps(Drop(l, i), blocks, {})
    ensures Kept(alloc, blocks, blocks)
  {
    hide Tiled;
    hide Linked;
    LinkDrop(ptr, l, i - 1);
    WholeLabels(l, blocks, alloc, i);
    WholeGaps(l, blocks, i);
  }

  lemma WholeLabels(l: seq<nat>, blocks: map<nat, nat>, alloc: set<nat>, i: nat)
    requires Labels(l, blocks, alloc) && 1 <= i < |l| && Sorted(l)
    ensures Labels(Drop(l, i), blocks, alloc + {l[i]})
  {
    var l' := Drop(l, i);
    forall j | 1 <= j < |l'| ensures l'[j] in blocks && l'[j] !in alloc + {l[i]} {
      assert l'[j] == (if j < i then l[j] else l[j + 1]);
    }
    forall a | a in blocks && a !in alloc + {l[i]} ensures a in l' {
      DropHas(l, i);
    }
  }

  lemma WholeGaps(l: seq<nat>, blocks: map<nat, nat>, i: nat)
    requires Gaps(l, blocks, {}) && 1 <= i < |l| && Sorted(l)
    ensures Gaps(Drop(l, i), blocks, {})
  {
    var l' := Drop(l, i);
    forall j | 0 <= j < |l'| ensures l'[j] == (if j < i then l[j] else l[j + 1]) {
    }
    forall j: nat, m: nat | 1 <= j && m == j + 1 < |l'| ensures l'[j] + blocks[l'[j]] < l'[m] {
      if m < i {
        assert l'[j] == l[j] && l'[m] == l[m];
      } else if j < i {
        assert l[j] + blocks[l[j]] < l[i] < l[i + 1];
      } else {
        assert l'[j] == l[j + 1] && l'[m] == l[m + 1];
      }
    }
  }

  lemma AllocTail(base: nat, ptr: map<nat, nat>, size: map<nat, nat>, l: seq<nat>,
                  blocks: map<nat, nat>, alloc: set<nat>, arena: set<nat>, i: nat, n: nat)
    requires Heap(base, ptr, size, l, blocks, alloc, arena) && Gaps(l, blocks, {}) && 1 <= i < |l|
    requires l[i] in blocks && 0 < n < blocks[l[i]]
    ensures var p := l[i];
            var t := p + blocks[p] - n;
            && p in size && t !in blocks && t !in alloc && size[p] == blocks[p]
            && Heap(base, ptr, size[p := size[p] - n][t := n], l, blocks[p := blocks[p] - n][t := n], alloc + {t}, arena)
            && Gaps(l, blocks[p := blocks[p] - n][t := n], {})
            && Kept(alloc, blocks, blocks[p := blocks[p] - n][t := n])
  {
    hide Tiled;
    hide Linked;
    SplitTile(blocks, arena, l[i], n);
  }

  // ----- Overflow -----

  /**
   * The block malloc returns has room for the bytes asked for exactly when the rounding up does
   * not wrap around.
   */
  lemma RoomForBytes(nbytes: nat)
    requires nbytes < WORDMAX
    ensures HEADER * (NUnits(nbytes) - 1) >= nbytes <==> nbytes + HEADER - 1 < WORDMAX
  {
    if nbytes + HEADER - 1 < WORDMAX {
      assert (nbytes + HEADER - 1) % WORDMAX == nbytes + HEADER - 1;
    } else {
      assert (nbytes + HEADER - 1) % WORDMAX == nbytes + HEADER - 1 - WORDMAX;
    }
  }

  lemma FoundFits(base: nat, ptr: map<nat, nat>, size: map<nat, nat>, l: seq<nat>,
                  blocks: map<nat, nat>, alloc: set<nat>, arena: set<nat>, i: nat, n: nat)
    requires Heap(base, ptr, size, l, blocks, alloc, arena) && 1 <= i < |l| && l[i] in size && size[l[i]] >= n
    ensures !NoFit(blocks, alloc, n)
  {
  }

  /** Blocks in memory end below the break. */
  lemma BelowBreak(base: nat, ptr: map<nat, nat>, size: map<nat, nat>, l: seq<nat>,
                   blocks: map<nat, nat>, alloc: set<nat>, arena: set<nat>, sz: nat)
    requires Heap(base, ptr, size, l, blocks, alloc, arena)
    requires (base + 1) * HEADER <= sz && forall u: nat :: u in arena ==> (u + 1) * HEADER <= sz
    ensures base < sz / HEADER && forall c :: c in blocks ==> c + blocks[c] <= sz / HEADER
  {
    forall c | c in blocks
      ensures c + blocks[c] <= sz / HEADER
    {
      assert Within(blocks, c, c + blocks[c] - 1);
      assert c + blocks[c] - 1 in arena;
    }
  }

  lemma HugeUnits(sz: nat, nbytes: nat)
    requires 0 < sz < SIGNED - HEADER && nbytes == SIGNED
    ensures var n := NUnits(nbytes);
      && Asked(sz, n, true) == Answer(true, sz, sz) && Granted(n) > 0 && HEADER * Granted(n) >= SIGNED
      && WORDMAX - HEADER * Granted(n) > sz
  {
    var n := NUnits(nbytes);
    assert n == SIGNED / HEADER + 1;
    assert Signed(n * HEADER % WORDMAX) == HEADER - SIGNED;
  }

  /**
   * A request of 2^31 bytes on a new heap: sbrk's argument is negative and nothing is granted.  A process
   * as exec leaves it, its break at the end of a page, dies; any other gets a block it has no memory for.
   */
  method HugeRequest(base: nat, sz: nat) returns (heap: Allocator, r: nat, died: bool)
    requires 0 < base && (base + 1) * HEADER <= sz < SIGNED - HEADER && sz % HEADER == 0
    ensures died <==> sz % PGSIZE == 0
    ensures !died ==>
      && r > 0 && heap.Valid() && !heap.Backed() && heap.sz == sz
      && sz / HEADER in heap.arena && HEADER * (sz / HEADER) >= heap.top
  {
    hide Units;
    hide NUnits;
    hide Asked;
    hide Granted;
    heap := new Allocator(base, sz);
    HugeUnits(sz, 0x8000_0000);
    var asked;
    r, asked, died := heap.Malloc(0x8000_0000, true);
  }
}
