// The buffer cache (bio.c) over the memory disk (memide.c).
//
// The NBUF buffers and the list head are numbered 0..NBUF-1 and HEAD; prev and next
// hold those numbers.  Each method is one critical section of bcache.lock, so any
// interleaving of processes is some sequence of calls.
module BufferCache {
  import opened Blocks
  import opened Common

  const NBUF: nat := 30
  const HEAD: nat := NBUF
  const DISKDEV: nat := 1

  datatype Buf = Buf(dev: nat, blockno: nat, valid: bool, dirty: bool, refcnt: nat, data: Block)

  predicate Holds(b: Buf, dev: nat, blockno: nat) {
    b.dev == dev && b.blockno == blockno
  }

  predicate Recyclable(b: Buf) {
    b.refcnt == 0 && !b.dirty
  }

  // ----- The circular list -----

  /** Node k of the circle that starts at the head and then follows order. */
  function Node(order: seq<nat>, k: int): (n: nat) {
    if 1 <= k <= |order| then order[k - 1] else HEAD
  }

  ghost predicate NoRepeat(order: seq<nat>) {
    && (forall i :: 0 <= i < |order| ==> order[i] < NBUF)
    && (forall i, j :: 0 <= i < j < |order| ==> order[i] != order[j])
  }

  /** prev and next link exactly the buffers of order, in that order, into one cycle. */
  ghost predicate Ring(next: seq<nat>, prev: seq<nat>, order: seq<nat>) {
    && |next| == |prev| == NBUF + 1
    && NoRepeat(order)
    && (forall j, k :: 0 <= j <= |order| && k == j + 1 ==>
          next[Node(order, j)] == Node(order, k) && prev[Node(order, k)] == Node(order, j))
  }

  ghost predicate Covers(order: seq<nat>) {
    forall b: nat :: b < NBUF ==> b in order
  }

  /** Most recently released first. */
  ghost predicate ByRelease(order: seq<nat>, stamp: seq<nat>)
    requires NoRepeat(order) && |stamp| == NBUF
  {
    forall i, j :: 0 <= i < j < |order| ==> stamp[order[i]] > stamp[order[j]]
  }

  lemma UnlinkRing(next: seq<nat>, prev: seq<nat>, order: seq<nat>, p: nat)
    requires Ring(next, prev, order) && p < |order|
    ensures next[order[p]] <= HEAD && prev[order[p]] <= HEAD
    ensures Ring(next[prev[order[p]] := next[order[p]]],
                 prev[next[order[p]] := prev[order[p]]],
                 order[..p] + order[p + 1..])
  {
    var b := order[p];
    assert Node(order, p + 1) == b;
    assert next[b] == Node(order, p + 2) && prev[b] == Node(order, p);
    var rest := order[..p] + order[p + 1..];
    forall k | 0 <= k <= |rest| + 1
      ensures Node(rest, k) == if k <= p then Node(order, k) else Node(order, k + 1)
    {
    }
    forall i, j | 0 <= i < j <= |order| + 1 && (i, j) != (0, |order| + 1)
      ensures Node(order, i) != Node(order, j)
    {
    }
    var next', prev' := next[prev[b] := next[b]], prev[next[b] := prev[b]];
    forall k | 0 <= k <= |rest|
      ensures next'[Node(rest, k)] == Node(rest, k + 1) && prev'[Node(rest, k + 1)] == Node(rest, k)
    {
      assert next[Node(order, k)] == Node(order, k + 1) && next[Node(order, k + 1)] == Node(order, k + 2);
      assert prev[Node(order, k + 1)] == Node(order, k) && prev[Node(order, k + 2)] == Node(order, k + 1);
    }
  }

  lemma LinkRing(next: seq<nat>, prev: seq<nat>, order: seq<nat>, b: nat)
    requires Ring(next, prev, order) && b < NBUF && b !in order
    ensures next[HEAD] <= HEAD
    ensures Ring(next[b := next[HEAD]][HEAD := b], prev[b := HEAD][next[HEAD] := b], [b] + order)
  {
    assert Node(order, 0) == HEAD && next[HEAD] == Node(order, 1);
    forall k | 2 <= k <= |order| + 2
      ensures Node([b] + order, k) == Node(order, k - 1)
    {
    }
    forall k | 1 <= k <= |order| + 1 ensures Node(order, k) != b {
    }
    forall i, j | 1 <= i < j <= |order| + 1
      ensures Node(order, i) != Node(order, j)
    {
    }
  }

  /** The six assignments of brelse move buffer order[p] behind the head. */
  lemma SpliceRing(next: seq<nat>, prev: seq<nat>, order: seq<nat>, p: nat)
    requires Ring(next, prev, order) && p < |order| && order[p] !in order[..p] + order[p + 1..]
    ensures var b := order[p];
            && b < NBUF && next[b] <= HEAD && prev[b] <= HEAD
            && var next1, prev1 := next[prev[b] := next[b]], prev[next[b] := prev[b]];
               && next1[HEAD] <= HEAD
               && Ring(next1[b := next1[HEAD]][HEAD := b], prev1[b := HEAD][next1[HEAD] := b],
                       [b] + (order[..p] + order[p + 1..]))
  {
    UnlinkRing(next, prev, order, p);
    var b := order[p];
    LinkRing(next[prev[b] := next[b]], prev[next[b] := prev[b]], order[..p] + order[p + 1..], b);
  }

  /** Moving one element to the front keeps the elements, and the order of release. */
  lemma FrontOrder(order: seq<nat>, stamp: seq<nat>, p: nat, clock: nat)
    requires p < |order| && NoRepeat(order) && Covers(order) && |stamp| == NBUF && ByRelease(order, stamp)
    requires forall b :: 0 <= b < NBUF ==> stamp[b] < clock
    ensures var front := [order[p]] + (order[..p] + order[p + 1..]);
            NoRepeat(front) && Covers(front) && ByRelease(front, stamp[order[p] := clock])
    ensures order[p] !in order[..p] + order[p + 1..]
  {
    var front := [order[p]] + (order[..p] + order[p + 1..]);
    forall b: nat | b < NBUF ensures b in front {
      assert b in order;
      assert order == order[..p] + [order[p]] + order[p + 1..];
    }
  }

  // ----- Contents -----

  /** No block of a real device sits in two buffers. */
  ghost predicate Unique(buf: seq<Buf>) {
    forall i, j :: 0 <= i < j < |buf| && buf[i].dev != 0 ==> !Holds(buf[j], buf[i].dev, buf[i].blockno)
  }

  /** A clean valid buffer agrees with the disk; a dirty one is valid. */
  ghost predicate Coherent(buf: seq<Buf>, disk: Disk) {
    && (forall i :: 0 <= i < |buf| && buf[i].dirty ==> buf[i].valid)
    && (forall i :: 0 <= i < |buf| && buf[i].valid ==> buf[i].dev == DISKDEV && buf[i].blockno < |disk|)
    && (forall i :: 0 <= i < |buf| && buf[i].valid && !buf[i].dirty ==> buf[i].data == disk[buf[i].blockno])
  }

  ghost predicate Pinned(buf: seq<Buf>, i: nat, b: nat) {
    i < |buf| && buf[i].dirty && buf[i].blockno == b
  }

  ghost predicate IsPinned(buf: seq<Buf>, b: nat) {
    exists i: nat :: Pinned(buf, i, b)
  }

  /** The block a reader sees: the pinned copy if there is one, else the disk's. */
  ghost function View(buf: seq<Buf>, disk: Disk, b: nat): Block
    requires b < |disk|
  {
    if IsPinned(buf, b) then (var i: nat :| Pinned(buf, i, b); buf[i].data) else disk[b]
  }

  /** Every valid buffer, dirty or clean, holds the viewed contents of its block. */
  lemma ViewIs(buf: seq<Buf>, disk: Disk, i: nat)
    requires Unique(buf) && Coherent(buf, disk) && i < |buf| && buf[i].valid
    ensures View(buf, disk, buf[i].blockno) == buf[i].data
  {
    var b := buf[i].blockno;
    forall j: nat | Pinned(buf, j, b) ensures j == i {
      assert Holds(buf[j], DISKDEV, b) && Holds(buf[i], DISKDEV, b);
    }
    if buf[i].dirty {
      assert Pinned(buf, i, b);
    }
  }

  /** The view of a block depends only on the dirty buffers and that block of the disk. */
  lemma ViewFrame(buf: seq<Buf>, disk: Disk, buf': seq<Buf>, disk': Disk)
    requires |buf| == |buf'| && |disk| == |disk'| && Unique(buf) && Coherent(buf, disk)
    requires forall i :: 0 <= i < |buf| ==> buf'[i].dirty == buf[i].dirty
    requires forall i :: 0 <= i < |buf| && buf[i].dirty ==>
               buf'[i].blockno == buf[i].blockno && buf'[i].data == buf[i].data
    ensures forall b :: 0 <= b < |disk| && disk'[b] == disk[b] ==> View(buf', disk', b) == View(buf, disk, b)
  {
    forall b | 0 <= b < |disk| && disk'[b] == disk[b] ensures View(buf', disk', b) == View(buf, disk, b) {
      forall i: nat ensures Pinned(buf, i, b) == Pinned(buf', i, b) {
      }
      forall i: nat, j: nat | Pinned(buf, i, b) && Pinned(buf, j, b) ensures i == j {
        assert Holds(buf[i], DISKDEV, b) && Holds(buf[j], DISKDEV, b);
      }
    }
  }

  class Cache {
    var disk: Disk
    var buf: seq<Buf>
    var next: seq<nat>
    var prev: seq<nat>
    ghost var order: seq<nat>   // buffers from head.next on
    ghost var stamp: seq<nat>   // when each buffer's refcnt last fell to zero
    ghost var clock: nat
    ghost var trace: seq<Write> // disk writes since boot

    /** The list visits every buffer once, most recently released first. */
    ghost predicate ListOk()
      reads this
    {
      && |buf| == |stamp| == |order| == NBUF
      && Ring(next, prev, order)
      && Covers(order)
      && ByRelease(order, stamp)
      && (forall b :: 0 <= b < NBUF ==> stamp[b] < clock)
    }

    ghost predicate Valid()
      reads this
    {
      |buf| == NBUF && ListOk() && Unique(buf) && Coherent(buf, disk)
    }

    /** binit, with the buffers zeroed as the loader leaves them. */
    constructor (d: Disk)
      ensures Valid() && disk == d && trace == []
      ensures forall i :: 0 <= i < NBUF ==> buf[i] == Buf(0, 0, false, false, 0, ZeroBlock())
      ensures order == seq(NBUF, k requires 0 <= k < NBUF => NBUF - 1 - k)
    {
      disk := d;
      trace := [];
      buf := seq(NBUF, _ => Buf(0, 0, false, false, 0, ZeroBlock()));
      next := seq(NBUF + 1, _ => HEAD);
      prev := seq(NBUF + 1, _ => HEAD);
      order := [];
      stamp := seq(NBUF, i => i);
      clock := NBUF;
      new;
      for b := 0 to NBUF
        invariant Ring(next, prev, order)
        invariant |order| == b
        invariant forall k :: 0 <= k < b ==> order[k] == b - 1 - k
        invariant disk == d && trace == [] && clock == NBUF
        invariant buf == seq(NBUF, _ => Buf(0, 0, false, false, 0, ZeroBlock()))
        invariant stamp == seq(NBUF, i => i)
      {
        LinkRing(next, prev, order, b);
        next, prev := next[b := next[HEAD]][HEAD := b], prev[b := HEAD][next[HEAD] := b];
        order := [b] + order;
      }
      forall b: nat | b < NBUF ensures b in order {
        assert order[NBUF - 1 - b] == b;
      }
      assert Covers(order);
    }

    /** Forward scan of bget: the buffer that holds the block, or the head. */
    method Lookup(dev: nat, blockno: nat) returns (b: nat)
      requires ListOk()
      ensures b < NBUF ==> Holds(buf[b], dev, blockno)
      ensures b >= NBUF ==> b == HEAD && forall i :: 0 <= i < NBUF ==> !Holds(buf[i], dev, blockno)
    {
      assert Node(order, 0) == HEAD && Node(order, 1) == next[HEAD];
      b := next[HEAD];
      ghost var k := 1;
      while b != HEAD && !Holds(buf[b], dev, blockno)
        invariant 1 <= k <= NBUF + 1 && b == Node(order, k)
        invariant forall i :: 0 <= i < k - 1 ==> !Holds(buf[order[i]], dev, blockno)
        decreases NBUF + 1 - k
      {
        assert Node(order, k + 1) == next[b];
        b := next[b];
        k := k + 1;
      }
      if b == HEAD {
        forall i | 0 <= i < NBUF ensures !Holds(buf[i], dev, blockno) {
          assert i in order;
        }
      }
    }

    /** Backward scan of bget: the least recently released clean unreferenced buffer, or the head. */
    method Victim() returns (b: nat)
      requires ListOk()
      ensures b < NBUF ==> Recyclable(buf[b])
                           && forall i :: 0 <= i < NBUF && i != b && Recyclable(buf[i]) ==> stamp[b] < stamp[i]
      ensures b >= NBUF ==> b == HEAD && forall i :: 0 <= i < NBUF ==> !Recyclable(buf[i])
    {
      assert Node(order, NBUF + 1) == HEAD && Node(order, NBUF) == prev[HEAD];
      b := prev[HEAD];
      ghost var k := NBUF;
      while b != HEAD && !Recyclable(buf[b])
        invariant 0 <= k <= NBUF && b == Node(order, k)
        invariant forall i :: k <= i < NBUF ==> !Recyclable(buf[order[i]])
        decreases k
      {
        assert Node(order, k - 1) == prev[b];
        b := prev[b];
        k := k - 1;
      }
      forall i | 0 <= i < NBUF && Recyclable(buf[i])
        ensures b < NBUF && (i != b ==> stamp[b] < stamp[i])
      {
        assert i in order;
      }
    }

    /** Finds the block or recycles a buffer; None is panic("bget: no buffers"). */
    method Bget(dev: nat, blockno: nat) returns (r: Option<nat>)
      requires Valid()
      modifies this`buf
      ensures Valid()
      ensures r.None? <==> forall i :: 0 <= i < NBUF ==> !Holds(old(buf)[i], dev, blockno) && !Recyclable(old(buf)[i])
      ensures r.None? ==> buf == old(buf)
      ensures r.Some? ==> r.value < NBUF
      ensures r.Some? && Holds(old(buf)[r.value], dev, blockno) ==>
                buf == old(buf)[r.value := old(buf)[r.value].(refcnt := old(buf)[r.value].refcnt + 1)]
      ensures r.Some? && !Holds(old(buf)[r.value], dev, blockno) ==>
                && (forall i :: 0 <= i < NBUF ==> !Holds(old(buf)[i], dev, blockno))
                && Recyclable(old(buf)[r.value])
                && buf == old(buf)[r.value := Buf(dev, blockno, false, false, 1, old(buf)[r.value].data)]
                && (forall i :: 0 <= i < NBUF && i != r.value && Recyclable(old(buf)[i]) ==> stamp[r.value] < stamp[i])
    {
      var b := Lookup(dev, blockno);
      if b != HEAD {
        buf := buf[b := buf[b].(refcnt := buf[b].refcnt + 1)];
        return Some(b);
      }
      b := Victim();
      if b == HEAD {
        return None;
      }
      buf := buf[b := Buf(dev, blockno, false, false, 1, buf[b].data)];
      return Some(b);
    }

    /** Drops a reference; at zero the buffer moves to the front of the list. */
    method Brelse(b: nat)
      requires Valid() && b < NBUF && buf[b].refcnt > 0
      modifies this`buf, this`next, this`prev, this`order, this`stamp, this`clock
      ensures Valid()
      ensures buf == old(buf)[b := old(buf)[b].(refcnt := old(buf)[b].refcnt - 1)]
      ensures buf[b].refcnt > 0 ==> order == old(order) && stamp == old(stamp)
      ensures buf[b].refcnt == 0 ==>
                && order[0] == b
                && stamp == old(stamp)[b := old(clock)]
                && (exists p :: 0 <= p < NBUF && old(order)[p] == b
                      && order[1..] == old(order)[..p] + old(order)[p + 1..])
    {
      buf := buf[b := buf[b].(refcnt := buf[b].refcnt - 1)];
      if buf[b].refcnt == 0 {
        ToFront(b);
      }
    }

    /** The splice of brelse: out of its place, in behind the head. */
    method ToFront(b: nat)
      requires ListOk() && b < NBUF
      modifies this`next, this`prev, this`order, this`stamp, this`clock
      ensures ListOk()
      ensures order[0] == b && stamp == old(stamp)[b := old(clock)]
      ensures exists p :: 0 <= p < NBUF && old(order)[p] == b
                          && order[1..] == old(order)[..p] + old(order)[p + 1..]
    {
      assert b in order;
      ghost var p :| 0 <= p < NBUF && order[p] == b;
      ghost var rest := order[..p] + order[p + 1..];
      hide Ring;
      hide ByRelease;
      hide Covers;
      FrontOrder(order, stamp, p, clock);
      SpliceRing(next, prev, order, p);
      prev, next := prev[next[b] := prev[b]], next[prev[b] := next[b]];
      next, prev := next[b := next[HEAD]][HEAD := b], prev[b := HEAD][next[HEAD] := b];
      order := [b] + rest;
      stamp := stamp[b := clock];
      clock := clock + 1;
      assert old(order)[p] == b && order[1..] == old(order)[..p] + old(order)[p + 1..];
    }

    /** The dirty buffers, with their contents, are those they were. */
    twostate predicate PinsKept()
      reads this
    {
      && |buf| == |old(buf)|
      && (forall i :: 0 <= i < |buf| ==> buf[i].dirty == old(buf)[i].dirty)
      && (forall i :: 0 <= i < |buf| && buf[i].dirty ==>
            buf[i].blockno == old(buf)[i].blockno && buf[i].data == old(buf)[i].data)
    }

    /** iderw on a locked buffer without B_VALID; false is a panic of iderw. */
    method Fetch(b: nat) returns (ok: bool)
      requires Valid() && b < NBUF && !buf[b].valid
      modifies this`buf
      ensures ok <==> old(buf)[b].dev == DISKDEV && old(buf)[b].blockno < |disk|
      ensures Valid()
      ensures !ok ==> buf == old(buf)
      ensures ok ==> buf == old(buf)[b := old(buf)[b].(valid := true, data := disk[old(buf)[b].blockno])]
    {
      ok := buf[b].dev == DISKDEV && buf[b].blockno < |disk|;
      if ok {
        buf := buf[b := buf[b].(valid := true, data := disk[buf[b].blockno])];
      }
    }

    /**
     * A locked buffer with the block's contents.  None is one of the panics: no buffer to
     * recycle, or iderw asked for another device or a block past the end of the disk.
     */
    method Bread(dev: nat, blockno: nat) returns (r: Option<nat>)
      requires Valid()
      modifies this`buf
      ensures r.None? <==>
                || (forall i :: 0 <= i < NBUF ==> !Holds(old(buf)[i], dev, blockno) && !Recyclable(old(buf)[i]))
                || ((forall i :: 0 <= i < NBUF && Holds(old(buf)[i], dev, blockno) ==> !old(buf)[i].valid)
                    && (dev != DISKDEV || blockno >= |disk|))
      ensures r.None? && dev == DISKDEV && blockno < |disk| ==> buf == old(buf)
      ensures r.Some? ==>
                && Valid() && r.value < NBUF && dev == DISKDEV && blockno < |disk|
                && buf[r.value].valid && Holds(buf[r.value], dev, blockno)
                && (Holds(old(buf)[r.value], dev, blockno) || Recyclable(old(buf)[r.value]))
                && buf[r.value].data == View(old(buf), disk, blockno)
                && PinsKept()
                && (forall b :: 0 <= b < |disk| ==> View(buf, disk, b) == View(old(buf), disk, b))
                && (forall i :: 0 <= i < NBUF && i != r.value ==> buf[i] == old(buf)[i])
                && buf[r.value].refcnt == (if Holds(old(buf)[r.value], dev, blockno) then old(buf)[r.value].refcnt else 0) + 1
    {
      hide Ring;
      hide View;
      hide ByRelease;
      hide Covers;
      r := Bget(dev, blockno);
      if r.Some? {
        var b := r.value;
        var ok := true;
        if !buf[b].valid {
          ok := Fetch(b);
        }
        if !ok {
          return None;
        }
        ViewFrame(old(buf), disk, buf, disk);
        ViewIs(buf, disk, b);
      }
    }

    /** memmove into the locked buffer, then bwrite: one atomic disk write. */
    method Bwrite(b: nat, data: Block)
      requires Valid() && b < NBUF && buf[b].valid
      modifies this`buf, this`disk, this`trace
      ensures Valid()
      ensures disk == old(disk)[old(buf)[b].blockno := data]
      ensures buf == old(buf)[b := old(buf)[b].(dirty := false, data := data)]
      ensures trace == old(trace) + [Write(buf[b].blockno, data)]
    {
      forall i | 0 <= i < NBUF && i != b && buf[i].valid ensures buf[i].blockno != buf[b].blockno {
        assert Holds(buf[i], buf[b].dev, buf[i].blockno);
      }
      disk := disk[buf[b].blockno := data];
      buf := buf[b := buf[b].(dirty := false, data := data)];
      trace := trace + [Write(buf[b].blockno, data)];
    }
  }

}
