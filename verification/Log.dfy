// The write-ahead log (log.c) over the buffer cache: log_write pins, commit writes the
// log, the header, the home blocks and the header again, boot replays what it finds.
module Log {
  import opened Blocks
  import opened Common
  import opened BufferCache
  import opened Crash

  /** Log absorption: a block is listed once. */
  function Absorb(h: seq<nat>, b: nat): (r: seq<nat>) {
    if b in h then h else h + [b]
  }

  ghost predicate Quiet(buf: seq<Buf>) {
    forall i :: 0 <= i < |buf| ==> buf[i].refcnt == 0
  }

  /** A buffer can be recycled. */
  ghost predicate HasSpare(buf: seq<Buf>) {
    exists i :: 0 <= i < |buf| && Recyclable(buf[i])
  }

  /** A read of block h is a hit. */
  ghost predicate Cached(buf: seq<Buf>, h: nat) {
    exists i :: 0 <= i < |buf| && buf[i].valid && Holds(buf[i], DISKDEV, h)
  }

  /** Buffers in use hold home blocks: nobody but the log reads the log area. */
  ghost predicate HeldHome(l: Layout, buf: seq<Buf>) {
    forall i :: 0 <= i < |buf| && buf[i].refcnt > 0 ==> buf[i].valid && Home(l, buf[i].blockno)
  }

  /** The buffers without the reference that the committing process has to buffer held. */
  function Without(buf: seq<Buf>, held: Option<nat>): (r: seq<Buf>)
    ensures |r| == |buf|
    ensures forall i :: 0 <= i < |buf| ==> r[i] == if held == Some(i) then buf[i].(refcnt := 0) else buf[i]
  {
    if held.Some? && held.value < |buf| then buf[held.value := buf[held.value].(refcnt := 0)] else buf
  }

  /** The committing process holds buffer lb with block bno of the log area as it is on disk; all others hold home blocks. */
  ghost predicate HoldsLog(l: Layout, buf: seq<Buf>, disk: Disk, bno: nat, lb: nat) {
    && lb < |buf| && bno < |disk| && !Home(l, bno) && buf[lb] == Buf(DISKDEV, bno, true, false, 1, disk[bno])
    && HeldHome(l, Without(buf, Some(lb)))
  }

  /** The same references to the same blocks. */
  ghost predicate HoldersKept(buf: seq<Buf>, buf': seq<Buf>) {
    && |buf'| == |buf|
    && (forall i :: 0 <= i < |buf| ==> buf'[i].refcnt == buf[i].refcnt)
    && (forall i :: 0 <= i < |buf| && buf[i].refcnt > 0 ==>
          buf'[i].dev == buf[i].dev && buf'[i].blockno == buf[i].blockno && buf'[i].valid == buf[i].valid)
  }

  /** The buffer of block h is no longer pinned, the others are as they were. */
  ghost predicate PinsBut(buf: seq<Buf>, buf': seq<Buf>, h: nat) {
    && |buf'| == |buf|
    && (forall i :: 0 <= i < |buf| ==> (buf'[i].dirty <==> buf[i].dirty && buf[i].blockno != h))
    && (forall i :: 0 <= i < |buf| && buf'[i].dirty ==> buf'[i].blockno == buf[i].blockno && buf'[i].data == buf[i].data)
  }

  /** Only blocks of h are pinned. */
  ghost predicate PinnedIn(buf: seq<Buf>, h: seq<nat>) {
    forall i :: 0 <= i < |buf| && buf[i].dirty ==> buf[i].blockno in h
  }

  /** Every block of h is pinned. */
  ghost predicate AllPinned(buf: seq<Buf>, h: seq<nat>) {
    forall t :: 0 <= t < |h| ==> IsPinned(buf, h[t])
  }

  ghost function Views(buf: seq<Buf>, disk: Disk, h: seq<nat>): (data: seq<Block>)
    requires forall t :: 0 <= t < |h| ==> h[t] < |disk|
    ensures |data| == |h| && forall t :: 0 <= t < |h| ==> data[t] == View(buf, disk, h[t])
  {
    seq(|h|, t requires 0 <= t < |h| => View(buf, disk, h[t]))
  }

  // ----- A buffer is always left for the commit -----

  /** The blocks whose buffers cannot be recycled: pinned, or held by somebody. */
  ghost function Busy(buf: seq<Buf>): set<nat> {
    set i | 0 <= i < |buf| && !Recyclable(buf[i]) :: buf[i].blockno
  }

  lemma BusyLast(buf: seq<Buf>, k: nat)
    requires k + 1 == |buf| && OneEach(buf)
    ensures OneEach(buf[..k])
    ensures Recyclable(buf[k]) ==> Busy(buf) == Busy(buf[..k])
    ensures !Recyclable(buf[k]) ==> Busy(buf) == Busy(buf[..k]) + {buf[k].blockno} && buf[k].blockno !in Busy(buf[..k])
  {
    if !Recyclable(buf[k]) {
      forall i | 0 <= i < k && !Recyclable(buf[i]) ensures buf[i].blockno != buf[k].blockno {
        assert !Holds(buf[k], buf[i].dev, buf[i].blockno);
      }
    }
  }

  /** Buffers that cannot be recycled hold different blocks of the disk. */
  ghost predicate OneEach(buf: seq<Buf>) {
    Unique(buf) && forall i :: 0 <= i < |buf| && !Recyclable(buf[i]) ==> buf[i].dev == DISKDEV
  }

  lemma {:induction false} CountBusy(buf: seq<Buf>)
    requires OneEach(buf)
    ensures |Busy(buf)| <= |buf|
    ensures |Busy(buf)| == |buf| <==> forall i :: 0 <= i < |buf| ==> !Recyclable(buf[i])
  {
    hide OneEach;
    hide Recyclable;
    if buf == [] {
      assert Busy(buf) == {};
    } else {
      var k := |buf| - 1;
      BusyLast(buf, k);
      CountBusy(buf[..k]);
      assert forall i :: 0 <= i < k ==> buf[..k][i] == buf[i];
    }
  }

  /** A buffer can be recycled exactly when fewer than NBUF blocks are busy. */
  lemma SpareExact(buf: seq<Buf>)
    requires |buf| == NBUF && OneEach(buf)
    ensures HasSpare(buf) <==> |Busy(buf)| < NBUF
  {
    CountBusy(buf);
  }

  /** If the busy buffers hold fewer than NBUF blocks, one buffer can be recycled. */
  lemma Spare(buf: seq<Buf>, busy: seq<nat>)
    requires |buf| == NBUF && Unique(buf) && |busy| < NBUF
    requires forall i :: 0 <= i < NBUF && !Recyclable(buf[i]) ==> buf[i].dev == DISKDEV && buf[i].blockno in busy
    ensures exists i :: 0 <= i < NBUF && Recyclable(buf[i])
  {
    SpareExact(buf);
    CountElements(busy);
    SubsetSize(Busy(buf), Elements(busy));
  }

  /** With pins[k] not pinned, its buffer makes room for one more busy block. */
  lemma SpareBut(buf: seq<Buf>, disk: Disk, pins: seq<nat>, k: nat, extra: nat)
    requires |buf| == NBUF && Unique(buf) && Coherent(buf, disk) && k < |pins| < NBUF
    requires PinnedIn(buf, pins) && !IsPinned(buf, pins[k])
    requires forall i :: 0 <= i < NBUF && buf[i].refcnt > 0 ==> Holds(buf[i], DISKDEV, extra)
    ensures exists i :: 0 <= i < NBUF && Recyclable(buf[i])
  {
    var busy := pins[..k] + pins[k + 1..] + [extra];
    forall i | 0 <= i < NBUF && buf[i].dirty ensures buf[i].blockno in busy {
      assert Pinned(buf, i, buf[i].blockno);
      assert pins == pins[..k] + [pins[k]] + pins[k + 1..];
    }
    Spare(buf, busy);
  }

  lemma AllPinnedKept(buf: seq<Buf>, buf': seq<Buf>, h: seq<nat>)
    requires |buf| == |buf'| && AllPinned(buf, h)
    requires forall i :: 0 <= i < |buf| ==> buf'[i].dirty == buf[i].dirty
    requires forall i :: 0 <= i < |buf| && buf'[i].dirty ==> buf'[i].blockno == buf[i].blockno
    ensures AllPinned(buf', h)
  {
    forall t | 0 <= t < |h| ensures IsPinned(buf', h[t]) {
      var i: nat :| Pinned(buf, i, h[t]);
      assert Pinned(buf', i, h[t]);
    }
  }

  // ----- The stages of a commit -----

  /** Copying(t): t blocks are in the log.  Installing(t): the header is written and t blocks are home. */
  datatype Pc = Idle | Copying(t: nat) | Installing(t: nat)

  /** The blocks that must stay cached. */
  function Pins(lh: seq<nat>, pc: Pc): seq<nat> {
    if pc.Installing? && pc.t <= |lh| then lh[pc.t..] else lh
  }

  ghost predicate InLog(l: Layout, disk: Disk, lh: seq<nat>, logical: Disk, n: nat) {
    && l.start + |lh| < |disk| == |logical| && n <= |lh| && (forall j :: 0 <= j < |lh| ==> lh[j] < |disk|)
    && forall j :: 0 <= j < n ==> disk[l.start + 1 + j] == logical[lh[j]]
  }

  ghost predicate Stage(l: Layout, disk: Disk, lh: seq<nat>, pc: Pc, logical: Disk, safe: Disk) {
    && Formatted(l, disk) && |logical| == |safe| == |disk|
    && match pc
       case Idle => Header(l, disk) == [] && SameHome(l, disk, safe)
       case Copying(t) => lh != [] && Header(l, disk) == [] && SameHome(l, disk, safe) && InLog(l, disk, lh, logical, t)
       case Installing(t) =>
         lh != [] && t <= |lh| && Header(l, disk) == lh && SameHome(l, logical, safe) && InLog(l, disk, lh, logical, |lh|)
  }

  /** The block of the log area that the next turn reads first. */
  function Target(l: Layout, lh: seq<nat>, pc: Pc): nat {
    if !pc.Idle? && pc.t < |lh| then l.start + 1 + pc.t else l.start
  }

  /** Inside a turn the committing process holds that block. */
  ghost predicate HeldOk(l: Layout, buf: seq<Buf>, disk: Disk, lh: seq<nat>, pc: Pc, held: Option<nat>) {
    held.Some? ==> !pc.Idle? && HoldsLog(l, buf, disk, Target(l, lh, pc), held.value)
  }

  /** A buffer that nobody used is taken for the log. */
  ghost predicate Taken(buf: seq<Buf>, buf': seq<Buf>, held: Option<nat>) {
    && held.Some? && held.value < |buf| == |buf'| && Recyclable(buf[held.value])
    && forall i :: 0 <= i < |buf| && held != Some(i) ==> buf'[i] == buf[i]
  }

  /** The next point of the commit. */
  ghost predicate After(lh: seq<nat>, pc: Pc, lh': seq<nat>, pc': Pc) {
    match pc
    case Idle => false
    case Copying(t) => lh' == lh && pc' == if t < |lh| then Copying(t + 1) else Installing(0)
    case Installing(t) => if t < |lh| then lh' == lh && pc' == Installing(t + 1) else lh' == [] && pc' == Idle
  }

  /** What readers see of the home blocks. */
  ghost predicate Seen(l: Layout, buf: seq<Buf>, disk: Disk, logical: Disk) {
    |logical| == |disk| && forall b :: 0 <= b < |disk| && Home(l, b) ==> View(buf, disk, b) == logical[b]
  }

  lemma StageFacts(l: Layout, disk: Disk, lh: seq<nat>, pc: Pc, logical: Disk, safe: Disk)
    requires Stage(l, disk, lh, pc, logical, safe)
    ensures Fits(l, disk) && |logical| == |disk| && (pc.Copying? ==> pc.t <= |lh|) && (pc.Installing? ==> pc.t <= |lh|)
  {
  }

  lemma StageEmpty(l: Layout, disk: Disk, lh: seq<nat>, pc: Pc, logical: Disk, safe: Disk)
    requires Stage(l, disk, lh, pc, logical, safe) && pc.Copying?
    ensures Formatted(l, disk) && Header(l, disk) == [] && lh != []
  {
  }

  lemma SeenAt(l: Layout, buf: seq<Buf>, disk: Disk, logical: Disk, b: nat)
    requires Seen(l, buf, disk, logical) && b < |disk| && Home(l, b)
    ensures View(buf, disk, b) == logical[b]
  {
  }

  lemma InLogAt(l: Layout, disk: Disk, lh: seq<nat>, t: nat, logical: Disk, safe: Disk)
    requires Stage(l, disk, lh, Installing(t), logical, safe) && t < |lh|
    ensures l.start + 1 + t < |disk| && lh[t] < |logical| && disk[l.start + 1 + t] == logical[lh[t]]
  {
  }

  /** One more block in the log. */
  lemma StageLog(l: Layout, disk: Disk, disk': Disk, lh: seq<nat>, t: nat, logical: Disk, safe: Disk)
    requires Stage(l, disk, lh, Copying(t), logical, safe) && t < |lh| && Loggable(l, |disk|, lh)
    requires l.start + 1 + t < |disk| && disk' == disk[l.start + 1 + t := logical[lh[t]]]
    ensures Stage(l, disk', lh, Copying(t + 1), logical, safe)
  {
    hide Word;
    hide Distinct;
    assert disk'[l.start] == disk[l.start];
  }

  /** The header makes the transaction durable. */
  lemma StageHead(l: Layout, disk: Disk, disk': Disk, lh: seq<nat>, logical: Disk, safe: Disk)
    requires Stage(l, disk, lh, Copying(|lh|), logical, safe) && Loggable(l, |disk|, lh)
    requires disk' == disk[l.start := PutHeader(disk[l.start], lh)]
    ensures Stage(l, disk', lh, Installing(0), logical, logical)
  {
    hide Word;
    hide PutWords;
    hide Distinct;
    var b := PutHeader(disk[l.start], lh);
    assert disk'[l.start] == b && HeaderCount(b) == |lh| && HeaderOf(b) == lh;
  }

  /** One more block at home. */
  lemma StageInstall(l: Layout, disk: Disk, disk': Disk, lh: seq<nat>, t: nat, logical: Disk, safe: Disk)
    requires Stage(l, disk, lh, Installing(t), logical, safe) && t < |lh| && Loggable(l, |disk|, lh)
    requires l.start + 1 + t < |disk| && disk' == disk[lh[t] := disk[l.start + 1 + t]]
    ensures Stage(l, disk', lh, Installing(t + 1), logical, safe)
  {
    hide Word;
    hide Distinct;
    assert disk'[l.start] == disk[l.start];
  }

  lemma StageDone(l: Layout, buf: seq<Buf>, disk: Disk, disk': Disk, lh: seq<nat>, logical: Disk, safe: Disk)
    requires Stage(l, disk, lh, Installing(|lh|), logical, safe) && PinnedIn(buf, []) && Seen(l, buf, disk, logical)
    requires disk' == disk[l.start := PutHeader(disk[l.start], [])]
    ensures Stage(l, disk', [], Idle, logical, safe)
  {
    hide Word;
    hide PutWords;
    hide View;
    NoPins(buf, disk);
    var b := PutHeader(disk[l.start], []);
    assert disk'[l.start] == b && HeaderCount(b) == 0 && HeaderOf(b) == [];
    assert Loggable(l, |disk'|, []) by { assert Distinct([]); }
  }

  /** A write to the log area does not show. */
  lemma SeenLog(l: Layout, buf: seq<Buf>, disk: Disk, buf': seq<Buf>, disk': Disk, logical: Disk, b: nat)
    requires Seen(l, buf, disk, logical) && |disk'| == |disk| && |buf'| == |buf| && Unique(buf) && Coherent(buf, disk)
    requires !Home(l, b) && forall c :: 0 <= c < |disk| && c != b ==> disk'[c] == disk[c]
    requires forall i :: 0 <= i < |buf| ==> buf'[i].dirty == buf[i].dirty
    requires forall i :: 0 <= i < |buf| && buf'[i].dirty ==> buf'[i].blockno == buf[i].blockno && buf'[i].data == buf[i].data
    ensures Seen(l, buf', disk', logical)
  {
    hide View;
    hide Unique;
    hide Coherent;
    ViewFrame(buf, disk, buf', disk');
  }

  lemma SeenInstall(l: Layout, buf: seq<Buf>, disk: Disk, buf': seq<Buf>, disk': Disk, h: nat, logical: Disk)
    requires Seen(l, buf, disk, logical) && h < |disk| && Unique(buf) && Coherent(buf, disk)
    requires disk' == disk[h := logical[h]] && PinsBut(buf, buf', h)
    ensures Seen(l, buf', disk', logical)
  {
    forall c | 0 <= c < |disk| && Home(l, c)
      ensures View(buf', disk', c) == logical[c]
    {
      if c == h {
        assert !IsPinned(buf', c);
      } else {
        forall i: nat ensures Pinned(buf, i, c) == Pinned(buf', i, c) {
        }
        forall i: nat, j: nat | Pinned(buf, i, c) && Pinned(buf, j, c) ensures i == j {
          assert Holds(buf[i], DISKDEV, c) && Holds(buf[j], DISKDEV, c);
        }
      }
    }
  }

  /** A logged write shows at its block. */
  lemma SeenWrite(l: Layout, buf: seq<Buf>, disk: Disk, b: nat, data: Block, logical: Disk)
    requires Seen(l, buf, disk, logical) && b < |buf| == NBUF && Unique(buf) && Coherent(buf, disk) && buf[b].valid
    ensures Seen(l, buf[b := buf[b].(dirty := true, data := data)], disk, logical[buf[b].blockno := data])
  {
    hide View;
    PinView(buf, disk, b, data);
  }

  lemma HeldRange(buf: seq<Buf>, disk: Disk, b: nat)
    requires Coherent(buf, disk) && b < |buf| && buf[b].valid
    ensures buf[b].blockno < |disk|
  {
  }

  lemma AbsorbLoggable(l: Layout, n: nat, h: seq<nat>, b: nat)
    requires Loggable(l, n, h) && Home(l, b) && b < n && |h| < LOGSIZE && |h| + 1 < l.size
    ensures Loggable(l, n, Absorb(h, b))
  {
  }

  lemma StageIdle(l: Layout, disk: Disk, lh: seq<nat>, lh': seq<nat>, logical: Disk, logical': Disk, safe: Disk)
    requires Stage(l, disk, lh, Idle, logical, safe) && |logical'| == |logical|
    ensures Stage(l, disk, lh', Idle, logical', safe)
  {
  }

  class Log {
    const l: Layout
    const cache: Cache
    var lh: seq<nat>
    var outstanding: nat
    var committing: bool
    var pc: Pc                // where the committing process is
    var held: Option<nat>     // the buffer it holds inside a turn
    ghost var logical: Disk   // the disk that readers see
    ghost var safe: Disk      // the disk that recovery would give

    /** Boot after a crash (initlog): a new cache, then recover_from_log on the disk as found. */
    constructor (l: Layout, d: Disk)
      requires Formatted(l, d) && l.size <= NBUF
      ensures Valid() && Quiet(cache.buf) && fresh(cache) && this.l == l
      ensures lh == [] && outstanding == 0 && !committing && held.None? && logical == safe == cache.disk
      ensures cache.trace == RecoveryWrites(l, d) && cache.disk == Apply(d, RecoveryWrites(l, d))
      ensures SameHome(l, cache.disk, Durable(l, d))
    {
      hide Cache.ListOk;
      hide View;
      hide Word;
      hide PutHeader;
      hide Apply;
      hide HomeWrites;
      hide Durable;
      hide Unique;
      hide Coherent;
      hide IsPinned;
      this.l := l;
      cache := new Cache(d);
      lh := [];
      outstanding := 0;
      committing, pc, held := false, Idle, None;
      logical, safe := d, d;
      new;
      Recover();
      logical, safe := cache.disk, cache.disk;
      NoPins(cache.buf, cache.disk);
    }

    /** recover_from_log: a cache that nobody uses has a buffer for every step. */
    method Recover()
      requires Ready([]) && Quiet(cache.buf) && Formatted(l, cache.disk) && cache.trace == []
      modifies cache, this`lh
      ensures Ready([]) && Quiet(cache.buf) && lh == []
      ensures Formatted(l, cache.disk) && Header(l, cache.disk) == []
      ensures var d := old(cache.disk);
              && cache.trace == RecoveryWrites(l, d) && cache.disk == Apply(d, RecoveryWrites(l, d))
              && SameHome(l, cache.disk, Durable(l, d))
    {
      hide Cache.ListOk;
      hide View;
      hide Word;
      hide PutHeader;
      hide Apply;
      hide HomeWrites;
      hide Durable;
      hide Unique;
      hide Coherent;
      hide IsPinned;
      ghost var d := cache.disk;
      ReadHead();
      Spare(cache.buf, []);
      var ok := InstallTrans();
      lh := [];
      Spare(cache.buf, []);
      ok := WriteHead([]);
      RecoveryDone(l, d);
    }

    /** read_head */
    method ReadHead()
      requires Ready([]) && Quiet(cache.buf) && Formatted(l, cache.disk)
      modifies cache, this`lh
      ensures Ready([]) && Quiet(cache.buf) && cache.disk == old(cache.disk) && cache.trace == old(cache.trace)
      ensures lh == Header(l, cache.disk)
    {
      hide Cache.ListOk;
      hide View;
      hide Word;
      Spare(cache.buf, []);
      NoPins(cache.buf, cache.disk);
      var r := cache.Bread(DISKDEV, l.start);
      var b := r.value;
      var data := cache.buf[b].data;
      var n := Word(data, 0);
      var h := [];
      var i := 0;
      while i < n
        invariant 0 <= i <= n && h == HeaderOf(data)[..i]
      {
        h := h + [Word(data, i + 1)];
        i := i + 1;
      }
      lh := h;
      cache.Brelse(b);
    }

    /**
     * What every method keeps, at every point of a commit: readers see one logical disk, and the disk
     * is at the stage the committing process has reached.
     */
    ghost predicate Valid()
      reads this, cache
    {
      && cache.Valid() && l.size <= NBUF && HeldHome(l, Without(cache.buf, held)) && Loggable(l, |cache.disk|, lh)
      && HeldOk(l, cache.buf, cache.disk, lh, pc, held)
      && PinnedIn(cache.buf, Pins(lh, pc)) && AllPinned(cache.buf, Pins(lh, pc))
      && Stage(l, cache.disk, lh, pc, logical, safe) && Seen(l, cache.buf, cache.disk, logical)
      && (committing <==> pc != Idle) && (committing ==> outstanding == 0)
    }

    /** One pass of begin_op's loop under log.lock; false is a call of sleep. */
    method BeginOp() returns (granted: bool)
      requires Valid()
      modifies this`outstanding
      ensures Valid()
      ensures granted <==> !committing && |lh| + (old(outstanding) + 1) * MAXOPBLOCKS <= LOGSIZE
      ensures outstanding == if granted then old(outstanding) + 1 else old(outstanding)
    {
      if committing {
        return false;
      } else if |lh| + (outstanding + 1) * MAXOPBLOCKS > LOGSIZE {
        return false;
      }
      outstanding := outstanding + 1;
      return true;
    }

    /** bread by a reader or an operation, at any time; None is bget's panic. */
    method Bread(bno: nat) returns (r: Option<nat>)
      requires Valid() && Home(l, bno) && bno < |cache.disk|
      modifies cache`buf
      ensures r.None? <==> !HasSpare(old(cache.buf)) && forall i :: 0 <= i < NBUF ==> !Holds(old(cache.buf)[i], DISKDEV, bno)
      ensures r.None? ==> cache.buf == old(cache.buf)
      ensures Valid()
      ensures r.Some? ==>
                && r.value < NBUF && Holds(cache.buf[r.value], DISKDEV, bno) && cache.buf[r.value].valid
                && cache.buf[r.value].refcnt == old(cache.buf)[r.value].refcnt + 1 && cache.buf[r.value].data == logical[bno]
                && (forall i :: 0 <= i < NBUF && i != r.value ==> cache.buf[i] == old(cache.buf)[i])
    {
      hide View;
      hide Cache.ListOk;
      hide Unique;
      hide Coherent;
      hide Stage;
      hide IsPinned;
      r := cache.Bread(DISKDEV, bno);
      if r.Some? {
        AllPinnedKept(old(cache.buf), cache.buf, Pins(lh, pc));
      }
    }

    method Brelse(b: nat)
      requires Valid() && b < NBUF && cache.buf[b].refcnt > 0 && held != Some(b)
      modifies cache
      ensures Valid() && cache.disk == old(cache.disk) && cache.trace == old(cache.trace)
      ensures cache.buf == old(cache.buf)[b := old(cache.buf)[b].(refcnt := old(cache.buf)[b].refcnt - 1)]
    {
      hide View;
      hide Cache.ListOk;
      hide Unique;
      hide Coherent;
      hide Stage;
      hide IsPinned;
      cache.Brelse(b);
      AllPinnedKept(old(cache.buf), cache.buf, Pins(lh, pc));
      ViewFrame(old(cache.buf), cache.disk, cache.buf, cache.disk);
    }

    /** log_write of a locked buffer whose new contents are data; false is a panic. */
    method LogWrite(b: nat, data: Block) returns (ok: bool)
      requires Valid() && b < NBUF && cache.buf[b].refcnt > 0 && held != Some(b)
      modifies this`lh, this`logical, cache`buf
      ensures Valid()
      ensures ok <==> !(|old(lh)| >= LOGSIZE || |old(lh)| + 1 >= l.size || outstanding < 1)
      ensures !ok ==> lh == old(lh) && cache.buf == old(cache.buf) && logical == old(logical)
      ensures ok ==>
                && lh == Absorb(old(lh), old(cache.buf)[b].blockno)
                && cache.buf == old(cache.buf)[b := old(cache.buf)[b].(dirty := true, data := data)]
                && cache.buf[b].blockno < |old(logical)| && logical == old(logical)[cache.buf[b].blockno := data]
    {
      hide Stage;
      hide View;
      hide Unique;
      hide Coherent;
      hide IsPinned;
      hide Ring;
      hide Covers;
      hide ByRelease;
      hide Distinct;
      hide Seen;
      hide Loggable;
      ghost var buf0 := cache.buf;
      HeldRange(buf0, cache.disk, b);
      StageFacts(l, cache.disk, lh, pc, logical, safe);
      if |lh| >= LOGSIZE || |lh| + 1 >= l.size || outstanding < 1 {
        return false;
      }
      AbsorbLoggable(l, |cache.disk|, lh, cache.buf[b].blockno);
      var i := 0;
      while i < |lh| && lh[i] != cache.buf[b].blockno
        invariant 0 <= i <= |lh| && forall j :: 0 <= j < i ==> lh[j] != cache.buf[b].blockno
      {
        i := i + 1;
      }
      var bno := cache.buf[b].blockno;
      if i == |lh| {
        lh := lh + [bno];
      } else {
        lh := lh[i := bno];
      }
      cache.buf := cache.buf[b := cache.buf[b].(dirty := true, data := data)];
      ok := true;
      logical := logical[bno := data];
      assert lh == Absorb(old(lh), bno);
      PinOne(buf0, cache.disk, b, data, old(lh));
      SeenWrite(l, buf0, cache.disk, b, data, old(logical));
      StageIdle(l, cache.disk, old(lh), lh, old(logical), logical, safe);
    }

    /** end_op: the last operation out starts a commit, unless nothing was logged. */
    method EndOp()
      requires Valid() && outstanding > 0
      modifies this`outstanding, this`committing, this`pc
      ensures Valid() && outstanding == old(outstanding) - 1
      ensures pc == if outstanding == 0 && lh != [] then Copying(0) else Idle
    {
      hide Cache.Valid;
      hide PinnedIn;
      hide AllPinned;
      hide Seen;
      hide Distinct;
      hide HeldHome;
      hide HoldsLog;
      outstanding := outstanding - 1;
      if outstanding == 0 && |lh| > 0 {
        committing, pc := true, Copying(0);
      }
    }

    /** The state commit and recovery run in: readers hold home blocks, only blocks of pins are pinned. */
    ghost predicate Ready(pins: seq<nat>)
      reads this, cache
    {
      && cache.Valid() && HeldHome(l, cache.buf) && PinnedIn(cache.buf, pins) && |pins| < NBUF
      && l.size <= NBUF && Fits(l, cache.disk)
      && Loggable(l, |cache.disk|, lh)
    }

    /** bread of a block of the log area: it needs a buffer to recycle, and nothing else can go wrong. */
    method BreadLog(bno: nat, ghost pins: seq<nat>) returns (ok: bool, b: nat)
      requires Ready(pins) && !Home(l, bno) && (forall i :: 0 <= i < |pins| ==> Home(l, pins[i]))
      modifies cache`buf
      ensures ok <==> HasSpare(old(cache.buf))
      ensures !ok ==> cache.buf == old(cache.buf)
      ensures ok ==>
                && cache.Valid() && PinnedIn(cache.buf, pins) && cache.PinsKept()
                && b < NBUF && Recyclable(old(cache.buf)[b])
                && cache.buf == old(cache.buf)[b := Buf(DISKDEV, bno, true, false, 1, cache.disk[bno])]
    {
      hide View;
      hide Cache.ListOk;
      hide Unique;
      hide Coherent;
      var r := cache.Bread(DISKDEV, bno);
      if r.None? {
        return false, 0;
      }
      b := r.value;
      assert Recyclable(old(cache.buf)[b]);
      ViewClean(old(cache.buf), cache.disk, pins, bno);
      ok := true;
    }

    /** The same with buffer lb held, which has block bno of the log area. */
    ghost predicate ReadyHeld(pins: seq<nat>, bno: nat, lb: nat)
      reads this, cache
    {
      && cache.Valid() && HoldsLog(l, cache.buf, cache.disk, bno, lb) && PinnedIn(cache.buf, pins) && |pins| < NBUF
      && l.size <= NBUF && Fits(l, cache.disk) && Loggable(l, |cache.disk|, lh)
    }

    /** The second bread of write_log and install_trans: the home block of log block t, which buffer lb holds. */
    method BreadHome(t: nat, lb: nat, ghost pins: seq<nat>) returns (hb: nat)
      requires t < |lh| && ReadyHeld(pins, l.start + 1 + t, lb) && (Cached(cache.buf, lh[t]) || HasSpare(cache.buf))
      modifies cache`buf
      ensures cache.Valid() && PinnedIn(cache.buf, pins) && cache.PinsKept()
      ensures hb < NBUF && hb != lb && Holds(cache.buf[hb], DISKDEV, lh[t]) && cache.buf[hb].valid
      ensures cache.buf[hb].data == View(old(cache.buf), cache.disk, lh[t])
      ensures cache.buf[hb].refcnt == old(cache.buf)[hb].refcnt + 1
      ensures forall i :: 0 <= i < NBUF && i != hb ==> cache.buf[i] == old(cache.buf)[i]
      ensures Holds(old(cache.buf)[hb], DISKDEV, lh[t]) || old(cache.buf)[hb].refcnt == 0
      ensures old(cache.buf)[hb].refcnt > 0 ==> old(cache.buf)[hb].valid
    {
      hide View;
      hide Cache.ListOk;
      hide Unique;
      hide Coherent;
      var r := cache.Bread(DISKDEV, lh[t]);
      hb := r.value;
      assert hb != lb;
      assert Without(old(cache.buf), Some(lb))[hb] == old(cache.buf)[hb];
    }

    /** The rest of a turn of write_log, with the log block in buffer to. */
    method LogRest(tail: nat, to: nat)
      requires tail < |lh| && ReadyHeld(lh, l.start + 1 + tail, to) && AllPinned(cache.buf, lh)
      modifies cache
      ensures Ready(lh) && cache.PinsKept() && HoldersKept(Without(old(cache.buf), Some(to)), cache.buf) && HasSpare(cache.buf)
      ensures cache.disk == old(cache.disk)[l.start + 1 + tail := View(old(cache.buf), old(cache.disk), lh[tail])]
      ensures cache.trace == old(cache.trace) + [Write(l.start + 1 + tail, View(old(cache.buf), old(cache.disk), lh[tail]))]
    {
      hide Without;
      hide View;
      hide Unique;
      hide Coherent;
      hide Cache.ListOk;
      hide IsPinned;
      hide Distinct;
      hide HoldersKept;
      PinnedHeld(cache.buf, cache.disk, lh[tail]);
      var from := BreadHome(tail, to, lh);
      cache.Bwrite(to, cache.buf[from].data);
      cache.Brelse(from);
      cache.Brelse(to);
      HoldersBack(l, Without(old(cache.buf), Some(to)), cache.buf, to, from);
    }

    /** One turn of write_log. */
    method LogOne(tail: nat) returns (ok: bool)
      requires Ready(lh) && AllPinned(cache.buf, lh) && tail < |lh|
      modifies cache
      ensures ok <==> HasSpare(old(cache.buf))
      ensures !ok ==> cache.Valid() && cache.buf == old(cache.buf) && cache.disk == old(cache.disk) && cache.trace == old(cache.trace)
      ensures ok ==>
                && Ready(lh) && cache.PinsKept() && HoldersKept(old(cache.buf), cache.buf) && HasSpare(cache.buf)
                && cache.disk == old(cache.disk)[l.start + 1 + tail := View(old(cache.buf), old(cache.disk), lh[tail])]
                && cache.trace == old(cache.trace) + [Write(l.start + 1 + tail, View(old(cache.buf), old(cache.disk), lh[tail]))]
    {
      hide View;
      hide Unique;
      hide Coherent;
      hide Cache.ListOk;
      hide IsPinned;
      hide Distinct;
      hide HoldersKept;
      var to;
      ok, to := BreadLog(l.start + 1 + tail, lh);
      if !ok {
        return;
      }
      ghost var buf1 := cache.buf;
      ViewFrame(old(cache.buf), cache.disk, buf1, cache.disk);
      AllPinnedKept(old(cache.buf), buf1, lh);
      LogRest(tail, to);
      HoldersTaken(old(cache.buf), buf1, to, cache.buf);
    }

    /** write_log: the cached contents of the listed blocks into the log; false is bget's panic. */
    method WriteLog() returns (ok: bool)
      requires Ready(lh) && AllPinned(cache.buf, lh)
      modifies cache
      ensures ok <==> lh == [] || HasSpare(old(cache.buf))
      ensures !ok ==> cache.Valid() && cache.buf == old(cache.buf) && cache.disk == old(cache.disk) && cache.trace == old(cache.trace)
      ensures ok && lh != [] ==> HasSpare(cache.buf)
      ensures ok ==>
                && Ready(lh) && cache.PinsKept() && HoldersKept(old(cache.buf), cache.buf)
                && var data := Views(old(cache.buf), old(cache.disk), lh);
                   && InRange(old(cache.disk), LogWrites(l, data))
                   && cache.disk == Apply(old(cache.disk), LogWrites(l, data))
                   && cache.trace == old(cache.trace) + LogWrites(l, data)
    {
      hide View;
      hide Unique;
      hide Coherent;
      hide Cache.ListOk;
      hide LogWrites;
      hide IsPinned;
      hide Views;
      hide Distinct;
      hide HasSpare;
      hide Apply;
      ghost var data := Views(cache.buf, cache.disk, lh);
      ghost var d := cache.disk;
      var tail := 0;
      ApplyNone(d, LogWrites(l, data)[..0]);
      while tail < |lh|
        invariant 0 <= tail <= |lh|
        invariant tail == 0 ==> cache.buf == old(cache.buf) && cache.disk == d && cache.trace == old(cache.trace)
        invariant tail > 0 ==> HasSpare(old(cache.buf)) && HasSpare(cache.buf)
        invariant Ready(lh) && cache.PinsKept() && AllPinned(cache.buf, lh) && HoldersKept(old(cache.buf), cache.buf)
        invariant InRange(d, LogWrites(l, data)[..tail])
        invariant cache.disk == Apply(d, LogWrites(l, data)[..tail])
        invariant cache.trace == old(cache.trace) + LogWrites(l, data)[..tail]
      {
        LogStep(l, d, data, tail);
        ViewFrame(old(cache.buf), d, cache.buf, cache.disk);
        assert View(cache.buf, cache.disk, lh[tail]) == data[tail];
        ok := LogOne(tail);
        if !ok {
          return;
        }
        AllPinnedKept(old(cache.buf), cache.buf, lh);
        tail := tail + 1;
      }
      assert LogWrites(l, data)[..|lh|] == LogWrites(l, data);
      ok := true;
    }

    /** The rest of a turn of install_trans, with the log block in buffer lbuf. */
    method InstallRest(tail: nat, lbuf: nat)
      requires tail < |lh| && ReadyHeld(lh[tail..], l.start + 1 + tail, lbuf)
      requires Cached(cache.buf, lh[tail]) || HasSpare(cache.buf)
      modifies cache
      ensures Ready(lh[tail + 1..]) && HoldersKept(Without(old(cache.buf), Some(lbuf)), cache.buf) && HasSpare(cache.buf)
      ensures PinsBut(old(cache.buf), cache.buf, lh[tail])
      ensures cache.disk == old(cache.disk)[lh[tail] := old(cache.disk)[l.start + 1 + tail]]
      ensures cache.trace == old(cache.trace) + [Write(lh[tail], old(cache.disk)[l.start + 1 + tail])]
    {
      hide Without;
      hide View;
      hide Unique;
      hide Coherent;
      hide IsPinned;
      hide Distinct;
      hide HoldersKept;
      hide Cache.ListOk;
      assert lh[tail..][0] == lh[tail];
      var dbuf := BreadHome(tail, lbuf, lh[tail..]);
      OnlyPin(cache.buf, cache.disk, dbuf);
      cache.Bwrite(dbuf, cache.buf[lbuf].data);
      cache.Brelse(lbuf);
      cache.Brelse(dbuf);
      HoldersBack(l, Without(old(cache.buf), Some(lbuf)), cache.buf, lbuf, dbuf);
      PinsLeft(old(cache.buf), cache.buf, lh, tail);
    }

    /** One turn of install_trans. */
    method InstallOne(tail: nat) returns (ok: bool)
      requires tail < |lh| && Ready(lh[tail..]) && (AllPinned(cache.buf, lh[tail..]) || Quiet(cache.buf))
      modifies cache
      ensures ok <==> HasSpare(old(cache.buf))
      ensures !ok ==> cache.Valid() && cache.buf == old(cache.buf) && cache.disk == old(cache.disk) && cache.trace == old(cache.trace)
      ensures ok ==>
                && Ready(lh[tail + 1..]) && HoldersKept(old(cache.buf), cache.buf) && HasSpare(cache.buf)
                && PinsBut(old(cache.buf), cache.buf, lh[tail])
                && cache.disk == old(cache.disk)[lh[tail] := old(cache.disk)[l.start + 1 + tail]]
                && cache.trace == old(cache.trace) + [Write(lh[tail], old(cache.disk)[l.start + 1 + tail])]
    {
      hide View;
      hide Unique;
      hide Coherent;
      hide IsPinned;
      hide Distinct;
      hide HoldersKept;
      hide Cache.ListOk;
      assert lh[tail..][0] == lh[tail];
      var lbuf;
      ok, lbuf := BreadLog(l.start + 1 + tail, lh[tail..]);
      if !ok {
        return;
      }
      ghost var buf1 := cache.buf;
      HomeBuffer(old(cache.buf), buf1, cache.disk, lh[tail..], lh[tail], lbuf, l.start + 1 + tail);
      InstallRest(tail, lbuf);
      HoldersTaken(old(cache.buf), buf1, lbuf, cache.buf);
      PinsTaken(old(cache.buf), buf1, cache.buf, lh[tail]);
    }

    /** install_trans: the logged contents to their home blocks; nothing stays pinned. */
    method InstallTrans() returns (ok: bool)
      requires Ready(lh) && (AllPinned(cache.buf, lh) || Quiet(cache.buf))
      modifies cache
      ensures ok <==> lh == [] || HasSpare(old(cache.buf))
      ensures ok && lh != [] ==> HasSpare(cache.buf)
      ensures ok ==>
                && Ready([]) && HoldersKept(old(cache.buf), cache.buf)
                && var data := Logged(l, old(cache.disk), |lh|);
                   && InRange(old(cache.disk), HomeWrites(lh, data))
                   && cache.disk == Apply(old(cache.disk), HomeWrites(lh, data))
                   && cache.trace == old(cache.trace) + HomeWrites(lh, data)
    {
      hide View;
      hide Unique;
      hide Coherent;
      hide Cache.ListOk;
      hide HomeWrites;
      hide Logged;
      hide IsPinned;
      hide Distinct;
      hide HasSpare;
      hide PinsBut;
      hide PinnedIn;
      hide Apply;
      ghost var d := cache.disk;
      ghost var data := Logged(l, d, |lh|);
      var tail := 0;
      ApplyNone(d, HomeWrites(lh, data)[..0]);
      assert lh[0..] == lh;
      while tail < |lh|
        invariant 0 <= tail <= |lh|
        invariant tail == 0 ==> cache.buf == old(cache.buf)
        invariant tail > 0 ==> HasSpare(old(cache.buf)) && HasSpare(cache.buf)
        invariant Ready(lh[tail..]) && (AllPinned(cache.buf, lh[tail..]) || Quiet(cache.buf))
        invariant HoldersKept(old(cache.buf), cache.buf)
        invariant InRange(d, HomeWrites(lh, data)[..tail])
        invariant cache.disk == Apply(d, HomeWrites(lh, data)[..tail])
        invariant cache.trace == old(cache.trace) + HomeWrites(lh, data)[..tail]
      {
        HomeStep(d, lh, data, tail);
        assert l.start + 1 + tail !in lh;
        ghost var buf := cache.buf;
        ok := InstallOne(tail);
        if !ok {
          return;
        }
        if AllPinned(buf, lh[tail..]) {
          PinnedRest(buf, cache.buf, lh, tail);
        }
        tail := tail + 1;
      }
      assert HomeWrites(lh, data)[..|lh|] == HomeWrites(lh, data);
      assert lh[|lh|..] == [];
      ok := true;
    }

    /** The rest of write_head, with the header block in buffer b. */
    method HeadRest(b: nat, ghost pins: seq<nat>)
      requires ReadyHeld(pins, l.start, b)
      modifies cache
      ensures Ready(pins) && cache.PinsKept() && HoldersKept(Without(old(cache.buf), Some(b)), cache.buf) && HasSpare(cache.buf)
      ensures cache.disk == old(cache.disk)[l.start := PutHeader(old(cache.disk)[l.start], lh)]
      ensures cache.trace == old(cache.trace) + [Write(l.start, PutHeader(old(cache.disk)[l.start], lh))]
    {
      hide Without;
      hide View;
      hide Unique;
      hide Coherent;
      hide Cache.ListOk;
      hide Word;
      hide SetWord;
      var hb := SetWord(cache.buf[b].data, 0, |lh|);
      var i := 0;
      while i < |lh|
        invariant 0 <= i <= |lh|
        invariant hb == PutWords(SetWord(cache.disk[l.start], 0, |lh|), lh, i)
      {
        hb := SetWord(hb, i + 1, lh[i]);
        i := i + 1;
      }
      cache.Bwrite(b, hb);
      cache.Brelse(b);
      assert Recyclable(cache.buf[b]);
    }

    /** write_head: one write of the header block; false is bget's panic. */
    method WriteHead(ghost pins: seq<nat>) returns (ok: bool)
      requires Ready(pins) && forall i :: 0 <= i < |pins| ==> Home(l, pins[i])
      modifies cache
      ensures ok <==> HasSpare(old(cache.buf))
      ensures !ok ==> cache.Valid() && cache.buf == old(cache.buf) && cache.disk == old(cache.disk) && cache.trace == old(cache.trace)
      ensures ok ==>
                && Ready(pins) && cache.PinsKept() && HoldersKept(old(cache.buf), cache.buf) && HasSpare(cache.buf)
                && cache.disk == old(cache.disk)[l.start := PutHeader(old(cache.disk)[l.start], lh)]
                && cache.trace == old(cache.trace) + [Write(l.start, PutHeader(old(cache.disk)[l.start], lh))]
    {
      hide View;
      hide Unique;
      hide Coherent;
      hide Cache.ListOk;
      hide Word;
      hide PutHeader;
      hide HoldersKept;
      var b;
      ok, b := BreadLog(l.start, pins);
      if !ok {
        return;
      }
      ghost var buf1 := cache.buf;
      HeadRest(b, pins);
      HoldersTaken(old(cache.buf), buf1, b, cache.buf);
    }

    /** A turn begins: the bread of a block of the log area; false is bget's panic. */
    method TakeStep() returns (ok: bool)
      requires Valid() && committing && held.None?
      modifies cache`buf, this`held
      ensures Valid() && (ok <==> HasSpare(old(cache.buf)))
      ensures !ok ==> cache.buf == old(cache.buf) && held == old(held)
      ensures ok ==> held.Some? && Taken(old(cache.buf), cache.buf, held)
    {
      hide View;
      hide Cache.ListOk;
      hide Unique;
      hide Coherent;
      hide IsPinned;
      hide Stage;
      hide Distinct;
      hide HasSpare;
      hide Seen;
      ghost var buf0 := cache.buf;
      StageFacts(l, cache.disk, lh, pc, logical, safe);
      PinsHome(l, |cache.disk|, lh, pc);
      var b;
      ok, b := BreadLog(Target(l, lh, pc), Pins(lh, pc));
      if ok {
        held := Some(b);
        AllPinnedKept(buf0, cache.buf, Pins(lh, pc));
        SeenLog(l, buf0, cache.disk, cache.buf, cache.disk, logical, l.start);
      }
    }

    /** The rest of a turn of write_log. */
    method CopyStep()
      requires Valid() && pc.Copying? && pc.t < |lh| && held.Some?
      modifies cache, this`pc, this`held
      ensures Valid() && held.None? && HoldersKept(Without(old(cache.buf), old(held)), cache.buf) && HasSpare(cache.buf)
      ensures pc == Copying(old(pc).t + 1)
    {
      hide View;
      hide Cache.ListOk;
      hide Unique;
      hide Coherent;
      hide IsPinned;
      hide Stage;
      hide Seen;
      hide Distinct;
      hide HasSpare;
      ghost var buf0, disk0, t := cache.buf, cache.disk, pc.t;
      StageFacts(l, disk0, lh, pc, logical, safe);
      SeenAt(l, buf0, disk0, logical, lh[t]);
      LogRest(pc.t, held.value);
      AllPinnedKept(buf0, cache.buf, lh);
      StageLog(l, disk0, cache.disk, lh, t, logical, safe);
      SeenLog(l, buf0, disk0, cache.buf, cache.disk, logical, l.start + 1 + t);
      pc, held := Copying(pc.t + 1), None;
    }

    /** The write_head that makes the transaction durable. */
    method HeadStep()
      requires Valid() && pc == Copying(|lh|) && held.Some?
      modifies cache, this`pc, this`safe, this`held
      ensures Valid() && held.None? && HoldersKept(Without(old(cache.buf), old(held)), cache.buf) && HasSpare(cache.buf)
      ensures pc == Installing(0) && safe == logical
    {
      hide View;
      hide Cache.ListOk;
      hide Unique;
      hide Coherent;
      hide IsPinned;
      hide Word;
      hide PutHeader;
      hide Stage;
      hide Seen;
      hide Distinct;
      hide HasSpare;
      ghost var buf0, disk0 := cache.buf, cache.disk;
      StageFacts(l, disk0, lh, pc, logical, safe);
      HeadRest(held.value, lh);
      AllPinnedKept(buf0, cache.buf, lh);
      StageHead(l, disk0, cache.disk, lh, logical, safe);
      SeenLog(l, buf0, disk0, cache.buf, cache.disk, logical, l.start);
      pc, safe, held := Installing(0), logical, None;
      assert lh[0..] == lh;
    }

    /** The rest of a turn of install_trans. */
    method InstallStep()
      requires Valid() && pc.Installing? && pc.t < |lh| && held.Some?
      modifies cache, this`pc, this`held
      ensures Valid() && held.None? && HoldersKept(Without(old(cache.buf), old(held)), cache.buf) && HasSpare(cache.buf)
      ensures pc == Installing(old(pc).t + 1)
    {
      hide View;
      hide Cache.ListOk;
      hide Unique;
      hide Coherent;
      hide IsPinned;
      hide Stage;
      hide Seen;
      hide Distinct;
      hide HasSpare;
      ghost var buf0, disk0, t := cache.buf, cache.disk, pc.t;
      StageFacts(l, disk0, lh, pc, logical, safe);
      InLogAt(l, disk0, lh, t, logical, safe);
      assert lh[t..][0] == lh[t];
      PinnedHeld(buf0, disk0, lh[t]);
      InstallRest(pc.t, held.value);
      PinnedRest(buf0, cache.buf, lh, t);
      StageInstall(l, disk0, cache.disk, lh, t, logical, safe);
      SeenInstall(l, buf0, disk0, cache.buf, cache.disk, lh[t], logical);
      pc, held := Installing(pc.t + 1), None;
    }

    /** The write_head that empties the log. */
    method DoneStep()
      requires Valid() && pc == Installing(|lh|) && held.Some?
      modifies cache, this`lh, this`pc, this`committing, this`held
      ensures Valid() && held.None? && HoldersKept(Without(old(cache.buf), old(held)), cache.buf) && HasSpare(cache.buf)
      ensures pc == Idle && lh == []
    {
      hide View;
      hide Cache.ListOk;
      hide Unique;
      hide Coherent;
      hide IsPinned;
      hide Word;
      hide PutHeader;
      hide Stage;
      hide Seen;
      hide Distinct;
      hide HasSpare;
      ghost var buf0, disk0 := cache.buf, cache.disk;
      StageFacts(l, disk0, lh, pc, logical, safe);
      var h := lh;
      assert lh[|lh|..] == [];
      lh := [];
      EmptyLoggable(l, |disk0|);
      HeadRest(held.value, []);
      StageDone(l, buf0, disk0, cache.disk, h, logical, safe);
      SeenLog(l, buf0, disk0, cache.buf, cache.disk, logical, l.start);
      AllPinnedKept(buf0, cache.buf, []);
      pc, committing, held := Idle, false, None;
    }

    /**
     * commit() with nobody in between.  It needs one buffer to recycle and fails on the first bread if
     * there is none; otherwise it issues the writes of CommitWrites.  Cut after any k of them, recovery
     * gives the old durable disk up to the header write and what readers see from then on.
     */
    method Commit() returns (ok: bool)
      requires Valid() && pc == Copying(0) && held.None?
      modifies cache, this`lh, this`pc, this`committing, this`safe
      ensures ok <==> HasSpare(old(cache.buf))
      ensures Valid() && HoldersKept(old(cache.buf), cache.buf)
      ensures !ok ==> cache.disk == old(cache.disk) && cache.trace == old(cache.trace) && lh == old(lh) && pc == old(pc)
      ensures ok ==>
                && lh == [] && pc == Idle && SameHome(l, cache.disk, logical) && safe == logical
                && var ws := CommitWrites(l, old(cache.disk), old(lh), Views(old(cache.buf), old(cache.disk), old(lh)));
                   && cache.trace == old(cache.trace) + ws
                   && InRange(old(cache.disk), ws) && cache.disk == Apply(old(cache.disk), ws)
                   && CutSafe(l, old(cache.disk), ws, |old(lh)|, old(safe), logical)
    {
      hide Cache.Valid;
      hide View;
      hide Apply;
      hide Durable;
      hide HasSpare;
      hide Seen;
      hide Stage;
      hide PinnedIn;
      hide AllPinned;
      hide HoldersKept;
      hide HeldHome;
      hide CommitWrites;
      hide CutSafe;
      hide SameHome;
      StageEmpty(l, cache.disk, lh, pc, logical, safe);
      CommitEnd(l, cache.disk, cache.buf, lh, logical, safe);
      EmptyLoggable(l, |cache.disk|);
      ok := Phases();
      if ok {
        SeenClean(l, cache.buf, cache.disk, logical);
        NonePinned(cache.buf);
        pc, committing, safe := Idle, false, logical;
      }
    }

    /** The four phases of commit. */
    method Phases() returns (ok: bool)
      requires Ready(lh) && AllPinned(cache.buf, lh) && lh != [] && Formatted(l, cache.disk) && Header(l, cache.disk) == []
      modifies cache, this`lh
      ensures ok <==> HasSpare(old(cache.buf))
      ensures cache.Valid() && HeldHome(l, cache.buf) && HoldersKept(old(cache.buf), cache.buf)
      ensures !ok ==> cache.buf == old(cache.buf) && cache.disk == old(cache.disk) && cache.trace == old(cache.trace) && lh == old(lh)
      ensures ok ==>
                && PinnedIn(cache.buf, []) && lh == []
                && var ws := CommitWrites(l, old(cache.disk), old(lh), Views(old(cache.buf), old(cache.disk), old(lh)));
                   && cache.trace == old(cache.trace) + ws
                   && InRange(old(cache.disk), ws) && cache.disk == Apply(old(cache.disk), ws)
    {
      hide View;
      hide Cache.ListOk;
      hide Word;
      hide PutHeader;
      hide LogWrites;
      hide HomeWrites;
      hide Apply;
      hide IsPinned;
      hide Unique;
      hide Coherent;
      hide HasSpare;
      hide PinnedIn;
      ghost var h := lh;
      CommitDone(l, cache.disk, cache.buf, h);
      ok := WriteLog();
      if !ok {
        return;
      }
      AllPinnedKept(old(cache.buf), cache.buf, lh);
      ok := WriteHead(lh);
      AllPinnedKept(old(cache.buf), cache.buf, lh);
      ok := InstallTrans();
      lh := [];
      ok := WriteHead([]);
    }

    /**
     * One step of a commit: a turn begins with a bread and is finished by the next step; readers come and
     * go between any two.  What recovery would give changes only when the header is written, and then to
     * what readers see.  false is bget's panic, exactly when a turn begins and no buffer can be recycled.
     */
    method CommitStep() returns (ok: bool)
      requires Valid() && committing
      modifies cache, this`lh, this`pc, this`committing, this`safe, this`held
      ensures Valid() && HoldersKept(Without(old(cache.buf), old(held)), Without(cache.buf, held))
      ensures ok <==> old(held).Some? || HasSpare(old(cache.buf))
      ensures !ok || old(held).None? ==>
                && cache.disk == old(cache.disk) && cache.trace == old(cache.trace)
                && safe == old(safe) && lh == old(lh) && pc == old(pc)
      ensures !ok ==> cache.buf == old(cache.buf) && held == old(held)
      ensures ok && old(held).None? ==> Taken(old(cache.buf), cache.buf, held)
      ensures ok && old(held).Some? ==>
                && held.None? && HasSpare(cache.buf) && HoldersKept(Without(old(cache.buf), old(held)), cache.buf)
                && After(old(lh), old(pc), lh, pc)
      ensures ok && old(held).Some? ==> safe == if old(pc) == Copying(|old(lh)|) then logical else old(safe)
    {
      hide Cache.Valid;
      hide AllPinned;
      hide PinnedIn;
      hide HasSpare;
      hide Seen;
      hide Loggable;
      hide HoldersKept;
      hide Taken;
      hide HeldOk;
      hide HeldHome;
      StageFacts(l, cache.disk, lh, pc, logical, safe);
      hide Stage;
      SelfHolders(cache.buf);
      ok := true;
      if held.None? {
        ok := TakeStep();
        if ok {
          TakenHolders(old(cache.buf), cache.buf, held);
        }
        return;
      }
      match pc
      case Copying(t) =>
        if t < |lh| {
          CopyStep();
        } else {
          HeadStep();
        }
      case Installing(t) =>
        if t < |lh| {
          InstallStep();
        } else {
          DoneStep();
        }
    }
  }

  lemma SelfHolders(buf: seq<Buf>)
    ensures HoldersKept(buf, buf)
  {
  }

  lemma TakenHolders(buf: seq<Buf>, buf': seq<Buf>, held: Option<nat>)
    requires Taken(buf, buf', held)
    ensures HoldersKept(buf, Without(buf', held))
  {
  }

  lemma PinsHome(l: Layout, n: nat, lh: seq<nat>, pc: Pc)
    requires Loggable(l, n, lh) && l.size <= NBUF
    ensures |Pins(lh, pc)| < NBUF && forall i :: 0 <= i < |Pins(lh, pc)| ==> Home(l, Pins(lh, pc)[i])
  {
  }

  /** Cut after any k of the writes, recovery gives the old disk up to write n and the new one from then on. */
  ghost predicate CutSafe(l: Layout, d: Disk, ws: seq<Write>, n: nat, safe: Disk, logical: Disk)
    requires InRange(d, ws)
  {
    forall k :: 0 <= k <= |ws| ==>
      && Formatted(l, Apply(d, ws[..k]))
      && SameHome(l, Durable(l, Apply(d, ws[..k])), if k <= n then safe else logical)
  }

  /** What the writes of a commit leave, complete or cut. */
  lemma CommitEnd(l: Layout, d: Disk, buf: seq<Buf>, h: seq<nat>, logical: Disk, safe: Disk)
    requires Stage(l, d, h, Copying(0), logical, safe) && Seen(l, buf, d, logical)
    requires Loggable(l, |d|, h) && PinnedIn(buf, h)
    ensures var ws := CommitWrites(l, d, h, Views(buf, d, h));
            && InRange(d, ws)
            && Stage(l, Apply(d, ws), [], Idle, logical, logical)
            && SameHome(l, Apply(d, ws), logical)
            && CutSafe(l, d, ws, |h|, safe, logical)
  {
    hide View;
    hide Word;
    hide PutHeader;
    hide LogWrites;
    hide HomeWrites;
    hide Apply;
    hide Durable;
    hide IsPinned;
    var data := Views(buf, d, h);
    var ws := CommitWrites(l, d, h, data);
    InstalledView(l, d, buf, h);
    assert SameHome(l, Apply(d, HomeWrites(h, data)), logical);
    forall k | 0 <= k <= |ws|
      ensures InRange(d, ws) && Formatted(l, Apply(d, ws[..k]))
      ensures SameHome(l, Durable(l, Apply(d, ws[..k])), if k <= |h| then safe else logical)
    {
      CommitCut(l, d, h, data, k);
    }
    CommitCut(l, d, h, data, |ws|);
    assert ws[..|ws|] == ws;
  }

  lemma SeenClean(l: Layout, buf: seq<Buf>, disk: Disk, logical: Disk)
    requires PinnedIn(buf, []) && SameHome(l, disk, logical)
    ensures Seen(l, buf, disk, logical)
  {
    hide View;
    NoPins(buf, disk);
  }

  lemma NonePinned(buf: seq<Buf>)
    ensures AllPinned(buf, [])
  {
  }

  /** At every stage of a commit recovery would give the safe disk. */
  lemma DurableIsSafe(l: Layout, buf: seq<Buf>, disk: Disk, lh: seq<nat>, pc: Pc, logical: Disk, safe: Disk)
    requires Stage(l, disk, lh, pc, logical, safe) && Seen(l, buf, disk, logical) && PinnedIn(buf, Pins(lh, pc))
    ensures SameHome(l, Durable(l, disk), safe)
  {
    hide View;
    hide Durable;
    hide Word;
    DurableIs(l, disk);
    forall b | 0 <= b < |disk| && Home(l, b)
      ensures Durable(l, disk)[b] == safe[b]
    {
      if pc.Installing? {
        if b in lh {
          var i :| 0 <= i < |lh| && lh[i] == b;
        } else {
          ViewClean(buf, disk, Pins(lh, pc), b);
        }
      }
    }
  }

  lemma EmptyLoggable(l: Layout, n: nat)
    requires l.size > 0
    ensures Loggable(l, n, [])
  {
  }

  /** The home block is cached, or with nobody reading there is a buffer for it too. */
  lemma HomeBuffer(buf: seq<Buf>, buf': seq<Buf>, disk: Disk, pins: seq<nat>, h: nat, lb: nat, bno: nat)
    requires |buf| == |buf'| == NBUF && lb < NBUF && Recyclable(buf[lb]) && h in pins && |pins| < NBUF && bno !in pins
    requires buf' == buf[lb := buf'[lb]] && Holds(buf'[lb], DISKDEV, bno) && !buf'[lb].dirty
    requires Unique(buf') && Coherent(buf', disk) && PinnedIn(buf, pins) && (IsPinned(buf, h) || Quiet(buf))
    ensures Cached(buf', h) || HasSpare(buf')
  {
    if IsPinned(buf, h) {
      var i: nat :| Pinned(buf, i, h);
      assert buf'[i].valid && Holds(buf'[i], DISKDEV, h);
    } else {
      var k :| 0 <= k < |pins| && pins[k] == h;
      forall i: nat
        ensures Pinned(buf', i, h) ==> Pinned(buf, i, h)
      {
      }
      assert !IsPinned(buf', h);
      SpareBut(buf', disk, pins, k, bno);
    }
  }

  /** A pinned block is in a buffer that holds it. */
  lemma PinnedHeld(buf: seq<Buf>, disk: Disk, h: nat)
    requires |buf| == NBUF && Coherent(buf, disk)
    ensures IsPinned(buf, h) ==> Cached(buf, h)
  {
    if i: nat :| Pinned(buf, i, h) {
      assert buf[i].valid && Holds(buf[i], DISKDEV, h);
    }
  }

  /** What buffers everybody else holds does not depend on the one taken for the log. */
  lemma HoldersTaken(buf: seq<Buf>, buf1: seq<Buf>, lb: nat, buf': seq<Buf>)
    requires lb < |buf| == |buf1| && Recyclable(buf[lb]) && buf1 == buf[lb := buf1[lb]]
    requires HoldersKept(Without(buf1, Some(lb)), buf')
    ensures HoldersKept(buf, buf')
  {
  }

  lemma PinsTaken(buf: seq<Buf>, buf1: seq<Buf>, buf': seq<Buf>, h: nat)
    requires |buf| == |buf1| && PinsBut(buf1, buf', h)
    requires forall i :: 0 <= i < |buf| ==> buf1[i].dirty == buf[i].dirty
    requires forall i :: 0 <= i < |buf| && buf1[i].dirty ==> buf1[i].blockno == buf[i].blockno && buf1[i].data == buf[i].data
    ensures PinsBut(buf, buf', h)
  {
  }

  /** Both buffers of a pair released: everybody holds what they held. */
  lemma HoldersBack(l: Layout, buf: seq<Buf>, buf': seq<Buf>, lb: nat, hb: nat)
    requires |buf| == |buf'| && lb < |buf| && hb < |buf| && lb != hb && HeldHome(l, buf)
    requires forall i :: 0 <= i < |buf| && i != lb && i != hb ==> buf'[i] == buf[i]
    requires Recyclable(buf[lb]) && Recyclable(buf'[lb]) && buf'[hb].refcnt == buf[hb].refcnt
    requires buf[hb].refcnt > 0 ==> buf'[hb].dev == buf[hb].dev && buf'[hb].blockno == buf[hb].blockno && buf'[hb].valid == buf[hb].valid
    ensures HoldersKept(buf, buf') && HeldHome(l, buf') && HasSpare(buf')
  {
  }

  /** A block nobody pins reads as it is on disk. */
  lemma ViewClean(buf: seq<Buf>, disk: Disk, pins: seq<nat>, b: nat)
    requires PinnedIn(buf, pins) && b !in pins && b < |disk|
    ensures View(buf, disk, b) == disk[b]
  {
    assert !IsPinned(buf, b);
  }

  /** A block is pinned by the buffer that holds it or not at all. */
  lemma OnlyPin(buf: seq<Buf>, disk: Disk, b: nat)
    requires Unique(buf) && Coherent(buf, disk) && b < |buf| && buf[b].valid
    ensures forall i :: 0 <= i < |buf| && buf[i].dirty && buf[i].blockno == buf[b].blockno ==> i == b
  {
    forall i | 0 <= i < |buf| && buf[i].dirty && buf[i].blockno == buf[b].blockno ensures i == b {
      assert Holds(buf[i], DISKDEV, buf[b].blockno) && Holds(buf[b], DISKDEV, buf[b].blockno);
    }
  }

  /** Once the buffer of h[k] is clean only later blocks are pinned. */
  lemma PinsLeft(buf: seq<Buf>, buf': seq<Buf>, h: seq<nat>, k: nat)
    requires k < |h| && PinnedIn(buf, h[k..]) && PinsBut(buf, buf', h[k])
    ensures PinnedIn(buf', h[k + 1..])
  {
    assert h[k..] == [h[k]] + h[k + 1..];
  }

  /** Cleaning the buffer of h[k] leaves the later blocks pinned. */
  lemma PinnedRest(buf: seq<Buf>, buf': seq<Buf>, h: seq<nat>, k: nat)
    requires k < |h| && Distinct(h) && AllPinned(buf, h[k..]) && PinsBut(buf, buf', h[k])
    ensures AllPinned(buf', h[k + 1..])
  {
    var rest := h[k + 1..];
    forall t | 0 <= t < |rest|
      ensures IsPinned(buf', rest[t])
    {
      assert rest[t] == h[k..][t + 1] == h[k + 1 + t];
      var i: nat :| Pinned(buf, i, h[k + 1 + t]);
      assert Pinned(buf', i, h[k + 1 + t]);
    }
  }

  lemma ApplyNone(d: Disk, ws: seq<Write>)
    requires ws == []
    ensures InRange(d, ws) && Apply(d, ws) == d
  {
  }

  /** recover_from_log's phases composed. */
  lemma RecoveryDone(l: Layout, d: Disk)
    requires Formatted(l, d)
    ensures var h := Header(l, d);
            var data := Logged(l, d, |h|);
            && InRange(d, HomeWrites(h, data))
            && var d1 := Apply(d, HomeWrites(h, data));
               && d1[l.start] == d[l.start]
               && d1[l.start := PutHeader(d[l.start], [])] == Apply(d, RecoveryWrites(l, d))
               && SameHome(l, Apply(d, RecoveryWrites(l, d)), Durable(l, d))
               && Formatted(l, Apply(d, RecoveryWrites(l, d))) && Header(l, Apply(d, RecoveryWrites(l, d))) == []
  {
    hide Word;
    hide PutHeader;
    hide Durable;
    var h := Header(l, d);
    var data := Logged(l, d, |h|);
    InstallPrefix(d, h, data, |h|);
    assert HomeWrites(h, data)[..|h|] == HomeWrites(h, data);
    assert l.start !in h[..|h|];
    ApplySnoc(d, HomeWrites(h, data), Write(l.start, PutHeader(d[l.start], [])));
    RecoveryCut(l, d, |RecoveryWrites(l, d)|);
    assert RecoveryWrites(l, d)[..|RecoveryWrites(l, d)|] == RecoveryWrites(l, d);
  }

  /** commit's phases composed, with the view they leave on the disk. */
  lemma CommitDone(l: Layout, d: Disk, buf: seq<Buf>, h: seq<nat>)
    requires Formatted(l, d) && Header(l, d) == [] && Loggable(l, |d|, h)
    requires PinnedIn(buf, h)
    ensures var data := Views(buf, d, h);
            var full := PutHeader(d[l.start], h);
            && InRange(d, LogWrites(l, data))
            && Apply(d, LogWrites(l, data))[l.start] == d[l.start]
            && var d1 := Apply(d, LogWrites(l, data))[l.start := full];
               && d1[l.start] == full
               && Logged(l, d1, |h|) == data
               && InRange(d1, HomeWrites(h, data))
               && var d2 := Apply(d1, HomeWrites(h, data));
                  && d2[l.start] == full
                  && InRange(d, CommitWrites(l, d, h, data))
                  && d2[l.start := PutHeader(full, [])] == Apply(d, CommitWrites(l, d, h, data))
  {
    hide View;
    hide Word;
    hide PutHeader;
    hide Durable;
    var data := Views(buf, d, h);
    var full := PutHeader(d[l.start], h);
    LogPrefix(l, d, data, |h|);
    assert LogWrites(l, data)[..|h|] == LogWrites(l, data);
    LoggedDisk(l, d, data, full);
    ApplySnoc(d, LogWrites(l, data), Write(l.start, full));
    var d1 := Apply(d, LogWrites(l, data) + [Write(l.start, full)]);
    InstallPrefix(d1, h, data, |h|);
    assert HomeWrites(h, data)[..|h|] == HomeWrites(h, data);
    assert l.start !in h[..|h|];
    ApplyConcat(d, LogWrites(l, data) + [Write(l.start, full)], HomeWrites(h, data));
    ApplySnoc(d, LogWrites(l, data) + [Write(l.start, full)] + HomeWrites(h, data), Write(l.start, PutHeader(full, [])));
  }

  lemma NoPins(buf: seq<Buf>, disk: Disk)
    requires PinnedIn(buf, [])
    ensures forall b :: 0 <= b < |disk| ==> View(buf, disk, b) == disk[b]
  {
    forall b | 0 <= b < |disk| ensures !IsPinned(buf, b) {
    }
  }

  /** Once installed, the home blocks are what readers saw. */
  lemma InstalledView(l: Layout, d: Disk, buf: seq<Buf>, h: seq<nat>)
    requires Loggable(l, |d|, h) && PinnedIn(buf, h)
    ensures var data := Views(buf, d, h);
            && InRange(d, HomeWrites(h, data))
            && forall b :: 0 <= b < |d| ==> Apply(d, HomeWrites(h, data))[b] == View(buf, d, b)
  {
    hide Apply;
    var data := Views(buf, d, h);
    InstallPrefix(d, h, data, |h|);
    assert HomeWrites(h, data)[..|h|] == HomeWrites(h, data) && h[..|h|] == h;
    forall b | 0 <= b < |d| ensures Apply(d, HomeWrites(h, data))[b] == View(buf, d, b) {
      if b in h {
        var t :| 0 <= t < |h| && h[t] == b;
        assert data[t] == View(buf, d, b);
      } else {
        assert !IsPinned(buf, b);
      }
    }
  }

  /** Pinning buffer b pins its block and no other. */
  lemma PinOne(buf: seq<Buf>, disk: Disk, b: nat, data: Block, h: seq<nat>)
    requires |buf| == NBUF && b < NBUF && Unique(buf) && Coherent(buf, disk) && buf[b].valid
    requires PinnedIn(buf, h) && AllPinned(buf, h)
    ensures var buf' := buf[b := buf[b].(dirty := true, data := data)];
            && Unique(buf') && Coherent(buf', disk)
            && PinnedIn(buf', Absorb(h, buf[b].blockno)) && AllPinned(buf', Absorb(h, buf[b].blockno))
  {
    var buf' := buf[b := buf[b].(dirty := true, data := data)];
    var h' := Absorb(h, buf[b].blockno);
    forall t | 0 <= t < |h'| ensures IsPinned(buf', h'[t]) {
      if t < |h| {
        var i: nat :| Pinned(buf, i, h[t]);
        assert Pinned(buf', i, h'[t]);
      } else {
        assert Pinned(buf', b, h'[t]);
      }
    }
  }

  /** Pinning buffer b with new contents changes the view of its block only. */
  lemma PinView(buf: seq<Buf>, disk: Disk, b: nat, data: Block)
    requires |buf| == NBUF && b < NBUF && Unique(buf) && Coherent(buf, disk) && buf[b].valid
    ensures var buf' := buf[b := buf[b].(dirty := true, data := data)];
            && View(buf', disk, buf[b].blockno) == data
            && (forall c :: 0 <= c < |disk| && c != buf[b].blockno ==> View(buf', disk, c) == View(buf, disk, c))
  {
    var buf' := buf[b := buf[b].(dirty := true, data := data)];
    assert Pinned(buf', b, buf[b].blockno);
    ViewIs(buf', disk, b);
    forall c | 0 <= c < |disk| && c != buf[b].blockno ensures View(buf', disk, c) == View(buf, disk, c) {
      forall i: nat ensures Pinned(buf', i, c) == Pinned(buf, i, c) {
      }
      forall i: nat, j: nat | Pinned(buf, i, c) && Pinned(buf, j, c) ensures i == j {
        assert Holds(buf[i], DISKDEV, c) && Holds(buf[j], DISKDEV, c);
      }
    }
  }
}
