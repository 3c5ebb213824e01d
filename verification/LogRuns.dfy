// Whole runs of the log: any processes that open and close operations, read, release and
// log_write blocks, a committing process that proceeds step by step in between, and power
// failures at any point.
module LogRuns {
  import opened Blocks
  import opened Common
  import opened BufferCache
  import opened Crash
  import opened Log

  // ----- The ideal disk -----

  datatype Event = Opened | Closed | Saw(bno: nat, data: Block) | Wrote(bno: nat, data: Block) | Committed | Rebooted

  /** One disk that everybody sees, the disk a power failure falls back to, and the open operations. */
  datatype Ideal = Ideal(logical: Disk, safe: Disk, open: nat)

  function Next(s: Ideal, e: Event): (r: Ideal) {
    match e
    case Opened => s.(open := s.open + 1)
    case Closed => if s.open > 0 then s.(open := s.open - 1) else s
    case Saw(_, _) => s
    case Wrote(bno, data) => if bno < |s.logical| then s.(logical := s.logical[bno := data]) else s
    case Committed => s.(safe := s.logical)
    case Rebooted => Ideal(s.safe, s.safe, 0)
  }

  /** Reads see the latest write; writes belong to an operation; only complete operations become durable. */
  ghost predicate Allowed(s: Ideal, e: Event) {
    match e
    case Opened => true
    case Closed => s.open > 0
    case Saw(bno, data) => bno < |s.logical| && data == s.logical[bno]
    case Wrote(bno, _) => bno < |s.logical| && s.open > 0
    case Committed => s.open == 0
    case Rebooted => true
  }

  ghost function Fold(s: Ideal, es: seq<Event>): (r: Ideal) {
    if es == [] then s else Next(Fold(s, es[..|es| - 1]), es[|es| - 1])
  }

  ghost predicate Explained(s: Ideal, es: seq<Event>) {
    es == [] || (Explained(s, es[..|es| - 1]) && Allowed(Fold(s, es[..|es| - 1]), es[|es| - 1]))
  }

  lemma ExplainedMore(s: Ideal, es: seq<Event>, e: Event)
    requires Explained(s, es) && Allowed(Fold(s, es), e)
    ensures Explained(s, es + [e]) && Fold(s, es + [e]) == Next(Fold(s, es), e)
  {
    assert (es + [e])[..|es + [e]| - 1] == es;
  }

  // ----- The machine -----

  /** What processes do; Step is the committing process. */
  datatype Act = Begin | Read(bno: nat) | Release(b: nat) | Put(b: nat, data: Block) | End | Step

  /** Readers and recovery get the ideal disk's contents. */
  ghost predicate Matches(log: Log, s: Ideal)
    reads log
  {
    SameHome(log.l, log.logical, s.logical) && SameHome(log.l, log.safe, s.safe) && log.outstanding == s.open
  }

  lemma ValidFacts(log: Log)
    requires log.Valid()
    ensures |log.cache.buf| == NBUF && |log.logical| == |log.safe| == |log.cache.disk|
    ensures log.committing ==> log.outstanding == 0
    ensures forall b :: 0 <= b < NBUF && log.cache.buf[b].refcnt > 0 && log.held != Some(b) ==> Home(log.l, log.cache.buf[b].blockno)
    ensures log.held.Some? ==> log.committing
  {
  }

  /** A power failure leaves the disk; the next boot recovers from it. */
  lemma CrashedDisk(log: Log)
    requires log.Valid()
    ensures Formatted(log.l, log.cache.disk) && log.l.size <= NBUF
    ensures SameHome(log.l, Durable(log.l, log.cache.disk), log.safe)
  {
    hide Durable;
    DurableIsSafe(log.l, log.cache.buf, log.cache.disk, log.lh, log.pc, log.logical, log.safe);
  }

  // ----- What an action does -----

  /** The machine at one moment; up is false after a panic. */
  datatype Snap = Snap(up: bool, lh: seq<nat>, outstanding: nat, pc: Pc, held: Option<nat>, buf: seq<Buf>, disk: Disk,
                       logical: Disk, safe: Disk)

  ghost function Now(log: Log, up: bool): Snap
    reads log, log.cache
  {
    Snap(up, log.lh, log.outstanding, log.pc, log.held, log.cache.buf, log.cache.disk, log.logical, log.safe)
  }

  ghost predicate Stays(s: Snap, s': Snap, es: seq<Event>) {
    es == [] && s' == s
  }

  ghost predicate Panics(s: Snap, s': Snap, es: seq<Event>) {
    es == [] && s' == s.(up := false)
  }

  ghost predicate BeginRel(s: Snap, s': Snap, es: seq<Event>) {
    if s.pc.Idle? && |s.lh| + (s.outstanding + 1) * MAXOPBLOCKS <= LOGSIZE
    then es == [Opened] && s' == s.(outstanding := s.outstanding + 1)
    else Stays(s, s', es)
  }

  /** A read finds or recycles a buffer and takes one reference to it. */
  ghost predicate ReadRel(l: Layout, s: Snap, bno: nat, s': Snap, es: seq<Event>) {
    if !Home(l, bno) || bno >= |s.disk| then Stays(s, s', es)
    else if !HasSpare(s.buf) && forall i :: 0 <= i < |s.buf| ==> !Holds(s.buf[i], DISKDEV, bno) then Panics(s, s', es)
    else
      && bno < |s.logical| && es == [Saw(bno, s.logical[bno])] && s' == s.(buf := s'.buf) && |s'.buf| == |s.buf|
      && exists i: nat :: i < |s.buf| && Referred(s.buf, s'.buf, i, bno)
  }

  ghost predicate Referred(buf: seq<Buf>, buf': seq<Buf>, i: nat, bno: nat)
    requires i < |buf| == |buf'|
  {
    && Holds(buf'[i], DISKDEV, bno) && buf'[i].refcnt == buf[i].refcnt + 1
    && forall j :: 0 <= j < |buf| && j != i ==> buf'[j] == buf[j]
  }

  ghost predicate ReleaseRel(s: Snap, b: nat, s': Snap, es: seq<Event>) {
    if b < |s.buf| && s.buf[b].refcnt > 0 && s.held != Some(b)
    then es == [] && s' == s.(buf := s.buf[b := s.buf[b].(refcnt := s.buf[b].refcnt - 1)])
    else Stays(s, s', es)
  }

  ghost predicate PutRel(l: Layout, s: Snap, b: nat, data: Block, s': Snap, es: seq<Event>) {
    if b >= |s.buf| || s.buf[b].refcnt == 0 || s.held == Some(b) then Stays(s, s', es)
    else if |s.lh| >= LOGSIZE || |s.lh| + 1 >= l.size || s.outstanding < 1 then Panics(s, s', es)
    else
      var bno := s.buf[b].blockno;
      && bno < |s.logical| && es == [Wrote(bno, data)]
      && s' == s.(lh := Absorb(s.lh, bno), buf := s.buf[b := s.buf[b].(dirty := true, data := data)],
                  logical := s.logical[bno := data])
  }

  ghost predicate EndRel(s: Snap, s': Snap, es: seq<Event>) {
    if s.outstanding == 0 then Stays(s, s', es)
    else es == [Closed] && s' == s.(outstanding := s.outstanding - 1,
                                    pc := if s.outstanding == 1 && s.lh != [] then Copying(0) else Idle)
  }

  /** A turn of the commit in progress begins by taking a buffer, and ends; the header write is the event. */
  ghost predicate StepRel(s: Snap, s': Snap, es: seq<Event>) {
    if s.pc.Idle? then Stays(s, s', es)
    else if s.held.None? && !HasSpare(s.buf) then Panics(s, s', es)
    else if s.held.None? then es == [] && Taken(s.buf, s'.buf, s'.held) && s' == s.(buf := s'.buf, held := s'.held)
    else
      && s'.up && s'.held.None? && After(s.lh, s.pc, s'.lh, s'.pc) && HoldersKept(Without(s.buf, s.held), s'.buf)
      && s'.outstanding == s.outstanding && s'.logical == s.logical
      && es == (if s.pc == Copying(|s.lh|) then [Committed] else [])
      && s'.safe == (if s.pc == Copying(|s.lh|) then s.logical else s.safe)
  }

  ghost predicate ActRel(l: Layout, s: Snap, a: Act, s': Snap, es: seq<Event>) {
    match a
    case Begin => BeginRel(s, s', es)
    case Read(bno) => ReadRel(l, s, bno, s', es)
    case Release(b) => ReleaseRel(s, b, s', es)
    case Put(b, data) => PutRel(l, s, b, data, s', es)
    case End => EndRel(s, s', es)
    case Step => StepRel(s, s', es)
  }

  /** The power fails and the machine boots again on the disk as it was left. */
  ghost predicate BootRel(l: Layout, s: Snap, s': Snap, es: seq<Event>) {
    && es == [Rebooted] && Formatted(l, s.disk)
    && s'.up && s'.lh == [] && s'.outstanding == 0 && s'.pc == Idle && s'.held.None? && Quiet(s'.buf)
    && s'.disk == s'.logical == s'.safe == Apply(s.disk, RecoveryWrites(l, s.disk))
  }

  /** None is a power failure; after a panic nothing else happens. */
  ghost predicate TurnRel(l: Layout, s: Snap, a: Option<Act>, s': Snap, es: seq<Event>) {
    if a.None? then BootRel(l, s, s', es)
    else if s.up then ActRel(l, s, a.value, s', es)
    else Stays(s, s', es)
  }

  lemma IdleFacts(log: Log)
    requires log.Valid()
    ensures log.committing <==> !log.pc.Idle?
  {
  }

  lemma IdleStep(s: Snap)
    requires s.up
    ensures s.pc.Idle? ==> StepRel(s, s, [])
  {
  }

  /** A step of the commit in progress. */
  method DoStep(log: Log, ghost s: Ideal) returns (up: bool, es: seq<Event>)
    requires log.Valid() && Matches(log, s) && log.committing
    modifies log, log.cache
    ensures log.Valid() && StepRel(old(Now(log, true)), Now(log, up), es) && |es| <= 1
    ensures es == [] ==> Matches(log, s)
    ensures es != [] ==> Allowed(s, es[0]) && Matches(log, Next(s, es[0]))
  {
    hide Log.Valid;
    hide HasSpare;
    hide HoldersKept;
    hide Taken;
    hide After;
    hide Without;
    ValidFacts(log);
    IdleFacts(log);
    es := [];
    var head := log.held.Some? && log.pc == Copying(|log.lh|);
    up := log.CommitStep();
    ValidFacts(log);
    if up && head {
      es := [Committed];
    }
  }

  /**
   * One action while the machine runs.  An action whose caller lacks what it needs (a buffer to
   * release, an open operation) does not happen.
   */
  method Do(log: Log, a: Act, ghost s: Ideal) returns (up: bool, es: seq<Event>)
    requires log.Valid() && Matches(log, s)
    modifies log, log.cache
    ensures log.Valid() && ActRel(log.l, old(Now(log, true)), a, Now(log, up), es)
    ensures |es| <= 1
    ensures es == [] ==> Matches(log, s)
    ensures es != [] ==> Allowed(s, es[0]) && Matches(log, Next(s, es[0]))
  {
    hide Log.Valid;
    hide HasSpare;
    hide HoldersKept;
    hide Taken;
    hide After;
    hide Without;
    hide StepRel;
    up, es := true, [];
    ValidFacts(log);
    IdleFacts(log);
    IdleStep(Now(log, true));
    match a
    case Begin =>
      var ok := log.BeginOp();
      if ok {
        es := [Opened];
      }
    case Read(bno) =>
      if Home(log.l, bno) && bno < |log.cache.disk| {
        var r := log.Bread(bno);
        up := r.Some?;
        ValidFacts(log);
        if r.Some? {
          es := [Saw(bno, log.cache.buf[r.value].data)];
          assert Referred(old(log.cache.buf), log.cache.buf, r.value, bno);
        }
      }
    case Release(b) =>
      if b < NBUF && log.cache.buf[b].refcnt > 0 && log.held != Some(b) {
        log.Brelse(b);
      }
    case Put(b, data) =>
      if b < NBUF && log.cache.buf[b].refcnt > 0 && log.held != Some(b) {
        var bno := log.cache.buf[b].blockno;
        up := log.LogWrite(b, data);
        if up {
          es := [Wrote(bno, data)];
        }
      }
    case End =>
      if log.outstanding > 0 {
        log.EndOp();
        es := [Closed];
      }
    case Step =>
      if log.committing {
        up, es := DoStep(log, s);
      }
  }

  /** One turn of a run: an action, or a power failure and a boot. */
  method Turn(log: Log, a: Option<Act>, up: bool, ghost s: Ideal) returns (log': Log, up': bool, es: seq<Event>)
    requires log.Valid() && Matches(log, s)
    modifies log, log.cache
    ensures log'.Valid() && log'.l == log.l && (log' == log || (fresh(log') && fresh(log'.cache)))
    ensures TurnRel(log.l, old(Now(log, up)), a, Now(log', up'), es)
    ensures |es| <= 1
    ensures es == [] ==> Matches(log', s)
    ensures es != [] ==> Allowed(s, es[0]) && Matches(log', Next(s, es[0]))
  {
    hide Log.Valid;
    hide Durable;
    hide ActRel;
    hide Apply;
    hide RecoveryWrites;
    log', up', es := log, up, [];
    match a
    case None =>
      CrashedDisk(log);
      var disk := log.cache.disk;
      log' := new Log(log.l, disk);
      IdleFacts(log');
      up', es := true, [Rebooted];
    case Some(act) =>
      if up {
        up', es := Do(log, act, s);
      }
  }

  /** What happened in a run, event by event. */
  function Join(ess: seq<seq<Event>>): seq<Event> {
    if ess == [] then [] else Join(ess[..|ess| - 1]) + ess[|ess| - 1]
  }

  ghost predicate Traced(l: Layout, acts: seq<Option<Act>>, trace: seq<Snap>, ess: seq<seq<Event>>) {
    && |trace| == |acts| + 1 && |ess| == |acts|
    && forall i, j :: 0 <= i < |acts| && j == i + 1 ==> TurnRel(l, trace[i], acts[i], trace[j], ess[i])
  }

  lemma TracedMore(l: Layout, acts: seq<Option<Act>>, n: nat, trace: seq<Snap>, ess: seq<seq<Event>>, s: Snap, es: seq<Event>)
    requires n < |acts| && Traced(l, acts[..n], trace, ess) && TurnRel(l, trace[n], acts[n], s, es)
    ensures Traced(l, acts[..n + 1], trace + [s], ess + [es]) && Join(ess + [es]) == Join(ess) + es
  {
    hide TurnRel;
    assert (ess + [es])[..|ess + [es]| - 1] == ess;
    forall i, j | 0 <= i < n + 1 && j == i + 1
      ensures TurnRel(l, (trace + [s])[i], acts[..n + 1][i], (trace + [s])[j], (ess + [es])[i])
    {
      if i < n {
        assert acts[..n][i] == acts[i];
      }
    }
  }

  /**
   * Any run: from any well-formed disk, whatever the processes do and wherever the power fails
   * (including during a commit), what they see is explained by one ideal disk, and after every reboot
   * the disk is the ideal one as of the last commit, taken while no operation was open.
   */
  method Run(l: Layout, d: Disk, acts: seq<Option<Act>>)
    returns (log: Log, es: seq<Event>, ghost ess: seq<seq<Event>>, ghost trace: seq<Snap>)
    requires Formatted(l, d) && l.size <= NBUF
    ensures log.Valid() && log.l == l && Traced(l, acts, trace, ess) && es == Join(ess)
    ensures trace[0].disk == Apply(d, RecoveryWrites(l, d)) && trace[|acts|] == Now(log, trace[|acts|].up)
    ensures Explained(Ideal(Durable(l, d), Durable(l, d), 0), es)
    ensures Matches(log, Fold(Ideal(Durable(l, d), Durable(l, d), 0), es))
    ensures SameHome(l, Durable(l, log.cache.disk), Fold(Ideal(Durable(l, d), Durable(l, d), 0), es).safe)
  {
    hide Log.Valid;
    hide Durable;
    hide ActRel;
    hide Apply;
    hide RecoveryWrites;
    log := new Log(l, d);
    es := [];
    ghost var s0 := Ideal(Durable(l, d), Durable(l, d), 0);
    var up := true;
    trace, ess := [Now(log, up)], [];
    for i := 0 to |acts|
      invariant log.Valid() && log.l == l && fresh(log) && fresh(log.cache)
      invariant Traced(l, acts[..i], trace, ess) && es == Join(ess) && trace[i] == Now(log, up)
      invariant trace[0].disk == Apply(d, RecoveryWrites(l, d))
      invariant Explained(s0, es) && Matches(log, Fold(s0, es))
    {
      var next;
      log, up, next := Turn(log, acts[i], up, Fold(s0, es));
      if next != [] {
        ExplainedMore(s0, es, next[0]);
        assert next == [next[0]];
      }
      TracedMore(l, acts, i, trace, ess, Now(log, up), next);
      trace, ess := trace + [Now(log, up)], ess + [next];
      assert es + [] == es;
      es := es + next;
    }
    assert acts[..|acts|] == acts;
    CrashedDisk(log);
  }

  // ----- Running out of buffers -----

  /** bread, log_write, brelse of a block that is not in the log yet. */
  method LogBlock(log: Log, bno: nat)
    requires log.Valid() && Quiet(log.cache.buf) && log.outstanding > 0 && !log.committing
    requires Home(log.l, bno) && bno < |log.cache.disk| && bno !in log.lh && |log.lh| + 1 < log.l.size <= NBUF
    modifies log`lh, log`logical, log.cache
    ensures log.Valid() && Quiet(log.cache.buf) && log.lh == old(log.lh) + [bno] && log.cache.disk == old(log.cache.disk)
  {
    hide Log.Valid;
    hide HasSpare;
    ValidFacts(log);
    RoomForOne(log);
    var r := log.Bread(bno);
    ValidFacts(log);
    var ok := log.LogWrite(r.value, ZeroBlock());
    log.Brelse(r.value);
  }

  /** Log n blocks from block first on. */
  method LogBlocks(log: Log, first: nat, n: nat)
    requires log.Valid() && Quiet(log.cache.buf) && log.outstanding > 0 && !log.committing && log.lh == []
    requires log.l.start + log.l.size <= first && first + n <= |log.cache.disk| && n < log.l.size <= NBUF
    modifies log`lh, log`logical, log.cache
    ensures log.Valid() && Quiet(log.cache.buf) && |log.cache.disk| == |old(log.cache.disk)|
    ensures |log.lh| == n && forall t :: 0 <= t < n ==> first <= log.lh[t] < first + n
  {
    hide Log.Valid;
    for i := 0 to n
      invariant log.Valid() && Quiet(log.cache.buf) && log.cache.disk == old(log.cache.disk)
      invariant |log.lh| == i && forall t :: 0 <= t < i ==> first <= log.lh[t] < first + i
    {
      LogBlock(log, first + i);
    }
  }

  lemma ZeroDisk(l: Layout, d: Disk)
    requires l.size > 0 && l.start + l.size <= |d| < WORDMAX && d[l.start] == ZeroBlock()
    ensures Formatted(l, d)
  {
    ZeroWords(0);
  }

  /** Three operations log 29 blocks, the most a log of 30 blocks takes. */
  method FullLog() returns (log: Log)
    ensures fresh(log) && fresh(log.cache) && log.Valid() && log.held.None? && log.outstanding == 3 && !log.committing
    ensures log.l == Layout(2, NBUF) && |log.cache.disk| == 100 && HasSpare(log.cache.buf)
    ensures |log.lh| == NBUF - 1 && forall t :: 0 <= t < |log.lh| ==> 40 <= log.lh[t] < 90
  {
    hide Log.Valid;
    hide HasSpare;
    hide Formatted;
    hide RecoveryWrites;
    hide Apply;
    hide ZeroBlock;
    hide Durable;
    var l := Layout(2, NBUF);
    var d: Disk := seq(100, _ => ZeroBlock());
    ZeroDisk(l, d);
    log := new Log(l, d);
    ValidFacts(log);
    var ok := log.BeginOp();
    ok := log.BeginOp();
    ok := log.BeginOp();
    LogBlocks(log, 40, NBUF - 1);
    ValidFacts(log);
    RoomForOne(log);
  }

  /**
   * Somebody reads one more block while the last of those operations ends: every buffer is busy and the
   * commit panics at its first bread.
   */
  method FullLogOneReader() returns (ok: bool)
    ensures !ok
  {
    hide Log.Valid;
    hide HasSpare;
    var log := FullLog();
    ValidFacts(log);
    var r := log.Bread(90);
    ValidFacts(log);
    log.EndOp();
    log.EndOp();
    log.EndOp();
    AllBusy(log, r.value);
    ok := log.Commit();
  }

  /**
   * With nobody reading there is a buffer for the commit, but not for anybody else while a turn of it holds
   * that buffer: a read of a block that is not cached panics inside the turn.
   */
  method ReaderInTurn() returns (ok: bool, r: Option<nat>)
    ensures ok && r.None?
  {
    hide Log.Valid;
    hide HasSpare;
    var log := FullLog();
    log.EndOp();
    log.EndOp();
    log.EndOp();
    IdleFacts(log);
    ok := log.CommitStep();
    ValidFacts(log);
    TurnBusy(log, 90);
    r := log.Bread(90);
  }

  lemma RoomForOne(log: Log)
    requires log.Valid() && Quiet(log.cache.buf) && |log.lh| < NBUF && !log.committing
    ensures HasSpare(log.cache.buf)
  {
    Spare(log.cache.buf, log.lh);
  }

  lemma AllBusy(log: Log, b: nat)
    requires log.Valid() && b < NBUF == |log.cache.buf| && log.pc == Copying(0)
    requires |log.lh| == NBUF - 1 && log.cache.buf[b].refcnt > 0 && log.cache.buf[b].blockno !in log.lh
    ensures !HasSpare(log.cache.buf)
  {
    hide HasSpare;
    hide Seen;
    hide Stage;
    hide Unique;
    hide Cache.ListOk;
    hide Busy;
    hide IsPinned;
    BusyAll(log.cache.buf, log.lh, b);
    SpareExact(log.cache.buf);
  }

  /** Inside a turn with NBUF - 1 blocks logged every buffer is busy with one of those or with the log's own. */
  lemma TurnBusy(log: Log, bno: nat)
    requires log.Valid() && |log.cache.buf| == NBUF && log.pc == Copying(0) && log.held.Some? && Home(log.l, bno)
    requires |log.lh| == NBUF - 1 && bno !in log.lh
    ensures !HasSpare(log.cache.buf) && forall i :: 0 <= i < NBUF ==> !Holds(log.cache.buf[i], DISKDEV, bno)
  {
    hide HasSpare;
    hide Seen;
    hide Stage;
    hide Unique;
    hide Cache.ListOk;
    hide Busy;
    hide IsPinned;
    BusyAll(log.cache.buf, log.lh, log.held.value);
    SpareExact(log.cache.buf);
    NoOther(log.cache.buf, log.lh, log.held.value, bno);
  }

  lemma BusyAll(buf: seq<Buf>, lh: seq<nat>, b: nat)
    requires Distinct(lh) && AllPinned(buf, lh) && b < |buf| && buf[b].refcnt > 0 && buf[b].blockno !in lh
    ensures |Busy(buf)| > |lh| && Elements(lh) + {buf[b].blockno} <= Busy(buf)
  {
    var all := Elements(lh) + {buf[b].blockno};
    forall x | x in all ensures x in Busy(buf) {
      if x in lh {
        var t :| 0 <= t < |lh| && lh[t] == x;
        var i: nat :| Pinned(buf, i, lh[t]);
      }
    }
    CountDistinct(lh);
    SubsetSize(all, Busy(buf));
  }

  /** When the logged blocks and one more fill the buffers, no buffer has any other block. */
  lemma NoOther(buf: seq<Buf>, lh: seq<nat>, b: nat, bno: nat)
    requires OneEach(buf) && Distinct(lh) && AllPinned(buf, lh) && |lh| + 1 == |buf| && bno !in lh
    requires b < |buf| && buf[b].refcnt > 0 && buf[b].blockno !in lh && buf[b].blockno != bno
    ensures forall i :: 0 <= i < |buf| ==> !Holds(buf[i], DISKDEV, bno)
  {
    hide IsPinned;
    hide OneEach;
    BusyAll(buf, lh, b);
    CountBusy(buf);
    CountDistinct(lh);
    if i :| 0 <= i < |buf| && Holds(buf[i], DISKDEV, bno) {
      var all := Elements(lh) + {buf[b].blockno, bno};
      assert bno in Busy(buf);
      assert all == Elements(lh) + {buf[b].blockno} + {bno};
      SubsetSize(all, Busy(buf));
      assert false;
    }
  }
}
