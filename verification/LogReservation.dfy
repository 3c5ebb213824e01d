// Log space under any interleaving of system calls (begin_op, log_write, end_op).
//
// Every action is one critical section of log.lock; commit() is entered by the last
// end_op and left by CommitDone.  An operation may log up to MAXOPBLOCKS different
// blocks, each any number of times.
module LogReservation {
  import opened Crash
  import opened Common
  import Log

  /** What a process has logged so far in its current operation. */
  datatype Op = Idle | Active(logged: set<nat>)

  datatype State = State(ops: seq<Op>, lh: seq<nat>, outstanding: nat, committing: bool)

  datatype Action =
    | Begin(p: nat)
    | Write(p: nat, b: nat)
    | End(p: nat)
    | CommitDone

  datatype Outcome =
    | Blocked                // sleeps, or is not this process's turn
    | TooBig                 // panic("too big a transaction")
    | Outside                // panic("log_write outside of trans")
    | Committing             // panic("log.committing")
    | Ok(s: State)

  /** The guard of log_write. */
  predicate GuardFires(size: nat, s: State) {
    |s.lh| >= LOGSIZE || |s.lh| + 1 >= size
  }

  /** One action on a log of size blocks, header included. */
  function Do(size: nat, s: State, a: Action): Outcome {
    match a
    case Begin(p) =>
      if p >= |s.ops| || s.ops[p].Active? || s.committing
         || |s.lh| + (s.outstanding + 1) * MAXOPBLOCKS > LOGSIZE then Blocked
      else Ok(s.(ops := s.ops[p := Active({})], outstanding := s.outstanding + 1))
    case Write(p, b) =>
      if p >= |s.ops| || s.ops[p].Idle? || |s.ops[p].logged + {b}| > MAXOPBLOCKS then Blocked
      else if GuardFires(size, s) then TooBig
      else if s.outstanding < 1 then Outside
      else Ok(s.(ops := s.ops[p := Active(s.ops[p].logged + {b})], lh := Log.Absorb(s.lh, b)))
    case End(p) =>
      if p >= |s.ops| || s.ops[p].Idle? then Blocked
      else if s.committing then Committing
      else Ok(s.(ops := s.ops[p := Idle], outstanding := if s.outstanding > 0 then s.outstanding - 1 else 0,
                 committing := s.outstanding <= 1))
    case CommitDone =>
      if s.committing then Ok(s.(lh := [], committing := false)) else Blocked
  }

  function Init(nproc: nat): State {
    State(seq(nproc, _ => Idle), [], 0, false)
  }

  /** A run from boot; a blocked action does not happen. */
  function Exec(size: nat, nproc: nat, acts: seq<Action>): Outcome {
    if acts == [] then Ok(Init(nproc))
    else
      var o := Exec(size, nproc, acts[..|acts| - 1]);
      if o.Ok? then Do(size, o.s, acts[|acts| - 1]) else o
  }

  // ----- The invariant -----

  function Count(ops: seq<Op>): nat {
    if ops == [] then 0 else Count(ops[1..]) + if ops[0].Active? then 1 else 0
  }

  /** What the active operations may still log. */
  function Unused(ops: seq<Op>): int {
    if ops == [] then 0 else Unused(ops[1..]) + if ops[0].Active? then MAXOPBLOCKS - |ops[0].logged| else 0
  }

  ghost predicate Inv(s: State) {
    && s.outstanding == Count(s.ops)
    && (s.committing ==> s.outstanding == 0)
    && (s.outstanding == 0 && !s.committing ==> s.lh == [])
    && Distinct(s.lh)
    && (forall p :: 0 <= p < |s.ops| && s.ops[p].Active? ==>
          |s.ops[p].logged| <= MAXOPBLOCKS && forall b :: b in s.ops[p].logged ==> b in s.lh)
    && |s.lh| + Unused(s.ops) <= LOGSIZE
  }

  lemma {:induction false} SlotUpdate(ops: seq<Op>, p: nat, o: Op)
    requires p < |ops|
    ensures Count(ops[p := o]) == Count(ops) - Count([ops[p]]) + Count([o])
    ensures Unused(ops[p := o]) == Unused(ops) - Unused([ops[p]]) + Unused([o])
  {
    assert [ops[p]][1..] == [] && [o][1..] == [];
    if p == 0 {
      assert ops[p := o][1..] == ops[1..];
    } else {
      SlotUpdate(ops[1..], p - 1, o);
      assert ops[p := o][1..] == ops[1..][p - 1 := o];
    }
  }

  lemma {:induction false} AllIdle(ops: seq<Op>)
    requires forall p :: 0 <= p < |ops| ==> ops[p].Idle?
    ensures Count(ops) == 0 && Unused(ops) == 0
  {
    if ops != [] {
      AllIdle(ops[1..]);
    }
  }

  /** With every allowance respected, an active slot's share is part of the total. */
  lemma {:induction false} ShareOf(ops: seq<Op>, p: nat)
    requires p < |ops| && ops[p].Active?
    requires forall q :: 0 <= q < |ops| && ops[q].Active? ==> |ops[q].logged| <= MAXOPBLOCKS
    ensures Count(ops) >= 1 && Unused(ops) >= MAXOPBLOCKS - |ops[p].logged|
  {
    if p > 0 {
      ShareOf(ops[1..], p - 1);
    } else {
      NonNegative(ops[1..]);
    }
  }

  lemma {:induction false} NonNegative(ops: seq<Op>)
    requires forall q :: 0 <= q < |ops| && ops[q].Active? ==> |ops[q].logged| <= MAXOPBLOCKS
    ensures 0 <= Unused(ops) <= Count(ops) * MAXOPBLOCKS
  {
    if ops != [] {
      NonNegative(ops[1..]);
    }
  }

  lemma {:induction false} NoneActive(ops: seq<Op>)
    requires Count(ops) == 0
    ensures forall p :: 0 <= p < |ops| ==> ops[p].Idle?
  {
    if ops != [] {
      NoneActive(ops[1..]);
      forall p | 0 <= p < |ops| ensures ops[p].Idle? {
        if p > 0 {
          assert ops[p] == ops[1..][p - 1];
        }
      }
    }
  }

  lemma WriteKeeps(s: State, p: nat, b: nat)
    requires Inv(s) && p < |s.ops| && s.ops[p].Active? && |s.ops[p].logged + {b}| <= MAXOPBLOCKS
    ensures Inv(s.(ops := s.ops[p := Active(s.ops[p].logged + {b})], lh := Log.Absorb(s.lh, b)))
  {
    var o := Active(s.ops[p].logged + {b});
    ShareOf(s.ops, p);
    SlotUpdate(s.ops, p, o);
    assert [o][1..] == [] && [s.ops[p]][1..] == [];
    if b in s.ops[p].logged {
      assert s.ops[p].logged + {b} == s.ops[p].logged;
    }
  }

  /** No action panics except by the guard of log_write, and every state keeps the reservation. */
  lemma StepKeeps(size: nat, s: State, a: Action)
    requires Inv(s)
    ensures !Do(size, s, a).Committing? && !Do(size, s, a).Outside?
    ensures Do(size, s, a).Ok? ==> Inv(Do(size, s, a).s)
  {
    match a
    case Begin(p) =>
      if Do(size, s, a).Ok? {
        SlotUpdate(s.ops, p, Active({}));
        NonNegative(s.ops);
      }
    case Write(p, b) =>
      if Do(size, s, a) != Blocked {
        ShareOf(s.ops, p);
        WriteKeeps(s, p, b);
      }
    case End(p) =>
      if Do(size, s, a) != Blocked {
        ShareOf(s.ops, p);
        SlotUpdate(s.ops, p, Idle);
      }
    case CommitDone =>
      if s.committing {
        NoneActive(s.ops);
        AllIdle(s.ops);
      }
  }

  /**
   * Over every run of any number of processes: the blocks logged plus the unused allowances of
   * active operations fit in LOGSIZE, no block is listed twice, commit excludes operations, and
   * panic("log.committing") and panic("log_write outside of trans") do not happen.
   */
  lemma {:induction false} Reservation(size: nat, nproc: nat, acts: seq<Action>)
    ensures var o := Exec(size, nproc, acts);
            && !o.Committing? && !o.Outside?
            && (o.Ok? ==> Inv(o.s))
  {
    if acts == [] {
      AllIdle(Init(nproc).ops);
    } else {
      var init := acts[..|acts| - 1];
      Reservation(size, nproc, init);
      if Exec(size, nproc, init).Ok? {
        StepKeeps(size, Exec(size, nproc, init).s, acts[|acts| - 1]);
      }
    }
  }

  /**
   * In every reachable state without an open operation the log is empty or being committed; the end of the
   * commit empties it, and then whoever waits in begin_op is let in.
   */
  lemma LetIn(size: nat, nproc: nat, acts: seq<Action>, p: nat)
    requires Exec(size, nproc, acts).Ok? && p < |Exec(size, nproc, acts).s.ops| && Exec(size, nproc, acts).s.outstanding == 0
    ensures var s := Exec(size, nproc, acts).s;
            && (s.committing <==> Do(size, s, CommitDone).Ok?)
            && (!s.committing ==> s.lh == [] && Do(size, s, Begin(p)).Ok?)
            && (s.committing ==> Do(size, Do(size, s, CommitDone).s, Begin(p)).Ok?)
  {
    Reservation(size, nproc, acts);
    NoneActive(Exec(size, nproc, acts).s.ops);
  }

  // ----- When the guard can fire -----

  /** Process p is refused a block although its operation has logged fewer than MAXOPBLOCKS. */
  ghost predicate RefusesShare(size: nat, nproc: nat, acts: seq<Action>, p: nat) {
    var o := Exec(size, nproc, acts);
    && o.Ok? && p < |o.s.ops| && o.s.ops[p].Active? && |o.s.ops[p].logged| < MAXOPBLOCKS
    && GuardFires(size, o.s)
  }

  /** Three operations begin, then n different blocks are logged, ten by each. */
  function Filling(n: nat): seq<Action> {
    if n == 0 then [Begin(0), Begin(1), Begin(2)]
    else Filling(n - 1) + [Write((n - 1) / MAXOPBLOCKS, n - 1)]
  }

  /** What slot p has logged of the blocks below n. */
  function Part(n: nat, p: nat): (s: set<nat>)
    ensures forall x :: x in s ==> x < n
    ensures |s| == if n <= p * MAXOPBLOCKS then 0 else if n >= (p + 1) * MAXOPBLOCKS then MAXOPBLOCKS
                   else n - p * MAXOPBLOCKS
  {
    if n == 0 then {}
    else if (n - 1) / MAXOPBLOCKS == p then Part(n - 1, p) + {n - 1}
    else Part(n - 1, p)
  }

  function Upto(n: nat): (s: seq<nat>)
    ensures forall x :: x in s ==> x < n
    ensures |s| == n
  {
    if n == 0 then [] else Upto(n - 1) + [n - 1]
  }

  function Filled(n: nat): State {
    State([Active(Part(n, 0)), Active(Part(n, 1)), Active(Part(n, 2))], Upto(n), 3, false)
  }

  lemma PartStep(n: nat, q: nat)
    requires n > 0
    ensures Part(n, q) == if q == (n - 1) / MAXOPBLOCKS then Part(n - 1, q) + {n - 1} else Part(n - 1, q)
  {
  }

  lemma FillStep(size: nat, n: nat)
    requires 0 < n < size && n <= LOGSIZE
    ensures Do(size, Filled(n - 1), Write((n - 1) / MAXOPBLOCKS, n - 1)) == Ok(Filled(n))
  {
    hide Part;
    var s := Filled(n - 1);
    var p := (n - 1) / MAXOPBLOCKS;
    PartStep(n, 0);
    PartStep(n, 1);
    PartStep(n, 2);
    assert Log.Absorb(s.lh, n - 1) == Upto(n);
    assert s.ops[p := Active(Part(n, p))] == Filled(n).ops;
  }

  lemma {:induction false} FillingState(size: nat, n: nat)
    requires n < size && n <= LOGSIZE
    ensures Exec(size, 3, Filling(n)) == Ok(Filled(n))
  {
    hide Filled;
    hide Do;
    if n == 0 {
      StartThree(size);
    } else {
      FillingState(size, n - 1);
      var acts := Filling(n);
      assert acts[..|acts| - 1] == Filling(n - 1) && acts[|acts| - 1] == Write((n - 1) / MAXOPBLOCKS, n - 1);
      FillStep(size, n);
    }
  }

  lemma StartThree(size: nat)
    ensures Exec(size, 3, Filling(0)) == Ok(Filled(0))
  {
    var acts := Filling(0);
    assert acts[..2] == [Begin(0), Begin(1)] && acts[..1] == [Begin(0)];
    assert acts[..2][..1] == [Begin(0)] && acts[..1][..0] == [];
    assert Exec(size, 3, []) == Ok(State([Idle, Idle, Idle], [], 0, false)) by {
      assert Init(3).ops == [Idle, Idle, Idle];
    }
    assert Exec(size, 3, [Begin(0)]) == Ok(State([Active({}), Idle, Idle], [], 1, false));
    assert Exec(size, 3, [Begin(0), Begin(1)]) == Ok(State([Active({}), Active({}), Idle], [], 2, false));
    assert Filled(0) == State([Active({}), Active({}), Active({})], [], 3, false);
  }

  /** Small log: with n blocks logged and size == n + 1 the third operation is refused. */
  lemma SmallLogRefuses(size: nat, n: nat)
    requires size <= LOGSIZE && n == if size == 0 then 0 else size - 1
    ensures RefusesShare(size, 3, Filling(n), 2)
  {
    hide Do;
    if size == 0 {
      StartThree(size);
    } else {
      FillingState(size, n);
    }
  }

  /**
   * begin_op's promise of MAXOPBLOCKS blocks is kept by log_write's guard exactly when the log
   * area has a header and at least LOGSIZE data blocks.  mkfs makes it one block too small.
   */
  lemma GuardExact(size: nat)
    ensures (exists nproc: nat, acts, p: nat :: RefusesShare(size, nproc, acts, p)) <==> size <= LOGSIZE
  {
    if size <= LOGSIZE {
      SmallLogRefuses(size, if size == 0 then 0 else size - 1);
    }
    forall nproc: nat, acts, p: nat | RefusesShare(size, nproc, acts, p) ensures size <= LOGSIZE {
      Reservation(size, nproc, acts);
      ShareOf(Exec(size, nproc, acts).s.ops, p);
    }
  }

  lemma {:induction false} FirstBlock(n: nat)
    requires n > 0
    ensures 0 in Part(n, 0)
  {
    if n > 1 {
      FirstBlock(n - 1);
    }
  }

  /**
   * Even a large enough log, once full, refuses a block that the operation has logged before:
   * after n == LOGSIZE blocks, log_write of block 0 by the operation that logged it panics.
   */
  lemma FullLogRefusesRewrite(size: nat, n: nat)
    requires size > n == LOGSIZE
    ensures var o := Exec(size, 3, Filling(n));
            && o.Ok? && |o.s.ops| == 3 && o.s.ops[0].Active? && 0 in o.s.ops[0].logged
            && Do(size, o.s, Write(0, 0)) == TooBig
  {
    hide Exec;
    hide Filling;
    hide Part;
    FillingState(size, n);
    FirstBlock(n);
    var logged := Part(n, 0);
    assert logged + {0} == logged;
  }
}
