// Sleeping locks over sleep and wakeup (sleeplock.c, proc.c), instruction by instruction.
//
// Any number of processes acquire and release one sleeplock.  Its spinlock lk and the
// process table's ptable.lock are separate; a process that calls sleep takes the second
// before it gives up the first.  kill may make a sleeping process runnable at any time.
module SleepLock {

  /** Where a process is; the comment says which spinlocks it holds. */
  datatype Pc =
    | Outside
    | Entering           // acquiresleep: acquire(&lk->lk)
    | Testing            // while(lk->locked)                  holds lk
    | SleepTable         // sleep: acquire(&ptable.lock)       holds lk
    | SleepRelease       // sleep: release(lk)                 holds lk, ptable
    | SleepState         // sleep: p->state = SLEEPING; sched  holds ptable
    | Asleep             // off the CPU in sched
    | Resumed            // back from sched                    holds ptable
    | Reacquire          // sleep: acquire(lk)
    | Holding            // acquiresleep has returned
    | Leaving            // releasesleep: acquire(&lk->lk)
    | Clearing           // lk->locked = 0                     holds lk
    | WakeTable          // wakeup: acquire(&ptable.lock)      holds lk
    | Waking             // wakeup1                            holds lk, ptable
    | WakeRelease        // wakeup: release(&ptable.lock)      holds lk, ptable
    | LeaveRelease       // release(&lk->lk)                   holds lk

  datatype Lock = Free | Held(p: nat)

  datatype State = State(pc: seq<Pc>, sleeping: seq<bool>, locked: bool, owner: nat, lk: Lock, ptable: Lock)

  predicate HasLk(pc: Pc) {
    pc.Testing? || pc.SleepTable? || pc.SleepRelease? || pc.Clearing? || pc.WakeTable? || pc.Waking?
    || pc.WakeRelease? || pc.LeaveRelease?
  }

  predicate HasTable(pc: Pc) {
    pc.SleepRelease? || pc.SleepState? || pc.Resumed? || pc.Waking? || pc.WakeRelease?
  }

  /** kill's whole critical section is one action: it runs with ptable.lock and touches nothing else. */
  datatype Action = Run(p: nat) | Kill(p: nat)

  predicate Enabled(s: State, a: Action)
    requires |s.pc| == |s.sleeping|
  {
    a.p < |s.pc| &&
    match a
    case Kill(p) => s.ptable == Free && s.sleeping[p]
    case Run(p) =>
      match s.pc[p]
      case Entering => s.lk == Free
      case Reacquire => s.lk == Free
      case Leaving => s.lk == Free
      case SleepTable => s.ptable == Free
      case WakeTable => s.ptable == Free
      case Asleep => !s.sleeping[p] && s.ptable == Free    // the scheduler holds ptable.lock while it switches
      case _ => true
  }

  function At(s: State, p: nat, pc: Pc): State
    requires p < |s.pc|
  {
    s.(pc := s.pc[p := pc])
  }

  function Step(s: State, a: Action): State
    requires |s.pc| == |s.sleeping| && Enabled(s, a)
  {
    match a
    case Kill(p) => s.(sleeping := s.sleeping[p := false])
    case Run(p) =>
      match s.pc[p]
      case Outside => At(s, p, Entering)
      case Entering => At(s.(lk := Held(p)), p, Testing)
      case Testing =>
        if s.locked then At(s, p, SleepTable)
        else At(s.(locked := true, owner := p, lk := Free), p, Holding)
      case SleepTable => At(s.(ptable := Held(p)), p, SleepRelease)
      case SleepRelease => At(s.(lk := Free), p, SleepState)
      case SleepState => At(s.(sleeping := s.sleeping[p := true], ptable := Free), p, Asleep)
      case Asleep => At(s.(ptable := Held(p)), p, Resumed)
      case Resumed => At(s.(ptable := Free), p, Reacquire)
      case Reacquire => At(s.(lk := Held(p)), p, Testing)
      case Holding => At(s, p, Leaving)
      case Leaving => At(s.(lk := Held(p)), p, Clearing)
      case Clearing => At(s.(locked := false), p, WakeTable)
      case WakeTable => At(s.(ptable := Held(p)), p, Waking)
      case Waking => At(s.(sleeping := seq(|s.sleeping|, _ => false)), p, WakeRelease)
      case WakeRelease => At(s.(ptable := Free), p, LeaveRelease)
      case LeaveRelease => At(s.(lk := Free), p, Outside)
  }

  function Init(n: nat): State {
    State(seq(n, _ => Outside), seq(n, _ => false), false, 0, Free, Free)
  }

  /** States reachable by n processes. */
  ghost predicate Reachable(n: nat, run: seq<State>) {
    && run != [] && run[0] == Init(n)
    && (forall i :: 0 <= i < |run| ==> |run[i].pc| == |run[i].sleeping| == n)
    && (forall i :: 0 < i < |run| ==> Follows(run[i - 1], run[i]))
  }

  ghost predicate Follows(s: State, t: State)
    requires |s.pc| == |s.sleeping|
  {
    exists a :: Enabled(s, a) && t == Step(s, a)
  }

  // ----- The invariant -----

  /** A process in releasesleep that has cleared the lock and not yet woken the sleepers. */
  predicate OwesWakeup(pc: Pc) {
    pc.WakeTable? || pc.Waking?
  }

  ghost predicate WakeupComing(s: State) {
    exists r :: 0 <= r < |s.pc| && OwesWakeup(s.pc[r])
  }

  ghost predicate LkOk(s: State) {
    && (forall p :: 0 <= p < |s.pc| ==> (HasLk(s.pc[p]) <==> s.lk == Held(p)))
    && (s.lk.Held? ==> s.lk.p < |s.pc|)
  }

  ghost predicate TableOk(s: State) {
    && (forall p :: 0 <= p < |s.pc| ==> (HasTable(s.pc[p]) <==> s.ptable == Held(p)))
    && (s.ptable.Held? ==> s.ptable.p < |s.pc|)
  }

  ghost predicate Locks(s: State) {
    |s.pc| == |s.sleeping| && LkOk(s) && TableOk(s)
  }

  /** Between taking the sleeplock and clearing it. */
  predicate Owns(pc: Pc) {
    pc.Holding? || pc.Leaving? || pc.Clearing?
  }

  /** The lock is taken exactly while some process owns it, and by that one only. */
  ghost predicate Exclusive(s: State) {
    && (s.locked ==> s.owner < |s.pc|)
    && (forall p :: 0 <= p < |s.pc| ==> (Owns(s.pc[p]) <==> s.locked && s.owner == p))
  }

  /** Nobody sleeps, or is about to, on a free lock unless a wakeup is on its way. */
  ghost predicate NoLostWakeup(s: State)
    requires |s.pc| == |s.sleeping|
  {
    && (forall p :: 0 <= p < |s.pc| && s.sleeping[p] ==> s.pc[p].Asleep?)
    && (forall p :: 0 <= p < |s.pc| && (s.pc[p].SleepTable? || s.pc[p].SleepRelease?) ==> s.locked)
    && (forall p :: 0 <= p < |s.pc| && (s.pc[p].SleepState? || s.sleeping[p]) ==> s.locked || WakeupComing(s))
  }

  ghost predicate Inv(s: State) {
    Locks(s) && Exclusive(s) && NoLostWakeup(s)
  }

  lemma LkKept(s: State, a: Action)
    requires |s.pc| == |s.sleeping| && LkOk(s) && Enabled(s, a)
    ensures LkOk(Step(s, a))
  {
  }

  lemma TableKept(s: State, a: Action)
    requires |s.pc| == |s.sleeping| && TableOk(s) && Enabled(s, a)
    ensures TableOk(Step(s, a))
  {
  }

  lemma ExclusiveKept(s: State, a: Action)
    requires Locks(s) && Exclusive(s) && Enabled(s, a)
    ensures Exclusive(Step(s, a))
  {
  }

  lemma SleepersKept(s: State, a: Action)
    requires Inv(s) && Enabled(s, a)
    ensures var t := Step(s, a);
            && (forall p :: 0 <= p < |t.pc| && t.sleeping[p] ==> t.pc[p].Asleep?)
            && (forall p :: 0 <= p < |t.pc| && (t.pc[p].SleepTable? || t.pc[p].SleepRelease?) ==> t.locked)
  {
  }

  /** A process that is or was about to sleep, once p clears or wakes. */
  lemma WakeupKept(s: State, a: Action, q: nat)
    requires Inv(s) && Enabled(s, a)
    requires q < |s.pc| && (Step(s, a).pc[q].SleepState? || Step(s, a).sleeping[q])
    ensures Step(s, a).locked || WakeupComing(Step(s, a))
  {
    var t := Step(s, a);
    if s.locked && !t.locked {
      assert OwesWakeup(t.pc[a.p]);
    } else if !s.locked {
      var r :| 0 <= r < |s.pc| && OwesWakeup(s.pc[r]);
      assert OwesWakeup(t.pc[r]);
    }
  }

  lemma StepKeeps(s: State, a: Action)
    requires Inv(s) && Enabled(s, a)
    ensures Inv(Step(s, a))
  {
    hide Step;
    hide Enabled;
    hide Exclusive;
    hide LkOk;
    hide TableOk;
    LkKept(s, a);
    TableKept(s, a);
    ExclusiveKept(s, a);
    SleepersKept(s, a);
    var t := Step(s, a);
    StepSize(s, a);
    forall q | 0 <= q < |t.pc| && (t.pc[q].SleepState? || t.sleeping[q]) ensures t.locked || WakeupComing(t) {
      WakeupKept(s, a, q);
    }
  }

  lemma StepSize(s: State, a: Action)
    requires |s.pc| == |s.sleeping| && Enabled(s, a)
    ensures |Step(s, a).pc| == |Step(s, a).sleeping| == |s.pc|
  {
  }

  lemma {:induction false} RunKeeps(n: nat, run: seq<State>)
    requires Reachable(n, run)
    ensures Inv(run[|run| - 1])
  {
    if |run| > 1 {
      var k := |run| - 1;
      RunKeeps(n, run[..k]);
      assert Follows(run[k - 1], run[k]);
      var a :| Enabled(run[k - 1], a) && run[k] == Step(run[k - 1], a);
      StepKeeps(run[k - 1], a);
    }
  }

  /**
   * In every state of every run: a process that sleeps on the lock while neither the lock's
   * spinlock nor ptable.lock is held finds it taken, so a release, and a wakeup, is still to
   * come; and two processes never own the lock at once.
   */
  lemma NoSleeperOnFreeLock(n: nat, run: seq<State>, p: nat, q: nat)
    requires Reachable(n, run) && p < n && q < n
    ensures var s := run[|run| - 1];
            && (s.lk == Free && s.ptable == Free && s.sleeping[p] ==>
                  s.locked && s.owner < n && Owns(s.pc[s.owner]))
            && (Owns(s.pc[p]) && Owns(s.pc[q]) ==> p == q)
  {
    RunKeeps(n, run);
    var s := run[|run| - 1];
    if s.lk == Free && s.ptable == Free && s.sleeping[p] {
      forall r | 0 <= r < |s.pc| ensures !OwesWakeup(s.pc[r]) {
      }
      assert s.locked;
    }
  }
}
