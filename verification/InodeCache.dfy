// The inode cache (fs.c) under interleaving.
//
// A process may hold a reference to a cache entry; every reference has its
// own place in ilock, iunlock or iput, and any reference may take the next step.  A step
// of iput is what it does between two lock operations.
module InodeCache {
  import opened Common

  datatype Pc =
    | Kept             // held, its inode not locked by it
    | Locked           // after ilock
    | Checking         // iput: holds ip->lock
    | Doomed           // iput: saw valid, nlink == 0 and ref == 1
    | Truncated        // iput: after itrunc
    | Freed            // iput: after type = 0 and iupdate
    | Finishing        // iput: about to release ip->lock
    | Dropping         // iput: lock released, ref-- still to come

  datatype Ref = Ref(e: nat, pc: Pc)

  /** An entry of icache; gen is the incarnation of the inode its contents were read from. */
  datatype Entry = Entry(inum: nat, ref: nat, valid: bool, lock: Option<nat>, nlink: nat, gen: nat)

  /** An inode on disk; gen counts how often it has been allocated. */
  datatype Dinode = Dinode(used: bool, nlink: nat, gen: nat)

  datatype State = State(refs: map<nat, Ref>, entry: seq<Entry>, disk: seq<Dinode>)

  datatype Action =
    | Lookup(t: nat, inum: nat)   // dirlookup, then iget: new reference t
    | Alloc(t: nat, inum: nat)    // ialloc of a free inode, then iget
    | Dup(t: nat, from: nat)      // idup
    | Lock(t: nat)                // ilock
    | Unlock(t: nat)              // iunlock
    | SetLinks(t: nat, n: nat)    // ip->nlink = n; iupdate
    | Put(t: nat)                 // the next step of iput

  predicate HasLock(pc: Pc) {
    !pc.Kept? && !pc.Dropping?
  }

  /** iget's scan: the entry in use for inum, else the first free one, else |entry|. */
  function Find(entry: seq<Entry>, inum: nat): (e: nat)
    ensures e <= |entry|
    ensures e < |entry| && entry[e].ref > 0 ==> entry[e].inum == inum
    ensures e == |entry| || entry[e].ref == 0 ==> forall i :: 0 <= i < |entry| ==> !(entry[i].ref > 0 && entry[i].inum == inum)
    ensures e == |entry| ==> forall i :: 0 <= i < |entry| ==> entry[i].ref > 0
    ensures e < |entry| && entry[e].ref == 0 ==> forall i :: 0 <= i < e ==> entry[i].ref > 0
  {
    var k := FirstInUse(entry, inum, 0);
    if k < |entry| then k else FirstFree(entry, 0)
  }

  function FirstInUse(entry: seq<Entry>, inum: nat, i: nat): (k: nat)
    requires i <= |entry|
    ensures i <= k <= |entry| && (k < |entry| ==> entry[k].ref > 0 && entry[k].inum == inum)
    ensures forall j :: i <= j < k ==> !(entry[j].ref > 0 && entry[j].inum == inum)
    decreases |entry| - i
  {
    if i == |entry| || (entry[i].ref > 0 && entry[i].inum == inum) then i else FirstInUse(entry, inum, i + 1)
  }

  function FirstFree(entry: seq<Entry>, i: nat): (k: nat)
    requires i <= |entry|
    ensures i <= k <= |entry| && (k < |entry| ==> entry[k].ref == 0) && forall j :: i <= j < k ==> entry[j].ref > 0
    decreases |entry| - i
  {
    if i == |entry| || entry[i].ref == 0 then i else FirstFree(entry, i + 1)
  }

  /** The loop of iget computes Find. */
  method IgetScan(entry: seq<Entry>, inum: nat) returns (e: nat)
    ensures e == Find(entry, inum)
  {
    var empty := |entry|;
    var i := 0;
    while i < |entry|
      invariant 0 <= i <= |entry| && empty <= |entry|
      invariant FirstInUse(entry, inum, 0) == FirstInUse(entry, inum, i)
      invariant empty == |entry| ==> FirstFree(entry, 0) == FirstFree(entry, i)
      invariant empty < |entry| ==> FirstFree(entry, 0) == empty
    {
      if entry[i].ref > 0 && entry[i].inum == inum {
        assert FirstInUse(entry, inum, 0) == i;
        return i;
      }
      if empty == |entry| && entry[i].ref == 0 {
        empty := i;
      }
      i := i + 1;
    }
    e := empty;
  }

  /** The entry after iget. */
  function Got(e: Entry, inum: nat): Entry {
    if e.ref > 0 then e.(ref := e.ref + 1) else e.(inum := inum, ref := 1, valid := false)
  }

  function Iget(s: State, t: nat, inum: nat): State
    requires Find(s.entry, inum) < |s.entry|
  {
    var e := Find(s.entry, inum);
    s.(refs := s.refs[t := Ref(e, Kept)], entry := s.entry[e := Got(s.entry[e], inum)])
  }

  predicate Sane(s: State) {
    forall t :: t in s.refs ==> s.refs[t].e < |s.entry| && s.entry[s.refs[t].e].inum < |s.disk|
  }

  /**
   * The action can happen; a process waits for ip->lock, and the panics of iget and ilock do not happen.
   * A directory entry names any inode: the ".." of a removed directory may name one that has no links.
   */
  predicate Enabled(s: State, a: Action)
    requires Sane(s)
  {
    match a
    case Lookup(t, inum) => t !in s.refs && inum < |s.disk| && Find(s.entry, inum) < |s.entry|
    case Alloc(t, inum) => t !in s.refs && inum < |s.disk| && !s.disk[inum].used && Find(s.entry, inum) < |s.entry|
    case Dup(t, from) => t !in s.refs && from in s.refs && (s.refs[from].pc.Kept? || s.refs[from].pc.Locked?)
    case Lock(t) => t in s.refs && s.refs[t].pc.Kept? && s.entry[s.refs[t].e].lock.None? && !NoType(s, t)
    case Unlock(t) => t in s.refs && s.refs[t].pc.Locked?
    case SetLinks(t, n) => t in s.refs && s.refs[t].pc.Locked?
    case Put(t) => t in s.refs && !s.refs[t].pc.Locked? && (s.refs[t].pc.Kept? ==> s.entry[s.refs[t].e].lock.None?)
  }

  /** ilock would read a free inode and panic. */
  predicate NoType(s: State, t: nat)
    requires Sane(s) && t in s.refs
  {
    var en := s.entry[s.refs[t].e];
    !en.valid && !s.disk[en.inum].used
  }

  /** Some iput has seen the last reference to the inode and has not freed it yet. */
  ghost predicate Freeing(s: State, inum: nat)
    requires Sane(s)
  {
    exists u :: u in s.refs && s.entry[s.refs[u].e].inum == inum && (s.refs[u].pc.Doomed? || s.refs[u].pc.Truncated?)
  }

  /** A lookup finds a linked inode, or an allocated one that no iput is about to free. */
  ghost predicate Safe(s: State, a: Action)
    requires Sane(s) && Enabled(s, a)
  {
    a.Lookup? ==> s.disk[a.inum].nlink > 0 || (s.disk[a.inum].used && !Freeing(s, a.inum))
  }

  function At(s: State, t: nat, pc: Pc, en: Entry): State
    requires t in s.refs && s.refs[t].e < |s.entry|
  {
    s.(refs := s.refs[t := s.refs[t].(pc := pc)], entry := s.entry[s.refs[t].e := en])
  }

  function PutStep(s: State, t: nat): State
    requires Sane(s) && Enabled(s, Put(t))
  {
    var en := s.entry[s.refs[t].e];
    match s.refs[t].pc
    case Kept => At(s, t, Checking, en.(lock := Some(t)))
    case Checking => At(s, t, if en.valid && en.nlink == 0 && en.ref == 1 then Doomed else Finishing, en)
    case Doomed => At(s, t, Truncated, en)
    case Truncated => At(s, t, Freed, en).(disk := s.disk[en.inum := s.disk[en.inum].(used := false)])
    case Freed => At(s, t, Finishing, en.(valid := false))
    case Finishing => At(s, t, Dropping, en.(lock := None))
    case Dropping =>
      s.(refs := s.refs - {t}, entry := s.entry[s.refs[t].e := en.(ref := if en.ref > 0 then en.ref - 1 else 0)])
    case Locked => s
  }

  function Step(s: State, a: Action): State
    requires Sane(s) && Enabled(s, a)
  {
    match a
    case Lookup(t, inum) => Iget(s, t, inum)
    case Alloc(t, inum) => Iget(s.(disk := s.disk[inum := Dinode(true, 0, s.disk[inum].gen + 1)]), t, inum)
    case Dup(t, from) =>
      var e := s.refs[from].e;
      s.(refs := s.refs[t := Ref(e, Kept)], entry := s.entry[e := s.entry[e].(ref := s.entry[e].ref + 1)])
    case Lock(t) =>
      var en := s.entry[s.refs[t].e];
      var d := s.disk[en.inum];
      At(s, t, Locked, if en.valid then en.(lock := Some(t)) else en.(lock := Some(t), valid := true, nlink := d.nlink, gen := d.gen))
    case Unlock(t) => At(s, t, Kept, s.entry[s.refs[t].e].(lock := None))
    case SetLinks(t, n) =>
      var en := s.entry[s.refs[t].e];
      At(s, t, Locked, en.(nlink := n)).(disk := s.disk[en.inum := s.disk[en.inum].(nlink := n)])
    case Put(t) => PutStep(s, t)
  }

  // ----- The invariant -----

  ghost function On(refs: map<nat, Ref>, e: nat): set<nat> {
    set t | t in refs && refs[t].e == e
  }

  /** ref counts the references; no two entries in use hold the same inode. */
  ghost predicate Counted(s: State) {
    && Sane(s)
    && (forall e :: 0 <= e < |s.entry| ==> s.entry[e].ref == |On(s.refs, e)|)
    && (forall e, f :: 0 <= e < f < |s.entry| && s.entry[e].ref > 0 && s.entry[f].ref > 0 ==> s.entry[e].inum != s.entry[f].inum)
  }

  ghost predicate LocksOk(s: State)
    requires Sane(s)
  {
    && (forall t :: t in s.refs ==> (HasLock(s.refs[t].pc) <==> s.entry[s.refs[t].e].lock == Some(t)))
    && (forall e, t :: 0 <= e < |s.entry| && s.entry[e].lock == Some(t) ==> t in s.refs && s.refs[t].e == e)
  }

  /** The holder of the entry's lock is between iupdate and valid = 0. */
  ghost predicate BeingFreed(s: State, e: nat)
    requires e < |s.entry|
  {
    s.entry[e].lock.Some? && s.entry[e].lock.value in s.refs && s.refs[s.entry[e].lock.value].pc.Freed?
  }

  /** Cached contents are those of the inode as it is now on disk. */
  ghost predicate Current(s: State, e: nat)
    requires e < |s.entry| && s.entry[e].inum < |s.disk|
  {
    var d := s.disk[s.entry[e].inum];
    d.used && s.entry[e].nlink == d.nlink && s.entry[e].gen == d.gen
  }

  /** A reference whose inode must exist. */
  predicate NeedsInode(pc: Pc) {
    pc.Kept? || pc.Locked? || pc.Checking? || pc.Doomed? || pc.Truncated?
  }

  /** Inodes that references need are allocated; free ones have no links. */
  ghost predicate Exist(s: State)
    requires Sane(s)
  {
    && (forall i :: 0 <= i < |s.disk| && !s.disk[i].used ==> s.disk[i].nlink == 0)
    && (forall t :: t in s.refs && NeedsInode(s.refs[t].pc) ==> s.disk[s.entry[s.refs[t].e].inum].used)
  }

  /** A valid entry in use is current, except while its inode is being freed. */
  ghost predicate Fresh(s: State) {
    && (forall e :: 0 <= e < |s.entry| && s.entry[e].ref > 0 ==> s.entry[e].inum < |s.disk|)
    && (forall e :: 0 <= e < |s.entry| && s.entry[e].ref > 0 && s.entry[e].valid && !BeingFreed(s, e) ==> Current(s, e))
    && (forall t :: t in s.refs && s.refs[t].pc.Locked? ==> s.refs[t].e < |s.entry| && s.entry[s.refs[t].e].valid)
  }

  /** Whoever frees an inode holds the only reference to it. */
  ghost predicate Sole(s: State)
    requires Sane(s)
  {
    forall t :: t in s.refs && (s.refs[t].pc.Doomed? || s.refs[t].pc.Truncated?) ==>
      var en := s.entry[s.refs[t].e];
      en.ref == 1 && en.valid && en.nlink == 0 && On(s.refs, s.refs[t].e) == {t}
  }

  ghost predicate Inv(s: State) {
    Counted(s) && LocksOk(s) && Exist(s) && Fresh(s) && Sole(s)
  }

  lemma OnAdd(refs: map<nat, Ref>, t: nat, r: Ref)
    requires t !in refs
    ensures forall e: nat :: On(refs[t := r], e) == if e == r.e then On(refs, e) + {t} else On(refs, e)
  {
  }

  lemma OnSame(refs: map<nat, Ref>, t: nat, pc: Pc)
    requires t in refs
    ensures forall e: nat :: On(refs[t := refs[t].(pc := pc)], e) == On(refs, e)
  {
  }

  lemma OnRemove(refs: map<nat, Ref>, t: nat)
    requires t in refs
    ensures forall e: nat :: On(refs - {t}, e) == On(refs, e) - {t}
  {
  }

  /** A change of place that leaves the entry's inode number and count alone. */
  lemma AtCounted(s: State, t: nat, pc: Pc, en: Entry, disk: seq<Dinode>)
    requires Counted(s) && t in s.refs && |disk| == |s.disk|
    requires en.inum == s.entry[s.refs[t].e].inum && en.ref == s.entry[s.refs[t].e].ref
    ensures Counted(At(s, t, pc, en).(disk := disk))
  {
    hide On;
    OnSame(s.refs, t, pc);
  }

  lemma PutCounted(s: State, t: nat)
    requires Counted(s) && Enabled(s, Put(t))
    ensures Counted(PutStep(s, t))
  {
    hide On;
    hide Counted;
    CountedSane(s);
    var en := s.entry[s.refs[t].e];
    match s.refs[t].pc {
      case Kept => AtCounted(s, t, Checking, en.(lock := Some(t)), s.disk);
      case Checking => AtCounted(s, t, if en.valid && en.nlink == 0 && en.ref == 1 then Doomed else Finishing, en, s.disk);
      case Doomed => AtCounted(s, t, Truncated, en, s.disk);
      case Truncated => AtCounted(s, t, Freed, en, s.disk[en.inum := s.disk[en.inum].(used := false)]);
      case Freed => AtCounted(s, t, Finishing, en.(valid := false), s.disk);
      case Finishing => AtCounted(s, t, Dropping, en.(lock := None), s.disk);
      case Dropping => DropCounted(s, t);
      case Locked =>
    }
  }

  lemma CountedSane(s: State)
    requires Counted(s)
    ensures Sane(s)
  {
  }

  lemma DropCounted(s: State, t: nat)
    requires Counted(s) && t in s.refs && s.refs[t].pc.Dropping?
    ensures Counted(PutStep(s, t))
  {
    hide On;
    OnRemove(s.refs, t);
    assert t in On(s.refs, s.refs[t].e) by { OnHas(s.refs, t); }
    forall e: nat | e != s.refs[t].e ensures On(s.refs, e) - {t} == On(s.refs, e) {
      OnNot(s.refs, t, e);
    }
  }

  lemma OnHas(refs: map<nat, Ref>, t: nat)
    requires t in refs
    ensures t in On(refs, refs[t].e)
  {
  }

  lemma OnNot(refs: map<nat, Ref>, t: nat, e: nat)
    requires t in refs && refs[t].e != e
    ensures t !in On(refs, e)
  {
  }

  lemma IgetCounted(s: State, t: nat, inum: nat)
    requires Counted(s) && t !in s.refs && inum < |s.disk| && Find(s.entry, inum) < |s.entry|
    ensures Counted(Iget(s, t, inum))
  {
    hide On;
    hide Find;
    OnAdd(s.refs, t, Ref(Find(s.entry, inum), Kept));
    OnNew(s.refs, t);
  }

  lemma OnNew(refs: map<nat, Ref>, t: nat)
    requires t !in refs
    ensures forall e: nat :: t !in On(refs, e)
  {
  }

  lemma DupCounted(s: State, t: nat, from: nat)
    requires Counted(s) && t !in s.refs && from in s.refs
    ensures var e := s.refs[from].e;
            Counted(s.(refs := s.refs[t := Ref(e, Kept)], entry := s.entry[e := s.entry[e].(ref := s.entry[e].ref + 1)]))
  {
    hide On;
    OnAdd(s.refs, t, Ref(s.refs[from].e, Kept));
    OnNew(s.refs, t);
    OnHas(s.refs, from);
    assert s.entry[s.refs[from].e].ref > 0;
  }

  lemma CountedKept(s: State, a: Action)
    requires Counted(s) && Enabled(s, a)
    ensures Counted(Step(s, a))
  {
    hide On;
    hide Counted;
    hide Iget;
    hide PutStep;
    CountedSane(s);
    match a
    case Lookup(t, inum) => IgetCounted(s, t, inum);
    case Alloc(t, inum) =>
      var disk := s.disk[inum := Dinode(true, 0, s.disk[inum].gen + 1)];
      CountedDisk(s, disk);
      IgetCounted(s.(disk := disk), t, inum);
    case Dup(t, from) => DupCounted(s, t, from);
    case Lock(t) =>
      var en := s.entry[s.refs[t].e];
      var d := s.disk[en.inum];
      AtCounted(s, t, Locked, if en.valid then en.(lock := Some(t)) else en.(lock := Some(t), valid := true, nlink := d.nlink, gen := d.gen), s.disk);
    case Unlock(t) => AtCounted(s, t, Kept, s.entry[s.refs[t].e].(lock := None), s.disk);
    case SetLinks(t, n) =>
      var en := s.entry[s.refs[t].e];
      AtCounted(s, t, Locked, en.(nlink := n), s.disk[en.inum := s.disk[en.inum].(nlink := n)]);
    case Put(t) => PutCounted(s, t);
  }

  lemma CountedDisk(s: State, disk: seq<Dinode>)
    requires Counted(s) && |disk| == |s.disk|
    ensures Counted(s.(disk := disk))
  {
  }

  // ----- New references -----

  function Added(s: State, t: nat, e: nat, en: Entry, disk: seq<Dinode>): State
    requires e < |s.entry|
  {
    State(s.refs[t := Ref(e, Kept)], s.entry[e := en], disk)
  }

  lemma AddedLocks(s: State, t: nat, e: nat, en: Entry, disk: seq<Dinode>)
    requires Sane(s) && LocksOk(s) && t !in s.refs && e < |s.entry| && en.lock == s.entry[e].lock
    requires Sane(Added(s, t, e, en, disk))
    ensures LocksOk(Added(s, t, e, en, disk))
  {
  }

  lemma AddedSole(s: State, t: nat, e: nat, en: Entry, disk: seq<Dinode>)
    requires Sane(s) && Sole(s) && t !in s.refs && e < |s.entry|
    requires forall u :: u in s.refs && s.refs[u].e == e ==> !s.refs[u].pc.Doomed? && !s.refs[u].pc.Truncated?
    requires Sane(Added(s, t, e, en, disk))
    ensures Sole(Added(s, t, e, en, disk))
  {
    OnAdd(s.refs, t, Ref(e, Kept));
  }

  lemma AddedExist(s: State, t: nat, e: nat, en: Entry, disk: seq<Dinode>)
    requires Counted(s) && Exist(s) && t !in s.refs && e < |s.entry| && en.inum < |s.disk| == |disk|
    requires s.entry[e].ref > 0 ==> en.inum == s.entry[e].inum
    requires disk == s.disk || disk == s.disk[en.inum := disk[en.inum]]
    requires disk[en.inum].used && Sane(Added(s, t, e, en, disk))
    ensures Exist(Added(s, t, e, en, disk))
  {
    hide On;
    forall u | u in s.refs ensures s.entry[s.refs[u].e].ref > 0 {
      OnHas(s.refs, u);
    }
  }

  lemma AddedFresh(s: State, t: nat, e: nat, en: Entry, disk: seq<Dinode>)
    requires Fresh(s) && t !in s.refs && e < |s.entry| && en.inum < |s.disk| == |disk|
    requires forall u :: u in s.refs && s.refs[u].e == e ==> s.entry[e].ref > 0
    requires if s.entry[e].ref > 0 then en == s.entry[e].(ref := s.entry[e].ref + 1) else !en.valid && en.lock == s.entry[e].lock
    requires forall f :: 0 <= f < |s.entry| && f != e && s.entry[f].ref > 0 ==> s.entry[f].inum != en.inum
    requires disk == s.disk || (disk == s.disk[en.inum := disk[en.inum]] && !s.disk[en.inum].used)
    requires forall f :: 0 <= f < |s.entry| && s.entry[f].lock == Some(t) ==> false
    ensures Fresh(Added(s, t, e, en, disk))
  {
    hide On;
    var s' := Added(s, t, e, en, disk);
    forall f | 0 <= f < |s'.entry| && s'.entry[f].ref > 0 && s'.entry[f].valid && !BeingFreed(s', f)
      ensures Current(s', f)
    {
      assert s.entry[f].ref > 0 && !BeingFreed(s, f);
    }
  }

  // ----- Steps of one reference -----

  /** t moves to pc and rewrites its entry; the disk changes at that entry's inode at most. */
  function Moved(s: State, t: nat, pc: Pc, en: Entry, d: Dinode): State
    requires t in s.refs && s.refs[t].e < |s.entry| && en.inum < |s.disk|
  {
    At(s, t, pc, en).(disk := s.disk[en.inum := d])
  }

  ghost predicate LockMove(s: State, t: nat, pc: Pc, en: Entry)
    requires t in s.refs && s.refs[t].e < |s.entry|
  {
    && en.lock == (if HasLock(pc) then Some(t) else None)
    && (HasLock(s.refs[t].pc) || s.entry[s.refs[t].e].lock.None?)
  }

  lemma MovedLocks(s: State, t: nat, pc: Pc, en: Entry, d: Dinode)
    requires Sane(s) && LocksOk(s) && t in s.refs && en.inum < |s.disk| && LockMove(s, t, pc, en)
    requires Sane(Moved(s, t, pc, en, d))
    ensures LocksOk(Moved(s, t, pc, en, d))
  {
  }

  /** While t can take the lock, nobody else on the entry has it. */
  lemma OnlyHolder(s: State, t: nat, u: nat)
    requires Sane(s) && LocksOk(s) && t in s.refs && u in s.refs && u != t && s.refs[u].e == s.refs[t].e
    requires HasLock(s.refs[t].pc) || s.entry[s.refs[t].e].lock.None?
    ensures !HasLock(s.refs[u].pc)
  {
  }

  lemma MovedSole(s: State, t: nat, pc: Pc, en: Entry, d: Dinode)
    requires Sane(s) && LocksOk(s) && Sole(s) && t in s.refs && en.inum < |s.disk| && LockMove(s, t, pc, en)
    requires pc.Doomed? || pc.Truncated? ==> en.ref == 1 && en.valid && en.nlink == 0 && On(s.refs, s.refs[t].e) == {t}
    requires Sane(Moved(s, t, pc, en, d))
    ensures Sole(Moved(s, t, pc, en, d))
  {
    hide On;
    OnSame(s.refs, t, pc);
    forall u | u in s.refs && u != t && s.refs[u].e == s.refs[t].e ensures !HasLock(s.refs[u].pc) {
      OnlyHolder(s, t, u);
    }
  }

  lemma MovedExist(s: State, t: nat, pc: Pc, en: Entry, d: Dinode)
    requires Counted(s) && Exist(s) && t in s.refs && en.inum == s.entry[s.refs[t].e].inum
    requires !d.used ==> d.nlink == 0 && !NeedsInode(pc) && On(s.refs, s.refs[t].e) == {t}
    requires NeedsInode(pc) ==> NeedsInode(s.refs[t].pc)
    requires s.disk[en.inum].used ==> d.used || On(s.refs, s.refs[t].e) == {t}
    requires Sane(Moved(s, t, pc, en, d))
    ensures Exist(Moved(s, t, pc, en, d))
  {
    forall u | u in s.refs && u != t && NeedsInode(s.refs[u].pc) ensures d.used || s.entry[s.refs[u].e].inum != en.inum {
      OnHas(s.refs, u);
      OnHas(s.refs, t);
    }
  }

  lemma MovedFresh(s: State, t: nat, pc: Pc, en: Entry, d: Dinode)
    requires Counted(s) && LocksOk(s) && Fresh(s) && t in s.refs && LockMove(s, t, pc, en)
    requires en.inum == s.entry[s.refs[t].e].inum && en.ref == s.entry[s.refs[t].e].ref
    requires pc.Locked? ==> en.valid
    requires en.valid && !pc.Freed? ==> d.used && en.nlink == d.nlink && en.gen == d.gen
    ensures Fresh(Moved(s, t, pc, en, d))
  {
    hide On;
    OnHas(s.refs, t);
    var s' := Moved(s, t, pc, en, d);
    forall u | u in s.refs && u != t && s.refs[u].e == s.refs[t].e ensures !HasLock(s.refs[u].pc) {
      OnlyHolder(s, t, u);
    }
    forall f | 0 <= f < |s'.entry| && s'.entry[f].ref > 0 && s'.entry[f].valid && !BeingFreed(s', f)
      ensures Current(s', f)
    {
      if f != s.refs[t].e {
        assert !BeingFreed(s, f);
      }
    }
  }

  /** The conditions under which a move keeps the whole invariant. */
  lemma MovedInv(s: State, t: nat, pc: Pc, en: Entry, d: Dinode)
    requires Inv(s) && t in s.refs && LockMove(s, t, pc, en)
    requires en.inum == s.entry[s.refs[t].e].inum && en.ref == s.entry[s.refs[t].e].ref
    requires pc.Locked? ==> en.valid
    requires en.valid && !pc.Freed? ==> d.used && en.nlink == d.nlink && en.gen == d.gen
    requires pc.Doomed? || pc.Truncated? ==> en.ref == 1 && en.valid && en.nlink == 0 && On(s.refs, s.refs[t].e) == {t}
    requires NeedsInode(pc) ==> NeedsInode(s.refs[t].pc)
    requires !d.used ==> d.nlink == 0 && !NeedsInode(pc)
    requires s.disk[en.inum].used && !d.used ==> On(s.refs, s.refs[t].e) == {t}
    requires !s.disk[en.inum].used ==> d == s.disk[en.inum]
    ensures Inv(Moved(s, t, pc, en, d))
  {
    hide On;
    hide LocksOk;
    hide Sole;
    hide Fresh;
    hide Exist;
    hide LockMove;
    AtCounted(s, t, pc, en, s.disk[en.inum := d]);
    MovedLocks(s, t, pc, en, d);
    MovedSole(s, t, pc, en, d);
    if !d.used && !s.disk[en.inum].used {
      MovedExistSame(s, t, pc, en, d);
    } else {
      MovedExist(s, t, pc, en, d);
    }
    MovedFresh(s, t, pc, en, d);
  }

  lemma MovedExistSame(s: State, t: nat, pc: Pc, en: Entry, d: Dinode)
    requires Counted(s) && Exist(s) && t in s.refs && en.inum == s.entry[s.refs[t].e].inum && d == s.disk[en.inum]
    requires NeedsInode(pc) ==> NeedsInode(s.refs[t].pc)
    requires Sane(Moved(s, t, pc, en, d))
    ensures Exist(Moved(s, t, pc, en, d))
  {
  }

  lemma OneIsSole(s: State, t: nat)
    requires Counted(s) && t in s.refs && s.entry[s.refs[t].e].ref == 1
    ensures On(s.refs, s.refs[t].e) == {t}
  {
    OnHas(s.refs, t);
    var rest := On(s.refs, s.refs[t].e) - {t};
    assert |rest| == 0;
  }

  /** What the invariant says of one reference. */
  lemma RefFacts(s: State, t: nat)
    requires Inv(s) && t in s.refs
    ensures var r := s.refs[t];
            && r.e < |s.entry| && s.entry[r.e].inum < |s.disk| && s.entry[r.e].ref > 0
            && (HasLock(r.pc) <==> s.entry[r.e].lock == Some(t))
            && (NeedsInode(r.pc) ==> s.disk[s.entry[r.e].inum].used)
            && (!s.disk[s.entry[r.e].inum].used ==> s.disk[s.entry[r.e].inum].nlink == 0)
            && (r.pc.Locked? ==> s.entry[r.e].valid)
            && (((HasLock(r.pc) && !r.pc.Freed?) || s.entry[r.e].lock.None?) && s.entry[r.e].valid ==> Current(s, r.e))
            && (r.pc.Doomed? || r.pc.Truncated? ==>
                  s.entry[r.e].ref == 1 && s.entry[r.e].valid && s.entry[r.e].nlink == 0 && On(s.refs, r.e) == {t})
  {
    OnHas(s.refs, t);
  }

  lemma PutInv(s: State, t: nat)
    requires Inv(s) && Enabled(s, Put(t))
    ensures Inv(PutStep(s, t))
  {
    hide On;
    hide LocksOk;
    hide Sole;
    hide Fresh;
    hide Exist;
    RefFacts(s, t);
    var en := s.entry[s.refs[t].e];
    var d := s.disk[en.inum];
    assert s.disk[en.inum := d] == s.disk;
    match s.refs[t].pc {
      case Kept => MovedInv(s, t, Checking, en.(lock := Some(t)), d);
      case Checking =>
        if en.valid && en.nlink == 0 && en.ref == 1 {
          OneIsSole(s, t);
          MovedInv(s, t, Doomed, en, d);
        } else {
          MovedInv(s, t, Finishing, en, d);
        }
      case Doomed => MovedInv(s, t, Truncated, en, d);
      case Truncated => MovedInv(s, t, Freed, en, d.(used := false));
      case Freed => MovedInv(s, t, Finishing, en.(valid := false), d);
      case Finishing => MovedInv(s, t, Dropping, en.(lock := None), d);
      case Dropping => DropInv(s, t);
      case Locked =>
    }
  }

  function Dropped(s: State, t: nat): State
    requires t in s.refs && s.refs[t].e < |s.entry|
  {
    var en := s.entry[s.refs[t].e];
    State(s.refs - {t}, s.entry[s.refs[t].e := en.(ref := if en.ref > 0 then en.ref - 1 else 0)], s.disk)
  }

  lemma DropLocks(s: State, t: nat)
    requires Sane(s) && LocksOk(s) && t in s.refs && s.refs[t].pc.Dropping?
    ensures Sane(Dropped(s, t)) && LocksOk(Dropped(s, t))
  {
  }

  lemma DropExist(s: State, t: nat)
    requires Sane(s) && Exist(s) && t in s.refs && Sane(Dropped(s, t))
    ensures Exist(Dropped(s, t))
  {
  }

  lemma DropFresh(s: State, t: nat)
    requires Sane(s) && LocksOk(s) && Fresh(s) && t in s.refs && s.refs[t].pc.Dropping?
    ensures Fresh(Dropped(s, t))
  {
    var s' := Dropped(s, t);
    forall f | 0 <= f < |s'.entry| && s'.entry[f].ref > 0 && s'.entry[f].valid && !BeingFreed(s', f)
      ensures Current(s', f)
    {
      assert s.entry[f].ref > 0 && !BeingFreed(s, f);
    }
  }

  lemma DropSole(s: State, t: nat)
    requires Sane(s) && Sole(s) && t in s.refs && s.refs[t].pc.Dropping? && Sane(Dropped(s, t))
    ensures Sole(Dropped(s, t))
  {
    hide On;
    OnRemove(s.refs, t);
    OnHas(s.refs, t);
    forall u | u in s.refs && (s.refs[u].pc.Doomed? || s.refs[u].pc.Truncated?)
      ensures s.refs[u].e != s.refs[t].e && t !in On(s.refs, s.refs[u].e)
    {
    }
  }

  lemma DropInv(s: State, t: nat)
    requires Inv(s) && t in s.refs && s.refs[t].pc.Dropping?
    ensures Inv(PutStep(s, t))
  {
    hide On;
    hide Sane;
    hide LocksOk;
    hide Sole;
    hide Fresh;
    hide Exist;
    RefFacts(s, t);
    DropCounted(s, t);
    DropLocks(s, t);
    DropExist(s, t);
    DropFresh(s, t);
    DropSole(s, t);
  }

  /** A new reference keeps the invariant if nobody is freeing the inode and the inode exists. */
  lemma AddedInv(s: State, t: nat, e: nat, en: Entry, disk: seq<Dinode>)
    requires Inv(s) && t !in s.refs && e < |s.entry| && en.inum < |s.disk| == |disk|
    requires Counted(Added(s, t, e, en, disk))
    requires if s.entry[e].ref > 0 then en == s.entry[e].(ref := s.entry[e].ref + 1) else !en.valid && en.lock == s.entry[e].lock
    requires forall f :: 0 <= f < |s.entry| && f != e && s.entry[f].ref > 0 ==> s.entry[f].inum != en.inum
    requires disk == s.disk || (disk == s.disk[en.inum := disk[en.inum]] && !s.disk[en.inum].used)
    requires disk[en.inum].used
    requires forall u :: u in s.refs && s.refs[u].e == e ==> !s.refs[u].pc.Doomed? && !s.refs[u].pc.Truncated?
    ensures Inv(Added(s, t, e, en, disk))
  {
    hide On;
    hide Exist;
    hide Fresh;
    hide Sole;
    hide Counted;
    hide LocksOk;
    InvCounted(s);
    CountedSane(s);
    CountedSane(Added(s, t, e, en, disk));
    AddedLocks(s, t, e, en, disk);
    AddedSole(s, t, e, en, disk);
    AddedExist(s, t, e, en, disk);
    forall u | u in s.refs && s.refs[u].e == e ensures s.entry[e].ref > 0 {
      InUse(s, u);
    }
    forall f | 0 <= f < |s.entry| ensures s.entry[f].lock != Some(t) {
      HolderIs(s, f);
    }
    AddedFresh(s, t, e, en, disk);
  }

  lemma InUse(s: State, u: nat)
    requires Counted(s) && u in s.refs
    ensures s.entry[s.refs[u].e].ref > 0
  {
    OnHas(s.refs, u);
  }

  lemma HolderIs(s: State, f: nat)
    requires Sane(s) && LocksOk(s) && f < |s.entry|
    ensures s.entry[f].lock.Some? ==> s.entry[f].lock.value in s.refs
  {
  }

  /** iget of an inode that a safe lookup found, or of one just allocated: nobody is freeing it. */
  lemma IgetInv(s: State, t: nat, inum: nat, disk: seq<Dinode>)
    requires Inv(s) && t !in s.refs && inum < |s.disk| == |disk| && Find(s.entry, inum) < |s.entry|
    requires || (disk == s.disk && Safe(s, Lookup(t, inum)))
             || (disk == s.disk[inum := disk[inum]] && !s.disk[inum].used && disk[inum].used)
    ensures Inv(Iget(s.(disk := disk), t, inum))
  {
    hide On;
    hide Find;
    var e := Find(s.entry, inum);
    CountedDisk(s, disk);
    IgetCounted(s.(disk := disk), t, inum);
    forall u | u in s.refs && s.refs[u].e == e ensures !s.refs[u].pc.Doomed? && !s.refs[u].pc.Truncated? {
      RefFacts(s, u);
    }
    AddedInv(s, t, e, Got(s.entry[e], inum), disk);
  }

  /** Any other lookup breaks it: the reference is to a free inode, or to one that is being truncated. */
  lemma UnsafeLookup(s: State, t: nat, inum: nat)
    requires Inv(s) && Enabled(s, Lookup(t, inum)) && !Safe(s, Lookup(t, inum))
    ensures !Inv(Iget(s, t, inum))
  {
    hide Find;
    var e, s' := Find(s.entry, inum), Iget(s, t, inum);
    if s.disk[inum].used {
      var u :| u in s.refs && s.entry[s.refs[u].e].inum == inum && (s.refs[u].pc.Doomed? || s.refs[u].pc.Truncated?);
      RefFacts(s, u);
      assert e == s.refs[u].e;
      assert s'.refs[u] == s.refs[u] && s'.entry[e].ref == 2;
    } else {
      assert s'.refs[t] == Ref(e, Kept) && s'.entry[e].inum == inum;
    }
  }

  lemma DupInv(s: State, t: nat, from: nat)
    requires Inv(s) && Enabled(s, Dup(t, from))
    ensures Inv(Step(s, Dup(t, from)))
  {
    hide On;
    hide Find;
    var e := s.refs[from].e;
    RefFacts(s, from);
    DupCounted(s, t, from);
    forall u | u in s.refs && s.refs[u].e == e ensures !s.refs[u].pc.Doomed? && !s.refs[u].pc.Truncated? {
      RefFacts(s, u);
      OnHas(s.refs, from);
    }
    AddedInv(s, t, e, s.entry[e].(ref := s.entry[e].ref + 1), s.disk);
  }

  lemma LockInv(s: State, t: nat)
    requires Inv(s) && Enabled(s, Lock(t))
    ensures Inv(Step(s, Lock(t)))
  {
    hide On;
    RefFacts(s, t);
    var en := s.entry[s.refs[t].e];
    var d := s.disk[en.inum];
    assert s.disk[en.inum := d] == s.disk;
    MovedInv(s, t, Locked, if en.valid then en.(lock := Some(t)) else en.(lock := Some(t), valid := true, nlink := d.nlink, gen := d.gen), d);
  }

  /** A step keeps the invariant exactly when it is no unsafe lookup. */
  lemma StepInv(s: State, a: Action)
    requires Inv(s) && Enabled(s, a)
    ensures Inv(Step(s, a)) <==> Safe(s, a)
  {
    hide On;
    hide Find;
    hide Inv;
    hide PutStep;
    hide Iget;
    InvCounted(s);
    match a
    case Lookup(t, inum) =>
      if Safe(s, a) {
        IgetInv(s, t, inum, s.disk);
      } else {
        UnsafeLookup(s, t, inum);
      }
    case Alloc(t, inum) => IgetInv(s, t, inum, s.disk[inum := Dinode(true, 0, s.disk[inum].gen + 1)]);
    case Dup(t, from) => DupInv(s, t, from);
    case Lock(t) => LockInv(s, t);
    case Unlock(t) => UnlockInv(s, t);
    case SetLinks(t, n) => SetLinksInv(s, t, n);
    case Put(t) => PutInv(s, t);
  }

  lemma UnlockInv(s: State, t: nat)
    requires Inv(s) && Enabled(s, Unlock(t))
    ensures Inv(Step(s, Unlock(t)))
  {
    hide On;
    RefFacts(s, t);
    var en := s.entry[s.refs[t].e];
    assert s.disk[en.inum := s.disk[en.inum]] == s.disk;
    MovedInv(s, t, Kept, en.(lock := None), s.disk[en.inum]);
  }

  lemma SetLinksInv(s: State, t: nat, n: nat)
    requires Inv(s) && Enabled(s, SetLinks(t, n))
    ensures Inv(Step(s, SetLinks(t, n)))
  {
    hide On;
    RefFacts(s, t);
    var en := s.entry[s.refs[t].e];
    MovedInv(s, t, Locked, en.(nlink := n), s.disk[en.inum].(nlink := n));
  }

  // ----- Every run -----

  /** Boot: nothing cached; free inodes on disk have no links. */
  ghost predicate Booted(s: State) {
    && s.refs == map[] && (forall e :: 0 <= e < |s.entry| ==> s.entry[e].ref == 0 && s.entry[e].lock.None?)
    && (forall i :: 0 <= i < |s.disk| && !s.disk[i].used ==> s.disk[i].nlink == 0)
  }

  ghost predicate Run(ss: seq<State>, acts: seq<Action>) {
    && |ss| == |acts| + 1 && Booted(ss[0])
    && (forall i :: 0 <= i < |acts| ==> Takes(ss[i], acts[i], ss[i + 1]))
  }

  ghost predicate Takes(s: State, a: Action, s': State) {
    Sane(s) && Enabled(s, a) && s' == Step(s, a)
  }

  lemma BootInv(s: State)
    requires Booted(s)
    ensures Inv(s)
  {
    assert forall e: nat :: On(s.refs, e) == {};
  }

  ghost predicate AllSafe(ss: seq<State>, acts: seq<Action>) {
    forall i :: 0 <= i < |acts| && i < |ss| && Sane(ss[i]) && Enabled(ss[i], acts[i]) ==> Safe(ss[i], acts[i])
  }

  ghost predicate AllInv(ss: seq<State>) {
    forall i :: 0 <= i < |ss| ==> Inv(ss[i])
  }

  /** The invariant holds in every state of a run exactly when no lookup in it was unsafe. */
  lemma {:induction false} RunInv(ss: seq<State>, acts: seq<Action>)
    requires Run(ss, acts)
    ensures AllInv(ss) <==> AllSafe(ss, acts)
  {
    hide Step;
    hide Enabled;
    hide Safe;
    hide Inv;
    var n := |acts|;
    if n == 0 {
      BootInv(ss[0]);
    } else {
      var s, a := ss[n - 1], acts[n - 1];
      assert Takes(s, a, ss[n]);
      RunInv(ss[..n], acts[..n - 1]);
      assert AllInv(ss) <==> AllInv(ss[..n]) && Inv(ss[n]);
      assert AllSafe(ss, acts) <==> AllSafe(ss[..n], acts[..n - 1]) && Safe(s, a);
      if AllInv(ss[..n]) {
        assert Inv(ss[..n][n - 1]);
        StepInv(s, a);
      }
    }
  }

  /**
   * In every state of a run whose lookups were safe, of any number of references: whoever is about to
   * truncate an inode, or has, holds the only reference to it; ilock never finds a free inode; a locked
   * inode exists and its cached copy is of its present incarnation, also when ialloc has handed the
   * number out again while iput was still freeing it.
   */
  lemma CacheSafe(ss: seq<State>, acts: seq<Action>)
    requires Run(ss, acts) && AllSafe(ss, acts)
    ensures var s := ss[|acts|];
            && Sane(s)
            && (forall t, u :: t in s.refs && (s.refs[t].pc.Doomed? || s.refs[t].pc.Truncated?) && u in s.refs && s.refs[u].e == s.refs[t].e ==> u == t)
            && (forall t :: t in s.refs && s.refs[t].pc.Kept? ==> !NoType(s, t))
            && (forall t :: t in s.refs && s.refs[t].pc.Locked? ==> s.entry[s.refs[t].e].valid && Current(s, s.refs[t].e))
  {
    hide Find;
    RunInv(ss, acts);
    var s := ss[|acts|];
    assert Inv(s);
    forall t, u | t in s.refs && (s.refs[t].pc.Doomed? || s.refs[t].pc.Truncated?) && u in s.refs && s.refs[u].e == s.refs[t].e
      ensures u == t
    {
      OnHas(s.refs, u);
    }
    forall t | t in s.refs && s.refs[t].pc.Locked? ensures s.entry[s.refs[t].e].valid && Current(s, s.refs[t].e) {
      RefFacts(s, t);
    }
  }

  // ----- Whatever the lookups -----

  lemma PutLocks(s: State, t: nat)
    requires Counted(s) && LocksOk(s) && Enabled(s, Put(t)) && Sane(PutStep(s, t))
    ensures LocksOk(PutStep(s, t))
  {
    hide Counted;
    hide LocksOk;
    CountedSane(s);
    LockFacts(s, t);
    var en := s.entry[s.refs[t].e];
    var d := s.disk[en.inum];
    assert s.disk[en.inum := d] == s.disk;
    match s.refs[t].pc {
      case Kept => MovedLocks(s, t, Checking, en.(lock := Some(t)), d);
      case Checking => MovedLocks(s, t, if en.valid && en.nlink == 0 && en.ref == 1 then Doomed else Finishing, en, d);
      case Doomed => MovedLocks(s, t, Truncated, en, d);
      case Truncated => MovedLocks(s, t, Freed, en, d.(used := false));
      case Freed => MovedLocks(s, t, Finishing, en.(valid := false), d);
      case Finishing => MovedLocks(s, t, Dropping, en.(lock := None), d);
      case Dropping => DropLocks(s, t);
      case Locked =>
    }
  }

  lemma LockFacts(s: State, t: nat)
    requires Sane(s) && LocksOk(s) && t in s.refs
    ensures HasLock(s.refs[t].pc) <==> s.entry[s.refs[t].e].lock == Some(t)
  {
  }

  lemma LocksKept(s: State, a: Action)
    requires Counted(s) && LocksOk(s) && Enabled(s, a)
    ensures Counted(Step(s, a)) && LocksOk(Step(s, a))
  {
    hide On;
    hide Find;
    hide Counted;
    hide LocksOk;
    hide PutStep;
    CountedSane(s);
    CountedKept(s, a);
    CountedSane(Step(s, a));
    match a
    case Lookup(t, inum) =>
      var e := Find(s.entry, inum);
      AddedLocks(s, t, e, Got(s.entry[e], inum), s.disk);
    case Alloc(t, inum) =>
      var e := Find(s.entry, inum);
      AddedLocks(s, t, e, Got(s.entry[e], inum), s.disk[inum := Dinode(true, 0, s.disk[inum].gen + 1)]);
    case Dup(t, from) =>
      var e := s.refs[from].e;
      AddedLocks(s, t, e, s.entry[e].(ref := s.entry[e].ref + 1), s.disk);
    case Lock(t) =>
      var en := s.entry[s.refs[t].e];
      var d := s.disk[en.inum];
      assert s.disk[en.inum := d] == s.disk;
      LockFacts(s, t);
      MovedLocks(s, t, Locked, if en.valid then en.(lock := Some(t)) else en.(lock := Some(t), valid := true, nlink := d.nlink, gen := d.gen), d);
    case Unlock(t) =>
      var en := s.entry[s.refs[t].e];
      assert s.disk[en.inum := s.disk[en.inum]] == s.disk;
      LockFacts(s, t);
      MovedLocks(s, t, Kept, en.(lock := None), s.disk[en.inum]);
    case SetLinks(t, n) =>
      var en := s.entry[s.refs[t].e];
      LockFacts(s, t);
      MovedLocks(s, t, Locked, en.(nlink := n), s.disk[en.inum].(nlink := n));
    case Put(t) => PutLocks(s, t);
  }

  /** In every run, unsafe lookups and all: one entry for an inode, exact counts, one holder of each lock. */
  lemma {:induction false} RunCounted(ss: seq<State>, acts: seq<Action>)
    requires Run(ss, acts)
    ensures Counted(ss[|acts|]) && LocksOk(ss[|acts|])
  {
    hide Step;
    hide Enabled;
    hide Counted;
    hide LocksOk;
    var n := |acts|;
    if n == 0 {
      hide Inv;
      BootInv(ss[0]);
      InvCounted(ss[0]);
    } else {
      assert Takes(ss[n - 1], acts[n - 1], ss[n]);
      RunCounted(ss[..n], acts[..n - 1]);
      LocksKept(ss[n - 1], acts[n - 1]);
    }
  }

  lemma InvCounted(s: State)
    requires Inv(s)
    ensures Counted(s) && LocksOk(s)
  {
  }

  // ----- A lookup that is not safe -----

  /** The last iput of an inode without links, past its check, a lookup of it, and the rest of the iput. */
  function LateLookup(): (acts: seq<Action>)
    ensures |acts| == 11
  {
    [Alloc(0, 0), Lock(0), Unlock(0), Put(0), Put(0), Lookup(1, 0), Put(0), Put(0), Put(0), Put(0), Put(0)]
  }

  /** The states of that run; reference 1 is there from the sixth action on. */
  function LateState(k: nat): State {
    var e := Entry(0, 1, true, None, 0, 1);
    var d, f := [Dinode(true, 0, 1)], [Dinode(false, 0, 1)];
    if k == 0 then State(map[], [Entry(0, 0, false, None, 0, 0)], [Dinode(false, 0, 0)])
    else if k == 1 then State(map[0 := Ref(0, Kept)], [Entry(0, 1, false, None, 0, 0)], d)
    else if k == 2 then State(map[0 := Ref(0, Locked)], [e.(lock := Some(0))], d)
    else if k == 3 then State(map[0 := Ref(0, Kept)], [e], d)
    else if k == 4 then State(map[0 := Ref(0, Checking)], [e.(lock := Some(0))], d)
    else if k == 5 then State(map[0 := Ref(0, Doomed)], [e.(lock := Some(0))], d)
    else if k == 6 then State(map[0 := Ref(0, Doomed), 1 := Ref(0, Kept)], [e.(lock := Some(0), ref := 2)], d)
    else if k == 7 then State(map[0 := Ref(0, Truncated), 1 := Ref(0, Kept)], [e.(lock := Some(0), ref := 2)], d)
    else if k == 8 then State(map[0 := Ref(0, Freed), 1 := Ref(0, Kept)], [e.(lock := Some(0), ref := 2)], f)
    else if k == 9 then State(map[0 := Ref(0, Finishing), 1 := Ref(0, Kept)], [e.(lock := Some(0), ref := 2, valid := false)], f)
    else if k == 10 then State(map[0 := Ref(0, Dropping), 1 := Ref(0, Kept)], [e.(ref := 2, valid := false)], f)
    else State(map[1 := Ref(0, Kept)], [e.(valid := false)], f)
  }

  lemma LateAlloc()
    ensures Takes(LateState(0), Alloc(0, 0), LateState(1))
  {
  }

  lemma LatePut()
    ensures Takes(LateState(1), Lock(0), LateState(2)) && Takes(LateState(2), Unlock(0), LateState(3))
    ensures Takes(LateState(3), Put(0), LateState(4)) && Takes(LateState(4), Put(0), LateState(5))
  {
    hide Find;
  }

  lemma LateGet()
    ensures Takes(LateState(5), Lookup(1, 0), LateState(6))
  {
  }

  lemma LateTruncate()
    ensures Takes(LateState(6), Put(0), LateState(7)) && Takes(LateState(7), Put(0), LateState(8))
  {
    hide Find;
  }

  lemma LateFree()
    ensures Takes(LateState(8), Put(0), LateState(9)) && Takes(LateState(9), Put(0), LateState(10))
  {
    hide Find;
  }

  lemma LateDrop()
    ensures Takes(LateState(10), Put(0), LateState(11))
  {
    hide Find;
  }

  /**
   * While an iput is about to truncate an inode without links, a lookup of it, by the ".." of a directory
   * removed before, is a second reference to it; when the iput is done that reference is to a free inode,
   * and its ilock panics.
   */
  lemma SecondReference() returns (ss: seq<State>)
    ensures Run(ss, LateLookup()) && ss[6].refs == map[0 := Ref(0, Doomed), 1 := Ref(0, Kept)]
    ensures ss[11].refs == map[1 := Ref(0, Kept)] && Sane(ss[11]) && NoType(ss[11], 1)
  {
    hide Takes;
    LateAlloc();
    LatePut();
    LateGet();
    LateTruncate();
    LateFree();
    LateDrop();
    ss := seq(12, k requires 0 <= k < 12 => LateState(k));
    assert LateState(11) == State(map[1 := Ref(0, Kept)], [Entry(0, 1, false, None, 0, 1)], [Dinode(false, 0, 1)]);
    forall i | 0 <= i < 11 ensures Takes(ss[i], LateLookup()[i], ss[i + 1]) {
    }
  }
}
