// Runs in which processes save an inode before they let it go (fs.c): a condition on what the
// processes do, under which the copies in memory and on disk agree.
module SavedRuns {
  import opened Blocks
  import opened Common
  import opened BlockMap
  import opened BlockRuns

  /** Actions that change the block numbers of an inode in memory. */
  predicate Renumbers(a: Action) {
    a.Store? || a.DropDirect? || a.DropTable?
  }

  /** The last action happens where its process stands. */
  ghost predicate Happens(st: State, acts: seq<(nat, Action)>)
    requires Shaped(st) && acts != []
  {
    var o, a := Run(st, acts[..|acts| - 1]), acts[|acts| - 1];
    o.Next? && a.0 < |st.pc| && Exec(o.st, a.0, a.1).Next?
  }

  /** Inode i has new block numbers, or with all other new fields as well, and neither iupdate nor a reload came after. */
  ghost predicate Dirty(st: State, acts: seq<(nat, Action)>, i: nat, all: bool)
    requires Shaped(st)
  {
    acts != []
    && var front, a := acts[..|acts| - 1], acts[|acts| - 1];
    if a.0 != i || !Happens(st, acts) then Dirty(st, front, i, all)
    else if Renumbers(a.1) || (all && a.1.Meta?) then true
    else if a.1.Iupdate? || a.1.Reload? then false
    else Dirty(st, front, i, all)
  }

  /** Every process saves the numbers of the inode it holds before it unlocks it. */
  ghost predicate Disciplined(st: State, acts: seq<(nat, Action)>)
    requires Shaped(st)
  {
    acts == []
    || (&& Disciplined(st, acts[..|acts| - 1])
        && (acts[|acts| - 1].1.Unlock? && Happens(st, acts) ==> !Dirty(st, acts[..|acts| - 1], acts[|acts| - 1].0, false)))
  }

  // ----- One action -----

  /** What an action at inode i does to its two copies. */
  lemma CopiesStep(st: State, i: nat, a: Action)
    requires Shaped(st) && i < |st.pc| && Exec(st, i, a).Next?
    ensures var n, m := st.mem[i], st.disk[i];
            var n', m' := Exec(st, i, a).st.mem[i], Exec(st, i, a).st.disk[i];
            && (a.Iupdate? || a.Reload? ==> n' == m')
            && (!a.Iupdate? ==> m' == m) && (a.Iupdate? ==> n' == n)
            && (!Renumbers(a) && !a.Reload? ==> n'.addrs == n.addrs)
            && (!Renumbers(a) && !a.Reload? && !a.Meta? ==> n' == n)
  {
    hide Ref;
    hide Word;
    hide StoreBlock;
    hide FirstFree;
  }

  /** An unlocked inode has just been let go, or read again, or nothing has happened to it. */
  lemma UnlockedStep(st: State, i: nat, a: Action)
    requires Shaped(st) && i < |st.pc| && Exec(st, i, a).Next? && Exec(st, i, a).st.pc[i].Unlocked?
    ensures a.Unlock? || a.Reload?
  {
    hide Ref;
    hide Word;
    hide StoreBlock;
    hide FirstFree;
  }

  /** Nobody is in the middle of truncating the inode. */
  predicate Whole(p: Pc) {
    !p.Freed? && !p.Entries? && !p.TableFreed?
  }

  lemma SameAddrs(blocks: Disk, n: Dinode, m: Dinode)
    requires n.addrs == m.addrs
    ensures forall s :: 0 <= s < NSLOT ==> Ref(blocks, n, s) == Ref(blocks, m, s)
  {
    hide Word;
  }

  /** No block is referenced twice. */
  ghost predicate Single(blocks: Disk, n: Dinode) {
    forall s, t :: 0 <= s < NSLOT && 0 <= t < NSLOT && Ref(blocks, n, s) != 0 && Ref(blocks, n, s) == Ref(blocks, n, t) ==> s == t
  }

  lemma SingleIsSame(blocks: Disk, n: Dinode, m: Dinode)
    requires Single(blocks, n) && n.addrs == m.addrs
    ensures SameBlocks(blocks, n, m)
  {
    SameAddrs(blocks, n, m);
    hide Ref;
  }

  lemma WholeSingle(st: State, owner: Owner, vb: Disk, i: nat)
    requires Inv(st, owner, vb) && i < |st.pc| == |st.mem| && Whole(st.pc[i])
    ensures Single(st.blocks, st.mem[i])
  {
    hide Inv;
    hide OwnedBy;
    hide Ref;
    hide Table;
    hide Cut;
    var n := st.mem[i];
    Parts(st, owner, vb);
    TableOnDisk(st, owner, vb, i);
    CurrentTable(n, st.pc[i]);
    SavedIsSame(st.sb, owner, st.bits, vb, Table(st.mem, st.pc), i, n);
  }

  /** Inside a truncation a step at the inode changes neither its numbers nor a block. */
  lemma TruncStep(st: State, i: nat, a: Action)
    requires Shaped(st) && i < |st.pc| && Exec(st, i, a).Next?
    requires Exec(st, i, a).st.pc[i].Freed? || Exec(st, i, a).st.pc[i].Entries?
    ensures Exec(st, i, a).st.blocks == st.blocks && Exec(st, i, a).st.mem[i] == st.mem[i] && !st.pc[i].TableFreed?
  {
    hide Ref;
    hide Word;
    hide FirstFree;
  }

  /** Nor does one elsewhere. */
  lemma SingleApart(st: State, owner: Owner, vb: Disk, j: nat, a: Action, i: nat)
    requires Shaped(st) && i < |st.pc| && j < |st.pc| && j != i && Exec(st, j, a).Next? && Inv(st, owner, vb)
    requires !st.pc[i].TableFreed? && Single(st.blocks, st.mem[i])
    ensures Single(Exec(st, j, a).st.blocks, st.mem[i])
  {
    hide Inv;
    hide Ref;
    hide Exec;
    var blocks' := Exec(st, j, a).st.blocks;
    var c := Touched(st, owner, vb, j, a);
    if blocks' != st.blocks {
      OwnedApart(st, owner, vb, j, c, i);
      CurrentTable(st.mem[i], st.pc[i]);
      BlockRuns.SameRefs(st.blocks, blocks', st.mem[i]);
    }
  }

  // ----- All runs -----

  /** An inode that is not dirty is the same on disk, as far as that goes, whatever the others do. */
  lemma {:induction false} SavedCopies(st: State, acts: seq<(nat, Action)>, i: nat, all: bool)
    requires Boot(st) && Run(st, acts).Next? && i < |st.pc| && !Dirty(st, acts, i, all)
    ensures var n, m := Run(st, acts).st.mem[i], Run(st, acts).st.disk[i];
            n.addrs == m.addrs && (all ==> n == m)
  {
    hide Exec;
    hide Ownership;
    if acts != [] {
      var front, a := acts[..|acts| - 1], acts[|acts| - 1];
      var o := Run(st, front);
      if Happens(st, acts) {
        if a.0 != i {
          StepLocal(o.st, a.0, a.1, i);
          SavedCopies(st, front, i, all);
        } else {
          CopiesStep(o.st, i, a.1);
          if !a.1.Iupdate? && !a.1.Reload? {
            SavedCopies(st, front, i, all);
          }
        }
      } else {
        SavedCopies(st, front, i, all);
      }
    }
  }

  /** Under the discipline no unlocked inode is dirty. */
  lemma {:induction false} UnlockedClean(st: State, acts: seq<(nat, Action)>, i: nat)
    requires Boot(st) && Disciplined(st, acts) && Run(st, acts).Next? && i < |st.pc| && Run(st, acts).st.pc[i].Unlocked?
    ensures !Dirty(st, acts, i, false)
  {
    hide Exec;
    hide Ownership;
    if acts != [] {
      var front, a := acts[..|acts| - 1], acts[|acts| - 1];
      var o := Run(st, front);
      if !Happens(st, acts) {
        UnlockedClean(st, front, i);
      } else if a.0 != i {
        StepLocal(o.st, a.0, a.1, i);
        UnlockedClean(st, front, i);
      } else {
        UnlockedStep(o.st, i, a.1);
      }
    }
  }

  /** As long as its indirect block is its own, an inode refers to no block twice. */
  lemma {:induction false} SingleStays(st: State, acts: seq<(nat, Action)>, i: nat)
    requires Boot(st) && Agreeing(st, acts) && Run(st, acts).Next? && i < |st.pc| && !Run(st, acts).st.pc[i].TableFreed?
    ensures Single(Run(st, acts).st.blocks, Run(st, acts).st.mem[i])
  {
    hide Exec;
    hide Ownership;
    hide Agrees;
    hide Inv;
    hide Single;
    var o := Run(st, acts);
    if Whole(o.st.pc[i]) {
      var owner, vb := RunKeeps(st, acts);
      OthersSame(o.st, owner, vb);
      WholeSingle(o.st, owner, vb, i);
    } else {
      var front, a := acts[..|acts| - 1], acts[|acts| - 1];
      if !Happens(st, acts) {
        SingleStays(st, front, i);
      } else if a.0 == i {
        TruncStep(Run(st, front).st, i, a.1);
        SingleStays(st, front, i);
      } else {
        StepLocal(Run(st, front).st, a.0, a.1, i);
        SingleStays(st, front, i);
        var owner, vb := RunKeeps(st, front);
        SingleApart(Run(st, front).st, owner, vb, a.0, a.1, i);
      }
    }
  }

  lemma {:induction false} DisciplinedAgrees(st: State, acts: seq<(nat, Action)>)
    requires Boot(st) && Disciplined(st, acts)
    ensures Agreeing(st, acts)
  {
    hide Exec;
    hide Ownership;
    hide SameBlocks;
    hide Single;
    if acts != [] {
      var front, a := acts[..|acts| - 1], acts[|acts| - 1];
      var o := Run(st, front);
      DisciplinedAgrees(st, front);
      if o.Next? && a.0 < |st.pc| && o.st.pc[a.0].Unlocked? {
        UnlockedClean(st, front, a.0);
        SavedCopies(st, front, a.0, false);
        SingleStays(st, front, a.0);
        SingleIsSame(o.st.blocks, o.st.mem[a.0], o.st.disk[a.0]);
      }
    }
  }

  /**
   * From the file system mkfs makes, whatever the processes do and however they interleave, if each saves
   * an inode whose block numbers it has changed before it unlocks it: bfree never finds a block free; an
   * inode saved since, as every unlocked one is, has the same numbers in memory and on disk, which are
   * those of the same blocks as long as it has not freed its indirect block; whenever nobody is in the
   * middle of bmap or itrunc the bitmap is exact and every block in use has one owner; and so it is for a
   * reboot if all are saved.
   */
  lemma DisciplinedSound(st: State, acts: seq<(nat, Action)>)
    requires Boot(st) && Disciplined(st, acts)
    ensures !Run(st, acts).FreeingFree?
    ensures var o := Run(st, acts);
            o.Next? ==>
              && (forall i: nat :: i < |o.st.pc| && o.st.pc[i].Unlocked? ==> !Dirty(st, acts, i, false))
              && (forall i: nat :: i < |o.st.pc| && !Dirty(st, acts, i, false) ==>
                    && o.st.mem[i].addrs == o.st.disk[i].addrs
                    && (!o.st.pc[i].TableFreed? ==> SameBlocks(o.st.blocks, o.st.mem[i], o.st.disk[i])))
              && ((forall i :: 0 <= i < |o.st.pc| ==> Settled(o.st.pc[i])) ==>
                    && Ownership(o.st.sb, o.st.bits, o.st.blocks, o.st.mem)
                    && ((forall i: nat :: i < |o.st.pc| ==> !Dirty(st, acts, i, false)) ==>
                          Ownership(o.st.sb, o.st.bits, o.st.blocks, o.st.disk)))
  {
    hide Run;
    hide Ownership;
    hide SameBlocks;
    hide Agreeing;
    hide Disciplined;
    hide Dirty;
    hide Single;
    DisciplinedAgrees(st, acts);
    RunSound(st, acts);
    var o := Run(st, acts);
    if o.Next? {
      forall i: nat | i < |o.st.pc| && o.st.pc[i].Unlocked?
        ensures !Dirty(st, acts, i, false)
      {
        UnlockedClean(st, acts, i);
      }
      forall i: nat | i < |o.st.pc| && !Dirty(st, acts, i, false)
        ensures o.st.mem[i].addrs == o.st.disk[i].addrs
        ensures !o.st.pc[i].TableFreed? ==> SameBlocks(o.st.blocks, o.st.mem[i], o.st.disk[i])
      {
        SavedCopies(st, acts, i, false);
        if !o.st.pc[i].TableFreed? {
          SingleStays(st, acts, i);
          SingleIsSame(o.st.blocks, o.st.mem[i], o.st.disk[i]);
        }
      }
    }
  }

  /** The indirect block that an inode has freed, and whose number it still holds, given to another. */
  function Reuse(j: nat, s: nat, data: Block): seq<(nat, Action)> {
    [(j, Lock), (j, Mark(s)), (j, Zero), (j, Store), (j, Data(s, data))]
  }

  lemma RunOne(st: State, acts: seq<(nat, Action)>, j: nat, a: Action, mid: State, end: State)
    requires Shaped(st) && Run(st, acts) == Next(mid) && j < |st.pc| && Exec(mid, j, a) == Next(end)
    ensures Run(st, acts + [(j, a)]) == Next(end)
  {
    hide Exec;
    assert (acts + [(j, a)])[..|acts + [(j, a)]| - 1] == acts;
  }

  /** The states on the way. */
  function Reusing(st: State, j: nat, s: nat, data: Block, k: nat): (r: State)
    requires Shaped(st) && j < |st.pc| && s < NDIRECT && k <= 5 && FirstFree(st.bits, 0) < |st.bits|
    ensures Shaped(r) && |r.pc| == |st.pc|
  {
    var b := FirstFree(st.bits, 0);
    var pc := [st.pc[j], Idle, Marked(s, b), Zeroed(s, b), Idle, Idle][k];
    st.(pc := st.pc[j := pc],
        bits := if k < 2 then st.bits else st.bits[b := true],
        blocks := if k < 3 then st.blocks else st.blocks[b := if k < 5 then ZeroBlock() else data],
        mem := if k < 4 then st.mem else st.mem[j := StoreAddr(st.mem[j], s, b)])
  }

  lemma ReuseStep(st: State, j: nat, s: nat, data: Block, k: nat)
    requires Shaped(st) && j < |st.pc| && s < NDIRECT && k < 5 && st.pc[j].Unlocked? && st.mem[j].addrs[s] == 0
    requires 0 < FirstFree(st.bits, 0) < |st.bits|
    ensures Exec(Reusing(st, j, s, data, k), j, Reuse(j, s, data)[k].1) == Next(Reusing(st, j, s, data, k + 1))
  {
    hide FirstFree;
    hide Word;
    var m, e := Reusing(st, j, s, data, k), Reusing(st, j, s, data, k + 1);
    assert m.pc[j := e.pc[j]] == e.pc;
    var b := FirstFree(st.bits, 0);
    assert k == 4 ==> m.blocks[b := data] == e.blocks;
  }

  lemma {:induction false} ReuseRun(st: State, j: nat, s: nat, data: Block, k: nat)
    requires Shaped(st) && j < |st.pc| && s < NDIRECT && k <= 5 && st.pc[j].Unlocked? && st.mem[j].addrs[s] == 0
    requires 0 < FirstFree(st.bits, 0) < |st.bits|
    ensures Run(st, Reuse(j, s, data)[..k]) == Next(Reusing(st, j, s, data, k))
  {
    hide Exec;
    hide FirstFree;
    if k == 0 {
      assert st.pc[j := st.pc[j]] == st.pc;
    } else {
      var acts := Reuse(j, s, data);
      ReuseRun(st, j, s, data, k - 1);
      ReuseStep(st, j, s, data, k - 1);
      hide Reusing;
      RunOne(st, acts[..k - 1], j, acts[k - 1].1, Reusing(st, j, s, data, k - 1), Reusing(st, j, s, data, k));
      assert acts[..k - 1] + [(j, acts[k - 1].1)] == acts[..k];
    }
  }

  /** The numbers an inode then holds stand for anything: its copies are equal and refer to a block twice. */
  lemma TableReused(st: State, i: nat, j: nat, s: nat, data: Block)
    requires Shaped(st) && i < |st.pc| && j < |st.pc| && i != j && st.pc[i].TableFreed? && st.pc[j].Unlocked?
    requires s < NDIRECT && st.mem[j].addrs[s] == 0 && st.mem[i].addrs == st.disk[i].addrs
    requires 0 < st.mem[i].addrs[NDIRECT] == FirstFree(st.bits, 0) < |st.bits| && Word(data, 0) == Word(data, 1) != 0
    ensures Run(st, Reuse(j, s, data)).Next?
    ensures var end := Run(st, Reuse(j, s, data)).st;
            end.mem[i].addrs == end.disk[i].addrs && !SameBlocks(end.blocks, end.mem[i], end.disk[i])
  {
    hide Run;
    hide Word;
    hide FirstFree;
    hide SameBlocks;
    ReuseRun(st, j, s, data, 5);
    assert Reuse(j, s, data)[..5] == Reuse(j, s, data);
    TwiceReferred(Reusing(st, j, s, data, 5).blocks, st.mem[i], st.disk[i]);
  }

  lemma TwiceReferred(blocks: Disk, n: Dinode, m: Dinode)
    requires 0 < m.addrs[NDIRECT] < |blocks| && Word(blocks[m.addrs[NDIRECT]], 0) == Word(blocks[m.addrs[NDIRECT]], 1) != 0
    ensures !SameBlocks(blocks, n, m)
  {
    hide Word;
    assert Ref(blocks, m, NDIRECT) == Ref(blocks, m, NDIRECT + 1) != 0;
  }

  // ----- What a process has written stays -----

  /** Nothing happens at inode i. */
  predicate Elsewhere(acts: seq<(nat, Action)>, i: nat) {
    forall k :: 0 <= k < |acts| ==> acts[k].0 != i
  }

  /** Others change neither the copies of an inode nor its bytes. */
  lemma {:induction false} Undisturbed(st: State, acts: seq<(nat, Action)>, more: seq<(nat, Action)>, i: nat)
    requires Boot(st) && Disciplined(st, acts + more) && Elsewhere(more, i) && i < |st.pc|
    requires Run(st, acts + more).Next? && Run(st, acts).Next? && Whole(Run(st, acts).st.pc[i])
    ensures var s0, s1 := Run(st, acts).st, Run(st, acts + more).st;
            && s1.mem[i] == s0.mem[i] && s1.disk[i] == s0.disk[i] && s1.pc[i] == s0.pc[i]
            && forall p :: 0 <= p < MAXFILE * BSIZE ==> Byte(s1.blocks, s1.mem[i], p) == Byte(s0.blocks, s0.mem[i], p)
    decreases |more|
  {
    hide Exec;
    hide Ownership;
    hide Byte;
    hide Dirty;
    if more == [] {
      assert acts + more == acts;
    } else {
      var front, a := more[..|more| - 1], more[|more| - 1];
      assert (acts + more)[..|acts + more| - 1] == acts + front;
      Undisturbed(st, acts, front, i);
      if Happens(st, acts + more) {
        DisciplinedAgrees(st, acts + front);
        NoInterference(st, acts + front, a.0, a.1, i);
      }
    }
  }

  lemma {:induction false} DisciplinedPrefix(st: State, acts: seq<(nat, Action)>, more: seq<(nat, Action)>)
    requires Shaped(st) && Disciplined(st, acts + more)
    ensures Disciplined(st, acts)
    decreases |more|
  {
    if more == [] {
      assert acts + more == acts;
    } else {
      assert (acts + more)[..|acts + more| - 1] == acts + more[..|more| - 1];
      DisciplinedPrefix(st, acts, more[..|more| - 1]);
    }
  }

  lemma DataRead(st: State, owner: Owner, vb: Disk, i: nat, s: nat, data: Block)
    requires Inv(st, owner, vb) && Shaped(st) && i < |st.pc| && Exec(st, i, Data(s, data)).Next?
    ensures var end := Exec(st, i, Data(s, data)).st;
            && s < MAXFILE && end.mem[i] == st.mem[i] && Whole(end.pc[i])
            && forall k :: 0 <= k < BSIZE ==> Byte(end.blocks, end.mem[i], s * BSIZE + k) == data[k]
  {
    hide Inv;
    hide OwnedBy;
    hide Table;
    hide Word;
    hide Cut;
    var n := st.mem[i];
    var b, t := Ref(st.blocks, n, s), n.addrs[NDIRECT];
    Parts(st, owner, vb);
    TableOnDisk(st, owner, vb, i);
    CurrentTable(n, st.pc[i]);
    RefOwned(st.sb, owner, st.bits, vb, Table(st.mem, st.pc), i, s);
    assert s >= NDIRECT ==> b != t;
    var end := Exec(st, i, Data(s, data)).st;
    forall k | 0 <= k < BSIZE
      ensures Byte(end.blocks, n, s * BSIZE + k) == data[k]
    {
      assert (s * BSIZE + k) / BSIZE == s && (s * BSIZE + k) % BSIZE == k;
    }
  }

  /** Data written to a block of an inode is read there until somebody acts on that inode again. */
  lemma DataStays(st: State, acts: seq<(nat, Action)>, i: nat, s: nat, data: Block, more: seq<(nat, Action)>)
    requires Boot(st) && Disciplined(st, acts + [(i, Data(s, data))] + more) && Elsewhere(more, i) && i < |st.pc|
    requires Happens(st, acts + [(i, Data(s, data))]) && Run(st, acts + [(i, Data(s, data))] + more).Next?
    ensures var end := Run(st, acts + [(i, Data(s, data))] + more).st;
            s < MAXFILE && forall k :: 0 <= k < BSIZE ==> Byte(end.blocks, end.mem[i], s * BSIZE + k) == data[k]
  {
    hide Byte;
    hide Ownership;
    hide Dirty;
    hide Disciplined;
    hide Exec;
    hide Inv;
    var all := acts + [(i, Data(s, data))];
    assert all[..|all| - 1] == acts && all + more == acts + ([(i, Data(s, data))] + more);
    DisciplinedPrefix(st, acts, [(i, Data(s, data))] + more);
    DisciplinedAgrees(st, acts);
    var owner, vb := RunKeeps(st, acts);
    DataRead(Run(st, acts).st, owner, vb, i, s, data);
    Undisturbed(st, all, more, i);
  }

  /** So are the fields that a process has set, and what it has saved on disk. */
  lemma FieldsStay(st: State, acts: seq<(nat, Action)>, i: nat, n: Dinode, more: seq<(nat, Action)>)
    requires Boot(st) && Elsewhere(more, i) && i < |st.pc|
    requires var all := acts + [(i, Meta(n))];
             && Happens(st, all) && Happens(st, all + [(i, Iupdate)])
             && Disciplined(st, all + [(i, Iupdate)] + more) && Run(st, all + [(i, Iupdate)] + more).Next?
    ensures var end := Run(st, acts + [(i, Meta(n))] + [(i, Iupdate)] + more).st;
            end.mem[i] == end.disk[i] == n
  {
    hide Byte;
    hide Ownership;
    hide Dirty;
    hide Disciplined;
    var one := acts + [(i, Meta(n))];
    var all := one + [(i, Iupdate)];
    assert one[..|one| - 1] == acts && all[..|all| - 1] == one;
    Undisturbed(st, all, more, i);
  }
}
