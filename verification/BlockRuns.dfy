// Any number of processes at work on the blocks of any number of inodes (fs.c).
//
// Each action is one critical section: a process may be stopped between marking a block
// in the bitmap, zeroing it and storing its number, and between freeing a block and
// forgetting its number, while others allocate and free.
module BlockRuns {
  import opened Blocks
  import opened Common
  import opened BlockMap
  import FileSystem

  /** Where the process that holds an inode's lock is. */
  datatype Pc =
    | Unlocked
    | Idle
    | Marked(s: nat, b: nat)   // balloc has set b's bit for slot s
    | Zeroed(s: nat, b: nat)   // and zeroed it
    | Freed(s: nat)            // itrunc has freed direct block s
    | Entries(k: nat)          // itrunc has freed k entries of the indirect block
    | TableFreed               // and the indirect block

  /** mem[i] is the copy of inode i in the inode cache, disk[i] the one iupdate writes. */
  datatype State = State(sb: Super, bits: seq<bool>, blocks: Disk, disk: seq<Dinode>, mem: seq<Dinode>, pc: seq<Pc>)

  datatype Action =
    | Lock | Unlock
    | Reload                   // the cache entry is recycled, and the inode read again
    | Mark(s: nat) | Zero | Store
    | Data(s: nat, data: Block) | Meta(n: Dinode) | Iupdate
    | FreeDirect(s: nat) | DropDirect | OpenTable | FreeEntry | FreeTable | DropTable

  /** FreeingFree and OutOfBlocks are the panics of bfree and balloc. */
  datatype Out = Next(st: State) | Blocked | FreeingFree | OutOfBlocks

  function FirstFree(bits: seq<bool>, from: nat): (b: nat)
    requires from <= |bits|
    ensures from <= b <= |bits| && (b < |bits| ==> !bits[b]) && forall c :: from <= c < b ==> bits[c]
    decreases |bits| - from
  {
    if from == |bits| || !bits[from] then from else FirstFree(bits, from + 1)
  }

  predicate Shaped(st: State) {
    |st.bits| == |st.blocks| == st.sb.size <= WORDMAX && |st.disk| == |st.mem| == |st.pc|
  }

  function Bfree(st: State, i: nat, b: nat, pc: Pc): Out
    requires Shaped(st) && i < |st.pc|
  {
    if b >= |st.bits| then Blocked
    else if !st.bits[b] then FreeingFree
    else Next(st.(bits := st.bits[b := false], pc := st.pc[i := pc]))
  }

  function Exec(st: State, i: nat, a: Action): (o: Out)
    requires Shaped(st) && i < |st.pc|
    ensures o.Next? ==> Shaped(o.st) && |o.st.pc| == |st.pc| && o.st.sb == st.sb
  {
    var n := st.mem[i];
    var t := n.addrs[NDIRECT];
    match (st.pc[i], a)
    case (Unlocked, Lock) => Next(st.(pc := st.pc[i := Idle]))
    case (Idle, Unlock) => Next(st.(pc := st.pc[i := Unlocked]))
    case (Unlocked, Reload) => Next(st.(mem := st.mem[i := st.disk[i]]))
    case (Idle, Mark(s)) =>
      if s >= NSLOT || Ref(st.blocks, n, s) != 0 || (NDIRECT <= s < INDIRECT && t == 0) then Blocked
      else
        var b := FirstFree(st.bits, 0);
        if b == |st.bits| then OutOfBlocks
        else Next(st.(bits := st.bits[b := true], pc := st.pc[i := Marked(s, b)]))
    case (Marked(s, b), Zero) =>
      if b >= |st.blocks| then Blocked
      else Next(st.(blocks := st.blocks[b := ZeroBlock()], pc := st.pc[i := Zeroed(s, b)]))
    case (Zeroed(s, b), Store) =>
      if s >= NSLOT || b >= WORDMAX then Blocked
      else Next(st.(blocks := StoreBlock(st.blocks, n, s, b), mem := st.mem[i := StoreAddr(n, s, b)], pc := st.pc[i := Idle]))
    case (Idle, Data(s, data)) =>
      if s >= MAXFILE then Blocked
      else
        var b := Ref(st.blocks, n, s);
        if b == 0 || b >= |st.blocks| then Blocked else Next(st.(blocks := st.blocks[b := data]))
    case (Idle, Meta(n')) => if n'.addrs == n.addrs then Next(st.(mem := st.mem[i := n'])) else Blocked
    case (Idle, Iupdate) => Next(st.(disk := st.disk[i := n]))
    case (Idle, FreeDirect(s)) =>
      if s < NDIRECT && n.addrs[s] != 0 then Bfree(st, i, n.addrs[s], Freed(s)) else Blocked
    case (Freed(s), DropDirect) =>
      if s < NDIRECT then Next(st.(mem := st.mem[i := StoreAddr(n, s, 0)], pc := st.pc[i := Idle])) else Blocked
    case (Idle, OpenTable) => if t != 0 then Next(st.(pc := st.pc[i := Entries(0)])) else Blocked
    case (Entries(k), FreeEntry) =>
      if k >= NINDIRECT || t >= |st.blocks| then Blocked
      else if Word(st.blocks[t], k) == 0 then Next(st.(pc := st.pc[i := Entries(k + 1)]))
      else Bfree(st, i, Word(st.blocks[t], k), Entries(k + 1))
    case (Entries(k), FreeTable) => if k == NINDIRECT then Bfree(st, i, t, TableFreed) else Blocked
    case (TableFreed, DropTable) =>
      Next(st.(mem := st.mem[i := StoreAddr(n, INDIRECT, 0)], pc := st.pc[i := Idle]))
    case _ => Blocked
  }

  // ----- What the numbers in flight mean -----

  /** The inode without the number it still holds of a block it has freed. */
  function Current(n: Dinode, pc: Pc): Dinode {
    match pc
    case Freed(s) => if s < NDIRECT then StoreAddr(n, s, 0) else n
    case TableFreed => StoreAddr(n, INDIRECT, 0)
    case _ => n
  }

  /** A block that is marked and not stored belongs to an inode of its own. */
  function InFlight(pc: Pc): Dinode {
    if (pc.Marked? || pc.Zeroed?) && pc.b < WORDMAX then StoreAddr(NewInode(0, 0), 0, pc.b) else NewInode(0, 0)
  }

  ghost function Table(mem: seq<Dinode>, pc: seq<Pc>): (t: seq<Dinode>)
    requires |mem| == |pc|
    ensures |t| == 2 * |mem|
    ensures forall j :: 0 <= j < |mem| ==> t[j] == Current(mem[j], pc[j])
    ensures forall j :: 0 <= j < |mem| ==> t[|mem| + j] == InFlight(pc[j])
  {
    seq(|mem|, j requires 0 <= j < |mem| => Current(mem[j], pc[j]))
      + seq(|mem|, j requires 0 <= j < |mem| => InFlight(pc[j]))
  }

  ghost predicate Cutting(mem: seq<Dinode>, pc: seq<Pc>, i: nat, b: nat) {
    i < |mem| == |pc| && pc[i].Entries? && mem[i].addrs[NDIRECT] == b
  }

  ghost predicate NotCut(mem: seq<Dinode>, pc: seq<Pc>, b: nat) {
    forall i: nat :: !Cutting(mem, pc, i, b)
  }

  /** vb is the disk with the freed entries of indirect blocks under truncation cleared. */
  ghost predicate Cut(blocks: Disk, vb: Disk, mem: seq<Dinode>, pc: seq<Pc>) {
    && |vb| == |blocks| && |mem| == |pc|
    && (forall i :: 0 <= i < |pc| && pc[i].Entries? ==>
          && pc[i].k <= NINDIRECT && 0 < mem[i].addrs[NDIRECT] < |blocks|
          && vb[mem[i].addrs[NDIRECT]] == ClearedTo(blocks[mem[i].addrs[NDIRECT]], pc[i].k))
    && (forall b :: 0 <= b < |blocks| && NotCut(mem, pc, b) ==> vb[b] == blocks[b])
  }

  ghost predicate PcOk(vb: Disk, n: Dinode, pc: Pc) {
    match pc
    case Marked(s, b) => s < NSLOT && 0 < b < |vb| && Ref(vb, n, s) == 0 && (NDIRECT <= s < INDIRECT ==> n.addrs[NDIRECT] != 0)
    case Zeroed(s, b) =>
      && s < NSLOT && 0 < b < |vb| && Ref(vb, n, s) == 0 && (NDIRECT <= s < INDIRECT ==> n.addrs[NDIRECT] != 0)
      && vb[b] == ZeroBlock()
    case Freed(s) => s < NDIRECT
    case _ => true
  }

  /** In every state each block in use has one owner and the bitmap is exact. */
  ghost predicate Inv(st: State, owner: Owner, vb: Disk) {
    && Shaped(st) && Cut(st.blocks, vb, st.mem, st.pc)
    && OwnedBy(st.sb, owner, st.bits, vb, Table(st.mem, st.pc))
    && forall i :: 0 <= i < |st.pc| ==> PcOk(vb, st.mem[i], st.pc[i])
  }

  // ----- Facts about one state -----

  lemma Parts(st: State, owner: Owner, vb: Disk)
    requires Inv(st, owner, vb)
    ensures Shaped(st) && |vb| == |st.blocks| && OwnedBy(st.sb, owner, st.bits, vb, Table(st.mem, st.pc))
    ensures Cut(st.blocks, vb, st.mem, st.pc)
  {
  }

  lemma PcAt(st: State, owner: Owner, vb: Disk, i: nat)
    requires Inv(st, owner, vb) && i < |st.pc|
    ensures |st.pc| == |st.mem| == |st.disk| && PcOk(vb, st.mem[i], st.pc[i])
  {
  }

  /** The invariant of a state in which the process at inode i has moved. */
  lemma Moved(st: State, i: nat, st': State, owner': Owner, vb': Disk)
    requires Shaped(st) && Shaped(st') && i < |st.pc| == |st'.pc|
    requires forall j :: 0 <= j < |st.pc| && j != i ==>
               st'.pc[j] == st.pc[j] && st'.mem[j] == st.mem[j] && st'.disk[j] == st.disk[j]
    requires Cut(st'.blocks, vb', st'.mem, st'.pc)
    requires OwnedBy(st'.sb, owner', st'.bits, vb', Table(st'.mem, st'.pc))
    requires PcOk(vb', st'.mem[i], st'.pc[i])
    requires forall j :: 0 <= j < |st.pc| && j != i ==> PcOk(vb', st.mem[j], st.pc[j])
    ensures Inv(st', owner', vb')
  {
    hide OwnedBy;
    hide Cut;
    hide PcOk;
    hide Table;
    forall j | 0 <= j < |st'.pc| ensures PcOk(vb', st'.mem[j], st'.pc[j]) {
    }
  }

  lemma OthersSame(st: State, owner: Owner, vb: Disk)
    requires Inv(st, owner, vb)
    ensures |st.pc| == |st.mem| == |st.disk|
    ensures forall j :: 0 <= j < |st.pc| ==> PcOk(vb, st.mem[j], st.pc[j])
  {
  }

  lemma TableUpdate(mem: seq<Dinode>, pc: seq<Pc>, i: nat, n: Dinode, p: Pc)
    requires |mem| == |pc| && i < |mem|
    ensures Table(mem[i := n], pc[i := p]) == Table(mem, pc)[i := Current(n, p)][|mem| + i := InFlight(p)]
    ensures Table(mem, pc)[i] == Current(mem[i], pc[i]) && Table(mem, pc)[|mem| + i] == InFlight(pc[i])
  {
    hide Current;
    hide InFlight;
  }

  lemma FlightUpdate(st: State, i: nat, p: Pc)
    requires Shaped(st) && i < |st.pc| && Current(st.mem[i], p) == Current(st.mem[i], st.pc[i])
    ensures Table(st.mem, st.pc)[|st.pc| + i] == InFlight(st.pc[i])
    ensures Table(st.mem, st.pc[i := p]) == Table(st.mem, st.pc)[|st.pc| + i := InFlight(p)]
  {
    hide Current;
    hide InFlight;
    hide Table;
    TableUpdate(st.mem, st.pc, i, st.mem[i], p);
    assert st.mem[i := st.mem[i]] == st.mem;
    var t := Table(st.mem, st.pc);
    assert t[i := t[i]] == t;
  }

  lemma CurrentUpdate(st: State, i: nat, n: Dinode, p: Pc)
    requires Shaped(st) && i < |st.pc| && InFlight(p) == InFlight(st.pc[i])
    ensures Table(st.mem, st.pc)[i] == Current(st.mem[i], st.pc[i])
    ensures Table(st.mem[i := n], st.pc[i := p]) == Table(st.mem, st.pc)[i := Current(n, p)]
    ensures n == st.mem[i] ==> Table(st.mem, st.pc[i := p]) == Table(st.mem, st.pc)[i := Current(n, p)]
    ensures p == st.pc[i] ==> Table(st.mem[i := n], st.pc) == Table(st.mem, st.pc)[i := Current(n, p)]
  {
    hide Current;
    hide InFlight;
    hide Table;
    TableUpdate(st.mem, st.pc, i, n, p);
    assert n == st.mem[i] ==> st.mem[i := n] == st.mem;
    assert p == st.pc[i] ==> st.pc[i := p] == st.pc;
    var t, k := Table(st.mem, st.pc)[i := Current(n, p)], |st.pc| + i;
    assert t[k := t[k]] == t;
  }

  lemma InFlightRefs(vb: Disk, p: Pc)
    ensures forall s :: 0 < s < NSLOT ==> Ref(vb, InFlight(p), s) == 0
    ensures Ref(vb, InFlight(p), 0) == if (p.Marked? || p.Zeroed?) && p.b < WORDMAX then p.b else 0
  {
  }

  /** A reference of a table is not a block that somebody else owns. */
  lemma RefApart(sb: Super, owner: Owner, bits: seq<bool>, vb: Disk, table: seq<Dinode>, c: nat, k: nat)
    requires OwnedBy(sb, owner, bits, vb, table) && k < |table| && c in owner && owner[c].0 != k
    ensures 0 < c < |vb| <= WORDMAX
    ensures forall s :: 0 <= s < NSLOT ==> Ref(vb, table[k], s) != c
  {
    hide Ref;
  }

  /** What an owner's block number is not: 0, or a number held by somebody else. */
  lemma OwnedApart(st: State, owner: Owner, vb: Disk, i: nat, c: nat, j: nat)
    requires Inv(st, owner, vb) && i < |st.pc| && j < |st.pc| == |st.mem| && j != i
    requires c in owner && (owner[c].0 == i || owner[c].0 == |st.pc| + i)
    ensures 0 < c < |vb| <= WORDMAX
    ensures Current(st.mem[j], st.pc[j]).addrs[NDIRECT] != c
    ensures (st.pc[j].Marked? || st.pc[j].Zeroed?) && st.pc[j].b < WORDMAX ==> st.pc[j].b != c
    ensures forall s :: 0 <= s < NSLOT ==> Ref(vb, Current(st.mem[j], st.pc[j]), s) != c
  {
    hide Inv;
    hide OwnedBy;
    hide Current;
    hide Word;
    Parts(st, owner, vb);
    var t := Table(st.mem, st.pc);
    RefApart(st.sb, owner, st.bits, vb, t, c, j);
    RefApart(st.sb, owner, st.bits, vb, t, c, |st.pc| + j);
    assert Ref(vb, t[j], INDIRECT) == t[j].addrs[NDIRECT];
    InFlightRefs(vb, st.pc[j]);
  }

  /** The indirect block of an inode that is not truncating is the one on disk. */
  lemma TableOnDisk(st: State, owner: Owner, vb: Disk, i: nat)
    requires Inv(st, owner, vb) && i < |st.pc| == |st.mem| && !st.pc[i].Entries? && !st.pc[i].TableFreed?
    ensures var t := st.mem[i].addrs[NDIRECT];
            t < |vb| == |st.blocks| && (t != 0 ==> vb[t] == st.blocks[t] && t in owner && owner[t] == (i, INDIRECT))
    ensures forall s :: 0 <= s < NSLOT ==> Ref(st.blocks, st.mem[i], s) == Ref(vb, st.mem[i], s)
  {
    hide Word;
    hide Inv;
    hide OwnedBy;
    hide Current;
    hide InFlight;
    hide Ref;
    hide ClearedTo;
    Parts(st, owner, vb);
    var t := st.mem[i].addrs[NDIRECT];
    var table := Table(st.mem, st.pc);
    CurrentTable(st.mem[i], st.pc[i]);
    TableInRange(st.sb, owner, st.bits, vb, table, i);
    if t != 0 {
      TablesApart(st.sb, owner, st.bits, vb, table, i);
      TableOwned(st.sb, owner, st.bits, vb, table, i);
      forall j: nat ensures !Cutting(st.mem, st.pc, j, t) {
        if j < |st.pc| && j != i && st.pc[j].Entries? {
          CurrentTable(st.mem[j], st.pc[j]);
        }
      }
    }
    SameRefs(st.blocks, vb, st.mem[i]);
  }

  lemma TableOwned(sb: Super, owner: Owner, bits: seq<bool>, vb: Disk, table: seq<Dinode>, i: nat)
    requires OwnedBy(sb, owner, bits, vb, table) && i < |table| && table[i].addrs[NDIRECT] != 0
    ensures table[i].addrs[NDIRECT] in owner && owner[table[i].addrs[NDIRECT]] == (i, INDIRECT)
  {
    hide Word;
    assert Ref(vb, table[i], INDIRECT) == table[i].addrs[NDIRECT];
  }

  lemma RefOwned(sb: Super, owner: Owner, bits: seq<bool>, vb: Disk, table: seq<Dinode>, i: nat, s: nat)
    requires OwnedBy(sb, owner, bits, vb, table) && i < |table| && s < NSLOT && Ref(vb, table[i], s) != 0
    ensures Ref(vb, table[i], s) in owner && owner[Ref(vb, table[i], s)] == (i, s)
  {
    hide Ref;
  }

  lemma PcStays(vb: Disk, vb': Disk, c: nat, n: Dinode, p: Pc)
    requires PcOk(vb, n, p) && |vb'| == |vb| <= WORDMAX && Current(n, p).addrs[NDIRECT] != c
    requires (p.Marked? || p.Zeroed?) && p.b < WORDMAX ==> p.b != c
    requires forall b :: 0 <= b < |vb| && b != c ==> vb'[b] == vb[b]
    ensures PcOk(vb', n, p)
  {
    hide Word;
  }

  /** A write to a block of inode i leaves the other processes where they are. */
  lemma OthersStay(st: State, owner: Owner, vb: Disk, vb': Disk, i: nat, c: nat)
    requires Inv(st, owner, vb) && i < |st.pc| == |st.mem| == |st.disk| && |vb'| == |vb|
    requires c in owner && (owner[c].0 == i || owner[c].0 == |st.pc| + i)
    requires forall b :: 0 <= b < |vb| && b != c ==> vb'[b] == vb[b]
    ensures forall j :: 0 <= j < |st.pc| && j != i ==> PcOk(vb', st.mem[j], st.pc[j])
  {
    hide Inv;
    hide PcOk;
    hide Current;
    hide Ref;
    forall j | 0 <= j < |st.pc| && j != i
      ensures PcOk(vb', st.mem[j], st.pc[j])
    {
      OwnedApart(st, owner, vb, i, c, j);
      PcAt(st, owner, vb, j);
      PcStays(vb, vb', c, st.mem[j], st.pc[j]);
    }
  }

  lemma OwnedRange(sb: Super, owner: Owner, bits: seq<bool>, vb: Disk, table: seq<Dinode>, c: nat)
    requires OwnedBy(sb, owner, bits, vb, table) && c in owner
    ensures 0 < c < |vb|
  {
    hide Ref;
  }

  lemma NotCutBack(mem: seq<Dinode>, pc: seq<Pc>, i: nat, n: Dinode, p: Pc, b: nat)
    requires |mem| == |pc| && i < |mem| && NotCut(mem[i := n], pc[i := p], b)
    requires !pc[i].Entries? || mem[i].addrs[NDIRECT] != b
    ensures NotCut(mem, pc, b)
  {
    forall j: nat ensures !Cutting(mem, pc, j, b) {
      assert !Cutting(mem[i := n], pc[i := p], j, b);
    }
  }

  /** So does Cut, if both disks get the same write and no truncating inode's table is hit. */
  lemma CutWrite(st: State, owner: Owner, vb: Disk, i: nat, c: nat, d: Block, n: Dinode, p: Pc)
    requires Inv(st, owner, vb) && i < |st.pc| && !st.pc[i].Entries? && !p.Entries?
    requires c in owner && (owner[c].0 == i || owner[c].0 == |st.pc| + i) && |st.mem| == |st.pc|
    ensures c < |vb| == |st.blocks| && Cut(st.blocks[c := d], vb[c := d], st.mem[i := n], st.pc[i := p])
  {
    hide Inv;
    hide Ref;
    hide OwnedBy;
    hide ClearedTo;
    hide NotCut;
    hide Table;
    Parts(st, owner, vb);
    OwnedRange(st.sb, owner, st.bits, vb, Table(st.mem, st.pc), c);
    var mem', pc' := st.mem[i := n], st.pc[i := p];
    forall j | 0 <= j < |pc'| && pc'[j].Entries? ensures mem'[j].addrs[NDIRECT] != c {
      OwnedApart(st, owner, vb, i, c, j);
    }
    forall b | 0 <= b < |vb| && NotCut(mem', pc', b) ensures NotCut(st.mem, st.pc, b) {
      NotCutBack(st.mem, st.pc, i, n, p, b);
    }
  }

  lemma CutSame(st: State, owner: Owner, vb: Disk, i: nat, n: Dinode, p: Pc)
    requires Inv(st, owner, vb) && i < |st.pc| == |st.mem| && !st.pc[i].Entries? && !p.Entries?
    ensures Cut(st.blocks, vb, st.mem[i := n], st.pc[i := p])
  {
    hide Inv;
    hide OwnedBy;
    hide ClearedTo;
    hide NotCut;
    Parts(st, owner, vb);
    var mem', pc' := st.mem[i := n], st.pc[i := p];
    forall b | 0 <= b < |vb| && NotCut(mem', pc', b) ensures NotCut(st.mem, st.pc, b) {
      NotCutBack(st.mem, st.pc, i, n, p, b);
    }
  }

  // ----- The steps -----

  lemma PcMarked(vb: Disk, n: Dinode, s: nat, b: nat)
    requires s < NSLOT && 0 < b < |vb| && Ref(vb, n, s) == 0 && (NDIRECT <= s < INDIRECT ==> n.addrs[NDIRECT] != 0)
    ensures PcOk(vb, n, Marked(s, b)) && (vb[b] == ZeroBlock() ==> PcOk(vb, n, Zeroed(s, b)))
  {
  }

  /** A marked block belongs to the inode in flight. */
  lemma MarkOwned(sb: Super, owner: Owner, bits: seq<bool>, vb: Disk, table: seq<Dinode>, k: nat, p: Pc, p': Pc)
    requires OwnedBy(sb, owner, bits, vb, table) && k < |table| && table[k] == InFlight(p) && p.Idle?
    requires p'.Marked? && p'.b < |bits| && !bits[p'.b]
    ensures 0 < p'.b < |vb| && OwnedBy(sb, owner[p'.b := (k, 0)], bits[p'.b := true], vb, table[k := InFlight(p')])
  {
    hide Ref;
    hide RefsOwned;
    hide OwnersRefer;
    hide InFlight;
    InFlightRefs(vb, p);
    InFlightRefs(vb, p');
    FillSlot(sb, owner, bits, vb, table, vb, table[k := InFlight(p')], k, 0, p'.b);
  }

  lemma MarkStep(st: State, owner: Owner, vb: Disk, i: nat, s: nat, b: nat) returns (owner': Owner)
    requires Shaped(st) && i < |st.pc| && st.pc[i].Idle? && s < NSLOT && b < |st.bits| && !st.bits[b]
    requires Ref(st.blocks, st.mem[i], s) == 0 && (NDIRECT <= s < INDIRECT ==> st.mem[i].addrs[NDIRECT] != 0)
    requires Inv(st, owner, vb)
    ensures Inv(st.(bits := st.bits[b := true], pc := st.pc[i := Marked(s, b)]), owner', vb)
  {
    hide Inv;
    hide Table;
    hide Ref;
    hide OwnedBy;
    hide Cut;
    hide PcOk;
    hide InFlight;
    Parts(st, owner, vb);
    var n, p := |st.pc|, Marked(s, b);
    TableOnDisk(st, owner, vb, i);
    FlightUpdate(st, i, p);
    MarkOwned(st.sb, owner, st.bits, vb, Table(st.mem, st.pc), n + i, st.pc[i], p);
    owner' := owner[b := (n + i, 0)];
    CutSame(st, owner, vb, i, st.mem[i], p);
    assert st.mem[i := st.mem[i]] == st.mem;
    OthersSame(st, owner, vb);
    PcMarked(vb, st.mem[i], s, b);
    Moved(st, i, st.(bits := st.bits[b := true], pc := st.pc[i := p]), owner', vb);
  }

  lemma InFlightSame(s: nat, b: nat)
    ensures InFlight(Marked(s, b)) == InFlight(Zeroed(s, b))
  {
  }

  lemma ZeroStep(st: State, owner: Owner, vb: Disk, i: nat) returns (vb': Disk)
    requires Shaped(st) && i < |st.pc| && st.pc[i].Marked? && Inv(st, owner, vb)
    ensures var b := st.pc[i].b;
            b < |st.blocks| && Inv(st.(blocks := st.blocks[b := ZeroBlock()], pc := st.pc[i := Zeroed(st.pc[i].s, b)]), owner, vb')
  {
    hide Inv;
    hide Table;
    hide Word;
    hide OwnedBy;
    hide Cut;
    hide OthersKept;
    hide Byte;
    hide InFlight;
    hide Ref;
    Parts(st, owner, vb);
    PcAt(st, owner, vb, i);
    var n, s, b := |st.pc|, st.pc[i].s, st.pc[i].b;
    var table := Table(st.mem, st.pc);
    InFlightRefs(vb, st.pc[i]);
    InFlightSame(s, b);
    SamePc(st, i, Zeroed(s, b));
    assert st.mem[i := st.mem[i]] == st.mem;
    RefOwned(st.sb, owner, st.bits, vb, table, n + i, 0);
    DataWrite(st.sb, owner, st.bits, vb, table, n + i, 0, ZeroBlock());
    assert table[i] == st.mem[i];
    vb' := vb[b := ZeroBlock()];
    OthersStay(st, owner, vb, vb', i, b);
    CutWrite(st, owner, vb, i, b, ZeroBlock(), st.mem[i], Zeroed(s, b));
    Moved(st, i, st.(blocks := st.blocks[b := ZeroBlock()], pc := st.pc[i := Zeroed(s, b)]), owner, vb');
  }

  lemma ClearedFlight(s: nat, b: nat)
    requires 0 < b < WORDMAX
    ensures StoreAddr(InFlight(Zeroed(s, b)), 0, 0) == InFlight(Idle) && InFlight(Zeroed(s, b)).addrs[0] == b
    ensures InFlight(Idle) == InFlight(Unlocked) == InFlight(TableFreed)
  {
    assert StoreAddr(InFlight(Zeroed(s, b)), 0, 0).addrs == NewInode(0, 0).addrs;
  }

  /** Storing a zeroed block's number hands it over from the inode in flight. */
  lemma StoreOwned(sb: Super, owner: Owner, bits: seq<bool>, vb: Disk, table: seq<Dinode>, i: nat, k: nat, s: nat, b: nat)
    requires OwnedBy(sb, owner, bits, vb, table) && i < |table| && k < |table| && i != k && s < NSLOT && 0 < b < |vb| <= WORDMAX
    requires table[k] == InFlight(Zeroed(s, b)) && vb[b] == ZeroBlock() && Ref(vb, table[i], s) == 0
    requires NDIRECT <= s < INDIRECT ==> table[i].addrs[NDIRECT] != 0
    ensures OwnedBy(sb, owner[b := (i, s)], bits, StoreBlock(vb, table[i], s, b),
                    table[k := InFlight(Idle)][i := StoreAddr(table[i], s, b)])
  {
    hide Ref;
    hide RefsOwned;
    hide OwnersRefer;
    hide InFlight;
    hide StoreAddr;
    hide StoreBlock;
    hide ZeroBlock;
    ClearedFlight(s, b);
    ClearDirect(sb, owner, bits, vb, table, k, 0);
    var table1 := table[k := InFlight(Idle)];
    AllocSlot(sb, owner - {b}, bits[b := false], vb, table1, i, s, b);
    assert vb[b := ZeroBlock()] == vb && bits[b := false][b := true] == bits;
    assert (owner - {b})[b := (i, s)] == owner[b := (i, s)];
  }

  lemma StoreStep(st: State, owner: Owner, vb: Disk, i: nat) returns (owner': Owner, vb': Disk)
    requires Shaped(st) && i < |st.pc| && st.pc[i].Zeroed? && Inv(st, owner, vb)
    ensures var s, b := st.pc[i].s, st.pc[i].b;
            && s < NSLOT && b < WORDMAX
            && Inv(st.(blocks := StoreBlock(st.blocks, st.mem[i], s, b), mem := st.mem[i := StoreAddr(st.mem[i], s, b)],
                       pc := st.pc[i := Idle]), owner', vb')
  {
    hide Inv;
    hide Table;
    hide Ref;
    hide OwnedBy;
    hide Cut;
    hide InFlight;
    hide StoreAddr;
    hide SetWord;
    Parts(st, owner, vb);
    PcAt(st, owner, vb, i);
    var k, s, b, n := |st.pc| + i, st.pc[i].s, st.pc[i].b, st.mem[i];
    var n' := StoreAddr(n, s, b);
    TableOnDisk(st, owner, vb, i);
    TableUpdate(st.mem, st.pc, i, n', Idle);
    StoreOwned(st.sb, owner, st.bits, vb, Table(st.mem, st.pc), i, k, s, b);
    owner', vb' := owner[b := (i, s)], StoreBlock(vb, n, s, b);
    assert Table(st.mem[i := n'], st.pc[i := Idle]) == Table(st.mem, st.pc)[k := InFlight(Idle)][i := n'];
    if NDIRECT <= s < INDIRECT {
      var t := n.addrs[NDIRECT];
      CutWrite(st, owner, vb, i, t, SetWord(vb[t], s - NDIRECT, b), n', Idle);
      OthersStay(st, owner, vb, vb', i, t);
    } else {
      CutSame(st, owner, vb, i, n', Idle);
      OthersSame(st, owner, vb);
    }
    assert PcOk(vb', n', Idle);
    hide PcOk;
    hide StoreBlock;
    Moved(st, i, st.(blocks := StoreBlock(st.blocks, n, s, b), mem := st.mem[i := n'], pc := st.pc[i := Idle]), owner', vb');
  }

  lemma DataStep(st: State, owner: Owner, vb: Disk, i: nat, s: nat, data: Block) returns (vb': Disk)
    requires Shaped(st) && i < |st.pc| && st.pc[i].Idle? && s < MAXFILE && Ref(st.blocks, st.mem[i], s) != 0 && Inv(st, owner, vb)
    ensures var b := Ref(st.blocks, st.mem[i], s);
            b < |st.blocks| && Inv(st.(blocks := st.blocks[b := data]), owner, vb')
  {
    hide Inv;
    hide Table;
    hide Ref;
    hide OwnedBy;
    hide Cut;
    hide InFlight;
    hide OthersKept;
    hide Byte;
    hide PcOk;
    Parts(st, owner, vb);
    var table := Table(st.mem, st.pc);
    TableOnDisk(st, owner, vb, i);
    var b := Ref(st.blocks, st.mem[i], s);
    RefOwned(st.sb, owner, st.bits, vb, table, i, s);
    DataWrite(st.sb, owner, st.bits, vb, table, i, s, data);
    vb' := vb[b := data];
    CutWrite(st, owner, vb, i, b, data, st.mem[i], Idle);
    OthersStay(st, owner, vb, vb', i, b);
    assert st.mem[i := st.mem[i]] == st.mem && st.pc[i := Idle] == st.pc;
    PcIdle(vb', st.mem[i]);
    Moved(st, i, st.(blocks := st.blocks[b := data]), owner, vb');
  }

  lemma PcIdle(vb: Disk, n: Dinode)
    ensures PcOk(vb, n, Idle) && PcOk(vb, n, TableFreed) && PcOk(vb, n, Unlocked)
    ensures forall s :: 0 <= s < NDIRECT ==> PcOk(vb, n, Freed(s))
    ensures forall k :: 0 <= k ==> PcOk(vb, n, Entries(k))
  {
  }

  // ----- Truncation -----

  lemma FreeDirectStep(st: State, owner: Owner, vb: Disk, i: nat, s: nat) returns (owner': Owner)
    requires Shaped(st) && i < |st.pc| && st.pc[i].Idle? && s < NDIRECT && st.mem[i].addrs[s] != 0 && Inv(st, owner, vb)
    ensures var b := st.mem[i].addrs[s];
            && b < |st.bits| && st.bits[b]
            && Inv(st.(bits := st.bits[b := false], pc := st.pc[i := Freed(s)]), owner', vb)
  {
    hide Inv;
    hide Table;
    hide Ref;
    hide OwnedBy;
    hide Cut;
    hide InFlight;
    hide PcOk;
    hide StoreAddr;
    Parts(st, owner, vb);
    var b := st.mem[i].addrs[s];
    NoFlight(Freed(s));
    ClearDirect(st.sb, owner, st.bits, vb, Table(st.mem, st.pc), i, s);
    CurrentUpdate(st, i, st.mem[i], Freed(s));
    assert st.mem[i := st.mem[i]] == st.mem;
    owner' := owner - {b};
    CutSame(st, owner, vb, i, st.mem[i], Freed(s));
    OthersSame(st, owner, vb);
    PcIdle(vb, st.mem[i]);
    Moved(st, i, st.(bits := st.bits[b := false], pc := st.pc[i := Freed(s)]), owner', vb);
  }

  lemma NoFlight(p: Pc)
    requires !p.Marked? && !p.Zeroed?
    ensures InFlight(p) == InFlight(Idle)
  {
  }

  /** A step that leaves the current inodes as they are. */
  lemma SilentStep(st: State, owner: Owner, vb: Disk, i: nat, n: Dinode, m: Dinode, p: Pc)
    requires Shaped(st) && i < |st.pc| && Inv(st, owner, vb) && Current(n, p) == Current(st.mem[i], st.pc[i])
    requires !st.pc[i].Entries? && !p.Entries? && !st.pc[i].Marked? && !p.Marked? && !st.pc[i].Zeroed? && !p.Zeroed?
    requires PcOk(vb, n, p)
    ensures Inv(st.(mem := st.mem[i := n], disk := st.disk[i := m], pc := st.pc[i := p]), owner, vb)
  {
    hide Inv;
    hide Table;
    hide OwnedBy;
    hide Cut;
    hide InFlight;
    hide PcOk;
    hide Current;
    Parts(st, owner, vb);
    NoFlight(st.pc[i]);
    NoFlight(p);
    CurrentUpdate(st, i, n, p);
    var t := Table(st.mem, st.pc);
    assert t[i := t[i]] == t;
    CutSame(st, owner, vb, i, n, p);
    OthersSame(st, owner, vb);
    Moved(st, i, st.(mem := st.mem[i := n], disk := st.disk[i := m], pc := st.pc[i := p]), owner, vb);
  }

  lemma MetaStep(st: State, owner: Owner, vb: Disk, i: nat, n: Dinode)
    requires Shaped(st) && i < |st.pc| && st.pc[i].Idle? && n.addrs == st.mem[i].addrs && Inv(st, owner, vb)
    ensures Inv(st.(mem := st.mem[i := n]), owner, vb)
  {
    hide Inv;
    hide Table;
    hide OwnedBy;
    hide Cut;
    hide InFlight;
    hide PcOk;
    Parts(st, owner, vb);
    FileSystem.SizeOnly(st.sb, owner, st.bits, vb, Table(st.mem, st.pc), i, n);
    CurrentUpdate(st, i, n, Idle);
    assert st.pc[i := Idle] == st.pc;
    CutSame(st, owner, vb, i, n, Idle);
    OthersSame(st, owner, vb);
    PcIdle(vb, n);
    Moved(st, i, st.(mem := st.mem[i := n]), owner, vb);
  }

  /** Progress on the indirect block of inode i. */
  lemma CutTable(st: State, owner: Owner, vb: Disk, i: nat, d: Block, p: Pc)
    requires Shaped(st) && i < |st.pc| && Inv(st, owner, vb)
    requires var t := st.mem[i].addrs[NDIRECT];
             && t in owner && owner[t] == (i, INDIRECT) && 0 < t < |st.blocks|
             && (p.Entries? ==> p.k <= NINDIRECT && d == ClearedTo(st.blocks[t], p.k)) && (!p.Entries? ==> d == st.blocks[t])
    ensures var t := st.mem[i].addrs[NDIRECT];
            t < |vb| && Cut(st.blocks, vb[t := d], st.mem, st.pc[i := p])
  {
    hide Inv;
    hide Ref;
    hide OwnedBy;
    hide ClearedTo;
    hide Current;
    hide Table;
    Parts(st, owner, vb);
    var t, pc' := st.mem[i].addrs[NDIRECT], st.pc[i := p];
    var vb' := vb[t := d];
    forall j | 0 <= j < |pc'| && pc'[j].Entries? && j != i ensures st.mem[j].addrs[NDIRECT] != t {
      OwnedApart(st, owner, vb, i, t, j);
      CurrentTable(st.mem[j], st.pc[j]);
    }
    assert st.mem[i := st.mem[i]] == st.mem;
    forall b | 0 <= b < |vb| && NotCut(st.mem, pc', b) && b != t ensures NotCut(st.mem, st.pc, b) {
      NotCutBack(st.mem, st.pc, i, st.mem[i], p, b);
    }
    assert NotCut(st.mem, pc', t) && p.Entries? ==> !Cutting(st.mem, pc', i, t);
  }

  lemma CurrentTable(n: Dinode, p: Pc)
    requires !p.TableFreed?
    ensures Current(n, p).addrs[NDIRECT] == n.addrs[NDIRECT] && (!p.Freed? ==> Current(n, p) == n)
  {
  }

  lemma OpenStep(st: State, owner: Owner, vb: Disk, i: nat)
    requires Shaped(st) && i < |st.pc| && st.pc[i].Idle? && st.mem[i].addrs[NDIRECT] != 0 && Inv(st, owner, vb)
    ensures Inv(st.(pc := st.pc[i := Entries(0)]), owner, vb)
  {
    hide Inv;
    hide Table;
    hide OwnedBy;
    hide Cut;
    hide InFlight;
    hide PcOk;
    hide ClearedTo;
    hide Ref;
    Parts(st, owner, vb);
    TableOnDisk(st, owner, vb, i);
    var t := st.mem[i].addrs[NDIRECT];
    CutTable(st, owner, vb, i, st.blocks[t], Entries(0));
    assert vb[t := st.blocks[t]] == vb;
    NoFlight(Entries(0));
    SamePc(st, i, Entries(0));
    OthersSame(st, owner, vb);
    PcIdle(vb, st.mem[i]);
    Moved(st, i, st.(pc := st.pc[i := Entries(0)]), owner, vb);
  }

  /** The indirect block under truncation, cleared in vb as far as it is freed. */
  lemma CutAt(st: State, owner: Owner, vb: Disk, i: nat)
    requires Shaped(st) && i < |st.pc| && st.pc[i].Entries? && Inv(st, owner, vb)
    ensures var t := st.mem[i].addrs[NDIRECT];
            && 0 < t < |vb| == |st.blocks| && t in owner && owner[t] == (i, INDIRECT)
            && st.pc[i].k <= NINDIRECT && vb[t := st.blocks[t]][t := ClearedTo(st.blocks[t], st.pc[i].k)] == vb
  {
    hide Inv;
    hide OwnedBy;
    hide ClearedTo;
    Parts(st, owner, vb);
    TableOwned(st.sb, owner, st.bits, vb, Table(st.mem, st.pc), i);
  }

  /** Freeing entry k of the indirect block d of inode i, in vb cleared up to k. */
  lemma EntryOwned(sb: Super, owner: Owner, bits: seq<bool>, vb: Disk, table: seq<Dinode>, i: nat, d: Block, k: nat)
      returns (owner': Owner)
    requires OwnedBy(sb, owner, bits, vb, table) && i < |table| && 0 < table[i].addrs[NDIRECT] < |vb| && k < NINDIRECT
    requires var t := table[i].addrs[NDIRECT]; vb[t := d][t := ClearedTo(d, k)] == vb
    ensures var b := Word(d, k);
            && b < |bits| && (b != 0 ==> bits[b])
            && OwnedBy(sb, owner', if b == 0 then bits else bits[b := false], vb[table[i].addrs[NDIRECT] := ClearedTo(d, k + 1)], table)
  {
    hide RefsOwned;
    hide OwnersRefer;
    hide ClearedTo;
    hide Word;
    hide Ref;
    var t, b := table[i].addrs[NDIRECT], Word(d, k);
    ClearEntry(sb, owner, bits, vb[t := d], table, i, k);
    assert vb[t := d][t := ClearedTo(d, k + 1)] == vb[t := ClearedTo(d, k + 1)];
    owner' := if b == 0 then owner else owner - {b};
  }

  lemma SamePc(st: State, i: nat, p: Pc)
    requires Shaped(st) && i < |st.pc| && Current(st.mem[i], p) == Current(st.mem[i], st.pc[i]) && InFlight(p) == InFlight(st.pc[i])
    ensures Table(st.mem, st.pc[i := p]) == Table(st.mem, st.pc)
  {
    hide Current;
    hide InFlight;
    hide Table;
    CurrentUpdate(st, i, st.mem[i], p);
    var t := Table(st.mem, st.pc);
    assert t[i := t[i]] == t;
  }

  /** An entry that is not 0 is marked in the bitmap when it is freed. */
  lemma EntryStep(st: State, owner: Owner, vb: Disk, i: nat) returns (owner': Owner, vb': Disk)
    requires Shaped(st) && i < |st.pc| && st.pc[i].Entries? && st.pc[i].k < NINDIRECT && Inv(st, owner, vb)
    ensures var t, p := st.mem[i].addrs[NDIRECT], Entries(st.pc[i].k + 1);
            && t < |st.blocks|
            && var b := Word(st.blocks[t], st.pc[i].k);
               && b < |st.bits| && (b != 0 ==> st.bits[b])
               && Inv(st.(bits := if b == 0 then st.bits else st.bits[b := false], pc := st.pc[i := p]), owner', vb')
  {
    hide Inv;
    hide OwnedBy;
    hide Cut;
    hide InFlight;
    hide PcOk;
    hide ClearedTo;
    hide Ref;
    hide Word;
    hide Table;
    Parts(st, owner, vb);
    CutAt(st, owner, vb, i);
    var t, k := st.mem[i].addrs[NDIRECT], st.pc[i].k;
    var p, d := Entries(k + 1), ClearedTo(st.blocks[t], k + 1);
    owner' := EntryOwned(st.sb, owner, st.bits, vb, Table(st.mem, st.pc), i, st.blocks[t], k);
    vb' := vb[t := d];
    CutTable(st, owner, vb, i, d, p);
    NoFlight(p);
    NoFlight(st.pc[i]);
    SamePc(st, i, p);
    OthersStay(st, owner, vb, vb', i, t);
    PcIdle(vb', st.mem[i]);
    var b := Word(st.blocks[t], k);
    Moved(st, i, st.(bits := if b == 0 then st.bits else st.bits[b := false], pc := st.pc[i := p]), owner', vb');
  }

  lemma FreeTableStep(st: State, owner: Owner, vb: Disk, i: nat) returns (owner': Owner, vb': Disk)
    requires Shaped(st) && i < |st.pc| && st.pc[i] == Entries(NINDIRECT) && Inv(st, owner, vb)
    ensures var t := st.mem[i].addrs[NDIRECT];
            && t < |st.bits| && st.bits[t]
            && Inv(st.(bits := st.bits[t := false], pc := st.pc[i := TableFreed]), owner', vb')
  {
    hide Inv;
    hide Table;
    hide OwnedBy;
    hide Cut;
    hide InFlight;
    hide PcOk;
    hide ClearedTo;
    hide Ref;
    hide StoreAddr;
    Parts(st, owner, vb);
    CutAt(st, owner, vb, i);
    var t, table := st.mem[i].addrs[NDIRECT], Table(st.mem, st.pc);
    vb' := vb[t := st.blocks[t]];
    ClearTable(st.sb, owner, st.bits, vb', table, i);
    owner' := owner - {t};
    CutTable(st, owner, vb, i, st.blocks[t], TableFreed);
    NoFlight(TableFreed);
    NoFlight(st.pc[i]);
    CurrentUpdate(st, i, st.mem[i], TableFreed);
    OthersStay(st, owner, vb, vb', i, t);
    PcIdle(vb', st.mem[i]);
    Moved(st, i, st.(bits := st.bits[t := false], pc := st.pc[i := TableFreed]), owner', vb');
  }

  // ----- Every action, every run -----

  lemma {:induction false} CutUnique(st: State, vb: Disk, vb': Disk, i: nat, n: Dinode)
    requires Shaped(st) && i < |st.pc| && st.pc[i].Unlocked?
    requires Cut(st.blocks, vb, st.mem, st.pc) && Cut(st.blocks, vb', st.mem[i := n], st.pc)
    ensures vb' == vb
  {
    hide ClearedTo;
    var mem' := st.mem[i := n];
    forall b | 0 <= b < |vb| ensures vb'[b] == vb[b] {
      if j: nat :| Cutting(st.mem, st.pc, j, b) {
        assert j != i;
      } else {
        forall j: nat ensures !Cutting(mem', st.pc, j, b) {
          assert !Cutting(st.mem, st.pc, j, b);
        }
        assert NotCut(st.mem, st.pc, b) && NotCut(mem', st.pc, b);
      }
    }
  }

  /** No truncation is at work on a block that inode i owns, so it reads the same on the disk. */
  lemma OwnedUncut(st: State, owner: Owner, vb: Disk, i: nat, t: nat)
    requires Inv(st, owner, vb) && i < |st.pc| == |st.mem| && st.pc[i].Unlocked? && t in owner && owner[t].0 == i
    ensures 0 < t < |vb| == |st.blocks| && vb[t] == st.blocks[t]
  {
    hide Inv;
    hide OwnedBy;
    hide Ref;
    hide ClearedTo;
    hide Current;
    Parts(st, owner, vb);
    OwnedRange(st.sb, owner, st.bits, vb, Table(st.mem, st.pc), t);
    forall j: nat ensures !Cutting(st.mem, st.pc, j, t) {
      if j < |st.pc| && j != i {
        OwnedApart(st, owner, vb, i, t, j);
        if !st.pc[j].TableFreed? {
          CurrentTable(st.mem[j], st.pc[j]);
        }
      }
    }
  }

  lemma SameRefs(blocks: Disk, vb: Disk, n: Dinode)
    requires |vb| == |blocks| && (n.addrs[NDIRECT] == 0 || n.addrs[NDIRECT] >= |vb| || vb[n.addrs[NDIRECT]] == blocks[n.addrs[NDIRECT]])
    ensures forall s :: 0 <= s < NSLOT ==> Ref(vb, n, s) == Ref(blocks, n, s)
  {
    hide Word;
  }

  lemma SameBlocksOn(blocks: Disk, vb: Disk, n: Dinode, m: Dinode)
    requires forall s :: 0 <= s < NSLOT ==> Ref(vb, n, s) == Ref(blocks, n, s)
    requires forall s :: 0 <= s < NSLOT ==> Ref(vb, m, s) == Ref(blocks, m, s)
    ensures SameBlocks(blocks, n, m) <==> SameBlocks(vb, n, m)
  {
    hide Ref;
    forall b: nat ensures Refers(blocks, n, b) == Refers(vb, n, b) && Refers(blocks, m, b) == Refers(vb, m, b) {
    }
  }

  /** The indirect block of a copy that refers to blocks of inode i is the one on disk. */
  lemma CopyUncut(st: State, owner: Owner, vb: Disk, i: nat, m: Dinode)
    requires Inv(st, owner, vb) && i < |st.pc| == |st.mem| && st.pc[i].Unlocked? && SameBlocks(st.blocks, st.mem[i], m)
    ensures |vb| == |st.blocks| && (m.addrs[NDIRECT] == 0 || (m.addrs[NDIRECT] < |vb| && vb[m.addrs[NDIRECT]] == st.blocks[m.addrs[NDIRECT]]))
  {
    hide Inv;
    hide OwnedBy;
    hide Word;
    hide Table;
    Parts(st, owner, vb);
    var t := m.addrs[NDIRECT];
    if t != 0 {
      assert Ref(st.blocks, m, INDIRECT) == t;
      assert Refers(st.blocks, m, t) && Refers(st.blocks, st.mem[i], t);
      hide Ref;
      var s :| 0 <= s < NSLOT && Ref(st.blocks, st.mem[i], s) == t;
      TableOnDisk(st, owner, vb, i);
      CurrentTable(st.mem[i], st.pc[i]);
      RefOwned(st.sb, owner, st.bits, vb, Table(st.mem, st.pc), i, s);
      OwnedUncut(st, owner, vb, i, t);
    }
  }

  function Reloaded(st: State, i: nat): State
    requires Shaped(st) && i < |st.pc|
  {
    st.(mem := st.mem[i := st.disk[i]])
  }

  lemma ReloadKeeps(st: State, owner: Owner, vb: Disk, i: nat) returns (owner': Owner)
    requires Shaped(st) && i < |st.pc| && st.pc[i].Unlocked? && Inv(st, owner, vb)
    requires SameBlocks(st.blocks, st.mem[i], st.disk[i])
    ensures Inv(Reloaded(st, i), owner', vb)
  {
    hide Inv;
    hide OwnedBy;
    hide Ownership;
    hide Table;
    hide Cut;
    hide PcOk;
    hide Ref;
    hide SameBlocks;
    hide InFlight;
    var n := st.disk[i];
    Parts(st, owner, vb);
    TableOnDisk(st, owner, vb, i);
    CopyUncut(st, owner, vb, i, n);
    SameRefs(st.blocks, vb, n);
    SameBlocksOn(st.blocks, vb, st.mem[i], n);
    CurrentUpdate(st, i, n, st.pc[i]);
    ReloadIff(st.sb, owner, st.bits, vb, Table(st.mem, st.pc), i, n);
    owner' := OwnershipIsOwned(st.sb, st.bits, vb, Table(st.mem[i := n], st.pc));
    CutSame(st, owner, vb, i, n, st.pc[i]);
    assert st.pc[i := st.pc[i]] == st.pc;
    OthersSame(st, owner, vb);
    PcIdle(vb, n);
    Moved(st, i, Reloaded(st, i), owner', vb);
  }

  lemma ReloadNeeds(st: State, owner: Owner, vb: Disk, i: nat, owner': Owner, vb': Disk)
    requires Shaped(st) && i < |st.pc| && st.pc[i].Unlocked? && Inv(st, owner, vb) && Inv(Reloaded(st, i), owner', vb')
    ensures SameBlocks(st.blocks, st.mem[i], st.disk[i])
  {
    hide Inv;
    hide OwnedBy;
    hide Ownership;
    hide Table;
    hide Cut;
    hide PcOk;
    hide Ref;
    hide SameBlocks;
    hide InFlight;
    var n := st.disk[i];
    Parts(st, owner, vb);
    Parts(Reloaded(st, i), owner', vb');
    CutUnique(st, vb, vb', i, n);
    TableOnDisk(st, owner, vb, i);
    TableOnDisk(Reloaded(st, i), owner', vb', i);
    CurrentUpdate(st, i, n, st.pc[i]);
    OwnedIsOwnership(st.sb, owner', st.bits, vb, Table(st.mem[i := n], st.pc));
    ReloadIff(st.sb, owner, st.bits, vb, Table(st.mem, st.pc), i, n);
    SameBlocksOn(st.blocks, vb, st.mem[i], n);
  }

  /** Each block keeps one owner over a reload exactly when memory and disk copy refer to the same blocks. */
  lemma ReloadSound(st: State, owner: Owner, vb: Disk, i: nat)
    requires Shaped(st) && i < |st.pc| && st.pc[i].Unlocked? && Inv(st, owner, vb)
    ensures (exists owner', vb' :: Inv(Reloaded(st, i), owner', vb')) <==> SameBlocks(st.blocks, st.mem[i], st.disk[i])
  {
    hide Inv;
    hide SameBlocks;
    if SameBlocks(st.blocks, st.mem[i], st.disk[i]) {
      var owner' := ReloadKeeps(st, owner, vb, i);
    }
    if owner', vb' :| Inv(Reloaded(st, i), owner', vb') {
      ReloadNeeds(st, owner, vb, i, owner', vb');
    }
  }

  /** A reload of an inode whose copies refer to the same blocks, or any other action. */
  ghost predicate Agrees(st: State, i: nat, a: Action)
    requires Shaped(st) && i < |st.pc|
  {
    a.Reload? && st.pc[i].Unlocked? ==> SameBlocks(st.blocks, st.mem[i], st.disk[i])
  }

  /** No action frees a free block, and what an action leaves is again sound. */
  lemma StepKeeps(st: State, owner: Owner, vb: Disk, i: nat, a: Action) returns (owner': Owner, vb': Disk)
    requires Shaped(st) && i < |st.pc| && Inv(st, owner, vb) && Agrees(st, i, a)
    ensures !Exec(st, i, a).FreeingFree?
    ensures Exec(st, i, a).Next? ==> Inv(Exec(st, i, a).st, owner', vb')
  {
    hide Inv;
    hide PcOk;
    hide Ref;
    hide Word;
    hide StoreBlock;
    hide FirstFree;
    hide SameBlocks;
    owner', vb' := owner, vb;
    PcAt(st, owner, vb, i);
    assert st.mem[i := st.mem[i]] == st.mem && st.disk[i := st.disk[i]] == st.disk && st.pc[i := st.pc[i]] == st.pc;
    match a
    case Lock =>
      if st.pc[i].Unlocked? {
        PcIdle(vb, st.mem[i]);
        SilentStep(st, owner, vb, i, st.mem[i], st.disk[i], Idle);
      }
    case Unlock =>
      if st.pc[i].Idle? {
        PcIdle(vb, st.mem[i]);
        SilentStep(st, owner, vb, i, st.mem[i], st.disk[i], Unlocked);
      }
    case Reload =>
      if st.pc[i].Unlocked? {
        owner' := ReloadKeeps(st, owner, vb, i);
      }
    case Mark(s) =>
      if Exec(st, i, a).Next? {
        owner' := MarkStep(st, owner, vb, i, s, FirstFree(st.bits, 0));
      }
    case Zero =>
      if st.pc[i].Marked? {
        vb' := ZeroStep(st, owner, vb, i);
      }
    case Store =>
      if st.pc[i].Zeroed? {
        owner', vb' := StoreStep(st, owner, vb, i);
      }
    case Data(s, data) =>
      if Exec(st, i, a).Next? {
        vb' := DataStep(st, owner, vb, i, s, data);
      }
    case Meta(n) =>
      if Exec(st, i, a).Next? {
        MetaStep(st, owner, vb, i, n);
      }
    case Iupdate =>
      if st.pc[i].Idle? {
        PcIdle(vb, st.mem[i]);
        SilentStep(st, owner, vb, i, st.mem[i], st.mem[i], Idle);
      }
    case FreeDirect(s) =>
      if st.pc[i].Idle? && s < NDIRECT && st.mem[i].addrs[s] != 0 {
        owner' := FreeDirectStep(st, owner, vb, i, s);
      }
    case DropDirect =>
      if st.pc[i].Freed? && st.pc[i].s < NDIRECT {
        PcIdle(vb, StoreAddr(st.mem[i], st.pc[i].s, 0));
        SilentStep(st, owner, vb, i, StoreAddr(st.mem[i], st.pc[i].s, 0), st.disk[i], Idle);
      }
    case OpenTable =>
      if st.pc[i].Idle? && st.mem[i].addrs[NDIRECT] != 0 {
        OpenStep(st, owner, vb, i);
      }
    case FreeEntry =>
      if st.pc[i].Entries? && st.pc[i].k < NINDIRECT {
        owner', vb' := EntryStep(st, owner, vb, i);
      }
    case FreeTable =>
      if st.pc[i] == Entries(NINDIRECT) {
        owner', vb' := FreeTableStep(st, owner, vb, i);
      }
    case DropTable =>
      if st.pc[i].TableFreed? {
        PcIdle(vb, StoreAddr(st.mem[i], INDIRECT, 0));
        SilentStep(st, owner, vb, i, StoreAddr(st.mem[i], INDIRECT, 0), st.disk[i], Idle);
      }
  }

  /** Actions in any order; one that is not possible where its process stands does not happen. */
  function Run(st: State, acts: seq<(nat, Action)>): (o: Out)
    requires Shaped(st)
    ensures !o.Blocked? && (o.Next? ==> Shaped(o.st) && |o.st.pc| == |st.pc| && o.st.sb == st.sb)
  {
    if acts == [] then Next(st)
    else
      var o, a := Run(st, acts[..|acts| - 1]), acts[|acts| - 1];
      if !o.Next? || a.0 >= |st.pc| then o
      else
        var o' := Exec(o.st, a.0, a.1);
        if o'.Blocked? then o else o'
  }

  /** The file system as mkfs or a recovery leaves it: no inode in memory. */
  ghost predicate Boot(st: State) {
    Shaped(st) && Ownership(st.sb, st.bits, st.blocks, st.disk) && st.mem == st.disk && st.pc == seq(|st.disk|, _ => Unlocked)
  }

  /** Nobody is in the middle of bmap or itrunc. */
  predicate Settled(p: Pc) {
    p.Unlocked? || p.Idle?
  }

  lemma SettledTable(sb: Super, owner: Owner, bits: seq<bool>, blocks: Disk, mem: seq<Dinode>, pc: seq<Pc>)
    requires |mem| == |pc| && forall i :: 0 <= i < |pc| ==> Settled(pc[i])
    ensures OwnedBy(sb, owner, bits, blocks, mem) <==> OwnedBy(sb, owner, bits, blocks, Table(mem, pc))
  {
    hide Ref;
    hide OwnedBy;
    hide InFlight;
    var table := Table(mem, pc);
    assert table[..|mem|] == mem;
    forall j, s | |mem| <= j < |table| && 0 <= s < NSLOT ensures Ref(blocks, table[j], s) == 0 {
      assert table[j] == InFlight(pc[j - |mem|]);
      InFlightRefs(blocks, pc[j - |mem|]);
    }
    PadTable(sb, owner, bits, blocks, table, |mem|);
  }

  lemma BootInv(st: State) returns (owner: Owner)
    requires Boot(st)
    ensures Inv(st, owner, st.blocks)
  {
    hide Ref;
    hide OwnedBy;
    hide Ownership;
    owner := OwnershipIsOwned(st.sb, st.bits, st.blocks, st.disk);
    SettledTable(st.sb, owner, st.bits, st.blocks, st.mem, st.pc);
  }

  /** Inodes without blocks make no difference. */
  lemma PadTable(sb: Super, owner: Owner, bits: seq<bool>, blocks: Disk, table: seq<Dinode>, n: nat)
    requires n <= |table| && forall j, s :: n <= j < |table| && 0 <= s < NSLOT ==> Ref(blocks, table[j], s) == 0
    ensures OwnedBy(sb, owner, bits, blocks, table[..n]) <==> OwnedBy(sb, owner, bits, blocks, table)
  {
    hide Ref;
    if OwnedBy(sb, owner, bits, blocks, table) {
      forall b | b in owner ensures owner[b].0 < n {
        assert Ref(blocks, table[owner[b].0], owner[b].1) == b;
      }
    }
  }

  /** Every inode that was read again had been saved as far as its blocks go. */
  ghost predicate Agreeing(st: State, acts: seq<(nat, Action)>)
    requires Shaped(st)
  {
    acts == []
    || (&& Agreeing(st, acts[..|acts| - 1])
        && var o, a := Run(st, acts[..|acts| - 1]), acts[|acts| - 1];
           o.Next? && a.0 < |st.pc| ==> Agrees(o.st, a.0, a.1))
  }

  lemma {:induction false} RunKeeps(st: State, acts: seq<(nat, Action)>) returns (owner: Owner, vb: Disk)
    requires Boot(st) && Agreeing(st, acts)
    ensures !Run(st, acts).FreeingFree?
    ensures Run(st, acts).Next? ==> Inv(Run(st, acts).st, owner, vb)
  {
    hide Inv;
    hide Exec;
    hide Agrees;
    if acts == [] {
      owner := BootInv(st);
      vb := st.blocks;
    } else {
      var a := acts[|acts| - 1];
      owner, vb := RunKeeps(st, acts[..|acts| - 1]);
      var o := Run(st, acts[..|acts| - 1]);
      if o.Next? && a.0 < |st.pc| && !Exec(o.st, a.0, a.1).Blocked? {
        owner, vb := StepKeeps(o.st, owner, vb, a.0, a.1);
      }
    }
  }

  lemma SettledOwnership(st: State, owner: Owner, vb: Disk)
    requires Inv(st, owner, vb) && forall i :: 0 <= i < |st.pc| ==> Settled(st.pc[i])
    ensures Ownership(st.sb, st.bits, st.blocks, st.mem)
  {
    hide Ref;
    hide Inv;
    hide OwnedBy;
    hide Ownership;
    hide Table;
    hide ClearedTo;
    Parts(st, owner, vb);
    forall b | 0 <= b < |vb| ensures NotCut(st.mem, st.pc, b) {
    }
    assert vb == st.blocks;
    SettledTable(st.sb, owner, st.bits, vb, st.mem, st.pc);
    OwnedIsOwnership(st.sb, owner, st.bits, vb, st.mem);
  }

  /** A reboot that finds every inode as it was in memory, as far as its blocks go. */
  lemma {:induction false} RebootOwned(sb: Super, bits: seq<bool>, blocks: Disk, mem: seq<Dinode>, disk: seq<Dinode>, k: nat)
    requires Ownership(sb, bits, blocks, mem) && k <= |mem| == |disk|
    requires forall i :: 0 <= i < |mem| ==> SameBlocks(blocks, mem[i], disk[i])
    ensures Ownership(sb, bits, blocks, disk[..k] + mem[k..])
  {
    hide Ownership;
    hide SameBlocks;
    if k == 0 {
      assert disk[..k] + mem[k..] == mem;
    } else {
      RebootOwned(sb, bits, blocks, mem, disk, k - 1);
      var t := disk[..k - 1] + mem[k - 1..];
      var owner := OwnershipIsOwned(sb, bits, blocks, t);
      assert t[k - 1] == mem[k - 1] && t[k - 1 := disk[k - 1]] == disk[..k] + mem[k..];
      ReloadIff(sb, owner, bits, blocks, t, k - 1, disk[k - 1]);
    }
  }

  /**
   * From the file system mkfs makes, whatever the processes do and however they interleave, if the inodes
   * that were read again had been saved: bfree never finds a block free, and whenever no process is in the
   * middle of bmap or itrunc every block in use is referenced by one slot of one inode and the bitmap marks
   * exactly those blocks.  The next reload of an inode keeps this exactly when its two copies refer to the
   * same blocks, and a reboot does when those of every inode do.
   */
  lemma RunSound(st: State, acts: seq<(nat, Action)>)
    requires Boot(st) && Agreeing(st, acts)
    ensures !Run(st, acts).FreeingFree?
    ensures var o := Run(st, acts);
            o.Next? && (forall i :: 0 <= i < |o.st.pc| ==> Settled(o.st.pc[i])) ==>
              && Ownership(o.st.sb, o.st.bits, o.st.blocks, o.st.mem)
              && (forall i :: 0 <= i < |o.st.pc| ==>
                    (SameBlocks(o.st.blocks, o.st.mem[i], o.st.disk[i]) <==>
                       Ownership(o.st.sb, o.st.bits, o.st.blocks, o.st.mem[i := o.st.disk[i]])))
              && ((forall i :: 0 <= i < |o.st.pc| ==> SameBlocks(o.st.blocks, o.st.mem[i], o.st.disk[i])) ==>
                    Ownership(o.st.sb, o.st.bits, o.st.blocks, o.st.disk))
  {
    hide Run;
    hide Inv;
    hide Ownership;
    hide SameBlocks;
    hide Agreeing;
    hide OwnedBy;
    var owner, vb := RunKeeps(st, acts);
    var o := Run(st, acts);
    if o.Next? && forall i :: 0 <= i < |o.st.pc| ==> Settled(o.st.pc[i]) {
      SettledOwnership(o.st, owner, vb);
      OthersSame(o.st, owner, vb);
      var owner' := OwnershipIsOwned(o.st.sb, o.st.bits, o.st.blocks, o.st.mem);
      forall i | 0 <= i < |o.st.pc|
        ensures SameBlocks(o.st.blocks, o.st.mem[i], o.st.disk[i]) <==>
                Ownership(o.st.sb, o.st.bits, o.st.blocks, o.st.mem[i := o.st.disk[i]])
      {
        ReloadIff(o.st.sb, owner', o.st.bits, o.st.blocks, o.st.mem, i, o.st.disk[i]);
      }
      if forall i :: 0 <= i < |o.st.pc| ==> SameBlocks(o.st.blocks, o.st.mem[i], o.st.disk[i]) {
        RebootOwned(o.st.sb, o.st.bits, o.st.blocks, o.st.mem, o.st.disk, |o.st.mem|);
        assert o.st.disk[..|o.st.mem|] + o.st.mem[|o.st.mem|..] == o.st.disk;
      }
    }
  }

  /** In every reachable state, settled or not, a reload is sound exactly when the two copies agree on the blocks. */
  lemma RunReload(st0: State, acts: seq<(nat, Action)>, i: nat)
    requires Boot(st0) && Agreeing(st0, acts) && Run(st0, acts).Next? && i < |st0.pc| && Run(st0, acts).st.pc[i].Unlocked?
    ensures var st := Run(st0, acts).st;
            && Exec(st, i, Reload) == Next(Reloaded(st, i))
            && ((exists owner, vb :: Inv(Reloaded(st, i), owner, vb)) <==> SameBlocks(st.blocks, st.mem[i], st.disk[i]))
  {
    hide Run;
    hide Inv;
    hide SameBlocks;
    hide Agreeing;
    hide Ownership;
    var owner, vb := RunKeeps(st0, acts);
    ReloadSound(Run(st0, acts).st, owner, vb, i);
  }

  // ----- Interference -----

  /** An action at inode i writes at most one block, and only one that inode i owns. */
  lemma Touched(st: State, owner: Owner, vb: Disk, i: nat, a: Action) returns (c: nat)
    requires Shaped(st) && i < |st.pc| && Inv(st, owner, vb) && Exec(st, i, a).Next?
    ensures var blocks' := Exec(st, i, a).st.blocks;
            || blocks' == st.blocks
            || (&& c in owner && (owner[c].0 == i || owner[c].0 == |st.pc| + i)
                && forall b :: 0 <= b < |st.blocks| && b != c ==> blocks'[b] == st.blocks[b])
  {
    hide Inv;
    hide Ref;
    hide OwnedBy;
    hide Cut;
    hide Table;
    hide InFlight;
    hide Current;
    hide Word;
    Parts(st, owner, vb);
    PcAt(st, owner, vb, i);
    var n, table := |st.pc|, Table(st.mem, st.pc);
    c := 0;
    match a
    case Zero =>
      c := st.pc[i].b;
      InFlightRefs(vb, st.pc[i]);
      RefOwned(st.sb, owner, st.bits, vb, table, n + i, 0);
    case Store =>
      c := st.mem[i].addrs[NDIRECT];
      TableOnDisk(st, owner, vb, i);
    case Data(s, data) =>
      c := Ref(st.blocks, st.mem[i], s);
      TableOnDisk(st, owner, vb, i);
      CurrentTable(st.mem[i], st.pc[i]);
      RefOwned(st.sb, owner, st.bits, vb, table, i, s);
    case _ =>
  }

  /** A reader of the bytes of an inode with blocks and number apart from c does not see a write to c. */
  lemma BytesApart(blocks: Disk, blocks': Disk, n: Dinode, c: nat)
    requires |blocks| == |blocks'| && c != 0 && n.addrs[NDIRECT] != c
    requires forall s :: 0 <= s < NSLOT ==> Ref(blocks, n, s) != c
    requires forall b :: 0 <= b < |blocks| && b != c ==> blocks'[b] == blocks[b]
    ensures forall p :: 0 <= p < MAXFILE * BSIZE ==> Byte(blocks', n, p) == Byte(blocks, n, p)
  {
    hide Word;
    forall s | 0 <= s < NSLOT ensures Ref(blocks', n, s) == Ref(blocks, n, s) {
    }
    hide Ref;
  }

  lemma StepApart(st: State, owner: Owner, vb: Disk, i: nat, a: Action, j: nat)
    requires Shaped(st) && i < |st.pc| && j < |st.pc| && j != i && Exec(st, i, a).Next?
    requires !st.pc[j].Freed? && !st.pc[j].Entries? && !st.pc[j].TableFreed?
    requires Inv(st, owner, vb)
    ensures forall p :: 0 <= p < MAXFILE * BSIZE ==>
              Byte(Exec(st, i, a).st.blocks, st.mem[j], p) == Byte(st.blocks, st.mem[j], p)
  {
    hide Inv;
    hide Ref;
    hide Byte;
    hide Exec;
    var c := Touched(st, owner, vb, i, a);
    if Exec(st, i, a).st.blocks != st.blocks {
      OwnedApart(st, owner, vb, i, c, j);
      TableOnDisk(st, owner, vb, j);
      CurrentTable(st.mem[j], st.pc[j]);
      BytesApart(st.blocks, Exec(st, i, a).st.blocks, st.mem[j], c);
    }
  }

  lemma StepLocal(st: State, i: nat, a: Action, j: nat)
    requires Shaped(st) && i < |st.pc| && j < |st.pc| && j != i && Exec(st, i, a).Next?
    ensures var st' := Exec(st, i, a).st; st'.mem[j] == st.mem[j] && st'.disk[j] == st.disk[j] && st'.pc[j] == st.pc[j]
  {
    hide Ref;
    hide Word;
    hide StoreBlock;
  }

  /**
   * In every reachable state, an action on one inode changes no byte of any other inode that is not
   * being truncated, whether it is locked, unlocked or in the middle of bmap.
   */
  lemma NoInterference(st0: State, acts: seq<(nat, Action)>, i: nat, a: Action, j: nat)
    requires Boot(st0) && Agreeing(st0, acts) && Run(st0, acts).Next? && i < |st0.pc| && j < |st0.pc| && j != i
    requires Exec(Run(st0, acts).st, i, a).Next?
    requires var p := Run(st0, acts).st.pc[j]; !p.Freed? && !p.Entries? && !p.TableFreed?
    ensures var st, st' := Run(st0, acts).st, Exec(Run(st0, acts).st, i, a).st;
            && st'.mem[j] == st.mem[j] && st'.disk[j] == st.disk[j] && st'.pc[j] == st.pc[j]
            && forall p :: 0 <= p < MAXFILE * BSIZE ==> Byte(st'.blocks, st'.mem[j], p) == Byte(st.blocks, st.mem[j], p)
  {
    hide Run;
    hide Exec;
    hide Inv;
    hide Byte;
    hide Ownership;
    hide Agreeing;
    var owner, vb := RunKeeps(st0, acts);
    StepLocal(Run(st0, acts).st, i, a, j);
    StepApart(Run(st0, acts).st, owner, vb, i, a, j);
  }

  // ----- A block that is not saved -----

  lemma RunSnoc(st: State, acts: seq<(nat, Action)>, i: nat, a: Action)
    requires Shaped(st) && i < |st.pc| && Run(st, acts).Next?
    requires Exec(Run(st, acts).st, i, a).Next?
    ensures Run(st, acts + [(i, a)]) == Exec(Run(st, acts).st, i, a)
    ensures Agreeing(st, acts) && !a.Reload? ==> Agreeing(st, acts + [(i, a)])
  {
    hide Exec;
    assert (acts + [(i, a)])[..|acts|] == acts;
  }

  /** bmap gives an unlocked inode its block s, and nobody writes the inode back. */
  function Unsaved(i: nat, s: nat): seq<(nat, Action)> {
    [] + [(i, Lock)] + [(i, Mark(s))] + [(i, Zero)] + [(i, Store)] + [(i, Unlock)]
  }

  /** The states in between, one action at a time. */
  lemma UnsavedRun(st: State, i: nat, s: nat) returns (b: nat)
    requires Boot(st) && i < |st.pc| && s < NDIRECT && st.mem[i].addrs[s] == 0 && exists c :: 0 <= c < |st.bits| && !st.bits[c]
    ensures b < |st.bits| && !st.bits[b] && Agreeing(st, Unsaved(i, s))
    ensures Run(st, Unsaved(i, s)) ==
              Next(st.(bits := st.bits[b := true], blocks := st.blocks[b := ZeroBlock()],
                       mem := st.mem[i := StoreAddr(st.mem[i], s, b)]))
  {
    hide Ownership;
    hide StoreAddr;
    b := FirstFree(st.bits, 0);
    var n := st.mem[i];
    var s1 := st.(pc := st.pc[i := Idle]);
    var s2 := st.(bits := st.bits[b := true], pc := st.pc[i := Marked(s, b)]);
    var s3 := s2.(blocks := st.blocks[b := ZeroBlock()], pc := st.pc[i := Zeroed(s, b)]);
    var s4 := s3.(mem := st.mem[i := StoreAddr(n, s, b)], pc := st.pc[i := Idle]);
    RunSnoc(st, [], i, Lock);
    assert s1.pc[i := Marked(s, b)] == s2.pc && s2.pc[i := Zeroed(s, b)] == s3.pc && s3.pc[i := Idle] == s4.pc;
    RunSnoc(st, [(i, Lock)], i, Mark(s));
    var a2 := [(i, Lock)] + [(i, Mark(s))];
    assert Run(st, a2) == Next(s2);
    RunSnoc(st, a2, i, Zero);
    var a3 := a2 + [(i, Zero)];
    assert Run(st, a3) == Next(s3);
    RunSnoc(st, a3, i, Store);
    var a4 := a3 + [(i, Store)];
    assert Run(st, a4) == Next(s4);
    RunSnoc(st, a4, i, Unlock);
    assert s4.pc[i := Unlocked] == st.pc;
    assert [] + [(i, Lock)] == [(i, Lock)];
  }

  lemma FreeUnreferenced(sb: Super, bits: seq<bool>, blocks: Disk, table: seq<Dinode>, b: nat)
    requires Ownership(sb, bits, blocks, table) && b < |bits| && !bits[b]
    ensures sb.data <= b && !Referenced(blocks[b := ZeroBlock()], table, b)
  {
    hide Word;
    var blocks' := blocks[b := ZeroBlock()];
    forall j, s | 0 <= j < |table| && 0 <= s < NSLOT ensures Ref(blocks', table[j], s) != b {
      assert Ref(blocks, table[j], s) != b;
      assert Ref(blocks, table[j], INDIRECT) == table[j].addrs[NDIRECT] != b;
    }
  }

  /** When that inode is read again the bitmap marks a block that nobody references. */
  lemma BlockLeaked(st: State, i: nat, s: nat) returns (b: nat)
    requires Boot(st) && i < |st.pc| && s < NDIRECT && st.mem[i].addrs[s] == 0 && exists c :: 0 <= c < |st.bits| && !st.bits[c]
    ensures Agreeing(st, Unsaved(i, s)) && Run(st, Unsaved(i, s) + [(i, Reload)]).Next?
    ensures var st' := Run(st, Unsaved(i, s) + [(i, Reload)]).st;
            st.sb.data <= b < |st'.bits| && st'.bits[b] && !Referenced(st'.blocks, st'.mem, b)
  {
    hide Ref;
    hide Ownership;
    hide Run;
    hide Unsaved;
    hide StoreAddr;
    hide Referenced;
    b := UnsavedRun(st, i, s);
    FreeUnreferenced(st.sb, st.bits, st.blocks, st.disk, b);
    var o := Run(st, Unsaved(i, s));
    RunSnoc(st, Unsaved(i, s), i, Reload);
    assert Exec(o.st, i, Reload).st.mem == st.disk;
  }
}
