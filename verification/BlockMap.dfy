// Which inode owns which disk block (fs.c, bmap and the free bitmap).
//
// An inode has 141 slots: 140 data blocks, of which the last 128 are listed in the
// indirect block, and the indirect block itself.
module BlockMap {
  import opened Blocks
  import opened Common

  const NDIRECT: nat := 12
  const NINDIRECT: nat := 128
  const MAXFILE: nat := 140
  const INDIRECT: nat := MAXFILE   // slot of the indirect block
  const NSLOT: nat := MAXFILE + 1

  type Addrs = a: seq<nat> | |a| == NDIRECT + 1 && forall k :: 0 <= k < |a| ==> a[k] < WORDMAX
    witness seq(NDIRECT + 1, _ => 0)

  datatype Dinode = Dinode(typ: int, major: int, minor: int, nlink: int, size: nat, addrs: Addrs)

  function NoAddrs(): (a: Addrs)
    ensures forall k :: 0 <= k <= NDIRECT ==> a[k] == 0
  {
    seq(NDIRECT + 1, _ => 0)
  }

  /** A zeroed inode with type and link count. */
  function NewInode(typ: int, nlink: int): Dinode {
    Dinode(typ, 0, 0, nlink, 0, NoAddrs())
  }

  /** Block numbers below data are the boot block, superblock, log, inodes and bitmap. */
  datatype Super = Super(size: nat, data: nat, inodestart: nat, bmapstart: nat)

  /** The block number in slot s, 0 if the slot is empty. */
  function Ref(blocks: Disk, n: Dinode, s: nat): (b: nat)
    requires s < NSLOT
  {
    if s < NDIRECT then n.addrs[s]
    else if s == INDIRECT then n.addrs[NDIRECT]
    else if n.addrs[NDIRECT] == 0 || n.addrs[NDIRECT] >= |blocks| then 0
    else Word(blocks[n.addrs[NDIRECT]], s - NDIRECT)
  }

  type Owner = map<nat, (nat, nat)>

  /** Every reference is to a data block owned by exactly that slot. */
  ghost predicate RefsOwned(owner: Owner, blocks: Disk, table: seq<Dinode>) {
    forall i, s :: 0 <= i < |table| && 0 <= s < NSLOT && Ref(blocks, table[i], s) != 0 ==>
          Ref(blocks, table[i], s) in owner && owner[Ref(blocks, table[i], s)] == (i, s)
  }

  /** Every owned block is referenced by its owner. */
  ghost predicate OwnersRefer(owner: Owner, blocks: Disk, table: seq<Dinode>)
  {
    forall b :: b in owner ==>
      owner[b].0 < |table| && owner[b].1 < NSLOT && Ref(blocks, table[owner[b].0], owner[b].1) == b
  }

  /** The bitmap marks the metadata and the owned blocks, and nothing else. */
  ghost predicate BitsExact(sb: Super, owner: Owner, bits: seq<bool>) {
    && |bits| == sb.size && 0 < sb.data <= sb.size
    && (forall b :: b in owner ==> sb.data <= b < sb.size)
    && (forall b :: 0 <= b < sb.size ==> (bits[b] <==> b < sb.data || b in owner))
  }

  ghost predicate OwnedBy(sb: Super, owner: Owner, bits: seq<bool>, blocks: Disk, table: seq<Dinode>) {
    && |blocks| == |bits| == sb.size <= WORDMAX
    && BitsExact(sb, owner, bits)
    && RefsOwned(owner, blocks, table)
    && OwnersRefer(owner, blocks, table)
  }

  /** The same, without the map: no block is referenced twice and the bitmap is exact. */
  ghost predicate Ownership(sb: Super, bits: seq<bool>, blocks: Disk, table: seq<Dinode>) {
    && |blocks| == |bits| == sb.size <= WORDMAX && 0 < sb.data <= sb.size
    && (forall i, s :: 0 <= i < |table| && 0 <= s < NSLOT && Ref(blocks, table[i], s) != 0 ==>
          sb.data <= Ref(blocks, table[i], s) < sb.size)
    && (forall i, s, j, t ::
          (0 <= i < |table| && 0 <= s < NSLOT && 0 <= j < |table| && 0 <= t < NSLOT
           && Ref(blocks, table[i], s) != 0 && Ref(blocks, table[i], s) == Ref(blocks, table[j], t))
          ==> i == j && s == t)
    && (forall b :: 0 <= b < sb.size ==> (bits[b] <==> b < sb.data || Referenced(blocks, table, b)))
  }

  ghost predicate Referenced(blocks: Disk, table: seq<Dinode>, b: nat)
  {
    exists i, s :: 0 <= i < |table| && 0 <= s < NSLOT && Ref(blocks, table[i], s) == b
  }

  lemma OwnedIsOwnership(sb: Super, owner: Owner, bits: seq<bool>, blocks: Disk, table: seq<Dinode>)
    requires OwnedBy(sb, owner, bits, blocks, table)
    ensures Ownership(sb, bits, blocks, table)
  {
    forall b | 0 <= b < sb.size ensures bits[b] <==> b < sb.data || Referenced(blocks, table, b) {
      if b in owner {
        var o := owner[b];
        assert Ref(blocks, table[o.0], o.1) == b;
      }
      if b >= sb.data && Referenced(blocks, table, b) {
        var i, s :| 0 <= i < |table| && 0 <= s < NSLOT && Ref(blocks, table[i], s) == b;
      }
    }
  }

  /** Conversely the map can be read off the inode table. */
  lemma OwnershipIsOwned(sb: Super, bits: seq<bool>, blocks: Disk, table: seq<Dinode>) returns (owner: Owner)
    requires Ownership(sb, bits, blocks, table)
    ensures OwnedBy(sb, owner, bits, blocks, table)
  {
    owner := map b: nat | 0 < b < sb.size && Referenced(blocks, table, b) :: OwnerOf(blocks, table, b);
  }

  ghost function OwnerOf(blocks: Disk, table: seq<Dinode>, b: nat): (o: (nat, nat))
    requires Referenced(blocks, table, b)
    ensures o.0 < |table| && o.1 < NSLOT && Ref(blocks, table[o.0], o.1) == b
  {
    var i, s :| 0 <= i < |table| && 0 <= s < NSLOT && Ref(blocks, table[i], s) == b;
    (i, s)
  }

  // ----- Filling and clearing one slot -----

  /** Two disks and tables with the same references everywhere but in slot (i, s). */
  ghost predicate SameRefsBut(blocks: Disk, table: seq<Dinode>, blocks': Disk, table': seq<Dinode>, i: nat, s: nat) {
    && |table| == |table'|
    && (forall j, t :: 0 <= j < |table| && 0 <= t < NSLOT && (j, t) != (i, s) ==>
          Ref(blocks', table'[j], t) == Ref(blocks, table[j], t))
  }

  lemma RefsOf(blocks: Disk, table: seq<Dinode>, blocks': Disk, table': seq<Dinode>, i: nat, s: nat)
    requires SameRefsBut(blocks, table, blocks', table', i, s) && i < |table|
    ensures forall t :: 0 <= t < NSLOT && t != s ==> Ref(blocks', table'[i], t) == Ref(blocks, table[i], t)
  {
  }

  lemma FillSlot(sb: Super, owner: Owner, bits: seq<bool>, blocks: Disk, table: seq<Dinode>,
                 blocks': Disk, table': seq<Dinode>, i: nat, s: nat, b: nat)
    requires OwnedBy(sb, owner, bits, blocks, table) && |blocks'| == |blocks|
    requires i < |table| && s < NSLOT && 0 < b < sb.size && !bits[b]
    requires SameRefsBut(blocks, table, blocks', table', i, s)
    requires Ref(blocks, table[i], s) == 0 && Ref(blocks', table'[i], s) == b
    ensures OwnedBy(sb, owner[b := (i, s)], bits[b := true], blocks', table')
  {
    hide Word;
    hide Ref;
  }

  lemma ClearSlot(sb: Super, owner: Owner, bits: seq<bool>, blocks: Disk, table: seq<Dinode>,
                  blocks': Disk, table': seq<Dinode>, i: nat, s: nat)
    requires OwnedBy(sb, owner, bits, blocks, table) && |blocks'| == |blocks|
    requires i < |table| && s < NSLOT && Ref(blocks, table[i], s) != 0
    requires SameRefsBut(blocks, table, blocks', table', i, s)
    requires Ref(blocks', table'[i], s) == 0
    ensures var b := Ref(blocks, table[i], s);
            && b < sb.size && bits[b]
            && OwnedBy(sb, owner - {b}, bits[b := false], blocks', table')
  {
    hide Word;
    hide Ref;
  }

  /** The inode and the disk once block number b is stored in slot s, as bmap stores it. */
  function StoreAddr(n: Dinode, s: nat, b: nat): Dinode
    requires s < NSLOT && b < WORDMAX
  {
    if s < NDIRECT then n.(addrs := n.addrs[s := b])
    else if s == INDIRECT then n.(addrs := n.addrs[NDIRECT := b])
    else n
  }

  function StoreBlock(blocks: Disk, n: Dinode, s: nat, b: nat): (r: Disk)
    requires s < NSLOT && b < WORDMAX
    ensures |r| == |blocks|
  {
    if s < NDIRECT || s == INDIRECT || n.addrs[NDIRECT] >= |blocks| then blocks
    else blocks[n.addrs[NDIRECT] := SetWord(blocks[n.addrs[NDIRECT]], s - NDIRECT, b)]
  }

  /** A free block is nobody's indirect block. */
  lemma FreeIsNoTable(sb: Super, owner: Owner, bits: seq<bool>, blocks: Disk, table: seq<Dinode>, b: nat)
    requires OwnedBy(sb, owner, bits, blocks, table) && b < sb.size && !bits[b]
    ensures 0 < sb.data <= b
    ensures forall j :: 0 <= j < |table| ==> table[j].addrs[NDIRECT] != b
  {
    forall j | 0 <= j < |table| ensures table[j].addrs[NDIRECT] != b {
      assert Ref(blocks, table[j], INDIRECT) == table[j].addrs[NDIRECT];
    }
  }

  lemma RefInRange(sb: Super, owner: Owner, bits: seq<bool>, blocks: Disk, table: seq<Dinode>, i: nat, s: nat)
    requires OwnedBy(sb, owner, bits, blocks, table) && i < |table| && s < NSLOT
    ensures Ref(blocks, table[i], s) < sb.size
  {
    hide Ref;
  }

  lemma RefIsData(sb: Super, owner: Owner, bits: seq<bool>, blocks: Disk, table: seq<Dinode>, i: nat, s: nat)
    requires OwnedBy(sb, owner, bits, blocks, table) && i < |table| && s < NSLOT && Ref(blocks, table[i], s) != 0
    ensures sb.data <= Ref(blocks, table[i], s) < sb.size
  {
    hide Ref;
  }

  lemma RefMarked(sb: Super, owner: Owner, bits: seq<bool>, blocks: Disk, table: seq<Dinode>, i: nat, s: nat)
    requires OwnedBy(sb, owner, bits, blocks, table) && i < |table| && s < NSLOT && Ref(blocks, table[i], s) != 0
    ensures Ref(blocks, table[i], s) < |bits| && bits[Ref(blocks, table[i], s)]
  {
    hide Ref;
  }

  lemma TableInRange(sb: Super, owner: Owner, bits: seq<bool>, blocks: Disk, table: seq<Dinode>, i: nat)
    requires OwnedBy(sb, owner, bits, blocks, table) && i < |table|
    ensures table[i].addrs[NDIRECT] < sb.size
  {
    RefInRange(sb, owner, bits, blocks, table, i, INDIRECT);
  }

  lemma TableIsData(sb: Super, owner: Owner, bits: seq<bool>, blocks: Disk, table: seq<Dinode>, i: nat)
    requires OwnedBy(sb, owner, bits, blocks, table) && i < |table|
    ensures table[i].addrs[NDIRECT] != 0 ==> sb.data <= table[i].addrs[NDIRECT] < sb.size
  {
    assert Ref(blocks, table[i], INDIRECT) == table[i].addrs[NDIRECT];
  }

  /** Nor is any other inode's indirect block. */
  lemma TablesApart(sb: Super, owner: Owner, bits: seq<bool>, blocks: Disk, table: seq<Dinode>, i: nat)
    requires OwnedBy(sb, owner, bits, blocks, table) && i < |table| && table[i].addrs[NDIRECT] != 0
    ensures forall j :: 0 <= j < |table| && j != i ==> table[j].addrs[NDIRECT] != table[i].addrs[NDIRECT]
  {
    forall j | 0 <= j < |table| && j != i ensures table[j].addrs[NDIRECT] != table[i].addrs[NDIRECT] {
      assert Ref(blocks, table[j], INDIRECT) == table[j].addrs[NDIRECT];
      assert Ref(blocks, table[i], INDIRECT) == table[i].addrs[NDIRECT];
    }
  }

  /** Allocating block b for an empty slot: zero it, mark it, store its number. */
  lemma AllocSlot(sb: Super, owner: Owner, bits: seq<bool>, blocks: Disk, table: seq<Dinode>, i: nat, s: nat, b: nat)
    requires OwnedBy(sb, owner, bits, blocks, table)
    requires i < |table| && s < NSLOT && Ref(blocks, table[i], s) == 0
    requires NDIRECT <= s < INDIRECT ==> table[i].addrs[NDIRECT] != 0
    requires 0 < b < sb.size && !bits[b]
    ensures var zeroed := blocks[b := ZeroBlock()];
            var blocks' := StoreBlock(zeroed, table[i], s, b);
            var table' := table[i := StoreAddr(table[i], s, b)];
            && SameRefsBut(blocks, table, blocks', table', i, s)
            && Ref(blocks', table'[i], s) == b
            && OwnedBy(sb, owner[b := (i, s)], bits[b := true], blocks', table')
  {
    hide Word;
    hide SetWord;
    var zeroed := blocks[b := ZeroBlock()];
    var blocks' := StoreBlock(zeroed, table[i], s, b);
    var table' := table[i := StoreAddr(table[i], s, b)];
    FreeIsNoTable(sb, owner, bits, blocks, table, b);
    assert Ref(blocks, table[i], INDIRECT) == table[i].addrs[NDIRECT];
    forall j, t | 0 <= j < |table| && 0 <= t < NSLOT && (j, t) != (i, s)
      ensures Ref(blocks', table'[j], t) == Ref(blocks, table[j], t)
    {
      if NDIRECT <= t < INDIRECT {
        if s == INDIRECT && j == i {
          ZeroWords(t - NDIRECT);
        } else if NDIRECT <= s < INDIRECT && j != i {
          TablesApart(sb, owner, bits, blocks, table, i);
        }
      }
    }
    FillSlot(sb, owner, bits, blocks, table, blocks', table', i, s, b);
  }

  // ----- Bytes of files -----

  /** Byte p of a file; a hole reads as zeroes. */
  function Byte(blocks: Disk, n: Dinode, p: nat): byte
    requires p < MAXFILE * BSIZE
  {
    var a := Ref(blocks, n, p / BSIZE);
    if 0 < a < |blocks| then blocks[a][p % BSIZE] else 0
  }

  /** No byte and no block number of any inode but i changed. */
  ghost predicate OthersKept(blocks: Disk, blocks': Disk, table: seq<Dinode>, i: nat) {
    && (forall j, p :: 0 <= j < |table| && j != i && 0 <= p < MAXFILE * BSIZE ==>
          Byte(blocks', table[j], p) == Byte(blocks, table[j], p))
    && (forall j, s :: 0 <= j < |table| && j != i && 0 <= s < NSLOT ==> Ref(blocks', table[j], s) == Ref(blocks, table[j], s))
  }

  lemma OthersIgnore(blocks: Disk, blocks': Disk, table: seq<Dinode>, i: nat, n: Dinode)
    requires i < |table| && OthersKept(blocks, blocks', table[i := n], i)
    ensures OthersKept(blocks, blocks', table, i)
  {
    hide Byte;
    hide Ref;
    forall j, p | 0 <= j < |table| && j != i && 0 <= p < MAXFILE * BSIZE
      ensures Byte(blocks', table[j], p) == Byte(blocks, table[j], p)
    {
      assert table[i := n][j] == table[j];
    }
    forall j, s | 0 <= j < |table| && j != i && 0 <= s < NSLOT ensures Ref(blocks', table[j], s) == Ref(blocks, table[j], s) {
      assert table[i := n][j] == table[j];
    }
  }

  lemma AllocBytes(sb: Super, owner: Owner, bits: seq<bool>, blocks: Disk, table: seq<Dinode>, i: nat, s: nat, b: nat)
    requires OwnedBy(sb, owner, bits, blocks, table)
    requires i < |table| && s < NSLOT && Ref(blocks, table[i], s) == 0
    requires NDIRECT <= s < INDIRECT ==> table[i].addrs[NDIRECT] != 0
    requires 0 < b < sb.size && !bits[b]
    ensures var blocks' := StoreBlock(blocks[b := ZeroBlock()], table[i], s, b);
            var n' := StoreAddr(table[i], s, b);
            && OthersKept(blocks, blocks', table, i)
            && (forall p :: 0 <= p < MAXFILE * BSIZE ==> Byte(blocks', n', p) == Byte(blocks, table[i], p))
  {
    hide Word;
    hide SetWord;
    var blocks' := StoreBlock(blocks[b := ZeroBlock()], table[i], s, b);
    var table' := table[i := StoreAddr(table[i], s, b)];
    AllocSlot(sb, owner, bits, blocks, table, i, s, b);
    assert Ref(blocks, table[i], INDIRECT) == table[i].addrs[NDIRECT];
    forall j, p | 0 <= j < |table| && 0 <= p < MAXFILE * BSIZE
      ensures Byte(blocks', table'[j], p) == Byte(blocks, table[j], p)
    {
      var t := p / BSIZE;
      if j != i || t != s {
        assert Ref(blocks', table'[j], t) == Ref(blocks, table[j], t);
      } else {
        assert blocks'[b] == ZeroBlock();
      }
    }
    forall j, t | 0 <= j < |table| && j != i && 0 <= t < NSLOT ensures Ref(blocks', table[j], t) == Ref(blocks, table[j], t) {
      assert table'[j] == table[j] && (j, t) != (i, s);
    }
  }

  /** Writing a data block of slot (i, s) changes the bytes of that slot and nothing else. */
  lemma DataWrite(sb: Super, owner: Owner, bits: seq<bool>, blocks: Disk, table: seq<Dinode>, i: nat, s: nat, data: Block)
    requires OwnedBy(sb, owner, bits, blocks, table)
    requires i < |table| && s < MAXFILE && Ref(blocks, table[i], s) != 0
    ensures var a := Ref(blocks, table[i], s);
            && a < |blocks|
            && var blocks' := blocks[a := data];
               && OwnedBy(sb, owner, bits, blocks', table)
               && (forall j, t :: 0 <= j < |table| && 0 <= t < NSLOT ==> Ref(blocks', table[j], t) == Ref(blocks, table[j], t))
               && OthersKept(blocks, blocks', table, i)
               && (forall p :: 0 <= p < MAXFILE * BSIZE ==>
                     Byte(blocks', table[i], p) == if p / BSIZE == s then data[p % BSIZE] else Byte(blocks, table[i], p))
  {
    hide Word;
    var a := Ref(blocks, table[i], s);
    var blocks' := blocks[a := data];
    forall j, t | 0 <= j < |table| && 0 <= t < NSLOT
      ensures Ref(blocks', table[j], t) == Ref(blocks, table[j], t)
    {
      assert Ref(blocks, table[j], INDIRECT) == table[j].addrs[NDIRECT];
    }
    forall j, p | 0 <= j < |table| && 0 <= p < MAXFILE * BSIZE && (j != i || p / BSIZE != s)
      ensures Byte(blocks', table[j], p) == Byte(blocks, table[j], p)
    {
      var t := p / BSIZE;
      assert Ref(blocks', table[j], t) == Ref(blocks, table[j], t);
    }
  }

  // ----- Truncation -----

  lemma ClearDirect(sb: Super, owner: Owner, bits: seq<bool>, blocks: Disk, table: seq<Dinode>, i: nat, s: nat)
    requires OwnedBy(sb, owner, bits, blocks, table) && i < |table| && s < NDIRECT && table[i].addrs[s] != 0
    ensures var b := table[i].addrs[s];
            && b < sb.size && bits[b]
            && OwnedBy(sb, owner - {b}, bits[b := false], blocks, table[i := StoreAddr(table[i], s, 0)])
  {
    hide Word;
    var table' := table[i := StoreAddr(table[i], s, 0)];
    assert SameRefsBut(blocks, table, blocks, table', i, s);
    ClearSlot(sb, owner, bits, blocks, table, blocks, table', i, s);
  }

  /** An indirect block with its first k entries cleared. */
  function ClearedTo(b: Block, k: nat): (r: Block)
    requires k <= NINDIRECT
    ensures k == 0 ==> r == b
    ensures forall j: nat :: j < NWORDS ==> Word(r, j) == if j < k then 0 else Word(b, j)
  {
    if k == 0 then b else SetWord(ClearedTo(b, k - 1), k - 1, 0)
  }

  /** Freeing entry k of the indirect block, the first k entries being already freed. */
  lemma ClearEntry(sb: Super, owner: Owner, bits: seq<bool>, blocks: Disk, table: seq<Dinode>, i: nat, k: nat)
    requires i < |table| && k < NINDIRECT && 0 < table[i].addrs[NDIRECT] < |blocks|
    requires var t := table[i].addrs[NDIRECT];
             OwnedBy(sb, owner, bits, blocks[t := ClearedTo(blocks[t], k)], table)
    ensures var t := table[i].addrs[NDIRECT];
            var b := Word(blocks[t], k);
            && b < sb.size
            && (b == 0 ==> OwnedBy(sb, owner, bits, blocks[t := ClearedTo(blocks[t], k + 1)], table))
            && (b != 0 ==> bits[b] && OwnedBy(sb, owner - {b}, bits[b := false], blocks[t := ClearedTo(blocks[t], k + 1)], table))
  {
    hide Word;
    hide SetWord;
    hide ClearedTo;
    var t := table[i].addrs[NDIRECT];
    var b := Word(blocks[t], k);
    var was, now := blocks[t := ClearedTo(blocks[t], k)], blocks[t := ClearedTo(blocks[t], k + 1)];
    TablesApart(sb, owner, bits, was, table, i);
    assert Ref(was, table[i], NDIRECT + k) == b && Ref(now, table[i], NDIRECT + k) == 0;
    forall j, u | 0 <= j < |table| && 0 <= u < NSLOT && (j, u) != (i, NDIRECT + k)
      ensures Ref(now, table[j], u) == Ref(was, table[j], u)
    {
    }
    RefInRange(sb, owner, bits, was, table, i, NDIRECT + k);
    if b == 0 {
      SameRefs(sb, owner, bits, was, now, table);
    } else {
      ClearSlot(sb, owner, bits, was, table, now, table, i, NDIRECT + k);
    }
  }

  lemma SameRefs(sb: Super, owner: Owner, bits: seq<bool>, blocks: Disk, blocks': Disk, table: seq<Dinode>)
    requires OwnedBy(sb, owner, bits, blocks, table) && |blocks'| == |blocks|
    requires forall j, u :: 0 <= j < |table| && 0 <= u < NSLOT ==> Ref(blocks', table[j], u) == Ref(blocks, table[j], u)
    ensures OwnedBy(sb, owner, bits, blocks', table)
  {
    hide Ref;
  }

  /** Freeing the indirect block once all its entries are freed; its stale contents no longer matter. */
  lemma ClearTable(sb: Super, owner: Owner, bits: seq<bool>, blocks: Disk, table: seq<Dinode>, i: nat)
    requires i < |table| && 0 < table[i].addrs[NDIRECT] < |blocks|
    requires var t := table[i].addrs[NDIRECT];
             OwnedBy(sb, owner, bits, blocks[t := ClearedTo(blocks[t], NINDIRECT)], table)
    ensures var t := table[i].addrs[NDIRECT];
            && t < sb.size && bits[t]
            && OwnedBy(sb, owner - {t}, bits[t := false], blocks, table[i := StoreAddr(table[i], INDIRECT, 0)])
  {
    hide Word;
    hide ClearedTo;
    var t := table[i].addrs[NDIRECT];
    var was := blocks[t := ClearedTo(blocks[t], NINDIRECT)];
    var table' := table[i := StoreAddr(table[i], INDIRECT, 0)];
    TablesApart(sb, owner, bits, was, table, i);
    forall j, u | 0 <= j < |table| && 0 <= u < NSLOT && (j, u) != (i, INDIRECT)
      ensures Ref(blocks, table'[j], u) == Ref(was, table[j], u)
    {
    }
    ClearSlot(sb, owner, bits, was, table, blocks, table', i, INDIRECT);
  }

  /** The blocks in slots lo to hi - 1. */
  ghost function RefsIn(blocks: Disk, n: Dinode, lo: nat, hi: nat): (s: set<nat>)
    requires lo <= hi <= NSLOT
    ensures forall b :: b in s <==> b != 0 && exists t :: lo <= t < hi && Ref(blocks, n, t) == b
  {
    if lo == hi then {}
    else RefsIn(blocks, n, lo, hi - 1) + if Ref(blocks, n, hi - 1) == 0 then {} else {Ref(blocks, n, hi - 1)}
  }

  // ----- Two copies of an inode -----

  ghost predicate Refers(blocks: Disk, n: Dinode, b: nat) {
    exists s :: 0 <= s < NSLOT && Ref(blocks, n, s) == b
  }

  /** m refers to the blocks of n, each once. */
  ghost predicate SameBlocks(blocks: Disk, n: Dinode, m: Dinode) {
    && (forall b :: b > 0 ==> (Refers(blocks, n, b) <==> Refers(blocks, m, b)))
    && (forall s, t :: 0 <= s < NSLOT && 0 <= t < NSLOT && Ref(blocks, m, s) != 0 && Ref(blocks, m, s) == Ref(blocks, m, t) ==> s == t)
  }

  lemma ReferencedIs(blocks: Disk, table: seq<Dinode>, b: nat)
    ensures Referenced(blocks, table, b) <==> exists j :: 0 <= j < |table| && Refers(blocks, table[j], b)
  {
    hide Ref;
    if Referenced(blocks, table, b) {
      var j, s :| 0 <= j < |table| && 0 <= s < NSLOT && Ref(blocks, table[j], s) == b;
      assert Refers(blocks, table[j], b);
    }
  }

  lemma OwnerRefers(sb: Super, owner: Owner, bits: seq<bool>, blocks: Disk, table: seq<Dinode>, j: nat, b: nat)
    requires OwnedBy(sb, owner, bits, blocks, table) && j < |table| && b > 0
    ensures Refers(blocks, table[j], b) <==> b in owner && owner[b].0 == j
    ensures Refers(blocks, table[j], b) ==> sb.data <= b < sb.size && bits[b]
  {
    hide Ref;
    if b in owner && owner[b].0 == j {
      assert Ref(blocks, table[j], owner[b].1) == b;
    }
  }

  lemma ReloadOwned(sb: Super, owner: Owner, bits: seq<bool>, blocks: Disk, table: seq<Dinode>, i: nat, n: Dinode)
    requires OwnedBy(sb, owner, bits, blocks, table) && i < |table| && SameBlocks(blocks, table[i], n)
    ensures Ownership(sb, bits, blocks, table[i := n])
  {
    hide Ref;
    var t' := table[i := n];
    forall j, s | 0 <= j < |t'| && 0 <= s < NSLOT && Ref(blocks, t'[j], s) != 0
      ensures var b := Ref(blocks, t'[j], s); sb.data <= b < sb.size && b in owner && owner[b].0 == j
    {
      assert Refers(blocks, t'[j], Ref(blocks, t'[j], s));
      OwnerRefers(sb, owner, bits, blocks, table, j, Ref(blocks, t'[j], s));
    }
    forall b | 0 <= b < sb.size ensures bits[b] <==> b < sb.data || Referenced(blocks, t', b) {
      ReferencedIs(blocks, t', b);
      if b in owner {
        var j := owner[b].0;
        OwnerRefers(sb, owner, bits, blocks, table, j, b);
        assert Refers(blocks, t'[j], b);
      }
    }
  }

  lemma ReloadSame(sb: Super, owner: Owner, bits: seq<bool>, blocks: Disk, table: seq<Dinode>, owner': Owner, i: nat, n: Dinode)
    requires OwnedBy(sb, owner, bits, blocks, table) && i < |table| && OwnedBy(sb, owner', bits, blocks, table[i := n])
    ensures SameBlocks(blocks, table[i], n)
  {
    hide Ref;
    var t' := table[i := n];
    forall b | b > 0 ensures Refers(blocks, table[i], b) <==> Refers(blocks, n, b) {
      OwnerRefers(sb, owner, bits, blocks, table, i, b);
      OwnerRefers(sb, owner', bits, blocks, t', i, b);
      if Refers(blocks, table[i], b) && !Refers(blocks, n, b) {
        var j := owner'[b].0;
        OwnerRefers(sb, owner', bits, blocks, t', j, b);
        OwnerRefers(sb, owner, bits, blocks, table, j, b);
      }
      if Refers(blocks, n, b) && !Refers(blocks, table[i], b) {
        var j := owner[b].0;
        OwnerRefers(sb, owner, bits, blocks, table, j, b);
        OwnerRefers(sb, owner', bits, blocks, t', j, b);
      }
    }
    forall s, t | 0 <= s < NSLOT && 0 <= t < NSLOT && Ref(blocks, n, s) != 0 && Ref(blocks, n, s) == Ref(blocks, n, t)
      ensures s == t
    {
      assert t'[i] == n;
    }
  }

  /** Ownership survives the replacement of an inode exactly when the two copies refer to the same blocks. */
  lemma ReloadIff(sb: Super, owner: Owner, bits: seq<bool>, blocks: Disk, table: seq<Dinode>, i: nat, n: Dinode)
    requires OwnedBy(sb, owner, bits, blocks, table) && i < |table|
    ensures Ownership(sb, bits, blocks, table[i := n]) <==> SameBlocks(blocks, table[i], n)
  {
    hide OwnedBy;
    hide Ownership;
    hide SameBlocks;
    if SameBlocks(blocks, table[i], n) {
      ReloadOwned(sb, owner, bits, blocks, table, i, n);
    }
    if Ownership(sb, bits, blocks, table[i := n]) {
      var owner' := OwnershipIsOwned(sb, bits, blocks, table[i := n]);
      ReloadSame(sb, owner, bits, blocks, table, owner', i, n);
    }
  }

  /** A copy with the same numbers is the same. */
  lemma SavedIsSame(sb: Super, owner: Owner, bits: seq<bool>, blocks: Disk, table: seq<Dinode>, i: nat, n: Dinode)
    requires OwnedBy(sb, owner, bits, blocks, table) && i < |table| && n.addrs == table[i].addrs
    ensures SameBlocks(blocks, table[i], n)
  {
    hide Word;
    forall s | 0 <= s < NSLOT ensures Ref(blocks, n, s) == Ref(blocks, table[i], s) {
    }
    hide Ref;
  }
}
