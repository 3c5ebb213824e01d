// Blocks and contents of files (fs.c): the bitmap allocator, bmap, itrunc, readi and
// writei, on the disk that the log and the buffer cache present.
module FileSystem {
  import opened Blocks
  import opened Common
  import opened BlockMap

  const BPB: nat := 4096
  const IPB: nat := 8
  const MAXSIZE: nat := MAXFILE * BSIZE
  const DIRENT: nat := 16   // sizeof(struct dirent)
  const T_DIR: int := 1

  /** Block of the free map with the bit of block b. */
  function BitBlock(sb: Super, b: nat): nat {
    b / BPB + sb.bmapstart
  }

  function InodeBlock(sb: Super, inum: nat): nat {
    inum / IPB + sb.inodestart
  }

  lemma SameBitBlock(k: nat, bi: nat)
    requires bi < BPB
    ensures (k * BPB + bi) / BPB == k * BPB / BPB == k
  {
  }

  // ----- Changes and the log -----

  /** Bitmap, blocks and inode table as the log will commit them, and the blocks logged so far. */
  datatype Store = Store(bits: seq<bool>, blocks: Disk, dinodes: seq<Dinode>, logged: set<nat>)

  /** A block of inodes, of the bitmap or of data. */
  ghost predicate InFs(sb: Super, ninodes: nat, x: nat) {
    || (exists i: nat :: i < ninodes && x == InodeBlock(sb, i))
    || (exists b: nat :: b < sb.size && x == BitBlock(sb, b))
    || sb.data <= x < sb.size
  }

  /** From s0 to s every block that changed was logged, and only blocks of the file system were. */
  ghost predicate Covers(sb: Super, s0: Store, s: Store) {
    && |s.bits| == |s0.bits| && |s.blocks| == |s0.blocks| && |s.dinodes| == |s0.dinodes| && s0.logged <= s.logged
    && (forall b :: 0 <= b < |s.blocks| && s.blocks[b] != s0.blocks[b] ==> b in s.logged)
    && (forall b :: 0 <= b < |s.bits| && s.bits[b] != s0.bits[b] ==> BitBlock(sb, b) in s.logged)
    && (forall i :: 0 <= i < |s.dinodes| && s.dinodes[i] != s0.dinodes[i] ==> InodeBlock(sb, i) in s.logged)
    && (forall x :: x in s.logged && x !in s0.logged ==> InFs(sb, |s.dinodes|, x))
  }

  lemma CoversTrans(sb: Super, s0: Store, s1: Store, s2: Store)
    requires Covers(sb, s0, s1) && Covers(sb, s1, s2)
    ensures Covers(sb, s0, s2)
  {
    hide InFs;
  }

  lemma CoversSelf(sb: Super, s: Store)
    ensures Covers(sb, s, s)
  {
  }

  /** A logged write of a data block. */
  lemma CoversData(sb: Super, s: Store, a: nat, data: Block)
    requires sb.data <= a < sb.size == |s.blocks|
    ensures Covers(sb, s, s.(blocks := s.blocks[a := data], logged := s.logged + {a}))
  {
  }

  /** A logged change of one bit. */
  lemma CoversBit(sb: Super, s: Store, b: nat, v: bool)
    requires b < |s.bits| == sb.size
    ensures Covers(sb, s, s.(bits := s.bits[b := v], logged := s.logged + {BitBlock(sb, b)}))
  {
  }

  /** A logged change of one inode. */
  lemma CoversInode(sb: Super, s: Store, i: nat, n: Dinode)
    requires i < |s.dinodes|
    ensures Covers(sb, s, s.(dinodes := s.dinodes[i := n], logged := s.logged + {InodeBlock(sb, i)}))
  {
  }

  /** A new block: its bit, its zeroes and, in an indirect block, its number. */
  lemma CoversGrow(sb: Super, s: Store, n: Dinode, slot: nat, b: nat)
    requires |s.bits| == |s.blocks| == sb.size <= WORDMAX && sb.data <= b < sb.size && slot < NSLOT
    requires NDIRECT <= slot < INDIRECT ==> sb.data <= n.addrs[NDIRECT] < sb.size
    ensures Covers(sb, s, Store(s.bits[b := true], StoreBlock(s.blocks[b := ZeroBlock()], n, slot, b), s.dinodes,
                                s.logged + {BitBlock(sb, b), b} + if NDIRECT <= slot < INDIRECT then {n.addrs[NDIRECT]} else {}))
  {
    hide SetWord;
    hide ZeroBlock;
    hide InFs;
    var s1 := s.(bits := s.bits[b := true], logged := s.logged + {BitBlock(sb, b)});
    CoversBit(sb, s, b, true);
    var s2 := s1.(blocks := s1.blocks[b := ZeroBlock()], logged := s1.logged + {b});
    CoversData(sb, s1, b, ZeroBlock());
    CoversTrans(sb, s, s1, s2);
    assert s2.logged == s.logged + {BitBlock(sb, b), b};
    if NDIRECT <= slot < INDIRECT {
      var t := n.addrs[NDIRECT];
      var d := SetWord(s2.blocks[t], slot - NDIRECT, b);
      CoversData(sb, s2, t, d);
      CoversTrans(sb, s, s2, s2.(blocks := s2.blocks[t := d], logged := s2.logged + {t}));
    }
  }

  // ----- Free blocks -----

  ghost predicate HasFree(bits: seq<bool>) {
    exists b :: 0 <= b < |bits| && !bits[b]
  }

  ghost predicate HasTwo(bits: seq<bool>) {
    exists b, c :: 0 <= b < c < |bits| && !bits[b] && !bits[c]
  }

  lemma OneFree(bits: seq<bool>)
    ensures HasTwo(bits) ==> HasFree(bits)
  {
  }

  /** With block t taken one is left exactly when there were two. */
  lemma TwoFree(bits: seq<bool>, t: nat)
    requires t < |bits| && !bits[t]
    ensures HasFree(bits[t := true]) <==> HasTwo(bits)
  {
    if HasFree(bits[t := true]) {
      var b :| 0 <= b < |bits| && !bits[t := true][b];
      assert !bits[if b < t then b else t] && !bits[if b < t then t else b];
    }
    if HasTwo(bits) {
      var b, c :| 0 <= b < c < |bits| && !bits[b] && !bits[c];
      assert !bits[t := true][if b == t then c else b];
    }
  }

  lemma TableSlot(blocks: Disk, n: Dinode)
    ensures Ref(blocks, n, INDIRECT) == n.addrs[NDIRECT]
  {
  }

  lemma NoTableRef(blocks: Disk, n: Dinode, bn: nat)
    requires NDIRECT <= bn < MAXFILE && n.addrs[NDIRECT] == 0
    ensures Ref(blocks, n, bn) == 0
  {
  }

  /** What bmap reads for a block whose indirect block, if it needs one, is there. */
  lemma SlotIs(blocks: Disk, n: Dinode, bn: nat)
    requires bn < MAXFILE && (bn >= NDIRECT ==> 0 < n.addrs[NDIRECT] < |blocks|)
    ensures Ref(blocks, n, bn) == if bn < NDIRECT then n.addrs[bn] else Word(blocks[n.addrs[NDIRECT]], bn - NDIRECT)
  {
  }

  lemma OthersSelf(blocks: Disk, table: seq<Dinode>, i: nat)
    ensures OthersKept(blocks, blocks, table, i)
  {
  }

  /** Every block below len bytes is mapped. */
  ghost predicate MappedTo(blocks: Disk, n: Dinode, len: nat) {
    forall bn :: 0 <= bn < MAXFILE && bn * BSIZE < len ==> Ref(blocks, n, bn) != 0
  }

  /** The file as a byte sequence. */
  ghost function Content(blocks: Disk, n: Dinode): (c: seq<byte>)
    requires n.size <= MAXSIZE
    ensures |c| == n.size
  {
    seq(n.size, p requires 0 <= p < n.size => Byte(blocks, n, p))
  }

  function Splice(c: seq<byte>, off: nat, src: seq<byte>): (r: seq<byte>)
    requires off <= |c|
  {
    c[..off] + src + if off + |src| < |c| then c[off + |src|..] else []
  }

  /** An inode that ialloc may take has no blocks: itrunc came before its type was cleared. */
  ghost predicate FreeEmpty(dinodes: seq<Dinode>) {
    forall i :: 1 <= i < |dinodes| && dinodes[i].typ == 0 ==> dinodes[i].addrs == NoAddrs()
  }

  /** -1, a panic, or the number of bytes. */
  datatype Io = Fail | Panic | Count(n: nat)

  // ----- Progress of a write -----

  function Max(a: nat, b: nat): nat { if a > b then a else b }

  /** tot bytes of src are in place at off; all other bytes are unchanged. */
  ghost predicate Progress(blocks0: Disk, n0: Dinode, blocks: Disk, n: Dinode, off: nat, src: seq<byte>, tot: nat)
    requires tot <= |src| && off + tot <= MAXSIZE && n0.size <= MAXSIZE
  {
    && (forall p :: off <= p < off + tot ==> Byte(blocks, n, p) == src[p - off])
    && (forall p :: 0 <= p < MAXSIZE && !(off <= p < off + tot) ==> Byte(blocks, n, p) == Byte(blocks0, n0, p))
  }

  /** References and bytes do not depend on an inode's size, type or link count. */
  lemma SizeOnly(sb: Super, owner: Owner, bits: seq<bool>, blocks: Disk, table: seq<Dinode>, i: nat, n: Dinode)
    requires OwnedBy(sb, owner, bits, blocks, table) && i < |table| && n.addrs == table[i].addrs
    ensures OwnedBy(sb, owner, bits, blocks, table[i := n])
    ensures forall s :: 0 <= s < NSLOT ==> Ref(blocks, n, s) == Ref(blocks, table[i], s)
    ensures forall p :: 0 <= p < MAXSIZE ==> Byte(blocks, n, p) == Byte(blocks, table[i], p)
  {
    hide Word;
    forall s | 0 <= s < NSLOT ensures Ref(blocks, n, s) == Ref(blocks, table[i], s) {
    }
  }

  lemma SpliceDone(blocks0: Disk, n0: Dinode, blocks: Disk, n: Dinode, off: nat, src: seq<byte>)
    requires off <= n0.size <= MAXSIZE && off + |src| <= MAXSIZE
    requires Progress(blocks0, n0, blocks, n, off, src, |src|)
    requires n.size == if off + |src| > n0.size then off + |src| else n0.size
    ensures Content(blocks, n) == Splice(Content(blocks0, n0), off, src)
  {
    hide Byte;
    var c := Splice(Content(blocks0, n0), off, src);
    forall p | 0 <= p < n.size ensures Content(blocks, n)[p] == c[p] {
    }
  }

  /** A finished loop, with the size set: the spliced contents, mapped as before. */
  lemma FinishWrite(sb: Super, owner: Owner, bits: seq<bool>, blocks: Disk, table: seq<Dinode>, i: nat,
                    blocks0: Disk, n0: Dinode, off: nat, src: seq<byte>)
    requires OwnedBy(sb, owner, bits, blocks, table) && i < |table|
    requires off <= n0.size <= MAXSIZE && off + |src| <= MAXSIZE && table[i].size == n0.size
    requires Progress(blocks0, n0, blocks, table[i], off, src, |src|)
    ensures var n := table[i].(size := if off + |src| > n0.size then off + |src| else n0.size);
            && OwnedBy(sb, owner, bits, blocks, table[i := n])
            && Content(blocks, n) == Splice(Content(blocks0, n0), off, src)
            && (MappedTo(blocks, table[i], n.size) ==> MappedTo(blocks, n, n.size))
  {
    hide Ref;
    hide Byte;
    hide Content;
    hide Splice;
    hide BitsExact;
    hide RefsOwned;
    hide OwnersRefer;
    var n := table[i].(size := if off + |src| > n0.size then off + |src| else n0.size);
    SizeOnly(sb, owner, bits, blocks, table, i, n);
    SpliceDone(blocks0, n0, blocks, n, off, src);
  }

  lemma ProgressStep(blocks0: Disk, n0: Dinode, blocks1: Disk, n1: Dinode, blocks2: Disk, n2: Dinode,
                     off: nat, src: seq<byte>, tot: nat, m: nat)
    requires 0 < m && tot + m <= |src| && off + tot + m <= MAXSIZE && n0.size <= MAXSIZE && off <= n0.size
    requires Progress(blocks0, n0, blocks1, n1, off, src, tot)
    requires forall p :: off + tot <= p < off + tot + m ==> Byte(blocks2, n2, p) == src[tot..tot + m][p - (off + tot)]
    requires forall p :: 0 <= p < MAXSIZE && !(off + tot <= p < off + tot + m) ==> Byte(blocks2, n2, p) == Byte(blocks1, n1, p)
    ensures Progress(blocks0, n0, blocks2, n2, off, src, tot + m)
  {
    hide Byte;
  }

  /** In a file mapped up to its end o only a block that starts past it is new. */
  lemma MappedStep(blocks1: Disk, n1: Dinode, blocks2: Disk, n2: Dinode, size: nat, o: nat, m: nat)
    requires 0 < m && o + m <= MAXSIZE && o % BSIZE + m <= BSIZE && MappedTo(blocks1, n1, Max(o, size))
    requires Ref(blocks2, n2, o / BSIZE) != 0
    requires forall t :: 0 <= t < MAXFILE && t != o / BSIZE ==> Ref(blocks2, n2, t) == Ref(blocks1, n1, t)
    ensures MappedTo(blocks2, n2, Max(o + m, size))
    ensures Ref(blocks1, n1, o / BSIZE) == 0 ==> o % BSIZE == 0 && o >= size
  {
    hide Ref;
    var bn := o / BSIZE;
    if Ref(blocks1, n1, bn) == 0 {
      assert bn * BSIZE >= o && bn * BSIZE >= size;
    }
    forall t | 0 <= t < MAXFILE && t * BSIZE < Max(o + m, size)
      ensures Ref(blocks2, n2, t) != 0
    {
      if t != bn {
        assert t * BSIZE < Max(o, size);
      }
    }
  }

  lemma WriteStart(blocks: Disk, n: Dinode, table: seq<Dinode>, i: nat, off: nat, src: seq<byte>)
    requires off <= n.size <= MAXSIZE && off + |src| <= MAXSIZE
    ensures Progress(blocks, n, blocks, n, off, src, 0)
    ensures OthersKept(blocks, blocks, table, i)
    ensures Accounted(Account(0, 0, {}, {}), off, 0, |src|, n, n.addrs, {})
  {
    hide Ref;
    hide Byte;
  }

  // ----- Blocks logged by a write -----

  /** it blocks written so far, grown of them new; the data and bitmap blocks logged for them. */
  datatype Account = Account(it: nat, grown: nat, data: set<nat>, maps: set<nat>)

  /** it blocks hold tot of n bytes written at off; grown of them, never a first partial one, are new. */
  ghost predicate Positioned(it: nat, grown: nat, off: nat, tot: nat, n: nat) {
    && grown <= it && (off % BSIZE != 0 && it > 0 ==> grown < it)
    && (it == 0 <==> tot == 0)
    && (it > 0 ==> (it - 1) * BSIZE < tot + off % BSIZE <= it * BSIZE)
    && (0 < tot < n ==> tot + off % BSIZE == it * BSIZE)
  }

  ghost function Indirect(addrs: Addrs): set<nat> {
    if addrs[NDIRECT] == 0 then {} else {addrs[NDIRECT]}
  }

  /** extra is what has been logged; what is new lies past the old end of the file. */
  ghost predicate Tallied(c: Account, end: nat, n0: Dinode, addrs: Addrs, extra: set<nat>) {
    && |c.data| <= c.it && |c.maps| <= c.grown + (if addrs[NDIRECT] == n0.addrs[NDIRECT] then 0 else 1)
    && extra <= c.data + c.maps + Indirect(addrs)
    && (n0.addrs[NDIRECT] != 0 ==> addrs[NDIRECT] == n0.addrs[NDIRECT])
    && (c.grown == 0 ==> addrs == n0.addrs)
    && (c.grown > 0 ==> end > n0.size)
  }

  ghost predicate Accounted(c: Account, off: nat, tot: nat, n: nat, n0: Dinode, addrs: Addrs, extra: set<nat>) {
    Positioned(c.it, c.grown, off, tot, n) && Tallied(c, off + tot, n0, addrs, extra)
  }

  lemma PositionStep(it: nat, grown: nat, off: nat, tot: nat, m: nat, n: nat, grew: bool)
    requires Positioned(it, grown, off, tot, n)
    requires tot < n && m == (if n - tot < BSIZE - (off + tot) % BSIZE then n - tot else BSIZE - (off + tot) % BSIZE)
    requires grew ==> (off + tot) % BSIZE == 0
    ensures Positioned(it + 1, if grew then grown + 1 else grown, off, tot + m, n)
  {
    if tot > 0 {
      assert off + tot == (off / BSIZE + it) * BSIZE;
      assert (off + tot) % BSIZE == 0;
    }
  }

  ghost function NewMaps(sb: Super, a: nat, grew: bool, addrs: Addrs, addrs': Addrs): set<nat> {
    (if grew then {BitBlock(sb, a)} else {})
    + (if addrs'[NDIRECT] == addrs[NDIRECT] then {} else {BitBlock(sb, addrs'[NDIRECT])})
  }

  ghost function AccountNext(sb: Super, c: Account, a: nat, grew: bool, addrs: Addrs, addrs': Addrs): Account {
    Account(c.it + 1, if grew then c.grown + 1 else c.grown, c.data + {a}, c.maps + NewMaps(sb, a, grew, addrs, addrs'))
  }

  /** What a write into block bn of a file logs: the block and, if it is new, what allocating it changed. */
  ghost function ChunkLog(sb: Super, bn: nat, a: nat, grew: bool, addrs: Addrs, addrs': Addrs): set<nat> {
    if !grew then {a}
    else if bn < NDIRECT then {a, BitBlock(sb, a)}
    else if addrs[NDIRECT] != 0 then {a, BitBlock(sb, a), addrs'[NDIRECT]}
    else {a, BitBlock(sb, a), addrs'[NDIRECT], BitBlock(sb, addrs'[NDIRECT])}
  }

  lemma ChunkLogIn(sb: Super, bn: nat, a: nat, grew: bool, addrs: Addrs, addrs': Addrs)
    requires grew && bn >= NDIRECT ==> addrs'[NDIRECT] != 0
    ensures ChunkLog(sb, bn, a, grew, addrs, addrs') <= {a} + NewMaps(sb, a, grew, addrs, addrs') + Indirect(addrs')
  {
  }

  /** The blocks logged for one block of the file and for its inode, which is in end. */
  ghost predicate OneBlock(sb: Super, blocks0: Disk, n0: Dinode, blocks: Disk, n: Dinode, bn: nat, end: set<nat>,
                           log0: set<nat>, log: set<nat>)
    requires bn < MAXFILE
  {
    && log == log0 + ChunkLog(sb, bn, Ref(blocks, n, bn), Ref(blocks0, n0, bn) == 0, n0.addrs, n.addrs) + end
    && Ref(blocks, n, bn) != 0 && (bn >= NDIRECT ==> n.addrs[NDIRECT] != 0)
    && (bn < NDIRECT ==> n.addrs[NDIRECT] == n0.addrs[NDIRECT])
    && (Ref(blocks0, n0, bn) != 0 ==> n.addrs == n0.addrs)
  }

  lemma OneBlockIs(sb: Super, blocks0: Disk, n0: Dinode, blocks: Disk, n: Dinode, bn: nat, log0: set<nat>, log: set<nat>,
                   a: nat, grew: bool)
    requires bn < MAXFILE && a == Ref(blocks, n, bn) && (grew <==> Ref(blocks0, n0, bn) == 0)
    requires log == log0 + ChunkLog(sb, bn, a, grew, n0.addrs, n.addrs)
    requires a != 0 && (bn >= NDIRECT ==> n.addrs[NDIRECT] != 0)
    requires (bn < NDIRECT ==> n.addrs[NDIRECT] == n0.addrs[NDIRECT]) && (grew || n.addrs == n0.addrs)
    ensures OneBlock(sb, blocks0, n0, blocks, n, bn, {}, log0, log)
  {
    hide ChunkLog;
  }

  /** The same with the inode's block, if the file got longer. */
  ghost predicate OneLogged(sb: Super, blocks0: Disk, n0: Dinode, blocks: Disk, n: Dinode, off: nat, i: nat,
                            log0: set<nat>, log: set<nat>) {
    && off / BSIZE < MAXFILE
    && OneBlock(sb, blocks0, n0, blocks, n, off / BSIZE, if n.size == n0.size then {} else {InodeBlock(sb, i)}, log0, log)
  }

  lemma OneLoggedIs(sb: Super, blocks0: Disk, n0: Dinode, blocks: Disk, n: Dinode, n': Dinode, off: nat, i: nat,
                    log0: set<nat>, log1: set<nat>, log: set<nat>)
    requires off < MAXSIZE && OneBlock(sb, blocks0, n0, blocks, n, off / BSIZE, {}, log0, log1) && n'.addrs == n.addrs
    requires log == log1 + if n'.size == n0.size then {} else {InodeBlock(sb, i)}
    ensures OneLogged(sb, blocks0, n0, blocks, n', off, i, log0, log)
  {
    hide ChunkLog;
    assert Ref(blocks, n', off / BSIZE) == Ref(blocks, n, off / BSIZE);
  }

  /** What writei of len bytes logs: ten blocks at most for three blocks of data, and for one block exactly which. */
  ghost predicate WriteLogged(sb: Super, blocks0: Disk, n0: Dinode, blocks: Disk, n: Dinode, off: nat, len: nat, i: nat,
                              log0: set<nat>, log: set<nat>) {
    && (MappedTo(blocks0, n0, n0.size) && len <= 3 * BSIZE ==> |log - log0| <= MAXOPBLOCKS)
    && (0 < len && off % BSIZE + len <= BSIZE ==> OneLogged(sb, blocks0, n0, blocks, n, off, i, log0, log))
  }

  lemma SetEndCovers(sb: Super, s: Store, i: nat, n: Dinode, same: bool, s': Store)
    requires i < |s.dinodes|
    requires s' == s.(dinodes := if same then s.dinodes else s.dinodes[i := n],
                      logged := s.logged + if same then {} else {InodeBlock(sb, i)})
    ensures Covers(sb, s, s')
  {
    hide Covers;
    if same {
      CoversSelf(sb, s);
      assert s.logged + {} == s.logged;
    } else {
      CoversInode(sb, s, i, n);
    }
  }

  lemma WriteLoggedIs(sb: Super, blocks0: Disk, n0: Dinode, blocks: Disk, n: Dinode, n': Dinode, off: nat, len: nat, i: nat,
                      acct: Account, log0: set<nat>, log1: set<nat>, log: set<nat>)
    requires off + len <= MAXSIZE && n'.addrs == n.addrs
    requires MappedTo(blocks0, n0, n0.size) ==> Accounted(acct, off, len, len, n0, n.addrs, log1 - log0)
    requires 0 < len && off % BSIZE + len <= BSIZE ==> OneBlock(sb, blocks0, n0, blocks, n, off / BSIZE, {}, log0, log1)
    requires log == log1 + if n'.size == n0.size then {} else {InodeBlock(sb, i)}
    ensures WriteLogged(sb, blocks0, n0, blocks, n', off, len, i, log0, log)
  {
    hide OneBlock;
    hide OneLogged;
    hide Accounted;
    hide Ref;
    if MappedTo(blocks0, n0, n0.size) && len <= 3 * BSIZE {
      AccountBound(acct, off, len, n0, n.addrs, log1 - log0, InodeBlock(sb, i));
      SubsetSize(log - log0, (log1 - log0) + {InodeBlock(sb, i)});
    }
    if 0 < len && off % BSIZE + len <= BSIZE {
      OneLoggedIs(sb, blocks0, n0, blocks, n, n', off, i, log0, log1, log);
    }
  }

  lemma NewMapsSize(sb: Super, a: nat, grew: bool, addrs: Addrs, addrs': Addrs)
    ensures |NewMaps(sb, a, grew, addrs, addrs')|
            <= (if grew then 1 else 0) + (if addrs'[NDIRECT] == addrs[NDIRECT] then 0 else 1)
  {
  }

  lemma AccountStep(sb: Super, c: Account, off: nat, tot: nat, m: nat, n: nat, n0: Dinode, addrs: Addrs, addrs': Addrs,
                    extra: set<nat>, extra': set<nat>, a: nat, grew: bool)
    requires Accounted(c, off, tot, n, n0, addrs, extra)
    requires tot < n && m == (if n - tot < BSIZE - (off + tot) % BSIZE then n - tot else BSIZE - (off + tot) % BSIZE)
    requires addrs[NDIRECT] != 0 ==> addrs'[NDIRECT] == addrs[NDIRECT]
    requires !grew ==> addrs' == addrs
    requires grew ==> (off + tot) % BSIZE == 0 && off + tot >= n0.size
    requires extra' <= extra + {a} + NewMaps(sb, a, grew, addrs, addrs') + Indirect(addrs')
    ensures Accounted(AccountNext(sb, c, a, grew, addrs, addrs'), off, tot + m, n, n0, addrs', extra')
  {
    hide Positioned;
    hide NewMaps;
    PositionStep(c.it, c.grown, off, tot, m, n, grew);
    hide Indirect;
    TallyStep(sb, c, off + tot, off + tot + m, n0, addrs, addrs', extra, extra', a, grew);
  }

  lemma TallyStep(sb: Super, c: Account, end: nat, end': nat, n0: Dinode, addrs: Addrs, addrs': Addrs,
                  extra: set<nat>, extra': set<nat>, a: nat, grew: bool)
    requires Tallied(c, end, n0, addrs, extra) && end < end'
    requires addrs[NDIRECT] != 0 ==> addrs'[NDIRECT] == addrs[NDIRECT]
    requires !grew ==> addrs' == addrs
    requires grew ==> end >= n0.size
    requires extra' <= extra + {a} + NewMaps(sb, a, grew, addrs, addrs') + Indirect(addrs')
    ensures Tallied(AccountNext(sb, c, a, grew, addrs, addrs'), end', n0, addrs', extra')
  {
    hide NewMaps;
    hide Indirect;
    var maps := NewMaps(sb, a, grew, addrs, addrs');
    UnionSize(c.data, {a});
    UnionSize(c.maps, maps);
    NewMapsSize(sb, a, grew, addrs, addrs');
    IndirectGrows(addrs, addrs');
    SetStep(extra, extra', c.data, c.maps, Indirect(addrs), Indirect(addrs'), {a}, maps);
  }

  lemma IndirectGrows(addrs: Addrs, addrs': Addrs)
    requires addrs[NDIRECT] != 0 ==> addrs'[NDIRECT] == addrs[NDIRECT]
    ensures Indirect(addrs) <= Indirect(addrs')
  {
  }

  lemma SetStep(e: set<nat>, e': set<nat>, d: set<nat>, m: set<nat>, i: set<nat>, i': set<nat>, a: set<nat>, x: set<nat>)
    requires e <= d + m + i && i <= i' && e' <= e + a + x + i'
    ensures e' <= (d + a) + (m + x) + i'
  {
  }

  lemma UnionSize(s: set<nat>, t: set<nat>)
    ensures |s + t| <= |s| + |t|
  {
  }

  lemma OthersTrans(blocks0: Disk, blocks1: Disk, blocks2: Disk, table: seq<Dinode>, i: nat)
    requires OthersKept(blocks0, blocks1, table, i) && OthersKept(blocks1, blocks2, table, i)
    ensures OthersKept(blocks0, blocks2, table, i)
  {
    hide Byte;
    hide Ref;
  }

  /** Either no block was added, or the file got longer. */
  lemma GrowthIsPastEnd(c: Account, off: nat, n: nat, n0: Dinode, addrs: Addrs, extra: set<nat>)
    requires Accounted(c, off, n, n, n0, addrs, extra)
    ensures addrs == n0.addrs || (n > 0 && off + n > n0.size)
  {
  }

  /** At worst 4 data blocks, 4 bitmap blocks, the indirect block and the inode's block. */
  lemma AccountBound(c: Account, off: nat, n: nat, n0: Dinode, addrs: Addrs, extra: set<nat>, inodeBlock: nat)
    requires n <= 3 * BSIZE && Accounted(c, off, n, n, n0, addrs, extra)
    ensures |extra + {inodeBlock}| <= MAXOPBLOCKS
  {
    var ind := Indirect(addrs);
    assert c.it <= 4 && c.grown <= 3;
    UnionSize(c.data, c.maps);
    UnionSize(c.data + c.maps, ind);
    UnionSize(c.data + c.maps + ind, {inodeBlock});
    SubsetSize(extra + {inodeBlock}, c.data + c.maps + ind + {inodeBlock});
  }

  // ----- Reading through holes -----

  /** Every block with a byte from lo to hi - 1 is mapped. */
  ghost predicate MappedIn(blocks: Disk, n: Dinode, lo: nat, hi: nat) {
    forall bn :: 0 <= bn < MAXFILE && lo < (bn + 1) * BSIZE && bn * BSIZE < hi && lo < hi ==> Ref(blocks, n, bn) != 0
  }

  /** The inode itself has a number for every such block: its own, or the indirect block's. */
  ghost predicate AddrsFor(addrs: Addrs, lo: nat, hi: nat) {
    forall bn :: 0 <= bn < MAXFILE && lo < (bn + 1) * BSIZE && bn * BSIZE < hi && lo < hi ==>
      addrs[if bn < NDIRECT then bn else NDIRECT] != 0
  }

  /** No number in the inode has been replaced. */
  ghost predicate AddrsKept(a: Addrs, a': Addrs) {
    forall k :: 0 <= k <= NDIRECT && a[k] != 0 ==> a'[k] == a[k]
  }

  /** How far from lo on the blocks were mapped when reading started, told by what changed since. */
  ghost predicate Reading(s0: Store, n0: Dinode, s: Store, n: Dinode, lo: nat, hi: nat) {
    && |s.bits| == |s0.bits| && (forall b :: 0 <= b < |s.bits| && s0.bits[b] ==> s.bits[b])
    && (MappedIn(s0.blocks, n0, lo, hi) ==> s == s0 && n.addrs == n0.addrs)
    && (!MappedIn(s0.blocks, n0, lo, hi) ==> exists b :: 0 <= b < |s.bits| && s.bits[b] && !s0.bits[b])
    && (AddrsFor(n0.addrs, lo, hi) <==> n.addrs == n0.addrs)
    && AddrsKept(n0.addrs, n.addrs)
    && (forall bn :: 0 <= bn < MAXFILE && Ref(s0.blocks, n0, bn) != 0 ==> Ref(s.blocks, n, bn) == Ref(s0.blocks, n0, bn))
    && (forall bn :: 0 <= bn < MAXFILE && hi <= bn * BSIZE ==> Ref(s.blocks, n, bn) == Ref(s0.blocks, n0, bn))
    && (forall k :: 0 <= k < NDIRECT && hi <= k * BSIZE ==> n.addrs[k] == n0.addrs[k])
  }

  lemma ReadStart(s: Store, n: Dinode, lo: nat)
    ensures Reading(s, n, s, n, lo, lo)
  {
    hide Ref;
  }

  lemma ReadDone(s0: Store, n0: Dinode, s: Store, n: Dinode, lo: nat, hi: nat)
    requires Reading(s0, n0, s, n, lo, hi)
    ensures (s == s0 <==> MappedIn(s0.blocks, n0, lo, hi)) && (n.addrs == n0.addrs <==> AddrsFor(n0.addrs, lo, hi))
    ensures AddrsKept(n0.addrs, n.addrs)
  {
    hide Ref;
    hide MappedIn;
    hide AddrsFor;
  }

  lemma MappedMore(blocks: Disk, n: Dinode, lo: nat, o: nat, m: nat)
    requires lo <= o && 0 < m && o % BSIZE + m <= BSIZE && o + m <= MAXSIZE
    ensures MappedIn(blocks, n, lo, o + m) <==> MappedIn(blocks, n, lo, o) && Ref(blocks, n, o / BSIZE) != 0
  {
    hide Ref;
    var bn := o / BSIZE;
    if MappedIn(blocks, n, lo, o) && Ref(blocks, n, bn) != 0 {
      forall t | 0 <= t < MAXFILE && lo < (t + 1) * BSIZE && t * BSIZE < o + m ensures Ref(blocks, n, t) != 0 {
        assert t <= bn;
      }
    }
    assert lo < (bn + 1) * BSIZE && bn * BSIZE < o + m;
  }

  lemma AddrsMore(addrs: Addrs, lo: nat, o: nat, m: nat)
    requires lo <= o && 0 < m && o % BSIZE + m <= BSIZE && o + m <= MAXSIZE
    ensures var bn := o / BSIZE;
            AddrsFor(addrs, lo, o + m) <==> AddrsFor(addrs, lo, o) && addrs[if bn < NDIRECT then bn else NDIRECT] != 0
  {
    var bn := o / BSIZE;
    if AddrsFor(addrs, lo, o) && addrs[if bn < NDIRECT then bn else NDIRECT] != 0 {
      forall t | 0 <= t < MAXFILE && lo < (t + 1) * BSIZE && t * BSIZE < o + m
        ensures addrs[if t < NDIRECT then t else NDIRECT] != 0
      {
        assert t <= bn;
      }
    }
    assert lo < (bn + 1) * BSIZE && bn * BSIZE < o + m;
  }

  /** The block about to be read is as it was at the start. */
  lemma ReadSame(s0: Store, n0: Dinode, s1: Store, n1: Dinode, lo: nat, o: nat)
    requires Reading(s0, n0, s1, n1, lo, o) && n1 == n0.(addrs := n1.addrs) && lo <= o < MAXSIZE && (o == lo || o % BSIZE == 0)
    ensures Ref(s1.blocks, n1, o / BSIZE) == Ref(s0.blocks, n0, o / BSIZE)
  {
    hide Ref;
    if o == lo {
      assert MappedIn(s0.blocks, n0, lo, o);
    } else {
      assert o <= o / BSIZE * BSIZE;
    }
  }

  /** A hole with a byte from lo to hi - 1, and fewer than two free blocks if it is the first one. */
  ghost predicate Stopped(s: Store, n: Dinode, lo: nat, hi: nat) {
    exists bn :: 0 <= bn < MAXFILE && lo < (bn + 1) * BSIZE && bn * BSIZE < hi && lo < hi && Ref(s.blocks, n, bn) == 0
                 && (MappedIn(s.blocks, n, lo, bn * BSIZE) ==> !HasTwo(s.bits))
  }

  lemma ReadHole(s0: Store, n0: Dinode, s1: Store, n1: Dinode, lo: nat, o: nat, hi: nat)
    requires Reading(s0, n0, s1, n1, lo, o) && n1 == n0.(addrs := n1.addrs) && lo <= o < hi <= MAXSIZE && (o == lo || o % BSIZE == 0)
    requires Ref(s1.blocks, n1, o / BSIZE) == 0 && !HasTwo(s1.bits)
    ensures Stopped(s0, n0, lo, hi)
  {
    ReadSame(s0, n0, s1, n1, lo, o);
    hide Ref;
    hide HasTwo;
    var bn := o / BSIZE;
    assert lo < (bn + 1) * BSIZE && bn * BSIZE < hi && Ref(s0.blocks, n0, bn) == 0;
    if MappedIn(s0.blocks, n0, lo, bn * BSIZE) {
      assert o == lo || o == bn * BSIZE;
      assert MappedIn(s0.blocks, n0, lo, o);
    }
  }

  lemma StoppedHole(s: Store, n: Dinode, lo: nat, hi: nat)
    requires Stopped(s, n, lo, hi)
    ensures !MappedIn(s.blocks, n, lo, hi)
  {
    hide Ref;
    hide HasTwo;
  }

  /** What bmap of block bn does to store and inode. */
  ghost predicate BmapDone(s1: Store, n1: Dinode, s2: Store, n2: Dinode, bn: nat, a: nat)
    requires bn < MAXFILE
  {
    && 0 < a < |s2.bits| == |s1.bits| && s2.bits[a] && (forall b :: 0 <= b < |s1.bits| && s1.bits[b] ==> s2.bits[b])
    && Ref(s2.blocks, n2, bn) == a && (forall t :: 0 <= t < MAXFILE && t != bn ==> Ref(s2.blocks, n2, t) == Ref(s1.blocks, n1, t))
    && (Ref(s1.blocks, n1, bn) != 0 ==> s2 == s1 && n2.addrs == n1.addrs)
    && (Ref(s1.blocks, n1, bn) == 0 ==> !s1.bits[a])
    && n2.addrs == (if bn < NDIRECT then n1.addrs[bn := a] else n1.addrs[NDIRECT := n2.addrs[NDIRECT]])
    && (bn >= NDIRECT ==> n2.addrs[NDIRECT] != 0 && (n1.addrs[NDIRECT] != 0 ==> n2.addrs[NDIRECT] == n1.addrs[NDIRECT]))
  }

  /** The numbers in the inode after one more block. */
  lemma ReadAddrs(a0: Addrs, a1: Addrs, a2: Addrs, bn: nat, k: nat, a: nat)
    requires bn < MAXFILE && k == (if bn < NDIRECT then bn else NDIRECT) && 0 < a < WORDMAX && a == a2[k]
    requires a2 == a1[k := a] && (a1[k] != 0 ==> a1[k] == a)
    requires forall j :: 0 <= j <= NDIRECT && a0[j] != 0 ==> a1[j] == a0[j]
    ensures forall j :: 0 <= j <= NDIRECT && a0[j] != 0 ==> a2[j] == a0[j]
    ensures a2 == a0 <==> a1 == a0 && a0[k] != 0
  {
    if a1 != a0 {
      var j :| 0 <= j <= NDIRECT && a1[j] != a0[j];
      assert a2[j] != a0[j];
    }
  }

  lemma RefIgnoresSize(blocks: Disk, n: Dinode, n': Dinode, s: nat)
    requires s < NSLOT && n'.addrs == n.addrs
    ensures Ref(blocks, n', s) == Ref(blocks, n, s)
  {
  }

  lemma ReadStep(s0: Store, n0: Dinode, s1: Store, n1: Dinode, s2: Store, n2: Dinode, lo: nat, o: nat, m: nat, a: nat)
    requires Reading(s0, n0, s1, n1, lo, o) && n1 == n0.(addrs := n1.addrs) && lo <= o && (o == lo || o % BSIZE == 0)
    requires 0 < m && o % BSIZE + m <= BSIZE && o + m <= MAXSIZE && BmapDone(s1, n1, s2, n2, o / BSIZE, a)
    ensures Reading(s0, n0, s2, n2, lo, o + m)
  {
    hide Ref;
    hide MappedIn;
    hide AddrsFor;
    var bn := o / BSIZE;
    var k := if bn < NDIRECT then bn else NDIRECT;
    ReadSame(s0, n0, s1, n1, lo, o);
    MappedMore(s0.blocks, n0, lo, o, m);
    AddrsMore(n0.addrs, lo, o, m);
    DirectRef(s1.blocks, n1, bn);
    ReadAddrs(n0.addrs, n1.addrs, n2.addrs, bn, k, n2.addrs[k]);
    if Ref(s0.blocks, n0, bn) == 0 {
      assert s2.bits[a] && !s0.bits[a];
    } else {
      RefIgnoresSize(s1.blocks, n1, n2, bn);
    }
    forall t | 0 <= t < MAXFILE && o + m <= t * BSIZE ensures t != bn && o <= t * BSIZE {
    }
  }

  lemma DirectRef(blocks: Disk, n: Dinode, bn: nat)
    requires bn < MAXFILE
    ensures bn < NDIRECT ==> Ref(blocks, n, bn) == n.addrs[bn]
  {
  }

  lemma SameContent(blocks: Disk, n: Dinode, blocks': Disk, n': Dinode)
    requires n.size == n'.size <= MAXSIZE
    requires forall p :: 0 <= p < MAXSIZE ==> Byte(blocks', n', p) == Byte(blocks, n, p)
    ensures Content(blocks', n') == Content(blocks, n)
  {
    hide Byte;
  }

  lemma SizeOf(sb: Super, owner: Owner, bits: seq<bool>, blocks: Disk, table: seq<Dinode>)
    requires OwnedBy(sb, owner, bits, blocks, table)
    ensures |bits| == |blocks| == sb.size
  {
  }

  /** Part of one block is a slice of the file. */
  lemma BytesOfBlock(blocks: Disk, n: Dinode, o: nat, m: nat)
    requires n.size <= MAXSIZE && o + m <= n.size && o % BSIZE + m <= BSIZE && 0 < Ref(blocks, n, o / BSIZE) < |blocks|
    ensures Content(blocks, n)[o..o + m] == blocks[Ref(blocks, n, o / BSIZE)][o % BSIZE..o % BSIZE + m]
  {
    hide Ref;
    forall p | o <= p < o + m
      ensures Content(blocks, n)[p] == blocks[Ref(blocks, n, o / BSIZE)][o % BSIZE + p - o]
    {
      assert p / BSIZE == o / BSIZE && p % BSIZE == o % BSIZE + p - o;
    }
  }

  lemma SliceMore(c: seq<byte>, i: nat, j: nat, k: nat)
    requires i <= j <= k <= |c|
    ensures c[i..j] + c[j..k] == c[i..k]
  {
  }

  /** A piece put into block a of a file. */
  lemma ChunkBytes(blocks: Disk, n: Dinode, off: nat, piece: seq<byte>, a: nat, data: Block, blocks': Disk)
    requires 0 < |piece| && off + |piece| <= MAXSIZE && off % BSIZE + |piece| <= BSIZE
    requires Ref(blocks, n, off / BSIZE) == a && 0 < a < |blocks|
    requires data == blocks[a][..off % BSIZE] + piece + blocks[a][off % BSIZE + |piece|..]
    requires forall p :: 0 <= p < MAXSIZE ==>
               Byte(blocks', n, p) == if p / BSIZE == off / BSIZE then data[p % BSIZE] else Byte(blocks, n, p)
    ensures forall p :: off <= p < off + |piece| ==> Byte(blocks', n, p) == piece[p - off]
    ensures forall p :: 0 <= p < MAXSIZE && !(off <= p < off + |piece|) ==> Byte(blocks', n, p) == Byte(blocks, n, p)
  {
    var bn, o := off / BSIZE, off % BSIZE;
    forall p | 0 <= p < MAXSIZE && p / BSIZE == bn ensures Byte(blocks, n, p) == blocks[a][p % BSIZE] {
    }
    hide Byte;
    hide Ref;
    forall p | off <= p < off + |piece| ensures Byte(blocks', n, p) == piece[p - off] {
      assert p / BSIZE == bn && p % BSIZE == o + p - off;
    }
    forall p | 0 <= p < MAXSIZE && !(off <= p < off + |piece|) && p / BSIZE == bn
      ensures Byte(blocks', n, p) == blocks[a][p % BSIZE]
    {
      assert p == bn * BSIZE + p % BSIZE && off == bn * BSIZE + o;
    }
  }

  lemma SpliceNothing(c: seq<byte>, off: nat)
    ensures off <= |c| ==> Splice(c, off, []) == c
  {
  }

  lemma SpliceTwice(c: seq<byte>, off: nat, a: seq<byte>, b: seq<byte>)
    requires off <= |c|
    ensures |Splice(c, off, a)| >= off + |a|
    ensures Splice(Splice(c, off, a), off + |a|, b) == Splice(c, off, a + b)
  {
  }

  // ----- Truncation -----

  /** The slots split into direct ones and the rest, which depend on addrs[NDIRECT] only. */
  lemma RefsSplit(blocks: Disk, n: Dinode, n': Dinode)
    requires n'.addrs[NDIRECT] == n.addrs[NDIRECT]
    ensures RefsIn(blocks, n, 0, NSLOT) == RefsIn(blocks, n, 0, NDIRECT) + RefsIn(blocks, n', NDIRECT, NSLOT)
  {
    forall t | NDIRECT <= t < NSLOT ensures Ref(blocks, n', t) == Ref(blocks, n, t) {
    }
  }

  lemma EntryRef(blocks: Disk, n: Dinode, j: nat)
    requires j < NINDIRECT && 0 < n.addrs[NDIRECT] < |blocks|
    ensures Ref(blocks, n, NDIRECT + j) == Word(blocks[n.addrs[NDIRECT]], j) && Ref(blocks, n, INDIRECT) == n.addrs[NDIRECT]
  {
  }

  lemma NoTable(blocks: Disk, n: Dinode)
    requires n.addrs[NDIRECT] == 0
    ensures RefsIn(blocks, n, NDIRECT, NSLOT) == {}
  {
  }

  /** The blocks of the free map that have the bits of the blocks s. */
  ghost function BitBlocks(sb: Super, s: set<nat>): set<nat> {
    set b | b in s :: BitBlock(sb, b)
  }

  lemma BitBlocksPlus(sb: Super, s: set<nat>, t: set<nat>)
    ensures BitBlocks(sb, s + t) == BitBlocks(sb, s) + BitBlocks(sb, t)
  {
  }

  /** One more slot. */
  lemma RefsMore(sb: Super, blocks: Disk, n: Dinode, lo: nat, hi: nat)
    requires lo <= hi < NSLOT
    ensures var b := Ref(blocks, n, hi);
            && RefsIn(blocks, n, lo, hi + 1) == RefsIn(blocks, n, lo, hi) + (if b == 0 then {} else {b})
            && BitBlocks(sb, RefsIn(blocks, n, lo, hi + 1)) ==
                 BitBlocks(sb, RefsIn(blocks, n, lo, hi)) + if b == 0 then {} else {BitBlock(sb, b)}
    ensures RefsIn(blocks, n, lo, lo) == {} && BitBlocks(sb, RefsIn(blocks, n, lo, lo)) == {}
  {
    hide Ref;
    var b := Ref(blocks, n, hi);
    BitBlocksPlus(sb, RefsIn(blocks, n, lo, hi), {b});
    BitBlocksOne(sb, b);
  }

  lemma BitBlocksOne(sb: Super, b: nat)
    ensures BitBlocks(sb, {b}) == {BitBlock(sb, b)} && BitBlocks(sb, {}) == {}
  {
  }

  class Inode {
    var inum: nat
    var typ: int
    var major: int
    var minor: int
    var nlink: int
    var size: nat
    var addrs: Addrs

    constructor (inum: nat, n: Dinode)
      ensures this.inum == inum && Value() == n
    {
      this.inum := inum;
      typ, major, minor, nlink := n.typ, n.major, n.minor, n.nlink;
      size, addrs := n.size, n.addrs;
    }

    function Value(): Dinode
      reads this
    {
      Dinode(typ, major, minor, nlink, size, addrs)
    }
  }

  class Fs {
    const sb: Super
    var bits: seq<bool>
    var blocks: Disk
    var dinodes: seq<Dinode>
    var logged: set<nat>    // blocks passed to log_write in this transaction
    ghost var tab: seq<Dinode>  // the newest version of every inode: in memory if it is locked, else on disk
    ghost var owner: Owner

    /** A file system found on disk, with no inode in memory. */
    constructor (sb: Super, bits: seq<bool>, blocks: Disk, dinodes: seq<Dinode>)
      requires Ownership(sb, bits, blocks, dinodes)
      ensures this.sb == sb && this.bits == bits && this.blocks == blocks && this.dinodes == dinodes
      ensures Sound() && tab == dinodes && logged == {}
    {
      this.sb := sb;
      this.bits := bits;
      this.blocks := blocks;
      this.dinodes := dinodes;
      this.logged := {};
      this.tab := dinodes;
      ghost var o := OwnershipIsOwned(sb, bits, blocks, dinodes);
      this.owner := o;
    }

    ghost function St(): Store
      reads this
    {
      Store(bits, blocks, dinodes, logged)
    }

    /** Over the newest version of every inode, each block has one owner and the bitmap is exact. */
    ghost predicate Sound()
      reads this
    {
      |tab| == |dinodes| && OwnedBy(sb, owner, bits, blocks, tab)
    }

    /** ip is one of the inodes in memory; any number of them are valid together. */
    ghost predicate Valid(ip: Inode)
      reads this, ip
    {
      Sound() && ip.inum < |tab| && tab[ip.inum] == ip.Value()
    }

    /** What a process does to its inode ip leaves every other inode in memory valid. */
    twostate lemma OthersValid(ip: Inode, jp: Inode)
      requires old(Valid(jp)) && unchanged(jp) && ip.inum != jp.inum && ip.inum < |old(tab)|
      requires Sound() && tab == old(tab)[ip.inum := ip.Value()]
      ensures Valid(jp)
    {
      hide OwnedBy;
    }

    /** ilock of an inode that no process holds: its newest version is the one on disk. */
    method Ilock(inum: nat) returns (ip: Inode)
      requires Sound() && inum < |dinodes| && tab[inum] == dinodes[inum]
      ensures fresh(ip) && ip.inum == inum && ip.Value() == dinodes[inum] && Valid(ip)
    {
      ip := new Inode(inum, dinodes[inum]);
    }

    /** Every inode free on disk has no blocks and is in nobody's memory. */
    ghost predicate FreeUnused()
      reads this
    {
      |tab| == |dinodes| && FreeEmpty(dinodes) && forall i :: 1 <= i < |dinodes| && dinodes[i].typ == 0 ==> tab[i] == dinodes[i]
    }

    /** ialloc: the first free inode, zeroed and marked by its type on disk; None is panic("ialloc: no inodes"). */
    method Ialloc(typ: int) returns (r: Option<nat>)
      requires Sound() && FreeUnused()
      modifies this`dinodes, this`logged, this`tab
      ensures Sound() && Covers(sb, old(St()), St())
      ensures r.None? <==> forall i :: 1 <= i < |old(dinodes)| ==> old(dinodes)[i].typ != 0
      ensures r.None? ==> St() == old(St()) && tab == old(tab)
      ensures r.Some? ==>
                var i := r.value;
                && 1 <= i < |old(dinodes)| && old(dinodes)[i].typ == 0 && (forall j :: 1 <= j < i ==> old(dinodes)[j].typ != 0)
                && old(tab)[i].addrs == NoAddrs()
                && dinodes == old(dinodes)[i := NewInode(typ, 0)] && tab == old(tab)[i := NewInode(typ, 0)]
                && logged == old(logged) + {InodeBlock(sb, i)}
    {
      hide OwnedBy;
      hide Covers;
      hide Ref;
      hide Byte;
      CoversSelf(sb, St());
      var inum := 1;
      while inum < |dinodes|
        invariant 1 <= inum && St() == old(St()) && tab == old(tab) && owner == old(owner)
        invariant forall j :: 1 <= j < inum && j < |dinodes| ==> dinodes[j].typ != 0
      {
        if dinodes[inum].typ == 0 {
          SizeOnly(sb, owner, bits, blocks, tab, inum, NewInode(typ, 0));
          CoversInode(sb, St(), inum, NewInode(typ, 0));
          dinodes := dinodes[inum := NewInode(typ, 0)];
          logged := logged + {InodeBlock(sb, inum)};
          tab := tab[inum := NewInode(typ, 0)];
          return Some(inum);
        }
        inum := inum + 1;
      }
      r := None;
    }

    /** First fit over the bitmap, block by block; None is panic("balloc: out of blocks"). */
    method Balloc() returns (r: Option<nat>)
      requires |bits| == |blocks| == sb.size
      modifies this`bits, this`blocks, this`logged
      ensures r.None? <==> forall b :: 0 <= b < sb.size ==> old(bits)[b]
      ensures r.None? ==> bits == old(bits) && blocks == old(blocks) && logged == old(logged)
      ensures r.Some? ==>
                var b := r.value;
                && b < sb.size && !old(bits)[b] && (forall c :: 0 <= c < b ==> old(bits)[c])
                && bits == old(bits)[b := true] && blocks == old(blocks)[b := ZeroBlock()]
                && logged == old(logged) + {BitBlock(sb, b), b}
    {
      var b := 0;
      ghost var k := 0;
      while b < sb.size
        invariant b == k * BPB && forall c :: 0 <= c < b && c < sb.size ==> bits[c]
      {
        var bi := 0;
        while bi < BPB && b + bi < sb.size
          invariant 0 <= bi <= BPB && forall c :: 0 <= c < b + bi && c < sb.size ==> bits[c]
        {
          if !bits[b + bi] {
            SameBitBlock(k, bi);
            bits := bits[b + bi := true];
            logged := logged + {b / BPB + sb.bmapstart};
            blocks := blocks[b + bi := ZeroBlock()];
            logged := logged + {b + bi};
            return Some(b + bi);
          }
          bi := bi + 1;
        }
        b := b + BPB;
        k := k + 1;
      }
      r := None;
    }

    /** Clears the bit; false is panic("freeing free block"). */
    method Bfree(b: nat) returns (ok: bool)
      requires |bits| == sb.size && b < sb.size
      modifies this`bits, this`logged
      ensures ok == old(bits)[b]
      ensures !ok ==> bits == old(bits)
      ensures ok ==> bits == old(bits)[b := false] && logged == old(logged) + {BitBlock(sb, b)}
    {
      if !bits[b] {
        return false;
      }
      bits := bits[b := false];
      logged := logged + {BitBlock(sb, b)};
      ok := true;
    }

    /** The three allocations of bmap: a new block for an empty slot. */
    method Grow(ip: Inode, s: nat) returns (r: Option<nat>)
      requires Valid(ip) && s < NSLOT && Ref(blocks, ip.Value(), s) == 0
      requires NDIRECT <= s < INDIRECT ==> ip.addrs[NDIRECT] != 0
      modifies this`bits, this`blocks, this`logged, this`owner, this`tab, ip`addrs
      ensures r.None? <==> !HasFree(old(bits))
      ensures r.None? ==> St() == old(St()) && tab == old(tab) && owner == old(owner) && ip.addrs == old(ip.addrs)
      ensures Covers(sb, old(St()), St())
      ensures r.Some? ==>
                var b := r.value;
                && Valid(ip) && tab == old(tab)[ip.inum := ip.Value()]
                && 0 < b < sb.size && !old(bits)[b] && bits == old(bits)[b := true]
                && ip.Value() == StoreAddr(old(ip.Value()), s, b)
                && Ref(blocks, ip.Value(), s) == b && blocks[b] == ZeroBlock()
                && (forall t :: 0 <= t < NSLOT && t != s ==>
                      Ref(blocks, ip.Value(), t) == Ref(old(blocks), old(ip.Value()), t))
                && OthersKept(old(blocks), blocks, old(tab), ip.inum)
                && (forall p :: 0 <= p < MAXSIZE ==> Byte(blocks, ip.Value(), p) == Byte(old(blocks), old(ip.Value()), p))
                && logged == old(logged) + {BitBlock(sb, b), b} + if NDIRECT <= s < INDIRECT then {ip.addrs[NDIRECT]} else {}
    {
      hide Word;
      hide SetWord;
      hide Ref;
      hide Byte;
      hide OthersKept;
      hide SameRefsBut;
      hide BitsExact;
      hide RefsOwned;
      hide OwnersRefer;
      hide Covers;
      CoversSelf(sb, St());
      r := Balloc();
      if r.Some? {
        var b := r.value;
        FreeIsNoTable(sb, owner, old(bits), old(blocks), tab, b);
        AllocSlot(sb, owner, old(bits), old(blocks), tab, ip.inum, s, b);
        AllocBytes(sb, owner, old(bits), old(blocks), tab, ip.inum, s, b);
        TableInRange(sb, owner, old(bits), old(blocks), tab, ip.inum);
        owner := owner[b := (ip.inum, s)];
        if s < NDIRECT {
          ip.addrs := ip.addrs[s := b];
        } else if s == INDIRECT {
          ip.addrs := ip.addrs[NDIRECT := b];
        } else {
          var t := ip.addrs[NDIRECT];
          blocks := blocks[t := SetWord(blocks[t], s - NDIRECT, b)];
          logged := logged + {t};
        }
        tab := tab[ip.inum := ip.Value()];
        assert blocks == StoreBlock(old(blocks)[b := ZeroBlock()], old(tab)[ip.inum], s, b);
        assert tab[ip.inum] == StoreAddr(old(tab)[ip.inum], s, b);
        RefsOf(old(blocks), old(tab), blocks, tab, ip.inum, s);
        TableIsData(sb, owner, bits, blocks, tab, ip.inum);
        CoversGrow(sb, old(St()), old(ip.Value()), s, b);
        assert logged == old(logged) + {BitBlock(sb, b), b} + if NDIRECT <= s < INDIRECT then {old(ip.addrs)[NDIRECT]} else {};
      }
    }

    /** The indirect block of bmap, allocated if there is none; false is a full disk. */
    method BmapTable(ip: Inode) returns (ok: bool)
      requires Valid(ip)
      modifies this`bits, this`blocks, this`logged, this`owner, this`tab, ip`addrs
      ensures Covers(sb, old(St()), St()) && Valid(ip) && tab == old(tab)[ip.inum := ip.Value()]
      ensures ok <==> old(ip.addrs)[NDIRECT] != 0 || HasFree(old(bits))
      ensures !ok || old(ip.addrs)[NDIRECT] != 0 ==> St() == old(St()) && ip.addrs == old(ip.addrs)
      ensures ip.Value() == old(ip.Value()).(addrs := ip.addrs)
      ensures OthersKept(old(blocks), blocks, old(tab), ip.inum)
      ensures forall p :: 0 <= p < MAXSIZE ==> Byte(blocks, ip.Value(), p) == Byte(old(blocks), old(ip.Value()), p)
      ensures forall t :: 0 <= t < MAXFILE ==> Ref(blocks, ip.Value(), t) == Ref(old(blocks), old(ip.Value()), t)
      ensures ok ==> 0 < ip.addrs[NDIRECT] < sb.size
      ensures ok && old(ip.addrs)[NDIRECT] == 0 ==>
                var t := ip.addrs[NDIRECT];
                && t < sb.size && !old(bits)[t] && bits == old(bits)[t := true]
                && ip.addrs == old(ip.addrs)[NDIRECT := t] && logged == old(logged) + {BitBlock(sb, t), t}
    {
      hide Ref;
      hide Byte;
      hide OthersKept;
      hide BitsExact;
      hide RefsOwned;
      hide OwnersRefer;
      hide Covers;
      TableInRange(sb, owner, bits, blocks, tab, ip.inum);
      CoversSelf(sb, St());
      OthersSelf(blocks, tab, ip.inum);
      ok := true;
      if ip.addrs[NDIRECT] == 0 {
        TableSlot(blocks, ip.Value());
        var t := Grow(ip, INDIRECT);
        ok := t.Some?;
        if ok {
          TableSlot(blocks, ip.Value());
        }
      }
      assert tab[ip.inum := ip.Value()] == tab;
    }

    /**
     * The block number of block bn of the file, allocating it if there is none.  None is a panic:
     * bn past the largest file, or a disk without the one or two blocks it takes.
     */
    method Bmap(ip: Inode, bn: nat) returns (r: Option<nat>)
      requires Valid(ip)
      modifies this`bits, this`blocks, this`logged, this`owner, this`tab, ip`addrs
      ensures Covers(sb, old(St()), St()) && |bits| == sb.size
      ensures r.None? <==>
                || bn >= MAXFILE
                || (Ref(old(blocks), old(ip.Value()), bn) == 0
                    && if bn >= NDIRECT && old(ip.addrs)[NDIRECT] == 0 then !HasTwo(old(bits)) else !HasFree(old(bits)))
      ensures r.None? && bn < MAXFILE ==> forall b :: 0 <= b < sb.size ==> bits[b]
      ensures r.Some? ==>
                && Valid(ip) && tab == old(tab)[ip.inum := ip.Value()]
                && 0 < r.value < sb.size && Ref(blocks, ip.Value(), bn) == r.value
                && ip.Value().(addrs := ip.addrs) == old(ip.Value()).(addrs := ip.addrs)
                && OthersKept(old(blocks), blocks, old(tab), ip.inum)
                && (forall p :: 0 <= p < MAXSIZE ==> Byte(blocks, ip.Value(), p) == Byte(old(blocks), old(ip.Value()), p))
                && (forall t :: 0 <= t < MAXFILE && t != bn ==>
                      Ref(blocks, ip.Value(), t) == Ref(old(blocks), old(ip.Value()), t))
      ensures r.Some? && bn >= NDIRECT ==> ip.addrs[NDIRECT] != 0
      ensures r.Some? ==> ip.addrs == if bn < NDIRECT then old(ip.addrs)[bn := r.value] else old(ip.addrs)[NDIRECT := ip.addrs[NDIRECT]]
      ensures forall b :: 0 <= b < sb.size && old(bits)[b] ==> bits[b]
      ensures r.Some? ==> bits[r.value]
      ensures r.Some? && (bn < NDIRECT || old(ip.addrs)[NDIRECT] != 0) ==> ip.addrs[NDIRECT] == old(ip.addrs)[NDIRECT]
      ensures r.Some? && Ref(old(blocks), old(ip.Value()), bn) != 0 ==>
                blocks == old(blocks) && bits == old(bits) && ip.addrs == old(ip.addrs) && logged == old(logged)
      ensures r.Some? && Ref(old(blocks), old(ip.Value()), bn) == 0 ==>
                && !old(bits)[r.value] && blocks[r.value] == ZeroBlock()
                && logged == old(logged) + {BitBlock(sb, r.value), r.value}
                     + (if bn < NDIRECT then {} else {ip.addrs[NDIRECT]})
                     + (if bn < NDIRECT || old(ip.addrs)[NDIRECT] != 0 then {} else {BitBlock(sb, ip.addrs[NDIRECT])})
    {
      hide Ref;
      hide Word;
      hide Byte;
      hide BitsExact;
      hide RefsOwned;
      hide OwnersRefer;
      hide OthersKept;
      hide Covers;
      CoversSelf(sb, St());
      if bn >= MAXFILE {
        return None;
      }
      ghost var n0, s0 := ip.Value(), St();
      OthersSelf(blocks, tab, ip.inum);
      RefInRange(sb, owner, bits, blocks, tab, ip.inum, bn);
      if bn >= NDIRECT {
        var ok := BmapTable(ip);
        if !ok {
          NoTableRef(s0.blocks, n0, bn);
          OneFree(s0.bits);
          return None;
        }
        if n0.addrs[NDIRECT] == 0 {
          NoTableRef(s0.blocks, n0, bn);
          TwoFree(s0.bits, ip.addrs[NDIRECT]);
        }
      }
      ghost var n1, s1 := ip.Value(), St();
      assert tab == old(tab)[ip.inum := n1];
      SlotIs(blocks, ip.Value(), bn);
      var a := if bn < NDIRECT then ip.addrs[bn] else Word(blocks[ip.addrs[NDIRECT]], bn - NDIRECT);
      if a != 0 {
        RefMarked(sb, owner, bits, blocks, tab, ip.inum, bn);
        r := Some(a);
      } else {
        r := Grow(ip, bn);
        CoversTrans(sb, s0, s1, St());
        if r.Some? {
          OthersIgnore(s1.blocks, blocks, old(tab), ip.inum, n1);
          OthersTrans(s0.blocks, s1.blocks, blocks, old(tab), ip.inum);
        }
      }
    }

    /** iupdate: the in-memory inode to the inode table. */
    method Iupdate(ip: Inode)
      requires ip.inum < |dinodes|
      modifies this`dinodes, this`logged
      ensures dinodes == old(dinodes)[ip.inum := ip.Value()]
      ensures logged == old(logged) + {InodeBlock(sb, ip.inum)}
    {
      dinodes := dinodes[ip.inum := Dinode(ip.typ, ip.major, ip.minor, ip.nlink, ip.size, ip.addrs)];
      logged := logged + {InodeBlock(sb, ip.inum)};
    }

    /** The end of writei: a longer file gets its new size, on disk too. */
    method SetEnd(ip: Inode, n: nat, end: nat)
      requires ip.inum < |dinodes| == |tab|
      modifies this`dinodes, this`logged, this`tab, ip`size
      ensures tab == old(tab)[ip.inum := ip.Value()]
      ensures ip.size == if n > 0 && end > old(ip.size) then end else old(ip.size)
      ensures dinodes == if ip.size == old(ip.size) then old(dinodes) else old(dinodes)[ip.inum := ip.Value()]
      ensures logged == old(logged) + if ip.size == old(ip.size) then {} else {InodeBlock(sb, ip.inum)}
    {
      if n > 0 && end > ip.size {
        ip.size := end;
        Iupdate(ip);
      }
      tab := tab[ip.inum := ip.Value()];
    }

    /** One turn of writei: bytes into one block of the file. */
    method WriteChunk(ip: Inode, off: nat, piece: seq<byte>) returns (r: Option<nat>, ghost grew: bool)
      requires Valid(ip) && 0 < |piece| && off + |piece| <= MAXSIZE && off % BSIZE + |piece| <= BSIZE
      modifies this`bits, this`blocks, this`logged, this`owner, this`tab, ip`addrs
      ensures grew == (Ref(old(blocks), old(ip.Value()), off / BSIZE) == 0)
      ensures Covers(sb, old(St()), St()) && |bits| == sb.size
      ensures r.None? ==> grew && forall b :: 0 <= b < sb.size ==> bits[b]
      ensures r.Some? ==>
                && Valid(ip) && tab == old(tab)[ip.inum := ip.Value()]
                && r.value > 0 && Ref(blocks, ip.Value(), off / BSIZE) == r.value
                && ip.Value().(addrs := ip.addrs) == old(ip.Value()).(addrs := ip.addrs)
                && (grew || ip.addrs == old(ip.addrs))
                && (off / BSIZE < NDIRECT || ip.addrs[NDIRECT] != 0)
                && (off / BSIZE < NDIRECT ==> ip.addrs[NDIRECT] == old(ip.addrs)[NDIRECT])
                && (old(ip.addrs)[NDIRECT] != 0 ==> ip.addrs[NDIRECT] == old(ip.addrs)[NDIRECT])
                && OthersKept(old(blocks), blocks, old(tab), ip.inum)
                && (forall t :: 0 <= t < MAXFILE && t != off / BSIZE ==>
                      Ref(blocks, ip.Value(), t) == Ref(old(blocks), old(ip.Value()), t))
                && (forall p :: off <= p < off + |piece| ==> Byte(blocks, ip.Value(), p) == piece[p - off])
                && (forall p :: 0 <= p < MAXSIZE && !(off <= p < off + |piece|) ==>
                      Byte(blocks, ip.Value(), p) == Byte(old(blocks), old(ip.Value()), p))
                && logged == old(logged) + ChunkLog(sb, off / BSIZE, r.value, grew, old(ip.addrs), ip.addrs)
    {
      hide OwnedBy;
      hide Ref;
      hide Byte;
      hide OthersKept;
      hide Covers;
      SizeOf(sb, owner, bits, blocks, tab);
      var bn := off / BSIZE;
      grew := Ref(blocks, ip.Value(), bn) == 0;
      r := Bmap(ip, bn);
      if r.Some? {
        var a := r.value;
        var o := off % BSIZE;
        SizeOf(sb, owner, bits, blocks, tab);
        var data := blocks[a][..o] + piece + blocks[a][o + |piece|..];
        ghost var s1 := St();
        DataWrite(sb, owner, bits, blocks, tab, ip.inum, bn, data);
        ChunkBytes(blocks, ip.Value(), off, piece, a, data, blocks[a := data]);
        OthersIgnore(blocks, blocks[a := data], old(tab), ip.inum, ip.Value());
        OthersTrans(old(blocks), blocks, blocks[a := data], old(tab), ip.inum);
        RefIsData(sb, owner, bits, blocks, tab, ip.inum, bn);
        CoversData(sb, s1, a, data);
        blocks := blocks[a := data];
        logged := logged + {a};
        CoversTrans(sb, old(St()), s1, St());
      }
    }

    /** The loop of writei; false is a full disk. */
    method WriteLoop(ip: Inode, src: seq<byte>, off: nat) returns (ok: bool, ghost acct: Account)
      requires Valid(ip) && off <= ip.size <= MAXSIZE && off + |src| <= MAXSIZE
      modifies this`bits, this`blocks, this`logged, this`owner, this`tab, ip`addrs
      ensures Covers(sb, old(St()), St()) && |bits| == sb.size
      ensures !ok ==> forall b :: 0 <= b < sb.size ==> bits[b]
      ensures ok ==>
                && Valid(ip) && tab == old(tab)[ip.inum := ip.Value()]
                && ip.Value().(addrs := ip.addrs) == old(ip.Value()).(addrs := ip.addrs)
                && Progress(old(blocks), old(ip.Value()), blocks, ip.Value(), off, src, |src|)
                && OthersKept(old(blocks), blocks, old(tab), ip.inum)
                && (MappedTo(old(blocks), old(ip.Value()), old(ip.size)) ==>
                      && MappedTo(blocks, ip.Value(), Max(off + |src|, ip.size))
                      && Accounted(acct, off, |src|, |src|, old(ip.Value()), ip.addrs, logged - old(logged)))
                && (src != [] && off % BSIZE + |src| <= BSIZE ==>
                      OneBlock(sb, old(blocks), old(ip.Value()), blocks, ip.Value(), off / BSIZE, {}, old(logged), logged))
    {
      hide BitsExact;
      hide RefsOwned;
      hide OwnersRefer;
      hide Ref;
      hide Byte;
      hide Progress;
      hide MappedTo;
      hide OthersKept;
      hide Accounted;
      hide AccountNext;
      hide NewMaps;
      hide Indirect;
      hide OneBlock;
      hide ChunkLog;
      hide Covers;
      ghost var n0, s0 := ip.Value(), St();
      ghost var mapped := MappedTo(blocks, n0, n0.size);
      CoversSelf(sb, s0);
      acct := Account(0, 0, {}, {});
      WriteStart(blocks, n0, tab, ip.inum, off, src);
      assert logged - old(logged) == {};
      var tot := 0;
      while tot < |src|
        invariant 0 <= tot <= |src| && |bits| == sb.size
        invariant Valid(ip) && tab == old(tab)[ip.inum := ip.Value()]
        invariant ip.Value().(addrs := ip.addrs) == n0.(addrs := ip.addrs)
        invariant Progress(old(blocks), n0, blocks, ip.Value(), off, src, tot)
        invariant OthersKept(old(blocks), blocks, old(tab), ip.inum) && Covers(sb, s0, St())
        invariant mapped ==> MappedTo(blocks, ip.Value(), Max(off + tot, n0.size))
        invariant mapped ==> Accounted(acct, off, tot, |src|, n0, ip.addrs, logged - old(logged))
        invariant tot == 0 ==> blocks == old(blocks) && ip.addrs == old(ip.addrs) && logged == old(logged)
        invariant tot > 0 && off % BSIZE + |src| <= BSIZE ==>
                    tot == |src| && OneBlock(sb, old(blocks), n0, blocks, ip.Value(), off / BSIZE, {}, old(logged), logged)
      {
        var o := off + tot;
        var m := if |src| - tot < BSIZE - o % BSIZE then |src| - tot else BSIZE - o % BSIZE;
        ghost var blocks1, n1, s1 := blocks, ip.Value(), St();
        ghost var extra := logged - old(logged);
        var a, grew := WriteChunk(ip, o, src[tot..tot + m]);
        CoversTrans(sb, s0, s1, St());
        if a.None? {
          return false, acct;
        }
        ProgressStep(old(blocks), n0, blocks1, n1, blocks, ip.Value(), off, src, tot, m);
        if mapped {
          MappedStep(blocks1, n1, blocks, ip.Value(), n0.size, o, m);
          ChunkLogIn(sb, o / BSIZE, a.value, grew, n1.addrs, ip.addrs);
          AccountStep(sb, acct, off, tot, m, |src|, n0, n1.addrs, ip.addrs, extra, logged - old(logged), a.value, grew);
        }
        OthersIgnore(blocks1, blocks, old(tab), ip.inum, n1);
        OthersTrans(old(blocks), blocks1, blocks, old(tab), ip.inum);
        acct := AccountNext(sb, acct, a.value, grew, n1.addrs, ip.addrs);
        if tot == 0 {
          OneBlockIs(sb, blocks1, n1, blocks, ip.Value(), off / BSIZE, old(logged), logged, a.value, grew);
        }
        tot := tot + m;
      }
      ok := true;
    }

    /** The loop of writei and what follows it; false is a full disk. */
    method WriteAll(ip: Inode, src: seq<byte>, off: nat) returns (ok: bool)
      requires Valid(ip) && off <= ip.size <= MAXSIZE && off + |src| <= MAXSIZE
      modifies this, ip`addrs, ip`size
      ensures Covers(sb, old(St()), St()) && |bits| == sb.size
      ensures !ok ==> forall b :: 0 <= b < sb.size ==> bits[b]
      ensures ok ==>
                && Valid(ip) && tab == old(tab)[ip.inum := ip.Value()]
                && ip.size == (if off + |src| > old(ip.size) then off + |src| else old(ip.size))
                && Content(blocks, ip.Value()) == Splice(Content(old(blocks), old(ip.Value())), off, src)
                && OthersKept(old(blocks), blocks, old(tab), ip.inum)
                && dinodes == (if ip.size == old(ip.size) then old(dinodes) else old(dinodes)[ip.inum := ip.Value()])
                && (MappedTo(old(blocks), old(ip.Value()), old(ip.size)) ==>
                      && MappedTo(blocks, ip.Value(), ip.size) && (ip.size == old(ip.size) ==> ip.addrs == old(ip.addrs)))
                && WriteLogged(sb, old(blocks), old(ip.Value()), blocks, ip.Value(), off, |src|, ip.inum, old(logged), logged)
    {
      hide OwnedBy;
      hide Ref;
      hide Byte;
      hide OthersKept;
      hide Accounted;
      hide Progress;
      hide MappedTo;
      hide Content;
      hide Splice;
      hide OneBlock;
      hide WriteLogged;
      hide Covers;
      ghost var n0 := ip.Value();
      ghost var mapped := MappedTo(blocks, n0, n0.size);
      ghost var acct;
      ok, acct := WriteLoop(ip, src, off);
      if ok {
        if mapped {
          GrowthIsPastEnd(acct, off, |src|, n0, ip.addrs, logged - old(logged));
        }
        ghost var log1, n1, s1 := logged, ip.Value(), St();
        FinishWrite(sb, owner, bits, blocks, tab, ip.inum, old(blocks), n0, off, src);
        SetEnd(ip, |src|, off + |src|);
        SetEndCovers(sb, s1, ip.inum, ip.Value(), ip.size == n0.size, St());
        CoversTrans(sb, old(St()), s1, St());
        WriteLoggedIs(sb, old(blocks), n0, blocks, n1, ip.Value(), off, |src|, ip.inum, acct, old(logged), log1, logged);
      }
    }

    /**
     * writei: on success the file is the old one with src spliced in at off, no other file changed, and
     * every block that did, of data, bitmap or inodes, is logged.  A mapped file stays mapped and written
     * through to the inode table, and a chunk of filewrite's size logs at most MAXOPBLOCKS blocks of it.
     */
    method Writei(ip: Inode, src: seq<byte>, off: nat) returns (r: Io)
      requires Valid(ip) && ip.size <= MAXSIZE && |src| < WORDMAX && off < WORDMAX
      modifies this, ip`addrs, ip`size
      ensures Covers(sb, old(St()), St())
      ensures r.Fail? <==> off > old(ip.size) || off + |src| >= WORDMAX || off + |src| > MAXSIZE
      ensures r.Fail? ==> unchanged(this) && unchanged(ip)
      ensures r.Panic? ==> |bits| == sb.size && forall b :: 0 <= b < sb.size ==> bits[b]
      ensures r.Count? ==>
                && r.n == |src| && Valid(ip) && tab == old(tab)[ip.inum := ip.Value()]
                && ip.size == (if off + |src| > old(ip.size) then off + |src| else old(ip.size))
                && Content(blocks, ip.Value()) == Splice(Content(old(blocks), old(ip.Value())), off, src)
                && OthersKept(old(blocks), blocks, old(tab), ip.inum)
                && dinodes == (if ip.size == old(ip.size) then old(dinodes) else old(dinodes)[ip.inum := ip.Value()])
                && (MappedTo(old(blocks), old(ip.Value()), old(ip.size)) ==>
                      && MappedTo(blocks, ip.Value(), ip.size) && (ip.size == old(ip.size) ==> ip.addrs == old(ip.addrs)))
                && WriteLogged(sb, old(blocks), old(ip.Value()), blocks, ip.Value(), off, |src|, ip.inum, old(logged), logged)
    {
      hide OwnedBy;
      hide Ref;
      hide Byte;
      hide OthersKept;
      hide MappedTo;
      hide Content;
      hide Splice;
      hide WriteLogged;
      hide Covers;
      CoversSelf(sb, St());
      if off > ip.size || off + |src| >= WORDMAX {
        return Fail;
      }
      if off + |src| > MAXSIZE {
        return Fail;
      }
      var ok := WriteAll(ip, src, off);
      r := if ok then Count(|src|) else Panic;
    }

    /** The bitmap is the old one with the blocks of freed cleared. */
    twostate predicate Freed(freed: set<nat>)
      reads this
    {
      |bits| == |old(bits)| && forall b :: 0 <= b < |bits| ==> (bits[b] <==> old(bits)[b] && b !in freed)
    }

    /** One turn of the first loop of itrunc. */
    method DropDirect(ip: Inode, i: nat) returns (ok: bool)
      requires Valid(ip) && i < NDIRECT
      modifies this`bits, this`logged, this`owner, this`tab, ip`addrs
      ensures ok && Valid(ip) && tab == old(tab)[ip.inum := ip.Value()] && ip.addrs == old(ip.addrs)[i := 0]
      ensures var b := old(ip.addrs)[i];
              && b < |old(bits)| && bits == (if b == 0 then old(bits) else old(bits)[b := false])
              && logged == old(logged) + if b == 0 then {} else {BitBlock(sb, b)}
    {
      hide Word;
      hide RefsOwned;
      hide OwnersRefer;
      hide Ref;
      if ip.addrs[i] != 0 {
        ClearDirect(sb, owner, bits, blocks, tab, ip.inum, i);
        var freed := Bfree(ip.addrs[i]);
        if !freed {
          return false;
        }
        owner := owner - {ip.addrs[i]};
        ip.addrs := ip.addrs[i := 0];
        tab := tab[ip.inum := ip.Value()];
      } else {
        assert ip.addrs[i := 0] == ip.addrs && tab[ip.inum := ip.Value()] == tab;
      }
      ok := true;
    }

    /** First loop of itrunc. */
    method TruncDirect(ip: Inode) returns (ok: bool)
      requires Valid(ip)
      modifies this`bits, this`logged, this`owner, this`tab, ip`addrs
      ensures ok && Valid(ip) && tab == old(tab)[ip.inum := ip.Value()]
      ensures ip.addrs[..NDIRECT] == seq(NDIRECT, _ => 0) && ip.addrs[NDIRECT] == old(ip.addrs)[NDIRECT]
      ensures Freed(RefsIn(blocks, old(ip.Value()), 0, NDIRECT))
      ensures logged == old(logged) + BitBlocks(sb, RefsIn(blocks, old(ip.Value()), 0, NDIRECT))
    {
      hide Word;
      hide OwnedBy;
      hide RefsIn;
      hide BitBlocks;
      ghost var n0 := ip.Value();
      RefsMore(sb, blocks, n0, 0, 0);
      var i := 0;
      while i < NDIRECT
        invariant 0 <= i <= NDIRECT && Valid(ip) && tab == old(tab)[ip.inum := ip.Value()]
        invariant forall k :: 0 <= k < i ==> ip.addrs[k] == 0
        invariant forall k :: i <= k <= NDIRECT ==> ip.addrs[k] == n0.addrs[k]
        invariant Freed(RefsIn(blocks, n0, 0, i))
        invariant logged == old(logged) + BitBlocks(sb, RefsIn(blocks, n0, 0, i))
      {
        RefsMore(sb, blocks, n0, 0, i);
        ok := DropDirect(ip, i);
        if !ok {
          return;
        }
        i := i + 1;
      }
      ok := true;
    }

    /** One turn of the second loop, with the entries before j already freed. */
    method DropEntry(ip: Inode, j: nat) returns (ok: bool)
      requires |tab| == |dinodes| && ip.inum < |tab| && tab[ip.inum] == ip.Value() && j < NINDIRECT
      requires var t := ip.addrs[NDIRECT];
               0 < t < |blocks| && OwnedBy(sb, owner, bits, blocks[t := ClearedTo(blocks[t], j)], tab)
      modifies this`bits, this`logged, this`owner
      ensures ok
      ensures var t := ip.addrs[NDIRECT];
              var b := Word(blocks[t], j);
              && OwnedBy(sb, owner, bits, blocks[t := ClearedTo(blocks[t], j + 1)], tab)
              && b < |old(bits)| && bits == (if b == 0 then old(bits) else old(bits)[b := false])
              && logged == old(logged) + if b == 0 then {} else {BitBlock(sb, b)}
    {
      hide Word;
      hide RefsOwned;
      hide OwnersRefer;
      hide ClearedTo;
      hide Ref;
      ClearEntry(sb, owner, bits, blocks, tab, ip.inum, j);
      var b := Word(blocks[ip.addrs[NDIRECT]], j);
      if b != 0 {
        var freed := Bfree(b);
        if !freed {
          return false;
        }
        owner := owner - {b};
      }
      ok := true;
    }

    /** Second part of itrunc: the entries of the indirect block, then the block itself. */
    method TruncIndirect(ip: Inode) returns (ok: bool)
      requires Valid(ip) && ip.addrs[NDIRECT] != 0
      modifies this`bits, this`logged, this`owner, this`tab, ip`addrs
      ensures ok && Valid(ip) && tab == old(tab)[ip.inum := ip.Value()]
      ensures ip.addrs == old(ip.addrs)[NDIRECT := 0]
      ensures Freed(RefsIn(blocks, old(ip.Value()), NDIRECT, NSLOT))
      ensures logged == old(logged) + BitBlocks(sb, RefsIn(blocks, old(ip.Value()), NDIRECT, NSLOT))
    {
      hide Word;
      hide Ref;
      hide BitsExact;
      hide RefsOwned;
      hide OwnersRefer;
      hide ClearedTo;
      hide RefsIn;
      hide BitBlocks;
      ghost var n0 := ip.Value();
      TableInRange(sb, owner, bits, blocks, tab, ip.inum);
      var t := ip.addrs[NDIRECT];
      assert blocks[t := ClearedTo(blocks[t], 0)] == blocks;
      RefsMore(sb, blocks, n0, NDIRECT, NDIRECT);
      var j := 0;
      while j < NINDIRECT
        invariant 0 <= j <= NINDIRECT && 0 < t < |blocks| && ip.addrs == n0.addrs && tab == old(tab)
        invariant OwnedBy(sb, owner, bits, blocks[t := ClearedTo(blocks[t], j)], tab)
        invariant Freed(RefsIn(blocks, n0, NDIRECT, NDIRECT + j))
        invariant logged == old(logged) + BitBlocks(sb, RefsIn(blocks, n0, NDIRECT, NDIRECT + j))
      {
        RefsMore(sb, blocks, n0, NDIRECT, NDIRECT + j);
        EntryRef(blocks, n0, j);
        ok := DropEntry(ip, j);
        if !ok {
          return;
        }
        j := j + 1;
      }
      ClearTable(sb, owner, bits, blocks, tab, ip.inum);
      RefsMore(sb, blocks, n0, NDIRECT, INDIRECT);
      EntryRef(blocks, n0, 0);
      var freed := Bfree(t);
      if !freed {
        return false;
      }
      owner := owner - {t};
      ip.addrs := ip.addrs[NDIRECT := 0];
      tab := tab[ip.inum := ip.Value()];
      ok := true;
    }

    /**
     * itrunc: every block of the file is marked used when it is freed, so panic("freeing free
     * block") does not happen; exactly the file's blocks become free and no data block changes.
     */
    method Itrunc(ip: Inode) returns (ok: bool)
      requires Valid(ip)
      modifies this`bits, this`logged, this`owner, this`tab, this`dinodes, ip`addrs, ip`size
      ensures ok && Valid(ip) && tab == old(tab)[ip.inum := ip.Value()]
      ensures ip.size == 0 && ip.addrs == NoAddrs()
      ensures dinodes == old(dinodes)[ip.inum := ip.Value()]
      ensures Freed(RefsIn(blocks, old(ip.Value()), 0, NSLOT))
      ensures logged == old(logged) + TruncLog(sb, blocks, old(ip.Value()), ip.inum) && Covers(sb, old(St()), St())
    {
      hide Word;
      hide Covers;
      hide BitBlocks;
      hide BitsExact;
      hide RefsOwned;
      hide OwnersRefer;
      hide OwnedBy;
      hide Ref;
      hide RefsIn;
      ghost var n0 := ip.Value();
      ok := TruncDirect(ip);
      if !ok {
        return false;
      }
      RefsSplit(blocks, n0, ip.Value());
      BitBlocksPlus(sb, RefsIn(blocks, n0, 0, NDIRECT), RefsIn(blocks, ip.Value(), NDIRECT, NSLOT));
      BitBlocksOne(sb, 0);
      if ip.addrs[NDIRECT] != 0 {
        ok := TruncIndirect(ip);
        if !ok {
          return false;
        }
      } else {
        NoTable(blocks, ip.Value());
      }
      SizeOnly(sb, owner, bits, blocks, tab, ip.inum, ip.Value().(size := 0));
      ip.size := 0;
      assert ip.addrs[..NDIRECT] + [ip.addrs[NDIRECT]] == ip.addrs;
      tab := tab[ip.inum := ip.Value()];
      Iupdate(ip);
      RefsAreData(sb, old(owner), old(bits), blocks, old(tab), ip.inum);
      SizeOf(sb, owner, bits, blocks, tab);
      TruncCovers(sb, old(St()), St(), RefsIn(blocks, n0, 0, NSLOT), ip.inum);
    }

    /** One turn of readi: bmap, then part of the block. */
    method ReadBlock(ip: Inode, o: nat, m: nat) returns (a: Option<nat>, piece: seq<byte>)
      requires Valid(ip) && 0 < m && o + m <= ip.size <= MAXSIZE && o % BSIZE + m <= BSIZE
      modifies this`bits, this`blocks, this`logged, this`owner, this`tab, ip`addrs
      ensures Covers(sb, old(St()), St())
      ensures a.None? ==> |bits| == sb.size && forall b :: 0 <= b < sb.size ==> bits[b]
      ensures a.None? ==> Ref(old(blocks), old(ip.Value()), o / BSIZE) == 0 && !HasTwo(old(bits))
      ensures a.Some? ==>
                && Valid(ip) && tab == old(tab)[ip.inum := ip.Value()] && ip.Value() == old(ip.Value()).(addrs := ip.addrs)
                && BmapDone(old(St()), old(ip.Value()), St(), ip.Value(), o / BSIZE, a.value)
                && OthersKept(old(blocks), blocks, old(tab), ip.inum)
                && Content(blocks, ip.Value()) == Content(old(blocks), old(ip.Value()))
                && piece == Content(blocks, ip.Value())[o..o + m]
    {
      hide OwnedBy;
      hide Ref;
      hide Byte;
      hide Content;
      hide Covers;
      hide OthersKept;
      SizeOf(sb, owner, bits, blocks, tab);
      ghost var blocks1, n1 := blocks, ip.Value();
      a := Bmap(ip, o / BSIZE);
      piece := [];
      if a.Some? {
        SameContent(blocks1, n1, blocks, ip.Value());
        SizeOf(sb, owner, bits, blocks, tab);
        BytesOfBlock(blocks, ip.Value(), o, m);
        piece := blocks[a.value][o % BSIZE..o % BSIZE + m];
      }
    }

    /**
     * readi of a file or directory: the bytes of the file at off, cut at its end, with zeroes for holes.
     * It gives every hole it reads a block, and so changes something exactly when there is one; the
     * inode in memory changes exactly when it has no number for a block read.
     */
    method Readi(ip: Inode, off: nat, n: nat) returns (r: Io, dst: seq<byte>)
      requires Valid(ip) && ip.size <= MAXSIZE && off < WORDMAX && n < WORDMAX
      modifies this`bits, this`blocks, this`logged, this`owner, this`tab, ip`addrs
      ensures Covers(sb, old(St()), St())
      ensures r.Fail? <==> off > ip.size || off + n >= WORDMAX
      ensures r.Fail? ==> St() == old(St()) && tab == old(tab) && ip.addrs == old(ip.addrs)
      ensures r.Panic? ==> |bits| == sb.size && forall b :: 0 <= b < sb.size ==> bits[b]
      ensures r.Panic? ==> Stopped(old(St()), old(ip.Value()), off, ip.size)
      ensures r.Count? ==>
                && r == Count(if off + n > ip.size then ip.size - off else n)
                && dst == Content(old(blocks), old(ip.Value()))[off..off + r.n]
                && Valid(ip) && tab == old(tab)[ip.inum := ip.Value()]
                && Content(blocks, ip.Value()) == Content(old(blocks), old(ip.Value()))
                && OthersKept(old(blocks), blocks, old(tab), ip.inum)
                && (St() == old(St()) <==> MappedIn(old(blocks), old(ip.Value()), off, off + r.n))
                && (ip.addrs == old(ip.addrs) <==> AddrsFor(old(ip.addrs), off, off + r.n))
                && AddrsKept(old(ip.addrs), ip.addrs) && ip.Value() == old(ip.Value()).(addrs := ip.addrs)
    {
      hide OwnedBy;
      hide Ref;
      hide Byte;
      hide Content;
      hide Covers;
      hide OthersKept;
      hide MappedIn;
      hide AddrsFor;
      hide Reading;
      hide BmapDone;
      hide Stopped;
      hide HasTwo;
      ghost var s0, n0 := St(), ip.Value();
      ghost var c := Content(blocks, n0);
      CoversSelf(sb, s0);
      OthersSelf(blocks, tab, ip.inum);
      dst := [];
      if off > ip.size || off + n >= WORDMAX {
        return Fail, dst;
      }
      var len := if off + n > ip.size then ip.size - off else n;
      var tot := 0;
      ReadStart(s0, n0, off);
      while tot < len
        invariant 0 <= tot <= len && Valid(ip) && tab == old(tab)[ip.inum := ip.Value()]
        invariant ip.Value() == n0.(addrs := ip.addrs) && Content(blocks, ip.Value()) == c && dst == c[off..off + tot]
        invariant Covers(sb, s0, St()) && OthersKept(s0.blocks, blocks, old(tab), ip.inum)
        invariant Reading(s0, n0, St(), ip.Value(), off, off + tot)
        invariant tot == 0 || tot == len || (off + tot) % BSIZE == 0
      {
        var o := off + tot;
        ghost var s1, n1 := St(), ip.Value();
        var m := if len - tot < BSIZE - o % BSIZE then len - tot else BSIZE - o % BSIZE;
        var a, piece := ReadBlock(ip, o, m);
        CoversTrans(sb, s0, s1, St());
        if a.None? {
          ReadHole(s0, n0, s1, n1, off, o, ip.size);
          return Panic, dst;
        }
        ReadStep(s0, n0, s1, n1, St(), ip.Value(), off, o, m, a.value);
        OthersIgnore(s1.blocks, blocks, old(tab), ip.inum, n1);
        OthersTrans(s0.blocks, s1.blocks, blocks, old(tab), ip.inum);
        dst := dst + piece;
        SliceMore(c, off, o, o + m);
        tot := tot + m;
      }
      ReadDone(s0, n0, St(), ip.Value(), off, off + len);
      r := Count(len);
    }

    /**
     * One turn of filewrite, with ip->lock held: a chunk of at most three blocks is its own transaction.
     * Whatever others did to the file before it, the chunk is spliced in at *f->off, all of it.
     */
    method FileChunk(ip: Inode, off: nat, src: seq<byte>) returns (w: Io, n: nat)
      requires Valid(ip) && ip.size <= MAXSIZE && off < WORDMAX
      modifies this, ip`addrs, ip`size
      ensures n == if |src| > 3 * BSIZE then 3 * BSIZE else |src|
      ensures w.Fail? <==> off > old(ip.size) || off + n > MAXSIZE
      ensures w.Fail? ==> St() == old(St()).(logged := {}) && tab == old(tab) && owner == old(owner) && unchanged(ip)
      ensures w.Panic? ==> |bits| == sb.size && forall b :: 0 <= b < sb.size ==> bits[b]
      ensures Covers(sb, old(St()).(logged := {}), St())
      ensures w.Count? ==>
                && Valid(ip) && tab == old(tab)[ip.inum := ip.Value()] && w.n == n
                && ip.size == Max(off + n, old(ip.size)) && ip.size <= MAXSIZE
                && Content(blocks, ip.Value()) == Splice(Content(old(blocks), old(ip.Value())), off, src[..n])
                && OthersKept(old(blocks), blocks, old(tab), ip.inum)
                && dinodes == (if ip.size == old(ip.size) then old(dinodes) else old(dinodes)[ip.inum := ip.Value()])
                && (MappedTo(old(blocks), old(ip.Value()), old(ip.size)) ==>
                      && MappedTo(blocks, ip.Value(), ip.size) && |logged| <= MAXOPBLOCKS
                      && (ip.size == old(ip.size) ==> ip.addrs == old(ip.addrs)))
    {
      hide OwnedBy;
      hide Ref;
      hide OneLogged;
      hide Byte;
      hide MappedTo;
      hide Content;
      hide Splice;
      hide OthersKept;
      hide Covers;
      var max := (MAXOPBLOCKS - 1 - 1 - 2) / 2 * 512;
      n := if |src| > max then max else |src|;
      logged := {};
      w := Writei(ip, src[..n], off);
      assert logged - {} == logged;
    }

    /**
     * filewrite of a regular file at *f->off with nobody else writing it: the chunks together splice the
     * bytes written, the whole of src unless a chunk would pass the largest file size or starts past the
     * end, and each transaction logs at most MAXOPBLOCKS blocks.
     */
    method Filewrite(ip: Inode, off: nat, src: seq<byte>) returns (r: Io, done: nat, ghost txs: seq<set<nat>>)
      requires Valid(ip) && ip.size <= MAXSIZE && off < WORDMAX
      modifies this, ip`addrs, ip`size
      ensures MappedTo(old(blocks), old(ip.Value()), old(ip.size)) ==> forall i :: 0 <= i < |txs| ==> |txs[i]| <= MAXOPBLOCKS
      ensures r.Panic? ==> |bits| == sb.size && forall b :: 0 <= b < sb.size ==> bits[b]
      ensures !r.Panic? ==>
                && Valid(ip) && ip.size <= MAXSIZE && tab == old(tab)[ip.inum := ip.Value()]
                && OthersKept(old(blocks), blocks, old(tab), ip.inum)
                && (src != [] ==> (r.Fail? <==> off > old(ip.size) || off + |src| > MAXSIZE))
                && (r.Count? ==> done == |src| && r.n == |src|)
                && done <= |src| && (done > 0 ==> off <= old(ip.size))
                && (off <= old(ip.size) ==>
                      Content(blocks, ip.Value()) == Splice(Content(old(blocks), old(ip.Value())), off, src[..done]))
                && (off > old(ip.size) ==> Content(blocks, ip.Value()) == Content(old(blocks), old(ip.Value())))
                && (MappedTo(old(blocks), old(ip.Value()), old(ip.size)) ==>
                      && MappedTo(blocks, ip.Value(), ip.size)
                      && dinodes == old(dinodes)[ip.inum := dinodes[ip.inum]]
                      && (old(dinodes)[ip.inum] == old(ip.Value()) ==> dinodes[ip.inum] == ip.Value()))
    {
      hide OwnedBy;
      hide Ref;
      hide Byte;
      hide MappedTo;
      hide Content;
      hide Splice;
      hide OthersKept;
      hide Covers;
      done := 0;
      txs := [];
      ghost var c0, mapped := Content(blocks, ip.Value()), MappedTo(blocks, ip.Value(), ip.size);
      assert src[..0] == [];
      SpliceNothing(c0, off);
      OthersSelf(blocks, tab, ip.inum);
      while done < |src|
        invariant 0 <= done <= |src|
        invariant Valid(ip) && ip.size <= MAXSIZE && tab == old(tab)[ip.inum := ip.Value()]
        invariant mapped ==>
                    && MappedTo(blocks, ip.Value(), ip.size) && (forall i :: 0 <= i < |txs| ==> |txs[i]| <= MAXOPBLOCKS)
                    && dinodes == old(dinodes)[ip.inum := dinodes[ip.inum]]
                    && (old(dinodes)[ip.inum] == old(ip.Value()) ==> dinodes[ip.inum] == ip.Value())
        invariant OthersKept(old(blocks), blocks, old(tab), ip.inum)
        invariant done > 0 ==> off <= old(ip.size) && off + done <= MAXSIZE
        invariant ip.size == if done > 0 && off + done > old(ip.size) then off + done else old(ip.size)
        invariant off <= old(ip.size) ==> Content(blocks, ip.Value()) == Splice(c0, off, src[..done])
        invariant done == 0 ==> Content(blocks, ip.Value()) == c0
      {
        ghost var blocks1, n1 := blocks, ip.Value();
        var w, n := FileChunk(ip, off + done, src[done..]);
        if w.Panic? {
          return Panic, done, txs;
        }
        if w.Fail? {
          return Fail, done, txs;
        }
        txs := txs + [logged];
        OthersIgnore(blocks1, blocks, old(tab), ip.inum, n1);
        OthersTrans(old(blocks), blocks1, blocks, old(tab), ip.inum);
        assert src[done..][..n] == src[done..done + n];
        SpliceTwice(c0, off, src[..done], src[done..done + n]);
        assert src[..done] + src[done..done + n] == src[..done + n];
        done := done + n;
      }
      assert src[..|src|] == src;
      r := Count(|src|);
    }
  }

  // ----- How much a truncation logs -----

  /** The blocks of the free map with bits of data blocks. */
  function MapBlocks(sb: Super): int {
    (sb.size - 1) / BPB - sb.data / BPB + 1
  }

  /** What itrunc of inode i logs. */
  ghost function TruncLog(sb: Super, blocks: Disk, n: Dinode, i: nat): set<nat> {
    BitBlocks(sb, RefsIn(blocks, n, 0, NSLOT)) + {InodeBlock(sb, i)}
  }

  ghost function Upto(lo: nat, n: nat): (s: set<nat>)
    ensures |s| == n && forall x :: x in s <==> lo <= x < lo + n
  {
    if n == 0 then {} else Upto(lo, n - 1) + {lo + n - 1}
  }

  lemma RefsAreData(sb: Super, owner: Owner, bits: seq<bool>, blocks: Disk, table: seq<Dinode>, i: nat)
    requires OwnedBy(sb, owner, bits, blocks, table) && i < |table|
    ensures forall b :: b in RefsIn(blocks, table[i], 0, NSLOT) ==> sb.data <= b < sb.size
  {
    hide Ref;
  }

  lemma TruncCovers(sb: Super, s0: Store, s: Store, freed: set<nat>, i: nat)
    requires |s.bits| == |s0.bits| == sb.size && s.blocks == s0.blocks && i < |s0.dinodes| == |s.dinodes|
    requires s.dinodes == s0.dinodes[i := s.dinodes[i]] && s.logged == s0.logged + (BitBlocks(sb, freed) + {InodeBlock(sb, i)})
    requires forall b :: 0 <= b < |s.bits| ==> (s.bits[b] <==> s0.bits[b] && b !in freed)
    requires forall b :: b in freed ==> b < sb.size
    ensures Covers(sb, s0, s)
  {
    forall b | 0 <= b < |s.bits| && s.bits[b] != s0.bits[b] ensures BitBlock(sb, b) in s.logged {
      assert b in freed;
    }
    forall x | x in s.logged && x !in s0.logged ensures InFs(sb, |s.dinodes|, x) {
      if x in BitBlocks(sb, freed) {
        var b :| b in freed && x == BitBlock(sb, b);
      }
    }
  }

  /** The bits of data blocks are in MapBlocks blocks. */
  ghost function DataMaps(sb: Super): (s: set<nat>)
    requires 0 < sb.data <= sb.size
    ensures |s| == MapBlocks(sb) && forall b :: sb.data <= b < sb.size ==> BitBlock(sb, b) in s
  {
    Upto(sb.bmapstart + sb.data / BPB, MapBlocks(sb))
  }

  lemma TruncMaps(sb: Super, owner: Owner, bits: seq<bool>, blocks: Disk, table: seq<Dinode>, i: nat)
    requires OwnedBy(sb, owner, bits, blocks, table) && i < |table|
    ensures 0 < sb.data <= sb.size && TruncLog(sb, blocks, table[i], i) <= DataMaps(sb) + {InodeBlock(sb, i)}
  {
    hide RefsOwned;
    hide OwnersRefer;
    hide RefsIn;
    RefsAreData(sb, owner, bits, blocks, table, i);
  }

  lemma TruncBound(sb: Super, owner: Owner, bits: seq<bool>, blocks: Disk, table: seq<Dinode>, i: nat)
    requires OwnedBy(sb, owner, bits, blocks, table) && i < |table|
    ensures |TruncLog(sb, blocks, table[i], i)| <= MapBlocks(sb) + 1
  {
    hide OwnedBy;
    hide TruncLog;
    TruncMaps(sb, owner, bits, blocks, table, i);
    UnionSize(DataMaps(sb), {InodeBlock(sb, i)});
    SubsetSize(TruncLog(sb, blocks, table[i], i), DataMaps(sb) + {InodeBlock(sb, i)});
  }

  /** Block k of a file spread as far apart as the disk allows. */
  function Spread(sb: Super, k: nat): nat {
    if k == 0 then sb.data else (sb.data / BPB + k) * BPB
  }

  function SpreadInode(sb: Super): (n: Dinode)
    requires MapBlocks(sb) >= 10 && sb.size <= WORDMAX
    ensures forall k :: 0 <= k < 10 ==> n.addrs[k] == Spread(sb, k)
    ensures forall k :: 10 <= k <= NDIRECT ==> n.addrs[k] == 0
  {
    var f := (k: nat) => Spread(sb, k);
    assert forall k: nat :: k < 10 ==> Spread(sb, k) < sb.size;
    Dinode(2, 0, 0, 1, 10 * BSIZE, [f(0), f(1), f(2), f(3), f(4), f(5), f(6), f(7), f(8), f(9), 0, 0, 0])
  }

  lemma SpreadApart(sb: Super, j: nat, k: nat)
    requires MapBlocks(sb) >= 10 && j < 10 && k < 10
    ensures sb.data <= Spread(sb, k) < sb.size && BitBlock(sb, Spread(sb, k)) == sb.bmapstart + sb.data / BPB + k
    ensures j != k ==> Spread(sb, j) != Spread(sb, k)
  {
  }

  /** Who owns the direct blocks xs of inode 0. */
  function DirectOwner(xs: seq<nat>): (o: Owner)
    requires forall i, j :: 0 <= i < j < |xs| ==> xs[i] != xs[j]
    ensures forall k :: 0 <= k < |xs| ==> xs[k] in o && o[xs[k]] == (0, k)
    ensures forall b :: b in o ==> o[b].0 == 0 && o[b].1 < |xs| && xs[o[b].1] == b
  {
    if xs == [] then map[] else DirectOwner(xs[..|xs| - 1])[xs[|xs| - 1] := (0, |xs| - 1)]
  }

  lemma DirectOwned(sb: Super, blocks: Disk, n: Dinode, xs: seq<nat>) returns (owner: Owner, bits: seq<bool>)
    requires |blocks| == sb.size <= WORDMAX && 0 < sb.data <= sb.size && |xs| <= NDIRECT
    requires forall k :: 0 <= k < |xs| ==> sb.data <= xs[k] < sb.size
    requires forall i, j :: 0 <= i < j < |xs| ==> xs[i] != xs[j]
    requires forall k :: 0 <= k <= NDIRECT ==> n.addrs[k] == if k < |xs| then xs[k] else 0
    ensures OwnedBy(sb, owner, bits, blocks, [n])
  {
    hide DirectOwner;
    var o := DirectOwner(xs);
    forall s | 0 <= s < NSLOT ensures Ref(blocks, n, s) == if s < |xs| then xs[s] else 0 {
    }
    hide Ref;
    owner, bits := o, seq(sb.size, b => b < sb.data || b in o);
  }

  lemma SpreadOwned(sb: Super, blocks: Disk) returns (owner: Owner, bits: seq<bool>)
    requires MapBlocks(sb) >= 10 && |blocks| == sb.size <= WORDMAX && 0 < sb.data
    ensures OwnedBy(sb, owner, bits, blocks, [SpreadInode(sb)])
  {
    hide OwnedBy;
    hide SpreadInode;
    hide Spread;
    var xs: seq<nat> := SpreadInode(sb).addrs[..10];
    forall k | 0 <= k < 10 ensures sb.data <= xs[k] < sb.size {
      SpreadApart(sb, k, k);
    }
    forall i, j | 0 <= i < j < 10 ensures xs[i] != xs[j] {
      SpreadApart(sb, i, j);
    }
    SpreadApart(sb, 0, 0);
    hide MapBlocks;
    owner, bits := DirectOwned(sb, blocks, SpreadInode(sb), xs);
  }

  /**
   * Truncation keeps within the MAXOPBLOCKS blocks that begin_op reserves for every file exactly when the
   * data blocks have their bits in at most nine blocks of the free map.
   */
  lemma TruncExact(sb: Super, blocks: Disk)
    requires 0 < sb.data < sb.size <= WORDMAX && |blocks| == sb.size && sb.inodestart < sb.bmapstart
    ensures MapBlocks(sb) <= MAXOPBLOCKS - 1 <==>
            forall owner: Owner, bits: seq<bool>, n: Dinode ::
              OwnedBy(sb, owner, bits, blocks, [n]) ==> |TruncLog(sb, blocks, n, 0)| <= MAXOPBLOCKS
  {
    hide OwnedBy;
    hide TruncLog;
    if MapBlocks(sb) <= MAXOPBLOCKS - 1 {
      forall owner: Owner, bits: seq<bool>, n: Dinode | OwnedBy(sb, owner, bits, blocks, [n])
        ensures |TruncLog(sb, blocks, n, 0)| <= MAXOPBLOCKS
      {
        TruncBound(sb, owner, bits, blocks, [n], 0);
      }
    } else {
      var owner, bits := SpreadOwned(sb, blocks);
      SpreadLog(sb, blocks);
    }
  }

  lemma SpreadLog(sb: Super, blocks: Disk)
    requires MapBlocks(sb) >= 10 && |blocks| == sb.size <= WORDMAX && 0 < sb.data && sb.inodestart < sb.bmapstart
    ensures |TruncLog(sb, blocks, SpreadInode(sb), 0)| > MAXOPBLOCKS
  {
    hide RefsIn;
    var n := SpreadInode(sb);
    var low := sb.bmapstart + sb.data / BPB;
    var maps := BitBlocks(sb, RefsIn(blocks, n, 0, NSLOT));
    forall x | x in Upto(low, 10) ensures x in maps {
      var k := x - low;
      SpreadApart(sb, k, k);
      assert Ref(blocks, n, k) == Spread(sb, k);
      assert BitBlock(sb, Spread(sb, k)) == x && Spread(sb, k) in RefsIn(blocks, n, 0, NSLOT);
    }
    SubsetSize(Upto(low, 10) + {InodeBlock(sb, 0)}, TruncLog(sb, blocks, n, 0));
  }
}
