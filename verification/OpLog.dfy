// What create and unlink write (sysfile.c), with parent and child both in memory, and exactly which
// blocks they log.
module OpLog {
  import opened Common
  import opened Blocks
  import opened BlockMap
  import opened FileSystem
  import opened Dirents
  import D = Directories
  import Links

  /** A change of a field other than addrs keeps every inode in memory valid. */
  lemma FieldOnly(fs: Fs, i: nat, n: Dinode)
    requires fs.Sound() && i < |fs.tab| && n.addrs == fs.tab[i].addrs
    ensures OwnedBy(fs.sb, fs.owner, fs.bits, fs.blocks, fs.tab[i := n])
    ensures forall s :: 0 <= s < NSLOT ==> Ref(fs.blocks, n, s) == Ref(fs.blocks, fs.tab[i], s)
    ensures forall p :: 0 <= p < MAXSIZE ==> Byte(fs.blocks, n, p) == Byte(fs.blocks, fs.tab[i], p)
  {
    hide OwnedBy;
    hide Ref;
    hide Byte;
    SizeOnly(fs.sb, fs.owner, fs.bits, fs.blocks, fs.tab, i, n);
  }

  /** iupdate after stores into fields of ip other than its size and addrs. */
  method Update(fs: Fs, ip: Inode)
    requires fs.Sound() && ip.inum < |fs.tab| && fs.tab[ip.inum].addrs == ip.addrs && fs.tab[ip.inum].size == ip.size
    modifies fs`dinodes, fs`logged, fs`tab
    ensures fs.Valid(ip) && fs.tab == old(fs.tab)[ip.inum := ip.Value()]
    ensures fs.logged == old(fs.logged) + {InodeBlock(fs.sb, ip.inum)} && Covers(fs.sb, old(fs.St()), fs.St())
    ensures fs.dinodes == old(fs.dinodes)[ip.inum := ip.Value()]
    ensures MappedTo(fs.blocks, ip.Value(), ip.size) <==> MappedTo(fs.blocks, old(fs.tab)[ip.inum], ip.size)
    ensures ip.size <= MAXSIZE ==> Content(fs.blocks, ip.Value()) == Content(fs.blocks, old(fs.tab)[ip.inum])
  {
    hide OwnedBy;
    hide Ref;
    hide Byte;
    hide Covers;
    FieldOnly(fs, ip.inum, ip.Value());
    fs.tab := fs.tab[ip.inum := ip.Value()];
    CoversInode(fs.sb, fs.St(), ip.inum, ip.Value());
    fs.Iupdate(ip);
  }

  /** Sets ip->nlink and writes it through. */
  method SetLinks(fs: Fs, ip: Inode, nlink: int)
    requires fs.Valid(ip)
    modifies fs`dinodes, fs`logged, fs`tab, ip`nlink
    ensures fs.Valid(ip) && ip.Value() == old(ip.Value()).(nlink := nlink) && fs.tab == old(fs.tab)[ip.inum := ip.Value()]
    ensures fs.logged == old(fs.logged) + {InodeBlock(fs.sb, ip.inum)} && Covers(fs.sb, old(fs.St()), fs.St())
    ensures fs.dinodes == old(fs.dinodes)[ip.inum := ip.Value()]
    ensures MappedTo(fs.blocks, ip.Value(), ip.size) <==> old(MappedTo(fs.blocks, ip.Value(), ip.size))
    ensures ip.size <= MAXSIZE ==> Content(fs.blocks, ip.Value()) == Content(fs.blocks, old(ip.Value()))
  {
    hide OwnedBy;
    hide MappedTo;
    hide Content;
    hide Covers;
    ip.nlink := nlink;
    Update(fs, ip);
  }

  /** What one directory entry costs: the blocks of one chunk of writei, and the inode if it grew. */
  ghost function EntryLog(sb: Super, blocks0: Disk, n0: Dinode, blocks: Disk, n: Dinode, off: nat, i: nat): set<nat>
    requires off / BSIZE < MAXFILE
  {
    ChunkLog(sb, off / BSIZE, Ref(blocks, n, off / BSIZE), Ref(blocks0, n0, off / BSIZE) == 0, n0.addrs, n.addrs)
    + if n.size == n0.size then {} else {InodeBlock(sb, i)}
  }

  lemma EntryLogIs(sb: Super, blocks0: Disk, n0: Dinode, blocks: Disk, n: Dinode, off: nat, i: nat, log0: set<nat>, log: set<nat>)
    requires OneLogged(sb, blocks0, n0, blocks, n, off, i, log0, log)
    ensures off / BSIZE < MAXFILE && log == log0 + EntryLog(sb, blocks0, n0, blocks, n, off, i)
    ensures n.size != n0.size ==> InodeBlock(sb, i) in EntryLog(sb, blocks0, n0, blocks, n, off, i)
    ensures off < NDIRECT * BSIZE && n0.addrs[off / BSIZE] != 0 ==>
              n.addrs == n0.addrs && EntryLog(sb, blocks0, n0, blocks, n, off, i) <= {n.addrs[off / BSIZE], InodeBlock(sb, i)}
    ensures off < NDIRECT * BSIZE && n0.addrs[off / BSIZE] == 0 ==>
              var a := n.addrs[off / BSIZE];
              && a != 0 && {a, BitBlock(sb, a)} <= EntryLog(sb, blocks0, n0, blocks, n, off, i)
              && EntryLog(sb, blocks0, n0, blocks, n, off, i) <= {a, BitBlock(sb, a), InodeBlock(sb, i)}
  {
  }

  /** Its block, the indirect block, their bitmap blocks and the inode; in a mapped entry, not the bitmap. */
  lemma EntryFew(sb: Super, owner: Owner, bits: seq<bool>, blocks0: Disk, n0: Dinode, blocks: Disk, table: seq<Dinode>,
                 off: nat, i: nat, log0: set<nat>, log: set<nat>)
    requires i < |table| && OwnedBy(sb, owner, bits, blocks, table)
    requires OneLogged(sb, blocks0, n0, blocks, table[i], off, i, log0, log)
    ensures off / BSIZE < MAXFILE && 0 < sb.data <= sb.size
    ensures var a, t, e := Ref(blocks, table[i], off / BSIZE), table[i].addrs[NDIRECT],
                           EntryLog(sb, blocks0, n0, blocks, table[i], off, i);
            && e <= {a, BitBlock(sb, a), t, BitBlock(sb, t), InodeBlock(sb, i)} && e <= DataMaps(sb) + {a, t, InodeBlock(sb, i)}
            && (Ref(blocks0, n0, off / BSIZE) != 0 ==> e <= {a, InodeBlock(sb, i)})
  {
    hide Ref;
    hide RefsOwned;
    hide OwnersRefer;
    RefIsData(sb, owner, bits, blocks, table, i, off / BSIZE);
    TableIsData(sb, owner, bits, blocks, table, i);
  }

  /** writei of one directory entry, with another inode jp in memory; false is a panic. */
  method WriteEntry(fs: Fs, ip: Inode, src: seq<byte>, off: nat, ghost jp: Inode) returns (ok: bool)
    requires fs.Valid(ip) && |src| == DIRENT && off % DIRENT == 0 && off <= ip.size <= MAXSIZE
    requires fs.Valid(jp) && jp != ip && jp.inum != ip.inum
    modifies fs, ip`addrs, ip`size
    ensures Covers(fs.sb, old(fs.St()), fs.St())
    ensures !ok ==> off + DIRENT > MAXSIZE || !HasFree(fs.bits)
    ensures ok ==>
              && fs.Valid(ip) && fs.Valid(jp) && ip.size <= MAXSIZE && fs.tab == old(fs.tab)[ip.inum := ip.Value()]
              && ip.size == (if off + DIRENT > old(ip.size) then off + DIRENT else old(ip.size))
              && Content(fs.blocks, ip.Value()) == Splice(Content(old(fs.blocks), old(ip.Value())), off, src)
              && OthersKept(old(fs.blocks), fs.blocks, old(fs.tab), ip.inum)
              && (MappedTo(old(fs.blocks), old(ip.Value()), old(ip.size)) ==>
                    && MappedTo(fs.blocks, ip.Value(), ip.size) && (ip.size == old(ip.size) ==> ip.addrs == old(ip.addrs)))
              && fs.dinodes == (if ip.size == old(ip.size) then old(fs.dinodes) else old(fs.dinodes)[ip.inum := ip.Value()])
              && OneLogged(fs.sb, old(fs.blocks), old(ip.Value()), fs.blocks, ip.Value(), off, ip.inum, old(fs.logged), fs.logged)
  {
    hide OwnedBy;
    hide Ref;
    hide MappedTo;
    hide OneLogged;
    hide Content;
    hide Splice;
    hide OthersKept;
    hide Covers;
    var r := fs.Writei(ip, src, off);
    ok := r.Count?;
  }

  /** iput of an inode in memory: with the last reference to an inode without links it is truncated and freed. */
  method Iput(fs: Fs, ip: Inode, last: bool)
    requires fs.Valid(ip)
    modifies fs`bits, fs`logged, fs`owner, fs`tab, fs`dinodes, ip`addrs, ip`size, ip`typ
    ensures fs.Valid(ip) && fs.tab == old(fs.tab)[ip.inum := ip.Value()] && Covers(fs.sb, old(fs.St()), fs.St())
    ensures ip.Value() == Put(old(ip.Value()), last)
    ensures last && old(ip.nlink) == 0 ==>
              && fs.dinodes == old(fs.dinodes)[ip.inum := ip.Value()] && |fs.bits| == |old(fs.bits)|
              && fs.logged == old(fs.logged) + TruncLog(fs.sb, fs.blocks, old(ip.Value()), ip.inum)
              && forall b :: 0 <= b < |fs.bits| ==>
                   (fs.bits[b] <==> old(fs.bits)[b] && b !in RefsIn(fs.blocks, old(ip.Value()), 0, NSLOT))
    ensures !(last && old(ip.nlink) == 0) ==> fs.St() == old(fs.St()) && ip.Value() == old(ip.Value())
  {
    hide OwnedBy;
    hide Ref;
    hide RefsIn;
    hide TruncLog;
    hide Covers;
    hide Byte;
    CoversSelf(fs.sb, fs.St());
    assert fs.tab[ip.inum := ip.Value()] == fs.tab;
    if ip.nlink == 0 && last {
      var ok := fs.Itrunc(ip);
      ghost var s1 := fs.St();
      FieldOnly(fs, ip.inum, ip.Value().(typ := 0));
      ip.typ := 0;
      CoversInode(fs.sb, s1, ip.inum, ip.Value());
      fs.tab := fs.tab[ip.inum := ip.Value()];
      fs.Iupdate(ip);
      CoversTrans(fs.sb, old(fs.St()), s1, fs.St());
      TruncHas(fs.sb, fs.blocks, old(ip.Value()), ip.inum);
    }
  }

  /** An inode after iput. */
  ghost function Put(n: Dinode, last: bool): Dinode {
    if last && n.nlink == 0 then n.(typ := 0, size := 0, addrs := NoAddrs()) else n
  }

  ghost function PutLog(sb: Super, blocks: Disk, n: Dinode, i: nat, last: bool): set<nat> {
    if last && n.nlink == 0 then TruncLog(sb, blocks, n, i) else {}
  }

  lemma TruncHas(sb: Super, blocks: Disk, n: Dinode, i: nat)
    ensures InodeBlock(sb, i) in TruncLog(sb, blocks, n, i)
  {
  }

  lemma OthersContent(blocks: Disk, blocks': Disk, table: seq<Dinode>, i: nat, j: nat)
    requires OthersKept(blocks, blocks', table, i) && j < |table| && j != i && table[j].size <= MAXSIZE
    ensures Content(blocks', table[j]) == Content(blocks, table[j])
  {
    hide Byte;
    hide Ref;
  }

  lemma OthersMapped(blocks: Disk, blocks': Disk, table: seq<Dinode>, i: nat, j: nat)
    requires OthersKept(blocks, blocks', table, i) && j < |table| && j != i
    ensures MappedTo(blocks, table[j], table[j].size) <==> MappedTo(blocks', table[j], table[j].size)
    ensures forall s :: 0 <= s < NSLOT ==> Ref(blocks', table[j], s) == Ref(blocks, table[j], s)
  {
    hide Ref;
    hide Byte;
  }

  // ----- create -----

  /** The contents of a new inode i in directory p. */
  ghost predicate NewContent(c: seq<byte>, i: nat, p: nat, isDir: bool) {
    if isDir then c == Dots(i, p) && Entries(c) == [D.Dirent(i % INUMS, "."), D.Dirent(p % INUMS, "..")] else c == []
  }

  /** Directory contents c after an entry for inode i was written at off. */
  ghost predicate Entered(c0: seq<byte>, c: seq<byte>, off: nat, i: nat, name: seq<byte>) {
    && off / DIRENT <= |Entries(c0)|
    && Entries(c) == D.Put(Entries(c0), off / DIRENT, D.Dirent(i % INUMS, Links.Clip(Text(name))))
  }

  ghost predicate Cleared(c0: seq<byte>, c: seq<byte>, off: nat) {
    && off / DIRENT <= |Entries(c0)|
    && Entries(c) == D.Put(Entries(c0), off / DIRENT, D.Dirent(0, ""))
  }

  /** The dots of a new directory, both in its first block; false is a panic. */
  method WriteDots(fs: Fs, ip: Inode, dp: Inode) returns (ok: bool)
    requires fs.Valid(ip) && fs.Valid(dp) && ip != dp && ip.inum != dp.inum
    requires ip.size == 0 && ip.addrs[0] == 0
    modifies fs, ip`addrs, ip`size
    ensures Covers(fs.sb, old(fs.St()), fs.St())
    ensures !ok ==> !HasFree(fs.bits)
    ensures ok ==>
              && fs.Valid(ip) && fs.Valid(dp) && ip.size == 2 * DIRENT && fs.tab == old(fs.tab)[ip.inum := ip.Value()]
              && NewContent(Content(fs.blocks, ip.Value()), ip.inum, dp.inum, true)
              && OthersKept(old(fs.blocks), fs.blocks, old(fs.tab), ip.inum)
              && fs.dinodes == old(fs.dinodes)[ip.inum := ip.Value()]
              && ip.addrs[0] != 0
              && fs.logged == old(fs.logged) + {InodeBlock(fs.sb, ip.inum), ip.addrs[0], BitBlock(fs.sb, ip.addrs[0])}
  {
    hide OwnedBy;
    hide MappedTo;
    hide Content;
    hide Splice;
    hide Covers;
    hide OneLogged;
    hide OthersKept;
    hide EntryLog;
    hide Ref;
    hide DirentBytes;
    ghost var n0, blocks0, log0 := ip.Value(), fs.blocks, fs.logged;
    var dot, dotdot := DirentBytes(ip.inum, [0x2E]), DirentBytes(dp.inum, [0x2E, 0x2E]);
    EmptyContent(fs.blocks, ip.Value());
    SpliceDots(dot, dotdot);
    ok := WriteEntry(fs, ip, dot, 0, dp);
    if !ok {
      return;
    }
    ghost var n1, s1 := ip.Value(), fs.St();
    EntryLogIs(fs.sb, blocks0, n0, s1.blocks, n1, 0, ip.inum, log0, s1.logged);
    ok := WriteEntry(fs, ip, dotdot, DIRENT, dp);
    CoversTrans(fs.sb, old(fs.St()), s1, fs.St());
    if ok {
      EntryLogIs(fs.sb, s1.blocks, n1, fs.blocks, ip.Value(), DIRENT, ip.inum, s1.logged, fs.logged);
      OthersIgnore(s1.blocks, fs.blocks, old(fs.tab), ip.inum, n1);
      OthersTrans(blocks0, s1.blocks, fs.blocks, old(fs.tab), ip.inum);
      DotsRead(ip.inum, dp.inum);
    }
  }

  lemma EmptyContent(blocks: Disk, n: Dinode)
    requires n.size == 0
    ensures Content(blocks, n) == []
  {
  }

  lemma NewEmpty(i: nat, p: nat)
    ensures NewContent([], i, p, false)
  {
  }

  lemma SpliceDots(dot: seq<byte>, dotdot: seq<byte>)
    ensures Splice([], 0, dot) == dot && Splice(dot, |dot|, dotdot) == dot + dotdot
  {
  }

  /** The inode's number of links, type and size do not matter for what an entry costs, nor do other inodes' blocks. */
  lemma SameEntry(sb: Super, blocks0: Disk, m0: Dinode, blocks1: Disk, table: seq<Dinode>, i: nat, j: nat,
                  blocks: Disk, n: Dinode, off: nat)
    requires OthersKept(blocks0, blocks1, table, i) && j < |table| && j != i && off / BSIZE < MAXFILE
    requires m0.addrs == table[j].addrs && m0.size == table[j].size
    ensures EntryLog(sb, blocks0, m0, blocks, n, off, j) == EntryLog(sb, blocks1, table[j], blocks, n, off, j)
    ensures Ref(blocks0, m0, off / BSIZE) == Ref(blocks1, table[j], off / BSIZE)
    ensures m0.size <= MAXSIZE ==> Content(blocks0, m0) == Content(blocks1, table[j])
    ensures MappedTo(blocks0, m0, m0.size) <==> MappedTo(blocks1, table[j], table[j].size)
  {
    hide ChunkLog;
    hide Word;
    OthersMapped(blocks0, blocks1, table, i, j);
    SameAddrs(blocks0, m0, table[j]);
    if m0.size <= MAXSIZE {
      OthersContent(blocks0, blocks1, table, i, j);
    }
  }

  lemma SameAddrs(blocks: Disk, m: Dinode, n: Dinode)
    requires m.addrs == n.addrs && m.size == n.size
    ensures forall s :: 0 <= s < NSLOT ==> Ref(blocks, m, s) == Ref(blocks, n, s)
    ensures MappedTo(blocks, m, m.size) <==> MappedTo(blocks, n, n.size)
    ensures m.size <= MAXSIZE ==> Content(blocks, m) == Content(blocks, n)
  {
    hide Word;
    forall s | 0 <= s < NSLOT ensures Ref(blocks, m, s) == Ref(blocks, n, s) {
    }
    forall p | 0 <= p < MAXSIZE ensures Byte(blocks, m, p) == Byte(blocks, n, p) {
    }
  }

  /** The parent as create leaves it, before its iput. */
  ghost predicate EntryAdded(blocks0: Disk, n0: Dinode, blocks: Disk, n: Dinode, nlink: int, off: nat, i: nat, name: seq<byte>)
  {
    && n0.size <= MAXSIZE && n.size <= MAXSIZE && EntryWritten(blocks0, n0, blocks, n, nlink, off, DirentBytes(i, name))
    && Entered(Content(blocks0, n0), Content(blocks, n), off, i, name)
  }

  /** And as unlink does. */
  ghost predicate EntryCleared(blocks0: Disk, n0: Dinode, blocks: Disk, n: Dinode, nlink: int, off: nat)
  {
    && n0.size <= MAXSIZE && n.size <= MAXSIZE && EntryWritten(blocks0, n0, blocks, n, nlink, off, NoEntry())
    && Cleared(Content(blocks0, n0), Content(blocks, n), off)
  }

  lemma AddedIs(blocks0: Disk, n0: Dinode, blocks: Disk, n: Dinode, nlink: int, off: nat, i: nat, name: seq<byte>)
    requires EntryWritten(blocks0, n0, blocks, n, nlink, off, DirentBytes(i, name)) && off % DIRENT == 0
    ensures EntryAdded(blocks0, n0, blocks, n, nlink, off, i, name)
  {
    hide Byte;
    hide DirentBytes;
    hide Splice;
    EntriesPut(Content(blocks0, n0), off, i, name);
  }

  lemma ClearedIs(blocks0: Disk, n0: Dinode, blocks: Disk, n: Dinode, nlink: int, off: nat)
    requires EntryWritten(blocks0, n0, blocks, n, nlink, off, NoEntry()) && off % DIRENT == 0
    ensures EntryCleared(blocks0, n0, blocks, n, nlink, off)
  {
    hide Byte;
    hide NoEntry;
    hide Splice;
    EntriesClear(Content(blocks0, n0), off);
  }

  /** The parent with an entry written over. */
  ghost predicate EntryWritten(blocks0: Disk, n0: Dinode, blocks: Disk, n: Dinode, nlink: int, off: nat, entry: seq<byte>)
  {
    && off <= n0.size <= MAXSIZE && n.size <= MAXSIZE && n == n0.(nlink := nlink, size := n.size, addrs := n.addrs)
    && Content(blocks, n) == Splice(Content(blocks0, n0), off, entry)
  }

  ghost predicate Stored(dinodes: seq<Dinode>, i: nat, n: Dinode) {
    i < |dinodes| && dinodes[i] == n
  }

  /** The table with the new versions of two inodes. */
  ghost predicate Both(d0: seq<Dinode>, d: seq<Dinode>, i: nat, c: Dinode, p: nat, m: Dinode) {
    i < |d0| && p < |d0| && d == d0[i := c][p := m]
  }

  /** The new inode as create fills it in. */
  ghost predicate Child(n: Dinode, typ: int, major: int, minor: int) {
    n == Dinode(typ, major, minor, 1, n.size, n.addrs) && n.size <= MAXSIZE && (typ == T_DIR ==> n.addrs[0] != 0)
  }

  /** Inode i was the first free one. */
  ghost predicate FirstFree(dinodes: seq<Dinode>, i: nat) {
    1 <= i < |dinodes| && dinodes[i].typ == 0 && forall j :: 1 <= j < i ==> dinodes[j].typ != 0
  }

  ghost predicate NoneFree(dinodes: seq<Dinode>) {
    forall i :: 1 <= i < |dinodes| ==> dinodes[i].typ != 0
  }

  /** A free inode marked by its type, locked, and written with its fields; None is a panic. */
  method NewNode(fs: Fs, dp: Inode, typ: int, major: int, minor: int) returns (r: Option<Inode>)
    requires fs.Valid(dp) && fs.FreeUnused() && fs.dinodes[dp.inum].typ != 0
    modifies fs`dinodes, fs`logged, fs`tab
    ensures Covers(fs.sb, old(fs.St()), fs.St()) && fs.Valid(dp)
    ensures r.None? <==> NoneFree(old(fs.dinodes))
    ensures r.Some? ==>
              var ip := r.value;
              && fresh(ip) && fs.Valid(ip) && ip.inum != dp.inum && FirstFree(old(fs.dinodes), ip.inum)
              && ip.Value() == Dinode(typ, major, minor, 1, 0, NoAddrs()) && ip.inum < |old(fs.tab)|
              && fs.tab == old(fs.tab)[ip.inum := ip.Value()] && fs.dinodes == old(fs.dinodes)[ip.inum := ip.Value()]
              && fs.logged == old(fs.logged) + {InodeBlock(fs.sb, ip.inum)}
  {
    hide OwnedBy;
    hide MappedTo;
    hide Content;
    hide Covers;
    var i := fs.Ialloc(typ);
    if i.None? {
      return None;
    }
    ghost var s1 := fs.St();
    var ip := fs.Ilock(i.value);
    ip.major, ip.minor, ip.nlink := major, minor, 1;
    Update(fs, ip);
    CoversTrans(fs.sb, old(fs.St()), s1, fs.St());
    r := Some(ip);
  }

  /** create up to the entry in the parent: the new inode and, for a directory, the parent's count and the dots. */
  method CreateChild(fs: Fs, dp: Inode, typ: int, major: int, minor: int) returns (r: Option<Inode>)
    requires fs.Valid(dp) && fs.FreeUnused() && fs.dinodes[dp.inum].typ != 0
    modifies fs, dp`nlink
    ensures Covers(fs.sb, old(fs.St()), fs.St())
    ensures r.None? ==> NoneFree(old(fs.dinodes)) || !HasFree(fs.bits)
    ensures r.Some? ==>
              var ip, isDir := r.value, typ == T_DIR;
              && fresh(ip) && fs.Valid(ip) && ip.inum != dp.inum && FirstFree(old(fs.dinodes), ip.inum)
              && Child(ip.Value(), typ, major, minor)
              && NewContent(Content(fs.blocks, ip.Value()), ip.inum, dp.inum, isDir)
              && fs.Valid(dp) && dp.nlink == old(dp.nlink) + (if isDir then 1 else 0)
              && OthersKept(old(fs.blocks), fs.blocks, fs.tab, ip.inum)
              && Both(old(fs.tab), fs.tab, ip.inum, ip.Value(), dp.inum, dp.Value())
              && fs.dinodes == (if isDir then old(fs.dinodes)[dp.inum := dp.Value()] else old(fs.dinodes))[ip.inum := ip.Value()]
              && fs.logged == old(fs.logged) + ChildLog(fs.sb, ip.Value(), ip.inum, dp.inum, isDir)
  {
    hide OwnedBy;
    hide MappedTo;
    hide Content;
    hide Covers;
    hide OthersKept;
    hide FirstFree;
    hide NoneFree;
    hide HasFree;
    hide Fs.FreeUnused;
    hide NewContent;
    ghost var s0 := fs.St();
    r := NewNode(fs, dp, typ, major, minor);
    if r.None? {
      return;
    }
    var ip := r.value;
    EmptyContent(fs.blocks, ip.Value());
    NewEmpty(ip.inum, dp.inum);
    OthersSelf(fs.blocks, fs.tab, ip.inum);
    if typ == T_DIR {
      ghost var s1 := fs.St();
      SetLinks(fs, dp, dp.nlink + 1);
      ghost var s2, tab2, m := fs.St(), fs.tab, ip.Value();
      CoversTrans(fs.sb, s0, s1, s2);
      var ok := WriteDots(fs, ip, dp);
      CoversTrans(fs.sb, s0, s2, fs.St());
      if !ok {
        return None;
      }
      assert fs.tab[ip.inum := m] == tab2;
      OthersIgnore(s0.blocks, fs.blocks, fs.tab, ip.inum, m);
    }
    assert fs.tab == old(fs.tab)[ip.inum := ip.Value()][dp.inum := dp.Value()];
  }

  ghost function ChildLog(sb: Super, child: Dinode, i: nat, p: nat, isDir: bool): set<nat> {
    {InodeBlock(sb, i)} + if isDir then {InodeBlock(sb, p), child.addrs[0], BitBlock(sb, child.addrs[0])} else {}
  }

  /** The blocks that create logs: inodes, the block of the dots, the entry's, and those of the parent's iput. */
  ghost function CreateLog(sb: Super, blocks0: Disk, n0: Dinode, blocks: Disk, child: Dinode, n: Dinode, off: nat,
                           i: nat, p: nat, isDir: bool, last: bool): set<nat>
    requires off / BSIZE < MAXFILE
  {
    ChildLog(sb, child, i, p, isDir) + EntryLog(sb, blocks0, n0, blocks, n, off, p) + PutLog(sb, blocks, n, p, last)
  }

  /** Those blocks exactly: at most eight without the iput, and with it five and the bitmap of the data area. */
  ghost predicate CreateLogged(sb: Super, blocks0: Disk, n0: Dinode, blocks: Disk, child: Dinode, n: Dinode, off: nat,
                               i: nat, p: nat, isDir: bool, last: bool, log0: set<nat>, log: set<nat>) {
    && off / BSIZE < MAXFILE
    && log == log0 + CreateLog(sb, blocks0, n0, blocks, child, n, off, i, p, isDir, last)
    && |log - log0| <= if last && n.nlink == 0 then MapBlocks(sb) + 5 else 8
  }

  lemma Few(all: set<nat>, few: seq<nat>, maps: set<nat>)
    requires all <= maps + Elements(few)
    ensures |all| <= |maps| + |few|
  {
    CountElements(few);
    UnionSize(maps, Elements(few));
    SubsetSize(all, maps + Elements(few));
  }

  lemma CreateFew(sb: Super, owner: Owner, bits: seq<bool>, blocks0: Disk, n0: Dinode, blocks: Disk, table: seq<Dinode>,
                  off: nat, i: nat, p: nat, isDir: bool, log0: set<nat>, log: set<nat>)
    requires i < |table| && p < |table| && OwnedBy(sb, owner, bits, blocks, table)
    requires OneLogged(sb, blocks0, n0, blocks, table[p], off, p, log0, log)
    ensures off / BSIZE < MAXFILE
    ensures |ChildLog(sb, table[i], i, p, isDir) + EntryLog(sb, blocks0, n0, blocks, table[p], off, p)| <= 8
  {
    hide OwnedBy;
    hide OneLogged;
    hide EntryLog;
    hide DataMaps;
    hide MapBlocks;
    hide BitBlock;
    hide InodeBlock;
    hide Ref;
    EntryFew(sb, owner, bits, blocks0, n0, blocks, table, off, p, log0, log);
    var ib, pb, d := InodeBlock(sb, i), InodeBlock(sb, p), table[i].addrs[0];
    var c, t := Ref(blocks, table[p], off / BSIZE), table[p].addrs[NDIRECT];
    var few := [ib, pb, d, BitBlock(sb, d), c, BitBlock(sb, c), t, BitBlock(sb, t)];
    assert Elements(few) == {ib, pb, d, BitBlock(sb, d), c, BitBlock(sb, c), t, BitBlock(sb, t)};
    Few(ChildLog(sb, table[i], i, p, isDir) + EntryLog(sb, blocks0, n0, blocks, table[p], off, p), few, {});
  }

  lemma CreateFreeFew(sb: Super, owner: Owner, bits: seq<bool>, blocks0: Disk, n0: Dinode, blocks: Disk, table: seq<Dinode>,
                      off: nat, i: nat, p: nat, isDir: bool, log0: set<nat>, log: set<nat>)
    requires i < |table| && p < |table| && OwnedBy(sb, owner, bits, blocks, table)
    requires OneLogged(sb, blocks0, n0, blocks, table[p], off, p, log0, log) && (isDir ==> table[i].addrs[0] != 0)
    ensures off / BSIZE < MAXFILE
    ensures |ChildLog(sb, table[i], i, p, isDir) + EntryLog(sb, blocks0, n0, blocks, table[p], off, p)
             + TruncLog(sb, blocks, table[p], p)| <= MapBlocks(sb) + 5
  {
    hide OwnedBy;
    hide OneLogged;
    hide EntryLog;
    hide TruncLog;
    hide DataMaps;
    hide MapBlocks;
    hide BitBlock;
    hide InodeBlock;
    hide Ref;
    EntryFew(sb, owner, bits, blocks0, n0, blocks, table, off, p, log0, log);
    var ib, pb, d := InodeBlock(sb, i), InodeBlock(sb, p), table[i].addrs[0];
    var c, t := Ref(blocks, table[p], off / BSIZE), table[p].addrs[NDIRECT];
    if isDir {
      DotsMapped(sb, owner, bits, blocks, table, i);
    }
    TruncMaps(sb, owner, bits, blocks, table, p);
    assert Elements([ib, pb, d, c, t]) == {ib, pb, d, c, t};
    Few(ChildLog(sb, table[i], i, p, isDir) + EntryLog(sb, blocks0, n0, blocks, table[p], off, p)
             + TruncLog(sb, blocks, table[p], p), [ib, pb, d, c, t], DataMaps(sb));
  }

  lemma DotsMapped(sb: Super, owner: Owner, bits: seq<bool>, blocks: Disk, table: seq<Dinode>, i: nat)
    requires i < |table| && OwnedBy(sb, owner, bits, blocks, table) && table[i].addrs[0] != 0
    ensures 0 < sb.data <= sb.size && BitBlock(sb, table[i].addrs[0]) in DataMaps(sb)
  {
    hide RefsOwned;
    hide OwnersRefer;
    assert Ref(blocks, table[i], 0) == table[i].addrs[0];
    RefIsData(sb, owner, bits, blocks, table, i, 0);
  }

  /** The parts of create together: blocks s0 before it, s1 before the entry, s2 before the iput. */
  lemma CreateDone(sb: Super, owner: Owner, bits: seq<bool>, s0: Store, n0: Dinode, s1: Store, tab1: seq<Dinode>,
                   s2: Store, tab2: seq<Dinode>, log: set<nat>, entry: seq<byte>, off: nat, i: nat, p: nat, isDir: bool, last: bool)
    requires i < |tab1| && p < |tab1| && i != p && off <= n0.size <= MAXSIZE && OthersKept(s0.blocks, s1.blocks, tab1, i)
    requires tab1[p] == n0.(nlink := tab1[p].nlink) && (isDir ==> tab1[i].addrs[0] != 0)
    requires s1.logged == s0.logged + ChildLog(sb, tab1[i], i, p, isDir)
    requires |tab2| == |tab1| && tab2 == tab1[p := tab2[p]] && tab2[p] == tab1[p].(size := tab2[p].size, addrs := tab2[p].addrs)
    requires tab2[p].size <= MAXSIZE && Content(s2.blocks, tab2[p]) == Splice(Content(s1.blocks, tab1[p]), off, entry)
    requires OwnedBy(sb, owner, bits, s2.blocks, tab2)
    requires OneLogged(sb, s1.blocks, tab1[p], s2.blocks, tab2[p], off, p, s1.logged, s2.logged)
    requires log == s2.logged + if last && tab2[p].nlink == 0 then TruncLog(sb, s2.blocks, tab2[p], p) else {}
    ensures EntryWritten(s0.blocks, n0, s2.blocks, tab2[p], tab1[p].nlink, off, entry)
    ensures CreateLogged(sb, s0.blocks, n0, s2.blocks, tab1[i], tab2[p], off, i, p, isDir, last, s0.logged, log)
  {
    hide OwnedBy;
    hide MappedTo;
    hide Content;
    hide Splice;
    hide OneLogged;
    hide OthersKept;
    hide EntryLog;
    hide ChildLog;
    hide TruncLog;
    hide Ref;
    var n := tab2[p];
    EntryLogIs(sb, s1.blocks, tab1[p], s2.blocks, n, off, p, s1.logged, s2.logged);
    SameEntry(sb, s0.blocks, n0, s1.blocks, tab1, i, p, s2.blocks, n, off);
    CreateFew(sb, owner, bits, s1.blocks, tab1[p], s2.blocks, tab2, off, i, p, isDir, s1.logged, s2.logged);
    CreateFreeFew(sb, owner, bits, s1.blocks, tab1[p], s2.blocks, tab2, off, i, p, isDir, s1.logged, s2.logged);
    var all := CreateLog(sb, s0.blocks, n0, s2.blocks, tab1[i], n, off, i, p, isDir, last);
    assert (last && n.nlink == 0) || all == ChildLog(sb, tab1[i], i, p, isDir) + EntryLog(sb, s0.blocks, n0, s2.blocks, n, off, p);
    SubsetSize(log - s0.logged, all);
  }

  /**
   * The writes of create: the new inode, for a directory the parent's count and the dots, the entry, and
   * the iput of the parent, which last says is the last reference to it.  None is a panic.
   */
  method CreateWrites(fs: Fs, dp: Inode, typ: int, major: int, minor: int, name: seq<byte>, off: nat, last: bool)
    returns (r: Option<Inode>, ghost n: Dinode)
    requires fs.Valid(dp) && fs.FreeUnused() && fs.dinodes[dp.inum].typ != 0
    requires dp.size <= MAXSIZE && off % DIRENT == 0 && off <= dp.size
    modifies fs, dp`nlink, dp`addrs, dp`size, dp`typ
    ensures Covers(fs.sb, old(fs.St()), fs.St())
    ensures r.None? ==> NoneFree(old(fs.dinodes)) || !HasFree(fs.bits) || off + DIRENT > MAXSIZE
    ensures r.Some? ==>
              var ip, isDir := r.value, typ == T_DIR;
              && fresh(ip) && fs.Valid(ip) && ip.inum != dp.inum && FirstFree(old(fs.dinodes), ip.inum)
              && Child(ip.Value(), typ, major, minor)
              && NewContent(Content(fs.blocks, ip.Value()), ip.inum, dp.inum, isDir)
              && fs.Valid(dp) && dp.Value() == Put(n, last)
              && Both(old(fs.tab), fs.tab, ip.inum, ip.Value(), dp.inum, dp.Value())
              && EntryAdded(old(fs.blocks), old(dp.Value()), fs.blocks, n, old(dp.nlink) + (if isDir then 1 else 0), off,
                            ip.inum, name)
              && CreateLogged(fs.sb, old(fs.blocks), old(dp.Value()), fs.blocks, ip.Value(), n, off, ip.inum, dp.inum,
                              isDir, last, old(fs.logged), fs.logged)
    ensures r.Some? && old(Stored(fs.dinodes, dp.inum, dp.Value())) && old(MappedTo(fs.blocks, dp.Value(), dp.size)) ==>
              Both(old(fs.dinodes), fs.dinodes, r.value.inum, r.value.Value(), dp.inum, dp.Value())
  {
    hide OwnedBy;
    hide MappedTo;
    hide Content;
    hide Splice;
    hide Covers;
    hide OneLogged;
    hide OthersKept;
    hide EntryLog;
    hide Both;
    hide EntryWritten;
    hide EntryAdded;
    hide CreateLogged;
    hide TruncLog;
    hide ChildLog;
    hide PutLog;
    hide Ref;
    hide Put;
    hide FirstFree;
    hide NoneFree;
    hide HasFree;
    hide Fs.FreeUnused;
    hide NewContent;
    hide DirentBytes;
    ghost var s0, n0 := fs.St(), dp.Value();
    n := n0;
    r := CreateChild(fs, dp, typ, major, minor);
    if r.None? {
      return;
    }
    var ip := r.value;
    ghost var s1, n1, tab1 := fs.St(), dp.Value(), fs.tab;
    var ok := WriteEntry(fs, dp, DirentBytes(ip.inum, name), off, ip);
    CoversTrans(fs.sb, s0, s1, fs.St());
    if !ok {
      return None, n;
    }
    ghost var s2, tab2, owner2, isDir := fs.St(), fs.tab, fs.owner, typ == T_DIR;
    n := dp.Value();
    OthersContent(s1.blocks, s2.blocks, tab1, dp.inum, ip.inum);
    Iput(fs, dp, last);
    CoversTrans(fs.sb, s0, s2, fs.St());
    BothSet(old(fs.tab), tab1, fs.tab, ip.inum, ip.Value(), dp.inum, n1, n, dp.Value());
    CreateDone(fs.sb, owner2, s2.bits, s0, n0, s1, tab1, s2, tab2, fs.logged, DirentBytes(ip.inum, name), off,
               ip.inum, dp.inum, isDir, last);
    AddedIs(s0.blocks, n0, s2.blocks, n, n1.nlink, off, ip.inum, name);
    if Stored(s0.dinodes, dp.inum, n0) && MappedTo(s0.blocks, n0, n0.size) {
      SameEntry(fs.sb, s0.blocks, n0, s1.blocks, tab1, ip.inum, dp.inum, s2.blocks, n, off);
      Through(s0.dinodes, s1.dinodes, s2.dinodes, fs.dinodes, ip.inum, ip.Value(), dp.inum, n0, n1, n, dp.Value(), isDir);
    }
  }

  /** A free inode still has no blocks when two inodes of the table have changed. */
  lemma FreeBoth(d0: seq<Dinode>, d: seq<Dinode>, i: nat, c: Dinode, p: nat, m: Dinode)
    requires FreeEmpty(d0) && Both(d0, d, i, c, p, m)
    requires (c.typ == 0 ==> c.addrs == NoAddrs()) && (m.typ == 0 ==> m.addrs == NoAddrs())
    ensures FreeEmpty(d)
  {
  }

  lemma BothSet(d0: seq<Dinode>, d1: seq<Dinode>, d: seq<Dinode>, i: nat, c: Dinode, p: nat, n1: Dinode, n: Dinode, m: Dinode)
    requires i != p && Both(d0, d1, i, c, p, n1) && d == d1[p := n][p := m]
    ensures Both(d0, d, i, c, p, m)
  {
  }

  lemma Through(d0: seq<Dinode>, d1: seq<Dinode>, d2: seq<Dinode>, d: seq<Dinode>, i: nat, c: Dinode, p: nat,
                n0: Dinode, n1: Dinode, n: Dinode, m: Dinode, first: bool)
    requires i < |d0| && p < |d0| && i != p && d0[p] == n0 && (!first ==> n1 == n0)
    requires d1 == (if first then d0[p := n1] else d0)[i := c]
    requires d2 == d1[p := n] || (d2 == d1 && n == n1)
    requires d == d2[p := m] || (d == d2 && m == n)
    ensures Both(d0, d, i, c, p, m)
  {
    forall k | 0 <= k < |d0| ensures d[k] == d0[i := c][p := m][k] {
    }
  }

  // ----- unlink -----

  /** What unlink logs for the parent: the cleared entry, for a directory the count, and its iput. */
  ghost function ParentLog(sb: Super, blocks0: Disk, n0: Dinode, blocks: Disk, n: Dinode, off: nat, p: nat, isDir: bool,
                           last: bool): set<nat>
    requires off / BSIZE < MAXFILE
  {
    EntryLog(sb, blocks0, n0, blocks, n, off, p) + (if isDir then {InodeBlock(sb, p)} else {}) + PutLog(sb, blocks, n, p, last)
  }

  /** In terms of the entry's block a, the indirect block t and the inode's block. */
  ghost predicate ParentFew(sb: Super, log: set<nat>, a: nat, t: nat, p: nat, mapped: bool, freed: bool) {
    && 0 < sb.data <= sb.size && log <= DataMaps(sb) + {a, t, InodeBlock(sb, p)}
    && (mapped ==> log <= DataMaps(sb) + {a, InodeBlock(sb, p)})
    && (mapped && !freed ==> log <= {a, InodeBlock(sb, p)})
  }

  lemma ParentDone(sb: Super, owner: Owner, bits: seq<bool>, blocks0: Disk, n0: Dinode, blocks: Disk, table: seq<Dinode>,
                   n: Dinode, off: nat, p: nat, isDir: bool, last: bool, log0: set<nat>, log1: set<nat>, log: set<nat>)
    requires p < |table| && n == table[p].(nlink := n.nlink) && OwnedBy(sb, owner, bits, blocks, table)
    requires OneLogged(sb, blocks0, n0, blocks, table[p], off, p, log0, log1)
    requires log == log1 + (if isDir then {InodeBlock(sb, p)} else {}) + PutLog(sb, blocks, n, p, last)
    ensures off / BSIZE < MAXFILE
    ensures var e := ParentLog(sb, blocks0, n0, blocks, n, off, p, isDir, last);
            && log == log0 + e
            && ParentFew(sb, e, Ref(blocks, n, off / BSIZE), n.addrs[NDIRECT], p, Ref(blocks0, n0, off / BSIZE) != 0,
                         last && n.nlink == 0)
  {
    hide OwnedBy;
    hide OneLogged;
    hide ChunkLog;
    hide TruncLog;
    hide DataMaps;
    hide Ref;
    hide Byte;
    EntryLogIs(sb, blocks0, n0, blocks, table[p], off, p, log0, log1);
    EntryFew(sb, owner, bits, blocks0, n0, blocks, table, off, p, log0, log1);
    SizeOnly(sb, owner, bits, blocks, table, p, n);
    TruncMaps(sb, owner, bits, blocks, table[p := n], p);
  }

  /** The first half of unlink: the entry cleared, for a directory the parent's count, and the parent put. */
  method UnlinkEntry(fs: Fs, dp: Inode, isDir: bool, last: bool, off: nat, ghost ip: Inode)
    returns (ok: bool, ghost n: Dinode)
    requires fs.Valid(ip) && fs.Valid(dp) && ip != dp && ip.inum != dp.inum
    requires dp.size <= MAXSIZE && off % DIRENT == 0 && off + DIRENT <= dp.size
    modifies fs, dp`nlink, dp`addrs, dp`size, dp`typ
    ensures Covers(fs.sb, old(fs.St()), fs.St())
    ensures !ok ==> !HasFree(fs.bits)
    ensures ok ==>
              && fs.Valid(ip) && OthersKept(old(fs.blocks), fs.blocks, old(fs.tab), dp.inum)
              && fs.tab == old(fs.tab)[dp.inum := dp.Value()]
              && fs.Valid(dp) && dp.Value() == Put(n, last)
              && EntryCleared(old(fs.blocks), old(dp.Value()), fs.blocks, n, old(dp.nlink) - (if isDir then 1 else 0), off)
              && off / BSIZE < MAXFILE
              && (var e := ParentLog(fs.sb, old(fs.blocks), old(dp.Value()), fs.blocks, n, off, dp.inum, isDir, last);
                  && fs.logged == old(fs.logged) + e
                  && ParentFew(fs.sb, e, Ref(fs.blocks, n, off / BSIZE), n.addrs[NDIRECT], dp.inum,
                               Ref(old(fs.blocks), old(dp.Value()), off / BSIZE) != 0, last && n.nlink == 0))
    ensures ok && old(Stored(fs.dinodes, dp.inum, dp.Value())) && old(MappedTo(fs.blocks, dp.Value(), dp.size)) ==>
              fs.dinodes == old(fs.dinodes)[dp.inum := dp.Value()]
  {
    hide OwnedBy;
    hide MappedTo;
    hide Content;
    hide Splice;
    hide Covers;
    hide OneLogged;
    hide OthersKept;
    hide EntryLog;
    hide ParentLog;
    hide ParentFew;
    hide TruncLog;
    hide Ref;
    hide Put;
    ghost var s0, n0 := fs.St(), dp.Value();
    n := n0;
    ok := WriteEntry(fs, dp, NoEntry(), off, ip);
    if !ok {
      return;
    }
    ghost var s1, tab1, owner1 := fs.St(), fs.tab, fs.owner;
    if isDir {
      SetLinks(fs, dp, dp.nlink - 1);
      CoversTrans(fs.sb, s0, s1, fs.St());
    }
    n := dp.Value();
    ghost var s2 := fs.St();
    Iput(fs, dp, last);
    CoversTrans(fs.sb, s0, s2, fs.St());
    ClearedIs(s0.blocks, n0, s1.blocks, n, n.nlink, off);
    ParentDone(fs.sb, owner1, s1.bits, s0.blocks, n0, s1.blocks, tab1, n, off, dp.inum, isDir, last, s0.logged, s1.logged, fs.logged);
  }

  /** One link less, and the inode put. */
  method DropInode(fs: Fs, ip: Inode, last: bool, ghost jp: Inode)
    requires fs.Valid(ip) && fs.Valid(jp) && jp != ip && jp.inum != ip.inum
    modifies fs`bits, fs`logged, fs`owner, fs`tab, fs`dinodes, ip`nlink, ip`addrs, ip`size, ip`typ
    ensures Covers(fs.sb, old(fs.St()), fs.St()) && fs.Valid(ip) && fs.Valid(jp)
    ensures fs.dinodes == old(fs.dinodes)[ip.inum := ip.Value()] && fs.tab == old(fs.tab)[ip.inum := ip.Value()]
    ensures ip.Value() == Put(old(ip.Value()).(nlink := old(ip.nlink) - 1), last)
    ensures var e := {InodeBlock(fs.sb, ip.inum)}
                     + PutLog(fs.sb, fs.blocks, old(ip.Value()).(nlink := old(ip.nlink) - 1), ip.inum, last);
            && fs.logged == old(fs.logged) + e
            && 0 < fs.sb.data <= fs.sb.size && e <= DataMaps(fs.sb) + {InodeBlock(fs.sb, ip.inum)}
  {
    hide OwnedBy;
    hide MappedTo;
    hide Content;
    hide Covers;
    hide TruncLog;
    hide DataMaps;
    SetLinks(fs, ip, ip.nlink - 1);
    ghost var s1 := fs.St();
    TruncMaps(fs.sb, fs.owner, fs.bits, fs.blocks, fs.tab, ip.inum);
    Iput(fs, ip, last);
    CoversTrans(fs.sb, old(fs.St()), s1, fs.St());
  }

  /** Exactly the blocks of both halves, and how many they can be. */
  ghost predicate UnlinkLogged(sb: Super, blocks0: Disk, n0: Dinode, blocks: Disk, n: Dinode, child: Dinode, off: nat,
                               i: nat, p: nat, isDir: bool, lastDp: bool, lastIp: bool, log0: set<nat>, log: set<nat>) {
    && off / BSIZE < MAXFILE
    && log == log0 + (ParentLog(sb, blocks0, n0, blocks, n, off, p, isDir, lastDp) + {InodeBlock(sb, i)}
                      + PutLog(sb, blocks, child, i, lastIp))
    && |log - log0| <= MapBlocks(sb) + 4
    && (Ref(blocks0, n0, off / BSIZE) != 0 ==> |log - log0| <= MapBlocks(sb) + 3)
    && (Ref(blocks0, n0, off / BSIZE) != 0 && !(lastDp && n.nlink == 0) && !(lastIp && child.nlink == 0) ==> |log - log0| <= 3)
  }

  lemma UnlinkFew(maps: set<nat>, e: set<nat>, f: set<nat>, a: nat, t: nat, pb: nat, ib: nat, mapped: bool, plain: bool)
    requires e <= maps + {a, t, pb} && f <= maps + {ib}
    requires mapped ==> e <= maps + {a, pb}
    requires plain ==> f <= {ib} && (mapped ==> e <= {a, pb})
    ensures |e + f| <= |maps| + 4
    ensures mapped ==> |e + f| <= |maps| + 3
    ensures mapped && plain ==> |e + f| <= 3
  {
    assert Elements([a, t, pb, ib]) == {a, t, pb, ib} && Elements([a, pb, ib]) == {a, pb, ib};
    Few(e + f, [a, t, pb, ib], maps);
    if mapped {
      Few(e + f, [a, pb, ib], maps);
      if plain {
        Few(e + f, [a, pb, ib], {});
      }
    }
  }

  lemma UnlinkDone(sb: Super, blocks0: Disk, n0: Dinode, blocks: Disk, n: Dinode, child: Dinode, off: nat,
                   i: nat, p: nat, isDir: bool, lastDp: bool, lastIp: bool, log0: set<nat>, log1: set<nat>, log: set<nat>)
    requires off / BSIZE < MAXFILE
    requires var e := ParentLog(sb, blocks0, n0, blocks, n, off, p, isDir, lastDp);
             && log1 == log0 + e
             && ParentFew(sb, e, Ref(blocks, n, off / BSIZE), n.addrs[NDIRECT], p, Ref(blocks0, n0, off / BSIZE) != 0,
                          lastDp && n.nlink == 0)
    requires var e := {InodeBlock(sb, i)} + PutLog(sb, blocks, child, i, lastIp);
             log == log1 + e && e <= DataMaps(sb) + {InodeBlock(sb, i)}
    ensures UnlinkLogged(sb, blocks0, n0, blocks, n, child, off, i, p, isDir, lastDp, lastIp, log0, log)
  {
    hide ParentLog;
    hide TruncLog;
    hide DataMaps;
    hide MapBlocks;
    hide InodeBlock;
    hide Ref;
    var e := ParentLog(sb, blocks0, n0, blocks, n, off, p, isDir, lastDp);
    var f := {InodeBlock(sb, i)} + PutLog(sb, blocks, child, i, lastIp);
    UnlinkFew(DataMaps(sb), e, f, Ref(blocks, n, off / BSIZE), n.addrs[NDIRECT], InodeBlock(sb, p), InodeBlock(sb, i),
              Ref(blocks0, n0, off / BSIZE) != 0, !(lastDp && n.nlink == 0) && !(lastIp && child.nlink == 0));
    assert e + f == e + {InodeBlock(sb, i)} + PutLog(sb, blocks, child, i, lastIp);
    assert log == log0 + (e + f);
    SubsetSize(log - log0, e + f);
  }

  /** The writes of unlink, up to both iputs; false is a panic. */
  method UnlinkWrites(fs: Fs, ip: Inode, dp: Inode, isDir: bool, lastDp: bool, lastIp: bool, off: nat)
    returns (ok: bool, ghost n: Dinode)
    requires fs.Valid(ip) && fs.Valid(dp) && ip != dp && ip.inum != dp.inum
    requires dp.size <= MAXSIZE && off % DIRENT == 0 && off + DIRENT <= dp.size
    modifies fs, ip`nlink, ip`addrs, ip`size, ip`typ, dp`nlink, dp`addrs, dp`size, dp`typ
    ensures Covers(fs.sb, old(fs.St()), fs.St())
    ensures !ok ==> !HasFree(fs.bits)
    ensures ok ==>
              && fs.Valid(ip) && ip.Value() == Put(old(ip.Value()).(nlink := old(ip.nlink) - 1), lastIp)
              && fs.Valid(dp) && dp.Value() == Put(n, lastDp)
              && Both(old(fs.tab), fs.tab, ip.inum, ip.Value(), dp.inum, dp.Value())
              && EntryCleared(old(fs.blocks), old(dp.Value()), fs.blocks, n, old(dp.nlink) - (if isDir then 1 else 0), off)
              && OthersKept(old(fs.blocks), fs.blocks, old(fs.tab), dp.inum)
              && UnlinkLogged(fs.sb, old(fs.blocks), old(dp.Value()), fs.blocks, n, old(ip.Value()).(nlink := old(ip.nlink) - 1),
                              off, ip.inum, dp.inum, isDir, lastDp, lastIp, old(fs.logged), fs.logged)
    ensures ok && old(Stored(fs.dinodes, dp.inum, dp.Value())) && old(MappedTo(fs.blocks, dp.Value(), dp.size)) ==>
              Both(old(fs.dinodes), fs.dinodes, ip.inum, ip.Value(), dp.inum, dp.Value())
  {
    hide OwnedBy;
    hide MappedTo;
    hide EntryCleared;
    hide Covers;
    hide OthersKept;
    hide ParentLog;
    hide ParentFew;
    hide PutLog;
    hide Put;
    hide UnlinkLogged;
    hide Ref;
    ghost var s0, n0 := fs.St(), dp.Value();
    ok, n := UnlinkEntry(fs, dp, isDir, lastDp, off, ip);
    if !ok {
      return;
    }
    ghost var s1 := fs.St();
    DropInode(fs, ip, lastIp, dp);
    CoversTrans(fs.sb, s0, s1, fs.St());
    UnlinkDone(fs.sb, s0.blocks, n0, fs.blocks, n, old(ip.Value()).(nlink := old(ip.nlink) - 1), off, ip.inum, dp.inum, isDir,
               lastDp, lastIp, s0.logged, s1.logged, fs.logged);
    assert fs.tab == old(fs.tab)[ip.inum := ip.Value()][dp.inum := dp.Value()];
    if Stored(s0.dinodes, dp.inum, n0) && MappedTo(s0.blocks, n0, n0.size) {
      assert s0.dinodes[dp.inum := dp.Value()][ip.inum := ip.Value()] == s0.dinodes[ip.inum := ip.Value()][dp.inum := dp.Value()];
    }
  }
}
