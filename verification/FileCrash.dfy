// Files and power failures: what is left of a write(2) whose transaction was cut (fs.c, log.c).
module FileCrash {
  import opened Common
  import opened Blocks
  import opened BlockMap
  import opened FileSystem
  import opened OpLog
  import opened Crash

  // ----- struct dinode: four shorts, the size and 13 block numbers, 64 bytes -----

  const SHORT: int := 0x1_0000
  const HALF: int := 0x8000

  function ToShort(w: int): (s: int)
    requires 0 <= w < SHORT
    ensures -HALF <= s < HALF
  {
    if w < HALF then w else w - SHORT
  }

  function FromShort(s: int): (w: int)
    requires -HALF <= s < HALF
    ensures 0 <= w < SHORT && ToShort(w) == s
  {
    if s >= 0 then s else s + SHORT
  }

  predicate Storable(n: Dinode) {
    && -HALF <= n.typ < HALF && -HALF <= n.major < HALF && -HALF <= n.minor < HALF && -HALF <= n.nlink < HALF
    && n.size < WORDMAX
  }

  /** Word j of an inode on disk. */
  function InodeWord(n: Dinode, j: nat): (w: nat)
    requires Storable(n) && j < 16
    ensures w < WORDMAX
  {
    if j == 0 then FromShort(n.typ) + SHORT * FromShort(n.major)
    else if j == 1 then FromShort(n.minor) + SHORT * FromShort(n.nlink)
    else if j == 2 then n.size
    else n.addrs[j - 3]
  }

  function AddrsTo(b: Block, k: nat, m: nat): (a: seq<nat>)
    requires k < IPB && m <= NDIRECT + 1
    ensures |a| == m && forall j :: 0 <= j < m ==> a[j] < WORDMAX && a[j] == Word(b, 16 * k + 3 + j)
  {
    if m == 0 then [] else AddrsTo(b, k, m - 1) + [Word(b, 16 * k + 2 + m)]
  }

  function InodeAddrs(b: Block, k: nat): (a: Addrs)
    requires k < IPB
    ensures forall j :: 0 <= j <= NDIRECT ==> a[j] == Word(b, 16 * k + 3 + j)
  {
    AddrsTo(b, k, NDIRECT + 1)
  }

  function Decode(b: Block, k: nat): (n: Dinode)
    requires k < IPB
  {
    var w, v := Word(b, 16 * k), Word(b, 16 * k + 1);
    Dinode(ToShort(w % SHORT), ToShort(w / SHORT), ToShort(v % SHORT), ToShort(v / SHORT), Word(b, 16 * k + 2), InodeAddrs(b, k))
  }

  /** iupdate's stores into the inode's place in its block, up to word j. */
  function Encode(b: Block, k: nat, n: Dinode, j: nat := 16): (r: Block)
    requires k < IPB && Storable(n) && j <= 16
    ensures forall i: nat :: i < NWORDS ==>
              Word(r, i) == if 16 * k <= i < 16 * k + j then InodeWord(n, i - 16 * k) else Word(b, i)
  {
    if j == 0 then b else SetWord(Encode(b, k, n, j - 1), 16 * k + j - 1, InodeWord(n, j - 1))
  }

  lemma TwoShorts(a: int, b: int)
    requires -HALF <= a < HALF && -HALF <= b < HALF
    ensures var w := FromShort(a) + SHORT * FromShort(b); ToShort(w % SHORT) == a && w / SHORT < SHORT && ToShort(w / SHORT) == b
  {
    var w := FromShort(a) + SHORT * FromShort(b);
    assert w % SHORT == FromShort(a) && w / SHORT == FromShort(b);
  }

  /** What iupdate writes reads back, and the other inodes of the block are untouched. */
  lemma EncodeDecode(b: Block, k: nat, n: Dinode, m: nat)
    requires k < IPB && m < IPB && Storable(n)
    ensures Decode(Encode(b, k, n), m) == if m == k then n else Decode(b, m)
  {
    hide Word;
    hide SetWord;
    hide Encode;
    hide FromShort;
    hide ToShort;
    var r := Encode(b, k, n);
    if m == k {
      TwoShorts(n.typ, n.major);
      TwoShorts(n.minor, n.nlink);
      assert Word(r, 16 * k) == InodeWord(n, 0) && Word(r, 16 * k + 1) == InodeWord(n, 1);
      assert Word(r, 16 * k + 2) == InodeWord(n, 2);
      forall j | 0 <= j <= NDIRECT ensures InodeAddrs(r, k)[j] == n.addrs[j] {
        assert Word(r, 16 * k + 3 + j) == InodeWord(n, 3 + j);
      }
      assert InodeAddrs(r, k) == n.addrs;
    } else {
      forall j | 0 <= j <= NDIRECT ensures InodeAddrs(r, m)[j] == InodeAddrs(b, m)[j] {
        assert Word(r, 16 * m + 3 + j) == Word(b, 16 * m + 3 + j);
      }
      assert InodeAddrs(r, m) == InodeAddrs(b, m);
    }
  }

  // ----- The free map: bit bi % 8 of byte bi / 8 -----

  function Bit(b: nat, j: nat): bool {
    if j == 0 then b % 2 == 1 else Bit(b / 2, j - 1)
  }

  function Pow2(m: nat): nat {
    if m == 0 then 1 else 2 * Pow2(m - 1)
  }

  /** Byte b with bit j set to v. */
  function PutBit(b: nat, j: nat, v: bool): nat {
    if j == 0 then b / 2 * 2 + (if v then 1 else 0) else 2 * PutBit(b / 2, j - 1, v) + b % 2
  }

  lemma {:induction false} PutBitIs(b: nat, j: nat, v: bool, i: nat)
    ensures Bit(PutBit(b, j, v), i) == if i == j then v else Bit(b, i)
  {
    if j > 0 && i > 0 {
      PutBitIs(b / 2, j - 1, v, i - 1);
    }
  }

  lemma {:induction false} PutBitByte(b: nat, j: nat, v: bool, m: nat)
    requires j < m && b < Pow2(m)
    ensures PutBit(b, j, v) < Pow2(m)
  {
    if j > 0 {
      PutBitByte(b / 2, j - 1, v, m - 1);
    }
  }

  lemma Byte8()
    ensures Pow2(8) == 256
  {
    assert Pow2(3) == 8;
    assert Pow2(6) == 64;
  }

  predicate BlockBit(c: Block, k: nat)
    requires k < BPB
  {
    Bit(c[k / 8] as nat, k % 8)
  }

  /** balloc's and bfree's store into a block of the free map. */
  function PutBlockBit(c: Block, k: nat, v: bool): (r: Block)
    requires k < BPB
    ensures forall i: nat :: i < BPB ==> BlockBit(r, i) == if i == k then v else BlockBit(c, i)
  {
    Byte8();
    PutBitByte(c[k / 8] as nat, k % 8, v, 8);
    var r: Block := c[k / 8 := PutBit(c[k / 8] as nat, k % 8, v) as byte];
    assert forall i: nat :: i < BPB ==> BlockBit(r, i) == if i == k then v else BlockBit(c, i) by {
      forall i: nat | i < BPB ensures BlockBit(r, i) == if i == k then v else BlockBit(c, i) {
        PutBitIs(c[k / 8] as nat, k % 8, v, i % 8);
        assert i / 8 == k / 8 && i % 8 == k % 8 ==> i == k;
      }
    }
    r
  }

  // ----- The file system on the disk -----

  /** Log, inodes, bitmap and data lie apart. */
  ghost predicate Apart(l: Layout, sb: Super, ninodes: nat) {
    && l.start + l.size <= sb.inodestart <= sb.bmapstart <= sb.data <= sb.size
    && (forall i: nat :: i < ninodes ==> InodeBlock(sb, i) < sb.bmapstart)
    && (forall b: nat :: b < sb.size ==> BitBlock(sb, b) < sb.data)
  }

  /** Block x with contents c is that of the file system s. */
  ghost predicate Holds(sb: Super, s: Store, x: nat, c: Block) {
    && (sb.data <= x < |s.blocks| ==> c == s.blocks[x])
    && (forall i: nat :: i < |s.dinodes| && InodeBlock(sb, i) == x ==> Decode(c, i % IPB) == s.dinodes[i])
    && (forall b: nat :: b < |s.bits| && BitBlock(sb, b) == x ==> BlockBit(c, b % BPB) == s.bits[b])
  }

  ghost predicate OnDisk(sb: Super, d: Disk, s: Store) {
    && |d| == |s.blocks| == |s.bits| == sb.size
    && (forall i: nat :: i < |s.dinodes| ==> InodeBlock(sb, i) < |d|)
    && (forall b: nat :: b < |s.bits| ==> BitBlock(sb, b) < |d|)
    && forall x: nat :: x < |d| ==> Holds(sb, s, x, d[x])
  }

  /** iupdate's store makes the new inode the one on the disk. */
  lemma InodeStored(sb: Super, s: Store, c: Block, i: nat, n: Dinode)
    requires i < |s.dinodes| && Storable(n) && InodeBlock(sb, i) < sb.bmapstart && InodeBlock(sb, i) < sb.data
    requires Holds(sb, s, InodeBlock(sb, i), c)
    ensures Holds(sb, s.(dinodes := s.dinodes[i := n]), InodeBlock(sb, i), Encode(c, i % IPB, n))
  {
    hide Decode;
    hide Encode;
    var x, s' := InodeBlock(sb, i), s.(dinodes := s.dinodes[i := n]);
    forall j: nat | j < |s.dinodes| && InodeBlock(sb, j) == x
      ensures Decode(Encode(c, i % IPB, n), j % IPB) == s'.dinodes[j]
    {
      EncodeDecode(c, i % IPB, n, j % IPB);
      assert j != i ==> j % IPB != i % IPB;
    }
  }

  /** balloc's and bfree's store makes the new bit the one on the disk. */
  lemma BitStored(sb: Super, s: Store, c: Block, b: nat, v: bool)
    requires b < |s.bits| && BitBlock(sb, b) < sb.data
    requires forall i: nat :: i < |s.dinodes| ==> InodeBlock(sb, i) != BitBlock(sb, b)
    requires Holds(sb, s, BitBlock(sb, b), c)
    ensures Holds(sb, s.(bits := s.bits[b := v]), BitBlock(sb, b), PutBlockBit(c, b % BPB, v))
  {
    hide Decode;
    hide BlockBit;
    hide PutBlockBit;
    var x, s' := BitBlock(sb, b), s.(bits := s.bits[b := v]);
    forall e: nat | e < |s.bits| && BitBlock(sb, e) == x
      ensures BlockBit(PutBlockBit(c, b % BPB, v), e % BPB) == s'.bits[e]
    {
      assert e != b ==> e % BPB != b % BPB;
    }
  }

  // ----- Contents for the blocks of a transaction -----

  ghost predicate AllStorable(dinodes: seq<Dinode>) {
    forall i :: 0 <= i < |dinodes| ==> Storable(dinodes[i])
  }

  /** Block x with the first m inodes of the table stored in it, where they belong. */
  ghost function InodesIn(sb: Super, c: Block, dinodes: seq<Dinode>, x: nat, m: nat): Block
    requires m <= |dinodes| && AllStorable(dinodes)
  {
    if m == 0 then c
    else if InodeBlock(sb, m - 1) != x then InodesIn(sb, c, dinodes, x, m - 1)
    else Encode(InodesIn(sb, c, dinodes, x, m - 1), (m - 1) % IPB, dinodes[m - 1])
  }

  lemma {:induction false} InodesInIs(sb: Super, c: Block, dinodes: seq<Dinode>, x: nat, m: nat, i: nat)
    requires i < m <= |dinodes| && AllStorable(dinodes) && InodeBlock(sb, i) == x
    ensures Decode(InodesIn(sb, c, dinodes, x, m), i % IPB) == dinodes[i]
  {
    hide Decode;
    hide Encode;
    hide Storable;
    if InodeBlock(sb, m - 1) == x {
      EncodeDecode(InodesIn(sb, c, dinodes, x, m - 1), (m - 1) % IPB, dinodes[m - 1], i % IPB);
    }
    if i < m - 1 {
      InodesInIs(sb, c, dinodes, x, m - 1, i);
      assert InodeBlock(sb, m - 1) == x ==> i % IPB != (m - 1) % IPB;
    }
  }

  ghost function BitsIn(sb: Super, c: Block, bits: seq<bool>, x: nat, m: nat): (r: Block)
    requires m <= |bits|
    ensures forall b: nat :: b < m && BitBlock(sb, b) == x ==> BlockBit(r, b % BPB) == bits[b]
    ensures x < sb.bmapstart ==> r == c
  {
    if m == 0 then c
    else
      var r := BitsIn(sb, c, bits, x, m - 1);
      if BitBlock(sb, m - 1) != x then r
      else
        assert forall b: nat :: b < m && BitBlock(sb, b) == x && b != m - 1 ==> b % BPB != (m - 1) % BPB;
        PutBlockBit(r, (m - 1) % BPB, bits[m - 1])
  }

  /** The contents of block x in file system s, with c where s says nothing. */
  ghost function Image(sb: Super, s: Store, x: nat, c: Block): Block
    requires AllStorable(s.dinodes)
  {
    if sb.data <= x < |s.blocks| then s.blocks[x]
    else BitsIn(sb, InodesIn(sb, c, s.dinodes, x, |s.dinodes|), s.bits, x, |s.bits|)
  }

  lemma ImageHolds(l: Layout, sb: Super, s: Store, x: nat, c: Block)
    requires AllStorable(s.dinodes) && Apart(l, sb, |s.dinodes|) && |s.bits| == |s.blocks| == sb.size
    ensures Holds(sb, s, x, Image(sb, s, x, c))
  {
    hide Decode;
    hide BlockBit;
    hide InodesIn;
    hide BitsIn;
    hide Storable;
    forall i: nat | i < |s.dinodes| && InodeBlock(sb, i) == x ensures Decode(Image(sb, s, x, c), i % IPB) == s.dinodes[i] {
      InodesInIs(sb, c, s.dinodes, x, |s.dinodes|, i);
    }
  }

  /** h lists exactly the logged blocks, each once. */
  ghost predicate Lists(h: seq<nat>, logged: set<nat>) {
    Distinct(h) && Elements(h) == logged
  }

  /** What end_op commits: exactly the logged blocks, with the contents of s. */
  ghost predicate Transaction(sb: Super, s: Store, h: seq<nat>, data: seq<Block>) {
    Lists(h, s.logged) && |data| == |h| && forall t: nat :: t < |h| ==> Holds(sb, s, h[t], data[t])
  }

  ghost function Listing(x: set<nat>): (h: seq<nat>)
    ensures Lists(h, x) && |h| == |x|
  {
    if x == {} then []
    else
      var b :| b in x;
      Listing(x - {b}) + [b]
  }

  lemma InsideDisk(l: Layout, sb: Super, ninodes: nat, x: nat)
    requires Apart(l, sb, ninodes) && InFs(sb, ninodes, x)
    ensures x < sb.size && Home(l, x)
  {
  }

  /** A transaction that is small enough can be logged, in whatever order, and there are contents for it. */
  lemma CanCommit(l: Layout, sb: Super, d: Disk, s0: Store, s: Store)
    requires Apart(l, sb, |s0.dinodes|) && OnDisk(sb, d, s0) && Covers(sb, s0, s) && s0.logged == {}
    requires |s.logged| <= LOGSIZE && |s.logged| < l.size
    ensures forall h: seq<nat> :: Lists(h, s.logged) ==> Loggable(l, |d|, h)
    ensures AllStorable(s.dinodes) ==> exists h, data :: Transaction(sb, s, h, data)
  {
    hide Holds;
    hide InFs;
    forall h: seq<nat> | Lists(h, s.logged) ensures Loggable(l, |d|, h) {
      CountDistinct(h);
      forall t | 0 <= t < |h| ensures h[t] < |d| && Home(l, h[t]) {
        assert h[t] in Elements(h);
        InsideDisk(l, sb, |s.dinodes|, h[t]);
      }
    }
    if AllStorable(s.dinodes) {
      var h := Listing(s.logged);
      var data := seq(|h|, t requires 0 <= t < |h| => Image(sb, s, h[t], ZeroBlock()));
      forall t: nat | t < |h| ensures Holds(sb, s, h[t], data[t]) {
        ImageHolds(l, sb, s, h[t], ZeroBlock());
      }
      assert Transaction(sb, s, h, data);
    }
  }

  /** A block that was not logged still holds the file system. */
  lemma Untouched(sb: Super, s0: Store, s: Store, x: nat, c: Block)
    requires Covers(sb, s0, s) && Holds(sb, s0, x, c) && x !in s.logged
    ensures Holds(sb, s, x, c)
  {
    hide Decode;
    hide BlockBit;
    hide InFs;
  }

  /** Installing the logged blocks brings the disk to the transaction's state. */
  lemma Installed(sb: Super, d: Disk, s0: Store, s: Store, h: seq<nat>, data: seq<Block>)
    requires OnDisk(sb, d, s0) && Covers(sb, s0, s) && Transaction(sb, s, h, data)
    requires forall t :: 0 <= t < |h| ==> h[t] < |d|
    ensures InRange(d, HomeWrites(h, data)) && OnDisk(sb, Apply(d, HomeWrites(h, data)), s)
  {
    hide Holds;
    hide InFs;
    hide Apply;
    assert HomeWrites(h, data)[..|h|] == HomeWrites(h, data) && h[..|h|] == h;
    InstallPrefix(d, h, data, |h|);
    var e := Apply(d, HomeWrites(h, data));
    forall x: nat | x < |d| ensures Holds(sb, s, x, e[x]) {
      if x in h {
        var t: nat :| t < |h| && h[t] == x;
        assert e[h[t]] == data[t];
      } else {
        assert x !in Elements(h);
        assert e[x] == d[x];
        Untouched(sb, s0, s, x, d[x]);
      }
    }
  }

  /** The file that a boot finds in inode i of disk d. */
  ghost function FileOn(sb: Super, d: Disk, i: nat): seq<byte>
    requires InodeBlock(sb, i) < |d| && Decode(d[InodeBlock(sb, i)], i % IPB).size <= MAXSIZE
  {
    Content(d, Decode(d[InodeBlock(sb, i)], i % IPB))
  }

  lemma FileOnIs(sb: Super, owner: Owner, d: Disk, s: Store, i: nat)
    requires OnDisk(sb, d, s) && OwnedBy(sb, owner, s.bits, s.blocks, s.dinodes)
    requires i < |s.dinodes| && s.dinodes[i].size <= MAXSIZE
    ensures InodeBlock(sb, i) < |d| && Decode(d[InodeBlock(sb, i)], i % IPB) == s.dinodes[i]
    ensures FileOn(sb, d, i) == Content(s.blocks, s.dinodes[i])
  {
    hide Decode;
    hide BlockBit;
    hide Word;
    var n := s.dinodes[i];
    assert Holds(sb, s, InodeBlock(sb, i), d[InodeBlock(sb, i)]);
    assert forall b: nat :: sb.data <= b < |d| ==> d[b] == s.blocks[b] by {
      forall b: nat | sb.data <= b < |d| ensures d[b] == s.blocks[b] {
        assert Holds(sb, s, b, d[b]);
      }
    }
    SameData(sb, owner, s.bits, d, s.blocks, s.dinodes, i);
  }

  lemma SameData(sb: Super, owner: Owner, bits: seq<bool>, d: Disk, blocks: Disk, dinodes: seq<Dinode>, i: nat)
    requires OwnedBy(sb, owner, bits, blocks, dinodes) && i < |dinodes| && dinodes[i].size <= MAXSIZE
    requires |d| == |blocks| && forall b: nat :: sb.data <= b < |d| ==> d[b] == blocks[b]
    ensures Content(d, dinodes[i]) == Content(blocks, dinodes[i])
  {
    hide Word;
    var n := dinodes[i];
    forall s | 0 <= s < NSLOT ensures Ref(d, n, s) == Ref(blocks, n, s) {
      assert Ref(blocks, n, INDIRECT) == n.addrs[NDIRECT];
    }
    forall p | 0 <= p < n.size ensures Byte(d, n, p) == Byte(blocks, n, p) {
      var s := p / BSIZE;
      assert Ref(d, n, s) == Ref(blocks, n, s);
    }
  }

  /** Disks that agree outside the log hold the same file system. */
  lemma SameFiles(l: Layout, sb: Super, d: Disk, e: Disk, s: Store)
    requires OnDisk(sb, d, s) && SameHome(l, d, e) && Apart(l, sb, |s.dinodes|)
    ensures OnDisk(sb, e, s)
  {
    hide Decode;
    hide BlockBit;
    forall x: nat | x < |e| ensures Holds(sb, s, x, e[x]) {
      assert Holds(sb, s, x, d[x]);
    }
  }

  // ----- A cut transaction -----

  /**
   * r is what the boot that completes finds: commit() of the blocks h with contents data on disk d was
   * cut after k writes, and the recoveries after it were cut any number of times.
   */
  ghost predicate Recovered(l: Layout, d: Disk, h: seq<nat>, data: seq<Block>, k: nat, ds: seq<Disk>, r: Disk)
    requires Formatted(l, d)
  {
    && Header(l, d) == [] && Loggable(l, |d|, h) && |data| == |h| && k <= |CommitWrites(l, d, h, data)|
    && InRange(d, CommitWrites(l, d, h, data)[..k]) && InRange(d, HomeWrites(h, data))
    && Reboots(l, ds) && ds[0] == Apply(d, CommitWrites(l, d, h, data)[..k])
    && r == Apply(ds[|ds| - 1], RecoveryWrites(l, ds[|ds| - 1]))
  }

  lemma RecoveredIs(l: Layout, d: Disk, h: seq<nat>, data: seq<Block>, k: nat, ds: seq<Disk>, r: Disk)
    requires Formatted(l, d) && Recovered(l, d, h, data, k, ds, r)
    ensures |h| == |data| && InRange(d, HomeWrites(h, data)) && SameHome(l, if k <= |h| then d else Apply(d, HomeWrites(h, data)), r)
  {
    hide Word;
    hide PutHeader;
    hide Apply;
    hide HomeWrites;
    hide RecoveryWrites;
    hide CommitWrites;
    hide Durable;
    hide Reboots;
    CrashAtomicity(l, d, h, data, k, ds);
  }

  /**
   * The transaction that took the file system from s0 to s and commits the blocks it logged, cut anywhere:
   * the recovered disk holds s0, bitmap, inodes and data, if the cut was before the header write, and s otherwise.
   */
  lemma TransactionCrash(l: Layout, sb: Super, d: Disk, s0: Store, s: Store, h: seq<nat>, data: seq<Block>, k: nat,
                         ds: seq<Disk>, r: Disk)
    requires Formatted(l, d) && Apart(l, sb, |s0.dinodes|) && OnDisk(sb, d, s0) && Covers(sb, s0, s)
    requires Transaction(sb, s, h, data) && Recovered(l, d, h, data, k, ds, r)
    ensures OnDisk(sb, r, if k <= |h| then s0 else s)
  {
    hide Holds;
    hide InFs;
    hide Apply;
    hide HomeWrites;
    hide SameHome;
    hide OnDisk;
    assert forall t :: 0 <= t < |h| ==> h[t] < |d|;
    hide Recovered;
    RecoveredIs(l, d, h, data, k, ds, r);
    if k <= |h| {
      SameFiles(l, sb, d, r, s0);
    } else {
      Installed(sb, d, s0, s, h, data);
      SameFiles(l, sb, Apply(d, HomeWrites(h, data)), r, s);
    }
  }

  ghost predicate Sizes(dinodes: seq<Dinode>) {
    forall j: nat :: j < |dinodes| ==> dinodes[j].size <= MAXSIZE
  }

  /** Every file on the recovered disk r is that of s. */
  ghost predicate FilesOn(sb: Super, r: Disk, s: Store)
    requires Sizes(s.dinodes)
  {
    forall j: nat :: j < |s.dinodes| ==>
      && InodeBlock(sb, j) < |r| && Decode(r[InodeBlock(sb, j)], j % IPB) == s.dinodes[j]
      && FileOn(sb, r, j) == Content(s.blocks, s.dinodes[j])
  }

  /**
   * A transaction from s0 to s is all or nothing: whatever order h its logged blocks are listed in,
   * however its commit and the recoveries after it are cut, every file is that of s0 or every file is that of s.
   */
  ghost predicate AllOrNothing(l: Layout, sb: Super, d: Disk, s0: Store, s: Store)
    requires Formatted(l, d) && Sizes(s0.dinodes) && Sizes(s.dinodes)
  {
    forall h: seq<nat>, data: seq<Block>, k: nat, ds: seq<Disk>, r: Disk ::
      Transaction(sb, s, h, data) && Recovered(l, d, h, data, k, ds, r) ==>
        OnDisk(sb, r, if k <= |h| then s0 else s) && FilesOn(sb, r, if k <= |h| then s0 else s)
  }

  lemma FilesRecovered(sb: Super, owner: Owner, r: Disk, s: Store)
    requires OnDisk(sb, r, s) && OwnedBy(sb, owner, s.bits, s.blocks, s.dinodes) && Sizes(s.dinodes)
    ensures FilesOn(sb, r, s)
  {
    hide OwnedBy;
    hide Content;
    hide OnDisk;
    hide Decode;
    hide FileOn;
    forall j: nat | j < |s.dinodes|
      ensures InodeBlock(sb, j) < |r| && Decode(r[InodeBlock(sb, j)], j % IPB) == s.dinodes[j]
      ensures FileOn(sb, r, j) == Content(s.blocks, s.dinodes[j])
    {
      FileOnIs(sb, owner, r, s, j);
    }
  }

  lemma CutAnywhere(l: Layout, sb: Super, d: Disk, owner0: Owner, s0: Store, owner: Owner, s: Store)
    requires Formatted(l, d) && Apart(l, sb, |s0.dinodes|) && Sizes(s0.dinodes) && Sizes(s.dinodes)
    requires OnDisk(sb, d, s0) && Covers(sb, s0, s)
    requires OwnedBy(sb, owner0, s0.bits, s0.blocks, s0.dinodes) && OwnedBy(sb, owner, s.bits, s.blocks, s.dinodes)
    ensures AllOrNothing(l, sb, d, s0, s)
  {
    hide OwnedBy;
    hide OnDisk;
    hide Covers;
    hide FilesOn;
    hide Formatted;
    hide Recovered;
    hide Transaction;
    forall h: seq<nat>, data: seq<Block>, k: nat, ds: seq<Disk>, r: Disk |
        Transaction(sb, s, h, data) && Recovered(l, d, h, data, k, ds, r)
      ensures OnDisk(sb, r, if k <= |h| then s0 else s) && FilesOn(sb, r, if k <= |h| then s0 else s)
    {
      TransactionCrash(l, sb, d, s0, s, h, data, k, ds, r);
      if k <= |h| {
        FilesRecovered(sb, owner0, r, s0);
      } else {
        FilesRecovered(sb, owner, r, s);
      }
    }
  }

  /** The disk at the start of a transaction: nothing logged yet, every inode written through. */
  ghost predicate AtStart(fs: Fs, l: Layout, d: Disk)
    reads fs
  {
    && fs.Sound() && fs.tab == fs.dinodes && fs.logged == {} && Sizes(fs.dinodes)
    && Formatted(l, d) && Apart(l, fs.sb, |fs.dinodes|) && OnDisk(fs.sb, d, fs.St())
  }

  /** However its blocks are listed the log takes the transaction, and for inodes that fit their fields there are contents. */
  ghost predicate Commits(l: Layout, sb: Super, d: Disk, s: Store) {
    && (forall h: seq<nat> :: Lists(h, s.logged) ==> Loggable(l, |d|, h))
    && (AllStorable(s.dinodes) ==> exists h, data :: Transaction(sb, s, h, data))
  }

  lemma SizesSet(dinodes: seq<Dinode>, i: nat, n: Dinode)
    requires Sizes(dinodes) && i < |dinodes| && n.size <= MAXSIZE
    ensures Sizes(dinodes[i := n])
  {
  }

  /**
   * A write(2) of one transaction, cut anywhere: after recovery the file holds its old contents or the
   * old contents with src spliced in, all of it, and every other file is as before.
   */
  method WriteCrash(fs: Fs, ip: Inode, src: seq<byte>, off: nat, ghost l: Layout, ghost d: Disk) returns (r: Io)
    requires AtStart(fs, l, d) && fs.Valid(ip) && MappedTo(fs.blocks, ip.Value(), ip.size)
    requires |src| < WORDMAX && off < WORDMAX
    modifies fs, ip`addrs, ip`size
    ensures r.Count? ==>
              && off <= old(ip.size) <= MAXSIZE && ip.size <= MAXSIZE && Sizes(old(fs.dinodes)) && Sizes(fs.dinodes)
              && AllOrNothing(l, fs.sb, d, old(fs.St()), fs.St())
              && Stored(old(fs.dinodes), ip.inum, old(ip.Value())) && Stored(fs.dinodes, ip.inum, ip.Value())
              && Content(fs.blocks, ip.Value()) == Splice(Content(old(fs.blocks), old(ip.Value())), off, src)
              && |fs.dinodes| == |old(fs.dinodes)|
              && (forall j: nat :: j < |fs.dinodes| && j != ip.inum ==>
                    && fs.dinodes[j] == old(fs.dinodes)[j]
                    && Content(fs.blocks, fs.dinodes[j]) == Content(old(fs.blocks), old(fs.dinodes)[j]))
              && (FreeEmpty(old(fs.dinodes)) && ip.typ != 0 ==> FreeEmpty(fs.dinodes))
              && (|src| <= 3 * BSIZE && MAXOPBLOCKS < l.size ==> Commits(l, fs.sb, d, fs.St()))
  {
    hide OwnedBy;
    hide Content;
    hide Splice;
    hide MappedTo;
    hide Byte;
    hide Recovered;
    hide Apart;
    hide OnDisk;
    hide Covers;
    hide OthersKept;
    hide OneLogged;
    hide AllOrNothing;
    hide Formatted;
    hide Lists;
    ghost var owner0, s0 := fs.owner, fs.St();
    assert fs.dinodes[ip.inum].size <= MAXSIZE;
    r := fs.Writei(ip, src, off);
    if r.Count? {
      forall j: nat | j < |fs.dinodes| && j != ip.inum
        ensures Content(fs.blocks, fs.dinodes[j]) == Content(old(fs.blocks), old(fs.dinodes)[j])
      {
        OthersContent(old(fs.blocks), fs.blocks, old(fs.tab), ip.inum, j);
      }
      assert fs.dinodes == fs.tab;
      SizesSet(s0.dinodes, ip.inum, ip.Value());
      CutAnywhere(l, fs.sb, d, owner0, s0, fs.owner, fs.St());
      if |src| <= 3 * BSIZE && MAXOPBLOCKS < l.size {
        assert fs.logged - old(fs.logged) == fs.logged;
        CanCommit(l, fs.sb, d, s0, fs.St());
      }
    }
  }

  lemma SizesBoth(d0: seq<Dinode>, d: seq<Dinode>, i: nat, c: Dinode, p: nat, m: Dinode)
    requires Sizes(d0) && Both(d0, d, i, c, p, m) && c.size <= MAXSIZE && m.size <= MAXSIZE
    ensures Sizes(d)
  {
  }

  /** The inode that a boot finds in place i of disk d. */
  ghost function DinodeOn(sb: Super, d: Disk, i: nat): Dinode
    requires InodeBlock(sb, i) < |d|
  {
    Decode(d[InodeBlock(sb, i)], i % IPB)
  }

  /**
   * What create leaves, whatever is cut: inode i is free and directory p has its old contents, or inode i is the
   * child with its contents, and p the directory m with the contents m has after the transaction.
   */
  ghost predicate CreatedOrNot(l: Layout, sb: Super, d: Disk, s0: Store, s: Store, i: nat, p: nat)
    requires Formatted(l, d) && i < |s0.dinodes| && p < |s0.dinodes| && |s.dinodes| == |s0.dinodes|
    requires Sizes(s0.dinodes) && Sizes(s.dinodes)
  {
    forall h: seq<nat>, data: seq<Block>, k: nat, ds: seq<Disk>, r: Disk ::
      Transaction(sb, s, h, data) && Recovered(l, d, h, data, k, ds, r) ==>
        && InodeBlock(sb, i) < |r| && InodeBlock(sb, p) < |r|
        && (k <= |h| ==>
              && DinodeOn(sb, r, i).typ == 0 && DinodeOn(sb, r, p) == s0.dinodes[p]
              && FileOn(sb, r, p) == Content(s0.blocks, s0.dinodes[p]))
        && (k > |h| ==>
              && DinodeOn(sb, r, i) == s.dinodes[i] && FileOn(sb, r, i) == Content(s.blocks, s.dinodes[i])
              && DinodeOn(sb, r, p) == s.dinodes[p] && FileOn(sb, r, p) == Content(s.blocks, s.dinodes[p]))
  }

  lemma CreatedIs(l: Layout, sb: Super, d: Disk, s0: Store, s: Store, i: nat, p: nat)
    requires Formatted(l, d) && i < |s0.dinodes| && p < |s0.dinodes| && |s.dinodes| == |s0.dinodes|
    requires Sizes(s0.dinodes) && Sizes(s.dinodes) && s0.dinodes[i].typ == 0 && AllOrNothing(l, sb, d, s0, s)
    ensures CreatedOrNot(l, sb, d, s0, s, i, p)
  {
    hide OnDisk;
    hide Formatted;
    hide Recovered;
    hide Transaction;
    hide Decode;
    hide Content;
    hide FileOn;
    forall h: seq<nat>, data: seq<Block>, k: nat, ds: seq<Disk>, r: Disk |
        Transaction(sb, s, h, data) && Recovered(l, d, h, data, k, ds, r)
      ensures FilesOn(sb, r, if k <= |h| then s0 else s)
    {
    }
  }

  /**
   * What a boot reads in the directories of disk r: in p the entries was and no inode i; or, when the transaction was
   * committed, those with the name for i, and in i, if it is a directory, the dots.
   */
  ghost predicate Named(sb: Super, r: Disk, done: bool, was: seq<byte>, i: nat, p: nat, isDir: bool, off: nat, name: seq<byte>) {
    && InodeBlock(sb, i) < |r| && InodeBlock(sb, p) < |r|
    && DinodeOn(sb, r, i).size <= MAXSIZE && DinodeOn(sb, r, p).size <= MAXSIZE
    && if done then Entered(was, FileOn(sb, r, p), off, i, name) && NewContent(FileOn(sb, r, i), i, p, isDir)
       else DinodeOn(sb, r, i).typ == 0 && FileOn(sb, r, p) == was
  }

  ghost predicate NamedOrNot(l: Layout, sb: Super, d: Disk, s: Store, was: seq<byte>, i: nat, p: nat, isDir: bool, off: nat,
                             name: seq<byte>)
    requires Formatted(l, d)
  {
    forall h: seq<nat>, data: seq<Block>, k: nat, ds: seq<Disk>, r: Disk ::
      Transaction(sb, s, h, data) && Recovered(l, d, h, data, k, ds, r) ==> Named(sb, r, k > |h|, was, i, p, isDir, off, name)
  }

  lemma NamedIs(l: Layout, sb: Super, d: Disk, s0: Store, s: Store, i: nat, p: nat, isDir: bool, off: nat,
                name: seq<byte>, n: Dinode, nlink: int)
    requires Formatted(l, d) && i < |s0.dinodes| && p < |s0.dinodes| && |s.dinodes| == |s0.dinodes|
    requires Sizes(s0.dinodes) && Sizes(s.dinodes) && s0.dinodes[i].typ == 0 && AllOrNothing(l, sb, d, s0, s)
    requires s.dinodes[p] == n && EntryAdded(s0.blocks, s0.dinodes[p], s.blocks, n, nlink, off, i, name)
    requires NewContent(Content(s.blocks, s.dinodes[i]), i, p, isDir)
    ensures NamedOrNot(l, sb, d, s, Content(s0.blocks, s0.dinodes[p]), i, p, isDir, off, name)
  {
    hide OnDisk;
    hide Formatted;
    hide Recovered;
    hide Transaction;
    hide Decode;
    hide Content;
    hide FileOn;
    hide Entered;
    hide NewContent;
    hide EntryWritten;
    forall h: seq<nat>, data: seq<Block>, k: nat, ds: seq<Disk>, r: Disk |
        Transaction(sb, s, h, data) && Recovered(l, d, h, data, k, ds, r)
      ensures Named(sb, r, k > |h|, Content(s0.blocks, s0.dinodes[p]), i, p, isDir, off, name)
    {
      assert FilesOn(sb, r, if k <= |h| then s0 else s);
    }
  }

  /** create is all or nothing: after recovery the new inode, its dots and the entry are all there, or none of them. */
  method CreateCrash(fs: Fs, dp: Inode, typ: int, major: int, minor: int, name: seq<byte>, off: nat, last: bool,
                     ghost l: Layout, ghost d: Disk) returns (r: Option<Inode>, ghost n: Dinode)
    requires AtStart(fs, l, d) && FreeEmpty(fs.dinodes) && fs.Valid(dp) && dp.typ != 0
    requires off % DIRENT == 0 && off <= dp.size && MappedTo(fs.blocks, dp.Value(), dp.size)
    modifies fs, dp`nlink, dp`addrs, dp`size, dp`typ
    ensures r.None? ==> NoneFree(old(fs.dinodes)) || !HasFree(fs.bits) || off + DIRENT > MAXSIZE
    ensures r.Some? ==>
              var ip, isDir := r.value, typ == T_DIR;
              && fresh(ip) && Sizes(old(fs.dinodes)) && Sizes(fs.dinodes) && AllOrNothing(l, fs.sb, d, old(fs.St()), fs.St())
              && Both(old(fs.dinodes), fs.dinodes, ip.inum, ip.Value(), dp.inum, Put(n, last)) && ip.inum != dp.inum
              && FirstFree(old(fs.dinodes), ip.inum) && CreatedOrNot(l, fs.sb, d, old(fs.St()), fs.St(), ip.inum, dp.inum)
              && Child(ip.Value(), typ, major, minor) && ip.size <= MAXSIZE
              && NewContent(Content(fs.blocks, ip.Value()), ip.inum, dp.inum, isDir)
              && EntryAdded(old(fs.blocks), old(dp.Value()), fs.blocks, n, old(dp.nlink) + (if isDir then 1 else 0), off,
                            ip.inum, name)
              && (!(last && n.nlink == 0) ==>
                    && old(dp.size) <= MAXSIZE
                    && NamedOrNot(l, fs.sb, d, fs.St(), Content(old(fs.blocks), old(dp.Value())), ip.inum, dp.inum, isDir, off, name))
              && (typ != 0 ==> FreeEmpty(fs.dinodes))
              && (!(last && n.nlink == 0) && 8 < l.size ==> Commits(l, fs.sb, d, fs.St()))
              && (MapBlocks(fs.sb) + 5 <= LOGSIZE && MapBlocks(fs.sb) + 5 < l.size && 8 < l.size ==> Commits(l, fs.sb, d, fs.St()))
  {
    hide OwnedBy;
    hide Content;
    hide MappedTo;
    hide EntryAdded;
    hide Apart;
    hide OnDisk;
    hide Covers;
    hide AllOrNothing;
    hide CreatedOrNot;
    hide NamedOrNot;
    hide Formatted;
    hide Lists;
    hide CreateLog;
    hide Sizes;
    hide MapBlocks;
    hide NoneFree;
    hide HasFree;
    hide FreeEmpty;
    hide NewContent;
    ghost var owner0, s0 := fs.owner, fs.St();
    SizeAt(fs.dinodes, dp.inum);
    r, n := CreateWrites(fs, dp, typ, major, minor, name, off, last);
    if r.Some? {
      var ip := r.value;
      AddedSize(s0.blocks, old(dp.Value()), fs.blocks, n, old(dp.nlink) + (if typ == T_DIR then 1 else 0), off, ip.inum, name);
      SizesBoth(s0.dinodes, fs.dinodes, ip.inum, ip.Value(), dp.inum, dp.Value());
      CutAnywhere(l, fs.sb, d, owner0, s0, fs.owner, fs.St());
      CreatedIs(l, fs.sb, d, s0, fs.St(), ip.inum, dp.inum);
      if !(last && n.nlink == 0) {
        NamedIs(l, fs.sb, d, s0, fs.St(), ip.inum, dp.inum, typ == T_DIR, off, name, n, old(dp.nlink) + (if typ == T_DIR then 1 else 0));
      }
      if typ != 0 {
        FreeBoth(s0.dinodes, fs.dinodes, ip.inum, ip.Value(), dp.inum, dp.Value());
      }
      assert fs.logged - old(fs.logged) == fs.logged;
      if |fs.logged| <= LOGSIZE && |fs.logged| < l.size {
        CanCommit(l, fs.sb, d, s0, fs.St());
      }
    }
  }

  lemma SizeAt(dinodes: seq<Dinode>, i: nat)
    requires Sizes(dinodes) && i < |dinodes|
    ensures dinodes[i].size <= MAXSIZE
  {
  }

  lemma AddedSize(blocks0: Disk, n0: Dinode, blocks: Disk, n: Dinode, nlink: int, off: nat, i: nat, name: seq<byte>)
    requires EntryAdded(blocks0, n0, blocks, n, nlink, off, i, name)
    ensures n.size <= MAXSIZE && n.typ == n0.typ
  {
  }

  lemma ClearedSize(blocks0: Disk, n0: Dinode, blocks: Disk, n: Dinode, nlink: int, off: nat)
    requires EntryCleared(blocks0, n0, blocks, n, nlink, off)
    ensures n.size <= MAXSIZE && n.typ == n0.typ
  {
  }

  /** What a boot reads in directory p: the entries was or, when the transaction was committed, those with one unused. */
  ghost predicate Unnamed(sb: Super, r: Disk, done: bool, was: seq<byte>, p: nat, off: nat) {
    && InodeBlock(sb, p) < |r| && DinodeOn(sb, r, p).size <= MAXSIZE
    && if done then Cleared(was, FileOn(sb, r, p), off) else FileOn(sb, r, p) == was
  }

  ghost predicate UnnamedOrNot(l: Layout, sb: Super, d: Disk, s: Store, was: seq<byte>, p: nat, off: nat)
    requires Formatted(l, d)
  {
    forall h: seq<nat>, data: seq<Block>, k: nat, ds: seq<Disk>, r: Disk ::
      Transaction(sb, s, h, data) && Recovered(l, d, h, data, k, ds, r) ==> Unnamed(sb, r, k > |h|, was, p, off)
  }

  lemma UnnamedIs(l: Layout, sb: Super, d: Disk, s0: Store, s: Store, p: nat, off: nat, n: Dinode, nlink: int)
    requires Formatted(l, d) && p < |s0.dinodes| && |s.dinodes| == |s0.dinodes|
    requires Sizes(s0.dinodes) && Sizes(s.dinodes) && AllOrNothing(l, sb, d, s0, s)
    requires s.dinodes[p] == n && EntryCleared(s0.blocks, s0.dinodes[p], s.blocks, n, nlink, off)
    ensures UnnamedOrNot(l, sb, d, s, Content(s0.blocks, s0.dinodes[p]), p, off)
  {
    hide OnDisk;
    hide Formatted;
    hide Recovered;
    hide Transaction;
    hide Decode;
    hide Content;
    hide FileOn;
    hide Cleared;
    hide EntryWritten;
    forall h: seq<nat>, data: seq<Block>, k: nat, ds: seq<Disk>, r: Disk |
        Transaction(sb, s, h, data) && Recovered(l, d, h, data, k, ds, r)
      ensures Unnamed(sb, r, k > |h|, Content(s0.blocks, s0.dinodes[p]), p, off)
    {
      assert FilesOn(sb, r, if k <= |h| then s0 else s);
    }
  }

  /** unlink is all or nothing: the entry is cleared and the link gone, with the file if it was the last, or neither. */
  method UnlinkCrash(fs: Fs, ip: Inode, dp: Inode, isDir: bool, lastDp: bool, lastIp: bool, off: nat,
                     ghost l: Layout, ghost d: Disk) returns (ok: bool, ghost n: Dinode)
    requires AtStart(fs, l, d) && fs.Valid(ip) && fs.Valid(dp) && ip != dp && ip.inum != dp.inum
    requires off % DIRENT == 0 && off + DIRENT <= dp.size && MappedTo(fs.blocks, dp.Value(), dp.size)
    modifies fs, ip`nlink, ip`addrs, ip`size, ip`typ, dp`nlink, dp`addrs, dp`size, dp`typ
    ensures ok ==>
              && Sizes(old(fs.dinodes)) && Sizes(fs.dinodes) && AllOrNothing(l, fs.sb, d, old(fs.St()), fs.St())
              && Both(old(fs.dinodes), fs.dinodes, ip.inum, Put(old(ip.Value()).(nlink := old(ip.nlink) - 1), lastIp),
                      dp.inum, Put(n, lastDp))
              && OthersKept(old(fs.blocks), fs.blocks, old(fs.dinodes), dp.inum)
              && EntryCleared(old(fs.blocks), old(dp.Value()), fs.blocks, n, old(dp.nlink) - (if isDir then 1 else 0), off)
              && (!(lastDp && n.nlink == 0) ==>
                    && old(dp.size) <= MAXSIZE
                    && UnnamedOrNot(l, fs.sb, d, fs.St(), Content(old(fs.blocks), old(dp.Value())), dp.inum, off))
              && (FreeEmpty(old(fs.dinodes)) && old(dp.typ) != 0 && old(ip.typ) != 0 ==> FreeEmpty(fs.dinodes))
              && (MapBlocks(fs.sb) + 4 <= LOGSIZE && MapBlocks(fs.sb) + 4 < l.size ==> Commits(l, fs.sb, d, fs.St()))
  {
    hide OwnedBy;
    hide Content;
    hide MappedTo;
    hide EntryCleared;
    hide UnnamedOrNot;
    hide Apart;
    hide OnDisk;
    hide Covers;
    hide AllOrNothing;
    hide Formatted;
    hide Lists;
    hide ParentLog;
    hide Ref;
    hide OthersKept;
    hide Sizes;
    hide MapBlocks;
    hide FreeEmpty;
    hide HasFree;
    ghost var owner0, s0 := fs.owner, fs.St();
    SizeAt(fs.dinodes, dp.inum);
    SizeAt(fs.dinodes, ip.inum);
    ok, n := UnlinkWrites(fs, ip, dp, isDir, lastDp, lastIp, off);
    if ok {
      ClearedSize(s0.blocks, old(dp.Value()), fs.blocks, n, old(dp.nlink) - (if isDir then 1 else 0), off);
      SizesBoth(s0.dinodes, fs.dinodes, ip.inum, ip.Value(), dp.inum, dp.Value());
      if FreeEmpty(s0.dinodes) && old(dp.typ) != 0 && old(ip.typ) != 0 {
        FreeBoth(s0.dinodes, fs.dinodes, ip.inum, ip.Value(), dp.inum, dp.Value());
      }
      CutAnywhere(l, fs.sb, d, owner0, s0, fs.owner, fs.St());
      if !(lastDp && n.nlink == 0) {
        UnnamedIs(l, fs.sb, d, s0, fs.St(), dp.inum, off, n, old(dp.nlink) - (if isDir then 1 else 0));
      }
      assert fs.logged - old(fs.logged) == fs.logged;
      if |fs.logged| <= LOGSIZE && |fs.logged| < l.size {
        CanCommit(l, fs.sb, d, s0, fs.St());
      }
    }
  }
}
