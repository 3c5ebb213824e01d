// The initial image (mkfs.c): blocks are handed out in order from freeblock, and the
// bitmap is written last.
module Mkfs {
  import opened Blocks
  import opened Common
  import opened BlockMap
  import opened FileSystem
  import BlockRuns

  /** The bitmap marks the first used blocks. */
  ghost predicate FirstUsed(bits: seq<bool>, used: nat) {
    forall b :: 0 <= b < |bits| ==> bits[b] == (b < used)
  }

  /** The mapped blocks of an inode are those below its size. */
  ghost predicate ExactlyMapped(blocks: Disk, n: Dinode) {
    n.size <= MAXSIZE && ExactTo(blocks, n, n.size)
  }

  /** Exactly the blocks below len bytes are mapped. */
  ghost predicate ExactTo(blocks: Disk, n: Dinode, len: nat) {
    forall bn :: 0 <= bn < MAXFILE ==> (Ref(blocks, n, bn) != 0 <==> bn * BSIZE < len)
  }

  ghost predicate AllExact(blocks: Disk, table: seq<Dinode>) {
    forall j :: 0 <= j < |table| ==> ExactlyMapped(blocks, table[j])
  }

  ghost predicate Unused(n: Dinode) {
    n == NewInode(0, 0)
  }

  ghost predicate Built(sb: Super, owner: Owner, bits: seq<bool>, freeblock: nat, blocks: Disk, dinodes: seq<Dinode>) {
    && sb.data <= freeblock <= sb.size && FirstUsed(bits, freeblock)
    && OwnedBy(sb, owner, bits, blocks, dinodes)
    && (forall b :: freeblock <= b < sb.size ==> blocks[b] == ZeroBlock())
  }

  /** Taking the next free block for an empty slot. */
  lemma TakeNext(sb: Super, owner: Owner, bits: seq<bool>, f: nat, blocks: Disk, table: seq<Dinode>, i: nat, s: nat)
    requires Built(sb, owner, bits, f, blocks, table) && f < sb.size
    requires i < |table| && s < NSLOT && Ref(blocks, table[i], s) == 0
    requires NDIRECT <= s < INDIRECT ==> table[i].addrs[NDIRECT] != 0
    ensures var blocks' := StoreBlock(blocks, table[i], s, f);
            var table' := table[i := StoreAddr(table[i], s, f)];
            && Built(sb, owner[f := (i, s)], bits[f := true], f + 1, blocks', table')
            && Ref(blocks', table'[i], s) == f
            && OthersKept(blocks, blocks', table, i)
            && (forall t :: 0 <= t < NSLOT && t != s ==> Ref(blocks', table'[i], t) == Ref(blocks, table[i], t))
            && (forall p :: 0 <= p < MAXSIZE ==> Byte(blocks', table'[i], p) == Byte(blocks, table[i], p))
  {
    hide Ref;
    hide Byte;
    hide OwnersRefer;
    hide RefsOwned;
    hide OthersKept;
    hide SetWord;
    assert blocks[f := ZeroBlock()] == blocks;
    AllocSlot(sb, owner, bits, blocks, table, i, s, f);
    AllocBytes(sb, owner, bits, blocks, table, i, s, f);
    FreeIsNoTable(sb, owner, bits, blocks, table, f);
    TableInUse(sb, owner, bits, f, blocks, table, i);
    var table' := table[i := StoreAddr(table[i], s, f)];
    RefsOf(blocks, table, StoreBlock(blocks, table[i], s, f), table', i, s);
    forall j, t | 0 <= j < |table| && j != i && 0 <= t < NSLOT
      ensures Ref(StoreBlock(blocks, table[i], s, f), table[j], t) == Ref(blocks, table[j], t)
    {
      assert table'[j] == table[j];
    }
  }

  lemma KeptTwice(blocks0: Disk, blocks1: Disk, blocks2: Disk, table: seq<Dinode>, i: nat, n: Dinode)
    requires i < |table|
    requires OthersKept(blocks0, blocks1, table, i)
    requires OthersKept(blocks1, blocks2, table[i := n], i)
    ensures OthersKept(blocks0, blocks2, table, i)
  {
    OthersIgnore(blocks1, blocks2, table, i, n);
    OthersTrans(blocks0, blocks1, blocks2, table, i);
  }

  lemma InUse(sb: Super, owner: Owner, bits: seq<bool>, f: nat, blocks: Disk, table: seq<Dinode>, i: nat, s: nat)
    requires Built(sb, owner, bits, f, blocks, table) && i < |table| && s < NSLOT
    ensures Ref(blocks, table[i], s) < f
  {
    hide Ref;
  }

  lemma TableInUse(sb: Super, owner: Owner, bits: seq<bool>, f: nat, blocks: Disk, table: seq<Dinode>, i: nat)
    requires Built(sb, owner, bits, f, blocks, table) && i < |table|
    ensures table[i].addrs[NDIRECT] < f || table[i].addrs[NDIRECT] == 0
  {
    assert Ref(blocks, table[i], INDIRECT) == table[i].addrs[NDIRECT];
  }

  class Image {
    const sb: Super
    var blocks: Disk
    var dinodes: seq<Dinode>
    var freeblock: nat
    var freeinode: nat
    ghost var owner: Owner
    ghost var bits: seq<bool>   // the bitmap, were it written now

    ghost predicate Valid()
      reads this
    {
      && Built(sb, owner, bits, freeblock, blocks, dinodes)
      && 0 < freeinode <= |dinodes|
      && AllExact(blocks, dinodes)
      && (forall i :: freeinode <= i < |dinodes| ==> Unused(dinodes[i]))
      && (forall i :: 1 <= i < freeinode ==> dinodes[i].typ != 0)
    }

    /** Every sector zeroed, no inode in use. */
    constructor (sb: Super, ninodes: nat)
      requires 0 < sb.data <= sb.size <= WORDMAX && 0 < ninodes
      ensures Valid() && this.sb == sb && |dinodes| == ninodes && freeinode == 1 && freeblock == sb.data
    {
      this.sb := sb;
      blocks := seq(sb.size, _ => ZeroBlock());
      dinodes := seq(ninodes, _ => NewInode(0, 0));
      freeblock := sb.data;
      freeinode := 1;
      owner := map[];
      bits := seq(sb.size, b => b < sb.data);
    }

    /** The next inode number; None when there is none (the source would write past the table). */
    method Ialloc(typ: int) returns (r: Option<nat>)
      requires Valid() && typ != 0
      modifies this`dinodes, this`freeinode
      ensures Valid()
      ensures r.None? <==> old(freeinode) == |old(dinodes)|
      ensures r.None? ==> dinodes == old(dinodes)
      ensures r.Some? ==> r.value == old(freeinode) && freeinode == old(freeinode) + 1
                          && dinodes == old(dinodes)[r.value := NewInode(typ, 1)]
    {
      hide BitsExact;
      hide RefsOwned;
      hide OwnersRefer;
      hide Ref;
      if freeinode == |dinodes| {
        return None;
      }
      var inum := freeinode;
      freeinode := freeinode + 1;
      var n := NewInode(typ, 1);
      SizeOnly(sb, owner, bits, blocks, dinodes, inum, n);
      dinodes := dinodes[inum := n];
      r := Some(inum);
    }

    /** Another free block for an empty slot of inode inum; false when the image is full. */
    method Take(inum: nat, s: nat) returns (ok: bool)
      requires Built(sb, owner, bits, freeblock, blocks, dinodes)
      requires inum < |dinodes| && s < NSLOT && Ref(blocks, dinodes[inum], s) == 0
      requires NDIRECT <= s < INDIRECT ==> dinodes[inum].addrs[NDIRECT] != 0
      modifies this`blocks, this`dinodes, this`freeblock, this`owner, this`bits
      ensures ok <==> old(freeblock) < sb.size
      ensures freeblock == old(freeblock) + if ok then 1 else 0
      ensures ok ==>
                && Built(sb, owner, bits, freeblock, blocks, dinodes)
                && dinodes == old(dinodes)[inum := StoreAddr(old(dinodes)[inum], s, old(freeblock))]
                && Ref(blocks, dinodes[inum], s) == old(freeblock) > 0
                && OthersKept(old(blocks), blocks, old(dinodes), inum)
                && (forall t :: 0 <= t < NSLOT && t != s ==> Ref(blocks, dinodes[inum], t) == Ref(old(blocks), old(dinodes)[inum], t))
                && (forall p :: 0 <= p < MAXSIZE ==>
                      Byte(blocks, dinodes[inum], p) == Byte(old(blocks), old(dinodes)[inum], p))
    {
      hide Ref;
      hide Byte;
      hide RefsOwned;
      hide OwnersRefer;
      hide OthersKept;
      hide SetWord;
      if freeblock >= sb.size {
        return false;
      }
      TakeNext(sb, owner, bits, freeblock, blocks, dinodes, inum, s);
      TableInUse(sb, owner, bits, freeblock, blocks, dinodes, inum);
      var n := dinodes[inum];
      var x := freeblock;
      freeblock := freeblock + 1;
      owner := owner[x := (inum, s)];
      bits := bits[x := true];
      if s < NDIRECT {
        dinodes := dinodes[inum := n.(addrs := n.addrs[s := x])];
      } else if s == INDIRECT {
        dinodes := dinodes[inum := n.(addrs := n.addrs[NDIRECT := x])];
      } else {
        var t := n.addrs[NDIRECT];
        blocks := blocks[t := SetWord(blocks[t], s - NDIRECT, x)];
      }
      assert dinodes == old(dinodes)[inum := StoreAddr(n, s, x)];
      assert blocks == StoreBlock(old(blocks), n, s, x);
      ok := true;
    }

    /** The block of the file that holds byte fbn * BSIZE, as iappend finds or makes it. */
    method Place(inum: nat, fbn: nat) returns (r: Option<nat>)
      requires Built(sb, owner, bits, freeblock, blocks, dinodes) && inum < |dinodes| && fbn < MAXFILE
      modifies this`blocks, this`dinodes, this`freeblock, this`owner, this`bits
      ensures r.None? ==> freeblock == sb.size
      ensures old(freeblock) <= freeblock <= old(freeblock) + 2
      ensures r.Some? ==>
                && Built(sb, owner, bits, freeblock, blocks, dinodes)
                && |dinodes| == |old(dinodes)| && dinodes == old(dinodes)[inum := dinodes[inum]]
                && dinodes[inum].(addrs := old(dinodes)[inum].addrs) == old(dinodes)[inum]
                && 0 < r.value < sb.size && Ref(blocks, dinodes[inum], fbn) == r.value
                && OthersKept(old(blocks), blocks, old(dinodes), inum)
                && (forall t :: 0 <= t < MAXFILE && t != fbn ==> Ref(blocks, dinodes[inum], t) == Ref(old(blocks), old(dinodes)[inum], t))
                && (forall p :: 0 <= p < MAXSIZE ==>
                      Byte(blocks, dinodes[inum], p) == Byte(old(blocks), old(dinodes)[inum], p))
                && (Ref(old(blocks), old(dinodes)[inum], fbn) != 0 ==> blocks == old(blocks) && dinodes == old(dinodes))
    {
      hide Byte;
      hide Word;
      hide RefsOwned;
      hide OwnersRefer;
      hide BitsExact;
      RefInRange(sb, owner, bits, blocks, dinodes, inum, fbn);
      if fbn < NDIRECT {
        if dinodes[inum].addrs[fbn] == 0 {
          var ok := Take(inum, fbn);
          if !ok {
            return None;
          }
        }
        return Some(dinodes[inum].addrs[fbn]);
      }
      if dinodes[inum].addrs[NDIRECT] == 0 {
        var ok := Take(inum, INDIRECT);
        if !ok {
          return None;
        }
      }
      ghost var blocks1, n1 := blocks, dinodes[inum];
      TableInRange(sb, owner, bits, blocks, dinodes, inum);
      if Word(blocks[dinodes[inum].addrs[NDIRECT]], fbn - NDIRECT) == 0 {
        var ok := Take(inum, fbn);
        if !ok {
          return None;
        }
      }
      KeptTwice(old(blocks), blocks1, blocks, old(dinodes), inum, n1);
      TableInRange(sb, owner, bits, blocks, dinodes, inum);
      r := Some(Word(blocks[dinodes[inum].addrs[NDIRECT]], fbn - NDIRECT));
    }

    /** One turn of iappend. */
    method AppendChunk(inum: nat, off: nat, piece: seq<byte>) returns (r: Option<nat>)
      requires Built(sb, owner, bits, freeblock, blocks, dinodes) && inum < |dinodes|
      requires 0 < |piece| && off + |piece| <= MAXSIZE && off % BSIZE + |piece| <= BSIZE
      modifies this`blocks, this`dinodes, this`freeblock, this`owner, this`bits
      ensures r.None? ==> freeblock == sb.size
      ensures old(freeblock) <= freeblock <= old(freeblock) + 2
      ensures r.Some? ==>
                && Built(sb, owner, bits, freeblock, blocks, dinodes)
                && |dinodes| == |old(dinodes)| && dinodes == old(dinodes)[inum := dinodes[inum]]
                && dinodes[inum].(addrs := old(dinodes)[inum].addrs) == old(dinodes)[inum]
                && Ref(blocks, dinodes[inum], off / BSIZE) != 0
                && OthersKept(old(blocks), blocks, old(dinodes), inum)
                && (forall t :: 0 <= t < MAXFILE && t != off / BSIZE ==>
                      Ref(blocks, dinodes[inum], t) == Ref(old(blocks), old(dinodes)[inum], t))
                && (forall p :: off <= p < off + |piece| ==> Byte(blocks, dinodes[inum], p) == piece[p - off])
                && (forall p :: 0 <= p < MAXSIZE && !(off <= p < off + |piece|) ==>
                      Byte(blocks, dinodes[inum], p) == Byte(old(blocks), old(dinodes)[inum], p))
    {
      hide Ref;
      hide Word;
      hide RefsOwned;
      hide OwnersRefer;
      hide BitsExact;
      hide OthersKept;
      hide Byte;
      var fbn := off / BSIZE;
      r := Place(inum, fbn);
      if r.Some? {
        var x := r.value;
        ghost var blocks1, n1 := blocks, dinodes[inum];
        var o := off % BSIZE;
        var data := blocks[x][..o] + piece + blocks[x][o + |piece|..];
        InUse(sb, owner, bits, freeblock, blocks, dinodes, inum, fbn);
        DataWrite(sb, owner, bits, blocks, dinodes, inum, fbn, data);
        ChunkBytes(blocks, dinodes[inum], off, piece, x, data, blocks[x := data]);
        blocks := blocks[x := data];
        KeptTwice(old(blocks), blocks1, blocks, old(dinodes), inum, n1);
      }
    }

    /**
     * iappend: the file gets longer by xp, every other file keeps its bytes, and the image is
     * still one where blocks are owned once.  false is the assertion on the largest file, or a
     * full image.
     */
    method Iappend(inum: nat, xp: seq<byte>) returns (ok: bool)
      requires Valid() && inum < freeinode
      modifies this`blocks, this`dinodes, this`freeblock, this`owner, this`bits
      ensures !ok ==> old(dinodes)[inum].size + |xp| > MAXSIZE || freeblock == sb.size
      ensures old(freeblock) <= freeblock <= old(freeblock) + 2 * Chunks(old(dinodes)[inum].size, |xp|)
      ensures ok ==>
                && Valid() && |dinodes| == |old(dinodes)|
                && dinodes == old(dinodes)[inum := dinodes[inum]]
                && dinodes[inum].size == old(dinodes)[inum].size + |xp|
                && Content(blocks, dinodes[inum]) == Content(old(blocks), old(dinodes)[inum]) + xp
                && OthersKept(old(blocks), blocks, old(dinodes), inum)
    {
      hide Ref;
      hide Byte;
      hide RefsOwned;
      hide OwnersRefer;
      hide BitsExact;
      hide OthersKept;
      hide Progress;
      hide MappedTo;
      hide ExactTo;
      hide FirstUsed;
      hide Content;
      hide Splice;
      var n0 := dinodes[inum];
      var off := n0.size;
      var tot := 0;
      AppendStart(blocks, dinodes, inum, xp);
      while tot < |xp|
        invariant 0 <= tot <= |xp| && off + tot <= MAXSIZE && inum < |dinodes| == |old(dinodes)|
        invariant Built(sb, owner, bits, freeblock, blocks, dinodes)
        invariant old(freeblock) <= freeblock <= old(freeblock) + if tot == 0 then 0 else 2 * Chunks(off, tot)
        invariant tot == 0 || tot == |xp| || (off + tot) % BSIZE == 0
        invariant dinodes == old(dinodes)[inum := dinodes[inum]]
        invariant dinodes[inum].(addrs := n0.addrs) == n0
        invariant Progress(old(blocks), n0, blocks, dinodes[inum], off, xp, tot)
        invariant ExactTo(blocks, dinodes[inum], off + tot)
        invariant OthersKept(old(blocks), blocks, old(dinodes), inum)
      {
        var o := off + tot;
        if o / BSIZE >= MAXFILE {
          return false;
        }
        var m := if |xp| - tot < BSIZE - o % BSIZE then |xp| - tot else BSIZE - o % BSIZE;
        ghost var blocks1, n1 := blocks, dinodes[inum];
        ChunksMore(off, tot, m, |xp|);
        var x := AppendChunk(inum, o, xp[tot..tot + m]);
        if x.None? {
          return false;
        }
        ProgressStep(old(blocks), n0, blocks1, n1, blocks, dinodes[inum], off, xp, tot, m);
        ExactStep(blocks1, n1, blocks, dinodes[inum], o, m);
        KeptTwice(old(blocks), blocks1, blocks, old(dinodes), inum, n1);
        tot := tot + m;
      }
      AppendDone(sb, owner, bits, blocks, dinodes, inum, old(blocks), old(dinodes), xp);
      dinodes := dinodes[inum := dinodes[inum].(size := off + tot)];
      ok := true;
    }

    /** The last step, balloc(freeblock): the bitmap makes the image one where ownership holds. */
    method Balloc() returns (r: Option<seq<bool>>)
      requires Built(sb, owner, bits, freeblock, blocks, dinodes)
      ensures r.None? <==> freeblock >= BSIZE * 8
      ensures r.Some? ==> Ownership(sb, r.value, blocks, dinodes) && FirstUsed(r.value, freeblock)
    {
      hide Ref;
      if freeblock >= BSIZE * 8 {
        return None;
      }
      var map0 := seq(sb.size, _ => false);
      var i := 0;
      while i < freeblock
        invariant 0 <= i <= freeblock && |map0| == sb.size
        invariant forall b :: 0 <= b < sb.size ==> map0[b] == (b < i)
      {
        map0 := map0[i := true];
        i := i + 1;
      }
      assert map0 == bits;
      OwnedIsOwnership(sb, owner, bits, blocks, dinodes);
      r := Some(map0);
    }

    /** The image booted: the file system the kernel starts with, and a start for any run of its processes. */
    method Mount() returns (r: Option<Fs>)
      requires Built(sb, owner, bits, freeblock, blocks, dinodes)
      ensures r.None? <==> freeblock >= BSIZE * 8
      ensures r.Some? ==> FirstUsed(r.value.bits, freeblock) && (FreeEmpty(dinodes) ==> r.value.FreeUnused())
      ensures r.Some? ==>
                && fresh(r.value) && r.value.Sound() && r.value.sb == sb && r.value.blocks == blocks
                && r.value.tab == r.value.dinodes == dinodes && r.value.logged == {}
                && BlockRuns.Boot(BlockRuns.State(sb, r.value.bits, blocks, dinodes, dinodes,
                                                  seq(|dinodes|, _ => BlockRuns.Unlocked)))
    {
      hide Ref;
      hide Ownership;
      hide OwnedBy;
      var map0 := Balloc();
      if map0.None? {
        return None;
      }
      MapSize(sb, map0.value, blocks, dinodes);
      var fs := new Fs(sb, map0.value, blocks, dinodes);
      r := Some(fs);
    }

    /** The size of the root directory is rounded up past its last entry. */
    method FixRoot(root: nat)
      requires Built(sb, owner, bits, freeblock, blocks, dinodes) && root < |dinodes|
      modifies this`dinodes
      ensures Built(sb, owner, bits, freeblock, blocks, dinodes)
      ensures dinodes == old(dinodes)[root := old(dinodes)[root].(size := Rounded(old(dinodes)[root].size))]
    {
      hide Ref;
      hide BitsExact;
      hide RefsOwned;
      hide OwnersRefer;
      SizeOnly(sb, owner, bits, blocks, dinodes, root, dinodes[root].(size := Rounded(dinodes[root].size)));
      dinodes := dinodes[root := dinodes[root].(size := Rounded(dinodes[root].size))];
    }
  }

  /** The blocks that len bytes at off touch. */
  function Chunks(off: nat, len: nat): nat {
    (off % BSIZE + len + BSIZE - 1) / BSIZE
  }

  lemma ChunksMore(off: nat, tot: nat, m: nat, n: nat)
    requires 0 < m && tot + m <= n && (off + tot) % BSIZE + m <= BSIZE && (tot == 0 || (off + tot) % BSIZE == 0)
    ensures (if tot == 0 then 0 else Chunks(off, tot)) + 1 <= Chunks(off, tot + m) <= Chunks(off, n)
  {
    if tot > 0 {
      assert (off % BSIZE + tot) % BSIZE == 0;
    }
  }

  /** The inodes that are free in the image have no blocks. */
  lemma ImageFree(img: Image)
    requires img.Valid()
    ensures FreeEmpty(img.dinodes)
  {
    hide OwnedBy;
    hide AllExact;
    hide FirstUsed;
  }

  lemma MapSize(sb: Super, bits: seq<bool>, blocks: Disk, dinodes: seq<Dinode>)
    requires Ownership(sb, bits, blocks, dinodes)
    ensures |bits| == |blocks| == sb.size <= WORDMAX
  {
    hide Ref;
  }

  function Rounded(size: nat): nat {
    (size / BSIZE + 1) * BSIZE
  }

  /**
   * The rounded root directory is mapped up to its size, as every later readi and writei of it
   * assumes, exactly when its entries do not fill its last block.
   */
  lemma RootMapped(blocks: Disk, root: Dinode, files: nat)
    requires ExactlyMapped(blocks, root) && root.size == DIRENT * (2 + files) < MAXSIZE
    ensures MappedTo(blocks, root.(size := Rounded(root.size)), Rounded(root.size)) <==> (2 + files) % 32 != 0
  {
    hide Ref;
    var n := root.(size := Rounded(root.size));
    var last := root.size / BSIZE;
    forall bn | 0 <= bn < MAXFILE ensures Ref(blocks, n, bn) == Ref(blocks, root, bn) {
      RefIgnoresSize(blocks, root, n, bn);
    }
    assert last < MAXFILE && last * BSIZE < Rounded(root.size);
    assert root.size % BSIZE == 0 <==> (2 + files) % 32 == 0;
    if root.size % BSIZE == 0 {
      assert Ref(blocks, n, last) == 0;
    } else {
      forall bn | 0 <= bn < MAXFILE && bn * BSIZE < Rounded(root.size) ensures bn * BSIZE < root.size {
        assert bn <= last;
      }
    }
  }

  /** A new number in the inode is a block that the old copy does not refer to. */
  lemma MissingBlock(sb: Super, owner: Owner, bits: seq<bool>, blocks: Disk, table: seq<Dinode>, i: nat, n: Dinode)
    requires OwnedBy(sb, owner, bits, blocks, table) && i < |table| && AddrsKept(n.addrs, table[i].addrs)
    requires n.addrs != table[i].addrs
    ensures !SameBlocks(blocks, table[i], n)
  {
    hide Word;
    var k :| 0 <= k <= NDIRECT && n.addrs[k] != table[i].addrs[k];
    var slot := if k < NDIRECT then k else INDIRECT;
    var b := table[i].addrs[k];
    assert Ref(blocks, table[i], slot) == b && Ref(blocks, n, slot) == 0;
    forall s | 0 <= s < NSLOT && Ref(blocks, n, s) != 0 ensures Ref(blocks, n, s) == Ref(blocks, table[i], s) {
    }
    hide Ref;
    assert Refers(blocks, table[i], b) && !Refers(blocks, n, b);
  }

  lemma NothingLogged(sb: Super, s0: Store, s: Store)
    requires Covers(sb, s0, s) && s0.logged == {}
    ensures s.logged == {} <==> s == s0
  {
    hide InFs;
    hide BitBlock;
    hide InodeBlock;
    if s.logged == {} {
      assert s.blocks == s0.blocks && s.bits == s0.bits && s.dinodes == s0.dinodes;
    }
  }

  lemma MappedAll(blocks: Disk, n: Dinode)
    ensures MappedIn(blocks, n, 0, n.size) <==> MappedTo(blocks, n, n.size)
  {
    hide Ref;
  }

  /** The rounded root directory has a number in its inode for every block of it. */
  ghost predicate RootSaved(addrs: Addrs, files: nat) {
    (2 + files) % 32 != 0 || ((2 + files) / 32 >= NDIRECT && addrs[NDIRECT] != 0)
  }

  lemma RootAddrs(blocks: Disk, root: Dinode, files: nat)
    requires ExactlyMapped(blocks, root) && root.size == DIRENT * (2 + files) < MAXSIZE
    ensures AddrsFor(root.addrs, 0, Rounded(root.size)) <==> RootSaved(root.addrs, files)
  {
    hide Word;
    var last := root.size / BSIZE;
    assert last == (2 + files) / 32 && (root.size % BSIZE == 0 <==> (2 + files) % 32 == 0);
    forall bn | 0 <= bn < MAXFILE && bn * BSIZE < root.size ensures root.addrs[if bn < NDIRECT then bn else NDIRECT] != 0 {
      assert Ref(blocks, root, bn) != 0;
    }
    forall bn | 0 <= bn < MAXFILE && bn * BSIZE < Rounded(root.size) ensures bn <= last {
    }
    if (2 + files) % 32 == 0 {
      assert Ref(blocks, root, last) == 0 && last * BSIZE < Rounded(root.size);
      hide Ref;
      if last < NDIRECT {
        DirectRef(blocks, root, last);
        assert root.addrs[last] == 0;
      }
    }
  }

  /** Its one hole is its last block, so a read that fails there found fewer than two free blocks. */
  lemma OnlyHole(s: Store, root: Dinode, files: nat)
    requires ExactlyMapped(s.blocks, root) && root.size == DIRENT * (2 + files) < MAXSIZE
    requires Stopped(s, root.(size := Rounded(root.size)), 0, Rounded(root.size))
    ensures !HasTwo(s.bits)
  {
    hide Ref;
    hide HasTwo;
    var n := root.(size := Rounded(root.size));
    forall bn | 0 <= bn < MAXFILE ensures Ref(s.blocks, n, bn) == Ref(s.blocks, root, bn) {
      RefIgnoresSize(s.blocks, root, n, bn);
    }
    var bn :| 0 <= bn < MAXFILE && Ref(s.blocks, n, bn) == 0 && bn * BSIZE < Rounded(root.size)
              && (MappedIn(s.blocks, n, 0, bn * BSIZE) ==> !HasTwo(s.bits));
    forall t | 0 <= t < MAXFILE && t * BSIZE < bn * BSIZE ensures Ref(s.blocks, n, t) != 0 {
      assert t < bn;
    }
  }

  /**
   * A lookup that reads the whole root directory of the booted image.  It logs nothing exactly when the
   * entries do not fill the last block; a read of "/" outside a transaction is refused otherwise.  And what
   * a reload of the inode from disk finds is sound exactly when every block has a number in the inode.
   */
  method ScanRoot(fs: Fs, ip: Inode, ghost root: Dinode, ghost files: nat) returns (r: Io, dst: seq<byte>)
    requires fs.Valid(ip) && fs.tab == fs.dinodes && fs.logged == {}
    requires ExactlyMapped(fs.blocks, root) && root.size == DIRENT * (2 + files) < MAXSIZE
    requires ip.Value() == root.(size := Rounded(root.size))
    modifies fs`bits, fs`blocks, fs`logged, fs`owner, fs`tab, ip`addrs
    ensures !r.Fail? && (r.Panic? ==> (2 + files) % 32 == 0 && !HasTwo(old(fs.bits)))
    ensures r.Count? ==> (fs.logged == {} <==> (2 + files) % 32 != 0)
    ensures r.Count? ==> (Ownership(fs.sb, fs.bits, fs.blocks, fs.dinodes) <==> RootSaved(root.addrs, files))
  {
    hide OwnedBy;
    hide Ref;
    hide MappedTo;
    hide MappedIn;
    hide AddrsFor;
    hide AddrsKept;
    hide Content;
    hide ExactlyMapped;
    hide OthersKept;
    hide Covers;
    hide Ownership;
    hide SameBlocks;
    hide RootSaved;
    ghost var n0, s0 := ip.Value(), fs.St();
    RootMapped(fs.blocks, root, files);
    MappedAll(fs.blocks, n0);
    RootAddrs(fs.blocks, root, files);
    RoundedFits(root.size);
    r, dst := fs.Readi(ip, 0, ip.size);
    if r.Panic? {
      OnlyHole(s0, root, files);
      StoppedHole(s0, n0, 0, n0.size);
    }
    if r.Count? {
      NothingLogged(fs.sb, s0, fs.St());
      assert fs.tab[ip.inum := n0] == fs.dinodes;
      ReloadIff(fs.sb, fs.owner, fs.bits, fs.blocks, fs.tab, ip.inum, n0);
      if ip.addrs == n0.addrs {
        SavedIsSame(fs.sb, fs.owner, fs.bits, fs.blocks, fs.tab, ip.inum, n0);
      } else {
        MissingBlock(fs.sb, fs.owner, fs.bits, fs.blocks, fs.tab, ip.inum, n0);
      }
    }
  }

  /** mkfs of a root directory: its entries appended one by one; false is a full image. */
  method MakeRoot(sb: Super, ninodes: nat, entries: seq<seq<byte>>) returns (img: Image, root: nat, ok: bool)
    requires 0 < sb.data <= sb.size <= WORDMAX && ninodes > 1 && forall e :: 0 <= e < |entries| ==> |entries[e]| == DIRENT
    ensures ok ==>
              && img.Valid() && img.sb == sb && root < |img.dinodes| && img.dinodes[root].size == DIRENT * |entries|
              && sb.data <= img.freeblock <= sb.data + 2 * |entries|
    ensures DIRENT * |entries| <= MAXSIZE && sb.data + 2 * |entries| < sb.size ==> ok
    ensures fresh(img)
  {
    hide OwnedBy;
    hide OthersKept;
    hide Content;
    hide AllExact;
    hide FirstUsed;
    img := new Image(sb, ninodes);
    var r := img.Ialloc(1);
    root, ok := r.value, true;
    var e := 0;
    while e < |entries|
      invariant 0 <= e <= |entries| && img.Valid() && img.sb == sb && root < img.freeinode
      invariant img.dinodes[root].size == DIRENT * e && sb.data <= img.freeblock <= sb.data + 2 * e
    {
      assert Chunks(DIRENT * e, DIRENT) == 1;
      ok := img.Iappend(root, entries[e]);
      if !ok {
        return;
      }
      e := e + 1;
    }
  }

  /**
   * The image of a root directory with any entries, booted and looked up to the end: afterwards the inodes
   * on the disk own the marked blocks exactly when the entries do not fill the last block of the directory,
   * or there is an indirect block for the next one.  With thirty files, and the dots, they do not.
   */
  method LookupAfterBoot(sb: Super, ninodes: nat, entries: seq<seq<byte>>) returns (fs: Option<Fs>, ghost addrs: Addrs)
    requires 0 < sb.data <= sb.size <= WORDMAX && ninodes > 1 && forall e :: 0 <= e < |entries| ==> |entries[e]| == DIRENT
    requires 2 <= |entries| && DIRENT * |entries| < MAXSIZE
    ensures fs.Some? ==>
              && (Ownership(sb, fs.value.bits, fs.value.blocks, fs.value.dinodes) <==> RootSaved(addrs, |entries| - 2))
              && (|entries| == 32 ==> !Ownership(sb, fs.value.bits, fs.value.blocks, fs.value.dinodes))
    ensures sb.data + 2 * |entries| + 2 <= sb.size && sb.data + 2 * |entries| < BSIZE * 8 ==> fs.Some?
  {
    hide OwnedBy;
    hide Ownership;
    hide Content;
    hide ExactTo;
    fs, addrs := None, NoAddrs();
    var img, root, ok := MakeRoot(sb, ninodes, entries);
    if !ok {
      return;
    }
    ghost var n := img.dinodes[root];
    assert ExactlyMapped(img.blocks, n);
    img.FixRoot(root);
    var f := img.Mount();
    if f.None? {
      return;
    }
    var ip := f.value.Ilock(root);
    if img.freeblock + 2 <= sb.size {
      TwoLeft(f.value.bits, img.freeblock);
    }
    var r, dst := ScanRoot(f.value, ip, n, |entries| - 2);
    if r.Count? {
      fs, addrs := f, n.addrs;
    }
  }

  lemma TwoLeft(bits: seq<bool>, used: nat)
    requires FirstUsed(bits, used) && used + 2 <= |bits|
    ensures HasTwo(bits)
  {
    assert !bits[used] && !bits[used + 1];
  }

  lemma RoundedFits(size: nat)
    requires size < MAXSIZE
    ensures Rounded(size) <= MAXSIZE < WORDMAX
  {
  }

  lemma AppendStart(blocks: Disk, table: seq<Dinode>, i: nat, xp: seq<byte>)
    requires i < |table| && ExactlyMapped(blocks, table[i])
    ensures Progress(blocks, table[i], blocks, table[i], table[i].size, xp, 0)
    ensures OthersKept(blocks, blocks, table, i)
  {
    hide Ref;
    hide Byte;
  }

  lemma ExactStep(blocks: Disk, n: Dinode, blocks': Disk, n': Dinode, o: nat, m: nat)
    requires 0 < m && o % BSIZE + m <= BSIZE && o + m <= MAXSIZE && ExactTo(blocks, n, o)
    requires Ref(blocks', n', o / BSIZE) != 0
    requires forall t :: 0 <= t < MAXFILE && t != o / BSIZE ==> Ref(blocks', n', t) == Ref(blocks, n, t)
    ensures ExactTo(blocks', n', o + m)
  {
    hide Ref;
    forall t | 0 <= t < MAXFILE && t != o / BSIZE ensures t * BSIZE < o + m <==> t * BSIZE < o {
    }
  }

  /** The loop of iappend done and the size set. */
  lemma AppendDone(sb: Super, owner: Owner, bits: seq<bool>, blocks: Disk, table: seq<Dinode>, i: nat,
                   blocks0: Disk, table0: seq<Dinode>, xp: seq<byte>)
    requires OwnedBy(sb, owner, bits, blocks, table) && i < |table| == |table0|
    requires AllExact(blocks0, table0)
    requires table == table0[i := table[i]] && table[i].size == table0[i].size && table0[i].size + |xp| <= MAXSIZE
    requires Progress(blocks0, table0[i], blocks, table[i], table0[i].size, xp, |xp|)
    requires ExactTo(blocks, table[i], table0[i].size + |xp|)
    requires OthersKept(blocks0, blocks, table0, i)
    ensures var n := table[i].(size := table0[i].size + |xp|);
            && OwnedBy(sb, owner, bits, blocks, table[i := n])
            && Content(blocks, n) == Content(blocks0, table0[i]) + xp
            && AllExact(blocks, table[i := n])
  {
    hide Ref;
    hide Byte;
    hide BitsExact;
    hide RefsOwned;
    hide OwnersRefer;
    var off := table0[i].size;
    var n := table[i].(size := off + |xp|);
    SizeOnly(sb, owner, bits, blocks, table, i, n);
    SpliceDone(blocks0, table0[i], blocks, n, off, xp);
    var table' := table[i := n];
    forall j | 0 <= j < |table| ensures ExactlyMapped(blocks, table'[j]) {
      if j != i {
        assert ExactlyMapped(blocks0, table0[j]);
      }
    }
  }
}
