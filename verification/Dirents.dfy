// struct dirent (fs.h): how the entries of a directory stand in its contents (fs.c).
module Dirents {
  import opened Common
  import opened Blocks
  import opened BlockMap
  import opened FileSystem
  import D = Directories
  import Links

  const INUMS: nat := 0x1_0000   // inode numbers of an entry are below this

  // ----- Writing -----

  /** strncpy of n bytes: s up to its NUL, cut or padded with zeroes. */
  function Strncpy(s: seq<byte>, n: nat): (r: seq<byte>)
    ensures |r| == n
    decreases n
  {
    if n == 0 then [] else if s == [] || s[0] == 0 then [0] + Strncpy([], n - 1) else [s[0]] + Strncpy(s[1..], n - 1)
  }

  /** The inode number in two bytes and the name. */
  function DirentBytes(inum: nat, name: seq<byte>): (e: seq<byte>)
    ensures |e| == DIRENT
  {
    [inum % 0x100, inum / 0x100 % 0x100] + Strncpy(name, DIRSIZ)
  }

  /** "." of inode i, and ".." that names p. */
  function Dots(i: nat, p: nat): seq<byte> {
    DirentBytes(i, [0x2E]) + DirentBytes(p, [0x2E, 0x2E])
  }

  /** An unused entry. */
  function NoEntry(): (e: seq<byte>)
    ensures |e| == DIRENT
  {
    seq(DIRENT, _ => 0)
  }

  // ----- Reading -----

  /** The name in the n bytes of c from i on: as far as a NUL. */
  function NameAt(c: seq<byte>, i: nat, n: nat): (s: string)
    requires i + n <= |c|
    ensures |s| <= n
    decreases n
  {
    if n == 0 || c[i] == 0 then "" else [c[i] as char] + NameAt(c, i + 1, n - 1)
  }

  function EntryAt(c: seq<byte>, k: nat): D.Dirent
    requires DIRENT * (k + 1) <= |c|
  {
    var i := DIRENT * k;
    var lo: nat, hi: nat := c[i], c[i + 1];
    D.Dirent(lo + 0x100 * hi, NameAt(c, i + 2, DIRSIZ))
  }

  /** The entries that dirlookup reads in a directory with contents c. */
  function Entries(c: seq<byte>): (ents: seq<D.Dirent>)
    ensures |ents| == |c| / DIRENT && forall k: nat :: k < |ents| ==> ents[k] == EntryAt(c, k)
  {
    seq(|c| / DIRENT, k requires 0 <= k < |c| / DIRENT => EntryAt(c, k))
  }

  /** The C string at the start of s. */
  function Text(s: seq<byte>): string {
    if s == [] || s[0] == 0 then "" else [s[0] as char] + Text(s[1..])
  }

  // ----- Reading what was written -----

  lemma {:induction false} NameWritten(c: seq<byte>, i: nat, s: seq<byte>, n: nat)
    requires i + n <= |c| && c[i..i + n] == Strncpy(s, n)
    ensures NameAt(c, i, n) == if |Text(s)| <= n then Text(s) else Text(s)[..n]
    decreases n
  {
    if n > 0 {
      assert c[i] == c[i..i + n][0];
      if s != [] && s[0] != 0 {
        assert c[i + 1..i + 1 + (n - 1)] == c[i..i + n][1..];
        NameWritten(c, i + 1, s[1..], n - 1);
      }
    }
  }

  lemma {:induction false} NameSame(c: seq<byte>, i: nat, d: seq<byte>, j: nat, n: nat)
    requires i + n <= |c| && j + n <= |d| && c[i..i + n] == d[j..j + n]
    ensures NameAt(c, i, n) == NameAt(d, j, n)
    decreases n
  {
    if n > 0 {
      assert c[i] == c[i..i + n][0] && d[j] == d[j..j + n][0];
      assert c[i + 1..i + 1 + (n - 1)] == c[i..i + n][1..] && d[j + 1..j + 1 + (n - 1)] == d[j..j + n][1..];
      NameSame(c, i + 1, d, j + 1, n - 1);
    }
  }

  lemma EntrySame(c: seq<byte>, d: seq<byte>, k: nat)
    requires DIRENT * (k + 1) <= |c| && DIRENT * (k + 1) <= |d|
    requires c[DIRENT * k..DIRENT * (k + 1)] == d[DIRENT * k..DIRENT * (k + 1)]
    ensures EntryAt(c, k) == EntryAt(d, k)
  {
    var i := DIRENT * k;
    var e := c[i..i + DIRENT];
    assert c[i] == e[0] == d[i] && c[i + 1] == e[1] == d[i + 1];
    assert c[i + 2..i + 2 + DIRSIZ] == e[2..] == d[i + 2..i + 2 + DIRSIZ];
    NameSame(c, i + 2, d, i + 2, DIRSIZ);
  }

  /** An entry reads as it was written, the number in sixteen bits and the name cut to DIRSIZ. */
  lemma EntryRead(c: seq<byte>, k: nat, inum: nat, name: seq<byte>)
    requires DIRENT * (k + 1) <= |c| && c[DIRENT * k..DIRENT * (k + 1)] == DirentBytes(inum, name)
    ensures EntryAt(c, k) == D.Dirent(inum % INUMS, Links.Clip(Text(name)))
  {
    var i := DIRENT * k;
    var e := c[i..i + DIRENT];
    assert c[i] == e[0] && c[i + 1] == e[1];
    assert c[i + 2..i + 2 + DIRSIZ] == e[2..] == Strncpy(name, DIRSIZ);
    NameWritten(c, i + 2, name, DIRSIZ);
    TwoBytes(inum);
  }

  lemma TwoBytes(inum: nat)
    ensures inum % 0x100 + 0x100 * (inum / 0x100 % 0x100) == inum % INUMS
  {
  }

  lemma EntryNone(c: seq<byte>, k: nat)
    requires DIRENT * (k + 1) <= |c| && c[DIRENT * k..DIRENT * (k + 1)] == NoEntry()
    ensures EntryAt(c, k) == D.Dirent(0, "")
  {
    var i := DIRENT * k;
    var e := c[i..i + DIRENT];
    assert c[i] == e[0] && c[i + 1] == e[1] && c[i + 2] == e[2];
  }

  /** An entry spliced in replaces one entry, or is added at the end, and no other is touched. */
  lemma EntriesSplice(c: seq<byte>, off: nat, e: seq<byte>)
    requires |e| == DIRENT && off % DIRENT == 0 && off <= |c|
    ensures var k, r := off / DIRENT, Splice(c, off, e);
      DIRENT * (k + 1) <= |r| && r[DIRENT * k..DIRENT * (k + 1)] == e && Entries(r) == D.Put(Entries(c), k, EntryAt(r, k))
  {
    var k, r := off / DIRENT, Splice(c, off, e);
    assert r[off..off + DIRENT] == e;
    var put := D.Put(Entries(c), k, EntryAt(r, k));
    forall j: nat | j < |Entries(r)|
      ensures j < |put| && Entries(r)[j] == put[j]
    {
      if j != k {
        assert DIRENT * (j + 1) <= |c|;
        assert r[DIRENT * j..DIRENT * (j + 1)] == c[DIRENT * j..DIRENT * (j + 1)];
        EntrySame(r, c, j);
      }
    }
  }

  /** dirlink's write puts one entry into the directory. */
  lemma EntriesPut(c: seq<byte>, off: nat, inum: nat, name: seq<byte>)
    requires off % DIRENT == 0 && off <= |c|
    ensures Entries(Splice(c, off, DirentBytes(inum, name))) ==
      D.Put(Entries(c), off / DIRENT, D.Dirent(inum % INUMS, Links.Clip(Text(name))))
  {
    EntriesSplice(c, off, DirentBytes(inum, name));
    EntryRead(Splice(c, off, DirentBytes(inum, name)), off / DIRENT, inum, name);
  }

  /** unlink's write makes one unused. */
  lemma EntriesClear(c: seq<byte>, off: nat)
    requires off % DIRENT == 0 && off <= |c|
    ensures Entries(Splice(c, off, NoEntry())) == D.Put(Entries(c), off / DIRENT, D.Dirent(0, ""))
  {
    EntriesSplice(c, off, NoEntry());
    EntryNone(Splice(c, off, NoEntry()), off / DIRENT);
  }

  /** A new directory has its dots and nothing else. */
  lemma DotsRead(i: nat, p: nat)
    ensures Entries(Dots(i, p)) == [D.Dirent(i % INUMS, "."), D.Dirent(p % INUMS, "..")]
  {
    var c, dot, up := Dots(i, p), [0x2E as byte], [0x2E as byte, 0x2E];
    assert c[DIRENT * 0..DIRENT * 1] == DirentBytes(i, dot) && c[DIRENT * 1..DIRENT * 2] == DirentBytes(p, up);
    EntryRead(c, 0, i, dot);
    EntryRead(c, 1, p, up);
    assert dot[1..] == [] && up[1..] == dot;
    assert Text(dot) == "." && Text(up) == "..";
  }

  // ----- The blocks an entry takes -----

  /** The file has exactly the blocks its size calls for. */
  ghost predicate Snug(blocks: Disk, n: Dinode) {
    && (forall bn :: 0 <= bn < MAXFILE ==> (Ref(blocks, n, bn) != 0 <==> bn * BSIZE < n.size))
    && (n.addrs[NDIRECT] != 0 <==> NDIRECT * BSIZE < n.size)
  }

  /** What bmap allocates for block bn: the block, and the indirect block if that is missing. */
  ghost function Allocated(blocks: Disk, n: Dinode, bn: nat): nat
    requires bn < MAXFILE
  {
    if Ref(blocks, n, bn) != 0 then 0 else if NDIRECT <= bn && n.addrs[NDIRECT] == 0 then 2 else 1
  }

  /** That is what create and link reckon with for entry k of a directory of len entries. */
  lemma NeedIs(blocks: Disk, n: Dinode, len: nat, k: nat)
    requires Snug(blocks, n) && n.size == DIRENT * len && k <= len && k < D.MAXENTS
    ensures DIRENT * k / BSIZE < MAXFILE && Links.Need(len, k) == Allocated(blocks, n, DIRENT * k / BSIZE)
  {
    hide Ref;
    var bn := DIRENT * k / BSIZE;
    assert bn == k / 32;
    assert bn * BSIZE < n.size <==> k < len || k % 32 != 0;
  }
}
