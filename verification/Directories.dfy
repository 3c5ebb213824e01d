// Directories and link counts (fs.c, sysfile.c): the tree of directory entries and what
// each inode's nlink must be.
module Directories {
  import opened Common

  const ROOTINO: nat := 1
  const MAXENTS: nat := 4480   // MAXFILE * BSIZE / sizeof(struct dirent)
  const MAXLINK: int := 32767  // nlink is a 16-bit signed field

  type Name = s: string | |s| <= DIRSIZ

  datatype Kind = Free | Dir | File | Dev

  datatype Dirent = Dirent(inum: nat, name: Name)

  type Short = n: int | -MAXLINK - 1 <= n <= MAXLINK

  datatype Node = Node(kind: Kind, nlink: Short, ents: seq<Dirent>)

  type Nodes = seq<Node>

  function Inc(n: Short): Short { if n == MAXLINK then -MAXLINK - 1 else n + 1 }

  function Dec(n: Short): Short { if n == -MAXLINK - 1 then MAXLINK else n - 1 }

  ghost predicate IsDir(ns: Nodes, d: nat) { d < |ns| && ns[d].kind == Dir }

  ghost predicate Linked(ns: Nodes, d: nat) { IsDir(ns, d) && ns[d].nlink > 0 }

  /** Entry k of directory d is in use. */
  ghost predicate Live(ns: Nodes, d: nat, k: nat) {
    IsDir(ns, d) && k < |ns[d].ents| && ns[d].ents[k].inum != 0
  }

  /** The entries that nlink of inode i counts. */
  ghost predicate Counted(ns: Nodes, d: nat, k: nat, i: nat) {
    Linked(ns, d) && Live(ns, d, k) && ns[d].ents[k].inum == i && ns[d].ents[k].name != "."
  }

  ghost function Refs(ns: Nodes, i: nat): set<(nat, nat)> {
    set d: nat, k: nat | d < |ns| && k < |ns[d].ents| && Counted(ns, d, k, i) :: (d, k)
  }

  // ----- The invariant -----

  /** The two first entries are "." and "..", and no other entry has those names. */
  ghost predicate DotsOf(ns: Nodes, d: nat)
    requires d < |ns|
  {
    && |ns[d].ents| >= 2
    && ns[d].ents[0] == Dirent(d, ".")
    && ns[d].ents[1].name == ".." && 0 < ns[d].ents[1].inum < |ns|
    && (forall k: nat :: 2 <= k < |ns[d].ents| && ns[d].ents[k].inum != 0 ==>
          ns[d].ents[k].name != "." && ns[d].ents[k].name != "..")
  }

  ghost predicate Dots(ns: Nodes) {
    && ROOTINO < |ns| && ns[0].kind == Free
    && (forall d: nat :: IsDir(ns, d) ==> DotsOf(ns, d))
  }

  ghost predicate UniqueIn(ents: seq<Dirent>) {
    forall j: nat, k: nat :: j < k < |ents| && ents[j].inum != 0 && ents[k].inum != 0 ==> ents[j].name != ents[k].name
  }

  ghost predicate Unique(ns: Nodes) {
    forall d: nat :: IsDir(ns, d) ==> UniqueIn(ns[d].ents)
  }

  ghost predicate EmptyDir(ents: seq<Dirent>) {
    forall k: nat :: 2 <= k < |ents| ==> ents[k].inum == 0
  }

  ghost predicate Removed(ns: Nodes) {
    forall d: nat :: IsDir(ns, d) && ns[d].nlink <= 0 ==> EmptyDir(ns[d].ents)
  }

  ghost predicate Targets(ns: Nodes) {
    forall d: nat, k: nat :: Linked(ns, d) && Live(ns, d, k) ==>
      ns[d].ents[k].inum < |ns| && ns[ns[d].ents[k].inum].kind != Free
  }

  ghost function Parent(ns: Nodes, d: nat): nat
    requires d < |ns|
  {
    if |ns[d].ents| >= 2 then ns[d].ents[1].inum else 0
  }

  /** Entry k of d, past the dots, names the directory c. */
  ghost predicate Child(ns: Nodes, d: nat, k: nat, c: nat) {
    Linked(ns, d) && Live(ns, d, k) && 2 <= k && ns[d].ents[k].inum == c && IsDir(ns, c)
  }

  ghost predicate HasParent(ns: Nodes, c: nat)
    requires c < |ns|
  {
    Linked(ns, Parent(ns, c)) && exists k: nat :: Child(ns, Parent(ns, c), k, c)
  }

  /** Linked directories form a tree: ".." names the one directory that names them. */
  ghost predicate Tree(ns: Nodes) {
    && Linked(ns, ROOTINO) && Parent(ns, ROOTINO) == ROOTINO
    && (forall d: nat, k: nat, c: nat :: Child(ns, d, k, c) ==> c != ROOTINO && Linked(ns, c) && Parent(ns, c) == d)
    && (forall d: nat, j: nat, k: nat, c: nat :: Child(ns, d, j, c) && Child(ns, d, k, c) ==> j == k)
    && (forall c: nat :: Linked(ns, c) && c != ROOTINO ==> HasParent(ns, c))
  }

  ghost predicate Ranked(ns: Nodes, depth: seq<nat>) {
    |depth| == |ns| && forall d: nat, k: nat, c: nat :: Child(ns, d, k, c) ==> depth[c] == depth[d] + 1
  }

  /** No directory is its own ancestor. */
  ghost predicate Acyclic(ns: Nodes) {
    exists depth: seq<nat> :: Ranked(ns, depth)
  }

  ghost predicate CountOf(ns: Nodes, i: nat)
    requires i < |ns|
  {
    ns[i].nlink == |Refs(ns, i)|
  }

  ghost predicate Counts(ns: Nodes) {
    forall i: nat :: i < |ns| && ns[i].kind != Free ==> CountOf(ns, i)
  }

  ghost predicate Inv(ns: Nodes) {
    Dots(ns) && Unique(ns) && Removed(ns) && Targets(ns) && Tree(ns) && Acyclic(ns) && Counts(ns)
  }

  lemma RefsSame(ns: Nodes, r: Nodes, i: nat)
    requires forall d: nat, k: nat :: Counted(r, d, k, i) <==> Counted(ns, d, k, i)
    ensures Refs(r, i) == Refs(ns, i)
  {
  }

  lemma RefsPlus(ns: Nodes, r: Nodes, i: nat, d0: nat, k0: nat)
    requires forall d: nat, k: nat :: Counted(r, d, k, i) <==> Counted(ns, d, k, i) || (d == d0 && k == k0)
    requires !Counted(ns, d0, k0, i)
    ensures |Refs(r, i)| == |Refs(ns, i)| + 1
  {
    assert Counted(r, d0, k0, i);
    assert Refs(r, i) == Refs(ns, i) + {(d0, k0)};
  }

  lemma AcyclicSame(ns: Nodes, r: Nodes)
    requires Acyclic(ns) && |r| == |ns|
    requires forall d: nat, k: nat, c: nat :: Child(r, d, k, c) ==> Child(ns, d, k, c)
    ensures Acyclic(r)
  {
    hide Child;
    var depth: seq<nat> :| Ranked(ns, depth);
    assert Ranked(r, depth);
  }

  // ----- State changes -----

  function Put(ents: seq<Dirent>, k: nat, e: Dirent): (r: seq<Dirent>)
    requires k <= |ents|
    ensures |r| == (if k < |ents| then |ents| else k + 1) && r[k] == e
    ensures forall j: nat :: j < |ents| && j != k ==> r[j] == ents[j]
  {
    if k < |ents| then ents[k := e] else ents + [e]
  }

  function SetEnt(ns: Nodes, d: nat, k: nat, e: Dirent): (r: Nodes)
    requires d < |ns| && k <= |ns[d].ents|
  {
    ns[d := ns[d].(ents := Put(ns[d].ents, k, e))]
  }

  function SetLinks(ns: Nodes, i: nat, n: Short): (r: Nodes)
    requires i < |ns|
  {
    ns[i := ns[i].(nlink := n)]
  }

  /** Slot k of a directory can take a new entry. */
  ghost predicate Vacant(ents: seq<Dirent>, k: nat) {
    2 <= k <= |ents| && (k < |ents| ==> ents[k].inum == 0)
  }

  ghost predicate HasName(ents: seq<Dirent>, name: Name) {
    exists k: nat :: k < |ents| && ents[k].inum != 0 && ents[k].name == name
  }

  /** A new entry for an inode that is not a directory. */
  function AddLink(ns: Nodes, ip: nat, dp: nat, k: nat, name: Name): Nodes
    requires ip < |ns| && dp < |ns| && ip != dp && k <= |ns[dp].ents|
  {
    SetEnt(SetLinks(ns, ip, Inc(ns[ip].nlink)), dp, k, Dirent(ip, name))
  }

  lemma LinkDots(ns: Nodes, ip: nat, dp: nat, k: nat, name: Name)
    requires Dots(ns) && Unique(ns) && IsDir(ns, dp) && ip < |ns| && !IsDir(ns, ip) && ip != 0
    requires Vacant(ns[dp].ents, k) && !HasName(ns[dp].ents, name)
    ensures Dots(AddLink(ns, ip, dp, k, name)) && Unique(AddLink(ns, ip, dp, k, name))
  {
    var r := AddLink(ns, ip, dp, k, name);
    assert DotsOf(ns, dp);
    assert name != "." by { assert ns[dp].ents[0].name == "."; }
    assert name != ".." by { assert ns[dp].ents[1].name == ".."; }
    forall d: nat | IsDir(r, d)
      ensures DotsOf(r, d) && UniqueIn(r[d].ents)
    {
      assert IsDir(ns, d) && DotsOf(ns, d) && UniqueIn(ns[d].ents);
    }
  }

  lemma LinkTargets(ns: Nodes, ip: nat, dp: nat, k: nat, name: Name)
    requires Removed(ns) && Targets(ns) && Linked(ns, dp) && ip < |ns| && !IsDir(ns, ip) && ns[ip].kind != Free
    requires Vacant(ns[dp].ents, k)
    ensures Removed(AddLink(ns, ip, dp, k, name)) && Targets(AddLink(ns, ip, dp, k, name))
  {
    var r := AddLink(ns, ip, dp, k, name);
    forall d: nat | IsDir(r, d) && r[d].nlink <= 0
      ensures EmptyDir(r[d].ents)
    {
      assert IsDir(ns, d);
    }
    forall d: nat, j: nat | Linked(r, d) && Live(r, d, j)
      ensures r[d].ents[j].inum < |r| && r[r[d].ents[j].inum].kind != Free
    {
      assert Linked(ns, d);
      if d != dp || j != k {
        assert Live(ns, d, j);
      }
    }
  }

  lemma LinkChild(ns: Nodes, ip: nat, dp: nat, k: nat, name: Name, d: nat, j: nat, c: nat)
    requires Linked(ns, dp) && ip < |ns| && !IsDir(ns, ip) && Vacant(ns[dp].ents, k)
    ensures Child(AddLink(ns, ip, dp, k, name), d, j, c) <==> Child(ns, d, j, c)
  {
  }

  lemma LinkTree(ns: Nodes, ip: nat, dp: nat, k: nat, name: Name)
    requires Dots(ns) && Tree(ns) && Linked(ns, dp) && ip < |ns| && !IsDir(ns, ip) && Vacant(ns[dp].ents, k)
    requires Acyclic(ns)
    ensures Tree(AddLink(ns, ip, dp, k, name)) && Acyclic(AddLink(ns, ip, dp, k, name))
  {
    hide Child;
    var r := AddLink(ns, ip, dp, k, name);
    forall d: nat, j: nat, c: nat
      ensures Child(r, d, j, c) <==> Child(ns, d, j, c)
    {
      LinkChild(ns, ip, dp, k, name, d, j, c);
    }
    AcyclicSame(ns, r);
    forall d: nat | IsDir(ns, d)
      ensures Parent(r, d) == Parent(ns, d) && (Linked(r, d) <==> Linked(ns, d))
    {
      assert DotsOf(ns, d);
    }
    forall c: nat | Linked(r, c) && c != ROOTINO
      ensures HasParent(r, c)
    {
      assert Linked(ns, c) && HasParent(ns, c);
      var j: nat :| Child(ns, Parent(ns, c), j, c);
      assert Child(r, Parent(r, c), j, c);
    }
  }

  lemma LinkCounted(ns: Nodes, ip: nat, dp: nat, k: nat, name: Name, d: nat, j: nat, i: nat)
    requires Linked(ns, dp) && ip < |ns| && !IsDir(ns, ip) && ip != 0
    requires Vacant(ns[dp].ents, k) && name != "."
    ensures Counted(AddLink(ns, ip, dp, k, name), d, j, i) <==>
      Counted(ns, d, j, i) || (d == dp && j == k && i == ip)
    ensures !Counted(ns, dp, k, i)
  {
  }

  lemma LinkCounts(ns: Nodes, ip: nat, dp: nat, k: nat, name: Name)
    requires Counts(ns) && Linked(ns, dp) && ip < |ns| && !IsDir(ns, ip) && ns[ip].kind != Free && ip != 0
    requires Vacant(ns[dp].ents, k) && name != "." && ns[ip].nlink < MAXLINK
    ensures Counts(AddLink(ns, ip, dp, k, name))
  {
    hide Counted;
    hide Refs;
    var r := AddLink(ns, ip, dp, k, name);
    forall i: nat | i < |r| && r[i].kind != Free
      ensures CountOf(r, i)
    {
      assert CountOf(ns, i);
      forall d: nat, j: nat
        ensures Counted(r, d, j, i) <==> Counted(ns, d, j, i) || (d == dp && j == k && i == ip)
      {
        LinkCounted(ns, ip, dp, k, name, d, j, i);
      }
      if i == ip {
        LinkCounted(ns, ip, dp, k, name, dp, k, i);
        RefsPlus(ns, r, i, dp, k);
      } else {
        RefsSame(ns, r, i);
      }
    }
  }

  lemma LinkInv(ns: Nodes, ip: nat, dp: nat, k: nat, name: Name)
    requires Inv(ns) && Linked(ns, dp) && ip < |ns| && !IsDir(ns, ip) && ns[ip].kind != Free
    requires Vacant(ns[dp].ents, k) && !HasName(ns[dp].ents, name) && ns[ip].nlink < MAXLINK
    ensures Inv(AddLink(ns, ip, dp, k, name))
  {
    hide Tree;
    hide Acyclic;
    hide Targets;
    hide Removed;
    hide Counts;
    hide Unique;
    LinkDots(ns, ip, dp, k, name);
    LinkTargets(ns, ip, dp, k, name);
    LinkTree(ns, ip, dp, k, name);
    assert name != "." by { assert DotsOf(ns, dp) && ns[dp].ents[0].name == "."; }
    LinkCounts(ns, ip, dp, k, name);
  }

  // ----- Removing a link to an inode that is not a directory -----

  const NOENT: Dirent := Dirent(0, "")

  function DropLink(ns: Nodes, ip: nat, dp: nat, k: nat): Nodes
    requires ip < |ns| && dp < |ns| && ip != dp && k <= |ns[dp].ents|
  {
    SetLinks(SetEnt(ns, dp, k, NOENT), ip, Dec(ns[ip].nlink))
  }

  /** Entry k of the linked directory dp, past the dots, names ip. */
  ghost predicate Names(ns: Nodes, dp: nat, k: nat, ip: nat) {
    Linked(ns, dp) && Live(ns, dp, k) && 2 <= k && ns[dp].ents[k].inum == ip
  }

  lemma DropDots(ns: Nodes, ip: nat, dp: nat, k: nat)
    requires Dots(ns) && Unique(ns) && Removed(ns) && Targets(ns) && Names(ns, dp, k, ip) && ip < |ns| && !IsDir(ns, ip)
    ensures var r := DropLink(ns, ip, dp, k); Dots(r) && Unique(r) && Removed(r) && Targets(r)
  {
    var r := DropLink(ns, ip, dp, k);
    forall d: nat | IsDir(r, d)
      ensures DotsOf(r, d) && UniqueIn(r[d].ents) && (r[d].nlink <= 0 ==> EmptyDir(r[d].ents))
    {
      assert IsDir(ns, d) && DotsOf(ns, d) && UniqueIn(ns[d].ents);
    }
    forall d: nat, j: nat | Linked(r, d) && Live(r, d, j)
      ensures r[d].ents[j].inum < |r| && r[r[d].ents[j].inum].kind != Free
    {
      assert Linked(ns, d) && Live(ns, d, j);
    }
  }

  lemma DropTree(ns: Nodes, ip: nat, dp: nat, k: nat)
    requires Dots(ns) && Tree(ns) && Names(ns, dp, k, ip) && ip < |ns| && !IsDir(ns, ip)
    requires Acyclic(ns)
    ensures Tree(DropLink(ns, ip, dp, k)) && Acyclic(DropLink(ns, ip, dp, k))
  {
    var r := DropLink(ns, ip, dp, k);
    forall d: nat, j: nat, c: nat
      ensures Child(r, d, j, c) <==> Child(ns, d, j, c)
    {
    }
    AcyclicSame(ns, r);
    forall d: nat | IsDir(ns, d)
      ensures Parent(r, d) == Parent(ns, d) && (Linked(r, d) <==> Linked(ns, d))
    {
      assert DotsOf(ns, d);
    }
    forall c: nat | Linked(r, c) && c != ROOTINO
      ensures HasParent(r, c)
    {
      assert Linked(ns, c) && HasParent(ns, c);
      var j: nat :| Child(ns, Parent(ns, c), j, c);
      assert Child(r, Parent(r, c), j, c);
    }
  }

  lemma DropCounted(ns: Nodes, ip: nat, dp: nat, k: nat, d: nat, j: nat, i: nat)
    requires Dots(ns) && Names(ns, dp, k, ip) && ip < |ns| && !IsDir(ns, ip)
    ensures Counted(ns, d, j, i) <==>
      Counted(DropLink(ns, ip, dp, k), d, j, i) || (d == dp && j == k && i == ip)
    ensures !Counted(DropLink(ns, ip, dp, k), dp, k, i)
  {
    assert DotsOf(ns, dp);
  }

  lemma DropCounts(ns: Nodes, ip: nat, dp: nat, k: nat)
    requires Dots(ns) && Counts(ns) && Names(ns, dp, k, ip) && ip < |ns| && !IsDir(ns, ip) && ns[ip].kind != Free
    ensures ns[ip].nlink >= 1 && Counts(DropLink(ns, ip, dp, k))
  {
    hide Counted;
    hide Refs;
    hide Dots;
    var r := DropLink(ns, ip, dp, k);
    DropCounted(ns, ip, dp, k, dp, k, ip);
    forall i: nat, d: nat, j: nat
      ensures Counted(ns, d, j, i) <==> Counted(r, d, j, i) || (d == dp && j == k && i == ip)
    {
      DropCounted(ns, ip, dp, k, d, j, i);
    }
    RefsPlus(r, ns, ip, dp, k);
    assert CountOf(ns, ip);
    forall i: nat | i < |r| && r[i].kind != Free
      ensures CountOf(r, i)
    {
      assert CountOf(ns, i);
      if i != ip {
        RefsSame(ns, r, i);
      }
    }
  }

  lemma DropInv(ns: Nodes, ip: nat, dp: nat, k: nat)
    requires Inv(ns) && Names(ns, dp, k, ip) && ip < |ns| && !IsDir(ns, ip)
    ensures ns[ip].nlink >= 1 && Inv(DropLink(ns, ip, dp, k))
  {
    hide Tree;
    hide Acyclic;
    hide Removed;
    hide Counts;
    hide Unique;
    hide Dots;
    assert ns[ip].kind != Free;
    DropDots(ns, ip, dp, k);
    DropTree(ns, ip, dp, k);
    DropCounts(ns, ip, dp, k);
  }

  // ----- Adding and removing a directory -----

  /** The directory ip, which has no link yet, becomes entry k of dp. */
  function AddDir(ns: Nodes, ip: nat, dp: nat, k: nat, name: Name): Nodes
    requires ip < |ns| && dp < |ns| && ip != dp && k <= |ns[dp].ents|
  {
    SetEnt(SetLinks(SetLinks(ns, ip, 1), dp, Inc(ns[dp].nlink)), dp, k, Dirent(ip, name))
  }

  function DropDir(ns: Nodes, ip: nat, dp: nat, k: nat): Nodes
    requires ip < |ns| && dp < |ns| && ip != dp && k <= |ns[dp].ents|
  {
    SetLinks(SetLinks(SetEnt(ns, dp, k, NOENT), dp, Dec(ns[dp].nlink)), ip, Dec(ns[ip].nlink))
  }

  /** ip is a directory with no links and no entries of its own whose ".." is dp. */
  ghost predicate Spare(ns: Nodes, ip: nat, dp: nat) {
    && IsDir(ns, ip) && ip != dp && ns[ip].nlink == 0 && EmptyDir(ns[ip].ents) && Parent(ns, ip) == dp
  }

  lemma AddDirDots(ns: Nodes, ip: nat, dp: nat, k: nat, name: Name)
    requires Dots(ns) && Unique(ns) && Removed(ns) && Targets(ns) && Spare(ns, ip, dp) && Linked(ns, dp)
    requires Vacant(ns[dp].ents, k) && !HasName(ns[dp].ents, name) && ns[dp].nlink < MAXLINK
    ensures var r := AddDir(ns, ip, dp, k, name); Dots(r) && Unique(r) && Removed(r) && Targets(r)
  {
    var r := AddDir(ns, ip, dp, k, name);
    assert DotsOf(ns, dp) && DotsOf(ns, ip);
    assert name != "." by { assert ns[dp].ents[0].name == "."; }
    assert name != ".." by { assert ns[dp].ents[1].name == ".."; }
    forall d: nat | IsDir(r, d)
      ensures DotsOf(r, d) && UniqueIn(r[d].ents) && (r[d].nlink <= 0 ==> EmptyDir(r[d].ents))
    {
      assert IsDir(ns, d) && DotsOf(ns, d) && UniqueIn(ns[d].ents);
    }
    forall d: nat, j: nat | Linked(r, d) && Live(r, d, j)
      ensures r[d].ents[j].inum < |r| && r[r[d].ents[j].inum].kind != Free
    {
      if d != ip {
        assert Linked(ns, d);
        if d != dp || j != k {
          assert Live(ns, d, j);
        }
      }
    }
  }

  lemma AddDirChild(ns: Nodes, ip: nat, dp: nat, k: nat, name: Name, d: nat, j: nat, c: nat)
    requires Dots(ns) && Spare(ns, ip, dp) && Linked(ns, dp) && Vacant(ns[dp].ents, k) && ns[dp].nlink < MAXLINK
    ensures Child(AddDir(ns, ip, dp, k, name), d, j, c) <==> Child(ns, d, j, c) || (d == dp && j == k && c == ip)
  {
    assert DotsOf(ns, ip);
  }

  /** No linked directory has an entry, past the dots, for a directory without links. */
  lemma NotChild(ns: Nodes, ip: nat, dp: nat, d: nat, j: nat)
    requires Tree(ns) && Spare(ns, ip, dp)
    ensures !Child(ns, d, j, ip)
  {
  }

  lemma AddDirTree(ns: Nodes, ip: nat, dp: nat, k: nat, name: Name)
    requires Dots(ns) && Tree(ns) && Spare(ns, ip, dp) && Linked(ns, dp)
    requires Vacant(ns[dp].ents, k) && ns[dp].nlink < MAXLINK
    ensures Tree(AddDir(ns, ip, dp, k, name))
  {
    hide Child;
    var r := AddDir(ns, ip, dp, k, name);
    forall d: nat, j: nat, c: nat
      ensures Child(r, d, j, c) <==> Child(ns, d, j, c) || (d == dp && j == k && c == ip)
      ensures !Child(ns, d, j, ip)
    {
      AddDirChild(ns, ip, dp, k, name, d, j, c);
      NotChild(ns, ip, dp, d, j);
    }
    forall d: nat | IsDir(ns, d)
      ensures Parent(r, d) == Parent(ns, d) && (Linked(r, d) <==> Linked(ns, d) || d == ip)
    {
      assert DotsOf(ns, d);
    }
    forall c: nat | Linked(r, c) && c != ROOTINO
      ensures HasParent(r, c)
    {
      if c == ip {
        assert Child(r, Parent(r, c), k, c);
      } else {
        assert Linked(ns, c) && HasParent(ns, c);
        var j: nat :| Child(ns, Parent(ns, c), j, c);
        assert Child(r, Parent(r, c), j, c);
      }
    }
  }

  lemma AddDirAcyclic(ns: Nodes, ip: nat, dp: nat, k: nat, name: Name)
    requires Dots(ns) && Tree(ns) && Acyclic(ns) && Spare(ns, ip, dp) && Linked(ns, dp)
    requires Vacant(ns[dp].ents, k) && ns[dp].nlink < MAXLINK
    ensures Acyclic(AddDir(ns, ip, dp, k, name))
  {
    hide Tree;
    hide Dots;
    var r := AddDir(ns, ip, dp, k, name);
    var depth: seq<nat> :| Ranked(ns, depth);
    var more := depth[ip := depth[dp] + 1];
    forall d: nat, j: nat, c: nat | Child(r, d, j, c)
      ensures more[c] == more[d] + 1
    {
      AddDirChild(ns, ip, dp, k, name, d, j, c);
      NotChild(ns, ip, dp, d, j);
    }
    assert Ranked(r, more);
  }

  lemma AddDirCounted(ns: Nodes, ip: nat, dp: nat, k: nat, name: Name, d: nat, j: nat, i: nat)
    requires Dots(ns) && Spare(ns, ip, dp) && Linked(ns, dp) && Vacant(ns[dp].ents, k) && ns[dp].nlink < MAXLINK && name != "."
    ensures Counted(AddDir(ns, ip, dp, k, name), d, j, i) <==>
      Counted(ns, d, j, i) || (d == dp && j == k && i == ip) || (d == ip && j == 1 && i == dp)
    ensures !Counted(ns, dp, k, i) && !Counted(ns, ip, 1, i)
  {
    assert DotsOf(ns, ip);
  }

  lemma AddDirCounts(ns: Nodes, ip: nat, dp: nat, k: nat, name: Name)
    requires Dots(ns) && Counts(ns) && Spare(ns, ip, dp) && Linked(ns, dp)
    requires Vacant(ns[dp].ents, k) && ns[dp].nlink < MAXLINK && name != "."
    ensures Counts(AddDir(ns, ip, dp, k, name))
  {
    hide Counted;
    hide Refs;
    hide Dots;
    var r := AddDir(ns, ip, dp, k, name);
    forall i: nat, d: nat, j: nat
      ensures Counted(r, d, j, i) <==>
        Counted(ns, d, j, i) || (d == dp && j == k && i == ip) || (d == ip && j == 1 && i == dp)
      ensures !Counted(ns, dp, k, i) && !Counted(ns, ip, 1, i)
    {
      AddDirCounted(ns, ip, dp, k, name, d, j, i);
    }
    AddDirCounted(ns, ip, dp, k, name, 0, 0, ip);
    AddDirCounted(ns, ip, dp, k, name, 0, 0, dp);
    RefsPlus(ns, r, ip, dp, k);
    RefsPlus(ns, r, dp, ip, 1);
    forall i: nat | i < |r| && r[i].kind != Free
      ensures CountOf(r, i)
    {
      assert CountOf(ns, i);
      if i != ip && i != dp {
        RefsSame(ns, r, i);
      }
    }
  }

  lemma AddDirInv(ns: Nodes, ip: nat, dp: nat, k: nat, name: Name)
    requires Inv(ns) && Spare(ns, ip, dp) && Linked(ns, dp)
    requires Vacant(ns[dp].ents, k) && !HasName(ns[dp].ents, name) && ns[dp].nlink < MAXLINK
    ensures Inv(AddDir(ns, ip, dp, k, name))
  {
    hide Tree;
    hide Acyclic;
    hide Targets;
    hide Removed;
    hide Counts;
    hide Unique;
    AddDirDots(ns, ip, dp, k, name);
    AddDirTree(ns, ip, dp, k, name);
    AddDirAcyclic(ns, ip, dp, k, name);
    assert name != "." by { assert DotsOf(ns, dp) && ns[dp].ents[0].name == "."; }
    AddDirCounts(ns, ip, dp, k, name);
  }

  lemma NoSubdir(ns: Nodes, ip: nat, d: nat)
    requires Tree(ns) && IsDir(ns, ip) && EmptyDir(ns[ip].ents) && ip != ROOTINO && Linked(ns, d)
    ensures Parent(ns, d) != ip
  {
    assert d != ROOTINO ==> HasParent(ns, d);
  }

  /** An empty directory is named once, so it has one link. */
  lemma EmptyOnce(ns: Nodes, ip: nat, dp: nat, k: nat, d: nat, j: nat)
    requires Dots(ns) && Tree(ns) && Names(ns, dp, k, ip) && IsDir(ns, ip) && EmptyDir(ns[ip].ents)
    ensures Counted(ns, d, j, ip) <==> d == dp && j == k
    ensures Parent(ns, ip) == dp && ip != dp && ip != ROOTINO
  {
    hide HasParent;
    hide EmptyDir;
    assert Child(ns, dp, k, ip) && DotsOf(ns, dp);
    EmptyNotSelf(ns, ip, dp, k);
    if Counted(ns, d, j, ip) {
      assert DotsOf(ns, d);
      NoSubdir(ns, ip, d);
      assert 2 <= j && Child(ns, d, j, ip);
    }
  }

  lemma EmptyNotSelf(ns: Nodes, ip: nat, dp: nat, k: nat)
    requires Names(ns, dp, k, ip) && IsDir(ns, ip) && EmptyDir(ns[ip].ents)
    ensures ip != dp
  {
  }

  lemma DropDirDots(ns: Nodes, ip: nat, dp: nat, k: nat)
    requires Dots(ns) && Unique(ns) && Removed(ns) && Targets(ns) && Names(ns, dp, k, ip)
    requires IsDir(ns, ip) && EmptyDir(ns[ip].ents) && ip != dp && ns[ip].nlink == 1 && ns[dp].nlink >= 2
    ensures var r := DropDir(ns, ip, dp, k); Dots(r) && Unique(r) && Removed(r) && Targets(r)
  {
    var r := DropDir(ns, ip, dp, k);
    forall d: nat | IsDir(r, d)
      ensures DotsOf(r, d) && UniqueIn(r[d].ents) && (r[d].nlink <= 0 ==> EmptyDir(r[d].ents))
    {
      assert IsDir(ns, d) && DotsOf(ns, d) && UniqueIn(ns[d].ents);
    }
    forall d: nat, j: nat | Linked(r, d) && Live(r, d, j)
      ensures r[d].ents[j].inum < |r| && r[r[d].ents[j].inum].kind != Free
    {
      assert Linked(ns, d) && Live(ns, d, j);
    }
  }

  lemma DropDirChild(ns: Nodes, ip: nat, dp: nat, k: nat, d: nat, j: nat, c: nat)
    requires Dots(ns) && Names(ns, dp, k, ip)
    requires IsDir(ns, ip) && EmptyDir(ns[ip].ents) && ip != dp && ns[ip].nlink == 1 && ns[dp].nlink >= 2
    ensures Child(ns, d, j, c) <==> Child(DropDir(ns, ip, dp, k), d, j, c) || (d == dp && j == k && c == ip)
  {
  }

  lemma DropDirTree(ns: Nodes, ip: nat, dp: nat, k: nat)
    requires Dots(ns) && Tree(ns) && Names(ns, dp, k, ip) && ip != ROOTINO
    requires IsDir(ns, ip) && EmptyDir(ns[ip].ents) && ip != dp && ns[ip].nlink == 1 && ns[dp].nlink >= 2
    requires Acyclic(ns)
    ensures Tree(DropDir(ns, ip, dp, k)) && Acyclic(DropDir(ns, ip, dp, k))
  {
    hide Child;
    var r := DropDir(ns, ip, dp, k);
    DropDirChild(ns, ip, dp, k, dp, k, ip);
    forall d: nat, j: nat, c: nat
      ensures Child(ns, d, j, c) <==> Child(r, d, j, c) || (d == dp && j == k && c == ip)
    {
      DropDirChild(ns, ip, dp, k, d, j, c);
    }
    AcyclicSame(ns, r);
    forall d: nat | IsDir(ns, d)
      ensures Parent(r, d) == Parent(ns, d) && (Linked(r, d) <==> Linked(ns, d) && d != ip)
    {
      assert DotsOf(ns, d);
    }
    forall d: nat, j: nat
      ensures !Child(r, d, j, ip)
    {
      DropGone(ns, ip, dp, k, d, j);
    }
    forall c: nat | Linked(r, c) && c != ROOTINO
      ensures HasParent(r, c)
    {
      assert Linked(ns, c) && HasParent(ns, c);
      var j: nat :| Child(ns, Parent(ns, c), j, c);
      DropParent(ns, ip, Parent(ns, c), j, c);
      assert Child(r, Parent(r, c), j, c);
    }
  }

  /** A directory with children is not empty. */
  lemma DropParent(ns: Nodes, ip: nat, p: nat, j: nat, c: nat)
    requires IsDir(ns, ip) && EmptyDir(ns[ip].ents) && Child(ns, p, j, c)
    ensures p != ip
  {
  }

  lemma DropGone(ns: Nodes, ip: nat, dp: nat, k: nat, d: nat, j: nat)
    requires Dots(ns) && Tree(ns) && Names(ns, dp, k, ip)
    requires IsDir(ns, ip) && EmptyDir(ns[ip].ents) && ip != dp && ns[ip].nlink == 1 && ns[dp].nlink >= 2
    ensures !Child(DropDir(ns, ip, dp, k), d, j, ip)
  {
    var r := DropDir(ns, ip, dp, k);
    assert Child(ns, dp, k, ip);
    if Child(r, d, j, ip) {
      assert Child(ns, d, j, ip);
    }
  }

  lemma DropDirCounted(ns: Nodes, ip: nat, dp: nat, k: nat, d: nat, j: nat, i: nat)
    requires Dots(ns) && Names(ns, dp, k, ip) && IsDir(ns, ip) && Parent(ns, ip) == dp
    requires EmptyDir(ns[ip].ents) && ip != dp && ns[ip].nlink == 1 && ns[dp].nlink >= 2
    ensures Counted(ns, d, j, i) <==>
      Counted(DropDir(ns, ip, dp, k), d, j, i) || (d == dp && j == k && i == ip) || (d == ip && j == 1 && i == dp)
    ensures !Counted(DropDir(ns, ip, dp, k), dp, k, i) && !Counted(DropDir(ns, ip, dp, k), ip, 1, i)
  {
    assert DotsOf(ns, ip) && DotsOf(ns, dp);
  }

  lemma DropDirCounts(ns: Nodes, ip: nat, dp: nat, k: nat)
    requires Dots(ns) && Counts(ns) && Names(ns, dp, k, ip) && IsDir(ns, ip) && Parent(ns, ip) == dp
    requires EmptyDir(ns[ip].ents) && ip != dp && ns[ip].nlink == 1 && ns[dp].nlink >= 2
    ensures Counts(DropDir(ns, ip, dp, k))
  {
    hide Counted;
    hide Refs;
    hide Dots;
    var r := DropDir(ns, ip, dp, k);
    forall i: nat, d: nat, j: nat
      ensures Counted(ns, d, j, i) <==>
        Counted(r, d, j, i) || (d == dp && j == k && i == ip) || (d == ip && j == 1 && i == dp)
    {
      DropDirCounted(ns, ip, dp, k, d, j, i);
    }
    DropDirCounted(ns, ip, dp, k, 0, 0, ip);
    DropDirCounted(ns, ip, dp, k, 0, 0, dp);
    RefsPlus(r, ns, ip, dp, k);
    RefsPlus(r, ns, dp, ip, 1);
    forall i: nat | i < |r| && r[i].kind != Free
      ensures CountOf(r, i)
    {
      assert CountOf(ns, i);
      if i != ip && i != dp {
        RefsSame(ns, r, i);
      }
    }
  }

  /** The links an empty directory and its parent have before it is removed. */
  lemma DropDirLinks(ns: Nodes, ip: nat, dp: nat, k: nat)
    requires Inv(ns) && Names(ns, dp, k, ip) && IsDir(ns, ip) && EmptyDir(ns[ip].ents)
    ensures ip != ROOTINO && ip != dp && Parent(ns, ip) == dp && ns[ip].nlink == 1 && ns[dp].nlink >= 2
  {
    hide Refs;
    assert Child(ns, dp, k, ip) && Linked(ns, ip);
    assert DotsOf(ns, ip) && DotsOf(ns, dp);
    EmptyOnce(ns, ip, dp, k, dp, k);
    OneRef(ns, ip, dp, k);
    assert CountOf(ns, ip) && CountOf(ns, dp);
    if dp == ROOTINO {
      assert Counted(ns, dp, 1, dp) && Counted(ns, ip, 1, dp);
      TwoRefs(ns, dp, dp, 1, ip, 1);
    } else {
      assert HasParent(ns, dp);
      var m: nat :| Child(ns, Parent(ns, dp), m, dp);
      assert DotsOf(ns, Parent(ns, dp));
      assert Counted(ns, Parent(ns, dp), m, dp) && Counted(ns, ip, 1, dp);
      TwoRefs(ns, dp, Parent(ns, dp), m, ip, 1);
    }
  }

  lemma OneRef(ns: Nodes, ip: nat, dp: nat, k: nat)
    requires Dots(ns) && Tree(ns) && Names(ns, dp, k, ip) && IsDir(ns, ip) && EmptyDir(ns[ip].ents)
    ensures |Refs(ns, ip)| == 1
  {
    forall d: nat, j: nat
      ensures Counted(ns, d, j, ip) <==> d == dp && j == k
    {
      EmptyOnce(ns, ip, dp, k, d, j);
    }
    RefsOne(ns, ip, dp, k);
  }

  lemma RefsOne(ns: Nodes, i: nat, d0: nat, k0: nat)
    requires forall d: nat, j: nat :: Counted(ns, d, j, i) <==> d == d0 && j == k0
    ensures |Refs(ns, i)| == 1
  {
    assert Counted(ns, d0, k0, i);
    assert Refs(ns, i) == {(d0, k0)};
  }

  lemma TwoRefs(ns: Nodes, i: nat, d: nat, k: nat, e: nat, m: nat)
    requires Counted(ns, d, k, i) && Counted(ns, e, m, i) && (d, k) != (e, m)
    ensures |Refs(ns, i)| >= 2
  {
    var two := {(d, k), (e, m)};
    assert two <= Refs(ns, i);
    SubsetSize(two, Refs(ns, i));
  }

  lemma DropDirInv(ns: Nodes, ip: nat, dp: nat, k: nat)
    requires Inv(ns) && Names(ns, dp, k, ip) && IsDir(ns, ip) && EmptyDir(ns[ip].ents)
    ensures ip != dp && ns[ip].nlink == 1 && Inv(DropDir(ns, ip, dp, k))
  {
    hide Tree;
    hide Acyclic;
    hide Targets;
    hide Removed;
    hide Counts;
    hide Unique;
    hide Dots;
    DropDirLinks(ns, ip, dp, k);
    DropDirDots(ns, ip, dp, k);
    DropDirTree(ns, ip, dp, k);
    DropDirCounts(ns, ip, dp, k);
  }

  // ----- Allocating and freeing inodes -----

  lemma Unnamed(ns: Nodes, i: nat, d: nat, k: nat)
    requires Inv(ns) && i < |ns| && (ns[i].kind == Free || ns[i].nlink == 0)
    ensures !Counted(ns, d, k, i)
  {
    assert ns[i].kind != Free ==> CountOf(ns, i);
    assert Counted(ns, d, k, i) ==> (d, k) in Refs(ns, i);
  }

  /** A new inode: no links; a directory already has its dots. */
  ghost predicate NewNode(ns: Nodes, i: nat, n: Node) {
    && n.kind != Free && n.nlink == 0
    && (n.kind == Dir ==> exists p: nat :: 0 < p < |ns| && n.ents == [Dirent(i, "."), Dirent(p, "..")])
  }

  lemma SwapDots(ns: Nodes, i: nat, n: Node)
    requires Inv(ns) && 0 < i < |ns| && !Linked(ns, i) && (NewNode(ns, i, n) || n.kind == Free)
    requires ns[i].kind == Free || ns[i].nlink == 0
    ensures var r := ns[i := n]; Dots(r) && Unique(r) && Removed(r) && Targets(r)
  {
    hide Counts;
    var r := ns[i := n];
    forall d: nat | IsDir(r, d)
      ensures DotsOf(r, d) && UniqueIn(r[d].ents) && (r[d].nlink <= 0 ==> EmptyDir(r[d].ents))
    {
      if d != i {
        assert IsDir(ns, d) && DotsOf(ns, d) && UniqueIn(ns[d].ents);
      }
    }
    forall d: nat, j: nat | Linked(r, d) && Live(r, d, j)
      ensures r[d].ents[j].inum < |r| && r[r[d].ents[j].inum].kind != Free
    {
      assert d != i && Linked(ns, d) && Live(ns, d, j) && DotsOf(ns, d);
      Unnamed(ns, i, d, j);
    }
  }

  lemma SwapTree(ns: Nodes, i: nat, n: Node)
    requires Inv(ns) && 0 < i < |ns| && !Linked(ns, i) && (NewNode(ns, i, n) || n.kind == Free)
    requires ns[i].kind == Free || ns[i].nlink == 0
    ensures Tree(ns[i := n]) && Acyclic(ns[i := n])
  {
    hide Counts;
    hide Targets;
    var r := ns[i := n];
    forall d: nat, j: nat, c: nat
      ensures Child(r, d, j, c) <==> Child(ns, d, j, c)
    {
      if c == i && (Child(r, d, j, c) || Child(ns, d, j, c)) {
        assert DotsOf(ns, d);
        Unnamed(ns, i, d, j);
      }
    }
    AcyclicSame(ns, r);
    forall c: nat | Linked(r, c) && c != ROOTINO
      ensures HasParent(r, c)
    {
      assert Linked(ns, c) && HasParent(ns, c);
      var j: nat :| Child(ns, Parent(ns, c), j, c);
      assert Child(r, Parent(r, c), j, c);
    }
  }

  lemma SwapInv(ns: Nodes, i: nat, n: Node)
    requires Inv(ns) && 0 < i < |ns| && (ns[i].kind == Free || ns[i].nlink == 0)
    requires NewNode(ns, i, n) || n.kind == Free
    ensures Inv(ns[i := n])
  {
    hide Refs;
    hide Counts;
    SwapDots(ns, i, n);
    SwapTree(ns, i, n);
    SwapCounts(ns, i, n);
  }

  lemma SwapCounts(ns: Nodes, i: nat, n: Node)
    requires Inv(ns) && 0 < i < |ns| && (ns[i].kind == Free || ns[i].nlink == 0)
    requires NewNode(ns, i, n) || n.kind == Free
    ensures Counts(ns[i := n])
  {
    hide Refs;
    hide Acyclic;
    hide Tree;
    hide Unique;
    var r := ns[i := n];
    assert !Linked(ns, i) && !Linked(r, i);
    forall m: nat, d: nat, k: nat
      ensures Counted(r, d, k, m) <==> Counted(ns, d, k, m)
    {
    }
    forall m: nat | m < |r| && r[m].kind != Free
      ensures CountOf(r, m)
    {
      RefsSame(ns, r, m);
      if m == i {
        forall d: nat, k: nat
          ensures !Counted(ns, d, k, i)
        {
          Unnamed(ns, i, d, k);
        }
        RefsNone(ns, i);
      } else {
        assert CountOf(ns, m);
      }
    }
  }

  lemma RefsNone(ns: Nodes, i: nat)
    requires forall d: nat, k: nat :: !Counted(ns, d, k, i)
    ensures Refs(ns, i) == {}
  {
  }
}
