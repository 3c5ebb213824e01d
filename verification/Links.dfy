// Path names, and the calls that change directories (fs.c, sysfile.c): create, link, unlink.
module Links {
  import opened Common
  import opened Directories

  // ----- Path elements -----

  function Slashes(p: string, i: nat): (j: nat)
    requires i <= |p|
    ensures i <= j <= |p| && (j < |p| ==> p[j] != '/')
    ensures i < |p| && p[i] != '/' ==> j == i
    decreases |p| - i
  {
    if i < |p| && p[i] == '/' then Slashes(p, i + 1) else i
  }

  function ElemEnd(p: string, i: nat): (j: nat)
    requires i <= |p|
    ensures i <= j <= |p| && (j < |p| ==> p[j] == '/')
    ensures i < |p| && p[i] != '/' ==> i < j
    decreases |p| - i
  {
    if i < |p| && p[i] != '/' then ElemEnd(p, i + 1) else i
  }

  /** As much of s as a directory entry holds. */
  function Clip(s: string): (r: Name)
    ensures r <= s && (r == s || |r| == DIRSIZ)
  {
    if |s| <= DIRSIZ then s else s[..DIRSIZ]
  }

  function Elems(p: string, i: nat): seq<Name>
    requires i <= |p|
    decreases |p| - i
  {
    var j := Slashes(p, i);
    if j == |p| then [] else [Clip(p[j..ElemEnd(p, j)])] + Elems(p, ElemEnd(p, j))
  }

  lemma ElemsSlashes(p: string, i: nat)
    requires i <= |p|
    ensures Elems(p, Slashes(p, i)) == Elems(p, i)
    ensures Slashes(p, i) == |p| <==> Elems(p, i) == []
  {
  }

  lemma ElemsFrom(p: string, j: nat)
    requires j < |p| && p[j] != '/'
    ensures Elems(p, j) == [Clip(p[j..ElemEnd(p, j)])] + Elems(p, ElemEnd(p, j))
  {
  }

  /** Between two paths a slash joins their elements. */
  lemma {:induction false} ElemsJoin(p: string, q: string, i: nat)
    requires i <= |p|
    ensures Elems(p + "/" + q, i) == Elems(p, i) + Elems(q, 0)
    decreases |p| - i
  {
    hide Elems;
    var all := p + "/" + q;
    var j := Slashes(p, i);
    SlashesJoin(p, q, i);
    ElemsSlashes(all, i);
    ElemsSlashes(p, i);
    if j == |p| {
      ElemsSlashes(all, |p| + 1);
      ElemsAfter(p + "/", q, 0);
      assert [] + Elems(q, 0) == Elems(q, 0);
    } else {
      var e := ElemEnd(p, j);
      ElemEndJoin(p, q, j);
      assert all[j..e] == p[j..e];
      ElemsJoin(p, q, e);
      ElemsFrom(p, j);
      ElemsFrom(all, j);
      assert [Clip(p[j..e])] + (Elems(p, e) + Elems(q, 0)) == [Clip(p[j..e])] + Elems(p, e) + Elems(q, 0);
    }
  }

  /** What comes before does not matter. */
  lemma {:induction false} ElemsAfter(a: string, q: string, i: nat)
    requires i <= |q|
    ensures Elems(a + q, |a| + i) == Elems(q, i)
    decreases |q| - i
  {
    var j := Slashes(q, i);
    SlashesAfter(a, q, i);
    if j < |q| {
      var e := ElemEnd(q, j);
      ElemEndAfter(a, q, j);
      assert (a + q)[|a| + j..|a| + e] == q[j..e];
      ElemsAfter(a, q, e);
    }
  }

  lemma {:induction false} SlashesAfter(a: string, q: string, i: nat)
    requires i <= |q|
    ensures Slashes(a + q, |a| + i) == |a| + Slashes(q, i)
    decreases |q| - i
  {
    if i < |q| && q[i] == '/' {
      SlashesAfter(a, q, i + 1);
    }
  }

  lemma {:induction false} ElemEndAfter(a: string, q: string, i: nat)
    requires i <= |q|
    ensures ElemEnd(a + q, |a| + i) == |a| + ElemEnd(q, i)
    decreases |q| - i
  {
    if i < |q| && q[i] != '/' {
      ElemEndAfter(a, q, i + 1);
    }
  }

  lemma {:induction false} SlashesJoin(p: string, q: string, i: nat)
    requires i <= |p|
    ensures var all := p + "/" + q;
      Slashes(all, i) == if Slashes(p, i) == |p| then Slashes(all, |p| + 1) else Slashes(p, i)
    decreases |p| - i
  {
    if i < |p| && p[i] == '/' {
      SlashesJoin(p, q, i + 1);
    }
  }

  lemma {:induction false} ElemEndJoin(p: string, q: string, i: nat)
    requires i <= |p|
    ensures ElemEnd(p + "/" + q, i) == ElemEnd(p, i)
    decreases |p| - i
  {
    if i < |p| && p[i] != '/' {
      ElemEndJoin(p, q, i + 1);
    }
  }

  /** A name without slashes is one element. */
  lemma ElemsOne(e: string)
    requires e != "" && forall k :: 0 <= k < |e| ==> e[k] != '/'
    ensures Elems(e, 0) == [Clip(e)]
  {
    ElemEndAll(e, 0);
    assert e[0..|e|] == e && Elems(e, |e|) == [];
  }

  lemma {:induction false} ElemEndAll(p: string, i: nat)
    requires i <= |p| && forall k :: i <= k < |p| ==> p[k] != '/'
    ensures ElemEnd(p, i) == |p|
    decreases |p| - i
  {
    if i < |p| {
      ElemEndAll(p, i + 1);
    }
  }

  /** skipelem from position i: the element and the position after it and its slashes. */
  method Skipelem(p: string, i: nat) returns (r: Option<(Name, nat)>)
    requires i <= |p|
    ensures Elems(p, i) == [] ==> r.None?
    ensures Elems(p, i) != [] ==>
      && r.Some? && i < r.value.1 <= |p| && r.value.0 == Elems(p, i)[0]
      && Elems(p, r.value.1) == Elems(p, i)[1..]
      && (r.value.1 == |p| <==> Elems(p, i)[1..] == [])
  {
    var path := i;
    while path < |p| && p[path] == '/'
      invariant i <= path <= |p| && Slashes(p, path) == Slashes(p, i)
    {
      path := path + 1;
    }
    if path == |p| {
      return None;
    }
    var s := path;
    while path < |p| && p[path] != '/'
      invariant s <= path <= |p| && ElemEnd(p, path) == ElemEnd(p, s)
    {
      path := path + 1;
    }
    var name := if path - s >= DIRSIZ then p[s..s + DIRSIZ] else p[s..path];
    assert name == Clip(p[s..path]);
    ghost var e := path;
    while path < |p| && p[path] == '/'
      invariant e <= path <= |p| && Slashes(p, path) == Slashes(p, e)
    {
      path := path + 1;
    }
    ElemsSlashes(p, e);
    return Some((name, path));
  }

  // ----- Lookup and path resolution -----

  function Lookup(ents: seq<Dirent>, name: Name, k: nat := 0): (r: Option<nat>)
    requires k <= |ents|
    ensures r.Some? ==> k <= r.value < |ents| && ents[r.value].inum != 0 && ents[r.value].name == name
    ensures r.Some? ==> forall j: nat :: k <= j < r.value && ents[j].inum != 0 ==> ents[j].name != name
    ensures r.None? ==> forall j: nat :: k <= j < |ents| && ents[j].inum != 0 ==> ents[j].name != name
    decreases |ents| - k
  {
    if k == |ents| then None
    else if ents[k].inum != 0 && ents[k].name == name then Some(k)
    else Lookup(ents, name, k + 1)
  }

  /** Panics is ilock meeting a free inode. */
  datatype Place = Missing | Panics | At(inum: nat)

  function Step(ns: Nodes, d: nat, name: Name): Place {
    if d >= |ns| || ns[d].kind == Free then Panics
    else if ns[d].kind != Dir then Missing
    else
      var k := Lookup(ns[d].ents, name);
      if k.None? then Missing else At(ns[d].ents[k.value].inum)
  }

  function Resolve(ns: Nodes, d: nat, es: seq<Name>): Place
    decreases |es|
  {
    if es == [] then At(d)
    else
      var n := Step(ns, d, es[0]);
      if n.At? then Resolve(ns, n.inum, es[1..]) else n
  }

  /** The directory that holds the last element. */
  function Holder(ns: Nodes, d: nat, es: seq<Name>): Place
    decreases |es|
  {
    if es == [] then Missing
    else if d >= |ns| || ns[d].kind == Free then Panics
    else if ns[d].kind != Dir then Missing
    else if |es| == 1 then At(d)
    else
      var n := Step(ns, d, es[0]);
      if n.At? then Holder(ns, n.inum, es[1..]) else n
  }

  function Last(es: seq<Name>): Name
    requires es != []
  {
    es[|es| - 1]
  }

  lemma {:induction false} HolderResolves(ns: Nodes, d: nat, es: seq<Name>)
    requires Holder(ns, d, es).At?
    ensures es != [] && IsDir(ns, Holder(ns, d, es).inum)
    ensures Resolve(ns, d, es[..|es| - 1]) == Holder(ns, d, es)
    ensures Resolve(ns, d, es) == Step(ns, Holder(ns, d, es).inum, Last(es))
    decreases |es|
  {
    if |es| > 1 {
      var n := Step(ns, d, es[0]);
      HolderResolves(ns, n.inum, es[1..]);
      assert es[1..][..|es[1..]| - 1] == es[..|es| - 1][1..];
    } else {
      assert es[1..] == [];
    }
  }

  lemma {:induction false} HolderFails(ns: Nodes, d: nat, es: seq<Name>)
    requires !Holder(ns, d, es).At? && es != []
    ensures Resolve(ns, d, es) == Holder(ns, d, es)
    decreases |es|
  {
    if |es| > 1 {
      var n := Step(ns, d, es[0]);
      if n.At? {
        HolderFails(ns, n.inum, es[1..]);
      }
    }
  }

  lemma {:induction false} HolderSame(ns: Nodes, r: Nodes, d: nat, es: seq<Name>)
    requires |r| == |ns| && forall i: nat :: i < |ns| ==> r[i].kind == ns[i].kind && r[i].ents == ns[i].ents
    ensures Holder(r, d, es) == Holder(ns, d, es)
    decreases |es|
  {
    if |es| > 1 && Step(ns, d, es[0]).At? {
      HolderSame(ns, r, Step(ns, d, es[0]).inum, es[1..]);
    }
  }

  /** Every name found in ns is found in r, with the same inode. */
  ghost predicate Extends(ns: Nodes, r: Nodes) {
    forall d: nat, name: Name :: Step(ns, d, name).At? ==> Step(r, d, name) == Step(ns, d, name)
  }

  lemma {:induction false} ResolveGrow(ns: Nodes, r: Nodes, d: nat, es: seq<Name>)
    requires Extends(ns, r) && Resolve(ns, d, es).At?
    ensures Resolve(r, d, es) == Resolve(ns, d, es)
    decreases |es|
  {
    if es != [] {
      ResolveGrow(ns, r, Step(ns, d, es[0]).inum, es[1..]);
    }
  }

  /** Names only get lost going from ns to r. */
  ghost predicate Shrinks(ns: Nodes, r: Nodes) {
    forall d: nat, name: Name :: Step(ns, d, name).At? ==> Step(r, d, name) == Step(ns, d, name) || Step(r, d, name) == Missing
  }

  lemma {:induction false} ResolveShrink(ns: Nodes, r: Nodes, d: nat, es: seq<Name>)
    requires Shrinks(ns, r) && Resolve(ns, d, es).At?
    ensures Resolve(r, d, es) == Resolve(ns, d, es) || Resolve(r, d, es) == Missing
    decreases |es|
  {
    if es != [] {
      ResolveShrink(ns, r, Step(ns, d, es[0]).inum, es[1..]);
    }
  }

  /** Walking from a linked directory never meets a free inode. */
  lemma {:induction false} NoPanic(ns: Nodes, d: nat, es: seq<Name>)
    requires Inv(ns) && Linked(ns, d)
    ensures Resolve(ns, d, es) != Panics
    decreases |es|
  {
    hide Inv;
    hide Lookup;
    if es != [] && Step(ns, d, es[0]).At? {
      var c := Step(ns, d, es[0]).inum;
      StepLinked(ns, d, es[0]);
      if IsDir(ns, c) {
        NoPanic(ns, c, es[1..]);
      }
    }
  }

  lemma StepLinked(ns: Nodes, d: nat, name: Name)
    requires Inv(ns) && Linked(ns, d) && Step(ns, d, name).At?
    ensures var c := Step(ns, d, name).inum;
      0 < c < |ns| && ns[c].kind != Free && (IsDir(ns, c) ==> Linked(ns, c))
  {
    hide Counts;
    hide Unique;
    var k := Lookup(ns[d].ents, name).value;
    var c := ns[d].ents[k].inum;
    assert Live(ns, d, k) && DotsOf(ns, d);
    if IsDir(ns, c) {
      if k >= 2 {
        assert Child(ns, d, k, c);
      } else if k == 1 && d != ROOTINO {
        assert HasParent(ns, d);
      }
    }
  }

  // ----- One new entry -----

  /** The slot dirlink uses: the first free one, or the end. */
  function Slot(ents: seq<Dirent>, k: nat := 0): (r: nat)
    requires k <= |ents|
    ensures k <= r <= |ents| && (r < |ents| ==> ents[r].inum == 0)
    ensures forall j: nat :: k <= j < r ==> ents[j].inum != 0
    decreases |ents| - k
  {
    if k == |ents| || ents[k].inum == 0 then k else Slot(ents, k + 1)
  }

  lemma SlotVacant(ns: Nodes, d: nat, name: Name)
    requires Dots(ns) && IsDir(ns, d) && Lookup(ns[d].ents, name).None?
    ensures Vacant(ns[d].ents, Slot(ns[d].ents)) && !HasName(ns[d].ents, name)
  {
    assert DotsOf(ns, d);
    assert d != 0;
  }

  lemma {:induction false} LookupPut(ents: seq<Dirent>, k: nat, e: Dirent, name: Name, from: nat)
    requires from <= |ents| && k <= |ents| && (k < |ents| ==> ents[k].inum == 0) && e.inum != 0
    requires Lookup(ents, e.name, from).None?
    ensures name != e.name && Lookup(ents, name, from).Some? ==> Lookup(Put(ents, k, e), name, from) == Lookup(ents, name, from)
    ensures from <= k ==> Lookup(Put(ents, k, e), e.name, from) == Some(k)
    decreases |ents| - from
  {
    if from < |ents| {
      LookupPut(ents, k, e, name, from + 1);
    }
  }

  /** The tree after entry k of dp was set to name i. */
  ghost predicate Entered(ns: Nodes, r: Nodes, dp: nat, k: nat, name: Name, i: nat) {
    && |r| == |ns| && IsDir(ns, dp) && k <= |ns[dp].ents| && i != 0
    && r[dp].kind == Dir && r[dp].ents == Put(ns[dp].ents, k, Dirent(i, name))
    && (forall d: nat :: d < |ns| && d != dp && IsDir(ns, d) ==> r[d].kind == Dir && r[d].ents == ns[d].ents)
  }

  lemma EnteredFound(ns: Nodes, r: Nodes, dp: nat, name: Name, i: nat, d: nat, es: seq<Name>)
    requires Holder(ns, d, es) == At(dp) && IsDir(ns, dp) && es != [] && Last(es) == name
    requires Lookup(ns[dp].ents, name).None?
    requires Entered(ns, r, dp, Slot(ns[dp].ents), name, i)
    ensures Resolve(r, d, es) == At(i)
  {
    hide Resolve;
    hide Holder;
    var k, e := Slot(ns[dp].ents), Dirent(i, name);
    HolderResolves(ns, d, es);
    forall c: nat, n: Name | Step(ns, c, n).At?
      ensures Step(r, c, n) == Step(ns, c, n)
    {
      if c == dp {
        LookupPut(ns[dp].ents, k, e, n, 0);
      }
    }
    ResolveGrow(ns, r, d, es[..|es| - 1]);
    LookupPut(ns[dp].ents, k, e, name, 0);
    ResolveSnoc(r, d, es[..|es| - 1], name);
    assert es[..|es| - 1] + [name] == es;
  }

  lemma {:induction false} ResolveSnoc(ns: Nodes, d: nat, es: seq<Name>, name: Name)
    requires Resolve(ns, d, es).At?
    ensures Resolve(ns, d, es + [name]) == Step(ns, Resolve(ns, d, es).inum, name)
    decreases |es|
  {
    if es == [] {
      assert (es + [name])[1..] == [];
    } else {
      assert (es + [name])[1..] == es[1..] + [name];
      ResolveSnoc(ns, Step(ns, d, es[0]).inum, es[1..], name);
    }
  }

  // ----- One entry gone -----

  lemma {:induction false} LookupClear(ents: seq<Dirent>, k: nat, name: Name, from: nat)
    requires from <= |ents| && k < |ents| && UniqueIn(ents)
    ensures var r := Lookup(Put(ents, k, NOENT), name, from);
      r == Lookup(ents, name, from) || (r.None? && Lookup(ents, name, from) == Some(k))
    ensures Lookup(ents, name, from) == Some(k) ==> Lookup(Put(ents, k, NOENT), name, from).None?
    decreases |ents| - from
  {
    if from < |ents| {
      LookupClear(ents, k, name, from + 1);
    }
  }

  /** The tree after entry k of dp was cleared. */
  ghost predicate Cleared(ns: Nodes, r: Nodes, dp: nat, k: nat) {
    && |r| == |ns| && IsDir(ns, dp) && k < |ns[dp].ents|
    && (forall d: nat :: d < |ns| ==> r[d].kind == ns[d].kind)
    && r[dp].ents == Put(ns[dp].ents, k, NOENT)
    && (forall d: nat :: d < |ns| && d != dp ==> r[d].ents == ns[d].ents)
  }

  lemma ClearedMissing(ns: Nodes, r: Nodes, dp: nat, k: nat, d: nat, es: seq<Name>)
    requires Unique(ns) && Holder(ns, d, es) == At(dp) && es != [] && Cleared(ns, r, dp, k)
    requires Lookup(ns[dp].ents, Last(es)) == Some(k)
    ensures Resolve(r, d, es) == Missing
  {
    hide Resolve;
    hide Holder;
    HolderResolves(ns, d, es);
    assert UniqueIn(ns[dp].ents);
    forall c: nat, n: Name | Step(ns, c, n).At?
      ensures Step(r, c, n) == Step(ns, c, n) || Step(r, c, n) == Missing
    {
      if c == dp {
        LookupClear(ns[dp].ents, k, n, 0);
      }
    }
    var up := es[..|es| - 1];
    assert up + [Last(es)] == es;
    ResolveShrink(ns, r, d, up);
    LookupClear(ns[dp].ents, k, Last(es), 0);
    if Resolve(r, d, up) == Missing {
      ResolveStuck(r, d, up, [Last(es)]);
    } else {
      ResolveSnoc(r, d, up, Last(es));
    }
  }

  lemma {:induction false} ResolveStuck(ns: Nodes, d: nat, es: seq<Name>, more: seq<Name>)
    requires Resolve(ns, d, es) == Missing
    ensures Resolve(ns, d, es + more) == Missing
    decreases |es|
  {
    if es != [] && Step(ns, d, es[0]).At? {
      assert (es + more)[1..] == es[1..] + more;
      ResolveStuck(ns, Step(ns, d, es[0]).inum, es[1..], more);
    }
  }

  // ----- When the link counts survive -----

  lemma InvRange(ns: Nodes, d: nat, k: nat)
    requires Inv(ns) && Live(ns, d, k)
    ensures 0 < ns[d].ents[k].inum < |ns|
    ensures 2 <= k ==> Linked(ns, d) && ns[ns[d].ents[k].inum].kind != Free
  {
    hide Tree;
    hide Acyclic;
    hide Counts;
    hide Unique;
    assert DotsOf(ns, d);
  }

  lemma InvZero(ns: Nodes)
    requires Inv(ns)
    ensures |ns| > ROOTINO && ns[0].kind == Free
  {
  }

  lemma NegativeCount(ns: Nodes, i: nat)
    requires i < |ns| && ns[i].kind != Free && ns[i].nlink < 0
    ensures !Inv(ns)
  {
    hide Refs;
    assert !CountOf(ns, i);
  }

  lemma RemovedInUse(ns: Nodes, d: nat, k: nat)
    requires Live(ns, d, k) && 2 <= k && ns[d].nlink <= 0
    ensures !Inv(ns)
  {
    assert !EmptyDir(ns[d].ents);
  }

  /** sys_link keeps the counts exactly when the new parent is still linked and nlink does not wrap. */
  lemma LinkExact(ns: Nodes, ip: nat, dp: nat, name: Name)
    requires Inv(ns) && IsDir(ns, dp) && ip < |ns| && !IsDir(ns, ip) && ns[ip].kind != Free
    requires Lookup(ns[dp].ents, name).None?
    ensures Inv(AddLink(ns, ip, dp, Slot(ns[dp].ents), name)) <==> Linked(ns, dp) && ns[ip].nlink < MAXLINK
  {
    hide Tree;
    hide Acyclic;
    hide Counts;
    hide Unique;
    hide Targets;
    hide Removed;
    var k := Slot(ns[dp].ents);
    SlotVacant(ns, dp, name);
    var r := AddLink(ns, ip, dp, k, name);
    if ns[ip].nlink == MAXLINK {
      NegativeCount(r, ip);
    } else if Linked(ns, dp) {
      LinkInv(ns, ip, dp, k, name);
    } else {
      RemovedInUse(r, dp, k);
    }
  }

  function Dots2(ip: nat, dp: nat): seq<Dirent> { [Dirent(ip, "."), Dirent(dp, "..")] }

  /** The new inode ip, with no links yet. */
  function Allocated(ns: Nodes, ip: nat, dp: nat, kind: Kind): (r: Nodes)
    requires ip < |ns|
  {
    ns[ip := Node(kind, 0, if kind == Dir then Dots2(ip, dp) else [])]
  }

  function Created(ns: Nodes, ip: nat, dp: nat, name: Name, kind: Kind): Nodes
    requires ip < |ns| && dp < |ns| && ip != dp
  {
    var k := Slot(ns[dp].ents);
    if kind == Dir then AddDir(Allocated(ns, ip, dp, kind), ip, dp, k, name)
    else AddLink(Allocated(ns, ip, dp, kind), ip, dp, k, name)
  }

  lemma AllocatedInv(ns: Nodes, ip: nat, dp: nat, kind: Kind)
    requires Inv(ns) && IsDir(ns, dp) && 0 < ip < |ns| && ns[ip].kind == Free && kind != Free
    ensures Inv(Allocated(ns, ip, dp, kind)) && dp != 0
  {
    hide Tree;
    hide Acyclic;
    hide Counts;
    hide Unique;
    hide Targets;
    hide Removed;
    SwapInv(ns, ip, Node(kind, 0, if kind == Dir then [Dirent(ip, "."), Dirent(dp, "..")] else []));
  }

  /** A directory made in a removed one brings its parent's nlink back, but nothing names the parent. */
  lemma OrphanDir(ns: Nodes, ip: nat, dp: nat, k: nat, name: Name)
    requires Inv(ns) && Spare(ns, ip, dp) && IsDir(ns, dp) && !Linked(ns, dp) && Vacant(ns[dp].ents, k)
    ensures !Inv(AddDir(ns, ip, dp, k, name))
  {
    hide Counts;
    hide Unique;
    hide Targets;
    hide Removed;
    var r := AddDir(ns, ip, dp, k, name);
    if ns[dp].nlink < 0 {
      NegativeCount(ns, dp);
    } else {
      forall d: nat, j: nat
        ensures !Child(r, d, j, dp)
      {
        OrphanUnnamed(ns, ip, dp, k, name, d, j);
      }
      assert Linked(r, dp) && !HasParent(r, dp);
    }
  }

  lemma OrphanUnnamed(ns: Nodes, ip: nat, dp: nat, k: nat, name: Name, d: nat, j: nat)
    requires Inv(ns) && Spare(ns, ip, dp) && IsDir(ns, dp) && ns[dp].nlink == 0 && Vacant(ns[dp].ents, k)
    ensures !Child(AddDir(ns, ip, dp, k, name), d, j, dp)
  {
    hide Counts;
    hide Unique;
    hide Targets;
    assert !Child(ns, d, j, dp);
  }

  /** create keeps the counts exactly when the parent is still linked and its nlink does not wrap. */
  lemma CreateExact(ns: Nodes, ip: nat, dp: nat, name: Name, kind: Kind)
    requires Inv(ns) && IsDir(ns, dp) && 0 < ip < |ns| && ns[ip].kind == Free && kind != Free
    requires Lookup(ns[dp].ents, name).None?
    ensures Inv(Created(ns, ip, dp, name, kind)) <==> Linked(ns, dp) && (kind == Dir ==> ns[dp].nlink < MAXLINK)
  {
    hide Tree;
    hide Acyclic;
    hide Counts;
    hide Unique;
    hide Targets;
    hide Removed;
    var m, k := Allocated(ns, ip, dp, kind), Slot(ns[dp].ents);
    AllocatedInv(ns, ip, dp, kind);
    if kind != Dir {
      LinkExact(m, ip, dp, name);
    } else {
      SlotVacant(m, dp, name);
      if ns[dp].nlink == MAXLINK {
        NegativeCount(Created(ns, ip, dp, name, kind), dp);
      } else if Linked(ns, dp) {
        AddDirInv(m, ip, dp, k, name);
      } else {
        OrphanDir(m, ip, dp, k, name);
      }
    }
  }

  /** An inode that a linked directory names has a link, so unlink's panic is unreachable. */
  lemma NamedLinks(ns: Nodes, d: nat, k: nat, i: nat)
    requires Inv(ns) && Names(ns, d, k, i) && i < |ns| && ns[i].kind != Free
    ensures ns[i].nlink >= 1
  {
    hide Tree;
    hide Acyclic;
    hide Unique;
    hide Targets;
    hide Removed;
    assert DotsOf(ns, d) && CountOf(ns, i);
    assert (d, k) in Refs(ns, i);
  }

  lemma CreateFound(ns: Nodes, ip: nat, dp: nat, name: Name, kind: Kind, start: nat, es: seq<Name>)
    requires Holder(ns, start, es) == At(dp) && IsDir(ns, dp) && es != [] && Last(es) == name
    requires Lookup(ns[dp].ents, name).None? && 0 < ip < |ns| && ns[ip].kind == Free
    ensures Resolve(Created(ns, ip, dp, name, kind), start, es) == At(ip)
  {
    hide Resolve;
    hide Holder;
    hide Lookup;
    hide Slot;
    EnteredFound(ns, Created(ns, ip, dp, name, kind), dp, name, ip, start, es);
  }

  lemma InvUnique(ns: Nodes)
    requires Inv(ns)
    ensures Unique(ns)
  {
  }

  lemma PastDots(ns: Nodes, d: nat, k: nat)
    requires Inv(ns) && Live(ns, d, k) && ns[d].ents[k].name != "." && ns[d].ents[k].name != ".."
    ensures 2 <= k
  {
    hide Tree;
    hide Acyclic;
    hide Counts;
    hide Unique;
    hide Targets;
    hide Removed;
    assert DotsOf(ns, d);
  }

  /** No directory is an entry of itself, past the dots. */
  lemma NotSelf(ns: Nodes, d: nat, k: nat, c: nat)
    requires Inv(ns) && Names(ns, d, k, c)
    ensures c != d
  {
    hide Dots;
    hide Counts;
    hide Unique;
    hide Targets;
    hide Removed;
    var depth: seq<nat> :| Ranked(ns, depth);
    assert c == d ==> Child(ns, d, k, c);
  }

  datatype Outcome = Panicked | Failed | Done(inum: nat)

  // ----- Absolute and relative paths -----

  function Start(path: string, cwd: nat): nat {
    if path != "" && path[0] == '/' then ROOTINO else cwd
  }

  function Namei(ns: Nodes, path: string, cwd: nat): Place {
    Resolve(ns, Start(path, cwd), Elems(path, 0))
  }

  /** A path after a slash is looked up from the root, whoever asks. */
  lemma AbsolutePath(ns: Nodes, path: string, cwd: nat)
    ensures Namei(ns, "/" + path, cwd) == Resolve(ns, ROOTINO, Elems(path, 0))
  {
    ElemsJoin("", path, 0);
    assert "" + "/" + path == "/" + path && [] + Elems(path, 0) == Elems(path, 0);
  }

  /** p/q is what q is from where p is. */
  lemma JoinedPath(ns: Nodes, p: string, q: string, cwd: nat)
    requires p != ""
    ensures Namei(ns, p + "/" + q, cwd) ==
      match Namei(ns, p, cwd)
      case At(d) => Resolve(ns, d, Elems(q, 0))
      case stuck => stuck
  {
    ElemsJoin(p, q, 0);
    ResolveJoin(ns, Start(p, cwd), Elems(p, 0), Elems(q, 0));
  }

  /** p/e is the entry e of the directory p. */
  lemma PathOfEntry(ns: Nodes, p: string, e: string, cwd: nat)
    requires p != "" && e != "" && (forall k :: 0 <= k < |e| ==> e[k] != '/') && Namei(ns, p, cwd).At?
    ensures Namei(ns, p + "/" + e, cwd) == Step(ns, Namei(ns, p, cwd).inum, Clip(e))
  {
    JoinedPath(ns, p, e, cwd);
    ElemsOne(e);
    assert [Clip(e)][1..] == [];
  }

  lemma {:induction false} ResolveJoin(ns: Nodes, d: nat, es: seq<Name>, fs: seq<Name>)
    ensures Resolve(ns, d, es + fs) ==
      match Resolve(ns, d, es)
      case At(c) => Resolve(ns, c, fs)
      case stuck => stuck
    decreases |es|
  {
    if es == [] {
      assert es + fs == fs;
    } else {
      assert (es + fs)[0] == es[0] && (es + fs)[1..] == es[1..] + fs;
      var n := Step(ns, d, es[0]);
      if n.At? {
        ResolveJoin(ns, n.inum, es[1..], fs);
      }
    }
  }

  /** What unlink does to ns, for the path es from start. */
  ghost predicate Unlinked(ns: Nodes, after: Nodes, start: nat, es: seq<Name>, r: Outcome) {
    match Holder(ns, start, es)
    case Missing => r == Failed
    case Panics => r == Panicked
    case At(dp) =>
      && dp < |ns| && es != []
      && var k := Lookup(ns[dp].ents, Last(es));
      if Last(es) == "." || Last(es) == ".." || k.None? then r == Failed
      else
        var ip := ns[dp].ents[k.value].inum;
        && ip < |ns| && ip != dp
        && if IsDir(ns, ip) && !EmptyDir(ns[ip].ents) then r == Failed
           else
             && r == Done(ip) && Resolve(after, start, es) == Missing
             && after == (if IsDir(ns, ip) then DropDir(ns, ip, dp, k.value) else DropLink(ns, ip, dp, k.value))
             && after[ip].nlink == ns[ip].nlink - 1
  }

  /** The blocks writei allocates for entry k of a directory of len entries that is mapped to its end. */
  function Need(len: nat, k: nat): nat {
    if k < len || k % 32 != 0 then 0 else if k / 32 == 12 then 2 else 1
  }

  /** A directory's first entries take a block of their own. */
  function NeedNew(ents: seq<Dirent>, kind: Kind): nat {
    Need(|ents|, Slot(ents)) + if kind == Dir then 1 else 0
  }

  ghost predicate NoneFree(ns: Nodes) {
    forall i: nat :: 1 <= i < |ns| ==> ns[i].kind != Free
  }

  /** What create does to ns, for the path es from start. */
  ghost predicate CreatedAs(ns: Nodes, after: Nodes, start: nat, es: seq<Name>, kind: Kind, room: nat, r: Outcome) {
    match Holder(ns, start, es)
    case Missing => r == Failed && after == ns
    case Panics => r == Panicked
    case At(dp) =>
      match Resolve(ns, start, es)
      case At(ip) =>
        && after == ns && ip < |ns|
        && r == (if ns[ip].kind == Free then Panicked
                 else if kind == File && ns[ip].kind == File then Done(ip)
                 else Failed)
      case _ =>
        && IsDir(ns, dp) && es != [] && r != Failed
        && (r == Panicked <==> Slot(ns[dp].ents) >= MAXENTS || NoneFree(ns) || NeedNew(ns[dp].ents, kind) > room)
        && (r.Done? ==>
              && 0 < r.inum < |ns| && ns[r.inum].kind == Free && r.inum != dp
              && (forall i: nat :: 1 <= i < r.inum ==> ns[i].kind != Free)
              && after == Created(ns, r.inum, dp, Last(es), kind) && Resolve(after, start, es) == At(r.inum))
  }

  /** What link does to ns, once it has the file ip, for the path es from start. */
  ghost predicate EnteredAs(ns: Nodes, after: Nodes, ip: nat, start: nat, es: seq<Name>, room: nat, r: Outcome)
    requires ip < |ns| && ns[ip].kind != Dir
  {
    match Holder(ns, start, es)
    case Missing => r == Failed
    case Panics => r == Panicked
    case At(dp) =>
      && IsDir(ns, dp) && es != []
      && if Lookup(ns[dp].ents, Last(es)).Some? then r == Failed
         else if Slot(ns[dp].ents) >= MAXENTS || Need(|ns[dp].ents|, Slot(ns[dp].ents)) > room then r == Panicked
         else
           && r == Done(ip) && Resolve(after, start, es) == At(ip)
           && after == AddLink(ns, ip, dp, Slot(ns[dp].ents), Last(es))
  }

  /** What link does to ns, from the path fs to the path es. */
  ghost predicate LinkedTo(ns: Nodes, after: Nodes, from: nat, fs: seq<Name>, to: nat, es: seq<Name>, room: nat, r: Outcome) {
    match Resolve(ns, from, fs)
    case Missing => r == Failed
    case Panics => r == Panicked
    case At(ip) =>
      if ip >= |ns| || ns[ip].kind == Free then r == Panicked
      else if ns[ip].kind == Dir then r == Failed
      else EnteredAs(ns, after, ip, to, es, room, r)
  }

  /** An inode somebody refers to is allocated. */
  ghost predicate Held(ns: Nodes, refs: seq<nat>) {
    |refs| == |ns| && forall i: nat :: i < |ns| && refs[i] > 0 ==> 0 < i && ns[i].kind != Free
  }

  /** No allocated inode is freed or changes its kind. */
  ghost predicate KindsKept(ns: Nodes, r: Nodes) {
    |r| == |ns| && forall i: nat :: i < |ns| && ns[i].kind != Free ==> r[i].kind == ns[i].kind
  }

  lemma CreatedKinds(ns: Nodes, ip: nat, dp: nat, name: Name, kind: Kind)
    requires ip < |ns| && dp < |ns| && ip != dp && ns[ip].kind == Free
    ensures KindsKept(ns, Created(ns, ip, dp, name, kind))
  {
    hide Slot;
  }

  /** What iput leaves: an inode without links and references is free. */
  function Gone(ns: Nodes, refs: seq<nat>, ip: nat): Nodes
    requires ip < |ns| == |refs|
  {
    if refs[ip] == 0 && ns[ip].nlink == 0 then ns[ip := NONE] else ns
  }

  /** Freeing an inode without links is not seen from a linked directory. */
  lemma {:induction false} FreedResolve(ns: Nodes, ip: nat, d: nat, es: seq<Name>)
    requires Inv(ns) && Linked(ns, d) && ip < |ns| && ns[ip].nlink == 0
    ensures Resolve(ns[ip := NONE], d, es) == Resolve(ns, d, es)
    decreases |es|
  {
    hide Inv;
    hide Lookup;
    if es != [] && Step(ns, d, es[0]).At? {
      var c := Step(ns, d, es[0]).inum;
      StepLinked(ns, d, es[0]);
      if IsDir(ns, c) {
        FreedResolve(ns, ip, c, es[1..]);
      } else {
        StepFile(ns, d, es[0]);
      }
    }
  }

  lemma StepFile(ns: Nodes, d: nat, name: Name)
    requires Inv(ns) && Linked(ns, d) && Step(ns, d, name).At?
    ensures var c := Step(ns, d, name).inum; c < |ns| && (!IsDir(ns, c) ==> ns[c].nlink >= 1)
  {
    StepLinked(ns, d, name);
    var k, c := Lookup(ns[d].ents, name).value, Step(ns, d, name).inum;
    if !IsDir(ns, c) {
      if k < 2 {
        TwoDots(ns, d, k);
      }
      NamedLinks(ns, d, k, c);
    }
  }

  lemma TwoDots(ns: Nodes, d: nat, k: nat)
    requires Inv(ns) && Linked(ns, d) && k < 2
    ensures |ns[d].ents| >= 2 && IsDir(ns, ns[d].ents[k].inum)
  {
    hide Counts;
    hide Unique;
    assert DotsOf(ns, d);
    if k == 1 && d != ROOTINO {
      assert HasParent(ns, d);
    }
  }

  // ----- The tree mkfs makes -----

  const NONE: Node := Node(Free, 0, [])

  function Image(n: nat, names: seq<Name>, pad: nat): (r: Nodes)
    requires ROOTINO + |names| < n
    ensures |r| == n && r[ROOTINO] == Node(Dir, 1, ImageRoot(names, pad))
    ensures forall i: nat :: i < n && i != ROOTINO ==> r[i] == if 2 <= i < 2 + |names| then Node(File, 1, []) else NONE
  {
    seq(n, i => if i == ROOTINO then Node(Dir, 1, ImageRoot(names, pad))
                else if 2 <= i < 2 + |names| then Node(File, 1, []) else NONE)
  }

  function ImageRoot(names: seq<Name>, pad: nat): (r: seq<Dirent>)
    ensures |r| == 2 + |names| + pad && r[0] == Dirent(ROOTINO, ".") && r[1] == Dirent(ROOTINO, "..")
    ensures forall k: nat :: 2 <= k < |r| ==> r[k] == if k < 2 + |names| then Dirent(k, names[k - 2]) else NOENT
  {
    Dots2(ROOTINO, ROOTINO) + seq(|names|, i requires 0 <= i < |names| => Dirent(2 + i, names[i])) + seq(pad, _ => NOENT)
  }

  ghost predicate Fresh(names: seq<Name>) {
    && (forall i :: 0 <= i < |names| ==> names[i] != "." && names[i] != "..")
    && (forall i, j :: 0 <= i < j < |names| ==> names[i] != names[j])
  }

  lemma ImageMore(n: nat, names: seq<Name>, i: nat)
    requires ROOTINO + |names| < n && i < |names|
    ensures var a, b := Image(n, names[..i], 0), Image(n, names[..i + 1], 0);
      && a[2 + i] == NONE && |a[ROOTINO].ents| == 2 + i
      && b == a[2 + i := Node(File, 1, [])][ROOTINO := a[ROOTINO].(ents := a[ROOTINO].ents + [Dirent(2 + i, names[i])])]
  {
    hide Image;
    hide ImageRoot;
    var a, b := ImageRoot(names[..i], 0), ImageRoot(names[..i + 1], 0);
    assert b == a + [Dirent(2 + i, names[i])];
  }

  lemma ImagePad(n: nat, names: seq<Name>, p: nat)
    requires ROOTINO + |names| < n
    ensures var a, b := Image(n, names, p), Image(n, names, p + 1);
      b == a[ROOTINO := a[ROOTINO].(ents := a[ROOTINO].ents + [NOENT])]
  {
    hide Image;
    hide ImageRoot;
    assert ImageRoot(names, p + 1) == ImageRoot(names, p) + [NOENT];
  }

  lemma BareInv(n: nat)
    requires ROOTINO < n
    ensures Inv(Image(n, [], 0))
  {
    var ns := Image(n, [], 0);
    assert forall d: nat, k: nat, i: nat :: Counted(ns, d, k, i) <==> d == ROOTINO && k == 1 && i == ROOTINO;
    RefsOne(ns, ROOTINO, ROOTINO, 1);
    assert Ranked(ns, seq(n, _ => 0));
    assert CountOf(ns, ROOTINO);
  }

  lemma {:induction false} ImageInv(n: nat, names: seq<Name>)
    requires ROOTINO + |names| < n && Fresh(names)
    ensures Inv(Image(n, names, 0))
    decreases |names|
  {
    hide Inv;
    hide Image;
    hide ImageRoot;
    if names == [] {
      BareInv(n);
    } else {
      var k := |names| - 1;
      var few, ip := names[..k], 2 + k;
      ImageInv(n, few);
      ImageMore(n, names, k);
      assert names[..k + 1] == names;
      var ns := Image(n, few, 0);
      SwapInv(ns, ip, Node(File, 0, []));
      var m := ns[ip := Node(File, 0, [])];
      assert !HasName(m[ROOTINO].ents, names[k]) by {
        assert forall j: nat :: 2 <= j < ip ==> m[ROOTINO].ents[j].name == names[j - 2];
      }
      LinkInv(m, ip, ROOTINO, ip, names[k]);
      assert AddLink(m, ip, ROOTINO, ip, names[k]) == Image(n, names, 0);
    }
  }

  lemma PadDots(ns: Nodes, r: Nodes, d: nat)
    requires Dots(ns) && Unique(ns) && Removed(ns) && Targets(ns)
    requires IsDir(ns, d) && r == ns[d := ns[d].(ents := ns[d].ents + [NOENT])]
    ensures Dots(r) && Unique(r) && Removed(r) && Targets(r)
  {
    forall e: nat | IsDir(r, e) ensures DotsOf(r, e) && UniqueIn(r[e].ents) && (r[e].nlink <= 0 ==> EmptyDir(r[e].ents)) {
      assert IsDir(ns, e) && DotsOf(ns, e) && UniqueIn(ns[e].ents);
    }
    forall e: nat, k: nat | Linked(r, e) && Live(r, e, k) ensures Live(ns, e, k) && r[e].ents[k] == ns[e].ents[k] {
    }
  }

  lemma PadCounts(ns: Nodes, r: Nodes)
    requires Counts(ns) && |r| == |ns| && forall i: nat :: i < |ns| ==> r[i].kind == ns[i].kind && r[i].nlink == ns[i].nlink
    requires forall e: nat, k: nat, i: nat :: Counted(r, e, k, i) <==> Counted(ns, e, k, i)
    ensures Counts(r)
  {
    hide Counted;
    forall i: nat | i < |r| && r[i].kind != Free ensures CountOf(r, i) {
      assert CountOf(ns, i);
      RefsSame(ns, r, i);
    }
  }

  /** A free entry more makes no difference. */
  lemma PadInv(ns: Nodes, d: nat)
    requires Inv(ns) && IsDir(ns, d)
    ensures Inv(ns[d := ns[d].(ents := ns[d].ents + [NOENT])])
  {
    hide Tree;
    hide Acyclic;
    hide Dots;
    hide Unique;
    hide Counts;
    hide Targets;
    hide Removed;
    var r := ns[d := ns[d].(ents := ns[d].ents + [NOENT])];
    forall e: nat, k: nat, i: nat
      ensures Counted(r, e, k, i) <==> Counted(ns, e, k, i)
      ensures Child(r, e, k, i) <==> Child(ns, e, k, i)
    {
    }
    AcyclicSame(ns, r);
    PadDots(ns, r, d);
    PadTree(ns, r, d);
    PadCounts(ns, r);
  }

  lemma PadTree(ns: Nodes, r: Nodes, d: nat)
    requires Dots(ns) && Tree(ns) && IsDir(ns, d) && r == ns[d := ns[d].(ents := ns[d].ents + [NOENT])]
    requires forall e: nat, k: nat, c: nat :: Child(r, e, k, c) <==> Child(ns, e, k, c)
    ensures Tree(r)
  {
    hide Child;
    forall e: nat | IsDir(ns, e) ensures Parent(r, e) == Parent(ns, e) && (Linked(r, e) <==> Linked(ns, e)) {
      assert DotsOf(ns, e);
    }
    forall c: nat | Linked(r, c) && c != ROOTINO ensures HasParent(r, c) {
      assert Linked(ns, c) && HasParent(ns, c);
      var k: nat :| Child(ns, Parent(ns, c), k, c);
      assert Child(r, Parent(r, c), k, c);
    }
  }

  lemma {:induction false} PaddedInv(n: nat, names: seq<Name>, pad: nat)
    requires ROOTINO + |names| < n && Fresh(names)
    ensures Inv(Image(n, names, pad))
    decreases pad
  {
    hide Inv;
    hide Image;
    hide ImageRoot;
    if pad == 0 {
      ImageInv(n, names);
    } else {
      PaddedInv(n, names, pad - 1);
      PadInv(Image(n, names, pad - 1), ROOTINO);
      ImagePad(n, names, pad - 1);
    }
  }

  /** mkfs does not look for a name before it enters it: the tree is sound exactly when no name is used twice. */
  lemma ImageExact(n: nat, names: seq<Name>, pad: nat)
    requires ROOTINO + |names| < n
    ensures Inv(Image(n, names, pad)) <==> Fresh(names)
  {
    if Fresh(names) {
      PaddedInv(n, names, pad);
    } else {
      var ents := Image(n, names, pad)[ROOTINO].ents;
      if i :| 0 <= i < |names| && (names[i] == "." || names[i] == "..") {
        assert ents[2 + i] == Dirent(2 + i, names[i]);
        assert !UniqueIn(ents);
      } else {
        var i, j :| 0 <= i < j < |names| && names[i] == names[j];
        assert ents[2 + i].name == ents[2 + j].name;
        assert !UniqueIn(ents);
      }
    }
  }

  class FileTree {
    var nodes: Nodes
    var refs: seq<nat>   // references to each inode from open files and current directories

    /** mkfs: a root directory with the given files, padded with free entries. */
    constructor (n: nat, names: seq<Name>, pad: nat)
      requires ROOTINO + |names| < n
      ensures nodes == Image(n, names, pad) && refs == seq(n, _ => 0) && Held(nodes, refs)
      ensures Inv(nodes) <==> Fresh(names)
    {
      hide Inv;
      nodes := seq(n, i => if i == ROOTINO then Node(Dir, 1, Dots2(ROOTINO, ROOTINO)) else NONE);
      refs := seq(n, _ => 0);
      new;
      assert ImageRoot([], 0) == Dots2(ROOTINO, ROOTINO) && names[..0] == [];
      var i := 0;
      while i < |names|
        invariant 0 <= i <= |names| && nodes == Image(n, names[..i], 0) && refs == seq(n, _ => 0)
      {
        ImageMore(n, names, i);
        var root := nodes[ROOTINO];
        nodes := nodes[2 + i := Node(File, 1, [])];
        nodes := nodes[ROOTINO := root.(ents := root.ents + [Dirent(2 + i, names[i])])];
        i := i + 1;
      }
      assert names[..|names|] == names;
      i := 0;
      while i < pad
        invariant 0 <= i <= pad && nodes == Image(n, names, i) && refs == seq(n, _ => 0)
      {
        ImagePad(n, names, i);
        nodes := nodes[ROOTINO := nodes[ROOTINO].(ents := nodes[ROOTINO].ents + [NOENT])];
        i := i + 1;
      }
      ImageExact(n, names, pad);
    }

    method Dirlookup(dp: nat, name: Name) returns (r: Option<nat>)
      requires IsDir(nodes, dp)
      ensures r == Lookup(nodes[dp].ents, name)
    {
      var ents, k := nodes[dp].ents, 0;
      while k < |ents|
        invariant k <= |ents| && Lookup(ents, name) == Lookup(ents, name, k)
      {
        if ents[k].inum != 0 && ents[k].name == name {
          return Some(k);
        }
        k := k + 1;
      }
      return None;
    }

    /** dirlink, with room free blocks on the disk; Panicked is its own panic or balloc's. */
    method Dirlink(dp: nat, name: Name, inum: nat, room: nat) returns (r: Outcome)
      requires IsDir(nodes, dp) && inum != 0
      modifies `nodes
      ensures Lookup(old(nodes)[dp].ents, name).Some? ==> r == Failed && nodes == old(nodes)
      ensures Lookup(old(nodes)[dp].ents, name).None? ==>
        var k := Slot(old(nodes)[dp].ents);
        if k >= MAXENTS || Need(|old(nodes)[dp].ents|, k) > room then r == Panicked && nodes == old(nodes)
        else r == Done(inum) && nodes == SetEnt(old(nodes), dp, k, Dirent(inum, name))
    {
      var at := Dirlookup(dp, name);
      if at.Some? {
        return Failed;
      }
      var ents, k := nodes[dp].ents, 0;
      while k < |ents|
        invariant k <= |ents| && Slot(ents) == Slot(ents, k)
      {
        if ents[k].inum == 0 {
          break;
        }
        k := k + 1;
      }
      if k >= MAXENTS || Need(|ents|, k) > room {
        return Panicked;
      }
      nodes := nodes[dp := nodes[dp].(ents := Put(ents, k, Dirent(inum, name)))];
      return Done(inum);
    }

    method Isdirempty(dp: nat) returns (b: bool)
      requires IsDir(nodes, dp)
      ensures b <==> EmptyDir(nodes[dp].ents)
    {
      var ents, k := nodes[dp].ents, 2;
      while k < |ents|
        invariant 2 <= k && forall j: nat :: 2 <= j < k && j < |ents| ==> ents[j].inum == 0
      {
        if ents[k].inum != 0 {
          return false;
        }
        k := k + 1;
      }
      return true;
    }

    /** The first free inode, of the given kind from now on; None is the panic. */
    method Ialloc(kind: Kind) returns (r: Option<nat>)
      requires |nodes| > 0
      modifies `nodes
      ensures r.None? ==> nodes == old(nodes) && NoneFree(nodes)
      ensures r.Some? ==>
        && 1 <= r.value < |old(nodes)| && old(nodes)[r.value].kind == Free
        && (forall i: nat :: 1 <= i < r.value ==> old(nodes)[i].kind != Free)
        && nodes == old(nodes)[r.value := Node(kind, 0, [])]
    {
      var i := 1;
      while i < |nodes|
        invariant 1 <= i && nodes == old(nodes)
        invariant forall j: nat :: 1 <= j < i && j < |nodes| ==> nodes[j].kind != Free
      {
        if nodes[i].kind == Free {
          nodes := nodes[i := Node(kind, 0, [])];
          return Some(i);
        }
        i := i + 1;
      }
      return None;
    }

    /** namex: the inode of a path, or with parent the directory holding its last element. */
    method Namex(path: string, parent: bool, cwd: nat) returns (r: Place, name: Name)
      ensures var es, from := Elems(path, 0), if path != "" && path[0] == '/' then ROOTINO else cwd;
        if parent then r == Holder(nodes, from, es) && (r.At? ==> name == Last(es))
        else r == Resolve(nodes, from, es)
    {
      hide Elems;
      var ip: nat := if path != "" && path[0] == '/' then ROOTINO else cwd;
      ghost var es, start := Elems(path, 0), ip;
      var pos := 0;
      name := "";
      var next := Skipelem(path, pos);
      while next.Some?
        invariant pos <= |path|
        invariant next.Some? <==> Elems(path, pos) != []
        invariant next.Some? ==>
          && pos < next.value.1 <= |path| && next.value.0 == Elems(path, pos)[0]
          && Elems(path, next.value.1) == Elems(path, pos)[1..]
          && (next.value.1 == |path| <==> Elems(path, pos)[1..] == [])
        invariant es != [] && Elems(path, pos) != [] ==> Last(es) == Last(Elems(path, pos))
        invariant parent ==> Holder(nodes, start, es) == Holder(nodes, ip, Elems(path, pos))
        invariant Resolve(nodes, start, es) == Resolve(nodes, ip, Elems(path, pos))
        decreases |path| - pos
      {
        ghost var now := Elems(path, pos);
        name, pos := next.value.0, next.value.1;
        if ip >= |nodes| || nodes[ip].kind == Free {
          return Panics, name;
        }
        if nodes[ip].kind != Dir {
          return Missing, name;
        }
        if parent && pos == |path| {
          return At(ip), name;
        }
        var at := Dirlookup(ip, name);
        if at.None? {
          return Missing, name;
        }
        ip := nodes[ip].ents[at.value].inum;
        next := Skipelem(path, pos);
      }
      r := if parent then Missing else At(ip);
    }

    method MakeDots(ip: nat, dp: nat, room: nat) returns (ok: bool)
      requires IsDir(nodes, ip) && nodes[ip].ents == [] && ip != 0 && dp != 0
      modifies `nodes
      ensures ok <==> room > 0
      ensures ok ==> nodes == old(nodes)[ip := old(nodes)[ip].(ents := [Dirent(ip, "."), Dirent(dp, "..")])]
    {
      var dot := Dirlink(ip, ".", ip, room);
      if dot.Panicked? {
        return false;
      }
      assert nodes[ip].ents == [Dirent(ip, ".")] && Slot(nodes[ip].ents) == 1;
      ghost var mid := nodes;
      var dots := Dirlink(ip, "..", dp, room - 1);
      assert Lookup(mid[ip].ents, "..").None?;
      assert nodes[ip].ents == [Dirent(ip, "."), Dirent(dp, "..")];
      ok := true;
    }

    /** The part of create that makes a new inode and enters it in dp. */
    method CreateIn(dp: nat, name: Name, kind: Kind, room: nat) returns (r: Outcome)
      requires Inv(nodes) && IsDir(nodes, dp) && kind != Free && Lookup(nodes[dp].ents, name).None?
      modifies `nodes
      ensures r != Failed
      ensures var ents := old(nodes)[dp].ents;
        r == Panicked <==> Slot(ents) >= MAXENTS || NoneFree(old(nodes)) || NeedNew(ents, kind) > room
      ensures r.Done? ==>
        && 0 < r.inum < |old(nodes)| && old(nodes)[r.inum].kind == Free && r.inum != dp
        && (forall i: nat :: 1 <= i < r.inum ==> old(nodes)[i].kind != Free)
        && nodes == Created(old(nodes), r.inum, dp, name, kind)
    {
      hide Inv;
      hide Lookup;
      hide Slot;
      ghost var ns := nodes;
      InvZero(ns);
      var a := Ialloc(kind);
      if a.None? {
        return Panicked;
      }
      var ip := a.value;
      AllocatedInv(ns, ip, dp, kind);
      nodes := nodes[ip := nodes[ip].(nlink := 1)];
      if kind == Dir {
        nodes := nodes[dp := nodes[dp].(nlink := Inc(nodes[dp].nlink))];
        var ok := MakeDots(ip, dp, room);
        if !ok {
          return Panicked;
        }
      }
      r := Dirlink(dp, name, ip, if kind == Dir then room - 1 else room);
      if r.Done? {
        assert nodes == Created(ns, ip, dp, name, kind);
      }
    }

    method Create(path: string, cwd: nat, kind: Kind, room: nat) returns (r: Outcome)
      requires Inv(nodes) && IsDir(nodes, cwd) && kind != Free
      modifies `nodes
      ensures r != Panicked ==> KindsKept(old(nodes), nodes)
      ensures CreatedAs(old(nodes), nodes, Start(path, cwd), Elems(path, 0), kind, room, r)
      ensures r.Done? && nodes != old(nodes) ==>
        var dp := Holder(old(nodes), Start(path, cwd), Elems(path, 0)).inum;
        Inv(nodes) <==> Linked(old(nodes), dp) && (kind == Dir ==> old(nodes)[dp].nlink < MAXLINK)
    {
      hide Inv;
      hide Resolve;
      hide Holder;
      hide Elems;
      hide Lookup;
      hide Slot;
      hide Created;
      ghost var ns, start, es := nodes, Start(path, cwd), Elems(path, 0);
      var place, name := Namex(path, true, cwd);
      if place.Missing? {
        return Failed;
      }
      if place.Panics? {
        return Panicked;
      }
      var dp := place.inum;
      HolderResolves(ns, start, es);
      var at := Dirlookup(dp, name);
      if at.Some? {
        InvRange(ns, dp, at.value);
        var found := nodes[dp].ents[at.value].inum;
        if nodes[found].kind == Free {
          return Panicked;
        }
        return if kind == File && nodes[found].kind == File then Done(found) else Failed;
      }
      r := CreateIn(dp, name, kind, room);
      if r.Done? {
        CreatedKinds(ns, r.inum, dp, name, kind);
        CreateExact(ns, r.inum, dp, name, kind);
        CreateFound(ns, r.inum, dp, name, kind, start, es);
      }
    }

    method Link(from: string, to: string, cwd: nat, room: nat) returns (r: Outcome)
      requires Inv(nodes) && IsDir(nodes, cwd)
      modifies `nodes
      ensures r == Failed ==> nodes == old(nodes)
      ensures r != Panicked ==> KindsKept(old(nodes), nodes)
      ensures LinkedTo(old(nodes), nodes, Start(from, cwd), Elems(from, 0), Start(to, cwd), Elems(to, 0), room, r)
      ensures r.Done? ==>
        var dp := Holder(old(nodes), Start(to, cwd), Elems(to, 0)).inum;
        Inv(nodes) <==> Linked(old(nodes), dp) && old(nodes)[r.inum].nlink < MAXLINK
    {
      hide Inv;
      hide Resolve;
      hide Holder;
      hide Elems;
      hide Lookup;
      hide Slot;
      hide EnteredAs;
      var a, _ := Namex(from, false, cwd);
      if a.Missing? {
        return Failed;
      }
      if a.Panics? || a.inum >= |nodes| || nodes[a.inum].kind == Free {
        return Panicked;
      }
      if nodes[a.inum].kind == Dir {
        return Failed;
      }
      r := LinkAs(a.inum, to, cwd, room);
    }

    /** The part of link that enters the file ip. */
    method LinkAs(ip: nat, to: string, cwd: nat, room: nat) returns (r: Outcome)
      requires Inv(nodes) && IsDir(nodes, cwd) && ip < |nodes| && nodes[ip].kind !in {Free, Dir}
      modifies `nodes
      ensures r == Failed ==> nodes == old(nodes)
      ensures r != Panicked ==> KindsKept(old(nodes), nodes)
      ensures EnteredAs(old(nodes), nodes, ip, Start(to, cwd), Elems(to, 0), room, r)
      ensures r.Done? ==>
        var dp := Holder(old(nodes), Start(to, cwd), Elems(to, 0)).inum;
        r.inum == ip && (Inv(nodes) <==> Linked(old(nodes), dp) && old(nodes)[ip].nlink < MAXLINK)
    {
      hide Inv;
      hide Resolve;
      hide Holder;
      hide Elems;
      hide Lookup;
      hide Slot;
      ghost var ns, start, es := nodes, Start(to, cwd), Elems(to, 0);
      InvZero(ns);
      nodes := nodes[ip := nodes[ip].(nlink := Inc(nodes[ip].nlink))];
      HolderSame(ns, nodes, start, es);
      var place, name := Namex(to, true, cwd);
      if place.Panics? {
        return Panicked;
      }
      if place.At? {
        var dp := place.inum;
        HolderResolves(ns, start, es);
        r := Dirlink(dp, name, ip, room);
        if r.Panicked? {
          return;
        }
        if r.Done? {
          assert nodes == AddLink(ns, ip, dp, Slot(ns[dp].ents), name);
          LinkExact(ns, ip, dp, name);
          EnteredFound(ns, nodes, dp, name, ip, start, es);
          return;
        }
      }
      nodes := nodes[ip := nodes[ip].(nlink := Dec(nodes[ip].nlink))];
      assert nodes == ns;
      return Failed;
    }
  
    method Unlink(path: string, cwd: nat) returns (r: Outcome)
      requires Inv(nodes) && IsDir(nodes, cwd)
      modifies `nodes
      ensures r == Failed ==> nodes == old(nodes)
      ensures Inv(nodes) && KindsKept(old(nodes), nodes) && (r.Done? ==> 0 < r.inum < |nodes| && nodes[r.inum].kind != Free)
      ensures Unlinked(old(nodes), nodes, Start(path, cwd), Elems(path, 0), r)
    {
      hide Inv;
      hide Resolve;
      hide Holder;
      hide Elems;
      hide Lookup;
      hide Slot;
      ghost var ns, start, es := nodes, Start(path, cwd), Elems(path, 0);
      var place, name := Namex(path, true, cwd);
      if place.Missing? {
        return Failed;
      }
      if place.Panics? {
        return Panicked;
      }
      var dp := place.inum;
      HolderResolves(ns, start, es);
      if name == "." || name == ".." {
        return Failed;
      }
      var at := Dirlookup(dp, name);
      if at.None? {
        return Failed;
      }
      var k, ip := at.value, nodes[dp].ents[at.value].inum;
      PastDots(ns, dp, k);
      InvRange(ns, dp, k);
      assert Names(ns, dp, k, ip);
      NotSelf(ns, dp, k, ip);
      NamedLinks(ns, dp, k, ip);
      if nodes[ip].nlink < 1 {
        r := Panicked;
      } else {
        r := Remove(dp, k, ip, start, es);
      }
    }

    /** The rest of unlink, once the entry is found and its inode has links. */
    method Remove(dp: nat, k: nat, ip: nat, ghost start: nat, ghost es: seq<Name>) returns (r: Outcome)
      requires Inv(nodes) && Names(nodes, dp, k, ip) && ip < |nodes| && ip != dp && nodes[ip].kind != Free
      requires Holder(nodes, start, es) == At(dp) && es != [] && Lookup(nodes[dp].ents, Last(es)) == Some(k)
      modifies `nodes
      ensures Inv(nodes) && KindsKept(old(nodes), nodes)
      ensures if IsDir(old(nodes), ip) && !EmptyDir(old(nodes)[ip].ents) then r == Failed && nodes == old(nodes)
        else
          && r == Done(ip) && Resolve(nodes, start, es) == Missing && |nodes| == |old(nodes)|
          && nodes == (if IsDir(old(nodes), ip) then DropDir(old(nodes), ip, dp, k) else DropLink(old(nodes), ip, dp, k))
          && nodes[ip].nlink == old(nodes)[ip].nlink - 1
    {
      hide Inv;
      hide Resolve;
      hide Holder;
      hide Lookup;
      ghost var ns := nodes;
      var isDir, empty := nodes[ip].kind == Dir, true;
      if isDir {
        empty := Isdirempty(ip);
      }
      if isDir && empty {
        DropDirInv(ns, ip, dp, k);
      } else if !isDir {
        DropInv(ns, ip, dp, k);
      }
      if isDir && !empty {
        return Failed;
      }
      nodes := nodes[dp := nodes[dp].(ents := Put(nodes[dp].ents, k, NOENT))];
      if isDir {
        nodes := nodes[dp := nodes[dp].(nlink := Dec(nodes[dp].nlink))];
      }
      nodes := nodes[ip := nodes[ip].(nlink := Dec(nodes[ip].nlink))];
      assert nodes == (if isDir then DropDir(ns, ip, dp, k) else DropLink(ns, ip, dp, k));
      InvUnique(ns);
      ClearedMissing(ns, nodes, dp, k, start, es);
      return Done(ip);
    }

    /** idup, for an open file or a current directory. */
    method Idup(ip: nat)
      requires Held(nodes, refs) && 0 < ip < |nodes| && nodes[ip].kind != Free
      modifies `refs
      ensures Held(nodes, refs) && refs == old(refs)[ip := old(refs)[ip] + 1]
    {
      refs := refs[ip := refs[ip] + 1];
    }

    /** iput: an inode without links is freed with its last reference, and not before. */
    method Iput(ip: nat)
      requires Inv(nodes) && Held(nodes, refs) && ip < |nodes| && refs[ip] > 0
      modifies this
      ensures Inv(nodes) && Held(nodes, refs) && refs == old(refs)[ip := old(refs)[ip] - 1]
      ensures nodes == Gone(old(nodes), refs, ip)
      ensures nodes[ip].kind == Free <==> old(refs)[ip] == 1 && old(nodes)[ip].nlink == 0
    {
      hide Inv;
      if nodes[ip].nlink == 0 && refs[ip] == 1 {
        SwapInv(nodes, ip, NONE);
        nodes := nodes[ip := NONE];
      }
      refs := refs[ip := refs[ip] - 1];
    }

    /** sys_unlink to its end: the reference that the lookup took is put. */
    method SysUnlink(path: string, cwd: nat) returns (r: Outcome, ghost mid: Nodes)
      requires Inv(nodes) && Held(nodes, refs) && IsDir(nodes, cwd)
      modifies this
      ensures Inv(nodes) && Held(nodes, refs) && refs == old(refs)
      ensures Unlinked(old(nodes), mid, Start(path, cwd), Elems(path, 0), r) && |mid| == |old(nodes)|
      ensures r == Failed ==> nodes == old(nodes)
      ensures r.Done? ==> r.inum < |mid| && nodes == Gone(mid, refs, r.inum)
      ensures forall i: nat :: i < |old(nodes)| && refs[i] > 0 ==> nodes[i].kind == old(nodes)[i].kind
      ensures r.Done? ==>
        && r.inum < |nodes| == |old(nodes)|
        && (nodes[r.inum].kind == Free <==> refs[r.inum] == 0 && old(nodes)[r.inum].nlink == 1)
        && (Linked(nodes, Start(path, cwd)) || nodes[r.inum].kind != Free ==>
              Resolve(nodes, Start(path, cwd), Elems(path, 0)) == Missing)
    {
      hide Inv;
      hide Resolve;
      hide Elems;
      hide Holder;
      hide Lookup;
      r := Unlink(path, cwd);
      mid := nodes;
      if r.Done? {
        var ip := r.inum;
        refs := refs[ip := refs[ip] + 1];
        Iput(ip);
        if mid != nodes && Linked(nodes, Start(path, cwd)) {
          FreedResolve(mid, ip, Start(path, cwd), Elems(path, 0));
        }
        assert refs == old(refs);
      }
    }
  }

  // ----- Runs that break the link counts -----

  lemma OneElem(p: string, e: Name)
    requires e != "" && '/' !in e && (p == e || p == "/" + e)
    ensures Elems(p, 0) == [e]
  {
    var i := if p == e then 0 else 1;
    assert Slashes(p, 0) == i;
    ElemEndAll(p, i);
    assert p[i..|p|] == e;
    assert Elems(p, |p|) == [];
  }

  /** A tree with one empty directory d, made in an empty tree of n inodes and then removed. */
  method RemoveDir(n: nat) returns (t: FileTree)
    requires n > 3
    ensures fresh(t) && Inv(t.nodes) && |t.nodes| == n
    ensures t.nodes[1] == Node(Dir, 1, Dots2(1, 1) + [NOENT]) && t.nodes[2] == Node(Dir, 0, Dots2(2, 1))
    ensures t.nodes[0] == NONE && forall i: nat :: 3 <= i < n ==> t.nodes[i] == NONE
  {
    hide Inv;
    t := new FileTree(n, [], 0);
    OneElem("/d", "d");
    ghost var n0 := t.nodes;
    NoSuch(n0, 1, 1, "d");
    assert n0[2].kind == Free;
    var mkdir := t.Create("/d", ROOTINO, Dir, 9);
    assert mkdir == Done(2);
    ghost var n1 := t.nodes;
    assert n1[1] == Node(Dir, 2, Dots2(1, 1) + [Dirent(2, "d")]) && n1[2] == Node(Dir, 1, Dots2(2, 1));
    assert Holder(n1, 1, ["d"]) == At(1) && Lookup(n1[1].ents, "d") == Some(2);
    assert EmptyDir(n1[2].ents);
    var rmdir := t.Unlink("/d", ROOTINO);
    assert rmdir == Done(2);
  }

  lemma {:induction false} NoSuch(ns: Nodes, d: nat, up: nat, name: Name)
    requires IsDir(ns, d) && ns[d].ents == Dots2(d, up) && up != 0 && name != "." && name != ".." && d != 0
    ensures Lookup(ns[d].ents, name).None? && Slot(ns[d].ents) == 2
    ensures Holder(ns, d, [name]) == At(d) && Resolve(ns, d, [name]) == Missing
  {
  }

  /** A file created in a current directory that has been removed: its one link is counted nowhere. */
  method CreateInRemoved() returns (t: FileTree)
    ensures !Inv(t.nodes) && |t.nodes| == 4 && t.nodes[3].kind == File && t.nodes[3].nlink == 1
  {
    hide Inv;
    t := RemoveDir(4);
    OneElem("f", "f");
    NoSuch(t.nodes, 2, 1, "f");
    assert t.nodes[3].kind == Free;
    var file := t.Create("f", 2, File, 9);
    assert file == Done(3);
  }

  /** So does a directory; its parent has a link again, but nothing names it. */
  method MkdirInRemoved() returns (t: FileTree)
    ensures !Inv(t.nodes) && |t.nodes| == 4 && t.nodes[3].kind == Dir && Linked(t.nodes, 2)
  {
    hide Inv;
    t := RemoveDir(4);
    OneElem("e", "e");
    NoSuch(t.nodes, 2, 1, "e");
    assert t.nodes[3].kind == Free;
    var dir := t.Create("e", 2, Dir, 9);
    assert dir == Done(3);
  }

  /** A link made in it to a file that is still linked leaves the file with a link too many. */
  method LinkInRemoved() returns (t: FileTree)
    ensures !Inv(t.nodes) && |t.nodes| == 4 && t.nodes[3].kind == File && t.nodes[3].nlink == 2
  {
    hide Inv;
    t := RemoveDir(4);
    OneElem("/a", "a");
    OneElem("x", "x");
    ghost var n0 := t.nodes;
    assert n0[3].kind == Free && n0[1].ents[2].inum == 0;
    assert Lookup(n0[1].ents, "a").None? && Slot(n0[1].ents, 1) == 2;
    assert Holder(n0, 1, ["a"]) == At(1) && Resolve(n0, 1, ["a"]) == Missing;
    var file := t.Create("/a", 2, File, 9);
    assert file == Done(3);
    NoSuch(t.nodes, 2, 1, "x");
    var link := t.Link("/a", "x", 2, 9);
    assert link == Done(3);
  }

  /** /p and /p/x made in an empty tree of four inodes. */
  method TwoDirs() returns (t: FileTree)
    ensures fresh(t) && Inv(t.nodes) && t.refs == [0, 0, 0, 0] && Held(t.nodes, t.refs)
    ensures t.nodes == [NONE, Node(Dir, 2, Dots2(1, 1) + [Dirent(2, "p")]),
                        Node(Dir, 2, Dots2(2, 1) + [Dirent(3, "x")]), Node(Dir, 1, Dots2(3, 2))]
  {
    hide Inv;
    t := new FileTree(4, [], 0);
    OneElem("/p", "p");
    MakeIn(t, "/p", ROOTINO, 1, "p", 2, 1);
    OneElem("x", "x");
    MakeIn(t, "x", 2, 2, "x", 3, 1);
  }

  /** mkdir of name in d, an empty directory with parent up; c is the first free inode. */
  method MakeIn(t: FileTree, path: string, cwd: nat, d: nat, name: Name, c: nat, up: nat)
    requires Inv(t.nodes) && IsDir(t.nodes, cwd) && Linked(t.nodes, d) && d != 0 && d != c && t.nodes[d].nlink < MAXLINK
    requires Start(path, cwd) == d && Elems(path, 0) == [name] && name != "." && name != ".." && up != 0
    requires t.nodes[d].ents == Dots2(d, up) && 0 < c < |t.nodes| && t.nodes[c] == NONE
    requires forall i: nat :: 1 <= i < c ==> t.nodes[i].kind != Free
    modifies t`nodes
    ensures Inv(t.nodes) && t.nodes == old(t.nodes)[c := Node(Dir, 1, Dots2(c, d))]
              [d := Node(Dir, old(t.nodes)[d].nlink + 1, Dots2(d, up) + [Dirent(c, name)])]
  {
    hide Inv;
    ghost var ns := t.nodes;
    NoSuch(ns, d, up, name);
    hide Holder;
    hide Resolve;
    hide Lookup;
    hide Slot;
    var made := t.Create(path, cwd, Dir, 9);
    assert made == Done(c);
  }

  /** Directory c, entry 2 of d, is empty and named name: it goes, if nobody refers to it. */
  lemma {:induction false} EntryTwo(ns: Nodes, d: nat, c: nat, name: Name)
    requires IsDir(ns, d) && d != 0 && ns[d].ents == Dots2(d, 1) + [Dirent(c, name)] && c != 0 && name != "." && name != ".."
    ensures Holder(ns, d, [name]) == At(d) && Lookup(ns[d].ents, name) == Some(2)
  {
    assert Lookup(ns[d].ents, name, 1) == Lookup(ns[d].ents, name, 2) == Some(2);
  }

  /**
   * ".." is not a reference: a process stays in /p/x while x and then p are removed.  p is freed, and
   * the path ".." of the process names a free inode, which ilock panics on.
   */
  method ParentGone() returns (t: FileTree, place: Place)
    ensures Inv(t.nodes) && Held(t.nodes, t.refs) && |t.nodes| == 4 && t.refs[3] == 1
    ensures place == At(2) && t.nodes[2].kind == Free
  {
    hide Inv;
    t := TwoDirs();
    t.Idup(3);
    OneElem("x", "x");
    EntryTwo(t.nodes, 2, 3, "x");
    hide Holder;
    hide Lookup;
    var rx, m1 := t.SysUnlink("x", 2);
    assert rx == Done(3);
    assert t.nodes[1] == Node(Dir, 2, Dots2(1, 1) + [Dirent(2, "p")]);
    assert t.nodes[2] == Node(Dir, 1, Dots2(2, 1) + [NOENT]) && t.nodes[3] == Node(Dir, 0, Dots2(3, 2));
    OneElem("/p", "p");
    EntryTwo(t.nodes, 1, 2, "p");
    var rp, m2 := t.SysUnlink("/p", ROOTINO);
    assert rp == Done(2);
    place := UpFrom(t, 3, 2);
  }

  method UpFrom(t: FileTree, d: nat, up: nat) returns (place: Place)
    requires IsDir(t.nodes, d) && t.nodes[d].ents == Dots2(d, up) && up != 0
    ensures place == At(up)
  {
    OneElem("..", "..");
    assert Lookup(t.nodes[d].ents, "..") == Some(1);
    var name;
    place, name := t.Namex("..", false, d);
  }
}
