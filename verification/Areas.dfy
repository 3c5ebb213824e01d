// The table of mapped areas (proc.c): what fork enters in it for a child.
module Areas {
  import opened Common

  /** The areas of process p in use, in the order of the table. */
  function Live(areas: seq<Area>, p: nat): seq<Area> {
    if areas == [] then []
    else (if areas[0].proc == p && areas[0].status != 0 then [areas[0]] else []) + Live(areas[1..], p)
  }

  function Unowned(areas: seq<Area>): nat {
    if areas == [] then 0 else (if areas[0].status == 0 then 1 else 0) + Unowned(areas[1..])
  }

  /** There is an unused area for each of p's. */
  predicate Room(areas: seq<Area>, p: nat) {
    |Live(areas, p)| <= Unowned(areas)
  }

  /** The same areas, of process p. */
  function Given(cs: seq<Area>, p: nat): (r: seq<Area>)
    ensures |r| == |cs| && forall i :: 0 <= i < |cs| ==> r[i] == cs[i].(proc := p)
  {
    seq(|cs|, i requires 0 <= i < |cs| => cs[i].(proc := p))
  }

  /** The table with cs entered in its unused areas, from the first on, as far as they go. */
  function Filled(areas: seq<Area>, cs: seq<Area>): (r: seq<Area>)
    ensures |r| == |areas|
  {
    if areas == [] then []
    else if areas[0].status == 0 && cs != [] then [cs[0]] + Filled(areas[1..], cs[1..])
    else [areas[0]] + Filled(areas[1..], cs)
  }

  /** The table when fork has gone through its first n areas: those of cur are there again for np. */
  function Forked(areas: seq<Area>, cur: nat, np: nat, n: nat): (r: seq<Area>)
    requires n <= |areas|
    ensures |r| == |areas|
  {
    Filled(areas, Given(Live(areas[..n], cur), np))
  }

  /** fork got some way through the table. */
  ghost predicate PartlyForked(areas: seq<Area>, cur: nat, np: nat, after: seq<Area>) {
    exists n: nat :: n <= |areas| && after == Forked(areas, cur, np, n)
  }

  predicate Used(cs: seq<Area>, p: nat) {
    forall i :: 0 <= i < |cs| ==> cs[i].proc == p && cs[i].status != 0
  }

  // ----- Counting -----

  lemma {:induction false} LiveUsed(areas: seq<Area>, p: nat)
    ensures Used(Live(areas, p), p)
  {
    if areas != [] {
      LiveUsed(areas[1..], p);
    }
  }

  lemma {:induction false} LiveAppend(a: seq<Area>, b: seq<Area>, p: nat)
    ensures Live(a + b, p) == Live(a, p) + Live(b, p)
  {
    if a == [] {
      assert a + b == b && [] + Live(b, p) == Live(b, p);
    } else {
      assert (a + b)[0] == a[0] && (a + b)[1..] == a[1..] + b;
      LiveAppend(a[1..], b, p);
    }
  }

  lemma LiveNext(areas: seq<Area>, p: nat, i: nat)
    requires i < |areas|
    ensures Live(areas[..i + 1], p) ==
      Live(areas[..i], p) + if areas[i].proc == p && areas[i].status != 0 then [areas[i]] else []
    ensures |Live(areas[..i + 1], p)| <= |Live(areas, p)|
  {
    var one := [areas[i]];
    assert areas[..i + 1] == areas[..i] + one && areas == areas[..i + 1] + areas[i + 1..];
    LiveAppend(areas[..i], one, p);
    LiveAppend(areas[..i + 1], areas[i + 1..], p);
    assert one[1..] == [];
  }

  lemma OneCounts(a: Area)
    ensures Unowned([a]) == (if a.status == 0 then 1 else 0)
    ensures forall p: nat :: |Live([a], p)| == if a.proc == p && a.status != 0 then 1 else 0
  {
    var none := [a][1..];
    assert none == [] && Unowned(none) == 0;
    forall p: nat
      ensures |Live([a], p)| == if a.proc == p && a.status != 0 then 1 else 0
    {
      assert Live(none, p) == [];
    }
  }

  lemma {:induction false} NoneUnowned(areas: seq<Area>)
    ensures Unowned(areas) == 0 <==> forall j :: 0 <= j < |areas| ==> areas[j].status != 0
  {
    if areas != [] {
      NoneUnowned(areas[1..]);
      assert forall j :: 1 <= j < |areas| ==> areas[j] == areas[1..][j - 1];
    }
  }

  lemma {:induction false} UnownedFilled(areas: seq<Area>, cs: seq<Area>, p: nat)
    requires Used(cs, p) && |cs| <= Unowned(areas)
    ensures Unowned(Filled(areas, cs)) == Unowned(areas) - |cs|
  {
    if areas != [] {
      UnownedFilled(areas[1..], if areas[0].status == 0 && cs != [] then cs[1..] else cs, p);
      assert Filled(areas, cs)[1..] == Filled(areas[1..], if areas[0].status == 0 && cs != [] then cs[1..] else cs);
    }
  }

  // ----- Entering areas one after the other -----

  lemma {:induction false} FilledNone(areas: seq<Area>)
    ensures Filled(areas, []) == areas
  {
    if areas != [] {
      FilledNone(areas[1..]);
    }
  }

  /** An area in use stays, and an unused one is only taken by one of cs. */
  lemma {:induction false} FilledAt(areas: seq<Area>, cs: seq<Area>, p: nat, i: nat)
    requires i < |areas| && Used(cs, p)
    ensures areas[i].status != 0 ==> Filled(areas, cs)[i] == areas[i]
    ensures areas[i].status == 0 ==> Filled(areas, cs)[i] == areas[i] || Filled(areas, cs)[i] in cs
  {
    var rest := if areas[0].status == 0 && cs != [] then cs[1..] else cs;
    assert Filled(areas, cs)[1..] == Filled(areas[1..], rest);
    if i > 0 {
      FilledAt(areas[1..], rest, p, i - 1);
      assert Filled(areas, cs)[i] == Filled(areas[1..], rest)[i - 1];
    }
  }

  lemma FilledStep(areas: seq<Area>, cs: seq<Area>)
    requires areas != []
    ensures Filled(areas, cs) ==
      if areas[0].status == 0 && cs != [] then [cs[0]] + Filled(areas[1..], cs[1..])
      else [areas[0]] + Filled(areas[1..], cs)
  {
  }

  /** k is the first unused area. */
  predicate FirstFree(areas: seq<Area>, k: nat) {
    k < |areas| && areas[k].status == 0 && forall j :: 0 <= j < k ==> areas[j].status != 0
  }

  lemma FirstFreeTail(x: Area, s: seq<Area>, k: nat, a: Area)
    requires FirstFree([x] + s, k) && x.status != 0
    ensures k > 0 && FirstFree(s, k - 1) && ([x] + s)[k := a] == [x] + s[k - 1 := a]
  {
    var now := [x] + s;
    assert now[0] == x && forall j :: 0 <= j < |s| ==> s[j] == now[j + 1];
  }

  /** Entering one more at the first unused area. */
  lemma {:induction false} FilledMore(areas: seq<Area>, cs: seq<Area>, p: nat, k: nat, a: Area)
    requires Used(cs, p) && FirstFree(Filled(areas, cs), k)
    ensures Filled(areas, cs)[k := a] == Filled(areas, cs + [a])
  {
    hide Filled;
    var all := cs + [a];
    FilledStep(areas, cs);
    FilledStep(areas, all);
    if areas[0].status == 0 && cs == [] {
      FilledNone(areas);
      FilledNone(areas[1..]);
      assert all == [a] && all[1..] == [];
      assert k == 0 && areas[0 := a] == [a] + areas[1..];
    } else if areas[0].status == 0 {
      assert all[0] == cs[0] && all[1..] == cs[1..] + [a];
      FirstFreeTail(cs[0], Filled(areas[1..], cs[1..]), k, a);
      hide FirstFree;
      FilledMore(areas[1..], cs[1..], p, k - 1, a);
    } else {
      FirstFreeTail(areas[0], Filled(areas[1..], cs), k, a);
      hide FirstFree;
      FilledMore(areas[1..], cs, p, k - 1, a);
    }
  }

  // ----- What the processes then have -----

  lemma LiveCons(x: Area, s: seq<Area>, p: nat)
    ensures Live([x] + s, p) == (if x.proc == p && x.status != 0 then [x] else []) + Live(s, p)
  {
    assert ([x] + s)[1..] == s;
  }

  /** The others have what they had. */
  lemma {:induction false} OthersKeep(areas: seq<Area>, cs: seq<Area>, p: nat, q: nat)
    requires Used(cs, p) && p != q
    ensures Live(Filled(areas, cs), q) == Live(areas, q)
  {
    hide Live;
    hide Filled;
    FilledNone([]);
    if areas == [] {
      assert Filled(areas, cs) == areas;
    } else {
      FilledStep(areas, cs);
      var took := areas[0].status == 0 && cs != [];
      var rest := if took then cs[1..] else cs;
      OthersKeep(areas[1..], rest, p, q);
      LiveCons(if took then cs[0] else areas[0], Filled(areas[1..], rest), q);
      LiveCons(areas[0], areas[1..], q);
      assert areas == [areas[0]] + areas[1..];
    }
  }

  ghost function Bag(areas: seq<Area>, p: nat): multiset<Area> {
    multiset(Live(areas, p))
  }

  lemma BagCons(x: Area, s: seq<Area>, p: nat)
    ensures Bag([x] + s, p) == (if x.proc == p && x.status != 0 then multiset{x} else multiset{}) + Bag(s, p)
  {
    LiveCons(x, s, p);
  }

  lemma Bags(cs: seq<Area>)
    requires cs != []
    ensures multiset(cs) == multiset{cs[0]} + multiset(cs[1..])
  {
    assert cs == [cs[0]] + cs[1..];
  }

  /** p has cs besides. */
  lemma {:induction false} OwnerGains(areas: seq<Area>, cs: seq<Area>, p: nat)
    requires Used(cs, p) && |cs| <= Unowned(areas)
    ensures Bag(Filled(areas, cs), p) == Bag(areas, p) + multiset(cs)
  {
    if areas != [] {
      hide Bag;
      hide Filled;
      var rest := areas[1..];
      assert areas == [areas[0]] + rest;
      FilledStep(areas, cs);
      BagCons(areas[0], rest, p);
      if areas[0].status == 0 && cs != [] {
        OwnerGains(rest, cs[1..], p);
        hide Unowned;
        BagCons(cs[0], Filled(rest, cs[1..]), p);
        Bags(cs);
      } else {
        OwnerGains(rest, cs, p);
        hide Unowned;
        hide Used;
        BagCons(areas[0], Filled(rest, cs), p);
      }
    }
  }

  /** Having had nothing it has cs, in order. */
  lemma {:induction false} OwnerHas(areas: seq<Area>, cs: seq<Area>, p: nat)
    requires Used(cs, p) && |cs| <= Unowned(areas) && Live(areas, p) == []
    ensures Live(Filled(areas, cs), p) == cs
  {
    if areas != [] {
      hide Live;
      hide Filled;
      FilledStep(areas, cs);
      var took := areas[0].status == 0 && cs != [];
      var rest := if took then cs[1..] else cs;
      LiveCons(areas[0], areas[1..], p);
      assert areas == [areas[0]] + areas[1..];
      OwnerHas(areas[1..], rest, p);
      LiveCons(if took then cs[0] else areas[0], Filled(areas[1..], rest), p);
      assert took ==> cs == [cs[0]] + rest;
      assert [] + rest == rest;
    }
  }

  // ----- fork -----

  /** The next area of the table, in use by cur, is what it was and goes to the first unused area, if there is one. */
  lemma ForkedNext(areas: seq<Area>, cur: nat, np: nat, i: nat)
    requires i < |areas| && cur != np && |Live(areas[..i], cur)| <= Unowned(areas)
    ensures var now, mine := Forked(areas, cur, np, i), areas[i].proc == cur && areas[i].status != 0;
      && (now[i].proc == cur && now[i].status != 0 <==> mine)
      && (!mine ==> Forked(areas, cur, np, i + 1) == now && Live(areas[..i + 1], cur) == Live(areas[..i], cur))
      && (mine ==> now[i] == areas[i] && |Live(areas[..i + 1], cur)| == |Live(areas[..i], cur)| + 1)
      && Unowned(now) == Unowned(areas) - |Live(areas[..i], cur)|
  {
    var live := Live(areas[..i], cur);
    var cs := Given(live, np);
    LiveUsed(areas[..i], cur);
    LiveNext(areas, cur, i);
    UnownedFilled(areas, cs, np);
    FilledAt(areas, cs, np, i);
    assert live + [] == live;
  }

  lemma ForkedNone(areas: seq<Area>, cur: nat, np: nat)
    ensures Forked(areas, cur, np, 0) == areas && Live(areas[..0], cur) == []
  {
    FilledNone(areas);
  }

  lemma ForkedEnter(areas: seq<Area>, cur: nat, np: nat, i: nat, k: nat)
    requires i < |areas| && cur != np && areas[i].proc == cur && areas[i].status != 0
    requires FirstFree(Forked(areas, cur, np, i), k)
    ensures Forked(areas, cur, np, i)[k := areas[i].(proc := np)] == Forked(areas, cur, np, i + 1)
  {
    var live := Live(areas[..i], cur);
    LiveUsed(areas[..i], cur);
    LiveNext(areas, cur, i);
    FilledMore(areas, Given(live, np), np, k, areas[i].(proc := np));
    assert Given(live + [areas[i]], np) == Given(live, np) + [areas[i].(proc := np)];
  }

  /**
   * After a whole fork the child has the parent's areas, in order, exactly when it had none of a process
   * before it in its slot; the parent's and all others' are as before.
   */
  lemma ChildAreas(areas: seq<Area>, cur: nat, np: nat)
    requires cur != np && Room(areas, cur)
    ensures var after := Forked(areas, cur, np, |areas|);
      && (forall q: nat :: q != np ==> Live(after, q) == Live(areas, q))
      && multiset(Live(after, np)) == multiset(Live(areas, np)) + multiset(Given(Live(areas, cur), np))
      && (Live(after, np) == Given(Live(areas, cur), np) <==> Live(areas, np) == [])
      && (forall i :: 0 <= i < |areas| && areas[i].status != 0 ==> after[i] == areas[i])
  {
    var cs := Given(Live(areas, cur), np);
    var after := Forked(areas, cur, np, |areas|);
    assert areas[..|areas|] == areas;
    LiveUsed(areas, cur);
    OwnerGains(areas, cs, np);
    if Live(areas, np) == [] {
      OwnerHas(areas, cs, np);
    } else {
      assert Live(areas, np)[0] in multiset(Live(areas, np));
      assert multiset(Live(areas, np)) != multiset{};
    }
    forall q: nat | q != np
      ensures Live(after, q) == Live(areas, q)
    {
      OthersKeep(areas, cs, np, q);
    }
    forall i | 0 <= i < |areas| && areas[i].status != 0
      ensures after[i] == areas[i]
    {
      FilledAt(areas, cs, np, i);
    }
  }
}
