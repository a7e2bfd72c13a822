/** When upgrades handed over in two calls, sorted after each, can be told from one list of upgrades. */
module UpgradeOrder {
  import opened Bytes
  import opened NameOrder
  import opened MultiTrees
  import opened PendingLog
  import V = Versioned

  // ------------------------------------------------------------------ telling two arrangements apart

  /** The upgrades end with different trees. */
  ghost predicate Told(next: nat, a: seq<Named>, b: seq<Named>, w: seq<Upgrade>) {
    var x, y := UpgradeAll(next, a, w), UpgradeAll(next, b, w);
    && x.Some? && y.Some? && Distinct(NameOf, x.value) && Distinct(NameOf, y.value)
    && !SameElements(x.value, y.value)
  }

  /** The same trees in two arrangements. */
  ghost predicate Rearranged(a: seq<Named>, b: seq<Named>) {
    Alike(a, b) && |a| == |b|
  }

  /** Two trees with different contents stand in one order in `a` and in the other order in `b`. */
  predicate Crossed(a: seq<Named>, b: seq<Named>, p: nat, q: nat, r: nat, s: nat) {
    p < q < |a| && r < s < |b| && a[p] == b[s] && a[q] == b[r] && a[p].tree != a[q].tree
  }

  /** Renames one tree to the name of another and deletes whichever of the two comes first. */
  function Retire(source: Bytes, name: Bytes): seq<Upgrade> {
    [Upgrade(name, source, false), Upgrade(name, [], true)]
  }

  function Dropped(a: seq<Named>, i: nat): seq<Named>
    requires i < |a|
  {
    a[i := a[|a| - 1]][..|a| - 1]
  }

  lemma FoundFirst(a: seq<Named>, i: nat, name: Bytes)
    requires i < |a| && a[i].name == name && forall j :: 0 <= j < i ==> a[j].name != name
    ensures IndexOf(a, name) == i
  {
  }

  lemma Deletes(next: nat, a: seq<Named>, i: nat)
    requires Distinct(NameOf, a) && i < |a|
    ensures UpgradeAll(next, a, [Upgrade(a[i].name, [], true)]) == Some(Dropped(a, i))
    ensures Distinct(NameOf, Dropped(a, i))
  {
    DeletedElements(a, i);
    var w := [Upgrade(a[i].name, [], true)];
    assert w[..0] == [];
    assert IndexOf(a, a[i].name) == i;
  }

  lemma Retires(next: nat, a: seq<Named>, p: nat, q: nat)
    requires Distinct(NameOf, a) && p < |a| && q < |a| && p != q && a[p].name != []
    ensures var r := UpgradeAll(next, a, Retire(a[p].name, a[q].name));
      && r.Some? && Distinct(NameOf, r.value)
      && Named(a[q].name, a[if p < q then q else p].tree) in r.value
  {
    var w := Retire(a[p].name, a[q].name);
    var renamed := a[p := Named(a[q].name, a[p].tree)];
    assert w[..1] == [w[0]] && [w[0]][..0] == [];
    assert IndexOf(a, a[p].name) == p;
    assert UpgradeAll(next, a, [w[0]]) == Some(renamed);
    var first, kept := if p < q then p else q, if p < q then q else p;
    FoundFirst(renamed, first, a[q].name);
    var r := Dropped(renamed, first);
    assert UpgradeAll(next, a, w) == Some(r);
    assert r[if kept == |a| - 1 then first else kept] == Named(a[q].name, a[kept].tree);
  }

  lemma CrossedTold(next: nat, a: seq<Named>, b: seq<Named>, p: nat, q: nat, r: nat, s: nat)
    returns (w: seq<Upgrade>)
    requires Distinct(NameOf, a) && Distinct(NameOf, b) && Crossed(a, b, p, q, r, s)
    ensures Told(next, a, b, w)
  {
    hide UpgradeAll;
    var name, one, other := a[q].name, a[q].tree, a[p].tree;
    if a[p].name != [] {
      w := Retire(a[p].name, a[q].name);
      Retires(next, a, p, q);
      Retires(next, b, s, r);
    } else {
      name := a[p].name;
      w := Retire(a[q].name, a[p].name);
      Retires(next, a, q, p);
      Retires(next, b, r, s);
    }
    OneOnly(UpgradeAll(next, a, w).value, name, one, other);
  }

  lemma OneOnly(a: seq<Named>, name: Bytes, one: V.State, other: V.State)
    requires Distinct(NameOf, a) && Named(name, one) in a && one != other
    ensures Named(name, other) !in a
  {
  }

  lemma ToldLater(next: nat, a: seq<Named>, b: seq<Named>, v: seq<Upgrade>, w: seq<Upgrade>)
    requires UpgradeAll(next, a, v).Some? && UpgradeAll(next, b, v).Some?
    requires Told(next, UpgradeAll(next, a, v).value, UpgradeAll(next, b, v).value, w)
    ensures Told(next, a, b, v + w)
  {
    UpgradeConcat(next, a, v, w);
    UpgradeConcat(next, b, v, w);
  }

  // ------------------------------------------------------------------ a difference can always be brought out

  lemma {:induction false} FirstDifference(a: seq<Named>, b: seq<Named>) returns (d: nat)
    requires |a| == |b| && a != b
    ensures d < |a| && a[..d] == b[..d] && a[d] != b[d]
  {
    var front, rest := a[..|a| - 1], b[..|b| - 1];
    assert a == front + [a[|a| - 1]] && b == rest + [b[|b| - 1]];
    if front == rest {
      d := |a| - 1;
    } else {
      d := FirstDifference(front, rest);
      assert front[..d] == a[..d] && rest[..d] == b[..d];
    }
  }

  lemma Place(a: seq<Named>, b: seq<Named>, i: nat) returns (j: nat)
    requires Alike(a, b) && i < |a|
    ensures j < |b| && b[j] == a[i]
  {
    assert a[i] in b;
    j :| 0 <= j < |b| && b[j] == a[i];
  }

  /** After a common beginning the trees at the first difference stand further back on the other side. */
  lemma Beyond(a: seq<Named>, b: seq<Named>, d: nat, i: nat) returns (j: nat)
    requires Alike(a, b) && d <= i < |a| && d < |b| && a[..d] == b[..d] && a[i] != b[d]
    ensures d < j < |b| && b[j] == a[i]
  {
    j := Place(a, b, i);
    forall t | 0 <= t < d ensures b[t].name != a[i].name {
      assert a[..d][t] == b[..d][t];
    }
  }

  function Longest(a: seq<Named>): (name: Bytes)
    ensures forall i :: 0 <= i < |a| ==> |a[i].name| < |name|
  {
    if a == [] then [0] else Longest(a[..|a| - 1]) + a[|a| - 1].name
  }

  /** Adding a tree and deleting another puts the new one in the place of the deleted one. */
  lemma Replaces(next: nat, a: seq<Named>, i: nat, name: Bytes)
    requires Distinct(NameOf, a) && i < |a| && forall j :: 0 <= j < |a| ==> a[j].name != name
    ensures var t := Named(name, NewTree(next));
      && UpgradeAll(next, a, [Upgrade(name, [], false), Upgrade(a[i].name, [], true)]) == Some(a[i := t])
      && Distinct(NameOf, a[i := t])
  {
    var w := [Upgrade(name, [], false), Upgrade(a[i].name, [], true)];
    var t := Named(name, NewTree(next));
    assert w[..1] == [w[0]] && [w[0]][..0] == [];
    assert UpgradeAll(next, a, [w[0]]) == Some(a + [t]);
    FoundFirst(a + [t], i, a[i].name);
    assert (a + [t])[i := t][..|a|] == a[i := t];
  }

  lemma SwapsWithNew(next: nat, a: seq<Named>, b: seq<Named>, p: nat, q: nat, r: nat, s: nat)
    returns (w: seq<Upgrade>)
    requires Alike(a, b) && p < q < |a| && r < s < |b| && a[p] == b[s] && a[q] == b[r]
    requires a[p].tree != NewTree(next)
    ensures Told(next, a, b, w)
  {
    hide UpgradeAll, Told;
    var name := Longest(a);
    forall j | 0 <= j < |b| ensures b[j].name != name {
      assert b[j] in a;
    }
    var v := [Upgrade(name, [], false), Upgrade(a[q].name, [], true)];
    var t := Named(name, NewTree(next));
    Replaces(next, a, q, name);
    Replaces(next, b, r, name);
    w := CrossedTold(next, a[q := t], b[r := t], p, q, r, s);
    ToldLater(next, a, b, v, w);
    w := v + w;
  }

  /** Both last trees are old: deleting the right-hand tree of the pair brings one of them in between. */
  lemma SwapsWithLast(next: nat, a: seq<Named>, b: seq<Named>, d: nat, e: nat, f: nat) returns (w: seq<Upgrade>)
    requires Rearranged(a, b) && d < e < |a| && d < f < |b| && a[..d] == b[..d] && a[d] == b[f] && a[e] == b[d]
    requires a[d].tree == a[e].tree && b[|b| - 1].tree != a[d].tree && a[|a| - 1].tree != a[d].tree
    ensures Told(next, a, b, w)
  {
    hide UpgradeAll, Told;
    var n := |a|;
    var g := Beyond(b, a, d, n - 1);
    Deletes(next, a, e);
    Deletes(next, b, d);
    w := CrossedTold(next, Dropped(a, e), Dropped(b, d), d, if g == n - 1 then e else g, d, f);
    var v := [Upgrade(a[e].name, [], true)];
    ToldLater(next, a, b, v, w);
    w := v + w;
  }

  /** The last trees differ and both are new: one of them is brought in front of an old tree. */
  lemma BringsForward(next: nat, a: seq<Named>, b: seq<Named>, k: nat) returns (w: seq<Upgrade>)
    requires Rearranged(a, b) && 1 <= k < |a| && a[k].tree != NewTree(next)
    requires a[|a| - 1].tree == b[|b| - 1].tree == NewTree(next) && a[|a| - 1] != b[|b| - 1]
    ensures Told(next, a, b, w)
  {
    hide UpgradeAll, Told;
    var n := |a|;
    var h := Place(a, b, n - 1);
    var kb := Place(a, b, k);
    if h < kb {
      w := CrossedTold(next, a, b, k, n - 1, h, kb);
    } else {
      var g := Place(a, b, 0);
      Deletes(next, a, 0);
      Deletes(next, b, g);
      assert a[0].name != a[k].name && a[0].name != a[n - 1].name;
      w := CrossedTold(next, Dropped(a, 0), Dropped(b, g), 0, k, kb, h);
      var v := [Upgrade(a[0].name, [], true)];
      ToldLater(next, a, b, v, w);
      w := v + w;
    }
  }

  /** Every tree but the first is new and empty, and the first has the same contents on both sides. */
  predicate Plain(next: nat, a: seq<Named>, b: seq<Named>) {
    && (forall i :: 1 <= i < |a| ==> a[i].tree == NewTree(next))
    && (a != [] && b != [] ==> a[0].tree == b[0].tree)
  }

  lemma WithoutCommonLast(a: seq<Named>, b: seq<Named>)
    requires Rearranged(a, b) && a != [] && a[|a| - 1] == b[|b| - 1]
    ensures Dropped(a, |a| - 1) == a[..|a| - 1] && Dropped(b, |b| - 1) == b[..|b| - 1]
    ensures Rearranged(a[..|a| - 1], b[..|b| - 1])
  {
    DeletedElements(a, |a| - 1);
    DeletedElements(b, |b| - 1);
    assert Dropped(a, |a| - 1) == a[..|a| - 1] && Dropped(b, |b| - 1) == b[..|b| - 1];
  }

  /** Two arrangements are told apart by some upgrades unless all but the first tree are new. */
  lemma {:induction false} Distinguish(next: nat, a: seq<Named>, b: seq<Named>) returns (w: seq<Upgrade>)
    requires Rearranged(a, b) && a != b && !Plain(next, a, b)
    ensures Told(next, a, b, w)
    decreases |a|
  {
    hide UpgradeAll, Told;
    var n, blank := |a|, NewTree(next);
    var d := FirstDifference(a, b);
    var e := Beyond(b, a, d, d);
    var f := Beyond(a, b, d, d);
    if a[d].tree != b[d].tree {
      w := CrossedTold(next, a, b, d, e, d, f);
    } else if a[d].tree != blank {
      w := SwapsWithNew(next, a, b, d, e, d, f);
    } else {
      var k :| 1 <= k < n && a[k].tree != blank;
      w := OldTreeTells(next, a, b, d, e, f, k);
    }
  }

  lemma {:induction false} OldTreeTells(next: nat, a: seq<Named>, b: seq<Named>, d: nat, e: nat, f: nat, k: nat)
    returns (w: seq<Upgrade>)
    requires Rearranged(a, b) && d < e < |a| && d < f < |b| && a[..d] == b[..d] && a[d] == b[f] && a[e] == b[d]
    requires a[d].tree == a[e].tree == NewTree(next) && 1 <= k < |a| && a[k].tree != NewTree(next)
    ensures Told(next, a, b, w)
    decreases |a|, 0
  {
    hide UpgradeAll, Told;
    var n, blank := |a|, NewTree(next);
    var l, l2 := a[n - 1], b[n - 1];
    if l.tree != blank && l2.tree != blank {
      w := SwapsWithLast(next, a, b, d, e, f);
    } else if l.tree != l2.tree {
      var g := Place(b, a, n - 1);
      var h := Place(a, b, n - 1);
      w := CrossedTold(next, a, b, g, n - 1, h, n - 1);
    } else if l != l2 {
      w := BringsForward(next, a, b, k);
    } else {
      WithoutCommonLast(a, b);
      Deletes(next, a, n - 1);
      Deletes(next, b, n - 1);
      var v := [Upgrade(l.name, [], true)];
      assert a[..n - 1][k] == a[k] && a[..n - 1][d] != b[..n - 1][d];
      w := Distinguish(next, a[..n - 1], b[..n - 1]);
      ToldLater(next, a, b, v, w);
      w := v + w;
    }
  }

  // ------------------------------------------------------------------ new trees are interchangeable

  ghost predicate Twins(next: nat, a: seq<Named>, b: seq<Named>) {
    && multiset(a) == multiset(b) && |a| == |b| && Plain(next, a, b)
    && forall i :: 1 <= i < |b| ==> b[i].tree == NewTree(next)
  }

  lemma TwinsFind(next: nat, a: seq<Named>, b: seq<Named>, name: Bytes)
    requires Twins(next, a, b)
    ensures IndexOf(a, name) >= 0 <==> IndexOf(b, name) >= 0
    ensures var i, j := IndexOf(a, name), IndexOf(b, name);
      i >= 0 && j >= 0 ==> a[i] == b[j] && ((i == 0 <==> j == 0) || a[0].tree == NewTree(next))
  {
    var i, j := IndexOf(a, name), IndexOf(b, name);
    if i >= 0 {
      assert a[i] in multiset(a);
      assert a[i] in b;
    }
    if j >= 0 {
      assert b[j] in multiset(b);
      assert b[j] in a;
    }
    if a != [] && a[0].tree != NewTree(next) {
      assert b[0] in multiset(b);
      assert b[0] in a;
      assert a[0] == b[0];
    }
  }

  lemma RenamedCounts(a: seq<Named>, i: nat, t: Named)
    requires i < |a|
    ensures multiset(a[i := t]) == multiset(a)[a[i] := multiset(a)[a[i]] - 1] + multiset{t}
  {
    assert a[i] in multiset(a);
  }

  lemma DroppedCounts(a: seq<Named>, i: nat)
    requires i < |a|
    ensures multiset(Dropped(a, i)) == multiset(a) - multiset{a[i]}
  {
    var n := |a|;
    assert a == a[..n - 1] + [a[n - 1]];
    assert a[i := a[n - 1]] == Dropped(a, i) + [a[n - 1]];
  }

  lemma TwinsRename(next: nat, a: seq<Named>, b: seq<Named>, i: nat, j: nat, name: Bytes)
    requires Twins(next, a, b) && i < |a| && j < |b| && a[i] == b[j]
    ensures Twins(next, a[i := Named(name, a[i].tree)], b[j := Named(name, b[j].tree)])
  {
    var t := Named(name, a[i].tree);
    assert multiset(a[i := t]) == multiset(b[j := t]) by {
      RenamedCounts(a, i, t);
      RenamedCounts(b, j, t);
    }
  }

  lemma TwinsDelete(next: nat, a: seq<Named>, b: seq<Named>, i: nat, j: nat)
    requires Twins(next, a, b) && i < |a| && j < |b| && a[i] == b[j]
    requires (i == 0 <==> j == 0) || a[0].tree == NewTree(next)
    ensures Twins(next, Dropped(a, i), Dropped(b, j))
  {
    DroppedCounts(a, i);
    DroppedCounts(b, j);
  }

  lemma TwinsAdd(next: nat, a: seq<Named>, b: seq<Named>, name: Bytes)
    requires Twins(next, a, b)
    ensures Twins(next, a + [Named(name, NewTree(next))], b + [Named(name, NewTree(next))])
  {
  }

  lemma TwinsStep(next: nat, a: seq<Named>, b: seq<Named>, u: Upgrade)
    requires Twins(next, a, b)
    ensures UpgradeOne(next, a, u).Some? <==> UpgradeOne(next, b, u).Some?
    ensures UpgradeOne(next, a, u).Some? ==> Twins(next, UpgradeOne(next, a, u).value, UpgradeOne(next, b, u).value)
  {
    hide Twins;
    var name := if u.delete then u.name else u.renameFrom;
    var i, j := IndexOf(a, name), IndexOf(b, name);
    TwinsFind(next, a, b, name);
    if !u.delete && u.renameFrom == [] {
      TwinsAdd(next, a, b, u.name);
    } else if i >= 0 && j >= 0 {
      if u.delete { TwinsDelete(next, a, b, i, j); } else { TwinsRename(next, a, b, i, j, u.name); }
    }
  }

  lemma {:induction false} TwinsStay(next: nat, a: seq<Named>, b: seq<Named>, w: seq<Upgrade>)
    requires Twins(next, a, b)
    ensures UpgradeAll(next, a, w).Some? <==> UpgradeAll(next, b, w).Some?
    ensures UpgradeAll(next, a, w).Some? ==> Twins(next, UpgradeAll(next, a, w).value, UpgradeAll(next, b, w).value)
  {
    hide UpgradeOne, Twins;
    if w != [] {
      var front := w[..|w| - 1];
      TwinsStay(next, a, b, front);
      if UpgradeAll(next, a, front).Some? {
        TwinsStep(next, UpgradeAll(next, a, front).value, UpgradeAll(next, b, front).value, w[|w| - 1]);
      }
    }
  }

  lemma {:induction false} InsertCounts(xs: seq<Named>, x: Named)
    ensures multiset(Insert(NameOf, xs, x)) == multiset(xs) + multiset{x} && |Insert(NameOf, xs, x)| == |xs| + 1
  {
    if xs != [] && !AtMost(NameOf(xs[|xs| - 1]), NameOf(x)) {
      InsertCounts(xs[..|xs| - 1], x);
      assert xs == xs[..|xs| - 1] + [xs[|xs| - 1]];
    }
  }

  lemma {:induction false} SortCounts(xs: seq<Named>)
    ensures multiset(Sort(NameOf, xs)) == multiset(xs) && |Sort(NameOf, xs)| == |xs|
  {
    if xs != [] {
      SortCounts(xs[..|xs| - 1]);
      InsertCounts(Sort(NameOf, xs[..|xs| - 1]), xs[|xs| - 1]);
      assert xs == xs[..|xs| - 1] + [xs[|xs| - 1]];
    }
  }

  lemma Holds(b: seq<Named>, a: seq<Named>, i: nat) returns (p: nat)
    requires multiset(a) == multiset(b) && i < |b|
    ensures p < |a| && a[p] == b[i]
  {
    assert b[i] in multiset(b);
    assert b[i] in a;
    p :| 0 <= p < |a| && a[p] == b[i];
  }

  lemma DistinctPair(a: seq<Named>, b: seq<Named>, i: nat, j: nat)
    requires multiset(a) == multiset(b) && Distinct(NameOf, a) && i < j < |b|
    ensures b[i].name != b[j].name
  {
    var p := Holds(b, a, i);
    DroppedCounts(b, i);
    DroppedCounts(a, p);
    assert Dropped(b, i)[if j == |b| - 1 then i else j] == b[j];
    var q := Holds(Dropped(b, i), Dropped(a, p), if j == |b| - 1 then i else j);
    assert Dropped(a, p)[q] == a[if q == p then |a| - 1 else q];
  }

  /** Whether names are distinct does not depend on the order. */
  lemma DistinctCounts(a: seq<Named>, b: seq<Named>)
    requires multiset(a) == multiset(b) && Distinct(NameOf, a)
    ensures Distinct(NameOf, b)
  {
    forall i, j | 0 <= i < j < |b| ensures b[i].name != b[j].name {
      DistinctPair(a, b, i, j);
    }
  }

  lemma TwinsSort(next: nat, a: seq<Named>, b: seq<Named>)
    requires Twins(next, a, b)
    ensures Distinct(NameOf, Sort(NameOf, a)) <==> Distinct(NameOf, Sort(NameOf, b))
    ensures Distinct(NameOf, Sort(NameOf, a)) ==> Sort(NameOf, a) == Sort(NameOf, b)
  {
    hide Sort, Distinct, Plain;
    var x, y := Sort(NameOf, a), Sort(NameOf, b);
    SortCounts(a);
    SortCounts(b);
    if Distinct(NameOf, x) || Distinct(NameOf, y) {
      if Distinct(NameOf, x) {
        DistinctCounts(x, a);
        DistinctCounts(x, b);
        DistinctCounts(x, y);
      } else {
        DistinctCounts(y, a);
        DistinctCounts(y, b);
        DistinctCounts(y, x);
      }
      forall z ensures z in a <==> z in b {
        assert z in multiset(a) <==> z in a;
        assert z in multiset(b) <==> z in b;
      }
      SortAlike(a, b);
    }
  }

  // ------------------------------------------------------------------ the exact condition

  /** The trees are in name order already, or sorting them only rearranges new, empty trees. */
  predicate Settled(next: nat, ts: seq<Named>) {
    Ascending(NameOf, ts) || Plain(next, ts, Sort(NameOf, ts))
  }

  /** Upgrades handed over in two calls replay as one list, whatever the second call brings, exactly
      when the first one left the trees settled. */
  lemma SplitExact(m: Multi, u: seq<Upgrade>)
    requires u != [] && Upgraded(m, u).Some?
    ensures var next := NextVersion(m.version, m.initialVersion);
      (forall w :: Upgraded(m, u + w) == Upgraded(Upgraded(m, u).value, w))
      <==> Settled(next, UpgradeAll(next, m.trees, u).value)
  {
    hide UpgradeAll, Sort, Distinct, Told, Settled;
    var next := NextVersion(m.version, m.initialVersion);
    var ts := UpgradeAll(next, m.trees, u).value;
    if Settled(next, ts) {
      forall w ensures Upgraded(m, u + w) == Upgraded(Upgraded(m, u).value, w) {
        SettledReplays(m, u, w);
      }
    } else {
      var w := UnsettledDiverges(m, u);
      assert Upgraded(m, u + w) != Upgraded(Upgraded(m, u).value, w);
    }
  }

  lemma SettledReplays(m: Multi, u: seq<Upgrade>, w: seq<Upgrade>)
    requires u != [] && Upgraded(m, u).Some?
    requires var next := NextVersion(m.version, m.initialVersion); Settled(next, UpgradeAll(next, m.trees, u).value)
    ensures Upgraded(m, u + w) == Upgraded(Upgraded(m, u).value, w)
  {
    hide UpgradeAll, Sort, Distinct, NextVersion, Twins;
    var next := NextVersion(m.version, m.initialVersion);
    var ts := UpgradeAll(next, m.trees, u).value;
    UpgradeConcat(next, m.trees, u, w);
    if w == [] {
      assert u + w == u;
    } else {
      SettledTwins(next, ts);
      if Sort(NameOf, ts) != ts {
        TwinsStay(next, ts, Sort(NameOf, ts), w);
        if UpgradeAll(next, ts, w).Some? {
          TwinsSort(next, UpgradeAll(next, ts, w).value, UpgradeAll(next, Sort(NameOf, ts), w).value);
        }
      }
    }
  }

  lemma SettledTwins(next: nat, ts: seq<Named>)
    requires Distinct(NameOf, Sort(NameOf, ts)) && Settled(next, ts)
    ensures Sort(NameOf, ts) == ts || Twins(next, ts, Sort(NameOf, ts))
  {
    hide Sort;
    SortCounts(ts);
    SortOrders(NameOf, ts);
    var s := Sort(NameOf, ts);
    DistinctCounts(s, ts);
    SortDistinct(NameOf, ts);
    if Ascending(NameOf, ts) {
      AscendingUnique(NameOf, ts, s);
    } else if ts != [] {
      assert s[0] in ts;
      forall i | 1 <= i < |s| ensures s[i].tree == NewTree(next) {
        assert s[i] in ts;
        assert s[i].name != s[0].name;
      }
    }
  }

  lemma UnsettledDiverges(m: Multi, u: seq<Upgrade>) returns (w: seq<Upgrade>)
    requires u != [] && Upgraded(m, u).Some?
    requires var next := NextVersion(m.version, m.initialVersion); !Settled(next, UpgradeAll(next, m.trees, u).value)
    ensures Upgraded(m, u + w).Some? && Upgraded(Upgraded(m, u).value, w).Some?
    ensures Upgraded(m, u + w) != Upgraded(Upgraded(m, u).value, w)
  {
    hide UpgradeAll, Sort, NextVersion, Distinct;
    var next := NextVersion(m.version, m.initialVersion);
    var ts := UpgradeAll(next, m.trees, u).value;
    var s := Sort(NameOf, ts);
    SortCounts(ts);
    DistinctCounts(s, ts);
    SortAlike(ts, ts);
    SortDistinct(NameOf, ts);
    w := Distinguish(next, ts, s);
    assert w != [] by { if w == [] { Untold(next, ts, s); } }
    UpgradeConcat(next, m.trees, u, w);
    var x, y := UpgradeAll(next, ts, w).value, UpgradeAll(next, s, w).value;
    SortDistinct(NameOf, x);
    SortDistinct(NameOf, y);
    SortOrders(NameOf, x);
    SortOrders(NameOf, y);
  }

  lemma Untold(next: nat, a: seq<Named>, b: seq<Named>)
    requires Alike(a, b)
    ensures !Told(next, a, b, [])
  {
  }
}
