/** What upgrades mean when a new store takes the name of an old one before the old one is renamed:
    deletions come first, then stores are added and renamed, and a name means the old store as long
    as there is one. */
module UpgradeLayers {
  import opened Bytes
  import opened NameOrder
  import opened MultiTrees
  import opened PendingLog
  import opened UpgradeOrder
  import V = Versioned

  /** The stores that were there and the ones added since, each by name. */
  datatype Layers = Layers(kept: map<Bytes, V.State>, added: map<Bytes, V.State>)

  /** One addition or renaming: a renamed store is the old one of that name, or else the added one. */
  function UpgradeLayer(next: nat, l: Layers, u: Upgrade): Option<Layers> {
    var source := u.renameFrom;
    if source == [] then Some(l.(added := l.added[u.name := NewTree(next)]))
    else if source in l.kept then Some(l.(kept := (l.kept - {source})[u.name := l.kept[source]]))
    else if source in l.added then Some(l.(added := (l.added - {source})[u.name := l.added[source]]))
    else None
  }

  function UpgradeAllLayers(next: nat, l: Layers, upgrades: seq<Upgrade>): Option<Layers> {
    if upgrades == [] then Some(l)
    else
      match UpgradeAllLayers(next, l, upgrades[..|upgrades| - 1])
      case None => None
      case Some(m) => UpgradeLayer(next, m, upgrades[|upgrades| - 1])
  }

  predicate NoDeletes(upgrades: seq<Upgrade>) { forall i :: 0 <= i < |upgrades| ==> !upgrades[i].delete }

  /** The first n trees have distinct names among themselves, and so have the others. */
  ghost predicate Halves(trees: seq<Named>, n: nat) {
    n <= |trees| && Distinct(NameOf, trees[..n]) && Distinct(NameOf, trees[n..])
  }

  /** On the way no two old trees share a name, nor two added ones; an old and an added one may. */
  ghost predicate Layered(next: nat, trees: seq<Named>, upgrades: seq<Upgrade>) {
    upgrades == [] || (
      && Layered(next, trees, upgrades[..|upgrades| - 1])
      && (UpgradeAll(next, trees, upgrades).Some? ==> Halves(UpgradeAll(next, trees, upgrades).value, |trees|)))
  }

  ghost function LayersOf(trees: seq<Named>, n: nat): Layers
    requires n <= |trees|
  {
    Layers(Stores(trees[..n]), Stores(trees[n..]))
  }

  /** A name is looked up among the first trees first. */
  lemma FoundInHalves(trees: seq<Named>, n: nat, name: Bytes)
    requires n <= |trees|
    ensures var i, j := IndexOf(trees[..n], name), IndexOf(trees[n..], name);
      IndexOf(trees, name) == if i >= 0 then i else if j >= 0 then n + j else -1
  {
    var i, j := IndexOf(trees[..n], name), IndexOf(trees[n..], name);
    assert forall k :: 0 <= k < n ==> trees[..n][k] == trees[k];
    assert forall k :: n <= k < |trees| ==> trees[n..][k - n] == trees[k];
    if i >= 0 {
      FoundFirst(trees, i, name);
    } else if j >= 0 {
      FoundFirst(trees, n + j, name);
    }
  }

  lemma LayerStep(next: nat, trees: seq<Named>, n: nat, u: Upgrade)
    requires Halves(trees, n) && !u.delete
    ensures var r, l := UpgradeOne(next, trees, u), UpgradeLayer(next, LayersOf(trees, n), u);
      && (r.Some? <==> l.Some?)
      && (r.Some? ==> n <= |r.value|)
      && (r.Some? && Halves(r.value, n) ==> l.value == LayersOf(r.value, n))
  {
    hide Stores, Distinct;
    var kept, added, source := trees[..n], trees[n..], u.renameFrom;
    var r := UpgradeOne(next, trees, u);
    UpgradeOneStores(next, kept, u);
    UpgradeOneStores(next, added, u);
    if source == [] {
      assert r.value[..n] == kept && r.value[n..] == added + [Named(u.name, NewTree(next))];
    } else {
      FoundInHalves(trees, n, source);
      var i, j := IndexOf(kept, source), IndexOf(added, source);
      if i >= 0 {
        assert r.value[..n] == kept[i := Named(u.name, kept[i].tree)] && r.value[n..] == added;
      } else if j >= 0 {
        assert r.value[..n] == kept && r.value[n..] == added[j := Named(u.name, added[j].tree)];
      }
    }
  }

  lemma {:induction false} LayersRun(next: nat, trees: seq<Named>, upgrades: seq<Upgrade>)
    requires Distinct(NameOf, trees) && NoDeletes(upgrades) && Layered(next, trees, upgrades)
    ensures var r := UpgradeAll(next, trees, upgrades);
      var l := UpgradeAllLayers(next, Layers(Stores(trees), map[]), upgrades);
      && (r.Some? <==> l.Some?)
      && (r.Some? ==> Halves(r.value, |trees|) && l.value == LayersOf(r.value, |trees|))
  {
    hide UpgradeOne, UpgradeLayer, Stores, Distinct, Halves;
    if upgrades == [] {
      NothingAdded(trees);
    } else {
      var front := upgrades[..|upgrades| - 1];
      LayersRun(next, trees, front);
      if UpgradeAll(next, trees, front).Some? {
        LayerStep(next, UpgradeAll(next, trees, front).value, |trees|, upgrades[|upgrades| - 1]);
      }
    }
  }

  lemma NothingAdded(trees: seq<Named>)
    requires Distinct(NameOf, trees)
    ensures Halves(trees, |trees|) && LayersOf(trees, |trees|) == Layers(Stores(trees), map[])
  {
    assert trees[..|trees|] == trees && trees[|trees|..] == [];
  }

  /** All names are distinct when the layers share none, and then the stores are the layers together. */
  lemma LayersTogether(trees: seq<Named>, n: nat)
    requires Halves(trees, n)
    ensures var l := LayersOf(trees, n);
      && (Distinct(NameOf, trees) <==> l.kept.Keys !! l.added.Keys)
      && (Distinct(NameOf, trees) ==> Stores(trees) == l.kept + l.added)
  {
    hide Stores, Distinct;
    var l := LayersOf(trees, n);
    assert trees == trees[..n] + trees[n..];
    if Distinct(NameOf, trees) {
      forall name | name in l.kept && name in l.added ensures false {
        ApartNames(trees, n, name);
      }
      forall x: Named ensures x in trees <==> x.name in l.kept + l.added && (l.kept + l.added)[x.name] == x.tree {
        StoreIsTree(trees[..n], x.name, x.tree);
        StoreIsTree(trees[n..], x.name, x.tree);
        if x.name in l.kept && x.name in l.added { ApartNames(trees, n, x.name); }
      }
      StoresBy(trees, l.kept + l.added);
    } else if l.kept.Keys !! l.added.Keys {
      DistinctTogether(trees, n);
    }
  }

  lemma ApartNames(trees: seq<Named>, n: nat, name: Bytes)
    requires Halves(trees, n) && Distinct(NameOf, trees)
    ensures !(name in Stores(trees[..n]) && name in Stores(trees[n..]))
  {
    hide Stores;
    StoresHold(trees[..n], name);
    StoresHold(trees[n..], name);
    var j := IndexOf(trees[n..], name);
    if j >= 0 {
      assert trees[n..][j] == trees[n + j];
      forall i | 0 <= i < n ensures trees[..n][i].name != name {
        assert trees[i].name != trees[n + j].name;
      }
    }
  }

  lemma DistinctTogether(trees: seq<Named>, n: nat)
    requires Halves(trees, n) && Stores(trees[..n]).Keys !! Stores(trees[n..]).Keys
    ensures Distinct(NameOf, trees)
  {
    hide Stores;
    var a, b := trees[..n], trees[n..];
    forall i, j | 0 <= i < j < |trees| ensures trees[i].name != trees[j].name {
      if j < n {
        assert a[i] == trees[i] && a[j] == trees[j];
      } else if i >= n {
        assert b[i - n] == trees[i] && b[j - n] == trees[j];
      } else {
        assert a[i] == trees[i] && b[j - n] == trees[j];
        StoresHold(a, trees[i].name);
        StoresHold(b, trees[j].name);
      }
    }
  }

  lemma DistinctSorted(trees: seq<Named>)
    ensures Distinct(NameOf, Sort(NameOf, trees)) <==> Distinct(NameOf, trees)
  {
    hide Sort, Distinct;
    SortCounts(trees);
    if Distinct(NameOf, trees) {
      DistinctCounts(trees, Sort(NameOf, trees));
    } else if Distinct(NameOf, Sort(NameOf, trees)) {
      DistinctCounts(Sort(NameOf, trees), trees);
    }
  }

  /** A list of upgrades that shares no name on the way, followed by additions and renamings in which an
      added store may carry the name of an old one that is renamed later: it goes through exactly when
      no unknown store is named and no name is left twice, and leaves the old stores under their new
      names next to the added ones. */
  lemma UpgradedInLayers(m: Multi, first: seq<Upgrade>, more: seq<Upgrade>)
    requires Distinct(NameOf, m.trees) && NoDeletes(more)
    requires var next := NextVersion(m.version, m.initialVersion);
      && Clean(next, m.trees, first)
      && (UpgradeAll(next, m.trees, first).Some? ==> Layered(next, UpgradeAll(next, m.trees, first).value, more))
    ensures var stores := StoresAfter(NextVersion(m.version, m.initialVersion), Stores(m.trees), first, more);
      && (Upgraded(m, first + more).Some? <==> stores.Some?)
      && (stores.Some? ==> Stores(Upgraded(m, first + more).value.trees) == stores.value)
  {
    hide UpgradeAll, Sort, Distinct, NextVersion, Clean, Stores, Layered, Halves, UpgradeAllLayers, UpgradeStores;
    var next := NextVersion(m.version, m.initialVersion);
    if first + more == [] { NothingUpgraded(next, m.trees, first, more); }
    UpgradeAllStores(next, m.trees, first);
    UpgradeConcat(next, m.trees, first, more);
    if UpgradeAll(next, m.trees, first).Some? {
      var ts := UpgradeAll(next, m.trees, first).value;
      CleanDistinct(next, m.trees, first);
      LayersRun(next, ts, more);
      if UpgradeAll(next, ts, more).Some? {
        var r := UpgradeAll(next, ts, more).value;
        LayersTogether(r, |ts|);
        DistinctSorted(r);
        if Distinct(NameOf, r) { SortedStores(r); }
      }
    }
  }

  function StoresAfter(next: nat, stores: map<Bytes, V.State>, first: seq<Upgrade>, more: seq<Upgrade>)
    : Option<map<Bytes, V.State>>
  {
    match UpgradeStores(next, stores, first)
    case None => None
    case Some(n) =>
      match UpgradeAllLayers(next, Layers(n, map[]), more)
      case None => None
      case Some(l) => if l.kept.Keys !! l.added.Keys then Some(l.kept + l.added) else None
  }

  lemma SortedStores(trees: seq<Named>)
    requires Distinct(NameOf, trees)
    ensures Stores(Sort(NameOf, trees)) == Stores(trees)
  {
    hide Sort, Stores;
    SortAlike(trees, trees);
    AlikeStores(trees, Sort(NameOf, trees));
  }

  lemma NothingUpgraded(next: nat, trees: seq<Named>, first: seq<Upgrade>, more: seq<Upgrade>)
    requires first + more == []
    ensures UpgradeAll(next, trees, first + more) == Some(trees)
  {
  }

  /** A store is added under the name of an old one, which moves to a new name afterwards. */
  lemma NewStoreTakesName(m: Multi, name: Bytes, moved: Bytes)
    requires Distinct(NameOf, m.trees) && name != [] && name in Stores(m.trees) && moved !in Stores(m.trees)
    ensures var next, stores := NextVersion(m.version, m.initialVersion), Stores(m.trees);
      var r := Upgraded(m, [Upgrade(name, [], false), Upgrade(moved, name, false)]);
      r.Some? && Stores(r.value.trees) == stores[moved := stores[name]][name := NewTree(next)]
  {
    hide Sort, NextVersion, Stores, Halves;
    var next, stores := NextVersion(m.version, m.initialVersion), Stores(m.trees);
    var w := [Upgrade(name, [], false), Upgrade(moved, name, false)];
    assert w[..1] == [w[0]] && [w[0]][..0] == [] && [] + w == w;
    StoresHold(m.trees, name);
    StoresHold(m.trees, moved);
    var i, t := IndexOf(m.trees, name), Named(name, NewTree(next));
    AppendedHalves(m.trees, t);
    FoundFirst(m.trees + [t], i, name);
    var renamed := m.trees[i := Named(moved, m.trees[i].tree)];
    AppendedHalves(renamed, t);
    assert (m.trees + [t])[i := Named(moved, m.trees[i].tree)] == renamed + [t];
    assert UpgradeAll(next, m.trees, w[..1]) == Some(m.trees + [t]);
    assert UpgradeAll(next, m.trees, w) == Some(renamed + [t]);
    assert Layered(next, m.trees, w[..1]);
    UpgradedInLayers(m, [], w);
    var l := Layers(stores, map[name := NewTree(next)]);
    assert UpgradeAllLayers(next, Layers(stores, map[]), w[..1]) == Some(l);
    assert UpgradeAllLayers(next, Layers(stores, map[]), w)
        == Some(Layers((stores - {name})[moved := stores[name]], map[name := NewTree(next)]));
  }

  lemma AppendedHalves(trees: seq<Named>, t: Named)
    requires Distinct(NameOf, trees)
    ensures Halves(trees + [t], |trees|)
  {
    assert (trees + [t])[..|trees|] == trees && (trees + [t])[|trees|..] == [t];
  }
}
