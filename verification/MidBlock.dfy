/** Snapshots rewritten inside a block: what they publish, and exactly when that is the committed version. */
module MidBlock {
  import opened Bytes
  import opened NameOrder
  import opened MultiTrees
  import opened PendingLog
  import opened Durability
  import opened Recovery
  import opened Histories
  import opened Marks
  import opened UpgradeLayers
  import V = Versioned

  // ------------------------------------------------------------------ counting leaves

  function Total(trees: seq<Named>): nat {
    if trees == [] then 0 else Total(trees[..|trees| - 1]) + Leaves(trees[|trees| - 1].tree)
  }

  lemma {:induction false} TotalConcat(a: seq<Named>, b: seq<Named>)
    ensures Total(a + b) == Total(a) + Total(b)
  {
    if b == [] {
      assert a + b == a;
    } else {
      TotalConcat(a, b[..|b| - 1]);
      assert (a + b)[..|a + b| - 1] == a + b[..|b| - 1];
    }
  }

  lemma TotalOne(t: Named)
    ensures Total([t]) == Leaves(t.tree)
  {
    assert [t][..0] == [];
  }

  lemma TotalSplit(trees: seq<Named>, i: nat)
    requires i < |trees|
    ensures Total(trees) == Total(trees[..i]) + Leaves(trees[i].tree) + Total(trees[i + 1..])
  {
    hide Total, Leaves;
    assert trees == trees[..i] + [trees[i]] + trees[i + 1..];
    TotalConcat(trees[..i] + [trees[i]], trees[i + 1..]);
    TotalConcat(trees[..i], [trees[i]]);
    TotalOne(trees[i]);
  }

  lemma TotalReplaced(trees: seq<Named>, i: nat, t: Named)
    requires i < |trees|
    ensures Total(trees[i := t]) == Total(trees) - Leaves(trees[i].tree) + Leaves(t.tree)
  {
    hide Total;
    TotalSplit(trees, i);
    TotalSplit(trees[i := t], i);
    assert trees[i := t][..i] == trees[..i] && trees[i := t][i + 1..] == trees[i + 1..];
  }

  /** Upgrades never add leaves. */
  lemma UpgradeOneTotal(next: nat, trees: seq<Named>, u: Upgrade)
    requires UpgradeOne(next, trees, u).Some?
    ensures Total(UpgradeOne(next, trees, u).value) <= Total(trees)
  {
    hide Total;
    if u.delete {
      var i, n := IndexOf(trees, u.name), |trees| - 1;
      var r := trees[i := trees[n]];
      TotalReplaced(trees, i, trees[n]);
      TotalSplit(r, n);
      assert r[n + 1..] == [];
    } else if u.renameFrom != [] {
      var i := IndexOf(trees, u.renameFrom);
      TotalReplaced(trees, i, Named(u.name, trees[i].tree));
    } else {
      var t := Named(u.name, NewTree(next));
      TotalConcat(trees, [t]);
      TotalOne(t);
    }
  }

  lemma {:induction false} UpgradesTotal(next: nat, trees: seq<Named>, upgrades: seq<Upgrade>)
    requires UpgradeAll(next, trees, upgrades).Some?
    ensures Total(UpgradeAll(next, trees, upgrades).value) <= Total(trees)
  {
    hide UpgradeOne, Total;
    if upgrades != [] {
      var front := upgrades[..|upgrades| - 1];
      UpgradesTotal(next, trees, front);
      UpgradeOneTotal(next, UpgradeAll(next, trees, front).value, upgrades[|upgrades| - 1]);
    }
  }

  lemma {:induction false} InsertTotal(trees: seq<Named>, t: Named)
    ensures Total(Insert(NameOf, trees, t)) == Total(trees) + Leaves(t.tree)
  {
    hide Leaves;
    if trees == [] || AtMost(trees[|trees| - 1].name, t.name) {
      TotalConcat(trees, [t]);
      TotalOne(t);
    } else {
      var front, last := trees[..|trees| - 1], trees[|trees| - 1];
      InsertTotal(front, t);
      TotalConcat(Insert(NameOf, front, t), [last]);
      TotalOne(last);
    }
  }

  lemma {:induction false} SortTotal(trees: seq<Named>)
    ensures Total(Sort(NameOf, trees)) == Total(trees)
  {
    hide Insert, Leaves;
    if trees != [] {
      SortTotal(trees[..|trees| - 1]);
      InsertTotal(Sort(NameOf, trees[..|trees| - 1]), trees[|trees| - 1]);
    }
  }

  lemma UpgradedTotal(m: Multi, upgrades: seq<Upgrade>)
    requires Upgraded(m, upgrades).Some?
    ensures Total(Upgraded(m, upgrades).value.trees) <= Total(m.trees)
  {
    hide UpgradeAll, Sort, Total;
    if upgrades != [] {
      var next := NextVersion(m.version, m.initialVersion);
      UpgradesTotal(next, m.trees, upgrades);
      SortTotal(UpgradeAll(next, m.trees, upgrades).value);
    }
  }

  /** Trees of which none has grown and one has shrunk have fewer leaves together. */
  lemma {:induction false} TotalShrinks(a: seq<Named>, b: seq<Named>)
    requires |a| == |b| && forall i :: 0 <= i < |a| ==> Leaves(a[i].tree) <= Leaves(b[i].tree)
    ensures Total(a) <= Total(b)
    ensures (exists i :: 0 <= i < |a| && Leaves(a[i].tree) < Leaves(b[i].tree)) ==> Total(a) < Total(b)
  {
    hide Leaves;
    if a != [] {
      TotalShrinks(a[..|a| - 1], b[..|b| - 1]);
      if i :| 0 <= i < |a| && Leaves(a[i].tree) < Leaves(b[i].tree) {
        if i < |a| - 1 {
          assert Leaves(a[..|a| - 1][i].tree) < Leaves(b[..|b| - 1][i].tree);
        }
      }
    }
  }

  // ------------------------------------------------------------------ a block that changes nothing

  /** The block's upgrades leave the trees as they are, and none of its pairs leaves a mark. */
  ghost predicate Quiescent(base: Multi, entry: Entry) {
    && Upgraded(base, entry.upgrades) == Some(base)
    && forall i :: 0 <= i < |base.trees| ==>
      Unmarked(base.trees[i].tree, PairsFor(entry.changes, base.trees[i].name))
  }

  /** For upgrades that share no name on the way, the first part is a matter of names alone: deleting, renaming
      and adding as the list says ends with the stores there were. */
  lemma UpgradesQuiescent(base: Multi, upgrades: seq<Upgrade>)
    requires Ascending(NameOf, base.trees)
    requires Clean(NextVersion(base.version, base.initialVersion), base.trees, upgrades)
    ensures var next, stores := NextVersion(base.version, base.initialVersion), Stores(base.trees);
      Upgraded(base, upgrades) == Some(base) <==> UpgradeStores(next, stores, upgrades) == Some(stores)
  {
    hide Upgraded, Clean, UpgradeStores, Stores, Distinct, NextVersion, Layered;
    AscendingDistinct(NameOf, base.trees);
    NothingMore(NextVersion(base.version, base.initialVersion), base.trees, upgrades);
    UpgradedInLayers(base, upgrades, []);
    assert upgrades + [] == upgrades;
    if Upgraded(base, upgrades).Some? {
      var r := Upgraded(base, upgrades).value;
      UpgradesAscend(base, upgrades);
      UpgradedKeeps(base, upgrades);
      if Stores(r.trees) == Stores(base.trees) { SameStores(r.trees, base.trees); }
    }
  }

  lemma NothingMore(next: nat, trees: seq<Named>, upgrades: seq<Upgrade>)
    ensures NoDeletes([])
    ensures StoresAfter(next, Stores(trees), upgrades, []) == UpgradeStores(next, Stores(trees), upgrades)
    ensures UpgradeAll(next, trees, upgrades).Some? ==> Layered(next, UpgradeAll(next, trees, upgrades).value, [])
  {
    hide UpgradeAll, Stores, UpgradeStores;
    var n := UpgradeStores(next, Stores(trees), upgrades);
    if n.Some? { assert n.value + map[] == n.value; }
  }

  lemma SameStores(a: seq<Named>, b: seq<Named>)
    requires Ascending(NameOf, a) && Ascending(NameOf, b) && Stores(a) == Stores(b)
    ensures a == b
  {
    hide Stores;
    AscendingDistinct(NameOf, a);
    AscendingDistinct(NameOf, b);
    forall x ensures x in a <==> x in b {
      StoreIsTree(a, x.name, x.tree);
      StoreIsTree(b, x.name, x.tree);
    }
    AscendingUnique(NameOf, a, b);
  }

  ghost predicate AllCommitted(trees: seq<Named>) { forall t :: t in trees ==> V.Committed(t.tree) }

  /** If the block's trees look committed, its upgrades and its pairs have left every tree alone. */
  lemma NothingLost(trees: seq<Named>, changes: seq<Changes>, r: seq<Named>)
    requires (forall i :: 0 <= i < |trees| ==> V.Valid(trees[i].tree)) && RunsPairs(trees, changes, r)
    requires AllCommitted(r) && Total(trees) <= Total(r)
    ensures r == trees
  {
    hide Total, Leaves, V.Valid, V.Committed, ApplyPairs, PairsFor;
    forall i | 0 <= i < |trees| ensures r[i] == trees[i] || Leaves(r[i].tree) < Leaves(trees[i].tree) {
      assert r[i] in r;
      CommittedAfter(trees[i].tree, PairsFor(changes, trees[i].name));
    }
    TotalShrinks(r, trees);
  }

  /** A block leaves the committed trees as they were exactly when it is quiescent. */
  lemma QuiescentExact(base: Multi, entry: Entry, live: Multi)
    requires Ascending(NameOf, base.trees) && AllCommitted(base.trees)
    requires Sound(NextVersion(base.version, base.initialVersion), base.trees)
    requires ApplyEntry(base, entry) == Some(live)
    ensures live == base <==> Quiescent(base, entry)
  {
    hide Total, V.Valid, V.Committed, ApplyPairs, PairsFor, Upgraded, ApplyChanges, Unmarked, NextVersion;
    var n := Upgraded(base, entry.upgrades).value;
    UpgradedSound(base, entry.upgrades);
    UpgradesAscend(base, entry.upgrades);
    AscendingDistinct(NameOf, n.trees);
    UpgradedKeeps(base, entry.upgrades);
    ChangesByStore(n.trees, entry.changes);
    UpgradedTotal(base, entry.upgrades);
    assert forall i :: 0 <= i < |n.trees| ==> n.trees[i] in n.trees;
    if live == base {
      NothingLost(n.trees, entry.changes, live.trees);
      assert n == base;
    }
    if n == base {
      PairsUnmarked(base.trees, entry.changes, live.trees);
    }
  }

  lemma UpgradedSound(m: Multi, upgrades: seq<Upgrade>)
    requires Sound(NextVersion(m.version, m.initialVersion), m.trees) && Upgraded(m, upgrades).Some?
    ensures Sound(NextVersion(m.version, m.initialVersion), Upgraded(m, upgrades).value.trees)
  {
    hide Sound, Upgraded, NextVersion;
    EntrySound(m, Entry(upgrades, []));
  }

  lemma PairsUnmarked(trees: seq<Named>, changes: seq<Changes>, r: seq<Named>)
    requires RunsPairs(trees, changes, r)
    requires forall t :: t in trees ==> V.Valid(t.tree) && V.Committed(t.tree)
    ensures r == trees <==>
      forall i :: 0 <= i < |trees| ==> Unmarked(trees[i].tree, PairsFor(changes, trees[i].name))
  {
    hide V.Valid, V.Committed, ApplyPairs, PairsFor, Unmarked;
    forall i | 0 <= i < |trees|
      ensures r[i] == trees[i] <==> Unmarked(trees[i].tree, PairsFor(changes, trees[i].name))
    {
      assert trees[i] in trees;
      UnmarkedExact(trees[i].tree, PairsFor(changes, trees[i].name));
    }
    if forall i :: 0 <= i < |trees| ==> Unmarked(trees[i].tree, PairsFor(changes, trees[i].name)) {
      assert forall i :: 0 <= i < |trees| ==> r[i] == trees[i];
    }
  }

  // ------------------------------------------------------------------ rewriting inside a block

  /** A rewrite begun inside a block publishes the unfinished block under the last version, and loading
      that version returns it. The published snapshot is the committed version exactly when the block
      has left no mark on it yet. */
  lemma MidBlockRewrite(s: System, t: System)
    requires Inv(s) && s.db.live.version !in s.db.snapshots && s.db.rewrite == Idle
    requires t == s.(db := s.db.(snapshots := s.db.snapshots[s.db.live.version := Saved(s.db.live, s.db.infos)],
                                 rewrite := Renamed(s.db.live.version)))
    ensures Step(s, StartRewrite).Some? && Step(Step(s, StartRewrite).value, RenameSnapshot) == Some(t)
    ensures var version, base := s.db.live.version, At(s.initial, s.log, |s.log|);
      && Seeks(t.db.snapshots, version, version)
      && LoadFrom(t.db, version, version) == Some(Saved(s.db.live, s.db.infos))
      && (LoadFrom(t.db, version, version) == Some(SavedAt(s.initial, s.log, |s.log|))
          <==> Quiescent(base, s.db.pending))
      && (SnapshotsOk(t.initial, t.log, t.db.snapshots) <==> Quiescent(base, s.db.pending))
  {
    hide At, Good, WalOk, VersionOf, BlocksOf, KeptOk, RewriteOk, PruneOk, LoadedOk, LiveOk, Genuine, Quiescent;
    MidBlockGenuine(s);
    PositiveVersion(s);
    var added := s.db.snapshots[s.db.live.version := Saved(s.db.live, s.db.infos)];
    assert forall v :: v in s.db.snapshots ==> v in added && added[v] == s.db.snapshots[v];
    assert s.db.live.version in added && added[s.db.live.version] == Saved(s.db.live, s.db.infos);
  }

  /** A version without a snapshot is not version 0. */
  lemma PositiveVersion(s: System)
    requires Inv(s) && s.db.live.version !in s.db.snapshots
    ensures s.db.live.version > 0
  {
    hide At, Good, WalOk, RewriteOk, PruneOk, LoadedOk, ApplyEntry, SavedAt, VersionOf, BlocksOf;
    CommittedWhenDrained(s);
    assert Genuine(s.initial, s.log, s.db.current, s.db.snapshots[s.db.current]);
    VersionsGrow(BlocksOf(s.db.current, s.initial), |s.log|, s.initial);
    VersionsGrow(|s.log|, BlocksOf(s.db.current, s.initial), s.initial);
  }

  lemma MidBlockGenuine(s: System)
    requires Inv(s)
    ensures var base := At(s.initial, s.log, |s.log|);
      && s.db.infos == SavedAt(s.initial, s.log, |s.log|).infos
      && (s.db.live == base <==> Quiescent(base, s.db.pending))
      && (Genuine(s.initial, s.log, s.db.live.version, Saved(s.db.live, s.db.infos)) <==> s.db.live == base)
  {
    hide At, Good, WalOk, VersionOf, BlocksOf, KeptOk, RewriteOk, PruneOk, LoadedOk, ApplyEntry, SnapshotsOk, Quiescent;
    CommittedWhenDrained(s);
    VersionsCount(|s.log|, s.initial);
    var base := At(s.initial, s.log, |s.log|);
    AtKeeps(s.initial, s.log, |s.log|);
    BaseSound(s.initial, s.log);
    QuiescentExact(base, s.db.pending, s.db.live);
  }

  lemma BaseSound(initial: Initial, log: seq<Entry>)
    requires Good(initial, log)
    ensures var base := At(initial, log, |log|);
      AllCommitted(base.trees) && Sound(NextVersion(base.version, base.initialVersion), base.trees)
  {
    hide Sound, VersionOf, V.Committed, NextVersion;
    assert log[..|log|] == log;
    CommittedTreesSound(initial, log);
  }

  /** The empty store of the examples, at a version. */
  function OneTree(version: nat): Named { Named([97], V.State(version, None)) }

  /** A block with a changed tree exists: a store is added and committed, and a rewrite starts after the next
      block has set a key. */
  lemma MidBlockExample() returns (events: seq<Event>, s: System)
    ensures After(0, 0, events) == Some(s) && s.db.rewrite == Idle && s.db.live.version !in s.db.snapshots
    ensures Good(s.initial, s.log) && s.db.live != At(s.initial, s.log, |s.log|)
  {
    hide Step, Good, At, ApplyEntry, WalOk, SnapshotsOk, KeptOk, RewriteOk, PruneOk, LoadedOk, Merge, After, LogsOnce;
    var start, before := OneStore();
    var pairs := [Pair(false, [1], Some([2]))];
    SetsKey(before, [97], pairs);
    s := Step(before, ApplyChangeSet([97], pairs)).value;
    NothingLogged([97]);
    OneMore(0, 0, start, before, ApplyChangeSet([97], pairs));
    events := start + [ApplyChangeSet([97], pairs)];
    EveryRun(0, 0, start);
    NothingPending(At(before.initial, before.log, |before.log|));
  }

  lemma NothingLogged(name: Bytes)
    ensures LogsOnce([], name)
  {
  }

  lemma OneMore(initial: Initial, keepRecent: nat, events: seq<Event>, s: System, e: Event)
    requires After(initial, keepRecent, events) == Some(s) && Legal(s, e)
    ensures After(initial, keepRecent, events + [e]) == Step(s, e)
  {
    hide Legal, Step;
    assert (events + [e])[..|events|] == events;
  }

  /** Nothing is being pruned. */
  predicate Resting(db: Db) { db.prune == Quiet && db.waiting == 0 && db.strays == [] && db.keepRecent == 0 }

  /** A store is added and committed, and the log writer has not taken the block. */
  lemma OneStore() returns (events: seq<Event>, s: System)
    ensures After(0, 0, events) == Some(s) && s.initial == 0 && s.abandoned == {}
    ensures s.db.pending == NO_CHANGES && s.db.rewrite == Idle && s.db.live == Multi(0, 1, [OneTree(1)])
    ensures s.db.snapshots.Keys == {0} && s.db.current == 0 && s.db.wal == Wal(1, []) && |s.db.queue| == 1
    ensures Resting(s.db)
  {
    hide Legal, Upgraded, After;
    var add := [Upgrade([97], [], false)];
    var s0 := Init(0, 0);
    StartsEmpty();
    AddsStore([97]);
    FirstUpgrade(s0, add);
    OneMore(0, 0, [], s0, ApplyUpgrades(add));
    var s1 := Step(s0, ApplyUpgrades(add)).value;
    SavesStore(s1, 0);
    Always(s1, Commit);
    OneMore(0, 0, [] + [ApplyUpgrades(add)], s1, Commit);
    events, s := [] + [ApplyUpgrades(add)] + [Commit], Step(s1, Commit).value;
  }

  lemma StartsEmpty()
    ensures After(0, 0, []) == Some(Init(0, 0)) && Good(0, [])
  {
  }

  lemma FirstUpgrade(s: System, upgrades: seq<Upgrade>)
    requires s.db.pending == NO_CHANGES && Good(s.initial, s.log)
    ensures Legal(s, ApplyUpgrades(upgrades))
  {
  }

  lemma AtBoundary(s: System)
    requires s.db.pending == NO_CHANGES
    ensures Legal(s, StartRewrite)
  {
  }

  /** Events that ask nothing of their callers. */
  lemma Always(s: System, e: Event)
    requires e.Commit? || e.WriteBatch? || e.RenameSnapshot? || e.LinkSnapshot? || e.OpenSnapshot? || e.Switch?
      || e.ReadLink? || e.ListSnapshots? || e.PruneNext?
    ensures Legal(s, e)
  {
  }

  lemma SavesStore(s: System, n: nat)
    requires s.initial == 0 && s.db.live == Multi(0, n, [OneTree(n)]) && n < V.MAX_INT64
    ensures var t := Step(s, Commit);
      && t.Some? && t.value == s.(log := t.value.log, db := s.db.(live := Multi(0, n + 1, [OneTree(n + 1)]),
           infos := t.value.db.infos, pending := NO_CHANGES, queue := t.value.db.queue))
      && |t.value.db.queue| == |s.db.queue| + 1
  {
    hide Infos, WalIndex;
    assert SaveTrees(s.db.live.trees) == [OneTree(n + 1)];
  }

  lemma AddsStore(store: Bytes)
    ensures var add := [Upgrade(store, [], false)];
      Upgraded(Multi(0, 0, []), add) == Some(Multi(0, 0, [Named(store, V.State(0, None))]))
  {
    var add := [Upgrade(store, [], false)];
    var t := Named(store, V.State(0, None));
    assert add[..0] == [];
    var none: seq<Named> := [];
    assert none + [t] == [t];
    assert UpgradeAll(1, none, add) == Some([t]);
    SortsOne(t);
  }

  lemma SetsKey(s: System, store: Bytes, pairs: seq<Pair>)
    requires s.db.live == Multi(0, 1, [Named(store, V.State(1, None))]) && s.db.pending == NO_CHANGES
    requires |pairs| == 1 && !pairs[0].delete
    ensures var t := Step(s, ApplyChangeSet(store, pairs));
      t.Some? && t.value.db.live != s.db.live && t.value.db.live.version == 1
      && t.value == s.(db := s.db.(live := t.value.db.live, pending := t.value.db.pending))
  {
    hide Merge;
    var c := Changes(store, pairs);
    OneChange(s.db.live.trees, c);
    assert pairs[..0] == [];
    assert IndexOf(s.db.live.trees, store) == 0;
    var root := ApplyPairs(V.State(1, None), pairs).root;
    assert root.Some?;
  }
}
