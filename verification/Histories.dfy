/** Whole histories of the database: what every sequence of legal steps guarantees, and what the steps achieve. */
module Histories {
  import opened Bytes
  import opened NameOrder
  import opened MultiTrees
  import opened PendingLog
  import opened UpgradeLayers
  import opened Durability
  import opened Recovery
  import A = Avl
  import V = Versioned

  // ------------------------------------------------------------------ every run

  lemma StepKeeps(s: System, e: Event)
    requires Inv(s) && Legal(s, e) && Step(s, e).Some?
    ensures Inv(Step(s, e).value)
  {
    hide Inv, Step, Legal, LogCovers;
    match e
    case ApplyUpgrades(upgrades) => UpgradesKeep(s, upgrades);
    case ApplyChangeSets(changes) => ChangeSetsKeep(s, changes);
    case ApplyChangeSet(name, pairs) => ChangeSetKeeps(s, name, pairs);
    case Commit => CommitKeeps(s);
    case WriteBatch(count) => WriteKeeps(s, count);
    case StartRewrite => StartKeeps(s);
    case RenameSnapshot => RenameKeeps(s);
    case LinkSnapshot => LinkKeeps(s);
    case OpenSnapshot => OpenKeeps(s);
    case ReplayNext => ReplayKeepsInv(s);
    case FinishReplay => FinishKeeps(s);
    case FailRewrite => FailKeeps(s, e);
    case DiscardRewrite => FailKeeps(s, e);
    case Switch => SwitchKeeps(s);
    case ReadLink => ReadLinkKeeps(s);
    case ListSnapshots(listing) => ListKeeps(s, listing);
    case PruneNext(removed) => PruneKeeps(s, removed);
    case TruncateLog(oldest) => TruncateKeeps(s, oldest);
    case StopPrune => StopKeeps(s);
    case StrayLink(k) => StrayLinkKeeps(s, k);
    case StrayList(k, listing) => StrayListKeeps(s, k, listing);
    case StrayNext(k, removed) => StrayKeeps(s, k, removed);
    case Reopen => ReopenKeeps(s);
    case Rollback(target, found, left) => RollbackStep(s, target, found, left);
    case Relink(target, found) => RelinkKeeps(s, target, found);
    case Crash => CrashStep(s);
  }

  lemma RollbackStep(s: System, target: nat, found: nat, left: set<nat>)
    requires Inv(s) && Legal(s, Rollback(target, found, left)) && Step(s, Rollback(target, found, left)).Some?
    ensures Inv(Step(s, Rollback(target, found, left)).value)
  {
    hide Inv, Outlived, Overwrite;
    RollbackKeeps(s, target, found);
  }

  lemma CrashStep(s: System)
    requires Inv(s) && Legal(s, Crash) && Step(s, Crash).Some?
    ensures Inv(Step(s, Crash).value)
  {
    hide Inv, LogCovers, Restart;
    CrashKeeps(s);
  }

  /** A run: legal events, one after the other, that all go through. */
  ghost function After(initial: Initial, keepRecent: nat, events: seq<Event>): Option<System> {
    if events == [] then Some(Init(initial, keepRecent))
    else
      match After(initial, keepRecent, events[..|events| - 1])
      case None => None
      case Some(s) => if Legal(s, events[|events| - 1]) then Step(s, events[|events| - 1]) else None
  }

  lemma {:induction false} EveryRun(initial: Initial, keepRecent: nat, events: seq<Event>)
    requires After(initial, keepRecent, events).Some?
    ensures Inv(After(initial, keepRecent, events).value)
  {
    hide Inv, Step, Legal;
    if events == [] {
      InitOk(initial, keepRecent);
    } else {
      EveryRun(initial, keepRecent, events[..|events| - 1]);
      StepKeeps(After(initial, keepRecent, events[..|events| - 1]).value, events[|events| - 1]);
    }
  }

  /** In every interleaving, a switch goes through exactly when the rewrite is done and the log writer
      has drained, and nobody can tell: version, trees, commit info and pending block stay. */
  lemma SwitchInEveryRun(initial: Initial, keepRecent: nat, events: seq<Event>, s: System)
    requires After(initial, keepRecent, events) == Some(s)
    ensures Step(s, Switch).Some? <==> s.db.rewrite.Done? && s.db.queue == []
    ensures Step(s, Switch).Some? ==>
      var t := Step(s, Switch).value;
      t.db.live == s.db.live && t.db.infos == s.db.infos && t.db.pending == s.db.pending
      && t.db.snapshots == s.db.snapshots && t.db.wal == s.db.wal && t.log == s.log
  {
    hide Inv, Step;
    EveryRun(initial, keepRecent, events);
    InvisibleSwitch(s);
  }

  /** In every interleaving, every version from a kept snapshot to the end of the log can be loaded,
      and loading it gives the trees and commit info committed at that version. */
  lemma RecoverInEveryRun(initial: Initial, keepRecent: nat, events: seq<Event>, s: System,
                          kept: nat, found: nat, k: nat)
    requires After(initial, keepRecent, events) == Some(s)
    requires kept in s.db.snapshots && kept !in s.abandoned
    requires 1 <= k <= LastIndex(s.db.wal) && kept <= VersionOf(k, s.initial)
    requires Seeks(s.db.snapshots, VersionOf(k, s.initial), found)
    ensures Good(s.initial, s.log) && k <= |s.log|
    ensures LoadFrom(s.db, found, VersionOf(k, s.initial)) == Some(SavedAt(s.initial, s.log, k))
  {
    hide LiveOk, WalOk, SnapshotsOk, KeptOk, RewriteOk, PruneOk, LoadedOk, Step, LoadFrom, VersionOf, At;
    EveryRun(initial, keepRecent, events);
    LoadsTarget(s, kept, found, k);
  }

  // ------------------------------------------------------------------ what the steps achieve

  lemma {:induction false} EmptyChangesAddNothing(changes: seq<Changes>, name: Bytes)
    ensures PairsFor(WithoutEmpty(changes), name) == PairsFor(changes, name)
  {
    if changes != [] {
      var front, last := changes[..|changes| - 1], changes[|changes| - 1];
      EmptyChangesAddNothing(front, name);
      if last.pairs != [] {
        PairsForConcat(WithoutEmpty(front), [last], name);
        PairsForOne(last, name);
      }
    }
  }

  lemma LiveDistinct(s: System)
    requires Inv(s)
    ensures Distinct(NameOf, s.db.live.trees) && s.db.live.initialVersion == s.initial
  {
    hide At, Good, ApplyEntry, Infos, Clean, WalOk, SnapshotsOk, KeptOk, RewriteOk, PruneOk, LoadedOk;
    var base := At(s.initial, s.log, |s.log|);
    AtKeeps(s.initial, s.log, |s.log|);
    EntryAscends(base, s.db.pending);
    EntryKeeps(base, s.db.pending);
    AscendingDistinct(NameOf, s.db.live.trees);
  }

  /** Change sets reach the live trees at once: each store runs the pairs given for it, in order, and no
      other store moves; they go through exactly when every store they touch is known. */
  lemma ChangesReachStores(s: System, changes: seq<Changes>)
    requires Inv(s)
    ensures var t := Step(s, ApplyChangeSets(changes));
      var touched := if s.db.pending.changes == [] then changes else WithoutEmpty(changes);
      && (t.Some? <==> Known(s.db.live.trees, touched))
      && (t.Some? ==> RunsPairs(s.db.live.trees, changes, t.value.db.live.trees))
  {
    hide Inv, Known, ApplyChanges, MergeAll, WithoutEmpty, Distinct, RunsPairs;
    var touched := if s.db.pending.changes == [] then changes else WithoutEmpty(changes);
    LiveDistinct(s);
    ChangesByStore(s.db.live.trees, touched);
    var t := Step(s, ApplyChangeSets(changes));
    if changes == [] {
      NothingTouched(s.db.live.trees);
    } else if t.Some? {
      RunsWithoutEmpty(s.db.live.trees, changes, t.value.db.live.trees);
    }
  }

  /** One change set reaches its store alone. */
  lemma ChangeReachesStore(s: System, name: Bytes, pairs: seq<Pair>)
    requires Inv(s) && pairs != []
    ensures var t := Step(s, ApplyChangeSet(name, pairs));
      && (t.Some? <==> Known(s.db.live.trees, [Changes(name, pairs)]))
      && (t.Some? ==> RunsPairs(s.db.live.trees, [Changes(name, pairs)], t.value.db.live.trees))
  {
    hide Inv, Known, ApplyChanges, Merge, Distinct, RunsPairs;
    LiveDistinct(s);
    ChangesByStore(s.db.live.trees, [Changes(name, pairs)]);
  }

  /** Upgrades reach the live trees at once: they delete, rename and add stores as their list says, and go
      through exactly when no store they name is unknown and no name is left twice. A store may be added
      under the name of an old one that is renamed later in the list. */
  lemma UpgradesReachStores(s: System, first: seq<Upgrade>, more: seq<Upgrade>)
    requires Inv(s) && NoDeletes(more)
    requires var next := NextVersion(s.db.live.version, s.initial);
      && Clean(next, s.db.live.trees, first)
      && (UpgradeAll(next, s.db.live.trees, first).Some? ==>
        Layered(next, UpgradeAll(next, s.db.live.trees, first).value, more))
    ensures var t := Step(s, ApplyUpgrades(first + more));
      var stores := StoresAfter(NextVersion(s.db.live.version, s.initial), Stores(s.db.live.trees), first, more);
      && (t.Some? <==> stores.Some?)
      && (t.Some? ==> Stores(t.value.db.live.trees) == stores.value)
  {
    hide Inv, Upgraded, Clean, UpgradeStores, Stores, Distinct, NextVersion, Layered, UpgradeAllLayers, NoDeletes;
    LiveDistinct(s);
    UpgradedInLayers(s.db.live, first, more);
  }

  lemma NothingTouched(trees: seq<Named>)
    ensures WithoutEmpty([]) == [] && Known(trees, []) && RunsPairs(trees, [], trees)
  {
    RunsNone(trees);
  }

  lemma RunsWithoutEmpty(trees: seq<Named>, changes: seq<Changes>, r: seq<Named>)
    ensures RunsPairs(trees, WithoutEmpty(changes), r) <==> RunsPairs(trees, changes, r)
  {
    hide PairsFor, ApplyPairs, WithoutEmpty;
    forall i | 0 <= i < |trees|
      ensures PairsFor(WithoutEmpty(changes), trees[i].name) == PairsFor(changes, trees[i].name)
    {
      EmptyChangesAddNothing(changes, trees[i].name);
    }
  }

  lemma {:induction false} NoneBetween(todo: seq<nat>, v: nat, newest: nat)
    requires forall i :: 0 <= i < |todo| ==> todo[i] <= v
    ensures CountBetween(todo, v, newest) == 0
  {
    if todo != [] { NoneBetween(todo[1..], v, newest); }
  }

  /** Pruning from here to the end of its list, with no snapshot locked. */
  ghost function PruneAll(s: System): (t: System)
    requires s.db.prune.Pruning?
    ensures t.db.prune.Pruning? && t.db.prune.todo == []
    decreases |s.db.prune.todo|
  {
    if s.db.prune.todo == [] then s else PruneAll(Prune1(s, true).value)
  }

  /** Unlocked, pruning keeps exactly the snapshots from the current one on and the given number of most
      recent ones before it. */
  lemma {:induction false} PruneKeepsRecent(s: System, v: nat)
    requires s.db.prune.Pruning? && Descending(s.db.prune.todo)
    ensures v in PruneAll(s).db.snapshots <==>
      && v in s.db.snapshots
      && (v !in s.db.prune.todo || v >= s.db.prune.newest
          || CountBetween(s.db.prune.todo, v, s.db.prune.newest) < s.db.prune.counter)
    decreases |s.db.prune.todo|
  {
    var p := s.db.prune;
    if p.todo != [] {
      var head, rest := p.todo[0], p.todo[1..];
      var t := Prune1(s, true).value;
      assert p.todo == [head] + rest;
      assert forall i :: 0 <= i < |rest| ==> rest[i] == p.todo[i + 1];
      PruneKeepsRecent(t, v);
      if v == head { NoneBetween(rest, v, p.newest); }
    }
  }

  // What a whole pruning does, said of the database it starts from.

  /** The snapshots between a version and the current one. */
  ghost function NewerBefore(db: Db, v: nat): set<nat> { set w | w in db.snapshots && v < w < db.current }

  /** The current snapshot and what is newer, and the given number of most recent ones before it. */
  ghost predicate Recent(db: Db, v: nat) {
    v in db.snapshots && (v >= db.current || |NewerBefore(db, v)| < db.keepRecent)
  }

  lemma {:induction false} CountIsSize(todo: seq<nat>, v: nat, newest: nat)
    requires Descending(todo)
    ensures CountBetween(todo, v, newest) == |set w | w in todo && v < w < newest|
  {
    if todo != [] {
      RestDescends(todo);
      CountIsSize(todo[1..], v, newest);
      var all, fewer := set w | w in todo && v < w < newest, set w | w in todo[1..] && v < w < newest;
      assert all == if v < todo[0] < newest then fewer + {todo[0]} else fewer;
    }
  }

  lemma Listed(db: Db, listing: seq<nat>)
    requires Lists(db, listing)
    ensures Descending(listing) && forall v :: v in listing <==> v in db.snapshots
    ensures forall v: nat :: CountBetween(listing, v, db.current) == |NewerBefore(db, v)|
  {
    forall v: nat ensures v in listing <==> v in db.snapshots {
      assert v in (set w | w in listing) <==> v in db.snapshots.Keys;
    }
    forall v: nat ensures CountBetween(listing, v, db.current) == |NewerBefore(db, v)| {
      CountIsSize(listing, v, db.current);
      assert (set w | w in listing && v < w < db.current) == NewerBefore(db, v);
    }
  }

  /** From reading the link to the end of the list, pruning keeps exactly the recent snapshots. */
  lemma PruningKeepsRecent(s: System, s1: System, listing: seq<nat>, s2: System, v: nat)
    requires Step(s, ReadLink) == Some(s1) && Step(s1, ListSnapshots(listing)) == Some(s2)
    ensures s2.db.prune.Pruning? && (v in PruneAll(s2).db.snapshots <==> Recent(s.db, v))
  {
    hide PruneAll, NewerBefore;
    Listed(s.db, listing);
    PruneKeepsRecent(s2, v);
  }

  // ... and where it cuts the log.

  /** The earliest snapshot kept so far is the least of those that need not be visited any more. */
  ghost predicate Earliest(s: System) {
    var p := s.db.prune;
    && p.Pruning? && Descending(p.todo) && (forall v :: v in p.todo ==> v in s.db.snapshots)
    && (forall v :: v in s.db.snapshots && v !in p.todo ==> forall w :: w in p.todo ==> w < v)
    && (forall v :: v in s.db.snapshots && v !in p.todo ==> p.earliest <= v)
    && (p.earliest != 0 ==> p.earliest in s.db.snapshots && p.earliest !in p.todo)
  }

  lemma EarliestVisits(s: System)
    requires Earliest(s) && s.db.prune.todo != []
    ensures Earliest(Prune1(s, true).value)
  {
    hide Descending;
    RestDescends(s.db.prune.todo);
    assert s.db.prune.todo[0] in s.db.prune.todo;
  }

  lemma {:induction false} PruneAllKeeps(s: System)
    requires Inv(s) && Earliest(s)
    ensures var t := PruneAll(s);
      Inv(t) && Earliest(t) && t.initial == s.initial && t.log == s.log && t.db.wal == s.db.wal
    decreases |s.db.prune.todo|
  {
    hide Inv, Earliest, Visit, Drops;
    IsEarliest(s);
    if s.db.prune.todo != [] {
      PruneKeeps(s, true);
      EarliestVisits(s);
      PruneAllKeeps(Prune1(s, true).value);
    }
  }

  lemma IsEarliest(s: System)
    requires Earliest(s)
    ensures s.db.prune.Pruning? && Descending(s.db.prune.todo)
    ensures s.db.prune.todo == [] && s.db.prune.earliest != 0 ==> IsOldest(s.db.snapshots, s.db.prune.earliest)
  {
  }

  /** A whole pruning with no snapshot locked: what is left are the recent snapshots, and the log is cut right
      behind the oldest of them, as far as its entries go. */
  lemma PruningExact(s: System, s1: System, listing: seq<nat>, s2: System, oldest: nat, t: System) returns (e: nat)
    requires Inv(s) && Step(s, ReadLink) == Some(s1) && Step(s1, ListSnapshots(listing)) == Some(s2)
    requires s2.db.prune.Pruning? && Step(PruneAll(s2), TruncateLog(oldest)) == Some(t)
    ensures forall v: nat :: v in t.db.snapshots <==> Recent(s.db, v)
    ensures IsOldest(t.db.snapshots, e)
    ensures var first := BlocksOf(e, s.initial) + 1;
      t.db.wal.first == if s.db.wal.first <= first <= LastIndex(s.db.wal) then first else s.db.wal.first
  {
    hide Inv, PruneAll, NewerBefore, Recent, BlocksOf, LastIndex, TruncateFront, WalIndex;
    ReadLinkKeeps(s);
    ListKeeps(s1, listing);
    Listed(s.db, listing);
    PruneAllKeeps(s2);
    var r := PruneAll(s2);
    IsEarliest(r);
    e := if r.db.prune.earliest == 0 then oldest else r.db.prune.earliest;
    TruncateExact(r, oldest, t, e);
    forall v: nat ensures v in t.db.snapshots <==> Recent(s.db, v) { PruningKeepsRecent(s, s1, listing, s2, v); }
  }

  /** The log is cut right behind the earliest snapshot kept, as far as its entries go. */
  lemma TruncateExact(s: System, oldest: nat, t: System, e: nat)
    requires Inv(s) && s.db.prune.Pruning? && Step(s, TruncateLog(oldest)) == Some(t)
    requires e == if s.db.prune.earliest == 0 then oldest else s.db.prune.earliest
    ensures var first := BlocksOf(e, s.initial) + 1;
      t.db.wal.first == if s.db.wal.first <= first <= LastIndex(s.db.wal) then first else s.db.wal.first
  {
    hide At, WalOk, LiveOk, LastIndex, SavedAt, Replay, KeptOk, RewriteOk, LoadedOk, PruneOk, SnapshotsOk;
    CutCommitted(s, oldest, e);
    if e == 0 {
      Cut(s.log, s.db.wal, s.db.queue, WalIndex(1, s.initial));
      CutIndex(0, |s.log|, s.initial);
      StartsAtOne(s.log, s.db.wal, s.db.queue);
    }
  }

  lemma StartsAtOne(log: seq<Entry>, wal: Wal, queue: seq<Queued>)
    requires WalOk(log, wal, queue)
    ensures wal.first >= 1
  {
  }

  // ------------------------------------------------------------------ the trees behind it all

  lemma {:induction false} ChangesSound(next: nat, trees: seq<Named>, changes: seq<Changes>)
    requires Sound(next, trees) && ApplyChanges(trees, changes).Some?
    ensures Sound(next, ApplyChanges(trees, changes).value)
  {
    hide ApplyPairs, V.Valid;
    if changes != [] {
      var front, last := changes[..|changes| - 1], changes[|changes| - 1];
      ChangesSound(next, trees, front);
      var before := ApplyChanges(trees, front).value;
      var i := IndexOf(before, last.name);
      assert before[i] in before;
      PairsSound(before[i].tree, last.pairs);
    }
  }

  lemma {:induction false} UpgradesSound(next: nat, trees: seq<Named>, upgrades: seq<Upgrade>)
    requires Sound(next, trees) && next >= 1 && UpgradeAll(next, trees, upgrades).Some?
    ensures Sound(next, UpgradeAll(next, trees, upgrades).value)
  {
    hide UpgradeOne, V.Valid;
    if upgrades != [] {
      var front := upgrades[..|upgrades| - 1];
      UpgradesSound(next, trees, front);
      UpgradeOneSound(next, UpgradeAll(next, trees, front).value, upgrades[|upgrades| - 1]);
    }
  }

  lemma UpgradeOneSound(next: nat, trees: seq<Named>, u: Upgrade)
    requires Sound(next, trees) && next >= 1 && UpgradeOne(next, trees, u).Some?
    ensures Sound(next, UpgradeOne(next, trees, u).value)
  {
    assert forall i :: 0 <= i < |trees| ==> trees[i] in trees;
  }

  lemma EntrySound(m: Multi, entry: Entry)
    requires Sound(NextVersion(m.version, m.initialVersion), m.trees) && ApplyEntry(m, entry).Some?
    ensures Sound(NextVersion(m.version, m.initialVersion), ApplyEntry(m, entry).value.trees)
  {
    hide UpgradeAll, ApplyChanges, Sort, V.Valid, Distinct;
    var next := NextVersion(m.version, m.initialVersion);
    if entry.upgrades != [] {
      UpgradesSound(next, m.trees, entry.upgrades);
      SortOrders(NameOf, UpgradeAll(next, m.trees, entry.upgrades).value);
    }
    ChangesSound(next, Upgraded(m, entry.upgrades).value.trees, entry.changes);
  }

  lemma SaveSound(m: Multi)
    requires Sound(NextVersion(m.version, m.initialVersion), m.trees) && Save(m).Some?
    ensures var n := Save(m).value;
      && Sound(n.version + 1, n.trees) && NextVersion(n.version, n.initialVersion) == n.version + 1
      && forall t :: t in n.trees ==> V.Committed(t.tree)
  {
    hide A.WellFormed;
    assert forall i :: 0 <= i < |m.trees| ==> m.trees[i] in m.trees;
    forall i | 0 <= i < |m.trees| ensures V.Valid(V.SaveVersion(m.trees[i].tree)) { V.SaveKeeps(m.trees[i].tree); }
  }

  /** In every committed state every tree is a balanced, ordered, stamped search tree whose own version is
      the version of the whole, and no node is newer than it. */
  lemma {:induction false} CommittedTreesSound(initial: Initial, log: seq<Entry>)
    requires Replay(Genesis(initial), log).Some?
    ensures var m := Replay(Genesis(initial), log).value;
      && Sound(NextVersion(m.version, m.initialVersion), m.trees)
      && (forall t :: t in m.trees ==> V.Committed(t.tree))
      && (log != [] ==> forall t :: t in m.trees ==> t.tree.version == VersionOf(|log|, initial))
  {
    hide Sound, ApplyEntry, Save, VersionOf, V.Committed;
    if log == [] {
      assert Sound(NextVersion(0, initial), []) by { NoTrees(NextVersion(0, initial)); }
    } else {
      var before := Replay(Genesis(initial), log[..|log| - 1]).value;
      CommittedTreesSound(initial, log[..|log| - 1]);
      EntrySound(before, log[|log| - 1]);
      EntryKeeps(before, log[|log| - 1]);
      SaveSound(ApplyEntry(before, log[|log| - 1]).value);
      ReplayKeeps(initial, log);
      SoundVersions(Replay(Genesis(initial), log).value);
    }
  }

  lemma NoTrees(next: nat)
    ensures Sound(next, [])
  {
  }

  lemma SoundVersions(m: Multi)
    requires Sound(m.version + 1, m.trees)
    ensures forall t :: t in m.trees ==> t.tree.version == m.version
  {
    hide V.Valid;
  }

  /** In every history the live trees are well-formed too, inside a block as well as between blocks. */
  lemma LiveTreesSound(initial: Initial, keepRecent: nat, events: seq<Event>, s: System)
    requires After(initial, keepRecent, events) == Some(s)
    ensures Sound(NextVersion(s.db.live.version, s.initial), s.db.live.trees)
  {
    hide Sound, Replay, ApplyEntry, WalOk, SnapshotsOk, KeptOk, RewriteOk, PruneOk, LoadedOk, Step, Legal, Clean,
      VersionOf;
    EveryRun(initial, keepRecent, events);
    PrefixGood(s.initial, s.log, |s.log|);
    var base := At(s.initial, s.log, |s.log|);
    assert s.log[..|s.log|] == s.log;
    CommittedTreesSound(s.initial, s.log);
    AtKeeps(s.initial, s.log, |s.log|);
    EntrySound(base, s.db.pending);
    EntryKeeps(base, s.db.pending);
  }

  /** A rewrite begun at a commit boundary copies trees that meet the condition of isolated copies. */
  lemma BoundaryIsCommitted(initial: Initial, keepRecent: nat, events: seq<Event>, s: System)
    requires After(initial, keepRecent, events) == Some(s) && s.db.pending == NO_CHANGES
    ensures forall t :: t in s.db.live.trees ==> V.Committed(t.tree)
  {
    hide Sound, Replay, ApplyEntry, WalOk, SnapshotsOk, KeptOk, RewriteOk, PruneOk, LoadedOk, Step, Legal, Clean,
      V.Committed;
    EveryRun(initial, keepRecent, events);
    PrefixGood(s.initial, s.log, |s.log|);
    assert s.log[..|s.log|] == s.log;
    CommittedTreesSound(s.initial, s.log);
    NothingPending(At(s.initial, s.log, |s.log|));
  }
}
