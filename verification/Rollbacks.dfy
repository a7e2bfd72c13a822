/** Rollbacks outside the conditions of `Recovery`: behind a pruning that outlives its database, with
    snapshots that could not be removed, and interrupted ones. */
module Rollbacks {
  import opened Bytes
  import opened MultiTrees
  import opened Durability
  import opened Recovery
  import opened Histories
  import opened MidBlock
  import Hashing
  import InfoBinding

  // ------------------------------------------------------------------ prunings that outlive their database

  /** A pruning left over, from here to the end of its list, with no snapshot locked. */
  ghost function StrayAll(s: System, k: nat): (t: System)
    requires k < |s.db.strays| && s.db.strays[k].Pruning?
    ensures t == s.(db := s.db.(snapshots := t.db.snapshots, strays := t.db.strays), abandoned := t.abandoned)
    decreases |s.db.strays[k].todo|
  {
    if s.db.strays[k].todo == [] then s else StrayAll(StrayStep(s, k, true).value, k)
  }

  /** It leaves exactly the snapshots that it spares, as they are. */
  lemma {:induction false} StrayLeaves(s: System, k: nat, v: nat)
    requires k < |s.db.strays| && s.db.strays[k].Pruning? && Descending(s.db.strays[k].todo)
    ensures var left := StrayAll(s, k).db.snapshots;
      && (v in left <==> v in s.db.snapshots && Spares(s.db.keepRecent, s.db.strays[k], v))
      && (v in left ==> left[v] == s.db.snapshots[v])
    decreases |s.db.strays[k].todo|
  {
    var p := s.db.strays[k];
    if p.todo != [] {
      var t := StrayStep(s, k, true).value;
      RestDescends(p.todo);
      StrayLeaves(t, k, v);
      if v == p.todo[0] { CountNone(p.todo[1..], v, p.newest); }
    }
  }

  /** One that reads the link and lists the snapshots of the database as it is keeps the recent ones of it. */
  lemma StrayKeepsRecent(s: System, k: nat, s1: System, listing: seq<nat>, s2: System, v: nat)
    requires Step(s, StrayLink(k)) == Some(s1) && Step(s1, StrayList(k, listing)) == Some(s2)
    ensures k < |s2.db.strays| && s2.db.strays[k].Pruning?
    ensures v in StrayAll(s2, k).db.snapshots <==> Recent(s.db, v)
  {
    hide StrayAll, NewerBefore;
    Listed(s.db, listing);
    StrayLeaves(s2, k, v);
  }

  /** A database that is opened again has nothing under way of its own; the prunings of the one that was closed go
      on, each as far as it has come, and a process that stops takes them with it. */
  lemma ReopenedIdle(s: System, e: Event, t: System)
    requires (e.Reopen? || e.Rollback? || e.Relink? || e.Crash?) && Step(s, e) == Some(t)
    ensures t.db.queue == [] && t.db.pending == NO_CHANGES && t.db.rewrite == Idle
    ensures t.db.prune == Quiet && t.db.waiting == 0
    ensures t.db.strays == if e.Reopen? || e.Rollback? then Strays(s.db) else []
  {
    hide LoadFrom, WalIndex, LastIndex, Seeks, FirstToReplay;
    if e.Rollback? { RollbackLeaves(s, e.target, e.found, e.left, t); }
  }

  /** What a rollback leaves on disk, and the prunings it leaves over. */
  lemma RollbackLeaves(s: System, target: nat, found: nat, left: set<nat>, t: System)
    requires Step(s, Rollback(target, found, left)) == Some(t)
    ensures found in s.db.snapshots && found <= target && t.db.current == found && t.initial == s.initial
    ensures forall v :: v in s.db.snapshots && v <= target ==> v <= found
    ensures t.db.strays == Strays(s.db) && t.db.keepRecent == s.db.keepRecent
    ensures forall v :: v in t.db.snapshots <==> v in s.db.snapshots && (v <= target || v in left)
    ensures forall v :: v in t.db.snapshots ==> t.db.snapshots[v] == s.db.snapshots[v]
  {
    hide LoadFrom, WalIndex, LastIndex;
    assert Strays(s.db.(snapshots := t.db.snapshots, current := found, wal := t.db.wal)) == Strays(s.db);
  }

  /** The same disk, but for some snapshots. */
  ghost predicate SameDisk(t: System, r: System) {
    && r.initial == t.initial && r.log == t.log && r.db.wal == t.db.wal && r.db.current == t.db.current
    && forall v :: v in r.db.snapshots ==> v in t.db.snapshots && r.db.snapshots[v] == t.db.snapshots[v]
  }

  /** Once rolled back, the database loads exactly while its snapshot is there. */
  lemma LoadsRolledBack(s: System, target: nat, found: nat, left: set<nat>, t: System, r: System)
    requires Inv(s) && Step(s, Rollback(target, found, left)) == Some(t) && SameDisk(t, r)
    ensures Restart(r).Some? <==> found in r.db.snapshots
  {
    hide At, LiveOk, RewriteOk, PruneOk, LoadedOk, KeptOk, StraysKept, VersionOf, BlocksOf, Good, WalIndex, SavedAt,
      WalOk, LastIndex, CaughtUp, SnapshotsOk, Restart, LoadFrom;
    RollbackLeaves(s, target, found, left, t);
    var k := WalIndex(target, s.initial);
    OverwriteLoads(s, target, found, left, k);
    if found in r.db.snapshots {
      var n := BlocksOf(found, s.initial);
      FoundGenuine(s, found);
      CutLog(s, target, found, left, t, k);
      SavedShortens(s, k, n);
      CatchUpReaches(s.initial, t.log, t.db.wal, [], n, 0, k);
      AtKeeps(s.initial, t.log, k);
      SavedTrees(t, k);
      RestartReaches(r, SavedAt(s.initial, t.log, k));
    } else {
      NothingToLoad(r);
    }
  }

  lemma CutLog(s: System, target: nat, found: nat, left: set<nat>, t: System, k: nat)
    requires Inv(s) && Step(s, Rollback(target, found, left)) == Some(t) && k == WalIndex(target, s.initial)
    requires s.db.wal.first <= k <= |s.log|
    ensures t.log == s.log[..k] && t.db.wal.first == s.db.wal.first
    ensures WalOk(t.log, t.db.wal, []) && LastIndex(t.db.wal) == k
  {
    hide At, LiveOk, RewriteOk, PruneOk, LoadedOk, KeptOk, StraysKept, VersionOf, BlocksOf, Good, WalIndex, SavedAt,
      WalOk, LastIndex, SnapshotsOk, LoadFrom, Strays;
    CutBack(s.log, s.db.wal, k);
  }

  lemma FoundGenuine(s: System, v: nat)
    requires Inv(s) && v in s.db.snapshots
    ensures BlocksOf(v, s.initial) <= |s.log|
    ensures s.db.snapshots[v] == SavedAt(s.initial, s.log, BlocksOf(v, s.initial))
  {
    hide At, LiveOk, RewriteOk, PruneOk, LoadedOk, KeptOk, StraysKept, VersionOf, BlocksOf, Good, SavedAt, WalOk;
    assert Genuine(s.initial, s.log, v, s.db.snapshots[v]);
  }

  lemma SavedShortens(s: System, k: nat, n: nat)
    requires Good(s.initial, s.log) && n <= k <= |s.log|
    ensures Good(s.initial, s.log[..k]) && SavedAt(s.initial, s.log[..k], n) == SavedAt(s.initial, s.log, n)
  {
    hide At, Good;
    Shortens(s.initial, s.log, k);
  }

  lemma RestartReaches(r: System, l: Saved)
    requires r.db.current in r.db.snapshots && CaughtUp(r.db.snapshots[r.db.current], r.db.wal, 0) == Some(l)
    requires FirstToReplay(l.multi) == |r.log| + 1
    ensures Restart(r).Some?
  {
    hide CaughtUp, FirstToReplay;
  }

  /** A rollback over a pruning that has listed the snapshots: when the pruning has gone on to its end, the
      database still has its current snapshot, and can be loaded, exactly when the pruning spared it. */
  lemma RollbackExact(s: System, target: nat, found: nat, t: System, k: nat, p: Prune)
    requires Inv(s) && Step(s, Rollback(target, found, {})) == Some(t)
    requires k < |Strays(s.db)| && Strays(s.db)[k] == p && p.Pruning?
    ensures k < |t.db.strays| && t.db.strays[k] == p && t.db.current == found
    ensures found in StrayAll(t, k).db.snapshots <==> Spares(s.db.keepRecent, p, found)
    ensures Restart(StrayAll(t, k)).Some? <==> Spares(s.db.keepRecent, p, found)
  {
    hide Inv, Step, Spares, Descending, Strays, Restart;
    RollbackLeaves(s, target, found, {}, t);
    StraysDescend(s, k);
    LeavesSame(t, k);
    StrayLeaves(t, k, found);
    LoadsRolledBack(s, target, found, {}, t, StrayAll(t, k));
  }

  lemma LeavesSame(t: System, k: nat)
    requires k < |t.db.strays| && t.db.strays[k].Pruning? && Descending(t.db.strays[k].todo)
    ensures SameDisk(t, StrayAll(t, k))
  {
    hide StrayAll, Spares, Descending;
    var r := StrayAll(t, k);
    forall v | v in r.db.snapshots ensures v in t.db.snapshots && r.db.snapshots[v] == t.db.snapshots[v] {
      StrayLeaves(t, k, v);
    }
  }

  lemma StraysDescend(s: System, k: nat)
    requires Inv(s) && k < |Strays(s.db)| && Strays(s.db)[k].Pruning?
    ensures Descending(Strays(s.db)[k].todo)
  {
    hide Good, At, LiveOk, WalOk, SnapshotsOk, KeptOk, RewriteOk, LoadedOk, WasCommitted, Descending, Keeps;
    if k < |s.db.strays| {
      assert Strays(s.db)[k] == s.db.strays[k];
      assert StrayOk(s.db.strays[k], s.db.keepRecent, s.db.current, s.db.snapshots);
    }
  }

  /** A pruning that read the link before the rollback and lists the snapshots after it. */
  ghost predicate ListsLate(t: System, k: nat, newest: nat, listing: seq<nat>, u: System) {
    && k < |t.db.strays| && t.db.strays[k] == LinkRead(newest) && Lists(t.db, listing)
    && u == t.(db := t.db.(strays := t.db.strays[k := Pruning(newest, listing, t.db.keepRecent, 0)]))
  }

  lemma ListsLateStep(t: System, k: nat, newest: nat, listing: seq<nat>, u: System)
    requires ListsLate(t, k, newest, listing, u)
    ensures Step(t, StrayList(k, listing)) == Some(u)
  {
  }

  /** For such a pruning: exactly when the rollback does not go behind the link it read, or some recent
      snapshots are kept. */
  lemma RollbackListExact(s: System, target: nat, found: nat, t: System, k: nat, newest: nat, listing: seq<nat>,
                          u: System)
    requires Inv(s) && Step(s, Rollback(target, found, {})) == Some(t) && ListsLate(t, k, newest, listing, u)
    ensures Step(t, StrayList(k, listing)) == Some(u)
    ensures found in StrayAll(u, k).db.snapshots <==> found >= newest || s.db.keepRecent > 0
    ensures Restart(StrayAll(u, k)).Some? <==> found >= newest || s.db.keepRecent > 0
  {
    hide Inv, Step, Descending, Strays, Restart, StrayAll;
    ListsLateStep(t, k, newest, listing, u);
    RollbackLeaves(s, target, found, {}, t);
    forall v ensures v in listing <==> v in t.db.snapshots {
      assert v in (set w | w in listing) <==> v in t.db.snapshots.Keys;
    }
    CountNone(listing, found, newest);
    StrayLeaves(u, k, found);
    LeavesSame(u, k);
    LoadsRolledBack(s, target, found, {}, t, StrayAll(u, k));
  }

  // ------------------------------------------------------------------ such a rollback is reached

  /** Two blocks are committed and logged. */
  lemma TwoBlocks() returns (events: seq<Event>, s: System)
    ensures After(0, 0, events) == Some(s) && s.initial == 0 && s.abandoned == {}
    ensures s.db.pending == NO_CHANGES && s.db.rewrite == Idle && s.db.live == Multi(0, 2, [OneTree(2)])
    ensures s.db.snapshots.Keys == {0} && s.db.current == 0 && s.db.wal.first == 1 && LastIndex(s.db.wal) == 2
    ensures s.db.queue == [] && Resting(s.db)
  {
    hide Legal, After, Inv, LastIndex, NewEntries, EntriesOf, Consecutive, Infos, WalIndex;
    var before, s1 := OneStore();
    SavesStore(s1, 1);
    Always(s1, Commit);
    OneMore(0, 0, before, s1, Commit);
    var s2 := Step(s1, Commit).value;
    var mid := before + [Commit];
    EveryRun(0, 0, mid);
    WriterNeverFails(s2, 2);
    WriteKeeps(s2, 2);
    Always(s2, WriteBatch(2));
    OneMore(0, 0, mid, s2, WriteBatch(2));
    events, s := mid + [WriteBatch(2)], Step(s2, WriteBatch(2)).value;
    NothingLast();
  }

  lemma NothingLast()
    ensures LastIndex(Wal(1, [])) == 0
  {
  }

  /** The second one is rewritten as a snapshot, which is linked and opened. */
  lemma SecondSnapshot() returns (events: seq<Event>, s: System)
    ensures After(0, 0, events) == Some(s) && s.initial == 0 && s.abandoned == {}
    ensures s.db.rewrite.Done? && s.db.snapshots.Keys == {0, 2} && s.db.current == 2
    ensures s.db.wal.first == 1 && LastIndex(s.db.wal) == 2 && s.db.queue == [] && Resting(s.db)
  {
    hide Legal, After, LastIndex;
    var e0, s0 := TwoBlocks();
    AtBoundary(s0);
    OneMore(0, 0, e0, s0, StartRewrite);
    var s1, e1 := Step(s0, StartRewrite).value, e0 + [StartRewrite];
    Always(s1, RenameSnapshot);
    OneMore(0, 0, e1, s1, RenameSnapshot);
    var s2, e2 := Step(s1, RenameSnapshot).value, e1 + [RenameSnapshot];
    assert s2.db.snapshots.Keys == {0, 2};
    Always(s2, LinkSnapshot);
    OneMore(0, 0, e2, s2, LinkSnapshot);
    var s3, e3 := Step(s2, LinkSnapshot).value, e2 + [LinkSnapshot];
    Always(s3, OpenSnapshot);
    OneMore(0, 0, e3, s3, OpenSnapshot);
    s, events := Step(s3, OpenSnapshot).value, e3 + [OpenSnapshot];
  }

  /** After the switch, pruning has kept the current snapshot and not visited the first one yet. */
  lemma HalfPruned() returns (events: seq<Event>, s: System)
    ensures After(0, 0, events) == Some(s) && s.initial == 0 && s.abandoned == {} && s.db.keepRecent == 0
    ensures s.db.prune == Pruning(2, [0], 0, 2) && s.db.waiting == 0 && s.db.strays == []
    ensures s.db.snapshots.Keys == {0, 2} && s.db.wal.first == 1 && LastIndex(s.db.wal) == 2 && s.db.queue == []
  {
    hide Legal, After, LastIndex, Inv, SwitchOver;
    var e0, s0 := SecondSnapshot();
    EveryRun(0, 0, e0);
    InvisibleSwitch(s0);
    Always(s0, Switch);
    OneMore(0, 0, e0, s0, Switch);
    var s1, e1 := Step(s0, Switch).value, e0 + [Switch];
    Always(s1, ReadLink);
    OneMore(0, 0, e1, s1, ReadLink);
    var s2, e2 := Step(s1, ReadLink).value, e1 + [ReadLink];
    var listing: seq<nat> := [2, 0];
    assert (set v | v in listing) == {0, 2};
    Always(s2, ListSnapshots(listing));
    OneMore(0, 0, e2, s2, ListSnapshots(listing));
    var s3, e3 := Step(s2, ListSnapshots(listing)).value, e2 + [ListSnapshots(listing)];
    assert listing[1..] == [0];
    Always(s3, PruneNext(true));
    OneMore(0, 0, e3, s3, PruneNext(true));
    s, events := Step(s3, PruneNext(true)).value, e3 + [PruneNext(true)];
  }

  /** A history in which a rollback loses its snapshot to a pruning left over, and nothing can be loaded. */
  lemma RollbackLosesCurrent() returns (events: seq<Event>, s: System, t: System, r: System)
    ensures After(0, 0, events) == Some(s) && Step(s, Rollback(1, 0, {})) == Some(t)
    ensures Step(t, StrayNext(0, true)) == Some(r) && Restart(r) == None
  {
    hide After, Inv, Restart;
    events, s := HalfPruned();
    EveryRun(0, 0, events);
    t := RollsBackToStart(s);
    r := RemovesLast(t);
    NothingToLoad(r);
  }

  lemma RollsBackToStart(s: System) returns (t: System)
    requires Inv(s) && s.initial == 0 && s.db.snapshots.Keys == {0, 2} && 0 !in s.abandoned && s.db.queue == []
    requires s.db.wal.first == 1 && LastIndex(s.db.wal) == 2
    ensures Step(s, Rollback(1, 0, {})) == Some(t)
    ensures t.db.snapshots.Keys == {0} && t.db.current == 0 && t.db.strays == Strays(s.db)
  {
    hide Inv, LastIndex, LoadFrom, Strays, Step, VersionOf, WalIndex;
    VersionOne();
    assert Seeks(s.db.snapshots, 1, 0);
    LoadsTarget(s, 0, 0, 1);
    NotEmpty(s.db.wal);
    RollbackGoes(s, 1, 0);
    t := Step(s, Rollback(1, 0, {})).value;
    RollbackLeaves(s, 1, 0, {}, t);
    assert forall v :: v in t.db.snapshots.Keys <==> v in {0};
  }

  lemma RollbackGoes(s: System, target: nat, found: nat)
    requires s.db.queue == [] && target > 0 && Seeks(s.db.snapshots, target, found)
    requires LoadFrom(s.db, found, target).Some? && s.db.wal.entries != []
    requires s.db.wal.first <= WalIndex(target, s.initial) <= LastIndex(s.db.wal)
    ensures Step(s, Rollback(target, found, {})).Some?
  {
    hide LoadFrom, Seeks, WalIndex;
  }

  lemma RemovesLast(t: System) returns (r: System)
    requires t.db.strays == [Pruning(2, [0], 0, 2)] && t.db.snapshots.Keys == {0} && t.db.current == 0
    ensures Step(t, StrayNext(0, true)) == Some(r) && r.db.current !in r.db.snapshots
  {
    r := Step(t, StrayNext(0, true)).value;
  }

  lemma VersionOne()
    ensures VersionOf(1, 0) == 1 && WalIndex(1, 0) == 1
  {
  }

  lemma NotEmpty(wal: Wal)
    requires LastIndex(wal) > 0
    ensures wal.entries != []
  {
  }

  lemma NothingToLoad(s: System)
    requires s.db.current !in s.db.snapshots
    ensures Restart(s) == None
  {
  }

  // ------------------------------------------------------------------ snapshots that could not be removed

  /** A snapshot after the target that could not be removed loads as the version that was rolled back. */
  lemma LeftSnapshotLoads(s: System, target: nat, found: nat, left: set<nat>, t: System, v: nat)
    requires Inv(s) && Step(s, Rollback(target, found, left)) == Some(t)
    requires v in left && v in s.db.snapshots && v > target
    ensures var n := BlocksOf(v, s.initial);
      && |t.log| < n <= |s.log| && Seeks(t.db.snapshots, v, v)
      && LoadFrom(t.db, v, v) == Some(SavedAt(s.initial, s.log, n))
  {
    hide At, LiveOk, RewriteOk, PruneOk, LoadedOk, KeptOk, StraysKept, BlocksOf, Good, WalIndex, WalOk, VersionOf,
      LastIndex, CaughtUp;
    var k, n := WalIndex(target, s.initial), BlocksOf(v, s.initial);
    OverwriteLoads(s, target, found, left, k);
    assert Genuine(s.initial, s.log, v, s.db.snapshots[v]);
    AtKeeps(s.initial, s.log, n);
    VersionsGrow(k, n, s.initial);
  }

  /** Such a snapshot is harmless in a later history exactly when that history has committed the same trees
      at its version. */
  lemma LeftSnapshotHarmless(s: System, u: System, v: nat)
    requires Inv(s) && v in s.db.snapshots && Good(u.initial, u.log) && u.initial == s.initial
    requires v in u.db.snapshots && u.db.snapshots[v] == s.db.snapshots[v] && BlocksOf(v, s.initial) <= |u.log|
    ensures var n := BlocksOf(v, s.initial);
      && n <= |s.log|
      && (Genuine(u.initial, u.log, v, u.db.snapshots[v]) <==> At(u.initial, u.log, n) == At(s.initial, s.log, n))
  {
    hide At, LiveOk, RewriteOk, PruneOk, LoadedOk, KeptOk, StraysKept, BlocksOf, Good, WalOk, VersionOf;
    assert Genuine(s.initial, s.log, v, s.db.snapshots[v]);
  }

  /** It is enough to compare the commit info: if it is the same, the snapshot is harmless, or the digest
      function has a collision. */
  lemma SameInfoHarmless(s: System, u: System, v: nat) returns (x: Bytes, y: Bytes)
    requires Inv(s) && v in s.db.snapshots && Good(u.initial, u.log) && u.initial == s.initial
    requires v in u.db.snapshots && u.db.snapshots[v] == s.db.snapshots[v] && BlocksOf(v, s.initial) <= |u.log|
    requires SavedAt(u.initial, u.log, BlocksOf(v, s.initial)).infos == s.db.snapshots[v].infos
    ensures Genuine(u.initial, u.log, v, u.db.snapshots[v]) || (x != y && Hashing.Sha256(x) == Hashing.Sha256(y))
  {
    hide At, LiveOk, RewriteOk, PruneOk, LoadedOk, KeptOk, StraysKept, BlocksOf, Good, WalOk, VersionOf, Genuine,
      SnapshotsOk, Infos;
    var n := BlocksOf(v, s.initial);
    LeftSnapshotHarmless(s, u, v);
    FoundGenuine(s, v);
    var a, b := At(s.initial, s.log, n), At(u.initial, u.log, n);
    x, y := [], [];
    if a != b {
      AtKeeps(s.initial, s.log, n);
      AtKeeps(u.initial, u.log, n);
      AtSound(s.initial, s.log, n);
      AtSound(u.initial, u.log, n);
      x, y := InfoBinding.InfosBind(a.trees, b.trees);
    }
  }

  lemma AtSound(initial: Initial, log: seq<Entry>, n: nat)
    requires Good(initial, log) && n <= |log|
    ensures forall t :: t in At(initial, log, n).trees ==> InfoBinding.WellFormedTree(t)
  {
    hide VersionOf, Good;
    PrefixGood(initial, log, n);
    BaseSound(initial, log[..n]);
    assert log[..n][..n] == log[..n];
  }

  // ------------------------------------------------------------------ interrupted rollbacks

  /** Interrupted after the link has moved, a rollback leaves a database that loads exactly when the log still
      has every entry after the snapshot. */
  lemma RelinkExact(s: System, target: nat, found: nat)
    requires Inv(s) && s.db.queue == [] && target > 0 && Seeks(s.db.snapshots, target, found)
    requires LoadFrom(s.db, found, target).Some?
    ensures Step(s, Relink(target, found)).Some? <==> s.db.wal.first <= BlocksOf(found, s.initial) + 1
  {
    hide At, LiveOk, RewriteOk, PruneOk, LoadedOk, KeptOk, StraysKept, BlocksOf, Good, VersionOf, CaughtUp,
      SnapshotsOk, SavedAt, WalOk;
    var n := BlocksOf(found, s.initial);
    FoundGenuine(s, found);
    Drained(s.log, s.db.wal);
    AtKeeps(s.initial, s.log, n);
    SavedTrees(s, n);
    var r := s.(db := s.db.(current := found), abandoned := s.abandoned - {found});
    if s.db.wal.first <= n + 1 {
      CatchUpReaches(s.initial, s.log, s.db.wal, s.db.queue, n, 0, |s.log|);
      AtKeeps(s.initial, s.log, |s.log|);
      SavedTrees(s, |s.log|);
      RestartReaches(r, SavedAt(s.initial, s.log, |s.log|));
    } else {
      CatchUpBehind(s, n);
    }
  }

  lemma SavedTrees(s: System, n: nat)
    requires Good(s.initial, s.log) && n <= |s.log|
    ensures SavedAt(s.initial, s.log, n).multi == At(s.initial, s.log, n)
  {
  }

  /** Entries that are not in the log any more cannot be replayed. */
  lemma CatchUpBehind(s: System, n: nat)
    requires Inv(s) && s.db.queue == [] && n <= |s.log| && s.db.wal.first > n + 1
    ensures CaughtUp(SavedAt(s.initial, s.log, n), s.db.wal, 0) == None
  {
    hide At, LiveOk, RewriteOk, PruneOk, LoadedOk, KeptOk, StraysKept, BlocksOf, Good, VersionOf, SnapshotsOk;
    AtKeeps(s.initial, s.log, n);
  }
}
