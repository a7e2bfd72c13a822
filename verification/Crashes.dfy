/** Crashes while a snapshot is ahead of the log: how such a state is reached, and what it costs. */
module Crashes {
  import opened Bytes
  import opened MultiTrees
  import opened Durability
  import opened Recovery
  import opened Histories
  import opened MidBlock

  // ------------------------------------------------------------------ what a crash costs

  /** The database after some work in a block and its commit. */
  ghost predicate NextCommit(t: System, c: System) {
    exists u :: OnlyWork(t, u) && u.db.live.version == t.db.live.version
      && u.db.live.initialVersion == t.db.live.initialVersion && CommitBlock(u) == Some(c)
  }

  /** The first entry after a restart is numbered by the trees, not by the log. */
  lemma FirstQueued(t: System, c: System, n: nat)
    requires NextCommit(t, c) && t.db.queue == [] && t.db.live.initialVersion == t.initial
    requires t.db.live.version == VersionOf(n, t.initial)
    ensures |c.db.queue| == 1 && c.db.queue[0].index == n + 1 && c.db.wal == t.db.wal
  {
    hide VersionOf, WalIndex, NextVersion, Infos;
    VersionsCount(n, t.initial);
  }

  lemma WritesAtEnd(db: Db)
    requires |db.queue| == 1
    ensures Write(db, 1).Some? <==> db.queue[0].index <= LastIndex(db.wal) + 1
  {
    var last, q, none := LastIndex(db.wal), db.queue[0], db.queue[..0];
    assert db.queue[..1] == db.queue == [q] && none == [] && [q][..0] == none;
    assert NewEntries(last, [q]) == if q.index <= last then none else none + [q];
  }

  /** After a crash the log writer accepts the next block exactly when the log had reached the current
      snapshot; otherwise the block's entry is out of order and the writer gives up. */
  lemma WriterAfterCrash(s: System, c: System)
    requires Inv(s) && Restart(s).Some? && NextCommit(Restart(s).value, c)
    ensures Step(c, WriteBatch(1)).Some? <==> BlocksOf(s.db.current, s.initial) <= LastIndex(s.db.wal)
  {
    hide At, LiveOk, VersionOf, BlocksOf, Good, WalOk, LastIndex, LoadedOk, Restart, SnapshotsOk, KeptOk, RewriteOk,
      PruneOk, Infos, NextCommit;
    RestartLoads(s);
    var reached := Max(BlocksOf(s.db.current, s.initial), LastIndex(s.db.wal));
    AtKeeps(s.initial, s.log, reached);
    FirstQueued(Restart(s).value, c, reached);
    WritesAtEnd(c.db);
  }

  /** A snapshot beyond what the restart reached loads as the version it was published for, although
      the history has no such block any more. */
  lemma StraySnapshotLoads(s: System, v: nat)
    requires Inv(s) && v in s.db.snapshots
    requires BlocksOf(v, s.initial) > BlocksOf(s.db.current, s.initial)
    requires BlocksOf(v, s.initial) > LastIndex(s.db.wal)
    ensures Restart(s).Some?
    ensures var t, n := Restart(s).value, BlocksOf(v, s.initial);
      && |t.log| < n <= |s.log| && Seeks(t.db.snapshots, v, v)
      && LoadFrom(t.db, v, v) == Some(SavedAt(s.initial, s.log, n))
  {
    hide At, LiveOk, VersionOf, Good, WalOk, LastIndex, LoadedOk, Restart, KeptOk, RewriteOk, PruneOk, Infos, BlocksOf;
    RestartLoads(s);
    var n := BlocksOf(v, s.initial);
    assert Genuine(s.initial, s.log, v, s.db.snapshots[v]);
    AtKeeps(s.initial, s.log, n);
    assert v > 0 by { BlockZero(s.initial); }
  }

  lemma BlockZero(initial: Initial)
    ensures BlocksOf(0, initial) == 0
  {
  }

  // ------------------------------------------------------------------ such a state is reached

  /** A store is added and committed; its snapshot is published, and then linked, before the log writer has
      taken the block: first a snapshot on disk is ahead of the log, then the current one is. */
  lemma SnapshotAheadOfLog() returns (published: seq<Event>, s: System, linked: seq<Event>, t: System)
    ensures After(0, 0, published) == Some(s) && !LogCovers(s)
    ensures After(0, 0, linked) == Some(t) && BlocksOf(t.db.current, t.initial) > LastIndex(t.db.wal)
  {
    hide Legal, After;
    var events, s2 := OneStore();
    AtBoundary(s2);
    OneMore(0, 0, events, s2, StartRewrite);
    var s3 := Step(s2, StartRewrite).value;
    Always(s3, RenameSnapshot);
    OneMore(0, 0, events + [StartRewrite], s3, RenameSnapshot);
    s, published := Step(s3, RenameSnapshot).value, events + [StartRewrite] + [RenameSnapshot];
    Always(s, LinkSnapshot);
    OneMore(0, 0, published, s, LinkSnapshot);
    t, linked := Step(s, LinkSnapshot).value, published + [LinkSnapshot];
    assert 1 in s.db.snapshots && BlocksOf(1, 0) == 1;
  }
}
