/** The query cache on top of the database: commits and the background backfill add versions while the
    database goes on, and whatever is served is what was committed. */
module HistoricalQueries {
  import opened Bytes
  import opened MultiTrees
  import opened PendingLog
  import opened Durability
  import opened Recovery
  import opened Histories
  import opened MidBlock
  import Q = QueryCache

  // ------------------------------------------------------------------ state and steps

  /** The backfill of a window has added its trees, at version `at`; it goes on below `latest`. */
  datatype Loader = Stopped | Backfilling(limit: nat, trees: Saved, at: nat, latest: nat)

  /** The database, the version it was opened at, everything done to the cache, and the backfill. */
  datatype Store = Store(s: System, since: nat, cache: seq<Q.CacheEvent<Saved>>, loader: Loader)

  datatype StoreEvent =
    | OnDatabase(e: Event)
    | Publish
    | LoadFirst(limit: nat, found: nat)
    | LoadNext

  /** The process, or its database, starts again. */
  predicate Restarts(e: Event) { e.Reopen? || e.Rollback? || e.Relink? || e.Crash? }

  ghost function StoreStep(st: Store, e: StoreEvent): Option<Store> {
    match e
    case OnDatabase(e) => (
      match Step(st.s, e)
      case None => None
      case Some(t) =>
        if Restarts(e) then Some(Store(t, t.db.live.version, st.cache + [Q.Clear], Stopped))
        else Some(st.(s := t)))
    case Publish =>
      Some(st.(cache := st.cache + [Q.Add(st.s.db.live.version, Saved(st.s.db.live, st.s.db.infos))]))
    case LoadFirst(limit, found) =>
      var start := Q.BackfillStart(st.since, limit, st.s.initial);
      if st.since == 0 || limit == 0 || st.loader != Stopped || !Seeks(st.s.db.snapshots, start, found) then None
      else (
        match LoadFrom(st.s.db, found, start)
        case None => None
        case Some(l) =>
          Some(st.(cache := st.cache + [Q.Add(start, l)], loader := Backfilling(limit, l, start, st.since))))
    case LoadNext =>
      if !st.loader.Backfilling? || st.loader.at + 1 >= st.loader.latest then None
      else
        var at := st.loader.at + 1;
        match CaughtUp(st.loader.trees, st.s.db.wal, at)
        case None => Some(st.(loader := Stopped))
        case Some(l) => Some(st.(cache := st.cache + [Q.Add(at, l)], loader := st.loader.(trees := l, at := at)))
  }

  /** What is owed besides the database's own conditions: trees are published as they were committed. */
  ghost predicate StoreLegal(st: Store, e: StoreEvent) {
    match e
    case OnDatabase(e) => Legal(st.s, e)
    case Publish =>
      Good(st.s.initial, st.s.log) && Quiescent(At(st.s.initial, st.s.log, |st.s.log|), st.s.db.pending)
    case _ => true
  }

  // ------------------------------------------------------------------ what holds in every run

  ghost predicate Committed(s: System, v: int, trees: Saved)
    requires Good(s.initial, s.log)
  {
    v >= 0 && Genuine(s.initial, s.log, v, trees)
  }

  ghost predicate CacheOk(s: System, cache: seq<Q.CacheEvent<Saved>>)
    requires Good(s.initial, s.log)
  {
    forall v :: v in Q.Added(cache) ==> Committed(s, v, Q.Added(cache)[v])
  }

  ghost predicate LoaderOk(st: Store)
    requires Good(st.s.initial, st.s.log)
  {
    st.loader.Backfilling? ==>
      && Genuine(st.s.initial, st.s.log, st.loader.at, st.loader.trees) && st.loader.at > 0
      && st.loader.latest == st.since
      && Covers(st.cache, Q.BackfillStart(st.since, st.loader.limit, st.s.initial), st.loader.at)
  }

  /** Every version from one to another has been added. */
  ghost predicate Covers(cache: seq<Q.CacheEvent<Saved>>, from: nat, to: nat) {
    forall v: int :: from <= v <= to ==> v in Q.Added(cache)
  }

  lemma AddCovers(cache: seq<Q.CacheEvent<Saved>>, from: nat, to: nat, version: nat, trees: Saved)
    ensures Covers(cache, from, to) ==> Covers(cache + [Q.Add(version, trees)], from, to)
    ensures version == from > 0 ==> Covers(cache + [Q.Add(version, trees)], from, version)
    ensures version == to + 1 && Covers(cache, from, to) ==> Covers(cache + [Q.Add(version, trees)], from, version)
  {
    AddedLast(cache, Q.Add(version, trees));
  }

  /** The log has reached the version the database was opened at. */
  ghost predicate OpenedOk(st: Store) {
    var n := BlocksOf(st.since, st.s.initial);
    n <= LastIndex(st.s.db.wal) && st.since == VersionOf(n, st.s.initial)
  }

  ghost predicate StoreInv(st: Store) {
    && Inv(st.s) && OpenedOk(st) && CacheOk(st.s, st.cache) && LoaderOk(st)
  }

  lemma AddedLast(cache: seq<Q.CacheEvent<Saved>>, e: Q.CacheEvent<Saved>)
    ensures Q.Added(cache + [e]) ==
      match e case Add(version, trees) => Q.FirstAdded(Q.Added(cache), version, trees) case Clear => map[]
  {
    assert (cache + [e])[..|cache|] == cache;
  }

  lemma AddKeepsCache(s: System, cache: seq<Q.CacheEvent<Saved>>, v: nat, trees: Saved)
    requires Good(s.initial, s.log) && CacheOk(s, cache) && Genuine(s.initial, s.log, v, trees)
    ensures CacheOk(s, cache + [Q.Add(v, trees)])
  {
    hide Genuine, Good;
    AddedLast(cache, Q.Add(v, trees));
  }

  // ------------------------------------------------------------------ steps of the database

  predicate Background(e: Event) {
    e.StartRewrite? || e.RenameSnapshot? || e.LinkSnapshot? || e.OpenSnapshot? || e.ReplayNext? || e.FinishReplay?
    || e.FailRewrite? || e.DiscardRewrite?
  }

  predicate Working(e: Event) { e.ApplyUpgrades? || e.ApplyChangeSets? || e.ApplyChangeSet? }

  ghost predicate SameLogs(s: System, t: System) { t.initial == s.initial && t.log == s.log && t.db.wal == s.db.wal }

  lemma BackgroundContinues(s: System, e: Event, t: System)
    requires Background(e) && Step(s, e) == Some(t)
    ensures SameLogs(s, t)
  {
    hide Block, Infos, LastIndex, FirstToReplay;
  }

  lemma WorkContinues(s: System, e: Event, t: System)
    requires Working(e) && Step(s, e) == Some(t)
    ensures SameLogs(s, t)
  {
    hide Upgraded, ApplyChanges, MergeAll, Merge, WithoutEmpty;
  }

  lemma PruningContinues(s: System, e: Event, t: System)
    requires e.Switch? || e.ReadLink? || e.ListSnapshots? || e.PruneNext? || e.StopPrune? || e.StrayLink?
      || e.StrayList? || e.StrayNext?
    requires Step(s, e) == Some(t)
    ensures SameLogs(s, t)
  {
    hide CaughtUp, ApplyEntry, Lists, Visit, Drops, CommittedVersion;
  }

  lemma CommitContinues(s: System, t: System)
    requires Step(s, Commit) == Some(t)
    ensures t.initial == s.initial && t.log == s.log + [s.db.pending] && t.db.wal == s.db.wal
  {
    hide Save, Infos, WalIndex, NextVersion;
  }

  lemma WriteContinues(s: System, count: nat, t: System)
    requires Inv(s) && Step(s, WriteBatch(count)) == Some(t)
    ensures t.initial == s.initial && t.log == s.log && LastIndex(t.db.wal) == LastIndex(s.db.wal) + count
  {
    hide Inv, LastIndex, NewEntries, EntriesOf, Consecutive;
    WriteKeeps(s, count);
  }

  /** But for a restart the history only grows, and the log reaches no less far. */
  lemma HistoryContinues(s: System, e: Event, t: System)
    requires Inv(s) && Legal(s, e) && Step(s, e) == Some(t) && !Restarts(e)
    ensures t.initial == s.initial && |s.log| <= |t.log| && t.log[..|s.log|] == s.log
    ensures LastIndex(s.db.wal) <= LastIndex(t.db.wal)
  {
    hide Inv, Legal, Step, LastIndex;
    if e.WriteBatch? {
      WriteContinues(s, e.count, t);
    } else if e.TruncateLog? {
      TruncateContinues(s, e.oldest, t);
    } else if e.Commit? {
      CommitContinues(s, t);
    } else if Working(e) {
      WorkContinues(s, e, t);
    } else if Background(e) {
      BackgroundContinues(s, e, t);
    } else {
      PruningContinues(s, e, t);
    }
  }

  lemma TruncateContinues(s: System, oldest: nat, t: System)
    requires Inv(s) && Step(s, TruncateLog(oldest)) == Some(t)
    ensures t.initial == s.initial && t.log == s.log && LastIndex(t.db.wal) == LastIndex(s.db.wal)
  {
    hide Good, At, LiveOk, SnapshotsOk, KeptOk, RewriteOk, PruneOk, StraysKept, LoadedOk, WalOk, LastIndex,
      TruncateFront, WalIndex;
    var e := if s.db.prune.earliest == 0 then oldest else s.db.prune.earliest;
    Cut(s.log, s.db.wal, s.db.queue, WalIndex(e + 1, s.initial));
  }

  lemma GenuineContinues(s: System, t: System, v: nat, trees: Saved)
    requires Good(s.initial, s.log) && Good(t.initial, t.log) && t.initial == s.initial
    requires |s.log| <= |t.log| && t.log[..|s.log|] == s.log && Genuine(s.initial, s.log, v, trees)
    ensures Genuine(t.initial, t.log, v, trees)
  {
    hide Good, At, BlocksOf, VersionOf;
    Shortens(t.initial, t.log, |s.log|);
  }

  lemma DatabaseKeeps(st: Store, e: Event)
    requires StoreInv(st) && Legal(st.s, e) && StoreStep(st, OnDatabase(e)).Some?
    ensures StoreInv(StoreStep(st, OnDatabase(e)).value)
  {
    hide Inv, Legal, Step, Genuine, BlocksOf, VersionOf, LastIndex;
    var t := Step(st.s, e).value;
    StepKeeps(st.s, e);
    IsGood(st.s);
    IsGood(t);
    if Restarts(e) {
      AddedLast(st.cache, Q.Clear);
      RestartReached(st.s, e, t);
    } else {
      HistoryContinues(st.s, e, t);
      forall v | v in Q.Added(st.cache) ensures Committed(t, v, Q.Added(st.cache)[v]) {
        GenuineContinues(st.s, t, v, Q.Added(st.cache)[v]);
      }
      if st.loader.Backfilling? { GenuineContinues(st.s, t, st.loader.at, st.loader.trees); }
    }
  }

  lemma IsGood(s: System)
    requires Inv(s)
    ensures Good(s.initial, s.log)
  {
    hide LiveOk, SnapshotsOk, KeptOk, RewriteOk, PruneOk, StraysKept, LoadedOk, WalOk, Good;
  }

  /** After a restart nothing is queued: the log has reached the live version. */
  lemma RestartReached(s: System, e: Event, t: System)
    requires Inv(s) && Legal(s, e) && Restarts(e) && Step(s, e) == Some(t) && Inv(t)
    ensures OpenedOk(Store(t, t.db.live.version, [], Stopped))
  {
    hide Inv, Legal, LoadFrom, WalIndex, VersionOf, BlocksOf, LastIndex, Restart, Seeks;
    EmptyQueue(s, e, t);
    CommittedWhenDrained(t);
    DrainedLog(t);
    VersionsCount(|t.log|, t.initial);
  }

  lemma EmptyQueue(s: System, e: Event, t: System)
    requires Restarts(e) && Step(s, e) == Some(t)
    ensures t.db.queue == []
  {
    hide LoadFrom, WalIndex, LastIndex, Seeks, FirstToReplay;
  }

  lemma DrainedLog(t: System)
    requires Inv(t) && t.db.queue == []
    ensures LastIndex(t.db.wal) == |t.log|
  {
    hide LiveOk, SnapshotsOk, KeptOk, RewriteOk, PruneOk, StraysKept, LoadedOk, WalOk, Good, LastIndex;
    Drained(t.log, t.db.wal);
  }

  // ------------------------------------------------------------------ publishing and backfilling

  /** What is published is the committed version exactly when the block under way has left no mark. */
  lemma PublishExact(s: System)
    requires Inv(s)
    ensures Genuine(s.initial, s.log, s.db.live.version, Saved(s.db.live, s.db.infos))
       <==> Quiescent(At(s.initial, s.log, |s.log|), s.db.pending)
  {
    hide Inv, Genuine, Quiescent, At;
    MidBlockGenuine(s);
  }

  lemma PublishKeeps(st: Store)
    requires StoreInv(st) && StoreLegal(st, Publish)
    ensures StoreInv(StoreStep(st, Publish).value)
  {
    hide Inv, Genuine, Quiescent, At, BlocksOf, VersionOf, CacheOk, Covers;
    IsGood(st.s);
    PublishExact(st.s);
    var live := st.s.db.live;
    AddKeepsCache(st.s, st.cache, live.version, Saved(live, st.s.db.infos));
    if st.loader.Backfilling? {
      var start := Q.BackfillStart(st.since, st.loader.limit, st.s.initial);
      AddCovers(st.cache, start, st.loader.at, live.version, Saved(live, st.s.db.infos));
    }
  }

  /** What has just been published is in the cache, and nothing newer is. */
  lemma PublishedIsNewest(st: Store)
    requires StoreInv(st) && StoreLegal(st, Publish) && st.s.db.live.version > 0
    ensures var added := Q.Added(StoreStep(st, Publish).value.cache);
      st.s.db.live.version in added && Q.Newer(added.Keys, st.s.db.live.version) == {}
  {
    hide Inv, Genuine, Quiescent, At, BlocksOf, VersionOf, Covers, Q.Added;
    var live, t := st.s.db.live, StoreStep(st, Publish).value;
    PublishKeeps(st);
    AddedLast(st.cache, Q.Add(live.version, Saved(live, st.s.db.infos)));
    IsGood(st.s);
    forall v | v in Q.Added(t.cache) ensures v <= live.version {
      NotNewer(st.s, v, Q.Added(t.cache)[v]);
    }
  }

  lemma NotNewer(s: System, v: nat, trees: Saved)
    requires Inv(s) && Genuine(s.initial, s.log, v, trees)
    ensures v <= s.db.live.version
  {
    hide Good, At, WalOk, SnapshotsOk, KeptOk, RewriteOk, PruneOk, StraysKept, LoadedOk, VersionOf, BlocksOf, SavedAt,
      ApplyEntry;
    AtKeeps(s.initial, s.log, |s.log|);
    EntryKeeps(At(s.initial, s.log, |s.log|), s.db.pending);
    VersionsGrow(|s.log|, BlocksOf(v, s.initial), s.initial);
  }

  /** A load that succeeds at a version the log has reached gives the trees committed there. */
  lemma LoadsCommitted(s: System, found: nat, k: nat)
    requires Inv(s) && 1 <= k <= LastIndex(s.db.wal) && Seeks(s.db.snapshots, VersionOf(k, s.initial), found)
    requires LoadFrom(s.db, found, VersionOf(k, s.initial)).Some?
    ensures k <= |s.log| && LoadFrom(s.db, found, VersionOf(k, s.initial)) == Some(SavedAt(s.initial, s.log, k))
  {
    hide Good, At, LiveOk, SnapshotsOk, KeptOk, RewriteOk, PruneOk, StraysKept, LoadedOk, VersionOf, BlocksOf, CaughtUp,
      LastIndex, SavedAt, WalOk;
    var f := BlocksOf(found, s.initial);
    FoundAtBlock(s, found);
    LogLength(s);
    VersionsGrow(k, f, s.initial);
    VersionsGrow(f, k, s.initial);
    AtKeeps(s.initial, s.log, f);
    SavedIs(s, f);
    if f < k {
      CatchUpCommitted(s, f, k);
    }
  }

  lemma SavedIs(s: System, n: nat)
    requires Good(s.initial, s.log) && n <= |s.log|
    ensures SavedAt(s.initial, s.log, n).multi == At(s.initial, s.log, n)
  {
  }

  lemma FoundAtBlock(s: System, v: nat)
    requires Inv(s) && v in s.db.snapshots
    ensures BlocksOf(v, s.initial) <= |s.log| && v == VersionOf(BlocksOf(v, s.initial), s.initial)
    ensures s.db.snapshots[v] == SavedAt(s.initial, s.log, BlocksOf(v, s.initial))
  {
    hide Good, At, LiveOk, KeptOk, RewriteOk, PruneOk, StraysKept, LoadedOk, VersionOf, BlocksOf, SavedAt, WalOk;
    assert Genuine(s.initial, s.log, v, s.db.snapshots[v]);
  }

  lemma LogLength(s: System)
    requires Inv(s)
    ensures LastIndex(s.db.wal) <= |s.log|
  {
    hide Good, At, LiveOk, SnapshotsOk, KeptOk, RewriteOk, PruneOk, StraysKept, LoadedOk;
  }

  /** Catching up from one committed version to a later one that the log has reached gives that one, or fails. */
  lemma CatchUpCommitted(s: System, n: nat, k: nat)
    requires Inv(s) && n < k <= LastIndex(s.db.wal) && k <= |s.log|
    ensures var r := CaughtUp(SavedAt(s.initial, s.log, n), s.db.wal, VersionOf(k, s.initial));
      r == None || r == Some(SavedAt(s.initial, s.log, k))
  {
    hide Good, At, LiveOk, SnapshotsOk, KeptOk, RewriteOk, PruneOk, StraysKept, LoadedOk, VersionOf, BlocksOf,
      LastIndex, WalOk, Replay, Infos, Span;
    AtKeeps(s.initial, s.log, n);
    PositiveBlock(k, s.initial);
    if s.db.wal.first <= n + 1 {
      CatchUpReaches(s.initial, s.log, s.db.wal, s.db.queue, n, VersionOf(k, s.initial), k);
    }
  }

  /** The backfill starts at a committed version, or finds nothing to load. */
  lemma StartCommitted(st: Store, limit: nat, found: nat)
    requires StoreInv(st) && StoreStep(st, LoadFirst(limit, found)).Some?
    ensures var start := Q.BackfillStart(st.since, limit, st.s.initial); var k := BlocksOf(start, st.s.initial);
      start == VersionOf(k, st.s.initial) && 1 <= k <= LastIndex(st.s.db.wal)
  {
    hide Good, At, LiveOk, KeptOk, RewriteOk, PruneOk, StraysKept, LoadedOk, WalOk, CacheOk, LoaderOk, Replay, Infos,
      LastIndex;
    var start, initial := Q.BackfillStart(st.since, limit, st.s.initial), st.s.initial;
    if initial > 1 && start == initial - 1 {
      FoundAtBlock(st.s, found);
      assert found == 0;
      AtKeeps(st.s.initial, st.s.log, 0);
    }
  }

  lemma LoadFirstKeeps(st: Store, limit: nat, found: nat)
    requires StoreInv(st) && StoreStep(st, LoadFirst(limit, found)).Some?
    ensures StoreInv(StoreStep(st, LoadFirst(limit, found)).value)
  {
    hide Inv, BlocksOf, VersionOf, CacheOk, LoadFrom, At, LastIndex, Seeks, Covers;
    var start := Q.BackfillStart(st.since, limit, st.s.initial);
    var k := BlocksOf(start, st.s.initial);
    StartCommitted(st, limit, found);
    IsGood(st.s);
    LoadsCommitted(st.s, found, k);
    var l := LoadFrom(st.s.db, found, start).value;
    AddKeepsCache(st.s, st.cache, start, l);
    AddCovers(st.cache, start, start, start, l);
    PositiveBlock(k, st.s.initial);
  }

  lemma PositiveBlock(k: nat, initial: Initial)
    requires k >= 1
    ensures VersionOf(k, initial) > 0
  {
  }

  lemma LoadNextKeeps(st: Store)
    requires StoreInv(st) && StoreStep(st, LoadNext).Some?
    ensures StoreInv(StoreStep(st, LoadNext).value)
  {
    hide Inv, BlocksOf, VersionOf, CacheOk, CaughtUp, At, LastIndex, Genuine, SavedAt, Good, Covers;
    var n := BlocksOf(st.loader.at, st.s.initial);
    IsGood(st.s);
    LogLength(st.s);
    GenuineIs(st.s, st.loader.at, st.loader.trees);
    NextVersions(st.loader.at, st.since, n, BlocksOf(st.since, st.s.initial), st.s.initial);
    CatchUpCommitted(st.s, n, n + 1);
    var r := CaughtUp(st.loader.trees, st.s.db.wal, st.loader.at + 1);
    if r.Some? {
      GenuineIs(st.s, st.loader.at + 1, r.value);
      AddKeepsCache(st.s, st.cache, st.loader.at + 1, r.value);
      var start := Q.BackfillStart(st.since, st.loader.limit, st.s.initial);
      AddCovers(st.cache, start, st.loader.at, st.loader.at + 1, r.value);
    }
  }

  /** A backfill can start wherever a kept snapshot is not newer than its first version, if that was committed. */
  lemma BackfillStarts(st: Store, limit: nat, found: nat, kept: nat)
    requires StoreInv(st) && st.loader == Stopped && st.since > 0 && limit > 0
    requires var start := Q.BackfillStart(st.since, limit, st.s.initial);
      start >= st.s.initial && kept <= start && Seeks(st.s.db.snapshots, start, found)
    requires kept in st.s.db.snapshots && kept !in st.s.abandoned
    ensures StoreStep(st, LoadFirst(limit, found)).Some?
  {
    hide Inv, LoadFrom, Seeks, CacheOk, LoaderOk, LastIndex;
    var start := Q.BackfillStart(st.since, limit, st.s.initial);
    var k := BlocksOf(start, st.s.initial);
    assert start == VersionOf(k, st.s.initial) && 1 <= k <= BlocksOf(st.since, st.s.initial);
    LoadsTarget(st.s, kept, found, k);
  }

  /** It goes on exactly while its next entry has not been cut from the log. */
  lemma LoadNextExact(st: Store)
    requires StoreInv(st) && st.loader.Backfilling? && st.loader.at + 1 < st.loader.latest
    ensures StoreStep(st, LoadNext).Some?
    ensures StoreStep(st, LoadNext).value.loader.Backfilling? <==>
      st.s.db.wal.first <= BlocksOf(st.loader.at, st.s.initial) + 1
  {
    hide Inv, BlocksOf, VersionOf, CacheOk, CaughtUp, At, LastIndex, Genuine, SavedAt, Good, Covers;
    var n := BlocksOf(st.loader.at, st.s.initial);
    IsGood(st.s);
    LogLength(st.s);
    GenuineIs(st.s, st.loader.at, st.loader.trees);
    NextVersions(st.loader.at, st.since, n, BlocksOf(st.since, st.s.initial), st.s.initial);
    NextReadable(st.s, n);
  }

  lemma NextReadable(s: System, n: nat)
    requires Inv(s) && n + 1 <= LastIndex(s.db.wal) && n + 1 <= |s.log|
    ensures CaughtUp(SavedAt(s.initial, s.log, n), s.db.wal, VersionOf(n + 1, s.initial)).Some?
       <==> s.db.wal.first <= n + 1
  {
    hide Good, At, LiveOk, SnapshotsOk, KeptOk, RewriteOk, PruneOk, StraysKept, LoadedOk, VersionOf, BlocksOf,
      LastIndex, WalOk, Replay, Infos, Span, WalIndex, NextVersion;
    AtKeeps(s.initial, s.log, n);
    PositiveBlock(n + 1, s.initial);
    VersionsCount(n, s.initial);
    if s.db.wal.first <= n + 1 {
      CatchUpReaches(s.initial, s.log, s.db.wal, s.db.queue, n, VersionOf(n + 1, s.initial), n + 1);
    }
  }

  lemma GenuineIs(s: System, v: nat, trees: Saved)
    requires Good(s.initial, s.log)
    ensures var n := BlocksOf(v, s.initial);
      Genuine(s.initial, s.log, v, trees)
      <==> (n <= |s.log| && v == VersionOf(n, s.initial) && trees == SavedAt(s.initial, s.log, n))
  {
    hide Good, SavedAt, BlocksOf, VersionOf;
  }

  lemma NextVersions(at: nat, latest: nat, n: nat, m: nat, initial: Initial)
    requires at == VersionOf(n, initial) && latest == VersionOf(m, initial) && 0 < at && at + 1 < latest
    ensures at + 1 == VersionOf(n + 1, initial) && BlocksOf(at + 1, initial) == n + 1 && n + 1 < m
  {
  }

  // ------------------------------------------------------------------ every run

  ghost function StoreAfter(initial: Initial, keepRecent: nat, events: seq<StoreEvent>): Option<Store> {
    if events == [] then Some(Store(Init(initial, keepRecent), 0, [], Stopped))
    else
      match StoreAfter(initial, keepRecent, events[..|events| - 1])
      case None => None
      case Some(st) => if StoreLegal(st, events[|events| - 1]) then StoreStep(st, events[|events| - 1]) else None
  }

  lemma StartKeepsStore(initial: Initial, keepRecent: nat)
    ensures StoreInv(Store(Init(initial, keepRecent), 0, [], Stopped))
  {
    hide Inv;
    InitOk(initial, keepRecent);
  }

  lemma {:induction false} EveryStoreRun(initial: Initial, keepRecent: nat, events: seq<StoreEvent>)
    requires StoreAfter(initial, keepRecent, events).Some?
    ensures StoreInv(StoreAfter(initial, keepRecent, events).value)
  {
    hide StoreInv, StoreStep, Legal;
    if events == [] {
      StartKeepsStore(initial, keepRecent);
    } else {
      EveryStoreRun(initial, keepRecent, events[..|events| - 1]);
      var st := StoreAfter(initial, keepRecent, events[..|events| - 1]).value;
      match events[|events| - 1]
      case OnDatabase(e) => DatabaseKeeps(st, e);
      case Publish => PublishKeeps(st);
      case LoadFirst(limit, found) => LoadFirstKeeps(st, limit, found);
      case LoadNext => LoadNextKeeps(st);
    }
  }

  /** A backfill that has nothing more to load has added every version of its window below the one the database
      was opened at, each as it was committed. */
  lemma BackfillCovers(initial: Initial, keepRecent: nat, events: seq<StoreEvent>, st: Store, version: int)
    requires StoreAfter(initial, keepRecent, events) == Some(st)
    requires st.loader.Backfilling? && StoreStep(st, LoadNext).None?
    requires 1 <= version < st.since && version > st.since - st.loader.limit
    requires st.s.initial > 1 ==> version >= st.s.initial - 1
    ensures Good(st.s.initial, st.s.log) && version in Q.Added(st.cache)
    ensures Committed(st.s, version, Q.Added(st.cache)[version])
  {
    hide Inv, BlocksOf, VersionOf, At, StoreAfter, Q.Added;
    EveryStoreRun(initial, keepRecent, events);
    IsGood(st.s);
    Q.BackfillWindow(st.since, st.loader.limit, st.s.initial, version);
  }

  /** However commits, the backfill and the database's own work interleave, a version that the cache serves is
      the one that was committed, trees and commit info. */
  method Serve(initial: Initial, keepRecent: nat, ghost events: seq<StoreEvent>, ghost st: Store, limit: nat,
               cached: seq<Q.CacheEvent<Saved>>, version: int)
    returns (trees: Option<Saved>)
    requires StoreAfter(initial, keepRecent, events) == Some(st) && cached == st.cache && limit >= 1
    ensures Good(st.s.initial, st.s.log)
    ensures trees.Some? ==>
      version >= 0 && BlocksOf(version, st.s.initial) <= |st.s.log|
      && trees.value == SavedAt(st.s.initial, st.s.log, BlocksOf(version, st.s.initial))
    ensures version in Q.Added(cached) && |Q.Newer(Q.Added(cached).Keys, version)| < limit ==> trees.Some?
  {
    hide Inv, BlocksOf, VersionOf, At, StoreAfter, Q.Added, Q.Newer;
    EveryStoreRun(initial, keepRecent, events);
    IsGood(st.s);
    var cache := Q.Run(limit, cached);
    var latest;
    trees, latest := cache.GetHistoricalTrees(version);
    assert trees.Some? ==> version in Q.Added(cached) && trees.value == Q.Added(cached)[version];
    assert trees.Some? ==> Committed(st.s, version, Q.Added(cached)[version]);
  }
}
