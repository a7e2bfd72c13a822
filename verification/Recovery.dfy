/** What every step of the durability protocol keeps, and what follows from it: an invisible switch,
    gap-free logs behind every kept snapshot, and loading any version that was committed. */
module Recovery {
  import opened Bytes
  import opened NameOrder
  import opened MultiTrees
  import opened PendingLog
  import opened UpgradeOrder
  import opened Durability
  import V = Versioned

  // ------------------------------------------------------------------ versions and log positions

  /** The version after n blocks. */
  function VersionOf(n: nat, initial: Initial): nat {
    if n == 0 then 0 else WalVersion(n, initial)
  }

  function BlocksOf(version: nat, initial: Initial): nat {
    if version == 0 then 0 else WalIndex(version, initial)
  }

  /** Versions count blocks, and the log index of a version is its block number. */
  lemma VersionsCount(n: nat, initial: Initial)
    ensures BlocksOf(VersionOf(n, initial), initial) == n
    ensures NextVersion(VersionOf(n, initial), initial) == VersionOf(n + 1, initial)
    ensures WalIndex(VersionOf(n + 1, initial), initial) == n + 1
  {
  }

  /** The first block has the initial version, or 1, and each block the next one. */
  lemma VersionsStart(n: nat, initial: Initial)
    ensures VersionOf(n + 1, initial) == Max(initial, 1) + n
  {
  }

  lemma VersionsGrow(a: nat, b: nat, initial: Initial)
    ensures a < b <==> VersionOf(a, initial) < VersionOf(b, initial)
  {
  }

  // ------------------------------------------------------------------ the committed history

  /** Every block of the history replays, and its versions are signed 64-bit numbers. */
  ghost predicate Good(initial: Initial, log: seq<Entry>) {
    Replay(Genesis(initial), log).Some? && VersionOf(|log|, initial) <= V.MAX_INT64
  }

  lemma PrefixGood(initial: Initial, log: seq<Entry>, n: nat)
    requires Good(initial, log) && n <= |log|
    ensures Good(initial, log[..n])
  {
    hide Replay;
    VersionsGrow(n, |log|, initial);
    if Replay(Genesis(initial), log[..n]).None? { ReplayStuck(Genesis(initial), log, n); }
  }

  /** The trees as committed by the first n blocks. */
  ghost function At(initial: Initial, log: seq<Entry>, n: nat): Multi
    requires Good(initial, log) && n <= |log|
  {
    PrefixGood(initial, log, n);
    Replay(Genesis(initial), log[..n]).value
  }

  /** ... together with the commit info of that version. */
  ghost function SavedAt(initial: Initial, log: seq<Entry>, n: nat): Saved
    requires Good(initial, log) && n <= |log|
  {
    Saved(At(initial, log, n), Infos(At(initial, log, n).trees))
  }

  lemma BlockKeeps(m: Multi, entry: Entry)
    requires Ascending(NameOf, m.trees) && Block(m, entry).Some?
    ensures var n := Block(m, entry).value;
      && Ascending(NameOf, n.trees) && n.initialVersion == m.initialVersion
      && n.version == NextVersion(m.version, m.initialVersion)
  {
    hide Less, V.SaveVersion, Upgraded, ApplyChanges;
    UpgradedKeeps(m, entry.upgrades);
    EntryAscends(m, entry);
  }

  lemma UpgradedKeeps(m: Multi, upgrades: seq<Upgrade>)
    requires Upgraded(m, upgrades).Some?
    ensures var n := Upgraded(m, upgrades).value; n.version == m.version && n.initialVersion == m.initialVersion
  {
  }

  lemma {:induction false} ReplayKeeps(initial: Initial, log: seq<Entry>)
    requires Replay(Genesis(initial), log).Some?
    ensures var m := Replay(Genesis(initial), log).value;
      m.initialVersion == initial && m.version == VersionOf(|log|, initial) && Ascending(NameOf, m.trees)
  {
    hide Block;
    if log != [] {
      ReplayKeeps(initial, log[..|log| - 1]);
      BlockKeeps(Replay(Genesis(initial), log[..|log| - 1]).value, log[|log| - 1]);
      VersionsCount(|log| - 1, initial);
    }
  }

  lemma AtKeeps(initial: Initial, log: seq<Entry>, n: nat)
    requires Good(initial, log) && n <= |log|
    ensures var m := At(initial, log, n);
      && m.initialVersion == initial && m.version == VersionOf(n, initial) && Ascending(NameOf, m.trees)
      && FirstToReplay(m) == n + 1
  {
    hide Replay;
    PrefixGood(initial, log, n);
    ReplayKeeps(initial, log[..n]);
    VersionsCount(n, initial);
  }

  lemma {:induction false} ReplayConcat(m: Multi, a: seq<Entry>, b: seq<Entry>)
    requires Replay(m, a).Some?
    ensures Replay(m, a + b) == Replay(Replay(m, a).value, b)
  {
    hide Block;
    if b == [] {
      assert a + b == a;
    } else {
      ReplayConcat(m, a, b[..|b| - 1]);
      assert (a + b)[..|a + b| - 1] == a + b[..|b| - 1];
    }
  }

  /** Replaying the blocks between two versions leads from the one to the other. */
  lemma ReplaySpan(initial: Initial, log: seq<Entry>, a: nat, b: nat)
    requires Good(initial, log) && a <= b <= |log|
    ensures Replay(At(initial, log, a), log[a..b]) == Some(At(initial, log, b))
  {
    hide Replay;
    PrefixGood(initial, log, a);
    PrefixGood(initial, log, b);
    assert log[..b] == log[..a] + log[a..b];
    ReplayConcat(Genesis(initial), log[..a], log[a..b]);
  }

  lemma NextBlock(initial: Initial, log: seq<Entry>, n: nat)
    requires Good(initial, log) && n < |log|
    ensures Block(At(initial, log, n), log[n]) == Some(At(initial, log, n + 1))
  {
    hide Block;
    PrefixGood(initial, log, n);
    PrefixGood(initial, log, n + 1);
    assert log[..n + 1][..n] == log[..n];
  }

  /** A further block leaves the history before it as it was. */
  lemma Extends(initial: Initial, log: seq<Entry>, entry: Entry)
    requires Good(initial, log) && Block(At(initial, log, |log|), entry).Some?
    requires VersionOf(|log| + 1, initial) <= V.MAX_INT64
    ensures Good(initial, log + [entry])
    ensures Some(At(initial, log + [entry], |log| + 1)) == Block(At(initial, log, |log|), entry)
    ensures forall n :: 0 <= n <= |log| ==> At(initial, log + [entry], n) == At(initial, log, n)
  {
    hide Block;
    assert log[..|log|] == log;
    assert (log + [entry])[..|log|] == log;
    assert (log + [entry])[..|log| + 1] == log + [entry];
    forall n | 0 <= n <= |log| ensures (log + [entry])[..n] == log[..n] {}
  }

  // ------------------------------------------------------------------ the invariant

  ghost predicate LiveOk(s: System)
    requires Good(s.initial, s.log)
  {
    var base, pending := At(s.initial, s.log, |s.log|), s.db.pending;
    && ApplyEntry(base, pending) == Some(s.db.live)
    && s.db.infos == Infos(base.trees)
  }

  /** The log holds the history from its first index on, and the queue holds the rest. */
  ghost predicate WalOk(log: seq<Entry>, wal: Wal, queue: seq<Queued>) {
    var last := wal.first - 1 + |wal.entries|;
    && 1 <= wal.first && (wal.entries == [] ==> wal.first == 1)
    && last + |queue| == |log|
    && wal.entries == log[wal.first - 1..last]
    && forall i :: 0 <= i < |queue| ==> queue[i] == Queued(last + 1 + i, log[last + i])
  }

  /** A snapshot of a version holds the trees and the commit info of that version. */
  ghost predicate Genuine(initial: Initial, log: seq<Entry>, version: nat, s: Saved)
    requires Good(initial, log)
  {
    var n := BlocksOf(version, initial);
    n <= |log| && version == VersionOf(n, initial) && s == SavedAt(initial, log, n)
  }

  ghost predicate SnapshotsOk(initial: Initial, log: seq<Entry>, snapshots: map<nat, Saved>)
    requires Good(initial, log)
  {
    forall v :: v in snapshots ==> Genuine(initial, log, v, snapshots[v])
  }

  /** No entry after a kept snapshot has been cut from the log. */
  ghost predicate KeptOk(s: System) {
    && s.db.current in s.db.snapshots && s.db.current !in s.abandoned
    && (forall v :: v in s.abandoned ==> v in s.db.snapshots)
    && forall v :: v in s.db.snapshots && v !in s.abandoned ==> s.db.wal.first <= BlocksOf(v, s.initial) + 1
  }

  ghost predicate RewriteOk(s: System)
    requires Good(s.initial, s.log)
  {
    match s.db.rewrite
    case Writing(copy) =>
      && Genuine(s.initial, s.log, copy.multi.version, copy)
      && forall v :: v in s.db.snapshots ==> v <= copy.multi.version
    case Renamed(v) => v in s.db.snapshots && v !in s.abandoned && s.db.current <= v
    case Replaying(from, m, end) =>
      && from == s.db.current && end <= LastIndex(s.db.wal)
      && Reached(s, m)
    case Done(from, result) =>
      from == s.db.current && Reached(s, result.multi) && result.infos == Infos(result.multi.trees)
    case _ => true
  }

  /** Trees at some committed version, not behind the current snapshot. */
  ghost predicate Reached(s: System, m: Multi)
    requires Good(s.initial, s.log)
  {
    var n := BlocksOf(m.version, s.initial);
    BlocksOf(s.db.current, s.initial) <= n <= |s.log| && m == At(s.initial, s.log, n)
  }

  /** A version that was committed. */
  ghost predicate WasCommitted(s: System, v: nat) {
    BlocksOf(v, s.initial) <= |s.log| && v == VersionOf(BlocksOf(v, s.initial), s.initial)
  }

  /** Everything pruning has passed lies above everything it has still to visit, and not below the
      earliest snapshot it means to keep. */
  ghost predicate PruneOk(s: System) {
    match s.db.prune
    case LinkRead(newest) => newest <= s.db.current
    case Pruning(newest, todo, _, earliest) =>
      && newest <= s.db.current
      && Descending(todo)
      && (forall v :: v in todo ==> WasCommitted(s, v) && (v in s.db.snapshots || v < s.db.current))
      && WasCommitted(s, earliest) && (earliest == 0 || forall w :: w in todo ==> w < earliest)
      && (earliest == 0 || earliest in s.db.snapshots || earliest < s.db.current)
      && (forall v :: v in s.db.snapshots && v !in todo ==> forall w :: w in todo ==> w < v)
      && (forall v :: v in s.db.snapshots && v !in s.abandoned && v !in todo ==> earliest <= v)
    case _ => true
  }

  /** A pruning left over from a closed database removes nothing from a snapshot on, whatever is published
      after it: what it has still to visit lies below, or it keeps as many as lie above. One that has not
      listed the snapshots yet keeps enough for every version in between. */
  ghost predicate Keeps(keepRecent: nat, p: Prune, v: nat) {
    match p
    case LinkRead(newest) => newest <= v + keepRecent
    case Pruning(newest, todo, counter, _) =>
      newest <= v || CountBetween(todo, v, newest) < counter || forall w :: w in todo ==> w < v
    case _ => true
  }

  ghost predicate StrayOk(p: Prune, keepRecent: nat, current: nat, snapshots: map<nat, Saved>) {
    && Keeps(keepRecent, p, current)
    && (p.Pruning? ==> Descending(p.todo) && forall v :: v in snapshots ==> v in p.todo || Keeps(keepRecent, p, v))
  }

  /** No pruning left over goes for the current snapshot, nor for a newer one. */
  ghost predicate StraysOk(strays: seq<Prune>, keepRecent: nat, current: nat, snapshots: map<nat, Saved>) {
    forall k :: 0 <= k < |strays| ==> StrayOk(strays[k], keepRecent, current, snapshots)
  }

  ghost predicate StraysKept(db: Db) { StraysOk(db.strays, db.keepRecent, db.current, db.snapshots) }

  ghost predicate LoadedOk(s: System) {
    var n := BlocksOf(s.db.loadedFrom, s.initial);
    n <= LastIndex(s.db.wal) && s.db.loadedFrom == VersionOf(n, s.initial)
  }

  ghost predicate Inv(s: System) {
    && Good(s.initial, s.log)
    && LiveOk(s)
    && WalOk(s.log, s.db.wal, s.db.queue)
    && SnapshotsOk(s.initial, s.log, s.db.snapshots)
    && KeptOk(s)
    && RewriteOk(s)
    && PruneOk(s)
    && StraysKept(s.db)
    && LoadedOk(s)
  }

  /** The log has reached every snapshot on disk. */
  ghost predicate LogCovers(s: System) {
    forall v :: v in s.db.snapshots ==> BlocksOf(v, s.initial) <= LastIndex(s.db.wal)
  }

  /** A pruning left over does not go for a snapshot: it does not visit it any more, or keeps it as not
      older than the current one it saw, or among the recent ones. */
  predicate Spares(keepRecent: nat, p: Prune, v: nat) {
    match p
    case LinkRead(newest) => newest <= v + keepRecent
    case Pruning(newest, todo, counter, _) => v !in todo || v >= newest || CountBetween(todo, v, newest) < counter
    case _ => true
  }

  /** All prunings that outlive the database spare a snapshot. */
  ghost predicate Outlived(db: Db, found: nat) {
    forall k :: 0 <= k < |Strays(db)| ==> Spares(db.keepRecent, Strays(db)[k], found)
  }

  /** More upgrades in the same block: the first call of a block needs nothing. A later one can be told
      from one list unless the earlier ones left the trees settled, or no two trees share a name on
      the way. */
  ghost predicate Continues(s: System, upgrades: seq<Upgrade>)
    requires Good(s.initial, s.log)
  {
    var base, before := At(s.initial, s.log, |s.log|), s.db.pending.upgrades;
    var next := NextVersion(base.version, base.initialVersion);
    || before == []
    || (UpgradeAll(next, base.trees, before).Some? && Settled(next, UpgradeAll(next, base.trees, before).value))
    || (Clean(next, base.trees, before) && Clean(next, s.db.live.trees, upgrades))
  }

  /** What callers owe: upgrades come before changes and continue earlier ones of their block, further
      pairs go to stores that have none behind their first change set, and rewrites start at commit
      boundaries. A rollback removes every snapshot after its target, and its own is spared by the prunings
      left over; one that is interrupted does not start from a snapshot that pruning gave up. A crash is
      covered once the log has reached every snapshot. */
  ghost predicate Legal(s: System, e: Event) {
    match e
    case ApplyUpgrades(upgrades) =>
      upgrades == [] || (s.db.pending.changes == [] && Good(s.initial, s.log) && Continues(s, upgrades))
    case ApplyChangeSets(changes) => s.db.pending.changes == [] || AllOnce(s.db.pending.changes, changes)
    case ApplyChangeSet(name, pairs) => pairs == [] || LogsOnce(s.db.pending.changes, name)
    case StartRewrite => s.db.pending == NO_CHANGES
    case Rollback(_, found, left) => Outlived(s.db, found) && left == {}
    case Relink(_, found) => found !in s.abandoned
    case Crash => LogCovers(s)
    case _ => true
  }

  // ------------------------------------------------------------------ the start

  lemma NothingPending(m: Multi)
    ensures ApplyEntry(m, NO_CHANGES) == Some(m)
  {
  }

  lemma InitOk(initial: Initial, keepRecent: nat)
    ensures Inv(Init(initial, keepRecent))
  {
    var empty := Genesis(initial);
    NothingPending(empty);
    assert At(initial, [], 0) == empty;
    assert SavedAt(initial, [], 0) == Saved(empty, []);
  }

  // ------------------------------------------------------------------ work inside a block

  /** Only the live trees and the pending entry differ. */
  ghost predicate OnlyWork(s: System, t: System) {
    t == s.(db := s.db.(live := t.db.live, pending := t.db.pending))
  }

  lemma WorkElsewhere(s: System, t: System)
    requires Inv(s) && OnlyWork(s, t) && LiveOk(t)
    ensures Inv(t)
  {
    hide WalOk, SnapshotsOk, LiveOk, Good, Genuine, At;
  }

  lemma UpgradesKeep(s: System, upgrades: seq<Upgrade>)
    requires Inv(s) && Legal(s, ApplyUpgrades(upgrades)) && Step(s, ApplyUpgrades(upgrades)).Some?
    ensures Inv(Step(s, ApplyUpgrades(upgrades)).value)
  {
    hide Upgraded, WalOk, SnapshotsOk, KeptOk, RewriteOk, PruneOk, LoadedOk, At, NextVersion, Good, Continues;
    var t := Step(s, ApplyUpgrades(upgrades)).value;
    NoUpgrades(s.db.live);
    if upgrades == [] {
      assert s.db.pending.upgrades + upgrades == s.db.pending.upgrades;
      assert t == s;
    } else {
      UpgradesContinue(s, upgrades);
      assert LiveOk(t);
      WorkElsewhere(s, t);
    }
  }

  lemma NoUpgrades(m: Multi)
    ensures Upgraded(m, []) == Some(m)
  {
  }

  /** The upgrades of a block as one list lead from the last version to the live trees. */
  lemma UpgradesContinue(s: System, upgrades: seq<Upgrade>)
    requires Inv(s) && s.db.pending.changes == [] && Continues(s, upgrades)
    ensures Upgraded(At(s.initial, s.log, |s.log|), s.db.pending.upgrades + upgrades) == Upgraded(s.db.live, upgrades)
  {
    hide Upgraded, WalOk, SnapshotsOk, KeptOk, RewriteOk, PruneOk, LoadedOk, Clean, At, NextVersion, Good, Settled;
    var base, before := At(s.initial, s.log, |s.log|), s.db.pending.upgrades;
    var next := NextVersion(base.version, base.initialVersion);
    if before == [] {
      NoUpgrades(base);
      assert before + upgrades == upgrades;
    } else if UpgradeAll(next, base.trees, before).Some? && Settled(next, UpgradeAll(next, base.trees, before).value) {
      SettledReplays(base, before, upgrades);
    } else {
      AtKeeps(s.initial, s.log, |s.log|);
      AscendingDistinct(NameOf, base.trees);
      UpgradesReplay(base, before, upgrades);
    }
  }

  /** The trees a block's upgrades leave have distinct names. */
  lemma UpgradedDistinct(m: Multi, upgrades: seq<Upgrade>)
    requires Ascending(NameOf, m.trees) && Upgraded(m, upgrades).Some?
    ensures Distinct(NameOf, Upgraded(m, upgrades).value.trees)
  {
    hide Upgraded;
    UpgradesAscend(m, upgrades);
    AscendingDistinct(NameOf, Upgraded(m, upgrades).value.trees);
  }

  /** Live trees that moved on by some change sets, logged as a list that replays to them. */
  lemma ChangedKeeps(s: System, t: System, logged: seq<Changes>)
    requires Inv(s) && OnlyWork(s, t) && t.db.pending == Entry(s.db.pending.upgrades, logged)
    requires var base := At(s.initial, s.log, |s.log|);
      && Upgraded(base, s.db.pending.upgrades).Some?
      && var n := Upgraded(base, s.db.pending.upgrades).value;
        ApplyChanges(n.trees, logged) == Some(t.db.live.trees) && t.db.live == n.(trees := t.db.live.trees)
    ensures Inv(t)
  {
    hide WalOk, SnapshotsOk, KeptOk, RewriteOk, PruneOk, LoadedOk, Upgraded, ApplyChanges, At, Good;
    assert LiveOk(t);
    WorkElsewhere(s, t);
  }

  lemma ChangeSetsKeep(s: System, changes: seq<Changes>)
    requires Inv(s) && Legal(s, ApplyChangeSets(changes)) && Step(s, ApplyChangeSets(changes)).Some?
    ensures Inv(Step(s, ApplyChangeSets(changes)).value)
  {
    hide WalOk, SnapshotsOk, KeptOk, RewriteOk, PruneOk, LoadedOk, Upgraded, At, ApplyChange,
      MergeAll, WithoutEmpty, Good, AllOnce;
    if changes == [] { return; }
    var t := Step(s, ApplyChangeSets(changes)).value;
    var base, pending := At(s.initial, s.log, |s.log|), s.db.pending;
    AtKeeps(s.initial, s.log, |s.log|);
    UpgradedDistinct(base, pending.upgrades);
    var n := Upgraded(base, pending.upgrades).value;
    if pending.changes == [] {
      ChangedKeeps(s, t, changes);
    } else {
      MergeAllReplays(n.trees, pending.changes, changes);
      ChangedKeeps(s, t, MergeAll(pending.changes, changes));
    }
  }

  lemma OneChange(trees: seq<Named>, c: Changes)
    ensures ApplyChanges(trees, [c]) == ApplyChange(trees, c)
  {
    assert [c][..0] == [];
  }

  lemma ChangeSetKeeps(s: System, name: Bytes, pairs: seq<Pair>)
    requires Inv(s) && Legal(s, ApplyChangeSet(name, pairs)) && Step(s, ApplyChangeSet(name, pairs)).Some?
    ensures Inv(Step(s, ApplyChangeSet(name, pairs)).value)
  {
    hide WalOk, SnapshotsOk, KeptOk, RewriteOk, PruneOk, LoadedOk, Upgraded, At, ApplyChange,
      ApplyChanges, Merge, LogsOnce, Good;
    if pairs == [] { return; }
    var t := Step(s, ApplyChangeSet(name, pairs)).value;
    var base, pending := At(s.initial, s.log, |s.log|), s.db.pending;
    AtKeeps(s.initial, s.log, |s.log|);
    UpgradedDistinct(base, pending.upgrades);
    var n := Upgraded(base, pending.upgrades).value;
    MergeReplays(n.trees, pending.changes, name, pairs);
    OneChange(s.db.live.trees, Changes(name, pairs));
    ChangedKeeps(s, t, Merge(pending.changes, name, pairs));
  }

  // ------------------------------------------------------------------ commits and the log writer

  /** What was genuine before a block is genuine after it. */
  lemma HistoryGrows(s: System, entry: Entry)
    requires Inv(s) && Block(At(s.initial, s.log, |s.log|), entry).Some?
    requires VersionOf(|s.log| + 1, s.initial) <= V.MAX_INT64
    ensures Good(s.initial, s.log + [entry])
    ensures SnapshotsOk(s.initial, s.log + [entry], s.db.snapshots)
    ensures RewriteOk(s.(log := s.log + [entry]))
  {
    hide Block, At, Good, WalOk, LiveOk, KeptOk, PruneOk, LoadedOk, VersionOf, BlocksOf;
    Extends(s.initial, s.log, entry);
  }

  lemma CommitKeeps(s: System)
    requires Inv(s) && Step(s, Commit).Some?
    ensures var t := Step(s, Commit).value;
      && Inv(t) && t.log == s.log + [s.db.pending] && t.db.pending == NO_CHANGES
      && t.db.live.version == VersionOf(|s.log| + 1, s.initial)
      && t.db.live == At(t.initial, t.log, |t.log|)
  {
    hide At, Good, SnapshotsOk, KeptOk, RewriteOk, PruneOk, LoadedOk, VersionOf, WalIndex, NextVersion, WalOk,
      ApplyEntry, Save, Infos, StraysKept, BlocksOf;
    var t := Step(s, Commit).value;
    var base, N := At(s.initial, s.log, |s.log|), |s.log|;
    AtKeeps(s.initial, s.log, N);
    assert Block(base, s.db.pending) == Some(t.db.live);
    BlockKeeps(base, s.db.pending);
    EntryKeeps(base, s.db.pending);
    VersionsCount(N, s.initial);
    HistoryGrows(s, s.db.pending);
    Extends(s.initial, s.log, s.db.pending);
    NothingPending(t.db.live);
    assert LiveOk(t);
    QueueGrows(s.log, s.db.wal, s.db.queue, s.db.pending);
    CommitElsewhere(s, t);
  }

  lemma EntryKeeps(m: Multi, entry: Entry)
    requires ApplyEntry(m, entry).Some?
    ensures var n := ApplyEntry(m, entry).value; n.version == m.version && n.initialVersion == m.initialVersion
  {
    hide Upgraded, ApplyChanges;
    UpgradedKeeps(m, entry.upgrades);
  }

  lemma QueueGrows(log: seq<Entry>, wal: Wal, queue: seq<Queued>, entry: Entry)
    requires WalOk(log, wal, queue)
    ensures WalOk(log + [entry], wal, queue + [Queued(|log| + 1, entry)])
  {
  }

  lemma CommitElsewhere(s: System, t: System)
    requires t == s.(log := t.log, db := s.db.(live := t.db.live, infos := t.db.infos,
                                               pending := t.db.pending, queue := t.db.queue))
    requires Inv(s) && Good(s.initial, t.log) && LiveOk(t) && WalOk(t.log, t.db.wal, t.db.queue)
    requires |s.log| <= |t.log|
    requires SnapshotsOk(s.initial, t.log, t.db.snapshots) && RewriteOk(s.(log := t.log))
    ensures Inv(t)
  {
    hide At, Good, SnapshotsOk, LiveOk, WalOk, Genuine, PruneOk;
    PruneElsewhere(s, t);
  }

  lemma {:induction false} AllNew(last: nat, batch: seq<Queued>)
    requires forall i :: 0 <= i < |batch| ==> batch[i].index > last
    ensures NewEntries(last, batch) == batch
  {
    if batch != [] { AllNew(last, batch[..|batch| - 1]); }
  }

  /** The writer's batch is exactly the next stretch of the history. */
  lemma BatchWrites(log: seq<Entry>, wal: Wal, queue: seq<Queued>, count: nat)
    requires WalOk(log, wal, queue) && 0 < count <= |queue|
    ensures var batch := NewEntries(LastIndex(wal), queue[..count]);
      && Consecutive(LastIndex(wal), batch)
      && WalOk(log, Wal(wal.first, wal.entries + EntriesOf(batch)), queue[count..])
      && LastIndex(Wal(wal.first, wal.entries + EntriesOf(batch))) == LastIndex(wal) + count
  {
    hide NewEntries, EntriesOf;
    var last, batch := wal.first - 1 + |wal.entries|, queue[..count];
    AllNew(last, batch);
    var more := EntriesOf(batch);
    assert more == log[last..last + count];
    assert log[wal.first - 1..last] + log[last..last + count] == log[wal.first - 1..last + count];
    assert forall i :: 0 <= i < |queue[count..]| ==> queue[count..][i] == queue[count + i];
  }

  lemma WriteKeeps(s: System, count: nat)
    requires Inv(s) && Step(s, WriteBatch(count)).Some?
    ensures Inv(Step(s, WriteBatch(count)).value)
    ensures LastIndex(Step(s, WriteBatch(count)).value.db.wal) == LastIndex(s.db.wal) + count
  {
    hide At, Good, SnapshotsOk, LiveOk, WalOk, Genuine, NewEntries, EntriesOf, LastIndex, Consecutive,
      VersionOf, BlocksOf;
    var t := Step(s, WriteBatch(count)).value;
    BatchWrites(s.log, s.db.wal, s.db.queue, count);
    LiveElsewhere(s, t);
  }

  /** The live part depends on the history and on memory only. */
  lemma LiveElsewhere(s: System, t: System)
    requires Good(s.initial, s.log) && LiveOk(s)
    requires t.initial == s.initial && t.log == s.log
    requires t.db.live == s.db.live && t.db.infos == s.db.infos && t.db.pending == s.db.pending
    ensures LiveOk(t)
  {
    hide At, Good, ApplyEntry;
  }

  /** The log writer never meets an index out of order. */
  lemma WriterNeverFails(s: System, count: nat)
    requires Inv(s) && 0 < count <= |s.db.queue|
    ensures Step(s, WriteBatch(count)).Some?
  {
    hide WalOk, NewEntries, EntriesOf, Consecutive;
    BatchWrites(s.log, s.db.wal, s.db.queue, count);
  }

  // ------------------------------------------------------------------ the background rewrite

  lemma StartKeeps(s: System)
    requires Inv(s) && Legal(s, StartRewrite) && Step(s, StartRewrite).Some?
    ensures Inv(Step(s, StartRewrite).value)
    ensures Step(s, StartRewrite).value.db.rewrite == Writing(SavedAt(s.initial, s.log, |s.log|))
  {
    hide At, Good, WalOk, VersionOf, BlocksOf, ApplyEntry, Infos;
    var t := Step(s, StartRewrite).value;
    var N := |s.log|;
    AtKeeps(s.initial, s.log, N);
    VersionsCount(N, s.initial);
    NothingPending(At(s.initial, s.log, N));
    LiveElsewhere(s, t);
    forall v | v in s.db.snapshots ensures v <= s.db.live.version {
      VersionsGrow(N, BlocksOf(v, s.initial), s.initial);
    }
  }

  lemma RenameKeeps(s: System)
    requires Inv(s) && Step(s, RenameSnapshot).Some?
    ensures var t := Step(s, RenameSnapshot).value;
      && Inv(t) && s.db.rewrite.Writing? && s.db.rewrite.copy.multi.version in t.db.snapshots
      && forall v :: v in s.db.snapshots ==> v in t.db.snapshots && t.db.snapshots[v] == s.db.snapshots[v]
  {
    hide At, Good, WalOk, VersionOf, BlocksOf, LiveOk, SavedAt, LoadedOk, WasCommitted, StraysKept;
    var t := Step(s, RenameSnapshot).value;
    LiveElsewhere(s, t);
    LoadedElsewhere(s, t);
    var v := s.db.rewrite.copy.multi.version;
    SameHistory(s, t);
    StraysElsewhere(s.db, t.db);
    if v !in s.db.snapshots { NewestKept(s, v); }
  }

  /** Pruning goes on while the history grows and snapshots below the current one disappear. */
  lemma PruneElsewhere(s: System, t: System)
    requires PruneOk(s) && t.initial == s.initial && |s.log| <= |t.log| && t.db.prune == s.db.prune
    requires s.db.current <= t.db.current
    requires forall v :: v in s.db.snapshots ==> v in t.db.snapshots || v < t.db.current
    requires forall v :: v in t.db.snapshots ==> v in s.db.snapshots
    requires forall v :: v in t.db.snapshots && v !in t.abandoned ==> v !in s.abandoned
    ensures PruneOk(t)
  {
    hide VersionOf, BlocksOf, Descending;
  }

  lemma SameHistory(s: System, t: System)
    requires s.initial == t.initial && s.log == t.log
    ensures forall v :: WasCommitted(s, v) <==> WasCommitted(t, v)
  {
  }

  lemma LoadedElsewhere(s: System, t: System)
    requires LoadedOk(s) && t.initial == s.initial && t.db.loadedFrom == s.db.loadedFrom && t.db.wal == s.db.wal
    ensures LoadedOk(t)
  {
  }

  /** A version above the current snapshot's has its log entries wherever the current one has. */
  lemma NewestKept(s: System, v: nat)
    requires Inv(s) && s.db.current <= v && v == VersionOf(BlocksOf(v, s.initial), s.initial)
    ensures s.db.wal.first <= BlocksOf(v, s.initial) + 1
  {
    hide At, Good, WalOk, LiveOk, SavedAt, RewriteOk, PruneOk, LoadedOk, VersionOf, BlocksOf;
    assert Genuine(s.initial, s.log, s.db.current, s.db.snapshots[s.db.current]);
    VersionsGrow(BlocksOf(v, s.initial), BlocksOf(s.db.current, s.initial), s.initial);
  }

  lemma LinkKeeps(s: System)
    requires Inv(s) && Step(s, LinkSnapshot).Some?
    ensures var t := Step(s, LinkSnapshot).value; Inv(t) && s.db.rewrite == Renamed(t.db.current)
  {
    hide At, Good, WalOk, VersionOf, BlocksOf, LiveOk, SnapshotsOk, LoadedOk, StraysKept;
    var t := Step(s, LinkSnapshot).value;
    LiveElsewhere(s, t);
    LoadedElsewhere(s, t);
    StraysElsewhere(s.db, t.db);
  }

  lemma FailKeeps(s: System, e: Event)
    requires Inv(s) && (e == FailRewrite || e == DiscardRewrite) && Step(s, e).Some?
    ensures Inv(Step(s, e).value)
  {
    hide At, Good, WalOk, VersionOf, BlocksOf, LiveOk, SnapshotsOk, LoadedOk, Genuine;
    var t := Step(s, e).value;
    LiveElsewhere(s, t);
    LoadedElsewhere(s, t);
  }

  /** The current snapshot, as trees at a committed version. */
  lemma CurrentReached(s: System)
    requires Inv(s)
    ensures var m := s.db.snapshots[s.db.current].multi;
      Reached(s, m) && s.db.snapshots[s.db.current].infos == Infos(m.trees)
  {
    hide Good, WalOk, VersionOf, BlocksOf, LiveOk, LoadedOk, RewriteOk, PruneOk, At;
    assert Genuine(s.initial, s.log, s.db.current, s.db.snapshots[s.db.current]);
    AtKeeps(s.initial, s.log, BlocksOf(s.db.current, s.initial));
  }

  lemma OpenKeeps(s: System)
    requires Inv(s) && Step(s, OpenSnapshot).Some?
    ensures Inv(Step(s, OpenSnapshot).value)
    ensures var r, last := Step(s, OpenSnapshot).value.db.rewrite, LastIndex(s.db.wal);
      (r.Done? && last < FirstToReplay(r.result.multi)) || (r.Replaying? && r.end == last >= FirstToReplay(r.multi))
  {
    hide At, Good, WalOk, VersionOf, BlocksOf, LiveOk, SnapshotsOk, LoadedOk, FirstToReplay, LastIndex,
      PruneOk, Genuine;
    var t := Step(s, OpenSnapshot).value;
    LiveElsewhere(s, t);
    LoadedElsewhere(s, t);
    PruneElsewhere(s, t);
    CurrentReached(s);
  }

  /** Trees the rewrite has reached can always read on: their next log entry is still there. */
  lemma ReadsOn(s: System, m: Multi)
    requires Inv(s) && Reached(s, m)
    ensures var n := BlocksOf(m.version, s.initial);
      && FirstToReplay(m) == n + 1 && s.db.wal.first <= n + 1
      && (n + 1 <= LastIndex(s.db.wal) ==>
        n + 1 - s.db.wal.first < |s.db.wal.entries| && n < |s.log|
        && s.db.wal.entries[n + 1 - s.db.wal.first] == s.log[n])
  {
    hide At, Good, VersionOf, BlocksOf, LiveOk, SnapshotsOk, LoadedOk, RewriteOk, PruneOk;
    AtKeeps(s.initial, s.log, BlocksOf(m.version, s.initial));
  }

  lemma ReplayKeepsInv(s: System)
    requires Inv(s) && Step(s, ReplayNext).Some?
    ensures var t := Step(s, ReplayNext).value;
      && Inv(t) && s.db.rewrite.Replaying? && t.db.rewrite.Replaying?
      && BlocksOf(t.db.rewrite.multi.version, s.initial) == BlocksOf(s.db.rewrite.multi.version, s.initial) + 1
  {
    hide At, Good, WalOk, VersionOf, BlocksOf, LiveOk, SnapshotsOk, LoadedOk, FirstToReplay, LastIndex, Block;
    var t := Step(s, ReplayNext).value;
    LiveElsewhere(s, t);
    LoadedElsewhere(s, t);
    var m := s.db.rewrite.multi;
    var n := BlocksOf(m.version, s.initial);
    ReadsOn(s, m);
    NextBlock(s.initial, s.log, n);
    AtKeeps(s.initial, s.log, n + 1);
    VersionsCount(n + 1, s.initial);
  }

  lemma FinishKeeps(s: System)
    requires Inv(s) && Step(s, FinishReplay).Some?
    ensures var t := Step(s, FinishReplay).value;
      && Inv(t) && s.db.rewrite.Replaying? && t.db.rewrite.Done?
      && s.db.rewrite.end < FirstToReplay(t.db.rewrite.result.multi)
  {
    hide At, Good, WalOk, VersionOf, BlocksOf, LiveOk, SnapshotsOk, LoadedOk, FirstToReplay;
    var t := Step(s, FinishReplay).value;
    LiveElsewhere(s, t);
    LoadedElsewhere(s, t);
  }

  /** The best-effort catch-up never fails, whatever the writer and the pruner do meanwhile. */
  lemma ReplayNeverFails(s: System)
    requires Inv(s) && s.db.rewrite.Replaying?
    ensures Step(s, ReplayNext).Some? || Step(s, FinishReplay).Some?
  {
    hide At, Good, WalOk, VersionOf, BlocksOf, LiveOk, SnapshotsOk, LoadedOk, PruneOk, Block;
    var m := s.db.rewrite.multi;
    ReadsOn(s, m);
    if FirstToReplay(m) <= s.db.rewrite.end {
      NextBlock(s.initial, s.log, BlocksOf(m.version, s.initial));
    }
  }

  // ------------------------------------------------------------------ the switch

  /** Catching up from block n, to block k or to the end of the log. */
  lemma CatchUpReaches(initial: Initial, log: seq<Entry>, wal: Wal, queue: seq<Queued>, n: nat, target: nat, k: nat)
    requires Good(initial, log) && WalOk(log, wal, queue) && n <= |log| && wal.first <= n + 1
    requires if target == 0 then k == LastIndex(wal) else target == VersionOf(k, initial) && n < k
    ensures Max(n, Min(k, LastIndex(wal))) <= |log|
    ensures CaughtUp(SavedAt(initial, log, n), wal, target)
         == Some(SavedAt(initial, log, Max(n, Min(k, LastIndex(wal)))))
  {
    hide Good, At, Replay, Infos, VersionOf, WalIndex, Span;
    var m, last, end := At(initial, log, n), LastIndex(wal), Min(k, LastIndex(wal));
    AtKeeps(initial, log, n);
    if n + 1 <= last {
      if target != 0 { VersionsCount(k - 1, initial); }
      SpanOfLog(log, wal, queue, n, end);
      ReplaySpan(initial, log, n, end);
    }
  }

  lemma SpanOfLog(log: seq<Entry>, wal: Wal, queue: seq<Queued>, n: nat, end: nat)
    requires WalOk(log, wal, queue) && wal.first <= n + 1 <= end <= LastIndex(wal)
    ensures n <= end <= |log| && Span(wal, n + 1, end) == log[n..end]
  {
    var last := wal.first - 1 + |wal.entries|;
    SliceOfSlice(log, wal.first - 1, last, n + 1 - wal.first, end + 1 - wal.first);
  }

  lemma SliceOfSlice(s: seq<Entry>, a: nat, b: nat, c: nat, d: nat)
    requires a <= b <= |s| && c <= d <= b - a
    ensures s[a..b][c..d] == s[a + c..a + d]
  {
    var x, y := s[a..b][c..d], s[a + c..a + d];
    forall i | 0 <= i < |x| ensures x[i] == y[i] { assert x[i] == s[a..b][c + i]; }
    assert x == y;
  }

  /** The log has caught up with the live trees exactly when the writer's queue is empty. */
  lemma CommittedWhenDrained(s: System)
    requires Inv(s)
    ensures s.db.live.version == VersionOf(|s.log|, s.initial)
    ensures s.db.live.version == CommittedVersion(s.initial, s.db) <==> s.db.queue == []
  {
    hide Good, At, ApplyEntry, Infos, SnapshotsOk, KeptOk, RewriteOk, PruneOk, VersionOf, BlocksOf;
    AtKeeps(s.initial, s.log, |s.log|);
    EntryKeeps(At(s.initial, s.log, |s.log|), s.db.pending);
    var last := LastIndex(s.db.wal);
    VersionsGrow(last, |s.log|, s.initial);
    CommittedOf(s, last);
  }

  lemma CommittedOf(s: System, last: nat)
    requires LoadedOk(s) && last == LastIndex(s.db.wal)
    ensures CommittedVersion(s.initial, s.db) == VersionOf(last, s.initial)
  {
  }

  /** The rewritten trees, caught up with the whole log, are the committed ones. */
  lemma RewrittenCatchUp(s: System)
    requires Inv(s) && s.db.rewrite.Done? && s.db.queue == []
    ensures CaughtUp(s.db.rewrite.result, s.db.wal, 0) == Some(SavedAt(s.initial, s.log, |s.log|))
    ensures LastIndex(s.db.wal) == |s.log|
  {
    hide Good, At, SnapshotsOk, LiveOk, PruneOk, VersionOf, BlocksOf, CaughtUp, LoadedOk;
    var m := s.db.rewrite.result.multi;
    var n := BlocksOf(m.version, s.initial);
    ReadsOn(s, m);
    assert s.db.rewrite.result == SavedAt(s.initial, s.log, n);
    CatchUpReaches(s.initial, s.log, s.db.wal, s.db.queue, n, 0, |s.log|);
  }

  /** Switching to the rewritten snapshot changes neither the version, nor a tree, nor a root hash,
      nor the commit info, nor the block being built, nor anything on disk. It goes through as soon as
      the log writer has caught up, whether or not an earlier pruning is still under way. */
  lemma InvisibleSwitch(s: System)
    requires Inv(s)
    ensures Step(s, Switch).Some? <==> s.db.rewrite.Done? && s.db.queue == []
    ensures Step(s, Switch).Some? ==>
      Step(s, Switch).value == s.(db := s.db.(loadedFrom := s.db.current, rewrite := Idle, waiting := s.db.waiting + 1))
  {
    hide Good, At, SnapshotsOk, PruneOk, WalOk, KeptOk, LoadedOk, VersionOf, BlocksOf, CaughtUp, Infos,
      CommittedVersion, ApplyEntry, Reached;
    CommittedWhenDrained(s);
    if s.db.rewrite.Done? && s.db.queue == [] { RewrittenCatchUp(s); }
  }

  lemma SwitchKeeps(s: System)
    requires Inv(s) && Step(s, Switch).Some?
    ensures Inv(Step(s, Switch).value)
  {
    hide Good, At, WalOk, VersionOf, BlocksOf, LiveOk, Step, SnapshotsOk, SavedAt, CaughtUp;
    var t := Step(s, Switch).value;
    InvisibleSwitch(s);
    RewrittenCatchUp(s);
    LiveElsewhere(s, t);
    CurrentGenuine(s);
  }

  // ------------------------------------------------------------------ prunings left over

  lemma {:induction false} CountShrinks(todo: seq<nat>, a: nat, b: nat, newest: nat)
    requires a <= b
    ensures CountBetween(todo, b, newest) <= CountBetween(todo, a, newest)
  {
    if todo != [] { CountShrinks(todo[1..], a, b, newest); }
  }

  lemma KeepsMore(keepRecent: nat, p: Prune, a: nat, b: nat)
    requires Keeps(keepRecent, p, a) && a <= b
    ensures Keeps(keepRecent, p, b)
  {
    if p.Pruning? { CountShrinks(p.todo, a, b, p.newest); }
  }

  lemma {:induction false} CountNone(todo: seq<nat>, v: nat, newest: nat)
    requires forall w :: w in todo ==> w <= v
    ensures CountBetween(todo, v, newest) == 0
  {
    if todo != [] {
      assert todo[0] in todo && forall w :: w in todo[1..] ==> w in todo;
      CountNone(todo[1..], v, newest);
    }
  }

  lemma {:induction false} CountBelow(todo: seq<nat>, v: nat, a: nat, b: nat)
    requires a <= b && forall w :: w in todo ==> w < a
    ensures CountBetween(todo, v, a) == CountBetween(todo, v, b)
  {
    if todo != [] {
      assert todo[0] in todo && forall w :: w in todo[1..] ==> w in todo;
      CountBelow(todo[1..], v, a, b);
    }
  }

  /** No more snapshots lie between two versions than there are versions between them. */
  lemma {:induction false} CountVersions(todo: seq<nat>, v: nat, newest: nat)
    requires Descending(todo) && v < newest
    ensures CountBetween(todo, v, newest) <= newest - v - 1
    decreases |todo|
  {
    if todo != [] {
      var head, rest := todo[0], todo[1..];
      assert forall i :: 0 <= i < |rest| ==> rest[i] == todo[i + 1];
      if v < head < newest {
        CountBelow(rest, v, head, newest);
        CountVersions(rest, v, head);
      } else {
        CountVersions(rest, v, newest);
      }
    }
  }

  lemma RestDescends(todo: seq<nat>)
    requires Descending(todo) && todo != []
    ensures Descending(todo[1..]) && forall w :: w in todo[1..] ==> w < todo[0]
    ensures forall w :: w in todo <==> w in todo[1..] || w == todo[0]
  {
    assert todo == [todo[0]] + todo[1..];
  }

  lemma KeepsVisit(keepRecent: nat, p: Prune, v: nat)
    requires p.Pruning? && p.todo != [] && Descending(p.todo) && (Keeps(keepRecent, p, v) || v == p.todo[0])
    ensures Keeps(keepRecent, Visit(p), v)
  {
    RestDescends(p.todo);
    if v < p.todo[0] {
      assert p.todo[0] in p.todo;
    }
  }

  lemma StrayVisits(p: Prune, keepRecent: nat, current: nat, snapshots: map<nat, Saved>)
    requires StrayOk(p, keepRecent, current, snapshots) && p.Pruning? && p.todo != []
    ensures StrayOk(Visit(p), keepRecent, current, snapshots)
    ensures Drops(p) ==> p.todo[0] < current
  {
    hide Keeps, Visit;
    RestDescends(p.todo);
    KeepsVisit(keepRecent, p, current);
    forall v | v in snapshots && v !in p.todo[1..] ensures Keeps(keepRecent, Visit(p), v) {
      KeepsVisit(keepRecent, p, v);
    }
    DropsBelow(keepRecent, p, current);
  }

  lemma DropsBelow(keepRecent: nat, p: Prune, v: nat)
    requires p.Pruning? && p.todo != [] && Keeps(keepRecent, p, v)
    ensures Drops(p) ==> p.todo[0] < v
  {
    assert p.todo[0] in p.todo;
  }

  lemma StrayLists(keepRecent: nat, newest: nat, listing: seq<nat>, current: nat, snapshots: map<nat, Saved>)
    requires StrayOk(LinkRead(newest), keepRecent, current, snapshots) && Descending(listing)
    requires forall v :: v in snapshots ==> v in listing
    ensures StrayOk(Pruning(newest, listing, keepRecent, 0), keepRecent, current, snapshots)
  {
    if current < newest { CountVersions(listing, current, newest); }
  }

  /** A later current snapshot is kept, and so is whatever of the snapshots is left. */
  lemma StraysElsewhere(s: Db, t: Db)
    requires StraysKept(s) && t.strays == s.strays && t.keepRecent == s.keepRecent && s.current <= t.current
    requires forall v :: v in t.snapshots ==> v in s.snapshots || s.current <= v
    ensures StraysKept(t)
  {
    hide Keeps, Descending;
    forall k | 0 <= k < |t.strays| ensures StrayOk(t.strays[k], t.keepRecent, t.current, t.snapshots) {
      var p := t.strays[k];
      assert StrayOk(s.strays[k], s.keepRecent, s.current, s.snapshots);
      KeepsMore(s.keepRecent, p, s.current, t.current);
      forall v | v in t.snapshots && v !in s.snapshots ensures Keeps(s.keepRecent, p, v) {
        KeepsMore(s.keepRecent, p, s.current, v);
      }
    }
  }

  /** A pruning that spares a snapshot on disk keeps everything from it on. */
  lemma SparesKeeps(s: System, p: Prune, found: nat)
    requires PruneOk(s) && StraysKept(s.db) && p in Strays(s.db) && found in s.db.snapshots
    requires Spares(s.db.keepRecent, p, found)
    ensures Keeps(s.db.keepRecent, p, found) && (p.Pruning? ==> Descending(p.todo))
    ensures p.Pruning? ==> forall v :: v in s.db.snapshots ==> v in p.todo || Keeps(s.db.keepRecent, p, v)
  {
    hide WasCommitted;
    if p in s.db.strays {
      var k :| 0 <= k < |s.db.strays| && s.db.strays[k] == p;
      assert StrayOk(s.db.strays[k], s.db.keepRecent, s.db.current, s.db.snapshots);
    } else {
      assert p == s.db.prune || p == Started;
    }
  }

  /** Opening again at a snapshot that the prunings left over spare. */
  lemma StraysOpened(s: System, db: Db)
    requires PruneOk(s) && StraysKept(s.db) && db.strays == Strays(s.db) && db.keepRecent == s.db.keepRecent
    requires db.current in s.db.snapshots && forall v :: v in db.snapshots ==> v in s.db.snapshots
    requires Outlived(s.db, db.current)
    ensures StraysKept(db)
  {
    hide Keeps, Descending, Spares, PruneOk, StraysKept, Strays;
    forall k | 0 <= k < |db.strays| ensures StrayOk(db.strays[k], db.keepRecent, db.current, db.snapshots) {
      assert Spares(s.db.keepRecent, Strays(s.db)[k], db.current);
      SparesKeeps(s, db.strays[k], db.current);
    }
    assert StraysOk(db.strays, db.keepRecent, db.current, db.snapshots);
    KeptByParts(db);
  }

  lemma KeptByParts(db: Db)
    requires StraysOk(db.strays, db.keepRecent, db.current, db.snapshots)
    ensures StraysKept(db)
  {
  }

  /** The current snapshot is spared by every pruning of its own database, and by those before it. */
  lemma CurrentOutlived(s: System)
    requires PruneOk(s) && StraysKept(s.db) && s.db.current in s.db.snapshots
    ensures Outlived(s.db, s.db.current)
  {
    hide WasCommitted, Descending;
    forall k | 0 <= k < |Strays(s.db)| ensures Spares(s.db.keepRecent, Strays(s.db)[k], s.db.current) {
      if k < |s.db.strays| {
        assert Strays(s.db)[k] == s.db.strays[k];
        assert StrayOk(s.db.strays[k], s.db.keepRecent, s.db.current, s.db.snapshots);
        CurrentSpared(s.db.keepRecent, s.db.strays[k], s.db.current);
      }
    }
  }

  lemma CurrentSpared(keepRecent: nat, p: Prune, v: nat)
    requires Keeps(keepRecent, p, v)
    ensures Spares(keepRecent, p, v)
  {
  }

  // ------------------------------------------------------------------ pruning

  lemma ReadLinkKeeps(s: System)
    requires Inv(s) && Step(s, ReadLink).Some?
    ensures Inv(Step(s, ReadLink).value)
  {
    hide Good, At, WalOk, VersionOf, BlocksOf, LiveOk, SnapshotsOk, LoadedOk, Genuine;
    var t := Step(s, ReadLink).value;
    LiveElsewhere(s, t);
    LoadedElsewhere(s, t);
  }

  lemma StopKeeps(s: System)
    requires Inv(s) && Step(s, StopPrune).Some?
    ensures Inv(Step(s, StopPrune).value)
  {
    hide Good, At, WalOk, VersionOf, BlocksOf, LiveOk, SnapshotsOk, LoadedOk, Genuine;
    var t := Step(s, StopPrune).value;
    LiveElsewhere(s, t);
    LoadedElsewhere(s, t);
  }

  /** The listing may be read after the link has moved on. */
  lemma ListKeeps(s: System, listing: seq<nat>)
    requires Inv(s) && Step(s, ListSnapshots(listing)).Some?
    ensures Inv(Step(s, ListSnapshots(listing)).value)
  {
    hide Good, At, WalOk, VersionOf, BlocksOf, LiveOk, LoadedOk, WasCommitted;
    var t := Step(s, ListSnapshots(listing)).value;
    LiveElsewhere(s, t);
    LoadedElsewhere(s, t);
    forall v ensures v in listing <==> v in s.db.snapshots {
      assert v in (set w | w in listing) <==> v in s.db.snapshots.Keys;
    }
    ListedCommitted(s, t);
  }

  /** Snapshots are of committed versions. */
  lemma ListedCommitted(s: System, t: System)
    requires Inv(s) && s.initial == t.initial && s.log == t.log
    ensures WasCommitted(t, 0) && forall v :: v in s.db.snapshots ==> WasCommitted(t, v)
  {
    hide Good, At, WalOk, LiveOk, LoadedOk, SavedAt, KeptOk, RewriteOk, PruneOk;
  }

  lemma PruneMoves(s: System, removed: bool)
    requires Inv(s) && Prune1(s, removed).Some?
    ensures PruneOk(Prune1(s, removed).value)
  {
    hide Good, At, WalOk, LiveOk, LoadedOk, SnapshotsOk, KeptOk, RewriteOk, VersionOf, BlocksOf, WasCommitted;
    var todo, t := s.db.prune.todo, Prune1(s, removed).value;
    assert todo == [todo[0]] + todo[1..];
    assert todo[0] in todo;
    SameHistory(s, t);
  }

  lemma PruneSpares(s: System, removed: bool)
    requires Inv(s) && Prune1(s, removed).Some?
    ensures var t := Prune1(s, removed).value;
      && t.initial == s.initial && t.log == s.log && SnapshotsOk(t.initial, t.log, t.db.snapshots)
      && KeptOk(t) && RewriteOk(t)
  {
    hide Good, At, WalOk, VersionOf, BlocksOf, LiveOk, LoadedOk, Genuine, Descending;
    assert s.db.prune.todo[0] in s.db.prune.todo;
  }

  lemma PruneKeeps(s: System, removed: bool)
    requires Inv(s) && Step(s, PruneNext(removed)).Some?
    ensures Inv(Step(s, PruneNext(removed)).value)
  {
    hide Good, At, WalOk, VersionOf, BlocksOf, LiveOk, LoadedOk, SnapshotsOk, KeptOk, RewriteOk, PruneOk;
    var t := Step(s, PruneNext(removed)).value;
    PruneMoves(s, removed);
    PruneSpares(s, removed);
    LiveElsewhere(s, t);
    LoadedElsewhere(s, t);
  }

  lemma StrayLinkKeeps(s: System, k: nat)
    requires Inv(s) && Step(s, StrayLink(k)).Some?
    ensures Inv(Step(s, StrayLink(k)).value)
  {
    hide Good, At, WalOk, VersionOf, BlocksOf, LiveOk, SnapshotsOk, LoadedOk, Genuine, PruneOk, Descending;
    var t := Step(s, StrayLink(k)).value;
    LiveElsewhere(s, t);
    LoadedElsewhere(s, t);
    PruneElsewhere(s, t);
    StrayMoves(s.db, t.db, k);
  }

  lemma StrayMoves(s: Db, t: Db, k: nat)
    requires StraysKept(s) && k < |s.strays| && t.keepRecent == s.keepRecent && t.current == s.current
    requires |t.strays| == |s.strays| && t.strays == s.strays[k := t.strays[k]]
    requires StrayOk(t.strays[k], t.keepRecent, t.current, t.snapshots)
    requires forall v :: v in t.snapshots ==> v in s.snapshots
    ensures StraysKept(t)
  {
    hide Keeps, Descending;
    forall i | 0 <= i < |t.strays| ensures StrayOk(t.strays[i], t.keepRecent, t.current, t.snapshots) {
      assert StrayOk(s.strays[i], s.keepRecent, s.current, s.snapshots);
    }
  }

  lemma StrayListKeeps(s: System, k: nat, listing: seq<nat>)
    requires Inv(s) && Step(s, StrayList(k, listing)).Some?
    ensures Inv(Step(s, StrayList(k, listing)).value)
  {
    hide Good, At, WalOk, VersionOf, BlocksOf, LiveOk, SnapshotsOk, LoadedOk, Genuine, PruneOk, Descending, Keeps;
    var t := Step(s, StrayList(k, listing)).value;
    LiveElsewhere(s, t);
    LoadedElsewhere(s, t);
    PruneElsewhere(s, t);
    forall v ensures v in listing <==> v in s.db.snapshots {
      assert v in (set w | w in listing) <==> v in s.db.snapshots.Keys;
    }
    StrayLists(s.db.keepRecent, s.db.strays[k].newest, listing, s.db.current, s.db.snapshots);
    StrayMoves(s.db, t.db, k);
  }

  /** A pruning nobody waits for removes nothing that a later one, or a rewrite, relies on. */
  lemma StrayKeeps(s: System, k: nat, removed: bool)
    requires Inv(s) && Step(s, StrayNext(k, removed)).Some?
    ensures Inv(Step(s, StrayNext(k, removed)).value)
  {
    hide Good, At, WalOk, VersionOf, BlocksOf, LiveOk, LoadedOk, Genuine, PruneOk, Descending, Keeps;
    var t := Step(s, StrayNext(k, removed)).value;
    StrayVisits(s.db.strays[k], s.db.keepRecent, s.db.current, s.db.snapshots);
    LiveElsewhere(s, t);
    LoadedElsewhere(s, t);
    PruneElsewhere(s, t);
    FewerSnapshots(t.db.strays[k], s.db.keepRecent, s.db.current, s.db.snapshots, t.db.snapshots);
    StrayMoves(s.db, t.db, k);
  }

  lemma FewerSnapshots(p: Prune, keepRecent: nat, current: nat, a: map<nat, Saved>, b: map<nat, Saved>)
    requires StrayOk(p, keepRecent, current, a) && forall v :: v in b ==> v in a
    ensures StrayOk(p, keepRecent, current, b)
  {
    hide Keeps;
  }

  /** Cutting the log right after a snapshot's version keeps what later snapshots need. */
  lemma CutIndex(n: nat, blocks: nat, initial: Initial)
    requires VersionOf(blocks, initial) <= V.MAX_INT64
    ensures var index := WalIndex(VersionOf(n, initial) + 1, initial); index == 0 || index > blocks || index <= n + 1
  {
  }

  lemma Cut(log: seq<Entry>, wal: Wal, queue: seq<Queued>, index: nat)
    requires WalOk(log, wal, queue)
    ensures var cut := TruncateFront(wal, index);
      && WalOk(log, cut, queue) && LastIndex(cut) == LastIndex(wal) && LastIndex(wal) <= |log|
      && (cut.first == wal.first || (cut.first == index && 0 < index <= LastIndex(wal)))
  {
    var last := wal.first - 1 + |wal.entries|;
    if wal.first <= index <= last && index != 0 {
      assert log[wal.first - 1..last][index - wal.first..] == log[index - 1..last];
    }
  }

  /** The version behind which the log is cut was committed. */
  lemma CutCommitted(s: System, oldest: nat, e: nat)
    requires Inv(s) && Truncate(s.initial, s.db, oldest).Some?
    requires e == if s.db.prune.earliest == 0 then oldest else s.db.prune.earliest
    ensures WasCommitted(s, e)
  {
    hide At, WalOk, LiveOk, SavedAt, Replay, RewriteOk, LoadedOk, KeptOk, VersionOf, BlocksOf, TruncateFront, Good;
    if s.db.prune.earliest == 0 { assert Genuine(s.initial, s.log, e, s.db.snapshots[e]); }
  }

  lemma TruncateKeeps(s: System, oldest: nat)
    requires Inv(s) && Step(s, TruncateLog(oldest)).Some?
    ensures Inv(Step(s, TruncateLog(oldest)).value)
  {
    hide At, WalOk, VersionOf, BlocksOf, LiveOk, TruncateFront, WalIndex, LastIndex, SavedAt, Replay;
    var t := Step(s, TruncateLog(oldest)).value;
    LiveElsewhere(s, t);
    var e := if s.db.prune.earliest == 0 then oldest else s.db.prune.earliest;
    var n := BlocksOf(e, s.initial);
    var index := WalIndex(e + 1, s.initial);
    CutCommitted(s, oldest, e);
    Cut(s.log, s.db.wal, s.db.queue, index);
    CutIndex(n, |s.log|, s.initial);
    forall v | v in s.db.snapshots && v !in s.abandoned
      ensures t.db.wal.first <= BlocksOf(v, s.initial) + 1
    {
      assert Genuine(s.initial, s.log, v, s.db.snapshots[v]);
      VersionsGrow(BlocksOf(v, s.initial), n, s.initial);
    }
  }

  // ------------------------------------------------------------------ loading

  /** Every entry after a kept snapshot, up to the end of the log, can be read. */
  lemma GapFree(s: System, v: nat, i: nat)
    requires Inv(s) && v in s.db.snapshots && v !in s.abandoned
    requires BlocksOf(v, s.initial) < i <= LastIndex(s.db.wal)
    ensures 0 <= i - s.db.wal.first < |s.db.wal.entries| && i <= |s.log|
    ensures s.db.wal.entries[i - s.db.wal.first] == s.log[i - 1]
  {
    hide Good, At, LiveOk, SnapshotsOk, RewriteOk, PruneOk, LoadedOk, BlocksOf;
  }

  /** Loading with a target at or after a kept snapshot rebuilds, from the newest snapshot before the
      target, the trees and commit info committed at that version, or at the end of the log when the
      log ends earlier. */
  lemma LoadsTarget(s: System, kept: nat, found: nat, k: nat)
    requires Inv(s) && kept in s.db.snapshots && kept !in s.abandoned
    requires k >= 1 && kept <= VersionOf(k, s.initial)
    requires Seeks(s.db.snapshots, VersionOf(k, s.initial), found)
    ensures var reached := Max(BlocksOf(found, s.initial), Min(k, LastIndex(s.db.wal)));
      reached <= |s.log| && LoadFrom(s.db, found, VersionOf(k, s.initial)) == Some(SavedAt(s.initial, s.log, reached))
    ensures k <= LastIndex(s.db.wal) ==>
      k <= |s.log| && LoadFrom(s.db, found, VersionOf(k, s.initial)) == Some(SavedAt(s.initial, s.log, k))
  {
    hide Good, At, LiveOk, RewriteOk, PruneOk, LoadedOk, VersionOf, BlocksOf, CaughtUp, LastIndex;
    assert Genuine(s.initial, s.log, kept, s.db.snapshots[kept]);
    FoundLoads(s, found, k, BlocksOf(kept, s.initial));
  }

  lemma FoundLoads(s: System, found: nat, k: nat, kept: nat)
    requires Inv(s) && found in s.db.snapshots && found <= VersionOf(k, s.initial) && k >= 1
    requires s.db.wal.first <= kept + 1 && VersionOf(kept, s.initial) <= found
    ensures BlocksOf(found, s.initial) <= k
    ensures var reached := Max(BlocksOf(found, s.initial), Min(k, LastIndex(s.db.wal)));
      reached <= |s.log| && LoadFrom(s.db, found, VersionOf(k, s.initial)) == Some(SavedAt(s.initial, s.log, reached))
  {
    hide Good, At, LiveOk, RewriteOk, PruneOk, LoadedOk, BlocksOf, CaughtUp, LastIndex, KeptOk, WalOk;
    var f, target := BlocksOf(found, s.initial), VersionOf(k, s.initial);
    assert Genuine(s.initial, s.log, found, s.db.snapshots[found]);
    AtKeeps(s.initial, s.log, f);
    VersionsGrow(k, f, s.initial);
    VersionsGrow(f, k, s.initial);
    VersionsGrow(f, kept, s.initial);
    if target > found {
      CatchUpReaches(s.initial, s.log, s.db.wal, s.db.queue, f, target, k);
    }
  }

  /** Loading without a target, at any moment: the trees and commit info of the newer of the current
      snapshot and the end of the log. This is what a restart finds after a crash. */
  lemma LoadsLatest(s: System)
    requires Inv(s)
    ensures var reached := Max(BlocksOf(s.db.current, s.initial), LastIndex(s.db.wal));
      reached <= |s.log| && LoadFrom(s.db, s.db.current, 0) == Some(SavedAt(s.initial, s.log, reached))
  {
    hide Good, At, LiveOk, RewriteOk, PruneOk, LoadedOk, VersionOf, BlocksOf, CaughtUp, LastIndex, WalOk;
    var f := BlocksOf(s.db.current, s.initial);
    assert Genuine(s.initial, s.log, s.db.current, s.db.snapshots[s.db.current]);
    CatchUpReaches(s.initial, s.log, s.db.wal, s.db.queue, f, 0, LastIndex(s.db.wal));
  }

  lemma Drained(log: seq<Entry>, wal: Wal)
    requires WalOk(log, wal, [])
    ensures LastIndex(wal) == |log|
  {
  }

  /** Reopening after the writer has drained gives the last committed trees. */
  lemma ReopenKeeps(s: System)
    requires Inv(s) && Step(s, Reopen).Some?
    ensures Inv(Step(s, Reopen).value)
    ensures Step(s, Reopen).value.db.live == At(s.initial, s.log, |s.log|)
  {
    hide Good, At, VersionOf, BlocksOf, LoadFrom, SnapshotsOk, WalOk, LastIndex, LiveOk, LoadedOk, Infos, StraysKept,
      Outlived;
    var t := Step(s, Reopen).value;
    CurrentOutlived(s);
    StraysOpened(s, t.db);
    LoadsLatest(s);
    Drained(s.log, s.db.wal);
    CurrentGenuine(s);
    FreshLive(t);
    LoadedAt(t, |s.log|);
  }

  lemma CurrentGenuine(s: System)
    requires Inv(s)
    ensures Genuine(s.initial, s.log, s.db.current, s.db.snapshots[s.db.current])
  {
    hide Good, At, VersionOf, BlocksOf, WalOk, LiveOk, RewriteOk, PruneOk, LoadedOk;
  }

  /** Freshly loaded trees with an empty block are in order. */
  lemma FreshLive(t: System)
    requires Good(t.initial, t.log) && t.db.pending == NO_CHANGES
    requires Saved(t.db.live, t.db.infos) == SavedAt(t.initial, t.log, |t.log|)
    ensures LiveOk(t)
  {
    hide At, Good, ApplyEntry;
    NothingPending(t.db.live);
  }

  // ------------------------------------------------------------------ rolling back

  /** The history cut at a block is the history up to it. */
  lemma Shortens(initial: Initial, log: seq<Entry>, k: nat)
    requires Good(initial, log) && k <= |log|
    ensures Good(initial, log[..k])
    ensures forall n :: 0 <= n <= k ==> At(initial, log[..k], n) == At(initial, log, n)
  {
    hide Replay;
    PrefixGood(initial, log, k);
    forall n | 0 <= n <= k ensures log[..k][..n] == log[..n] {}
  }

  /** A version whose log index lies in the log is one that was committed. */
  lemma IndexedVersion(target: nat, index: nat, blocks: nat, initial: Initial)
    requires target > 0 && index == WalIndex(target, initial) && 0 < index <= blocks
    requires VersionOf(blocks, initial) <= V.MAX_INT64
    ensures target == VersionOf(index, initial)
  {
  }

  /** Loading for overwriting loads the target itself. */
  lemma OverwriteLoads(s: System, target: nat, found: nat, left: set<nat>, k: nat)
    requires Inv(s) && Overwrite(s, target, found, left).Some? && k == WalIndex(target, s.initial)
    ensures s.db.wal.first <= k <= |s.log| == LastIndex(s.db.wal) && target == VersionOf(k, s.initial)
    ensures LoadFrom(s.db, found, target) == Some(SavedAt(s.initial, s.log, k))
    ensures BlocksOf(found, s.initial) <= k && s.db.wal.first <= BlocksOf(found, s.initial) + 1
    ensures found == VersionOf(BlocksOf(found, s.initial), s.initial)
  {
    hide At, LiveOk, RewriteOk, PruneOk, LoadedOk, KeptOk, VersionOf, BlocksOf, Replay, SavedAt;
    var f := BlocksOf(found, s.initial);
    assert Genuine(s.initial, s.log, found, s.db.snapshots[found]);
    IndexedVersion(target, k, |s.log|, s.initial);
    VersionsGrow(k, f, s.initial);
    OverwriteReads(s, target, found, k, f);
    FoundLoads(s, found, k, f);
  }

  /** A load that succeeded found its entries. */
  lemma OverwriteReads(s: System, target: nat, found: nat, k: nat, f: nat)
    requires Inv(s) && found in s.db.snapshots && LoadFrom(s.db, found, target).Some? && target > 0
    requires f <= |s.log| && found == VersionOf(f, s.initial) && s.db.snapshots[found] == SavedAt(s.initial, s.log, f)
    requires s.db.wal.first <= k <= LastIndex(s.db.wal) && target == VersionOf(k, s.initial) && f <= k
    ensures s.db.wal.first <= f + 1
  {
    hide At, LiveOk, RewriteOk, PruneOk, LoadedOk, KeptOk, VersionOf, Replay, WalOk, LastIndex, Good;
    AtKeeps(s.initial, s.log, f);
    VersionsGrow(f, k, s.initial);
  }

  /** Rolling back leaves the history, the trees and the commit info as of the target version. */
  lemma RollbackKeeps(s: System, target: nat, found: nat)
    requires Inv(s) && Legal(s, Rollback(target, found, {})) && Step(s, Rollback(target, found, {})).Some?
    ensures Inv(Step(s, Rollback(target, found, {})).value)
    ensures var t, k := Step(s, Rollback(target, found, {})).value, WalIndex(target, s.initial);
      && k <= |s.log| && t.log == s.log[..k] && target == VersionOf(k, s.initial)
      && Saved(t.db.live, t.db.infos) == SavedAt(s.initial, s.log, k)
      && forall v :: v in t.db.snapshots <==> v in s.db.snapshots && v <= target
  {
    hide At, LiveOk, VersionOf, BlocksOf, Good, LoadFrom, WalIndex, SavedAt, WalOk, LastIndex, SnapshotsOk,
      LoadedOk, KeptOk, StraysKept, Outlived;
    var t := Step(s, Rollback(target, found, {})).value;
    var k := WalIndex(target, s.initial);
    OverwriteLoads(s, target, found, {}, k);
    Shortens(s.initial, s.log, k);
    CutBack(s.log, s.db.wal, k);
    SnapshotsBefore(s, target, k);
    assert t.db.snapshots == map v | v in s.db.snapshots && v <= target :: s.db.snapshots[v];
    FreshAt(s, t, k);
    FreshLive(t);
    KeptBefore(s, t, target, found);
    StraysOpened(s, t.db);
    assert LoadedOk(t) by { LoadedAt(t, k); }
  }

  lemma LoadedAt(t: System, k: nat)
    requires LastIndex(t.db.wal) == k && BlocksOf(t.db.loadedFrom, t.initial) <= k
    requires t.db.loadedFrom == VersionOf(BlocksOf(t.db.loadedFrom, t.initial), t.initial)
    ensures LoadedOk(t)
  {
  }

  lemma KeptBefore(s: System, t: System, target: nat, found: nat)
    requires KeptOk(s) && Overwrite(s, target, found, {}) == Some(t)
    requires s.db.wal.first <= BlocksOf(found, s.initial) + 1
    ensures KeptOk(t)
  {
    hide BlocksOf, LoadFrom, WalIndex, LastIndex;
  }

  lemma FreshAt(s: System, t: System, k: nat)
    requires Good(s.initial, s.log) && k <= |s.log| && t.initial == s.initial && t.log == s.log[..k]
    ensures Good(t.initial, t.log) && SavedAt(t.initial, t.log, k) == SavedAt(s.initial, s.log, k)
    ensures SavedAt(s.initial, s.log, k).multi == At(s.initial, s.log, k)
  {
    hide At, Good;
    Shortens(s.initial, s.log, k);
  }

  lemma CutBack(log: seq<Entry>, wal: Wal, k: nat)
    requires WalOk(log, wal, []) && wal.first <= k <= |log|
    ensures var cut := Wal(wal.first, wal.entries[..k + 1 - wal.first]); WalOk(log[..k], cut, []) && LastIndex(cut) == k
  {
  }

  lemma SnapshotsBefore(s: System, target: nat, k: nat)
    requires Inv(s) && k <= |s.log| && target == VersionOf(k, s.initial)
    ensures Good(s.initial, s.log[..k])
    ensures SnapshotsOk(s.initial, s.log[..k], map v | v in s.db.snapshots && v <= target :: s.db.snapshots[v])
  {
    hide At, LiveOk, VersionOf, BlocksOf, Good, WalOk, RewriteOk, PruneOk, LoadedOk, KeptOk;
    Shortens(s.initial, s.log, k);
    forall v | v in s.db.snapshots && v <= target ensures Genuine(s.initial, s.log[..k], v, s.db.snapshots[v]) {
      assert Genuine(s.initial, s.log, v, s.db.snapshots[v]);
      VersionsGrow(k, BlocksOf(v, s.initial), s.initial);
    }
  }

  // ------------------------------------------------------------------ crashing

  /** A crash leaves the newer of the current snapshot and the end of the log. */
  lemma RestartLoads(s: System)
    requires Inv(s)
    ensures var reached := Max(BlocksOf(s.db.current, s.initial), LastIndex(s.db.wal));
      && reached <= |s.log|
      && Restart(s) == Some(s.(log := s.log[..reached],
           db := Opened(s.db.(queue := [], prune := Quiet, waiting := 0, strays := []), s.db.current,
                        SavedAt(s.initial, s.log, reached))))
  {
    hide At, LiveOk, VersionOf, BlocksOf, Good, LoadFrom, WalOk, LastIndex, SnapshotsOk, LoadedOk, KeptOk, RewriteOk,
      PruneOk, Infos;
    LoadsLatest(s);
    AtKeeps(s.initial, s.log, Max(BlocksOf(s.db.current, s.initial), LastIndex(s.db.wal)));
  }

  lemma CrashKeeps(s: System)
    requires Inv(s) && LogCovers(s)
    ensures Restart(s).Some? && Inv(Restart(s).value)
  {
    hide At, LiveOk, VersionOf, BlocksOf, Good, WalOk, LastIndex, LoadedOk, SavedAt, Restart, SnapshotsOk;
    RestartLoads(s);
    var t, k := Restart(s).value, LastIndex(s.db.wal);
    Shortens(s.initial, s.log, k);
    FreshAt(s, t, k);
    FreshLive(t);
    LoseQueue(s.log, s.db.wal, s.db.queue);
    SnapshotsCovered(s, k);
    CurrentGenuine(s);
    LoadedAt(t, k);
  }

  lemma LoseQueue(log: seq<Entry>, wal: Wal, queue: seq<Queued>)
    requires WalOk(log, wal, queue)
    ensures LastIndex(wal) <= |log| && WalOk(log[..LastIndex(wal)], wal, [])
  {
  }

  lemma SnapshotsCovered(s: System, k: nat)
    requires Inv(s) && k <= |s.log| && forall v :: v in s.db.snapshots ==> BlocksOf(v, s.initial) <= k
    ensures Good(s.initial, s.log[..k]) && SnapshotsOk(s.initial, s.log[..k], s.db.snapshots)
  {
    hide At, LiveOk, VersionOf, BlocksOf, Good, WalOk, RewriteOk, PruneOk, LoadedOk, KeptOk;
    Shortens(s.initial, s.log, k);
  }

  /** A restart looks at what is on disk only. */
  lemma RestartSame(s: System, t: System)
    requires t == s.(db := t.db) && t.db.snapshots == s.db.snapshots && t.db.current == s.db.current
    requires t.db.wal == s.db.wal && t.db.keepRecent == s.db.keepRecent
    ensures Restart(t) == Restart(s)
  {
    hide CaughtUp, FirstToReplay;
  }

  /** Interrupted after the link has moved, a rollback has changed nothing: the whole history is loaded. */
  lemma RelinkKeeps(s: System, target: nat, found: nat)
    requires Inv(s) && Legal(s, Relink(target, found)) && Step(s, Relink(target, found)).Some?
    ensures var t := Step(s, Relink(target, found)).value;
      Inv(t) && t.log == s.log && t.db.live == At(s.initial, s.log, |s.log|) && t.db.current == found
  {
    hide At, LiveOk, VersionOf, BlocksOf, Good, WalOk, LastIndex, LoadedOk, SavedAt, Restart, SnapshotsOk, LoadFrom;
    var r := s.(db := s.db.(current := found, rewrite := Idle, prune := Quiet, waiting := 0, strays := []));
    LiveElsewhere(s, r);
    LoadedElsewhere(s, r);
    assert s.abandoned - {found} == s.abandoned;
    Drained(s.log, s.db.wal);
    CoversAfter(s);
    RestartSame(s.(db := s.db.(current := found)), r);
    CrashKeeps(r);
    RestartLoads(r);
    assert s.log[..|s.log|] == s.log;
    FreshAt(s, s, |s.log|);
  }

  /** A crash keeps the database sound exactly when the log had reached every snapshot on disk: a
      snapshot published ahead of the log leaves a gap in it, or blocks that no log entry backs. */
  lemma CrashExact(s: System)
    requires Inv(s)
    ensures Restart(s).Some?
    ensures Inv(Restart(s).value) <==> LogCovers(s)
  {
    RestartLoads(s);
    if LogCovers(s) {
      CrashKeeps(s);
    } else if Inv(Restart(s).value) {
      CoversAfter(Restart(s).value);
    }
  }

  lemma CoversAfter(t: System)
    requires Inv(t) && t.db.queue == []
    ensures LogCovers(t)
  {
    hide At, LiveOk, VersionOf, BlocksOf, Good, RewriteOk, PruneOk, LoadedOk, KeptOk, SavedAt;
    Drained(t.log, t.db.wal);
  }
}
