/** The durability protocol: commits, the asynchronous log writer, background snapshot rewriting,
    the switch to a rewritten snapshot, pruning, reopening and rolling back, as atomic steps that
    interleave in any order. */
module Durability {
  import opened Bytes
  import opened MultiTrees
  import opened PendingLog
  import V = Versioned

  // ------------------------------------------------------------------ state

  /** A snapshot directory: the trees and the commit info stored with them. */
  datatype Saved = Saved(multi: Multi, infos: seq<Info>)

  datatype Queued = Queued(index: nat, entry: Entry)

  /** How far the background rewrite has come; `from` is the snapshot it loaded. */
  datatype Rewrite =
    | Idle
    | Writing(copy: Saved)
    | Renamed(version: nat)
    | Linked
    | Replaying(from: nat, multi: Multi, end: nat)
    | Done(from: nat, result: Saved)
    | Failed

  /** How far pruning has come: begun without having looked at anything; then the current snapshot it saw;
      then the directories still to visit, how many older ones it may still keep, and the earliest kept so
      far (0: none). */
  datatype Prune =
    | Quiet
    | Started
    | LinkRead(newest: nat)
    | Pruning(newest: nat, todo: seq<nat>, counter: nat, earliest: nat)

  /** On disk: snapshots by version, the current link, the log. In memory: the trees, the commit info,
      the snapshot they came from, the block being built, entries the log writer has not taken, how many
      prunings wait for the one under way to end, and prunings of databases closed since, which nobody
      waits for: they go on removing snapshots, but their log is closed. */
  datatype Db = Db(
    snapshots: map<nat, Saved>, current: nat, wal: Wal,
    live: Multi, infos: seq<Info>, loadedFrom: nat,
    pending: Entry, queue: seq<Queued>,
    rewrite: Rewrite, prune: Prune, waiting: nat, strays: seq<Prune>, keepRecent: nat)

  /** The database together with its history: every block committed so far, and the snapshots that
      pruning dropped from its count but could not remove. */
  datatype System = System(initial: Initial, db: Db, log: seq<Entry>, abandoned: set<nat>)

  datatype Event =
    | ApplyUpgrades(upgrades: seq<Upgrade>)
    | ApplyChangeSets(changes: seq<Changes>)
    | ApplyChangeSet(name: Bytes, pairs: seq<Pair>)
    | Commit
    | WriteBatch(count: nat)
    | StartRewrite
    | RenameSnapshot
    | LinkSnapshot
    | OpenSnapshot
    | ReplayNext
    | FinishReplay
    | FailRewrite
    | DiscardRewrite
    | Switch
    | ReadLink
    | ListSnapshots(listing: seq<nat>)
    | PruneNext(removed: bool)
    | TruncateLog(oldest: nat)
    | StopPrune
    | StrayLink(k: nat)
    | StrayList(k: nat, listing: seq<nat>)
    | StrayNext(k: nat, removed: bool)
    | Reopen
    | Rollback(target: nat, found: nat, left: set<nat>)
    | Relink(target: nat, found: nat)
    | Crash

  // ------------------------------------------------------------------ the steps

  function Genesis(initial: Initial): Multi { Multi(initial, 0, []) }

  function Init(initial: Initial, keepRecent: nat): System {
    var empty := Genesis(initial);
    System(initial,
      Db(map[0 := Saved(empty, [])], 0, Wal(1, []), empty, [], 0, NO_CHANGES, [], Idle, Quiet, 0, [], keepRecent),
      [], {})
  }

  /** The entries of a batch that the log does not have yet; older ones are skipped. */
  function NewEntries(last: nat, batch: seq<Queued>): seq<Queued> {
    if batch == [] then []
    else
      var front, q := NewEntries(last, batch[..|batch| - 1]), batch[|batch| - 1];
      if q.index <= last then front else front + [q]
  }

  /** The writer's loop over a received batch: `at` tells where in the batch each entry came from. It
      takes every entry the log does not have, once, in the order of the batch, and no other. */
  method CollectBatch(last: nat, batch: seq<Queued>) returns (r: seq<Queued>, ghost at: seq<nat>)
    ensures |at| == |r| && forall i :: 0 <= i < |r| ==> at[i] < |batch| && r[i] == batch[at[i]]
    ensures forall i, j :: 0 <= i < j < |at| ==> at[i] < at[j]
    ensures forall k :: 0 <= k < |batch| ==> (k in at <==> batch[k].index > last)
    ensures r == NewEntries(last, batch)
  {
    r, at := [], [];
    for i := 0 to |batch|
      invariant r == NewEntries(last, batch[..i])
      invariant |at| == |r| && forall j :: 0 <= j < |r| ==> at[j] < i && r[j] == batch[at[j]]
      invariant forall j, k :: 0 <= j < k < |at| ==> at[j] < at[k]
      invariant forall k :: 0 <= k < i ==> (k in at <==> batch[k].index > last)
    {
      assert batch[..i + 1][..i] == batch[..i];
      if batch[i].index > last { r, at := r + [batch[i]], at + [i]; }
    }
    assert batch[..|batch|] == batch;
  }

  /** The log takes a batch only at consecutive indices after its last one. */
  predicate Consecutive(last: nat, batch: seq<Queued>) {
    forall i :: 0 <= i < |batch| ==> batch[i].index == last + 1 + i
  }

  function EntriesOf(batch: seq<Queued>): (r: seq<Entry>)
    ensures |r| == |batch| && forall i :: 0 <= i < |batch| ==> r[i] == batch[i].entry
  {
    if batch == [] then [] else EntriesOf(batch[..|batch| - 1]) + [batch[|batch| - 1].entry]
  }

  /** Cutting the front keeps at least one entry; outside the log it is refused and changes nothing. */
  function TruncateFront(wal: Wal, index: nat): Wal {
    if index < wal.first || index > LastIndex(wal) || index == 0 then wal
    else Wal(index, wal.entries[index - wal.first..])
  }

  /** The version the log has reached, or the snapshot's when the log is empty. */
  function CommittedVersion(initial: Initial, db: Db): nat {
    if LastIndex(db.wal) == 0 then db.loadedFrom else WalVersion(LastIndex(db.wal), initial)
  }

  /** Catching up a loaded snapshot; the commit info is rebuilt when anything was replayed. */
  function CaughtUp(s: Saved, wal: Wal, target: nat): Option<Saved> {
    match CatchUp(s.multi, wal, target)
    case None => None
    case Some(m) =>
      Some(Saved(m, if FirstToReplay(s.multi) <= LastIndex(wal) then Infos(m.trees) else s.infos))
  }

  /** Loading a snapshot at a target version (0: as far as the log goes). */
  function LoadFrom(db: Db, found: nat, target: nat): Option<Saved> {
    if found !in db.snapshots then None
    else
      var s := db.snapshots[found];
      if target == 0 || target > s.multi.version then CaughtUp(s, db.wal, target) else Some(s)
  }

  /** The newest snapshot that is not newer than the target. */
  ghost predicate Seeks(snapshots: map<nat, Saved>, target: nat, found: nat) {
    found in snapshots && found <= target && forall v :: v in snapshots && v <= target ==> v <= found
  }

  /** Walks the snapshot directories from the newest to the oldest. */
  method SeekSnapshot(snapshots: map<nat, Saved>, listing: seq<nat>, target: nat) returns (found: Option<nat>)
    requires Descending(listing) && forall v :: v in listing <==> v in snapshots
    ensures found.Some? ==> Seeks(snapshots, target, found.value)
    ensures found.None? ==> forall v :: v in snapshots ==> v > target
  {
    for i := 0 to |listing|
      invariant forall j :: 0 <= j < i ==> listing[j] > target
    {
      if listing[i] <= target { return Some(listing[i]); }
    }
    return None;
  }

  /** Prunings under way, and those that have begun without having looked at anything, outlive their
      database. */
  function Strays(db: Db): seq<Prune> {
    db.strays + (if db.prune == Quiet then [] else [db.prune]) + seq(db.waiting, _ => Started)
  }

  function Opened(db: Db, found: nat, s: Saved): Db {
    db.(live := s.multi, infos := s.infos, loadedFrom := found, pending := NO_CHANGES,
        rewrite := Idle, prune := Quiet, waiting := 0, strays := Strays(db))
  }

  predicate Descending(xs: seq<nat>) { forall i, j :: 0 <= i < j < |xs| ==> xs[i] > xs[j] }

  function CommitBlock(s: System): Option<System> {
    var db := s.db;
    if NextVersion(db.live.version, s.initial) > V.MAX_INT64 then None
    else
      match Save(db.live)
      case None => None
      case Some(m) =>
        Some(s.(log := s.log + [db.pending],
                db := db.(live := m, infos := Infos(m.trees), pending := NO_CHANGES,
                          queue := db.queue + [Queued(WalIndex(m.version, s.initial), db.pending)])))
  }

  /** A block's changes: the live trees move at once, the log entry collects what was done. */
  function Work(db: Db, e: Event): Option<Db>
    requires e.ApplyUpgrades? || e.ApplyChangeSets? || e.ApplyChangeSet?
  {
    match e
    case ApplyUpgrades(upgrades) => (
      match Upgraded(db.live, upgrades)
      case None => None
      case Some(m) => Some(db.(live := m, pending := Entry(db.pending.upgrades + upgrades, db.pending.changes))))
    case ApplyChangeSets(changes) =>
      if changes == [] then Some(db)
      else if db.pending.changes == [] then Changed(db, changes, changes)
      else Changed(db, WithoutEmpty(changes), MergeAll(db.pending.changes, changes))
    case ApplyChangeSet(name, pairs) =>
      if pairs == [] then Some(db)
      else Changed(db, [Changes(name, pairs)], Merge(db.pending.changes, name, pairs))
  }

  function Changed(db: Db, changes: seq<Changes>, logged: seq<Changes>): Option<Db> {
    match ApplyChanges(db.live.trees, changes)
    case None => None
    case Some(ts) => Some(db.(live := db.live.(trees := ts), pending := Entry(db.pending.upgrades, logged)))
  }

  function Write(db: Db, count: nat): Option<Db> {
    if count == 0 || count > |db.queue| then None
    else
      var batch := NewEntries(LastIndex(db.wal), db.queue[..count]);
      if !Consecutive(LastIndex(db.wal), batch) then None
      else Some(db.(wal := Wal(db.wal.first, db.wal.entries + EntriesOf(batch)), queue := db.queue[count..]))
  }

  /** The background rewrite, step by step. Renaming onto an existing directory fails. */
  function Rewriting(db: Db, e: Event): Option<Db>
    requires e.StartRewrite? || e.RenameSnapshot? || e.LinkSnapshot? || e.OpenSnapshot? || e.ReplayNext?
      || e.FinishReplay? || e.FailRewrite? || e.DiscardRewrite?
  {
    match (e, db.rewrite)
    case (StartRewrite, Idle) => Some(db.(rewrite := Writing(Saved(db.live, db.infos))))
    case (RenameSnapshot, Writing(copy)) =>
      var v := copy.multi.version;
      if v in db.snapshots then Some(db.(rewrite := Failed))
      else Some(db.(snapshots := db.snapshots[v := copy], rewrite := Renamed(v)))
    case (LinkSnapshot, Renamed(v)) => Some(db.(current := v, rewrite := Linked))
    case (OpenSnapshot, Linked) => OpenCurrent(db)
    case (ReplayNext, Replaying(from, m, end)) => ReplayOne(db, from, m, end)
    case (FinishReplay, Replaying(from, m, end)) =>
      if FirstToReplay(m) <= end then None
      else Some(db.(rewrite := Done(from, Saved(m, Infos(m.trees)))))
    case (FailRewrite, Writing(_)) => Some(db.(rewrite := Failed))
    case (FailRewrite, Renamed(_)) => Some(db.(rewrite := Failed))
    case (DiscardRewrite, Failed) => Some(db.(rewrite := Idle))
    case _ => None
  }

  /** Loads the current snapshot and fixes where the best-effort catch-up will end. */
  function OpenCurrent(db: Db): Option<Db> {
    if db.current !in db.snapshots then None
    else
      var s := db.snapshots[db.current];
      if FirstToReplay(s.multi) > LastIndex(db.wal) then Some(db.(rewrite := Done(db.current, s)))
      else Some(db.(rewrite := Replaying(db.current, s.multi, LastIndex(db.wal))))
  }

  /** Reads and replays one log entry. */
  function ReplayOne(db: Db, from: nat, m: Multi, end: nat): Option<Db> {
    var i := FirstToReplay(m);
    if i > end || i < db.wal.first || i > LastIndex(db.wal) || db.wal.entries == [] then None
    else
      match Block(m, db.wal.entries[i - db.wal.first])
      case None => None
      case Some(n) => Some(db.(rewrite := Replaying(from, n, end)))
  }

  /** Once the log has caught up with the live trees, the rewritten ones catch up and take over; pruning
      is asked for afterwards, and waits for the end of a pruning that is still under way. */
  function SwitchOver(initial: Initial, db: Db): Option<Db> {
    if !db.rewrite.Done? || db.live.version != CommittedVersion(initial, db) then None
    else
      match CaughtUp(db.rewrite.result, db.wal, 0)
      case None => None
      case Some(s) =>
        match ApplyEntry(s.multi, db.pending)
        case None => None
        case Some(m) =>
          Some(db.(live := m, infos := s.infos, loadedFrom := db.rewrite.from, rewrite := Idle,
                   waiting := db.waiting + 1))
  }

  /** Visits one snapshot directory: newer than or equal to the current one, or among the recent ones,
      it is kept. */
  function Visit(p: Prune): (r: Prune)
    requires p.Pruning? && p.todo != []
    ensures r.Pruning? && r.todo == p.todo[1..] && r.newest == p.newest
  {
    var v, rest := p.todo[0], p.todo[1..];
    var earliest := if p.earliest == 0 || v < p.earliest then v else p.earliest;
    if v >= p.newest then Pruning(p.newest, rest, p.counter, earliest)
    else if p.counter > 0 then Pruning(p.newest, rest, p.counter - 1, earliest)
    else Pruning(p.newest, rest, 0, p.earliest)
  }

  /** How many listed snapshots lie between a version and the newest one. */
  function CountBetween(todo: seq<nat>, v: nat, newest: nat): nat {
    if todo == [] then 0 else (if v < todo[0] < newest then 1 else 0) + CountBetween(todo[1..], v, newest)
  }

  predicate Drops(p: Prune)
    requires p.Pruning? && p.todo != []
  {
    p.todo[0] < p.newest && p.counter == 0
  }

  /** A snapshot that is not kept is removed, or left behind when it is locked. */
  function Prune1(s: System, removed: bool): Option<System> {
    var db := s.db;
    if !db.prune.Pruning? || db.prune.todo == [] then None
    else
      var v, q := db.prune.todo[0], Visit(db.prune);
      if !Drops(db.prune) then Some(s.(db := db.(prune := q)))
      else if removed || v !in db.snapshots then
        Some(s.(db := db.(snapshots := db.snapshots - {v}, prune := q), abandoned := s.abandoned - {v}))
      else Some(s.(db := db.(prune := q), abandoned := s.abandoned + {v}))
  }

  /** The same for a pruning whose database has been closed. */
  function StrayStep(s: System, k: nat, removed: bool): Option<System> {
    var db := s.db;
    if k >= |db.strays| || !db.strays[k].Pruning? || db.strays[k].todo == [] then None
    else
      var v, strays := db.strays[k].todo[0], db.strays[k := Visit(db.strays[k])];
      if Drops(db.strays[k]) && removed then
        Some(s.(db := db.(snapshots := db.snapshots - {v}, strays := strays), abandoned := s.abandoned - {v}))
      else Some(s.(db := db.(strays := strays)))
  }

  ghost predicate Lists(db: Db, listing: seq<nat>) {
    Descending(listing) && (set v | v in listing) == db.snapshots.Keys
  }

  ghost predicate IsOldest(snapshots: map<nat, Saved>, oldest: nat) {
    oldest in snapshots && forall v :: v in snapshots ==> oldest <= v
  }

  ghost function Truncate(initial: Initial, db: Db, oldest: nat): Option<Db> {
    if !db.prune.Pruning? || db.prune.todo != [] then None
    else if db.prune.earliest == 0 && !IsOldest(db.snapshots, oldest) then None
    else
      var e := if db.prune.earliest == 0 then oldest else db.prune.earliest;
      Some(db.(wal := TruncateFront(db.wal, WalIndex(e + 1, initial)), prune := Quiet))
  }

  /** Loading for overwriting: the log and the snapshots after the target go away, but for those that could
      not be removed. */
  ghost function Overwrite(s: System, target: nat, found: nat, left: set<nat>): Option<System> {
    var index := WalIndex(target, s.initial);
    if s.db.queue != [] || target == 0 || !Seeks(s.db.snapshots, target, found) then None
    else
      match LoadFrom(s.db, found, target)
      case None => None
      case Some(l) =>
        if index < s.db.wal.first || index > LastIndex(s.db.wal) || s.db.wal.entries == [] then None
        else
          var snapshots := map v | v in s.db.snapshots && (v <= target || v in left) :: s.db.snapshots[v];
          var wal := Wal(s.db.wal.first, s.db.wal.entries[..index + 1 - s.db.wal.first]);
          var n := if index <= |s.log| then index else |s.log|;
          Some(s.(log := s.log[..n], abandoned := (set v | v in s.abandoned && v <= target && v != found),
                  db := Opened(s.db.(snapshots := snapshots, current := found, wal := wal), found, l)))
  }

  /** The process stops while loading for overwriting, when only the link has moved. */
  ghost function StopRelinked(s: System, target: nat, found: nat): Option<System> {
    if s.db.queue != [] || target == 0 || !Seeks(s.db.snapshots, target, found) then None
    else if LoadFrom(s.db, found, target).None? then None
    else Restart(s.(db := s.db.(current := found), abandoned := s.abandoned - {found}))
  }

  /** A restart without closing: what was queued is lost, and the history ends where loading does. */
  function Restart(s: System): Option<System> {
    match LoadFrom(s.db, s.db.current, 0)
    case None => None
    case Some(l) =>
      if FirstToReplay(l.multi) == 0 || FirstToReplay(l.multi) - 1 > |s.log| then None
      else
        Some(s.(log := s.log[..FirstToReplay(l.multi) - 1],
                db := Opened(s.db.(queue := [], prune := Quiet, waiting := 0, strays := []), s.db.current, l)))
  }

  ghost function Step(s: System, e: Event): Option<System> {
    match e
    case ApplyUpgrades(_) => OnDb(s, Work(s.db, e))
    case ApplyChangeSets(_) => OnDb(s, Work(s.db, e))
    case ApplyChangeSet(_, _) => OnDb(s, Work(s.db, e))
    case Commit => CommitBlock(s)
    case WriteBatch(count) => OnDb(s, Write(s.db, count))
    case Switch => OnDb(s, SwitchOver(s.initial, s.db))
    case ReadLink =>
      if s.db.prune != Quiet || s.db.waiting == 0 then None
      else Some(s.(db := s.db.(prune := LinkRead(s.db.current), waiting := s.db.waiting - 1)))
    case ListSnapshots(listing) =>
      if !s.db.prune.LinkRead? || !Lists(s.db, listing) then None
      else Some(s.(db := s.db.(prune := Pruning(s.db.prune.newest, listing, s.db.keepRecent, 0))))
    case PruneNext(removed) => Prune1(s, removed)
    case TruncateLog(oldest) => OnDb(s, Truncate(s.initial, s.db, oldest))
    case StrayLink(k) =>
      if k >= |s.db.strays| || s.db.strays[k] != Started then None
      else Some(s.(db := s.db.(strays := s.db.strays[k := LinkRead(s.db.current)])))
    case StrayList(k, listing) =>
      if k >= |s.db.strays| || !s.db.strays[k].LinkRead? || !Lists(s.db, listing) then None
      else
        var p := Pruning(s.db.strays[k].newest, listing, s.db.keepRecent, 0);
        Some(s.(db := s.db.(strays := s.db.strays[k := p])))
    case StrayNext(k, removed) => StrayStep(s, k, removed)
    case StopPrune => if s.db.prune == Quiet then None else Some(s.(db := s.db.(prune := Quiet)))
    case Reopen =>
      if s.db.queue != [] then None
      else (
        match LoadFrom(s.db, s.db.current, 0)
        case None => None
        case Some(l) => Some(s.(db := Opened(s.db, s.db.current, l))))
    case Rollback(target, found, left) => Overwrite(s, target, found, left)
    case Relink(target, found) => StopRelinked(s, target, found)
    case Crash => Restart(s)
    case _ => OnDb(s, Rewriting(s.db, e))
  }

  function OnDb(s: System, db: Option<Db>): Option<System> {
    if db.None? then None else Some(s.(db := db.value))
  }
}
