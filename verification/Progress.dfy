/** Nothing gets stuck: from every state that a run reaches, the log writer, the rewrite and the prunings under way
    can come to their ends, and the block under way does not notice. */
module Progress {
  import opened Bytes
  import opened MultiTrees
  import opened Durability
  import opened Recovery
  import opened Histories
  import opened PendingLog
  import V = Versioned

  /** Nothing is queued, being rewritten, being pruned, or waiting to be; nor has a pruning left over anything to do. */
  predicate AtRest(s: System) { OwnRest(s) && Over(s.db.strays) }

  predicate OwnRest(s: System) {
    s.db.queue == [] && s.db.rewrite == Idle && s.db.prune == Quiet && s.db.waiting == 0
  }

  predicate Over(strays: seq<Prune>) {
    forall k :: 0 <= k < |strays| ==> strays[k] != Started && !strays[k].LinkRead? && TodoOf(strays[k]) == 0
  }

  /** What callers see. */
  predicate SameWork(s: System, t: System) {
    && t.initial == s.initial && t.log == s.log
    && t.db.live == s.db.live && t.db.infos == s.db.infos && t.db.pending == s.db.pending
  }

  // ------------------------------------------------------------------ how far it is

  function Phase(r: Rewrite): nat {
    match r
    case Idle => 0
    case Failed => 1
    case Done(_, _) => 1
    case Replaying(_, _, _) => 2
    case Linked => 3
    case Renamed(_) => 4
    case Writing(_) => 5
  }

  function ToReplay(r: Rewrite): nat {
    if r.Replaying? && FirstToReplay(r.multi) <= r.end then r.end + 1 - FirstToReplay(r.multi) else 0
  }

  function ToPrune(db: Db): nat {
    match db.prune
    case Quiet => 0
    case Started => 1
    case LinkRead(_) => |db.snapshots| + 2
    case Pruning(_, todo, _, _) => |todo| + 1
  }

  function TodoOf(p: Prune): nat { if p.Pruning? then |p.todo| else 0 }

  /** How many prunings left over have not read the link, how many have not listed, and how much is listed. */
  function Unlinked(strays: seq<Prune>): nat {
    if strays == [] then 0 else Unlinked(strays[..|strays| - 1]) + if strays[|strays| - 1] == Started then 1 else 0
  }

  function Unlisted(strays: seq<Prune>): nat {
    if strays == [] then 0 else Unlisted(strays[..|strays| - 1]) + if strays[|strays| - 1].LinkRead? then 1 else 0
  }

  function Unvisited(strays: seq<Prune>): nat {
    if strays == [] then 0 else Unvisited(strays[..|strays| - 1]) + TodoOf(strays[|strays| - 1])
  }

  lemma {:induction false} Counted(strays: seq<Prune>, k: nat, p: Prune)
    requires k < |strays|
    ensures var r := strays[k := p]; var q := strays[k];
      && Unlinked(r) == Unlinked(strays) - (if q == Started then 1 else 0) + (if p == Started then 1 else 0)
      && Unlisted(r) == Unlisted(strays) - (if q.LinkRead? then 1 else 0) + (if p.LinkRead? then 1 else 0)
      && Unvisited(r) == Unvisited(strays) - TodoOf(q) + TodoOf(p)
  {
    hide TodoOf;
    var n := |strays| - 1;
    var r := strays[k := p];
    if k < n {
      Counted(strays[..n], k, p);
      assert r[..n] == strays[..n][k := p];
    } else {
      assert r[..n] == strays[..n];
    }
  }

  /** One step closer to rest: first the queue, then the rewrite, then the prunings, then those left over. */
  predicate Closer(s: Db, t: Db) {
    CloserOwn(s, t) || (SameOwn(s, t) && CloserStrays(s.strays, t.strays))
  }

  predicate SameOwn(s: Db, t: Db) {
    && |t.queue| == |s.queue| && t.rewrite == s.rewrite && t.waiting == s.waiting && ToPrune(t) == ToPrune(s)
  }

  predicate CloserStrays(s: seq<Prune>, t: seq<Prune>) {
    || Unlinked(t) < Unlinked(s)
    || (Unlinked(t) == Unlinked(s) && Unlisted(t) < Unlisted(s))
    || (Unlinked(t) == Unlinked(s) && Unlisted(t) == Unlisted(s) && Unvisited(t) < Unvisited(s))
  }

  predicate CloserOwn(s: Db, t: Db) {
    || |t.queue| < |s.queue|
    || (|t.queue| == |s.queue| && Phase(t.rewrite) < Phase(s.rewrite))
    || (|t.queue| == |s.queue| && t.rewrite == s.rewrite && t.waiting < s.waiting)
    || (|t.queue| == |s.queue| && t.rewrite == s.rewrite && t.waiting == s.waiting && ToPrune(t) < ToPrune(s))
    || (|t.queue| == |s.queue| && Phase(t.rewrite) == Phase(s.rewrite) && ToReplay(t.rewrite) < ToReplay(s.rewrite))
  }

  // ------------------------------------------------------------------ one step

  lemma WriterMoves(s: System)
    requires Inv(s) && s.db.queue != []
    ensures var e := WriteBatch(|s.db.queue|);
      Step(s, e).Some? && SameWork(s, Step(s, e).value) && Closer(s.db, Step(s, e).value.db)
  {
    hide Inv, LastIndex, NewEntries, EntriesOf, Consecutive;
    WriterNeverFails(s, |s.db.queue|);
  }

  lemma RewriteMoves(s: System) returns (e: Event)
    requires Inv(s) && s.db.queue == [] && s.db.rewrite != Idle
    ensures Legal(s, e) && Step(s, e).Some? && SameWork(s, Step(s, e).value) && Closer(s.db, Step(s, e).value.db)
  {
    hide Inv, FirstToReplay, Infos, LastIndex;
    match s.db.rewrite
    case Writing(_) => e := RenameSnapshot;
    case Renamed(_) => e := LinkSnapshot;
    case Linked =>
      e := OpenSnapshot;
      CurrentThere(s);
    case Replaying(_, _, _) => e := ReplayMoves(s);
    case Done(_, _) =>
      e := Switch;
      hide Step;
      InvisibleSwitch(s);
    case Failed => e := DiscardRewrite;
  }

  lemma CurrentThere(s: System)
    requires Inv(s)
    ensures s.db.current in s.db.snapshots
  {
    hide Good, LiveOk, WalOk, SnapshotsOk, RewriteOk, PruneOk, StraysKept, LoadedOk;
  }

  lemma ReplayMoves(s: System) returns (e: Event)
    requires Inv(s) && s.db.queue == [] && s.db.rewrite.Replaying?
    ensures Legal(s, e) && Step(s, e).Some? && SameWork(s, Step(s, e).value) && Closer(s.db, Step(s, e).value.db)
  {
    hide Inv, FirstToReplay, Infos, LastIndex, Block, BlocksOf;
    ReplayNeverFails(s);
    if Step(s, FinishReplay).Some? {
      e := FinishReplay;
    } else {
      e := ReplayNext;
      ReplayKeepsInv(s);
      NextToReplay(s, s.db.rewrite.multi);
      NextToReplay(Step(s, ReplayNext).value, Step(s, ReplayNext).value.db.rewrite.multi);
    }
  }

  lemma NextToReplay(s: System, m: Multi)
    requires Inv(s) && s.db.rewrite.Replaying? && m == s.db.rewrite.multi
    ensures FirstToReplay(m) == BlocksOf(m.version, s.initial) + 1
  {
    hide Good, LiveOk, WalOk, SnapshotsOk, KeptOk, PruneOk, StraysKept, LoadedOk, At, BlocksOf, WalIndex;
    var n := BlocksOf(m.version, s.initial);
    AtKeeps(s.initial, s.log, n);
    VersionsCount(n, s.initial);
  }

  lemma {:induction false} Newest(versions: set<nat>) returns (v: nat)
    requires versions != {}
    ensures v in versions && forall w :: w in versions ==> w <= v
    decreases |versions|
  {
    var x: nat :| x in versions;
    var rest := versions - {x};
    assert versions == rest + {x};
    v := x;
    if rest != {} {
      var w := Newest(rest);
      if w > x { v := w; }
    }
  }

  lemma {:induction false} Oldest(versions: set<nat>) returns (v: nat)
    requires versions != {}
    ensures v in versions && forall w :: w in versions ==> v <= w
    decreases |versions|
  {
    var x: nat :| x in versions;
    var rest := versions - {x};
    assert versions == rest + {x};
    v := x;
    if rest != {} {
      var w := Oldest(rest);
      if w < x { v := w; }
    }
  }

  lemma {:induction false} Listing(versions: set<nat>) returns (listing: seq<nat>)
    ensures Descending(listing) && (forall v :: v in listing <==> v in versions) && |listing| == |versions|
    decreases |versions|
  {
    listing := [];
    if versions != {} {
      var v := Newest(versions);
      var rest := Listing(versions - {v});
      assert forall i :: 0 <= i < |rest| ==> rest[i] in rest;
      listing := [v] + rest;
    }
  }

  lemma PruningMoves(s: System) returns (e: Event)
    requires Inv(s) && s.db.queue == [] && s.db.rewrite == Idle && !OwnRest(s)
    ensures Legal(s, e) && Step(s, e).Some? && SameWork(s, Step(s, e).value) && Closer(s.db, Step(s, e).value.db)
  {
    hide Inv, Visit, Drops, Descending, TruncateFront, WalIndex, CloserStrays;
    match s.db.prune
    case Quiet => e := ReadLink;
    case Started => e := StopPrune;
    case LinkRead(_) =>
      var listing := Listing(s.db.snapshots.Keys);
      e := ListSnapshots(listing);
      assert (set v | v in listing) == s.db.snapshots.Keys;
      assert |s.db.snapshots.Keys| == |s.db.snapshots|;
    case Pruning(_, todo, _, _) =>
      if todo == [] {
        CurrentThere(s);
        var oldest := Oldest(s.db.snapshots.Keys);
        e := TruncateLog(oldest);
        assert IsOldest(s.db.snapshots, oldest);
      } else {
        e := PruneNext(true);
        VisitsOne(s.db.prune);
      }
  }

  lemma VisitsOne(p: Prune)
    requires p.Pruning? && p.todo != []
    ensures Visit(p).Pruning? && |Visit(p).todo| == |p.todo| - 1
  {
  }

  lemma StrayMoves(s: System, k: nat) returns (e: Event)
    requires Inv(s) && OwnRest(s) && k < |s.db.strays|
    requires s.db.strays[k] == Started || s.db.strays[k].LinkRead? || TodoOf(s.db.strays[k]) > 0
    ensures Legal(s, e) && Step(s, e).Some? && SameWork(s, Step(s, e).value) && Closer(s.db, Step(s, e).value.db)
  {
    hide Inv, Visit, Drops, Descending, Unlinked, Unlisted, Unvisited;
    match s.db.strays[k]
    case Started =>
      e := StrayLink(k);
      Counted(s.db.strays, k, LinkRead(s.db.current));
    case LinkRead(newest) =>
      var listing := Listing(s.db.snapshots.Keys);
      e := StrayList(k, listing);
      assert (set v | v in listing) == s.db.snapshots.Keys;
      Counted(s.db.strays, k, Pruning(newest, listing, s.db.keepRecent, 0));
    case Pruning(_, todo, _, _) =>
      e := StrayNext(k, true);
      VisitsOne(s.db.strays[k]);
      Counted(s.db.strays, k, Visit(s.db.strays[k]));
  }

  /** There is always a step of the background work that goes through. */
  lemma Moves(s: System) returns (e: Event)
    requires Inv(s) && !AtRest(s)
    ensures Legal(s, e) && Step(s, e).Some? && SameWork(s, Step(s, e).value) && Closer(s.db, Step(s, e).value.db)
  {
    hide Inv, Step, Closer, TodoOf;
    if s.db.queue != [] {
      WriterMoves(s);
      e := WriteBatch(|s.db.queue|);
    } else if s.db.rewrite != Idle {
      e := RewriteMoves(s);
    } else if !OwnRest(s) {
      e := PruningMoves(s);
    } else {
      var k :| 0 <= k < |s.db.strays|
        && (s.db.strays[k] == Started || s.db.strays[k].LinkRead? || TodoOf(s.db.strays[k]) > 0);
      e := StrayMoves(s, k);
    }
  }

  // ------------------------------------------------------------------ to the end

  /** A run that goes on from a state. */
  ghost function Onward(s: System, events: seq<Event>): Option<System>
    decreases |events|
  {
    if events == [] then Some(s)
    else if !Legal(s, events[0]) || Step(s, events[0]).None? then None
    else Onward(Step(s, events[0]).value, events[1..])
  }

  lemma {:induction false} Settles(s: System) returns (events: seq<Event>, t: System)
    requires Inv(s)
    ensures Onward(s, events) == Some(t) && AtRest(t) && SameWork(s, t)
    decreases |s.db.queue|, Phase(s.db.rewrite), ToReplay(s.db.rewrite), s.db.waiting, ToPrune(s.db),
      Unlinked(s.db.strays), Unlisted(s.db.strays), Unvisited(s.db.strays)
  {
    hide Inv, Step, Legal, Phase, ToReplay, ToPrune, Unlinked, Unlisted, Unvisited, Over;
    if AtRest(s) {
      events, t := [], s;
    } else {
      var e := Moves(s);
      StepKeeps(s, e);
      var next := Step(s, e).value;
      assert Closer(s.db, next.db);
      var more, u := Settles(next);
      events, t := [e] + more, u;
    }
  }

  lemma {:induction false} RunsOn(initial: Initial, keepRecent: nat, before: seq<Event>, s: System, more: seq<Event>)
    requires After(initial, keepRecent, before) == Some(s) && Onward(s, more).Some?
    ensures After(initial, keepRecent, before + more) == Onward(s, more)
    decreases |more|
  {
    hide Step, Legal;
    if more == [] {
      assert before + more == before;
    } else {
      var next := before + [more[0]];
      assert next[..|next| - 1] == before;
      RunsOn(initial, keepRecent, next, Step(s, more[0]).value, more[1..]);
      assert before + more == next + more[1..];
    }
  }

  /** Every run can go on, by background work alone, to where nothing is under way: the log has taken every block,
      the rewritten trees are in place, all prunings are over, those left over too, and neither the history nor the
      block under way has changed. */
  lemma EveryRunSettles(initial: Initial, keepRecent: nat, events: seq<Event>, s: System)
    returns (more: seq<Event>, t: System)
    requires After(initial, keepRecent, events) == Some(s)
    ensures After(initial, keepRecent, events + more) == Some(t) && AtRest(t) && SameWork(s, t)
    ensures LastIndex(t.db.wal) == |t.log|
  {
    hide Inv, Step, Legal, After, Onward, LastIndex;
    EveryRun(initial, keepRecent, events);
    more, t := Settles(s);
    RunsOn(initial, keepRecent, events, s, more);
    EveryRun(initial, keepRecent, events + more);
    LogDrained(t);
  }

  lemma LogDrained(t: System)
    requires Inv(t) && t.db.queue == []
    ensures LastIndex(t.db.wal) == |t.log|
  {
    hide LiveOk, SnapshotsOk, KeptOk, RewriteOk, PruneOk, StraysKept, LoadedOk, WalOk, Good, LastIndex;
    Drained(t.log, t.db.wal);
  }

  /** A block can always be committed, up to the largest version there is. */
  lemma CommitGoesThrough(initial: Initial, keepRecent: nat, events: seq<Event>, s: System)
    requires After(initial, keepRecent, events) == Some(s)
    ensures Step(s, Commit).Some? <==> NextVersion(s.db.live.version, s.initial) <= V.MAX_INT64
  {
    hide Legal, Infos, WalIndex, V.Valid, After;
    LiveTreesSound(initial, keepRecent, events, s);
    assert forall i :: 0 <= i < |s.db.live.trees| ==> s.db.live.trees[i] in s.db.live.trees;
  }
}
