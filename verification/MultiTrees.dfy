/** The named trees that make up one store of stores, and the replay of logged blocks onto them. */
module MultiTrees {
  import opened Bytes
  import opened Encoding
  import opened NameOrder
  import V = Versioned
  import Hashing

  /** Options bound the initial version by the largest signed 64-bit number. */
  type Initial = n: nat | n <= V.MAX_INT64

  datatype Named = Named(name: Bytes, tree: V.State)

  /** The trees at the last saved version, ordered by name. */
  datatype Multi = Multi(initialVersion: Initial, version: nat, trees: seq<Named>)

  /** One store's part of the commit info. */
  datatype Info = Info(name: Bytes, version: nat, hash: Bytes)

  /** Deletes a tree, renames one (when `renameFrom` is not empty), or adds an empty one. */
  datatype Upgrade = Upgrade(name: Bytes, renameFrom: Bytes, delete: bool)

  datatype Pair = Pair(delete: bool, key: Bytes, value: Option<Bytes>)

  datatype Changes = Changes(name: Bytes, pairs: seq<Pair>)

  /** What the log holds for one block. */
  datatype Entry = Entry(upgrades: seq<Upgrade>, changes: seq<Changes>)

  /** The write-ahead log: entries at indices first, first + 1, ...; an empty log starts at 1. */
  datatype Wal = Wal(first: nat, entries: seq<Entry>)

  const NO_CHANGES := Entry([], [])

  // ------------------------------------------------------------------ versions and log indices

  function NextVersion(version: nat, initial: nat): nat {
    if version == 0 && initial > 1 then initial else version + 1
  }

  /** The unsigned 64-bit subtraction wraps for a version before the initial one. */
  function WalIndex(version: nat, initial: Initial): nat {
    if initial <= 1 then version
    else if version + 1 < initial then version + 1 + TWO_64 - initial
    else version + 1 - initial
  }

  /** The subtraction of two unsigned 64-bit numbers. */
  lemma WalIndexWraps(version: nat, initial: Initial)
    requires version <= V.MAX_INT64
    ensures WalIndex(version, initial) == if initial > 1 then (version + 1 - initial) % TWO_64 else version
  {
  }

  function WalVersion(index: nat, initial: nat): nat {
    if initial > 1 then index + initial - 1 else index
  }

  function LastIndex(wal: Wal): nat {
    if wal.entries == [] then 0 else wal.first + |wal.entries| - 1
  }

  // ------------------------------------------------------------------ upgrades

  /** The first tree with a name, or -1. */
  function IndexOf(trees: seq<Named>, name: Bytes): (i: int)
    ensures -1 <= i < |trees|
    ensures i >= 0 ==> trees[i].name == name && forall j :: 0 <= j < i ==> trees[j].name != name
    ensures i < 0 ==> forall j :: 0 <= j < |trees| ==> trees[j].name != name
  {
    IndexFrom(trees, name, 0)
  }

  function IndexFrom(trees: seq<Named>, name: Bytes, from: nat): (i: int)
    requires from <= |trees|
    ensures i == -1 || from <= i < |trees|
    ensures i >= 0 ==> trees[i].name == name && forall j :: from <= j < i ==> trees[j].name != name
    ensures i < 0 ==> forall j :: from <= j < |trees| ==> trees[j].name != name
    decreases |trees| - from
  {
    if from == |trees| then -1
    else if trees[from].name == name then from
    else IndexFrom(trees, name, from + 1)
  }

  /** The version of a tree added while the given version is being built. */
  function NewTree(next: nat): V.State {
    V.State(if next <= 1 then 0 else next - 1, None)
  }

  /** One upgrade; a deleted tree is replaced by the last one. */
  function UpgradeOne(next: nat, trees: seq<Named>, u: Upgrade): Option<seq<Named>> {
    if u.delete then
      var i := IndexOf(trees, u.name);
      if i < 0 then None else Some(trees[i := trees[|trees| - 1]][..|trees| - 1])
    else if u.renameFrom != [] then
      var i := IndexOf(trees, u.renameFrom);
      if i < 0 then None else Some(trees[i := Named(u.name, trees[i].tree)])
    else
      Some(trees + [Named(u.name, NewTree(next))])
  }

  function UpgradeAll(next: nat, trees: seq<Named>, upgrades: seq<Upgrade>): Option<seq<Named>> {
    if upgrades == [] then Some(trees)
    else
      match UpgradeAll(next, trees, upgrades[..|upgrades| - 1])
      case None => None
      case Some(ts) => UpgradeOne(next, ts, upgrades[|upgrades| - 1])
  }

  function NameOf(t: Named): Bytes { t.name }

  /** Upgrades fail on an unknown name, or when two trees end up with the same name. */
  function Upgraded(m: Multi, upgrades: seq<Upgrade>): Option<Multi> {
    if upgrades == [] then Some(m)
    else
      match UpgradeAll(NextVersion(m.version, m.initialVersion), m.trees, upgrades)
      case None => None
      case Some(ts) => if Distinct(NameOf, Sort(NameOf, ts)) then Some(m.(trees := Sort(NameOf, ts))) else None
  }

  // ------------------------------------------------------------------ change sets

  function ApplyPair(s: V.State, pair: Pair): V.State {
    if pair.delete then V.Delete(s, pair.key) else V.Put(s, pair.key, V.Normalise(pair.value))
  }

  function ApplyPairs(s: V.State, pairs: seq<Pair>): V.State {
    if pairs == [] then s else ApplyPair(ApplyPairs(s, pairs[..|pairs| - 1]), pairs[|pairs| - 1])
  }

  function ApplyChange(trees: seq<Named>, change: Changes): Option<seq<Named>> {
    var i := IndexOf(trees, change.name);
    if i < 0 then None
    else Some(trees[i := Named(trees[i].name, ApplyPairs(trees[i].tree, change.pairs))])
  }

  function ApplyChanges(trees: seq<Named>, changes: seq<Changes>): Option<seq<Named>> {
    if changes == [] then Some(trees)
    else
      match ApplyChanges(trees, changes[..|changes| - 1])
      case None => None
      case Some(ts) => ApplyChange(ts, changes[|changes| - 1])
  }

  /** Replay order: a block's upgrades come before its changes. */
  function ApplyEntry(m: Multi, entry: Entry): Option<Multi> {
    match Upgraded(m, entry.upgrades)
    case None => None
    case Some(n) =>
      match ApplyChanges(n.trees, entry.changes)
      case None => None
      case Some(ts) => Some(n.(trees := ts))
  }

  // ------------------------------------------------------------------ commits

  predicate CanSave(trees: seq<Named>) {
    forall i :: 0 <= i < |trees| ==> trees[i].tree.version + 1 <= V.MAX_INT64
  }

  function SaveTrees(trees: seq<Named>): (r: seq<Named>)
    ensures |r| == |trees|
    ensures forall i :: 0 <= i < |trees| ==> r[i] == Named(trees[i].name, V.SaveVersion(trees[i].tree))
  {
    if trees == [] then []
    else
      var last := trees[|trees| - 1];
      SaveTrees(trees[..|trees| - 1]) + [Named(last.name, V.SaveVersion(last.tree))]
  }

  function Save(m: Multi): Option<Multi> {
    if !CanSave(m.trees) then None
    else Some(Multi(m.initialVersion, NextVersion(m.version, m.initialVersion), SaveTrees(m.trees)))
  }

  function Infos(trees: seq<Named>): (r: seq<Info>)
    ensures |r| == |trees|
    ensures forall i :: 0 <= i < |trees| ==>
      r[i] == Info(trees[i].name, trees[i].tree.version, Hashing.RootHash(trees[i].tree.root))
  {
    if trees == [] then []
    else
      var last := trees[|trees| - 1];
      Infos(trees[..|trees| - 1]) + [Info(last.name, last.tree.version, Hashing.RootHash(last.tree.root))]
  }

  /** One block: its entry, then a saved version. */
  function Block(m: Multi, entry: Entry): Option<Multi> {
    match ApplyEntry(m, entry)
    case None => None
    case Some(n) => Save(n)
  }

  function Replay(m: Multi, log: seq<Entry>): Option<Multi> {
    if log == [] then Some(m)
    else
      match Replay(m, log[..|log| - 1])
      case None => None
      case Some(n) => Block(n, log[|log| - 1])
  }

  function FirstToReplay(m: Multi): nat {
    WalIndex(NextVersion(m.version, m.initialVersion), m.initialVersion)
  }

  function LastToReplay(m: Multi, wal: Wal, target: nat): nat {
    if target == 0 || WalIndex(target, m.initialVersion) > LastIndex(wal) then LastIndex(wal)
    else WalIndex(target, m.initialVersion)
  }

  /** The entries at the given indices. */
  function Span(wal: Wal, first: nat, last: nat): seq<Entry>
    requires wal.first <= first <= last <= LastIndex(wal) && wal.entries != []
  {
    wal.entries[first - wal.first..last + 1 - wal.first]
  }

  /** Catching up with the log to a target version, or to its end for target 0: nothing to do when
      the log ends before the next version; an error when the target lies behind, when an entry
      cannot be read, or when one cannot be replayed. */
  function CatchUp(m: Multi, wal: Wal, target: nat): Option<Multi> {
    var first, last := FirstToReplay(m), LastToReplay(m, wal, target);
    if first > LastIndex(wal) then Some(m)
    else if last < first || first < wal.first || wal.entries == [] then None
    else Replay(m, Span(wal, first, last))
  }

  // ------------------------------------------------------------------ properties of the order

  lemma {:induction false} ChangesKeepNames(trees: seq<Named>, changes: seq<Changes>)
    requires ApplyChanges(trees, changes).Some?
    ensures |ApplyChanges(trees, changes).value| == |trees|
    ensures forall i :: 0 <= i < |trees| ==> ApplyChanges(trees, changes).value[i].name == trees[i].name
  {
    hide ApplyPairs;
    if changes != [] { ChangesKeepNames(trees, changes[..|changes| - 1]); }
  }

  lemma UpgradesAscend(m: Multi, upgrades: seq<Upgrade>)
    requires Ascending(NameOf, m.trees) && Upgraded(m, upgrades).Some?
    ensures Ascending(NameOf, Upgraded(m, upgrades).value.trees)
  {
    hide UpgradeAll, Sort, NextVersion;
    if upgrades != [] {
      SortOrders(NameOf, UpgradeAll(NextVersion(m.version, m.initialVersion), m.trees, upgrades).value);
    }
  }

  lemma EntryAscends(m: Multi, entry: Entry)
    requires Ascending(NameOf, m.trees) && ApplyEntry(m, entry).Some?
    ensures Ascending(NameOf, ApplyEntry(m, entry).value.trees)
  {
    hide Upgraded, ApplyChanges;
    UpgradesAscend(m, entry.upgrades);
    ChangesKeepNames(Upgraded(m, entry.upgrades).value.trees, entry.changes);
  }

  /** What a list of upgrades that failed leaves: the trees as of the first upgrade that names an unknown
      one, or all upgrades done and a name that two trees share. */
  ghost predicate FailedUpgrades(next: nat, before: seq<Named>, upgrades: seq<Upgrade>, trees: seq<Named>) {
    || (exists n :: 0 <= n < |upgrades| && UpgradeAll(next, before, upgrades[..n]) == Some(trees)
          && UpgradeOne(next, trees, upgrades[n]).None?)
    || (UpgradeAll(next, before, upgrades).Some? && trees == Sort(NameOf, UpgradeAll(next, before, upgrades).value)
        && !Distinct(NameOf, trees))
  }

  /** What change sets that failed leave: those before the first one of an unknown store are applied. */
  ghost predicate FailedChanges(before: seq<Named>, changes: seq<Changes>, trees: seq<Named>) {
    exists n :: 0 <= n < |changes| && ApplyChanges(before, changes[..n]) == Some(trees)
      && IndexOf(trees, changes[n].name) < 0
  }

  // ------------------------------------------------------------------ the object

  class MultiTree {
    const initialVersion: Initial
    var version: nat
    var infos: seq<Info>
    var trees: seq<Named>
    var byName: map<Bytes, nat>

    ghost predicate Valid()
      reads this
    {
      Ascending(NameOf, trees) && Indexed(trees, byName)
    }

    ghost function Value(): Multi
      reads this
    {
      Multi(initialVersion, version, trees)
    }

    constructor (m: Multi, infos: seq<Info>)
      requires Ascending(NameOf, m.trees)
      ensures Valid() && Value() == m && this.infos == infos
    {
      initialVersion, version, trees := m.initialVersion, m.version, m.trees;
      this.infos := infos;
      byName := map[];
      new;
      var ok := Reindex();
      AscendingDistinct(NameOf, trees);
    }

    /** Rebuilds the name index; refuses a name that occurs twice. */
    method Reindex() returns (ok: bool)
      modifies this`byName
      ensures ok == Distinct(NameOf, trees)
      ensures ok ==> Indexed(trees, byName)
    {
      byName := map[];
      for i := 0 to |trees|
        invariant Distinct(NameOf, trees[..i]) && Indexed(trees[..i], byName)
      {
        if trees[i].name in byName {
          assert exists j :: 0 <= j < i && trees[..i][j].name == trees[i].name;
          return false;
        }
        assert trees[..i + 1] == trees[..i] + [trees[i]];
        byName := byName[trees[i].name := i];
      }
      assert trees[..|trees|] == trees;
      return true;
    }

    method ApplyUpgrades(upgrades: seq<Upgrade>) returns (ok: bool)
      requires Valid()
      modifies this`trees, this`byName
      ensures ok == Upgraded(old(Value()), upgrades).Some?
      ensures ok ==> Valid() && Value() == Upgraded(old(Value()), upgrades).value
      ensures !ok ==> FailedUpgrades(NextVersion(version, initialVersion), old(trees), upgrades, trees)
    {
      hide UpgradeOne, Sort;
      if upgrades == [] { return true; }
      var next := NextVersion(version, initialVersion);
      byName := map[];
      assert upgrades[..0] == [];
      for i := 0 to |upgrades|
        invariant UpgradeAll(next, old(trees), upgrades[..i]) == Some(trees)
      {
        assert upgrades[..i + 1][..i] == upgrades[..i];
        var r := UpgradeOne(next, trees, upgrades[i]);
        if r.None? {
          UpgradeStuck(next, old(trees), upgrades, i + 1);
          return false;
        }
        trees := r.value;
      }
      assert upgrades[..|upgrades|] == upgrades;
      ghost var unsorted := trees;
      trees := Sort(NameOf, trees);
      ok := Reindex();
      SortOrders(NameOf, unsorted);
    }

    /** Change sets are applied store by store, in order; an unknown store is an error. */
    method ApplyChangeSets(changes: seq<Changes>) returns (ok: bool)
      requires Valid()
      modifies this`trees
      ensures ok == ApplyChanges(old(trees), changes).Some?
      ensures ok ==> Valid() && Some(trees) == ApplyChanges(old(trees), changes)
      ensures !ok ==> Valid() && FailedChanges(old(trees), changes, trees)
    {
      hide ApplyPairs;
      assert changes[..0] == [];
      for i := 0 to |changes|
        invariant Valid() && ApplyChanges(old(trees), changes[..i]) == Some(trees)
      {
        assert changes[..i + 1][..i] == changes[..i];
        var change := changes[i];
        if change.name !in byName {
          ChangesStuck(old(trees), changes, i + 1);
          return false;
        }
        var at := byName[change.name];
        FoundAt(trees, at);
        trees := trees[at := Named(change.name, ApplyPairs(trees[at].tree, change.pairs))];
      }
      assert changes[..|changes|] == changes;
      return true;
    }

    method ApplyWalEntry(entry: Entry) returns (ok: bool)
      requires Valid()
      modifies this`trees, this`byName
      ensures ok == ApplyEntry(old(Value()), entry).Some?
      ensures ok ==> Valid() && Some(Value()) == ApplyEntry(old(Value()), entry)
    {
      hide Upgraded, ApplyChanges;
      ok := ApplyUpgrades(entry.upgrades);
      if ok { ok := ApplyChangeSets(entry.changes); }
    }

    /** Saves every tree; stops at one whose version cannot grow. */
    method SaveAll() returns (ok: bool)
      requires Ascending(NameOf, trees) && Indexed(trees, byName)
      modifies this`trees
      ensures ok == CanSave(old(trees))
      ensures ok ==> trees == SaveTrees(old(trees)) && Ascending(NameOf, trees) && Indexed(trees, byName)
    {
      hide V.SaveVersion, Less;
      for i := 0 to |trees|
        invariant |trees| == |old(trees)|
        invariant forall j :: 0 <= j < i ==> old(trees)[j].tree.version + 1 <= V.MAX_INT64
        invariant forall j :: 0 <= j < i ==>
          trees[j] == Named(old(trees)[j].name, V.SaveVersion(old(trees)[j].tree))
        invariant forall j :: i <= j < |trees| ==> trees[j] == old(trees)[j]
      {
        var t := trees[i];
        if t.tree.version + 1 > V.MAX_INT64 { return false; }
        trees := trees[i := Named(t.name, V.SaveVersion(t.tree))];
      }
      return true;
    }

    method SaveVersion(updateCommitInfo: bool) returns (ok: bool)
      requires Valid()
      modifies this`version, this`trees, this`infos
      ensures ok == Save(old(Value())).Some?
      ensures ok ==> Valid() && Some(Value()) == Save(old(Value()))
      ensures ok ==> infos == if updateCommitInfo then Infos(trees) else []
    {
      hide Infos, SaveTrees, CanSave, Less, Ascending, Indexed;
      version := NextVersion(version, initialVersion);
      ok := SaveAll();
      if !ok { return; }
      if updateCommitInfo { UpdateCommitInfo(); } else { infos := []; }
    }

    method UpdateCommitInfo()
      modifies this`infos
      ensures infos == Infos(trees)
    {
      hide Hashing.RootHash;
      infos := [];
      for i := 0 to |trees|
        invariant infos == Infos(trees[..i])
      {
        assert trees[..i + 1][..i] == trees[..i];
        var t := trees[i];
        infos := infos + [Info(t.name, t.tree.version, Hashing.RootHash(t.tree.root))];
      }
      assert trees[..|trees|] == trees;
    }

    /** Applies and saves logged blocks one after the other. */
    method ReplayEntries(log: seq<Entry>) returns (ok: bool)
      requires Valid()
      modifies this
      ensures ok == Replay(old(Value()), log).Some?
      ensures ok ==> Valid() && Some(Value()) == Replay(old(Value()), log)
    {
      hide ApplyEntry, Save, Ascending, Indexed;
      assert log[..0] == [];
      for i := 0 to |log|
        invariant Valid() && Replay(old(Value()), log[..i]) == Some(Value())
      {
        assert log[..i + 1][..i] == log[..i];
        ok := ApplyWalEntry(log[i]);
        if ok { ok := SaveVersion(false); }
        if !ok {
          ReplayStuck(old(Value()), log, i + 1);
          return;
        }
      }
      assert log[..|log|] == log;
      return true;
    }

    /** Replays the log up to the target version (to its end for target 0). */
    method CatchupWal(wal: Wal, target: nat) returns (ok: bool)
      requires Valid()
      modifies this
      ensures ok == CatchUp(old(Value()), wal, target).Some?
      ensures ok ==> Valid() && Some(Value()) == CatchUp(old(Value()), wal, target)
      ensures ok && FirstToReplay(old(Value())) <= LastIndex(wal) ==> infos == Infos(trees)
      ensures ok && FirstToReplay(old(Value())) > LastIndex(wal) ==> infos == old(infos)
    {
      hide Replay, WalIndex, NextVersion, Infos, Ascending, Indexed, Span, LastIndex;
      var first := WalIndex(NextVersion(version, initialVersion), initialVersion);
      if first > LastIndex(wal) { return true; }
      var last := if target == 0 then LastIndex(wal) else WalIndex(target, initialVersion);
      if last < first { return false; }
      if last > LastIndex(wal) { last := LastIndex(wal); }
      if first < wal.first || wal.entries == [] { return false; }
      ok := ReplayEntries(Span(wal, first, last));
      if ok { UpdateCommitInfo(); }
    }
  }

  ghost predicate Indexed(trees: seq<Named>, byName: map<Bytes, nat>) {
    && (forall i :: 0 <= i < |trees| ==> trees[i].name in byName && byName[trees[i].name] == i)
    && (forall name :: name in byName ==> byName[name] < |trees| && trees[byName[name]].name == name)
  }

  lemma FoundAt(trees: seq<Named>, at: nat)
    requires Ascending(NameOf, trees) && at < |trees|
    ensures IndexOf(trees, trees[at].name) == at
  {
    AscendingDistinct(NameOf, trees);
  }

  lemma {:induction false} UpgradeStuck(next: nat, trees: seq<Named>, upgrades: seq<Upgrade>, n: nat)
    requires n <= |upgrades| && UpgradeAll(next, trees, upgrades[..n]).None?
    ensures UpgradeAll(next, trees, upgrades).None?
    decreases |upgrades| - n
  {
    hide UpgradeOne;
    if n < |upgrades| {
      assert upgrades[..n + 1][..n] == upgrades[..n];
      UpgradeStuck(next, trees, upgrades, n + 1);
    } else {
      assert upgrades[..n] == upgrades;
    }
  }

  lemma {:induction false} ChangesStuck(trees: seq<Named>, changes: seq<Changes>, n: nat)
    requires n <= |changes| && ApplyChanges(trees, changes[..n]).None?
    ensures ApplyChanges(trees, changes).None?
    decreases |changes| - n
  {
    hide ApplyChange;
    if n < |changes| {
      assert changes[..n + 1][..n] == changes[..n];
      ChangesStuck(trees, changes, n + 1);
    } else {
      assert changes[..n] == changes;
    }
  }

  lemma {:induction false} ReplayStuck(m: Multi, log: seq<Entry>, n: nat)
    requires n <= |log| && Replay(m, log[..n]).None?
    ensures Replay(m, log).None?
    decreases |log| - n
  {
    hide Block;
    if n < |log| {
      assert log[..n + 1][..n] == log[..n];
      ReplayStuck(m, log, n + 1);
    } else {
      assert log[..n] == log;
    }
  }
}
