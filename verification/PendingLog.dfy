/** The log entry collected during a block, and when replaying it gives the live trees. */
module PendingLog {
  import opened Bytes
  import opened NameOrder
  import opened MultiTrees
  import A = Avl
  import V = Versioned

  function StoreOf(c: Changes): Bytes { c.name }

  // ------------------------------------------------------------------ merging change sets

  /** The first change set of a store, or -1. */
  function FirstOf(changes: seq<Changes>, name: Bytes, from: nat := 0): (i: int)
    requires from <= |changes|
    ensures i == -1 || from <= i < |changes|
    ensures i >= 0 ==> changes[i].name == name && forall j :: from <= j < i ==> changes[j].name != name
    ensures i < 0 ==> forall j :: from <= j < |changes| ==> changes[j].name != name
    decreases |changes| - from
  {
    if from == |changes| then -1
    else if changes[from].name == name then from
    else FirstOf(changes, name, from + 1)
  }

  /** More pairs for a store join its first change set, or start a new one in name order. */
  function Merge(changes: seq<Changes>, name: Bytes, pairs: seq<Pair>): seq<Changes> {
    var i := FirstOf(changes, name);
    if i >= 0 then changes[i := Changes(name, changes[i].pairs + pairs)]
    else Sort(StoreOf, changes + [Changes(name, pairs)])
  }

  method MergeInto(changes: seq<Changes>, name: Bytes, pairs: seq<Pair>) returns (r: seq<Changes>)
    ensures r == Merge(changes, name, pairs)
  {
    for i := 0 to |changes|
      invariant forall j :: 0 <= j < i ==> changes[j].name != name
    {
      if changes[i].name == name {
        return changes[i := Changes(name, changes[i].pairs + pairs)];
      }
    }
    return Sort(StoreOf, changes + [Changes(name, pairs)]);
  }

  /** All pairs logged for a store, in replay order. */
  function PairsFor(changes: seq<Changes>, name: Bytes): seq<Pair> {
    if changes == [] then []
    else PairsFor(changes[..|changes| - 1], name) + PairsIn(changes[|changes| - 1], name)
  }

  function PairsIn(change: Changes, name: Bytes): seq<Pair> {
    if change.name == name then change.pairs else []
  }

  lemma {:induction false} PairsForConcat(a: seq<Changes>, b: seq<Changes>, name: Bytes)
    ensures PairsFor(a + b, name) == PairsFor(a, name) + PairsFor(b, name)
  {
    if b == [] {
      assert a + b == a;
    } else {
      PairsForConcat(a, b[..|b| - 1], name);
      assert (a + b)[..|a + b| - 1] == a + b[..|b| - 1];
    }
  }

  lemma PairsForOne(c: Changes, name: Bytes)
    ensures PairsFor([c], name) == PairsIn(c, name)
  {
    assert [c][..0] == [];
  }

  /** A stable sort does not reorder what one store sees. */
  lemma {:induction false} InsertKeepsPairs(changes: seq<Changes>, c: Changes, name: Bytes)
    ensures PairsFor(Insert(StoreOf, changes, c), name) == PairsFor(changes, name) + PairsIn(c, name)
  {
    if changes == [] || AtMost(changes[|changes| - 1].name, c.name) {
      PairsForConcat(changes, [c], name);
      PairsForOne(c, name);
    } else {
      var front, last := changes[..|changes| - 1], changes[|changes| - 1];
      InsertKeepsPairs(front, c, name);
      PairsForConcat(Insert(StoreOf, front, c), [last], name);
      PairsForOne(last, name);
    }
  }

  lemma {:induction false} SortKeepsPairs(changes: seq<Changes>, name: Bytes)
    ensures PairsFor(Sort(StoreOf, changes), name) == PairsFor(changes, name)
  {
    hide Insert;
    if changes != [] {
      SortKeepsPairs(changes[..|changes| - 1], name);
      InsertKeepsPairs(Sort(StoreOf, changes[..|changes| - 1]), changes[|changes| - 1], name);
    }
  }

  /** What the code appends for a store lands before any later change set of the same store. */
  lemma MergeAdds(changes: seq<Changes>, name: Bytes, pairs: seq<Pair>, other: Bytes)
    ensures var i := FirstOf(changes, name);
      PairsFor(Merge(changes, name, pairs), other) ==
        if i >= 0 && other == name
        then PairsFor(changes[..i + 1], name) + pairs + PairsFor(changes[i + 1..], name)
        else PairsFor(changes, other) + PairsIn(Changes(name, pairs), other)
  {
    hide Sort, PairsFor;
    var i := FirstOf(changes, name);
    var more := Changes(name, pairs);
    if i < 0 {
      SortKeepsPairs(changes + [more], other);
      PairsForConcat(changes, [more], other);
      PairsForOne(more, other);
    } else {
      var merged := Changes(name, changes[i].pairs + pairs);
      var before, after := changes[..i], changes[i + 1..];
      assert changes == before + [changes[i]] + after;
      assert changes[i := merged] == before + [merged] + after;
      PairsForSplit(before, changes[i], after, other);
      PairsForSplit(before, merged, after, other);
      assert changes[..i + 1] == before + [changes[i]];
      PairsForConcat(before, [changes[i]], other);
      PairsForOne(changes[i], other);
    }
  }

  lemma PairsForSplit(before: seq<Changes>, c: Changes, after: seq<Changes>, name: Bytes)
    ensures PairsFor(before + [c] + after, name)
         == PairsFor(before, name) + PairsIn(c, name) + PairsFor(after, name)
  {
    hide PairsFor;
    PairsForConcat(before + [c], after, name);
    PairsForConcat(before, [c], name);
    PairsForOne(c, name);
  }

  /** Pairs that reach a store last are also replayed last. */
  ghost predicate KeepsOrder(changes: seq<Changes>, name: Bytes, pairs: seq<Pair>, other: Bytes) {
    PairsFor(Merge(changes, name, pairs), other)
      == PairsFor(changes, other) + PairsIn(Changes(name, pairs), other)
  }

  /** The store has no pairs after its first change set. */
  predicate LogsOnce(changes: seq<Changes>, name: Bytes) {
    FirstOf(changes, name) < 0 || PairsFor(changes[FirstOf(changes, name) + 1..], name) == []
  }

  lemma OnceKeepsOrder(changes: seq<Changes>, name: Bytes, pairs: seq<Pair>, other: Bytes)
    requires LogsOnce(changes, name)
    ensures KeepsOrder(changes, name, pairs, other)
  {
    hide PairsFor, Merge;
    MergeAdds(changes, name, pairs, other);
    var i := FirstOf(changes, name);
    if i >= 0 && other == name {
      assert changes == changes[..i + 1] + changes[i + 1..];
      PairsForConcat(changes[..i + 1], changes[i + 1..], name);
    }
  }

  // ------------------------------------------------------------------ sound trees

  /** Every tree is a well-formed search tree, one save away from the version being built. */
  ghost predicate Sound(next: nat, trees: seq<Named>) {
    forall t :: t in trees ==> V.Valid(t.tree) && t.tree.version + 1 == next
  }

  lemma {:induction false} PairsSound(s: V.State, pairs: seq<Pair>)
    requires V.Valid(s)
    ensures V.Valid(ApplyPairs(s, pairs)) && ApplyPairs(s, pairs).version == s.version
  {
    hide V.Put, V.Delete, V.Valid;
    if pairs != [] {
      var front, last := pairs[..|pairs| - 1], pairs[|pairs| - 1];
      PairsSound(s, front);
      var before := ApplyPairs(s, front);
      if last.delete {
        V.DeleteKeeps(before, last.key);
      } else {
        V.PutKeeps(before, last.key, V.Normalise(last.value));
      }
    }
  }

  // ------------------------------------------------------------------ replaying merged changes

  lemma {:induction false} PairsConcat(s: V.State, a: seq<Pair>, b: seq<Pair>)
    ensures ApplyPairs(s, a + b) == ApplyPairs(ApplyPairs(s, a), b)
  {
    hide ApplyPair;
    if b == [] {
      assert a + b == a;
    } else {
      PairsConcat(s, a, b[..|b| - 1]);
      assert (a + b)[..|a + b| - 1] == a + b[..|b| - 1];
    }
  }

  predicate Known(trees: seq<Named>, changes: seq<Changes>) {
    forall i :: 0 <= i < |changes| ==> IndexOf(trees, changes[i].name) >= 0
  }

  /** Each tree runs the pairs logged under its name. */
  ghost predicate RunsPairs(trees: seq<Named>, changes: seq<Changes>, r: seq<Named>) {
    && |r| == |trees|
    && forall i :: 0 <= i < |trees| ==>
      r[i] == Named(trees[i].name, ApplyPairs(trees[i].tree, PairsFor(changes, trees[i].name)))
  }

  lemma RunsMore(trees: seq<Named>, changes: seq<Changes>, before: seq<Named>, after: seq<Named>)
    requires changes != [] && Distinct(NameOf, trees)
    requires RunsPairs(trees, changes[..|changes| - 1], before)
    requires ApplyChange(before, changes[|changes| - 1]) == Some(after)
    ensures RunsPairs(trees, changes, after)
  {
    hide ApplyPairs;
    var front, last := changes[..|changes| - 1], changes[|changes| - 1];
    var at := IndexOf(before, last.name);
    forall i | 0 <= i < |trees|
      ensures after[i] == Named(trees[i].name, ApplyPairs(trees[i].tree, PairsFor(changes, trees[i].name)))
    {
      if i == at {
        PairsConcat(trees[at].tree, PairsFor(front, last.name), last.pairs);
      } else {
        assert trees[i].name != trees[at].name;
        assert PairsFor(changes, trees[i].name) == PairsFor(front, trees[i].name);
      }
    }
  }

  /** Change sets succeed exactly on known stores, and stores do not see each other's pairs. */
  lemma {:induction false} ChangesByStore(trees: seq<Named>, changes: seq<Changes>)
    requires Distinct(NameOf, trees)
    ensures ApplyChanges(trees, changes).Some? <==> Known(trees, changes)
    ensures ApplyChanges(trees, changes).Some? ==> RunsPairs(trees, changes, ApplyChanges(trees, changes).value)
  {
    hide ApplyPairs, PairsFor, ApplyChange, RunsPairs;
    if changes == [] {
      RunsNone(trees);
    } else {
      var front, last := changes[..|changes| - 1], changes[|changes| - 1];
      ChangesByStore(trees, front);
      var before := ApplyChanges(trees, front);
      if before.Some? {
        RunsSameNames(trees, front, before.value);
        SameNames(trees, before.value, last.name);
        ChangeKnown(before.value, last);
        if IndexOf(trees, last.name) >= 0 {
          RunsMore(trees, changes, before.value, ApplyChanges(trees, changes).value);
        }
      }
      assert Known(trees, changes) <==> Known(trees, front) && IndexOf(trees, last.name) >= 0;
    }
  }

  lemma ChangeKnown(trees: seq<Named>, change: Changes)
    ensures ApplyChange(trees, change).Some? <==> IndexOf(trees, change.name) >= 0
  {
  }

  lemma RunsNone(trees: seq<Named>)
    ensures RunsPairs(trees, [], trees)
  {
  }

  lemma RunsSameNames(trees: seq<Named>, changes: seq<Changes>, r: seq<Named>)
    requires RunsPairs(trees, changes, r)
    ensures |r| == |trees| && forall i :: 0 <= i < |trees| ==> trees[i].name == r[i].name
  {
  }

  lemma SameNames(a: seq<Named>, b: seq<Named>, name: Bytes)
    requires Distinct(NameOf, a) && |a| == |b| && forall i :: 0 <= i < |a| ==> a[i].name == b[i].name
    ensures IndexOf(a, name) == IndexOf(b, name)
  {
  }

  /** Applying further pairs to the live trees is replaying the merged log from the start. */
  lemma MergeReplays(trees: seq<Named>, changes: seq<Changes>, name: Bytes, pairs: seq<Pair>)
    requires Distinct(NameOf, trees) && ApplyChanges(trees, changes).Some? && LogsOnce(changes, name)
    ensures ApplyChanges(trees, Merge(changes, name, pairs))
         == ApplyChange(ApplyChanges(trees, changes).value, Changes(name, pairs))
  {
    hide ApplyChanges, Merge, LogsOnce, Known, ApplyPairs, PairsFor;
    var merged := Merge(changes, name, pairs);
    var live := ApplyChanges(trees, changes).value;
    ChangesByStore(trees, changes);
    ChangesByStore(trees, merged);
    SameNames(trees, live, name);
    MergeKnown(trees, changes, name, pairs);
    var at := IndexOf(trees, name);
    if at >= 0 {
      forall i | 0 <= i < |trees| ensures KeepsOrder(changes, name, pairs, trees[i].name) {
        OnceKeepsOrder(changes, name, pairs, trees[i].name);
      }
      PairsConcat(trees[at].tree, PairsFor(changes, name), pairs);
      var r := ApplyChanges(trees, merged).value;
      forall i | 0 <= i < |trees| ensures r[i] == ApplyChange(live, Changes(name, pairs)).value[i] {
        assert KeepsOrder(changes, name, pairs, trees[i].name);
        if i != at { assert PairsFor(merged, trees[i].name) == PairsFor(changes, trees[i].name); }
      }
      assert r == ApplyChange(live, Changes(name, pairs)).value;
    }
  }

  lemma MergeKnown(trees: seq<Named>, changes: seq<Changes>, name: Bytes, pairs: seq<Pair>)
    requires Known(trees, changes)
    ensures Known(trees, Merge(changes, name, pairs)) <==> IndexOf(trees, name) >= 0
  {
    var more := Changes(name, pairs);
    var merged := Merge(changes, name, pairs);
    hide Sort;
    if FirstOf(changes, name) < 0 {
      SortOrders(StoreOf, changes + [more]);
      assert more in changes + [more];
      forall i | 0 <= i < |merged| && IndexOf(trees, name) >= 0 ensures IndexOf(trees, merged[i].name) >= 0 {
        assert merged[i] in changes + [more];
      }
    } else {
      assert forall i :: 0 <= i < |merged| ==> merged[i].name == changes[i].name;
    }
  }

  lemma {:induction false} PairsOfOthers(changes: seq<Changes>, name: Bytes)
    requires forall i :: 0 <= i < |changes| ==> changes[i].name != name
    ensures PairsFor(changes, name) == []
  {
    if changes != [] { PairsOfOthers(changes[..|changes| - 1], name); }
  }

  /** The pairs of a store's first change set. */
  function FirstPairs(changes: seq<Changes>, name: Bytes): seq<Pair> {
    var i := FirstOf(changes, name);
    if i < 0 then [] else changes[i].pairs
  }

  lemma OnceIsFirst(changes: seq<Changes>, name: Bytes)
    ensures LogsOnce(changes, name) <==> PairsFor(changes, name) == FirstPairs(changes, name)
  {
    hide PairsFor;
    var i := FirstOf(changes, name);
    if i < 0 {
      PairsOfOthers(changes, name);
    } else {
      var before, after := changes[..i], changes[i + 1..];
      assert changes == before + [changes[i]] + after;
      PairsForSplit(before, changes[i], after, name);
      PairsOfOthers(before, name);
    }
  }

  lemma FirstAppended(changes: seq<Changes>, c: Changes, name: Bytes)
    ensures FirstOf(changes + [c], name) >= 0 <==> FirstOf(changes, name) >= 0 || c.name == name
    ensures FirstPairs(changes + [c], name)
         == if FirstOf(changes, name) >= 0 then FirstPairs(changes, name) else PairsIn(c, name)
  {
    var r, i := changes + [c], FirstOf(changes, name);
    assert r[|changes|] == c;
    if i >= 0 { assert r[i] == changes[i]; }
    assert forall j :: 0 <= j < |changes| ==> r[j] == changes[j];
  }

  lemma {:induction false} InsertKeepsFirst(changes: seq<Changes>, c: Changes, name: Bytes)
    ensures var r := Insert(StoreOf, changes, c);
      && (FirstOf(r, name) >= 0 <==> FirstOf(changes + [c], name) >= 0)
      && FirstPairs(r, name) == FirstPairs(changes + [c], name)
  {
    hide FirstPairs, FirstOf;
    if changes != [] && !AtMost(changes[|changes| - 1].name, c.name) {
      var front, last := changes[..|changes| - 1], changes[|changes| - 1];
      InsertKeepsFirst(front, c, name);
      FirstAppended(Insert(StoreOf, front, c), last, name);
      FirstAppended(front, c, name);
      FirstAppended(front, last, name);
      FirstAppended(changes, c, name);
      assert changes == front + [last];
    }
  }

  lemma {:induction false} SortKeepsFirst(changes: seq<Changes>, name: Bytes)
    ensures var r := Sort(StoreOf, changes);
      && (FirstOf(r, name) >= 0 <==> FirstOf(changes, name) >= 0)
      && FirstPairs(r, name) == FirstPairs(changes, name)
  {
    hide FirstPairs, FirstOf, Insert;
    if changes != [] {
      var front, last := changes[..|changes| - 1], changes[|changes| - 1];
      SortKeepsFirst(front, name);
      InsertKeepsFirst(Sort(StoreOf, front), last, name);
      FirstAppended(Sort(StoreOf, front), last, name);
      FirstAppended(front, last, name);
      assert changes == front + [last];
    }
  }

  /** Merging into a store's only change set leaves every store that was logged once logged once. */
  lemma MergeLogsOnce(changes: seq<Changes>, name: Bytes, pairs: seq<Pair>, other: Bytes)
    requires LogsOnce(changes, name) && LogsOnce(changes, other)
    ensures LogsOnce(Merge(changes, name, pairs), other)
  {
    hide PairsFor, LogsOnce, Sort;
    var merged, more := Merge(changes, name, pairs), Changes(name, pairs);
    OnceIsFirst(changes, other);
    OnceIsFirst(merged, other);
    OnceKeepsOrder(changes, name, pairs, other);
    var i := FirstOf(changes, name);
    if i < 0 {
      SortKeepsFirst(changes + [more], other);
      FirstAppended(changes, more, other);
      if other == name { PairsOfOthers(changes, other); }
    } else {
      FirstReplaced(changes, i, Changes(name, changes[i].pairs + pairs), other);
    }
  }

  lemma FirstReplaced(changes: seq<Changes>, i: nat, c: Changes, name: Bytes)
    requires i < |changes| && c.name == changes[i].name
    ensures FirstOf(changes[i := c], name) == FirstOf(changes, name)
  {
    var r := changes[i := c];
    assert forall j :: 0 <= j < |changes| ==> r[j].name == changes[j].name;
  }

  /** A later list of change sets is merged store by store; empty change sets are skipped. */
  function MergeAll(changes: seq<Changes>, more: seq<Changes>): seq<Changes> {
    if more == [] then changes
    else
      var merged, last := MergeAll(changes, more[..|more| - 1]), more[|more| - 1];
      if last.pairs == [] then merged else Merge(merged, last.name, last.pairs)
  }

  function WithoutEmpty(more: seq<Changes>): seq<Changes> {
    if more == [] then []
    else
      var front, last := WithoutEmpty(more[..|more| - 1]), more[|more| - 1];
      if last.pairs == [] then front else front + [last]
  }

  /** Every store that gets more pairs has none after its first change set. */
  predicate AllOnce(changes: seq<Changes>, more: seq<Changes>) {
    forall i :: 0 <= i < |more| && more[i].pairs != [] ==> LogsOnce(changes, more[i].name)
  }

  /** Change sets handed over in several calls replay as they were applied. */
  lemma {:induction false} MergeAllReplays(trees: seq<Named>, changes: seq<Changes>, more: seq<Changes>)
    requires Distinct(NameOf, trees) && ApplyChanges(trees, changes).Some? && AllOnce(changes, more)
    requires ApplyChanges(ApplyChanges(trees, changes).value, WithoutEmpty(more)).Some?
    ensures ApplyChanges(trees, MergeAll(changes, more))
         == ApplyChanges(ApplyChanges(trees, changes).value, WithoutEmpty(more))
    ensures forall name :: LogsOnce(changes, name) ==> LogsOnce(MergeAll(changes, more), name)
  {
    hide Merge, ApplyChange, Distinct, LogsOnce;
    if more != [] {
      var front, last := more[..|more| - 1], more[|more| - 1];
      assert forall i :: 0 <= i < |front| ==> front[i] == more[i];
      if last.pairs != [] {
        assert WithoutEmpty(more)[..|WithoutEmpty(more)| - 1] == WithoutEmpty(front);
        MergeAllReplays(trees, changes, front);
        var merged := MergeAll(changes, front);
        MergeReplays(trees, merged, last.name, last.pairs);
        forall name | LogsOnce(changes, name) ensures LogsOnce(MergeAll(changes, more), name) {
          MergeLogsOnce(merged, last.name, last.pairs, name);
        }
      } else {
        MergeAllReplays(trees, changes, front);
      }
    }
  }

  // ------------------------------------------------------------------ when merging replays

  /** Replaying the merged log gives the live trees. */
  ghost predicate MergedReplays(trees: seq<Named>, changes: seq<Changes>, name: Bytes, pairs: seq<Pair>)
    requires ApplyChanges(trees, changes).Some?
  {
    ApplyChanges(trees, Merge(changes, name, pairs))
      == ApplyChange(ApplyChanges(trees, changes).value, Changes(name, pairs))
  }

  /** The last pair decides whether its key is there. */
  lemma LastPairDecides(s: V.State, pairs: seq<Pair>)
    requires V.Valid(s) && pairs != []
    ensures var last := pairs[|pairs| - 1]; last.key in V.Entries(ApplyPairs(s, pairs)) <==> !last.delete
  {
    hide V.Put, V.Delete, V.Valid, V.Entries;
    var front, last := pairs[..|pairs| - 1], pairs[|pairs| - 1];
    PairsSound(s, front);
    if last.delete {
      V.DeleteKeeps(ApplyPairs(s, front), last.key);
    } else {
      V.PutKeeps(ApplyPairs(s, front), last.key, V.Normalise(last.value));
    }
  }

  /** The opposite of the last late pair is overtaken by it at replay. */
  lemma LatePairOvertakes(trees: seq<Named>, changes: seq<Changes>, name: Bytes) returns (pairs: seq<Pair>)
    requires Distinct(NameOf, trees) && ApplyChanges(trees, changes).Some? && !LogsOnce(changes, name)
    requires forall t :: t in trees ==> V.Valid(t.tree)
    ensures !MergedReplays(trees, changes, name, pairs)
  {
    hide PairsFor, Merge, ApplyChanges, ApplyPairs, V.Entries, V.Valid;
    var i := FirstOf(changes, name);
    var early, late := PairsFor(changes[..i + 1], name), PairsFor(changes[i + 1..], name);
    var last := late[|late| - 1];
    pairs := [Pair(!last.delete, last.key, None)];
    ChangesByStore(trees, changes);
    var merged, live := Merge(changes, name, pairs), ApplyChanges(trees, changes).value;
    var at := IndexOf(trees, changes[i].name);
    SameNames(trees, live, name);
    assert changes == changes[..i + 1] + changes[i + 1..];
    PairsForConcat(changes[..i + 1], changes[i + 1..], name);
    MergeAdds(changes, name, pairs, name);
    var s := trees[at].tree;
    assert trees[at] in trees;
    PairsConcat(s, early + late, pairs);
    LastPairDecides(s, early + pairs + late);
    LastPairDecides(s, early + late + pairs);
    assert (early + pairs + late)[|early + pairs + late| - 1] == last;
    ChangesByStore(trees, merged);
  }

  /** Whatever pairs follow, the merged log replays to the live trees exactly when the log holds no
      pairs for the store after its first change set. */
  lemma MergeExact(trees: seq<Named>, changes: seq<Changes>, name: Bytes)
    requires Distinct(NameOf, trees) && ApplyChanges(trees, changes).Some?
    requires forall t :: t in trees ==> V.Valid(t.tree)
    ensures (forall pairs :: MergedReplays(trees, changes, name, pairs)) <==> LogsOnce(changes, name)
  {
    hide ApplyChanges, LogsOnce, V.Valid;
    if LogsOnce(changes, name) {
      forall pairs ensures MergedReplays(trees, changes, name, pairs) {
        MergeReplays(trees, changes, name, pairs);
      }
    } else {
      var pairs := LatePairOvertakes(trees, changes, name);
      assert !MergedReplays(trees, changes, name, pairs);
    }
  }

  // ------------------------------------------------------------------ upgrades in several calls

  /** No upgrade on the way leaves two trees with one name. */
  predicate Clean(next: nat, trees: seq<Named>, upgrades: seq<Upgrade>) {
    upgrades == [] || (
      && Clean(next, trees, upgrades[..|upgrades| - 1])
      && (UpgradeAll(next, trees, upgrades).Some? ==> Distinct(NameOf, UpgradeAll(next, trees, upgrades).value)))
  }

  ghost predicate Alike(a: seq<Named>, b: seq<Named>) {
    Distinct(NameOf, a) && Distinct(NameOf, b) && SameElements(a, b)
  }

  lemma AlikeIndex(a: seq<Named>, b: seq<Named>, name: Bytes)
    requires Alike(a, b)
    ensures IndexOf(a, name) >= 0 <==> IndexOf(b, name) >= 0
    ensures IndexOf(a, name) >= 0 ==> a[IndexOf(a, name)] == b[IndexOf(b, name)]
  {
    var i, j := IndexOf(a, name), IndexOf(b, name);
    if i >= 0 { assert a[i] in b; }
    if j >= 0 { assert b[j] in a; }
  }

  lemma DeletedElements(a: seq<Named>, i: nat)
    requires Distinct(NameOf, a) && i < |a|
    ensures var r := a[i := a[|a| - 1]][..|a| - 1];
      Distinct(NameOf, r) && forall x :: x in r <==> x in a && x != a[i]
  {
    var r := a[i := a[|a| - 1]][..|a| - 1];
    forall x | x in a && x != a[i] ensures x in r {
      var k :| 0 <= k < |a| && a[k] == x;
      assert k < |a| - 1 ==> r[k] == x;
      assert k == |a| - 1 ==> r[i] == x;
    }
    forall x | x in r ensures x in a && x != a[i] {
      var k :| 0 <= k < |r| && r[k] == x;
      assert x == a[k] || x == a[|a| - 1];
      assert x.name != a[i].name;
    }
  }

  lemma RenamedElements(a: seq<Named>, i: nat, t: Named, r: seq<Named>)
    requires Distinct(NameOf, a) && i < |a| && r == a[i := t]
    ensures forall x :: x in r <==> (x in a && x != a[i]) || x == t
    ensures Distinct(NameOf, r) <==> forall x :: x in a && x != a[i] ==> x.name != t.name
  {
    assert r[i] == t;
    forall x | x in a && x != a[i] ensures x in r {
      var k :| 0 <= k < |a| && a[k] == x;
      assert r[k] == x;
    }
    forall x | x in r ensures (x in a && x != a[i]) || x == t {
      var k :| 0 <= k < |r| && r[k] == x;
      assert k != i ==> a[k].name != a[i].name;
    }
    forall k | 0 <= k < |a| && k != i ensures a[k] in a && a[k] != a[i] && r[k] == a[k] {
      assert a[k].name != a[i].name;
    }
  }

  /** Upgrades do not depend on the order of trees with distinct names. */
  lemma UpgradeOneAlike(next: nat, a: seq<Named>, b: seq<Named>, u: Upgrade)
    requires Alike(a, b)
    ensures UpgradeOne(next, a, u).Some? <==> UpgradeOne(next, b, u).Some?
    ensures UpgradeOne(next, a, u).Some? && Distinct(NameOf, UpgradeOne(next, a, u).value)
        ==> Alike(UpgradeOne(next, a, u).value, UpgradeOne(next, b, u).value)
  {
    if u.delete {
      AlikeIndex(a, b, u.name);
      var i, j := IndexOf(a, u.name), IndexOf(b, u.name);
      if i >= 0 {
        DeletedElements(a, i);
        DeletedElements(b, j);
      }
    } else if u.renameFrom != [] {
      AlikeIndex(a, b, u.renameFrom);
      var i, j := IndexOf(a, u.renameFrom), IndexOf(b, u.renameFrom);
      if i >= 0 {
        var t := Named(u.name, a[i].tree);
        RenamedElements(a, i, t, a[i := t]);
        RenamedElements(b, j, t, b[j := t]);
      }
    } else {
      AppendedAlike(a, b, Named(u.name, NewTree(next)));
    }
  }

  lemma AppendedAlike(a: seq<Named>, b: seq<Named>, t: Named)
    requires Alike(a, b)
    ensures Distinct(NameOf, a + [t]) ==> Alike(a + [t], b + [t])
  {
    if Distinct(NameOf, a + [t]) {
      forall j | 0 <= j < |b| ensures b[j].name != t.name {
        assert b[j] in a;
        var k :| 0 <= k < |a| && a[k] == b[j];
        assert (a + [t])[k].name != (a + [t])[|a|].name;
      }
    }
  }

  lemma {:induction false} UpgradeAllAlike(next: nat, a: seq<Named>, b: seq<Named>, upgrades: seq<Upgrade>)
    requires Alike(a, b) && Clean(next, a, upgrades)
    ensures UpgradeAll(next, a, upgrades).Some? <==> UpgradeAll(next, b, upgrades).Some?
    ensures UpgradeAll(next, a, upgrades).Some?
        ==> Alike(UpgradeAll(next, a, upgrades).value, UpgradeAll(next, b, upgrades).value)
  {
    hide UpgradeOne, Alike, Distinct;
    if upgrades != [] {
      var front := upgrades[..|upgrades| - 1];
      UpgradeAllAlike(next, a, b, front);
      if UpgradeAll(next, a, front).Some? {
        UpgradeOneAlike(next, UpgradeAll(next, a, front).value, UpgradeAll(next, b, front).value,
          upgrades[|upgrades| - 1]);
      }
    }
  }

  lemma {:induction false} UpgradeConcat(next: nat, trees: seq<Named>, u: seq<Upgrade>, w: seq<Upgrade>)
    ensures UpgradeAll(next, trees, u + w) ==
      match UpgradeAll(next, trees, u) case None => None case Some(ts) => UpgradeAll(next, ts, w)
    ensures Clean(next, trees, u + w) ==> Clean(next, trees, u)
    ensures Clean(next, trees, u + w) && UpgradeAll(next, trees, u).Some?
        ==> Clean(next, UpgradeAll(next, trees, u).value, w)
  {
    hide UpgradeOne, Distinct;
    if w == [] {
      assert u + w == u;
    } else {
      UpgradeConcat(next, trees, u, w[..|w| - 1]);
      assert (u + w)[..|u + w| - 1] == u + w[..|w| - 1];
    }
  }

  lemma {:induction false} CleanAlike(next: nat, a: seq<Named>, b: seq<Named>, upgrades: seq<Upgrade>)
    requires Alike(a, b) && Clean(next, a, upgrades)
    ensures Clean(next, b, upgrades)
  {
    hide UpgradeAll;
    if upgrades != [] {
      CleanAlike(next, a, b, upgrades[..|upgrades| - 1]);
      UpgradeAllAlike(next, a, b, upgrades);
    }
  }

  /** Upgrades are clean together when the later ones are clean on the trees the earlier ones left. */
  lemma {:induction false} CleanConcat(next: nat, trees: seq<Named>, u: seq<Upgrade>, w: seq<Upgrade>)
    requires Clean(next, trees, u) && UpgradeAll(next, trees, u).Some?
    requires Clean(next, UpgradeAll(next, trees, u).value, w)
    ensures Clean(next, trees, u + w)
  {
    hide UpgradeAll, Distinct;
    if w == [] {
      assert u + w == u;
    } else {
      CleanConcat(next, trees, u, w[..|w| - 1]);
      UpgradeConcat(next, trees, u, w);
      assert (u + w)[..|u + w| - 1] == u + w[..|w| - 1];
    }
  }

  lemma SortAlike(a: seq<Named>, b: seq<Named>)
    requires Alike(a, b)
    ensures Sort(NameOf, a) == Sort(NameOf, b) && Distinct(NameOf, Sort(NameOf, a)) && Alike(a, Sort(NameOf, a))
  {
    hide Sort;
    SortOrders(NameOf, a);
    SortOrders(NameOf, b);
    SortDistinct(NameOf, a);
    SortDistinct(NameOf, b);
    AscendingUnique(NameOf, Sort(NameOf, a), Sort(NameOf, b));
  }

  /** Upgrades applied live in two calls, sorted after each, replay as one list. */
  lemma UpgradesReplay(m: Multi, u: seq<Upgrade>, w: seq<Upgrade>)
    requires Distinct(NameOf, m.trees) && Upgraded(m, u).Some?
    requires Clean(NextVersion(m.version, m.initialVersion), m.trees, u)
    requires Clean(NextVersion(m.version, m.initialVersion), Upgraded(m, u).value.trees, w)
    ensures Clean(NextVersion(m.version, m.initialVersion), m.trees, u + w)
    ensures Upgraded(m, u + w) == Upgraded(Upgraded(m, u).value, w)
  {
    hide UpgradeAll, Sort, Distinct, NextVersion, Clean;
    if w == [] {
      assert u + w == u;
    } else if u == [] {
      assert u + w == w;
    } else {
      var next := NextVersion(m.version, m.initialVersion);
      CleanDistinct(next, m.trees, u);
      var ts := UpgradeAll(next, m.trees, u).value;
      SortAlike(ts, ts);
      CleanAlike(next, Sort(NameOf, ts), ts, w);
      CleanConcat(next, m.trees, u, w);
      UpgradeConcat(next, m.trees, u, w);
      UpgradeAllAlike(next, ts, Sort(NameOf, ts), w);
      if UpgradeAll(next, ts, w).Some? {
        SortAlike(UpgradeAll(next, ts, w).value, UpgradeAll(next, Sort(NameOf, ts), w).value);
      }
    }
  }

  lemma CleanDistinct(next: nat, trees: seq<Named>, u: seq<Upgrade>)
    requires Clean(next, trees, u) && Distinct(NameOf, trees) && UpgradeAll(next, trees, u).Some?
    ensures Distinct(NameOf, UpgradeAll(next, trees, u).value)
  {
  }

  /** Two trees that share a name on the way are told apart by position, and a deletion moves trees
      around: live, the list is sorted between the calls; at replay it is not. */
  lemma SharedNameDiverges() returns (m: Multi, u: seq<Upgrade>, w: seq<Upgrade>)
    ensures Ascending(NameOf, m.trees) && Sound(NextVersion(m.version, m.initialVersion), m.trees)
    ensures forall x :: x in m.trees ==> V.Committed(x.tree) && x.tree.version == m.version
    ensures Upgraded(m, u).Some? && Upgraded(Upgraded(m, u).value, w).Some? && Upgraded(m, u + w).Some?
    ensures Upgraded(Upgraded(m, u).value, w) != Upgraded(m, u + w)
  {
    var a, b, c: Bytes := [97], [98], [99];
    var s, t := V.State(5, Some(A.Leaf([1], [2], 5))), V.State(5, None);
    m := Multi(0, 5, [Named(a, s), Named(b, s), Named(c, t)]);
    u := [Upgrade(a, [], true)];
    w := [Upgrade(c, b, false), Upgrade(c, [], true)];
    hide UpgradeAll, Sort, Sound, V.Committed;
    SoundExample(m.trees, s, t);
    DeletesFirst(6, m.trees, u);
    SortsTwo(Named(c, t), Named(b, s));
    RenamesAndDeletes(6, [Named(b, s), Named(c, t)], w);
    RenamesAndDeletes(6, [Named(c, t), Named(b, s)], w);
    UpgradeConcat(6, m.trees, u, w);
    SortsOne(Named(c, t));
    SortsOne(Named(c, s));
  }

  lemma SoundExample(trees: seq<Named>, s: V.State, t: V.State)
    requires s == V.State(5, Some(A.Leaf([1], [2], 5))) && t == V.State(5, None)
    requires |trees| == 3 && trees[0].tree == trees[1].tree == s && trees[2].tree == t
    ensures Sound(6, trees) && forall x :: x in trees ==> V.Committed(x.tree) && x.tree.version == 5
  {
    assert V.Valid(s) && V.Valid(t);
  }

  lemma DeletesFirst(next: nat, trees: seq<Named>, u: seq<Upgrade>)
    requires |trees| == 3 && u == [Upgrade(trees[0].name, [], true)]
    ensures UpgradeAll(next, trees, u) == Some([trees[2], trees[1]])
  {
    assert u[..0] == [];
    assert IndexOf(trees, trees[0].name) == 0;
    assert trees[0 := trees[2]][..2] == [trees[2], trees[1]];
  }

  /** Renames the tree called b to c and then deletes the first c. */
  lemma RenamesAndDeletes(next: nat, trees: seq<Named>, w: seq<Upgrade>)
    requires |trees| == 2 && {trees[0].name, trees[1].name} == {[98], [99]}
    requires w == [Upgrade([99], [98], false), Upgrade([99], [], true)]
    ensures UpgradeAll(next, trees, w) == Some([Named([99], trees[1].tree)])
  {
    assert w[..1] == [w[0]] && [w[0]][..0] == [];
    var i := IndexOf(trees, [98]);
    assert [98] in {trees[0].name, trees[1].name} && trees[0].name in {[98], [99]} && trees[1].name in {[98], [99]};
    assert [99] in {trees[0].name, trees[1].name};
    var renamed := trees[i := Named([99], trees[i].tree)];
    assert UpgradeAll(next, trees, [w[0]]) == Some(renamed);
    assert IndexOf(renamed, [99]) == 0;
    assert renamed[0 := renamed[1]][..1] == [renamed[1]];
  }

  lemma SortsOne(t: Named)
    ensures Sort(NameOf, [t]) == [t]
  {
    assert [t][..0] == [];
  }

  lemma SortsTwo(a: Named, b: Named)
    requires Less(b.name, a.name)
    ensures Sort(NameOf, [a, b]) == [b, a]
  {
    SortsOne(a);
    LessOrder();
    assert [a, b][..1] == [a];
    assert Insert(NameOf, [a], b) == Insert(NameOf, [a][..0], b) + [a];
  }

  // ------------------------------------------------------------------ what upgrades mean

  /** The stores by name. */
  function Stores(trees: seq<Named>): map<Bytes, V.State> {
    if trees == [] then map[] else Stores(trees[..|trees| - 1])[trees[|trees| - 1].name := trees[|trees| - 1].tree]
  }

  /** One upgrade on the stores by name: a deleted or renamed store must exist. */
  function UpgradeStore(next: nat, m: map<Bytes, V.State>, u: Upgrade): Option<map<Bytes, V.State>> {
    if u.delete then (if u.name in m then Some(m - {u.name}) else None)
    else if u.renameFrom != [] then
      (if u.renameFrom in m then Some((m - {u.renameFrom})[u.name := m[u.renameFrom]]) else None)
    else Some(m[u.name := NewTree(next)])
  }

  function UpgradeStores(next: nat, m: map<Bytes, V.State>, upgrades: seq<Upgrade>): Option<map<Bytes, V.State>> {
    if upgrades == [] then Some(m)
    else
      match UpgradeStores(next, m, upgrades[..|upgrades| - 1])
      case None => None
      case Some(n) => UpgradeStore(next, n, upgrades[|upgrades| - 1])
  }

  lemma {:induction false} StoresHold(trees: seq<Named>, name: Bytes)
    requires Distinct(NameOf, trees)
    ensures name in Stores(trees) <==> IndexOf(trees, name) >= 0
    ensures name in Stores(trees) ==> Stores(trees)[name] == trees[IndexOf(trees, name)].tree
  {
    if trees != [] {
      var front := trees[..|trees| - 1];
      StoresHold(front, name);
      assert forall i :: 0 <= i < |front| ==> front[i] == trees[i];
    }
  }

  lemma AlikeStores(a: seq<Named>, b: seq<Named>)
    requires Alike(a, b)
    ensures Stores(a) == Stores(b)
  {
    hide Stores;
    forall name ensures name in Stores(a) <==> name in Stores(b) {
      StoresHold(a, name);
      StoresHold(b, name);
      AlikeIndex(a, b, name);
    }
    forall name | name in Stores(a) ensures Stores(a)[name] == Stores(b)[name] {
      StoresHold(a, name);
      StoresHold(b, name);
      AlikeIndex(a, b, name);
    }
  }

  /** A store is there under a name with a state exactly when the pair is one of the trees. */
  lemma StoreIsTree(trees: seq<Named>, name: Bytes, state: V.State)
    requires Distinct(NameOf, trees)
    ensures name in Stores(trees) && Stores(trees)[name] == state <==> Named(name, state) in trees
  {
    hide Stores;
    StoresHold(trees, name);
    if Named(name, state) in trees {
      var i :| 0 <= i < |trees| && trees[i] == Named(name, state);
    }
  }

  /** Stores given by which trees there are. */
  lemma StoresBy(trees: seq<Named>, m: map<Bytes, V.State>)
    requires Distinct(NameOf, trees)
    requires forall x: Named :: x in trees <==> x.name in m && m[x.name] == x.tree
    ensures Stores(trees) == m
  {
    hide Stores;
    var s := Stores(trees);
    forall name ensures name in s <==> name in m {
      if name in s { StoreIsTree(trees, name, s[name]); assert Named(name, s[name]) in trees; }
      if name in m { StoreIsTree(trees, name, m[name]); assert Named(name, m[name]) in trees; }
    }
    forall name | name in s ensures s[name] == m[name] {
      StoreIsTree(trees, name, s[name]);
      assert Named(name, s[name]) in trees;
    }
  }

  lemma UpgradeOneStores(next: nat, trees: seq<Named>, u: Upgrade)
    requires Distinct(NameOf, trees)
    ensures UpgradeOne(next, trees, u).Some? <==> UpgradeStore(next, Stores(trees), u).Some?
    ensures UpgradeOne(next, trees, u).Some? && Distinct(NameOf, UpgradeOne(next, trees, u).value) ==>
      Some(Stores(UpgradeOne(next, trees, u).value)) == UpgradeStore(next, Stores(trees), u)
  {
    hide Stores;
    var source := if u.delete then u.name else u.renameFrom;
    StoresHold(trees, source);
    var r, m := UpgradeOne(next, trees, u), UpgradeStore(next, Stores(trees), u);
    if r.Some? && Distinct(NameOf, r.value) {
      forall x: Named ensures x in r.value <==> x.name in m.value && m.value[x.name] == x.tree {
        StoreIsTree(trees, x.name, x.tree);
        if u.delete {
          DeletedElements(trees, IndexOf(trees, u.name));
        } else if u.renameFrom != [] {
          var i := IndexOf(trees, u.renameFrom);
          RenamedElements(trees, i, Named(u.name, trees[i].tree), r.value);
        } else {
          AppendedStores(trees, Named(u.name, NewTree(next)), x);
        }
      }
      StoresBy(r.value, m.value);
    }
  }

  lemma AppendedStores(trees: seq<Named>, t: Named, x: Named)
    requires Distinct(NameOf, trees + [t])
    ensures x in trees && x.name == t.name ==> x == t
    ensures x in trees + [t] <==> x in trees || x == t
  {
    if x in trees {
      var i :| 0 <= i < |trees| && trees[i] == x;
      assert (trees + [t])[i].name != (trees + [t])[|trees|].name;
    }
  }

  /** Upgrades that share no name on the way do to the stores by name what their list says: delete,
      rename, or add an empty store at the version before the next; they fail exactly on an unknown name. */
  lemma {:induction false} UpgradeAllStores(next: nat, trees: seq<Named>, upgrades: seq<Upgrade>)
    requires Distinct(NameOf, trees) && Clean(next, trees, upgrades)
    ensures UpgradeAll(next, trees, upgrades).Some? <==> UpgradeStores(next, Stores(trees), upgrades).Some?
    ensures UpgradeAll(next, trees, upgrades).Some? ==>
      Some(Stores(UpgradeAll(next, trees, upgrades).value)) == UpgradeStores(next, Stores(trees), upgrades)
  {
    hide UpgradeOne, UpgradeStore, Stores, Distinct;
    if upgrades != [] {
      var front := upgrades[..|upgrades| - 1];
      UpgradeAllStores(next, trees, front);
      if UpgradeAll(next, trees, front).Some? {
        CleanDistinct(next, trees, front);
        UpgradeOneStores(next, UpgradeAll(next, trees, front).value, upgrades[|upgrades| - 1]);
      }
    }
  }
}
