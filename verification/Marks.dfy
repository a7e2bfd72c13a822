/** The marks a block leaves in a tree: whatever it touches is stamped with the next version, so trees
    that look committed afterwards were either not touched or have lost a part. */
module Marks {
  import opened Bytes
  import opened Avl
  import opened MultiTrees
  import opened PendingLog
  import V = Versioned

  // ------------------------------------------------------------------ what was there before

  predicate Sub(x: Tree, t: Tree) {
    x == t || (t.Branch? && (Sub(x, t.left) || Sub(x, t.right)))
  }

  lemma {:induction false} SubChildren(x: Tree, t: Tree)
    requires Sub(x, t) && x.Branch?
    ensures Sub(x.left, t) && Sub(x.right, t)
  {
    if x == t {
      assert Sub(x.left, x.left) && Sub(x.right, x.right);
    } else if Sub(x, t.left) {
      SubChildren(x, t.left);
    } else {
      SubChildren(x, t.right);
    }
  }

  lemma {:induction false} SubSize(x: Tree, t: Tree)
    requires Sub(x, t) && Balanced(t)
    ensures 1 <= Size(x) <= Size(t) && (x != t ==> Size(x) < Size(t))
    decreases t
  {
    if t.Branch? {
      SubSize(t.left, t.left);
      SubSize(t.right, t.right);
      if x != t {
        if Sub(x, t.left) { SubSize(x, t.left); } else { SubSize(x, t.right); }
      }
    }
  }

  /** Every part stamped before the next version is a part of one of the two trees. */
  predicate Parts(t: Tree, p: Tree, q: Tree, next: nat) {
    if t.version < next then Sub(t, p) || Sub(t, q)
    else t.Branch? ==> Parts(t.left, p, q, next) && Parts(t.right, p, q, next)
  }

  predicate PartsBelow(t: Tree, p: Tree, q: Tree, next: nat) {
    if t.Leaf? then Parts(t, p, q, next) else Parts(t.left, p, q, next) && Parts(t.right, p, q, next)
  }

  lemma PartsOpen(t: Tree, p: Tree, q: Tree, next: nat)
    requires Parts(t, p, q, next) && Stamped(t)
    ensures PartsBelow(t, p, q, next)
  {
    if t.Branch? && t.version < next {
      if Sub(t, p) { SubChildren(t, p); } else { SubChildren(t, q); }
    }
  }

  lemma RebalanceParts(t: Tree, p: Tree, q: Tree, next: nat)
    requires t.Branch? && t.version == next && Stamped(t.left) && Stamped(t.right) && PartsBelow(t, p, q, next)
    ensures Parts(Rebalance(t, next), p, q, next)
  {
    PartsOpen(t.left, p, q, next);
    PartsOpen(t.right, p, q, next);
    if t.left.Branch? { PartsOpen(t.left.right, p, q, next); }
    if t.right.Branch? { PartsOpen(t.right.left, p, q, next); }
  }

  lemma {:induction false} SetParts(t: Tree, key: Bytes, value: Bytes, p: Tree, q: Tree, next: nat)
    requires Stamped(t) && t.version <= next && PartsBelow(t, p, q, next)
    ensures Parts(SetRec(t, key, value, next).tree, p, q, next)
  {
    hide Rebalance;
    if t.Branch? {
      if Less(key, t.key) {
        PartsOpen(t.left, p, q, next);
        SetParts(t.left, key, value, p, q, next);
        SetStamps(t.left, key, value, next);
        RebalanceParts(Join(t.key, next, SetRec(t.left, key, value, next).tree, t.right), p, q, next);
      } else {
        PartsOpen(t.right, p, q, next);
        SetParts(t.right, key, value, p, q, next);
        SetStamps(t.right, key, value, next);
        RebalanceParts(Join(t.key, next, t.left, SetRec(t.right, key, value, next).tree), p, q, next);
      }
    }
  }

  lemma {:induction false} RemoveParts(t: Tree, key: Bytes, p: Tree, q: Tree, next: nat)
    requires Stamped(t) && t.version <= next && PartsBelow(t, p, q, next)
    ensures var r := RemoveRec(t, key, next); r.Removed? && r.tree.Some? ==> Parts(r.tree.value, p, q, next)
  {
    hide Rebalance;
    if t.Branch? {
      if Less(key, t.key) {
        PartsOpen(t.left, p, q, next);
        RemoveParts(t.left, key, p, q, next);
        RemoveStamps(t.left, key, next);
        var r := RemoveRec(t.left, key, next);
        if r.Removed? && r.tree.Some? {
          RebalanceParts(Join(t.key, next, r.tree.value, t.right), p, q, next);
        }
      } else {
        PartsOpen(t.right, p, q, next);
        RemoveParts(t.right, key, p, q, next);
        RemoveStamps(t.right, key, next);
        var r := RemoveRec(t.right, key, next);
        if r.Removed? && r.tree.Some? {
          var k := if r.newKey.Some? then r.newKey.value else t.key;
          RebalanceParts(Join(k, next, t.left, r.tree.value), p, q, next);
        }
      }
    }
  }

  // ------------------------------------------------------------------ one pair at a time

  ghost predicate StateParts(s: V.State, p: Tree, q: Tree) {
    s.root.Some? ==> Parts(s.root.value, p, q, s.version + 1)
  }

  lemma PairParts(s: V.State, pair: Pair, p: Tree, q: Tree)
    requires V.Valid(s) && (s.root.Some? ==> PartsBelow(s.root.value, p, q, s.version + 1))
    requires s.root.None? || !pair.delete || pair.key in V.Entries(s)
    ensures StateParts(ApplyPair(s, pair), p, q)
  {
    hide SetRec, RemoveRec, Balanced, Ordered, Stamped, Parts;
    if s.root.Some? {
      var t, next := s.root.value, s.version + 1;
      RemoveKeeps(t, pair.key, next);
      SetParts(t, pair.key, V.Normalise(pair.value), p, q, next);
      RemoveParts(t, pair.key, p, q, next);
    } else {
      NewLeaf(pair.key, V.Normalise(pair.value), p, q, s.version + 1);
    }
  }

  lemma NewLeaf(key: Bytes, value: Bytes, p: Tree, q: Tree, next: nat)
    ensures Parts(Leaf(key, value, next), p, q, next)
  {
  }

  lemma StateOpen(s: V.State, p: Tree, q: Tree)
    requires V.Valid(s) && StateParts(s, p, q)
    ensures s.root.Some? ==> PartsBelow(s.root.value, p, q, s.version + 1)
  {
    if s.root.Some? { PartsOpen(s.root.value, p, q, s.version + 1); }
  }

  /** Deleting a key that is not there does nothing. */
  lemma AbsentStays(s: V.State, key: Bytes)
    requires V.Valid(s) && key !in V.Entries(s)
    ensures V.Delete(s, key) == s
  {
    hide RemoveRec, Balanced, Ordered, Stamped;
    if s.root.Some? { RemoveKeeps(s.root.value, key, s.version + 1); }
  }

  lemma PairKeepsParts(s: V.State, pair: Pair, p: Tree, q: Tree)
    requires V.Valid(s) && StateParts(s, p, q)
    ensures StateParts(ApplyPair(s, pair), p, q)
  {
    hide V.Valid, V.Put, V.Delete, V.Entries, StateParts;
    StateOpen(s, p, q);
    if pair.delete && pair.key !in V.Entries(s) {
      AbsentStays(s, pair.key);
    } else {
      PairParts(s, pair, p, q);
    }
  }

  /** A deletion of a key the store did not have when the block began. */
  predicate NoEffect(s: V.State, pair: Pair) { pair.delete && pair.key !in V.Entries(s) }

  predicate AllIdle(s: V.State, pairs: seq<Pair>) { forall i :: 0 <= i < |pairs| ==> NoEffect(s, pairs[i]) }

  /** Whatever looks old afterwards was there before. */
  lemma {:induction false} RunKeepsParts(s: V.State, pairs: seq<Pair>, p: Tree, q: Tree)
    requires V.Valid(s) && StateParts(s, p, q)
    ensures StateParts(ApplyPairs(s, pairs), p, q)
  {
    hide ApplyPair, StateParts, V.Valid;
    if pairs != [] {
      var front := pairs[..|pairs| - 1];
      RunKeepsParts(s, front, p, q);
      PairsSound(s, front);
      PairKeepsParts(ApplyPairs(s, front), pairs[|pairs| - 1], p, q);
    }
  }

  /** Either no pair does anything, or from the first one on that does, nothing that looks old is the
      whole tree any more. */
  lemma {:induction false} TouchesRoot(s: V.State, pairs: seq<Pair>)
    requires V.Valid(s) && s.root.Some? && s.root.value.Branch?
    ensures if AllIdle(s, pairs) then ApplyPairs(s, pairs) == s
      else StateParts(ApplyPairs(s, pairs), s.root.value.left, s.root.value.right)
  {
    hide ApplyPair, StateParts, V.Valid, V.Entries;
    if pairs != [] {
      var front, last := pairs[..|pairs| - 1], pairs[|pairs| - 1];
      TouchesRoot(s, front);
      PairsSound(s, front);
      var p, q := s.root.value.left, s.root.value.right;
      if !AllIdle(s, front) {
        PairKeepsParts(ApplyPairs(s, front), last, p, q);
        StillNotIdle(s, pairs);
      } else if NoEffect(s, last) {
        LastIdle(s, last);
        assert AllIdle(s, pairs);
      } else {
        ChildrenParts(s);
        PairParts(s, last, p, q);
        assert !NoEffect(s, pairs[|pairs| - 1]);
      }
    }
  }

  lemma StillNotIdle(s: V.State, pairs: seq<Pair>)
    requires pairs != [] && !AllIdle(s, pairs[..|pairs| - 1])
    ensures !AllIdle(s, pairs)
  {
    hide NoEffect;
    var front := pairs[..|pairs| - 1];
    var i :| 0 <= i < |front| && !NoEffect(s, front[i]);
    assert pairs[i] == front[i];
  }

  lemma LastIdle(s: V.State, pair: Pair)
    requires V.Valid(s) && NoEffect(s, pair)
    ensures ApplyPair(s, pair) == s
  {
    hide V.Valid, V.Delete, V.Entries;
    AbsentStays(s, pair.key);
  }

  lemma ChildrenParts(s: V.State)
    requires V.Valid(s) && s.root.Some? && s.root.value.Branch?
    ensures PartsBelow(s.root.value, s.root.value.left, s.root.value.right, s.version + 1)
  {
    var t := s.root.value;
    SelfParts(t.left, t.left, t.right, s.version + 1);
    SelfParts(t.right, t.left, t.right, s.version + 1);
  }

  lemma {:induction false} SelfParts(t: Tree, p: Tree, q: Tree, next: nat)
    requires Stamped(t) && (Sub(t, p) || Sub(t, q))
    ensures Parts(t, p, q, next)
    decreases t
  {
    if t.Branch? {
      if Sub(t, p) { SubChildren(t, p); } else { SubChildren(t, q); }
      SelfParts(t.left, p, q, next);
      SelfParts(t.right, p, q, next);
    }
  }

  // ------------------------------------------------------------------ size

  function Leaves(s: V.State): nat { if s.root.None? then 0 else Size(s.root.value) }

  lemma SizeAtLeastOne(t: Tree)
    requires Balanced(t)
    ensures Size(t) >= 1
  {
    SubSize(t, t);
  }

  /** A tree that is committed after some pairs is the tree that was there, or smaller. */
  lemma CommittedAfter(s: V.State, pairs: seq<Pair>)
    requires V.Valid(s) && V.Committed(ApplyPairs(s, pairs))
    ensures ApplyPairs(s, pairs) == s || Leaves(ApplyPairs(s, pairs)) < Leaves(s)
  {
    hide Balanced, Ordered, Stamped, ApplyPairs;
    var r := ApplyPairs(s, pairs);
    PairsSound(s, pairs);
    if s.root.None? {
      var a, b := Leaf([], [], 0), Leaf([], [], 1);
      RunKeepsParts(s, pairs, a, a);
      RunKeepsParts(s, pairs, b, b);
    } else {
      var t := s.root.value;
      SizeAtLeastOne(t);
      SelfParts(t, t, t, s.version + 1);
      RunKeepsParts(s, pairs, t, t);
      if r.root.Some? { SubSize(r.root.value, t); }
    }
  }

  // ------------------------------------------------------------------ exactly when a store stays as it was

  /** The last pair logged for a key. */
  function LastFor(pairs: seq<Pair>, key: Bytes): Option<Pair> {
    if pairs == [] then None
    else if pairs[|pairs| - 1].key == key then Some(pairs[|pairs| - 1])
    else LastFor(pairs[..|pairs| - 1], key)
  }

  /** What a key holds after some pairs: what its last pair says, stamped with the next version, or what
      it held before. */
  lemma {:induction false} KeyAfter(s: V.State, pairs: seq<Pair>, key: Bytes)
    requires V.Valid(s)
    ensures var after, last := V.Entries(ApplyPairs(s, pairs)), LastFor(pairs, key);
      if last.None? then (key in after <==> key in V.Entries(s)) && (key in after ==> after[key] == V.Entries(s)[key])
      else if last.value.delete then key !in after
      else key in after && after[key] == Item(V.Normalise(last.value.value), s.version + 1)
  {
    hide V.Put, V.Delete, V.Valid, V.Entries;
    if pairs != [] {
      var front, last := pairs[..|pairs| - 1], pairs[|pairs| - 1];
      KeyAfter(s, front, key);
      PairsSound(s, front);
      if last.delete {
        V.DeleteKeeps(ApplyPairs(s, front), last.key);
      } else {
        V.PutKeeps(ApplyPairs(s, front), last.key, V.Normalise(last.value));
      }
    }
  }

  lemma {:induction false} ItemsNotNewer(t: Tree, key: Bytes)
    requires Stamped(t) && key in Contents(t)
    ensures Contents(t)[key].version <= t.version
  {
    if t.Branch? {
      ItemsNotNewer(if key in Contents(t.right) then t.right else t.left, key);
    }
  }

  /** In a committed tree nothing carries the next version. */
  lemma CommittedItems(s: V.State, key: Bytes)
    requires V.Valid(s) && V.Committed(s) && key in V.Entries(s)
    ensures V.Entries(s)[key].version <= s.version
  {
    ItemsNotNewer(s.root.value, key);
  }

  predicate Branching(s: V.State) { s.root.Some? && s.root.value.Branch? }

  /** No pair leaves a mark. In a tree of several leaves each one deletes a key that was not there; in a
      smaller tree, where deleting what was set restores the tree, it is enough that each key was not
      there and is deleted in the end. */
  predicate Unmarked(s: V.State, pairs: seq<Pair>) {
    if Branching(s) then AllIdle(s, pairs)
    else forall i :: 0 <= i < |pairs| ==> Undone(s, pairs, pairs[i].key)
  }

  predicate Undone(s: V.State, pairs: seq<Pair>, key: Bytes) {
    key !in V.Entries(s) && LastFor(pairs, key).Some? && LastFor(pairs, key).value.delete
  }

  lemma {:induction false} LastForIs(pairs: seq<Pair>, key: Bytes)
    ensures LastFor(pairs, key).Some? <==> exists i :: 0 <= i < |pairs| && pairs[i].key == key
    ensures LastFor(pairs, key).Some? ==> LastFor(pairs, key).value in pairs && LastFor(pairs, key).value.key == key
  {
    if pairs != [] {
      var front := pairs[..|pairs| - 1];
      LastForIs(front, key);
      assert forall i :: 0 <= i < |front| ==> pairs[i] == front[i];
      if pairs[|pairs| - 1].key != key && LastFor(front, key).None? {
        forall i | 0 <= i < |pairs| ensures pairs[i].key != key {
          assert i < |front| ==> pairs[i] == front[i];
        }
      }
    }
  }

  /** A committed store is as it was after some pairs exactly when none of them leaves a mark. */
  lemma UnmarkedExact(s: V.State, pairs: seq<Pair>)
    requires V.Valid(s) && V.Committed(s)
    ensures ApplyPairs(s, pairs) == s <==> Unmarked(s, pairs)
  {
    hide V.Valid, V.Committed, ApplyPairs, AllIdle, V.Entries;
    if Branching(s) {
      BranchExact(s, pairs);
    } else {
      if ApplyPairs(s, pairs) == s {
        forall i | 0 <= i < |pairs| ensures Undone(s, pairs, pairs[i].key) {
          var key := pairs[i].key;
          LastForIs(pairs, key);
          KeyAfter(s, pairs, key);
          if key in V.Entries(s) { CommittedItems(s, key); }
        }
      }
      if Unmarked(s, pairs) { SmallRestored(s, pairs); }
    }
  }

  lemma BranchExact(s: V.State, pairs: seq<Pair>)
    requires V.Valid(s) && V.Committed(s) && Branching(s)
    ensures ApplyPairs(s, pairs) == s <==> AllIdle(s, pairs)
  {
    hide AllIdle, ApplyPairs, Ordered, Stamped;
    TouchesRoot(s, pairs);
    var t := s.root.value;
    SizeAtLeastOne(t.left);
    SizeAtLeastOne(t.right);
    if Sub(t, t.left) { SubSize(t, t.left); }
    if Sub(t, t.right) { SubSize(t, t.right); }
  }

  lemma SmallRestored(s: V.State, pairs: seq<Pair>)
    requires V.Valid(s) && !Branching(s) && forall i :: 0 <= i < |pairs| ==> Undone(s, pairs, pairs[i].key)
    ensures ApplyPairs(s, pairs) == s
  {
    hide V.Valid, ApplyPairs, V.Entries;
    var r := ApplyPairs(s, pairs);
    PairsSound(s, pairs);
    forall key ensures key in V.Entries(r) <==> key in V.Entries(s) {
      KeyAfter(s, pairs, key);
      LastForIs(pairs, key);
    }
    forall key | key in V.Entries(s) ensures V.Entries(r)[key] == V.Entries(s)[key] {
      KeyAfter(s, pairs, key);
      LastForIs(pairs, key);
    }
    assert V.Entries(r) == V.Entries(s);
    SmallByEntries(s, r);
  }

  lemma {:induction false} MinKeyHeld(t: Tree)
    ensures MinKey(t) in Contents(t) && MaxKey(t) in Contents(t)
  {
    if t.Branch? {
      MinKeyHeld(t.left);
      MinKeyHeld(t.right);
    }
  }

  /** A tree of at most one leaf is determined by what it holds. */
  lemma SmallByEntries(s: V.State, r: V.State)
    requires V.Valid(s) && V.Valid(r) && !Branching(s) && V.Entries(r) == V.Entries(s) && r.version == s.version
    ensures r == s
  {
    if r.root.Some? {
      MinKeyHeld(r.root.value);
      OrderedSpan(r.root.value);
      LessIrreflexive(MinKey(r.root.value));
    }
    if s.root.Some? { MinKeyHeld(s.root.value); }
  }
}
