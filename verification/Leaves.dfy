/** The leaves of a tree in key order: the reference against which lookups, iterators and proofs are stated. */
module Leaves {
  import opened Bytes
  import opened Avl

  function LeavesOf(t: Tree): (s: seq<Tree>)
    ensures forall x :: x in s ==> x.Leaf?
  {
    if t.Leaf? then [t] else LeavesOf(t.left) + LeavesOf(t.right)
  }

  predicate Ascending(s: seq<Tree>) {
    forall i, j :: 0 <= i < j < |s| ==> Less(s[i].key, s[j].key)
  }

  lemma {:induction false} LeavesCount(t: Tree)
    requires Balanced(t)
    ensures |LeavesOf(t)| == Size(t)
  {
    if t.Branch? { LeavesCount(t.left); LeavesCount(t.right); }
  }

  lemma {:induction false} LeavesSpan(t: Tree)
    requires Ordered(t)
    ensures LeavesOf(t) != [] && LeavesOf(t)[0].key == MinKey(t) && LeavesOf(t)[|LeavesOf(t)| - 1].key == MaxKey(t)
  {
    if t.Branch? { LeavesSpan(t.left); LeavesSpan(t.right); }
  }

  lemma {:induction false} LeavesAscend(t: Tree)
    requires Ordered(t)
    ensures Ascending(LeavesOf(t))
  {
    if t.Branch? {
      LeavesAscend(t.left);
      LeavesAscend(t.right);
      LeavesSpan(t.left);
      LeavesSpan(t.right);
      AscendingConcat(LeavesOf(t.left), LeavesOf(t.right));
    }
  }

  lemma AscendingConcat(a: seq<Tree>, b: seq<Tree>)
    requires Ascending(a) && Ascending(b) && a != [] && b != [] && Less(a[|a| - 1].key, b[0].key)
    ensures Ascending(a + b)
  {
    LessOrder();
    var s := a + b;
    forall i, j | 0 <= i < j < |s|
      ensures Less(s[i].key, s[j].key)
    {
      if i < |a| <= j {
        assert AtMost(a[i].key, a[|a| - 1].key) && AtMost(b[0].key, b[j - |a|].key);
      }
    }
  }

  /** The entries of a tree are its leaves. */
  lemma {:induction false} LeafEntry(t: Tree, i: nat)
    requires Ordered(t) && i < |LeavesOf(t)|
    ensures var x := LeavesOf(t)[i]; x.key in Contents(t) && Contents(t)[x.key] == Item(x.value, x.version)
  {
    if t.Branch? {
      Separates(t, LeavesOf(t)[i].key);
      if i < |LeavesOf(t.left)| { LeafEntry(t.left, i); } else { LeafEntry(t.right, i - |LeavesOf(t.left)|); }
    }
  }

  lemma {:induction false} EntryLeaf(t: Tree, k: Bytes) returns (i: nat)
    requires k in Contents(t)
    ensures i < |LeavesOf(t)| && LeavesOf(t)[i].key == k
  {
    if t.Leaf? {
      i := 0;
    } else if k in Contents(t.right) {
      i := EntryLeaf(t.right, k);
      i := i + |LeavesOf(t.left)|;
    } else {
      i := EntryLeaf(t.left, k);
    }
  }

  /** How many of the leaves have a key below `k`. */
  function CountBelow(s: seq<Tree>, k: Bytes): nat {
    if s == [] then 0 else (if Less(s[0].key, k) then 1 else 0) + CountBelow(s[1..], k)
  }

  lemma {:induction false} CountBelowConcat(a: seq<Tree>, b: seq<Tree>, k: Bytes)
    ensures CountBelow(a + b, k) == CountBelow(a, k) + CountBelow(b, k)
  {
    if a == [] {
      assert a + b == b;
    } else {
      assert (a + b)[1..] == a[1..] + b;
      CountBelowConcat(a[1..], b, k);
    }
  }

  lemma {:induction false} CountAllBelow(s: seq<Tree>, k: Bytes)
    requires forall x :: x in s ==> Less(x.key, k)
    ensures CountBelow(s, k) == |s|
  {
    if s != [] { CountAllBelow(s[1..], k); }
  }

  lemma {:induction false} CountNoneBelow(s: seq<Tree>, k: Bytes)
    requires forall x :: x in s ==> !Less(x.key, k)
    ensures CountBelow(s, k) == 0
  {
    if s != [] { CountNoneBelow(s[1..], k); }
  }

  /** The rank of a key: the number of smaller keys. */
  function Rank(t: Tree, k: Bytes): nat { CountBelow(LeavesOf(t), k) }

  /** The value stored under a key. */
  function Find(t: Tree, k: Bytes): Option<Bytes> {
    if k in Contents(t) then Some(Contents(t)[k].value) else None
  }

  lemma AllBelowBranch(t: Tree, k: Bytes)
    requires Ordered(t) && t.Branch?
    ensures Less(k, t.key) ==> CountBelow(LeavesOf(t.right), k) == 0
    ensures !Less(k, t.key) ==> CountBelow(LeavesOf(t.left), k) == |LeavesOf(t.left)|
  {
    LessOrder();
    if Less(k, t.key) {
      forall x | x in LeavesOf(t.right) ensures !Less(x.key, k) {
        var i :| 0 <= i < |LeavesOf(t.right)| && LeavesOf(t.right)[i] == x;
        LeafEntry(t.right, i);
        Separates(t, x.key);
      }
      CountNoneBelow(LeavesOf(t.right), k);
    } else {
      forall x | x in LeavesOf(t.left) ensures Less(x.key, k) {
        var i :| 0 <= i < |LeavesOf(t.left)| && LeavesOf(t.left)[i] == x;
        LeafEntry(t.left, i);
        Separates(t, x.key);
      }
      CountAllBelow(LeavesOf(t.left), k);
    }
  }

  /** How the rank and the value of a key come from one child. */
  lemma SearchBranch(t: Tree, k: Bytes)
    requires Ordered(t) && Balanced(t) && t.Branch?
    ensures Less(k, t.key) ==> Rank(t, k) == Rank(t.left, k) && Find(t, k) == Find(t.left, k)
    ensures !Less(k, t.key) ==> Rank(t, k) == Size(t.left) + Rank(t.right, k) && Find(t, k) == Find(t.right, k)
  {
    CountBelowConcat(LeavesOf(t.left), LeavesOf(t.right), k);
    AllBelowBranch(t, k);
    LeavesCount(t.left);
    Separates(t, k);
  }

  /** Where an ascending sequence of leaves crosses `k` is the rank of `k`. */
  lemma CrossingIsRank(s: seq<Tree>, k: Bytes, i: nat)
    requires i <= |s|
    requires forall j :: 0 <= j < i ==> Less(s[j].key, k)
    requires forall j :: i <= j < |s| ==> !Less(s[j].key, k)
    ensures CountBelow(s, k) == i
  {
    assert s == s[..i] + s[i..];
    CountBelowConcat(s[..i], s[i..], k);
    CountAllBelow(s[..i], k);
    CountNoneBelow(s[i..], k);
  }

  /** The rank of the key of the i-th leaf is i. */
  lemma RankOfLeaf(t: Tree, i: nat)
    requires Ordered(t) && i < |LeavesOf(t)|
    ensures Rank(t, LeavesOf(t)[i].key) == i
  {
    LessOrder();
    LeavesAscend(t);
    CrossingIsRank(LeavesOf(t), LeavesOf(t)[i].key, i);
  }

  /** In an ascending sequence, a leaf below `k` has only such leaves before it, and a leaf not below
      `k` only such leaves after it. */
  lemma AscendingCut(s: seq<Tree>, h: nat, k: Bytes)
    requires Ascending(s) && h < |s|
    ensures Less(s[h].key, k) ==> forall j :: 0 <= j <= h ==> Less(s[j].key, k)
    ensures !Less(s[h].key, k) ==> forall j :: h <= j < |s| ==> !Less(s[j].key, k)
  {
    forall j | 0 <= j < h && Less(s[h].key, k) ensures Less(s[j].key, k) {
      LessTransitive(s[j].key, s[h].key, k);
    }
    forall j | h < j < |s| && Less(s[j].key, k) ensures Less(s[h].key, k) {
      LessTransitive(s[h].key, s[j].key, k);
    }
  }
}
