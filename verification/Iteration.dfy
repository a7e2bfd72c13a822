/** The stack iterator: a pruned walk over in-memory and persisted nodes that yields the leaves of a key
    range, in either direction. */
module Iteration {
  import opened Bytes
  import opened Avl
  import opened Leaves
  import opened MemNodes
  import opened Snapshot

  /** A key range, the end excluded; a missing bound does not restrict. */
  datatype Domain = Domain(start: Option<Bytes>, end: Option<Bytes>)

  predicate AfterStart(d: Domain, key: Bytes) { d.start.None? || Compare(d.start.value, key) < 0 }

  predicate BeforeEnd(d: Domain, key: Bytes) { d.end.None? || Compare(key, d.end.value) < 0 }

  predicate InDomain(d: Domain, key: Bytes) {
    && (d.start.None? || AtMost(d.start.value, key))
    && (d.end.None? || Less(key, d.end.value))
  }

  // ------------------------------------------------------------------ what must be yielded

  function Filter(d: Domain, leaves: seq<Tree>): seq<Tree> {
    if leaves == [] then []
    else
      var front, last := Filter(d, leaves[..|leaves| - 1]), leaves[|leaves| - 1];
      if InDomain(d, last.key) then front + [last] else front
  }

  function Reverse(s: seq<Tree>): seq<Tree> {
    if s == [] then [] else [s[|s| - 1]] + Reverse(s[..|s| - 1])
  }

  /** The leaves of the range in key order, or in reverse order. */
  function Selected(d: Domain, ascending: bool, t: Tree): seq<Tree> {
    if ascending then Filter(d, LeavesOf(t)) else Reverse(Filter(d, LeavesOf(t)))
  }

  lemma {:induction false} FilterConcat(d: Domain, a: seq<Tree>, b: seq<Tree>)
    ensures Filter(d, a + b) == Filter(d, a) + Filter(d, b)
  {
    if b == [] {
      assert a + b == a;
    } else {
      FilterConcat(d, a, b[..|b| - 1]);
      assert (a + b)[..|a + b| - 1] == a + b[..|b| - 1];
    }
  }

  lemma {:induction false} ReverseConcat(a: seq<Tree>, b: seq<Tree>)
    ensures Reverse(a + b) == Reverse(b) + Reverse(a)
  {
    if b == [] {
      assert a + b == a;
    } else {
      ReverseConcat(a, b[..|b| - 1]);
      assert (a + b)[..|a + b| - 1] == a + b[..|b| - 1];
    }
  }

  lemma {:induction false} FilterNone(d: Domain, s: seq<Tree>)
    requires forall x :: x in s ==> !InDomain(d, x.key)
    ensures Filter(d, s) == []
  {
    if s != [] { FilterNone(d, s[..|s| - 1]); }
  }

  // Membership: the selection holds exactly the leaves of the range, each once.

  lemma {:induction false} FilterExact(d: Domain, s: seq<Tree>, x: Tree)
    ensures x in Filter(d, s) <==> x in s && InDomain(d, x.key)
  {
    if s != [] {
      FilterExact(d, s[..|s| - 1], x);
      assert s == s[..|s| - 1] + [s[|s| - 1]];
    }
  }

  lemma {:induction false} FilterAscends(d: Domain, s: seq<Tree>)
    requires Leaves.Ascending(s)
    ensures Leaves.Ascending(Filter(d, s))
  {
    if s != [] {
      var front, last := s[..|s| - 1], s[|s| - 1];
      FilterAscends(d, front);
      forall i | 0 <= i < |Filter(d, front)| ensures Less(Filter(d, front)[i].key, last.key) {
        FilterExact(d, front, Filter(d, front)[i]);
        assert Filter(d, front)[i] in front;
      }
    }
  }

  // ------------------------------------------------------------------ pruning

  lemma AtOrAfter(t: Tree, x: Tree)
    requires Ordered(t) && t.Branch? && x in LeavesOf(t.right)
    ensures AtMost(t.key, x.key)
  {
    var i :| 0 <= i < |LeavesOf(t.right)| && LeavesOf(t.right)[i] == x;
    LeafEntry(t.right, i);
    Separates(t, x.key);
    LessOrder();
  }

  lemma Before(t: Tree, x: Tree)
    requires Ordered(t) && t.Branch? && x in LeavesOf(t.left)
    ensures Less(x.key, t.key)
  {
    var i :| 0 <= i < |LeavesOf(t.left)| && LeavesOf(t.left)[i] == x;
    LeafEntry(t.left, i);
    Separates(t, x.key);
  }

  /** A child that the walk does not push has no leaf in the range. */
  lemma PrunedRight(d: Domain, t: Tree)
    requires Ordered(t) && t.Branch? && !BeforeEnd(d, t.key)
    ensures Filter(d, LeavesOf(t.right)) == []
  {
    forall x | x in LeavesOf(t.right) ensures !InDomain(d, x.key) {
      AtOrAfter(t, x);
      LessOrder();
    }
    FilterNone(d, LeavesOf(t.right));
  }

  lemma PrunedLeft(d: Domain, t: Tree)
    requires Ordered(t) && t.Branch? && !AfterStart(d, t.key)
    ensures Filter(d, LeavesOf(t.left)) == []
  {
    forall x | x in LeavesOf(t.left) ensures !InDomain(d, x.key) {
      Before(t, x);
      LessOrder();
    }
    FilterNone(d, LeavesOf(t.left));
  }

  lemma SelectedBranch(d: Domain, ascending: bool, t: Tree)
    requires Ordered(t) && t.Branch?
    ensures Selected(d, ascending, t) ==
      if ascending then Selected(d, ascending, t.left) + Selected(d, ascending, t.right)
      else Selected(d, ascending, t.right) + Selected(d, ascending, t.left)
    ensures !BeforeEnd(d, t.key) ==> Selected(d, ascending, t.right) == []
    ensures !AfterStart(d, t.key) ==> Selected(d, ascending, t.left) == []
  {
    hide Filter, InDomain;
    FilterConcat(d, LeavesOf(t.left), LeavesOf(t.right));
    ReverseConcat(Filter(d, LeavesOf(t.left)), Filter(d, LeavesOf(t.right)));
    if !BeforeEnd(d, t.key) { PrunedRight(d, t); }
    if !AfterStart(d, t.key) { PrunedLeft(d, t); }
  }

  lemma SelectedLeaf(d: Domain, ascending: bool, t: Tree)
    requires t.Leaf?
    ensures Selected(d, ascending, t) == if InDomain(d, t.key) then [t] else []
  {
    var one, none: seq<Tree> := [t], [];
    assert one[..0] == none;
    assert Filter(d, one) == if InDomain(d, t.key) then none + one else none;
    assert Reverse(one) == one + Reverse(none);
  }

  // ------------------------------------------------------------------ the iterator

  predicate AllOrdered(stack: seq<Tree>) { forall i :: 0 <= i < |stack| ==> Ordered(stack[i]) }

  /** What the nodes on the stack still have to yield, the top one first. */
  function StackSelected(d: Domain, ascending: bool, stack: seq<Tree>): seq<Tree> {
    if stack == [] then []
    else Selected(d, ascending, stack[|stack| - 1]) + StackSelected(d, ascending, stack[..|stack| - 1])
  }

  function StackCount(stack: seq<Tree>): nat {
    if stack == [] then 0 else NodeCount(stack[|stack| - 1]) + StackCount(stack[..|stack| - 1])
  }

  lemma Pushed(d: Domain, ascending: bool, stack: seq<Tree>, t: Tree)
    ensures StackSelected(d, ascending, stack + [t]) == Selected(d, ascending, t) + StackSelected(d, ascending, stack)
    ensures StackCount(stack + [t]) == NodeCount(t) + StackCount(stack)
  {
    assert (stack + [t])[..|stack|] == stack;
  }

  ghost function Handles(stack: seq<Node>): set<MemNode> { set n, m | n in stack && m in Handle(n) :: m }

  ghost function Feet(stack: seq<Node>): set<MemNode>
    reads Handles(stack)
  {
    set n, m | n in stack && m in Foot(n) :: m
  }

  /** The nodes denote these ordered trees. */
  ghost predicate StackDenotes(stack: seq<Node>, trees: seq<Tree>)
    reads Handles(stack), Feet(stack)
  {
    && |stack| == |trees| && AllOrdered(trees)
    && forall i :: 0 <= i < |stack| ==> NodeDenotes(stack[i], trees[i])
  }

  ghost predicate NodeDenotes(n: Node, t: Tree)
    reads Handle(n), Foot(n)
  {
    n != Nil && Ok(n) && Denotes(n) == t
  }

  class Iterator {
    const domain: Domain
    const ascending: bool
    var key: Bytes
    var value: Bytes
    var valid: bool
    var stack: seq<Node>
    ghost var trees: seq<Tree>

    ghost predicate Consistent()
      reads this, Handles(stack), Feet(stack)
    {
      StackDenotes(stack, trees)
    }

    /** What the iterator has still to yield after the pair it holds. */
    ghost function Rest(): seq<Tree>
      reads this
    {
      StackSelected(domain, ascending, trees)
    }

    ghost predicate Holds(leaf: Tree)
      reads this
    {
      valid && leaf.Leaf? && key == leaf.key && value == leaf.value
    }

    constructor (domain: Domain, ascending: bool, root: Node)
      requires root != Nil ==> Ok(root) && Ordered(Denotes(root))
      ensures this.domain == domain && this.ascending == ascending && Consistent()
      ensures var all := if root == Nil then [] else Selected(domain, ascending, Denotes(root));
        if all == [] then !valid && Rest() == [] else Holds(all[0]) && Rest() == all[1..]
    {
      this.domain, this.ascending := domain, ascending;
      key, value, valid := [], [], true;
      stack := if root == Nil then [] else [root];
      trees := if root == Nil then [] else [Denotes(root)];
      new;
      hide Ok, StackDenotes, Selected, StackSelected, Ordered;
      if root == Nil {
        NoneDenotes();
        NothingLeft(domain, ascending);
      } else {
        OneDenotes(root);
        OneOnStack(domain, ascending, Denotes(root));
      }
      Next();
    }

    /** Moves to the next leaf of the range, or ends; no node changes. */
    method Next()
      requires Consistent()
      modifies this
      ensures Consistent()
      ensures old(Rest()) == [] ==> !valid && Rest() == []
      ensures old(Rest()) != [] ==>
        Rest() == old(Rest())[1..] && valid == old(valid)
        && old(Rest())[0].Leaf? && key == old(Rest())[0].key && value == old(Rest())[0].value
    {
      hide Selected, StackSelected, StackCount, InDomain, Ordered, MemNode.Valid, ValidNode, TreeOf;
      while stack != []
        invariant Consistent() && Rest() == old(Rest()) && valid == old(valid)
        decreases StackCount(trees)
      {
        var node := stack[|stack| - 1];
        ghost var t, below := trees[|trees| - 1], trees[..|trees| - 1];
        assert trees == below + [t];
        assert NodeDenotes(node, t);
        Pushed(domain, ascending, below, t);
        stack, trees := stack[..|stack| - 1], below;
        View(node);
        var k := KeyOf(node);
        if HeightOf(node) == 0 {
          SelectedLeaf(domain, ascending, t);
          LeafTest(domain, k);
          var startOrAfter := AfterStart(domain, k) || (domain.start.Some? && Compare(domain.start.value, k) == 0);
          if startOrAfter && BeforeEnd(domain, k) {
            key, value := k, ValueOf(node);
            return;
          }
        } else {
          PushChildren(node, t);
        }
      }
      NothingLeft(domain, ascending);
      valid := false;
    }

    /** Pushes the children that may hold leaves of the range. */
    method PushChildren(node: Node, ghost t: Tree)
      requires NodeDenotes(node, t) && t.Branch? && Ordered(t) && Consistent()
      modifies this`stack, this`trees
      ensures Consistent()
      ensures Rest() == Selected(domain, ascending, t) + old(Rest())
      ensures StackCount(trees) < NodeCount(t) + StackCount(old(trees))
    {
      hide Selected, StackSelected, StackCount, AfterStart, BeforeEnd, MemNode.Valid, ValidNode, TreeOf;
      SelectedBranch(domain, ascending, t);
      View(node);
      var k, left, right := KeyOf(node), LeftOf(node), RightOf(node);
      if ascending {
        if BeforeEnd(domain, k) { Push(right, t.right); }
        if AfterStart(domain, k) { Push(left, t.left); }
      } else {
        if AfterStart(domain, k) { Push(left, t.left); }
        if BeforeEnd(domain, k) { Push(right, t.right); }
      }
    }

    method Push(n: Node, ghost t: Tree)
      requires NodeDenotes(n, t) && Ordered(t) && Consistent()
      modifies this`stack, this`trees
      ensures Consistent()
      ensures Rest() == Selected(domain, ascending, t) + old(Rest())
      ensures StackCount(trees) == NodeCount(t) + StackCount(old(trees))
    {
      hide Selected, StackSelected, StackCount, Ordered, MemNode.Valid, ValidNode, TreeOf;
      Pushed(domain, ascending, trees, t);
      stack, trees := stack + [n], trees + [t];
    }
  }

  lemma NoneDenotes()
    ensures StackDenotes([], [])
  {
  }

  lemma OneDenotes(n: Node)
    requires n != Nil && Ok(n) && Ordered(Denotes(n))
    ensures StackDenotes([n], [Denotes(n)])
  {
    hide MemNode.Valid, ValidNode, TreeOf, Ordered;
    assert NodeDenotes(n, Denotes(n));
  }

  lemma OneOnStack(d: Domain, ascending: bool, t: Tree)
    ensures StackSelected(d, ascending, [t]) == Selected(d, ascending, t)
  {
    hide Selected;
    var none: seq<Tree> := [];
    Pushed(d, ascending, none, t);
    assert none + [t] == [t];
    assert Selected(d, ascending, t) + [] == Selected(d, ascending, t);
  }

  lemma LeafTest(d: Domain, key: Bytes)
    ensures (AfterStart(d, key) || (d.start.Some? && Compare(d.start.value, key) == 0)) && BeforeEnd(d, key)
       <==> InDomain(d, key)
  {
    LessOrder();
  }

  lemma NothingLeft(d: Domain, ascending: bool)
    ensures StackSelected(d, ascending, []) == []
  {
  }

  /** Running the iterator to its end yields exactly the leaves of the range, once each, in order. */
  method Collect(domain: Domain, ascending: bool, root: Node) returns (pairs: seq<(Bytes, Bytes)>)
    requires root != Nil ==> Ok(root) && Ordered(Denotes(root))
    ensures pairs == PairsOf(if root == Nil then [] else Selected(domain, ascending, Denotes(root)))
  {
    hide Selected, StackSelected, Ordered, Ok, StackDenotes;
    var it := new Iterator(domain, ascending, root);
    ghost var all := if root == Nil then [] else Selected(domain, ascending, Denotes(root));
    ghost var n := 0;
    pairs := [];
    while it.valid
      invariant fresh(it) && it.Consistent() && n <= |all| && it.domain == domain && it.ascending == ascending
      invariant pairs == PairsOf(all[..n])
      invariant if n == |all| then !it.valid else it.Holds(all[n]) && it.Rest() == all[n + 1..]
      decreases |all| - n
    {
      assert all[..n + 1][..n] == all[..n];
      pairs := pairs + [(it.key, it.value)];
      assert n + 1 < |all| ==> all[n + 1..][0] == all[n + 1] && all[n + 1..][1..] == all[n + 2..];
      it.Next();
      n := n + 1;
    }
    assert all[..n] == all;
  }

  function LeafValue(leaf: Tree): Bytes { if leaf.Leaf? then leaf.value else [] }

  function PairsOf(leaves: seq<Tree>): (r: seq<(Bytes, Bytes)>)
    ensures |r| == |leaves|
    ensures forall i :: 0 <= i < |leaves| ==> r[i] == (leaves[i].key, LeafValue(leaves[i]))
  {
    if leaves == [] then []
    else
      var last := leaves[|leaves| - 1];
      PairsOf(leaves[..|leaves| - 1]) + [(last.key, LeafValue(last))]
  }

  lemma {:induction false} ReverseAt(s: seq<Tree>, i: nat)
    requires i < |s|
    ensures |Reverse(s)| == |s| && Reverse(s)[i] == s[|s| - 1 - i]
  {
    if i > 0 {
      ReverseAt(s[..|s| - 1], i - 1);
    } else if |s| > 1 {
      ReverseAt(s[..|s| - 1], 0);
    }
  }

  /** The selection meets the specification of a range scan: strictly ascending keys, each leaf of the
      tree in the range and nothing else; the descending one is its mirror image. */
  lemma SelectionIsRange(d: Domain, t: Tree, x: Tree, i: nat)
    requires Ordered(t)
    ensures var s := Selected(d, true, t);
      && Leaves.Ascending(s)
      && (x in s <==> x in LeavesOf(t) && InDomain(d, x.key))
      && (i < |s| ==> |Selected(d, false, t)| == |s| && Selected(d, false, t)[i] == s[|s| - 1 - i])
  {
    hide Filter, Reverse, LeavesOf, InDomain, Ordered, Leaves.Ascending;
    LeavesAscend(t);
    FilterAscends(d, LeavesOf(t));
    FilterExact(d, LeavesOf(t), x);
    if i < |Selected(d, true, t)| { ReverseAt(Selected(d, true, t), i); }
  }
}
