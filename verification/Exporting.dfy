/** Export: a tree as the post-order stream of its nodes, walked with a stack or read off the
    snapshot files in sequence. */
module Exporting {
  import opened Bytes
  import E = Encoding
  import opened Avl
  import opened Snapshot
  import opened MemNodes
  import Hashing

  /** One node of the stream; only leaves carry a value. */
  datatype ExportNode = ExportNode(key: Bytes, value: Option<Bytes>, version: int, height: int)

  // Conversions to signed numbers: two's complement.

  function Int8(x: nat): int {
    var b := U8(x);
    if b < 0x80 then b else b - 0x100
  }

  function Int64(x: nat): int {
    if x < 0x8000_0000_0000_0000 then x else x - E.TWO_64
  }

  function ToExport(t: Tree): ExportNode {
    match t
    case Leaf(k, v, version) => ExportNode(k, Some(v), Int64(version), 0)
    case Branch(k, version, height, _, _, _) => ExportNode(k, None, Int64(version), Int8(height))
  }

  function PostOrder(t: Tree): seq<ExportNode> {
    if t.Leaf? then [ToExport(t)] else PostOrder(t.left) + PostOrder(t.right) + [ToExport(t)]
  }

  // ------------------------------------------------------------------ the stack walk

  datatype StackEntry = StackEntry(node: Node, expanded: bool)

  /** An entry as a value: the tree its node denotes. */
  datatype TreeEntry = TreeEntry(tree: Tree, expanded: bool)

  /** What the entries on the stack still have to emit, the top one first. */
  function Remaining(stack: seq<TreeEntry>): seq<ExportNode> {
    if stack == [] then []
    else
      var top := stack[|stack| - 1];
      (if top.expanded then [ToExport(top.tree)] else PostOrder(top.tree)) + Remaining(stack[..|stack| - 1])
  }

  function Weight(stack: seq<TreeEntry>): nat {
    if stack == [] then 0
    else
      var top := stack[|stack| - 1];
      (if top.expanded then 1 else 2 * NodeCount(top.tree)) + Weight(stack[..|stack| - 1])
  }

  lemma PushEntry(stack: seq<TreeEntry>, e: TreeEntry)
    ensures Remaining(stack + [e])
         == (if e.expanded then [ToExport(e.tree)] else PostOrder(e.tree)) + Remaining(stack)
    ensures Weight(stack + [e]) == (if e.expanded then 1 else 2 * NodeCount(e.tree)) + Weight(stack)
  {
    assert (stack + [e])[..|stack|] == stack;
  }

  lemma Expand(stack: seq<TreeEntry>, t: Tree)
    requires t.Branch?
    ensures var before := stack + [TreeEntry(t, false)];
      var after := stack + [TreeEntry(t, true), TreeEntry(t.right, false), TreeEntry(t.left, false)];
      Remaining(after) == Remaining(before) && Weight(after) < Weight(before)
  {
    hide Remaining, Weight;
    var e, r, l := TreeEntry(t, true), TreeEntry(t.right, false), TreeEntry(t.left, false);
    PushEntry(stack, TreeEntry(t, false));
    PushEntry(stack, e);
    PushEntry(stack + [e], r);
    PushEntry(stack + [e] + [r], l);
    assert stack + [e] + [r] + [l] == stack + [e, r, l];
    assert Remaining(stack + [e, r, l])
      == PostOrder(t.left) + (PostOrder(t.right) + ([ToExport(t)] + Remaining(stack)));
  }

  ghost predicate EntryDenotes(e: StackEntry, v: TreeEntry)
    reads Handle(e.node), Foot(e.node)
  {
    e.node != Nil && Ok(e.node) && Denotes(e.node) == v.tree && e.expanded == v.expanded
  }

  ghost function Handles(stack: seq<StackEntry>): set<MemNode> { set e, m | e in stack && m in Handle(e.node) :: m }

  ghost function Feet(stack: seq<StackEntry>): set<MemNode>
    reads Handles(stack)
  {
    set e, m | e in stack && m in Foot(e.node) :: m
  }

  ghost predicate EntriesDenote(stack: seq<StackEntry>, trees: seq<TreeEntry>)
    reads Handles(stack), Feet(stack)
  {
    |stack| == |trees| && forall i :: 0 <= i < |stack| ==> EntryDenotes(stack[i], trees[i])
  }

  lemma TopDenotes(stack: seq<StackEntry>, trees: seq<TreeEntry>)
    requires EntriesDenote(stack, trees) && stack != []
    ensures |trees| == |stack| && EntriesDenote(stack[..|stack| - 1], trees[..|trees| - 1])
    ensures var e, v := stack[|stack| - 1], trees[|trees| - 1];
      && e.node != Nil && Ok(e.node) && Denotes(e.node) == v.tree && e.expanded == v.expanded
      && (HeightOf(e.node) == 0 <==> v.tree.Leaf?) && (e.node.Persisted? ==> InRange(e.node.p))
  {
    hide MemNode.Valid, ValidNode, TreeOf;
    assert EntryDenotes(stack[|stack| - 1], trees[|trees| - 1]);
    View(stack[|stack| - 1].node);
  }

  lemma EmitTop(out: seq<ExportNode>, under: seq<TreeEntry>, top: TreeEntry)
    requires top.expanded || top.tree.Leaf?
    ensures out + [ToExport(top.tree)] + Remaining(under) == out + Remaining(under + [top])
    ensures Weight(under) < Weight(under + [top])
  {
    hide Remaining, Weight;
    PushEntry(under, top);
  }

  lemma ExpandDenotes(below: seq<StackEntry>, under: seq<TreeEntry>, n: Node, t: Tree)
    requires EntriesDenote(below, under) && n != Nil && Ok(n) && Denotes(n) == t && t.Branch?
    ensures n.Persisted? ==> InRange(n.p)
    ensures EntriesDenote(below + [StackEntry(n, true), StackEntry(RightOf(n), false), StackEntry(LeftOf(n), false)],
              under + [TreeEntry(t, true), TreeEntry(t.right, false), TreeEntry(t.left, false)])
  {
    hide MemNode.Valid, ValidNode, TreeOf;
    View(n);
  }

  /** What the callback is handed for a node. */
  function OfNode(n: Node): ExportNode
    requires n.Persisted? ==> InRange(n.p)
    reads Handle(n)
  {
    if HeightOf(n) == 0 then ExportNode(KeyOf(n), Some(ValueOf(n)), Int64(VersionOf(n)), 0)
    else ExportNode(KeyOf(n), None, Int64(VersionOf(n)), Int8(HeightOf(n)))
  }

  lemma ExportsNode(n: Node)
    requires Ok(n)
    ensures n.Persisted? ==> InRange(n.p)
    ensures OfNode(n) == ToExport(Denotes(n))
  {
    hide MemNode.Valid, ValidNode, TreeOf, Hashing.Hash, Int8, Int64;
    View(n);
    VersionView(n);
  }

  /** One turn of the walk: the top entry is emitted, or expanded under its children. */
  method ScanTop(stack: seq<StackEntry>, ghost trees: seq<TreeEntry>, out: seq<ExportNode>)
    returns (stack': seq<StackEntry>, ghost trees': seq<TreeEntry>, out': seq<ExportNode>)
    requires EntriesDenote(stack, trees) && stack != []
    ensures EntriesDenote(stack', trees')
    ensures out' + Remaining(trees') == out + Remaining(trees) && Weight(trees') < Weight(trees)
  {
    hide Remaining, Weight, PostOrder, EntriesDenote, Ok, HeightOf, LeftOf, RightOf, ToExport, OfNode;
    TopDenotes(stack, trees);
    var top, below := stack[|stack| - 1], stack[..|stack| - 1];
    ghost var v, under := trees[|trees| - 1], trees[..|trees| - 1];
    assert trees == under + [v];
    if HeightOf(top.node) == 0 || top.expanded {
      EmitTop(out, under, v);
      ExportsNode(top.node);
      return below, under, out + [OfNode(top.node)];
    }
    Expand(under, v.tree);
    ExpandDenotes(below, under, top.node, v.tree);
    stack' := below
      + [StackEntry(top.node, true), StackEntry(RightOf(top.node), false), StackEntry(LeftOf(top.node), false)];
    trees' := under + [TreeEntry(v.tree, true), TreeEntry(v.tree.right, false), TreeEntry(v.tree.left, false)];
    out' := out;
  }

  /** The walk over in-memory and persisted nodes emits exactly the post-order of the tree. */
  method ScanPostOrder(root: Node) returns (out: seq<ExportNode>)
    requires root != Nil ==> Ok(root)
    ensures out == if root == Nil then [] else PostOrder(Denotes(root))
  {
    hide Ok, Remaining, Weight, PostOrder, EntriesDenote;
    out := [];
    if root == Nil { return; }
    var stack := [StackEntry(root, false)];
    ghost var trees := [TreeEntry(Denotes(root), false)];
    OneEntry(root);
    while stack != []
      invariant EntriesDenote(stack, trees) && out + Remaining(trees) == PostOrder(Denotes(root))
      decreases Weight(trees)
    {
      stack, trees, out := ScanTop(stack, trees, out);
    }
    NoEntries(trees);
  }

  lemma NoEntries(trees: seq<TreeEntry>)
    requires EntriesDenote([], trees)
    ensures Remaining(trees) == []
  {
  }

  lemma OneEntry(n: Node)
    requires n != Nil && Ok(n)
    ensures EntriesDenote([StackEntry(n, false)], [TreeEntry(Denotes(n), false)])
    ensures [] + Remaining([TreeEntry(Denotes(n), false)]) == PostOrder(Denotes(n))
  {
    hide PostOrder, MemNode.Valid, ValidNode, TreeOf;
    var one := [TreeEntry(Denotes(n), false)];
    assert one[..0] == [];
    assert Remaining(one) == PostOrder(Denotes(n)) + [];
  }

  // ------------------------------------------------------------------ the sequential reader

  function LeafOut(f: Files, j: nat): ExportNode
    requires j < |f.leaves|
  {
    ExportNode(f.leaves[j].key, Some(f.leaves[j].value), Int64(f.leaves[j].version), 0)
  }

  function LeavesOut(f: Files, from: nat, to: nat): seq<ExportNode>
    requires to <= |f.leaves|
  {
    if from >= to then [] else LeavesOut(f, from, to - 1) + [LeafOut(f, to - 1)]
  }

  predicate Readable(f: Files) {
    forall i :: 0 <= i < |f.nodes| ==>
      f.nodes[i].keyLeaf < |f.leaves| && i + f.nodes[i].preTrees + 2 <= |f.leaves|
  }

  function NodeOut(f: Files, i: nat): ExportNode
    requires Readable(f) && i < |f.nodes|
  {
    ExportNode(f.leaves[f.nodes[i].keyLeaf].key, None, Int64(f.nodes[i].version), Int8(f.nodes[i].height))
  }

  /** How many leaves are out before the branches from..to have all been emitted, starting with j. */
  function LeavesBy(f: Files, from: nat, to: nat, j: nat): (k: nat)
    requires Readable(f) && from <= to <= |f.nodes| && j <= |f.leaves|
    ensures j <= k <= |f.leaves|
  {
    if from == to then j
    else
      var k := LeavesBy(f, from, to - 1, j);
      var end := to - 1 + f.nodes[to - 1].preTrees + 2;
      if k < end then end else k
  }

  function Emitted(f: Files, from: nat, to: nat, j: nat): seq<ExportNode>
    requires Readable(f) && from <= to <= |f.nodes| && j <= |f.leaves|
  {
    if from == to then []
    else
      Emitted(f, from, to - 1, j)
      + LeavesOut(f, LeavesBy(f, from, to - 1, j), LeavesBy(f, from, to, j)) + [NodeOut(f, to - 1)]
  }

  lemma {:induction false} LeavesOutSplit(f: Files, a: nat, b: nat, c: nat)
    requires a <= b <= c <= |f.leaves|
    ensures LeavesOut(f, a, c) == LeavesOut(f, a, b) + LeavesOut(f, b, c)
  {
    if b < c { LeavesOutSplit(f, a, b, c - 1); }
  }

  lemma {:induction false} EmittedSplit(f: Files, a: nat, b: nat, c: nat, j: nat)
    requires Readable(f) && a <= b <= c <= |f.nodes| && j <= |f.leaves|
    ensures LeavesBy(f, a, c, j) == LeavesBy(f, b, c, LeavesBy(f, a, b, j))
    ensures Emitted(f, a, c, j) == Emitted(f, a, b, j) + Emitted(f, b, c, LeavesBy(f, a, b, j))
  {
    hide Readable, LeavesOut, NodeOut;
    if b < c { EmittedSplit(f, a, b, c - 1, j); }
  }

  /** A subtree's branches, followed by its leaves that are still missing, make its post-order, after
      any leaves before it that were still missing. */
  ghost predicate EmitsTree(f: Files, t: Tree, leaf: nat, branch: nat, j: nat)
    requires Readable(f) && Size(t) >= 1 && branch + Size(t) - 1 <= |f.nodes|
    requires leaf + Size(t) <= |f.leaves| && j <= leaf
  {
    var k := LeavesBy(f, branch, branch + Size(t) - 1, j);
    && k <= leaf + Size(t)
    && Emitted(f, branch, branch + Size(t) - 1, j) + LeavesOut(f, k, leaf + Size(t))
      == LeavesOut(f, j, leaf) + PostOrder(t)
  }

  /** From the children to the branch: the middle of the proof, on sequences alone. */
  lemma JoinParts(l: seq<ExportNode>, lm: seq<ExportNode>, r: seq<ExportNode>, rm: seq<ExportNode>,
                  pre: seq<ExportNode>, left: seq<ExportNode>, right: seq<ExportNode>, node: ExportNode)
    requires l + lm == pre + left && r + rm == lm + right
    ensures l + r + rm + [node] == pre + (left + right + [node])
  {
    assert l + r + rm == l + (r + rm);
    assert l + (lm + right) == (l + lm) + right;
  }

  lemma EmitsBranch(f: Files, t: Tree, leaf: nat, branch: nat, j: nat, ls: nat, mid: nat)
    requires Readable(f) && WellFormed(t) && t.Branch? && Holds(f, t, leaf, branch) && j <= leaf
    requires ls == Size(t.left) && Size(t) == ls + Size(t.right) && ls >= 1 && Size(t.right) >= 1
    requires branch + Size(t) - 1 <= |f.nodes| && leaf + Size(t) <= |f.leaves|
    requires mid == LeavesBy(f, branch, branch + ls - 1, j) && mid <= leaf + ls
    requires EmitsTree(f, t.left, leaf, branch, j)
    requires EmitsTree(f, t.right, leaf + ls, branch + ls - 1, mid)
    ensures EmitsTree(f, t, leaf, branch, j)
  {
    hide Readable, LeavesOut, WellFormed, LeavesBy, Emitted;
    var last := branch + Size(t) - 2;
    var k := LeavesBy(f, branch + ls - 1, last, mid);
    var l, lm := Emitted(f, branch, branch + ls - 1, j), LeavesOut(f, mid, leaf + ls);
    var r, rm := Emitted(f, branch + ls - 1, last, mid), LeavesOut(f, k, leaf + Size(t));
    EmittedSplit(f, branch, branch + ls - 1, last, j);
    BranchKey(f, t, leaf, branch);
    EmittedLast(f, branch, last, j, leaf + Size(t));
    JoinParts(l, lm, r, rm, LeavesOut(f, j, leaf), PostOrder(t.left), PostOrder(t.right), ToExport(t));
    NoLeaves(f, leaf + Size(t));
  }

  lemma NoLeaves(f: Files, j: nat)
    requires j <= |f.leaves|
    ensures LeavesOut(f, j, j) == []
  {
  }

  lemma EmittedLast(f: Files, from: nat, last: nat, j: nat, end: nat)
    requires Readable(f) && from <= last < |f.nodes| && j <= |f.leaves|
    requires end == last + f.nodes[last].preTrees + 2 && LeavesBy(f, from, last, j) <= end
    ensures LeavesBy(f, from, last + 1, j) == end <= |f.leaves|
    ensures Emitted(f, from, last + 1, j)
         == Emitted(f, from, last, j) + LeavesOut(f, LeavesBy(f, from, last, j), end) + [NodeOut(f, last)]
  {
  }

  lemma BranchKey(f: Files, t: Tree, leaf: nat, branch: nat)
    requires Readable(f) && WellFormed(t) && t.Branch? && Holds(f, t, leaf, branch)
    ensures branch + Size(t) - 2 < |f.nodes| && NodeOut(f, branch + Size(t) - 2) == ToExport(t)
    ensures branch + Size(t) - 2 + f.nodes[branch + Size(t) - 2].preTrees + 2 == leaf + Size(t)
  {
    FirstLeaf(f, t.right, leaf + Size(t.left), branch + Size(t.left) - 1);
  }

  lemma {:induction false} Emits(f: Files, t: Tree, leaf: nat, branch: nat, j: nat)
    requires Readable(f) && WellFormed(t) && Holds(f, t, leaf, branch) && j <= leaf
    requires branch + Size(t) - 1 <= |f.nodes|
    ensures Size(t) >= 1 && leaf + Size(t) <= |f.leaves| && EmitsTree(f, t, leaf, branch, j)
    decreases t
  {
    hide Readable, LeavesBy, Emitted, Holds, WellFormed, LeavesOut, PostOrder;
    HeldParts(f, t, leaf, branch);
    if t.Leaf? {
      EmitsLeaf(f, t, leaf, branch, j);
    } else {
      var ls := Size(t.left);
      Emits(f, t.left, leaf, branch, j);
      var mid := LeavesBy(f, branch, branch + ls - 1, j);
      Emits(f, t.right, leaf + ls, branch + ls - 1, mid);
      EmitsBranch(f, t, leaf, branch, j, ls, mid);
    }
  }

  lemma HeldParts(f: Files, t: Tree, leaf: nat, branch: nat)
    requires WellFormed(t) && Holds(f, t, leaf, branch)
    ensures Size(t) >= 1 && leaf + Size(t) <= |f.leaves|
    ensures t.Branch? ==>
      && WellFormed(t.left) && WellFormed(t.right) && Size(t) == Size(t.left) + Size(t.right)
      && Size(t.left) >= 1 && Size(t.right) >= 1 && Holds(f, t.left, leaf, branch)
      && Holds(f, t.right, leaf + Size(t.left), branch + Size(t.left) - 1)
  {
    SizePositive(t);
    HeldLeaves(f, t, leaf, branch);
    if t.Branch? {
      SizePositive(t.left);
      SizePositive(t.right);
    }
  }

  lemma EmitsLeaf(f: Files, t: Tree, leaf: nat, branch: nat, j: nat)
    requires Readable(f) && t.Leaf? && Holds(f, t, leaf, branch) && j <= leaf && branch <= |f.nodes|
    ensures EmitsTree(f, t, leaf, branch, j)
  {
    LeavesOutSplit(f, j, leaf, leaf + 1);
  }

  /** The files of a tree can be read: every key leaf and every leaf due before a branch is there. */
  lemma {:induction false} HeldReadable(f: Files, t: Tree, leaf: nat, branch: nat, i: nat)
    requires Holds(f, t, leaf, branch) && Balanced(t) && branch <= i < branch + Size(t) - 1
    ensures i < |f.nodes| && f.nodes[i].keyLeaf < |f.leaves| && i + f.nodes[i].preTrees + 2 <= |f.leaves|
    decreases t
  {
    SizePositive(t);
    HeldLeaves(f, t, leaf, branch);
    if t.Branch? {
      SizePositive(t.left);
      SizePositive(t.right);
      var ls := Size(t.left);
      if i < branch + ls - 1 {
        HeldReadable(f, t.left, leaf, branch, i);
      } else if i < branch + t.size - 2 {
        HeldReadable(f, t.right, leaf + ls, branch + ls - 1, i);
      }
    }
  }

  /** The files hold this tree and nothing else. */
  ghost predicate HoldsExactly(f: Files, t: Tree) {
    WellFormed(t) && Holds(f, t, 0, 0) && |f.leaves| == Size(t) && |f.nodes| == Size(t) - 1
  }

  /** The leaves due before one branch: emitted until enough subtrees are pending. */
  method EmitLeaves(f: Files, i: nat, from: nat, before: seq<ExportNode>) returns (out: seq<ExportNode>, j: nat)
    requires Readable(f) && i < |f.nodes| && from <= |f.leaves|
    ensures j == if from < i + f.nodes[i].preTrees + 2 then i + f.nodes[i].preTrees + 2 else from
    ensures out == before + LeavesOut(f, from, j)
  {
    out, j := before, from;
    var pendingTrees := from - i;
    while pendingTrees < f.nodes[i].preTrees + 2
      invariant from <= j && pendingTrees == j - i
      invariant j == from || j <= i + f.nodes[i].preTrees + 2
      invariant out == before + LeavesOut(f, from, j)
    {
      out := out + [LeafOut(f, j)];
      j := j + 1;
      pendingTrees := pendingTrees + 1;
    }
  }

  /** Reading the files in sequence emits exactly the post-order of the tree they hold. */
  method ExportFiles(f: Files, ghost t: Option<Tree>) returns (out: seq<ExportNode>)
    requires t.None? ==> f == EMPTY
    requires t.Some? ==> HoldsExactly(f, t.value)
    ensures out == if t.None? then [] else PostOrder(t.value)
  {
    hide HoldsExactly;
    if |f.leaves| == 0 { ExportsAll(f, t); return []; }
    ExportsAll(f, t);
    if |f.leaves| == 1 { return [LeafOut(f, 0)]; }
    out := [];
    var j := 0;
    for i := 0 to |f.nodes|
      invariant j == LeavesBy(f, 0, i, 0) && out == Emitted(f, 0, i, 0)
    {
      var k := j;
      out, j := EmitLeaves(f, i, j, out);
      out := out + [NodeOut(f, i)];
      assert out == Emitted(f, 0, i, 0) + LeavesOut(f, k, j) + [NodeOut(f, i)];
    }
  }

  lemma ExportsAll(f: Files, t: Option<Tree>)
    requires t.None? ==> f == EMPTY
    requires t.Some? ==> HoldsExactly(f, t.value)
    ensures Readable(f) && (t.None? <==> |f.leaves| == 0)
    ensures |f.leaves| == 1 ==> PostOrder(t.value) == [LeafOut(f, 0)]
    ensures |f.leaves| > 1 ==> PostOrder(t.value) == Emitted(f, 0, |f.nodes|, 0)
  {
    hide Emitted, LeavesBy;
    if t.Some? {
      SizePositive(t.value);
      forall i | 0 <= i < |f.nodes|
        ensures f.nodes[i].keyLeaf < |f.leaves| && i + f.nodes[i].preTrees + 2 <= |f.leaves|
      {
        HeldReadable(f, t.value, 0, 0, i);
      }
      if t.value.Branch? {
        SizePositive(t.value.left);
        SizePositive(t.value.right);
        Emits(f, t.value, 0, 0, 0);
        AllLeavesOut(f, t.value);
        NoLeaves(f, 0);
        NoLeaves(f, |f.leaves|);
        var all := Emitted(f, 0, |f.nodes|, 0);
        assert all + [] == all && [] + PostOrder(t.value) == PostOrder(t.value);
      }
    }
  }

  /** The root branch is emitted last, after every leaf. */
  lemma AllLeavesOut(f: Files, t: Tree)
    requires Readable(f) && WellFormed(t) && t.Branch? && Holds(f, t, 0, 0)
    requires |f.leaves| == Size(t) && |f.nodes| == Size(t) - 1 && |f.nodes| >= 1
    ensures LeavesBy(f, 0, |f.nodes|, 0) == |f.leaves|
  {
    BranchKey(f, t, 0, 0);
  }
}
