/** Import: a stack machine that turns a stream of exported nodes back into snapshot files. */
module Importing {
  import opened Bytes
  import opened Encoding
  import opened Avl
  import opened Snapshot
  import opened Exporting
  import opened Hashing
  import V = Versioned

  // ------------------------------------------------------------------ the machine on trees

  /** A leaf is pushed; a branch takes the two topmost subtrees. A stream with too few of them makes
      the code index below its stack, which stops it. */
  function Push(trees: seq<Tree>, n: ExportNode): Option<seq<Tree>> {
    if n.version < 0 then None
    else if n.height == 0 then Some(trees + [Leaf(n.key, V.Normalise(n.value), n.version)])
    else if |trees| < 2 then None
    else
      var l, r := trees[|trees| - 2], trees[|trees| - 1];
      Some(trees[..|trees| - 2] + [Branch(n.key, n.version, U8(n.height), Size(l) + Size(r), l, r)])
  }

  function PushAll(trees: seq<Tree>, nodes: seq<ExportNode>): Option<seq<Tree>> {
    if nodes == [] then Some(trees)
    else
      match PushAll(trees, nodes[..|nodes| - 1])
      case None => None
      case Some(ts) => Push(ts, nodes[|nodes| - 1])
  }

  /** Sizes are exact, heights fit their byte, versions are signed 64-bit numbers. */
  predicate Exportable(t: Tree) {
    match t
    case Leaf(_, _, version) => version <= V.MAX_INT64
    case Branch(_, version, height, size, l, r) =>
      && Exportable(l) && Exportable(r) && size == Size(l) + Size(r)
      && 0 < height < 0x100 && version <= V.MAX_INT64
  }

  lemma {:induction false} PushConcat(trees: seq<Tree>, a: seq<ExportNode>, b: seq<ExportNode>)
    ensures PushAll(trees, a + b) ==
      match PushAll(trees, a) case None => None case Some(ts) => PushAll(ts, b)
  {
    hide Push;
    if b == [] {
      assert a + b == a;
    } else {
      PushConcat(trees, a, b[..|b| - 1]);
      assert (a + b)[..|a + b| - 1] == a + b[..|b| - 1];
    }
  }

  lemma PushOne(trees: seq<Tree>, n: ExportNode)
    ensures PushAll(trees, [n]) == Push(trees, n)
  {
    assert [n][..0] == [];
  }

  lemma SignedByte(height: nat)
    requires 0 < height < 0x100
    ensures Int8(height) != 0 && U8(Int8(height)) == height
  {
  }

  /** Pushing the post-order of a tree pushes the tree. */
  lemma {:induction false} PushPostOrder(trees: seq<Tree>, t: Tree)
    requires Exportable(t)
    ensures PushAll(trees, PostOrder(t)) == Some(trees + [t])
    decreases t
  {
    hide PushAll, Int8, U8;
    PushOne(trees, ToExport(t));
    if t.Branch? {
      var l, r, n := PostOrder(t.left), PostOrder(t.right), [ToExport(t)];
      PushPostOrder(trees, t.left);
      PushPostOrder(trees + [t.left], t.right);
      PushConcat(trees, l, r);
      PushConcat(trees, l + r, n);
      var both := trees + [t.left] + [t.right];
      PushOne(both, ToExport(t));
      SignedByte(t.height);
      assert both[..|both| - 2] == trees;
    }
  }

  /** Different trees have different streams. */
  lemma PostOrderInjective(t: Tree, u: Tree)
    requires Exportable(t) && Exportable(u) && PostOrder(t) == PostOrder(u)
    ensures t == u
  {
    PushPostOrder([], t);
    PushPostOrder([], u);
    assert [] + [t] == [t] && [] + [u] == [u];
  }

  // ------------------------------------------------------------------ what any stream means

  /** The machine ignores a branch's value, and reads a missing leaf value as an empty one. */
  function Normal(n: ExportNode): ExportNode {
    n.(value := if n.height == 0 then Some(V.Normalise(n.value)) else None)
  }

  function Normals(nodes: seq<ExportNode>): seq<ExportNode> {
    if nodes == [] then [] else Normals(nodes[..|nodes| - 1]) + [Normal(nodes[|nodes| - 1])]
  }

  function PostOrders(trees: seq<Tree>): seq<ExportNode> {
    if trees == [] then [] else PostOrders(trees[..|trees| - 1]) + PostOrder(trees[|trees| - 1])
  }

  /** Signed 8-bit heights and signed 64-bit versions. */
  predicate Typed(nodes: seq<ExportNode>) {
    forall i :: 0 <= i < |nodes| ==> -0x80 <= nodes[i].height < 0x80 && nodes[i].version <= V.MAX_INT64
  }

  lemma UnsignedByte(height: int)
    requires -0x80 <= height < 0x80
    ensures Int8(U8(height)) == height
  {
  }

  lemma PostOrdersPush(trees: seq<Tree>, t: Tree)
    ensures PostOrders(trees + [t]) == PostOrders(trees) + PostOrder(t)
  {
    assert (trees + [t])[..|trees|] == trees;
  }

  lemma PushReads(trees: seq<Tree>, n: ExportNode, after: seq<Tree>)
    requires Push(trees, n) == Some(after) && -0x80 <= n.height < 0x80 && n.version <= V.MAX_INT64
    ensures PostOrders(after) == PostOrders(trees) + [Normal(n)]
  {
    hide Int8, U8, PostOrders;
    if n.height == 0 {
      PostOrdersPush(trees, after[|after| - 1]);
    } else {
      UnsignedByte(n.height);
      var front, l, r := trees[..|trees| - 2], trees[|trees| - 2], trees[|trees| - 1];
      var t := after[|after| - 1];
      PostOrdersPush(front, t);
      PostOrdersPush(front, l);
      PostOrdersPush(front + [l], r);
      assert trees == front + [l] + [r];
      assert PostOrder(t) == PostOrder(l) + PostOrder(r) + [Normal(n)];
      Regroup(PostOrders(front), PostOrder(l), PostOrder(r), [Normal(n)]);
    }
  }

  lemma Regroup(a: seq<ExportNode>, b: seq<ExportNode>, c: seq<ExportNode>, d: seq<ExportNode>)
    ensures a + (b + c + d) == a + b + c + d
  {
  }

  /** Whatever stream the machine accepts is the post-order of the trees it has left pending; with one
      pending tree, the stream is the post-order of that full binary tree. */
  lemma {:induction false} StreamIsPostOrder(nodes: seq<ExportNode>)
    requires Typed(nodes) && PushAll([], nodes).Some?
    ensures PostOrders(PushAll([], nodes).value) == Normals(nodes)
    ensures |PushAll([], nodes).value| == 1 ==> PostOrder(PushAll([], nodes).value[0]) == Normals(nodes)
  {
    hide Push;
    if nodes != [] {
      var front := nodes[..|nodes| - 1];
      StreamIsPostOrder(front);
      PushReads(PushAll([], front).value, nodes[|nodes| - 1], PushAll([], nodes).value);
    }
    var trees := PushAll([], nodes).value;
    if |trees| == 1 {
      assert trees[..0] == [];
      assert [] + PostOrder(trees[0]) == PostOrder(trees[0]);
    }
  }

  // ------------------------------------------------------------------ the files it writes

  function WriteForest(trees: seq<Tree>): Files {
    if trees == [] then EMPTY else WriteTree(Hash, WriteForest(trees[..|trees| - 1]), trees[|trees| - 1])
  }

  function Count(t: Tree): nat { if t.Leaf? then 1 else Count(t.left) + Count(t.right) }

  lemma {:induction false} WriteCounts(f: Files, t: Tree)
    ensures var g := WriteTree(Hash, f, t);
      |g.leaves| == |f.leaves| + Count(t) && |g.nodes| + 1 == |f.nodes| + Count(t) && Count(t) >= 1
    decreases t
  {
    hide Hash, U8, U32;
    if t.Branch? {
      WriteCounts(f, t.left);
      WriteCounts(WriteTree(Hash, f, t.left), t.right);
    }
  }

  /** One tree is pending for every leaf that no branch has joined yet. */
  lemma {:induction false} ForestCounts(trees: seq<Tree>)
    ensures |WriteForest(trees).leaves| == |WriteForest(trees).nodes| + |trees|
  {
    hide WriteTree;
    if trees != [] {
      ForestCounts(trees[..|trees| - 1]);
      WriteCounts(WriteForest(trees[..|trees| - 1]), trees[|trees| - 1]);
    }
  }

  datatype PendingNode = PendingNode(size: nat, hash: Bytes)

  datatype AddResult = Added | NegativeVersion | TooFewPending

  /** The stacks know, for every pending tree, the leaves written up to its end, its size and hash. */
  ghost predicate Describe(trees: seq<Tree>, leavesStack: seq<nat>, nodeStack: seq<PendingNode>) {
    && |leavesStack| == |trees| && |nodeStack| == |trees|
    && forall i :: 0 <= i < |trees| ==>
      && leavesStack[i] == U32(|WriteForest(trees[..i + 1]).leaves|)
      && nodeStack[i] == PendingNode(Size(trees[i]), Hash(trees[i]))
  }

  lemma DescribePush(trees: seq<Tree>, leavesStack: seq<nat>, nodeStack: seq<PendingNode>, t: Tree)
    requires Describe(trees, leavesStack, nodeStack)
    ensures Describe(trees + [t], leavesStack + [U32(|WriteForest(trees + [t]).leaves|)],
              nodeStack + [PendingNode(Size(t), Hash(t))])
  {
    hide WriteForest, Hash, U32;
    assert forall i :: 0 <= i <= |trees| ==> (trees + [t])[..i] == trees[..i];
    assert (trees + [t])[..|trees| + 1] == trees + [t];
  }

  lemma DescribePrefix(trees: seq<Tree>, leavesStack: seq<nat>, nodeStack: seq<PendingNode>, n: nat)
    requires Describe(trees, leavesStack, nodeStack) && n <= |trees|
    ensures Describe(trees[..n], leavesStack[..n], nodeStack[..n])
  {
    hide WriteForest, Hash, U32;
    assert forall i :: 0 <= i <= n ==> trees[..n][..i] == trees[..i];
  }

  class Importer {
    var files: Files
    var leavesStack: seq<nat>
    var nodeStack: seq<PendingNode>
    ghost var trees: seq<Tree>

    ghost predicate Valid()
      reads this
    {
      files == WriteForest(trees) && Describe(trees, leavesStack, nodeStack)
    }

    constructor ()
      ensures Valid() && trees == [] && files == EMPTY
    {
      files, leavesStack, nodeStack, trees := EMPTY, [], [], [];
    }

    method AddLeaf(n: ExportNode)
      requires Valid() && n.version >= 0 && n.height == 0
      modifies this
      ensures Valid() && Some(trees) == Push(old(trees), n) && |files.leaves| == |old(files).leaves| + 1
    {
      hide WriteForest, LeafPreimage, U32, Hash, Describe;
      var value := V.Normalise(n.value);
      var hash := Sha256(LeafPreimage(n.version, n.key, value));
      files := WriteLeaf(files, n.version, n.key, value, hash);
      leavesStack := leavesStack + [U32(|files.leaves|)];
      nodeStack := nodeStack + [PendingNode(1, hash)];
      ghost var t := Leaf(n.key, value, n.version);
      HashParts(t);
      PushedForest(trees, t);
      DescribePush(trees, old(leavesStack), old(nodeStack), t);
      trees := trees + [t];
    }

    method AddBranch(n: ExportNode)
      requires Valid() && n.version >= 0 && n.height != 0 && |nodeStack| >= 2 && |files.leaves| < TWO_32
      modifies this
      ensures Valid() && Some(trees) == Push(old(trees), n) && files.leaves == old(files).leaves
    {
      hide WriteForest, WriteTree, InnerPreimage, U32, U8, Hash, Describe, Push;
      var front := |nodeStack| - 2;
      ghost var t := AddsBranch(trees, files, leavesStack, nodeStack, n);
      var left, right := nodeStack[front], nodeStack[front + 1];
      var size, height := left.size + right.size, U8(n.height);
      var hash := Sha256(InnerPreimage(height, size, n.version, left.hash, right.hash));
      var g := WriteBranch(files, n.version, U32(size), height, U8(front), leavesStack[front], hash);
      files, leavesStack, nodeStack, trees :=
        g, leavesStack[..front] + [U32(|g.leaves|)],
        nodeStack[..front] + [PendingNode(size, hash)], trees[..front] + [t];
    }

    method Add(n: ExportNode) returns (r: AddResult)
      requires Valid() && |files.leaves| < TWO_32
      modifies this
      ensures r.Added? <==> Push(old(trees), n).Some?
      ensures r.Added? ==> Valid() && Some(trees) == Push(old(trees), n)
      ensures r.Added? ==> |files.leaves| == |old(files).leaves| + IsLeaf(n)
      ensures r.NegativeVersion? <==> n.version < 0
      ensures !r.Added? ==> unchanged(this)
    {
      hide WriteForest, Hash, U32, U8, Describe;
      DescribeTop(trees, leavesStack, nodeStack);
      if n.version < 0 { return NegativeVersion; }
      if n.height == 0 {
        AddLeaf(n);
      } else {
        if |nodeStack| < 2 { return TooFewPending; }
        AddBranch(n);
      }
      return Added;
    }
  }

  lemma DescribeTop(trees: seq<Tree>, leavesStack: seq<nat>, nodeStack: seq<PendingNode>)
    requires Describe(trees, leavesStack, nodeStack)
    ensures |leavesStack| == |trees| && |nodeStack| == |trees|
    ensures |trees| >= 2 ==>
      var top := |trees|;
      && leavesStack[top - 2] == U32(|WriteForest(trees[..top - 1]).leaves|)
      && nodeStack[top - 2] == PendingNode(Size(trees[top - 2]), Hash(trees[top - 2]))
      && nodeStack[top - 1] == PendingNode(Size(trees[top - 1]), Hash(trees[top - 1]))
  {
    hide WriteForest, Hash, U32;
  }

  /** One branch on the stacks is one branch on the trees. */
  lemma AddsBranch(trees: seq<Tree>, files: Files, leavesStack: seq<nat>, nodeStack: seq<PendingNode>, n: ExportNode)
    returns (t: Tree)
    requires files == WriteForest(trees) && Describe(trees, leavesStack, nodeStack)
    requires |nodeStack| >= 2 && n.version >= 0 && n.height != 0 && |files.leaves| < TWO_32
    ensures |leavesStack| == |trees| == |nodeStack|
    ensures var front := |trees| - 2;
      var size, hash := nodeStack[front].size + nodeStack[front + 1].size,
        Sha256(InnerPreimage(U8(n.height), nodeStack[front].size + nodeStack[front + 1].size, n.version,
          nodeStack[front].hash, nodeStack[front + 1].hash));
      var g := WriteBranch(files, n.version, U32(size), U8(n.height), U8(front), leavesStack[front], hash);
      && Push(trees, n) == Some(trees[..front] + [t])
      && g == WriteForest(trees[..front] + [t])
      && Describe(trees[..front] + [t], leavesStack[..front] + [U32(|g.leaves|)],
           nodeStack[..front] + [PendingNode(size, hash)])
  {
    hide WriteForest, WriteTree, U32, U8, Hash, Describe, InnerPreimage;
    DescribeTop(trees, leavesStack, nodeStack);
    ByteRange(n.height);
    var front := |trees| - 2;
    var l, r := trees[front], trees[front + 1];
    t := Branch(n.key, n.version, U8(n.height), Size(l) + Size(r), l, r);
    HashParts(t);
    JoinedForest(trees, t);
    PushedForest(trees[..front], t);
    DescribePrefix(trees, leavesStack, nodeStack, front);
    DescribePush(trees[..front], leavesStack[..front], nodeStack[..front], t);
  }

  lemma ByteRange(x: int)
    ensures U8(x) < 0x100
  {
  }

  lemma PushedForest(trees: seq<Tree>, t: Tree)
    ensures WriteForest(trees + [t]) == WriteTree(Hash, WriteForest(trees), t)
  {
    hide WriteTree;
    assert (trees + [t])[..|trees|] == trees;
  }

  /** Joining the two topmost subtrees only appends the branch record. */
  lemma JoinedForest(trees: seq<Tree>, t: Tree)
    requires |trees| >= 2 && t.Branch? && t.left == trees[|trees| - 2] && t.right == trees[|trees| - 1]
    requires |WriteForest(trees).leaves| < TWO_32 && t.height < 0x100
    ensures var front := trees[..|trees| - 2];
      WriteTree(Hash, WriteForest(front), t)
        == WriteBranch(WriteForest(trees), t.version, U32(t.size), U8(t.height), U8(|trees| - 2),
             U32(|WriteForest(trees[..|trees| - 1]).leaves|), Hash(t))
    ensures U8(t.height) == t.height
  {
    hide Hash, U8, U32;
    var front, one := trees[..|trees| - 2], trees[..|trees| - 1];
    assert one[..|one| - 1] == front;
    ForestCounts(front);
    WriteCounts(WriteForest(front), t.left);
    WriteCounts(WriteForest(one), t.right);
    SmallCounts(|WriteForest(front).leaves|, |WriteForest(front).nodes|, t.height);
  }

  function IsLeaf(n: ExportNode): nat { if n.height == 0 then 1 else 0 }

  function LeavesIn(nodes: seq<ExportNode>): nat {
    if nodes == [] then 0 else LeavesIn(nodes[..|nodes| - 1]) + IsLeaf(nodes[|nodes| - 1])
  }

  lemma {:induction false} LeavesSplit(nodes: seq<ExportNode>, n: nat)
    requires n <= |nodes|
    ensures LeavesIn(nodes[..n]) <= LeavesIn(nodes)
    decreases |nodes| - n
  {
    if n < |nodes| {
      assert nodes[..n + 1][..n] == nodes[..n];
      LeavesSplit(nodes, n + 1);
    } else {
      assert nodes[..n] == nodes;
    }
  }

  lemma {:induction false} LeavesConcat(a: seq<ExportNode>, b: seq<ExportNode>)
    ensures LeavesIn(a + b) == LeavesIn(a) + LeavesIn(b)
  {
    if b == [] {
      assert a + b == a;
    } else {
      LeavesConcat(a, b[..|b| - 1]);
      assert (a + b)[..|a + b| - 1] == a + b[..|b| - 1];
    }
  }

  lemma {:induction false} LeavesOfTree(t: Tree)
    requires Exportable(t)
    ensures LeavesIn(PostOrder(t)) == Size(t)
    decreases t
  {
    hide Int8;
    assert [ToExport(t)][..0] == [];
    if t.Branch? {
      LeavesOfTree(t.left);
      LeavesOfTree(t.right);
      LeavesConcat(PostOrder(t.left), PostOrder(t.right));
      LeavesConcat(PostOrder(t.left) + PostOrder(t.right), [ToExport(t)]);
      SignedByte(t.height);
    }
  }

  /** The whole import: the stream must end with at most one pending tree. */
  method Import(version: int, nodes: seq<ExportNode>) returns (files: Option<Files>)
    requires LeavesIn(nodes) < TWO_32
    ensures files.Some? <==> version >= 0 && PushAll([], nodes).Some? && |PushAll([], nodes).value| <= 1
    ensures files.Some? ==> files == Some(WriteForest(PushAll([], nodes).value))
  {
    hide WriteForest, Push, Hash, U32, Describe;
    if version < 0 { return None; }
    var importer := new Importer();
    assert nodes[..0] == [];
    for i := 0 to |nodes|
      invariant importer.Valid() && PushAll([], nodes[..i]) == Some(importer.trees)
      invariant fresh(importer) && |importer.files.leaves| == LeavesIn(nodes[..i])
    {
      assert nodes[..i + 1][..i] == nodes[..i];
      LeavesSplit(nodes, i);
      var r := importer.Add(nodes[i]);
      if !r.Added? {
        PushStuck(nodes, i + 1);
        return None;
      }
    }
    assert nodes[..|nodes|] == nodes;
    DescribeTop(importer.trees, importer.leavesStack, importer.nodeStack);
    if |importer.leavesStack| > 1 { return None; }
    return Some(importer.files);
  }

  lemma {:induction false} PushStuck(nodes: seq<ExportNode>, n: nat)
    requires n <= |nodes| && PushAll([], nodes[..n]).None?
    ensures PushAll([], nodes).None?
    decreases |nodes| - n
  {
    hide Push;
    if n < |nodes| {
      assert nodes[..n + 1][..n] == nodes[..n];
      PushStuck(nodes, n + 1);
    } else {
      assert nodes[..n] == nodes;
    }
  }

  /** Importing an exported tree writes the very records the tree's own snapshot has. */
  lemma ImportsExport(t: Tree)
    requires Exportable(t)
    ensures PushAll([], PostOrder(t)) == Some([t])
    ensures WriteForest([t]) == WriteTree(Hash, EMPTY, t)
  {
    hide WriteTree;
    PushPostOrder([], t);
    assert [] + [t] == [t];
    assert [t][..0] == [];
  }

  /** Trees that a snapshot can hold can be exported. */
  lemma {:induction false} FitsExport(t: Tree)
    requires Balanced(t) && Stamped(t) && t.version <= V.MAX_INT64 && Height(t) < 0x100
    ensures Exportable(t)
    decreases t
  {
    if t.Branch? {
      FitsExport(t.left);
      FitsExport(t.right);
    }
  }

  /** Export of a snapshot followed by import rebuilds the snapshot, record for record. */
  method ExportImport(f: Files, ghost t: Tree) returns (g: Option<Files>)
    requires WellFormed(t) && Fits(EMPTY, t) && t.version <= V.MAX_INT64
    requires f == WriteTree(Hash, EMPTY, t)
    ensures g == Some(f)
  {
    hide WriteTree, WellFormed, Holds, WriteForest;
    SnapshotExports(f, t);
    var nodes := ExportFiles(f, Some(t));
    ImportsExport(t);
    LeavesOfTree(t);
    g := Import(0, nodes);
  }

  lemma SnapshotExports(f: Files, t: Tree)
    requires WellFormed(t) && Fits(EMPTY, t) && t.version <= V.MAX_INT64
    requires f == WriteTree(Hash, EMPTY, t)
    ensures HoldsExactly(f, t) && Exportable(t)
  {
    hide WriteTree, Holds;
    WriteGrows(Hash, EMPTY, t);
    WriteHolds(Hash, EMPTY, t, f);
    FitsExport(t);
  }
}
