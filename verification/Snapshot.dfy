/** The pointer-free snapshot: an array of leaves and an array of branches in post-order;
    how it is written, and how a node finds its children in it. */
module Snapshot {
  import opened Bytes
  import opened Encoding
  import opened Avl

  datatype LeafRecord = LeafRecord(version: nat, key: Bytes, value: Bytes, hash: Bytes)

  datatype NodeRecord =
    NodeRecord(height: nat, preTrees: nat, version: nat, size: nat, keyLeaf: nat, hash: Bytes)

  datatype Files = Files(leaves: seq<LeafRecord>, nodes: seq<NodeRecord>)

  const EMPTY := Files([], [])

  // Truncation to an unsigned width: the identity on what fits, reduction otherwise.

  function U8(x: int): nat { if 0 <= x < 0x100 then x else x % 0x100 }

  function U32(x: int): nat { if 0 <= x < 0x1_0000_0000 then x else x % 0x1_0000_0000 }

  lemma SmallCounts(a: nat, b: nat, c: nat)
    requires a < TWO_32 && b < TWO_32 && c < TWO_8
    ensures U32(a) == a && U32(b) == b && U8(c) == c
  {
  }

  // Wrap-around of one addition or subtraction of 32-bit operands.

  function Add32(x: int, y: int): int { if x + y >= 0x1_0000_0000 then x + y - 0x1_0000_0000 else x + y }

  function Sub32(x: int, y: int): int { if x < y then x - y + 0x1_0000_0000 else x - y }

  /** The casts and the 32-bit arithmetic are those of unsigned machine numbers. */
  lemma WrapAround(x: nat, y: nat)
    ensures U8(x) == x % 0x100 && U32(x) == x % 0x1_0000_0000
    ensures x < 0x1_0000_0000 && y < 0x1_0000_0000 ==>
      Add32(x, y) == (x + y) % 0x1_0000_0000 && Sub32(x, y) == (x - y) % 0x1_0000_0000
  {
  }

  // ------------------------------------------------------------------ writing

  function WriteLeaf(f: Files, version: nat, key: Bytes, value: Bytes, hash: Bytes): Files {
    f.(leaves := f.leaves + [LeafRecord(version, key, value, hash)])
  }

  function WriteBranch(f: Files, version: nat, size: nat, height: nat, preTrees: nat, keyLeaf: nat, hash: Bytes): Files
  {
    f.(nodes := f.nodes + [NodeRecord(height, preTrees, version, size, keyLeaf, hash)])
  }

  /** What `writeRecursive` appends for a tree, whatever the node hash `h` is. */
  function WriteTree(h: Tree -> Bytes, f: Files, t: Tree): Files
    decreases t
  {
    match t
    case Leaf(k, v, version) => WriteLeaf(f, version, k, v, h(t))
    case Branch(_, version, height, size, l, r) =>
      var preTrees := U8(U32(|f.leaves|) - U32(|f.nodes|));
      var afterLeft := WriteTree(h, f, l);
      var keyLeaf := U32(|afterLeft.leaves|);
      var afterRight := WriteTree(h, afterLeft, r);
      WriteBranch(afterRight, version, U32(size), U8(height), preTrees, keyLeaf, h(t))
  }

  // ------------------------------------------------------------------ reading

  /** A node of a snapshot: the files, whether it is a leaf, and its index in its array. */
  datatype PersistedNode = PersistedNode(files: Files, isLeaf: bool, index: int)

  /** Index of the first leaf below a branch. */
  function StartLeaf(index: int, size: nat, preTrees: nat): int {
    Add32(Sub32(Add32(index, 2), size), preTrees)
  }

  /** Index of the last leaf below a branch. */
  function EndLeaf(index: int, preTrees: nat): int {
    Add32(Add32(index, preTrees), 1)
  }

  /** Index of the left child of a branch, when that child is a branch. */
  function LeftBranch(keyLeaf: int, preTrees: nat): int {
    Sub32(Sub32(keyLeaf, preTrees), 2)
  }

  predicate IsBranchNode(p: PersistedNode) { !p.isLeaf && 0 <= p.index < |p.files.nodes| }

  function Left(p: PersistedNode): PersistedNode
    requires IsBranchNode(p)
  {
    var data := p.files.nodes[p.index];
    var startLeaf := StartLeaf(p.index, data.size, data.preTrees);
    if Add32(startLeaf, 1) == data.keyLeaf then PersistedNode(p.files, true, startLeaf)
    else PersistedNode(p.files, false, LeftBranch(data.keyLeaf, data.preTrees))
  }

  function Right(p: PersistedNode): PersistedNode
    requires IsBranchNode(p)
  {
    var data := p.files.nodes[p.index];
    if data.keyLeaf == EndLeaf(p.index, data.preTrees) then PersistedNode(p.files, true, data.keyLeaf)
    else PersistedNode(p.files, false, Sub32(p.index, 1))
  }

  // ------------------------------------------------------------------ meaning

  predicate LeafStored(f: Files, i: nat, t: Tree)
    requires t.Leaf?
  {
    i < |f.leaves| && f.leaves[i].key == t.key && f.leaves[i].value == t.value && f.leaves[i].version == t.version
  }

  /** The record of a branch whose first leaf is `leaf` and whose first branch is `branch`. */
  predicate Records(rec: NodeRecord, t: Tree, leaf: nat, branch: nat)
    requires t.Branch?
  {
    && rec.height == t.height && rec.version == t.version && rec.size == t.size
    && rec.preTrees == leaf - branch && rec.keyLeaf == leaf + Size(t.left)
  }

  /** The files hold `t` with its leaves from `leaf` on and its branches from `branch` on. */
  predicate Holds(f: Files, t: Tree, leaf: nat, branch: nat) {
    match t
    case Leaf(_, _, _) => LeafStored(f, leaf, t)
    case Branch(_, _, _, size, l, r) =>
      && branch <= leaf && 1 <= Size(l) && 2 <= size
      && Holds(f, l, leaf, branch)
      && Holds(f, r, leaf + Size(l), branch + Size(l) - 1)
      && branch + size - 2 < |f.nodes|
      && Records(f.nodes[branch + size - 2], t, leaf, branch)
  }

  /** The hashes recorded for `t` and everything below it are those of `h`. */
  predicate HoldsHashes(h: Tree -> Bytes, f: Files, t: Tree, leaf: nat, branch: nat)
    requires Holds(f, t, leaf, branch)
  {
    match t
    case Leaf(_, _, _) => f.leaves[leaf].hash == h(t)
    case Branch(_, _, _, size, l, r) =>
      && HoldsHashes(h, f, l, leaf, branch)
      && HoldsHashes(h, f, r, leaf + Size(l), branch + Size(l) - 1)
      && f.nodes[branch + size - 2].hash == h(t)
  }

  /** `g` extends `f`: writing only ever appends. */
  predicate Extends(f: Files, g: Files) {
    f.leaves <= g.leaves && f.nodes <= g.nodes
  }

  lemma {:induction false} HoldsExtends(f: Files, g: Files, t: Tree, leaf: nat, branch: nat)
    requires Holds(f, t, leaf, branch) && Extends(f, g)
    ensures Holds(g, t, leaf, branch)
    decreases t
  {
    if t.Branch? {
      HoldsExtends(f, g, t.left, leaf, branch);
      HoldsExtends(f, g, t.right, leaf + Size(t.left), branch + Size(t.left) - 1);
    }
  }

  lemma {:induction false} HoldsHashesExtends(h: Tree -> Bytes, f: Files, g: Files, t: Tree, leaf: nat, branch: nat)
    requires Extends(f, g) && Holds(f, t, leaf, branch) && HoldsHashes(h, f, t, leaf, branch)
    ensures Holds(g, t, leaf, branch) && HoldsHashes(h, g, t, leaf, branch)
    decreases t
  {
    HoldsExtends(f, g, t, leaf, branch);
    if t.Branch? {
      HoldsHashesExtends(h, f, g, t.left, leaf, branch);
      HoldsHashesExtends(h, f, g, t.right, leaf + Size(t.left), branch + Size(t.left) - 1);
    }
  }

  lemma {:induction false} HeldLeaves(f: Files, t: Tree, leaf: nat, branch: nat)
    requires Holds(f, t, leaf, branch) && Balanced(t)
    ensures leaf + Size(t) <= |f.leaves|
    decreases t
  {
    if t.Branch? {
      HeldLeaves(f, t.left, leaf, branch);
      HeldLeaves(f, t.right, leaf + Size(t.left), branch + Size(t.left) - 1);
    }
  }

  lemma {:induction false} SizePositive(t: Tree)
    requires Balanced(t)
    ensures 1 <= Size(t) && (t.Branch? ==> 2 <= Size(t))
  {
    if t.Branch? { SizePositive(t.left); SizePositive(t.right); }
  }

  // ------------------------------------------------------------------ writing holds

  /** `t` can be appended without overflowing an index or the pending-subtree byte. */
  predicate Fits(f: Files, t: Tree) {
    && Balanced(t)
    && |f.nodes| <= |f.leaves|
    && |f.leaves| + Size(t) < TWO_32
    && |f.leaves| - |f.nodes| + Height(t) < TWO_8
  }

  lemma {:induction false} WriteGrows(h: Tree -> Bytes, f: Files, t: Tree)
    requires Balanced(t)
    ensures var g := WriteTree(h, f, t);
      && Extends(f, g)
      && |g.leaves| == |f.leaves| + Size(t)
      && |g.nodes| == |f.nodes| + Size(t) - 1
    decreases t
  {
    if t.Branch? {
      WriteGrows(h, f, t.left);
      WriteGrows(h, WriteTree(h, f, t.left), t.right);
    }
  }

  lemma FitsChildren(h: Tree -> Bytes, f: Files, t: Tree)
    requires Fits(f, t) && t.Branch?
    ensures Fits(f, t.left) && Fits(WriteTree(h, f, t.left), t.right)
    ensures U8(U32(|f.leaves|) - U32(|f.nodes|)) == |f.leaves| - |f.nodes|
    ensures U32(t.size) == t.size && U8(t.height) == t.height
    ensures U32(|WriteTree(h, f, t.left).leaves|) == |f.leaves| + Size(t.left)
  {
    SizePositive(t.left);
    SizePositive(t.right);
    WriteGrows(h, f, t.left);
  }

  /** The record written last for a branch is that branch's, after everything below it. */
  lemma WriteBranchLast(h: Tree -> Bytes, f: Files, t: Tree, afterLeft: Files, afterRight: Files, g: Files)
    requires Fits(f, t) && t.Branch? && g == WriteTree(h, f, t)
    requires afterLeft == WriteTree(h, f, t.left) && afterRight == WriteTree(h, afterLeft, t.right)
    ensures 1 <= Size(t.left) && 1 <= Size(t.right)
    ensures |afterLeft.leaves| == |f.leaves| + Size(t.left) && |afterLeft.nodes| == |f.nodes| + Size(t.left) - 1
    ensures Extends(afterLeft, g) && Extends(afterRight, g) && |g.nodes| == |f.nodes| + t.size - 1
    ensures Records(g.nodes[|f.nodes| + t.size - 2], t, |f.leaves|, |f.nodes|)
    ensures g.nodes[|f.nodes| + t.size - 2].hash == h(t)
  {
    FitsChildren(h, f, t);
    SizePositive(t.left);
    SizePositive(t.right);
    WriteGrows(h, f, t.left);
    WriteGrows(h, WriteTree(h, f, t.left), t.right);
  }

  lemma HoldsBranch(t: Tree, afterLeft: Files, afterRight: Files, g: Files, leaf: nat, branch: nat)
    requires t.Branch? && Balanced(t) && branch <= leaf
    requires Extends(afterLeft, g) && Extends(afterRight, g)
    requires Holds(afterLeft, t.left, leaf, branch)
    requires 1 <= Size(t.left) && 1 <= Size(t.right)
    requires Holds(afterRight, t.right, leaf + Size(t.left), branch + Size(t.left) - 1)
    requires branch + t.size - 2 < |g.nodes| && Records(g.nodes[branch + t.size - 2], t, leaf, branch)
    ensures Holds(g, t, leaf, branch)
  {
    HoldsExtends(afterLeft, g, t.left, leaf, branch);
    HoldsExtends(afterRight, g, t.right, leaf + Size(t.left), branch + Size(t.left) - 1);
  }

  lemma {:induction false} WriteHolds(h: Tree -> Bytes, f: Files, t: Tree, g: Files)
    requires Fits(f, t) && g == WriteTree(h, f, t)
    ensures Holds(g, t, |f.leaves|, |f.nodes|)
    decreases t
  {
    if t.Branch? {
      var afterLeft := WriteTree(h, f, t.left);
      var afterRight := WriteTree(h, afterLeft, t.right);
      FitsChildren(h, f, t);
      WriteHolds(h, f, t.left, afterLeft);
      WriteHolds(h, afterLeft, t.right, afterRight);
      WriteBranchLast(h, f, t, afterLeft, afterRight, g);
      HoldsBranch(t, afterLeft, afterRight, g, |f.leaves|, |f.nodes|);
    }
  }

  lemma {:induction false} WriteHoldsHashes(h: Tree -> Bytes, f: Files, t: Tree, g: Files)
    requires Fits(f, t) && g == WriteTree(h, f, t)
    ensures Holds(g, t, |f.leaves|, |f.nodes|) && HoldsHashes(h, g, t, |f.leaves|, |f.nodes|)
    decreases t
  {
    WriteHolds(h, f, t, g);
    if t.Branch? {
      var afterLeft := WriteTree(h, f, t.left);
      var afterRight := WriteTree(h, afterLeft, t.right);
      FitsChildren(h, f, t);
      WriteHoldsHashes(h, f, t.left, afterLeft);
      WriteHoldsHashes(h, afterLeft, t.right, afterRight);
      WriteBranchHashes(h, f, t, afterLeft, afterRight, g);
    }
  }

  lemma WriteBranchHashes(h: Tree -> Bytes, f: Files, t: Tree, afterLeft: Files, afterRight: Files, g: Files)
    requires Fits(f, t) && t.Branch? && g == WriteTree(h, f, t) && Holds(g, t, |f.leaves|, |f.nodes|)
    requires afterLeft == WriteTree(h, f, t.left) && afterRight == WriteTree(h, afterLeft, t.right)
    requires Holds(afterLeft, t.left, |f.leaves|, |f.nodes|)
    requires HoldsHashes(h, afterLeft, t.left, |f.leaves|, |f.nodes|)
    requires Holds(afterRight, t.right, |afterLeft.leaves|, |afterLeft.nodes|)
    requires HoldsHashes(h, afterRight, t.right, |afterLeft.leaves|, |afterLeft.nodes|)
    ensures HoldsHashes(h, g, t, |f.leaves|, |f.nodes|)
  {
    hide WriteTree, Fits;
    WriteBranchLast(h, f, t, afterLeft, afterRight, g);
    HoldsHashesExtends(h, afterLeft, g, t.left, |f.leaves|, |f.nodes|);
    HoldsHashesExtends(h, afterRight, g, t.right, |afterLeft.leaves|, |afterLeft.nodes|);
  }

  // ------------------------------------------------------------------ decoding

  function StoredHeight(p: PersistedNode): nat {
    if IsBranchNode(p) then p.files.nodes[p.index].height else 0
  }

  /** The tree read back through the index arithmetic alone. */
  function DecodeTo(p: PersistedNode, fuel: nat): Option<Tree>
    decreases fuel
  {
    if p.isLeaf then
      if 0 <= p.index < |p.files.leaves|
      then var rec := p.files.leaves[p.index]; Some(Leaf(rec.key, rec.value, rec.version))
      else None
    else if fuel == 0 || !IsBranchNode(p) || p.files.nodes[p.index].keyLeaf >= |p.files.leaves| then None
    else
      var data := p.files.nodes[p.index];
      match (DecodeTo(Left(p), fuel - 1), DecodeTo(Right(p), fuel - 1))
      case (Some(l), Some(r)) =>
        Some(Branch(p.files.leaves[data.keyLeaf].key, data.version, data.height, data.size, l, r))
      case _ => None
  }

  function Decode(p: PersistedNode): Option<Tree> { DecodeTo(p, StoredHeight(p)) }

  lemma {:induction false} FirstLeaf(f: Files, t: Tree, leaf: nat, branch: nat)
    requires Holds(f, t, leaf, branch)
    ensures leaf < |f.leaves| && f.leaves[leaf].key == MinKey(t)
    decreases t
  {
    if t.Branch? { FirstLeaf(f, t.left, leaf, branch); }
  }

  /** With the subtree's leaves at `leaf..` and branches at `branch..`, and every leaf index below
      2^32, no 32-bit step of the index arithmetic wraps. */
  lemma IndexArithmetic(leaf: nat, branch: nat, ls: nat, rs: nat)
    requires branch <= leaf && 1 <= ls && 1 <= rs && leaf + ls + rs < TWO_32
    ensures var index, size, preTrees, keyLeaf := branch + ls + rs - 2, ls + rs, leaf - branch, leaf + ls;
      && index + 2 < TWO_32 && size <= index + 2 && index + 2 - size + preTrees < TWO_32
      && StartLeaf(index, size, preTrees) == leaf
      && index + preTrees + 1 < TWO_32
      && EndLeaf(index, preTrees) == leaf + ls + rs - 1
      && (2 <= ls ==> preTrees + 2 <= keyLeaf && LeftBranch(keyLeaf, preTrees) == branch + ls - 2)
      && (2 <= rs ==> Sub32(index, 1) == branch + ls - 1 + rs - 2)
      && Add32(leaf, 1) == leaf + 1
  {
  }

  /** The node the layout puts a held subtree at: its only leaf, or its last branch. */
  function NodeAt(f: Files, t: Tree, leaf: nat, branch: nat): PersistedNode {
    if t.Leaf? then PersistedNode(f, true, leaf) else PersistedNode(f, false, branch + t.size - 2)
  }

  /** The record of `t` is where the layout puts it, and every index fits 32 bits. */
  predicate BranchAt(f: Files, t: Tree, leaf: nat, branch: nat) {
    && t.Branch? && branch <= leaf && 1 <= Size(t.left) && 1 <= Size(t.right)
    && (t.left.Leaf? <==> Size(t.left) == 1) && (t.right.Leaf? <==> Size(t.right) == 1)
    && t.size == Size(t.left) + Size(t.right) && leaf + t.size < TWO_32
    && branch + t.size - 2 < |f.nodes| && Records(f.nodes[branch + t.size - 2], t, leaf, branch)
  }

  lemma HeldBranchAt(f: Files, t: Tree, leaf: nat, branch: nat)
    requires t.Branch? && Holds(f, t, leaf, branch) && Balanced(t) && Ordered(t) && leaf + t.size <= |f.leaves| < TWO_32
    ensures BranchAt(f, t, leaf, branch)
    ensures leaf + Size(t.left) < |f.leaves| && f.leaves[leaf + Size(t.left)].key == t.key
  {
    SizePositive(t.left);
    SizePositive(t.right);
    FirstLeaf(f, t.right, leaf + Size(t.left), branch + Size(t.left) - 1);
  }

  /** `Left` and `Right` point at the nodes the two subtrees were put at. */
  lemma ChildrenAt(f: Files, t: Tree, leaf: nat, branch: nat)
    requires BranchAt(f, t, leaf, branch)
    ensures IsBranchNode(NodeAt(f, t, leaf, branch))
    ensures Left(NodeAt(f, t, leaf, branch)) == NodeAt(f, t.left, leaf, branch)
    ensures Right(NodeAt(f, t, leaf, branch)) == NodeAt(f, t.right, leaf + Size(t.left), branch + Size(t.left) - 1)
  {
    IndexArithmetic(leaf, branch, Size(t.left), Size(t.right));
  }

  lemma DecodeBranch(f: Files, t: Tree, leaf: nat, branch: nat, fuel: nat, decoded: Option<Tree>)
    requires BranchAt(f, t, leaf, branch)
    requires leaf + Size(t.left) < |f.leaves| && f.leaves[leaf + Size(t.left)].key == t.key
    requires fuel > 0 && decoded == DecodeTo(NodeAt(f, t, leaf, branch), fuel)
    requires DecodeTo(NodeAt(f, t.left, leaf, branch), fuel - 1) == Some(t.left)
    requires DecodeTo(NodeAt(f, t.right, leaf + Size(t.left), branch + Size(t.left) - 1), fuel - 1) == Some(t.right)
    ensures decoded == Some(t)
  {
    ChildrenAt(f, t, leaf, branch);
  }

  /** Decoding a node returns the tree held there. */
  lemma {:induction false} DecodeHeld(f: Files, t: Tree, leaf: nat, branch: nat, fuel: nat, decoded: Option<Tree>)
    requires Holds(f, t, leaf, branch) && Balanced(t) && Ordered(t) && leaf + Size(t) <= |f.leaves| < TWO_32
    requires Height(t) <= fuel && decoded == DecodeTo(NodeAt(f, t, leaf, branch), fuel)
    ensures decoded == Some(t)
    decreases t
  {
    hide Left, Right, MinKey, MaxKey;
    if t.Branch? {
      HeldBranchAt(f, t, leaf, branch);
      var rightLeaf, rightBranch := leaf + Size(t.left), branch + Size(t.left) - 1;
      DecodeHeld(f, t.left, leaf, branch, fuel - 1, DecodeTo(NodeAt(f, t.left, leaf, branch), fuel - 1));
      DecodeHeld(f, t.right, rightLeaf, rightBranch, fuel - 1,
                 DecodeTo(NodeAt(f, t.right, rightLeaf, rightBranch), fuel - 1));
      DecodeBranch(f, t, leaf, branch, fuel, decoded);
    }
  }

  /** The root chosen when a snapshot is opened: the last branch, or the only leaf. */
  function Root(f: Files): Option<PersistedNode> {
    if |f.nodes| > 0 then Some(PersistedNode(f, false, |f.nodes| - 1))
    else if |f.leaves| > 0 then Some(PersistedNode(f, true, 0))
    else None
  }

  /** Writing any well-formed tree and decoding it from the root gives back exactly that tree. */
  lemma SnapshotRoundTrip(h: Tree -> Bytes, t: Tree)
    requires WellFormed(t) && Fits(EMPTY, t)
    ensures var root := Root(WriteTree(h, EMPTY, t)); root.Some? && Decode(root.value) == Some(t)
  {
    var f := WriteTree(h, EMPTY, t);
    SizePositive(t);
    WriteGrows(h, EMPTY, t);
    WriteHolds(h, EMPTY, t, f);
    DecodeHeld(f, t, 0, 0, Height(t), Decode(Root(f).value));
  }

  // ------------------------------------------------------------------ nodes of a snapshot

  /** `p` is the node at which its snapshot, with node hashes `h`, holds the well-formed tree `t`. */
  ghost predicate Stored(h: Tree -> Bytes, p: PersistedNode, t: Tree) {
    && Balanced(t) && Ordered(t) && |p.files.leaves| < TWO_32
    && exists leaf: nat, branch: nat ::
         && Holds(p.files, t, leaf, branch) && HoldsHashes(h, p.files, t, leaf, branch)
         && p == NodeAt(p.files, t, leaf, branch)
  }

  /** What a node denotes: the tree decoded from it. */
  function TreeOf(p: PersistedNode): Tree {
    match Decode(p)
    case Some(t) => t
    case None => Leaf([], [], 0)
  }

  /** `p` is a node of a snapshot written from a well-formed tree. */
  ghost predicate ValidNode(h: Tree -> Bytes, p: PersistedNode) { Stored(h, p, TreeOf(p)) }

  lemma StoredDecodes(h: Tree -> Bytes, p: PersistedNode, t: Tree)
    requires Stored(h, p, t)
    ensures TreeOf(p) == t && ValidNode(h, p)
  {
    var leaf: nat, branch: nat :|
      && Holds(p.files, t, leaf, branch) && HoldsHashes(h, p.files, t, leaf, branch)
      && p == NodeAt(p.files, t, leaf, branch);
    HeldLeaves(p.files, t, leaf, branch);
    assert StoredHeight(p) == Height(t) by {
      if t.Branch? { HeldBranchAt(p.files, t, leaf, branch); }
    }
    DecodeHeld(p.files, t, leaf, branch, Height(t), Decode(p));
  }

  /** The indices of `p` are inside the arrays, so that its accessors do not fault. */
  predicate InRange(p: PersistedNode) {
    if p.isLeaf then 0 <= p.index < |p.files.leaves|
    else IsBranchNode(p) && p.files.nodes[p.index].keyLeaf < |p.files.leaves|
  }

  function NodeVersion(p: PersistedNode): nat
    requires InRange(p)
  {
    if p.isLeaf then p.files.leaves[p.index].version else p.files.nodes[p.index].version
  }

  function NodeHash(p: PersistedNode): Bytes
    requires InRange(p)
  {
    if p.isLeaf then p.files.leaves[p.index].hash else p.files.nodes[p.index].hash
  }

  function NodeSize(p: PersistedNode): nat
    requires InRange(p)
  {
    if p.isLeaf then 1 else p.files.nodes[p.index].size
  }

  /** The key of a branch is that of the smallest leaf on its right. */
  function NodeKey(p: PersistedNode): Bytes
    requires InRange(p)
  {
    p.files.leaves[if p.isLeaf then p.index else p.files.nodes[p.index].keyLeaf].key
  }

  function NodeValue(p: PersistedNode): Bytes
    requires InRange(p)
  {
    if p.isLeaf then p.files.leaves[p.index].value else []
  }

  lemma HeldChildrenStored(h: Tree -> Bytes, p: PersistedNode, t: Tree, leaf: nat, branch: nat)
    requires Stored(h, p, t) && t.Branch? && p == NodeAt(p.files, t, leaf, branch)
    requires Holds(p.files, t, leaf, branch) && HoldsHashes(h, p.files, t, leaf, branch)
    requires BranchAt(p.files, t, leaf, branch)
    ensures IsBranchNode(p) && Stored(h, Left(p), t.left) && Stored(h, Right(p), t.right)
  {
    hide Left, Right;
    ChildrenAt(p.files, t, leaf, branch);
    var rightLeaf, rightBranch := leaf + Size(t.left), branch + Size(t.left) - 1;
    assert HoldsHashes(h, p.files, t.left, leaf, branch) && Left(p) == NodeAt(p.files, t.left, leaf, branch);
    assert HoldsHashes(h, p.files, t.right, rightLeaf, rightBranch);
    assert Right(p) == NodeAt(p.files, t.right, rightLeaf, rightBranch);
  }

  /** The accessors of a snapshot node return the fields of the tree it denotes, and its children
      denote that tree's children. */
  lemma NodeView(h: Tree -> Bytes, p: PersistedNode)
    requires ValidNode(h, p)
    ensures var t := TreeOf(p);
      && InRange(p) && p.isLeaf == t.Leaf?
      && StoredHeight(p) == Height(t) && NodeSize(p) == Size(t)
      && NodeVersion(p) == t.version && NodeKey(p) == t.key
      && NodeHash(p) == h(t)
      && (t.Leaf? ==> NodeValue(p) == t.value)
      && (t.Branch? ==>
            && ValidNode(h, Left(p)) && TreeOf(Left(p)) == t.left
            && ValidNode(h, Right(p)) && TreeOf(Right(p)) == t.right)
  {
    hide TreeOf, Left, Right;
    var t := TreeOf(p);
    var leaf: nat, branch: nat :|
      && Holds(p.files, t, leaf, branch) && HoldsHashes(h, p.files, t, leaf, branch)
      && p == NodeAt(p.files, t, leaf, branch);
    if t.Branch? {
      HeldLeaves(p.files, t, leaf, branch);
      HeldBranchAt(p.files, t, leaf, branch);
      HeldChildrenStored(h, p, t, leaf, branch);
      StoredDecodes(h, Left(p), t.left);
      StoredDecodes(h, Right(p), t.right);
    }
  }

  /** The root of a freshly opened snapshot denotes the tree the snapshot was written from. */
  lemma RootDenotes(h: Tree -> Bytes, t: Tree)
    requires WellFormed(t) && Fits(EMPTY, t)
    ensures var root := Root(WriteTree(h, EMPTY, t));
      root.Some? && ValidNode(h, root.value) && TreeOf(root.value) == t
  {
    hide TreeOf, WriteTree;
    var f := WriteTree(h, EMPTY, t);
    SizePositive(t);
    WriteGrows(h, EMPTY, t);
    WriteHoldsHashes(h, EMPTY, t, f);
    assert HoldsHashes(h, f, t, 0, 0) && Root(f).value == NodeAt(f, t, 0, 0);
    StoredDecodes(h, Root(f).value, t);
  }
}
