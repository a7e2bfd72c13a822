/** Existence and non-existence proofs in the ICS 23 form (Vector Commitments, IavlSpec): their operations,
    what checking them computes, and what a walk down the tree records. */
module Proofs {
  import opened Bytes
  import opened Encoding
  import opened Avl
  import opened Leaves
  import opened Hashing
  import opened Exporting
  import V = Versioned

  /** One inner node on the way to a leaf; the hash of the child not taken is on its side. */
  datatype PathNode = PathNode(height: int, size: nat, version: int, left: Bytes, right: Bytes)

  datatype LeafOp = LeafOp(prefix: Bytes)

  datatype InnerOp = InnerOp(prefix: Bytes, suffix: Bytes)

  datatype ExistenceProof = ExistenceProof(key: Bytes, value: Bytes, leaf: LeafOp, path: seq<InnerOp>)

  datatype NonExistenceProof =
    NonExistenceProof(key: Bytes, left: Option<ExistenceProof>, right: Option<ExistenceProof>)

  // ------------------------------------------------------------------ checking (ICS 23)

  /** SHA-256 over the prefix, the length-prefixed key and the length-prefixed hash of the value. */
  function ApplyLeaf(op: LeafOp, key: Bytes, value: Bytes): Bytes {
    Sha256(op.prefix + LengthPrefixed(key) + LengthPrefixed(Sha256(value)))
  }

  function ApplyInner(op: InnerOp, child: Bytes): Bytes {
    Sha256(op.prefix + child + op.suffix)
  }

  /** The root hash a path of inner operations leads to, from a leaf hash upward. */
  function Fold(h: Bytes, path: seq<InnerOp>): Bytes {
    if path == [] then h else ApplyInner(path[|path| - 1], Fold(h, path[..|path| - 1]))
  }

  function ProofRoot(p: ExistenceProof): Bytes {
    Fold(ApplyLeaf(p.leaf, p.key, p.value), p.path)
  }

  // ------------------------------------------------------------------ walking down

  /** The hash of a path node given the hash of the child taken. */
  function PathHash(p: PathNode, child: Bytes): Bytes {
    var header := Varint(p.height) + Varint(p.size) + Varint(p.version);
    if p.left != [] then Sha256(header + LengthPrefixed(p.left) + LengthPrefixed(child))
    else Sha256(header + LengthPrefixed(child) + LengthPrefixed(p.right))
  }

  /** From the hash of the node at the end of a path up to the root's. */
  function Climb(h: Bytes, path: seq<PathNode>): Bytes
    decreases |path|
  {
    if path == [] then h else Climb(PathHash(path[|path| - 1], h), path[..|path| - 1])
  }

  /** Heights fit a signed byte and versions are signed 64-bit numbers. */
  predicate Signed(t: Tree) {
    match t
    case Leaf(_, _, version) => version < 0x8000_0000_0000_0000
    case Branch(_, version, height, _, l, r) =>
      height < 0x80 && version < 0x8000_0000_0000_0000 && Signed(l) && Signed(r)
  }

  lemma {:induction false} LowIsSigned(t: Tree)
    requires Balanced(t) && Stamped(t) && Height(t) < 0x80 && t.version < 0x8000_0000_0000_0000
    ensures Signed(t)
  {
    if t.Branch? { LowIsSigned(t.left); LowIsSigned(t.right); }
  }

  /** Every tree whose leaves can be counted in 32 bits meets it: the height bound is 45. */
  lemma EveryTreeSigned(t: Tree)
    requires WellFormed(t) && Size(t) < TWO_32 && t.version < 0x8000_0000_0000_0000
    ensures Signed(t)
  {
    V.HeightBound(t);
    LowIsSigned(t);
  }

  predicate OneSibling(p: PathNode) {
    (|p.left| == 32 && p.right == []) || (p.left == [] && |p.right| == 32)
  }

  function StepLeft(t: Tree): PathNode
    requires t.Branch?
  {
    PathNode(Int8(t.height), t.size, Int64(t.version), [], Hash(t.right))
  }

  function StepRight(t: Tree): PathNode
    requires t.Branch?
  {
    PathNode(Int8(t.height), t.size, Int64(t.version), Hash(t.left), [])
  }

  lemma StepHashes(t: Tree)
    requires t.Branch? && Signed(t)
    ensures PathHash(StepLeft(t), Hash(t.left)) == Hash(t)
    ensures PathHash(StepRight(t), Hash(t.right)) == Hash(t)
    ensures OneSibling(StepLeft(t)) && OneSibling(StepRight(t))
  {
    hide Varint, LengthPrefixed;
    HashParts(t);
    assert Int8(t.height) == t.height && Int64(t.version) == t.version;
  }

  lemma Climbs(h: Bytes, path: seq<PathNode>, p: PathNode)
    ensures Climb(h, path + [p]) == Climb(PathHash(p, h), path)
  {
    assert (path + [p])[..|path|] == path;
  }

  /** What the walk knows at a node: it is a subtree of the root's tree, searching it is searching the
      root, and climbing from its hash gives the root hash. */
  ghost predicate Walked(top: Tree, t: Tree, key: Bytes, path: seq<PathNode>) {
    && WellFormed(t) && Signed(t) && Find(t, key) == Find(top, key)
    && (forall x :: x in LeavesOf(t) ==> x in LeavesOf(top))
    && (forall i :: 0 <= i < |path| ==> OneSibling(path[i]))
    && Climb(Hash(t), path) == Hash(top)
  }

  lemma WalkDown(top: Tree, t: Tree, key: Bytes, path: seq<PathNode>)
    requires Walked(top, t, key, path) && t.Branch?
    ensures Less(key, t.key) ==> Walked(top, t.left, key, path + [StepLeft(t)])
    ensures !Less(key, t.key) ==> Walked(top, t.right, key, path + [StepRight(t)])
  {
    hide Hash, PathHash, Climb, Find, Contents;
    SearchBranch(t, key);
    StepHashes(t);
    Climbs(Hash(t.left), path, StepLeft(t));
    Climbs(Hash(t.right), path, StepRight(t));
  }

  lemma WalkEnds(top: Tree, leaf: Tree, key: Bytes, path: seq<PathNode>)
    requires Walked(top, leaf, key, path) && leaf.Leaf?
    ensures leaf in LeavesOf(top) && leaf.version < 0x8000_0000_0000_0000
    ensures leaf.key == key <==> key in Contents(top)
    ensures leaf.key == key ==> Find(top, key) == Some(leaf.value)
  {
    hide Hash, Climb, Find, Contents;
    LeafFinds(leaf, key);
    FindsPresent(top, key);
    assert leaf in LeavesOf(leaf);
  }

  lemma WalkStart(top: Tree, key: Bytes)
    requires WellFormed(top) && Signed(top)
    ensures Walked(top, top, key, [])
  {
    ClimbsNone(Hash(top));
  }

  lemma ClimbsNone(h: Bytes)
    ensures Climb(h, []) == h
  {
  }

  lemma LeafFinds(leaf: Tree, key: Bytes)
    requires leaf.Leaf?
    ensures Find(leaf, key) == if leaf.key == key then Some(leaf.value) else None
  {
  }

  lemma FindsPresent(t: Tree, key: Bytes)
    ensures Find(t, key).Some? <==> key in Contents(t)
  {
  }

  // ------------------------------------------------------------------ converting

  const LENGTH_BYTE: byte := 0x20

  function ConvertLeafOp(version: int): LeafOp { LeafOp(Varint(0) + Varint(1) + Varint(version)) }

  function ConvertInner(p: PathNode): InnerOp {
    var prefix := Varint(p.height) + Varint(p.size) + Varint(p.version);
    if |p.left| > 0 then InnerOp(prefix + [LENGTH_BYTE] + p.left + [LENGTH_BYTE], [])
    else InnerOp(prefix + [LENGTH_BYTE], [LENGTH_BYTE] + p.right)
  }

  /** The single length byte is the varint length of a 32-byte hash. */
  lemma LengthByte(h: Bytes)
    requires |h| == 32
    ensures LengthPrefixed(h) == [LENGTH_BYTE] + h
  {
  }

  lemma InnerHashes(p: PathNode, child: Bytes)
    requires OneSibling(p) && |child| == 32
    ensures ApplyInner(ConvertInner(p), child) == PathHash(p, child)
  {
    hide Varint, LengthPrefixed;
    var header := Varint(p.height) + Varint(p.size) + Varint(p.version);
    LengthByte(child);
    var b := [LENGTH_BYTE];
    if |p.left| > 0 {
      LengthByte(p.left);
      assert header + b + p.left + b + child + [] == header + (b + p.left) + (b + child);
    } else {
      LengthByte(p.right);
      assert header + b + child + (b + p.right) == header + (b + child) + (b + p.right);
    }
  }

  lemma PathHashSize(p: PathNode, h: Bytes)
    ensures |PathHash(p, h)| == 32
  {
  }

  /** The converted path, leaf first, folds any hash to the one that climbing gives. */
  method ConvertInnerOps(path: seq<PathNode>, ghost h: Bytes) returns (ops: seq<InnerOp>)
    requires |h| == 32 && forall i :: 0 <= i < |path| ==> OneSibling(path[i])
    ensures |ops| == |path| && Fold(h, ops) == Climb(h, path)
  {
    hide Fold, Climb, ConvertInner, PathHash;
    ops := [];
    FoldsNone(h);
    assert path[..|path|] == path;
    var i := |path|;
    while i > 0
      invariant 0 <= i <= |path| && |ops| == |path| - i
      invariant |Fold(h, ops)| == 32 && Climb(Fold(h, ops), path[..i]) == Climb(h, path)
    {
      i := i - 1;
      var op := ConvertInner(path[i]);
      Folds(h, ops, op);
      InnerHashes(path[i], Fold(h, ops));
      PathHashSize(path[i], Fold(h, ops));
      assert path[..i + 1] == path[..i] + [path[i]];
      Climbs(Fold(h, ops), path[..i], path[i]);
      ops := ops + [op];
    }
    assert path[..0] == [];
    ClimbsNone(Fold(h, ops));
  }

  lemma FoldsNone(h: Bytes)
    ensures Fold(h, []) == h
  {
  }

  lemma Folds(h: Bytes, ops: seq<InnerOp>, op: InnerOp)
    ensures Fold(h, ops + [op]) == ApplyInner(op, Fold(h, ops))
  {
    assert (ops + [op])[..|ops|] == ops;
  }

  lemma LeafHashes(leaf: Tree)
    requires leaf.Leaf? && leaf.version < 0x8000_0000_0000_0000
    ensures ApplyLeaf(ConvertLeafOp(Int64(leaf.version)), leaf.key, leaf.value) == Hash(leaf)
  {
    hide Varint, LengthPrefixed;
    HashParts(leaf);
  }

  // ------------------------------------------------------------------ proofs of presence and absence

  /** The proof is for a leaf of the tree, and checking it gives the root hash byte for byte. */
  ghost predicate Proves(root: Tree, p: ExistenceProof, leaf: Tree) {
    && leaf in LeavesOf(root) && leaf.Leaf?
    && p.key == leaf.key && p.value == leaf.value
    && ProofRoot(p) == Hash(root)
  }

  /** The neighbours of an absent key: the greatest smaller and the least greater key, where they exist. */
  ghost predicate Surrounds(root: Tree, key: Bytes, p: NonExistenceProof) {
    var leaves, rank := LeavesOf(root), Rank(root, key);
    && p.key == key && rank <= |leaves|
    && (forall i :: 0 <= i < rank ==> Less(leaves[i].key, key))
    && (forall i :: rank <= i < |leaves| ==> Less(key, leaves[i].key))
    && (p.left.Some? <==> rank > 0) && (p.right.Some? <==> rank < |leaves|)
    && (rank > 0 ==> Proves(root, p.left.value, leaves[rank - 1]))
    && (rank < |leaves| ==> Proves(root, p.right.value, leaves[rank]))
  }

  lemma RankSplits(t: Tree, key: Bytes)
    requires WellFormed(t)
    ensures Rank(t, key) <= |LeavesOf(t)|
    ensures forall i :: 0 <= i < Rank(t, key) ==> Less(LeavesOf(t)[i].key, key)
    ensures forall i :: Rank(t, key) <= i < |LeavesOf(t)| ==> AtMost(key, LeavesOf(t)[i].key)
    ensures key !in Contents(t) ==> forall i :: 0 <= i < |LeavesOf(t)| ==> LeavesOf(t)[i].key != key
  {
    var s := LeavesOf(t);
    LeavesAscend(t);
    var cut := Crossing(s, key);
    CrossingIsRank(s, key, cut);
    LessOrder();
    forall i | 0 <= i < |s| && key !in Contents(t) ensures s[i].key != key { LeafEntry(t, i); }
  }

  /** Where an ascending sequence stops being below a key. */
  lemma {:induction false} Crossing(s: seq<Tree>, key: Bytes) returns (cut: nat)
    requires Ascending(s)
    ensures cut <= |s|
    ensures forall j :: 0 <= j < cut ==> Less(s[j].key, key)
    ensures forall j :: cut <= j < |s| ==> !Less(s[j].key, key)
  {
    if s == [] {
      cut := 0;
    } else if Less(s[|s| - 1].key, key) {
      AscendingCut(s, |s| - 1, key);
      cut := |s|;
    } else {
      cut := Crossing(s[..|s| - 1], key);
      AscendingCut(s, |s| - 1, key);
    }
  }

  lemma WalkFolds(top: Tree, leaf: Tree, key: Bytes, path: seq<PathNode>)
    requires Walked(top, leaf, key, path)
    ensures forall i :: 0 <= i < |path| ==> OneSibling(path[i])
    ensures |Hash(leaf)| == 32 && Climb(Hash(leaf), path) == Hash(top)
  {
  }

  lemma SameKeySameLeaf(t: Tree, leaf: Tree, i: nat)
    requires Ordered(t) && i < |LeavesOf(t)| && leaf in LeavesOf(t) && leaf.key == LeavesOf(t)[i].key
    ensures leaf == LeavesOf(t)[i]
  {
    LeavesAscend(t);
    var j :| 0 <= j < |LeavesOf(t)| && LeavesOf(t)[j] == leaf;
    LessIrreflexive(leaf.key);
  }
}
