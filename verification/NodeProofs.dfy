/** Building proofs from the nodes of a tree, in memory and persisted, filling hash caches on the way. */
module NodeProofs {
  import opened Bytes
  import opened Avl
  import opened Leaves
  import opened Hashing
  import opened Exporting
  import opened Snapshot
  import opened MemNodes
  import opened Lookup
  import opened Proofs

  /** One step down: the child a key leads to, and the record of the step with the hash of the other. */
  method Descend(node: Node, key: Bytes) returns (child: Node, step: PathNode)
    requires Ok(node) && Denotes(node).Branch?
    modifies Foot(node)`hash
    ensures Ok(child) && Handle(child) <= Foot(child) <= old(Foot(node)) && HashesFilled(old(Foot(node)))
    ensures var t := old(Denotes(node));
      if Less(key, t.key) then Denotes(child) == t.left && step == StepLeft(t)
      else Denotes(child) == t.right && step == StepRight(t)
  {
    hide MemNode.Valid, ValidNode, TreeOf, Hash, Int8, Int64;
    View(node);
    VersionView(node);
    LessIrreflexive(key);
    var height, size, version := Int8(HeightOf(node)), SizeOf(node), Int64(VersionOf(node));
    var left, right := LeftOf(node), RightOf(node);
    if Compare(key, KeyOf(node)) < 0 {
      var sibling := HashOf(right);
      return left, PathNode(height, size, version, [], sibling);
    } else {
      var sibling := HashOf(left);
      return right, PathNode(height, size, version, sibling, []);
    }
  }

  /** The loop of the walk, down to a leaf. */
  method WalkToLeaf(root: Node, key: Bytes) returns (path: seq<PathNode>, leaf: Node)
    requires Ok(root) && WellFormed(Denotes(root)) && Signed(Denotes(root))
    modifies Foot(root)`hash
    ensures HashesFilled(old(Foot(root)))
    ensures Ok(leaf) && Denotes(leaf).Leaf? && Walked(old(Denotes(root)), Denotes(leaf), key, path)
  {
    hide MemNode.Valid, ValidNode, TreeOf, Hash, Walked, StepLeft, StepRight, WellFormed, Signed;
    ghost var top := Denotes(root);
    leaf, path := root, [];
    WalkStart(top, key);
    View(root);
    while HeightOf(leaf) != 0
      invariant Ok(leaf) && Foot(leaf) <= old(Foot(root)) && Walked(top, Denotes(leaf), key, path)
      invariant HashesFilled(old(Foot(root)))
      decreases Denotes(leaf)
    {
      View(leaf);
      WalkDown(top, Denotes(leaf), key, path);
      var child, step := Descend(leaf, key);
      leaf, path := child, path + [step];
    }
    View(leaf);
  }

  /** The leaf reached when searching for a key, the path to it, and whether it is the key's. Climbing
      back along the path always gives the root hash. Only hash caches change. */
  method PathToLeaf(root: Node, key: Bytes) returns (path: seq<PathNode>, leaf: Node, found: bool)
    requires Ok(root) && WellFormed(Denotes(root)) && Signed(Denotes(root))
    modifies Foot(root)`hash
    ensures Ok(root) && Denotes(root) == old(Denotes(root)) && Foot(root) == old(Foot(root))
    ensures HashesFilled(Foot(root))
    ensures Ok(leaf) && Denotes(leaf).Leaf? && Walked(Denotes(root), Denotes(leaf), key, path)
    ensures found == (Denotes(leaf).key == key)
  {
    hide MemNode.Valid, ValidNode, TreeOf, Hash, Walked, WellFormed, Signed;
    path, leaf := WalkToLeaf(root, key);
    View(leaf);
    found := KeyOf(leaf) == key;
    StillOk(root);
  }

  /** A proof for a present key; for an absent one the code still builds a proof, of a neighbour, next
      to the error. */
  method CreateExistenceProof(root: Node, key: Bytes) returns (p: ExistenceProof, ok: bool, ghost leaf: Tree)
    requires Ok(root) && WellFormed(Denotes(root)) && Signed(Denotes(root))
    modifies Foot(root)`hash
    ensures Ok(root) && Denotes(root) == old(Denotes(root)) && Foot(root) == old(Foot(root))
    ensures HashesFilled(Foot(root))
    ensures ok <==> key in Contents(Denotes(root))
    ensures ok ==> p.key == key && Find(Denotes(root), key) == Some(p.value)
    ensures Proves(Denotes(root), p, leaf)
  {
    hide MemNode.Valid, ValidNode, TreeOf, Hash, Find, Contents, Climb, Fold, WellFormed, Signed, ApplyLeaf, Walked;
    var path, node, found := PathToLeaf(root, key);
    leaf, ok := Denotes(node), found;
    View(node);
    VersionView(node);
    WalkEnds(Denotes(root), leaf, key, path);
    WalkFolds(Denotes(root), leaf, key, path);
    var ops := ConvertInnerOps(path, Hash(leaf));
    LeafHashes(leaf);
    p := ExistenceProof(KeyOf(node), ValueOf(node), ConvertLeafOp(Int64(VersionOf(node))), ops);
  }

  /** A non-existence proof exists exactly for absent keys; it names the immediate neighbours, and each
      neighbour's proof checks to the root hash. For the empty tree it names none. */
  method GetNonMembershipProof(root: Node, key: Bytes) returns (p: Option<NonExistenceProof>)
    requires root != Nil ==> Searchable(root) && WellFormed(Denotes(root)) && Signed(Denotes(root))
    modifies Foot(root)`hash
    ensures root == Nil ==> p == Some(NonExistenceProof(key, None, None))
    ensures root != Nil ==> Ok(root) && Denotes(root) == old(Denotes(root)) && HashesFilled(Foot(root))
    ensures root != Nil ==> (p.Some? <==> key !in Contents(Denotes(root)))
    ensures root != Nil && p.Some? ==> Surrounds(Denotes(root), key, p.value)
  {
    hide MemNode.Valid, ValidNode, TreeOf, Hash, Contents, ProofRoot, WellFormed, Signed, Get, GetByIndex;
    if root == Nil { return Some(NonExistenceProof(key, None, None)); }
    ghost var t := Denotes(root);
    GetFinds(root, key);
    FindsPresent(t, key);
    var found := Get(root, key);
    if found.value.Some? { return None; }
    RankSplits(t, key);
    var index: nat := found.index;
    var left, right := None, None;
    if index >= 1 {
      IndexFinds(root, index - 1);
      var leftKey := GetByIndex(root, index - 1).value.0;
      var e := ProveLeaf(root, leftKey, index - 1);
      left := Some(e);
    }
    IndexFinds(root, index);
    var rightKey := GetByIndex(root, index);
    if rightKey.Some? {
      var e := ProveLeaf(root, rightKey.value.0, index);
      right := Some(e);
    }
    return Some(NonExistenceProof(key, left, right));
  }

  /** The leaf at an index up to the size, or nothing one past the end. */
  lemma IndexFinds(root: Node, index: nat)
    requires Searchable(root) && index <= |LeavesOf(Denotes(root))|
    ensures index < |LeavesOf(Denotes(root))| ==>
      GetByIndex(root, index) == Some((LeavesOf(Denotes(root))[index].key, LeavesOf(Denotes(root))[index].value))
    ensures index == |LeavesOf(Denotes(root))| ==> GetByIndex(root, index) == None
  {
    hide GetByIndex, MemNode.Valid, ValidNode, TreeOf;
    LeavesCount(Denotes(root));
    if index < |LeavesOf(Denotes(root))| { GetByIndexFinds(root, index); } else { GetByIndexPastEnd(root); }
  }

  /** The proof of the leaf at an index. */
  method ProveLeaf(root: Node, key: Bytes, ghost i: nat) returns (e: ExistenceProof)
    requires Ok(root) && WellFormed(Denotes(root)) && Signed(Denotes(root))
    requires i < |LeavesOf(Denotes(root))| && LeavesOf(Denotes(root))[i].key == key
    modifies Foot(root)`hash
    ensures Ok(root) && Denotes(root) == old(Denotes(root)) && Foot(root) == old(Foot(root))
    ensures HashesFilled(Foot(root))
    ensures Proves(Denotes(root), e, LeavesOf(Denotes(root))[i])
  {
    hide MemNode.Valid, ValidNode, TreeOf, Hash, Contents, ProofRoot, Signed;
    ghost var t := Denotes(root);
    LeafEntry(t, i);
    ghost var leaf;
    var ok;
    e, ok, leaf := CreateExistenceProof(root, key);
    SameKeySameLeaf(t, leaf, i);
  }
}
