/** Tree nodes on the heap. A node is a mutable in-memory node or a node of a snapshot; nodes newer
    than the copy-on-write version are edited in place and older ones are cloned. */
module MemNodes {
  import opened Bytes
  import opened Avl
  import opened Hashing
  import opened Snapshot

  /** `Nil` stands for a missing node: an empty tree, or the child of a leaf. */
  datatype Node = Nil | Persisted(p: PersistedNode) | Mem(m: MemNode)

  class MemNode {
    var height: nat
    var size: nat
    var version: nat
    var key: Bytes
    var value: Bytes
    var left: Node
    var right: Node
    var hash: Option<Bytes>

    ghost var tree: Tree
    ghost var repr: set<MemNode>

    /** The node denotes `tree`, `repr` is the set of in-memory nodes it reaches, and a cached hash
        is the hash of what the node denotes. */
    ghost predicate Valid()
      reads this, repr
      decreases repr
    {
      && this in repr
      && (hash.Some? ==> hash.value == Hash(tree))
      && (height == 0 ==>
            && left == Nil && right == Nil && size == 1
            && repr == {this} && tree == Leaf(key, value, version))
      && (height > 0 ==>
            && left != Nil && right != Nil
            && (left.Persisted? ==> ValidNode(Hash, left.p))
            && (right.Persisted? ==> ValidNode(Hash, right.p))
            && (left.Mem? ==> left.m in repr && left.m.repr < repr && this !in left.m.repr && left.m.Valid())
            && (right.Mem? ==> right.m in repr && right.m.repr < repr && this !in right.m.repr && right.m.Valid())
            && Foot(left) !! Foot(right)
            && repr == {this} + Foot(left) + Foot(right)
            && tree == Branch(key, version, height, size, Denotes(left), Denotes(right)))
    }

    constructor (height: nat, size: nat, version: nat, key: Bytes, value: Bytes, left: Node, right: Node)
      ensures this.height == height && this.size == size && this.version == version
      ensures this.key == key && this.value == value && this.left == left && this.right == right
      ensures hash == None
      ensures height == 0 ==> tree == Leaf(key, value, version) && repr == {this}
    {
      this.height, this.size, this.version := height, size, version;
      this.key, this.value, this.left, this.right := key, value, left, right;
      hash := None;
      tree := Leaf(key, value, version);
      repr := {this};
    }
  }

  /** The heap object behind a node, if any. */
  ghost function Handle(n: Node): set<MemNode> {
    if n.Mem? then {n.m} else {}
  }

  /** The tree a node denotes. */
  ghost function Denotes(n: Node): Tree
    requires n != Nil
    reads Handle(n)
  {
    if n.Mem? then n.m.tree else TreeOf(n.p)
  }

  /** The in-memory nodes reachable from a node. */
  ghost function Foot(n: Node): set<MemNode>
    reads Handle(n)
  {
    if n.Mem? then n.m.repr else {}
  }

  /** A present node whose denotation is well defined. */
  ghost predicate Ok(n: Node)
    reads Handle(n), Foot(n)
  {
    match n
    case Nil => false
    case Persisted(p) => ValidNode(Hash, p)
    case Mem(m) => m.Valid()
  }

  /** The nodes a writer at copy-on-write version `cow` edits in place. */
  ghost function Owned(n: Node, cow: nat): set<MemNode>
    reads Handle(n), Foot(n)
  {
    set m | m in Foot(n) && m.version > cow
  }

  // ------------------------------------------------------------------ accessors

  function HeightOf(n: Node): nat
    reads Handle(n)
  {
    match n
    case Nil => 0
    case Persisted(p) => StoredHeight(p)
    case Mem(m) => m.height
  }

  function SizeOf(n: Node): nat
    requires n.Persisted? ==> InRange(n.p)
    reads Handle(n)
  {
    match n
    case Nil => 0
    case Persisted(p) => NodeSize(p)
    case Mem(m) => m.size
  }

  function KeyOf(n: Node): Bytes
    requires n.Persisted? ==> InRange(n.p)
    reads Handle(n)
  {
    match n
    case Nil => []
    case Persisted(p) => NodeKey(p)
    case Mem(m) => m.key
  }

  function ValueOf(n: Node): Bytes
    requires n.Persisted? ==> InRange(n.p)
    reads Handle(n)
  {
    match n
    case Nil => []
    case Persisted(p) => NodeValue(p)
    case Mem(m) => m.value
  }

  function LeftOf(n: Node): Node
    requires n.Persisted? ==> InRange(n.p)
    reads Handle(n)
  {
    match n
    case Nil => Nil
    case Persisted(p) => if p.isLeaf then Nil else Persisted(Left(p))
    case Mem(m) => m.left
  }

  function RightOf(n: Node): Node
    requires n.Persisted? ==> InRange(n.p)
    reads Handle(n)
  {
    match n
    case Nil => Nil
    case Persisted(p) => if p.isLeaf then Nil else Persisted(Right(p))
    case Mem(m) => m.right
  }

  function VersionOf(n: Node): nat
    requires n.Persisted? ==> InRange(n.p)
    reads Handle(n)
  {
    match n
    case Nil => 0
    case Persisted(p) => NodeVersion(p)
    case Mem(m) => m.version
  }

  /** A node's accessors return the fields of the tree it denotes, whatever its representation. */
  lemma View(n: Node)
    requires Ok(n)
    ensures n != Nil && (n.Persisted? ==> InRange(n.p))
    ensures n.Mem? ==> n.m in Foot(n) && n.m.version == Denotes(n).version
    ensures var t := Denotes(n);
      && HeightOf(n) == Height(t) && (t.Leaf? <==> HeightOf(n) == 0)
      && SizeOf(n) == Size(t) && KeyOf(n) == t.key
      && (t.Leaf? ==> ValueOf(n) == t.value && LeftOf(n) == Nil && RightOf(n) == Nil)
      && (t.Branch? ==>
            && LeftOf(n) != Nil && Ok(LeftOf(n)) && Denotes(LeftOf(n)) == t.left
            && RightOf(n) != Nil && Ok(RightOf(n)) && Denotes(RightOf(n)) == t.right
            && Foot(LeftOf(n)) !! Foot(RightOf(n))
            && Handle(LeftOf(n)) <= Foot(LeftOf(n)) <= Foot(n)
            && Handle(RightOf(n)) <= Foot(RightOf(n)) <= Foot(n)
            && (n.Mem? ==> n.m !in Foot(LeftOf(n)) && n.m !in Foot(RightOf(n))))
  {
    hide TreeOf, Left, Right, Hash;
    if n.Persisted? { NodeView(Hash, n.p); }
  }

  lemma VersionView(n: Node)
    requires Ok(n)
    ensures n.Persisted? ==> InRange(n.p)
    ensures VersionOf(n) == Denotes(n).version
  {
    hide TreeOf, Hash, MemNode.Valid;
    View(n);
    if n.Persisted? { NodeView(Hash, n.p); }
  }

  // ------------------------------------------------------------------ copy on write

  /** Clones a node at or below the copy-on-write version and edits a newer one in place. */
  method Mutate(n: Node, version: nat, cow: nat) returns (m: MemNode)
    requires n != Nil && (n.Persisted? ==> InRange(n.p))
    modifies if n.Mem? && n.m.version > cow then {n.m} else {}
    ensures m.version == version && m.hash == None
    ensures m.height == old(HeightOf(n)) && m.size == old(SizeOf(n))
    ensures m.key == old(KeyOf(n)) && m.value == old(ValueOf(n))
    ensures m.left == old(LeftOf(n)) && m.right == old(RightOf(n))
    ensures if n.Mem? && old(n.m.version) > cow then m == n.m else fresh(m)
  {
    match n
    case Persisted(p) =>
      m := new MemNode(HeightOf(n), SizeOf(n), version, KeyOf(n), ValueOf(n), LeftOf(n), RightOf(n));
    case Mem(node) =>
      m := node;
      if node.version <= cow {
        m := new MemNode(node.height, node.size, node.version, node.key, node.value, node.left, node.right);
      }
      m.version := version;
      m.hash := None;
  }

  method UpdateHeightSize(node: MemNode)
    requires node.left.Persisted? ==> InRange(node.left.p)
    requires node.right.Persisted? ==> InRange(node.right.p)
    requires node.left != Mem(node) && node.right != Mem(node)
    modifies node`height, node`size
    ensures node.height == Max(HeightOf(node.left), HeightOf(node.right)) + 1
    ensures node.size == SizeOf(node.left) + SizeOf(node.right)
  {
    node.height := Max(HeightOf(node.left), HeightOf(node.right)) + 1;
    node.size := SizeOf(node.left) + SizeOf(node.right);
  }

  /** Two valid nodes with disjoint footprints that do not contain `node`. */
  ghost predicate Siblings(node: MemNode, l: Node, r: Node)
    reads Handle(l), Foot(l), Handle(r), Foot(r)
  {
    && Ok(l) && Handle(l) <= Foot(l) && node !in Foot(l)
    && Ok(r) && Handle(r) <= Foot(r) && node !in Foot(r)
    && Foot(l) !! Foot(r)
  }

  /** Records what a branch denotes once its fields are final. */
  ghost method Seal(node: MemNode)
    requires Siblings(node, node.left, node.right) && node.height > 0 && node.hash == None
    modifies node`tree, node`repr
    ensures Ok(Mem(node))
    ensures node.tree == Branch(node.key, node.version, node.height, node.size,
                                old(Denotes(node.left)), old(Denotes(node.right)))
    ensures node.repr == {node} + old(Foot(node.left)) + old(Foot(node.right))
  {
    hide Hash, TreeOf, ValidNode;
    node.tree := Branch(node.key, node.version, node.height, node.size, Denotes(node.left), Denotes(node.right));
    node.repr := {node} + Foot(node.left) + Foot(node.right);
  }

  /** Computes height and size from valid children and records what the node denotes. */
  method Finish(node: MemNode)
    requires Siblings(node, node.left, node.right) && node.hash == None
    modifies node`height, node`size, node`tree, node`repr
    ensures Ok(Mem(node))
    ensures node.tree == Join(node.key, node.version, old(Denotes(node.left)), old(Denotes(node.right)))
    ensures node.repr == {node} + old(Foot(node.left)) + old(Foot(node.right))
  {
    hide Ok, MemNode.Valid, ValidNode, TreeOf, InRange, StoredHeight, NodeSize, NodeKey, NodeValue, Left, Right, Hash;
    View(node.left);
    View(node.right);
    UpdateHeightSize(node);
    Seal(node);
  }

  /** Replaces the left child, then height, size and denotation. */
  method RelinkLeft(node: MemNode, l: Node)
    requires Siblings(node, l, node.right) && node.hash == None
    modifies node`left, node`height, node`size, node`tree, node`repr
    ensures Ok(Mem(node)) && node.left == l
    ensures node.tree == Join(node.key, node.version, old(Denotes(l)), old(Denotes(node.right)))
    ensures node.repr == {node} + old(Foot(l)) + old(Foot(node.right))
  {
    hide Ok, Hash, TreeOf, Join;
    node.left := l;
    Finish(node);
  }

  /** Replaces the right child, then height, size and denotation. */
  method RelinkRight(node: MemNode, r: Node)
    requires Siblings(node, node.left, r) && node.hash == None
    modifies node`right, node`height, node`size, node`tree, node`repr
    ensures Ok(Mem(node)) && node.right == r
    ensures node.tree == Join(node.key, node.version, old(Denotes(node.left)), old(Denotes(r)))
    ensures node.repr == {node} + old(Foot(node.left)) + old(Foot(r))
  {
    hide Ok, Hash, TreeOf, Join;
    node.right := r;
    Finish(node);
  }

  /** Replaces the left child, keeping height and size. */
  method ReplaceLeft(node: MemNode, l: Node)
    requires Siblings(node, l, node.right) && node.hash == None && node.height > 0
    modifies node`left, node`tree, node`repr
    ensures Ok(Mem(node)) && node.left == l
    ensures node.tree == Branch(node.key, node.version, node.height, node.size,
                                old(Denotes(l)), old(Denotes(node.right)))
    ensures node.repr == {node} + old(Foot(l)) + old(Foot(node.right))
  {
    hide Ok, Hash, TreeOf;
    node.left := l;
    Seal(node);
  }

  /** Replaces the right child, keeping height and size. */
  method ReplaceRight(node: MemNode, r: Node)
    requires Siblings(node, node.left, r) && node.hash == None && node.height > 0
    modifies node`right, node`tree, node`repr
    ensures Ok(Mem(node)) && node.right == r
    ensures node.tree == Branch(node.key, node.version, node.height, node.size,
                                old(Denotes(node.left)), old(Denotes(r)))
    ensures node.repr == {node} + old(Foot(node.left)) + old(Foot(r))
  {
    hide Ok, Hash, TreeOf;
    node.right := r;
    Seal(node);
  }

  /** Makes a branch editable, leaving its children valid beside it. */
  method Open(n: Node, version: nat, cow: nat) returns (self: MemNode)
    requires Ok(n) && Denotes(n).Branch?
    modifies if n.Mem? && n.m.version > cow then {n.m} else {}
    ensures self.version == version && self.hash == None
    ensures var t := old(Denotes(n));
      && self.key == t.key && self.height == t.height && self.size == t.size
      && Siblings(self, self.left, self.right)
      && Denotes(self.left) == t.left && Denotes(self.right) == t.right
    ensures if n.Mem? && old(n.m.version) > cow then self == n.m else fresh(self)
    ensures self in old(Foot(n)) || fresh(self)
    ensures Foot(self.left) <= old(Foot(n)) && Foot(self.right) <= old(Foot(n))
  {
    hide ValidNode, TreeOf, InRange, StoredHeight, NodeSize, NodeKey, NodeValue, Left, Right, Hash;
    View(n);
    self := Mutate(n, version, cow);
  }

  // ------------------------------------------------------------------ rotations

  method RotateRight(node: MemNode, version: nat, cow: nat) returns (self: MemNode)
    requires Ok(Mem(node)) && node.hash == None && node.version > cow
    requires node.tree.Branch? && node.tree.left.Branch?
    modifies Owned(Mem(node), cow)
    ensures Ok(Mem(self)) && self.hash == None && self.version == version
    ensures self.tree == Avl.RotateRight(old(node.tree), version)
    ensures fresh(self.repr - old(node.repr))
  {
    hide Ok, MemNode.Valid, ValidNode, TreeOf, InRange, StoredHeight, NodeSize, NodeKey, NodeValue, Left, Right, Hash;
    hide Join, HeightOf, SizeOf, ValueOf;
    View(Mem(node));
    View(node.left);
    ghost var before := node.repr;
    self := Open(node.left, version, cow);
    assert Foot(self.left) <= before && Foot(self.right) <= before && Foot(node.right) <= before;
    RelinkLeft(node, self.right);
    RelinkRight(self, Mem(node));
  }

  method RotateLeft(node: MemNode, version: nat, cow: nat) returns (self: MemNode)
    requires Ok(Mem(node)) && node.hash == None && node.version > cow
    requires node.tree.Branch? && node.tree.right.Branch?
    modifies Owned(Mem(node), cow)
    ensures Ok(Mem(self)) && self.hash == None && self.version == version
    ensures self.tree == Avl.RotateLeft(old(node.tree), version)
    ensures fresh(self.repr - old(node.repr))
  {
    hide Ok, MemNode.Valid, ValidNode, TreeOf, InRange, StoredHeight, NodeSize, NodeKey, NodeValue, Left, Right, Hash;
    hide Join, HeightOf, SizeOf, ValueOf;
    View(Mem(node));
    View(node.right);
    ghost var before := node.repr;
    self := Open(node.right, version, cow);
    assert Foot(self.left) <= before && Foot(self.right) <= before && Foot(node.left) <= before;
    RelinkRight(node, self.left);
    RelinkLeft(self, Mem(node));
  }

  /** `Mutate(..).rotateLeft(..)`. */
  method MutateRotateLeft(n: Node, version: nat, cow: nat) returns (self: MemNode)
    requires Ok(n) && Denotes(n).Branch? && Denotes(n).right.Branch? && version > cow
    modifies Owned(n, cow)
    ensures Ok(Mem(self)) && Handle(Mem(self)) <= self.repr && fresh(self.repr - old(Foot(n)))
    ensures self.tree == Avl.RotateLeft(Stamp(old(Denotes(n)), version), version)
  {
    hide Ok, MemNode.Valid, ValidNode, TreeOf, InRange, StoredHeight, NodeSize, NodeKey, NodeValue, Left, Right, Hash;
    hide Join, HeightOf, SizeOf, KeyOf, ValueOf, Avl.RotateLeft;
    View(n);
    self := Open(n, version, cow);
    Seal(self);
    self := RotateLeft(self, version, cow);
    View(Mem(self));
  }

  /** `Mutate(..).rotateRight(..)`. */
  method MutateRotateRight(n: Node, version: nat, cow: nat) returns (self: MemNode)
    requires Ok(n) && Denotes(n).Branch? && Denotes(n).left.Branch? && version > cow
    modifies Owned(n, cow)
    ensures Ok(Mem(self)) && Handle(Mem(self)) <= self.repr && fresh(self.repr - old(Foot(n)))
    ensures self.tree == Avl.RotateRight(Stamp(old(Denotes(n)), version), version)
  {
    hide Ok, MemNode.Valid, ValidNode, TreeOf, InRange, StoredHeight, NodeSize, NodeKey, NodeValue, Left, Right, Hash;
    hide Join, HeightOf, SizeOf, KeyOf, ValueOf, Avl.RotateRight;
    View(n);
    self := Open(n, version, cow);
    Seal(self);
    self := RotateRight(self, version, cow);
    View(Mem(self));
  }

  /** Rotates the left child left: the first half of a left-right double rotation. */
  method RotateLeftChild(node: MemNode, version: nat, cow: nat)
    requires Ok(Mem(node)) && node.hash == None && version > cow
    requires node.tree.Branch? && node.tree.left.Branch? && node.tree.left.right.Branch?
    modifies Owned(node.left, cow), node
    ensures Ok(Mem(node)) && node.hash == None && node.version == old(node.version)
    ensures node.tree == WithLeft(old(node.tree), Avl.RotateLeft(Stamp(old(node.tree.left), version), version))
    ensures fresh(node.repr - old(node.repr))
  {
    hide Ok, MemNode.Valid, ValidNode, TreeOf, InRange, StoredHeight, NodeSize, NodeKey, NodeValue, Left, Right, Hash;
    hide Join, ValueOf, Avl.RotateLeft, Stamp;
    View(Mem(node));
    var child := MutateRotateLeft(node.left, version, cow);
    ReplaceLeft(node, Mem(child));
  }

  /** Rotates the right child right: the first half of a right-left double rotation. */
  method RotateRightChild(node: MemNode, version: nat, cow: nat)
    requires Ok(Mem(node)) && node.hash == None && version > cow
    requires node.tree.Branch? && node.tree.right.Branch? && node.tree.right.left.Branch?
    modifies Owned(node.right, cow), node
    ensures Ok(Mem(node)) && node.hash == None && node.version == old(node.version)
    ensures node.tree == WithRight(old(node.tree), Avl.RotateRight(Stamp(old(node.tree.right), version), version))
    ensures fresh(node.repr - old(node.repr))
  {
    hide Ok, MemNode.Valid, ValidNode, TreeOf, InRange, StoredHeight, NodeSize, NodeKey, NodeValue, Left, Right, Hash;
    hide Join, ValueOf, Avl.RotateRight, Stamp;
    View(Mem(node));
    var child := MutateRotateRight(node.right, version, cow);
    ReplaceRight(node, Mem(child));
  }

  function BalanceOf(n: Node): int
    requires n.Persisted? ==> InRange(n.p)
    reads Handle(n), Handle(LeftOf(n)), Handle(RightOf(n))
  {
    HeightOf(LeftOf(n)) - HeightOf(RightOf(n))
  }

  lemma BalanceView(n: Node)
    requires Ok(n) && Denotes(n).Branch?
    ensures n.Persisted? ==> InRange(n.p)
    ensures BalanceOf(n) == Balance(Denotes(n))
  {
    hide Ok, MemNode.Valid, ValidNode, TreeOf, InRange, StoredHeight, NodeSize, NodeKey, NodeValue, Left, Right, Hash;
    View(n);
    View(LeftOf(n));
    View(RightOf(n));
  }

  /** Restores the balance of a node made editable by the writer. */
  method ReBalance(node: MemNode, version: nat, cow: nat) returns (r: MemNode)
    requires Ok(Mem(node)) && node.tree.Branch? && node.hash == None
    requires node.version == version && version > cow
    modifies Owned(Mem(node), cow)
    ensures Ok(Mem(r)) && r.hash == None && r.version == version
    ensures r.tree == Rebalance(old(node.tree), version)
    ensures fresh(r.repr - old(node.repr))
  {
    hide Ok, MemNode.Valid, ValidNode, TreeOf, InRange, StoredHeight, NodeSize, NodeKey, NodeValue, Left, Right, Hash;
    hide Join, HeightOf, SizeOf, KeyOf, ValueOf, Avl.RotateLeft, Avl.RotateRight, BalanceOf;
    View(Mem(node));
    BalanceView(Mem(node));
    var balance := BalanceOf(Mem(node));
    if balance > 1 {
      BalanceView(node.left);
      if BalanceOf(node.left) < 0 {
        RotateLeftChild(node, version, cow);
      }
      r := RotateRight(node, version, cow);
    } else if balance < -1 {
      BalanceView(node.right);
      if BalanceOf(node.right) > 0 {
        RotateRightChild(node, version, cow);
      }
      r := RotateLeft(node, version, cow);
    } else {
      r := node;
    }
  }

  // ------------------------------------------------------------------ set

  /** A branch of two levels over an existing leaf and a new one. */
  method JoinLeaves(key: Bytes, version: nat, l: Node, r: Node) returns (m: MemNode)
    requires Ok(l) && Handle(l) <= Foot(l) && Ok(r) && Handle(r) <= Foot(r) && Foot(l) !! Foot(r)
    ensures fresh(m) && Ok(Mem(m)) && m.hash == None && m.version == version
    ensures m.repr == {m} + Foot(l) + Foot(r)
    ensures m.tree == Branch(key, version, 1, 2, Denotes(l), Denotes(r))
  {
    hide Ok, TreeOf;
    m := new MemNode(1, 2, version, key, [], l, r);
    Seal(m);
  }

  method NewLeaf(key: Bytes, value: Bytes, version: nat) returns (m: MemNode)
    ensures fresh(m) && Ok(Mem(m)) && m.hash == None && m.version == version
    ensures m.repr == {m} && m.tree == Leaf(key, value, version)
  {
    m := new MemNode(0, 1, version, key, value, Nil, Nil);
  }

  /** A new value for an existing leaf, in place or in a clone. */
  method UpdateLeaf(n: Node, value: Bytes, version: nat, cow: nat) returns (m: MemNode)
    requires Ok(n) && Denotes(n).Leaf?
    modifies if n.Mem? && n.m.version > cow then {n.m} else {}
    ensures Ok(Mem(m)) && m.hash == None && m.version == version && fresh(m.repr - old(Foot(n)))
    ensures m.tree == Leaf(old(Denotes(n)).key, value, version)
    ensures n.Mem? && old(n.m.version) > cow ==> m == n.m
  {
    hide ValidNode, TreeOf, InRange, StoredHeight, NodeSize, NodeKey, NodeValue, Left, Right, Hash;
    View(n);
    m := Mutate(n, version, cow);
    m.value := value;
    m.tree := Leaf(m.key, value, version);
    m.repr := {m};
  }

  /** Setting at a leaf: a new value, or a new branch over the old leaf. */
  method SetLeaf(n: Node, key: Bytes, value: Bytes, version: nat, cow: nat) returns (m: MemNode, updated: bool)
    requires Ok(n) && Denotes(n).Leaf?
    modifies if n.Mem? && n.m.version > cow then {n.m} else {}
    ensures Ok(Mem(m)) && m.hash == None && m.version == version && fresh(m.repr - old(Foot(n)))
    ensures SetResult(m.tree, updated) == SetRec(old(Denotes(n)), key, value, version)
    ensures updated && n.Mem? && old(n.m.version) > cow ==> m == n.m
  {
    hide MemNode.Valid, ValidNode, TreeOf, InRange, StoredHeight, NodeSize, NodeKey, NodeValue, Left, Right, Hash;
    View(n);
    var nodeKey := KeyOf(n);
    if Less(key, nodeKey) {
      var leaf := NewLeaf(key, value, version);
      m := JoinLeaves(nodeKey, version, Mem(leaf), n);
      updated := false;
    } else if Less(nodeKey, key) {
      var leaf := NewLeaf(key, value, version);
      m := JoinLeaves(key, version, n, Mem(leaf));
      updated := false;
    } else {
      m := UpdateLeaf(n, value, version, cow);
      updated := true;
    }
  }

  /** The node to be edited at `n`, if it may be edited in place. */
  ghost function InPlace(n: Node, cow: nat): set<MemNode>
    reads Handle(n)
  {
    if n.Mem? && n.m.version > cow then {n.m} else {}
  }

  /** `l` and `r` can become the children of the node edited at `n`. */
  ghost predicate Graftable(n: Node, l: Node, r: Node)
    reads Handle(n), Handle(l), Foot(l), Handle(r), Foot(r)
  {
    && n != Nil && (n.Persisted? ==> InRange(n.p)) && HeightOf(n) > 0
    && Ok(l) && Handle(l) <= Foot(l) && Handle(n) !! Foot(l)
    && Ok(r) && Handle(r) <= Foot(r) && Handle(n) !! Foot(r)
    && Foot(l) !! Foot(r)
  }

  /** Edits a branch to have the new left child `l`; with `resize`, height, size and balance follow. */
  method GraftLeft(n: Node, l: Node, resize: bool, version: nat, cow: nat) returns (m: MemNode)
    requires (n.Persisted? ==> InRange(n.p)) && Graftable(n, l, RightOf(n)) && cow < version
    modifies InPlace(n, cow), Owned(l, cow), Owned(RightOf(n), cow)
    ensures Ok(Mem(m)) && m.hash == None && m.version == version
    ensures m.tree == old(
      if resize then Rebalance(Join(KeyOf(n), version, Denotes(l), Denotes(RightOf(n))), version)
      else Branch(KeyOf(n), version, HeightOf(n), SizeOf(n), Denotes(l), Denotes(RightOf(n))))
    ensures fresh(m.repr - old(Handle(n) + Foot(l) + Foot(RightOf(n))))
    ensures !resize && n.Mem? && old(n.m.version) > cow ==> m == n.m
  {
    hide MemNode.Valid, ValidNode, TreeOf, InRange, StoredHeight, NodeSize, NodeKey, NodeValue, Left, Right, Hash;
    hide Rebalance, Join;
    m := Mutate(n, version, cow);
    if resize {
      RelinkLeft(m, l);
      m := ReBalance(m, version, cow);
    } else {
      ReplaceLeft(m, l);
    }
  }

  /** Edits a branch to have the new right child `r`, and possibly a new key. */
  method GraftRight(n: Node, r: Node, newKey: Option<Bytes>, resize: bool, version: nat, cow: nat) returns (m: MemNode)
    requires (n.Persisted? ==> InRange(n.p)) && Graftable(n, LeftOf(n), r) && cow < version
    modifies InPlace(n, cow), Owned(LeftOf(n), cow), Owned(r, cow)
    ensures Ok(Mem(m)) && m.hash == None && m.version == version
    ensures m.tree == old(
      var key := if newKey.Some? then newKey.value else KeyOf(n);
      if resize then Rebalance(Join(key, version, Denotes(LeftOf(n)), Denotes(r)), version)
      else Branch(key, version, HeightOf(n), SizeOf(n), Denotes(LeftOf(n)), Denotes(r)))
    ensures fresh(m.repr - old(Handle(n) + Foot(LeftOf(n)) + Foot(r)))
    ensures !resize && n.Mem? && old(n.m.version) > cow ==> m == n.m
  {
    hide MemNode.Valid, ValidNode, TreeOf, InRange, StoredHeight, NodeSize, NodeKey, NodeValue, Left, Right, Hash;
    hide Rebalance, Join;
    m := Mutate(n, version, cow);
    if newKey.Some? {
      m.key := newKey.value;
    }
    if resize {
      RelinkRight(m, r);
      m := ReBalance(m, version, cow);
    } else {
      ReplaceRight(m, r);
    }
  }

  /** Sets a key below `n`, editing in place only nodes newer than the copy-on-write version. */
  method SetRecursive(n: Node, key: Bytes, value: Bytes, version: nat, cow: nat) returns (m: MemNode, updated: bool)
    requires n != Nil ==> Ok(n)
    requires cow < version
    modifies Owned(n, cow)
    ensures Ok(Mem(m)) && m.hash == None && m.version == version && fresh(m.repr - old(Foot(n)))
    ensures SetResult(m.tree, updated)
         == if n == Nil then SetResult(Leaf(key, value, version), true)
            else SetRec(old(Denotes(n)), key, value, version)
    ensures updated && n.Mem? && old(n.m.version) > cow ==> m == n.m
    decreases if n == Nil then Leaf([], [], 0) else Denotes(n), 1
  {
    hide MemNode.Valid, ValidNode, TreeOf, InRange, StoredHeight, NodeSize, NodeKey, NodeValue, Left, Right, Hash;
    if n == Nil {
      m := NewLeaf(key, value, version);
      updated := true;
    } else {
      View(n);
      if HeightOf(n) == 0 {
        m, updated := SetLeaf(n, key, value, version, cow);
      } else if Less(key, KeyOf(n)) {
        m, updated := SetLeft(n, key, value, version, cow);
      } else {
        m, updated := SetRight(n, key, value, version, cow);
      }
    }
  }

  method SetLeft(n: Node, key: Bytes, value: Bytes, version: nat, cow: nat) returns (m: MemNode, updated: bool)
    requires Ok(n) && Denotes(n).Branch? && Less(key, Denotes(n).key) && cow < version
    modifies Owned(n, cow)
    ensures Ok(Mem(m)) && m.hash == None && m.version == version && fresh(m.repr - old(Foot(n)))
    ensures SetResult(m.tree, updated) == SetRec(old(Denotes(n)), key, value, version)
    ensures updated && n.Mem? && old(n.m.version) > cow ==> m == n.m
    decreases Denotes(n), 0
  {
    hide MemNode.Valid, ValidNode, TreeOf, InRange, StoredHeight, NodeSize, NodeKey, NodeValue, Left, Right, Hash;
    hide Rebalance, Join;
    View(n);
    var child;
    child, updated := SetRecursive(LeftOf(n), key, value, version, cow);
    View(Mem(child));
    m := GraftLeft(n, Mem(child), !updated, version, cow);
  }

  method SetRight(n: Node, key: Bytes, value: Bytes, version: nat, cow: nat) returns (m: MemNode, updated: bool)
    requires Ok(n) && Denotes(n).Branch? && !Less(key, Denotes(n).key) && cow < version
    modifies Owned(n, cow)
    ensures Ok(Mem(m)) && m.hash == None && m.version == version && fresh(m.repr - old(Foot(n)))
    ensures SetResult(m.tree, updated) == SetRec(old(Denotes(n)), key, value, version)
    ensures updated && n.Mem? && old(n.m.version) > cow ==> m == n.m
    decreases Denotes(n), 0
  {
    hide MemNode.Valid, ValidNode, TreeOf, InRange, StoredHeight, NodeSize, NodeKey, NodeValue, Left, Right, Hash;
    hide Rebalance, Join;
    View(n);
    var child;
    child, updated := SetRecursive(RightOf(n), key, value, version, cow);
    View(Mem(child));
    m := GraftRight(n, Mem(child), None, !updated, version, cow);
  }

  // ------------------------------------------------------------------ remove

  /** The result triple of a removal, read as a value. */
  ghost function Outcome(value: Option<Bytes>, r: Node, newKey: Option<Bytes>): RemoveResult
    reads Handle(r)
  {
    if value.None? then Unchanged
    else Removed(value.value, if r == Nil then None else Some(Denotes(r)), newKey)
  }

  /** Removes a key below `n`; when the key is absent, nothing on the heap changes. */
  method RemoveRecursive(n: Node, key: Bytes, version: nat, cow: nat)
    returns (value: Option<Bytes>, r: Node, newKey: Option<Bytes>)
    requires n != Nil ==> Ok(n)
    requires cow < version
    modifies Owned(n, cow)
    ensures n == Nil ==> value == None && r == Nil
    ensures n != Nil ==> Outcome(value, r, newKey) == RemoveRec(old(Denotes(n)), key, version)
    ensures value == None ==> r == n && forall x :: x in old(Owned(n, cow)) && old(allocated(x)) ==> unchanged(x)
    ensures r != Nil ==> Ok(r) && Handle(r) <= Foot(r) && fresh(Foot(r) - old(Foot(n)))
    decreases if n == Nil then Leaf([], [], 0) else Denotes(n), 1
  {
    hide MemNode.Valid, ValidNode, TreeOf, InRange, StoredHeight, NodeSize, NodeKey, NodeValue, Left, Right, Hash;
    newKey := None;
    if n == Nil {
      value, r := None, Nil;
    } else {
      View(n);
      if HeightOf(n) == 0 {
        if KeyOf(n) == key {
          value, r := Some(ValueOf(n)), Nil;
        } else {
          value, r := None, n;
        }
      } else if Less(key, KeyOf(n)) {
        value, r, newKey := RemoveLeft(n, key, version, cow);
      } else {
        value, r, newKey := RemoveRight(n, key, version, cow);
      }
    }
  }

  method RemoveLeft(n: Node, key: Bytes, version: nat, cow: nat)
    returns (value: Option<Bytes>, r: Node, newKey: Option<Bytes>)
    requires Ok(n) && Denotes(n).Branch? && Less(key, Denotes(n).key) && cow < version
    modifies Owned(n, cow)
    ensures Outcome(value, r, newKey) == RemoveRec(old(Denotes(n)), key, version)
    ensures value == None ==> r == n && unchanged(old(Owned(n, cow)))
    ensures r != Nil && Ok(r) && Handle(r) <= Foot(r) && fresh(Foot(r) - old(Foot(n)))
    decreases Denotes(n), 0
  {
    hide MemNode.Valid, ValidNode, TreeOf, InRange, StoredHeight, NodeSize, NodeKey, NodeValue, Left, Right, Hash;
    hide Rebalance, Join;
    View(n);
    var newLeft;
    value, newLeft, newKey := RemoveRecursive(LeftOf(n), key, version, cow);
    if value == None {
      r, newKey := n, None;
    } else if newLeft == Nil {
      r, newKey := RightOf(n), Some(KeyOf(n));
    } else {
      var m := GraftLeft(n, newLeft, true, version, cow);
      View(Mem(m));
      r := Mem(m);
    }
  }

  method RemoveRight(n: Node, key: Bytes, version: nat, cow: nat)
    returns (value: Option<Bytes>, r: Node, newKey: Option<Bytes>)
    requires Ok(n) && Denotes(n).Branch? && !Less(key, Denotes(n).key) && cow < version
    modifies Owned(n, cow)
    ensures Outcome(value, r, newKey) == RemoveRec(old(Denotes(n)), key, version)
    ensures value == None ==> r == n && unchanged(old(Owned(n, cow)))
    ensures r != Nil && Ok(r) && Handle(r) <= Foot(r) && fresh(Foot(r) - old(Foot(n)))
    decreases Denotes(n), 0
  {
    hide MemNode.Valid, ValidNode, TreeOf, InRange, StoredHeight, NodeSize, NodeKey, NodeValue, Left, Right, Hash;
    hide Rebalance, Join;
    View(n);
    var newRight;
    value, newRight, newKey := RemoveRecursive(RightOf(n), key, version, cow);
    if value == None {
      r := n;
    } else if newRight == Nil {
      r := LeftOf(n);
    } else {
      var m := GraftRight(n, newRight, newKey, true, version, cow);
      View(Mem(m));
      r := Mem(m);
    }
    newKey := None;
  }

  // ------------------------------------------------------------------ hashes

  /** Since the earlier state each hash cache kept its content or was filled with the hash of what
      its node denotes. */
  twostate predicate HashesFilled(s: set<MemNode>)
    reads s
  {
    forall x :: x in s && old(allocated(x)) ==> x.hash == old(x.hash) || x.hash == Some(Hash(x.tree))
  }

  /** Since the earlier state nothing but hash caches changed. */
  twostate predicate OnlyHashes(s: set<MemNode>)
    reads s
  {
    forall x :: x in s && old(allocated(x)) ==>
      && x.height == old(x.height) && x.size == old(x.size) && x.version == old(x.version)
      && x.key == old(x.key) && x.value == old(x.value) && x.left == old(x.left) && x.right == old(x.right)
      && x.tree == old(x.tree) && x.repr == old(x.repr)
  }

  /** Filling hash caches leaves every node valid, also in trees that share the hashed nodes. */
  twostate lemma {:induction false} StillOk(n: Node)
    requires old(Ok(n)) && OnlyHashes(old(Foot(n))) && HashesFilled(old(Foot(n)))
    ensures Ok(n) && Foot(n) == old(Foot(n)) && Denotes(n) == old(Denotes(n))
    decreases old(Denotes(n))
  {
    hide ValidNode, TreeOf, Hash;
    if n.Mem? && n.m.height > 0 {
      StillOk(n.m.left);
      StillOk(n.m.right);
    }
  }

  lemma CachedHash(m: MemNode)
    requires Ok(Mem(m))
    ensures m.hash.Some? ==> m.hash.value == Hash(m.tree)
    ensures m.tree == if m.height == 0 then Leaf(m.key, m.value, m.version)
                      else Branch(m.key, m.version, m.height, m.size, Denotes(m.left), Denotes(m.right))
    ensures m.height > 0 ==> m.repr == {m} + Foot(m.left) + Foot(m.right)
  {
    hide Hash;
  }

  method FillHash(m: MemNode, h: Bytes)
    requires Ok(Mem(m)) && h == Hash(m.tree)
    modifies m`hash
    ensures Ok(Mem(m)) && m.hash == Some(h)
  {
    hide ValidNode, TreeOf, Hash, MemNode.Valid;
    m.hash := Some(h);
    StillOk(Mem(m));
  }

  /** The hash of a node: stored, cached, or computed from the children's hashes and cached. */
  method HashOf(n: Node) returns (h: Bytes)
    requires Ok(n)
    modifies Foot(n)`hash
    ensures h == Hash(Denotes(n)) && Ok(n) && HashesFilled(Foot(n))
    decreases Denotes(n), 1
  {
    hide ValidNode, TreeOf, Left, Right, InnerPreimage, LeafPreimage, Hash, MemNode.Valid;
    View(n);
    match n
    case Persisted(p) =>
      NodeView(Hash, p);
      h := NodeHash(p);
    case Mem(m) =>
      CachedHash(m);
      HashParts(m.tree);
      if m.hash.Some? {
        h := m.hash.value;
      } else {
        if m.height == 0 {
          h := Sha256(LeafPreimage(m.version, m.key, m.value));
        } else {
          h := HashBranch(m);
        }
        FillHash(m, h);
      }
  }

  method HashBranch(m: MemNode) returns (h: Bytes)
    requires Ok(Mem(m)) && m.height > 0
    modifies m.repr`hash
    ensures h == Hash(m.tree) && Ok(Mem(m)) && HashesFilled(m.repr)
    decreases Denotes(Mem(m)), 0, 1
  {
    hide ValidNode, TreeOf, InnerPreimage, LeafPreimage, Hash, MemNode.Valid;
    CachedHash(m);
    HashParts(m.tree);
    var left, right := HashChildren(m);
    h := Sha256(InnerPreimage(m.height, m.size, m.version, left, right));
    StillOk(Mem(m));
  }

  method HashChildren(m: MemNode) returns (left: Bytes, right: Bytes)
    requires Ok(Mem(m)) && m.height > 0 && m.tree.Branch?
    modifies m.repr`hash
    ensures left == Hash(m.tree.left) && right == Hash(m.tree.right) && HashesFilled(m.repr)
    decreases Denotes(Mem(m)), 0, 0
  {
    hide ValidNode, TreeOf, InRange, Hash, MemNode.Valid, HeightOf, SizeOf, KeyOf, ValueOf, Left, Right;
    View(Mem(m));
    CachedHash(m);
    left := HashOf(m.left);
    right := HashOf(m.right);
  }
}
