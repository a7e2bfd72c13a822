/** Lookups by key and by index: recursion through in-memory nodes, binary search over the leaf array
    of a snapshot, and both mixed in one tree. */
module Lookup {
  import opened Bytes
  import E = Encoding
  import opened Avl
  import opened Hashing
  import opened Leaves
  import opened Snapshot
  import opened MemNodes

  /** A value, if the key is there, and the number of smaller keys. */
  datatype Found = Found(value: Option<Bytes>, index: int)

  // ------------------------------------------------------------------ snapshot nodes

  /** First leaf and number of leaves below a node. */
  function FirstLeafOf(p: PersistedNode): int
    requires InRange(p)
  {
    if p.isLeaf then p.index
    else StartLeaf(p.index, p.files.nodes[p.index].size, p.files.nodes[p.index].preTrees)
  }

  /** The leaves below a node are a window of the leaf array. */
  predicate InWindow(p: PersistedNode) {
    InRange(p) && 0 <= FirstLeafOf(p) && FirstLeafOf(p) + NodeSize(p) <= |p.files.leaves|
  }

  lemma {:induction false} HeldLeafAt(f: Files, t: Tree, leaf: nat, branch: nat, i: nat)
    requires Holds(f, t, leaf, branch) && Balanced(t) && i < |LeavesOf(t)|
    ensures leaf + i < |f.leaves|
    ensures f.leaves[leaf + i].key == LeavesOf(t)[i].key && f.leaves[leaf + i].value == LeavesOf(t)[i].value
    decreases t
  {
    if t.Branch? {
      LeavesCount(t.left);
      var ls := Size(t.left);
      if i < ls { HeldLeafAt(f, t.left, leaf, branch, i); }
      else { HeldLeafAt(f, t.right, leaf + ls, branch + ls - 1, i - ls); }
    }
  }

  /** The window of a node holds exactly the leaves of the tree the node denotes, in order. */
  lemma WindowHoldsLeaves(p: PersistedNode)
    requires ValidNode(Hash, p)
    ensures InWindow(p) && NodeSize(p) == |LeavesOf(TreeOf(p))|
    ensures forall i :: 0 <= i < NodeSize(p) ==>
      && p.files.leaves[FirstLeafOf(p) + i].key == LeavesOf(TreeOf(p))[i].key
      && p.files.leaves[FirstLeafOf(p) + i].value == LeavesOf(TreeOf(p))[i].value
  {
    hide TreeOf, HoldsHashes, Hash, Left, Right;
    var t := TreeOf(p);
    NodeView(Hash, p);
    LeavesCount(t);
    var leaf: nat, branch: nat :|
      && Holds(p.files, t, leaf, branch) && HoldsHashes(Hash, p.files, t, leaf, branch)
      && p == NodeAt(p.files, t, leaf, branch);
    HeldLeaves(p.files, t, leaf, branch);
    if t.Branch? {
      HeldBranchAt(p.files, t, leaf, branch);
      IndexArithmetic(leaf, branch, Size(t.left), Size(t.right));
    }
    assert FirstLeafOf(p) == leaf;
    forall i | 0 <= i < NodeSize(p)
      ensures p.files.leaves[leaf + i].key == LeavesOf(t)[i].key
      ensures p.files.leaves[leaf + i].value == LeavesOf(t)[i].value
    {
      HeldLeafAt(p.files, t, leaf, branch, i);
    }
  }

  /** `sort.Search` for the first leaf of the window whose key is not below `key`. */
  function BinarySearch(f: Files, start: nat, key: Bytes, i: nat, j: nat): (r: nat)
    requires i <= j && start + j <= |f.leaves|
    ensures i <= r <= j
    decreases j - i
  {
    if i == j then i
    else
      var h := (i + j) / 2;
      if Less(f.leaves[start + h].key, key) then BinarySearch(f, start, key, h + 1, j)
      else BinarySearch(f, start, key, i, h)
  }

  lemma {:induction false} BinarySearchCrosses(f: Files, start: nat, key: Bytes, i: nat, j: nat, s: seq<Tree>)
    requires i <= j <= |s| && start + |s| <= |f.leaves| && Ascending(s)
    requires forall k :: 0 <= k < |s| ==> f.leaves[start + k].key == s[k].key
    requires forall k :: 0 <= k < i ==> Less(s[k].key, key)
    requires forall k :: j <= k < |s| ==> !Less(s[k].key, key)
    ensures var r := BinarySearch(f, start, key, i, j);
      && (forall k :: 0 <= k < r ==> Less(s[k].key, key))
      && (forall k :: r <= k < |s| ==> !Less(s[k].key, key))
    decreases j - i
  {
    if i < j {
      var h := (i + j) / 2;
      AscendingCut(s, h, key);
      if Less(f.leaves[start + h].key, key) {
        BinarySearchCrosses(f, start, key, h + 1, j, s);
      } else {
        BinarySearchCrosses(f, start, key, i, h, s);
      }
    }
  }

  function PersistedGet(p: PersistedNode, key: Bytes): Found
    requires InWindow(p)
  {
    var start, count := FirstLeafOf(p), NodeSize(p);
    var i := BinarySearch(p.files, start, key, 0, count);
    if i + start >= start + count then Found(None, i)
    else if p.files.leaves[i + start].key != key then Found(None, i)
    else Found(Some(p.files.leaves[i + start].value), i)
  }

  /** Binary search returns the stored value and the rank. */
  lemma PersistedGetFinds(p: PersistedNode, key: Bytes)
    requires ValidNode(Hash, p)
    ensures InWindow(p)
    ensures PersistedGet(p, key) == Found(Find(TreeOf(p), key), Rank(TreeOf(p), key))
  {
    hide TreeOf, Hash, FirstLeafOf;
    var t := TreeOf(p);
    WindowHoldsLeaves(p);
    LeavesAscend(t);
    BinarySearchCrosses(p.files, FirstLeafOf(p), key, 0, NodeSize(p), LeavesOf(t));
    var i := BinarySearch(p.files, FirstLeafOf(p), key, 0, NodeSize(p));
    CrossingIsRank(LeavesOf(t), key, i);
    FindAtCrossing(t, key, i);
  }

  /** A key is present exactly when the leaf at the crossing carries it. */
  lemma FindAtCrossing(t: Tree, key: Bytes, i: nat)
    requires Ordered(t) && i <= |LeavesOf(t)|
    requires forall k :: 0 <= k < i ==> Less(LeavesOf(t)[k].key, key)
    requires forall k :: i <= k < |LeavesOf(t)| ==> !Less(LeavesOf(t)[k].key, key)
    ensures Find(t, key) ==
      if i < |LeavesOf(t)| && LeavesOf(t)[i].key == key then Some(LeavesOf(t)[i].value) else None
  {
    if key in Contents(t) {
      var j := EntryLeaf(t, key);
      LeafEntry(t, j);
      RankOfLeaf(t, j);
      CrossingIsRank(LeavesOf(t), key, i);
    } else if i < |LeavesOf(t)| {
      LeafEntry(t, i);
    }
  }

  /** The i-th leaf below a snapshot node; nothing past the end. */
  function PersistedGetByIndex(p: PersistedNode, index: nat): Option<(Bytes, Bytes)>
    requires InWindow(p)
  {
    if p.isLeaf then
      if index != 0 then None
      else Some((p.files.leaves[p.index].key, p.files.leaves[p.index].value))
    else
      var i := Add32(FirstLeafOf(p), index);
      if i > EndLeaf(p.index, p.files.nodes[p.index].preTrees) || i < 0 || i >= |p.files.leaves| then None
      else Some((p.files.leaves[i].key, p.files.leaves[i].value))
  }

  lemma PersistedGetByIndexFinds(p: PersistedNode, index: nat)
    requires ValidNode(Hash, p)
    requires index < Size(TreeOf(p))
    ensures InWindow(p) && index < |LeavesOf(TreeOf(p))|
    ensures var x := LeavesOf(TreeOf(p))[index]; PersistedGetByIndex(p, index) == Some((x.key, x.value))
  {
    hide TreeOf, Hash, Left, Right, HoldsHashes;
    var t := TreeOf(p);
    NodeView(Hash, p);
    WindowHoldsLeaves(p);
    var leaf: nat, branch: nat :|
      && Holds(p.files, t, leaf, branch) && HoldsHashes(Hash, p.files, t, leaf, branch)
      && p == NodeAt(p.files, t, leaf, branch);
    if t.Branch? {
      HeldLeaves(p.files, t, leaf, branch);
      HeldBranchAt(p.files, t, leaf, branch);
      IndexArithmetic(leaf, branch, Size(t.left), Size(t.right));
    }
  }

  // ------------------------------------------------------------------ all nodes

  /** A node that denotes a well-formed tree small enough for 32-bit indices. */
  ghost predicate Searchable(n: Node)
    reads Handle(n), Foot(n)
  {
    Ok(n) && Balanced(Denotes(n)) && Ordered(Denotes(n)) && Size(Denotes(n)) < E.TWO_32
  }

  lemma SearchableChildren(n: Node)
    requires Searchable(n) && n.Mem? && n.m.height > 0
    ensures Denotes(n).Branch? && n.m.size == Size(Denotes(n)) && n.m.key == Denotes(n).key
    ensures n.m.left != Nil && Handle(n.m.left) <= Foot(n.m.left) <= Foot(n) && Searchable(n.m.left)
    ensures n.m.right != Nil && Handle(n.m.right) <= Foot(n.m.right) <= Foot(n) && Searchable(n.m.right)
    ensures Denotes(n.m.left) == Denotes(n).left && Denotes(n.m.right) == Denotes(n).right
    ensures SizeOfChild(n.m.left) == Size(Denotes(n).left) && SizeOfChild(n.m.right) == Size(Denotes(n).right)
  {
    hide MemNode.Valid, Hash, ValidNode, TreeOf;
    View(n);
    View(n.m.left);
    View(n.m.right);
    SizePositive(Denotes(n).left);
    SizePositive(Denotes(n).right);
  }

  function SizeOfChild(n: Node): nat
    reads Handle(n)
  {
    if n.Persisted? && !InRange(n.p) then 0 else SizeOf(n)
  }

  function Get(n: Node, key: Bytes): Found
    requires Searchable(n)
    reads Handle(n), Foot(n)
    decreases Denotes(n)
  {
    match n
    case Persisted(p) => WindowHoldsLeaves(p); PersistedGet(p, key)
    case Mem(m) =>
      if m.height == 0 then
        if Less(m.key, key) then Found(None, 1)
        else if Less(key, m.key) then Found(None, 0)
        else Found(Some(m.value), 0)
      else
        SearchableChildren(n);
        if Less(key, m.key) then Get(m.left, key)
        else
          var r := Get(m.right, key);
          Found(r.value, Sub32(Add32(r.index, U32(m.size)), U32(SizeOfChild(m.right))))
  }

  function GetByIndex(n: Node, index: nat): Option<(Bytes, Bytes)>
    requires Searchable(n)
    reads Handle(n), Foot(n)
    decreases Denotes(n)
  {
    match n
    case Persisted(p) => WindowHoldsLeaves(p); PersistedGetByIndex(p, index)
    case Mem(m) =>
      if m.height == 0 then
        if index == 0 then Some((m.key, m.value)) else None
      else
        SearchableChildren(n);
        var leftSize := U32(SizeOfChild(m.left));
        if index < leftSize then GetByIndex(m.left, index) else GetByIndex(m.right, index - leftSize)
  }

  /** On every tree, in memory, on disk or mixed, a lookup returns the stored value and the rank. */
  lemma {:induction false} GetFinds(n: Node, key: Bytes)
    requires Searchable(n)
    ensures Get(n, key) == Found(Find(Denotes(n), key), Rank(Denotes(n), key))
    decreases Denotes(n)
  {
    hide Hash, ValidNode, TreeOf;
    match n
    case Persisted(p) => PersistedGetFinds(p, key);
    case Mem(m) =>
      if m.height == 0 {
        LessTotal(key, m.key);
        LessIrreflexive(key);
        if Less(m.key, key) && Less(key, m.key) { LessTransitive(key, m.key, key); }
        CrossingIsRank(LeavesOf(m.tree), key, if Less(m.key, key) then 1 else 0);
      } else {
        SearchableChildren(n);
        SearchBranch(Denotes(n), key);
        GetFinds(if Less(key, m.key) then m.left else m.right, key);
        RankBound(Denotes(n).right, key);
      }
  }

  lemma RankBound(t: Tree, key: Bytes)
    requires Balanced(t)
    ensures Rank(t, key) <= Size(t)
  {
    LeavesCount(t);
    CountBound(LeavesOf(t), key);
  }

  lemma {:induction false} CountBound(s: seq<Tree>, key: Bytes)
    ensures CountBelow(s, key) <= |s|
  {
    if s != [] { CountBound(s[1..], key); }
  }

  /** The index-th entry, for every index below the size. */
  lemma {:induction false} GetByIndexFinds(n: Node, index: nat)
    requires Searchable(n) && index < Size(Denotes(n))
    ensures index < |LeavesOf(Denotes(n))|
    ensures var x := LeavesOf(Denotes(n))[index]; GetByIndex(n, index) == Some((x.key, x.value))
    decreases Denotes(n)
  {
    hide Hash, ValidNode, TreeOf;
    LeavesCount(Denotes(n));
    match n
    case Persisted(p) => PersistedGetByIndexFinds(p, index);
    case Mem(m) =>
      if m.height > 0 {
        SearchableChildren(n);
        LeavesCount(Denotes(n).left);
        var leftSize := Size(Denotes(n).left);
        if index < leftSize { GetByIndexFinds(m.left, index); } else { GetByIndexFinds(m.right, index - leftSize); }
      }
  }

  /** Looking up the key found at an index gives back the index, and looking up the index found for a
      present key gives back the key and its value. */
  lemma LookupsInvert(n: Node, index: nat, key: Bytes)
    requires Searchable(n)
    ensures index < Size(Denotes(n)) ==>
      && GetByIndex(n, index).Some?
      && var (k, v) := GetByIndex(n, index).value; Get(n, k) == Found(Some(v), index)
    ensures key in Contents(Denotes(n)) ==>
      && Get(n, key).index >= 0
      && Get(n, key).value.Some?
      && GetByIndex(n, Get(n, key).index) == Some((key, Get(n, key).value.value))
  {
    hide Get, GetByIndex, Hash, ValidNode;
    var t := Denotes(n);
    LeavesCount(t);
    if index < Size(t) {
      GetByIndexFinds(n, index);
      GetFinds(n, LeavesOf(t)[index].key);
      RankOfLeaf(t, index);
      LeafEntry(t, index);
    }
    if key in Contents(t) {
      var j := EntryLeaf(t, key);
      RankOfLeaf(t, j);
      LeafEntry(t, j);
      GetFinds(n, key);
      GetByIndexFinds(n, j);
    }
  }

  /** One past the last index there is nothing. */
  lemma {:induction false} GetByIndexPastEnd(n: Node)
    requires Searchable(n)
    ensures GetByIndex(n, Size(Denotes(n))) == None
    decreases Denotes(n)
  {
    hide Hash, TreeOf;
    match n
    case Persisted(p) => PersistedPastEnd(p);
    case Mem(m) =>
      if m.height > 0 {
        SearchableChildren(n);
        GetByIndexPastEnd(m.right);
      }
  }

  lemma PersistedPastEnd(p: PersistedNode)
    requires ValidNode(Hash, p)
    ensures InWindow(p) && PersistedGetByIndex(p, Size(TreeOf(p))) == None
  {
    hide TreeOf, Hash, Left, Right, HoldsHashes;
    var t := TreeOf(p);
    NodeView(Hash, p);
    WindowHoldsLeaves(p);
    var leaf: nat, branch: nat :|
      && Holds(p.files, t, leaf, branch) && HoldsHashes(Hash, p.files, t, leaf, branch)
      && p == NodeAt(p.files, t, leaf, branch);
    if t.Branch? {
      HeldLeaves(p.files, t, leaf, branch);
      HeldBranchAt(p.files, t, leaf, branch);
      IndexArithmetic(leaf, branch, Size(t.left), Size(t.right));
    }
  }
}
