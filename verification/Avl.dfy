/** The leaf-based, version-stamped AVL tree as a value: what every node of the
    tree, in memory or on disk, denotes, and what the recursive updates compute. */
module Avl {
  import opened Bytes

  /** Heights and sizes of branches are stored, as in the program. */
  datatype Tree =
    | Leaf(key: Bytes, value: Bytes, version: nat)
    | Branch(key: Bytes, version: nat, height: nat, size: nat, left: Tree, right: Tree)

  function Height(t: Tree): nat { if t.Leaf? then 0 else t.height }

  function Size(t: Tree): nat { if t.Leaf? then 1 else t.size }

  function NodeCount(t: Tree): nat { if t.Leaf? then 1 else 1 + NodeCount(t.left) + NodeCount(t.right) }

  function Stamp(t: Tree, version: nat): Tree {
    match t
    case Leaf(k, v, _) => Leaf(k, v, version)
    case Branch(k, _, h, s, l, r) => Branch(k, version, h, s, l, r)
  }

  /** A branch with its height and size computed from its children. */
  function Join(key: Bytes, version: nat, left: Tree, right: Tree): (r: Tree)
    ensures r.Branch?
  {
    Branch(key, version, Max(Height(left), Height(right)) + 1, Size(left) + Size(right), left, right)
  }

  function Balance(t: Tree): int
    requires t.Branch?
  {
    Height(t.left) - Height(t.right)
  }

  function RotateRight(t: Tree, version: nat): (r: Tree)
    requires t.Branch? && t.left.Branch?
    ensures r.Branch?
  {
    Join(t.left.key, version, t.left.left, Join(t.key, t.version, t.left.right, t.right))
  }

  function RotateLeft(t: Tree, version: nat): (r: Tree)
    requires t.Branch? && t.right.Branch?
    ensures r.Branch?
  {
    Join(t.right.key, version, Join(t.key, t.version, t.left, t.right.left), t.right.right)
  }

  function Rebalance(t: Tree, version: nat): Tree
    requires t.Branch?
  {
    if Balance(t) > 1 then
      if Balance(t.left) >= 0 then RotateRight(t, version)
      else RotateRight(WithLeft(t, RotateLeft(Stamp(t.left, version), version)), version)
    else if Balance(t) < -1 then
      if Balance(t.right) <= 0 then RotateLeft(t, version)
      else RotateLeft(WithRight(t, RotateRight(Stamp(t.right, version), version)), version)
    else t
  }

  function WithLeft(t: Tree, left: Tree): Tree
    requires t.Branch?
  {
    Branch(t.key, t.version, t.height, t.size, left, t.right)
  }

  function WithRight(t: Tree, right: Tree): Tree
    requires t.Branch?
  {
    Branch(t.key, t.version, t.height, t.size, t.left, right)
  }

  datatype SetResult = SetResult(tree: Tree, updated: bool)

  function SetRec(t: Tree, key: Bytes, value: Bytes, version: nat): SetResult {
    match t
    case Leaf(k, _, _) =>
      if Less(key, k) then SetResult(Branch(k, version, 1, 2, Leaf(key, value, version), t), false)
      else if Less(k, key) then SetResult(Branch(key, version, 1, 2, t, Leaf(key, value, version)), false)
      else SetResult(Leaf(k, value, version), true)
    case Branch(k, _, h, s, left, right) =>
      if Less(key, k) then
        var child := SetRec(left, key, value, version);
        if child.updated then SetResult(Branch(k, version, h, s, child.tree, right), true)
        else SetResult(Rebalance(Join(k, version, child.tree, right), version), false)
      else
        var child := SetRec(right, key, value, version);
        if child.updated then SetResult(Branch(k, version, h, s, left, child.tree), true)
        else SetResult(Rebalance(Join(k, version, left, child.tree), version), false)
  }

  /** The three result shapes of a removal: nothing changed; or a value was removed,
      leaving a tree or nothing, with the new smallest key when that key changed. */
  datatype RemoveResult = Unchanged | Removed(value: Bytes, tree: Option<Tree>, newKey: Option<Bytes>)

  function RemoveRec(t: Tree, key: Bytes, version: nat): RemoveResult {
    match t
    case Leaf(k, v, _) => if k == key then Removed(v, None, None) else Unchanged
    case Branch(k, _, _, _, left, right) =>
      if Less(key, k) then
        match RemoveRec(left, key, version) {
          case Unchanged => Unchanged
          case Removed(v, None, _) => Removed(v, Some(right), Some(k))
          case Removed(v, Some(newLeft), newKey) =>
            Removed(v, Some(Rebalance(Join(k, version, newLeft, right), version)), newKey)
        }
      else
        match RemoveRec(right, key, version) {
          case Unchanged => Unchanged
          case Removed(v, None, _) => Removed(v, Some(left), None)
          case Removed(v, Some(newRight), newKey) =>
            var newBranchKey := if newKey.Some? then newKey.value else k;
            Removed(v, Some(Rebalance(Join(newBranchKey, version, left, newRight), version)), None)
        }
  }

  // ------------------------------------------------------------------ invariants

  /** Stored heights and sizes are exact and siblings differ by at most one level. */
  predicate Balanced(t: Tree) {
    t.Branch? ==>
      && Balanced(t.left) && Balanced(t.right)
      && t.height == Max(Height(t.left), Height(t.right)) + 1
      && t.size == Size(t.left) + Size(t.right)
      && -1 <= Balance(t) <= 1
  }

  function MinKey(t: Tree): Bytes { if t.Leaf? then t.key else MinKey(t.left) }

  function MaxKey(t: Tree): Bytes { if t.Leaf? then t.key else MaxKey(t.right) }

  /** Leaves strictly ascend and each branch key is the smallest key on its right. */
  predicate Ordered(t: Tree) {
    t.Branch? ==>
      && Ordered(t.left) && Ordered(t.right)
      && Less(MaxKey(t.left), t.key) && t.key == MinKey(t.right)
  }

  /** No node is older than one of its descendants. */
  predicate Stamped(t: Tree) {
    t.Branch? ==>
      && Stamped(t.left) && Stamped(t.right)
      && t.left.version <= t.version && t.right.version <= t.version
  }

  predicate WellFormed(t: Tree) { Balanced(t) && Ordered(t) && Stamped(t) }

  datatype Item = Item(value: Bytes, version: nat)

  /** The finite map a tree denotes; each value carries the version that wrote it. */
  function Contents(t: Tree): map<Bytes, Item> {
    match t
    case Leaf(k, v, ver) => map[k := Item(v, ver)]
    case Branch(_, _, _, _, left, right) => Contents(left) + Contents(right)
  }

  // ------------------------------------------------------------------ rebalancing

  predicate Rebalanced(t: Tree, b: Tree)
    requires t.Branch?
  {
    Balanced(b) && Size(b) == t.size && t.height - 1 <= Height(b) <= t.height
  }

  lemma JoinBalanced(key: Bytes, version: nat, l: Tree, r: Tree)
    requires Balanced(l) && Balanced(r) && -1 <= Height(l) - Height(r) <= 1
    ensures Balanced(Join(key, version, l, r))
  {
  }

  lemma LeftHeavy(key: Bytes, version: nat, l: Tree, r: Tree)
    requires Balanced(l) && Balanced(r) && Height(l) == Height(r) + 2
    ensures Rebalanced(Join(key, version, l, r), Rebalance(Join(key, version, l, r), version))
  {
    if Balance(l) >= 0 {
      JoinBalanced(key, version, l.right, r);
      JoinBalanced(l.key, version, l.left, Join(key, version, l.right, r));
    } else {
      LeftRight(key, version, l, r);
    }
  }

  lemma LeftRight(key: Bytes, version: nat, l: Tree, r: Tree)
    requires Balanced(l) && Balanced(r) && Height(l) == Height(r) + 2 && Balance(l) < 0
    ensures Rebalanced(Join(key, version, l, r), Rebalance(Join(key, version, l, r), version))
  {
    var m := l.right;
    var low, high := Join(l.key, version, l.left, m.left), Join(key, version, m.right, r);
    JoinBalanced(l.key, version, l.left, m.left);
    JoinBalanced(key, version, m.right, r);
    JoinBalanced(m.key, version, low, high);
    assert Rebalance(Join(key, version, l, r), version) == Join(m.key, version, low, high);
  }

  lemma RightHeavy(key: Bytes, version: nat, l: Tree, r: Tree)
    requires Balanced(l) && Balanced(r) && Height(r) == Height(l) + 2
    ensures Rebalanced(Join(key, version, l, r), Rebalance(Join(key, version, l, r), version))
  {
    if Balance(r) <= 0 {
      JoinBalanced(key, version, l, r.left);
      JoinBalanced(r.key, version, Join(key, version, l, r.left), r.right);
    } else {
      RightLeft(key, version, l, r);
    }
  }

  lemma RightLeft(key: Bytes, version: nat, l: Tree, r: Tree)
    requires Balanced(l) && Balanced(r) && Height(r) == Height(l) + 2 && Balance(r) > 0
    ensures Rebalanced(Join(key, version, l, r), Rebalance(Join(key, version, l, r), version))
  {
    var m := r.left;
    var low, high := Join(key, version, l, m.left), Join(r.key, version, m.right, r.right);
    JoinBalanced(key, version, l, m.left);
    JoinBalanced(r.key, version, m.right, r.right);
    JoinBalanced(m.key, version, low, high);
    assert Rebalance(Join(key, version, l, r), version) == Join(m.key, version, low, high);
  }

  /** Children at most two levels apart are rebalanced, losing at most one level. */
  lemma RebalanceBalances(key: Bytes, version: nat, l: Tree, r: Tree)
    requires Balanced(l) && Balanced(r) && -2 <= Height(l) - Height(r) <= 2
    ensures Rebalanced(Join(key, version, l, r), Rebalance(Join(key, version, l, r), version))
    ensures -1 <= Height(l) - Height(r) <= 1 ==>
      Rebalance(Join(key, version, l, r), version) == Join(key, version, l, r)
  {
    if Height(l) - Height(r) == 2 {
      LeftHeavy(key, version, l, r);
    } else if Height(l) - Height(r) == -2 {
      RightHeavy(key, version, l, r);
    }
  }

  /** A branch that is too high on the left is rotated once where that restores the balance, and otherwise its inner
      grandchild is put on top. */
  lemma RebalanceLeft(key: Bytes, version: nat, l: Tree, r: Tree)
    requires Balanced(l) && Balanced(r) && Height(l) == Height(r) + 2
    ensures var t := Join(key, version, l, r);
      l.Branch? && if Balanced(RotateRight(t, version)) then Rebalance(t, version) == RotateRight(t, version)
        else l.right.Branch? && var m := l.right; Rebalance(t, version) == Join(m.key, version,
          Join(l.key, version, l.left, m.left), Join(key, version, m.right, r))
  {
    if Balance(l) >= 0 { LeftHeavy(key, version, l, r); } else { LeftRight(key, version, l, r); }
  }

  lemma RebalanceRight(key: Bytes, version: nat, l: Tree, r: Tree)
    requires Balanced(l) && Balanced(r) && Height(r) == Height(l) + 2
    ensures var t := Join(key, version, l, r);
      r.Branch? && if Balanced(RotateLeft(t, version)) then Rebalance(t, version) == RotateLeft(t, version)
        else r.left.Branch? && var m := r.left; Rebalance(t, version) == Join(m.key, version,
          Join(key, version, l, m.left), Join(r.key, version, m.right, r.right))
  {
    if Balance(r) <= 0 { RightHeavy(key, version, l, r); } else { RightLeft(key, version, l, r); }
  }

  lemma RotateRightOrders(t: Tree, version: nat)
    requires t.Branch? && t.left.Branch? && Ordered(t)
    ensures var r := RotateRight(t, version);
      Ordered(r) && MinKey(r) == MinKey(t) && MaxKey(r) == MaxKey(t)
  {
    LessOrder();
    OrderedSpan(t.left.right);
    var node := Join(t.key, t.version, t.left.right, t.right);
    assert Ordered(t.left) && Ordered(node) && MaxKey(node) == MaxKey(t);
    assert MinKey(node) == t.left.key;
  }

  lemma RotateLeftOrders(t: Tree, version: nat)
    requires t.Branch? && t.right.Branch? && Ordered(t)
    ensures var r := RotateLeft(t, version);
      Ordered(r) && MinKey(r) == MinKey(t) && MaxKey(r) == MaxKey(t)
  {
    LessOrder();
    OrderedSpan(t.right.left);
    var node := Join(t.key, t.version, t.left, t.right.left);
    assert Ordered(t.right) && Ordered(node) && MinKey(node) == MinKey(t);
    assert MaxKey(node) == MaxKey(t.right.left);
  }

  lemma RebalanceOrders(t: Tree, version: nat)
    requires t.Branch? && Ordered(t)
    ensures var b := Rebalance(t, version);
      Ordered(b) && MinKey(b) == MinKey(t) && MaxKey(b) == MaxKey(t)
  {
    if Balance(t) > 1 {
      if Balance(t.left) >= 0 { RotateRightOrders(t, version); } else {
        RotateLeftOrders(Stamp(t.left, version), version);
        RotateRightOrders(WithLeft(t, RotateLeft(Stamp(t.left, version), version)), version);
      }
    } else if Balance(t) < -1 {
      if Balance(t.right) <= 0 { RotateLeftOrders(t, version); } else {
        RotateRightOrders(Stamp(t.right, version), version);
        RotateLeftOrders(WithRight(t, RotateRight(Stamp(t.right, version), version)), version);
      }
    }
  }

  lemma RebalanceStamps(t: Tree, version: nat)
    requires t.Branch? && Stamped(t) && t.version == version
    ensures Stamped(Rebalance(t, version)) && Rebalance(t, version).version == version
  {
    if Balance(t) > 1 {
      assert Stamped(t.left.left) && Stamped(t.left.right);
      if Balance(t.left) < 0 { assert Stamped(t.left.right.left) && Stamped(t.left.right.right); }
    } else if Balance(t) < -1 {
      assert Stamped(t.right.left) && Stamped(t.right.right);
      if Balance(t.right) > 0 { assert Stamped(t.right.left.left) && Stamped(t.right.left.right); }
    }
  }

  lemma UnionAssociative(a: map<Bytes, Item>, b: map<Bytes, Item>, c: map<Bytes, Item>)
    ensures a + (b + c) == (a + b) + c
  {
  }

  lemma PutLeft(a: map<Bytes, Item>, b: map<Bytes, Item>, k: Bytes, x: Item)
    requires k !in b
    ensures a[k := x] + b == (a + b)[k := x]
  {
  }

  lemma PutRight(a: map<Bytes, Item>, b: map<Bytes, Item>, k: Bytes, x: Item)
    ensures a + b[k := x] == (a + b)[k := x]
  {
  }

  lemma Drop(a: map<Bytes, Item>, b: map<Bytes, Item>, k: Bytes)
    ensures k !in b ==> (a - {k}) + b == (a + b) - {k}
    ensures k !in a ==> a + (b - {k}) == (a + b) - {k}
  {
  }

  lemma RotateRightContents(t: Tree, version: nat)
    requires t.Branch? && t.left.Branch?
    ensures Contents(RotateRight(t, version)) == Contents(t)
  {
    var a, b, c := Contents(t.left.left), Contents(t.left.right), Contents(t.right);
    assert Contents(Join(t.key, t.version, t.left.right, t.right)) == b + c;
    UnionAssociative(a, b, c);
  }

  lemma RotateLeftContents(t: Tree, version: nat)
    requires t.Branch? && t.right.Branch?
    ensures Contents(RotateLeft(t, version)) == Contents(t)
  {
    var a, b, c := Contents(t.left), Contents(t.right.left), Contents(t.right.right);
    assert Contents(Join(t.key, t.version, t.left, t.right.left)) == a + b;
    UnionAssociative(a, b, c);
  }

  lemma RebalanceContents(t: Tree, version: nat)
    requires t.Branch?
    ensures Contents(Rebalance(t, version)) == Contents(t)
  {
    if Balance(t) > 1 {
      if Balance(t.left) >= 0 { RotateRightContents(t, version); } else {
        RotateLeftContents(Stamp(t.left, version), version);
        RotateRightContents(WithLeft(t, RotateLeft(Stamp(t.left, version), version)), version);
      }
    } else if Balance(t) < -1 {
      if Balance(t.right) <= 0 { RotateLeftContents(t, version); } else {
        RotateRightContents(Stamp(t.right, version), version);
        RotateLeftContents(WithRight(t, RotateRight(Stamp(t.right, version), version)), version);
      }
    }
  }

  lemma {:induction false} OrderedSpan(t: Tree)
    requires Ordered(t)
    ensures AtMost(MinKey(t), MaxKey(t))
    ensures t.Branch? ==> Less(MinKey(t), MaxKey(t))
  {
    LessOrder();
    if t.Branch? { OrderedSpan(t.left); OrderedSpan(t.right); }
  }

  lemma {:induction false} KeyInSpan(t: Tree, k: Bytes)
    requires Ordered(t) && k in Contents(t)
    ensures AtMost(MinKey(t), k) && AtMost(k, MaxKey(t))
  {
    LessOrder();
    if t.Branch? {
      OrderedSpan(t.left);
      OrderedSpan(t.right);
      KeyInSpan(if k in Contents(t.right) then t.right else t.left, k);
    }
  }

  /** The branch key separates the keys of the two children. */
  lemma Separates(t: Tree, k: Bytes)
    requires Ordered(t) && t.Branch?
    ensures k in Contents(t.left) ==> Less(k, t.key)
    ensures k in Contents(t.right) ==> !Less(k, t.key)
  {
    LessOrder();
    if k in Contents(t.left) { KeyInSpan(t.left, k); }
    if k in Contents(t.right) { KeyInSpan(t.right, k); }
  }

  // ------------------------------------------------------------------ set

  lemma {:induction false} SetBalances(t: Tree, key: Bytes, value: Bytes, version: nat)
    requires Balanced(t)
    ensures var r := SetRec(t, key, value, version);
      && Balanced(r.tree)
      && Size(r.tree) == Size(t) + (if r.updated then 0 else 1)
      && Height(t) <= Height(r.tree) <= Height(t) + (if r.updated then 0 else 1)
  {
    hide Rebalance;
    if t.Branch? {
      if Less(key, t.key) {
        SetBalances(t.left, key, value, version);
        RebalanceBalances(t.key, version, SetRec(t.left, key, value, version).tree, t.right);
      } else {
        SetBalances(t.right, key, value, version);
        RebalanceBalances(t.key, version, t.left, SetRec(t.right, key, value, version).tree);
      }
    }
  }

  lemma {:induction false} SetOrders(t: Tree, key: Bytes, value: Bytes, version: nat)
    requires Ordered(t)
    ensures var r := SetRec(t, key, value, version).tree;
      && Ordered(r)
      && MinKey(r) == (if Less(key, MinKey(t)) then key else MinKey(t))
      && MaxKey(r) == (if Less(MaxKey(t), key) then key else MaxKey(t))
  {
    hide Rebalance;
    LessOrder();
    if t.Branch? {
      OrderedSpan(t.left);
      OrderedSpan(t.right);
      if Less(key, t.key) {
        SetOrders(t.left, key, value, version);
        RebalanceOrders(Join(t.key, version, SetRec(t.left, key, value, version).tree, t.right), version);
      } else {
        SetOrders(t.right, key, value, version);
        RebalanceOrders(Join(t.key, version, t.left, SetRec(t.right, key, value, version).tree), version);
      }
    }
  }

  lemma {:induction false} SetStamps(t: Tree, key: Bytes, value: Bytes, version: nat)
    requires Stamped(t) && t.version <= version
    ensures var r := SetRec(t, key, value, version).tree; Stamped(r) && r.version == version
  {
    hide Rebalance;
    if t.Branch? {
      if Less(key, t.key) {
        SetStamps(t.left, key, value, version);
        RebalanceStamps(Join(t.key, version, SetRec(t.left, key, value, version).tree, t.right), version);
      } else {
        SetStamps(t.right, key, value, version);
        RebalanceStamps(Join(t.key, version, t.left, SetRec(t.right, key, value, version).tree), version);
      }
    }
  }

  /** Setting a key changes that key's entry and no other, and `updated` says whether it was there. */
  lemma {:induction false} SetContents(t: Tree, key: Bytes, value: Bytes, version: nat)
    requires Ordered(t)
    ensures var r := SetRec(t, key, value, version);
      && Contents(r.tree) == Contents(t)[key := Item(value, version)]
      && (r.updated <==> key in Contents(t))
  {
    hide Rebalance;
    if t.Leaf? {
      LessTotal(key, t.key);
      LessIrreflexive(key);
    } else {
      Separates(t, key);
      var l, r, x := Contents(t.left), Contents(t.right), Item(value, version);
      if Less(key, t.key) {
        SetContents(t.left, key, value, version);
        PutLeft(l, r, key, x);
        RebalanceContents(Join(t.key, version, SetRec(t.left, key, value, version).tree, t.right), version);
      } else {
        SetContents(t.right, key, value, version);
        PutRight(l, r, key, x);
        RebalanceContents(Join(t.key, version, t.left, SetRec(t.right, key, value, version).tree), version);
      }
    }
  }

  // ------------------------------------------------------------------ remove

  lemma {:induction false} RemoveBalances(t: Tree, key: Bytes, version: nat)
    requires Balanced(t)
    ensures var r := RemoveRec(t, key, version);
      r.Removed? ==>
        && (r.tree.None? <==> t.Leaf?)
        && (r.tree.Some? ==>
              && Balanced(r.tree.value) && Size(r.tree.value) == Size(t) - 1
              && Height(t) - 1 <= Height(r.tree.value) <= Height(t))
  {
    hide Rebalance;
    if t.Branch? {
      if Less(key, t.key) {
        RemoveBalances(t.left, key, version);
        var r := RemoveRec(t.left, key, version);
        if r.Removed? && r.tree.Some? { RebalanceBalances(t.key, version, r.tree.value, t.right); }
      } else {
        RemoveBalances(t.right, key, version);
        var r := RemoveRec(t.right, key, version);
        if r.Removed? && r.tree.Some? {
          RebalanceBalances(if r.newKey.Some? then r.newKey.value else t.key, version, t.left, r.tree.value);
        }
      }
    }
  }

  /** The reported new key is the new smallest key; without one the smallest key stays. */
  lemma {:induction false} RemoveOrders(t: Tree, key: Bytes, version: nat)
    requires Ordered(t)
    ensures var r := RemoveRec(t, key, version);
      r.Removed? && r.tree.Some? ==>
        && Ordered(r.tree.value)
        && MinKey(r.tree.value) == (if r.newKey.Some? then r.newKey.value else MinKey(t))
        && AtMost(MinKey(t), MinKey(r.tree.value))
        && AtMost(MaxKey(r.tree.value), MaxKey(t))
  {
    hide Rebalance;
    LessOrder();
    if t.Branch? {
      OrderedSpan(t.left);
      OrderedSpan(t.right);
      if Less(key, t.key) {
        RemoveOrders(t.left, key, version);
        var r := RemoveRec(t.left, key, version);
        if r.Removed? && r.tree.Some? { RebalanceOrders(Join(t.key, version, r.tree.value, t.right), version); }
      } else {
        RemoveOrders(t.right, key, version);
        var r := RemoveRec(t.right, key, version);
        if r.Removed? && r.tree.Some? {
          var k := if r.newKey.Some? then r.newKey.value else t.key;
          RebalanceOrders(Join(k, version, t.left, r.tree.value), version);
        }
      }
    }
  }

  lemma {:induction false} RemoveStamps(t: Tree, key: Bytes, version: nat)
    requires Stamped(t) && t.version <= version
    ensures var r := RemoveRec(t, key, version);
      r.Removed? && r.tree.Some? ==> Stamped(r.tree.value) && r.tree.value.version <= version
  {
    hide Rebalance;
    if t.Branch? {
      if Less(key, t.key) {
        RemoveStamps(t.left, key, version);
        var r := RemoveRec(t.left, key, version);
        if r.Removed? && r.tree.Some? { RebalanceStamps(Join(t.key, version, r.tree.value, t.right), version); }
      } else {
        RemoveStamps(t.right, key, version);
        var r := RemoveRec(t.right, key, version);
        if r.Removed? && r.tree.Some? {
          var k := if r.newKey.Some? then r.newKey.value else t.key;
          RebalanceStamps(Join(k, version, t.left, r.tree.value), version);
        }
      }
    }
  }

  function MaybeContents(t: Option<Tree>): map<Bytes, Item> {
    if t.None? then map[] else Contents(t.value)
  }

  /** Removal succeeds exactly on present keys, returns their value and takes out that entry alone. */
  lemma {:induction false} RemoveContents(t: Tree, key: Bytes, version: nat)
    requires Ordered(t)
    ensures var r := RemoveRec(t, key, version);
      && (r.Removed? <==> key in Contents(t))
      && (r.Removed? ==>
            && Contents(t)[key].value == r.value
            && MaybeContents(r.tree) == Contents(t) - {key})
  {
    hide Rebalance;
    if t.Branch? {
      Separates(t, key);
      Drop(Contents(t.left), Contents(t.right), key);
      if Less(key, t.key) {
        RemoveContents(t.left, key, version);
        var r := RemoveRec(t.left, key, version);
        if r.Removed? && r.tree.Some? { RebalanceContents(Join(t.key, version, r.tree.value, t.right), version); }
      } else {
        RemoveContents(t.right, key, version);
        var r := RemoveRec(t.right, key, version);
        if r.Removed? && r.tree.Some? {
          var k := if r.newKey.Some? then r.newKey.value else t.key;
          RebalanceContents(Join(k, version, t.left, r.tree.value), version);
        }
      }
    }
  }

  // ------------------------------------------------------------------ summary

  lemma SetKeeps(t: Tree, key: Bytes, value: Bytes, version: nat)
    requires WellFormed(t) && t.version <= version
    ensures var r := SetRec(t, key, value, version);
      && WellFormed(r.tree) && r.tree.version == version
      && Contents(r.tree) == Contents(t)[key := Item(value, version)]
      && (r.updated <==> key in Contents(t))
  {
    SetBalances(t, key, value, version);
    SetOrders(t, key, value, version);
    SetStamps(t, key, value, version);
    SetContents(t, key, value, version);
  }

  lemma RemoveKeeps(t: Tree, key: Bytes, version: nat)
    requires WellFormed(t) && t.version <= version
    ensures var r := RemoveRec(t, key, version);
      && (r.Removed? <==> key in Contents(t))
      && (r.Removed? ==>
            && Contents(t)[key].value == r.value
            && MaybeContents(r.tree) == Contents(t) - {key}
            && (r.tree.Some? ==> WellFormed(r.tree.value) && r.tree.value.version <= version))
  {
    RemoveBalances(t, key, version);
    RemoveOrders(t, key, version);
    RemoveStamps(t, key, version);
    RemoveContents(t, key, version);
  }
}
