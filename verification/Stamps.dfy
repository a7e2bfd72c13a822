/** Which branches get a new stamp: an update stamps a branch only because its children change, with one
    exception, which is a rotation that splits a pair of leaves and puts it together again. */
module Stamps {
  import opened Bytes
  import opened Avl
  import opened Marks

  /** The same two children. */
  predicate SameChildren(x: Tree, y: Tree) { x.Branch? && y.Branch? && x.left == y.left && x.right == y.right }

  /** Every branch of the result with the children of a branch of the tree is that branch, stamp and all. */
  ghost predicate KeepsStamps(t: Tree, r: Tree) {
    forall x, y :: Sub(x, r) && Sub(y, t) && SameChildren(x, y) ==> x == y
  }

  // ------------------------------------------------------------------ parts and their spans

  lemma {:induction false} SubFormed(x: Tree, t: Tree)
    requires Sub(x, t) && WellFormed(t)
    ensures WellFormed(x) && x.version <= t.version
    ensures AtMost(MinKey(t), MinKey(x)) && AtMost(MaxKey(x), MaxKey(t))
    decreases t
  {
    LessOrder();
    if t.Branch? && x != t {
      OrderedSpan(t.left);
      OrderedSpan(t.right);
      if Sub(x, t.left) { SubFormed(x, t.left); } else { SubFormed(x, t.right); }
    }
  }

  /** Well-formed branches with the same children differ in their stamps at most. */
  lemma SameUpToStamp(x: Tree, y: Tree)
    requires WellFormed(x) && WellFormed(y) && SameChildren(x, y)
    ensures x == y <==> x.version == y.version
  {
  }

  /** Parts of the two sides of a branch have no children in common. */
  lemma SidesApart(k: Bytes, x: Tree, y: Tree, l: Tree, r: Tree)
    requires WellFormed(l) && WellFormed(r) && Sub(x, l) && Sub(y, r)
    requires Less(MaxKey(l), k) && AtMost(k, MinKey(r))
    ensures !SameChildren(x, y) && !SameChildren(y, x)
  {
    LessOrder();
    SubFormed(x, l);
    SubFormed(y, r);
    OrderedSpan(x);
  }

  /** In one tree two branches with the same children are the same. */
  lemma {:induction false} UniqueParts(t: Tree, x: Tree, y: Tree)
    requires WellFormed(t) && Sub(x, t) && Sub(y, t) && SameChildren(x, y)
    ensures x == y
    decreases t
  {
    if x == t || y == t {
      SubSize(x, t);
      SubSize(y, t);
      SubFormed(x, t);
      SubFormed(y, t);
    } else if Sub(x, t.left) {
      if Sub(y, t.left) { UniqueParts(t.left, x, y); } else { SidesApart(t.key, x, y, t.left, t.right); }
    } else {
      if Sub(y, t.right) { UniqueParts(t.right, x, y); } else { SidesApart(t.key, y, x, t.left, t.right); }
    }
  }

  lemma {:induction false} SubTransitive(x: Tree, y: Tree, t: Tree)
    requires Sub(x, y) && Sub(y, t)
    ensures Sub(x, t)
    decreases t
  {
    if y != t {
      if Sub(y, t.left) { SubTransitive(x, y, t.left); } else { SubTransitive(x, y, t.right); }
    }
  }

  /** A branch over both sides of a key has the children of the whole tree or of no part of it. */
  lemma AcrossOnly(t: Tree, x: Tree, y: Tree)
    requires WellFormed(t) && t.Branch? && Sub(y, t) && SameChildren(x, y)
    requires Less(MinKey(x.left), t.key) && !Less(MaxKey(x.right), t.key)
    ensures y == t
  {
    LessOrder();
    if y != t {
      OrderedSpan(t.right);
      if Sub(y, t.left) { SubFormed(y, t.left); } else { SubFormed(y, t.right); }
    }
  }

  /** A new branch over both sides, of other sizes than the two sides had, has the children of no part. */
  lemma NotAcross(t: Tree, x: Tree, y: Tree)
    requires WellFormed(t) && t.Branch? && Sub(y, t) && x.Branch?
    requires Less(MinKey(x.left), t.key) && !Less(MaxKey(x.right), t.key)
    requires Size(x.left) != Size(t.left) || Size(x.right) != Size(t.right)
    ensures !SameChildren(x, y)
  {
    if SameChildren(x, y) { AcrossOnly(t, x, y); }
  }

  lemma ChildrenSmaller(y: Tree, t: Tree)
    requires WellFormed(t) && Sub(y, t) && y.Branch?
    ensures 1 <= Size(y.left) < Size(t) && 1 <= Size(y.right) < Size(t) && Size(y) == Size(y.left) + Size(y.right)
  {
    SubFormed(y, t);
    SubSize(y, t);
    SubSize(y.left, y.left);
    SubSize(y.right, y.right);
  }

  /** A part of one side does not have the children of the whole. */
  lemma NotWhole(t: Tree, x: Tree, c: Tree)
    requires WellFormed(t) && t.Branch? && WellFormed(c) && Sub(x, c)
    requires Less(MaxKey(c), t.key) || AtMost(t.key, MinKey(c))
    ensures !SameChildren(x, t)
  {
    LessOrder();
    SubFormed(x, c);
    OrderedSpan(t.left);
    OrderedSpan(t.right);
  }

  lemma Sides(t: Tree)
    requires WellFormed(t) && t.Branch?
    ensures WellFormed(t.left) && WellFormed(t.right) && Less(MaxKey(t.left), t.key) && t.key == MinKey(t.right)
  {
  }

  /** What was there on the left of a key, and the other side as it is. */
  lemma OldOnLeft(t: Tree, c: Tree, x: Tree, y: Tree)
    requires WellFormed(t) && t.Branch? && WellFormed(c) && Less(MaxKey(c), t.key) && KeepsStamps(t.left, c)
    requires Sub(y, t) && SameChildren(x, y) && (Sub(x, c) || Sub(x, t.right))
    ensures x == y
  {
    hide WellFormed, Less;
    Sides(t);
    if Sub(x, c) {
      NotWhole(t, x, c);
      if Sub(y, t.right) { SidesApart(t.key, x, y, c, t.right); }
    } else {
      NotWhole(t, x, t.right);
      if Sub(y, t.left) { SidesApart(t.key, y, x, t.left, t.right); } else { UniqueParts(t.right, x, y); }
    }
  }

  lemma OldOnRight(t: Tree, c: Tree, x: Tree, y: Tree)
    requires WellFormed(t) && t.Branch? && WellFormed(c) && AtMost(t.key, MinKey(c)) && KeepsStamps(t.right, c)
    requires Sub(y, t) && SameChildren(x, y) && (Sub(x, c) || Sub(x, t.left))
    ensures x == y
  {
    hide WellFormed, Less;
    Sides(t);
    if Sub(x, c) {
      NotWhole(t, x, c);
      if Sub(y, t.left) { SidesApart(t.key, y, x, t.left, c); }
    } else {
      NotWhole(t, x, t.left);
      if Sub(y, t.right) { SidesApart(t.key, x, y, t.left, t.right); } else { UniqueParts(t.left, x, y); }
    }
  }

  // ------------------------------------------------------------------ removals

  /** The inner pair that a double rotation takes from an untouched side was no pair before. */
  lemma NewPairOnRight(r: Tree, x: Tree, y: Tree)
    requires WellFormed(r) && r.Branch? && r.left.Branch? && Sub(y, r)
    requires x.Branch? && x.left == r.left.right && x.right == r.right
    ensures !SameChildren(x, y)
  {
    LessOrder();
    ChildrenSmaller(r.left, r.left);
    if y.Branch? && y != r {
      if Sub(y, r.right) {
        ChildrenSmaller(y, r.right);
      } else {
        SubFormed(y, r.left);
        OrderedSpan(r.right);
      }
    }
  }

  lemma NewPairOnLeft(l: Tree, x: Tree, y: Tree)
    requires WellFormed(l) && l.Branch? && l.right.Branch? && Sub(y, l)
    requires x.Branch? && x.left == l.left && x.right == l.right.left
    ensures !SameChildren(x, y)
  {
    LessOrder();
    ChildrenSmaller(l.right, l.right);
    if y.Branch? && y != l {
      if Sub(y, l.left) {
        ChildrenSmaller(y, l.left);
      } else {
        SubFormed(y, l.right);
        OrderedSpan(l.left);
      }
    }
  }

  /** A smaller left side: the other side is rotated towards it if at all. */
  lemma LeftShrinks(t: Tree, c: Tree, version: nat)
    requires WellFormed(t) && t.Branch? && WellFormed(c) && Less(MaxKey(c), t.key) && KeepsStamps(t.left, c)
    requires Size(c) == Size(t.left) - 1 && Height(c) <= Height(t.left)
    ensures KeepsStamps(t, Rebalance(Join(t.key, version, c, t.right), version))
  {
    var j := Join(t.key, version, c, t.right);
    var r := Rebalance(j, version);
    forall x, y | Sub(x, r) && Sub(y, t) && SameChildren(x, y) ensures x == y {
      LeftShrunk(t, c, version, x, y);
    }
  }

  lemma LeftShrunk(t: Tree, c: Tree, version: nat, x: Tree, y: Tree)
    requires WellFormed(t) && t.Branch? && WellFormed(c) && Less(MaxKey(c), t.key) && KeepsStamps(t.left, c)
    requires Size(c) == Size(t.left) - 1 && Height(c) <= Height(t.left)
    requires Sub(x, Rebalance(Join(t.key, version, c, t.right), version)) && Sub(y, t) && SameChildren(x, y)
    ensures x == y
  {
    hide KeepsStamps, Less, Ordered, Stamped, Sub;
    var j, o := Join(t.key, version, c, t.right), t.right;
    if Sub(x, c) || Sub(x, o) {
      OldOnLeft(t, c, x, y);
    } else if Balance(j) >= -1 {
      Spans(t, c);
      Opened(x, j);
      NotAcross(t, j, y);
    } else if Balance(o) <= 0 {
      TurnedLeft(t, c, version, x, y);
    } else {
      TurnedTwiceLeft(t, c, version, x, y);
    }
  }

  lemma Opened(x: Tree, t: Tree)
    requires Sub(x, t)
    ensures x == t || (t.Branch? && (Sub(x, t.left) || Sub(x, t.right)))
  {
  }

  lemma Reaches(x: Tree, t: Tree)
    requires t.Branch?
    ensures Sub(x, t.left) || Sub(x, t.right) ==> Sub(x, t)
  {
  }

  /** A single rotation to the left puts together what was apart. */
  lemma TurnedLeft(t: Tree, c: Tree, version: nat, x: Tree, y: Tree)
    requires WellFormed(t) && t.Branch? && t.right.Branch? && WellFormed(c) && Less(MaxKey(c), t.key) && Sub(y, t)
    requires Sub(x, RotateLeft(Join(t.key, version, c, t.right), version)) && !Sub(x, c) && !Sub(x, t.right)
    ensures !SameChildren(x, y)
  {
    hide Less, Ordered, Stamped, Balanced, Sub;
    var o := t.right;
    var low := Join(t.key, version, c, o.left);
    var top := Join(o.key, version, low, o.right);
    assert top == RotateLeft(Join(t.key, version, c, o), version);
    Opened(x, top);
    if Sub(x, low) { Opened(x, low); }
    Reaches(x, o);
    Sides(t);
    Spans(t, c);
    SubOf(o.left, o);
    InnerSpan(t, o.left);
    ChildrenSmaller(o, o);
    NotAcross(t, low, y);
    NotAcross(t, top, y);
  }

  lemma InnerSpan(t: Tree, l: Tree)
    requires WellFormed(t) && t.Branch? && Sub(l, t.right)
    ensures !Less(MaxKey(l), t.key) && !Less(MinKey(l), t.key)
  {
    LessOrder();
    SubFormed(l, t.right);
    OrderedSpan(l);
  }

  lemma TurnedTwiceLeft(t: Tree, c: Tree, version: nat, x: Tree, y: Tree)
    requires WellFormed(t) && t.Branch? && t.right.Branch? && t.right.left.Branch? && Sub(y, t)
    requires WellFormed(c) && Less(MaxKey(c), t.key)
    requires var o, m := t.right, t.right.left;
      Sub(x, Join(m.key, version, Join(t.key, version, c, m.left), Join(o.key, version, m.right, o.right)))
    requires !Sub(x, c) && !Sub(x, t.right)
    ensures !SameChildren(x, y)
  {
    hide Less, Ordered, Stamped, Balanced, Sub;
    var o, m := t.right, t.right.left;
    var low, high := Join(t.key, version, c, m.left), Join(o.key, version, m.right, o.right);
    var top := Join(m.key, version, low, high);
    Opened(x, top);
    if Sub(x, low) { Opened(x, low); }
    if Sub(x, high) { Opened(x, high); }
    Reaches(x, o);
    Reaches(x, m);
    Sides(t);
    Sides(o);
    Spans(t, c);
    SubOf(m.left, m);
    SubOf(m, o);
    SubTransitive(m.left, m, o);
    InnerSpan(t, m.left);
    ChildrenSmaller(o, o);
    ChildrenSmaller(m, m);
    NotAcross(t, low, y);
    NotAcross(t, top, y);
    NewPairHigh(t, high, y);
  }

  lemma SubOf(x: Tree, t: Tree)
    requires t.Branch? && (x == t.left || x == t.right)
    ensures Sub(x, t)
  {
  }

  lemma Spans(t: Tree, c: Tree)
    requires WellFormed(t) && t.Branch? && WellFormed(c) && Less(MaxKey(c), t.key)
    ensures Less(MinKey(c), t.key) && !Less(MaxKey(t.right), t.key) && !Less(MinKey(t.right), t.key)
  {
    LessOrder();
    OrderedSpan(c);
    OrderedSpan(t.right);
  }

  lemma ChildSpans(t: Tree)
    requires WellFormed(t) && t.Branch?
    ensures AtMost(MinKey(t), MaxKey(t.left)) && Less(MaxKey(t.left), t.key) && AtMost(t.key, MaxKey(t))
  {
    LessOrder();
    OrderedSpan(t.left);
    OrderedSpan(t.right);
  }

  lemma NewPairHigh(t: Tree, high: Tree, y: Tree)
    requires WellFormed(t) && t.Branch? && t.right.Branch? && t.right.left.Branch? && Sub(y, t)
    requires high.Branch? && high.left == t.right.left.right && high.right == t.right.right
    ensures !SameChildren(high, y)
  {
    LessOrder();
    var o := t.right;
    NewPairOnRight(o, high, o);
    ChildrenSmaller(o, o);
    ChildrenSmaller(o.left, o.left);
    if y.Branch? && y != t {
      if Sub(y, o) {
        NewPairOnRight(o, high, y);
      } else {
        SubFormed(y, t.left);
        OrderedSpan(o.right);
        ChildSpans(o);
      }
    }
  }

  /** A smaller right side, under whatever key: the left side is rotated towards it if at all. */
  lemma RightShrinks(t: Tree, c: Tree, key: Bytes, version: nat)
    requires WellFormed(t) && t.Branch? && WellFormed(c) && AtMost(t.key, MinKey(c)) && KeepsStamps(t.right, c)
    requires Size(c) == Size(t.right) - 1 && Height(c) <= Height(t.right)
    ensures KeepsStamps(t, Rebalance(Join(key, version, t.left, c), version))
  {
    var r := Rebalance(Join(key, version, t.left, c), version);
    forall x, y | Sub(x, r) && Sub(y, t) && SameChildren(x, y) ensures x == y {
      RightShrunk(t, c, key, version, x, y);
    }
  }

  lemma RightShrunk(t: Tree, c: Tree, key: Bytes, version: nat, x: Tree, y: Tree)
    requires WellFormed(t) && t.Branch? && WellFormed(c) && AtMost(t.key, MinKey(c)) && KeepsStamps(t.right, c)
    requires Size(c) == Size(t.right) - 1 && Height(c) <= Height(t.right)
    requires Sub(x, Rebalance(Join(key, version, t.left, c), version)) && Sub(y, t) && SameChildren(x, y)
    ensures x == y
  {
    hide KeepsStamps, Less, Ordered, Stamped, Sub;
    var j, o := Join(key, version, t.left, c), t.left;
    if Sub(x, c) || Sub(x, o) {
      OldOnRight(t, c, x, y);
    } else if Balance(j) <= 1 {
      RightSpans(t, c);
      Opened(x, j);
      NotAcross(t, j, y);
    } else if Balance(o) >= 0 {
      TurnedRight(t, c, key, version, x, y);
    } else {
      TurnedTwiceRight(t, c, key, version, x, y);
    }
  }

  lemma RightSpans(t: Tree, c: Tree)
    requires WellFormed(t) && t.Branch? && WellFormed(c) && AtMost(t.key, MinKey(c))
    ensures Less(MinKey(t.left), t.key) && Less(MaxKey(t.left), t.key) && !Less(MaxKey(c), t.key)
  {
    LessOrder();
    OrderedSpan(c);
    OrderedSpan(t.left);
  }

  lemma LeftSpan(t: Tree, l: Tree)
    requires WellFormed(t) && t.Branch? && Sub(l, t.left)
    ensures Less(MaxKey(l), t.key) && Less(MinKey(l), t.key)
  {
    LessOrder();
    SubFormed(l, t.left);
    OrderedSpan(l);
  }

  lemma TurnedRight(t: Tree, c: Tree, key: Bytes, version: nat, x: Tree, y: Tree)
    requires WellFormed(t) && t.Branch? && t.left.Branch? && WellFormed(c) && AtMost(t.key, MinKey(c)) && Sub(y, t)
    requires Sub(x, RotateRight(Join(key, version, t.left, c), version)) && !Sub(x, c) && !Sub(x, t.left)
    ensures !SameChildren(x, y)
  {
    hide Less, Ordered, Stamped, Balanced, Sub;
    var o := t.left;
    var high := Join(key, version, o.right, c);
    var top := Join(o.key, version, o.left, high);
    assert top == RotateRight(Join(key, version, o, c), version);
    Opened(x, top);
    if Sub(x, high) { Opened(x, high); }
    Reaches(x, o);
    Sides(t);
    RightSpans(t, c);
    SubOf(o.left, o);
    SubOf(o.right, o);
    LeftSpan(t, o.left);
    LeftSpan(t, o.right);
    ChildrenSmaller(o, o);
    NotAcross(t, high, y);
    NotAcross(t, top, y);
  }

  lemma TurnedTwiceRight(t: Tree, c: Tree, key: Bytes, version: nat, x: Tree, y: Tree)
    requires WellFormed(t) && t.Branch? && t.left.Branch? && t.left.right.Branch? && Sub(y, t)
    requires WellFormed(c) && AtMost(t.key, MinKey(c))
    requires var o, m := t.left, t.left.right;
      Sub(x, Join(m.key, version, Join(o.key, version, o.left, m.left), Join(key, version, m.right, c)))
    requires !Sub(x, c) && !Sub(x, t.left)
    ensures !SameChildren(x, y)
  {
    hide Less, Ordered, Stamped, Balanced, Sub;
    var o, m := t.left, t.left.right;
    var low, high := Join(o.key, version, o.left, m.left), Join(key, version, m.right, c);
    var top := Join(m.key, version, low, high);
    Opened(x, top);
    if Sub(x, low) { Opened(x, low); }
    if Sub(x, high) { Opened(x, high); }
    Reaches(x, o);
    Reaches(x, m);
    Sides(t);
    Sides(o);
    RightSpans(t, c);
    SubOf(m.right, m);
    SubOf(m, o);
    SubOf(o.left, o);
    SubTransitive(m.right, m, o);
    LeftSpan(t, m.right);
    LeftSpan(t, o.left);
    ChildrenSmaller(o, o);
    ChildrenSmaller(m, m);
    NotAcross(t, high, y);
    NotAcross(t, top, y);
    NewPairLow(t, low, y);
  }

  lemma NewPairLow(t: Tree, low: Tree, y: Tree)
    requires WellFormed(t) && t.Branch? && t.left.Branch? && t.left.right.Branch? && Sub(y, t)
    requires low.Branch? && low.left == t.left.left && low.right == t.left.right.left
    ensures !SameChildren(low, y)
  {
    LessOrder();
    var o := t.left;
    ChildrenSmaller(o, o);
    if y.Branch? && y != t {
      if Sub(y, o) {
        NewPairOnLeft(o, low, y);
      } else {
        SubFormed(y, t.right);
        OrderedSpan(o.left);
        ChildSpans(o);
      }
    }
  }

  lemma PartKeeps(t: Tree, c: Tree)
    requires WellFormed(t) && Sub(c, t)
    ensures KeepsStamps(t, c)
  {
    forall x, y | Sub(x, c) && Sub(y, t) && SameChildren(x, y) ensures x == y {
      SubTransitive(x, c, t);
      UniqueParts(t, x, y);
    }
  }

  /** A removal stamps a branch only because one of its children is another. */
  lemma {:induction false} RemoveKeepsStamps(t: Tree, key: Bytes, version: nat)
    requires WellFormed(t) && t.version <= version
    ensures var r := RemoveRec(t, key, version); r.Removed? && r.tree.Some? ==> KeepsStamps(t, r.tree.value)
  {
    hide KeepsStamps, Rebalance, Contents, Sub;
    if t.Branch? {
      LessOrder();
      OrderedSpan(t.left);
      OrderedSpan(t.right);
      var side := if Less(key, t.key) then t.left else t.right;
      var r := RemoveRec(side, key, version);
      RemoveKeepsStamps(side, key, version);
      RemoveKeeps(side, key, version);
      RemoveBalances(side, key, version);
      RemoveOrders(side, key, version);
      if r.Removed? {
        if r.tree.None? {
          SubOf(t.left, t);
          SubOf(t.right, t);
          PartKeeps(t, t.left);
          PartKeeps(t, t.right);
        } else if Less(key, t.key) {
          LeftShrinks(t, r.tree.value, version);
        } else {
          RightShrinks(t, r.tree.value, if r.newKey.Some? then r.newKey.value else t.key, version);
        }
      }
    }
  }

  // ------------------------------------------------------------------ sets

  lemma TallIsLarge(t: Tree)
    requires WellFormed(t) && Height(t) >= 1
    ensures t.Branch? && Size(t) >= 2
  {
    ChildrenSmaller(t, t);
  }

  lemma LowIsLeaf(t: Tree)
    requires Balanced(t)
    ensures Height(t) == 0 ==> t.Leaf? && Size(t) == 1
  {
  }

  lemma TurnedHeight(key: Bytes, version: nat, l: Tree, r: Tree)
    requires Balanced(l) && Balanced(r)
    ensures Height(l) == Height(r) + 2 && Balance(l) != 0 ==>
      Height(Rebalance(Join(key, version, l, r), version)) == Height(r) + 2
    ensures Height(r) == Height(l) + 2 && Balance(r) != 0 ==>
      Height(Rebalance(Join(key, version, l, r), version)) == Height(l) + 2
  {
  }

  /** A branch that has grown higher was not rotated, and leans to the side that grew. */
  lemma {:induction false} Grows(t: Tree, key: Bytes, value: Bytes, version: nat)
    requires Balanced(t) && t.Branch? && Height(SetRec(t, key, value, version).tree) > t.height
    ensures var r := SetRec(t, key, value, version).tree;
      && r.Branch? && Balance(r) != 0
      && r == if Less(key, t.key) then Join(t.key, version, SetRec(t.left, key, value, version).tree, t.right)
              else Join(t.key, version, t.left, SetRec(t.right, key, value, version).tree)
  {
    hide Rebalance;
    SetBalances(t, key, value, version);
    if Less(key, t.key) {
      var c := SetRec(t.left, key, value, version).tree;
      SetBalances(t.left, key, value, version);
      RebalanceBalances(t.key, version, c, t.right);
      TurnedHeight(t.key, version, c, t.right);
      if t.left.Branch? && Height(c) > Height(t.left) { Grows(t.left, key, value, version); }
    } else {
      var c := SetRec(t.right, key, value, version).tree;
      SetBalances(t.right, key, value, version);
      RebalanceBalances(t.key, version, t.left, c);
      TurnedHeight(t.key, version, t.left, c);
      if t.right.Branch? && Height(c) > Height(t.right) { Grows(t.right, key, value, version); }
    }
  }

  /** A set does not hang a whole branch below a new one. */
  lemma NotBelow(t: Tree, key: Bytes, value: Bytes, version: nat)
    requires WellFormed(t) && t.Branch? && t.version <= version && !SetRec(t, key, value, version).updated
    ensures var r := SetRec(t, key, value, version).tree; r.Branch? && r.left != t && r.right != t
  {
    hide Rebalance, Contents;
    SetKeeps(t, key, value, version);
    SetBalances(t, key, value, version);
    var r := SetRec(t, key, value, version).tree;
    ChildrenSmaller(r, r);
    ChildrenSmaller(t, t);
    if t.height >= 2 {
      NotLopsided(r, t);
    } else {
      TwoLeaves(t, key, value, version);
    }
  }

  lemma NotLopsided(r: Tree, t: Tree)
    requires WellFormed(r) && r.Branch? && WellFormed(t) && t.Branch? && t.height >= 2 && Size(r) == Size(t) + 1
    ensures r.left != t && r.right != t
  {
    if Height(r.left) >= 1 { TallIsLarge(r.left); }
    if Height(r.right) >= 1 { TallIsLarge(r.right); }
  }

  lemma TwoLeaves(t: Tree, key: Bytes, value: Bytes, version: nat)
    requires WellFormed(t) && t.Branch? && t.height == 1 && !SetRec(t, key, value, version).updated
    ensures var r := SetRec(t, key, value, version).tree; r.Branch? && r.left != t && r.right != t
  {
    LessOrder();
    LowIsLeaf(t.left);
    LowIsLeaf(t.right);
  }

  /** At a branch of three leaves with a pair on the left, a key that goes behind the pair makes a double
      rotation, which splits the pair and joins it again with a new stamp. */
  predicate PinchedHere(t: Tree, key: Bytes, version: nat)
    requires t.Branch?
  {
    && t.size == 3 && t.left.Branch? && Less(t.left.right.key, key) && Less(key, t.key) && t.left.version < version
  }

  predicate Pinched(t: Tree, key: Bytes, version: nat) {
    t.Branch? && (PinchedHere(t, key, version) || Pinched(if Less(key, t.key) then t.left else t.right, key, version))
  }

  /** The pair that a double rotation to the right joins anew on the left. */
  lemma LowPair(t: Tree, key: Bytes, value: Bytes, version: nat, y: Tree)
    requires WellFormed(t) && t.Branch? && t.version <= version && Less(key, t.key)
    requires !SetRec(t.left, key, value, version).updated
    requires var c := SetRec(t.left, key, value, version).tree;
      && c.Branch? && Height(c) == Height(t.right) + 2 && Balance(c) < 0 && c.right.Branch?
      && Sub(y, t.left) && y.Branch? && y.left == c.left && y.right == c.right.left
    ensures y.version == version || PinchedHere(t, key, version)
  {
    hide Rebalance, Contents, Sub;
    var o := t.left;
    var c := SetRec(o, key, value, version).tree;
    SetBalances(o, key, value, version);
    TallIsLarge(o);
    Grows(o, key, value, version);
    SubFormed(y, o);
    Sides(o);
    if Less(key, o.key) {
      SetStamps(o.left, key, value, version);
    } else {
      OnlyWholeLeft(o, y);
      RightPair(o, key, value, version);
      LowIsLeaf(o.left);
      LowIsLeaf(t.right);
    }
  }

  lemma OnlyWholeLeft(o: Tree, y: Tree)
    requires WellFormed(o) && o.Branch? && Sub(y, o) && y.Branch? && y.left == o.left
    ensures y == o
  {
    LessOrder();
    if y != o {
      if Sub(y, o.left) {
        ChildrenSmaller(y, o.left);
      } else {
        SubFormed(y, o.right);
        OrderedSpan(o.left);
      }
    }
  }

  lemma OnlyWholeRight(o: Tree, y: Tree)
    requires WellFormed(o) && o.Branch? && Sub(y, o) && y.Branch? && y.right == o.right
    ensures y == o
  {
    LessOrder();
    if y != o {
      if Sub(y, o.right) {
        ChildrenSmaller(y, o.right);
      } else {
        SubFormed(y, o.left);
        OrderedSpan(o.right);
      }
    }
  }

  /** The right child stays whole under its new parent: it is a leaf, and the key goes behind it. */
  lemma RightPair(o: Tree, key: Bytes, value: Bytes, version: nat)
    requires WellFormed(o) && o.Branch? && o.version <= version && !SetRec(o.right, key, value, version).updated
    requires var m := SetRec(o.right, key, value, version).tree; m.Branch? && m.left == o.right
    ensures o.right.Leaf? && Less(o.right.key, key) && SetRec(o.right, key, value, version).tree.height == 1
  {
    hide Rebalance;
    LessOrder();
    if o.right.Branch? { NotBelow(o.right, key, value, version); }
  }

  /** On the other side there is no such case: a smaller key does not get there. */
  lemma HighPair(t: Tree, key: Bytes, value: Bytes, version: nat, y: Tree)
    requires WellFormed(t) && t.Branch? && t.version <= version && !Less(key, t.key)
    requires !SetRec(t.right, key, value, version).updated
    requires var c := SetRec(t.right, key, value, version).tree;
      && c.Branch? && Height(c) == Height(t.left) + 2 && Balance(c) > 0 && c.left.Branch?
      && Sub(y, t.right) && y.Branch? && y.left == c.left.right && y.right == c.right
    ensures y.version == version
  {
    hide Rebalance, Contents, Sub;
    var o := t.right;
    var c := SetRec(o, key, value, version).tree;
    SetBalances(o, key, value, version);
    TallIsLarge(o);
    Grows(o, key, value, version);
    SubFormed(y, o);
    Sides(o);
    Sides(t);
    if Less(key, o.key) {
      OnlyWholeRight(o, y);
      LeftPair(o, key, value, version);
    } else {
      SetStamps(o.right, key, value, version);
    }
  }

  lemma LeftPair(o: Tree, key: Bytes, value: Bytes, version: nat)
    requires WellFormed(o) && o.Branch? && o.version <= version && !SetRec(o.left, key, value, version).updated
    requires !Less(key, MinKey(o))
    ensures var m := SetRec(o.left, key, value, version).tree; m.Branch? && m.right != o.left
  {
    hide Rebalance;
    LessOrder();
    if o.left.Branch? { NotBelow(o.left, key, value, version); }
  }

  /** A larger left side, rotated away if it has become too high. */
  lemma LeftGrown(t: Tree, key: Bytes, value: Bytes, version: nat, x: Tree, y: Tree)
    requires WellFormed(t) && t.Branch? && t.version <= version && Less(key, t.key) && !PinchedHere(t, key, version)
    requires var c := SetRec(t.left, key, value, version); !c.updated && KeepsStamps(t.left, c.tree)
    requires Sub(x, SetRec(t, key, value, version).tree) && Sub(y, t) && SameChildren(x, y)
    ensures x == y
  {
    hide KeepsStamps, Stamped, Sub, Contents;
    var c := SetRec(t.left, key, value, version).tree;
    var j := Join(t.key, version, c, t.right);
    GrownLeft(t, key, value, version);
    if Sub(x, c) || Sub(x, t.right) {
      OldOnLeft(t, c, x, y);
    } else if Balance(j) <= 1 {
      Spans(t, c);
      Opened(x, j);
      NotAcross(t, j, y);
    } else if Balance(c) >= 0 {
      GrownTurnedRight(t, c, version, x, y);
    } else {
      GrownTurnedTwiceRight(t, key, value, version, x, y);
    }
  }

  lemma GrownLeft(t: Tree, key: Bytes, value: Bytes, version: nat)
    requires WellFormed(t) && t.Branch? && t.version <= version && Less(key, t.key)
    requires !SetRec(t.left, key, value, version).updated
    ensures var c := SetRec(t.left, key, value, version).tree;
      && WellFormed(c) && Less(MaxKey(c), t.key) && Size(c) == Size(t.left) + 1
      && -1 <= Height(c) - Height(t.right) <= 2 && c.version == version
  {
    hide Rebalance, Contents;
    SetKeeps(t.left, key, value, version);
    SetBalances(t.left, key, value, version);
    SetOrders(t.left, key, value, version);
  }

  lemma GrownTurnedRight(t: Tree, c: Tree, version: nat, x: Tree, y: Tree)
    requires WellFormed(t) && t.Branch? && WellFormed(c) && c.Branch? && Less(MaxKey(c), t.key) && Sub(y, t)
    requires Size(c) == Size(t.left) + 1 && Height(c) == Height(t.right) + 2 && Balance(c) >= 0
    requires Sub(x, RotateRight(Join(t.key, version, c, t.right), version)) && !Sub(x, c) && !Sub(x, t.right)
    ensures !SameChildren(x, y)
  {
    hide Less, Ordered, Stamped, Sub;
    var high := Join(t.key, version, c.right, t.right);
    var top := Join(c.key, version, c.left, high);
    assert top == RotateRight(Join(t.key, version, c, t.right), version);
    Opened(x, top);
    if Sub(x, high) { Opened(x, high); }
    Reaches(x, c);
    Sides(t);
    Sides(c);
    Spans(t, c);
    PartSpan(t, c, c.left);
    PartSpan(t, c, c.right);
    TallIsLarge(c.left);
    ChildrenSmaller(t, t);
    ChildrenSmaller(c, c);
    NotAcross(t, high, y);
    NotAcross(t, top, y);
  }

  lemma PartSpan(t: Tree, c: Tree, x: Tree)
    requires WellFormed(t) && t.Branch? && WellFormed(c) && c.Branch? && Less(MaxKey(c), t.key)
    requires x == c.left || x == c.right || (c.right.Branch? && x == c.right.right)
    ensures Less(MinKey(x), t.key)
  {
    LessOrder();
    SubFormed(x, c);
    OrderedSpan(x);
  }

  /** Of what a double rotation to the right joins anew only the lower pair can have been a pair before. */
  lemma OnlyLow(t: Tree, c: Tree, version: nat, x: Tree, y: Tree)
    requires WellFormed(t) && t.Branch? && WellFormed(c) && c.Branch? && c.right.Branch?
    requires Less(MaxKey(c), t.key) && Size(c) == Size(t.left) + 1 && Sub(y, t)
    requires Sub(x, RotatedTwiceRight(t, c, version)) && !Sub(x, c) && !Sub(x, t.right) && SameChildren(x, y)
    ensures x == Join(c.key, version, c.left, c.right.left)
  {
    hide Less, Ordered, Stamped, Balanced, Sub;
    var m := c.right;
    var low, high := Join(c.key, version, c.left, m.left), Join(t.key, version, m.right, t.right);
    var top := Join(m.key, version, low, high);
    Opened(x, top);
    if Sub(x, low) { Opened(x, low); }
    if Sub(x, high) { Opened(x, high); }
    Reaches(x, c);
    Reaches(x, m);
    Sides(t);
    Sides(c);
    Spans(t, c);
    PartSpan(t, c, c.left);
    PartSpan(t, c, m.right);
    ChildrenSmaller(t, t);
    ChildrenSmaller(c, c);
    ChildrenSmaller(m, m);
    NotAcross(t, high, y);
    NotAcross(t, top, y);
  }

  function RotatedTwiceRight(t: Tree, c: Tree, version: nat): Tree
    requires t.Branch? && c.Branch? && c.right.Branch?
  {
    var m := c.right;
    Join(m.key, version, Join(c.key, version, c.left, m.left), Join(t.key, version, m.right, t.right))
  }

  lemma GrownTurnedTwiceRight(t: Tree, key: Bytes, value: Bytes, version: nat, x: Tree, y: Tree)
    requires WellFormed(t) && t.Branch? && t.version <= version && Less(key, t.key) && !PinchedHere(t, key, version)
    requires !SetRec(t.left, key, value, version).updated
    requires var c := SetRec(t.left, key, value, version).tree;
      && WellFormed(c) && c.Branch? && Less(MaxKey(c), t.key) && Size(c) == Size(t.left) + 1
      && Height(c) == Height(t.right) + 2 && Balance(c) < 0 && !Sub(x, c) && !Sub(x, t.right)
    requires Sub(x, SetRec(t, key, value, version).tree) && Sub(y, t) && SameChildren(x, y)
    ensures x == y
  {
    hide Less, Ordered, Stamped, Sub, Contents;
    var c := SetRec(t.left, key, value, version).tree;
    Sides(c);
    TallIsLarge(c.right);
    assert SetRec(t, key, value, version).tree == RotatedTwiceRight(t, c, version);
    SetKeeps(t, key, value, version);
    SubFormed(x, SetRec(t, key, value, version).tree);
    OnlyLow(t, c, version, x, y);
    JoinedLow(t, key, value, version, x, y);
  }

  lemma JoinedLow(t: Tree, key: Bytes, value: Bytes, version: nat, low: Tree, y: Tree)
    requires WellFormed(t) && t.Branch? && t.version <= version && Less(key, t.key) && !PinchedHere(t, key, version)
    requires !SetRec(t.left, key, value, version).updated && Sub(y, t)
    requires var c := SetRec(t.left, key, value, version).tree;
      && WellFormed(c) && c.Branch? && Height(c) == Height(t.right) + 2 && Balance(c) < 0 && c.right.Branch?
      && Less(MaxKey(c), t.key) && low == Join(c.key, version, c.left, c.right.left)
    requires WellFormed(low)
    ensures SameChildren(low, y) ==> low == y
  {
    hide Rebalance, Contents;
    LessOrder();
    var c := SetRec(t.left, key, value, version).tree;
    if SameChildren(low, y) {
      SubFormed(c.right.left, c);
      NotWholeLow(t, c, low, y);
      LowPair(t, key, value, version, y);
      SubFormed(y, t);
    }
  }

  lemma NotWholeLow(t: Tree, c: Tree, low: Tree, y: Tree)
    requires WellFormed(t) && t.Branch? && WellFormed(c) && Less(MaxKey(c), t.key) && Sub(y, t)
    requires SameChildren(low, y) && Sub(low.right, c)
    ensures Sub(y, t.left)
  {
    LessOrder();
    SubFormed(low.right, c);
    OrderedSpan(low.right);
    OrderedSpan(t.right);
    if y != t && !Sub(y, t.left) { SubFormed(y, t.right); OrderedSpan(y); }
  }

  /** A larger right side, likewise. */
  lemma RightGrown(t: Tree, key: Bytes, value: Bytes, version: nat, x: Tree, y: Tree)
    requires WellFormed(t) && t.Branch? && t.version <= version && !Less(key, t.key)
    requires var c := SetRec(t.right, key, value, version); !c.updated && KeepsStamps(t.right, c.tree)
    requires Sub(x, SetRec(t, key, value, version).tree) && Sub(y, t) && SameChildren(x, y)
    ensures x == y
  {
    hide KeepsStamps, Stamped, Sub, Contents;
    var c := SetRec(t.right, key, value, version).tree;
    var j := Join(t.key, version, t.left, c);
    GrownRight(t, key, value, version);
    if Sub(x, c) || Sub(x, t.left) {
      OldOnRight(t, c, x, y);
    } else if Balance(j) >= -1 {
      RightSpans(t, c);
      Opened(x, j);
      NotAcross(t, j, y);
    } else if Balance(c) <= 0 {
      GrownTurnedLeft(t, c, version, x, y);
    } else {
      GrownTurnedTwiceLeft(t, key, value, version, x, y);
    }
  }

  lemma GrownRight(t: Tree, key: Bytes, value: Bytes, version: nat)
    requires WellFormed(t) && t.Branch? && t.version <= version && !Less(key, t.key)
    requires !SetRec(t.right, key, value, version).updated
    ensures var c := SetRec(t.right, key, value, version).tree;
      && WellFormed(c) && AtMost(t.key, MinKey(c)) && Size(c) == Size(t.right) + 1
      && -1 <= Height(c) - Height(t.left) <= 2 && c.version == version
  {
    hide Rebalance, Contents;
    LessOrder();
    SetKeeps(t.right, key, value, version);
    SetBalances(t.right, key, value, version);
    SetOrders(t.right, key, value, version);
  }

  lemma GrownTurnedLeft(t: Tree, c: Tree, version: nat, x: Tree, y: Tree)
    requires WellFormed(t) && t.Branch? && WellFormed(c) && c.Branch? && AtMost(t.key, MinKey(c)) && Sub(y, t)
    requires Size(c) == Size(t.right) + 1 && Height(c) == Height(t.left) + 2 && Balance(c) <= 0
    requires Sub(x, RotateLeft(Join(t.key, version, t.left, c), version)) && !Sub(x, c) && !Sub(x, t.left)
    ensures !SameChildren(x, y)
  {
    hide Less, Ordered, Stamped, Sub;
    var low := Join(t.key, version, t.left, c.left);
    var top := Join(c.key, version, low, c.right);
    assert top == RotateLeft(Join(t.key, version, t.left, c), version);
    Opened(x, top);
    if Sub(x, low) { Opened(x, low); }
    Reaches(x, c);
    Sides(t);
    Sides(c);
    RightSpans(t, c);
    HighPartSpan(t, c, c.left);
    HighPartSpan(t, c, c.right);
    TallIsLarge(c.right);
    ChildrenSmaller(t, t);
    ChildrenSmaller(c, c);
    NotAcross(t, low, y);
    NotAcross(t, top, y);
  }

  lemma HighPartSpan(t: Tree, c: Tree, x: Tree)
    requires WellFormed(t) && t.Branch? && WellFormed(c) && c.Branch? && AtMost(t.key, MinKey(c))
    requires x == c.left || x == c.right || (c.left.Branch? && x == c.left.left)
    ensures !Less(MaxKey(x), t.key)
  {
    LessOrder();
    SubFormed(x, c);
    OrderedSpan(x);
  }

  function RotatedTwiceLeft(t: Tree, c: Tree, version: nat): Tree
    requires t.Branch? && c.Branch? && c.left.Branch?
  {
    var m := c.left;
    Join(m.key, version, Join(t.key, version, t.left, m.left), Join(c.key, version, m.right, c.right))
  }

  lemma OnlyHigh(t: Tree, c: Tree, version: nat, x: Tree, y: Tree)
    requires WellFormed(t) && t.Branch? && WellFormed(c) && c.Branch? && c.left.Branch?
    requires AtMost(t.key, MinKey(c)) && Size(c) == Size(t.right) + 1 && Sub(y, t)
    requires Sub(x, RotatedTwiceLeft(t, c, version)) && !Sub(x, c) && !Sub(x, t.left) && SameChildren(x, y)
    ensures x == Join(c.key, version, c.left.right, c.right)
  {
    hide Less, Ordered, Stamped, Balanced, Sub;
    var m := c.left;
    var low, high := Join(t.key, version, t.left, m.left), Join(c.key, version, m.right, c.right);
    var top := Join(m.key, version, low, high);
    Opened(x, top);
    if Sub(x, low) { Opened(x, low); }
    if Sub(x, high) { Opened(x, high); }
    Reaches(x, c);
    Reaches(x, m);
    Sides(t);
    Sides(c);
    RightSpans(t, c);
    HighPartSpan(t, c, c.right);
    HighPartSpan(t, c, m.left);
    ChildrenSmaller(t, t);
    ChildrenSmaller(c, c);
    ChildrenSmaller(m, m);
    NotAcross(t, low, y);
    NotAcross(t, top, y);
  }

  lemma GrownTurnedTwiceLeft(t: Tree, key: Bytes, value: Bytes, version: nat, x: Tree, y: Tree)
    requires WellFormed(t) && t.Branch? && t.version <= version && !Less(key, t.key)
    requires !SetRec(t.right, key, value, version).updated
    requires var c := SetRec(t.right, key, value, version).tree;
      && WellFormed(c) && c.Branch? && AtMost(t.key, MinKey(c)) && Size(c) == Size(t.right) + 1
      && Height(c) == Height(t.left) + 2 && Balance(c) > 0 && !Sub(x, c) && !Sub(x, t.left)
    requires Sub(x, SetRec(t, key, value, version).tree) && Sub(y, t) && SameChildren(x, y)
    ensures x == y
  {
    hide Less, Ordered, Stamped, Sub, Contents;
    var c := SetRec(t.right, key, value, version).tree;
    Sides(c);
    TallIsLarge(c.left);
    assert SetRec(t, key, value, version).tree == RotatedTwiceLeft(t, c, version);
    SetKeeps(t, key, value, version);
    SubFormed(x, SetRec(t, key, value, version).tree);
    OnlyHigh(t, c, version, x, y);
    JoinedHigh(t, key, value, version, x, y);
  }

  lemma JoinedHigh(t: Tree, key: Bytes, value: Bytes, version: nat, high: Tree, y: Tree)
    requires WellFormed(t) && t.Branch? && t.version <= version && !Less(key, t.key)
    requires !SetRec(t.right, key, value, version).updated && Sub(y, t)
    requires var c := SetRec(t.right, key, value, version).tree;
      && WellFormed(c) && c.Branch? && Height(c) == Height(t.left) + 2 && Balance(c) > 0 && c.left.Branch?
      && AtMost(t.key, MinKey(c)) && high == Join(c.key, version, c.left.right, c.right)
    requires WellFormed(high)
    ensures SameChildren(high, y) ==> high == y
  {
    hide Rebalance, Contents;
    LessOrder();
    var c := SetRec(t.right, key, value, version).tree;
    if SameChildren(high, y) {
      SubFormed(c.left.right, c);
      NotWholeHigh(t, c, high, y);
      HighPair(t, key, value, version, y);
      SubFormed(y, t);
    }
  }

  lemma NotWholeHigh(t: Tree, c: Tree, high: Tree, y: Tree)
    requires WellFormed(t) && t.Branch? && WellFormed(c) && AtMost(t.key, MinKey(c)) && Sub(y, t)
    requires SameChildren(high, y) && Sub(high.left, c)
    ensures Sub(y, t.right)
  {
    LessOrder();
    SubFormed(high.left, c);
    OrderedSpan(high.left);
    OrderedSpan(t.left);
    if y != t && !Sub(y, t.right) { SubFormed(y, t.left); OrderedSpan(y); }
  }

  /** A new value for a key: only a path is stamped, and each branch on it has a new child. */
  lemma Overwritten(t: Tree, key: Bytes, value: Bytes, version: nat, x: Tree, y: Tree)
    requires WellFormed(t) && t.Branch? && t.version <= version
    requires var side := if Less(key, t.key) then t.left else t.right;
      var c := SetRec(side, key, value, version); c.updated && KeepsStamps(side, c.tree)
    requires Sub(x, SetRec(t, key, value, version).tree) && Sub(y, t) && SameChildren(x, y)
    ensures x == y
  {
    hide KeepsStamps, Sub, Contents, Rebalance, Balanced;
    LessOrder();
    Sides(t);
    OrderedSpan(t.left);
    OrderedSpan(t.right);
    var side := if Less(key, t.key) then t.left else t.right;
    var c, r := SetRec(side, key, value, version).tree, SetRec(t, key, value, version).tree;
    SetKeeps(t, key, value, version);
    SetKeeps(side, key, value, version);
    SetOrders(side, key, value, version);
    Opened(x, r);
    if x == r {
      OrderedSpan(c);
      AcrossOnly(t, x, y);
      SameUpToStamp(x, t);
    } else if Less(key, t.key) {
      OldOnLeft(t, c, x, y);
    } else {
      OldOnRight(t, c, x, y);
    }
  }

  /** Unless it splits a pair, a set stamps a branch only because one of its children is another. */
  lemma {:induction false} SetKeepsStamps(t: Tree, key: Bytes, value: Bytes, version: nat)
    requires WellFormed(t) && t.version <= version && !Pinched(t, key, version)
    ensures KeepsStamps(t, SetRec(t, key, value, version).tree)
  {
    hide WellFormed, Rebalance, Contents;
    var r := SetRec(t, key, value, version).tree;
    if t.Branch? {
      Sides(t);
      SubFormed(t.left, t);
      SubFormed(t.right, t);
      SetKeepsStamps(if Less(key, t.key) then t.left else t.right, key, value, version);
    }
    forall x, y | Sub(x, r) && Sub(y, t) && SameChildren(x, y) ensures x == y {
      SetKeepsStamp(t, key, value, version, x, y);
    }
  }

  lemma SetKeepsStamp(t: Tree, key: Bytes, value: Bytes, version: nat, x: Tree, y: Tree)
    requires WellFormed(t) && t.Branch? && t.version <= version && !PinchedHere(t, key, version)
    requires var side := if Less(key, t.key) then t.left else t.right;
      KeepsStamps(side, SetRec(side, key, value, version).tree)
    requires Sub(x, SetRec(t, key, value, version).tree) && Sub(y, t) && SameChildren(x, y)
    ensures x == y
  {
    hide *;
    if SetRec(if Less(key, t.key) then t.left else t.right, key, value, version).updated {
      Overwritten(t, key, value, version, x, y);
    } else if Less(key, t.key) {
      LeftGrown(t, key, value, version, x, y);
    } else {
      RightGrown(t, key, value, version, x, y);
    }
  }

  /** A pair that is split and joined again has the old children and the new stamp. */
  lemma {:induction false} PinchRestamps(t: Tree, key: Bytes, value: Bytes, version: nat) returns (x: Tree, y: Tree)
    requires WellFormed(t) && t.version <= version && Pinched(t, key, version)
    ensures var r := SetRec(t, key, value, version);
      !r.updated && Height(r.tree) == Height(t) && Sub(x, r.tree) && Sub(y, t) && SameChildren(x, y) && x != y
  {
    hide Ordered, Stamped;
    if PinchedHere(t, key, version) {
      PairRestamped(t, key, value, version);
      x, y := SetRec(t, key, value, version).tree.left, t.left;
    } else if Less(key, t.key) {
      SubFormed(t.left, t);
      x, y := PinchRestamps(t.left, key, value, version);
    } else {
      SubFormed(t.right, t);
      x, y := PinchRestamps(t.right, key, value, version);
    }
  }

  lemma PairRestamped(t: Tree, key: Bytes, value: Bytes, version: nat)
    requires WellFormed(t) && t.Branch? && PinchedHere(t, key, version)
    ensures var r := SetRec(t, key, value, version);
      !r.updated && r.tree.Branch? && r.tree.height == t.height && r.tree.left == Stamp(t.left, version)
  {
    LessOrder();
    ChildrenSmaller(t, t);
    ChildrenSmaller(t.left, t.left);
    OneIsLeaf(t.left.left);
    OneIsLeaf(t.left.right);
    OneIsLeaf(t.right);
    BehindPair(t.left, key, value, version);
  }

  lemma BehindPair(p: Tree, key: Bytes, value: Bytes, version: nat)
    requires WellFormed(p) && p.Branch? && p.left.Leaf? && p.right.Leaf? && Less(p.right.key, key)
    ensures SetRec(p, key, value, version) ==
      SetResult(Join(p.key, version, p.left, Branch(key, version, 1, 2, p.right, Leaf(key, value, version))), false)
  {
    LessOrder();
  }

  lemma OneIsLeaf(t: Tree)
    requires WellFormed(t) && Size(t) == 1
    ensures t.Leaf?
  {
    if t.Branch? { ChildrenSmaller(t, t); }
  }

  /** The exact condition: a set stamps a branch anew only for a new child, unless it splits a pair on its path. */
  lemma SetStampsExact(t: Tree, key: Bytes, value: Bytes, version: nat)
    requires WellFormed(t) && t.version <= version
    ensures KeepsStamps(t, SetRec(t, key, value, version).tree) <==> !Pinched(t, key, version)
  {
    if Pinched(t, key, version) {
      var x, y := PinchRestamps(t, key, value, version);
    } else {
      SetKeepsStamps(t, key, value, version);
    }
  }

  function Pair(a: Bytes, b: Bytes, version: nat): Tree {
    Branch(b, version, 1, 2, Leaf(a, [], 1), Leaf(b, [], 1))
  }

  /** The smallest case: beside d the pair of a and b gets the stamp 2 when c is set, and nothing else of it changes. */
  lemma PairStampedAnew(a: Bytes, b: Bytes, c: Bytes, d: Bytes)
    requires Less(a, b) && Less(b, c) && Less(c, d)
    ensures var t := Branch(d, 1, 2, 3, Pair(a, b, 1), Leaf(d, [], 1));
      WellFormed(t) && Sub(Pair(a, b, 1), t) && Sub(Pair(a, b, 2), SetRec(t, c, [], 2).tree)
  {
    LessOrder();
    PairRestamped(Branch(d, 1, 2, 3, Pair(a, b, 1), Leaf(d, [], 1)), c, [], 2);
  }
}
