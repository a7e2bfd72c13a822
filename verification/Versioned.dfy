/** One versioned tree as a value: the state behind `Tree`, its updates, and what
    every sequence of updates keeps. */
module Versioned {
  import opened Bytes
  import opened Avl

  const MAX_INT64: nat := 0x7fff_ffff_ffff_ffff

  /** The last saved version and the root; the empty tree has no root. */
  datatype State = State(version: nat, root: Option<Tree>)

  /** A change to one tree. A missing value is what decoding an empty value from the log yields. */
  datatype Op = Set(key: Bytes, value: Option<Bytes>) | Remove(key: Bytes) | Save

  function Normalise(value: Option<Bytes>): Bytes {
    if value.None? then [] else value.value
  }

  function Put(s: State, key: Bytes, value: Bytes): State {
    var version := s.version + 1;
    match s.root
    case None => s.(root := Some(Leaf(key, value, version)))
    case Some(t) => s.(root := Some(SetRec(t, key, value, version).tree))
  }

  function Delete(s: State, key: Bytes): State {
    match s.root
    case None => s
    case Some(t) =>
      match RemoveRec(t, key, s.version + 1)
      case Unchanged => s
      case Removed(_, newRoot, _) => s.(root := newRoot)
  }

  /** `SaveVersion` refuses to pass the largest signed 64-bit version. */
  function SaveVersion(s: State): State {
    if s.version + 1 > MAX_INT64 then s else s.(version := s.version + 1)
  }

  function Apply(s: State, op: Op): State {
    match op
    case Set(k, v) => Put(s, k, Normalise(v))
    case Remove(k) => Delete(s, k)
    case Save => SaveVersion(s)
  }

  function Run(s: State, ops: seq<Op>): State {
    if ops == [] then s else Apply(Run(s, ops[..|ops| - 1]), ops[|ops| - 1])
  }

  function Entries(s: State): map<Bytes, Item> { MaybeContents(s.root) }

  /** Well-formed, and nothing is stamped later than the version being built. */
  predicate Valid(s: State) {
    s.root.Some? ==> WellFormed(s.root.value) && s.root.value.version <= s.version + 1
  }

  /** Nothing has changed since the last `SaveVersion`. */
  predicate Committed(s: State) {
    s.root.Some? ==> s.root.value.version <= s.version
  }

  lemma PutKeeps(s: State, key: Bytes, value: Bytes)
    requires Valid(s)
    ensures Valid(Put(s, key, value)) && Put(s, key, value).version == s.version
    ensures Entries(Put(s, key, value)) == Entries(s)[key := Item(value, s.version + 1)]
  {
    hide SetRec;
    if s.root.Some? {
      SetKeeps(s.root.value, key, value, s.version + 1);
    }
  }

  /** A missing value, as an empty one comes back from the log, is set as an empty one. */
  lemma MissingIsEmpty(s: State, key: Bytes)
    requires Valid(s)
    ensures Apply(s, Set(key, None)) == Apply(s, Set(key, Some([])))
    ensures Entries(Apply(s, Set(key, None))) == Entries(s)[key := Item([], s.version + 1)]
  {
    hide Put, Entries, Valid;
    PutKeeps(s, key, []);
  }

  lemma SaveKeeps(s: State)
    requires Valid(s)
    ensures Valid(SaveVersion(s)) && SaveVersion(s).root == s.root && Entries(SaveVersion(s)) == Entries(s)
  {
  }

  lemma UpdatedIffPresent(s: State, key: Bytes, value: Bytes)
    requires Valid(s) && s.root.Some?
    ensures SetRec(s.root.value, key, value, s.version + 1).updated <==> key in Entries(s)
  {
    SetContents(s.root.value, key, value, s.version + 1);
  }

  lemma AbsentKey(m: map<Bytes, Item>, key: Bytes)
    requires key !in m
    ensures m - {key} == m
  {
  }

  lemma DeleteKeeps(s: State, key: Bytes)
    requires Valid(s)
    ensures Valid(Delete(s, key)) && Delete(s, key).version == s.version
    ensures Entries(Delete(s, key)) == Entries(s) - {key}
  {
    hide RemoveRec, WellFormed, Contents;
    if key !in Entries(s) { AbsentKey(Entries(s), key); }
    if s.root.Some? { RemoveKeeps(s.root.value, key, s.version + 1); }
  }

  /** The reference semantics: a map of stamped values, and the version being built. */
  datatype Reference = Reference(version: nat, entries: map<Bytes, Item>)

  function ApplyReference(r: Reference, op: Op): Reference {
    match op
    case Set(k, v) => r.(entries := r.entries[k := Item(Normalise(v), r.version + 1)])
    case Remove(k) => r.(entries := r.entries - {k})
    case Save => if r.version + 1 > MAX_INT64 then r else r.(version := r.version + 1)
  }

  function RunReference(r: Reference, ops: seq<Op>): Reference {
    if ops == [] then r else ApplyReference(RunReference(r, ops[..|ops| - 1]), ops[|ops| - 1])
  }

  /** Every run keeps the tree a version-stamped AVL search tree and computes the reference map. */
  lemma {:induction false} RunRefinesMap(s: State, ops: seq<Op>)
    requires Valid(s)
    ensures Valid(Run(s, ops))
    ensures Reference(Run(s, ops).version, Entries(Run(s, ops)))
         == RunReference(Reference(s.version, Entries(s)), ops)
  {
    hide Put, Delete, WellFormed, Contents;
    if ops != [] {
      var before := ops[..|ops| - 1];
      RunRefinesMap(s, before);
      match ops[|ops| - 1]
      case Set(k, v) => PutKeeps(Run(s, before), k, Normalise(v));
      case Remove(k) => DeleteKeeps(Run(s, before), k);
      case Save =>
    }
  }

  // ------------------------------------------------------------------ balance bound

  /** The fewest leaves of a balanced tree of the given height (a Fibonacci number). */
  function MinLeaves(height: nat): nat {
    if height == 0 then 1 else if height == 1 then 2 else MinLeaves(height - 1) + MinLeaves(height - 2)
  }

  lemma {:induction false} MinLeavesMonotone(a: nat, b: nat)
    requires a <= b
    ensures MinLeaves(a) <= MinLeaves(b)
  {
    if a < b { MinLeavesMonotone(a, b - 1); }
  }

  lemma {:induction false} AtLeastMinLeaves(t: Tree)
    requires Balanced(t)
    ensures MinLeaves(Height(t)) <= Size(t)
  {
    if t.Branch? {
      AtLeastMinLeaves(t.left);
      AtLeastMinLeaves(t.right);
      if t.height >= 2 {
        MinLeavesMonotone(t.height - 2, Height(t.left));
        MinLeavesMonotone(t.height - 2, Height(t.right));
      }
    }
  }

  lemma FiveLevels(h: nat, a: nat, b: nat)
    requires MinLeaves(h) >= a && MinLeaves(h + 1) >= b
    ensures MinLeaves(h + 5) >= 3 * a + 5 * b && MinLeaves(h + 6) >= 5 * a + 8 * b
  {
    assert MinLeaves(h + 3) == MinLeaves(h + 2) + MinLeaves(h + 1);
    assert MinLeaves(h + 5) == MinLeaves(h + 4) + MinLeaves(h + 3);
  }

  lemma {:induction false} ManyLeaves(height: nat)
    requires height >= 46
    ensures MinLeaves(height) >= 0x1_0000_0000
  {
    if height > 46 {
      ManyLeaves(height - 1);
    } else {
      var base := height - 46;
      FiveLevels(base, 1, 2);
      FiveLevels(base + 5, 13, 21);
      FiveLevels(base + 10, 144, 233);
      FiveLevels(base + 15, 1597, 2584);
      FiveLevels(base + 20, 17711, 28657);
      FiveLevels(base + 25, 196418, 317811);
      FiveLevels(base + 30, 2178309, 3524578);
      FiveLevels(base + 35, 24157817, 39088169);
      FiveLevels(base + 40, 267914296, 433494437);
    }
  }

  /** A tree that fits 32-bit leaf indices is at most 45 levels high. */
  lemma HeightBound(t: Tree)
    requires Balanced(t) && Size(t) < 0x1_0000_0000
    ensures Height(t) <= 45
  {
    AtLeastMinLeaves(t);
    if Height(t) > 45 { ManyLeaves(Height(t)); }
  }
}
