/** Any number of trees copied from one another, each with its own writer, over one shared heap of
    nodes: whatever is done to one of them, in whatever order, the others do not notice. */
module Forest {
  import opened Bytes
  import opened MemNodes
  import opened Trees
  import Hashing
  import V = Versioned

  /** One call on the tree at position `i`; a copy is appended to the list of trees. */
  datatype Action =
    | SetAt(i: nat, key: Bytes, value: Option<Bytes>)
    | RemoveAt(i: nat, key: Bytes)
    | SaveAt(i: nat, updateHash: bool)
    | HashAt(i: nat)
    | CopyOf(i: nat)

  /** The same call on independent values. */
  function Step(vals: seq<V.State>, a: Action): seq<V.State>
    requires a.i < |vals|
  {
    match a
    case SetAt(i, k, v) => vals[i := V.Put(vals[i], k, V.Normalise(v))]
    case RemoveAt(i, k) => vals[i := V.Delete(vals[i], k)]
    case SaveAt(i, _) => vals[i := V.SaveVersion(vals[i])]
    case HashAt(_) => vals
    case CopyOf(i) => vals + [vals[i]]
  }

  /** Trees whose root is still the one a snapshot was opened with: setting or removing may replace it. */
  function StepLoaded(loaded: seq<bool>, a: Action): (r: seq<bool>)
    requires a.i < |loaded|
    ensures |r| == if a.CopyOf? then |loaded| + 1 else |loaded|
  {
    match a
    case SetAt(i, _, _) => loaded[i := false]
    case RemoveAt(i, _) => loaded[i := false]
    case CopyOf(i) => loaded + [loaded[i]]
    case _ => loaded
  }

  /** The trees marked as loaded have no root in memory. */
  ghost predicate StillLoaded(ts: seq<Tree>, loaded: seq<bool>)
    reads ts
  {
    |loaded| == |ts| && forall k :: 0 <= k < |ts| && loaded[k] ==> !ts[k].root.Mem?
  }

  /** The trees are different objects and the writer of `a` may edit no node that `b` reaches. */
  ghost predicate Apart(a: Tree, b: Tree)
    reads a, Handle(a.root), Foot(a.root), b, Handle(b.root)
  {
    a != b && a.Editable() !! Foot(b.root)
  }

  ghost function Members(ts: seq<Tree>): set<Tree> { set t | t in ts }

  ghost function HandlesOf(ts: seq<Tree>): set<MemNode>
    reads ts
  {
    set t, m | t in ts && m in Handle(t.root) :: m
  }

  ghost function FeetOf(ts: seq<Tree>): set<MemNode>
    reads ts, HandlesOf(ts)
  {
    set t, m | t in ts && m in Foot(t.root) :: m
  }

  /** All trees are valid, they are pairwise apart, and they denote `vals`. */
  ghost predicate Denote(ts: seq<Tree>, vals: seq<V.State>)
    reads ts, HandlesOf(ts), FeetOf(ts)
  {
    && |ts| == |vals|
    && (forall k :: 0 <= k < |ts| ==> ts[k].Valid() && ts[k].Value() == vals[k])
    && (forall j, k :: 0 <= j < |ts| && 0 <= k < |ts| && j != k ==> Apart(ts[j], ts[k]))
  }

  /** Seen from every other tree nothing changed: same value, same nodes, same editable nodes. */
  twostate predicate Untouched(t: Tree)
    reads t, Handle(t.root), Foot(t.root)
  {
    && t.Valid() && t.Value() == old(t.Value())
    && Foot(t.root) == old(Foot(t.root)) && t.Editable() == old(t.Editable())
  }

  method PerformSet(ts: seq<Tree>, i: nat, key: Bytes, value: Option<Bytes>, ghost vals: seq<V.State>)
    requires Denote(ts, vals) && i < |ts|
    modifies ts[i], ts[i].Editable()
    ensures Denote(ts, vals[i := V.Put(vals[i], key, V.Normalise(value))])
    ensures forall t :: t in ts ==> fresh(Foot(t.root) - old(Foot(t.root)))
  {
    hide MemNode.Valid, V.Valid, V.Put, V.Normalise, V.Entries, Ok, Hashing.Hash;
    ts[i].Set(key, value);
    forall j | 0 <= j < |ts| && j != i
      ensures Untouched(ts[j])
    {
      assert old(Apart(ts[i], ts[j]));
    }
  }

  method PerformRemove(ts: seq<Tree>, i: nat, key: Bytes, ghost vals: seq<V.State>)
    requires Denote(ts, vals) && i < |ts|
    modifies ts[i], ts[i].Editable()
    ensures Denote(ts, vals[i := V.Delete(vals[i], key)])
    ensures forall t :: t in ts ==> fresh(Foot(t.root) - old(Foot(t.root)))
  {
    hide MemNode.Valid, V.Valid, V.Delete, Ok, Hashing.Hash;
    ts[i].Remove(key);
    forall j | 0 <= j < |ts| && j != i
      ensures Untouched(ts[j])
    {
      assert old(Apart(ts[i], ts[j]));
    }
  }

  /** Hash caches filled through another tree are invisible to this one. */
  twostate lemma StillValid(t: Tree)
    requires old(t.Valid()) && unchanged(t)
    requires OnlyHashes(old(Foot(t.root))) && HashesFilled(old(Foot(t.root)))
    ensures Untouched(t)
  {
    hide MemNode.Valid, V.Valid;
    if t.root != Nil {
      StillOk(t.root);
    }
  }

  method PerformSave(ts: seq<Tree>, i: nat, updateHash: bool, ghost vals: seq<V.State>)
    requires Denote(ts, vals) && i < |ts|
    modifies {ts[i]}`version, Foot(ts[i].root)`hash
    ensures Denote(ts, vals[i := V.SaveVersion(vals[i])])
    ensures forall t :: t in ts ==> Foot(t.root) == old(Foot(t.root))
  {
    hide MemNode.Valid, V.Valid, V.SaveVersion, Ok, Hashing.Hash, Tree.Valid, Tree.Value, Tree.Editable;
    var hash, ok := ts[i].SaveVersion(updateHash);
    forall j | 0 <= j < |ts| && j != i
      ensures Untouched(ts[j])
    {
      assert old(Apart(ts[i], ts[j]));
      StillValid(ts[j]);
    }
  }

  method PerformHash(ts: seq<Tree>, i: nat, ghost vals: seq<V.State>) returns (h: Bytes)
    requires Denote(ts, vals) && i < |ts|
    modifies Foot(ts[i].root)`hash
    ensures Denote(ts, vals) && h == Hashing.RootHash(vals[i].root)
    ensures forall t :: t in ts ==> Foot(t.root) == old(Foot(t.root))
  {
    hide MemNode.Valid, V.Valid, Ok, Hashing.RootHash, Hashing.Hash;
    h := ts[i].RootHash();
    forall j | 0 <= j < |ts| && j != i
      ensures Untouched(ts[j])
    {
      assert old(Apart(ts[i], ts[j]));
      StillValid(ts[j]);
    }
  }

  lemma AddTree(ts: seq<Tree>, vals: seq<V.State>, c: Tree)
    requires Denote(ts, vals) && c.Valid()
    requires forall j :: 0 <= j < |ts| ==> Apart(ts[j], c) && Apart(c, ts[j])
    ensures Denote(ts + [c], vals + [c.Value()])
  {
    hide Tree.Valid, Tree.Value, Apart;
  }

  method CopyAt(ts: seq<Tree>, i: nat, ghost vals: seq<V.State>) returns (c: Tree)
    requires Denote(ts, vals) && i < |ts| && ts[i].Committed()
    modifies {ts[i]}`cowVersion
    ensures fresh(c) && c.Valid() && c.Value() == vals[i] && ts[i].root == c.root == old(ts[i].root)
    ensures Denote(ts, vals)
    ensures forall j :: 0 <= j < |ts| ==> Apart(ts[j], c) && Apart(c, ts[j])
  {
    hide MemNode.Valid, V.Valid;
    c := ts[i].Copy(0);
    forall j | 0 <= j < |ts| && j != i
      ensures Untouched(ts[j]) && Apart(ts[j], ts[i]) && Apart(ts[i], ts[j])
    {
      assert old(Apart(ts[j], ts[i]));
    }
  }

  method PerformCopy(ts: seq<Tree>, i: nat, ghost vals: seq<V.State>) returns (c: Tree)
    requires Denote(ts, vals) && i < |ts| && ts[i].Committed()
    modifies {ts[i]}`cowVersion
    ensures fresh(c) && c.root == ts[i].root == old(ts[i].root) && Foot(c.root) == old(Foot(ts[i].root))
    ensures forall t :: t in ts ==> Foot(t.root) == old(Foot(t.root))
    ensures Denote(ts + [c], vals + [vals[i]])
  {
    hide MemNode.Valid, V.Valid, Apart;
    c := CopyAt(ts, i, vals);
    AddTree(ts, vals, c);
  }

  /** A copy may be taken of a tree as it was loaded, and of a committed one. */
  predicate MayCopy(s: V.State, loaded: bool) { loaded || V.Committed(s) }

  lemma CopyCommitted(t: Tree, loaded: bool)
    requires t.Valid() && MayCopy(t.Value(), loaded) && (loaded ==> !t.root.Mem?)
    ensures t.Committed()
  {
    hide MemNode.Valid, V.Valid;
    if t.root != Nil { View(t.root); }
  }

  /** One action on one tree: every tree afterwards denotes what independent values would. */
  method Perform(ts: seq<Tree>, a: Action, ghost vals: seq<V.State>, ghost loaded: seq<bool>)
    returns (out: seq<Tree>)
    requires Denote(ts, vals) && StillLoaded(ts, loaded) && a.i < |ts|
    requires a.CopyOf? ==> MayCopy(vals[a.i], loaded[a.i])
    modifies Members(ts), FeetOf(ts)
    ensures Denote(out, Step(vals, a)) && StillLoaded(out, StepLoaded(loaded, a))
    ensures fresh(Members(out) - Members(ts)) && fresh(FeetOf(out) - old(FeetOf(ts)))
  {
    hide MemNode.Valid, V.Valid, V.Put, V.Delete, V.SaveVersion, Denote, MayCopy;
    out := ts;
    Different(ts, vals);
    match a
    case SetAt(i, k, v) => PerformSet(ts, i, k, v, vals);
    case RemoveAt(i, k) => PerformRemove(ts, i, k, vals);
    case SaveAt(i, updateHash) => PerformSave(ts, i, updateHash, vals);
    case HashAt(i) => var h := PerformHash(ts, i, vals);
    case CopyOf(i) =>
      CopyValid(ts, i, vals);
      CopyCommitted(ts[i], loaded[i]);
      var c := PerformCopy(ts, i, vals);
      out := ts + [c];
  }

  lemma Different(ts: seq<Tree>, vals: seq<V.State>)
    requires Denote(ts, vals)
    ensures forall j, k :: 0 <= j < |ts| && 0 <= k < |ts| && j != k ==> ts[j] != ts[k]
  {
    hide Tree.Valid, Tree.Value;
    forall j, k | 0 <= j < |ts| && 0 <= k < |ts| && j != k ensures ts[j] != ts[k] {
      assert Apart(ts[j], ts[k]);
    }
  }

  lemma CopyValid(ts: seq<Tree>, i: nat, vals: seq<V.State>)
    requires Denote(ts, vals) && i < |ts|
    ensures |ts| == |vals| && ts[i].Valid() && ts[i].Value() == vals[i]
  {
    hide Tree.Valid, Tree.Value, Apart;
  }

  /** Every action names an existing tree, and copies are taken from committed trees or from trees as they
      were loaded. */
  predicate Legal(vals: seq<V.State>, loaded: seq<bool>, actions: seq<Action>)
    requires |loaded| == |vals|
    decreases |actions|
  {
    actions != [] ==>
      && actions[0].i < |vals|
      && (actions[0].CopyOf? ==> MayCopy(vals[actions[0].i], loaded[actions[0].i]))
      && Legal(Step(vals, actions[0]), StepLoaded(loaded, actions[0]), actions[1..])
  }

  function Run(vals: seq<V.State>, loaded: seq<bool>, actions: seq<Action>): seq<V.State>
    requires |loaded| == |vals| && Legal(vals, loaded, actions)
    decreases |actions|
  {
    if actions == [] then vals else Run(Step(vals, actions[0]), StepLoaded(loaded, actions[0]), actions[1..])
  }

  /** Copy-on-write isolation over whole runs: any sequence of sets, removals, saves, hash reads and
      copies, on any of the trees, computes on the shared heap what it computes on values. */
  method RunAll(ts: seq<Tree>, actions: seq<Action>, ghost vals: seq<V.State>, ghost loaded: seq<bool>)
    returns (out: seq<Tree>)
    requires Denote(ts, vals) && StillLoaded(ts, loaded) && Legal(vals, loaded, actions)
    modifies Members(ts), FeetOf(ts)
    ensures Denote(out, Run(vals, loaded, actions))
    decreases |actions|
  {
    hide Step, Tree.Valid, Tree.Value, Tree.Editable, Apart, StepLoaded, MayCopy;
    if actions == [] {
      out := ts;
    } else {
      var mid := Perform(ts, actions[0], vals, loaded);
      out := RunAll(mid, actions[1..], Step(vals, actions[0]), StepLoaded(loaded, actions[0]));
    }
  }

  /** The condition on copies is exact: on any tree whose root is newer than its saved version, a copy
      followed by a new value for any present key changes what the copy denotes. */
  method UncommittedCopyShares(t: Tree, key: Bytes, value: Bytes) returns (c: Tree)
    requires t.Valid() && t.root.Mem? && !t.Committed()
    requires key in V.Entries(t.Value()) && V.Entries(t.Value())[key].value != value
    modifies t, Foot(t.root)
    ensures c.Value() == t.Value() && V.Entries(c.Value()) != V.Entries(old(t.Value()))
  {
    hide MemNode.Valid, V.Valid, V.Put, V.Entries;
    c := t.Copy(0);
    V.PutKeeps(t.Value(), key, value);
    t.Set(key, Some(value));
  }
}
