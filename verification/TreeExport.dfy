/** Exporting one tree: straight from its snapshot when the versions agree, from its nodes otherwise. */
module TreeExport {
  import opened Bytes
  import opened Snapshot
  import opened MemNodes
  import opened Trees
  import opened Exporting
  import opened Importing
  import opened Marks
  import opened MultiTrees
  import opened PendingLog
  import opened Replay
  import A = Avl
  import E = Encoding
  import Hashing
  import V = Versioned

  /** The snapshot a tree was opened with. */
  datatype Source = Source(files: Files, version: nat)

  function Stream(root: Option<A.Tree>): seq<ExportNode> { if root.None? then [] else PostOrder(root.value) }

  /** The snapshot is exported whenever its version is the tree's, whatever has been changed since. */
  method Export(t: Tree, snapshot: Option<Source>, ghost written: Option<A.Tree>) returns (out: seq<ExportNode>)
    requires t.Valid()
    requires snapshot.Some? ==> WrittenFrom(snapshot.value.files, snapshot.value.version, written)
    requires written.Some? ==> written.value.version <= V.MAX_INT64
    ensures out == Stream(if snapshot.Some? && t.version == snapshot.value.version then written else t.Value().root)
  {
    hide MemNode.Valid, V.Valid, PostOrder, WriteTree, A.WellFormed, ValidNode, TreeOf, Hashing.Hash;
    if snapshot.Some? && t.version == snapshot.value.version {
      if written.Some? { SnapshotExports(snapshot.value.files, written.value); }
      out := ExportFiles(snapshot.value.files, written);
    } else {
      out := ScanPostOrder(t.root);
    }
  }

  // ------------------------------------------------------------------ when that is the tree's own stream

  lemma {:induction false} StreamLength(t: A.Tree)
    requires A.Balanced(t)
    ensures |PostOrder(t)| == 2 * A.Size(t) - 1 && A.Size(t) >= 1
  {
    if t.Branch? {
      StreamLength(t.left);
      StreamLength(t.right);
    }
  }

  /** Two trees with one stream are the same, if one of them can be stored. */
  lemma StreamInjective(t: A.Tree, u: A.Tree)
    requires A.WellFormed(t) && A.WellFormed(u) && A.Size(t) < E.TWO_32
    requires t.version <= V.MAX_INT64 && u.version <= V.MAX_INT64
    ensures PostOrder(t) == PostOrder(u) <==> t == u
  {
    hide PostOrder;
    if PostOrder(t) == PostOrder(u) {
      StreamLength(t);
      StreamLength(u);
      V.HeightBound(t);
      V.HeightBound(u);
      FitsExport(t);
      FitsExport(u);
      PostOrderInjective(t, u);
    }
  }

  /** The stream of a committed tree is that of the tree after some changes exactly when they leave no mark. */
  lemma ExportExact(s: V.State, pairs: seq<Pair>)
    requires V.Valid(s) && V.Committed(s) && s.version < V.MAX_INT64 && Marks.Leaves(s) < E.TWO_32
    ensures Stream(s.root) == Stream(ApplyPairs(s, pairs).root) <==> Unmarked(s, pairs)
  {
    hide PostOrder, ApplyPairs, Unmarked, A.Balanced, A.Ordered, A.Stamped;
    var r := ApplyPairs(s, pairs);
    PairsSound(s, pairs);
    UnmarkedExact(s, pairs);
    if s.root.Some? { StreamLength(s.root.value); }
    if r.root.Some? { StreamLength(r.root.value); }
    if s.root.Some? && r.root.Some? { StreamInjective(s.root.value, r.root.value); }
  }

  function OpsOf(pairs: seq<Pair>): seq<V.Op> {
    if pairs == [] then []
    else
      var last := pairs[|pairs| - 1];
      OpsOf(pairs[..|pairs| - 1]) + [if last.delete then V.Remove(last.key) else V.Set(last.key, last.value)]
  }

  lemma {:induction false} RunsAsPairs(s: V.State, pairs: seq<Pair>)
    ensures V.Run(s, OpsOf(pairs)) == ApplyPairs(s, pairs)
  {
    hide V.Put, V.Delete;
    if pairs != [] {
      var front := pairs[..|pairs| - 1];
      RunsAsPairs(s, front);
      assert OpsOf(pairs)[..|OpsOf(pairs)| - 1] == OpsOf(front);
    }
  }

  /** A tree opened from a snapshot, changed and exported before it is saved: the stream is that of the tree
      exactly when the changes leave no mark on it. */
  method ExportChanged(files: Files, version: nat, pairs: seq<Pair>, ghost written: Option<A.Tree>)
    returns (t: Tree, out: seq<ExportNode>)
    requires WrittenFrom(files, version, written) && version < V.MAX_INT64
    requires V.Committed(V.State(version, written))
    ensures t.Valid() && t.Value() == ApplyPairs(V.State(version, written), pairs)
    ensures out == Stream(t.Value().root) <==> Unmarked(V.State(version, written), pairs)
  {
    hide MemNode.Valid, Unmarked, ApplyPairs, Stream, WriteTree, V.Run, ValidNode, TreeOf, Hashing.Hash, A.Balanced,
      A.Ordered, A.Stamped;
    t := new Tree.FromSnapshot(files, version, 0, written);
    ghost var s := t.Value();
    ApplyAll(t, OpsOf(pairs));
    RunsAsPairs(s, pairs);
    PairsSound(s, pairs);
    out := Export(t, Some(Source(files, version)), written);
    ExportExact(s, pairs);
  }
}
