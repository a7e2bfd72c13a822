/** Replay: the same changes applied to a live tree and to one reloaded from its snapshot. */
module Replay {
  import opened Bytes
  import opened Snapshot
  import opened MemNodes
  import opened Trees
  import A = Avl
  import Hashing
  import V = Versioned

  /** Applies changes one after the other, in place where the tree allows it. */
  method ApplyAll(t: Tree, ops: seq<V.Op>)
    requires t.Valid()
    modifies t, Foot(t.root)
    ensures t.Valid() && t.Value() == V.Run(old(t.Value()), ops)
    ensures fresh(Foot(t.root) - old(Foot(t.root)))
  {
    hide MemNode.Valid, V.Valid, V.Put, V.Delete, V.SaveVersion, V.Entries;
    assert ops[..0] == [];
    for i := 0 to |ops|
      invariant t.Valid() && t.Value() == V.Run(old(t.Value()), ops[..i])
      invariant fresh(Foot(t.root) - old(Foot(t.root)))
    {
      assert ops[..i + 1][..i] == ops[..i];
      match ops[i]
      case Set(k, v) => t.Set(k, v);
      case Remove(k) => t.Remove(k);
      case Save => var hash, ok := t.SaveVersion(false);
    }
    assert ops[..|ops|] == ops;
  }

  /** Opens a snapshot and catches up: the changes are applied to the persisted tree. */
  method CatchUp(files: Files, version: nat, ops: seq<V.Op>, ghost written: Option<A.Tree>)
    returns (t: Tree, hash: Bytes)
    requires WrittenFrom(files, version, written)
    ensures t.Valid() && fresh(t) && fresh(Foot(t.root))
    ensures t.Value() == V.Run(V.State(version, written), ops)
    ensures hash == Hashing.RootHash(t.Value().root)
  {
    hide MemNode.Valid, V.Valid, V.Entries, Hashing.RootHash, V.Run, WrittenFrom;
    t := new Tree.FromSnapshot(files, version, 0, written);
    ApplyAll(t, ops);
    hash := t.RootHash();
  }

  /** Applies changes to a tree and hashes it. */
  method Advance(t: Tree, ops: seq<V.Op>) returns (hash: Bytes)
    requires t.Valid()
    modifies t, Foot(t.root)
    ensures t.Valid() && t.Value() == V.Run(old(t.Value()), ops)
    ensures fresh(Foot(t.root) - old(Foot(t.root)))
    ensures hash == Hashing.RootHash(t.Value().root)
  {
    hide MemNode.Valid, V.Valid, V.Entries, Hashing.RootHash, V.Run;
    ApplyAll(t, ops);
    hash := t.RootHash();
  }

  /** A tree reloaded from the snapshot of a live tree and fed the same changes ends in the same
      version, the same tree (keys, values, versions, heights, sizes) and the same root hash. */
  method ReplayMatches(live: Tree, files: Files, ops: seq<V.Op>) returns (reloaded: Tree, a: Bytes, b: Bytes)
    requires live.Valid() && WrittenFrom(files, live.version, live.Value().root)
    modifies live, Foot(live.root)
    ensures live.Valid() && reloaded.Valid() && fresh(reloaded)
    ensures reloaded.Value() == live.Value() == V.Run(old(live.Value()), ops)
    ensures a == b == Hashing.RootHash(live.Value().root)
  {
    hide MemNode.Valid, V.Valid, V.Entries, Hashing.RootHash, V.Run, WrittenFrom;
    reloaded, a := CatchUp(files, live.version, ops, live.Value().root);
    b := Advance(live, ops);
  }
}
