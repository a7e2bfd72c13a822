/** `Tree`: a version, a copy-on-write version and a root. Copies share nodes with the tree they were
    taken from; this module proves that they nevertheless behave as independent values. */
module Trees {
  import opened Bytes
  import A = Avl
  import E = Encoding
  import opened Hashing
  import opened MemNodes
  import opened Snapshot
  import opened Leaves
  import L = Lookup
  import V = Versioned

  class Tree {
    var version: nat
    var cowVersion: nat
    var root: Node

    /** Values by key, at most `cacheSize` of them; no cache when that is zero. */
    const cacheSize: nat
    var cache: map<Bytes, Bytes>

    ghost predicate Valid()
      reads this, Handle(root), Foot(root)
    {
      && cowVersion <= version
      && (root != Nil ==> Ok(root) && Handle(root) <= Foot(root))
      && V.Valid(Value())
      && Coherent(cache, Value()) && (cacheSize == 0 ==> cache == map[])
    }

    /** The tree as a value. */
    ghost function Value(): V.State
      reads this, Handle(root)
    {
      V.State(version, if root == Nil then None else Some(Denotes(root)))
    }

    /** The nodes this tree's writer may edit in place. */
    ghost function Editable(): set<MemNode>
      reads this, Handle(root), Foot(root)
    {
      Owned(root, cowVersion)
    }

    /** No in-memory node is newer than the saved version: nothing has changed since `SaveVersion`. */
    ghost predicate Committed()
      reads this, Handle(root)
    {
      root.Mem? ==> root.m.version <= version
    }

    /** An empty tree at an arbitrary version. */
    constructor (version: nat, cacheSize: nat)
      ensures Valid() && Value() == V.State(version, None) && root == Nil && cowVersion == 0 && cache == map[]
    {
      this.version, cowVersion, root := version, 0, Nil;
      this.cacheSize, cache := cacheSize, map[];
    }

    /** A tree over a snapshot that was written from `written`. */
    constructor FromSnapshot(files: Files, version: nat, cacheSize: nat, ghost written: Option<A.Tree>)
      requires WrittenFrom(files, version, written)
      ensures Valid() && Value() == V.State(version, written) && Foot(root) == {} && cowVersion == 0
    {
      this.version, cowVersion := version, 0;
      this.cacheSize, cache := cacheSize, map[];
      root := match Root(files) case None => Nil case Some(p) => Persisted(p);
      new;
      hide WriteTree, ValidNode, TreeOf, Hash;
      if written.Some? { RootDenotes(Hash, written.value); }
    }

    /** Adds an entry to the cache, evicting another one when the cache is full. */
    method AddToCache(key: Bytes, value: Bytes)
      requires cacheSize == 0 ==> cache == map[]
      modifies this`cache
      ensures cacheSize == 0 ==> cache == map[]
      ensures forall k :: k in cache ==>
        if k == key then cache[k] == value else k in old(cache) && cache[k] == old(cache[k])
    {
      if cacheSize > 0 {
        if key !in cache && |cache| >= cacheSize && cache != map[] {
          var victim :| victim in cache;
          cache := cache - {victim};
        }
        cache := cache[key := value];
      }
    }

    method Set(key: Bytes, value: Option<Bytes>)
      requires Valid()
      modifies this, Editable()
      ensures Valid() && cowVersion == old(cowVersion)
      ensures Value() == V.Put(old(Value()), key, V.Normalise(value))
      ensures fresh(Foot(root) - old(Foot(root))) && fresh(Editable() - old(Editable()))
      ensures old(root.Mem? && root.m.version > cowVersion) && key in V.Entries(old(Value())) ==> root == old(root)
    {
      hide MemNode.Valid, ValidNode, TreeOf, Hash, A.SetRec, V.Valid, V.Entries;
      var bytes := V.Normalise(value);
      ghost var before := Value();
      V.PutKeeps(before, key, bytes);
      if root != Nil { V.UpdatedIffPresent(before, key, bytes); }
      var newRoot, updated := SetRecursive(root, key, bytes, version + 1, cowVersion);
      View(Mem(newRoot));
      assert Some(newRoot.tree) == V.Put(before, key, bytes).root;
      root := Mem(newRoot);
      AddToCache(key, bytes);
    }

    method Remove(key: Bytes)
      requires Valid()
      modifies this, Editable()
      ensures Valid() && cowVersion == old(cowVersion)
      ensures Value() == V.Delete(old(Value()), key)
      ensures fresh(Foot(root) - old(Foot(root))) && fresh(Editable() - old(Editable()))
    {
      hide MemNode.Valid, ValidNode, TreeOf, Hash, A.RemoveRec, V.Valid;
      V.DeleteKeeps(Value(), key);
      var value, newRoot, newKey := RemoveRecursive(root, key, version + 1, cowVersion);
      root := newRoot;
      cache := cache - {key};
    }

    /** The root hash, computing and caching whatever is missing below. */
    method RootHash() returns (h: Bytes)
      requires Valid()
      modifies Foot(root)`hash
      ensures Valid() && Value() == old(Value())
      ensures h == Hashing.RootHash(Value().root)
      ensures HashesFilled(Foot(root)) && Editable() == old(Editable())
    {
      hide MemNode.Valid, A.WellFormed, Hash;
      if root == Nil {
        h := EmptyHash();
      } else {
        h := HashOf(root);
      }
    }

    /** Rank and value of a key. */
    method GetWithIndex(key: Bytes) returns (index: int, value: Option<Bytes>)
      requires Valid() && (root != Nil ==> A.Size(Denotes(root)) < E.TWO_32)
      ensures value == (if key in V.Entries(Value()) then Some(V.Entries(Value())[key].value) else None)
      ensures index == if root == Nil then 0 else Rank(Denotes(root), key)
    {
      hide MemNode.Valid, ValidNode, TreeOf, Hash, L.Get;
      if root == Nil {
        return 0, None;
      }
      L.GetFinds(root, key);
      var found := L.Get(root, key);
      return found.index, found.value;
    }

    /** The value of a key, from the cache when it is there: always what the tree holds. */
    method Get(key: Bytes) returns (value: Option<Bytes>)
      requires Valid() && (root != Nil ==> A.Size(Denotes(root)) < E.TWO_32)
      modifies this`cache
      ensures Valid() && Value() == old(Value())
      ensures value == (if key in V.Entries(Value()) then Some(V.Entries(Value())[key].value) else None)
    {
      hide MemNode.Valid, ValidNode, TreeOf, Hash, V.Valid, V.Entries;
      if key in cache {
        return Some(cache[key]);
      }
      var index;
      index, value := GetWithIndex(key);
      if value.Some? {
        AddToCache(key, value.value);
      }
    }

    /** Bumps the version; fails, changing nothing, past the largest signed 64-bit version. */
    method SaveVersion(updateHash: bool) returns (hash: Option<Bytes>, ok: bool)
      requires Valid()
      modifies this`version, Foot(root)`hash
      ensures Valid() && Value() == V.SaveVersion(old(Value()))
      ensures ok <==> old(version) + 1 <= V.MAX_INT64
      ensures ok && updateHash ==> hash == Some(Hashing.RootHash(old(Value()).root))
      ensures HashesFilled(Foot(root)) && Editable() == old(Editable())
    {
      hide MemNode.Valid, V.Valid, V.Entries, Hash;
      V.SaveKeeps(Value());
      if version + 1 > V.MAX_INT64 {
        return None, false;
      }
      hash := None;
      if updateHash {
        var h := RootHash();
        hash := Some(h);
      }
      version := version + 1;
      ok := true;
    }

    /** A second handle on the same nodes. Taken when nothing is uncommitted, it leaves neither tree
        a node it may edit in place. */
    method Copy(cacheSize: nat) returns (c: Tree)
      requires Valid()
      modifies this`cowVersion
      ensures Valid() && Value() == old(Value()) && root == old(root)
      ensures fresh(c) && c.Valid() && c.Value() == Value() && c.root == root && c.cowVersion == cowVersion
      ensures Committed() ==> Editable() == {} && c.Editable() == {}
    {
      hide MemNode.Valid, Hash, A.Balanced, A.Ordered;
      if root.Mem? {
        cowVersion := version;
      }
      c := new Tree(version, cacheSize);
      c.root, c.cowVersion := root, cowVersion;
      if root.Mem? {
        View(root);
        Newest(root);
      }
    }
  }

  /** The snapshot files of a tree at a version, or of the empty tree. */
  ghost predicate WrittenFrom(files: Files, version: nat, written: Option<A.Tree>) {
    match written
    case None => files == EMPTY
    case Some(t) =>
      && A.WellFormed(t) && t.version <= version + 1
      && Fits(EMPTY, t) && files == WriteTree(Hash, EMPTY, t)
  }

  /** Every cached value is the one in the tree. */
  predicate Coherent(cache: map<Bytes, Bytes>, s: V.State) {
    forall k :: k in cache ==> k in V.Entries(s) && V.Entries(s)[k].value == cache[k]
  }

  /** No node reachable from `n` is newer than `n`. */
  lemma {:induction false} Newest(n: Node)
    requires Ok(n) && A.Stamped(Denotes(n))
    ensures forall x :: x in Foot(n) ==> x.version <= Denotes(n).version
    decreases Denotes(n)
  {
    hide Hash;
    if n.Mem? && n.m.height > 0 {
      Newest(n.m.left);
      Newest(n.m.right);
    }
  }
}
