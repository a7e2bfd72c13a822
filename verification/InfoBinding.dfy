/** The commit info stands for the trees: two lists of well-formed trees with the same info are the same, or
    the digest function has a collision. */
module InfoBinding {
  import opened Bytes
  import opened MultiTrees
  import opened Hashing
  import opened HashBinding
  import A = Avl
  import V = Versioned

  predicate WellFormedTree(t: Named) { t.tree.root.Some? ==> A.WellFormed(t.tree.root.value) }

  lemma PreimageNotEmpty(t: A.Tree)
    ensures Preimage(t) != []
  {
    hide Tail, Preimage;
    PreimageSplits(t);
  }

  /** Two different roots, one of which may be missing, with one hash. */
  lemma RootBinds(a: V.State, b: V.State) returns (x: Bytes, y: Bytes)
    requires a.root.Some? ==> A.WellFormed(a.root.value)
    requires b.root.Some? ==> A.WellFormed(b.root.value)
    requires a.root != b.root && RootHash(a.root) == RootHash(b.root)
    ensures x != y && Sha256(x) == Sha256(y)
  {
    hide Hash, Preimage, A.WellFormed;
    if a.root.Some? && b.root.Some? {
      x, y := HashBinds(a.root.value, b.root.value);
    } else {
      var t := if a.root.Some? then a.root.value else b.root.value;
      HashIs(t);
      PreimageNotEmpty(t);
      x, y := [], Preimage(t);
    }
  }

  lemma InfosBind(a: seq<Named>, b: seq<Named>) returns (x: Bytes, y: Bytes)
    requires forall t :: t in a ==> WellFormedTree(t)
    requires forall t :: t in b ==> WellFormedTree(t)
    requires Infos(a) == Infos(b) && a != b
    ensures x != y && Sha256(x) == Sha256(y)
  {
    hide RootHash;
    var i := Differs(a, b);
    assert a[i] in a && b[i] in b;
    assert Infos(a)[i] == Infos(b)[i];
    x, y := RootBinds(a[i].tree, b[i].tree);
  }

  lemma Differs(a: seq<Named>, b: seq<Named>) returns (i: nat)
    requires Infos(a) == Infos(b) && a != b
    ensures i < |a| == |b| && a[i] != b[i]
  {
    hide Infos;
    assert |Infos(a)| == |a| && |Infos(b)| == |b|;
    i :| 0 <= i < |a| && a[i] != b[i];
  }
}
